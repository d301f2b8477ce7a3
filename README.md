# vpn: a verified model of the subnet cache

The Go package `vpn` (prophittcorey/vpn) tells whether an IP address belongs
to a known VPN provider. It keeps a registry `Sources` of origins, such as
`"x4b-merged"`. Each origin has one or more source locations (URLs), and each
location caches the raw bytes of its list: one CIDR per white-space-separated
token. On a refresh the package fetches every location, parses the bytes into
a snapshot `networks.subnets` (origin -> subnets), clears the byte cache and
records the time. `Check(addr)` parses the address, refreshes when the cache
is stale and returns the first origin whose list contains the address.
`Subnets()` refreshes the same way and returns every subnet.

This project models that core in Dafny and proves its properties:

- `wrappers.dfy`: `Option` and `Result`.
- `bytes.dfy`: bytes and `bytes.Fields`. It also has `Join`, the inverse of
  `Fields`, used to write list files.
- `enumeration.dfy`: Go's unspecified map iteration order, written as an
  enumeration of the key set.
  - `ConcatOver` concatenates per-key lists in a given order.
  - `Pool` is the multiset of everything those lists hold. The lemmas show
    that `Pool` does not depend on the order.
- `net.dfy`: addresses as 32 bits, `IPNet.Contains`, and parsers and
  formatters for the dotted quad, the `::ffff:` form and IPv4 CIDR. The
  lemmas cover round trips and the literals of the tests.
- `vpn.dfy`: the registry and snapshot types, the specification functions
  (`Merge`, `FetchInto`, `Cleared`, `RefreshStep`), the merge, lookup and
  flattening loops, and the class `Cache`. `Cache` holds the package-level
  state, and its methods are `StoreFetched`, `ClearByteCache`, `Refresh`,
  `Check` and `Subnets`.
- `vpn_facts.dfy`: properties of the merge, the refresh and the answers.
- `vpn_scenarios.dfy`: the two test cases of vpn_test.go, stated for every
  iteration order.

The network, the clock and Go's map order are handled as follows:

- **Fetching:** the network is a map of fetch outcomes given by the caller.
  `Some(body)` means the request was made and the body read. `None`, or no
  entry, means the fetch failed, and the location keeps its old bytes.
- **Time:** the clock is an integer `now` passed to each call.
- **Iteration:** every loop over a Go map picks its next key by a
  nondeterministic choice. No contract depends on which order is taken.

Where the code's behaviour may be unexpected, the model follows the code:

- **Status code:** a response body is stored whatever its HTTP status.
  vpn.go:81-89 never looks at the status.
- **Empty origins:** an origin none of whose tokens parse is absent from the
  snapshot. It does not get an empty list: `append` is only reached for a
  parsed subnet (vpn.go:106-108).
- **Duplicates:** no deduplication happens, despite the comment at vpn.go:96.
- **Failed fetch:** a location whose fetch fails keeps its cached bytes and
  is parsed again (vpn.go:87-89, vpn.go:104). Those bytes are empty only
  because they were declared empty (vpn.go:28) or the previous refresh
  cleared them (vpn.go:113-119); a registry configured with non-empty bytes
  has them parsed on the first cycle.
  `SubnetsComeFromThisCycle` gives a sufficient condition for a failed
  location to add nothing: the byte cache was cleared beforehand.
  `RefreshWhenStale` states the exact one: the new snapshot lists what the
  locations hold after the fetch, old bytes included.

## Model

| member | source | states |
|---|---|---|
| Vpn.Cache.constructor | vpn.go:54-57 | The package starts with the given registry, an empty snapshot and `lastFetched` set to the start time. |
| Vpn.Cache.Default | vpn.go:21-40 | The package as declared: `Sources` holds "x4b-merged" with its one list URL and no bytes, `CachePeriod` is 45 minutes in nanoseconds, the snapshot is empty. |
| Vpn.Stale | vpn.go:60 | Definition of when a refresh runs: the snapshot is empty, or `now` is strictly after `lastFetched + CachePeriod`. |
| Vpn.FetchInto | vpn.go:63-94 | Definition of the registry after the fetches: a location whose body was read holds that body, every other location its old bytes; no origin or location added or removed. |
| Vpn.Merge | vpn.go:96-111 | Definition of the snapshot built for a visiting order: each origin's locations' parsed lists concatenated in that order, stored only when non-empty. |
| Vpn.Cleared | vpn.go:113-119 | Definition of the cleared registry: the same origins and locations, every byte list empty. |
| Vpn.RefreshStep | vpn.go:59-132 | Definition of one `refresh`: when stale, fetch, merge in some order, clear and record `now`; otherwise nothing changes. |
| Vpn.ParseToken | vpn.go:106 | Definition of `net.ParseCIDR(string(cidr))` on one token. |
| Vpn.BlobSubnets | vpn.go:105-108 | Definition of one location's contribution: the subnets its tokens parse to, in order, malformed tokens dropped. |
| Vpn.Cache.Refresh | vpn.go:59-132 | One call is a `RefreshStep`. When stale (empty snapshot, or `now` strictly after `lastFetched + CachePeriod`): outcomes stored, merge installed, byte cache cleared, `lastFetched = now`. Otherwise the state is unchanged. |
| Vpn.Cache.StoreFetched | vpn.go:63-94 | Each location whose body was read holds that body; every other location keeps its bytes; snapshot and time are unchanged. |
| Vpn.StoreOrigin | vpn.go:67-91 | For one origin: same locations; each location holds the body read for it, or its old bytes. |
| Vpn.Cache.ClearByteCache | vpn.go:113-119 | Every location of every origin holds empty bytes; no origin or location added or removed. |
| Vpn.ClearOrigin | vpn.go:116-118 | For one origin: same locations, all bytes empty. |
| Vpn.MergeSources | vpn.go:96-111 | The built snapshot is `Merge(reg, ord)` for some visiting order `ord` of the origins and their locations. |
| Vpn.MergeOrigin | vpn.go:104-110 | Visiting one origin's locations, in some order, appends the concatenation of their parsed lists to that origin's list. |
| Vpn.MergeTokens | vpn.go:105-109 | Each token that parses is appended, in order, to the list under the origin; malformed tokens change nothing; an empty result stores no key. |
| Vpn.MergeExtend | vpn.go:100-111 | Merging one more origin adds its list under its name only when the list is non-empty. |
| Vpn.Parsed | vpn.go:104-106 | Every location of an origin is parsed; none is added or lost. |
| Vpn.AsString | vpn.go:106 | `string(cidr)`: the same length, each character the code of its byte. |
| Vpn.Lookup | vpn.go:144-155 | A returned origin has a subnet containing the address. `ErrNotFound` is returned exactly when no origin does. |
| Vpn.Flatten | vpn.go:162-168 | The result is every origin's list, concatenated in some order of the origins. |
| Vpn.Cache.Check | vpn.go:135-156 | An address that does not parse gives `ErrInvalidIP` with no refresh and no state change. A valid address refreshes (RefreshStep), then gets an origin listing it, or `ErrNotFound` exactly when none does; never `ErrInvalidIP`. |
| Vpn.Cache.Subnets | vpn.go:159-171 | Refreshes (RefreshStep), then returns every list of the new snapshot concatenated in some origin order. |
| Net.Contains | vpn.go:149 | Definition of `IPNet.Contains`: the address and the network agree once masked to the prefix. |
| Net.ParseIP | vpn.go:136 | Definition of `net.ParseIP`: a dotted quad, or the `::ffff:` form of one. |
| Bytes.TokenLength | vpn.go:105 | The longest white-space-free prefix: none of its bytes is space and the next byte is. |
| Bytes.Fields | vpn.go:105 | Every field is a non-empty run without white space. |
| Bytes.FieldsOfJoin | vpn.go:105 | Splitting fields joined by a white-space byte gives back exactly those fields. |
| Bytes.FieldsOfTokenThen | vpn.go:105 | A field followed by white space or the end is split off whole. |
| Bytes.FieldsKeepsContent | vpn.go:105 | The fields together hold exactly the non-space bytes of the input, in order. |
| Net.Mask | vpn.go:106 | The masked network keeps the first `n` bits and clears the rest. |
| Net.ContainsIsPrefixMatch | vpn.go:149 | `Contains` holds exactly when the address agrees with the network on the first `prefixLen` bits. |
| Net.EmptyPrefixContainsAll | vpn.go:149 | A /0 network contains every address. |
| Net.FullPrefixContainsOnlyNetwork | vpn.go:149 | A canonical /32 contains its own address and no other. |
| Net.ShorterPrefixContainsMore | vpn.go:149 | Shortening a prefix never removes an address. |
| Net.ParseOctetIff | vpn.go:136 | A dotted-quad field parses to `v` exactly when it is the canonical numeral of `v`. |
| Net.ParseIPv4Iff | vpn.go:136 | A dotted quad parses to `x` exactly when it is the canonical text of `x`. |
| Net.ParseIPIff | vpn.go:136 | `ParseIP` accepts exactly the canonical dotted quads and their `::ffff:` forms, each giving its address. |
| Net.ParseOfFormatIPv4 | vpn.go:136 | Formatting an address and parsing the text gives the address back. |
| Net.FormatOfParseIPv4 | vpn.go:136 | Only the canonical text of an address parses to it. |
| Net.ParseCIDR | vpn.go:106 | Every parsed subnet is canonical: no network bit is set past the prefix. |
| Net.ParseCIDROfAddress | vpn.go:106 | `a.b.c.d/n` parses to the address masked to `n` bits, and that subnet contains the address. |
| Net.ParseOfFormatCIDR | vpn.go:106 | The CIDR text of a canonical subnet parses back to it. |
| Net.ParseCIDRShape | vpn.go:106 | Every accepted CIDR text is a canonical dotted quad, '/', and a numeral of the prefix length. |
| Net.FormatCIDRChars | vpn.go:106 | The CIDR text of a subnet is non-empty and made of digits, dots and '/', so it is one token. |
| Net.DashesAreNotAnAddress | vpn_test.go:17-19 | "---" does not parse, so `Check` answers `ErrInvalidIP`. |
| Net.LoopbackIsAnAddress | vpn_test.go:23-25 | "127.0.0.1" parses to 127.0.0.1, so `Check` does not answer `ErrInvalidIP`. |
| Net.MappedIsAnAddress | vpn_test.go:27-29 | "::ffff:192.0.2.128" parses to 192.0.2.128, so `Check` does not answer `ErrInvalidIP`. |
| Net.TestAddressIsAnAddress | vpn_test.go:54 | "192.168.5.1" parses to 192.168.5.1. |
| Net.FirstOctetsDiffer | vpn.go:149 | A subnet of prefix at least 8 does not contain an address whose first octet differs from its network's. |
| Net.Slash24Contains | vpn.go:149 | `a.b.c.0/24` is canonical and contains every `a.b.c.d`. |
| Enumeration.ConcatOverIsPool | vpn.go:162-168 | Whatever the visiting order, the concatenation holds exactly the multiset of all lists. |
| Enumeration.ConcatOverMembers | vpn.go:162-168 | The concatenation holds an element exactly when some list does, and is as long as all lists together. |
| Enumeration.PoolHoldsBoth | vpn.go:107 | An element in the lists of two different keys occurs at least twice in the pool. |
| Enumeration.EnumeratesSingleton | vpn.go:100 | The only order of visiting a single key is that key. |
| VpnFacts.TokenSubnetsMembers | vpn.go:106-108 | A token contributes a subnet exactly when it parses to it. |
| VpnFacts.ParsedSubnetsAppend | vpn.go:105-109 | The subnets of two runs of tokens are those of the first, then those of the second. |
| VpnFacts.ParsedSubnetsMembers | vpn.go:105-109 | A subnet is kept exactly when some token parses to it; malformed tokens are dropped. |
| VpnFacts.ParsedSubnetsOfWellFormed | vpn.go:105-109 | When every token parses, the list is the tokens parsed in order, duplicates included. |
| VpnFacts.ParsedSubnetsOfMalformed | vpn.go:105-109 | When no token parses, nothing is kept. |
| VpnFacts.EmptyBlobHasNoSubnets | vpn.go:117 | A cleared location holds no subnet. |
| VpnFacts.AsBytes | vpn.go:106 | `string` converts a string of 8-bit characters back to itself. |
| VpnFacts.CidrBytes | vpn.go:105-106 | The bytes of a subnet's CIDR text are one token reading as that text. |
| VpnFacts.ListFileRoundTrip | vpn.go:104-109 | A list file of canonical subnets, one per line, merges back into exactly those subnets in order. |
| VpnFacts.OriginSubnetsMembers | vpn.go:104-110 | An origin's list holds a subnet exactly when one of its locations' bytes does, in every order. |
| VpnFacts.MergeKeys | vpn.go:98-111 | An origin is in the snapshot exactly when some token of one of its locations parses. |
| VpnFacts.MergeMembers | vpn.go:98-111 | The list of an origin holds exactly the subnets parsed from its locations' bytes. |
| VpnFacts.MergeOrderIrrelevant | vpn.go:100-111 | Every visiting order gives the same origins, and each origin's list is a permutation of the other's. |
| VpnFacts.MergeIsPool | vpn.go:104-110 | An origin's list holds, with multiplicity, everything its locations' bytes list. |
| VpnFacts.MergeKeepsDuplicates | vpn.go:96-111 | A subnet listed by two locations of one origin appears at least twice: no deduplication. |
| VpnFacts.RefreshKeepsLocations | vpn.go:63-119 | A refresh adds or removes no origin and no location. |
| VpnFacts.MergeOfFetched | vpn.go:63-111 | The merge of the fetched registry lists exactly what the fetched bytes hold. |
| VpnFacts.ClearedIsCleared | vpn.go:113-119 | After clearing, every cached byte list is empty. |
| VpnFacts.RefreshWhenStale | vpn.go:60-128 | A stale refresh leaves every byte list empty and `lastFetched = now`. The new snapshot lists `s` under `o` exactly when a location of `o` held bytes listing `s` after the fetch. |
| VpnFacts.SubnetsComeFromThisCycle | vpn.go:87-117 | With the byte cache cleared beforehand, every listed subnet comes from a body read in this cycle. |
| VpnFacts.FailedCycleEmptiesSnapshot | vpn.go:60-128 | When every fetch fails after a clear, the snapshot becomes empty and the next call refreshes again. |
| VpnFacts.NoRefreshWithinPeriod | vpn.go:60 | After a refresh that produced subnets, any call at most one cache period later changes nothing. |
| VpnFacts.AnswerIsUnique | vpn.go:144-155 | When exactly one origin lists the address, every order answers that origin. |
| VpnFacts.NotFoundIff | vpn.go:144-155 | `ErrNotFound` is answered exactly when no subnet of any origin contains the address. |
| VpnFacts.FoundOriginHadContainingSubnet | vpn.go:63-155 | After a stale refresh, an answered origin is in the registry, and one of its locations' fetched bytes lists a subnet containing the address. |
| VpnFacts.ListFileOfTwo | vpn_test.go:33-41 | A list file of two subnets reads as their two CIDR texts joined by a newline. |
| VpnFacts.SubnetsWithinPeriodAgree | vpn.go:159-171 | Two `Subnets` results, the second at most one cache period after a refresh that produced subnets, hold the same subnets with the same multiplicities. |
| VpnFacts.FlattenContents | vpn.go:159-171 | `Subnets` holds every listed subnet, as often as it is listed, and nothing else. |
| VpnScenarios.FetchOne | vpn_test.go:45-52 | A successful fetch of an origin's only location replaces its cached bytes. |
| VpnScenarios.FetchTwo | vpn_test.go:45-52 | With both servers answering, the registry holds both bodies. |
| VpnScenarios.OrderOfTwo | vpn_test.go:45-52 | Two origins with one location each have a single visiting order. |
| VpnScenarios.MergeTwo | vpn_test.go:45-54 | Such a registry merges to the two parsed lists, each under its origin. |
| VpnScenarios.TwoListsSnapshot | vpn_test.go:33-54 | The first refresh makes each origin's list exactly the list its server sent. |
| VpnScenarios.TwoListsAnswer | vpn_test.go:54-56 | When only the first origin's list contains the address, every answer is that origin. |
| VpnScenarios.FirstListHoldsTestAddress | vpn_test.go:40 | 192.168.5.0/24 contains 192.168.5.1. |
| VpnScenarios.SecondListMissesTestAddress | vpn_test.go:34 | Neither 12.34.0.0/24 nor 10.10.0.0/24 contains 192.168.5.1. |
| VpnScenarios.FirstListIsServed | vpn_test.go:39-41 | The first test server's body is the text "45.67.0.0/24\n192.168.5.0/24". |
| VpnScenarios.SecondListIsServed | vpn_test.go:33-35 | The second test server's body is the text "12.34.0.0/24\n10.10.0.0/24". |
| VpnScenarios.FetchOneSource | vpn.go:63-94 | Fetching the only location of the only origin stores the body read. |
| VpnScenarios.MergeOne | vpn.go:96-111 | One origin with one location merges to that location's parsed list, in every order. |
| VpnScenarios.OneListSnapshot | vpn.go:59-132 | The first refresh of one origin with one location, whose fetch returns a list of canonical subnets, makes exactly that list the origin's. |
| VpnScenarios.DefaultFirstRefresh | vpn.go:21-30 | With the default registry, the first refresh, fetching a non-empty list file of canonical subnets, makes exactly that list the "x4b-merged" list and records `now`. |
| VpnScenarios.DefaultNoRefreshFor45Minutes | vpn.go:38-60 | With the default `CachePeriod`, any call at most 45 minutes after that first refresh changes nothing, whatever it would fetch. |
| VpnScenarios.NoSourcesNotFound | vpn_test.go:10-30 | With no sources, a refresh leaves the snapshot empty and every valid address gets `ErrNotFound`. |
| VpnScenarios.TestCheckAnswer | vpn_test.go:32-56 | `Check("192.168.5.1")` on the test registry's first refresh answers "fake-vpn", whatever the map order. |

## Left out

- HTTP: request building, the `User-Agent` header, the client and its
  timeout (vpn.go:32-43, vpn.go:73-86). What a cycle fetched is an input map
  of outcomes.
- Goroutines, the `sync.WaitGroup` and the `RWMutex` (vpn.go:49-52,
  vpn.go:61-94, vpn.go:123-128).
  - The concurrent writes to the `Sources` map at vpn.go:88 race in Go. The
    model stores the outcomes one after another.
  - `Check` and `Subnets` read `networks.subnets` without taking the lock.
    The model is sequential, so neither is modelled.
- The clock: `time.Now()` is a parameter `now`. The second call at
  vpn.go:126 is taken to give the same instant as the test at vpn.go:60.
- The returned `error` of `refresh` is always `nil`, so it is not modelled.
- Net.ParseIP: only IPv4 dotted quads and the lower-case `::ffff:a.b.c.d` form
  are accepted. Go's parser also accepts every other IPv6 literal, including
  other spellings of an IPv4-mapped address: "::FFFF:192.0.2.128",
  "::ffff:c000:280", "0:0:0:0:0:ffff:192.0.2.128".
- Vpn.Cache.Check: answers `ErrInvalidIP` for every IPv6 literal the model's
  `ParseIP` refuses. Go answers an origin for the other spellings of a mapped
  address when a list contains it (`Contains` compares its IPv4 form). For
  every other IPv6 literal Go answers the origin of a listed IPv6 range that
  contains the address, such as "2001:db8::/32" for "2001:db8::1", and
  `ErrNotFound` only when no such range is listed. Because the model drops
  IPv6 ranges, a listed IPv4-mapped range can change IPv4 answers too: Go's
  "::ffff:0:0/96" contains every IPv4 address, so Go answers its origin where
  the model may answer `ErrNotFound`.
- Net.ParseOctetIff: an octet with a leading zero ("01") is refused, which is
  `net.ParseIP` from Go 1.17 on; the package pins no Go version, and earlier
  versions read such an octet as decimal.
- Net.ParseCIDR: only IPv4 CIDRs are accepted, with a prefix length of
  decimal digits up to 32. IPv6 ranges in a list are dropped as if malformed.
- Bytes.Fields: splits on ASCII white space only. `bytes.Fields` also splits
  on the UTF-8 encodings of Unicode spaces, such as NBSP (C2 A0) and NEL
  (C2 85). A CIDR separated from its neighbour only by such a space is joined
  to that neighbour in the model, so both are dropped as malformed, where Go
  keeps both.
- VpnScenarios.TestCheckAnswer: the served bodies are written with
  `ListFile`: the CIDRs separated by '\n' with no trailing newline.
  `FirstListIsServed` and `SecondListIsServed` prove that these are the
  texts the test servers send. The servers' URLs are parameters.
- `main.go` (the command-line entry point) is not part of this model.
