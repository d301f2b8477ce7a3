/**
 * The subnet cache of vpn.go: a registry of origins and their source
 * locations with cached raw bytes, the parsed snapshot origin -> subnets,
 * the time of the last rebuild, and the three operations on them: the
 * refresh (staleness test, fetch, merge, clear, install), the point lookup
 * `Check` and the bulk dump `Subnets`.
 *
 * The network is replaced by a map of fetch outcomes supplied by the caller,
 * the clock by an integer `now`, and Go's unspecified map iteration order by
 * a nondeterministic choice of the next key; every contract holds for every
 * order.
 */
module Vpn {
  import opened Wrappers
  import opened Bytes
  import opened Net
  import opened Enumeration

  type Origin = string

  type Url = string

  /** `Sources`: origin -> (source location -> cached raw bytes). */
  type Registry = map<Origin, map<Url, seq<byte>>>

  /** `networks.subnets`: origin -> its subnets, in the order they were parsed. */
  type Snapshot = map<Origin, seq<Subnet>>

  /**
   * What fetching each (origin, location) pair gave in one cycle: Some(body)
   * when the request was made and its body read, None (or no entry) when the
   * fetch failed.
   */
  type FetchOutcomes = map<(Origin, Url), Option<seq<byte>>>

  /** `ErrNotFound` and `ErrInvalidIP`. */
  datatype Error = NotFound | InvalidIP

  /** `CachePeriod`: 45 minutes, in nanoseconds as a `time.Duration`. */
  const DefaultCachePeriod: int := 45 * 60 * 1000000000

  /** The one origin of the package's default registry: an aggregated list of many providers. */
  const X4bMerged: Origin := "x4b-merged"

  const X4bList: Url := "https://raw.githubusercontent.com/X4BNet/lists_vpn/main/ipv4.txt"

  /** The registry the package starts with: one aggregated list, nothing cached. */
  const DefaultSources: Registry := map[X4bMerged := map[X4bList := []]]

  // ---------------------------------------------------------------------------
  // Parsing the cached bytes
  // ---------------------------------------------------------------------------

  /** `string(cidr)`: the bytes of a token read as characters. */
  function AsString(t: seq<byte>): (s: string)
    ensures |s| == |t|
    ensures forall i :: 0 <= i < |t| ==> s[i] as int == t[i]
  {
    seq(|t|, i requires 0 <= i < |t| => t[i] as char)
  }

  function ParseToken(t: seq<byte>): Option<Subnet> {
    ParseCIDR(AsString(t))
  }

  /** The subnets the tokens parse to, in order; a token that does not parse is dropped. */
  function ParsedSubnets(ts: seq<seq<byte>>): seq<Subnet> {
    FlatMap(TokenSubnets, ts)
  }

  /** The subnet one token contributes: itself parsed, or nothing. */
  function TokenSubnets(t: seq<byte>): seq<Subnet> {
    match ParseToken(t)
    case Some(s) => [s]
    case None => []
  }

  /** The subnets of one cached list: its white-space-separated tokens, parsed. */
  function BlobSubnets(bs: seq<byte>): seq<Subnet> {
    ParsedSubnets(Fields(bs))
  }

  /** For each source location of one origin, the subnets of its cached bytes. */
  function Parsed(blobs: map<Url, seq<byte>>): (p: map<Url, seq<Subnet>>)
    ensures p.Keys == blobs.Keys
  {
    map u | u in blobs :: BlobSubnets(blobs[u])
  }

  // ---------------------------------------------------------------------------
  // The merge (vpn.go:96-111)
  // ---------------------------------------------------------------------------

  /** An order in which the merge may visit the source locations of every origin. */
  ghost predicate IsUrlOrder(reg: Registry, ord: map<Origin, seq<Url>>) {
    ord.Keys == reg.Keys && forall o :: o in ord ==> Enumerates(ord[o], reg[o].Keys)
  }

  /** The subnets of origin `o`: the lists of its locations, concatenated in the order `urls`. */
  function OriginSubnets(reg: Registry, o: Origin, urls: seq<Url>): seq<Subnet>
    requires o in reg
  {
    ConcatOver(Parsed(reg[o]), urls)
  }

  /**
   * The snapshot the merge builds when it visits the locations of each origin
   * `o` of `ord` in the order `ord[o]`: an origin is a key only if one of its
   * tokens parsed.
   */
  function Merge(reg: Registry, ord: map<Origin, seq<Url>>): Snapshot {
    map o | o in reg && o in ord && OriginSubnets(reg, o, ord[o]) != [] :: OriginSubnets(reg, o, ord[o])
  }

  /** `m` with `l` stored under `o`, where an empty list stores nothing. */
  function WithList(m: Snapshot, o: Origin, l: seq<Subnet>): Snapshot {
    if l == [] then m else m[o := l]
  }

  lemma MergeExtend(reg: Registry, ord: map<Origin, seq<Url>>, o: Origin, urls: seq<Url>)
    requires o in reg && o !in ord
    ensures Merge(reg, ord[o := urls]) == WithList(Merge(reg, ord), o, OriginSubnets(reg, o, urls))
  {
    var l := OriginSubnets(reg, o, urls);
    var lhs := Merge(reg, ord[o := urls]);
    var rhs := WithList(Merge(reg, ord), o, l);
    assert lhs.Keys == rhs.Keys;
    forall k | k in lhs ensures lhs[k] == rhs[k] {
    }
  }

  /** `m` with `l` appended to the list under `o` (`append(subnets[origin], ...)`); nothing when `l` is empty. */
  function Appended(m: Snapshot, o: Origin, l: seq<Subnet>): Snapshot {
    if l == [] then m else m[o := Entry(m, o) + l]
  }

  lemma AppendedTwice(m: Snapshot, o: Origin, l: seq<Subnet>, l': seq<Subnet>)
    ensures Appended(Appended(m, o, l), o, l') == Appended(m, o, l + l')
  {
    if l == [] {
      assert l + l' == l';
    } else if l' == [] {
      assert l + l' == l;
    } else {
      assert Entry(Appended(m, o, l), o) + l' == Entry(m, o) + (l + l');
    }
  }

  /** Appending to an origin that has no list yet stores the list. */
  lemma AppendedFresh(m: Snapshot, o: Origin, l: seq<Subnet>)
    requires o !in m
    ensures Appended(m, o, l) == WithList(m, o, l)
  {
    assert Entry(m, o) + l == l;
  }

  /** The innermost merge loop (vpn.go:105-109): append every token that parses to the list under `o`. */
  method MergeTokens(snap: Snapshot, o: Origin, tokens: seq<seq<byte>>) returns (snap': Snapshot)
    ensures snap' == Appended(snap, o, ParsedSubnets(tokens))
  {
    snap' := snap;
    var i := 0;
    while i < |tokens|
      invariant 0 <= i <= |tokens|
      invariant snap' == Appended(snap, o, ParsedSubnets(tokens[..i]))
    {
      FlatMapStep(TokenSubnets, tokens, i);
      AppendedTwice(snap, o, ParsedSubnets(tokens[..i]), TokenSubnets(tokens[i]));
      match ParseToken(tokens[i]) {
        case Some(s) =>
          snap' := snap'[o := Entry(snap', o) + [s]];
        case None =>
      }
      i := i + 1;
    }
    assert tokens[..i] == tokens;
  }

  /** The loop over the source locations of one origin (vpn.go:104-110), visited in an unspecified order. */
  method MergeOrigin(snap: Snapshot, o: Origin, blobs: map<Url, seq<byte>>) returns (snap': Snapshot)
    ensures exists urls :: Enumerates(urls, blobs.Keys) && snap' == Appended(snap, o, ConcatOver(Parsed(blobs), urls))
  {
    snap' := snap;
    var remaining := blobs.Keys;
    ghost var done: seq<Url> := [];
    while remaining != {}
      invariant Visited(done, blobs.Keys, remaining)
      invariant snap' == Appended(snap, o, ConcatOver(Parsed(blobs), done))
      decreases remaining
    {
      var u :| u in remaining;
      snap' := MergeTokens(snap', o, Fields(blobs[u]));
      AppendedTwice(snap, o, ConcatOver(Parsed(blobs), done), BlobSubnets(blobs[u]));
      ConcatOverAppend(Parsed(blobs), done, u);
      VisitedStep(done, blobs.Keys, remaining, u);
      done := done + [u];
      remaining := remaining - {u};
    }
    VisitedAll(done, blobs.Keys);
  }

  /**
   * The merge of vpn.go:96-111: a fresh snapshot built from every origin's
   * cached bytes, origins and locations visited in an unspecified order.
   */
  method MergeSources(reg: Registry) returns (snap: Snapshot)
    ensures exists ord :: IsUrlOrder(reg, ord) && snap == Merge(reg, ord)
  {
    snap := map[];
    var remaining := reg.Keys;
    ghost var ord: map<Origin, seq<Url>> := map[];
    while remaining != {}
      invariant remaining <= reg.Keys
      invariant ord.Keys == reg.Keys - remaining
      invariant forall o :: o in ord ==> Enumerates(ord[o], reg[o].Keys)
      invariant snap == Merge(reg, ord)
      decreases remaining
    {
      var o :| o in remaining;
      ghost var base := snap;
      snap := MergeOrigin(snap, o, reg[o]);
      ghost var urls :| Enumerates(urls, reg[o].Keys) && snap == Appended(base, o, ConcatOver(Parsed(reg[o]), urls));
      AppendedFresh(base, o, OriginSubnets(reg, o, urls));
      MergeExtend(reg, ord, o, urls);
      ord := ord[o := urls];
      remaining := remaining - {o};
    }
    assert IsUrlOrder(reg, ord);
  }

  // ---------------------------------------------------------------------------
  // Lookup (vpn.go:144-155) and the bulk dump (vpn.go:162-170)
  // ---------------------------------------------------------------------------

  /** Origin `o` lists a subnet that contains `ip`. */
  predicate Lists(snap: Snapshot, o: Origin, ip: Addr) {
    o in snap && exists s :: s in snap[o] && Contains(s, ip)
  }

  /** Some origin lists a subnet that contains `ip`. */
  ghost predicate Listed(snap: Snapshot, ip: Addr) {
    exists o :: Lists(snap, o, ip)
  }

  /** `r` is an answer the lookup may give: an origin listing `ip`, or `ErrNotFound` exactly when there is none. */
  ghost predicate Answers(snap: Snapshot, ip: Addr, r: Result<Origin, Error>) {
    (r.Success? ==> Lists(snap, r.value, ip)) && (r.Failure? ==> r.error == NotFound && !Listed(snap, ip))
  }

  /**
   * The scan of vpn.go:144-155: the first origin, in an unspecified order, with
   * a subnet containing `ip`, or `ErrNotFound`.
   */
  method Lookup(snap: Snapshot, ip: Addr) returns (r: Result<Origin, Error>)
    ensures r.Success? ==> Lists(snap, r.value, ip)
    ensures r.Failure? ==> r.error == NotFound && !Listed(snap, ip)
  {
    var remaining := snap.Keys;
    while remaining != {}
      invariant remaining <= snap.Keys
      invariant forall o :: o in snap && o !in remaining ==> !Lists(snap, o, ip)
      decreases remaining
    {
      var o :| o in remaining;
      var list := snap[o];
      var i := 0;
      while i < |list|
        invariant 0 <= i <= |list|
        invariant forall j :: 0 <= j < i ==> !Contains(list[j], ip)
      {
        if Contains(list[i], ip) {
          return Success(o);
        }
        i := i + 1;
      }
      remaining := remaining - {o};
    }
    return Failure(NotFound);
  }

  /** The flattening of vpn.go:162-168: every list of the snapshot, one after another, origins in an unspecified order. */
  method Flatten(snap: Snapshot) returns (ss: seq<Subnet>)
    ensures exists ord :: Enumerates(ord, snap.Keys) && ss == ConcatOver(snap, ord)
  {
    ss := [];
    var remaining := snap.Keys;
    ghost var done: seq<Origin> := [];
    while remaining != {}
      invariant Visited(done, snap.Keys, remaining)
      invariant ss == ConcatOver(snap, done)
      decreases remaining
    {
      var o :| o in remaining;
      var list := snap[o];
      var i := 0;
      while i < |list|
        invariant 0 <= i <= |list|
        invariant ss == ConcatOver(snap, done) + list[..i]
      {
        assert list[..i + 1] == list[..i] + [list[i]];
        ss := ss + [list[i]];
        i := i + 1;
      }
      assert list[..i] == list;
      ConcatOverAppend(snap, done, o);
      VisitedStep(done, snap.Keys, remaining, o);
      done := done + [o];
      remaining := remaining - {o};
    }
    VisitedAll(done, snap.Keys);
  }

  // ---------------------------------------------------------------------------
  // The refresh (vpn.go:59-132)
  // ---------------------------------------------------------------------------

  /** The package-level state: `Sources`, `networks.subnets` and `lastFetched`. */
  datatype CacheState = CacheState(sources: Registry, subnets: Snapshot, lastFetched: int)

  /** The test of vpn.go:60: nothing is cached, or the cache period has passed (`After` is strict). */
  predicate Stale(st: CacheState, period: int, now: int) {
    |st.subnets| == 0 || now > st.lastFetched + period
  }

  /** The body of location `u` of origin `o` was fetched and read this cycle. */
  predicate Read(fetched: FetchOutcomes, o: Origin, u: Url) {
    (o, u) in fetched && fetched[(o, u)].Some?
  }

  /** The bytes location `u` of origin `o` holds after the fetch: a body that was read replaces the old bytes. */
  function Outcome(reg: Registry, fetched: FetchOutcomes, o: Origin, u: Url): seq<byte>
    requires o in reg && u in reg[o]
  {
    if Read(fetched, o, u) then fetched[(o, u)].value else reg[o][u]
  }

  /** The registry after the fetching of vpn.go:63-94 has stored the outcome of every location. */
  function FetchInto(reg: Registry, fetched: FetchOutcomes): Registry {
    map o | o in reg :: map u | u in reg[o] :: Outcome(reg, fetched, o, u)
  }

  /** The registry after the byte cache is cleared (vpn.go:113-119): the same keys, every list empty. */
  function Cleared(reg: Registry): Registry {
    map o | o in reg :: map u | u in reg[o] :: []
  }

  /**
   * One call of `refresh`: when stale, the outcomes are stored, the merge
   * (in some order) becomes the snapshot, the byte cache is cleared and
   * `lastFetched` becomes `now`; otherwise nothing changes.
   */
  ghost predicate RefreshStep(st: CacheState, period: int, now: int, fetched: FetchOutcomes, st': CacheState) {
    if Stale(st, period, now) then
      var reg := FetchInto(st.sources, fetched);
      exists ord :: IsUrlOrder(reg, ord) && st' == CacheState(Cleared(reg), Merge(reg, ord), now)
    else
      st' == st
  }

  /** The bytes of origin `o`'s locations once the outcomes of the locations in `done` are stored. */
  function FetchedUrls(blobs: map<Url, seq<byte>>, fetched: FetchOutcomes, o: Origin, done: set<Url>): map<Url, seq<byte>> {
    map u | u in blobs :: if u in done && Read(fetched, o, u) then fetched[(o, u)].value else blobs[u]
  }

  /** The registry once every outcome of the origins in `done` is stored. */
  function FetchedOrigins(reg: Registry, fetched: FetchOutcomes, done: set<Origin>): Registry {
    map o | o in reg :: if o in done then FetchedUrls(reg[o], fetched, o, reg[o].Keys) else reg[o]
  }

  lemma FetchedUrlsStep(blobs: map<Url, seq<byte>>, fetched: FetchOutcomes, o: Origin, done: set<Url>, u: Url)
    requires u in blobs
    ensures FetchedUrls(blobs, fetched, o, done + {u}) ==
      if Read(fetched, o, u) then FetchedUrls(blobs, fetched, o, done)[u := fetched[(o, u)].value]
      else FetchedUrls(blobs, fetched, o, done)
  {
  }

  lemma FetchedUrlsNone(blobs: map<Url, seq<byte>>, fetched: FetchOutcomes, o: Origin)
    ensures FetchedUrls(blobs, fetched, o, {}) == blobs
  {
  }

  lemma FetchedOriginsStep(reg: Registry, fetched: FetchOutcomes, done: set<Origin>, o: Origin)
    requires o in reg
    ensures FetchedOrigins(reg, fetched, done)[o := FetchedUrls(reg[o], fetched, o, reg[o].Keys)] ==
      FetchedOrigins(reg, fetched, done + {o})
  {
  }

  lemma FetchedOriginsNone(reg: Registry, fetched: FetchOutcomes)
    ensures FetchedOrigins(reg, fetched, {}) == reg
  {
  }

  lemma FetchedOriginsAll(reg: Registry, fetched: FetchOutcomes)
    ensures FetchedOrigins(reg, fetched, reg.Keys) == FetchInto(reg, fetched)
  {
    forall o | o in reg ensures FetchedUrls(reg[o], fetched, o, reg[o].Keys) == FetchInto(reg, fetched)[o] {
    }
  }

  /** The bytes of one origin's locations once those in `done` are cleared. */
  function ClearedUrls(blobs: map<Url, seq<byte>>, done: set<Url>): map<Url, seq<byte>> {
    map u | u in blobs :: if u in done then [] else blobs[u]
  }

  /** The registry once every location of the origins in `done` is cleared. */
  function ClearedOrigins(reg: Registry, done: set<Origin>): Registry {
    map o | o in reg :: if o in done then ClearedUrls(reg[o], reg[o].Keys) else reg[o]
  }

  lemma ClearedUrlsStep(blobs: map<Url, seq<byte>>, done: set<Url>, u: Url)
    requires u in blobs
    ensures ClearedUrls(blobs, done + {u}) == ClearedUrls(blobs, done)[u := []]
  {
  }

  lemma ClearedUrlsNone(blobs: map<Url, seq<byte>>)
    ensures ClearedUrls(blobs, {}) == blobs
  {
  }

  lemma ClearedOriginsStep(reg: Registry, done: set<Origin>, o: Origin)
    requires o in reg
    ensures ClearedOrigins(reg, done)[o := ClearedUrls(reg[o], reg[o].Keys)] == ClearedOrigins(reg, done + {o})
  {
  }

  lemma ClearedOriginsNone(reg: Registry)
    ensures ClearedOrigins(reg, {}) == reg
  {
  }

  lemma ClearedOriginsAll(reg: Registry)
    ensures ClearedOrigins(reg, reg.Keys) == Cleared(reg)
  {
    forall o | o in reg ensures ClearedUrls(reg[o], reg[o].Keys) == Cleared(reg)[o] {
    }
  }

  /** The fetches of one origin's locations: each body that was read replaces the old bytes. */
  method StoreOrigin(blobs: map<Url, seq<byte>>, fetched: FetchOutcomes, o: Origin) returns (blobs': map<Url, seq<byte>>)
    ensures blobs'.Keys == blobs.Keys
    ensures forall u :: u in blobs' ==> blobs'[u] == if Read(fetched, o, u) then fetched[(o, u)].value else blobs[u]
  {
    blobs' := blobs;
    var urls := blobs.Keys;
    ghost var done: set<Url> := {};
    FetchedUrlsNone(blobs, fetched, o);
    while urls != {}
      invariant urls <= blobs.Keys && done == blobs.Keys - urls
      invariant blobs' == FetchedUrls(blobs, fetched, o, done)
      decreases urls
    {
      var u :| u in urls;
      FetchedUrlsStep(blobs, fetched, o, done, u);
      if Read(fetched, o, u) {
        blobs' := blobs'[u := fetched[(o, u)].value];
      }
      done := done + {u};
      urls := urls - {u};
    }
    assert done == blobs.Keys;
  }

  /** Clearing one origin's byte cache: every location keeps its key and holds no bytes. */
  method ClearOrigin(blobs: map<Url, seq<byte>>) returns (cleared: map<Url, seq<byte>>)
    ensures cleared.Keys == blobs.Keys
    ensures forall u :: u in cleared ==> cleared[u] == []
  {
    cleared := blobs;
    var urls := blobs.Keys;
    ghost var done: set<Url> := {};
    ClearedUrlsNone(blobs);
    while urls != {}
      invariant urls <= blobs.Keys && done == blobs.Keys - urls
      invariant cleared == ClearedUrls(blobs, done)
      decreases urls
    {
      var u :| u in urls;
      ClearedUrlsStep(blobs, done, u);
      cleared := cleared[u := []];
      done := done + {u};
      urls := urls - {u};
    }
    assert done == blobs.Keys;
  }

  /**
   * The cache of vpn.go: `Sources`, `networks.subnets`, `lastFetched` and
   * `CachePeriod`, with `Check`, `Subnets` and the internal `refresh`.
   */
  class Cache {
    var sources: Registry
    var subnets: Snapshot
    var lastFetched: int
    const cachePeriod: int

    function State(): CacheState
      reads this
    {
      CacheState(sources, subnets, lastFetched)
    }

    /** The package's initial state: no snapshot, `lastFetched` set at start-up. */
    constructor(sources: Registry, cachePeriod: int, now: int)
      ensures State() == CacheState(sources, map[], now) && this.cachePeriod == cachePeriod
    {
      this.sources := sources;
      this.subnets := map[];
      this.lastFetched := now;
      this.cachePeriod := cachePeriod;
    }

    /** The package as it starts with its own defaults: `Sources` and `CachePeriod` as declared. */
    constructor Default(now: int)
      ensures State() == CacheState(DefaultSources, map[], now) && cachePeriod == DefaultCachePeriod
    {
      sources := DefaultSources;
      subnets := map[];
      lastFetched := now;
      cachePeriod := DefaultCachePeriod;
    }

    /** The fetching of vpn.go:63-94: each body that was read is stored over the old bytes. */
    method StoreFetched(fetched: FetchOutcomes)
      modifies this
      ensures sources == FetchInto(old(sources), fetched)
      ensures subnets == old(subnets) && lastFetched == old(lastFetched)
    {
      ghost var reg := sources;
      ghost var done: set<Origin> := {};
      FetchedOriginsNone(reg, fetched);
      var origins := sources.Keys;
      while origins != {}
        invariant origins <= reg.Keys && done == reg.Keys - origins
        invariant sources == FetchedOrigins(reg, fetched, done)
        invariant subnets == old(subnets) && lastFetched == old(lastFetched)
        decreases origins
      {
        var o :| o in origins;
        var blobs := StoreOrigin(sources[o], fetched, o);
        assert blobs == FetchedUrls(reg[o], fetched, o, reg[o].Keys);
        sources := sources[o := blobs];
        FetchedOriginsStep(reg, fetched, done, o);
        done := done + {o};
        origins := origins - {o};
      }
      FetchedOriginsAll(reg, fetched);
    }

    /** Clearing the byte cache (vpn.go:113-119): every location's bytes become empty. */
    method ClearByteCache()
      modifies this
      ensures sources == Cleared(old(sources))
      ensures subnets == old(subnets) && lastFetched == old(lastFetched)
    {
      ghost var reg := sources;
      ghost var done: set<Origin> := {};
      ClearedOriginsNone(reg);
      var origins := sources.Keys;
      while origins != {}
        invariant origins <= reg.Keys && done == reg.Keys - origins
        invariant sources == ClearedOrigins(reg, done)
        invariant subnets == old(subnets) && lastFetched == old(lastFetched)
        decreases origins
      {
        var o :| o in origins;
        var blobs := ClearOrigin(sources[o]);
        assert blobs == ClearedUrls(reg[o], reg[o].Keys);
        sources := sources[o := blobs];
        ClearedOriginsStep(reg, done, o);
        done := done + {o};
        origins := origins - {o};
      }
      ClearedOriginsAll(reg);
    }

    /** `refresh` (vpn.go:59-132). */
    method Refresh(now: int, fetched: FetchOutcomes)
      modifies this
      ensures RefreshStep(old(State()), cachePeriod, now, fetched, State())
    {
      if |subnets| == 0 || now > lastFetched + cachePeriod {
        StoreFetched(fetched);
        var snap := MergeSources(sources);
        ClearByteCache();
        subnets := snap;
        lastFetched := now;
      }
    }

    /** `Check` (vpn.go:135-156). */
    method Check(addr: string, now: int, fetched: FetchOutcomes) returns (r: Result<Origin, Error>)
      modifies this
      ensures ParseIP(addr).None? ==> r == Failure(InvalidIP) && State() == old(State())
      ensures ParseIP(addr).Some? ==>
        RefreshStep(old(State()), cachePeriod, now, fetched, State()) && Answers(subnets, ParseIP(addr).value, r)
    {
      var ip := ParseIP(addr);
      if ip.None? {
        return Failure(InvalidIP);
      }
      Refresh(now, fetched);
      r := Lookup(subnets, ip.value);
    }

    /** `Subnets` (vpn.go:159-171). */
    method Subnets(now: int, fetched: FetchOutcomes) returns (ss: seq<Subnet>)
      modifies this
      ensures RefreshStep(old(State()), cachePeriod, now, fetched, State())
      ensures exists ord :: Enumerates(ord, subnets.Keys) && ss == ConcatOver(subnets, ord)
    {
      Refresh(now, fetched);
      ss := Flatten(subnets);
    }
  }
}
