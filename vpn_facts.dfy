/**
 * Properties of the cache model that relate several calls or hold for every
 * iteration order: what the merge keeps and drops, that the order only
 * permutes each origin's list, what a refresh leaves behind, and what the
 * answers of `Check` and `Subnets` mean.
 */
module VpnFacts {
  import opened Wrappers
  import opened Bytes
  import opened Net
  import opened Enumeration
  import opened Vpn

  // ---------------------------------------------------------------------------
  // Parsing the tokens of a list
  // ---------------------------------------------------------------------------

  /** A token contributes a subnet exactly when it parses to it. */
  lemma TokenSubnetsMembers(t: seq<byte>, s: Subnet)
    ensures s in TokenSubnets(t) <==> ParseToken(t) == Some(s)
  {
  }

  /** The tokens of two pieces parse to the subnets of the first piece, then of the second. */
  lemma ParsedSubnetsAppend(a: seq<seq<byte>>, b: seq<seq<byte>>)
    ensures ParsedSubnets(a + b) == ParsedSubnets(a) + ParsedSubnets(b)
  {
    FlatMapAppend(TokenSubnets, a, b);
  }

  /** A subnet is in the parsed list exactly when some token parses to it (malformed tokens contribute nothing). */
  lemma ParsedSubnetsMembers(ts: seq<seq<byte>>, s: Subnet)
    ensures s in ParsedSubnets(ts) <==> exists i :: 0 <= i < |ts| && ParseToken(ts[i]) == Some(s)
  {
    FlatMapMembers(TokenSubnets, ts, s);
    forall i | 0 <= i < |ts| ensures s in TokenSubnets(ts[i]) <==> ParseToken(ts[i]) == Some(s) {
      TokenSubnetsMembers(ts[i], s);
    }
  }

  /** When every token parses, the list is the tokens parsed one by one, in order, duplicates included. */
  lemma ParsedSubnetsOfWellFormed(ts: seq<seq<byte>>, ss: seq<Subnet>)
    requires |ts| == |ss|
    requires forall i :: 0 <= i < |ts| ==> ParseToken(ts[i]) == Some(ss[i])
    ensures ParsedSubnets(ts) == ss
  {
    forall i | 0 <= i < |ts| ensures TokenSubnets(ts[i]) == [ss[i]] {
    }
    FlatMapOfSingles(TokenSubnets, ts, ss);
  }

  /** When no token parses, nothing is kept. */
  lemma ParsedSubnetsOfMalformed(ts: seq<seq<byte>>)
    requires forall i :: 0 <= i < |ts| ==> ParseToken(ts[i]).None?
    ensures ParsedSubnets(ts) == []
  {
    forall i | 0 <= i < |ts| ensures TokenSubnets(ts[i]) == [] {
    }
    FlatMapOfEmpties(TokenSubnets, ts);
  }

  /** Empty bytes, as left by clearing the byte cache, hold no subnet. */
  lemma EmptyBlobHasNoSubnets()
    ensures BlobSubnets([]) == []
  {
  }

  /** A string of 8-bit characters as bytes. */
  function AsBytes(s: string): (t: seq<byte>)
    requires forall i :: 0 <= i < |s| ==> s[i] as int < 256
    ensures AsString(t) == s
  {
    seq(|s|, i requires 0 <= i < |s| => s[i] as int)
  }

  /** The bytes of the CIDR text of a subnet: one token. */
  function CidrBytes(s: Subnet): (t: seq<byte>)
    ensures IsToken(t) && AsString(t) == FormatCIDR(s)
  {
    FormatCIDRChars(s);
    AsBytes(FormatCIDR(s))
  }

  /** A list file: one CIDR per line, as the published lists are written. */
  function ListFile(ss: seq<Subnet>): seq<byte> {
    Join(seq(|ss|, i requires 0 <= i < |ss| => CidrBytes(ss[i])), 10)
  }

  lemma AsStringAppend(a: seq<byte>, b: seq<byte>)
    ensures AsString(a + b) == AsString(a) + AsString(b)
  {
  }

  /** The CIDR text of a subnet from the text of its network and of its length. */
  lemma CidrText(x: Addr, n: PrefixLen, q: string, qn: string)
    requires FormatIPv4(x) == q && Decimal(n) == qn
    ensures FormatCIDR(Subnet(x, n)) == q + "/" + qn
  {
  }

  /** A list file of two subnets reads as their CIDR texts on two lines, with no trailing newline. */
  lemma ListFileOfTwo(s: Subnet, s': Subnet)
    ensures AsString(ListFile([s, s'])) == FormatCIDR(s) + "\n" + FormatCIDR(s')
  {
    var t, t' := CidrBytes(s), CidrBytes(s');
    var ts := seq(2, i requires 0 <= i < 2 => CidrBytes([s, s'][i]));
    assert ts == [t, t'];
    assert Join(ts, 10) == t + [10] + t' by {
      assert ts[1..] == [t'];
    }
    AsStringAppend(t + [10], t');
    AsStringAppend(t, [10]);
    assert AsString([10]) == "\n";
  }

  /** The merge reads a list file back as exactly the subnets written to it, in order. */
  lemma ListFileRoundTrip(ss: seq<Subnet>)
    requires forall i :: 0 <= i < |ss| ==> Canonical(ss[i])
    ensures BlobSubnets(ListFile(ss)) == ss
  {
    var ts := seq(|ss|, i requires 0 <= i < |ss| => CidrBytes(ss[i]));
    FieldsOfJoin(ts, 10);
    forall i | 0 <= i < |ts| ensures ParseToken(ts[i]) == Some(ss[i]) {
      ParseOfFormatCIDR(ss[i]);
    }
    ParsedSubnetsOfWellFormed(ts, ss);
  }

  // ---------------------------------------------------------------------------
  // The merge
  // ---------------------------------------------------------------------------

  /** The subnets of one origin are those of its locations' bytes, whatever the order of the locations. */
  lemma OriginSubnetsMembers(reg: Registry, o: Origin, urls: seq<Url>, s: Subnet)
    requires o in reg && Enumerates(urls, reg[o].Keys)
    ensures s in OriginSubnets(reg, o, urls) <==> exists u :: u in reg[o] && s in BlobSubnets(reg[o][u])
  {
    var p := Parsed(reg[o]);
    ConcatOverMembers(p, urls, s);
    if s in OriginSubnets(reg, o, urls) {
      var u :| u in p && s in p[u];
      assert u in reg[o] && s in BlobSubnets(reg[o][u]);
    }
    forall u | u in reg[o] && s in BlobSubnets(reg[o][u]) ensures s in OriginSubnets(reg, o, urls) {
      assert u in p && s in p[u];
    }
  }

  /** An origin is in the snapshot exactly when one of its locations' bytes hold a token that parses. */
  lemma MergeKeys(reg: Registry, ord: map<Origin, seq<Url>>, o: Origin)
    requires IsUrlOrder(reg, ord)
    ensures o in Merge(reg, ord) <==> o in reg && exists u :: u in reg[o] && BlobSubnets(reg[o][u]) != []
  {
    if o in reg {
      var l := OriginSubnets(reg, o, ord[o]);
      if l != [] {
        OriginSubnetsMembers(reg, o, ord[o], l[0]);
      }
      forall u | u in reg[o] && BlobSubnets(reg[o][u]) != [] ensures l != [] {
        OriginSubnetsMembers(reg, o, ord[o], BlobSubnets(reg[o][u])[0]);
      }
    }
  }

  /** The list of an origin holds exactly the subnets parsed from its locations' bytes. */
  lemma MergeMembers(reg: Registry, ord: map<Origin, seq<Url>>, o: Origin, s: Subnet)
    requires IsUrlOrder(reg, ord)
    ensures (o in Merge(reg, ord) && s in Merge(reg, ord)[o]) <==>
      o in reg && exists u :: u in reg[o] && s in BlobSubnets(reg[o][u])
  {
    if o in reg {
      OriginSubnetsMembers(reg, o, ord[o], s);
    }
  }

  /** Visiting the origins and locations in another order gives the same origins, each list a permutation. */
  lemma MergeOrderIrrelevant(reg: Registry, ord: map<Origin, seq<Url>>, ord': map<Origin, seq<Url>>)
    requires IsUrlOrder(reg, ord) && IsUrlOrder(reg, ord')
    ensures Merge(reg, ord).Keys == Merge(reg, ord').Keys
    ensures forall o :: o in Merge(reg, ord) ==> multiset(Merge(reg, ord)[o]) == multiset(Merge(reg, ord')[o])
  {
    forall o | o in reg ensures multiset(OriginSubnets(reg, o, ord[o])) == multiset(OriginSubnets(reg, o, ord'[o])) {
      ConcatOverIsPool(Parsed(reg[o]), ord[o]);
      ConcatOverIsPool(Parsed(reg[o]), ord'[o]);
    }
    forall o ensures o in Merge(reg, ord) <==> o in Merge(reg, ord') {
      MergeKeys(reg, ord, o);
      MergeKeys(reg, ord', o);
    }
  }

  /** The list of an origin holds, with multiplicity, the subnets of all its locations. */
  lemma MergeIsPool(reg: Registry, ord: map<Origin, seq<Url>>, o: Origin)
    requires IsUrlOrder(reg, ord) && o in Merge(reg, ord)
    ensures multiset(Merge(reg, ord)[o]) == Pool(Parsed(reg[o]))
  {
    ConcatOverIsPool(Parsed(reg[o]), ord[o]);
  }

  /**
   * Nothing is deduplicated: a subnet listed by two locations of one origin
   * appears at least twice in that origin's list.
   */
  lemma MergeKeepsDuplicates(reg: Registry, ord: map<Origin, seq<Url>>, o: Origin, u: Url, u': Url, s: Subnet)
    requires IsUrlOrder(reg, ord) && o in reg && u in reg[o] && u' in reg[o] && u != u'
    requires s in BlobSubnets(reg[o][u]) && s in BlobSubnets(reg[o][u'])
    ensures o in Merge(reg, ord) && multiset(Merge(reg, ord)[o])[s] >= 2
  {
    MergeMembers(reg, ord, o, s);
    MergeIsPool(reg, ord, o);
    PoolHoldsBoth(Parsed(reg[o]), u, u', s);
  }

  // ---------------------------------------------------------------------------
  // The refresh
  // ---------------------------------------------------------------------------

  /** Every cached byte list is empty, as the byte-cache clearing leaves it. */
  ghost predicate AllCleared(reg: Registry) {
    forall o, u :: o in reg && u in reg[o] ==> reg[o][u] == []
  }

  /** After the fetch, some location of origin `o` holds bytes in which `s` is listed. */
  ghost predicate FetchedHolds(reg: Registry, fetched: FetchOutcomes, o: Origin, s: Subnet) {
    o in reg && exists u :: u in reg[o] && s in BlobSubnets(Outcome(reg, fetched, o, u))
  }

  /** A refresh adds or removes no origin and no location. */
  lemma RefreshKeepsLocations(st: CacheState, period: int, now: int, fetched: FetchOutcomes, st': CacheState)
    requires RefreshStep(st, period, now, fetched, st')
    ensures st'.sources.Keys == st.sources.Keys
    ensures forall o :: o in st.sources ==> st'.sources[o].Keys == st.sources[o].Keys
  {
  }

  /** The merge of the fetched registry lists exactly what the fetched bytes hold. */
  lemma MergeOfFetched(reg: Registry, fetched: FetchOutcomes, ord: map<Origin, seq<Url>>, o: Origin, s: Subnet)
    requires IsUrlOrder(FetchInto(reg, fetched), ord)
    ensures var m := Merge(FetchInto(reg, fetched), ord);
      o in m && s in m[o] <==> FetchedHolds(reg, fetched, o, s)
  {
    var f := FetchInto(reg, fetched);
    MergeMembers(f, ord, o, s);
    if o in reg {
      assert f[o].Keys == reg[o].Keys;
      assert forall u :: u in f[o] ==> f[o][u] == Outcome(reg, fetched, o, u);
    }
  }

  lemma ClearedIsCleared(reg: Registry)
    ensures AllCleared(Cleared(reg))
  {
  }

  /**
   * A stale refresh leaves every byte list empty, records `now`, and makes
   * the snapshot hold exactly the subnets of the bytes each location had
   * after the fetch.
   */
  lemma RefreshWhenStale(st: CacheState, period: int, now: int, fetched: FetchOutcomes, st': CacheState)
    requires RefreshStep(st, period, now, fetched, st') && Stale(st, period, now)
    ensures AllCleared(st'.sources) && st'.lastFetched == now
    ensures forall o, s :: o in st'.subnets && s in st'.subnets[o] <==> FetchedHolds(st.sources, fetched, o, s)
  {
    var reg := FetchInto(st.sources, fetched);
    var ord :| IsUrlOrder(reg, ord) && st' == CacheState(Cleared(reg), Merge(reg, ord), now);
    ClearedIsCleared(reg);
    forall o, s ensures o in st'.subnets && s in st'.subnets[o] <==> FetchedHolds(st.sources, fetched, o, s) {
      MergeOfFetched(st.sources, fetched, ord, o, s);
    }
  }

  /**
   * Once the byte cache has been cleared, a stale refresh only knows what
   * this cycle's fetches returned: a location whose fetch failed contributes
   * nothing.
   */
  lemma SubnetsComeFromThisCycle(st: CacheState, period: int, now: int, fetched: FetchOutcomes, st': CacheState)
    requires AllCleared(st.sources)
    requires RefreshStep(st, period, now, fetched, st') && Stale(st, period, now)
    ensures forall o, s :: o in st'.subnets && s in st'.subnets[o] ==>
      exists u :: u in st.sources[o] && Read(fetched, o, u) && s in BlobSubnets(fetched[(o, u)].value)
  {
    RefreshWhenStale(st, period, now, fetched, st');
    EmptyBlobHasNoSubnets();
  }

  /**
   * When every fetch fails after the byte cache was cleared, the snapshot
   * becomes empty, so the next call refreshes again whatever the time.
   */
  lemma FailedCycleEmptiesSnapshot(st: CacheState, period: int, now: int, fetched: FetchOutcomes, st': CacheState, later: int)
    requires AllCleared(st.sources)
    requires forall o, u :: !Read(fetched, o, u)
    requires RefreshStep(st, period, now, fetched, st') && Stale(st, period, now)
    ensures st'.subnets == map[]
    ensures Stale(st', period, later)
  {
    SubnetsComeFromThisCycle(st, period, now, fetched, st');
    var reg := FetchInto(st.sources, fetched);
    var ord :| IsUrlOrder(reg, ord) && st'.subnets == Merge(reg, ord);
    forall o | o in st'.subnets ensures st'.subnets[o] != [] && st'.subnets[o][0] in st'.subnets[o] {
    }
  }

  /** After a refresh that produced subnets, no call within the cache period rebuilds anything. */
  lemma NoRefreshWithinPeriod(st: CacheState, period: int, now: int, fetched: FetchOutcomes, st': CacheState,
                              later: int, fetched': FetchOutcomes, st'': CacheState)
    requires RefreshStep(st, period, now, fetched, st') && Stale(st, period, now)
    requires st'.subnets != map[] && later <= now + period
    requires RefreshStep(st', period, later, fetched', st'')
    ensures st'' == st'
  {
    RefreshWhenStale(st, period, now, fetched, st');
    assert |st'.subnets| != 0 by {
      var o :| o in st'.subnets;
    }
  }

  // ---------------------------------------------------------------------------
  // The answers of Check and Subnets
  // ---------------------------------------------------------------------------

  /** When exactly one origin lists the address, every order gives that origin. */
  lemma AnswerIsUnique(snap: Snapshot, ip: Addr, r: Result<Origin, Error>, o: Origin)
    requires Answers(snap, ip, r)
    requires Lists(snap, o, ip) && forall o' :: Lists(snap, o', ip) ==> o' == o
    ensures r == Success(o)
  {
  }

  /** An address gets `ErrNotFound` exactly when no subnet of any origin contains it. */
  lemma NotFoundIff(snap: Snapshot, ip: Addr, r: Result<Origin, Error>)
    requires Answers(snap, ip, r)
    ensures r == Failure(NotFound) <==> forall o, s :: o in snap && s in snap[o] ==> !Contains(s, ip)
  {
    if r.Success? {
      var s :| s in snap[r.value] && Contains(s, ip);
      assert r.value in snap && s in snap[r.value] && Contains(s, ip);
    } else {
      forall o, s | o in snap && s in snap[o] ensures !Contains(s, ip) {
        if Contains(s, ip) {
          assert Lists(snap, o, ip);
        }
      }
    }
  }

  /**
   * An origin found right after a stale refresh had a location whose bytes,
   * after the fetch, held a subnet containing the address.
   */
  lemma FoundOriginHadContainingSubnet(st: CacheState, period: int, now: int, fetched: FetchOutcomes, st': CacheState,
                                       ip: Addr, r: Result<Origin, Error>)
    requires RefreshStep(st, period, now, fetched, st') && Stale(st, period, now)
    requires Answers(st'.subnets, ip, r) && r.Success?
    ensures r.value in st.sources
    ensures exists u, s :: u in st.sources[r.value] && s in BlobSubnets(Outcome(st.sources, fetched, r.value, u)) && Contains(s, ip)
  {
    RefreshWhenStale(st, period, now, fetched, st');
    var s :| s in st'.subnets[r.value] && Contains(s, ip);
    assert FetchedHolds(st.sources, fetched, r.value, s);
  }

  /** What `Subnets` returns: every subnet of every origin, as often as it is listed. */
  lemma FlattenContents(snap: Snapshot, ord: seq<Origin>, ss: seq<Subnet>)
    requires Enumerates(ord, snap.Keys) && ss == ConcatOver(snap, ord)
    ensures forall s :: s in ss <==> exists o :: o in snap && s in snap[o]
    ensures multiset(ss) == Pool(snap) && |ss| == |Pool(snap)|
  {
    ConcatOverIsPool(snap, ord);
    forall s ensures s in ss <==> exists o :: o in snap && s in snap[o] {
      ConcatOverMembers(snap, ord, s);
    }
  }

  /**
   * Two calls of `Subnets` within one cache period after a refresh that
   * produced subnets return the same subnets, as often each, whatever the
   * order of the origins in either result.
   */
  lemma SubnetsWithinPeriodAgree(st: CacheState, period: int, now: int, fetched: FetchOutcomes, st': CacheState,
                                 ord: seq<Origin>, ss: seq<Subnet>,
                                 later: int, fetched': FetchOutcomes, st'': CacheState,
                                 ord': seq<Origin>, ss': seq<Subnet>)
    requires RefreshStep(st, period, now, fetched, st') && Stale(st, period, now)
    requires st'.subnets != map[]
    requires Enumerates(ord, st'.subnets.Keys) && ss == ConcatOver(st'.subnets, ord)
    requires later <= now + period
    requires RefreshStep(st', period, later, fetched', st'')
    requires Enumerates(ord', st''.subnets.Keys) && ss' == ConcatOver(st''.subnets, ord')
    ensures multiset(ss') == multiset(ss)
  {
    NoRefreshWithinPeriod(st, period, now, fetched, st', later, fetched', st'');
    FlattenContents(st'.subnets, ord, ss);
    FlattenContents(st''.subnets, ord', ss');
  }
}
