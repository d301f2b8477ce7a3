/**
 * The scenario of `TestCheck` in vpn_test.go: two origins with one source
 * location each, both fetched successfully, each serving a list of two /24
 * networks; the address 192.168.5.1 is attributed to the origin whose list
 * holds 192.168.5.0/24, whatever the iteration order.
 */
module VpnScenarios {
  import opened Wrappers
  import opened Bytes
  import opened Net
  import opened Enumeration
  import opened Vpn
  import opened VpnFacts

  const FakeVpn: Origin := "fake-vpn"

  const FakeVpn2: Origin := "fake-vpn-2"

  /** What the first test server serves: 45.67.0.0/24 and 192.168.5.0/24. */
  const FirstList: seq<Subnet> := [Subnet(IPv4(45, 67, 0, 0), 24), Subnet(IPv4(192, 168, 5, 0), 24)]

  /** What the second test server serves: 12.34.0.0/24 and 10.10.0.0/24. */
  const SecondList: seq<Subnet> := [Subnet(IPv4(12, 34, 0, 0), 24), Subnet(IPv4(10, 10, 0, 0), 24)]

  /** The registry of the test: each origin with its server's location and nothing cached. */
  function TestSources(u: Url, u2: Url): Registry {
    TwoSources(FakeVpn, u, [], FakeVpn2, u2, [])
  }

  /** Both servers answer with their list, one CIDR per line. */
  function TestBodies(u: Url, u2: Url): FetchOutcomes {
    map[(FakeVpn, u) := Some(ListFile(FirstList)), (FakeVpn2, u2) := Some(ListFile(SecondList))]
  }

  lemma NumeralsOf4567()
    ensures Fields4(45, 67, 0, 0) == ["45", "67", "0", "0"]
  {
    assert Decimal(45) == "45";
    assert Decimal(67) == "67";
  }

  lemma FormatOf4567()
    ensures FormatIPv4(IPv4(45, 67, 0, 0)) == "45.67.0.0"
  {
    NumeralsOf4567();
    assert JoinWith(["45", "67", "0", "0"], '.') == "45.67.0.0";
    FormatOfIPv4(45, 67, 0, 0);
  }

  lemma NumeralsOf1921685()
    ensures Fields4(192, 168, 5, 0) == ["192", "168", "5", "0"]
  {
    assert Decimal(192) == "192";
    assert Decimal(168) == "168";
  }

  lemma FormatOf1921685()
    ensures FormatIPv4(IPv4(192, 168, 5, 0)) == "192.168.5.0"
  {
    NumeralsOf1921685();
    assert JoinWith(["192", "168", "5", "0"], '.') == "192.168.5.0";
    FormatOfIPv4(192, 168, 5, 0);
  }

  lemma NumeralsOf1234()
    ensures Fields4(12, 34, 0, 0) == ["12", "34", "0", "0"]
  {
    assert Decimal(12) == "12";
    assert Decimal(34) == "34";
  }

  lemma FormatOf1234()
    ensures FormatIPv4(IPv4(12, 34, 0, 0)) == "12.34.0.0"
  {
    NumeralsOf1234();
    assert JoinWith(["12", "34", "0", "0"], '.') == "12.34.0.0";
    FormatOfIPv4(12, 34, 0, 0);
  }

  lemma NumeralsOf1010()
    ensures Fields4(10, 10, 0, 0) == ["10", "10", "0", "0"]
  {
    assert Decimal(10) == "10";
  }

  lemma FormatOf1010()
    ensures FormatIPv4(IPv4(10, 10, 0, 0)) == "10.10.0.0"
  {
    NumeralsOf1010();
    assert JoinWith(["10", "10", "0", "0"], '.') == "10.10.0.0";
    FormatOfIPv4(10, 10, 0, 0);
  }

  /** The CIDR text of a /24 from the text of its address. */
  lemma Slash24Text(x: Addr, q: string)
    requires FormatIPv4(x) == q
    ensures FormatCIDR(Subnet(x, 24)) == q + "/24"
  {
    assert Decimal(24) == "24";
    CidrText(x, 24, q, "24");
  }

  lemma SlashTexts()
    ensures "45.67.0.0" + "/24" == "45.67.0.0/24"
    ensures "192.168.5.0" + "/24" == "192.168.5.0/24"
    ensures "12.34.0.0" + "/24" == "12.34.0.0/24"
    ensures "10.10.0.0" + "/24" == "10.10.0.0/24"
  {
  }

  lemma FirstListTexts()
    ensures FormatCIDR(FirstList[0]) == "45.67.0.0/24"
    ensures FormatCIDR(FirstList[1]) == "192.168.5.0/24"
  {
    FormatOf4567();
    FormatOf1921685();
    Slash24Text(IPv4(45, 67, 0, 0), "45.67.0.0");
    Slash24Text(IPv4(192, 168, 5, 0), "192.168.5.0");
    SlashTexts();
  }

  lemma SecondListTexts()
    ensures FormatCIDR(SecondList[0]) == "12.34.0.0/24"
    ensures FormatCIDR(SecondList[1]) == "10.10.0.0/24"
  {
    FormatOf1234();
    FormatOf1010();
    Slash24Text(IPv4(12, 34, 0, 0), "12.34.0.0");
    Slash24Text(IPv4(10, 10, 0, 0), "10.10.0.0");
    SlashTexts();
  }

  lemma ServedTexts()
    ensures "45.67.0.0/24" + "\n" + "192.168.5.0/24" == "45.67.0.0/24\n192.168.5.0/24"
    ensures "12.34.0.0/24" + "\n" + "10.10.0.0/24" == "12.34.0.0/24\n10.10.0.0/24"
  {
  }

  /** The first list file is the body the first test server writes: "45.67.0.0/24\n192.168.5.0/24". */
  lemma FirstListIsServed()
    ensures AsString(ListFile(FirstList)) == "45.67.0.0/24\n192.168.5.0/24"
  {
    ListFileOfTwo(FirstList[0], FirstList[1]);
    FirstListTexts();
    ServedTexts();
  }

  /** The second list file is the body the second test server writes: "12.34.0.0/24\n10.10.0.0/24". */
  lemma SecondListIsServed()
    ensures AsString(ListFile(SecondList)) == "12.34.0.0/24\n10.10.0.0/24"
  {
    ListFileOfTwo(SecondList[0], SecondList[1]);
    SecondListTexts();
    ServedTexts();
  }

  /** Two origins with one location each. */
  function TwoSources(o: Origin, u: Url, bs: seq<byte>, o': Origin, u': Url, bs': seq<byte>): Registry {
    map[o := map[u := bs], o' := map[u' := bs']]
  }

  /** A successful fetch of an origin's one location replaces what was cached there. */
  lemma FetchOne(reg: Registry, fetched: FetchOutcomes, o: Origin, u: Url, bs: seq<byte>)
    requires o in reg && reg[o].Keys == {u}
    requires (o, u) in fetched && fetched[(o, u)] == Some(bs)
    ensures FetchInto(reg, fetched)[o] == map[u := bs]
  {
    assert Read(fetched, o, u);
  }

  /** Both fetches succeed: the bodies replace whatever was cached. */
  lemma FetchTwo(o: Origin, u: Url, bs: seq<byte>, o': Origin, u': Url, bs': seq<byte>)
    requires o != o'
    ensures FetchInto(TwoSources(o, u, [], o', u', []), map[(o, u) := Some(bs), (o', u') := Some(bs')])
      == TwoSources(o, u, bs, o', u', bs')
  {
    var reg0 := TwoSources(o, u, [], o', u', []);
    var fetched := map[(o, u) := Some(bs), (o', u') := Some(bs')];
    FetchOne(reg0, fetched, o, u, bs);
    FetchOne(reg0, fetched, o', u', bs');
  }

  /** The only order over two origins with one location each. */
  lemma OrderOfTwo(o: Origin, u: Url, bs: seq<byte>, o': Origin, u': Url, bs': seq<byte>, ord: map<Origin, seq<Url>>)
    requires o != o'
    requires IsUrlOrder(TwoSources(o, u, bs, o', u', bs'), ord)
    ensures ord == map[o := [u]][o' := [u']]
  {
    EnumeratesSingleton(ord[o], u);
    EnumeratesSingleton(ord[o'], u');
  }

  /** Any order over two origins with one location each merges to the two parsed lists. */
  lemma MergeTwo(o: Origin, u: Url, bs: seq<byte>, o': Origin, u': Url, bs': seq<byte>, ord: map<Origin, seq<Url>>)
    requires o != o'
    requires IsUrlOrder(TwoSources(o, u, bs, o', u', bs'), ord)
    ensures Merge(TwoSources(o, u, bs, o', u', bs'), ord) ==
      WithList(WithList(map[], o, BlobSubnets(bs)), o', BlobSubnets(bs'))
  {
    var reg := TwoSources(o, u, bs, o', u', bs');
    OrderOfTwo(o, u, bs, o', u', bs', ord);
    OneLocation(o, u, bs, o', u', bs');
    MergeOfNothing(reg);
    MergeExtend(reg, map[], o, [u]);
    MergeExtend(reg, map[o := [u]], o', [u']);
  }

  lemma MergeOfNothing(reg: Registry)
    ensures Merge(reg, map[]) == map[]
  {
  }

  lemma OneLocation(o: Origin, u: Url, bs: seq<byte>, o': Origin, u': Url, bs': seq<byte>)
    requires o != o'
    ensures OriginSubnets(TwoSources(o, u, bs, o', u', bs'), o, [u]) == BlobSubnets(bs)
    ensures OriginSubnets(TwoSources(o, u, bs, o', u', bs'), o', [u']) == BlobSubnets(bs')
  {
    var reg := TwoSources(o, u, bs, o', u', bs');
    ConcatOverSingle(Parsed(reg[o]), u);
    ConcatOverSingle(Parsed(reg[o']), u');
  }

  /**
   * Two origins with one location each, nothing cached, both fetches
   * successful with non-empty list files: the first refresh makes each
   * origin's list exactly the list its server sent.
   */
  lemma TwoListsSnapshot(o: Origin, u: Url, l: seq<Subnet>, o': Origin, u': Url, l': seq<Subnet>,
                         period: int, start: int, now: int, st': CacheState)
    requires o != o' && l != [] && l' != []
    requires forall i :: 0 <= i < |l| ==> Canonical(l[i])
    requires forall i :: 0 <= i < |l'| ==> Canonical(l'[i])
    requires RefreshStep(CacheState(TwoSources(o, u, [], o', u', []), map[], start), period, now,
                         map[(o, u) := Some(ListFile(l)), (o', u') := Some(ListFile(l'))], st')
    ensures st'.subnets == map[o := l, o' := l']
  {
    FetchTwo(o, u, ListFile(l), o', u', ListFile(l'));
    var reg := TwoSources(o, u, ListFile(l), o', u', ListFile(l'));
    var ord :| IsUrlOrder(reg, ord) && st'.subnets == Merge(reg, ord);
    ListFileRoundTrip(l);
    ListFileRoundTrip(l');
    MergeTwo(o, u, ListFile(l), o', u', ListFile(l'), ord);
    assert WithList(map[], o, l) == map[o := l];
  }

  /** With one origin listing the address and the other not, every answer is the first origin. */
  lemma TwoListsAnswer(o: Origin, l: seq<Subnet>, o': Origin, l': seq<Subnet>, ip: Addr, r: Result<Origin, Error>)
    requires o != o'
    requires exists s :: s in l && Contains(s, ip)
    requires forall s :: s in l' ==> !Contains(s, ip)
    requires Answers(map[o := l, o' := l'], ip, r)
    ensures r == Success(o)
  {
    var snap := map[o := l, o' := l'];
    assert Lists(snap, o, ip);
    AnswerIsUnique(snap, ip, r, o);
  }

  lemma FirstListIsCanonical()
    ensures forall i :: 0 <= i < |FirstList| ==> Canonical(FirstList[i])
  {
    Slash24Contains(45, 67, 0, 0);
    Slash24Contains(192, 168, 5, 0);
  }

  lemma SecondListIsCanonical()
    ensures forall i :: 0 <= i < |SecondList| ==> Canonical(SecondList[i])
  {
    Slash24Contains(12, 34, 0, 0);
    Slash24Contains(10, 10, 0, 0);
  }

  /** 192.168.5.0/24 contains 192.168.5.1. */
  lemma FirstListHoldsTestAddress()
    ensures exists s :: s in FirstList && Contains(s, IPv4(192, 168, 5, 1))
  {
    Slash24Contains(192, 168, 5, 1);
    assert FirstList[1] in FirstList;
  }

  /** Neither 12.34.0.0/24 nor 10.10.0.0/24 contains 192.168.5.1: their first octets differ. */
  lemma SecondListMissesTestAddress()
    ensures forall s :: s in SecondList ==> !Contains(s, IPv4(192, 168, 5, 1))
  {
    FirstOctetsDiffer(12, 34, 0, 0, 24, 192, 168, 5, 1);
    FirstOctetsDiffer(10, 10, 0, 0, 24, 192, 168, 5, 1);
  }

  /** One origin with one location. */
  function OneSource(o: Origin, u: Url, bs: seq<byte>): Registry {
    map[o := map[u := bs]]
  }

  /** The fetch of the one location succeeds: the body replaces what was cached. */
  lemma FetchOneSource(o: Origin, u: Url, bs: seq<byte>)
    ensures FetchInto(OneSource(o, u, []), map[(o, u) := Some(bs)]) == OneSource(o, u, bs)
  {
    FetchOne(OneSource(o, u, []), map[(o, u) := Some(bs)], o, u, bs);
  }

  /** Any order over one origin with one location merges to that location's parsed list. */
  lemma MergeOne(o: Origin, u: Url, bs: seq<byte>, ord: map<Origin, seq<Url>>)
    requires IsUrlOrder(OneSource(o, u, bs), ord)
    ensures Merge(OneSource(o, u, bs), ord) == WithList(map[], o, BlobSubnets(bs))
  {
    var reg := OneSource(o, u, bs);
    EnumeratesSingleton(ord[o], u);
    assert ord == map[][o := [u]];
    MergeOfNothing(reg);
    MergeExtend(reg, map[], o, [u]);
    ConcatOverSingle(Parsed(reg[o]), u);
  }

  /**
   * One origin with one location, nothing cached, the fetch successful with a
   * non-empty list file: the first refresh makes that list the origin's.
   */
  lemma OneListSnapshot(o: Origin, u: Url, l: seq<Subnet>, period: int, start: int, now: int, st': CacheState)
    requires l != [] && forall i :: 0 <= i < |l| ==> Canonical(l[i])
    requires RefreshStep(CacheState(OneSource(o, u, []), map[], start), period, now,
                         map[(o, u) := Some(ListFile(l))], st')
    ensures st'.subnets == map[o := l]
  {
    FetchOneSource(o, u, ListFile(l));
    var reg := OneSource(o, u, ListFile(l));
    var ord :| IsUrlOrder(reg, ord) && st'.subnets == Merge(reg, ord);
    MergeOne(o, u, ListFile(l), ord);
    ListFileRoundTrip(l);
    assert WithList(map[], o, l) == map[o := l];
  }

  /** The package's defaults, the aggregated list served: the first refresh lists it under "x4b-merged". */
  lemma DefaultFirstRefresh(l: seq<Subnet>, start: int, now: int, st': CacheState)
    requires l != [] && forall i :: 0 <= i < |l| ==> Canonical(l[i])
    requires RefreshStep(CacheState(DefaultSources, map[], start), DefaultCachePeriod, now,
                         map[(X4bMerged, X4bList) := Some(ListFile(l))], st')
    ensures st'.subnets == map[X4bMerged := l] && st'.lastFetched == now
  {
    assert DefaultSources == OneSource(X4bMerged, X4bList, []);
    OneListSnapshot(X4bMerged, X4bList, l, DefaultCachePeriod, start, now, st');
  }

  /** With the default period, no call within 45 minutes of that refresh changes anything. */
  lemma DefaultNoRefreshFor45Minutes(l: seq<Subnet>, start: int, now: int, st': CacheState,
                                     later: int, fetched': FetchOutcomes, st'': CacheState)
    requires l != [] && forall i :: 0 <= i < |l| ==> Canonical(l[i])
    requires RefreshStep(CacheState(DefaultSources, map[], start), DefaultCachePeriod, now,
                         map[(X4bMerged, X4bList) := Some(ListFile(l))], st')
    requires later <= now + 45 * 60 * 1000000000
    requires RefreshStep(st', DefaultCachePeriod, later, fetched', st'')
    ensures st'' == st'
  {
    DefaultFirstRefresh(l, start, now, st');
  }

  /** With no sources, as in `TestCheckWithInvalidIPs`, a valid address is never listed. */
  lemma NoSourcesNotFound(period: int, start: int, now: int, fetched: FetchOutcomes, st': CacheState,
                          ip: Addr, r: Result<Origin, Error>)
    requires RefreshStep(CacheState(map[], map[], start), period, now, fetched, st')
    requires Answers(st'.subnets, ip, r)
    ensures st'.subnets == map[] && st'.lastFetched == now
    ensures r == Failure(NotFound)
  {
    var reg := FetchInto(map[], fetched);
    var ord :| IsUrlOrder(reg, ord) && st'.subnets == Merge(reg, ord);
    forall o ensures o !in st'.subnets {
      MergeKeys(reg, ord, o);
    }
  }

  /** `Check("192.168.5.1")` on the test registry, on its first refresh, answers "fake-vpn". */
  lemma TestCheckAnswer(u: Url, u2: Url, period: int, start: int, now: int, st': CacheState, r: Result<Origin, Error>)
    requires RefreshStep(CacheState(TestSources(u, u2), map[], start), period, now, TestBodies(u, u2), st')
    requires Answers(st'.subnets, IPv4(192, 168, 5, 1), r)
    ensures ParseIP("192.168.5.1") == Some(IPv4(192, 168, 5, 1))
    ensures r == Success(FakeVpn)
  {
    TestAddressIsAnAddress();
    FirstListIsCanonical();
    SecondListIsCanonical();
    TwoListsSnapshot(FakeVpn, u, FirstList, FakeVpn2, u2, SecondList, period, start, now, st');
    FirstListHoldsTestAddress();
    SecondListMissesTestAddress();
    TwoListsAnswer(FakeVpn, FirstList, FakeVpn2, SecondList, IPv4(192, 168, 5, 1), r);
  }
}
