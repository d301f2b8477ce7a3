/**
 * Addresses and subnets: the parts of Go's `net` package the core relies on,
 * restricted to IPv4. An address is its 32 bits, most significant first; a
 * subnet is a network address and a prefix length, and it contains an address
 * when the first `prefixLen` bits of the two agree (the CIDR prefix match of
 * section 3.1 of RFC 4632).
 */
module Net {
  import opened Wrappers

  type Addr = s: seq<bool> | |s| == 32 witness seq(32, i => false)

  type PrefixLen = n: nat | n <= 32

  type Octet = n: nat | n < 256

  datatype Subnet = Subnet(network: Addr, prefixLen: PrefixLen)

  // ---------------------------------------------------------------------------
  // Masks and containment
  // ---------------------------------------------------------------------------

  /** `a` with every bit after the first `n` cleared. */
  function Mask(a: Addr, n: PrefixLen): (m: Addr)
    ensures m[..n] == a[..n]
    ensures forall i :: n <= i < 32 ==> !m[i]
  {
    a[..n] + seq(32 - n, i => false)
  }

  /** `IPNet.Contains`: the address and the network agree once both are masked to the prefix. */
  predicate Contains(s: Subnet, ip: Addr) {
    Mask(ip, s.prefixLen) == Mask(s.network, s.prefixLen)
  }

  /** A network address with no bit set past its prefix, as `ParseCIDR` produces. */
  predicate Canonical(s: Subnet) {
    Mask(s.network, s.prefixLen) == s.network
  }

  /** Masked comparison is prefix matching: the first `prefixLen` bits agree. */
  lemma ContainsIsPrefixMatch(s: Subnet, ip: Addr)
    ensures Contains(s, ip) <==> ip[..s.prefixLen] == s.network[..s.prefixLen]
  {
    var n := s.prefixLen;
    if ip[..n] == s.network[..n] {
      assert Mask(ip, n) == ip[..n] + seq(32 - n, i => false);
    }
  }

  /** A prefix of length 0 contains every address. */
  lemma EmptyPrefixContainsAll(network: Addr, ip: Addr)
    ensures Contains(Subnet(network, 0), ip)
  {
    ContainsIsPrefixMatch(Subnet(network, 0), ip);
  }

  /** A canonical subnet with prefix length 32 contains its network address and nothing else. */
  lemma FullPrefixContainsOnlyNetwork(s: Subnet, ip: Addr)
    requires Canonical(s) && s.prefixLen == 32
    ensures Contains(s, ip) <==> ip == s.network
  {
    ContainsIsPrefixMatch(s, ip);
    assert ip[..32] == ip && s.network[..32] == s.network;
  }

  /** Shortening the prefix of a subnet can only add addresses. */
  lemma ShorterPrefixContainsMore(network: Addr, n: PrefixLen, m: PrefixLen, ip: Addr)
    requires m <= n
    requires Contains(Subnet(network, n), ip)
    ensures Contains(Subnet(network, m), ip)
  {
    ContainsIsPrefixMatch(Subnet(network, n), ip);
    ContainsIsPrefixMatch(Subnet(network, m), ip);
    assert ip[..m] == ip[..n][..m] && network[..m] == network[..n][..m];
  }

  // ---------------------------------------------------------------------------
  // Bits and octets
  // ---------------------------------------------------------------------------

  function Pow2(n: nat): (r: nat)
    ensures r > 0
  {
    if n == 0 then 1 else 2 * Pow2(n - 1)
  }

  /** The low `width` bits of `v`, most significant first. */
  function ToBits(v: nat, width: nat): (bs: seq<bool>)
    ensures |bs| == width
    decreases width
  {
    if width == 0 then [] else ToBits(v / 2, width - 1) + [v % 2 == 1]
  }

  /** The number whose binary digits, most significant first, are `bs`. */
  function FromBits(bs: seq<bool>): (v: nat)
    ensures v < Pow2(|bs|)
    decreases |bs|
  {
    if bs == [] then 0 else 2 * FromBits(bs[..|bs| - 1]) + (if bs[|bs| - 1] then 1 else 0)
  }

  lemma {:induction false} FromBitsOfToBits(v: nat, width: nat)
    requires v < Pow2(width)
    ensures FromBits(ToBits(v, width)) == v
    decreases width
  {
    if width > 0 {
      var bs := ToBits(v, width);
      assert bs[..width - 1] == ToBits(v / 2, width - 1);
      FromBitsOfToBits(v / 2, width - 1);
    }
  }

  lemma {:induction false} ToBitsOfFromBits(bs: seq<bool>)
    ensures ToBits(FromBits(bs), |bs|) == bs
    decreases |bs|
  {
    if bs != [] {
      var init := bs[..|bs| - 1];
      var v := FromBits(bs);
      assert v / 2 == FromBits(init);
      ToBitsOfFromBits(init);
      assert bs == init + [bs[|bs| - 1]];
    }
  }

  /** The address `a.b.c.d`. */
  function IPv4(a: Octet, b: Octet, c: Octet, d: Octet): Addr {
    ToBits(a, 8) + ToBits(b, 8) + ToBits(c, 8) + ToBits(d, 8)
  }

  /** The `k`-th octet of an address, numbered from the left. */
  function OctetAt(a: Addr, k: nat): Octet
    requires k < 4
  {
    assert Pow2(8) == 256;
    FromBits(a[8 * k..8 * k + 8])
  }

  /** A 32-bit sequence is its four 8-bit quarters, concatenated. */
  lemma Quarters(x: seq<bool>, p: seq<bool>, q: seq<bool>, r: seq<bool>, s: seq<bool>)
    requires |x| == 32
    requires p == x[0..8] && q == x[8..16] && r == x[16..24] && s == x[24..32]
    ensures p + q + r + s == x
  {
    assert x == x[0..8] + x[8..16] + x[16..24] + x[24..32];
  }

  /** The quarters of a concatenation of four 8-bit sequences are those sequences. */
  lemma QuarterSlices(p: seq<bool>, q: seq<bool>, r: seq<bool>, s: seq<bool>)
    requires |p| == 8 && |q| == 8 && |r| == 8 && |s| == 8
    ensures (p + q + r + s)[0..8] == p && (p + q + r + s)[8..16] == q
    ensures (p + q + r + s)[16..24] == r && (p + q + r + s)[24..32] == s
  {
  }

  /** The octets of `a.b.c.d` are a, b, c and d. */
  lemma OctetsOfIPv4(a: Octet, b: Octet, c: Octet, d: Octet)
    ensures OctetAt(IPv4(a, b, c, d), 0) == a && OctetAt(IPv4(a, b, c, d), 1) == b
    ensures OctetAt(IPv4(a, b, c, d), 2) == c && OctetAt(IPv4(a, b, c, d), 3) == d
  {
    assert Pow2(8) == 256;
    QuarterSlices(ToBits(a, 8), ToBits(b, 8), ToBits(c, 8), ToBits(d, 8));
    FromBitsOfToBits(a, 8);
    FromBitsOfToBits(b, 8);
    FromBitsOfToBits(c, 8);
    FromBitsOfToBits(d, 8);
  }

  lemma OctetBitsAt(x: Addr, k: nat)
    requires k < 4
    ensures ToBits(OctetAt(x, k), 8) == x[8 * k..8 * k + 8]
  {
    ToBitsOfFromBits(x[8 * k..8 * k + 8]);
  }

  /** Every address is `a.b.c.d` for its own four octets. */
  lemma IPv4OfOctets(x: Addr)
    ensures IPv4(OctetAt(x, 0), OctetAt(x, 1), OctetAt(x, 2), OctetAt(x, 3)) == x
  {
    OctetBitsAt(x, 0);
    OctetBitsAt(x, 1);
    OctetBitsAt(x, 2);
    OctetBitsAt(x, 3);
    Quarters(x, ToBits(OctetAt(x, 0), 8), ToBits(OctetAt(x, 1), 8), ToBits(OctetAt(x, 2), 8), ToBits(OctetAt(x, 3), 8));
  }

  /** The bits of 0 are all clear. */
  lemma {:induction false} ToBitsOfZero(width: nat)
    ensures ToBits(0, width) == seq(width, i => false)
    decreases width
  {
    if width > 0 {
      ToBitsOfZero(width - 1);
    }
  }

  /** `a.b.c.0/24` is canonical and contains every `a.b.c.d`. */
  lemma Slash24Contains(a: Octet, b: Octet, c: Octet, d: Octet)
    ensures Canonical(Subnet(IPv4(a, b, c, 0), 24))
    ensures Contains(Subnet(IPv4(a, b, c, 0), 24), IPv4(a, b, c, d))
  {
    var p := ToBits(a, 8) + ToBits(b, 8) + ToBits(c, 8);
    assert (p + ToBits(0, 8))[..|p|] == p;
    assert (p + ToBits(d, 8))[..|p|] == p;
    ToBitsOfZero(8);
    assert Mask(IPv4(a, b, c, 0), 24) == p + seq(8, i => false);
    ContainsIsPrefixMatch(Subnet(IPv4(a, b, c, 0), 24), IPv4(a, b, c, d));
  }

  lemma FirstOctetsDiffer(a: Octet, b: Octet, c: Octet, d: Octet, n: PrefixLen, a': Octet, b': Octet, c': Octet, d': Octet)
    requires n >= 8 && a != a'
    ensures !Contains(Subnet(IPv4(a, b, c, d), n), IPv4(a', b', c', d'))
  {
    OctetsOfIPv4(a, b, c, d);
    OctetsOfIPv4(a', b', c', d');
    FirstOctetSeparates(Subnet(IPv4(a, b, c, d), n), IPv4(a', b', c', d'));
  }

  /** A subnet of prefix length 8 or more contains no address whose first octet differs from its network's. */
  lemma FirstOctetSeparates(s: Subnet, ip: Addr)
    requires s.prefixLen >= 8 && OctetAt(s.network, 0) != OctetAt(ip, 0)
    ensures !Contains(s, ip)
  {
    var n := s.prefixLen;
    ContainsIsPrefixMatch(s, ip);
    assert ip[0..8] == ip[..n][0..8];
    assert s.network[0..8] == s.network[..n][0..8];
  }

  // ---------------------------------------------------------------------------
  // Decimal numerals
  // ---------------------------------------------------------------------------

  predicate IsDigit(c: char) {
    '0' <= c <= '9'
  }

  predicate AllDigits(s: string) {
    forall i :: 0 <= i < |s| ==> IsDigit(s[i])
  }

  /** At least one digit, and no leading zero unless the numeral is "0". */
  predicate IsCanonicalDecimal(s: string) {
    |s| > 0 && AllDigits(s) && (s[0] == '0' ==> |s| == 1)
  }

  /** The value of a string of decimal digits (0 for the empty string). */
  function DigitsValue(s: string): nat
    requires AllDigits(s)
    decreases |s|
  {
    if s == [] then 0 else 10 * DigitsValue(s[..|s| - 1]) + (s[|s| - 1] as int - '0' as int)
  }

  function DigitChar(d: nat): (c: char)
    requires d < 10
    ensures IsDigit(c) && c as int - '0' as int == d
  {
    (d + '0' as int) as char
  }

  /** The canonical decimal numeral of `n`; it starts with '0' only when `n` is 0. */
  function Decimal(n: nat): (s: string)
    ensures IsCanonicalDecimal(s)
    ensures s[0] == '0' <==> n == 0
    decreases n
  {
    if n < 10 then [DigitChar(n)] else Decimal(n / 10) + [DigitChar(n % 10)]
  }

  lemma {:induction false} DigitsValueOfDecimal(n: nat)
    ensures DigitsValue(Decimal(n)) == n
    decreases n
  {
    if n >= 10 {
      var s := Decimal(n);
      assert s[..|s| - 1] == Decimal(n / 10);
      DigitsValueOfDecimal(n / 10);
    }
  }

  /** A numeral that does not start with '0' has a value of at least its first digit. */
  lemma {:induction false} DigitsValueAtLeastLead(s: string)
    requires |s| > 0 && AllDigits(s)
    ensures DigitsValue(s) >= s[0] as int - '0' as int
    decreases |s|
  {
    if |s| > 1 {
      var init := s[..|s| - 1];
      assert init[0] == s[0];
      DigitsValueAtLeastLead(init);
    }
  }

  lemma {:induction false} DecimalOfDigitsValue(s: string)
    requires IsCanonicalDecimal(s)
    ensures Decimal(DigitsValue(s)) == s
    decreases |s|
  {
    if |s| > 1 {
      var init := s[..|s| - 1];
      assert init[0] == s[0];
      DigitsValueAtLeastLead(init);
      DecimalOfDigitsValue(init);
      assert s == init + [s[|s| - 1]];
    }
  }

  // ---------------------------------------------------------------------------
  // Splitting and joining strings
  // ---------------------------------------------------------------------------

  /** The pieces of `s` between occurrences of `sep` (empty pieces included), as `strings.Split`. */
  function Split(s: string, sep: char): (parts: seq<string>)
    ensures |parts| > 0
    ensures forall i :: 0 <= i < |parts| ==> sep !in parts[i]
    decreases |s|
  {
    if s == [] then [""]
    else
      var rest := Split(s[1..], sep);
      if s[0] == sep then [""] + rest else [[s[0]] + rest[0]] + rest[1..]
  }

  /** The pieces written one after the other with `sep` between neighbours. */
  function JoinWith(parts: seq<string>, sep: char): string
    requires |parts| > 0
    decreases |parts|
  {
    if |parts| == 1 then parts[0] else parts[0] + [sep] + JoinWith(parts[1..], sep)
  }

  /** Joining the pieces of a split gives the string back. */
  lemma {:induction false} JoinOfSplit(s: string, sep: char)
    ensures JoinWith(Split(s, sep), sep) == s
    decreases |s|
  {
    if s != [] {
      var rest := Split(s[1..], sep);
      JoinOfSplit(s[1..], sep);
      if s[0] == sep {
        assert ([""] + rest)[1..] == rest;
      } else if |rest| == 1 {
      } else {
        var parts := [[s[0]] + rest[0]] + rest[1..];
        assert parts[1..] == rest[1..];
        assert JoinWith(rest, sep) == rest[0] + [sep] + JoinWith(rest[1..], sep);
        assert s == [s[0]] + s[1..];
      }
    }
  }

  /** A piece free of `sep` at the front of a string is glued to the first piece of the rest. */
  lemma {:induction false} SplitOfFreePrefix(p: string, r: string, sep: char)
    requires sep !in p
    ensures Split(p + r, sep) == [p + Split(r, sep)[0]] + Split(r, sep)[1..]
    decreases |p|
  {
    if p == [] {
      var t := Split(r, sep);
      assert p + r == r;
      assert p + t[0] == t[0];
      assert [t[0]] + t[1..] == t;
    } else {
      assert (p + r)[1..] == p[1..] + r;
      assert sep !in p[1..];
      SplitOfFreePrefix(p[1..], r, sep);
      assert [p[0]] + (p[1..] + Split(r, sep)[0]) == p + Split(r, sep)[0];
    }
  }

  /** Splitting a join of separator-free pieces gives the pieces back. */
  lemma {:induction false} SplitOfJoin(parts: seq<string>, sep: char)
    requires |parts| > 0
    requires forall i :: 0 <= i < |parts| ==> sep !in parts[i]
    ensures Split(JoinWith(parts, sep), sep) == parts
    decreases |parts|
  {
    if |parts| == 1 {
      SplitOfFreePrefix(parts[0], [], sep);
      assert parts[0] + [] == parts[0];
    } else {
      var rest := JoinWith(parts[1..], sep);
      SplitOfJoin(parts[1..], sep);
      assert parts[0] + [sep] + rest == parts[0] + ([sep] + rest);
      SplitOfFreePrefix(parts[0], [sep] + rest, sep);
      assert ([sep] + rest)[1..] == rest;
      assert Split([sep] + rest, sep) == [""] + Split(rest, sep);
      assert parts[0] + "" == parts[0];
      assert parts == [parts[0]] + parts[1..];
    }
  }

  /** Every character of a join is the separator or a character of a piece. */
  lemma {:induction false} JoinWithChars(parts: seq<string>, sep: char, P: char -> bool)
    requires |parts| > 0
    requires P(sep)
    requires forall i, j :: 0 <= i < |parts| && 0 <= j < |parts[i]| ==> P(parts[i][j])
    ensures forall j :: 0 <= j < |JoinWith(parts, sep)| ==> P(JoinWith(parts, sep)[j])
    decreases |parts|
  {
    if |parts| > 1 {
      JoinWithChars(parts[1..], sep, P);
      var s := JoinWith(parts, sep);
      var rest := JoinWith(parts[1..], sep);
      forall j | 0 <= j < |s| ensures P(s[j]) {
        if j < |parts[0]| {
          assert s[j] == parts[0][j];
        } else if j > |parts[0]| {
          assert s[j] == rest[j - |parts[0]| - 1];
        }
      }
    }
  }

  /** The position of the first `c` in `s`, if any. */
  function IndexOf(s: string, c: char): (r: Option<nat>)
    ensures r.Some? ==> r.value < |s| && s[r.value] == c && c !in s[..r.value]
    ensures r.None? ==> c !in s
    decreases |s|
  {
    if s == [] then None
    else if s[0] == c then Some(0)
    else match IndexOf(s[1..], c)
      case None => None
      case Some(i) =>
        assert s[..i + 1] == [s[0]] + s[1..][..i];
        Some(i + 1)
  }

  /** `strings.Cut`: the text before and after the first `sep`, if there is one. */
  function Cut(s: string, sep: char): (r: Option<(string, string)>)
    ensures r.Some? ==> s == r.value.0 + [sep] + r.value.1 && sep !in r.value.0
    ensures r.None? ==> sep !in s
  {
    match IndexOf(s, sep)
    case None => None
    case Some(k) =>
      assert s == s[..k] + [sep] + s[k + 1..];
      Some((s[..k], s[k + 1..]))
  }

  /** Cutting `p + [c] + r` where `p` holds no `c` gives `p` and `r`. */
  lemma CutAfterFree(p: string, c: char, r: string)
    requires c !in p
    ensures Cut(p + [c] + r, c) == Some((p, r))
  {
    var s := p + [c] + r;
    assert s[|p|] == c;
    assert s[..|p|] == p;
    var i := IndexOf(s, c).value;
    assert i <= |p| ==> s[..i] == p[..i];
    assert s[|p| + 1..] == r;
  }

  // ---------------------------------------------------------------------------
  // Parsing and formatting addresses
  // ---------------------------------------------------------------------------

  /**
   * One field of a dotted quad, as `net.ParseIP` accepts it: a canonical
   * decimal numeral (no leading zeros) of value at most 255.
   */
  function ParseOctet(p: string): Option<Octet> {
    if IsCanonicalDecimal(p) && DigitsValue(p) < 256 then Some(DigitsValue(p)) else None
  }

  /** The octet fields that parse are exactly the canonical numerals of the values 0..255. */
  lemma ParseOctetIff(p: string, v: Octet)
    ensures ParseOctet(p) == Some(v) <==> p == Decimal(v)
  {
    if ParseOctet(p) == Some(v) {
      DecimalOfDigitsValue(p);
    }
    if p == Decimal(v) {
      DigitsValueOfDecimal(v);
    }
  }

  /** `net.ParseIP` on an IPv4 literal: four dot-separated octet fields. */
  function ParseIPv4(s: string): Option<Addr> {
    var parts := Split(s, '.');
    if |parts| != 4 then None
    else
      match (ParseOctet(parts[0]), ParseOctet(parts[1]), ParseOctet(parts[2]), ParseOctet(parts[3]))
      case (Some(a), Some(b), Some(c), Some(d)) => Some(IPv4(a, b, c, d))
      case _ => None
  }

  /** The dotted-quad text of an address, as `IP.String` writes an IPv4 address. */
  function FormatIPv4(x: Addr): string {
    JoinWith([Decimal(OctetAt(x, 0)), Decimal(OctetAt(x, 1)), Decimal(OctetAt(x, 2)), Decimal(OctetAt(x, 3))], '.')
  }

  /** The numerals of `a.b.c.d`, in order. */
  function Fields4(a: Octet, b: Octet, c: Octet, d: Octet): seq<string> {
    [Decimal(a), Decimal(b), Decimal(c), Decimal(d)]
  }

  lemma FormatOfIPv4(a: Octet, b: Octet, c: Octet, d: Octet)
    ensures FormatIPv4(IPv4(a, b, c, d)) == JoinWith(Fields4(a, b, c, d), '.')
  {
    OctetsOfIPv4(a, b, c, d);
  }

  lemma NumeralsHaveNoDot(n: nat)
    ensures '.' !in Decimal(n)
  {
  }

  /** The dotted-quad text of an address consists of digits and dots and starts with a digit. */
  lemma FormatIPv4Chars(x: Addr)
    ensures IsDigit(FormatIPv4(x)[0])
    ensures forall j :: 0 <= j < |FormatIPv4(x)| ==> IsDigit(FormatIPv4(x)[j]) || FormatIPv4(x)[j] == '.'
  {
    var parts := [Decimal(OctetAt(x, 0)), Decimal(OctetAt(x, 1)), Decimal(OctetAt(x, 2)), Decimal(OctetAt(x, 3))];
    JoinWithChars(parts, '.', c => IsDigit(c) || c == '.');
    assert FormatIPv4(x) == parts[0] + ['.'] + JoinWith(parts[1..], '.');
  }

  /** The dotted-quad text splits at its dots into the four numerals of the address. */
  lemma SplitOfFormatIPv4(x: Addr)
    ensures Split(FormatIPv4(x), '.') ==
      [Decimal(OctetAt(x, 0)), Decimal(OctetAt(x, 1)), Decimal(OctetAt(x, 2)), Decimal(OctetAt(x, 3))]
  {
    var parts := [Decimal(OctetAt(x, 0)), Decimal(OctetAt(x, 1)), Decimal(OctetAt(x, 2)), Decimal(OctetAt(x, 3))];
    forall i | 0 <= i < 4 ensures '.' !in parts[i] {
      NumeralsHaveNoDot(OctetAt(x, i));
    }
    SplitOfJoin(parts, '.');
  }

  lemma ParseOctetOfDecimal(v: Octet)
    ensures ParseOctet(Decimal(v)) == Some(v)
  {
    ParseOctetIff(Decimal(v), v);
  }

  /** Formatting then parsing gives the address back. */
  lemma ParseOfFormatIPv4(x: Addr)
    ensures ParseIPv4(FormatIPv4(x)) == Some(x)
  {
    SplitOfFormatIPv4(x);
    ParseOctetOfDecimal(OctetAt(x, 0));
    ParseOctetOfDecimal(OctetAt(x, 1));
    ParseOctetOfDecimal(OctetAt(x, 2));
    ParseOctetOfDecimal(OctetAt(x, 3));
    IPv4OfOctets(x);
  }

  /** Only the canonical text of an address parses, and it parses to that address. */
  lemma FormatOfParseIPv4(s: string, x: Addr)
    requires ParseIPv4(s) == Some(x)
    ensures s == FormatIPv4(x)
  {
    var parts := Split(s, '.');
    var a, b, c, d := ParseOctet(parts[0]).value, ParseOctet(parts[1]).value,
                      ParseOctet(parts[2]).value, ParseOctet(parts[3]).value;
    assert x == IPv4(a, b, c, d);
    ParseOctetIff(parts[0], a);
    ParseOctetIff(parts[1], b);
    ParseOctetIff(parts[2], c);
    ParseOctetIff(parts[3], d);
    JoinOfSplit(s, '.');
    assert parts == Fields4(a, b, c, d);
    FormatOfIPv4(a, b, c, d);
  }

  lemma ParseIPv4Iff(s: string, x: Addr)
    ensures ParseIPv4(s) == Some(x) <==> s == FormatIPv4(x)
  {
    if ParseIPv4(s) == Some(x) {
      FormatOfParseIPv4(s, x);
    }
    if s == FormatIPv4(x) {
      ParseOfFormatIPv4(x);
    }
  }

  /** The prefix of an IPv4-mapped IPv6 literal (section 2.5.5.2 of RFC 4291). */
  const MappedPrefix: string := "::ffff:"

  predicate HasMappedPrefix(s: string) {
    |s| >= |MappedPrefix| && s[..|MappedPrefix|] == MappedPrefix
  }

  /**
   * `net.ParseIP`, for the literals this model admits: a dotted quad, or a
   * dotted quad behind "::ffff:" (an IPv4-mapped IPv6 address, which Go
   * stores as, and matches like, the IPv4 address itself).
   */
  function ParseIP(s: string): Option<Addr> {
    if HasMappedPrefix(s) then ParseIPv4(s[|MappedPrefix|..]) else ParseIPv4(s)
  }

  /** The literals that parse are exactly the dotted quads and their ::ffff: forms. */
  lemma ParseIPIff(s: string, x: Addr)
    ensures ParseIP(s) == Some(x) <==> s == FormatIPv4(x) || s == MappedPrefix + FormatIPv4(x)
  {
    FormatIPv4Chars(x);
    var f := FormatIPv4(x);
    if HasMappedPrefix(s) {
      ParseIPv4Iff(s[|MappedPrefix|..], x);
      assert s == MappedPrefix + s[|MappedPrefix|..];
      assert s[0] == ':';
    } else {
      ParseIPv4Iff(s, x);
      assert (MappedPrefix + f)[..|MappedPrefix|] == MappedPrefix;
    }
  }

  // ---------------------------------------------------------------------------
  // Parsing and formatting subnets
  // ---------------------------------------------------------------------------

  /** The prefix length after '/': one or more decimal digits of value at most 32. */
  function ParsePrefixLen(m: string): Option<PrefixLen> {
    if |m| > 0 && AllDigits(m) && DigitsValue(m) <= 32 then Some(DigitsValue(m)) else None
  }

  /**
   * `net.ParseCIDR` for IPv4: an address, '/', a prefix length. The subnet's
   * network is the address with its host bits cleared.
   */
  function ParseCIDR(s: string): (r: Option<Subnet>)
    ensures r.Some? ==> Canonical(r.value)
  {
    match Cut(s, '/')
    case None => None
    case Some((addr, len)) =>
      match (ParseIPv4(addr), ParsePrefixLen(len))
      case (Some(a), Some(n)) => Some(Subnet(Mask(a, n), n))
      case _ => None
  }

  /** The CIDR text of a subnet, as `IPNet.String` writes it. */
  function FormatCIDR(s: Subnet): string {
    FormatIPv4(s.network) + "/" + Decimal(s.prefixLen)
  }

  /** The CIDR text of a subnet consists of digits, dots and one '/'. */
  lemma FormatCIDRChars(s: Subnet)
    ensures |FormatCIDR(s)| > 0
    ensures forall j :: 0 <= j < |FormatCIDR(s)| ==>
      IsDigit(FormatCIDR(s)[j]) || FormatCIDR(s)[j] == '.' || FormatCIDR(s)[j] == '/'
  {
    FormatIPv4Chars(s.network);
    var a := FormatIPv4(s.network);
    var d := Decimal(s.prefixLen);
    var t := FormatCIDR(s);
    assert t == a + "/" + d;
    forall j | 0 <= j < |t| ensures IsDigit(t[j]) || t[j] == '.' || t[j] == '/' {
      if j < |a| {
        assert t[j] == a[j];
      } else if j > |a| {
        assert t[j] == d[j - |a| - 1];
      }
    }
  }

  /** The CIDR text of an address and a length is cut at its one '/'. */
  lemma CutOfCIDRText(x: Addr, n: PrefixLen)
    ensures Cut(FormatIPv4(x) + "/" + Decimal(n), '/') == Some((FormatIPv4(x), Decimal(n)))
  {
    FormatIPv4Chars(x);
    assert '/' !in FormatIPv4(x);
    CutAfterFree(FormatIPv4(x), '/', Decimal(n));
  }

  lemma ParsePrefixLenOfDecimal(n: PrefixLen)
    ensures ParsePrefixLen(Decimal(n)) == Some(n)
  {
    DigitsValueOfDecimal(n);
  }

  /** `a.b.c.d/n` parses to the subnet of the first `n` bits of the address, and that subnet contains the address. */
  lemma ParseCIDROfAddress(x: Addr, n: PrefixLen)
    ensures ParseCIDR(FormatIPv4(x) + "/" + Decimal(n)) == Some(Subnet(Mask(x, n), n))
    ensures Contains(Subnet(Mask(x, n), n), x)
  {
    CutOfCIDRText(x, n);
    ParseOfFormatIPv4(x);
    ParsePrefixLenOfDecimal(n);
    ContainsIsPrefixMatch(Subnet(Mask(x, n), n), x);
  }

  /** Formatting a canonical subnet and parsing the text gives the subnet back. */
  lemma ParseOfFormatCIDR(s: Subnet)
    requires Canonical(s)
    ensures ParseCIDR(FormatCIDR(s)) == Some(s)
  {
    ParseCIDROfAddress(s.network, s.prefixLen);
  }

  /**
   * Every accepted CIDR text is an address in canonical dotted-quad form, '/',
   * and a numeral of the prefix length; the network is that address masked.
   */
  lemma ParseCIDRShape(s: string, sn: Subnet)
    requires ParseCIDR(s) == Some(sn)
    ensures exists x: Addr, m: string ::
      s == FormatIPv4(x) + "/" + m && ParsePrefixLen(m) == Some(sn.prefixLen) && sn.network == Mask(x, sn.prefixLen)
  {
    var (addr, len) := Cut(s, '/').value;
    var x := ParseIPv4(addr).value;
    FormatOfParseIPv4(addr, x);
    assert s == FormatIPv4(x) + "/" + len;
  }

  // ---------------------------------------------------------------------------
  // The literals of vpn_test.go
  // ---------------------------------------------------------------------------

  /** "---" is not an address. */
  lemma DashesAreNotAnAddress()
    ensures ParseIP("---") == None
  {
    if ParseIP("---").Some? {
      var x := ParseIP("---").value;
      ParseIPIff("---", x);
      FormatIPv4Chars(x);
    }
  }

  /** The dotted-quad text of any address parses to it. */
  lemma ParseOfPlain(x: Addr)
    ensures ParseIP(FormatIPv4(x)) == Some(x)
  {
    ParseIPIff(FormatIPv4(x), x);
  }

  /** The ::ffff: form of any address parses to it. */
  lemma ParseOfMapped(x: Addr)
    ensures ParseIP(MappedPrefix + FormatIPv4(x)) == Some(x)
  {
    ParseIPIff(MappedPrefix + FormatIPv4(x), x);
  }

  lemma NumeralsOfLoopback()
    ensures Fields4(127, 0, 0, 1) == ["127", "0", "0", "1"]
  {
    assert Decimal(127) == "127";
  }

  lemma FormatOfLoopback()
    ensures FormatIPv4(IPv4(127, 0, 0, 1)) == "127.0.0.1"
  {
    NumeralsOfLoopback();
    assert JoinWith(["127", "0", "0", "1"], '.') == "127.0.0.1";
    FormatOfIPv4(127, 0, 0, 1);
  }

  /** "127.0.0.1" is the address 127.0.0.1. */
  lemma LoopbackIsAnAddress()
    ensures ParseIP("127.0.0.1") == Some(IPv4(127, 0, 0, 1))
  {
    FormatOfLoopback();
    ParseOfPlain(IPv4(127, 0, 0, 1));
  }

  lemma NumeralsOfDocumentationAddress()
    ensures Fields4(192, 0, 2, 128) == ["192", "0", "2", "128"]
  {
    assert Decimal(192) == "192";
    assert Decimal(128) == "128";
  }

  lemma FormatOfDocumentationAddress()
    ensures FormatIPv4(IPv4(192, 0, 2, 128)) == "192.0.2.128"
  {
    NumeralsOfDocumentationAddress();
    assert JoinWith(["192", "0", "2", "128"], '.') == "192.0.2.128";
    FormatOfIPv4(192, 0, 2, 128);
  }

  lemma MappedDocumentationText()
    ensures "::ffff:192.0.2.128" == MappedPrefix + "192.0.2.128"
  {
  }

  /** "::ffff:192.0.2.128" is the IPv4-mapped form of 192.0.2.128. */
  lemma MappedIsAnAddress()
    ensures ParseIP("::ffff:192.0.2.128") == Some(IPv4(192, 0, 2, 128))
  {
    MappedDocumentationText();
    FormatOfDocumentationAddress();
    ParseOfMapped(IPv4(192, 0, 2, 128));
  }

  lemma NumeralsOfTestAddress()
    ensures Fields4(192, 168, 5, 1) == ["192", "168", "5", "1"]
  {
    assert Decimal(192) == "192";
    assert Decimal(168) == "168";
  }

  lemma FormatOfTestAddress()
    ensures FormatIPv4(IPv4(192, 168, 5, 1)) == "192.168.5.1"
  {
    NumeralsOfTestAddress();
    assert JoinWith(["192", "168", "5", "1"], '.') == "192.168.5.1";
    FormatOfIPv4(192, 168, 5, 1);
  }

  /** "192.168.5.1" is the address 192.168.5.1. */
  lemma TestAddressIsAnAddress()
    ensures ParseIP("192.168.5.1") == Some(IPv4(192, 168, 5, 1))
  {
    FormatOfTestAddress();
    ParseOfPlain(IPv4(192, 168, 5, 1));
  }
}
