/**
 * Byte strings and the tokenizer the merge step uses: Go's `bytes.Fields`,
 * restricted to the ASCII white-space set.
 */
module Bytes {

  type byte = x: int | 0 <= x < 256

  /** The ASCII white space `bytes.Fields` splits on: '\t', '\n', '\v', '\f', '\r' and ' '. */
  predicate IsSpace(b: byte) {
    b == 9 || b == 10 || b == 11 || b == 12 || b == 13 || b == 32
  }

  /** A field: a non-empty run of bytes none of which is white space. */
  predicate IsToken(t: seq<byte>) {
    |t| > 0 && forall i :: 0 <= i < |t| ==> !IsSpace(t[i])
  }

  /** The length of the longest white-space-free prefix of `s`. */
  function TokenLength(s: seq<byte>): (n: nat)
    ensures n <= |s|
    ensures forall i :: 0 <= i < n ==> !IsSpace(s[i])
    ensures n < |s| ==> IsSpace(s[n])
  {
    if s == [] || IsSpace(s[0]) then 0 else 1 + TokenLength(s[1..])
  }

  /**
   * `bytes.Fields`: the maximal white-space-free runs of `s`, in order.
   * Every field is non-empty and holds no white space.
   */
  function Fields(s: seq<byte>): (r: seq<seq<byte>>)
    ensures forall i :: 0 <= i < |r| ==> IsToken(r[i])
    decreases |s|
  {
    if s == [] then []
    else if IsSpace(s[0]) then Fields(s[1..])
    else
      var n := TokenLength(s);
      [s[..n]] + Fields(s[n..])
  }

  /** The tokens `ts` written one after the other with `sep` between neighbours. */
  function Join(ts: seq<seq<byte>>, sep: byte): seq<byte>
    decreases |ts|
  {
    if ts == [] then []
    else if |ts| == 1 then ts[0]
    else ts[0] + [sep] + Join(ts[1..], sep)
  }

  /** The bytes of `s` that are not white space, in order. */
  function NonSpace(s: seq<byte>): seq<byte>
    decreases |s|
  {
    if s == [] then []
    else (if IsSpace(s[0]) then [] else [s[0]]) + NonSpace(s[1..])
  }

  /** A field followed by white space (or by nothing) is split off whole. */
  lemma FieldsOfTokenThen(t: seq<byte>, rest: seq<byte>)
    requires IsToken(t)
    requires rest == [] || IsSpace(rest[0])
    ensures Fields(t + rest) == [t] + Fields(rest)
  {
    var s := t + rest;
    var n := TokenLength(s);
    assert forall i :: 0 <= i < |t| ==> s[i] == t[i];
    assert |t| < |s| ==> s[|t|] == rest[0];
    assert n == |t|;
    assert s[..n] == t;
    assert s[n..] == rest;
  }

  /** Fields undoes Join: a list of fields joined by white space splits back into that list. */
  lemma {:induction false} FieldsOfJoin(ts: seq<seq<byte>>, sep: byte)
    requires IsSpace(sep)
    requires forall i :: 0 <= i < |ts| ==> IsToken(ts[i])
    ensures Fields(Join(ts, sep)) == ts
    decreases |ts|
  {
    if ts == [] {
    } else if |ts| == 1 {
      FieldsOfTokenThen(ts[0], []);
      assert ts[0] + [] == ts[0];
    } else {
      var rest := Join(ts[1..], sep);
      assert ts[0] + [sep] + rest == ts[0] + ([sep] + rest);
      FieldsOfTokenThen(ts[0], [sep] + rest);
      assert ([sep] + rest)[1..] == rest;
      FieldsOfJoin(ts[1..], sep);
      assert ts == [ts[0]] + ts[1..];
    }
  }

  lemma {:induction false} NonSpaceAppend(a: seq<byte>, b: seq<byte>)
    ensures NonSpace(a + b) == NonSpace(a) + NonSpace(b)
    decreases |a|
  {
    if a == [] {
      assert a + b == b;
    } else {
      assert (a + b)[1..] == a[1..] + b;
      NonSpaceAppend(a[1..], b);
    }
  }

  lemma {:induction false} NonSpaceOfToken(t: seq<byte>)
    requires forall i :: 0 <= i < |t| ==> !IsSpace(t[i])
    ensures NonSpace(t) == t
    decreases |t|
  {
    if t != [] {
      NonSpaceOfToken(t[1..]);
      assert t == [t[0]] + t[1..];
    }
  }

  /** The byte strings of `ts`, concatenated in order. */
  function Flat(ts: seq<seq<byte>>): seq<byte>
    decreases |ts|
  {
    if ts == [] then [] else ts[0] + Flat(ts[1..])
  }

  /**
   * Fields loses and invents nothing: its fields, concatenated, are exactly
   * the non-white-space bytes of the input, in order.
   */
  lemma {:induction false} FieldsKeepsContent(s: seq<byte>)
    ensures Flat(Fields(s)) == NonSpace(s)
    decreases |s|
  {
    if s == [] {
    } else if IsSpace(s[0]) {
      FieldsKeepsContent(s[1..]);
    } else {
      var n := TokenLength(s);
      var r := Fields(s);
      assert r == [s[..n]] + Fields(s[n..]);
      assert r[1..] == Fields(s[n..]);
      FieldsKeepsContent(s[n..]);
      NonSpaceOfToken(s[..n]);
      assert s == s[..n] + s[n..];
      NonSpaceAppend(s[..n], s[n..]);
    }
  }
}
