/** Bytes of memory, their little-endian meaning as integers, and the effect of
    a multi-byte store on a memory image. */
module Bytes {

  type byte = x: int | 0 <= x < 256

  /** 256 to the power n: the number of values an n-byte integer can hold */
  function Pow256(n: nat): (r: nat)
    ensures r >= 1
  {
    if n == 0 then 1 else 256 * Pow256(n - 1)
  }

  /** The unsigned integer encoded little-endian in s (the lowest address holds
      the least significant byte, as on x86_64) */
  function Decode(s: seq<byte>): (v: nat)
    ensures v < Pow256(|s|)
  {
    if s == [] then 0
    else
      var rest := Decode(s[1..]);
      assert rest <= Pow256(|s| - 1) - 1;
      s[0] + 256 * rest
  }

  /** The w bytes that a store of width w writes for v, least significant first */
  function Encode(v: nat, w: nat): (s: seq<byte>)
    ensures |s| == w
  {
    if w == 0 then [] else [v % 256] + Encode(v / 256, w - 1)
  }

  /** Encoding a value that fits and decoding it gives the value back */
  lemma {:induction false} DecodeEncode(v: nat, w: nat)
    requires v < Pow256(w)
    ensures Decode(Encode(v, w)) == v
  {
    if w > 0 {
      var q, r := v / 256, v % 256;
      assert v == 256 * q + r;
      assert q < Pow256(w - 1);
      DecodeEncode(q, w - 1);
      var e := Encode(v, w);
      assert e[0] == r;
      assert e[1..] == Encode(q, w - 1);
    }
  }

  /** Decoding bytes and encoding the value at the same width gives the bytes back */
  lemma {:induction false} EncodeDecode(s: seq<byte>)
    ensures Encode(Decode(s), |s|) == s
  {
    if s != [] {
      EncodeDecode(s[1..]);
      var v, b, rest := Decode(s), s[0], Decode(s[1..]);
      assert v == b + 256 * rest && b < 256;
      assert v % 256 == b;
      assert v / 256 == rest;
    }
  }

  /** Memory image m after the bytes s are stored at address a */
  function Store(m: seq<byte>, a: nat, s: seq<byte>): (r: seq<byte>)
    requires a + |s| <= |m|
    ensures |r| == |m|
    ensures r[a..a + |s|] == s
    ensures forall i :: 0 <= i < |m| && !(a <= i < a + |s|) ==> r[i] == m[i]
  {
    m[..a] + s + m[a + |s|..]
  }

  /** A second store to the same span overrides the first completely */
  lemma StoreStore(m: seq<byte>, a: nat, s: seq<byte>, t: seq<byte>)
    requires a + |s| <= |m| && |t| == |s|
    ensures Store(Store(m, a, s), a, t) == Store(m, a, t)
  {
    var l, r := Store(Store(m, a, s), a, t), Store(m, a, t);
    assert |l| == |r|;
    forall i | 0 <= i < |l|
      ensures l[i] == r[i]
    {
      if a <= i < a + |t| {
        assert l[i] == l[a..a + |t|][i - a] && r[i] == r[a..a + |t|][i - a];
      }
    }
  }

  /** Storing the bytes already present leaves memory as it was */
  lemma StoreSame(m: seq<byte>, a: nat, w: nat)
    requires a + w <= |m|
    ensures Store(m, a, m[a..a + w]) == m
  {
    var r := Store(m, a, m[a..a + w]);
    forall i | 0 <= i < |m|
      ensures r[i] == m[i]
    {
      if a <= i < a + w {
        assert r[i] == r[a..a + w][i - a];
      }
    }
  }
}
