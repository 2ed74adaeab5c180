/**
 * Bit strings as the CRILAYLA codec sees them: every integer field is written
 * and read most significant bit first, and bytes are filled from their most
 * significant bit down.
 */
module Bits {
  import opened Arith
  import opened Util

  type Bit = b: int | 0 <= b < 2

  /** The value of a bit string whose first bit is the most significant. */
  function Value(bits: seq<Bit>): nat
  {
    if |bits| == 0 then 0 else 2 * Value(bits[..|bits| - 1]) + bits[|bits| - 1]
  }

  /** The w low bits of v, most significant first: a field of width w holding v masked to w bits. */
  function NatToBits(v: nat, w: nat): (bits: seq<Bit>)
    ensures |bits| == w
  {
    if w == 0 then [] else NatToBits(v / 2, w - 1) + [v % 2]
  }

  /** n zero bits. */
  function Zeros(n: nat): seq<Bit>
  {
    Repeat(0, n)
  }

  /** One more zero bit at the end. */
  lemma ZerosSnoc(n: nat)
    ensures Zeros(n) + [0] == Zeros(n + 1)
  {
  }

  /** Bytes filled from a bit string, eight bits per byte, most significant bit first. */
  function Pack(bits: seq<Bit>): (bytes: seq<byte>)
    requires |bits| % 8 == 0
    ensures |bytes| == |bits| / 8
  {
    if |bits| == 0 then []
    else
      ValueBound(bits[..8]);
      Pow2Widths();
      [Value(bits[..8]) as byte] + Pack(bits[8..])
  }

  lemma {:induction false} ValueBound(bits: seq<Bit>)
    ensures Value(bits) < Pow2(|bits|)
  {
    if |bits| > 0 {
      ValueBound(bits[..|bits| - 1]);
    }
  }

  /** Concatenating bit strings shifts the first one left by the length of the second. */
  lemma {:induction false} ValueAppend(a: seq<Bit>, b: seq<Bit>)
    ensures Value(a + b) == Value(a) * Pow2(|b|) + Value(b)
  {
    if |b| == 0 {
      assert a + b == a;
    } else {
      var b' := b[..|b| - 1];
      assert (a + b)[..|a + b| - 1] == a + b';
      ValueAppend(a, b');
      var va, p, vb, last := Value(a), Pow2(|b'|), Value(b'), b[|b| - 1];
      assert b[..|b| - 1] == b';
      assert Value(a + b) == 2 * (va * p + vb) + last;
      assert Value(b) == 2 * vb + last && Pow2(|b|) == 2 * p;
      MulDouble(va, p);
    }
  }

  /** A slice of a bit string, as a division and a remainder of the whole value. */
  lemma ValueSlice(bits: seq<Bit>, a: nat, e: nat)
    requires a <= e <= |bits|
    ensures Value(bits[a..e]) == (Value(bits) / Pow2(|bits| - e)) % Pow2(e - a)
  {
    var p, m, t := bits[..a], bits[a..e], bits[e..];
    assert bits == (p + m) + t;
    assert bits[..e] == p + m;
    ValueAppend(p + m, t);
    ValueBound(t);
    DivModUnique(Value(bits), Pow2(|t|), Value(p + m), Value(t));
    ValueAppend(p, m);
    ValueBound(m);
    DivModUnique(Value(p + m), Pow2(|m|), Value(p), Value(m));
  }

  lemma {:induction false} ValueOfNatToBits(v: nat, w: nat)
    ensures Value(NatToBits(v, w)) == v % Pow2(w)
  {
    if w > 0 {
      var hi := NatToBits(v / 2, w - 1);
      assert NatToBits(v, w)[..w - 1] == hi;
      ValueOfNatToBits(v / 2, w - 1);
      HalveMod(v, Pow2(w - 1));
    }
  }

  lemma HalveMod(v: nat, m: nat)
    requires m > 0
    ensures 2 * ((v / 2) % m) + v % 2 == v % (2 * m)
  {
    var q := v / 2;
    var t, u := q / m, q % m;
    assert v == 2 * q + v % 2;
    assert q == t * m + u;
    assert v == t * (2 * m) + (2 * u + v % 2);
    DivModUnique(v, 2 * m, t, 2 * u + v % 2);
  }

  /** A field written with NatToBits reads back as its value when the value fits the width. */
  lemma FieldRoundTrip(v: nat, w: nat)
    requires v < Pow2(w)
    ensures Value(NatToBits(v, w)) == v
  {
    ValueOfNatToBits(v, w);
  }

  /** Writing a bit string's value back at its own width gives the bit string. */
  lemma {:induction false} NatToBitsOfValue(bits: seq<Bit>)
    ensures NatToBits(Value(bits), |bits|) == bits
  {
    if |bits| > 0 {
      var init := bits[..|bits| - 1];
      NatToBitsOfValue(init);
      assert bits == init + [bits[|bits| - 1]];
    }
  }

  /** Bits read back from bytes, eight per byte, most significant bit first. */
  function Unpack(bytes: seq<byte>): (bits: seq<Bit>)
    ensures |bits| == 8 * |bytes|
  {
    if |bytes| == 0 then [] else NatToBits(bytes[0], 8) + Unpack(bytes[1..])
  }

  /** Unpacking what Pack made gives back the bits. */
  lemma {:induction false} UnpackPack(bits: seq<Bit>)
    requires |bits| % 8 == 0
    ensures Unpack(Pack(bits)) == bits
  {
    if |bits| > 0 {
      var p := Pack(bits);
      assert p[1..] == Pack(bits[8..]);
      UnpackPack(bits[8..]);
      NatToBitsOfValue(bits[..8]);
      assert bits == bits[..8] + bits[8..];
    }
  }

  lemma {:induction false} UnpackAppend(a: seq<byte>, b: seq<byte>)
    ensures Unpack(a + b) == Unpack(a) + Unpack(b)
  {
    if |a| > 0 {
      assert (a + b)[1..] == a[1..] + b;
      UnpackAppend(a[1..], b);
    } else {
      assert a + b == b;
    }
  }

  lemma {:induction false} PackAppend(a: seq<Bit>, b: seq<Bit>)
    requires |a| % 8 == 0 && |b| % 8 == 0
    ensures Pack(a + b) == Pack(a) + Pack(b)
  {
    if |a| > 0 {
      assert (a + b)[..8] == a[..8];
      assert (a + b)[8..] == a[8..] + b;
      PackAppend(a[8..], b);
    } else {
      assert a + b == b;
    }
  }
}
