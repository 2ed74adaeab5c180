/**
 * The CRILAYLA encoder: a bit writer that fills a growing byte buffer most
 * significant bit first, the writer of the variable-length length code, the
 * greedy longest-match search over a window of 0x2000 distances, and compress,
 * which lays out the container.
 */
module CpkCompress {
  import opened Arith
  import opened Util
  import opened Bits
  import opened CrilaylaFormat

  /** The range of the C# uint that holds the bit accumulator. */
  const UINT_RANGE: nat := 0x1_0000_0000

  /** Zero bits that bring a bit count up to a byte boundary. */
  function PadBits(count: nat): (p: nat)
    ensures p < 8 && (count + p) % 8 == 0
  {
    (8 - count % 8) % 8
  }

  /** Zero bytes that bring a byte count up to a multiple of four. */
  function PadBytes(count: nat): (p: nat)
    ensures p < 4 && (count + p) % 4 == 0
  {
    (4 - count % 4) % 4
  }

  /** With count whole bytes and pending bits after them, the padding completes the last byte. */
  lemma PadBitsOfPending(count: nat, pending: nat)
    requires pending < 8
    ensures PadBits(8 * count + pending) == if pending == 0 then 0 else 8 - pending
  {
    assert (8 * count + pending) % 8 == pending;
  }

  /** One more pending bit either stays below a byte or completes it. */
  lemma NextPending(pending: nat, completed: int, after: nat)
    requires pending < 8 && after < 8 && pending + 1 == 8 * completed + after
    ensures after == if pending == 7 then 0 else pending + 1
  {
  }

  /** Padding stops at the first boundary: n padding units reach it exactly when n is the full padding. */
  lemma PadFirst(count: nat, n: nat, unit: nat)
    requires unit == 4 || unit == 8
    requires n <= (if unit == 8 then PadBits(count) else PadBytes(count))
    ensures (count + n) % unit == 0 <==> n == (if unit == 8 then PadBits(count) else PadBytes(count))
  {
  }

  /**
   * The buffer Finalize hands back for the bits pushed so far: the bits padded
   * with zeros to a byte boundary and packed, then zero bytes up to a multiple
   * of four.
   */
  function Finalized(bits: seq<Bit>): seq<byte>
  {
    var packed := Pack(bits + Zeros(PadBits(|bits|)));
    packed + ZeroBytes(PadBytes(|packed|))
  }

  /** Shifting width bits of v into an accumulator whose low count bits are pending keeps them pending. */
  lemma ShiftIn(acc: nat, count: nat, pending: seq<Bit>, v: nat, width: nat)
    requires count + width <= 32 && |pending| == count && acc % Pow2(count) == Value(pending)
    ensures ((acc * Pow2(width) + v % Pow2(width)) % UINT_RANGE) % Pow2(count + width)
      == Value(pending + NatToBits(v, width))
  {
    var x := acc * Pow2(width) + v % Pow2(width);
    assert UINT_RANGE == Pow2(count + width) * Pow2(32 - count - width) by {
      Pow2Add(count + width, 32 - count - width);
      Pow2Widths();
    }
    ModMod(x, Pow2(count + width), Pow2(32 - count - width));
    ShiftAddMod(acc, v % Pow2(width), width, count);
    ValueAppend(pending, NatToBits(v, width));
    ValueOfNatToBits(v, width);
  }

  /** The top byte of a pending run of count + 8 bits is (acc >> count) & 0xff. */
  lemma TopByteHigh(acc: nat, count: nat, pending: seq<Bit>)
    requires |pending| == count + 8 && acc % Pow2(count + 8) == Value(pending)
    ensures (acc / Pow2(count)) % 0x100 == Value(pending[..8])
  {
    var p: int, v: int := Pow2(count), Value(pending);
    assert Pow2(count + 8) == 0x100 * p by {
      Pow2Add(8, count);
      Pow2Widths();
    }
    assert Value(pending[..8]) == v / p by {
      var hi, lo := pending[..8], pending[8..];
      assert pending == hi + lo;
      ValueAppend(hi, lo);
      ValueBound(lo);
      DivModUnique(v, p, Value(hi), Value(lo));
    }
    assert (acc / p) % 0x100 == v / p by {
      ModOfDiv(acc, p, 0x100);
    }
  }

  /** Below the top byte, the low count bits of the accumulator still hold the rest of the run. */
  lemma TopByteLow(acc: nat, count: nat, pending: seq<Bit>)
    requires |pending| == count + 8 && acc % Pow2(count + 8) == Value(pending)
    ensures acc % Pow2(count) == Value(pending[8..])
  {
    var p, v := Pow2(count), Value(pending);
    assert Pow2(count + 8) == p * 0x100 by {
      Pow2Add(count, 8);
      Pow2Widths();
    }
    assert Value(pending[8..]) == v % p by {
      ValueSlice(pending, 8, count + 8);
      assert pending[8..count + 8] == pending[8..];
      assert v / Pow2(0) == v;
    }
    ModMod(acc, p, 0x100);
  }

  /** One round of FlushFullBytes: the byte it writes completes the packed prefix, and the rest stays pending. */
  lemma FlushStep(bits: seq<Bit>, m: nat, acc: nat, count: nat)
    requires |bits| == 8 * m + count + 8 && acc % Pow2(count + 8) == Value(bits[8 * m..])
    ensures (acc / Pow2(count)) % 0x100 == Value(bits[8 * m..8 * m + 8])
    ensures Pack(bits[..8 * (m + 1)]) == Pack(bits[..8 * m]) + [(acc / Pow2(count)) % 0x100]
    ensures acc % Pow2(count) == Value(bits[8 * (m + 1)..])
  {
    var pending := bits[8 * m..];
    TopByteHigh(acc, count, pending);
    TopByteLow(acc, count, pending);
    assert pending[..8] == bits[8 * m..8 * m + 8];
    assert pending[8..] == bits[8 * (m + 1)..];
    PackSnoc(bits[..8 * m], pending[..8]);
    assert bits[..8 * (m + 1)] == bits[..8 * m] + pending[..8];
  }

  /** Packing one more whole byte of bits appends its value. */
  lemma PackSnoc(bits: seq<Bit>, b8: seq<Bit>)
    requires |bits| % 8 == 0 && |b8| == 8
    ensures Value(b8) < 0x100 && Pack(bits + b8) == Pack(bits) + [Value(b8)]
  {
    ValueBound(b8);
    Pow2Widths();
    PackAppend(bits, b8);
    assert b8[..8] == b8 && b8[8..] == [];
  }

  /**
   * CrilaylaBitstream: bits are shifted into a 32-bit accumulator and each
   * completed byte goes to the byte buffer right away.
   */
  class CrilaylaBitstream {
    var bytestream: seq<byte>
    var bitAccumulator: nat
    var accumulatorLength: nat
    /** Every bit pushed so far, in order. */
    ghost var bits: seq<Bit>

    /**
     * The buffer holds the completed bytes of bits; the low accumulatorLength
     * bits of the accumulator hold the rest (its higher bits are stale).
     */
    ghost predicate Holds()
      reads this
    {
      && bitAccumulator < UINT_RANGE
      && accumulatorLength <= 20
      && |bits| == 8 * |bytestream| + accumulatorLength
      && bytestream == Pack(bits[..8 * |bytestream|])
      && bitAccumulator % Pow2(accumulatorLength) == Value(bits[8 * |bytestream|..])
    }

    /** Between calls, fewer than eight bits are pending. */
    ghost predicate Valid()
      reads this
    {
      Holds() && accumulatorLength < 8
    }

    constructor ()
      ensures Valid() && bits == [] && bytestream == [] && bitAccumulator == 0 && accumulatorLength == 0
    {
      bytestream := [];
      bitAccumulator := 0;
      accumulatorLength := 0;
      bits := [];
    }

    /**
     * FlushFullBytes: while eight or more bits are pending, move the top eight
     * to the buffer, ((BitAccumulator >> l) & 0xff).
     */
    method FlushFullBytes()
      requires Holds()
      modifies this
      ensures Valid() && bits == old(bits) && bitAccumulator == old(bitAccumulator)
      ensures old(accumulatorLength) == 8 * (|bytestream| - |old(bytestream)|) + accumulatorLength
    {
      var l := accumulatorLength;
      ghost var flushed := 0;
      while l >= 8
        invariant l <= 20 && |bits| == 8 * |bytestream| + l
        invariant |bytestream| == |old(bytestream)| + flushed && old(accumulatorLength) == 8 * flushed + l
        invariant bytestream == Pack(bits[..8 * |bytestream|])
        invariant bitAccumulator % Pow2(l) == Value(bits[8 * |bytestream|..])
        invariant bits == old(bits) && bitAccumulator == old(bitAccumulator)
      {
        l := l - 8;
        FlushStep(bits, |bytestream|, bitAccumulator, l);
        bytestream := bytestream + [(bitAccumulator / Pow2(l)) % 0x100];
        flushed := flushed + 1;
      }
      accumulatorLength := l;
    }

    /**
     * The first half of every PushBits method: shift in the low width bits of
     * v (unit is 1 << width) and count them as pending.
     */
    method ShiftBits(v: nat, width: nat, unit: nat)
      requires Valid() && 1 <= width <= 13 && unit == Pow2(width)
      modifies this
      ensures Holds() && bits == old(bits) + NatToBits(v, width) && bytestream == old(bytestream)
      ensures bitAccumulator == (old(bitAccumulator) * unit + v % unit) % UINT_RANGE
      ensures accumulatorLength == old(accumulatorLength) + width
    {
      ghost var done := bits[..8 * |bytestream|];
      ghost var pending := bits[8 * |bytestream|..];
      ShiftIn(bitAccumulator, accumulatorLength, pending, v, width);
      bitAccumulator := (bitAccumulator * unit + v % unit) % UINT_RANGE;
      accumulatorLength := accumulatorLength + width;
      bits := bits + NatToBits(v, width);
      assert bits[..8 * |bytestream|] == done;
      assert bits[8 * |bytestream|..] == pending + NatToBits(v, width);
    }

    /** The shared body of the PushBits methods: shift the bits in, then flush. */
    method Push(v: nat, width: nat, unit: nat)
      requires Valid() && 1 <= width <= 13 && unit == Pow2(width)
      modifies this
      ensures Valid() && bits == old(bits) + NatToBits(v, width)
      ensures bitAccumulator == (old(bitAccumulator) * unit + v % unit) % UINT_RANGE
      ensures old(accumulatorLength) + width == 8 * (|bytestream| - |old(bytestream)|) + accumulatorLength
    {
      ShiftBits(v, width, unit);
      FlushFullBytes();
    }

    /** PushBit: (BitAccumulator << 1) | (bit & 0x1). */
    method PushBit(bit: nat)
      requires Valid()
      modifies this
      ensures Valid() && bits == old(bits) + NatToBits(bit, 1)
      ensures bitAccumulator == (old(bitAccumulator) * 2 + bit % 2) % UINT_RANGE
      ensures old(accumulatorLength) + 1 == 8 * (|bytestream| - |old(bytestream)|) + accumulatorLength
    {
      assert Pow2(1) == 2;
      Push(bit, 1, 2);
    }

    /** PushBits2: (BitAccumulator << 2) | (bits & 0x3). */
    method PushBits2(v: nat)
      requires Valid()
      modifies this
      ensures Valid() && bits == old(bits) + NatToBits(v, 2)
      ensures bitAccumulator == (old(bitAccumulator) * 4 + v % 4) % UINT_RANGE
      ensures old(accumulatorLength) + 2 == 8 * (|bytestream| - |old(bytestream)|) + accumulatorLength
    {
      assert Pow2(2) == 4;
      Push(v, 2, 4);
    }

    /** PushBits3: (BitAccumulator << 3) | (bits & 0x7). */
    method PushBits3(v: nat)
      requires Valid()
      modifies this
      ensures Valid() && bits == old(bits) + NatToBits(v, 3)
      ensures bitAccumulator == (old(bitAccumulator) * 8 + v % 8) % UINT_RANGE
      ensures old(accumulatorLength) + 3 == 8 * (|bytestream| - |old(bytestream)|) + accumulatorLength
    {
      assert Pow2(3) == 8;
      Push(v, 3, 8);
    }

    /** PushBits5: (BitAccumulator << 5) | (bits & 0x1f). */
    method PushBits5(v: nat)
      requires Valid()
      modifies this
      ensures Valid() && bits == old(bits) + NatToBits(v, 5)
      ensures bitAccumulator == (old(bitAccumulator) * 0x20 + v % 0x20) % UINT_RANGE
      ensures old(accumulatorLength) + 5 == 8 * (|bytestream| - |old(bytestream)|) + accumulatorLength
    {
      assert Pow2(5) == 0x20;
      Push(v, 5, 0x20);
    }

    /** PushBits8: (BitAccumulator << 8) | (bits & 0xff). */
    method PushBits8(v: nat)
      requires Valid()
      modifies this
      ensures Valid() && bits == old(bits) + NatToBits(v, 8)
      ensures bitAccumulator == (old(bitAccumulator) * 0x100 + v % 0x100) % UINT_RANGE
      ensures accumulatorLength == old(accumulatorLength)
      ensures |bytestream| == |old(bytestream)| + 1
    {
      Pow2Widths();
      Push(v, 8, 0x100);
    }

    /** PushBits13: (BitAccumulator << 13) | (bits & 0x1fff). */
    method PushBits13(v: nat)
      requires Valid()
      modifies this
      ensures Valid() && bits == old(bits) + NatToBits(v, 13)
      ensures bitAccumulator == (old(bitAccumulator) * 0x2000 + v % 0x2000) % UINT_RANGE
      ensures old(accumulatorLength) + 13 == 8 * (|bytestream| - |old(bytestream)|) + accumulatorLength
    {
      Pow2Of13();
      Push(v, 13, 0x2000);
    }

    /** The first loop of Finalize: push zero bits until no bit is pending. */
    method PadToByte()
      requires Valid()
      modifies this
      ensures Valid() && accumulatorLength == 0
      ensures bits == old(bits) + Zeros(PadBits(|old(bits)|))
    {
      ghost var start := bits;
      ghost var pending := accumulatorLength;
      ghost var pad := if pending == 0 then 0 else 8 - pending;
      PadBitsOfPending(|bytestream|, pending);
      while accumulatorLength > 0
        invariant Valid() && |bits| >= |start|
        invariant |bits| - |start| == if accumulatorLength == 0 then pad else accumulatorLength - pending
        invariant bits == start + Zeros(|bits| - |start|)
        decreases if accumulatorLength == 0 then 0 else 8 - accumulatorLength
      {
        ghost var before, a, n := bits, accumulatorLength, |bytestream|;
        PushBit(0);
        NextPending(a, |bytestream| - n, accumulatorLength);
        assert NatToBits(0, 1) == [0];
        ZerosSnoc(|before| - |start|);
        AppendAssoc(start, Zeros(|before| - |start|), [0]);
      }
    }

    /** The second loop of Finalize: append zero bytes until the length is a multiple of four. */
    method PadToWord()
      modifies this
      ensures bytestream == old(bytestream) + ZeroBytes(PadBytes(|old(bytestream)|))
      ensures bits == old(bits) && bitAccumulator == old(bitAccumulator) && accumulatorLength == old(accumulatorLength)
    {
      ghost var packed := bytestream;
      while |bytestream| % 4 != 0
        invariant |bytestream| >= |packed| && |bytestream| - |packed| <= PadBytes(|packed|)
        invariant bytestream == packed + ZeroBytes(|bytestream| - |packed|)
        invariant bits == old(bits) && bitAccumulator == old(bitAccumulator) && accumulatorLength == old(accumulatorLength)
        decreases PadBytes(|packed|) - (|bytestream| - |packed|)
      {
        PadFirst(|packed|, |bytestream| - |packed|, 4);
        ghost var before := bytestream;
        bytestream := bytestream + [0];
        assert ZeroBytes(|before| - |packed|) + [0] == ZeroBytes(|bytestream| - |packed|);
        AppendAssoc(packed, ZeroBytes(|before| - |packed|), [0]);
      }
      PadFirst(|packed|, |bytestream| - |packed|, 4);
    }

    /**
     * Finalize: push zero bits until no bit is pending, then append zero bytes
     * until the buffer length is a multiple of four, and hand back the buffer.
     */
    method Finalize() returns (ms: seq<byte>)
      requires Valid()
      modifies this
      ensures ms == bytestream == Finalized(old(bits))
      ensures bits == old(bits) + Zeros(PadBits(|old(bits)|)) && accumulatorLength == 0
    {
      PadToByte();
      assert bits[..8 * |bytestream|] == bits;
      PadToWord();
      return bytestream;
    }
  }

  /**
   * WriteBackrefLength: len - 3 as fields of widths 2, 3 and 5, then 8 for as
   * long as needed, each field but the last all ones.
   */
  method WriteBackrefLength(output: CrilaylaBitstream, len0: nat)
    requires output.Valid() && len0 >= 3
    modifies output
    ensures output.Valid() && output.bits == old(output.bits) + LengthBits(len0)
  {
    ghost var goal := old(output.bits) + LengthBits(len0);
    var len := len0 - 3;
    LengthFieldsStep(len, 0);
    if len < 3 {
      output.PushBits2(len);
      return;
    }
    ghost var rest := FieldBits(LengthFields(len - 3, 1));
    ghost var before := output.bits;
    output.PushBits2(3);
    AppendAssoc(before, NatToBits(3, 2), rest);
    len := len - 3;
    LengthFieldsStep(len, 1);
    if len < 7 {
      output.PushBits3(len);
      return;
    }
    rest := FieldBits(LengthFields(len - 7, 2));
    before := output.bits;
    output.PushBits3(7);
    AppendAssoc(before, NatToBits(7, 3), rest);
    len := len - 7;
    LengthFieldsStep(len, 2);
    if len < 31 {
      output.PushBits5(len);
      return;
    }
    rest := FieldBits(LengthFields(len - 31, 3));
    before := output.bits;
    output.PushBits5(31);
    AppendAssoc(before, NatToBits(31, 5), rest);
    WriteLengthTail(output, len - 31);
  }

  /** The loop that ends WriteBackrefLength: 8-bit fields, 255 while at least 255 remains, then the remainder. */
  method WriteLengthTail(output: CrilaylaBitstream, len0: nat)
    requires output.Valid()
    modifies output
    ensures output.Valid() && output.bits == old(output.bits) + FieldBits(LengthFields(len0, 3))
  {
    var len := len0;
    ghost var level: nat := 3;
    while true
      invariant output.Valid() && level >= 3
      invariant output.bits + FieldBits(LengthFields(len, level)) == old(output.bits) + FieldBits(LengthFields(len0, 3))
      decreases len
    {
      LengthFieldsStep(len, level);
      assert FieldMax(level) == 255 && LengthFieldWidth(level) == 8;
      if len < 255 {
        output.PushBits8(len);
        return;
      }
      ghost var before := output.bits;
      ghost var rest := FieldBits(LengthFields(len - 255, level + 1));
      output.PushBits8(255);
      AppendAssoc(before, NatToBits(255, 8), rest);
      len := len - 255;
      level := level + 1;
    }
  }

  // ---------------------------------------------------------------------------
  // The longest-match search

  /**
   * How many bytes match walking down from data[d] and data[b] together; the
   * walk never compares data[0], so the count is at most d.
   */
  function MatchLen(data: seq<byte>, d: nat, b: nat): (m: nat)
    requires d < b < |data|
    ensures m <= d
  {
    if d > 0 && data[d] == data[b] then 1 + MatchLen(data, d - 1, b - 1) else 0
  }

  /**
   * The scan of FindLongestBackreference from candidate i on, with the best
   * (where, length) so far: it stops at the window end or at the first
   * candidate that starts past the data, and keeps the first strictly longer match.
   */
  function BestFrom(data: seq<byte>, pos: nat, i: nat, where: nat, length: nat): (r: (nat, nat))
    requires where < WINDOW && length <= pos
    ensures r.0 < WINDOW && r.1 <= pos
    decreases WINDOW - i
  {
    if i >= WINDOW || pos + i + 3 >= |data| then (where, length)
    else
      var m := MatchLen(data, pos, pos + i + 3);
      if m > length then BestFrom(data, pos, i + 1, i, m) else BestFrom(data, pos, i + 1, where, length)
  }

  /** The result of FindLongestBackreference at pos: (where, length). */
  function Longest(data: seq<byte>, pos: nat): (r: (nat, nat))
    ensures r.0 < WINDOW && r.1 <= pos
  {
    BestFrom(data, pos, 0, 0, 0)
  }

  /** What a match length means: the m bytes up to d equal the m bytes up to b, and the walk stopped for a reason. */
  lemma {:induction false} MatchLenMeaning(data: seq<byte>, d: nat, b: nat, m: nat)
    requires d < b < |data| && m == MatchLen(data, d, b)
    ensures data[d + 1 - m..d + 1] == data[b + 1 - m..b + 1]
    ensures m == d || data[d - m] != data[b - m]
    decreases d
  {
    if d > 0 && data[d] == data[b] {
      MatchLenMeaning(data, d - 1, b - 1, m - 1);
      assert data[d + 1 - m..d + 1] == data[d + 1 - m..d] + [data[d]];
      assert data[b + 1 - m..b + 1] == data[b + 1 - m..b] + [data[b]];
    }
  }

  /** The invariant of the scan: its result beats every candidate before it and at least ties the best so far. */
  lemma {:induction false} BestFromMeaning(data: seq<byte>, pos: nat, i: nat, where: nat, length: nat)
    requires where < WINDOW && length <= pos && where <= i
    requires length > 0 ==> where < i && pos + where + 3 < |data| && MatchLen(data, pos, pos + where + 3) == length
    ensures var r := BestFrom(data, pos, i, where, length);
      && r.1 >= length
      && (r.1 == length ==> r.0 == where)
      && (r.1 > 0 ==> pos + r.0 + 3 < |data| && MatchLen(data, pos, pos + r.0 + 3) == r.1)
      && (r.1 > length ==> r.0 >= i)
      && (forall b :: pos + i + 3 <= b < pos + WINDOW + 3 && b < |data| ==> MatchLen(data, pos, b) <= r.1)
      && (forall b :: pos + i + 3 <= b < pos + r.0 + 3 && b < |data| ==> MatchLen(data, pos, b) < r.1)
    decreases WINDOW - i
  {
    if i < WINDOW && pos + i + 3 < |data| {
      var m := MatchLen(data, pos, pos + i + 3);
      if m > length {
        BestFromMeaning(data, pos, i + 1, i, m);
        var r := BestFrom(data, pos, i + 1, i, m);
        assert r.0 != i ==> r.1 > m;
      } else {
        BestFromMeaning(data, pos, i + 1, where, length);
        var r := BestFrom(data, pos, i + 1, where, length);
        assert r.0 > i ==> r.1 > length;
      }
    }
  }

  /**
   * What FindLongestBackreference finds is a match: where < 0x2000 and
   * length <= pos, and the length bytes ending at pos equal those ending at
   * pos + where + 3.
   */
  lemma LongestMatches(data: seq<byte>, pos: nat)
    ensures var r := Longest(data, pos);
      && r.0 < WINDOW && r.1 <= pos
      && (r.1 > 0 ==> pos + r.0 + 3 < |data| && data[pos + 1 - r.1..pos + 1] == data[pos + r.0 + 4 - r.1..pos + r.0 + 4])
  {
    var r := Longest(data, pos);
    if r.1 > 0 {
      LongestEndsMatch(data, pos);
      MatchLenMeaning(data, pos, pos + r.0 + 3, r.1);
    }
  }

  /** A nonzero result of the scan is the match length of its candidate. */
  lemma LongestEndsMatch(data: seq<byte>, pos: nat)
    ensures var r := Longest(data, pos);
      r.1 > 0 ==> pos + r.0 + 3 < |data| && MatchLen(data, pos, pos + r.0 + 3) == r.1
  {
    BestFromMeaning(data, pos, 0, 0, 0);
  }

  /**
   * And it is the longest, the first of the longest: no candidate in the
   * window matches longer, and every candidate before where matches strictly
   * shorter.
   */
  lemma LongestIsFirstLongest(data: seq<byte>, pos: nat)
    ensures var r := Longest(data, pos);
      && (forall b :: pos + 3 <= b < pos + WINDOW + 3 && b < |data| ==> MatchLen(data, pos, b) <= r.1)
      && (forall b :: pos + 3 <= b < pos + r.0 + 3 && b < |data| ==> MatchLen(data, pos, b) < r.1)
  {
    BestFromMeaning(data, pos, 0, 0, 0);
  }

  /** The inner walk of FindLongestBackreference: down from d and b while the bytes agree. */
  method WalkMatch(data: seq<byte>, d: nat, b: nat) returns (m: nat)
    requires d < b < |data|
    ensures m == MatchLen(data, d, b)
  {
    var dataOffset := d;
    var backrefOffset := b;
    while dataOffset > 0 && data[dataOffset] == data[backrefOffset]
      invariant 0 <= dataOffset <= d && backrefOffset == dataOffset + (b - d) && backrefOffset < |data|
      invariant d - dataOffset + MatchLen(data, dataOffset, backrefOffset) == MatchLen(data, d, b)
    {
      dataOffset := dataOffset - 1;
      backrefOffset := backrefOffset - 1;
    }
    m := d - dataOffset;
  }

  /** FindLongestBackreference: the candidates i < 0x2000 in order, each walked down while the bytes agree. */
  method FindLongestBackreference(data: seq<byte>, pos: nat) returns (where: nat, length: nat)
    ensures (where, length) == Longest(data, pos)
  {
    where, length := 0, 0;
    var i: nat := 0;
    while i < WINDOW
      invariant i <= WINDOW && where < WINDOW && length <= pos
      invariant BestFrom(data, pos, i, where, length) == Longest(data, pos)
    {
      var backrefStart := pos + i + 3;
      if backrefStart >= |data| {
        return;
      }
      var backrefLength := WalkMatch(data, pos, backrefStart);
      assert BestFrom(data, pos, i, where, length) == if backrefLength > length
        then BestFrom(data, pos, i + 1, i, backrefLength)
        else BestFrom(data, pos, i + 1, where, length);
      if backrefLength > length {
        length := backrefLength;
        where := i;  // (ushort)i keeps i, which is below 0x2000
      }
      i := i + 1;
    }
  }

  // ---------------------------------------------------------------------------
  // compress

  /**
   * The operations compress emits for the body from position p down to 0: a
   * backreference where the longest match has length 3 or more, otherwise a
   * verbatim byte.
   */
  function Tokens(input: seq<byte>, p: int): (ts: seq<Token>)
    requires p < |input|
    ensures forall i :: 0 <= i < |ts| ==> WellFormed(ts[i])
    decreases p + 1
  {
    if p < 0 then []
    else
      var m := Longest(input, p);
      if m.1 >= 3 then [Backref(m.0, m.1)] + Tokens(input, p - m.1)
      else [Literal(input[p])] + Tokens(input, p - 1)
  }

  /** The bits of the operations of compress from position p down, one operation at a time. */
  lemma TokensStep(input: seq<byte>, p: nat)
    requires p < |input|
    ensures var m := Longest(input, p);
      TokensBits(Tokens(input, p)) ==
        if m.1 >= 3 then TokenBits(Backref(m.0, m.1)) + TokensBits(Tokens(input, p - m.1))
        else TokenBits(Literal(input[p])) + TokensBits(Tokens(input, p - 1))
  {
    var ts := Tokens(input, p);
    var m := Longest(input, p);
    if m.1 >= 3 {
      assert ts[1..] == Tokens(input, p - m.1);
    } else {
      assert ts[1..] == Tokens(input, p - 1);
    }
  }

  /** CRILAYLA_sig written a byte at a time, from (sig >> 56) & 0xff down to sig & 0xff. */
  function BeBytes8(v: nat): (r: seq<byte>)
    ensures |r| == 8
  {
    [ (v / 0x100_0000_0000_0000) % 0x100, (v / 0x1_0000_0000_0000) % 0x100,
      (v / 0x100_0000_0000) % 0x100, (v / 0x1_0000_0000) % 0x100,
      (v / 0x100_0000) % 0x100, (v / 0x1_0000) % 0x100,
      (v / 0x100) % 0x100, v % 0x100 ]
  }

  /** A size written a byte at a time, from v & 0xff up to (v >> 24) & 0xff: only its low 32 bits survive. */
  function LeBytes4(v: nat): (r: seq<byte>)
    ensures |r| == 4
  {
    [v % 0x100, (v / 0x100) % 0x100, (v / 0x1_0000) % 0x100, (v / 0x100_0000) % 0x100]
  }

  /**
   * The output of compress: the magic, the body size and the compressed size
   * (little-endian), the finalized bit buffer last byte first, then the 0x100
   * bytes of the head of the input as they are.
   */
  function Container(head: seq<byte>, input: seq<byte>, ms: seq<byte>): seq<byte>
  {
    Header(|input|, |ms|) + Reversed(ms) + head
  }

  /** The 0x10 bytes before the body: the magic, then the two sizes. */
  function Header(uncompressedSize: nat, compressedSize: nat): (r: seq<byte>)
    ensures |r| == 0x10
  {
    BeBytes8(CRILAYLA_SIG) + LeBytes4(uncompressedSize) + LeBytes4(compressedSize)
  }

  /** The finalized bit buffer compress builds from the body. */
  function CompressedBody(input: seq<byte>): seq<byte>
  {
    Finalized(TokensBits(Tokens(input, |input| - 1)))
  }

  /**
   * compress of length bytes at offset: fails for 0x100 bytes or fewer, or
   * when the input is short; otherwise the container and the value it
   * returns, compressedLength + 0x110.
   */
  function CompressSpec(s: seq<byte>, offset: int, length: int): Result<(seq<byte>, nat)>
  {
    if length <= 0x100 then Err(InputTooSmall)
    else
      var head :- ReadBytes(s, offset, 0x100);
      var input :- ReadBytes(s, offset + 0x100, length - 0x100);
      Ok(Packed(head, input))
  }

  /** The container for a head and a body, with the value compress returns for it. */
  function Packed(head: seq<byte>, input: seq<byte>): (seq<byte>, nat)
  {
    var ms := CompressedBody(input);
    (Container(head, input, ms), |ms| + 0x110)
  }

  /** The main loop of compress: an operation at a time from the last byte of the body down to the first. */
  method EncodeBody(input: seq<byte>) returns (output: CrilaylaBitstream)
    ensures fresh(output) && output.Valid()
    ensures output.bits == TokensBits(Tokens(input, |input| - 1))
  {
    var currentPosition := |input| - 1;
    output := new CrilaylaBitstream();
    ghost var all := TokensBits(Tokens(input, currentPosition));
    while currentPosition >= 0
      invariant -1 <= currentPosition < |input|
      invariant output.Valid()
      invariant output.bits + TokensBits(Tokens(input, currentPosition)) == all
      decreases currentPosition + 1
    {
      var backrefPos, backrefLen := FindLongestBackreference(input, currentPosition);
      TokensStep(input, currentPosition);
      ghost var before := output.bits;
      if backrefLen >= 3 {
        ghost var rest := TokensBits(Tokens(input, currentPosition - backrefLen));
        output.PushBit(1);
        output.PushBits13(backrefPos);
        WriteBackrefLength(output, backrefLen);
        assert NatToBits(1, 1) == [1];
        AppendAssoc(before, [1], NatToBits(backrefPos, 13));
        AppendAssoc(before, [1] + NatToBits(backrefPos, 13), LengthBits(backrefLen));
        AppendAssoc(before, TokenBits(Backref(backrefPos, backrefLen)), rest);
        currentPosition := currentPosition - backrefLen;
      } else {
        ghost var rest := TokensBits(Tokens(input, currentPosition - 1));
        output.PushBit(0);
        output.PushBits8(input[currentPosition]);
        assert NatToBits(0, 1) == [0];
        AppendAssoc(before, [0], NatToBits(input[currentPosition] as nat, 8));
        AppendAssoc(before, TokenBits(Literal(input[currentPosition])), rest);
        currentPosition := currentPosition - 1;
      }
    }
  }

  /** The last loop of compress: the finalized buffer written from its last byte down to its first. */
  method WriteReversed(out: seq<byte>, ms: seq<byte>) returns (r: seq<byte>)
    ensures r == out + Reversed(ms)
  {
    r := out;
    var bufferpos := |ms| - 1;
    while bufferpos >= 0
      invariant -1 <= bufferpos < |ms|
      invariant r == out + Reversed(ms)[..|ms| - 1 - bufferpos]
    {
      ReversedAt(ms, |ms| - 1 - bufferpos);
      assert Reversed(ms)[..|ms| - bufferpos] == Reversed(ms)[..|ms| - 1 - bufferpos] + [ms[bufferpos]];
      AppendAssoc(out, Reversed(ms)[..|ms| - 1 - bufferpos], [ms[bufferpos]]);
      r := r + [ms[bufferpos]];
      bufferpos := bufferpos - 1;
    }
    assert Reversed(ms)[..|ms|] == Reversed(ms);
  }

  /**
   * compress: refuses 0x100 bytes or fewer, reads the head and the body,
   * encodes the body, and writes the container; returns compressedLength + 0x110.
   */
  method Compress(s: seq<byte>, offset: int, length: int) returns (r: Result<(seq<byte>, nat)>)
    ensures r == CompressSpec(s, offset, length)
  {
    if length <= 0x100 {
      return Err(InputTooSmall);
    }
    var dataLength := length - 0x100;
    var uncompressedData :- ReadBytes(s, offset, 0x100);
    var input :- ReadBytes(s, offset + 0x100, dataLength);
    var out, written := WriteContainer(uncompressedData, input);
    return Ok((out, written));
  }

  /** The body of compress once both reads succeeded: encode, finalize, write the container. */
  method WriteContainer(uncompressedData: seq<byte>, input: seq<byte>) returns (out: seq<byte>, written: nat)
    ensures (out, written) == Packed(uncompressedData, input)
  {
    var output := EncodeBody(input);
    var ms := output.Finalize();
    assert ms == CompressedBody(input);
    var compressedLength := |ms|;
    out := Header(|input|, compressedLength);
    out := WriteReversed(out, ms);
    out := out + uncompressedData;
    written := compressedLength + 0x110;
  }
}
