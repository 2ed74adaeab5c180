/**
 * CRILAYLA decompression. The compressed block at offset is laid out as
 *   8 bytes   magic: "CRILAYLA" (or eight zero bytes)
 *   4 bytes   uncompressed size n (little endian)
 *   4 bytes   size of the bitstream cs (little endian)
 *   cs bytes  the bitstream, read from its LAST byte toward its first
 *   0x100     the first 0x100 bytes of the payload, stored verbatim
 * The output buffer is those 0x100 bytes followed by n decoded bytes, the
 * decoded bytes being produced from the end of the buffer toward its front.
 */
module CpkUncompress {
  import opened Arith
  import opened Util
  import opened Bits
  import opened CrilaylaFormat

  /** The magic bytes as they stand in the file. */
  const CRILAYLA_BYTES: seq<byte> := [0x43, 0x52, 0x49, 0x4C, 0x41, 0x59, 0x4C, 0x41]

  /** The magic bytes read big-endian are CRILAYLA_sig. */
  lemma CrilaylaBytesValue()
    ensures BeValue(CRILAYLA_BYTES) == CRILAYLA_SIG
  {
    var b := CRILAYLA_BYTES;
    assert BeValue(b[..0]) == 0;
    BeValueSnoc(b[..0], b[0]);
    assert b[..1] == b[..0] + [b[0]];
    BeValueSnoc(b[..1], b[1]);
    assert b[..2] == b[..1] + [b[1]];
    BeValueSnoc(b[..2], b[2]);
    assert b[..3] == b[..2] + [b[2]];
    BeValueSnoc(b[..3], b[3]);
    assert b[..4] == b[..3] + [b[3]];
    BeValueSnoc(b[..4], b[4]);
    assert b[..5] == b[..4] + [b[4]];
    BeValueSnoc(b[..5], b[5]);
    assert b[..6] == b[..5] + [b[5]];
    BeValueSnoc(b[..6], b[6]);
    assert b[..7] == b[..6] + [b[6]];
    BeValueSnoc(b[..7], b[7]);
    assert b == b[..7] + [b[7]];
  }

  /** What uncompress hands back: the buffer written to the output and the count it returns. */
  datatype Emitted = Emitted(written: seq<byte>, count: nat)

  /**
   * The bits the decoder consumes when its cursor starts at byte start: that
   * byte's bits from the most significant down, then the byte before it, and
   * so on down to the first byte of the stream.
   */
  function StreamBits(s: seq<byte>, start: int): (bits: seq<Bit>)
    requires -1 <= start < |s|
    ensures |bits| == 8 * (start + 1)
    decreases start + 1
  {
    if start < 0 then [] else NatToBits(s[start], 8) + StreamBits(s, start - 1)
  }

  /** The eight bits at 8 * q in the stream are those of the byte q places below start. */
  lemma {:induction false} StreamBitsByte(s: seq<byte>, start: int, q: nat)
    requires -1 <= start < |s| && q <= start
    ensures StreamBits(s, start)[8 * q..8 * q + 8] == NatToBits(s[start - q], 8)
    decreases q
  {
    if q > 0 {
      StreamBitsByte(s, start - 1, q - 1);
      SliceOfAppendRight(NatToBits(s[start], 8), StreamBits(s, start - 1), 8 * q, 8 * q + 8);
    }
  }

  function ByteAt(bits: seq<Bit>, q: nat): seq<Bit>
    requires 8 * q + 8 <= |bits|
  {
    bits[8 * q..8 * q + 8]
  }

  /** bits is the stream read from byte start down: byte by byte, each most significant bit first. */
  predicate IsStream(s: seq<byte>, start: int, bits: seq<Bit>)
  {
    && -1 <= start < |s|
    && |bits| == 8 * (start + 1)
    && forall q: nat :: q <= start ==> ByteAt(bits, q) == NatToBits(s[start - q], 8)
  }

  lemma StreamBitsIsStream(s: seq<byte>, start: int)
    requires -1 <= start < |s|
    ensures IsStream(s, start, StreamBits(s, start))
  {
    forall q: nat | q <= start
      ensures ByteAt(StreamBits(s, start), q) == NatToBits(s[start - q], 8)
    {
      StreamBitsByte(s, start, q);
    }
  }

  /**
   * The state get_next_bits keeps between calls: the offset of the next byte
   * to load, the byte being consumed and how many of its low bits are unread.
   */
  datatype BitCursor = BitCursor(offset: int, pool: byte, bitsLeft: nat)

  /** The cursor has delivered exactly the first k bits of StreamBits(s, start). */
  predicate Tracks(s: seq<byte>, start: int, c: BitCursor, k: nat)
  {
    && -1 <= start < |s|
    && c.bitsLeft < 8
    && -1 <= c.offset <= start
    && 8 * (start - c.offset) == k + c.bitsLeft
    && (c.bitsLeft > 0 ==> c.offset + 1 <= start && c.pool == s[c.offset + 1])
  }

  /** take bits from a into the byte at q are the stream bits from 8 * q + a. */
  lemma ByteAtSlice(bits: seq<Bit>, q: nat, a: nat, take: nat)
    requires 8 * q + 8 <= |bits| && a + take <= 8
    ensures ByteAt(bits, q)[a..a + take] == bits[8 * q + a..8 * q + a + take]
  {
    SliceOfSlice(bits, 8 * q, 8 * q + 8, a, a + take);
  }

  /** The take bits of the pool below its left unread ones: (pool >> (left - take)) & ((1 << take) - 1). */
  function PoolBits(pool: byte, left: nat, take: nat): nat
    requires take <= left
  {
    (pool / Pow2(left - take)) % Pow2(take)
  }

  /** The unread low bits of the pool, taken from the top, are the next bits of the stream. */
  lemma PoolChunk(s: seq<byte>, start: int, bits: seq<Bit>, c: BitCursor, k: nat, take: nat)
    requires IsStream(s, start, bits) && -1 <= c.offset && c.offset + 1 <= start
    requires 1 <= take <= c.bitsLeft <= 8
    requires 8 * (start - c.offset) == k + c.bitsLeft && c.pool == s[c.offset + 1]
    ensures k + take <= |bits|
    ensures PoolBits(c.pool, c.bitsLeft, take) == Value(bits[k..k + take])
  {
    var bs := NatToBits(c.pool, 8);
    var a := 8 - c.bitsLeft;
    var q := start - c.offset - 1;
    assert bits[k..k + take] == bs[a..a + take] by {
      assert ByteAt(bits, q) == bs;
      ByteAtSlice(bits, q, a, take);
    }
    assert Value(bs[a..a + take]) == PoolBits(c.pool, c.bitsLeft, take) by {
      assert Value(bs) == c.pool by {
        Pow2Widths();
        FieldRoundTrip(c.pool, 8);
      }
      ValueSlice(bs, a, a + take);
    }
  }

  /** One round of get_next_bits: the bits taken from the pool extend the value read so far. */
  lemma TakeBits(s: seq<byte>, start: int, bits: seq<Bit>, c: BitCursor, k: nat, produced: nat, take: nat)
    requires IsStream(s, start, bits) && -1 <= c.offset && c.offset + 1 <= start
    requires 1 <= take <= c.bitsLeft <= 8
    requires 8 * (start - c.offset) == k + produced + c.bitsLeft && c.pool == s[c.offset + 1]
    ensures k + produced + take <= |bits|
    ensures Value(bits[k..k + produced + take])
         == Shl(Value(bits[k..k + produced]), take) + PoolBits(c.pool, c.bitsLeft, take)
  {
    PoolChunk(s, start, bits, c, k + produced, take);
    ValueExtend(bits, k, produced, take);
  }

  /** Reading take more bits shifts the value read so far left by take and adds them. */
  lemma ValueExtend(bits: seq<Bit>, k: nat, produced: nat, take: nat)
    requires k + produced + take <= |bits|
    ensures Value(bits[k..k + produced + take])
         == Shl(Value(bits[k..k + produced]), take) + Value(bits[k + produced..k + produced + take])
  {
    assert bits[k..k + produced] + bits[k + produced..k + produced + take] == bits[k..k + produced + take];
    ValueAppend(bits[k..k + produced], bits[k + produced..k + produced + take]);
    ShlIsMul(Value(bits[k..k + produced]), take);
  }

  /**
   * get_next_bits: count bits (at most 16) from the cursor, first bit most
   * significant, loading the byte at the cursor's offset and stepping the
   * offset down whenever the pool runs dry. Loading a byte before the start of
   * the stream fails.
   */
  method GetNextBits(s: seq<byte>, cur: BitCursor, count: nat, ghost bits: seq<Bit>, ghost start: int, ghost k: nat)
    returns (r: Result<(nat, BitCursor)>)
    requires IsStream(s, start, bits) && Tracks(s, start, cur, k) && count <= 16
    ensures r.Ok? <==> k + count <= |bits|
    ensures r.Err? ==> r.error == UnexpectedEof
    ensures r.Ok? ==>
      && r.value.0 == Value(bits[k..k + count])
      && r.value.0 < Pow2(count)
      && Tracks(s, start, r.value.1, k + count)
  {
    var outBits := 0;
    var produced := 0;
    var c := cur;
    while produced < count
      invariant produced <= count && Tracks(s, start, c, k + produced)
      invariant outBits == Value(bits[k..k + produced])
    {
      if c.bitsLeft == 0 {
        var b := GetByte(s, c.offset);
        if b.Err? {
          return Err(b.error);
        }
        c := BitCursor(c.offset - 1, b.value, 8);
      }
      var take := if c.bitsLeft > count - produced then count - produced else c.bitsLeft;
      var piece := PoolBits(c.pool, c.bitsLeft, take);
      TakeBits(s, start, bits, c, k, produced, take);
      // The shifted value has take zero bits at the bottom, so the source's
      // shift-and-or is this shift-and-add; it stays below 2^16.
      outBits := Shl(outBits, take) + piece;
      c := c.(bitsLeft := c.bitsLeft - take);
      produced := produced + take;
    }
    ValueBound(bits[k..k + count]);
    return Ok((outBits, c));
  }

  /** The widths of the first four fields of the length code (vle_lens). */
  const VLE_LENS: seq<nat> := [2, 3, 5, 8]

  /** vle_lens lists the widths of the length code's first four fields. */
  lemma VleLens(level: nat)
    requires level < 4
    ensures VLE_LENS[level] == LengthFieldWidth(level) && Pow2(VLE_LENS[level]) - 1 == FieldMax(level)
  {
  }

  /**
   * One field of the length code at one of the first four levels: get_next_bits
   * of width vle_lens[level], added to len; more says whether it was all ones.
   */
  method ReadLevel(s: seq<byte>, c: BitCursor, level: nat, len: nat, ghost bits: seq<Bit>, ghost start: int, ghost pos: nat)
    returns (r: Result<(nat, BitCursor)>, more: bool)
    requires IsStream(s, start, bits) && Tracks(s, start, c, pos) && level < 4
    ensures r.Err? ==> r.error == UnexpectedEof && ParseLength(bits, pos, level, len) == Err(UnexpectedEof)
    ensures r.Ok? ==> pos + VLE_LENS[level] <= |bits| && Tracks(s, start, r.value.1, pos + VLE_LENS[level])
    ensures r.Ok? && !more ==> ParseLength(bits, pos, level, len) == Ok((r.value.0, pos + VLE_LENS[level]))
    ensures r.Ok? && more ==>
      ParseLength(bits, pos, level, len) == ParseLength(bits, pos + VLE_LENS[level], level + 1, r.value.0)
  {
    ghost var goal := ParseLength(bits, pos, level, len);
    var w := VLE_LENS[level];
    var got := GetNextBits(s, c, w, bits, start, pos);
    if got.Err? {
      LevelEof(bits, pos, level, len, w, goal);
      return Err(got.error), false;
    }
    var thisLevel := got.value.0;
    LevelStep(bits, pos, level, w, thisLevel, len + thisLevel, goal);
    r, more := Ok((len + thisLevel, got.value.1)), thisLevel == Pow2(w) - 1;
  }

  /** A field of width vle_lens[level] running past the end of the bits ends the length decoder with an error. */
  lemma LevelEof(bits: seq<Bit>, pos: nat, level: nat, len: nat, w: nat, goal: Result<(nat, nat)>)
    requires level < 4 && w == VLE_LENS[level] && pos <= |bits| < pos + w
    requires goal == ParseLength(bits, pos, level, len)
    ensures goal == Err(UnexpectedEof)
  {
    VleLens(level);
    ParseLengthEof(bits, pos, level, len);
  }

  /** A field of width vle_lens[level] ends the length code unless it is all ones. */
  lemma LevelStep(bits: seq<Bit>, pos: nat, level: nat, w: nat, v: nat, len': nat, goal: Result<(nat, nat)>)
    requires level < 4 && w == VLE_LENS[level] && pos + w <= |bits| && v == Value(bits[pos..pos + w]) && len' >= v
    requires goal == ParseLength(bits, pos, level, len' - v)
    ensures v != Pow2(w) - 1 ==> goal == Ok((len', pos + w))
    ensures v == Pow2(w) - 1 ==> goal == ParseLength(bits, pos + w, level + 1, len')
  {
    VleLens(level);
    ParseLengthStep(bits, pos, level, len' - v, v);
  }

  /**
   * The length decoder of uncompress: fields of widths 2, 3, 5 and 8, then
   * 8-bit fields for as long as each is 255, with 3 added to their sum.
   */
  method ReadLength(s: seq<byte>, cur: BitCursor, ghost bits: seq<Bit>, ghost start: int, ghost k: nat)
    returns (r: Result<(nat, BitCursor)>)
    requires IsStream(s, start, bits) && Tracks(s, start, cur, k)
    ensures k <= |bits|
    ensures var g := ParseLength(bits, k, 0, 3);
      && (r.Ok? <==> g.Ok?)
      && (r.Err? ==> r.error == g.error)
      && (r.Ok? ==> r.value.0 == g.value.0 && Tracks(s, start, r.value.1, g.value.1))
  {
    ghost var goal := ParseLength(bits, k, 0, 3);
    var len: nat := 3;
    var c := cur;
    ghost var pos: nat := k;
    var vleLevel := 0;
    while vleLevel < 4
      invariant vleLevel <= 4 && Tracks(s, start, c, pos) && pos <= |bits|
      invariant goal == ParseLength(bits, pos, vleLevel, len)
    {
      var got, more := ReadLevel(s, c, vleLevel, len, bits, start, pos);
      if got.Err? {
        return Err(got.error);
      }
      len, c := got.value.0, got.value.1;
      pos := pos + VLE_LENS[vleLevel];
      if !more {
        break;
      }
      vleLevel := vleLevel + 1;
    }
    if vleLevel == 4 {
      r := ReadLengthTail(s, c, len, bits, start, pos);
    } else {
      r := Ok((len, c));
    }
  }

  /**
   * The tail of the length decoder, after four all-ones fields: 8-bit fields
   * added to len for as long as each is 255.
   */
  method ReadLengthTail(s: seq<byte>, cur: BitCursor, len0: nat, ghost bits: seq<Bit>, ghost start: int, ghost k: nat)
    returns (r: Result<(nat, BitCursor)>)
    requires IsStream(s, start, bits) && Tracks(s, start, cur, k) && k <= |bits|
    ensures var g := ParseLength(bits, k, 4, len0);
      && (r.Ok? <==> g.Ok?)
      && (r.Err? ==> r.error == g.error)
      && (r.Ok? ==> r.value.0 == g.value.0 && Tracks(s, start, r.value.1, g.value.1))
  {
    ghost var goal := ParseLength(bits, k, 4, len0);
    var len := len0;
    var c := cur;
    ghost var pos: nat := k;
    ghost var level: nat := 4;
    while true
      invariant level >= 4 && Tracks(s, start, c, pos) && pos <= |bits|
      invariant goal == ParseLength(bits, pos, level, len)
      decreases |bits| - pos
    {
      assert LengthFieldWidth(level) == 8 && FieldMax(level) == 255;
      var got := GetNextBits(s, c, 8, bits, start, pos);
      if got.Err? {
        assert goal == Err(UnexpectedEof) by {
          ParseLengthEof(bits, pos, level, len);
        }
        return Err(got.error);
      }
      var thisLevel := got.value.0;
      assert goal == if thisLevel != 255 then Ok((len + thisLevel, pos + 8))
                     else ParseLength(bits, pos + 8, level + 1, len + thisLevel) by {
        ParseLengthStep(bits, pos, level, len, thisLevel);
      }
      c := got.value.1;
      len := len + thisLevel;
      pos := pos + 8;
      if thisLevel != 255 {
        return Ok((len, c));
      }
      level := level + 1;
    }
  }

  /**
   * The backreference copy loop of uncompress on the output buffer: count
   * bytes from src down to dst, one at a time, both indices moving down.
   */
  method CopyBackward(buf: array<byte>, dst: int, src: int, count: nat) returns (r: Result<()>)
    modifies buf
    ensures var g := CopyBack(old(buf[..]), dst, src, count);
      && (r.Ok? <==> g.Ok?)
      && (r.Err? ==> r.error == g.error)
      && (r.Ok? ==> buf[..] == g.value)
  {
    var i := 0;
    while i < count
      invariant i <= count
      invariant CopyBack(buf[..], dst - i, src - i, count - i) == CopyBack(old(buf[..]), dst, src, count)
    {
      if !(0 <= dst - i < buf.Length && 0 <= src - i < buf.Length) {
        return Err(IndexOutOfRange);
      }
      buf[dst - i] := buf[src - i];
      i := i + 1;
    }
    return Ok(());
  }

  /**
   * The signature test of uncompress, with the source's order of reads: two
   * little-endian zero words, otherwise the big-endian magic.
   */
  function SignatureOk(s: seq<byte>, offset: int): Result<bool>
  {
    var lo :- Get32Le(s, offset);
    var zero :- if lo == 0 then (var hi :- Get32Le(s, offset + 4); Ok(hi == 0)) else Ok(false);
    if zero then Ok(true)
    else
      var sig :- Get64Be(s, offset);
      Ok(sig == CRILAYLA_SIG)
  }

  /**
   * The checks uncompress makes before it decodes: the signature, then the
   * uncompressed size n and the header offset read from the block, which must
   * put the 0x100 verbatim header bytes exactly at the end of the block.
   */
  function BlockLayout(s: seq<byte>, offset: int, inputSize: int): Result<(nat, int)>
  {
    var sigOk :- SignatureOk(s, offset);
    if !sigOk then Err(BadSignature)
    else
      var n :- Get32Le(s, offset + 0x08);
      var cs :- Get32Le(s, offset + 0x0C);
      var headerOffset := offset + cs + 0x10;
      if headerOffset + HEADER_SIZE != offset + inputSize then Err(SizeMismatch)
      else Ok((n, headerOffset))
  }

  /**
   * uncompress of the block of inputSize bytes at offset: the buffer it writes
   * (0x100 + n bytes) and the value it returns (0x100 + bytes_output).
   */
  function UncompressSpec(s: seq<byte>, offset: int, inputSize: int): Result<Emitted>
  {
    var layout :- BlockLayout(s, offset, inputSize);
    DecodeBlock(s, layout.0, layout.1)
  }

  /**
   * The rest of uncompress once the layout gave the size n and the header
   * offset: read the header, then decode the bitstream below it into a
   * buffer holding the header followed by n zero bytes.
   */
  function DecodeBlock(s: seq<byte>, n: nat, headerOffset: int): Result<Emitted>
  {
    var header :- ReadBytes(s, headerOffset, HEADER_SIZE);
    var d :- DecodeFrom(StreamBits(s, headerOffset - 1), 0, header + ZeroBytes(n), 0, n);
    Ok(Emitted(d.0, HEADER_SIZE + d.1))
  }

  /**
   * The signature test reads eight bytes: it fails exactly when they are not
   * all in the input, and accepts exactly eight zero bytes or "CRILAYLA".
   */
  lemma SignatureOkMeaning(s: seq<byte>, offset: int)
    ensures SignatureOk(s, offset).Ok? <==> 0 <= offset && offset + 8 <= |s|
    ensures SignatureOk(s, offset) == Ok(true) <==>
      0 <= offset && offset + 8 <= |s| && (s[offset..offset + 8] == ZeroBytes(8) || s[offset..offset + 8] == CRILAYLA_BYTES)
  {
    if 0 <= offset && offset + 8 <= |s| {
      var w := s[offset..offset + 8];
      assert s[offset..offset + 4] == w[..4];
      assert s[offset + 4..offset + 8] == w[4..];
      LeValueZero(w[..4]);
      LeValueZero(w[4..]);
      assert w == ZeroBytes(8) <==> (forall i :: 0 <= i < 4 ==> w[..4][i] == 0) && (forall i :: 0 <= i < 4 ==> w[4..][i] == 0) by {
        if (forall i :: 0 <= i < 4 ==> w[..4][i] == 0) && (forall i :: 0 <= i < 4 ==> w[4..][i] == 0) {
          assert forall i :: 0 <= i < 8 ==> w[i] == if i < 4 then w[..4][i] else w[4..][i - 4];
        }
      }
      CrilaylaBytesValue();
      if BeValue(w) == CRILAYLA_SIG {
        BeValueInjective(w, CRILAYLA_BYTES);
      }
    }
  }

  /**
   * What passes the checks of uncompress: the signature, then the size fields
   * read little-endian at offset + 8 and offset + 12, and a header offset that
   * ends exactly at offset + inputSize.
   */
  lemma BlockLayoutMeaning(s: seq<byte>, offset: int, inputSize: int)
    ensures var b := BlockLayout(s, offset, inputSize);
      && (b == Err(BadSignature) <==> SignatureOk(s, offset) == Ok(false))
      && (b.Ok? <==>
        && SignatureOk(s, offset) == Ok(true) && offset + 16 <= |s|
        && offset + LeValue(s[offset + 12..offset + 16]) + 0x10 + HEADER_SIZE == offset + inputSize)
      && (b.Ok? ==> b.value == (LeValue(s[offset + 8..offset + 12]), offset + LeValue(s[offset + 12..offset + 16]) + 0x10))
  {
    SignatureOkMeaning(s, offset);
  }

  /**
   * What uncompress produces: a buffer of 0x100 + n bytes, a count of at least
   * that many, and, when the decoder stopped at exactly n bytes, the 0x100
   * header bytes from the end of the block at the front of the buffer.
   */
  lemma UncompressShape(s: seq<byte>, offset: int, inputSize: int)
    ensures var r := UncompressSpec(s, offset, inputSize);
      var b := BlockLayout(s, offset, inputSize);
      r.Ok? ==>
        && b.Ok?
        && |r.value.written| == HEADER_SIZE + b.value.0
        && r.value.count >= |r.value.written|
        && b.value.1 + HEADER_SIZE == offset + inputSize
        && 0 <= b.value.1 && b.value.1 + HEADER_SIZE <= |s|
        && (r.value.count == |r.value.written| ==> r.value.written[..HEADER_SIZE] == s[b.value.1..b.value.1 + HEADER_SIZE])
  {
    var r := UncompressSpec(s, offset, inputSize);
    var b := BlockLayout(s, offset, inputSize);
    if r.Ok? {
      var n, h := b.value.0, b.value.1;
      var header := s[h..h + HEADER_SIZE];
      var out := header + ZeroBytes(n);
      var bits := StreamBits(s, h - 1);
      DecodeFromFrame(bits, 0, out, 0, n);
      var d := DecodeFrom(bits, 0, out, 0, n).value;
      if r.value.count == |r.value.written| {
        forall j | 0 <= j < HEADER_SIZE
          ensures r.value.written[j] == header[j]
        {
          assert j < |out| - d.1;
        }
      }
    }
  }

  /** One step of the decoder: the parsed operation applied, then the rest of the stream. */
  lemma DecodeStep(bits: seq<Bit>, k: nat, out: seq<byte>, produced: nat, n: nat)
    requires k <= |bits| && produced < n
    ensures var t := ParseToken(bits, k);
      DecodeFrom(bits, k, out, produced, n) ==
        if t.Err? then Err(t.error)
        else
          var o := ApplyToken(out, produced, t.value.0);
          if o.Err? then Err(o.error) else DecodeFrom(bits, t.value.1, o.value.0, o.value.1, n)
  {
  }

  /** The first bit of the remaining stream, read as a 1-bit field. */
  lemma FlagBit(bits: seq<Bit>, k: nat)
    requires k < |bits|
    ensures Value(bits[k..k + 1]) == bits[k]
  {
    assert bits[k..k + 1] == [bits[k]];
    assert Value([bits[k]]) == 2 * Value([]) + bits[k];
  }

  /** The reads of a backreference after its flag bit at k: a 13-bit distance, then the length code. */
  method ReadBackref(s: seq<byte>, start: int, c: BitCursor, ghost bits: seq<Bit>, ghost k: nat)
    returns (r: Result<(Token, BitCursor)>, ghost k': nat)
    requires IsStream(s, start, bits) && k < |bits| && bits[k] == 1 && Tracks(s, start, c, k + 1)
    ensures var t := ParseToken(bits, k);
      && (r.Ok? <==> t.Ok?)
      && (r.Err? ==> r.error == t.error)
      && (r.Ok? ==> r.value.0 == t.value.0 && k' == t.value.1 && Tracks(s, start, r.value.1, k'))
  {
    k' := k;
    ParseTokenBackref(bits, k);
    ghost var t := ParseToken(bits, k);
    var dist := GetNextBits(s, c, 13, bits, start, k + 1);
    if dist.Err? {
      assert t == Err(UnexpectedEof);
      return Err(dist.error), k';
    }
    assert dist.value.0 == Value(bits[k + 1..k + 14]) && Tracks(s, start, dist.value.1, k + 14);
    var len := ReadLength(s, dist.value.1, bits, start, k + 14);
    ghost var g := ParseLength(bits, k + 14, 0, 3);
    if len.Err? {
      assert t.Err? && g.error == UnexpectedEof;
      return Err(len.error), k';
    }
    k' := g.value.1;
    assert t == Ok((Backref(dist.value.0, len.value.0), k'));
    return Ok((Backref(dist.value.0, len.value.0), len.value.1)), k';
  }

  /**
   * The reads of one operation in the main loop of uncompress: a flag bit,
   * then either eight bits of a verbatim byte or a 13-bit distance and a
   * length code.
   */
  method ReadToken(s: seq<byte>, start: int, c: BitCursor, ghost bits: seq<Bit>, ghost k: nat)
    returns (r: Result<(Token, BitCursor)>, ghost k': nat)
    requires IsStream(s, start, bits) && Tracks(s, start, c, k) && k <= |bits|
    ensures var t := ParseToken(bits, k);
      && (r.Ok? <==> t.Ok?)
      && (r.Err? ==> r.error == t.error)
      && (r.Ok? ==> r.value.0 == t.value.0 && k' == t.value.1 && Tracks(s, start, r.value.1, k'))
  {
    k' := k;
    var flag := GetNextBits(s, c, 1, bits, start, k);
    if flag.Err? {
      return Err(flag.error), k';
    }
    FlagBit(bits, k);
    if flag.value.0 != 0 {
      r, k' := ReadBackref(s, start, flag.value.1, bits, k);
    } else {
      ParseTokenLiteral(bits, k);
      var lit := GetNextBits(s, flag.value.1, 8, bits, start, k + 1);
      if lit.Err? {
        return Err(lit.error), k';
      }
      Pow2Widths();
      k' := k + 9;
      return Ok((Literal(lit.value.0 as byte), lit.value.1)), k';
    }
  }

  /**
   * The writes of one operation in the main loop of uncompress, at
   * output_end - bytes_output: the verbatim byte, or the backreference copy.
   * Returns the new bytes_output.
   */
  method ApplyTokenInPlace(buf: array<byte>, produced: nat, t: Token) returns (r: Result<nat>)
    requires WellFormed(t)
    modifies buf
    ensures var g := ApplyToken(old(buf[..]), produced, t);
      && (r.Ok? <==> g.Ok?)
      && (r.Err? ==> r.error == g.error)
      && (r.Ok? ==> buf[..] == g.value.0 && r.value == g.value.1)
  {
    var dst := buf.Length - 1 - produced;
    match t
    case Literal(b) =>
      if dst < 0 {
        return Err(IndexOutOfRange);
      }
      buf[dst] := b;
      return Ok(produced + 1);
    case Backref(d, len) =>
      var copied := CopyBackward(buf, dst, dst + d + 3, len);
      if copied.Err? {
        return Err(copied.error);
      }
      return Ok(produced + len);
  }

  /**
   * The main loop of uncompress over an output buffer of n + 0x100 bytes:
   * until n bytes are out, read one operation and apply it.
   */
  method DecodeLoop(s: seq<byte>, start: int, buf: array<byte>, n: nat, ghost bits: seq<Bit>)
    returns (r: Result<nat>)
    requires IsStream(s, start, bits) && buf.Length == n + HEADER_SIZE
    modifies buf
    ensures var g := DecodeFrom(bits, 0, old(buf[..]), 0, n);
      && (r.Ok? <==> g.Ok?)
      && (r.Err? ==> r.error == g.error)
      && (r.Ok? ==> buf[..] == g.value.0 && r.value == g.value.1)
  {
    ghost var goal := DecodeFrom(bits, 0, buf[..], 0, n);
    var c := BitCursor(start, 0, 0);
    ghost var k: nat := 0;
    var produced: nat := 0;
    while produced < n
      invariant Tracks(s, start, c, k) && k <= |bits|
      invariant goal == DecodeFrom(bits, k, buf[..], produced, n)
      decreases n - produced
    {
      DecodeStep(bits, k, buf[..], produced, n);
      var t;
      t, k := ReadToken(s, start, c, bits, k);
      if t.Err? {
        return Err(t.error);
      }
      c := t.value.1;
      var applied := ApplyTokenInPlace(buf, produced, t.value.0);
      if applied.Err? {
        return Err(applied.error);
      }
      produced := applied.value;
    }
    return Ok(produced);
  }

  method Uncompress(s: seq<byte>, offset: int, inputSize: int) returns (r: Result<Emitted>)
    ensures r == UncompressSpec(s, offset, inputSize)
  {
    var layout :- BlockLayout(s, offset, inputSize);
    var n, headerOffset := layout.0, layout.1;
    var buf := new byte[n + HEADER_SIZE](_ => 0);
    var header :- ReadBytes(s, headerOffset, HEADER_SIZE);
    forall i | 0 <= i < HEADER_SIZE {
      buf[i] := header[i];
    }
    assert buf[..] == header + ZeroBytes(n);
    var start := headerOffset - 1;  // input_end
    StreamBitsIsStream(s, start);
    var produced :- DecodeLoop(s, start, buf, n, StreamBits(s, start));
    return Ok(Emitted(buf[..], HEADER_SIZE + produced));
  }
}
