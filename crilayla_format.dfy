/**
 * The CRILAYLA bitstream as a sequence of operations. Operation '0' is a
 * verbatim byte (8 bits); operation '1' is a backreference: a 13-bit distance
 * (the source lies distance + 3 bytes above the destination) and a
 * variable-length length code made of fields of widths 2, 3, 5, then 8
 * repeated, with an implicit 3 added. The decoder builds its output from the
 * last byte toward the first, so "above" means "already produced".
 */
module CrilaylaFormat {
  import opened Arith
  import opened Util
  import opened Bits

  /** Bytes at the front of the payload that are stored verbatim after the bitstream. */
  const HEADER_SIZE: nat := 0x100
  /** Number of backreference distances the encoder tries (the 13-bit range). */
  const WINDOW: nat := 0x2000
  /** CRILAYLA_sig: the magic "CRILAYLA" read as a big-endian 64-bit integer. */
  const CRILAYLA_SIG: nat := 0x4352494C41594C41

  datatype Token =
    | Literal(b: byte)
    | Backref(distance: nat, len: nat)

  /** A token the bitstream can carry: a 13-bit distance and a length of at least 3. */
  predicate WellFormed(t: Token)
  {
    t.Backref? ==> t.distance < WINDOW && t.len >= 3
  }

  /** The width of the length code's field at a level: 2, 3, 5, then 8 for every later field. */
  function LengthFieldWidth(level: nat): (w: nat)
    ensures w >= 2
  {
    if level == 0 then 2 else if level == 1 then 3 else if level == 2 then 5 else 8
  }

  /** The all-ones value of the field at a level: the marker that another field follows. */
  function FieldMax(level: nat): (m: nat)
    ensures m >= 3 && m == Pow2(LengthFieldWidth(level)) - 1
  {
    Pow2Widths();
    assert Pow2(2) == 4 && Pow2(3) == 8 && Pow2(5) == 32;
    if level == 0 then 3 else if level == 1 then 7 else if level == 2 then 31 else 255
  }

  datatype Field = Field(width: nat, value: nat)

  /**
   * The fields WriteBackrefLength emits for a remaining length rest, starting at
   * a level: every field but the last is all ones, and the last carries what is left.
   */
  function LengthFields(rest: nat, level: nat): (fs: seq<Field>)
    ensures |fs| >= 1
    decreases rest
  {
    if rest < FieldMax(level) then [Field(LengthFieldWidth(level), rest)]
    else [Field(LengthFieldWidth(level), FieldMax(level))] + LengthFields(rest - FieldMax(level), level + 1)
  }

  function FieldValueSum(fs: seq<Field>): nat
  {
    if |fs| == 0 then 0 else fs[0].value + FieldValueSum(fs[1..])
  }

  function FieldBits(fs: seq<Field>): seq<Bit>
  {
    if |fs| == 0 then [] else NatToBits(fs[0].value, fs[0].width) + FieldBits(fs[1..])
  }

  /** The bits of the length code for a backreference of length len (len >= 3). */
  function LengthBits(len: nat): seq<Bit>
    requires len >= 3
  {
    FieldBits(LengthFields(len - 3, 0))
  }

  function TokenBits(t: Token): seq<Bit>
    requires WellFormed(t)
  {
    match t
    case Literal(b) => [0] + NatToBits(b, 8)
    case Backref(d, l) => [1] + NatToBits(d, 13) + LengthBits(l)
  }

  function TokensBits(ts: seq<Token>): seq<Bit>
    requires forall i :: 0 <= i < |ts| ==> WellFormed(ts[i])
  {
    if |ts| == 0 then [] else TokenBits(ts[0]) + TokensBits(ts[1..])
  }

  /**
   * The length decoder at bit position pos, from a level with acc already
   * counted: read a field of the level's width, add it, and go on to the next
   * level only while the field is all ones. Returns the length and the
   * position after the code.
   */
  function ParseLength(bits: seq<Bit>, pos: nat, level: nat, acc: nat): (r: Result<(nat, nat)>)
    requires pos <= |bits|
    ensures r.Ok? ==> r.value.0 >= acc && pos + 2 <= r.value.1 <= |bits|
    ensures r.Err? ==> r.error == UnexpectedEof
    decreases |bits| - pos
  {
    var w := LengthFieldWidth(level);
    if pos + w > |bits| then Err(UnexpectedEof)
    else
      var f := Value(bits[pos..pos + w]);
      if f != FieldMax(level) then Ok((acc + f, pos + w))
      else ParseLength(bits, pos + w, level + 1, acc + f)
  }

  /** One operation at bit position pos, and the position after it. */
  function ParseToken(bits: seq<Bit>, pos: nat): (r: Result<(Token, nat)>)
    requires pos <= |bits|
    ensures r.Ok? ==> pos < r.value.1 <= |bits| && WellFormed(r.value.0)
    ensures r.Err? ==> r.error == UnexpectedEof
  {
    if pos + 1 > |bits| then Err(UnexpectedEof)
    else if bits[pos] == 1 then
      if pos + 14 > |bits| then Err(UnexpectedEof)
      else
        var d := Value(bits[pos + 1..pos + 14]);
        assert d < WINDOW by {
          ValueBound(bits[pos + 1..pos + 14]);
          Pow2Of13();
        }
        var l :- ParseLength(bits, pos + 14, 0, 3);
        Ok((Backref(d, l.0), l.1))
    else if pos + 9 > |bits| then Err(UnexpectedEof)
    else
      ValueBound(bits[pos + 1..pos + 9]);
      Pow2Widths();
      Ok((Literal(Value(bits[pos + 1..pos + 9]) as byte), pos + 9))
  }

  /** A flag bit of 1: a 13-bit distance, then the length code. */
  lemma ParseTokenBackref(bits: seq<Bit>, pos: nat)
    requires pos < |bits| && bits[pos] == 1
    ensures var r := ParseToken(bits, pos);
      && (pos + 14 > |bits| ==> r == Err(UnexpectedEof))
      && (pos + 14 <= |bits| ==>
            var l := ParseLength(bits, pos + 14, 0, 3);
            && (r.Ok? <==> l.Ok?)
            && (r.Ok? ==> r.value == (Backref(Value(bits[pos + 1..pos + 14]), l.value.0), l.value.1)))
  {
  }

  /** A flag bit of 0: the eight bits of a verbatim byte. */
  lemma ParseTokenLiteral(bits: seq<Bit>, pos: nat)
    requires pos < |bits| && bits[pos] == 0
    ensures var r := ParseToken(bits, pos);
      && (r.Ok? <==> pos + 9 <= |bits|)
      && (r.Ok? ==> r.value.1 == pos + 9 && r.value.0.Literal? && r.value.0.b as nat == Value(bits[pos + 1..pos + 9]))
  {
  }

  lemma Pow2Of13()
    ensures Pow2(13) == WINDOW
  {
    Pow2Add(8, 5);
    Pow2Widths();
    assert Pow2(5) == 32;
  }

  /**
   * The backreference copy: count bytes, one at a time, from src down to dst,
   * both moving toward lower indices. A byte written earlier in the same copy
   * may be read again later in it.
   */
  function CopyBack(out: seq<byte>, dst: int, src: int, count: nat): (r: Result<seq<byte>>)
    ensures r.Ok? ==> |r.value| == |out|
    decreases count
  {
    if count == 0 then Ok(out)
    else if !(0 <= dst < |out| && 0 <= src < |out|) then Err(IndexOutOfRange)
    else CopyBack(out[dst := out[src]], dst - 1, src - 1, count - 1)
  }

  /**
   * Applies one operation when produced bytes are already out: the destination
   * is |out| - 1 - produced, the position output_end - bytes_output.
   */
  function ApplyToken(out: seq<byte>, produced: nat, t: Token): (r: Result<(seq<byte>, nat)>)
    requires WellFormed(t)
    ensures r.Ok? ==> |r.value.0| == |out| && r.value.1 > produced
  {
    var dst := |out| - 1 - produced;
    match t
    case Literal(b) =>
      if 0 <= dst then Ok((out[dst := b], produced + 1)) else Err(IndexOutOfRange)
    case Backref(d, l) =>
      var o :- CopyBack(out, dst, dst + d + 3, l);
      Ok((o, produced + l))
  }

  /**
   * The decoder's main loop from bit k with produced bytes out: stop as soon as
   * produced >= n, otherwise parse and apply one operation. Returns the output
   * buffer and the final byte count (which a long backreference can push past n).
   */
  function DecodeFrom(bits: seq<Bit>, k: nat, out: seq<byte>, produced: nat, n: nat): (r: Result<(seq<byte>, nat)>)
    requires k <= |bits|
    ensures r.Ok? ==> |r.value.0| == |out| && r.value.1 >= n && r.value.1 >= produced
    decreases n - produced
  {
    if produced >= n then Ok((out, produced))
    else
      var t :- ParseToken(bits, k);
      var o :- ApplyToken(out, produced, t.0);
      DecodeFrom(bits, t.1, o.0, o.1, n)
  }

  // ---------------------------------------------------------------------------
  // Properties of the length code

  /** The fields of the length code add up to the remaining length: 3 plus their sum is the length. */
  lemma {:induction false} LengthFieldsSum(rest: nat, level: nat)
    ensures FieldValueSum(LengthFields(rest, level)) == rest
    decreases rest
  {
    var m := FieldMax(level);
    if rest >= m {
      var fs := LengthFields(rest, level);
      LengthFieldsSum(rest - m, level + 1);
      assert fs[1..] == LengthFields(rest - m, level + 1);
    }
  }

  /**
   * The shape of the length code: the widths run 2, 3, 5, then 8; every field
   * but the last is the all-ones value of its width; the last is strictly smaller.
   */
  lemma {:induction false} LengthFieldsForm(rest: nat, level: nat)
    ensures var fs := LengthFields(rest, level);
      && (forall i :: 0 <= i < |fs| ==> fs[i].width == LengthFieldWidth(level + i))
      && (forall i :: 0 <= i < |fs| - 1 ==> fs[i].value == FieldMax(level + i))
      && fs[|fs| - 1].value < FieldMax(level + |fs| - 1)
    decreases rest
  {
    var m := FieldMax(level);
    var fs := LengthFields(rest, level);
    if rest >= m {
      var tail := LengthFields(rest - m, level + 1);
      LengthFieldsForm(rest - m, level + 1);
      assert fs == [Field(LengthFieldWidth(level), m)] + tail;
      forall i | 0 < i < |fs|
        ensures fs[i] == tail[i - 1]
      {
      }
    }
  }

  /** bits holds x at position pos. */
  predicate At(bits: seq<Bit>, pos: nat, x: seq<Bit>)
  {
    pos + |x| <= |bits| && bits[pos..pos + |x|] == x
  }

  lemma AtSplit(bits: seq<Bit>, pos: nat, x: seq<Bit>, y: seq<Bit>)
    requires At(bits, pos, x + y)
    ensures At(bits, pos, x) && At(bits, pos + |x|, y)
  {
    assert bits[pos..pos + |x|] == bits[pos..pos + |x + y|][..|x|];
    assert bits[pos + |x|..pos + |x| + |y|] == bits[pos..pos + |x + y|][|x|..];
  }

  /** The fields of a length code one level at a time: a field, then the fields of the next level when it is all ones. */
  lemma LengthFieldsStep(rest: nat, level: nat)
    ensures FieldBits(LengthFields(rest, level)) ==
      if rest < FieldMax(level) then NatToBits(rest, LengthFieldWidth(level))
      else NatToBits(FieldMax(level), LengthFieldWidth(level)) + FieldBits(LengthFields(rest - FieldMax(level), level + 1))
  {
    var fs := LengthFields(rest, level);
    if rest >= FieldMax(level) {
      assert fs[1..] == LengthFields(rest - FieldMax(level), level + 1);
    }
  }

  /** One step of the length decoder: a field of the level's width that is not all ones ends the code. */
  lemma ParseLengthStep(bits: seq<Bit>, pos: nat, level: nat, acc: nat, v: nat)
    requires pos + LengthFieldWidth(level) <= |bits| && Value(bits[pos..pos + LengthFieldWidth(level)]) == v
    ensures ParseLength(bits, pos, level, acc) ==
      if v != FieldMax(level) then Ok((acc + v, pos + LengthFieldWidth(level)))
      else ParseLength(bits, pos + LengthFieldWidth(level), level + 1, acc + v)
  {
  }

  /** The length decoder fails when the field of its level runs past the end of the bits. */
  lemma ParseLengthEof(bits: seq<Bit>, pos: nat, level: nat, acc: nat)
    requires pos <= |bits| < pos + LengthFieldWidth(level)
    ensures ParseLength(bits, pos, level, acc) == Err(UnexpectedEof)
  {
  }

  /** Decoding the fields of a length code, whatever surrounds them, gives back their sum. */
  lemma {:induction false} ParseLengthFields(bits: seq<Bit>, pos: nat, rest: nat, level: nat, acc: nat)
    requires At(bits, pos, FieldBits(LengthFields(rest, level)))
    ensures ParseLength(bits, pos, level, acc)
         == Ok((acc + rest, pos + |FieldBits(LengthFields(rest, level))|))
    decreases rest
  {
    var w := LengthFieldWidth(level);
    var m := FieldMax(level);
    if rest < m {
      ParseLengthLast(bits, pos, rest, level, acc);
    } else {
      var pos', rest', acc' := pos + w, rest - m, acc + m;
      ParseLengthMore(bits, pos, rest, level, acc, pos', rest', acc');
      ParseLengthFields(bits, pos', rest', level + 1, acc');
      assert acc' + rest' == acc + rest;
    }
  }

  /** ParseLengthFields for a remaining length at or above the level's all-ones value: the decoder goes on to the next level. */
  lemma ParseLengthMore(bits: seq<Bit>, pos: nat, rest: nat, level: nat, acc: nat, pos': nat, rest': nat, acc': nat)
    requires rest >= FieldMax(level) && At(bits, pos, FieldBits(LengthFields(rest, level)))
    requires pos' == pos + LengthFieldWidth(level) && rest' == rest - FieldMax(level) && acc' == acc + FieldMax(level)
    ensures pos' <= |bits| && At(bits, pos', FieldBits(LengthFields(rest', level + 1)))
    ensures pos' + |FieldBits(LengthFields(rest', level + 1))| == pos + |FieldBits(LengthFields(rest, level))|
    ensures ParseLength(bits, pos, level, acc) == ParseLength(bits, pos', level + 1, acc')
  {
    var w := LengthFieldWidth(level);
    var m := FieldMax(level);
    var more := FieldBits(LengthFields(rest', level + 1));
    assert FieldBits(LengthFields(rest, level)) == NatToBits(m, w) + more by {
      LengthFieldsStep(rest, level);
    }
    assert pos + w <= |bits| && At(bits, pos', more) && Value(bits[pos..pos + w]) == m by {
      AtSplit(bits, pos, NatToBits(m, w), more);
      FieldRoundTrip(m, w);
    }
    ParseLengthStep(bits, pos, level, acc, m);
  }

  /** ParseLengthFields for a remaining length below the level's all-ones value: one field ends the code. */
  lemma ParseLengthLast(bits: seq<Bit>, pos: nat, rest: nat, level: nat, acc: nat)
    requires rest < FieldMax(level) && At(bits, pos, FieldBits(LengthFields(rest, level)))
    ensures ParseLength(bits, pos, level, acc)
         == Ok((acc + rest, pos + |FieldBits(LengthFields(rest, level))|))
  {
    var w := LengthFieldWidth(level);
    var code := FieldBits(LengthFields(rest, level));
    assert code == NatToBits(rest, w) by {
      LengthFieldsStep(rest, level);
    }
    assert pos + w <= |bits| && Value(bits[pos..pos + w]) == rest by {
      FieldRoundTrip(rest, w);
    }
    ParseLengthStep(bits, pos, level, acc, rest);
  }

  /** Decoding the length code of len, whatever surrounds it, gives back len. */
  lemma LengthCodeRoundTrip(bits: seq<Bit>, pos: nat, len: nat)
    requires len >= 3 && At(bits, pos, LengthBits(len))
    ensures ParseLength(bits, pos, 0, 3) == Ok((len, pos + |LengthBits(len)|))
  {
    ParseLengthFields(bits, pos, len - 3, 0, 3);
  }

  /** Every well-formed operation, whatever surrounds it, parses back from its bits. */
  lemma TokenRoundTrip(bits: seq<Bit>, pos: nat, t: Token)
    requires WellFormed(t) && At(bits, pos, TokenBits(t))
    ensures ParseToken(bits, pos) == Ok((t, pos + |TokenBits(t)|))
  {
    var tb := TokenBits(t);
    assert bits[pos] == tb[0];
    match t
    case Literal(b) =>
      AtSplit(bits, pos, [0], NatToBits(b, 8));
      assert Value(NatToBits(b, 8)) == b by {
        Pow2Widths();
        FieldRoundTrip(b, 8);
      }
    case Backref(d, l) =>
      AtSplit(bits, pos, [1] + NatToBits(d, 13), LengthBits(l));
      AtSplit(bits, pos, [1], NatToBits(d, 13));
      assert Value(NatToBits(d, 13)) == d by {
        Pow2Of13();
        FieldRoundTrip(d, 13);
      }
      LengthCodeRoundTrip(bits, pos + 14, l);
  }

  // ---------------------------------------------------------------------------
  // Properties of the overlapping copy

  /**
   * The copy succeeds exactly when both ends stay in the buffer; afterwards
   * every destination byte equals the byte distance + 3 above it in the FINAL
   * buffer (so a run can feed itself), and nothing outside the destination
   * range changed.
   */
  lemma {:induction false} CopyBackEffect(out: seq<byte>, dst: int, src: int, count: nat)
    requires src > dst
    ensures CopyBack(out, dst, src, count).Ok? <==> count == 0 || (dst - count + 1 >= 0 && src < |out|)
    ensures var r := CopyBack(out, dst, src, count);
      r.Ok? ==>
        && (forall j :: dst - count < j <= dst ==> r.value[j] == r.value[j + (src - dst)])
        && (forall j :: 0 <= j < |out| && !(dst - count < j <= dst) ==> r.value[j] == out[j])
    decreases count
  {
    if count > 0 && 0 <= dst < |out| && 0 <= src < |out| {
      var out' := out[dst := out[src]];
      CopyBackEffect(out', dst - 1, src - 1, count - 1);
    }
  }

  /** One operation writes only at and below its destination |out| - 1 - produced. */
  lemma ApplyTokenFrame(out: seq<byte>, produced: nat, t: Token)
    requires WellFormed(t)
    ensures var r := ApplyToken(out, produced, t);
      r.Ok? ==> forall j :: 0 <= j < |out| - r.value.1 ==> r.value.0[j] == out[j]
  {
    if t.Backref? {
      var dst := |out| - 1 - produced;
      CopyBackEffect(out, dst, dst + t.distance + 3, t.len);
    }
  }

  /**
   * The decoder fills the buffer from its end: once it stops with p bytes
   * produced, the first |out| - p bytes are still those it started with.
   */
  lemma {:induction false} DecodeFromFrame(bits: seq<Bit>, k: nat, out: seq<byte>, produced: nat, n: nat)
    requires k <= |bits|
    ensures var r := DecodeFrom(bits, k, out, produced, n);
      r.Ok? ==> forall j :: 0 <= j < |out| - r.value.1 ==> r.value.0[j] == out[j]
    decreases n - produced
  {
    if produced < n {
      var t := ParseToken(bits, k);
      if t.Ok? {
        var o := ApplyToken(out, produced, t.value.0);
        if o.Ok? {
          ApplyTokenFrame(out, produced, t.value.0);
          DecodeFromFrame(bits, t.value.1, o.value.0, o.value.1, n);
        }
      }
    }
  }
}
