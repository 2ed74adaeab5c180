/**
 * What compress writes, uncompress reads back: the container's signature and
 * sizes pass the decoder's checks, the decoder meets the encoder's operations
 * in the order they were written, and the buffer it fills is the original
 * head followed by the original body.
 */
module CrilaylaRoundTrip {
  import opened Arith
  import opened Util
  import opened Bits
  import opened CrilaylaFormat
  import opened CpkUncompress
  import opened CpkCompress

  // ---------------------------------------------------------------------------
  // The decoder on the encoder's operations

  /**
   * The decoder's buffer once every byte above position p of the body is out:
   * the verbatim head, zeros not yet written, then input[p + 1..].
   */
  function Partial(head: seq<byte>, input: seq<byte>, p: int): (b: seq<byte>)
    requires -1 <= p < |input|
    ensures |b| == |head| + |input|
  {
    head + ZeroBytes(p + 1) + input[p + 1..]
  }

  /** The buffer byte by byte: head, then zeros up to head + p, then the body. */
  lemma PartialAt(head: seq<byte>, input: seq<byte>, p: int)
    requires -1 <= p < |input|
    ensures var b := Partial(head, input, p);
      forall j :: 0 <= j < |b| ==>
        b[j] == if j < |head| then head[j] else if j <= |head| + p then 0 else input[j - |head|]
  {
  }

  /** Before the first operation the buffer holds the head and zeros. */
  lemma PartialStart(head: seq<byte>, input: seq<byte>)
    ensures Partial(head, input, |input| - 1) == head + ZeroBytes(|input|)
  {
    assert input[|input|..] == [];
  }

  /**
   * An overlapping copy reproduces a target: when every copied byte equals the
   * byte delta above it, the bytes above the copy already match the target,
   * and the target repeats itself at distance delta over the copied range,
   * then every copied byte matches the target. Shown from the top of the range down.
   */
  lemma {:induction false} CopyFeeds(r: seq<byte>, t: seq<byte>, lo: int, hi: int, delta: nat, j: int)
    requires |r| == |t| && delta > 0 && -1 <= lo < j <= hi && hi + delta < |r|
    requires forall i :: lo < i <= hi ==> r[i] == r[i + delta]
    requires forall i :: hi < i < |r| ==> r[i] == t[i]
    requires forall i :: lo < i <= hi ==> t[i] == t[i + delta]
    ensures r[j] == t[j]
    decreases hi - j
  {
    assert r[j] == r[j + delta] && t[j] == t[j + delta];
    if j + delta <= hi {
      CopyFeeds(r, t, lo, hi, delta, j + delta);
    } else {
      assert r[j + delta] == t[j + delta];
    }
  }

  /** A verbatim byte at position p lands at head + p and moves the buffer one position down. */
  lemma LiteralStep(head: seq<byte>, input: seq<byte>, p: nat, produced: nat)
    requires p < |input| && produced + p + 1 == |input|
    ensures ApplyToken(Partial(head, input, p), produced, Literal(input[p]))
      == Ok((Partial(head, input, p - 1), produced + 1))
  {
    var out := Partial(head, input, p);
    PartialAt(head, input, p);
    PartialAt(head, input, p - 1);
    assert out[|head| + p := input[p]] == Partial(head, input, p - 1);
  }

  /**
   * A backreference for a match found by the encoder (the len bytes ending at
   * p equal the len bytes ending at p + d + 3) fills exactly positions
   * p - len + 1 through p with the body's own bytes.
   */
  lemma BackrefStep(head: seq<byte>, input: seq<byte>, p: nat, produced: nat, d: nat, len: nat)
    requires d < WINDOW && 3 <= len <= p && p + d + 3 < |input| && produced + p + 1 == |input|
    requires input[p + 1 - len..p + 1] == input[p + d + 4 - len..p + d + 4]
    ensures ApplyToken(Partial(head, input, p), produced, Backref(d, len))
      == Ok((Partial(head, input, p - len), produced + len))
  {
    var out := Partial(head, input, p);
    PartialAt(head, input, p);
    PartialAt(head, input, p - len);
    var dst := |head| + p;
    var delta := d + 3;
    CopyBackEffect(out, dst, dst + delta, len);
    var r := CopyBack(out, dst, dst + delta, len).value;
    var t := head + input;
    forall i | dst - len < i <= dst
      ensures t[i] == t[i + delta]
    {
      var q := i - |head| - (p + 1 - len);
      assert input[p + 1 - len..p + 1][q] == input[p + d + 4 - len..p + d + 4][q];
    }
    forall i | dst < i < |r|
      ensures r[i] == t[i]
    {
      assert r[i] == out[i];
    }
    forall j | 0 <= j < |r|
      ensures r[j] == Partial(head, input, p - len)[j]
    {
      if dst - len < j <= dst {
        CopyFeeds(r, t, dst - len, dst, delta, j);
      } else {
        assert r[j] == out[j];
      }
    }
    assert r == Partial(head, input, p - len);
  }

  /** The backreference the encoder emits at p, when the longest match is 3 bytes or more, fills its bytes. */
  lemma LongestStep(head: seq<byte>, input: seq<byte>, p: nat, produced: nat, d: nat, len: nat, q: int, produced': nat)
    requires p < |input| && produced + p + 1 == |input| && (d, len) == Longest(input, p) && len >= 3
    requires q == p - len && produced' == produced + len
    ensures ApplyToken(Partial(head, input, p), produced, Backref(d, len)) == Ok((Partial(head, input, q), produced'))
  {
    LongestMatches(input, p);
    BackrefStep(head, input, p, produced, d, len);
  }

  /**
   * The decoder reads back an operation from its bits and applies it; what it
   * produces from there is what it produces from the state that operation leaves.
   */
  lemma DecodeOne(bits: seq<Bit>, k: nat, out: seq<byte>, produced: nat, n: nat, t: Token,
                  k': nat, out': seq<byte>, produced': nat, final: Result<(seq<byte>, nat)>)
    requires k <= |bits| && produced < n && WellFormed(t) && At(bits, k, TokenBits(t)) && k' == k + |TokenBits(t)|
    requires ApplyToken(out, produced, t) == Ok((out', produced'))
    requires DecodeFrom(bits, k', out', produced', n) == final
    ensures DecodeFrom(bits, k, out, produced, n) == final
  {
    TokenRoundTrip(bits, k, t);
    DecodeStep(bits, k, out, produced, n);
  }

  /**
   * The decoder, started on the bits of the encoder's operations for positions
   * p down to 0 with the buffer above p already filled, stops after exactly
   * |input| bytes with the head followed by the whole body.
   */
  lemma {:induction false} DecodeTokens(bits: seq<Bit>, k: nat, head: seq<byte>, input: seq<byte>, p: int, produced: nat)
    requires -1 <= p < |input| && k <= |bits| && produced + p + 1 == |input|
    requires At(bits, k, TokensBits(Tokens(input, p)))
    ensures DecodeFrom(bits, k, Partial(head, input, p), produced, |input|) == Ok((head + input, |input|))
    decreases p + 1, 1
  {
    if p < 0 {
      assert Partial(head, input, p) == head + input by {
        PartialAt(head, input, p);
      }
    } else if Longest(input, p).1 >= 3 {
      DecodeBackref(bits, k, head, input, p, produced);
    } else {
      DecodeLiteral(bits, k, head, input, p, produced);
    }
  }

  /** DecodeTokens when the encoder emitted a backreference at p. */
  lemma {:induction false} DecodeBackref(bits: seq<Bit>, k: nat, head: seq<byte>, input: seq<byte>, p: nat, produced: nat)
    requires p < |input| && k <= |bits| && produced + p + 1 == |input| && Longest(input, p).1 >= 3
    requires At(bits, k, TokensBits(Tokens(input, p)))
    ensures DecodeFrom(bits, k, Partial(head, input, p), produced, |input|) == Ok((head + input, |input|))
    decreases p + 1, 0
  {
    var d, len := Longest(input, p).0, Longest(input, p).1;
    var t := Backref(d, len);
    var q, produced' := p - len, produced + len;
    var k' := k + |TokenBits(t)|;
    BackrefBits(bits, k, input, p, d, len, q, k');
    DecodeTokens(bits, k', head, input, q, produced');
    LongestStep(head, input, p, produced, d, len, q, produced');
    DecodeOne(bits, k, Partial(head, input, p), produced, |input|, t, k', Partial(head, input, q), produced',
              Ok((head + input, |input|)));
  }

  /** The bits at k open with the backreference the encoder emits at p, and the bits of the rest follow it. */
  lemma BackrefBits(bits: seq<Bit>, k: nat, input: seq<byte>, p: nat, d: nat, len: nat, q: int, k': nat)
    requires p < |input| && (d, len) == Longest(input, p) && len >= 3 && q == p - len
    requires At(bits, k, TokensBits(Tokens(input, p))) && k' == k + |TokenBits(Backref(d, len))|
    ensures At(bits, k, TokenBits(Backref(d, len))) && At(bits, k', TokensBits(Tokens(input, q)))
  {
    TokensStep(input, p);
    AtSplit(bits, k, TokenBits(Backref(d, len)), TokensBits(Tokens(input, q)));
  }

  /** DecodeTokens when the encoder emitted a verbatim byte at p. */
  lemma {:induction false} DecodeLiteral(bits: seq<Bit>, k: nat, head: seq<byte>, input: seq<byte>, p: nat, produced: nat)
    requires p < |input| && k <= |bits| && produced + p + 1 == |input| && Longest(input, p).1 < 3
    requires At(bits, k, TokensBits(Tokens(input, p)))
    ensures DecodeFrom(bits, k, Partial(head, input, p), produced, |input|) == Ok((head + input, |input|))
    decreases p + 1, 0
  {
    var t := Literal(input[p]);
    var rest := TokensBits(Tokens(input, p - 1));
    assert At(bits, k, TokenBits(t)) && At(bits, k + |TokenBits(t)|, rest) by {
      TokensStep(input, p);
      AtSplit(bits, k, TokenBits(t), rest);
    }
    var k', out', produced' := k + |TokenBits(t)|, Partial(head, input, p - 1), produced + 1;
    LiteralStep(head, input, p, produced);
    DecodeTokens(bits, k', head, input, p - 1, produced');
    DecodeOne(bits, k, Partial(head, input, p), produced, |input|, t, k', out', produced', Ok((head + input, |input|)));
  }

  // ---------------------------------------------------------------------------
  // The bits the decoder reads

  /**
   * When the bytes from start down hold ms in order, the stream from start
   * opens with the bits of ms.
   */
  lemma {:induction false} StreamBitsFrom(s: seq<byte>, start: int, ms: seq<byte>)
    requires -1 <= start < |s| && |ms| <= start + 1
    requires forall i :: 0 <= i < |ms| ==> s[start - i] == ms[i]
    ensures StreamBits(s, start)[..8 * |ms|] == Unpack(ms)
    decreases |ms|
  {
    if |ms| > 0 {
      StreamBitsFrom(s, start - 1, ms[1..]);
      assert StreamBits(s, start)[..8 * |ms|] == NatToBits(s[start], 8) + StreamBits(s, start - 1)[..8 * (|ms| - 1)];
    }
  }

  /** The finalized buffer, read back as bits, opens with the bits that were pushed. */
  lemma FinalizedStarts(tb: seq<Bit>)
    ensures |tb| <= |Unpack(Finalized(tb))| && Unpack(Finalized(tb))[..|tb|] == tb
  {
    var padded := tb + Zeros(PadBits(|tb|));
    var packed := Pack(padded);
    UnpackAppend(packed, ZeroBytes(PadBytes(|packed|)));
    UnpackPack(padded);
  }

  // ---------------------------------------------------------------------------
  // The header

  /** A size written low byte first reads back little-endian as its low 32 bits, so one below 2^32 as itself. */
  lemma LeBytes4RoundTrip(v: nat)
    ensures LeValue(LeBytes4(v)) == v % 0x1_0000_0000
    ensures v < 0x1_0000_0000 ==> LeValue(LeBytes4(v)) == v
  {
    var b := LeBytes4(v);
    LeValueOfFour(b);
    var q1, q2, q3, q4 := v / 0x100, v / 0x1_0000, v / 0x100_0000, v / 0x1_0000_0000;
    DivDiv(v, 0x100, 0x100);
    DivDiv(v, 0x1_0000, 0x100);
    DivDiv(v, 0x100_0000, 0x100);
    assert q1 / 0x100 == q2 && q2 / 0x100 == q3 && q3 / 0x100 == q4;
    assert v == 0x100 * q1 + b[0];
    assert q1 == 0x100 * q2 + b[1];
    assert q2 == 0x100 * q3 + b[2];
    assert q3 == 0x100 * q4 + b[3];
    DivModUnique(v, 0x1_0000_0000, q4, LeValue(b));
  }

  /** The eight bytes written most significant first read back big-endian as the low 64 bits of v. */
  lemma BeBytes8Value(v: nat)
    ensures BeValue(BeBytes8(v)) == v % 0x1_0000_0000_0000_0000
  {
    var b := BeBytes8(v);
    BeValueOfEight(b);
    BytesOfEight(v);
    DivModUnique(v, 0x1_0000_0000_0000_0000, v / 0x1_0000_0000_0000_0000, BeValue(b));
  }

  /** Eight bytes read big-endian, written out. */
  lemma BeValueOfEight(b: seq<byte>)
    requires |b| == 8
    ensures BeValue(b) == 0x100_0000 * (0x100_0000 * (0x100 * (b[0] as int) + b[1]) + 0x1_0000 * (b[2] as int) + 0x100 * (b[3] as int) + b[4])
                          + 0x1_0000 * (b[5] as int) + 0x100 * (b[6] as int) + b[7]
  {
    forall k | 1 <= k <= 8
      ensures BeValue(b[..k]) == BeValue(b[..k - 1]) * 256 + b[k - 1]
    {
      assert b[..k][..k - 1] == b[..k - 1];
    }
    assert b[..0] == [];
    assert b[..8] == b;
  }

  /** v is its eight low bytes, as BeBytes8 writes them, below what lies above 2^64. */
  lemma BytesOfEight(v: nat)
    ensures var b := BeBytes8(v);
      v == 0x1_0000_0000_0000_0000 * (v / 0x1_0000_0000_0000_0000) +
           0x100_0000 * (0x100_0000 * (0x100 * (b[0] as int) + b[1]) + 0x1_0000 * (b[2] as int) + 0x100 * (b[3] as int) + b[4])
           + 0x1_0000 * (b[5] as int) + 0x100 * (b[6] as int) + b[7]
  {
    var q1, q2, q3, q4 := v / 0x100, v / 0x1_0000, v / 0x100_0000, v / 0x1_0000_0000;
    var q5, q6, q7, q8 := v / 0x100_0000_0000, v / 0x1_0000_0000_0000, v / 0x100_0000_0000_0000,
                          v / 0x1_0000_0000_0000_0000;
    DivDiv(v, 0x100, 0x100);
    DivDiv(v, 0x1_0000, 0x100);
    DivDiv(v, 0x100_0000, 0x100);
    DivDiv(v, 0x1_0000_0000, 0x100);
    DivDiv(v, 0x100_0000_0000, 0x100);
    DivDiv(v, 0x1_0000_0000_0000, 0x100);
    DivDiv(v, 0x100_0000_0000_0000, 0x100);
    assert v == 0x100 * q1 + v % 0x100;
    assert q1 == 0x100 * q2 + q1 % 0x100;
    assert q2 == 0x100 * q3 + q2 % 0x100;
    assert q3 == 0x100 * q4 + q3 % 0x100;
    assert q4 == 0x100 * q5 + q4 % 0x100;
    assert q5 == 0x100 * q6 + q5 % 0x100;
    assert q6 == 0x100 * q7 + q6 % 0x100;
    assert q7 == 0x100 * q8 + q7 % 0x100;
  }

  /** CRILAYLA_sig written most significant byte first is the magic as it stands in the file. */
  lemma SignatureBytes()
    ensures BeBytes8(CRILAYLA_SIG) == CRILAYLA_BYTES
  {
    var v := CRILAYLA_SIG;
    DivModUnique(v, 0x100_0000_0000_0000, 0x43, 0x52_494C_4159_4C41);
    DivModUnique(v, 0x1_0000_0000_0000, 0x4352, 0x494C_4159_4C41);
    DivModUnique(v, 0x100_0000_0000, 0x43_5249, 0x4C_4159_4C41);
    DivModUnique(v, 0x1_0000_0000, 0x4352_494C, 0x4159_4C41);
    DivModUnique(v, 0x100_0000, 0x43_5249_4C41, 0x59_4C41);
    DivModUnique(v, 0x1_0000, 0x4352_494C_4159, 0x4C41);
    DivModUnique(v, 0x100, 0x43_5249_4C41_594C, 0x41);
    DivModUnique(0x4352, 0x100, 0x43, 0x52);
    DivModUnique(0x43_5249, 0x100, 0x4352, 0x49);
    DivModUnique(0x4352_494C, 0x100, 0x43_5249, 0x4C);
    DivModUnique(0x43_5249_4C41, 0x100, 0x4352_494C, 0x41);
    DivModUnique(0x4352_494C_4159, 0x100, 0x43_5249_4C41, 0x59);
    DivModUnique(0x43_5249_4C41_594C, 0x100, 0x4352_494C_4159, 0x4C);
  }

  /**
   * The header compress writes passes the checks of uncompress: the magic,
   * the body size, and a bitstream size that puts the head exactly at the end.
   */
  lemma ContainerLayout(head: seq<byte>, input: seq<byte>, ms: seq<byte>, h: int)
    requires |head| == HEADER_SIZE && |input| < 0x1_0000_0000 && |ms| < 0x1_0000_0000 && h == 0x10 + |ms|
    ensures var out := Container(head, input, ms);
      BlockLayout(out, 0, |out|) == Ok((|input|, h))
  {
    var out := Container(head, input, ms);
    assert out[..8] == BeBytes8(CRILAYLA_SIG) == CRILAYLA_BYTES by {
      SignatureBytes();
    }
    SignatureOkMeaning(out, 0);
    assert out[8..12] == LeBytes4(|input|) && out[12..16] == LeBytes4(|ms|);
    LeBytes4RoundTrip(|input|);
    LeBytes4RoundTrip(|ms|);
    BlockLayoutMeaning(out, 0, |out|);
  }

  /** The head is read back from just after the bitstream. */
  lemma ContainerHead(head: seq<byte>, input: seq<byte>, ms: seq<byte>, h: int)
    requires |head| == HEADER_SIZE && h == 0x10 + |ms|
    ensures ReadBytes(Container(head, input, ms), h, HEADER_SIZE) == Ok(head)
  {
    var out := Container(head, input, ms);
    ContainerShape(head, input, ms);
    assert |out| - HEADER_SIZE == h;
    assert out[h..h + HEADER_SIZE] == head;
  }

  /**
   * What uncompress returns once the layout is accepted, the head is read and
   * the decoder has filled the buffer.
   */
  lemma UncompressOk(s: seq<byte>, n: nat, h: int, header: seq<byte>, result: seq<byte>)
    requires BlockLayout(s, 0, |s|) == Ok((n, h)) && ReadBytes(s, h, HEADER_SIZE) == Ok(header)
    requires DecodeFrom(StreamBits(s, h - 1), 0, header + ZeroBytes(n), 0, n) == Ok((result, n))
    ensures UncompressSpec(s, 0, |s|) == Ok(Emitted(result, HEADER_SIZE + n))
  {
    UncompressAfterLayout(s, n, h);
    DecodeBlockOk(s, n, h, header, result);
  }

  /** Once the layout is accepted, uncompress goes on to read the head at the offset it gave. */
  lemma UncompressAfterLayout(s: seq<byte>, n: nat, h: int)
    requires BlockLayout(s, 0, |s|) == Ok((n, h))
    ensures UncompressSpec(s, 0, |s|) == DecodeBlock(s, n, h)
  {
    var layout := BlockLayout(s, 0, |s|);
    assert !layout.IsFailure() && layout.Extract() == (n, h);
  }

  lemma DecodeBlockOk(s: seq<byte>, n: nat, h: int, header: seq<byte>, result: seq<byte>)
    requires ReadBytes(s, h, HEADER_SIZE) == Ok(header)
    requires DecodeFrom(StreamBits(s, h - 1), 0, header + ZeroBytes(n), 0, n) == Ok((result, n))
    ensures DecodeBlock(s, n, h) == Ok(Emitted(result, HEADER_SIZE + n))
  {
    var hd := ReadBytes(s, h, HEADER_SIZE);
    assert !hd.IsFailure() && hd.Extract() == header;
  }

  // ---------------------------------------------------------------------------
  // Sizes

  /** A length code takes at most 8 bits plus 3 per unit of length. */
  lemma {:induction false} FieldBitsBound(rest: nat, level: nat)
    ensures |FieldBits(LengthFields(rest, level))| <= 8 + 3 * rest
    decreases rest
  {
    LengthFieldsStep(rest, level);
    if rest >= FieldMax(level) {
      FieldBitsBound(rest - FieldMax(level), level + 1);
    }
  }

  /** The encoder spends at most 9 bits per byte of the body. */
  lemma {:induction false} TokensBitsBound(input: seq<byte>, p: int)
    requires -1 <= p < |input|
    ensures |TokensBits(Tokens(input, p))| <= 9 * (p + 1)
    decreases p + 1
  {
    if p >= 0 {
      var d, len := Longest(input, p).0, Longest(input, p).1;
      if len >= 3 {
        TokensBitsBackref(input, p, d, len);
        TokensBitsBound(input, p - len);
      } else {
        TokensBitsLiteral(input, p, d, len);
        TokensBitsBound(input, p - 1);
      }
    }
  }

  /** A backreference compress emits at p takes at most nine bits per byte it covers. */
  lemma TokensBitsBackref(input: seq<byte>, p: nat, d: nat, len: nat)
    requires p < |input| && (d, len) == Longest(input, p) && len >= 3
    ensures |TokensBits(Tokens(input, p))| <= 9 * len + |TokensBits(Tokens(input, p - len))|
  {
    var first, tail := TokenBits(Backref(d, len)), TokensBits(Tokens(input, p - len));
    assert TokensBits(Tokens(input, p)) == first + tail by {
      TokensStep(input, p);
    }
    BackrefBitsSize(d, len);
  }

  /** A backreference of length len is written in at most 9 * len bits. */
  lemma BackrefBitsSize(d: nat, len: nat)
    requires d < WINDOW && len >= 3
    ensures |TokenBits(Backref(d, len))| <= 9 * len
  {
    assert |TokenBits(Backref(d, len))| == 14 + |LengthBits(len)|;
    FieldBitsBound(len - 3, 0);
  }

  /** A literal compress emits at p takes nine bits. */
  lemma TokensBitsLiteral(input: seq<byte>, p: nat, d: nat, len: nat)
    requires p < |input| && (d, len) == Longest(input, p) && len < 3
    ensures |TokensBits(Tokens(input, p))| == 9 + |TokensBits(Tokens(input, p - 1))|
  {
    TokensStep(input, p);
    assert |TokenBits(Literal(input[p]))| == 9;
  }

  /** The finalized buffer is a whole number of 32-bit words, the bits rounded up to bytes plus at most three bytes. */
  lemma FinalizedSize(tb: seq<Bit>)
    ensures |Finalized(tb)| % 4 == 0 && 8 * |Finalized(tb)| <= |tb| + 31
  {
  }

  // ---------------------------------------------------------------------------
  // compress, then uncompress

  /**
   * compress fails exactly when the input is 0x100 bytes or fewer or does not
   * lie inside the buffer; otherwise it packs the first 0x100 bytes as the head
   * and the rest as the body.
   */
  lemma CompressSpecOk(s: seq<byte>, offset: int, length: int)
    ensures CompressSpec(s, offset, length).Ok? <==> length > 0x100 && 0 <= offset && offset + length <= |s|
    ensures CompressSpec(s, offset, length).Ok? ==>
      CompressSpec(s, offset, length).value == Packed(s[offset..offset + 0x100], s[offset + 0x100..offset + length])
  {
    if length > 0x100 && 0 <= offset && offset + length <= |s| {
      assert ReadBytes(s, offset, 0x100) == Ok(s[offset..offset + 0x100]);
      assert ReadBytes(s, offset + 0x100, length - 0x100) == Ok(s[offset + 0x100..offset + length]);
    }
  }

  /**
   * A packed container is a whole number of 32-bit words that opens with the
   * magic and ends with the head, and the value returned with it is its length.
   */
  lemma PackedShape(head: seq<byte>, input: seq<byte>)
    requires |head| == HEADER_SIZE
    ensures var (out, written) := Packed(head, input);
      written == |out| && |out| % 4 == 0 && out[..8] == CRILAYLA_BYTES && out[|out| - HEADER_SIZE..] == head
  {
    var ms := CompressedBody(input);
    FinalizedSize(TokensBits(Tokens(input, |input| - 1)));
    ContainerShape(head, input, ms);
    var q := |ms| / 4;
    DivModUnique(|ms|, 4, q, 0);
    DivModUnique(0x110 + |ms|, 4, q + 0x44, 0);
  }

  /** A container opens with the magic and ends with the head, and its size is the head's and body's plus 0x10. */
  lemma ContainerShape(head: seq<byte>, input: seq<byte>, ms: seq<byte>)
    requires |head| == HEADER_SIZE
    ensures var out := Container(head, input, ms);
      |out| == 0x110 + |ms| && out[..8] == CRILAYLA_BYTES && out[|out| - HEADER_SIZE..] == head
  {
    SignatureBytes();
    var hd := Header(|input|, |ms|);
    var out := Container(head, input, ms);
    assert out == hd + (Reversed(ms) + head);
    assert out[..8] == hd[..8];
    assert out[|out| - HEADER_SIZE..] == head;
  }

  /**
   * compress succeeds exactly when the input holds more than 0x100 bytes at
   * offset; its result is a container of whole 32-bit words that opens with
   * the magic and ends with the first 0x100 bytes of the input, and the value
   * it returns is the container's length.
   */
  lemma CompressShape(s: seq<byte>, offset: int, length: int)
    ensures var r := CompressSpec(s, offset, length);
      && (r.Ok? <==> length > 0x100 && 0 <= offset && offset + length <= |s|)
      && (r.Ok? ==>
        var out := r.value.0;
        && r.value.1 == |out| && |out| % 4 == 0
        && out[..8] == CRILAYLA_BYTES
        && out[|out| - 0x100..] == s[offset..offset + 0x100])
  {
    CompressSpecOk(s, offset, length);
    if length > 0x100 && 0 <= offset && offset + length <= |s| {
      PackedShape(s[offset..offset + 0x100], s[offset + 0x100..offset + length]);
    }
  }

  /** The stream the decoder reads, from the byte before the head down, opens with the encoder's bits. */
  lemma ContainerStream(head: seq<byte>, input: seq<byte>, tb: seq<Bit>, ms: seq<byte>, h: nat)
    requires |ms| < 0x1_0000_0000 && ms == Finalized(tb) && h == 0x10 + |ms|
    ensures At(StreamBits(Container(head, input, ms), h - 1), 0, tb)
  {
    var out := Container(head, input, ms);
    var bits := StreamBits(out, h - 1);
    forall i | 0 <= i < |ms|
      ensures out[h - 1 - i] == ms[i]
    {
      ReversedAt(ms, |ms| - 1 - i);
    }
    StreamBitsFrom(out, h - 1, ms);
    FinalizedStarts(tb);
    assert bits[..|tb|] == bits[..8 * |ms|][..|tb|];
  }

  /**
   * uncompress of a whole packed container gives back the head followed by
   * the body, and returns their length.
   */
  lemma PackedRoundTrip(head: seq<byte>, input: seq<byte>)
    requires |head| == HEADER_SIZE && |input| < 0x8000_0000
    ensures var out := Packed(head, input).0;
      UncompressSpec(out, 0, |out|) == Ok(Emitted(head + input, HEADER_SIZE + |input|))
  {
    var tb := TokensBits(Tokens(input, |input| - 1));
    var ms := CompressedBody(input);
    var out := Container(head, input, ms);
    assert |ms| < 0x1_0000_0000 by {
      TokensBitsBound(input, |input| - 1);
      FinalizedSize(tb);
    }
    var h := 0x10 + |ms|;
    ContainerLayout(head, input, ms, h);
    ContainerHead(head, input, ms, h);
    ContainerStream(head, input, tb, ms, h);
    var bits := StreamBits(out, h - 1);
    PartialStart(head, input);
    DecodeTokens(bits, 0, head, input, |input| - 1, 0);
    UncompressOk(out, |input|, h, head, head + input);
  }

  /**
   * The round trip: for an input length that fits a C# int, uncompress of the
   * whole container compress wrote gives back the length bytes at offset, and
   * returns their count.
   */
  lemma CompressRoundTrip(s: seq<byte>, offset: int, length: int)
    requires length < 0x8000_0000 && CompressSpec(s, offset, length).Ok?
    ensures var out := CompressSpec(s, offset, length).value.0;
      UncompressSpec(out, 0, |out|) == Ok(Emitted(s[offset..offset + length], length))
  {
    CompressSpecOk(s, offset, length);
    var head, input := s[offset..offset + 0x100], s[offset + 0x100..offset + length];
    PackedRoundTrip(head, input);
    SliceSplit(s, offset, offset + 0x100, offset + length, head, input);
    SameEmitted(CompressSpec(s, offset, length).value.0, Packed(head, input).0,
      head + input, s[offset..offset + length], HEADER_SIZE + |input|, length);
  }

  lemma SameEmitted(a: seq<byte>, b: seq<byte>, x: seq<byte>, y: seq<byte>, n: nat, m: nat)
    requires a == b && UncompressSpec(b, 0, |b|) == Ok(Emitted(x, n)) && x == y && n == m
    ensures UncompressSpec(a, 0, |a|) == Ok(Emitted(y, m))
  {
  }

  lemma SliceSplit(s: seq<byte>, a: int, b: int, c: int, x: seq<byte>, y: seq<byte>)
    requires 0 <= a <= b <= c <= |s| && x == s[a..b] && y == s[b..c]
    ensures x + y == s[a..c] && |x| + |y| == c - a
  {
  }
}
