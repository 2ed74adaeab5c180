/**
 * Byte-order helpers shared by the CRILAYLA codec and the @UTF table parser:
 * little- and big-endian integer assembly, the null-aware byte array comparison,
 * and positioned reads over an immutable byte sequence (the model of a seekable
 * Stream).
 */
module Util {
  import opened Arith

  type byte = b: int | 0 <= b < 256

  datatype Option<+T> = None | Some(value: T)

  /** Each kind of exception the core can raise; a failing call returns one of these. */
  datatype Error =
    | UnexpectedEof        // a read ran past the end of the stream, or seeked before its start
    | BadSignature         // neither eight zero bytes nor "CRILAYLA" in front of compressed data
    | SizeMismatch         // the stated compressed size does not match the entry size
    | IndexOutOfRange      // a backreference touched a position outside the output buffer
    | InputTooSmall        // the encoder was given 0x100 bytes or fewer
    | UnknownConstantType  // a constant column whose value type has no known width
    | UnknownStorageClass  // a column whose storage class is not per-row, constant or zero
    | UnknownValueType     // a stored value whose type has no known width
    | RowWidthMismatch     // the per-row column widths do not add up to the row width
    | BadStringOffset      // a string-table offset beyond the end of the string table
    | InvalidTable         // no @UTF table where one was required
    | KeyNotFound          // the queried row and column were not found
    | TypeMismatch         // the found column is not of the type the accessor reads

  datatype Result<+T> = Ok(value: T) | Err(error: Error) {
    predicate IsFailure() { Err? }
    function PropagateFailure<U>(): Result<U>
      requires Err?
    {
      Err(error)
    }
    function Extract(): T
      requires Ok?
    {
      value
    }
  }

  /** n copies of x. */
  function Repeat<T>(x: T, n: nat): (r: seq<T>)
    ensures |r| == n && forall i :: 0 <= i < n ==> r[i] == x
  {
    seq(n, _ => x)
  }

  /** n zero bytes. */
  function ZeroBytes(n: nat): seq<byte>
  {
    Repeat(0, n)
  }

  /** Concatenation regroups: what is written so far, then what follows. */
  lemma AppendAssoc<T>(a: seq<T>, b: seq<T>, c: seq<T>)
    ensures (a + b) + c == a + (b + c)
  {
  }

  /** A slice of a slice is a slice of the whole. */
  lemma SliceOfSlice<T>(s: seq<T>, lo: int, hi: int, a: int, b: int)
    requires 0 <= lo <= hi <= |s| && 0 <= a <= b <= hi - lo
    ensures s[lo..hi][a..b] == s[lo + a..lo + b]
  {
    forall i | 0 <= i < b - a
      ensures s[lo..hi][a..b][i] == s[lo + a..lo + b][i]
    {
    }
  }

  /** A slice that lies past the first part of a concatenation is a slice of the second. */
  lemma SliceOfAppendRight<T>(x: seq<T>, y: seq<T>, i: int, j: int)
    requires |x| <= i <= j <= |x| + |y|
    ensures (x + y)[i..j] == y[i - |x|..j - |x|]
  {
    forall k | 0 <= k < j - i
      ensures (x + y)[i..j][k] == y[i - |x|..j - |x|][k]
    {
    }
  }

  function Reversed<T>(s: seq<T>): (r: seq<T>)
    ensures |r| == |s|
  {
    if |s| == 0 then [] else [s[|s| - 1]] + Reversed(s[..|s| - 1])
  }

  lemma {:induction false} ReversedAt<T>(s: seq<T>, i: nat)
    requires i < |s|
    ensures Reversed(s)[i] == s[|s| - 1 - i]
  {
    if i > 0 {
      ReversedAt(s[..|s| - 1], i - 1);
    }
  }

  /** The value of a byte sequence read with its first byte most significant. */
  function BeValue(bs: seq<byte>): nat
  {
    if |bs| == 0 then 0 else BeValue(bs[..|bs| - 1]) * 256 + bs[|bs| - 1]
  }

  /** The value of a byte sequence read with its first byte least significant. */
  function LeValue(bs: seq<byte>): nat
  {
    if |bs| == 0 then 0 else bs[0] + 256 * LeValue(bs[1..])
  }

  lemma {:induction false} BeValueBound(bs: seq<byte>)
    ensures BeValue(bs) < Pow2(8 * |bs|)
  {
    if |bs| > 0 {
      var init := bs[..|bs| - 1];
      BeValueBound(init);
      Pow2Add(8 * |init|, 8);
      assert Pow2(8) == 256;
      MulLe(BeValue(init), Pow2(8 * |init|) - 1, 256);
    }
  }

  lemma {:induction false} LeValueBound(bs: seq<byte>)
    ensures LeValue(bs) < Pow2(8 * |bs|)
  {
    if |bs| > 0 {
      var tail := bs[1..];
      LeValueBound(tail);
      Pow2Add(8, 8 * |tail|);
      assert Pow2(8) == 256;
      MulLe(LeValue(tail), Pow2(8 * |tail|) - 1, 256);
    }
  }

  /** Reading big-endian is reading the reversed bytes little-endian. */
  lemma {:induction false} BeIsReversedLe(bs: seq<byte>)
    ensures BeValue(bs) == LeValue(Reversed(bs))
  {
    if |bs| > 0 {
      var init := bs[..|bs| - 1];
      BeIsReversedLe(init);
      assert Reversed(bs)[1..] == Reversed(init);
    }
  }

  /** A little-endian value is zero exactly when every byte is zero. */
  lemma {:induction false} LeValueZero(bs: seq<byte>)
    ensures LeValue(bs) == 0 <==> forall i :: 0 <= i < |bs| ==> bs[i] == 0
  {
    if |bs| > 0 {
      LeValueZero(bs[1..]);
      assert forall i :: 1 <= i < |bs| ==> bs[i] == bs[1..][i - 1];
    }
  }

  /** Two byte strings of one length with the same big-endian value are equal. */
  lemma {:induction false} BeValueInjective(a: seq<byte>, b: seq<byte>)
    requires |a| == |b| && BeValue(a) == BeValue(b)
    ensures a == b
  {
    if |a| > 0 {
      var m := |a| - 1;
      DivModUnique(BeValue(a), 256, BeValue(a[..m]), a[m]);
      DivModUnique(BeValue(b), 256, BeValue(b[..m]), b[m]);
      BeValueInjective(a[..m], b[..m]);
      assert a == a[..m] + [a[m]] && b == b[..m] + [b[m]];
    }
  }

  /** Appending a byte shifts a big-endian value left by eight bits. */
  lemma BeValueSnoc(a: seq<byte>, x: byte)
    ensures BeValue(a + [x]) == BeValue(a) * 256 + x
  {
    assert (a + [x])[..|a|] == a;
  }

  lemma LeValueOfTwo(b: seq<byte>)
    requires |b| == 2
    ensures LeValue(b) == b[0] as int + 0x100 * (b[1] as int)
  {
    assert b[1..][1..] == [];
    assert LeValue(b[1..]) == b[1] as int + 256 * LeValue([]);
  }

  lemma LeValueOfFour(b: seq<byte>)
    requires |b| == 4
    ensures LeValue(b) == b[0] as int + 0x100 * (b[1] as int) + 0x1_0000 * (b[2] as int) + 0x100_0000 * (b[3] as int)
  {
    assert b[1..][1..] == b[2..];
    assert b[2..][1..] == b[3..];
    assert b[3..][1..] == [];
    assert LeValue(b[3..]) == b[3] as int + 256 * LeValue([]);
    assert LeValue(b[2..]) == b[2] as int + 256 * LeValue(b[3..]);
    assert LeValue(b[1..]) == b[1] as int + 256 * LeValue(b[2..]);
  }

  lemma BeValueOfTwo(b: seq<byte>)
    requires |b| == 2
    ensures BeValue(b) == 0x100 * (b[0] as int) + b[1]
  {
    assert b[..1][..0] == [];
    assert BeValue(b[..1]) == BeValue([]) * 256 + b[0];
  }

  lemma LeValueStep(bytes: seq<byte>, i: nat, n: nat)
    requires i < n <= |bytes|
    ensures LeValue(bytes[i..n]) == bytes[i] as int + 256 * LeValue(bytes[i + 1..n])
  {
    assert bytes[i..n][1..] == bytes[i + 1..n];
  }

  /** Fewer than four bytes, shifted left by eight bits, still fit a 32-bit register. */
  lemma LeShiftFits(bs: seq<byte>)
    requires |bs| <= 3
    ensures LeValue(bs) * 256 < 0x1_0000_0000
  {
    LeValueBound(bs);
    Pow2Monotone(8 * |bs|, 24);
    assert Pow2(24) * Pow2(8) == 0x1_0000_0000 by {
      Pow2Add(24, 8);
      Pow2Widths();
    }
    assert Pow2(8) == 256 by { Pow2Widths(); }
    MulLe(LeValue(bs), Pow2(24) - 1, 256);
  }

  /**
   * The shared loop of read_32_le and read_16_le over n bytes, from the last
   * down to the first, in a 32-bit register: (result << 8) | bytes[i].
   */
  method ReadLe(bytes: seq<byte>, n: nat) returns (r: nat)
    requires 1 <= n <= 4 && |bytes| >= n
    ensures r == LeValue(bytes[..n])
  {
    r := 0;
    var i := n;
    while i > 0
      invariant 0 <= i <= n
      invariant r == LeValue(bytes[i..n])
    {
      LeValueStep(bytes, i - 1, n);
      // the shift never wraps: r holds at most three bytes here
      LeShiftFits(bytes[i..n]);
      r := (r * 256) % 0x1_0000_0000 + bytes[i - 1];
      i := i - 1;
    }
    assert bytes[0..n] == bytes[..n];
  }

  /** read_32_le: the byte at index 0 is the least significant. */
  method Read32Le(bytes: seq<byte>) returns (r: nat)
    requires |bytes| >= 4
    ensures r == LeValue(bytes[..4])
    ensures r == bytes[0] as int + 0x100 * (bytes[1] as int) + 0x1_0000 * (bytes[2] as int) + 0x100_0000 * (bytes[3] as int)
  {
    r := ReadLe(bytes, 4);
    LeValueOfFour(bytes[..4]);
  }

  /** read_16_le: the byte at index 0 is the least significant. */
  method Read16Le(bytes: seq<byte>) returns (r: nat)
    requires |bytes| >= 2
    ensures r == LeValue(bytes[..2])
    ensures r == bytes[0] as int + 0x100 * (bytes[1] as int)
  {
    r := ReadLe(bytes, 2);
    LeValueOfTwo(bytes[..2]);
    // the final (ushort) cast keeps the low 16 bits, which are all of r
    r := r % 0x1_0000;
  }

  /** The values of the powers of two that size the source's integer registers. */
  lemma Pow2Widths()
    ensures Pow2(8) == 0x100 && Pow2(16) == 0x1_0000 && Pow2(32) == 0x1_0000_0000
    ensures Pow2(64) == 0x1_0000_0000_0000_0000
  {
    Pow2Of64();
  }

  lemma Pow2Of16()
    ensures Pow2(8) == 0x100 && Pow2(16) == 0x1_0000
  {
    Pow2Add(8, 8);
  }

  lemma Pow2Of32()
    ensures Pow2(8) == 0x100 && Pow2(16) == 0x1_0000 && Pow2(32) == 0x1_0000_0000
  {
    Pow2Of16();
    Pow2Add(16, 16);
  }

  lemma Pow2Of64()
    ensures Pow2(8) == 0x100 && Pow2(16) == 0x1_0000 && Pow2(32) == 0x1_0000_0000
    ensures Pow2(64) == 0x1_0000_0000_0000_0000
  {
    Pow2Of32();
    Pow2Add(32, 32);
  }

  /**
   * The shared loop of read_16_be, read_32_be and read_64_be over n bytes. The
   * register is 8 * n bits wide and (result << 8) never wraps in it, because
   * before the shift result holds fewer than 8 * (n - 1) significant bits.
   */
  method ReadBe(bytes: seq<byte>, n: nat) returns (r: nat)
    requires |bytes| >= n
    ensures r == BeValue(bytes[..n]) && r < Pow2(8 * n)
  {
    r := 0;
    var i := 0;
    while i < n
      invariant 0 <= i <= n
      invariant r == BeValue(bytes[..i])
    {
      assert bytes[..i + 1][..i] == bytes[..i];
      r := r * 256 + bytes[i];
      i := i + 1;
    }
    assert bytes[..n] == bytes[..n][..n];
    BeValueBound(bytes[..n]);
  }

  /** read_64_be: the byte at index 0 is the most significant. */
  method Read64Be(bytes: seq<byte>) returns (r: nat)
    requires |bytes| >= 8
    ensures r == BeValue(bytes[..8]) && r < 0x1_0000_0000_0000_0000
  {
    r := ReadBe(bytes, 8);
    Pow2Widths();
  }

  /** read_32_be: the byte at index 0 is the most significant. */
  method Read32Be(bytes: seq<byte>) returns (r: nat)
    requires |bytes| >= 4
    ensures r == BeValue(bytes[..4]) && r < 0x1_0000_0000
    ensures r == LeValue(Reversed(bytes[..4]))
  {
    r := ReadBe(bytes, 4);
    Pow2Widths();
    BeIsReversedLe(bytes[..4]);
  }

  /** read_16_be: the byte at index 0 is the most significant. */
  method Read16Be(bytes: seq<byte>) returns (r: nat)
    requires |bytes| >= 2
    ensures r == BeValue(bytes[..2]) && r < 0x1_0000
    ensures r == 0x100 * (bytes[0] as int) + bytes[1]
  {
    r := ReadBe(bytes, 2);
    Pow2Widths();
    assert bytes[..2][..1] == [bytes[0]];
  }

  /**
   * memcmp: equality of two byte arrays that may be null (None). Two nulls are
   * equal; a null is never equal to an array; two arrays are equal when they
   * have the same length and the same bytes.
   */
  method Memcmp(a: Option<seq<byte>>, b: Option<seq<byte>>) returns (same: bool)
    ensures a.None? || b.None? ==> (same <==> a.None? && b.None?)
    ensures a.Some? && b.Some? ==>
      (same <==> |a.value| == |b.value| && forall i :: 0 <= i < |a.value| ==> a.value[i] == b.value[i])
  {
    if a.None? || b.None? {
      return a.None? && b.None?;
    }
    var x, y := a.value, b.value;
    if |x| != |y| {
      return false;
    }
    var i := 0;
    while i < |x|
      invariant 0 <= i <= |x|
      invariant forall j :: 0 <= j < i ==> x[j] == y[j]
    {
      if x[i] != y[i] {
        return false;
      }
      i := i + 1;
    }
    return true;
  }

  /**
   * get_bytes_seek: n bytes at an absolute position. Seeking before the start
   * throws, and so does a short read. Seeking past the end is allowed, so a
   * read of no bytes succeeds at any position from 0 on.
   */
  function ReadBytes(s: seq<byte>, pos: int, n: nat): (r: Result<seq<byte>>)
    ensures r.Ok? <==> 0 <= pos && (n == 0 || pos + n <= |s|)
    ensures r.Ok? ==> |r.value| == n && forall i :: 0 <= i < n ==> r.value[i] == s[pos + i]
    ensures r.Err? ==> r.error == UnexpectedEof
  {
    if pos < 0 then Err(UnexpectedEof)
    else if n == 0 then Ok([])
    else if pos + n <= |s| then Ok(s[pos..pos + n])
    else Err(UnexpectedEof)
  }

  /** get_byte_seek. */
  function GetByte(s: seq<byte>, pos: int): (r: Result<byte>)
    ensures r.Ok? <==> 0 <= pos < |s|
    ensures r.Ok? ==> r.value == s[pos]
  {
    var b :- ReadBytes(s, pos, 1);
    Ok(b[0])
  }

  /** get_16_be_seek: two bytes at pos, first byte most significant. */
  function Get16Be(s: seq<byte>, pos: int): (r: Result<nat>)
    ensures r.Ok? <==> 0 <= pos && pos + 2 <= |s|
    ensures r.Ok? ==> r.value == 0x100 * (s[pos] as int) + s[pos + 1]
  {
    var b :- ReadBytes(s, pos, 2);
    BeValueOfTwo(b);
    Ok(BeValue(b))
  }

  /** get_16_le_seek: two bytes at pos, first byte least significant. */
  function Get16Le(s: seq<byte>, pos: int): (r: Result<nat>)
    ensures r.Ok? <==> 0 <= pos && pos + 2 <= |s|
    ensures r.Ok? ==> r.value == s[pos] as int + 0x100 * (s[pos + 1] as int)
  {
    var b :- ReadBytes(s, pos, 2);
    LeValueOfTwo(b);
    Ok(LeValue(b))
  }

  /** get_32_be_seek: four bytes at pos, first byte most significant. */
  function Get32Be(s: seq<byte>, pos: int): (r: Result<nat>)
    ensures r.Ok? <==> 0 <= pos && pos + 4 <= |s|
    ensures r.Ok? ==> r.value == BeValue(s[pos..pos + 4]) && r.value < 0x1_0000_0000
  {
    var b :- ReadBytes(s, pos, 4);
    BeValueBound(b);
    Pow2Widths();
    Ok(BeValue(b))
  }

  /** get_32_le_seek: four bytes at pos, first byte least significant. */
  function Get32Le(s: seq<byte>, pos: int): (r: Result<nat>)
    ensures r.Ok? <==> 0 <= pos && pos + 4 <= |s|
    ensures r.Ok? ==> r.value == LeValue(s[pos..pos + 4]) && r.value < 0x1_0000_0000
  {
    var b :- ReadBytes(s, pos, 4);
    LeValueBound(b);
    Pow2Widths();
    Ok(LeValue(b))
  }

  /** get_64_be_seek: eight bytes at pos, first byte most significant. */
  function Get64Be(s: seq<byte>, pos: int): (r: Result<nat>)
    ensures r.Ok? <==> 0 <= pos && pos + 8 <= |s|
    ensures r.Ok? ==> r.value == BeValue(s[pos..pos + 8]) && r.value < 0x1_0000_0000_0000_0000
  {
    var b :- ReadBytes(s, pos, 8);
    BeValueBound(b);
    Pow2Widths();
    Ok(BeValue(b))
  }
}
