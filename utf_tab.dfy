/**
 * The @UTF table of CRI archives, and the queries over it. A table at
 * offset is laid out as
 *   4 bytes   "@UTF"
 *   28 bytes  header: table size, rows offset, string table offset, data
 *             offset, table name (32-bit), columns, row width (16-bit),
 *             rows (32-bit), all big endian
 *   schema    one entry per column: a type byte, a 32-bit name (an offset
 *             into the string table) and, for a constant column, its value
 *   rows      at offset + 8 + rows offset, row_width bytes each, holding
 *             the values of the per-row columns one after the other
 *   strings   at offset + 8 + string table offset, zero-terminated names
 * The high nibble of a type byte is the column's storage class, the low
 * nibble the type of its value.
 */
module UtfTab {
  import opened Arith
  import opened Util

  const COLUMN_STORAGE_PERROW: nat := 0x50
  const COLUMN_STORAGE_CONSTANT: nat := 0x30
  const COLUMN_STORAGE_ZERO: nat := 0x10

  const COLUMN_TYPE_DATA: nat := 0x0b
  const COLUMN_TYPE_STRING: nat := 0x0a
  const COLUMN_TYPE_FLOAT: nat := 0x08
  const COLUMN_TYPE_8BYTE: nat := 0x06
  const COLUMN_TYPE_4BYTE2: nat := 0x05
  const COLUMN_TYPE_4BYTE: nat := 0x04
  const COLUMN_TYPE_2BYTE2: nat := 0x03
  const COLUMN_TYPE_2BYTE: nat := 0x02
  const COLUMN_TYPE_1BYTE2: nat := 0x01
  const COLUMN_TYPE_1BYTE: nat := 0x00

  /** type & COLUMN_STORAGE_MASK (0xf0): the high nibble of a type byte, kept in place. */
  function StorageClass(t: byte): nat
  {
    t / 16 * 16
  }

  /** type & COLUMN_TYPE_MASK (0x0f): the low nibble of a type byte. */
  function ValueType(t: byte): nat
  {
    t % 16
  }

  /**
   * How many bytes a value of type vt occupies, where it is stored; None
   * for the type codes that have no known width.
   */
  function ValueWidth(vt: nat): Option<nat>
  {
    if vt == COLUMN_TYPE_STRING then Some(4)
    else if vt == COLUMN_TYPE_DATA || vt == COLUMN_TYPE_8BYTE then Some(8)
    else if vt == COLUMN_TYPE_FLOAT || vt == COLUMN_TYPE_4BYTE2 || vt == COLUMN_TYPE_4BYTE then Some(4)
    else if vt == COLUMN_TYPE_2BYTE2 || vt == COLUMN_TYPE_2BYTE then Some(2)
    else if vt == COLUMN_TYPE_1BYTE2 || vt == COLUMN_TYPE_1BYTE then Some(1)
    else None
  }

  // ---------------------------------------------------------------------
  // Strings

  /** Length of the zero-terminated string starting at i (stopping at the end of t). */
  function CStringLen(t: seq<byte>, i: nat): (n: nat)
    ensures i <= |t| ==> i + n <= |t|
    decreases |t| - i
  {
    if i >= |t| || t[i] == 0 then 0 else 1 + CStringLen(t, i + 1)
  }

  /** The string at offset in a string table: the bytes up to the first zero or the end. */
  function CStringAt(t: seq<byte>, offset: nat): Result<seq<byte>>
  {
    if offset > |t| then Err(BadStringOffset)
    else Ok(t[offset..offset + CStringLen(t, offset)])
  }

  /** CStringLen counts exactly the non-zero bytes before the first zero byte or the end. */
  lemma {:induction false} CStringLenMeaning(t: seq<byte>, i: nat)
    requires i <= |t|
    ensures var n := CStringLen(t, i);
      i + n <= |t| && (forall k :: i <= k < i + n ==> t[k] != 0) && (i + n == |t| || t[i + n] == 0)
    decreases |t| - i
  {
    if i < |t| && t[i] != 0 {
      CStringLenMeaning(t, i + 1);
    }
  }

  /**
   * ReadString's result is the slice of the table from offset up to its
   * first zero byte, or up to the end when there is none; an offset past
   * the end of the table fails.
   */
  lemma CStringAtMeaning(t: seq<byte>, offset: nat)
    ensures CStringAt(t, offset).Ok? <==> offset <= |t|
    ensures CStringAt(t, offset).Err? ==> CStringAt(t, offset).error == BadStringOffset
    ensures CStringAt(t, offset).Ok? ==>
      var v := CStringAt(t, offset).value;
      offset + |v| <= |t| && v == t[offset..offset + |v|] &&
      (forall k :: 0 <= k < |v| ==> v[k] != 0) &&
      (offset + |v| == |t| || t[offset + |v|] == 0)
  {
    if offset <= |t| {
      CStringLenMeaning(t, offset);
    }
  }

  /** ReadString: count the bytes before the terminating zero, then take them. */
  method ReadString(t: seq<byte>, offset: nat) returns (r: Result<seq<byte>>)
    ensures r == CStringAt(t, offset)
  {
    var count := 0;
    var i := offset;
    while i < |t|
      invariant i == offset + count
      invariant offset <= |t| ==> CStringLen(t, offset) == count + CStringLen(t, i)
      decreases |t| - i
    {
      if t[i] == 0 {
        break;
      }
      count := count + 1;
      i := i + 1;
    }
    if offset > |t| {
      return Err(BadStringOffset);
    }
    return Ok(t[offset..offset + count]);
  }

  // ---------------------------------------------------------------------
  // Header and schema

  /** "@UTF" in ASCII. */
  const UTF_SIGNATURE: seq<byte> := [0x40, 0x55, 0x54, 0x46]

  /** The header fields that follow the signature. */
  datatype Header = Header(tableSize: nat, rowsOffset: nat, stringTableOffset: nat, dataOffset: nat,
                           tableName: nat, columns: nat, rowWidth: nat, rows: nat)

  /** The header, read field after field right behind the signature at offset. */
  function ParseHeader(s: seq<byte>, offset: int): Result<Header>
  {
    var tableSize :- Get32Be(s, offset + 4);
    var rowsOffset :- Get32Be(s, offset + 8);
    var stringTableOffset :- Get32Be(s, offset + 12);
    var dataOffset :- Get32Be(s, offset + 16);
    var tableName :- Get32Be(s, offset + 20);
    var columns :- Get16Be(s, offset + 24);
    var rowWidth :- Get16Be(s, offset + 26);
    var rows :- Get32Be(s, offset + 28);
    Ok(Header(tableSize, rowsOffset, stringTableOffset, dataOffset, tableName, columns, rowWidth, rows))
  }

  /**
   * One schema entry: its type byte, the string-table offset of its name
   * and, for a constant column, where its value is stored (0 otherwise).
   */
  datatype Column = Column(typeByte: byte, name: nat, constantOffset: int)

  /**
   * Skipping the value stored inline after a constant column's entry at
   * pos: the reads the schema loop makes for each value type, and the
   * position after them.
   */
  function SkipConstant(s: seq<byte>, pos: int, t: byte): Result<int>
  {
    var vt := ValueType(t);
    if vt == COLUMN_TYPE_STRING then
      var v :- Get32Be(s, pos); Ok(pos + 4)
    else if vt == COLUMN_TYPE_8BYTE || vt == COLUMN_TYPE_DATA then
      var hi :- Get32Be(s, pos); var lo :- Get32Be(s, pos + 4); Ok(pos + 8)
    else if vt == COLUMN_TYPE_FLOAT || vt == COLUMN_TYPE_4BYTE2 || vt == COLUMN_TYPE_4BYTE then
      var v :- Get32Be(s, pos); Ok(pos + 4)
    else if vt == COLUMN_TYPE_2BYTE2 || vt == COLUMN_TYPE_2BYTE then
      var v :- Get16Be(s, pos); Ok(pos + 2)
    else if vt == COLUMN_TYPE_1BYTE2 || vt == COLUMN_TYPE_1BYTE then
      var v :- GetByte(s, pos); Ok(pos + 1)
    else
      Err(UnknownConstantType)
  }

  /** The schema loop from the entry at pos, with n entries still to read and acc read so far. */
  function SchemaFrom(s: seq<byte>, pos: int, n: nat, acc: seq<Column>): Result<seq<Column>>
    decreases n
  {
    if n == 0 then Ok(acc)
    else
      var t :- GetByte(s, pos);
      var name :- Get32Be(s, pos + 1);
      if StorageClass(t) == COLUMN_STORAGE_CONSTANT then
        var next :- SkipConstant(s, pos + 5, t);
        SchemaFrom(s, next, n - 1, acc + [Column(t, name, pos + 5)])
      else
        SchemaFrom(s, pos + 5, n - 1, acc + [Column(t, name, 0)])
  }

  /** The schema loop: read the entries one after the other. */
  method ReadSchema(s: seq<byte>, start: int, columns: nat) returns (r: Result<seq<Column>>)
    ensures r == SchemaFrom(s, start, columns, [])
  {
    var schema: seq<Column> := [];
    var pos := start;
    var i := 0;
    while i < columns
      invariant i <= columns
      invariant SchemaFrom(s, start, columns, []) == SchemaFrom(s, pos, columns - i, schema)
    {
      var t :- GetByte(s, pos);
      var name :- Get32Be(s, pos + 1);
      pos := pos + 5;
      var constantOffset := 0;
      if StorageClass(t) == COLUMN_STORAGE_CONSTANT {
        constantOffset := pos;
        pos :- SkipConstant(s, pos, t);
      }
      schema := schema + [Column(t, name, constantOffset)];
      i := i + 1;
    }
    return Ok(schema);
  }

  // ---------------------------------------------------------------------
  // Values and the query result

  /** A value as read from a cell: a number, or the offset and size of a data block. */
  datatype CellValue = Scalar(n: nat) | DataRef(offset: nat, size: nat)

  /**
   * Reading the value of type vt stored at pos: the value and the number
   * of bytes it occupies (bytes_read).
   */
  function ReadValue(s: seq<byte>, pos: int, vt: nat): Result<(CellValue, nat)>
  {
    if vt == COLUMN_TYPE_STRING then
      var v :- Get32Be(s, pos); Ok((Scalar(v), 4))
    else if vt == COLUMN_TYPE_DATA then
      var off :- Get32Be(s, pos); var size :- Get32Be(s, pos + 4); Ok((DataRef(off, size), 8))
    else if vt == COLUMN_TYPE_8BYTE then
      var v :- Get64Be(s, pos); Ok((Scalar(v), 8))
    else if vt == COLUMN_TYPE_4BYTE2 || vt == COLUMN_TYPE_4BYTE || vt == COLUMN_TYPE_FLOAT then
      var v :- Get32Be(s, pos); Ok((Scalar(v), 4))
    else if vt == COLUMN_TYPE_2BYTE2 || vt == COLUMN_TYPE_2BYTE then
      var v :- Get16Be(s, pos); Ok((Scalar(v), 2))
    else if vt == COLUMN_TYPE_1BYTE2 || vt == COLUMN_TYPE_1BYTE then
      var v :- GetByte(s, pos); Ok((Scalar(v), 1))
    else
      Err(UnknownValueType)
  }

  const TWO_32: nat := 0x1_0000_0000

  /** The value_data setter: the offset in the high 32 bits, the size in the low 32 bits. */
  function PackData(offset: nat, size: nat): nat
  {
    offset * TWO_32 + size
  }

  /** What a setter leaves in the 64-bit internal value. */
  function Stored(v: CellValue): nat
  {
    match v
    case Scalar(n) => n
    case DataRef(off, size) => PackData(off, size)
  }

  /**
   * utf_query_result: whether a table was found, whether the queried
   * column was, the found column's value type, the 64-bit internal value
   * and the table's header fields.
   */
  datatype QueryResult = QueryResult(valid: bool, found: bool, valueType: nat, value: nat,
                                     rows: nat, nameOffset: nat, stringTableOffset: nat, dataOffset: nat)

  /** A fresh result: nothing valid, nothing found. */
  const NOT_A_TABLE := QueryResult(false, false, 0, 0, 0, 0, 0, 0)

  /** The result for a valid table before any column is looked at. */
  function TableDefaults(h: Header): QueryResult
  {
    QueryResult(true, false, 0, 0, h.rows, h.tableName, h.stringTableOffset, h.dataOffset)
  }

  /** The getters: each one truncates the internal value to its width. */
  function ValueU64(r: QueryResult): nat { r.value }
  function ValueU32(r: QueryResult): nat { r.value % TWO_32 }
  function ValueU16(r: QueryResult): nat { r.value % 0x1_0000 }
  function ValueString(r: QueryResult): nat { r.value % TWO_32 }

  datatype OffsetSize = OffsetSize(offset: nat, size: nat)

  /** The value_data getter: the high 32 bits are the offset, the low 32 bits the size. */
  function ValueData(r: QueryResult): OffsetSize
  {
    OffsetSize((r.value / TWO_32) % TWO_32, r.value % TWO_32)
  }

  // ---------------------------------------------------------------------
  // Rows

  /** What is being looked up: a column name and a row index. */
  datatype Query = Query(name: seq<byte>, index: int)

  /** Where row i starts. */
  function RowOffset(tableOffset: int, rowsOffset: nat, i: nat, rowWidth: nat): int
  {
    tableOffset + 8 + rowsOffset + i * rowWidth
  }

  /** Where the value of column c is read, the row cursor standing at cursor. */
  function CellPos(c: Column, cursor: int): int
  {
    if StorageClass(c.typeByte) == COLUMN_STORAGE_CONSTANT then c.constantOffset else cursor
  }

  /**
   * The column loop body for column c of the queried row, with the row
   * cursor at rowOffset: the new cursor and the updated result.
   */
  function ScanColumn(s: seq<byte>, st: seq<byte>, c: Column, q: Query, rowOffset: int, res: QueryResult)
    : Result<(int, QueryResult)>
  {
    var name :- CStringAt(st, c.name);
    var qthis := name == q.name;
    var res1 := if qthis then res.(found := true, valueType := ValueType(c.typeByte)) else res;
    var storage := StorageClass(c.typeByte);
    if storage == COLUMN_STORAGE_ZERO then
      Ok((rowOffset, if qthis then res1.(value := 0) else res1))
    else if storage != COLUMN_STORAGE_PERROW && storage != COLUMN_STORAGE_CONSTANT then
      Err(UnknownStorageClass)
    else
      var cell :- ReadValue(s, CellPos(c, rowOffset), ValueType(c.typeByte));
      var res2 := if qthis then res1.(value := Stored(cell.0)) else res1;
      Ok((if storage == COLUMN_STORAGE_CONSTANT then rowOffset else rowOffset + cell.1, res2))
  }

  /** The column loop from column j on. */
  function ScanColumns(s: seq<byte>, st: seq<byte>, schema: seq<Column>, j: nat, q: Query, rowOffset: int,
                       res: QueryResult): Result<(int, QueryResult)>
    requires j <= |schema|
    decreases |schema| - j
  {
    if j == |schema| then Ok((rowOffset, res))
    else
      var next :- ScanColumn(s, st, schema[j], q, rowOffset, res);
      ScanColumns(s, st, schema, j + 1, q, next.0, next.1)
  }

  /** The queried row starting at rowStart: all its columns, then the row width check. */
  function ScanRow(s: seq<byte>, st: seq<byte>, schema: seq<Column>, q: Query, rowStart: int, rowWidth: nat,
                   res: QueryResult): Result<QueryResult>
  {
    var scanned :- ScanColumns(s, st, schema, 0, q, rowStart, res);
    if scanned.0 - rowStart != rowWidth then Err(RowWidthMismatch) else Ok(scanned.1)
  }

  /**
   * One pass of the column loop: compare the column's name with the query,
   * fill in the result when they match, and read the column's value,
   * advancing the row cursor past a per-row one.
   */
  method ReadColumn(s: seq<byte>, st: seq<byte>, c: Column, q: Query, rowOffset: int, res: QueryResult)
    returns (r: Result<(int, QueryResult)>)
    ensures r == ScanColumn(s, st, c, q, rowOffset, res)
  {
    var name :- ReadString(st, c.name);
    var qthis := name == q.name;
    var result := res;
    if qthis {
      result := result.(found := true, valueType := ValueType(c.typeByte));
    }
    var storage := StorageClass(c.typeByte);
    if storage == COLUMN_STORAGE_ZERO {
      if qthis {
        result := result.(value := 0);
      }
      return Ok((rowOffset, result));
    }
    if storage != COLUMN_STORAGE_PERROW && storage != COLUMN_STORAGE_CONSTANT {
      return Err(UnknownStorageClass);
    }
    var constant := storage == COLUMN_STORAGE_CONSTANT;
    var dataOffset := if constant then c.constantOffset else rowOffset;
    var cell :- ReadValue(s, dataOffset, ValueType(c.typeByte));
    if qthis {
      result := result.(value := Stored(cell.0));
    }
    var next := if constant then rowOffset else rowOffset + cell.1;
    return Ok((next, result));
  }

  /** The column loop of the queried row. */
  method ReadRow(s: seq<byte>, st: seq<byte>, schema: seq<Column>, q: Query, rowStart: int, rowWidth: nat,
                 res: QueryResult) returns (r: Result<QueryResult>)
    ensures r == ScanRow(s, st, schema, q, rowStart, rowWidth, res)
  {
    var rowOffset := rowStart;
    var result := res;
    var j := 0;
    while j < |schema|
      invariant j <= |schema|
      invariant ScanColumns(s, st, schema, 0, q, rowStart, res) == ScanColumns(s, st, schema, j, q, rowOffset, result)
    {
      var next :- ReadColumn(s, st, schema[j], q, rowOffset, result);
      rowOffset, result := next.0, next.1;
      j := j + 1;
    }
    if rowOffset - rowStart != rowWidth {
      return Err(RowWidthMismatch);
    }
    return Ok(result);
  }

  // ---------------------------------------------------------------------
  // The table

  /** The string table's size: the unsigned 32-bit difference of the data and string table offsets. */
  function StringTableSize(h: Header): nat
  {
    (h.dataOffset - h.stringTableOffset) % TWO_32
  }

  /**
   * The string table with a zero byte appended. Its position adds 8 to
   * the unsigned 32-bit string table offset in 32-bit arithmetic before
   * adding the table's offset.
   */
  function LoadStringTable(s: seq<byte>, offset: int, h: Header): Result<seq<byte>>
  {
    var bytes :- ReadBytes(s, (h.stringTableOffset + 8) % TWO_32 + offset, StringTableSize(h));
    Ok(bytes + [0])
  }

  /** What is read from behind the signature: header, schema and string table. */
  datatype Table = Table(header: Header, schema: seq<Column>, strings: seq<byte>)

  function ReadTable(s: seq<byte>, offset: int): Result<Table>
  {
    var h :- ParseHeader(s, offset);
    var schema :- SchemaFrom(s, offset + 32, h.columns, []);
    var st :- LoadStringTable(s, offset, h);
    Ok(Table(h, schema, st))
  }

  /**
   * Where row i of the table at offset starts, by the corrected RowOffset;
   * RowOffsetAsWritten is the 32-bit product the source computes.
   */
  function TableRow(offset: int, t: Table, i: nat): int
  {
    RowOffset(offset, t.header.rowsOffset, i, t.header.rowWidth)
  }

  /**
   * analyze_utf with printing off, which is also query_utf: the table at
   * offset, and the queried cell if there is a query.
   */
  function Analyze(s: seq<byte>, offset: int, query: Option<Query>): Result<QueryResult>
  {
    var sig :- ReadBytes(s, offset, 4);
    if sig != UTF_SIGNATURE then Ok(NOT_A_TABLE)
    else
      var t :- ReadTable(s, offset);
      if query.Some? && 0 <= query.value.index < t.header.rows then
        ScanRow(s, t.strings, t.schema, query.value, TableRow(offset, t, query.value.index), t.header.rowWidth,
                TableDefaults(t.header))
      else
        Ok(TableDefaults(t.header))
  }

  /** analyze_utf: check the signature, read header, schema and strings, then visit the queried row. */
  method AnalyzeUtf(s: seq<byte>, offset: int, query: Option<Query>) returns (r: Result<QueryResult>)
    ensures r == Analyze(s, offset, query)
  {
    var buf :- ReadBytes(s, offset, 4);
    var same := Memcmp(Some(buf), Some(UTF_SIGNATURE));
    if !same {
      return Ok(NOT_A_TABLE);
    }
    assert buf == UTF_SIGNATURE;
    var h :- ParseHeader(s, offset);
    var schema :- ReadSchema(s, offset + 32, h.columns);
    var stringTable :- LoadStringTable(s, offset, h);
    var result := TableDefaults(h);
    if query.Some? {
      var q := query.value;
      var i: nat := 0;
      while i < h.rows
        invariant i <= h.rows && (q.index >= 0 ==> i <= q.index)
        invariant result == TableDefaults(h)
      {
        if i != q.index {
          i := i + 1;
          continue;
        }
        var rowStart := RowOffset(offset, h.rowsOffset, i, h.rowWidth);
        result :- ReadRow(s, stringTable, schema, q, rowStart, h.rowWidth, result);
        // the row just visited is the queried one
        break;
      }
    }
    return Ok(result);
  }

  // ---------------------------------------------------------------------
  // Header and signature

  /** The header is eight big-endian fields at fixed places behind the signature; reading it fails only past the end. */
  lemma HeaderFields(s: seq<byte>, offset: int)
    ensures ParseHeader(s, offset).Ok? <==> 0 <= offset + 4 && offset + 32 <= |s|
    ensures ParseHeader(s, offset).Err? ==> ParseHeader(s, offset).error == UnexpectedEof
    ensures ParseHeader(s, offset).Ok? ==>
      var h := ParseHeader(s, offset).value;
      h.tableSize == BeValue(s[offset + 4..offset + 8]) && h.rowsOffset == BeValue(s[offset + 8..offset + 12]) &&
      h.stringTableOffset == BeValue(s[offset + 12..offset + 16]) &&
      h.dataOffset == BeValue(s[offset + 16..offset + 20]) && h.tableName == BeValue(s[offset + 20..offset + 24]) &&
      h.columns == 0x100 * (s[offset + 24] as int) + s[offset + 25] &&
      h.rowWidth == 0x100 * (s[offset + 26] as int) + s[offset + 27] &&
      h.rows == BeValue(s[offset + 28..offset + 32])
  {
  }

  /**
   * Without "@UTF" at offset the result is neither valid nor found, for
   * any query, and nothing behind the signature is read: cutting the
   * stream right after it gives the same result.
   */
  lemma NotUtfTable(s: seq<byte>, offset: int, query: Option<Query>)
    requires 0 <= offset && offset + 4 <= |s| && s[offset..offset + 4] != UTF_SIGNATURE
    ensures Analyze(s, offset, query) == Ok(NOT_A_TABLE)
    ensures !NOT_A_TABLE.valid && !NOT_A_TABLE.found
    ensures Analyze(s[..offset + 4], offset, query) == Ok(NOT_A_TABLE)
  {
    assert s[..offset + 4][offset..offset + 4] == s[offset..offset + 4];
  }

  // ---------------------------------------------------------------------
  // Widths

  /**
   * The schema loop skips a constant's value by its type's width; a
   * constant whose type has no width is an error.
   */
  lemma SkipConstantWidth(s: seq<byte>, pos: int, t: byte)
    ensures var r := SkipConstant(s, pos, t);
      var w := ValueWidth(ValueType(t));
      (w.None? ==> r == Err(UnknownConstantType)) &&
      (w.Some? ==>
        (r.Ok? <==> 0 <= pos && pos + w.value <= |s|) &&
        (r.Ok? ==> r.value == pos + w.value) &&
        (r.Err? ==> r.error == UnexpectedEof))
  {
  }

  /**
   * The row reader reads a value of type vt as the big-endian number in
   * the next width bytes (a data value as two 32-bit numbers), reports
   * that width as bytes_read, and fails on a type without a width.
   */
  lemma ReadValueMeaning(s: seq<byte>, pos: int, vt: nat)
    ensures var r := ReadValue(s, pos, vt);
      (ValueWidth(vt).None? ==> r == Err(UnknownValueType)) &&
      (ValueWidth(vt).Some? ==>
        var w := ValueWidth(vt).value;
        (r.Ok? <==> 0 <= pos && pos + w <= |s|) &&
        (r.Err? ==> r.error == UnexpectedEof) &&
        (r.Ok? ==>
          r.value.1 == w &&
          r.value.0 == (if vt == COLUMN_TYPE_DATA then DataRef(BeValue(s[pos..pos + 4]), BeValue(s[pos + 4..pos + 8]))
                        else Scalar(BeValue(s[pos..pos + w])))))
  {
    if ValueWidth(vt) == Some(2) && 0 <= pos && pos + 2 <= |s| {
      BeValueOfTwo(s[pos..pos + 2]);
    } else if ValueWidth(vt) == Some(1) && 0 <= pos && pos + 1 <= |s| {
      var b := s[pos..pos + 1];
      assert b[..0] == [];
    }
  }

  /** The bytes the schema loop skips for a constant are exactly the bytes the row reader reads for it. */
  lemma ConstantSkipMatchesRead(s: seq<byte>, pos: int, t: byte)
    ensures SkipConstant(s, pos, t).Ok? <==> ReadValue(s, pos, ValueType(t)).Ok?
    ensures SkipConstant(s, pos, t).Ok? ==> SkipConstant(s, pos, t).value == pos + ReadValue(s, pos, ValueType(t)).value.1
  {
    SkipConstantWidth(s, pos, t);
    ReadValueMeaning(s, pos, ValueType(t));
  }

  // ---------------------------------------------------------------------
  // value_data

  /** The value_data getter returns what its setter was given. */
  lemma ValueDataRoundTrip(r: QueryResult, offset: nat, size: nat)
    requires offset < TWO_32 && size < TWO_32
    ensures PackData(offset, size) < TWO_32 * TWO_32
    ensures ValueData(r.(value := PackData(offset, size))) == OffsetSize(offset, size)
  {
    var v := PackData(offset, size);
    MulLe(offset, TWO_32 - 1, TWO_32);
    DivModUnique(v, TWO_32, offset, size);
  }

  /** Setting value_data to what its getter returns leaves a 64-bit internal value unchanged. */
  lemma ValueDataRepacks(r: QueryResult)
    requires r.value < TWO_32 * TWO_32
    ensures PackData(ValueData(r).offset, ValueData(r).size) == r.value
  {
    var q, m := r.value / TWO_32, r.value % TWO_32;
    assert r.value == q * TWO_32 + m;
    if q >= TWO_32 {
      MulLe(TWO_32, q, TWO_32);
      assert false;
    }
  }

  // ---------------------------------------------------------------------
  // Row positions

  /** Row i + 1 starts row_width bytes after row i, and no row starts before the rows area. */
  lemma RowOffsetStride(tableOffset: int, rowsOffset: nat, i: nat, rowWidth: nat)
    ensures RowOffset(tableOffset, rowsOffset, i + 1, rowWidth) == RowOffset(tableOffset, rowsOffset, i, rowWidth) + rowWidth
    ensures RowOffset(tableOffset, rowsOffset, i, rowWidth) >= tableOffset + 8 + rowsOffset
  {
  }

  /** x as a signed 32-bit integer: C# int arithmetic wraps around. */
  function Int32(x: int): int
  {
    (x + 0x8000_0000) % TWO_32 - 0x8000_0000
  }

  /** The row start as written: i * row_width is computed in 32-bit int arithmetic before widening. */
  function RowOffsetAsWritten(tableOffset: int, rowsOffset: nat, i: nat, rowWidth: nat): int
  {
    tableOffset + 8 + rowsOffset + Int32(i * rowWidth)
  }

  /** The two agree as long as the product fits in an int. */
  lemma RowOffsetAsWrittenAgrees(tableOffset: int, rowsOffset: nat, i: nat, rowWidth: nat)
    requires i * rowWidth < 0x8000_0000
    ensures RowOffsetAsWritten(tableOffset, rowsOffset, i, rowWidth) == RowOffset(tableOffset, rowsOffset, i, rowWidth)
  {
    DivModUnique(i * rowWidth + 0x8000_0000, TWO_32, 0, i * rowWidth + 0x8000_0000);
  }

  /**
   * Row 40000 of a table with 60000-byte rows: the product 2400000000
   * wraps to a negative int, so the row is looked for before the table.
   */
  lemma RowOffsetOverflow()
    ensures RowOffset(0, 0, 40000, 60000) == 2400000008
    ensures RowOffsetAsWritten(0, 0, 40000, 60000) == 2400000008 - TWO_32
    ensures RowOffsetAsWritten(0, 0, 40000, 60000) < 0
  {
    DivModUnique(40000 * 60000 + 0x8000_0000, TWO_32, 1, 40000 * 60000 + 0x8000_0000 - TWO_32);
  }

  // ---------------------------------------------------------------------
  // The queried row

  /** The bytes a column takes in each row: its value's width for a per-row column, nothing otherwise. */
  function RowBytes(c: Column): nat
  {
    var w := ValueWidth(ValueType(c.typeByte));
    if StorageClass(c.typeByte) == COLUMN_STORAGE_PERROW && w.Some? then w.value else 0
  }

  /** The bytes columns j up to k take in each row. */
  function RowSpan(schema: seq<Column>, j: nat, k: nat): nat
    requires j <= k <= |schema|
    decreases k - j
  {
    if j == k then 0 else RowBytes(schema[j]) + RowSpan(schema, j + 1, k)
  }

  /** Column c is named name in the string table st. */
  predicate Named(st: seq<byte>, c: Column, name: seq<byte>)
  {
    CStringAt(st, c.name) == Ok(name)
  }

  /** The last column from j on that is named name. */
  function LastMatch(st: seq<byte>, schema: seq<Column>, j: nat, name: seq<byte>): (r: Option<nat>)
    requires j <= |schema|
    ensures r.Some? ==> j <= r.value < |schema|
    decreases |schema| - j
  {
    if j == |schema| then None
    else match LastMatch(st, schema, j + 1, name)
      case Some(k) => Some(k)
      case None => if Named(st, schema[j], name) then Some(j) else None
  }

  /** LastMatch finds a named column with no named column after it, or there is no named column at all. */
  lemma {:induction false} LastMatchMeaning(st: seq<byte>, schema: seq<Column>, j: nat, name: seq<byte>)
    requires j <= |schema|
    ensures match LastMatch(st, schema, j, name)
      case None => forall m :: j <= m < |schema| ==> !Named(st, schema[m], name)
      case Some(k) =>
        j <= k < |schema| && Named(st, schema[k], name) &&
        forall m :: k < m < |schema| ==> !Named(st, schema[m], name)
    decreases |schema| - j
  {
    if j < |schema| {
      LastMatchMeaning(st, schema, j + 1, name);
    }
  }

  /**
   * What a query of column c leaves in the internal value when the row
   * cursor stands at cursor: 0 for a zero column, otherwise what the
   * setter stores for the value read at the constant's place or at the
   * cursor.
   */
  function CellStored(s: seq<byte>, c: Column, cursor: int): nat
  {
    var storage := StorageClass(c.typeByte);
    if storage == COLUMN_STORAGE_ZERO then 0
    else
      match ReadValue(s, CellPos(c, cursor), ValueType(c.typeByte))
      case Ok(cell) => Stored(cell.0)
      case Err(_) => 0
  }

  /**
   * One column moves the row cursor by its per-row bytes, and changes the
   * result only when the column carries the queried name.
   */
  lemma ScanColumnMeaning(s: seq<byte>, st: seq<byte>, c: Column, q: Query, rowOffset: int, res: QueryResult)
    requires ScanColumn(s, st, c, q, rowOffset, res).Ok?
    ensures var next := ScanColumn(s, st, c, q, rowOffset, res).value;
      next.0 == rowOffset + RowBytes(c) &&
      next.1 == if Named(st, c, q.name)
                then res.(found := true, valueType := ValueType(c.typeByte), value := CellStored(s, c, rowOffset))
                else res
  {
    var storage := StorageClass(c.typeByte);
    ReadValueMeaning(s, if storage == COLUMN_STORAGE_CONSTANT then c.constantOffset else rowOffset, ValueType(c.typeByte));
  }

  /** The column loop from j on leaves the cursor after the per-row bytes of those columns. */
  lemma {:induction false} ScanColumnsCursor(s: seq<byte>, st: seq<byte>, schema: seq<Column>, j: nat, q: Query,
                                             rowOffset: int, res: QueryResult)
    requires j <= |schema| && ScanColumns(s, st, schema, j, q, rowOffset, res).Ok?
    ensures ScanColumns(s, st, schema, j, q, rowOffset, res).value.0 == rowOffset + RowSpan(schema, j, |schema|)
    decreases |schema| - j
  {
    if j < |schema| {
      var next := ScanColumn(s, st, schema[j], q, rowOffset, res).value;
      ScanColumnMeaning(s, st, schema[j], q, rowOffset, res);
      ScanColumnsCursor(s, st, schema, j + 1, q, next.0, next.1);
    }
  }

  /**
   * The column loop from j on changes the result by the last column
   * carrying the queried name, whose cell is read with the cursor where
   * that column is reached; with no such column it is unchanged.
   */
  lemma {:induction false} ScanColumnsResult(s: seq<byte>, st: seq<byte>, schema: seq<Column>, j: nat, q: Query,
                                             rowOffset: int, res: QueryResult)
    requires j <= |schema| && ScanColumns(s, st, schema, j, q, rowOffset, res).Ok?
    ensures var e := ScanColumns(s, st, schema, j, q, rowOffset, res).value;
      match LastMatch(st, schema, j, q.name)
        case None => e.1 == res
        case Some(k) =>
          j <= k < |schema| &&
          e.1 == res.(found := true, valueType := ValueType(schema[k].typeByte),
                      value := CellStored(s, schema[k], rowOffset + RowSpan(schema, j, k)))
    decreases |schema| - j
  {
    if j < |schema| {
      var c := schema[j];
      var next := ScanColumn(s, st, c, q, rowOffset, res).value;
      ScanColumnMeaning(s, st, c, q, rowOffset, res);
      ScanColumnsResult(s, st, schema, j + 1, q, next.0, next.1);
      match LastMatch(st, schema, j + 1, q.name) {
        case Some(k) =>
          assert LastMatch(st, schema, j, q.name) == Some(k);
          assert RowSpan(schema, j, k) == RowBytes(c) + RowSpan(schema, j + 1, k);
        case None =>
          assert LastMatch(st, schema, j, q.name) == if Named(st, c, q.name) then Some(j) else None;
      }
    }
  }

  /** The row check: a row whose columns were all read passes exactly when their per-row bytes add up to row_width. */
  lemma ScanRowMeaning(s: seq<byte>, st: seq<byte>, schema: seq<Column>, q: Query, rowStart: int, rowWidth: nat,
                       res: QueryResult)
    requires ScanColumns(s, st, schema, 0, q, rowStart, res).Ok?
    ensures ScanRow(s, st, schema, q, rowStart, rowWidth, res).Ok? <==> RowSpan(schema, 0, |schema|) == rowWidth
    ensures ScanRow(s, st, schema, q, rowStart, rowWidth, res).Err? ==>
      ScanRow(s, st, schema, q, rowStart, rowWidth, res).error == RowWidthMismatch
    ensures ScanRow(s, st, schema, q, rowStart, rowWidth, res).Ok? ==>
      ScanRow(s, st, schema, q, rowStart, rowWidth, res).value == ScanColumns(s, st, schema, 0, q, rowStart, res).value.1
  {
    ScanColumnsCursor(s, st, schema, 0, q, rowStart, res);
  }

  // ---------------------------------------------------------------------
  // What analyze_utf returns

  /** The three ways analyze_utf goes: an unreadable signature, no "@UTF", or a table read behind it. */
  lemma AnalyzeCases(s: seq<byte>, offset: int, query: Option<Query>)
    ensures !(0 <= offset && offset + 4 <= |s|) ==> Analyze(s, offset, query) == Err(UnexpectedEof)
    ensures 0 <= offset && offset + 4 <= |s| && s[offset..offset + 4] != UTF_SIGNATURE ==>
      Analyze(s, offset, query) == Ok(NOT_A_TABLE)
    ensures 0 <= offset && offset + 4 <= |s| && s[offset..offset + 4] == UTF_SIGNATURE ==>
      match ReadTable(s, offset)
      case Err(e) => Analyze(s, offset, query) == Err(e)
      case Ok(t) =>
        Analyze(s, offset, query) ==
          if query.Some? && 0 <= query.value.index < t.header.rows
          then ScanRow(s, t.strings, t.schema, query.value, TableRow(offset, t, query.value.index),
                       t.header.rowWidth, TableDefaults(t.header))
          else Ok(TableDefaults(t.header))
  {
  }

  /**
   * A result is valid exactly when "@UTF" stands at offset, and then holds
   * the header's rows, name offset, string table offset and data offset;
   * only a valid result of a query can be found.
   */
  lemma AnalyzeResult(s: seq<byte>, offset: int, query: Option<Query>)
    ensures var r := Analyze(s, offset, query);
      r.Ok? ==>
        0 <= offset && offset + 4 <= |s| &&
        (r.value.valid <==> s[offset..offset + 4] == UTF_SIGNATURE) &&
        (r.value.found ==> r.value.valid && query.Some?)
    ensures var r := Analyze(s, offset, query);
      r.Ok? && r.value.valid ==>
        offset + 32 <= |s| &&
        r.value.stringTableOffset == BeValue(s[offset + 12..offset + 16]) &&
        r.value.dataOffset == BeValue(s[offset + 16..offset + 20]) &&
        r.value.nameOffset == BeValue(s[offset + 20..offset + 24]) &&
        r.value.rows == BeValue(s[offset + 28..offset + 32])
  {
    AnalyzeCases(s, offset, query);
    var r := Analyze(s, offset, query);
    if r.Ok? && 0 <= offset && offset + 4 <= |s| && s[offset..offset + 4] == UTF_SIGNATURE {
      var t := ReadTable(s, offset).value;
      HeaderFields(s, offset);
      assert t.header == ParseHeader(s, offset).value;
      if query.Some? && 0 <= query.value.index < t.header.rows {
        var q, rowStart := query.value, TableRow(offset, t, query.value.index);
        ScanRowMeaning(s, t.strings, t.schema, q, rowStart, t.header.rowWidth, TableDefaults(t.header));
        ScanColumnsResult(s, t.strings, t.schema, 0, q, rowStart, TableDefaults(t.header));
      }
    }
  }

  /** A valid result comes from the table read behind the signature, and from its queried row if there is one. */
  lemma AnalyzeOnTable(s: seq<byte>, offset: int, query: Option<Query>)
    requires Analyze(s, offset, query).Ok? && Analyze(s, offset, query).value.valid
    ensures ReadTable(s, offset).Ok?
    ensures var t := ReadTable(s, offset).value;
      Analyze(s, offset, query) ==
        if query.Some? && 0 <= query.value.index < t.header.rows
        then ScanRow(s, t.strings, t.schema, query.value, TableRow(offset, t, query.value.index),
                     t.header.rowWidth, TableDefaults(t.header))
        else Ok(TableDefaults(t.header))
  {
    AnalyzeCases(s, offset, query);
  }

  /**
   * The queried row, scanned from a result with nothing found: its per-row
   * bytes add up to row_width, and it is found exactly when some column
   * carries the name, the last such column giving the value type and cell.
   */
  lemma ScanRowQuery(s: seq<byte>, st: seq<byte>, schema: seq<Column>, q: Query, rowStart: int, rowWidth: nat,
                     res: QueryResult)
    requires !res.found && ScanRow(s, st, schema, q, rowStart, rowWidth, res).Ok?
    ensures var r := ScanRow(s, st, schema, q, rowStart, rowWidth, res).value;
      RowSpan(schema, 0, |schema|) == rowWidth &&
      (r.found <==> LastMatch(st, schema, 0, q.name).Some?) &&
      (!r.found ==> r == res) &&
      (r.found ==>
        var k := LastMatch(st, schema, 0, q.name).value;
        Named(st, schema[k], q.name) &&
        r == res.(found := true, valueType := ValueType(schema[k].typeByte),
                  value := CellStored(s, schema[k], rowStart + RowSpan(schema, 0, k))))
  {
    ScanRowMeaning(s, st, schema, q, rowStart, rowWidth, res);
    ScanColumnsResult(s, st, schema, 0, q, rowStart, res);
    LastMatchMeaning(st, schema, 0, q.name);
  }

  /** The query facts for a result r scanned from table t, which sits at offset. */
  predicate QueryOutcome(s: seq<byte>, offset: int, t: Table, q: Query, r: QueryResult)
  {
    (r.found <==> 0 <= q.index < t.header.rows && LastMatch(t.strings, t.schema, 0, q.name).Some?) &&
    (0 <= q.index < t.header.rows ==> RowSpan(t.schema, 0, |t.schema|) == t.header.rowWidth) &&
    (!r.found ==> r == TableDefaults(t.header)) &&
    (r.found ==>
      var k := LastMatch(t.strings, t.schema, 0, q.name).value;
      var c := t.schema[k];
      Named(t.strings, c, q.name) &&
      r.valueType == ValueType(c.typeByte) &&
      r.value == CellStored(s, c, TableRow(offset, t, q.index) + RowSpan(t.schema, 0, k)) &&
      (StorageClass(c.typeByte) == COLUMN_STORAGE_ZERO ==> r.value == 0))
  }

  /** QueryOutcome holds for the result of the table's queried row, or for its defaults. */
  lemma TableQuery(s: seq<byte>, offset: int, t: Table, q: Query, r: Result<QueryResult>)
    requires r.Ok?
    requires r == if 0 <= q.index < t.header.rows
                  then ScanRow(s, t.strings, t.schema, q, TableRow(offset, t, q.index), t.header.rowWidth,
                               TableDefaults(t.header))
                  else Ok(TableDefaults(t.header))
    ensures QueryOutcome(s, offset, t, q, r.value)
  {
    if 0 <= q.index < t.header.rows {
      ScanRowQuery(s, t.strings, t.schema, q, TableRow(offset, t, q.index), t.header.rowWidth, TableDefaults(t.header));
    }
  }

  /**
   * A query of row index and column name: it is found exactly when the
   * index is a row of the table and some column carries the name; the
   * queried row's per-row bytes then add up to row_width, and the result
   * holds the value type and cell of the last such column, 0 for a zero
   * column. An index outside the table leaves the table's defaults.
   */
  lemma AnalyzeQuery(s: seq<byte>, offset: int, q: Query)
    ensures var r := Analyze(s, offset, Some(q));
      r.Ok? && r.value.valid ==> ReadTable(s, offset).Ok? && QueryOutcome(s, offset, ReadTable(s, offset).value, q, r.value)
  {
    var r := Analyze(s, offset, Some(q));
    if r.Ok? && r.value.valid {
      AnalyzeOnTable(s, offset, Some(q));
      TableQuery(s, offset, ReadTable(s, offset).value, q, r);
    }
  }

  // ---------------------------------------------------------------------
  // Schema layout

  /** The bytes a schema entry takes: type byte, name, and a constant column's inline value. */
  function EntrySize(c: Column): nat
  {
    var w := ValueWidth(ValueType(c.typeByte));
    5 + if StorageClass(c.typeByte) == COLUMN_STORAGE_CONSTANT && w.Some? then w.value else 0
  }

  /** The bytes entries j up to k take in the schema. */
  function EntrySpan(schema: seq<Column>, j: nat, k: nat): nat
    requires j <= k <= |schema|
    decreases k - j
  {
    if j == k then 0 else EntrySize(schema[j]) + EntrySpan(schema, j + 1, k)
  }

  /**
   * Column c is the schema entry at p: its type byte, then its big-endian
   * name; a constant column's value follows at p + 5 and has a width.
   */
  predicate EntryAt(s: seq<byte>, c: Column, p: int)
  {
    0 <= p && p + 5 <= |s| && c.typeByte == s[p] && c.name == BeValue(s[p + 1..p + 5]) &&
    if StorageClass(c.typeByte) == COLUMN_STORAGE_CONSTANT
    then ValueWidth(ValueType(c.typeByte)).Some? && c.constantOffset == p + 5 && p + EntrySize(c) <= |s|
    else c.constantOffset == 0
  }

  /** The first of the entries the schema loop reads: the column it makes and where the next entry starts. */
  lemma SchemaStep(s: seq<byte>, pos: int, n: nat, acc: seq<Column>) returns (c: Column, next: int)
    requires n > 0 && SchemaFrom(s, pos, n, acc).Ok?
    ensures EntryAt(s, c, pos) && next == pos + EntrySize(c)
    ensures SchemaFrom(s, pos, n, acc) == SchemaFrom(s, next, n - 1, acc + [c])
  {
    var t := s[pos];
    var constant := StorageClass(t) == COLUMN_STORAGE_CONSTANT;
    c := Column(t, BeValue(s[pos + 1..pos + 5]), if constant then pos + 5 else 0);
    SkipConstantWidth(s, pos + 5, t);
    next := if constant then SkipConstant(s, pos + 5, t).value else pos + 5;
  }

  /** Entries j onwards of cols lie back to back from p, each one as EntryAt describes. */
  predicate LaidOut(s: seq<byte>, cols: seq<Column>, j: nat, p: int)
    requires j <= |cols|
    decreases |cols| - j
  {
    j == |cols| || (EntryAt(s, cols[j], p) && LaidOut(s, cols, j + 1, p + EntrySize(cols[j])))
  }

  /** Back to back means entry k sits after the entries before it. */
  lemma {:induction false} LaidOutAt(s: seq<byte>, cols: seq<Column>, j: nat, p: int)
    requires j <= |cols| && LaidOut(s, cols, j, p)
    ensures forall k :: j <= k < |cols| ==> EntryAt(s, cols[k], p + EntrySpan(cols, j, k))
    decreases |cols| - j
  {
    if j < |cols| {
      LaidOutAt(s, cols, j + 1, p + EntrySize(cols[j]));
      forall k | j < k < |cols|
        ensures EntryAt(s, cols[k], p + EntrySpan(cols, j, k))
      {
        assert EntrySpan(cols, j, k) == EntrySize(cols[j]) + EntrySpan(cols, j + 1, k);
      }
    }
  }

  /** The schema loop reads n entries back to back from pos. */
  lemma {:induction false} SchemaLayout(s: seq<byte>, pos: int, n: nat, acc: seq<Column>)
    requires SchemaFrom(s, pos, n, acc).Ok?
    ensures var cols := SchemaFrom(s, pos, n, acc).value;
      |cols| == |acc| + n && cols[..|acc|] == acc && LaidOut(s, cols, |acc|, pos)
    decreases n
  {
    if n > 0 {
      var c, next := SchemaStep(s, pos, n, acc);
      var acc' := acc + [c];
      SchemaLayout(s, next, n - 1, acc');
      var cols := SchemaFrom(s, next, n - 1, acc').value;
      assert cols[..|acc|] == acc' [..|acc|] == acc && cols[|acc|] == acc'[|acc|] == c by {
        assert cols[..|acc'|] == acc';
      }
    }
  }

  /** A table's schema has one entry per column, laid out from offset + 32 as EntryAt describes. */
  lemma TableSchema(s: seq<byte>, offset: int) returns (t: Table)
    requires ReadTable(s, offset).Ok?
    ensures ReadTable(s, offset) == Ok(t) && |t.schema| == t.header.columns
    ensures forall k :: 0 <= k < |t.schema| ==> EntryAt(s, t.schema[k], offset + 32 + EntrySpan(t.schema, 0, k))
  {
    var h := ParseHeader(s, offset).value;
    var schema := SchemaFrom(s, offset + 32, h.columns, []).value;
    t := Table(h, schema, LoadStringTable(s, offset, h).value);
    assert ReadTable(s, offset) == Ok(t);
    SchemaLayout(s, offset + 32, h.columns, []);
    LaidOutAt(s, schema, 0, offset + 32);
  }


  // ---------------------------------------------------------------------
  // The query wrappers

  /** query_utf_nofail: a table must be there, and a queried cell must be found. */
  function QueryUtfNofail(s: seq<byte>, offset: int, query: Option<Query>): Result<QueryResult>
  {
    var r :- Analyze(s, offset, query);
    if !r.valid then Err(InvalidTable)
    else if query.Some? && !r.found then Err(KeyNotFound)
    else Ok(r)
  }

  /** query_utf_key: the cell of column name in row index. */
  function QueryUtfKey(s: seq<byte>, offset: int, index: int, name: seq<byte>): Result<QueryResult>
  {
    QueryUtfNofail(s, offset, Some(Query(name, index)))
  }

  /** query_utf_8byte. */
  function QueryUtf8Byte(s: seq<byte>, offset: int, index: int, name: seq<byte>): Result<nat>
  {
    var r :- QueryUtfKey(s, offset, index, name);
    if r.valueType != COLUMN_TYPE_8BYTE then Err(TypeMismatch) else Ok(ValueU64(r))
  }

  /** query_utf_4byte. */
  function QueryUtf4Byte(s: seq<byte>, offset: int, index: int, name: seq<byte>): Result<nat>
  {
    var r :- QueryUtfKey(s, offset, index, name);
    if r.valueType != COLUMN_TYPE_4BYTE then Err(TypeMismatch) else Ok(ValueU32(r))
  }

  /** query_utf_2byte. */
  function QueryUtf2Byte(s: seq<byte>, offset: int, index: int, name: seq<byte>): Result<nat>
  {
    var r :- QueryUtfKey(s, offset, index, name);
    if r.valueType != COLUMN_TYPE_2BYTE then Err(TypeMismatch) else Ok(ValueU16(r))
  }

  /** query_utf_string: the string-table offset held by a string cell. */
  function QueryUtfString(s: seq<byte>, offset: int, index: int, name: seq<byte>): Result<nat>
  {
    var r :- QueryUtfKey(s, offset, index, name);
    if r.valueType != COLUMN_TYPE_STRING then Err(TypeMismatch) else Ok(ValueString(r))
  }

  /** query_utf_string with a string table: the string a string cell points at. */
  function QueryUtfStringIn(s: seq<byte>, offset: int, index: int, name: seq<byte>, table: seq<byte>)
    : Result<seq<byte>>
  {
    var at :- QueryUtfString(s, offset, index, name);
    CStringAt(table, at)
  }

  /** query_utf_data: the offset and size held by a data cell. */
  function QueryUtfData(s: seq<byte>, offset: int, index: int, name: seq<byte>): Result<OffsetSize>
  {
    var r :- QueryUtfKey(s, offset, index, name);
    if r.valueType != COLUMN_TYPE_DATA then Err(TypeMismatch) else Ok(ValueData(r))
  }

  /**
   * load_utf_string_table: the string table of the table at offset, with a
   * zero byte appended; its position is computed in 64-bit arithmetic.
   */
  function LoadUtfStringTable(s: seq<byte>, offset: int): Result<seq<byte>>
  {
    var r :- QueryUtfNofail(s, offset, None);
    var bytes :- ReadBytes(s, offset + 8 + r.stringTableOffset, (r.dataOffset - r.stringTableOffset) % TWO_32);
    Ok(bytes + [0])
  }

  /**
   * query_utf_nofail passes on exactly the valid results that, for a
   * query, were found; otherwise it fails with InvalidTable or KeyNotFound.
   */
  lemma NofailMeaning(s: seq<byte>, offset: int, query: Option<Query>)
    ensures var a, r := Analyze(s, offset, query), QueryUtfNofail(s, offset, query);
      (r.Ok? <==> a.Ok? && a.value.valid && (query.Some? ==> a.value.found)) &&
      (r.Ok? ==> r == a) &&
      (a.Err? ==> r == a) &&
      (a.Ok? && !a.value.valid ==> r == Err(InvalidTable)) &&
      (a.Ok? && a.value.valid && query.Some? && !a.value.found ==> r == Err(KeyNotFound))
  {
  }

  /** A row index outside a table, or a name no column carries, is a key that is not found. */
  lemma KeyNotFoundCases(s: seq<byte>, offset: int, index: int, name: seq<byte>)
    requires Analyze(s, offset, Some(Query(name, index))).Ok? && Analyze(s, offset, Some(Query(name, index))).value.valid
    ensures ReadTable(s, offset).Ok?
    ensures var t := ReadTable(s, offset).value;
      !(0 <= index < t.header.rows) || LastMatch(t.strings, t.schema, 0, name).None? ==>
        QueryUtfKey(s, offset, index, name) == Err(KeyNotFound)
  {
    AnalyzeQuery(s, offset, Query(name, index));
  }

  /** Each typed accessor accepts exactly its own value type, so at most one of them succeeds for a key. */
  lemma TypedAccessors(s: seq<byte>, offset: int, index: int, name: seq<byte>)
    ensures var key := QueryUtfKey(s, offset, index, name);
      (QueryUtf8Byte(s, offset, index, name).Ok? <==> key.Ok? && key.value.valueType == 0x06) &&
      (QueryUtf4Byte(s, offset, index, name).Ok? <==> key.Ok? && key.value.valueType == 0x04) &&
      (QueryUtf2Byte(s, offset, index, name).Ok? <==> key.Ok? && key.value.valueType == 0x02) &&
      (QueryUtfString(s, offset, index, name).Ok? <==> key.Ok? && key.value.valueType == 0x0a) &&
      (QueryUtfData(s, offset, index, name).Ok? <==> key.Ok? && key.value.valueType == 0x0b)
    ensures var key := QueryUtfKey(s, offset, index, name);
      key.Ok? ==>
        (QueryUtf8Byte(s, offset, index, name).Err? ==> QueryUtf8Byte(s, offset, index, name).error == TypeMismatch) &&
        (QueryUtf4Byte(s, offset, index, name).Err? ==> QueryUtf4Byte(s, offset, index, name).error == TypeMismatch) &&
        (QueryUtf2Byte(s, offset, index, name).Err? ==> QueryUtf2Byte(s, offset, index, name).error == TypeMismatch) &&
        (QueryUtfString(s, offset, index, name).Err? ==> QueryUtfString(s, offset, index, name).error == TypeMismatch) &&
        (QueryUtfData(s, offset, index, name).Err? ==> QueryUtfData(s, offset, index, name).error == TypeMismatch)
    ensures (if QueryUtf8Byte(s, offset, index, name).Ok? then 1 else 0) +
            (if QueryUtf4Byte(s, offset, index, name).Ok? then 1 else 0) +
            (if QueryUtf2Byte(s, offset, index, name).Ok? then 1 else 0) +
            (if QueryUtfString(s, offset, index, name).Ok? then 1 else 0) +
            (if QueryUtfData(s, offset, index, name).Ok? then 1 else 0) <= 1
    ensures var key := QueryUtfKey(s, offset, index, name);
      (QueryUtf8Byte(s, offset, index, name).Ok? ==> QueryUtf8Byte(s, offset, index, name).value == ValueU64(key.value)) &&
      (QueryUtf4Byte(s, offset, index, name).Ok? ==> QueryUtf4Byte(s, offset, index, name).value == ValueU32(key.value)) &&
      (QueryUtf2Byte(s, offset, index, name).Ok? ==> QueryUtf2Byte(s, offset, index, name).value == ValueU16(key.value)) &&
      (QueryUtfString(s, offset, index, name).Ok? ==> QueryUtfString(s, offset, index, name).value == ValueString(key.value)) &&
      (QueryUtfData(s, offset, index, name).Ok? ==> QueryUtfData(s, offset, index, name).value == ValueData(key.value))
  {
  }

  // ---------------------------------------------------------------------
  // The values the accessors return

  /** The big-endian number a cell holds over its type's width; 0 for a zero column. */
  function CellNumber(s: seq<byte>, c: Column, cursor: int): nat
  {
    var p, w := CellPos(c, cursor), ValueWidth(ValueType(c.typeByte));
    if StorageClass(c.typeByte) == COLUMN_STORAGE_ZERO || w.None? || !(0 <= p && p + w.value <= |s|) then 0
    else BeValue(s[p..p + w.value])
  }

  /** The offset and size a data cell holds, as two big-endian 32-bit numbers; zeros for a zero column. */
  function CellData(s: seq<byte>, c: Column, cursor: int): OffsetSize
  {
    var p := CellPos(c, cursor);
    if StorageClass(c.typeByte) == COLUMN_STORAGE_ZERO || !(0 <= p && p + 8 <= |s|) then OffsetSize(0, 0)
    else OffsetSize(BeValue(s[p..p + 4]), BeValue(s[p + 4..p + 8]))
  }

  /** A non-data cell stores its big-endian number, or 0 where it cannot be read. */
  lemma CellStoredNumber(s: seq<byte>, c: Column, cursor: int)
    requires ValueType(c.typeByte) != COLUMN_TYPE_DATA
    ensures CellStored(s, c, cursor) == CellNumber(s, c, cursor)
  {
    ReadValueMeaning(s, CellPos(c, cursor), ValueType(c.typeByte));
  }

  /** A cell's number fits the width of its type. */
  lemma CellNumberBound(s: seq<byte>, c: Column, cursor: int)
    ensures var vt := ValueType(c.typeByte);
      (vt == COLUMN_TYPE_4BYTE || vt == COLUMN_TYPE_STRING ==> CellNumber(s, c, cursor) < TWO_32) &&
      (vt == COLUMN_TYPE_2BYTE ==> CellNumber(s, c, cursor) < 0x1_0000)
  {
    var p, vt := CellPos(c, cursor), ValueType(c.typeByte);
    var readable := StorageClass(c.typeByte) != COLUMN_STORAGE_ZERO && 0 <= p;
    if (vt == COLUMN_TYPE_4BYTE || vt == COLUMN_TYPE_STRING) && readable && p + 4 <= |s| {
      var b := s[p..p + 4];
      assert CellNumber(s, c, cursor) == BeValue(b);
      BytesBound(b);
    } else if vt == COLUMN_TYPE_2BYTE && readable && p + 2 <= |s| {
      var b := s[p..p + 2];
      assert CellNumber(s, c, cursor) == BeValue(b);
      BytesBound(b);
    }
  }

  /** Two and four big-endian bytes fit 16 and 32 bits. */
  lemma BytesBound(b: seq<byte>)
    ensures |b| == 2 ==> BeValue(b) < 0x1_0000
    ensures |b| == 4 ==> BeValue(b) < TWO_32
  {
    BeValueBound(b);
    Pow2Of32();
  }

  /** A data cell stores its offset and size packed as value_data packs them, each below 2^32. */
  lemma CellStoredData(s: seq<byte>, c: Column, cursor: int)
    requires ValueType(c.typeByte) == COLUMN_TYPE_DATA
    ensures var d := CellData(s, c, cursor);
      d.offset < TWO_32 && d.size < TWO_32 && CellStored(s, c, cursor) == PackData(d.offset, d.size)
  {
    var p := CellPos(c, cursor);
    ReadValueMeaning(s, p, COLUMN_TYPE_DATA);
    if StorageClass(c.typeByte) != COLUMN_STORAGE_ZERO && 0 <= p && p + 8 <= |s| {
      BytesBound(s[p..p + 4]);
      BytesBound(s[p + 4..p + 8]);
    }
  }

  /** The getters on a result holding a cell: each returns the cell's number, or its offset and size. */
  lemma GettersOnCell(s: seq<byte>, c: Column, cursor: int, r: QueryResult)
    requires r.valueType == ValueType(c.typeByte) && r.value == CellStored(s, c, cursor)
    ensures r.valueType == COLUMN_TYPE_8BYTE ==> ValueU64(r) == CellNumber(s, c, cursor)
    ensures r.valueType == COLUMN_TYPE_4BYTE ==> ValueU32(r) == CellNumber(s, c, cursor)
    ensures r.valueType == COLUMN_TYPE_2BYTE ==> ValueU16(r) == CellNumber(s, c, cursor)
    ensures r.valueType == COLUMN_TYPE_STRING ==> ValueString(r) == CellNumber(s, c, cursor)
    ensures r.valueType == COLUMN_TYPE_DATA ==> ValueData(r) == CellData(s, c, cursor)
  {
    if r.valueType != COLUMN_TYPE_DATA {
      CellStoredNumber(s, c, cursor);
      CellNumberBound(s, c, cursor);
    } else {
      CellStoredData(s, c, cursor);
      var d := CellData(s, c, cursor);
      ValueDataRoundTrip(r, d.offset, d.size);
      assert r == r.(value := PackData(d.offset, d.size));
    }
  }

  /** A key that is found comes from the table at offset with the facts QueryOutcome states. */
  lemma KeyOutcome(s: seq<byte>, offset: int, index: int, name: seq<byte>) returns (t: Table, r: QueryResult)
    requires QueryUtfKey(s, offset, index, name).Ok?
    ensures QueryUtfKey(s, offset, index, name) == Ok(r) && r.found
    ensures ReadTable(s, offset) == Ok(t) && QueryOutcome(s, offset, t, Query(name, index), r)
  {
    r := QueryUtfKey(s, offset, index, name).value;
    assert Analyze(s, offset, Some(Query(name, index))) == Ok(r);
    AnalyzeQuery(s, offset, Query(name, index));
    t := ReadTable(s, offset).value;
  }

  /**
   * The found column of a QueryOutcome is the last one carrying the name,
   * in a row of the table, and each getter of its type returns that cell's
   * number (offset and size for data) as stored in the file, untruncated.
   */
  lemma OutcomeValues(s: seq<byte>, offset: int, t: Table, q: Query, r: QueryResult) returns (k: nat)
    requires QueryOutcome(s, offset, t, q, r) && r.found
    ensures 0 <= q.index < t.header.rows
    ensures LastMatch(t.strings, t.schema, 0, q.name) == Some(k) && k < |t.schema|
    ensures var c, cursor := t.schema[k], TableRow(offset, t, q.index) + RowSpan(t.schema, 0, k);
      Named(t.strings, c, q.name) && r.valueType == ValueType(c.typeByte) &&
      (r.valueType == COLUMN_TYPE_8BYTE ==> ValueU64(r) == CellNumber(s, c, cursor)) &&
      (r.valueType == COLUMN_TYPE_4BYTE ==> ValueU32(r) == CellNumber(s, c, cursor)) &&
      (r.valueType == COLUMN_TYPE_2BYTE ==> ValueU16(r) == CellNumber(s, c, cursor)) &&
      (r.valueType == COLUMN_TYPE_STRING ==> ValueString(r) == CellNumber(s, c, cursor)) &&
      (r.valueType == COLUMN_TYPE_DATA ==> ValueData(r) == CellData(s, c, cursor))
  {
    k := LastMatch(t.strings, t.schema, 0, q.name).value;
    GettersOnCell(s, t.schema[k], TableRow(offset, t, q.index) + RowSpan(t.schema, 0, k), r);
  }

  /** query_utf_string with a string table returns the zero-terminated string at the cell's offset in that table. */
  lemma QueryUtfStringInMeaning(s: seq<byte>, offset: int, index: int, name: seq<byte>, table: seq<byte>)
    returns (at: nat, v: seq<byte>)
    requires QueryUtfStringIn(s, offset, index, name, table).Ok?
    ensures QueryUtfString(s, offset, index, name) == Ok(at) && QueryUtfStringIn(s, offset, index, name, table) == Ok(v)
    ensures at + |v| <= |table| && v == table[at..at + |v|]
    ensures forall i :: 0 <= i < |v| ==> v[i] != 0
    ensures at + |v| == |table| || table[at + |v|] == 0
  {
    at := QueryUtfString(s, offset, index, name).value;
    assert QueryUtfStringIn(s, offset, index, name, table) == CStringAt(table, at);
    v := CStringAt(table, at).value;
    CStringAtMeaning(table, at);
  }


  /**
   * An empty string table is read wherever it lies, even past the end of
   * the stream: the seek there is allowed and the read asks for no bytes.
   */
  lemma EmptyStringTable(s: seq<byte>, offset: int, h: Header)
    requires h.dataOffset == h.stringTableOffset
    ensures LoadStringTable(s, offset, h).Ok? <==> 0 <= (h.stringTableOffset + 8) % TWO_32 + offset
    ensures LoadStringTable(s, offset, h).Ok? ==> LoadStringTable(s, offset, h).value == [0]
  {
    assert StringTableSize(h) == 0;
  }

  /**
   * A table with no columns whose string table and data start at the same
   * offset, however far past the end of the stream that is: analyze_utf
   * accepts it without a query, and load_utf_string_table returns just the
   * appended zero byte.
   */
  lemma EmptyTableValid(s: seq<byte>)
    requires |s| >= 32 && s[..4] == UTF_SIGNATURE
    requires s[12..16] == s[16..20] && s[24] == 0 && s[25] == 0
    ensures ParseHeader(s, 0).Ok?
    ensures var h := ParseHeader(s, 0).value;
      h.stringTableOffset == h.dataOffset == BeValue(s[12..16]) &&
      Analyze(s, 0, None) == Ok(TableDefaults(h)) && TableDefaults(h).valid &&
      LoadUtfStringTable(s, 0) == Ok([0])
  {
    HeaderFields(s, 0);
    var h := ParseHeader(s, 0).value;
    assert h.columns == 0;
    EmptyStringTable(s, 0, h);
    assert ReadTable(s, 0) == Ok(Table(h, [], [0]));
    assert Analyze(s, 0, None) == Ok(TableDefaults(h));
    assert QueryUtfNofail(s, 0, None) == Ok(TableDefaults(h));
    assert ReadBytes(s, 8 + h.stringTableOffset, 0) == Ok([]);
  }

  /**
   * load_utf_string_table returns the string table analyze_utf reads
   * itself, unless the string table offset is within 8 of 2^32, where
   * analyze_utf's 32-bit position wraps and this one does not.
   */
  lemma LoadUtfStringTableMatches(s: seq<byte>, offset: int)
    requires LoadUtfStringTable(s, offset).Ok?
    ensures ReadTable(s, offset).Ok?
    ensures var t := ReadTable(s, offset).value;
      t.header.stringTableOffset + 8 < TWO_32 ==> LoadUtfStringTable(s, offset).value == t.strings
  {
    var t := NofailTable(s, offset);
    var h := t.header;
    assert t.strings == LoadStringTable(s, offset, h).value;
    if h.stringTableOffset + 8 < TWO_32 {
      DivModUnique(h.stringTableOffset + 8, TWO_32, 0, h.stringTableOffset + 8);
      assert LoadUtfStringTable(s, offset) == LoadStringTable(s, offset, h);
    }
  }

  /** query_utf_nofail without a query succeeds with the defaults of the table at offset. */
  lemma NofailTable(s: seq<byte>, offset: int) returns (t: Table)
    requires QueryUtfNofail(s, offset, None).Ok?
    ensures ReadTable(s, offset) == Ok(t) && QueryUtfNofail(s, offset, None) == Ok(TableDefaults(t.header))
  {
    NofailMeaning(s, offset, None);
    AnalyzeOnTable(s, offset, None);
    t := ReadTable(s, offset).value;
  }

}
