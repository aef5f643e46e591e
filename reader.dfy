/** Batch files, older revision: the same text and spreadsheet layouts as
    the current one, but a record has exactly five fields, all trimmed of
    spaces, the payload is decoded from hex into bytes, and there is no
    hash field. */
module LegacyBatch {
  import opened Outcome
  import opened Hex
  import Text
  import Numbers
  import BatchRW

  /** TransactionParams of the older revision; the payload is bytes. */
  datatype TxParams = TxParams(from: Address, to: Address, value: int, data: seq<Byte>, passphrase: string)

  datatype ReadError =
    | EmptyScanner
    | InvalidContent
    | EmptyFileContent
    | EOF
    /** Go's run-time panic on an index out of range. */
    | IndexOutOfRange
    | Num(cause: Numbers.NumError)

  // ---------------------------------------------------------------------
  // Records

  /** The record of five trimmed fields: the value must be an int64 in
      base 10, and the payload is read as hex. */
  function Build(req: seq<string>): Result<TxParams, ReadError>
    requires |req| == BatchRW.FieldNumber
  {
    match Numbers.ParseInt(req[2])
    case Failure(e) => Failure(Num(e))
    case Success(v) => Success(TxParams(HexToAddress(req[0]), HexToAddress(req[1]), v, FromHex(req[3]), req[4]))
  }

  /** parseLine / parseRow: anything but exactly five fields is invalid
      content. */
  function RecordOf(fields: seq<string>): (r: Result<TxParams, ReadError>)
    ensures r.Success? ==> |fields| == BatchRW.FieldNumber && Numbers.IsInt64(r.value.value)
    ensures r.Failure? ==> r.error == InvalidContent || r.error.Num?
    ensures |fields| != BatchRW.FieldNumber ==> r == Failure(InvalidContent)
  {
    if |fields| != BatchRW.FieldNumber then Failure(InvalidContent)
    else Build(BatchRW.Required(fields))
  }

  /** ExcelReader.parseRow: check the count, trim in place, read the
      value. */
  method ParseRow(row: seq<string>) returns (r: Result<TxParams, ReadError>)
    ensures r == RecordOf(row)
  {
    if |row| != BatchRW.FieldNumber {
      return Failure(InvalidContent);
    }
    var g := BatchRW.TrimRequired(row);
    assert g == g[..BatchRW.FieldNumber];
    var value := Numbers.ParseInt(g[2]);
    if value.Failure? {
      return Failure(Num(value.error));
    }
    r := Success(TxParams(HexToAddress(g[0]), HexToAddress(g[1]), value.value, FromHex(g[3]), g[4]));
  }

  /** RawTextReader.parseLine: the line split on commas, then read as a
      row. */
  method ParseLine(line: string) returns (r: Result<TxParams, ReadError>)
    ensures r == RecordOf(BatchRW.LineFields(line))
  {
    r := ParseRow(Text.Split(line, ','));
  }

  /** The fields map to the record positionally, each trimmed; the payload
      is the bytes its hex text denotes. */
  lemma RecordFields(fields: seq<string>)
    requires RecordOf(fields).Success?
    ensures var p := RecordOf(fields).value;
            |fields| == BatchRW.FieldNumber &&
            p.from == HexToAddress(Text.Trim(fields[0], ' ')) &&
            p.to == HexToAddress(Text.Trim(fields[1], ' ')) &&
            Numbers.IsDecimalText(Text.Trim(fields[2], ' ')) &&
            p.value == Numbers.DecimalValue(Text.Trim(fields[2], ' ')) &&
            p.data == FromHex(Text.Trim(fields[3], ' ')) &&
            p.passphrase == Text.Trim(fields[4], ' ')
  {
    Numbers.ParseIntMeaning(Text.Trim(fields[2], ' '));
  }

  /** On five fields the two revisions accept the same records and read the
      same sender, receiver, value and passphrase; the older one decodes
      the payload text the newer one keeps. */
  lemma RevisionsAgree(fields: seq<string>)
    requires |fields| == BatchRW.FieldNumber
    ensures RecordOf(fields).Success? <==> BatchRW.RecordOf(fields).Success?
    ensures RecordOf(fields).Success? ==>
              var p := BatchRW.RecordOf(fields).value;
              RecordOf(fields).value == TxParams(p.from, p.to, p.value, FromHex(p.data), p.passphrase)
    ensures RecordOf(fields).Failure? ==>
              RecordOf(fields) == Failure(Num(BatchRW.RecordOf(fields).error.cause))
  {
    var req := BatchRW.Required(fields);
    assert RecordOf(fields) == Build(req);
    assert BatchRW.RecordOf(fields) == BatchRW.Build(req, None);
  }

  /** A line annotated by the newer writer has six fields, which the older
      reader rejects. */
  lemma AnnotatedLineRejected(line: string, value: string)
    requires ',' !in value && |BatchRW.LineFields(line)| == BatchRW.FieldNumber
    ensures RecordOf(BatchRW.LineFields(line + ", " + value)) == Failure(InvalidContent)
  {
    BatchRW.AnnotatedFields(line, value);
  }

  /** Writing a transaction as a line, its payload as "0x" hex, and parsing
      the line gives the transaction back. */
  lemma FormatLineRoundTrip(from: Address, to: Address, value: int, data: seq<Byte>, passphrase: string)
    requires Numbers.IsInt64(value) && BatchRW.PlainField(passphrase)
    ensures RecordOf(BatchRW.LineFields(BatchRW.FormatLine(from, to, value, "0x" + Bytes2Hex(data), passphrase))) ==
            Success(TxParams(from, to, value, data, passphrase))
  {
    BatchRW.HexTextPlain(data);
    FormatLineRecord(from, to, value, "0x" + Bytes2Hex(data), passphrase);
    FromHexOfBytesHex(data);
  }

  /** A formatted line reads back with its payload text decoded. */
  lemma FormatLineRecord(from: Address, to: Address, value: int, payload: string, passphrase: string)
    requires Numbers.IsInt64(value) && BatchRW.PlainField(payload) && BatchRW.PlainField(passphrase)
    ensures RecordOf(BatchRW.LineFields(BatchRW.FormatLine(from, to, value, payload, passphrase))) ==
            Success(TxParams(from, to, value, FromHex(payload), passphrase))
  {
    var fs := [AddressHex(from), AddressHex(to), Numbers.FormatInt(value), payload, passphrase];
    BatchRW.FormatLineFields(from, to, value, payload, passphrase);
    assert RecordOf(fs) == Build(fs) by {
      BatchRW.FormatFieldsPlain(from, to, value);
      BatchRW.UnpaddedRequired(fs);
    }
    assert Numbers.ParseInt(fs[2]) == Success(value) by {
      Numbers.FormatParseInt(value);
    }
    HexToAddressOfAddressHex(from);
    HexToAddressOfAddressHex(to);
  }

  // ---------------------------------------------------------------------
  // Reading many records

  /** Reads a text file line by line; `pos` counts the lines the scanner
      has consumed. */
  class RawTextReader {
    const hasScanner: bool
    const lines: seq<string>
    var pos: nat

    predicate Valid()
      reads this
    {
      pos <= |lines|
    }

    /** NewRawTextReader over a file with the given content. */
    constructor (content: string)
      ensures Valid() && hasScanner && lines == Text.ScanLines(content) && pos == 0
    {
      hasScanner := true;
      lines := Text.ScanLines(content);
      pos := 0;
    }

    /** The zero RawTextReader, which has no scanner. */
    constructor WithoutScanner()
      ensures Valid() && !hasScanner && lines == [] && pos == 0
    {
      hasScanner := false;
      lines := [];
      pos := 0;
    }

    /** The next line's record, or EOF once the lines are exhausted. */
    method Read() returns (r: Result<TxParams, ReadError>)
      requires Valid()
      modifies this
      ensures Valid()
      ensures !hasScanner ==> r == Failure(EmptyScanner) && pos == old(pos)
      ensures hasScanner && old(pos) < |lines| ==> r == RecordOf(BatchRW.LineFields(lines[old(pos)])) && pos == old(pos) + 1
      ensures hasScanner && old(pos) == |lines| ==> r == Failure(EOF) && pos == old(pos)
    {
      if !hasScanner {
        return Failure(EmptyScanner);
      }
      if pos < |lines| {
        pos := pos + 1;
        r := ParseLine(lines[pos - 1]);
      } else {
        r := Failure(EOF);
      }
    }

    /** The records of all remaining lines that parse, in file order; the
        lines that do not are skipped. */
    method ReadAll() returns (r: Result<seq<TxParams>, ReadError>)
      requires Valid()
      modifies this
      ensures Valid()
      ensures !hasScanner ==> r == Failure(EmptyScanner) && pos == old(pos)
      ensures hasScanner ==> r == Success(BatchRW.Kept(RecordOf, BatchRW.AllLineFields(lines)[old(pos)..])) && pos == |lines|
    {
      if !hasScanner {
        return Failure(EmptyScanner);
      }
      var start := pos;
      var params: seq<TxParams> := [];
      ghost var all := BatchRW.AllLineFields(lines);
      var i := start;
      while i < |lines|
        invariant start <= i <= |lines|
        invariant params == BatchRW.Kept(RecordOf, all[start..i])
      {
        var p := ParseLine(lines[i]);
        BatchRW.KeptStep(RecordOf, all, start, i);
        if p.Success? {
          params := params + [p.value];
        }
        i := i + 1;
      }
      assert all[start..i] == all[start..];
      pos := i;
      r := Success(params);
    }
  }

  /** Reads the rows of one sheet of a spreadsheet; the first row is a
      header. `idx` is the row cursor Read advances. */
  class ExcelReader {
    const sheet: string
    const rows: seq<seq<string>>
    var idx: int

    /** NewExcelReader over a sheet with the given rows. */
    constructor (sheet: string, rows: seq<seq<string>>)
      ensures this.sheet == sheet && this.rows == rows && idx == 0
    {
      this.sheet := sheet;
      this.rows := rows;
      idx := 0;
    }

    /** ExcelReader.Read as written: the cursor moves on, and while rows
        remain at or past it the answer is EOF; past the end, indexing the
        rows panics. It never yields a record. */
    method Read() returns (r: Result<TxParams, ReadError>)
      requires idx >= 0
      modifies this
      ensures r.Failure? && idx >= 0
      ensures |rows| < 1 ==> r == Failure(EmptyFileContent) && idx == old(idx)
      ensures |rows| >= 1 ==> idx == old(idx) + 1 &&
                              r == Failure(if |rows| >= idx then EOF else IndexOutOfRange)
    {
      if |rows| < 1 {
        return Failure(EmptyFileContent);
      }
      idx := idx + 1;
      if |rows| >= idx {
        return Failure(EOF);
      }
      r := Failure(IndexOutOfRange);
    }

    /** The records of every row after the header that parse, in order; an
        empty sheet is an error. */
    method ReadAll() returns (r: Result<seq<TxParams>, ReadError>)
      ensures |rows| < 1 ==> r == Failure(EmptyFileContent)
      ensures |rows| >= 1 ==> r == Success(BatchRW.Kept(RecordOf, rows[1..]))
    {
      if |rows| < 1 {
        return Failure(EmptyFileContent);
      }
      var params: seq<TxParams> := [];
      for i := 1 to |rows|
        invariant params == BatchRW.Kept(RecordOf, rows[1..i])
      {
        var p := ParseRow(rows[i]);
        BatchRW.KeptStep(RecordOf, rows, 1, i);
        if p.Success? {
          params := params + [p.value];
        }
      }
      assert rows[1..|rows|] == rows[1..];
      r := Success(params);
    }
  }
}
