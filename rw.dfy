/** Batch files, current revision: a batch is a delimited text file, one
    transaction per line, or a spreadsheet, one transaction per row after a
    header row. A record has five positional fields (sender, receiver,
    value, payload, passphrase) and an optional sixth, the hash of the
    transaction once it was sent. A text file can be annotated line by line
    and written back; a spreadsheet cell by cell. */
module BatchRW {
  import opened Outcome
  import opened Hex
  import Text
  import Numbers

  /** Number of required fields of a record. */
  const FieldNumber: nat := 5

  /** TransactionParams; the payload is kept as text. */
  datatype TxParams = TxParams(from: Address, to: Address, value: int, data: string,
                               passphrase: string, hash: Hash, status: bool)

  datatype RWError =
    | EmptyScanner
    | InvalidContent
    | EmptyFileContent
    | RowIndexExceed
    | EOF
    /** Go's run-time panic on an index out of range. */
    | IndexOutOfRange
    | Num(cause: Numbers.NumError)

  // ---------------------------------------------------------------------
  // Records

  /** The five required fields, trimmed of spaces. */
  function Required(fields: seq<string>): (r: seq<string>)
    requires |fields| >= FieldNumber
    ensures |r| == FieldNumber
  {
    [Text.Trim(fields[0], ' '), Text.Trim(fields[1], ' '), Text.Trim(fields[2], ' '),
     Text.Trim(fields[3], ' '), Text.Trim(fields[4], ' ')]
  }

  /** The record of five trimmed required fields and the text of the hash,
      if there is one: the value must be an int64 in base 10. */
  function Build(req: seq<string>, hashText: Option<string>): Result<TxParams, RWError>
    requires |req| == FieldNumber
  {
    match Numbers.ParseInt(req[2])
    case Failure(e) => Failure(Num(e))
    case Success(v) =>
      Success(TxParams(HexToAddress(req[0]), HexToAddress(req[1]), v, req[3], req[4], HashOf(hashText), false))
  }

  /** The hash of a record: read from the hash text, zero without one. */
  function HashOf(hashText: Option<string>): Hash
  {
    if hashText.Some? then HexToHash(hashText.value) else Zeros(HashLength)
  }

  /** The hash text plays no part in whether a record builds, nor in any
      field but the hash. */
  lemma BuildHash(req: seq<string>, a: Option<string>, b: Option<string>)
    requires |req| == FieldNumber
    ensures Build(req, a).Success? <==> Build(req, b).Success?
    ensures Build(req, a).Failure? ==> Build(req, a) == Build(req, b)
    ensures Build(req, b).Success? ==> Build(req, b).value == Build(req, a).value.(hash := HashOf(b))
  {
  }

  /** The record a line's or row's fields give, as parseLine and parseRow
      read it: fewer than five fields is invalid content, and a sixth
      field is read as the hash without being trimmed. */
  function RecordOf(fields: seq<string>): Result<TxParams, RWError>
  {
    if |fields| < FieldNumber then Failure(InvalidContent)
    else Build(Required(fields), if |fields| > FieldNumber then Some(fields[FieldNumber]) else None)
  }

  /** The record as evidently intended: the sixth field trimmed like the
      other five before it is read as the hash, so that a line annotated
      by the text writer reads back with its hash. */
  function RecordTrimmed(fields: seq<string>): Result<TxParams, RWError>
  {
    if |fields| < FieldNumber then Failure(InvalidContent)
    else Build(Required(fields), if |fields| > FieldNumber then Some(Text.Trim(fields[FieldNumber], ' ')) else None)
  }

  /** The two readings differ only when there is a sixth field with a
      space at either end, and then only in the hash. */
  lemma RecordTrimmedAgrees(fields: seq<string>)
    ensures RecordTrimmed(fields).Success? <==> RecordOf(fields).Success?
    ensures RecordOf(fields).Failure? ==> RecordTrimmed(fields) == RecordOf(fields)
    ensures RecordOf(fields).Success? ==>
              RecordTrimmed(fields).value == RecordOf(fields).value.(hash := RecordTrimmed(fields).value.hash)
    ensures |fields| > FieldNumber && PlainField(fields[FieldNumber]) ==> RecordTrimmed(fields) == RecordOf(fields)
  {
    if |fields| >= FieldNumber {
      var req := Required(fields);
      var raw := if |fields| > FieldNumber then Some(fields[FieldNumber]) else None;
      var cut := if |fields| > FieldNumber then Some(Text.Trim(fields[FieldNumber], ' ')) else None;
      BuildHash(req, raw, cut);
      if |fields| > FieldNumber && PlainField(fields[FieldNumber]) {
        Text.TrimUnpadded(fields[FieldNumber], ' ');
      }
    }
  }

  /** The fields of a text line. */
  function LineFields(line: string): seq<string>
  {
    Text.Split(line, ',')
  }

  /** The records among `records` that `parse` accepts, in order. Both
      revisions' readers keep what their parser accepts and skip the
      rest. */
  function Kept<T, E>(parse: seq<string> -> Result<T, E>, records: seq<seq<string>>): (r: seq<T>)
    ensures |r| <= |records|
  {
    if records == [] then []
    else
      var last := records[|records| - 1];
      Kept(parse, records[..|records| - 1]) + (if parse(last).Success? then [parse(last).value] else [])
  }

  /** The fields of every line. */
  function AllLineFields(lines: seq<string>): (r: seq<seq<string>>)
    ensures |r| == |lines|
  {
    seq(|lines|, i requires 0 <= i < |lines| => LineFields(lines[i]))
  }

  /** The trimming loop of parseLine and parseRow: the five required
      fields trimmed in place, the others left as they are. */
  method TrimRequired(fields: seq<string>) returns (g: seq<string>)
    requires |fields| >= FieldNumber
    ensures |g| == |fields| && g[..FieldNumber] == Required(fields) && g[FieldNumber..] == fields[FieldNumber..]
  {
    var f := new string[|fields|](i requires 0 <= i < |fields| => fields[i]);
    for i := 0 to FieldNumber
      invariant forall k :: 0 <= k < i ==> f[k] == Text.Trim(fields[k], ' ')
      invariant forall k :: i <= k < f.Length ==> f[k] == fields[k]
    {
      f[i] := Text.Trim(f[i], ' ');
    }
    g := f[..];
    var req := Required(fields);
    assert g[0] == req[0] && g[1] == req[1] && g[2] == req[2] && g[3] == req[3] && g[4] == req[4];
    assert g[..FieldNumber] == req;
  }

  /** ExcelReader.parseRow: trim the five required fields in place, read
      the value, then the optional hash. */
  method ParseRow(row: seq<string>) returns (r: Result<TxParams, RWError>)
    ensures r == RecordOf(row)
  {
    if |row| < FieldNumber {
      return Failure(InvalidContent);
    }
    var g := TrimRequired(row);
    var value := Numbers.ParseInt(g[2]);
    if value.Failure? {
      return Failure(Num(value.error));
    }
    var param := TxParams(HexToAddress(g[0]), HexToAddress(g[1]), value.value, g[3], g[4], Zeros(HashLength), false);
    if |g| >= FieldNumber + 1 {
      param := param.(hash := HexToHash(g[5]));
    }
    r := Success(param);
  }

  /** RawTextReader.parseLine: the line split on commas, then read as a
      row. */
  method ParseLine(line: string) returns (r: Result<TxParams, RWError>)
    ensures r == RecordOf(LineFields(line))
  {
    r := ParseRow(Text.Split(line, ','));
  }

  // ---------------------------------------------------------------------
  // Properties of records

  /** A record is invalid content exactly when it has fewer than five
      fields; with five or more, it fails only on a value ParseInt
      rejects, with ParseInt's error. */
  lemma RecordErrors(fields: seq<string>)
    ensures RecordOf(fields) == Failure(InvalidContent) <==> |fields| < FieldNumber
    ensures |fields| >= FieldNumber ==>
              (RecordOf(fields).Failure? <==> Numbers.ParseInt(Text.Trim(fields[2], ' ')).Failure?)
    ensures |fields| >= FieldNumber && RecordOf(fields).Failure? ==>
              RecordOf(fields).error == Num(Numbers.ParseInt(Text.Trim(fields[2], ' ')).error)
  {
  }

  /** The fields map to the record positionally, the first five trimmed;
      a sixth, as it stands, sets the hash and later ones are ignored. */
  lemma RecordFields(fields: seq<string>)
    requires RecordOf(fields).Success?
    ensures var p := RecordOf(fields).value;
            |fields| >= FieldNumber &&
            p.from == HexToAddress(Text.Trim(fields[0], ' ')) &&
            p.to == HexToAddress(Text.Trim(fields[1], ' ')) &&
            Numbers.IsDecimalText(Text.Trim(fields[2], ' ')) &&
            p.value == Numbers.DecimalValue(Text.Trim(fields[2], ' ')) &&
            p.data == Text.Trim(fields[3], ' ') &&
            p.passphrase == Text.Trim(fields[4], ' ') &&
            p.hash == (if |fields| > FieldNumber then HexToHash(fields[5]) else Zeros(HashLength)) &&
            !p.status
  {
    Numbers.ParseIntMeaning(Text.Trim(fields[2], ' '));
  }

  /** Fields past the sixth play no part. */
  lemma ExtraFieldsIgnored(fields: seq<string>, extra: seq<string>)
    requires |fields| >= FieldNumber + 1
    ensures RecordOf(fields + extra) == RecordOf(fields)
  {
    var gs := fields + extra;
    assert Required(gs) == Required(fields);
    assert gs[FieldNumber] == fields[FieldNumber];
  }

  /** Two field lists that agree on the five required fields give the same
      record up to the hash, or the same error. */
  lemma SameRequiredFields(fs: seq<string>, gs: seq<string>)
    requires |fs| >= FieldNumber && |gs| >= FieldNumber && fs[..FieldNumber] == gs[..FieldNumber]
    ensures RecordOf(fs).Failure? <==> RecordOf(gs).Failure?
    ensures RecordOf(fs).Failure? ==> RecordOf(fs) == RecordOf(gs)
    ensures RecordOf(fs).Success? ==>
              RecordOf(gs).value == RecordOf(fs).value.(hash := RecordOf(gs).value.hash)
    ensures RecordOf(gs).Success? && |gs| > FieldNumber ==>
              RecordOf(gs).value.hash == HexToHash(gs[FieldNumber])
  {
    assert Required(fs) == Required(gs) by {
      assert fs[0] == gs[0] && fs[1] == gs[1] && fs[2] == gs[2] by {
        assert fs[..FieldNumber][0] == fs[0] && fs[..FieldNumber][1] == fs[1] && fs[..FieldNumber][2] == fs[2];
        assert gs[..FieldNumber][0] == gs[0] && gs[..FieldNumber][1] == gs[1] && gs[..FieldNumber][2] == gs[2];
      }
      assert fs[3] == gs[3] && fs[4] == gs[4] by {
        assert fs[..FieldNumber][3] == fs[3] && fs[..FieldNumber][4] == fs[4];
        assert gs[..FieldNumber][3] == gs[3] && gs[..FieldNumber][4] == gs[4];
      }
    }
    var hf := if |fs| > FieldNumber then Some(fs[FieldNumber]) else None;
    var hg := if |gs| > FieldNumber then Some(gs[FieldNumber]) else None;
    assert RecordOf(fs) == Build(Required(fs), hf);
    assert RecordOf(gs) == Build(Required(fs), hg);
    BuildHash(Required(fs), hf, hg);
  }

  /** Kept works record by record: it keeps the records of a concatenation
      in order, and a single record exactly when it parses. */
  lemma {:induction false} KeptConcat<T, E>(parse: seq<string> -> Result<T, E>, a: seq<seq<string>>, b: seq<seq<string>>)
    ensures Kept(parse, a + b) == Kept(parse, a) + Kept(parse, b)
    decreases |b|
  {
    if b != [] {
      var n := |b| - 1;
      KeptConcat(parse, a, b[..n]);
      var last := b[n];
      assert (a + b)[..|a + b| - 1] == a + b[..n];
      assert (a + b)[|a + b| - 1] == last;
      var tail := if parse(last).Success? then [parse(last).value] else [];
      assert Kept(parse, b) == Kept(parse, b[..n]) + tail;
      assert Kept(parse, a + b) == Kept(parse, a + b[..n]) + tail;
    } else {
      assert a + b == a;
    }
  }

  lemma KeptSingle<T, E>(parse: seq<string> -> Result<T, E>, fields: seq<string>)
    ensures Kept(parse, [fields]) == if parse(fields).Success? then [parse(fields).value] else []
  {
    assert [fields][..0] == [];
  }

  /** Kept over a growing window of records. */
  lemma KeptStep<T, E>(parse: seq<string> -> Result<T, E>, rs: seq<seq<string>>, a: nat, i: nat)
    requires a <= i < |rs|
    ensures Kept(parse, rs[a..i + 1]) == Kept(parse, rs[a..i]) + (if parse(rs[i]).Success? then [parse(rs[i]).value] else [])
  {
    assert rs[a..i + 1][..i - a] == rs[a..i];
    assert rs[a..i + 1][i - a] == rs[i];
  }

  /** A text line of the five fields written out, read back. */
  function FormatLine(from: Address, to: Address, value: int, data: string, passphrase: string): string
  {
    Text.Join([AddressHex(from), AddressHex(to), Numbers.FormatInt(value), data, passphrase], ",")
  }

  /** A text field that parses as itself: no comma, no surrounding space. */
  predicate PlainField(s: string)
  {
    ',' !in s && (s == [] || (s[0] != ' ' && s[|s| - 1] != ' '))
  }

  /** Writing the fields of a transaction as a line and parsing the line
      gives the transaction back. */
  lemma FormatLineRoundTrip(from: Address, to: Address, value: int, data: string, passphrase: string)
    requires Numbers.IsInt64(value) && PlainField(data) && PlainField(passphrase)
    ensures RecordOf(LineFields(FormatLine(from, to, value, data, passphrase))) ==
            Success(TxParams(from, to, value, data, passphrase, Zeros(HashLength), false))
  {
    var fs := [AddressHex(from), AddressHex(to), Numbers.FormatInt(value), data, passphrase];
    FormatLineFields(from, to, value, data, passphrase);
    FormatFieldsPlain(from, to, value);
    UnpaddedRequired(fs);
    assert RecordOf(fs) == Build(fs, None);
    HexToAddressOfAddressHex(from);
    HexToAddressOfAddressHex(to);
    Numbers.FormatParseInt(value);
  }

  /** The fields of a formatted line are the five texts written. */
  lemma FormatLineFields(from: Address, to: Address, value: int, data: string, passphrase: string)
    requires PlainField(data) && PlainField(passphrase)
    ensures LineFields(FormatLine(from, to, value, data, passphrase)) ==
            [AddressHex(from), AddressHex(to), Numbers.FormatInt(value), data, passphrase]
  {
    var fs := [AddressHex(from), AddressHex(to), Numbers.FormatInt(value), data, passphrase];
    FormatFieldsPlain(from, to, value);
    assert forall k :: 0 <= k < |fs| ==> ',' !in fs[k];
    Text.SplitJoin(fs, ',');
  }

  /** Five plain fields are their own trimmed required fields. */
  lemma UnpaddedRequired(fs: seq<string>)
    requires |fs| == FieldNumber && forall k :: 0 <= k < |fs| ==> PlainField(fs[k])
    ensures Required(fs) == fs
  {
    assert PlainField(fs[0]) && PlainField(fs[1]) && PlainField(fs[2]);
    assert PlainField(fs[3]) && PlainField(fs[4]);
    Text.TrimUnpadded(fs[0], ' ');
    Text.TrimUnpadded(fs[1], ' ');
    Text.TrimUnpadded(fs[2], ' ');
    Text.TrimUnpadded(fs[3], ' ');
    Text.TrimUnpadded(fs[4], ' ');
  }

  lemma FormatFieldsPlain(from: Address, to: Address, value: int)
    ensures PlainField(AddressHex(from)) && PlainField(AddressHex(to)) && PlainField(Numbers.FormatInt(value))
  {
    HexTextPlain(from);
    HexTextPlain(to);
    DecimalPlain(value);
  }

  /** The "0x" hex text of any bytes is a plain field. */
  lemma HexTextPlain(b: seq<Byte>)
    ensures PlainField("0x" + Bytes2Hex(b))
  {
    var s := "0x" + Bytes2Hex(b);
    Bytes2HexDigits(b);
    assert forall k :: 0 <= k < |s| ==> s[k] != ',' && s[k] != ' ' by {
      forall k | 0 <= k < |s| ensures s[k] != ',' && s[k] != ' ' {
        if k >= 2 { assert s[k] == Bytes2Hex(b)[k - 2]; }
      }
    }
  }

  lemma DecimalPlain(value: int)
    ensures PlainField(Numbers.FormatInt(value))
  {
    var s := Numbers.FormatInt(value);
    var m := if value < 0 then -value else value;
    assert forall k :: 0 <= k < |s| ==> s[k] != ',' && s[k] != ' ' by {
      forall k | 0 <= k < |s| ensures s[k] != ',' && s[k] != ' ' {
        if value < 0 && k >= 1 { assert s[k] == Numbers.Digits(m)[k - 1]; }
      }
    }
  }

  // ---------------------------------------------------------------------
  // Readers

  /** Reads a delimited text file line by line, as a bufio.Scanner yields
      the lines. `pos` counts the lines the scanner has consumed. */
  class RawTextReader {
    const hasScanner: bool
    const lines: seq<string>
    var pos: nat

    predicate Valid()
      reads this
    {
      pos <= |lines|
    }

    /** NewRawTextReader over a file with the given content. */
    constructor (content: string)
      ensures Valid() && hasScanner && lines == Text.ScanLines(content) && pos == 0
    {
      hasScanner := true;
      lines := Text.ScanLines(content);
      pos := 0;
    }

    /** The zero RawTextReader, which has no scanner. */
    constructor WithoutScanner()
      ensures Valid() && !hasScanner && lines == [] && pos == 0
    {
      hasScanner := false;
      lines := [];
      pos := 0;
    }

    /** The next line's record, or EOF once the lines are exhausted. */
    method Read() returns (r: Result<TxParams, RWError>)
      requires Valid()
      modifies this
      ensures Valid()
      ensures !hasScanner ==> r == Failure(EmptyScanner) && pos == old(pos)
      ensures hasScanner && old(pos) < |lines| ==> r == RecordOf(LineFields(lines[old(pos)])) && pos == old(pos) + 1
      ensures hasScanner && old(pos) == |lines| ==> r == Failure(EOF) && pos == old(pos)
    {
      if !hasScanner {
        return Failure(EmptyScanner);
      }
      if pos < |lines| {
        pos := pos + 1;
        r := ParseLine(lines[pos - 1]);
      } else {
        r := Failure(EOF);
      }
    }

    /** The records of all remaining lines that parse, in file order;
      the lines that do not are skipped. */
    method ReadAll() returns (r: Result<seq<TxParams>, RWError>)
      requires Valid()
      modifies this
      ensures Valid()
      ensures !hasScanner ==> r == Failure(EmptyScanner) && pos == old(pos)
      ensures hasScanner ==> r == Success(Kept(RecordOf, AllLineFields(lines)[old(pos)..])) && pos == |lines|
    {
      if !hasScanner {
        return Failure(EmptyScanner);
      }
      var start := pos;
      var params: seq<TxParams> := [];
      ghost var all := AllLineFields(lines);
      var i := start;
      while i < |lines|
        invariant start <= i <= |lines|
        invariant params == Kept(RecordOf, all[start..i])
      {
        var p := ParseLine(lines[i]);
        KeptStep(RecordOf, all, start, i);
        if p.Success? {
          params := params + [p.value];
        }
        i := i + 1;
      }
      assert all[start..i] == all[start..];
      pos := i;
      r := Success(params);
    }
  }

  /** Reads the rows of one sheet of a spreadsheet; the first row is a
      header. `idx` is the row cursor Read advances. */
  class ExcelReader {
    const sheet: string
    const rows: seq<seq<string>>
    var idx: int

    /** NewExcelReader over a sheet with the given rows. */
    constructor (sheet: string, rows: seq<seq<string>>)
      ensures this.sheet == sheet && this.rows == rows && idx == 0
    {
      this.sheet := sheet;
      this.rows := rows;
      idx := 0;
    }

    /** ExcelReader.Read as written: the cursor moves on, and while rows
        remain at or past it the answer is EOF; past the end, indexing the
        rows panics. It never yields a record. */
    method Read() returns (r: Result<TxParams, RWError>)
      requires idx >= 0
      modifies this
      ensures r.Failure? && idx >= 0
      ensures |rows| < 1 ==> r == Failure(EmptyFileContent) && idx == old(idx)
      ensures |rows| >= 1 ==> idx == old(idx) + 1 &&
                              r == Failure(if |rows| >= idx then EOF else IndexOutOfRange)
    {
      if |rows| < 1 {
        return Failure(EmptyFileContent);
      }
      idx := idx + 1;
      if |rows| >= idx {
        return Failure(EOF);
      }
      r := Failure(IndexOutOfRange);
    }

    /** The records of every row after the header that parse, in order; an
        empty sheet is an error. */
    method ReadAll() returns (r: Result<seq<TxParams>, RWError>)
      ensures |rows| < 1 ==> r == Failure(EmptyFileContent)
      ensures |rows| >= 1 ==> r == Success(Kept(RecordOf, rows[1..]))
    {
      if |rows| < 1 {
        return Failure(EmptyFileContent);
      }
      var params: seq<TxParams> := [];
      for i := 1 to |rows|
        invariant params == Kept(RecordOf, rows[1..i])
      {
        var p := ParseRow(rows[i]);
        KeptStep(RecordOf, rows, 1, i);
        if p.Success? {
          params := params + [p.value];
        }
      }
      assert rows[1..|rows|] == rows[1..];
      r := Success(params);
    }
  }

  // ---------------------------------------------------------------------
  // Writers

  /** The buffer after annotating the line numbered `s` with `value`: the
      line gains ", " and the value. The number must be a decimal integer
      within the buffer. */
  function Annotate(buffer: seq<string>, s: string, value: string): (r: Result<seq<string>, RWError>)
  {
    match Numbers.Atoi(s)
    case Failure(e) => Failure(Num(e))
    case Success(idx) =>
      if idx < 0 || idx >= |buffer| then Failure(RowIndexExceed)
      else Success(buffer[idx := buffer[idx] + ", " + value])
  }

  /** An annotation succeeds exactly on a decimal line number within the
      buffer; it keeps the number of lines and changes only that line,
      which gains ", " and the value. */
  lemma AnnotateMeaning(buffer: seq<string>, s: string, value: string)
    ensures Annotate(buffer, s, value).Success? <==>
            Numbers.ParseInt(s).Success? && 0 <= Numbers.ParseInt(s).value < |buffer|
    ensures Annotate(buffer, s, value).Success? ==>
            var b := Annotate(buffer, s, value).value;
            var idx := Numbers.ParseInt(s).value;
            |b| == |buffer| && b[idx] == buffer[idx] + ", " + value &&
            forall k :: 0 <= k < |b| && k != idx ==> b[k] == buffer[k]
    ensures Numbers.ParseInt(s).Failure? ==>
            Annotate(buffer, s, value) == Failure(Num(Numbers.ParseInt(s).error.(fn := Numbers.AtoiFn)))
  {
  }

  /** A line annotated with a value holding no comma has one field more,
      the value after a space. */
  lemma AnnotatedFields(line: string, value: string)
    requires ',' !in value
    ensures LineFields(line + ", " + value) == LineFields(line) + [" " + value]
  {
    assert line + ", " + value == line + [','] + (" " + value);
    Text.SplitAround(line, ',', " " + value);
    Text.SplitFree(" " + value, ',');
  }

  /** With the sixth field trimmed, annotating a five-field line with the
      hex text of a hash and reading the line again gives the same
      transaction, now carrying that hash. */
  lemma AnnotatedHashRead(line: string, h: Hash)
    requires |LineFields(line)| == FieldNumber && RecordTrimmed(LineFields(line)).Success?
    ensures RecordTrimmed(LineFields(line + ", " + HashHex(h))) ==
            Success(RecordTrimmed(LineFields(line)).value.(hash := h))
  {
    HexTextPlain(h);
    var fs := LineFields(line);
    var t := " " + HashHex(h);
    AnnotatedFields(line, HashHex(h));
    var gs := fs + [t];
    assert Required(gs) == Required(fs);
    assert gs[FieldNumber] == t;
    TrimLeadingSpace(HashHex(h));
    assert RecordTrimmed(gs) == Build(Required(fs), Some(HashHex(h)));
    assert RecordTrimmed(fs) == Build(Required(fs), None);
    BuildHash(Required(fs), None, Some(HashHex(h)));
    HexToHashOfHashHex(h);
  }

  /** The "0x" hex text of a hash. */
  function HashHex(h: Hash): string
  {
    "0x" + Bytes2Hex(h)
  }

  lemma TrimLeadingSpace(s: string)
    requires PlainField(s)
    ensures Text.Trim(" " + s, ' ') == s
  {
    assert (" " + s)[1..] == s;
    assert Text.TrimLeft(" " + s, ' ') == Text.TrimLeft(s, ' ') == s;
    assert Text.TrimRight(s, ' ') == s;
  }

  /** As written, the sixth field of an annotated line is read untrimmed,
      and the space the annotation puts before it makes it decode to no
      bytes at all: whatever was written, the hash read back is zero. */
  lemma AnnotatedHashLostAsWritten(line: string, value: string)
    requires ',' !in value
    requires |LineFields(line)| == FieldNumber && RecordOf(LineFields(line)).Success?
    ensures RecordOf(LineFields(line + ", " + value)).Success?
    ensures RecordOf(LineFields(line + ", " + value)).value.hash == Zeros(HashLength)
  {
    AnnotatedFields(line, value);
    SixthFieldAsWritten(LineFields(line), " " + value);
    SpacedHexIsEmpty(" " + value);
  }

  /** As written, a sixth field added to a valid five-field record is
      read, untrimmed, as its hash. */
  lemma SixthFieldAsWritten(fs: seq<string>, t: string)
    requires |fs| == FieldNumber && RecordOf(fs).Success?
    ensures RecordOf(fs + [t]).Success?
    ensures RecordOf(fs + [t]).value.hash == HexToHash(t)
  {
    var gs := fs + [t];
    assert Required(gs) == Required(fs);
    assert gs[FieldNumber] == t;
    assert RecordOf(gs) == Build(Required(fs), Some(t));
    assert RecordOf(fs) == Build(Required(fs), None);
    BuildHash(Required(fs), None, Some(t));
  }

  /** A text starting with a space decodes to no bytes. */
  lemma SpacedHexIsEmpty(s: string)
    requires |s| > 0 && s[0] == ' '
    ensures FromHex(s) == [] && HexToHash(s) == Zeros(HashLength)
  {
    assert !Has0xPrefix(s);
    if |s| % 2 == 1 {
      assert ("0" + s)[1] == ' ';
    }
    assert Zeros(HashLength - 0) + [] == Zeros(HashLength);
  }

  /** An instance of the loss: the all-ones hash is read back as zero. */
  lemma AnnotatedHashLostExample(line: string)
    requires |LineFields(line)| == FieldNumber && RecordOf(LineFields(line)).Success?
    ensures var h: Hash := seq(HashLength, _ => 1);
            RecordOf(LineFields(line + ", " + HashHex(h))).Success? &&
            RecordOf(LineFields(line + ", " + HashHex(h))).value.hash != h
  {
    var h: Hash := seq(HashLength, _ => 1);
    HexTextPlain(h);
    AnnotatedHashLostAsWritten(line, HashHex(h));
    assert h[0] != Zeros(HashLength)[0];
  }

  /** Writes annotations into the lines of a text file held in memory and
      writes the lines back joined by newlines. */
  class RawTextWriter {
    const lines: array<string>

    /** NewRawTextWriter over a file with the given content. */
    constructor (content: string)
      ensures fresh(lines) && lines[..] == Text.Split(content, '\n')
    {
      var pieces := Text.Split(content, '\n');
      lines := new string[|pieces|](i requires 0 <= i < |pieces| => pieces[i]);
    }

    /** WriteString: annotate one line in place. */
    method WriteString(s: string, value: string) returns (r: Result<(), RWError>)
      modifies lines
      ensures Annotate(old(lines[..]), s, value).Success? ==>
                r == Success(()) && lines[..] == Annotate(old(lines[..]), s, value).value
      ensures Annotate(old(lines[..]), s, value).Failure? ==>
                r == Failure(Annotate(old(lines[..]), s, value).error) && lines[..] == old(lines[..])
    {
      var idx := Numbers.Atoi(s);
      if idx.Failure? {
        return Failure(Num(idx.error));
      }
      if idx.value < 0 || idx.value >= lines.Length {
        return Failure(RowIndexExceed);
      }
      var line := lines[idx.value];
      line := line + ", " + value;
      lines[idx.value] := line;
      r := Success(());
    }

    /** Flush: the text written back to the file. */
    method Flush() returns (out: string)
      ensures out == Text.Join(lines[..], "\n")
    {
      out := Text.Join(lines[..], "\n");
    }
  }

  /** Without annotations, writing the buffer back reproduces the file. */
  lemma FlushUnchanged(content: string)
    ensures Text.Join(Text.Split(content, '\n'), "\n") == content
  {
    Text.JoinSplit(content, '\n');
  }

  /** Writes cell values into one sheet of a spreadsheet; `cells` holds the
      values written since the file was opened, by cell name. */
  class ExcelWriter {
    const sheet: string
    var cells: map<string, string>

    constructor (sheet: string)
      ensures this.sheet == sheet && cells == map[]
    {
      this.sheet := sheet;
      cells := map[];
    }

    /** WriteString: set the cell named `axis`. */
    method WriteString(axis: string, value: string) returns (r: Result<(), RWError>)
      modifies this
      ensures r == Success(()) && cells == old(cells)[axis := value]
    {
      cells := cells[axis := value];
      r := Success(());
    }

    /** Flush: the cells saved into the workbook. */
    method Flush() returns (out: map<string, string>)
      ensures out == cells
    {
      out := cells;
    }
  }

  /** ExcelRWriter: a sheet reader and a sheet writer over the same file,
      each operation passed to one of them. */
  class ExcelRWriter {
    const reader: ExcelReader
    const writer: ExcelWriter

    constructor (sheet: string, rows: seq<seq<string>>)
      ensures fresh(reader) && fresh(writer)
      ensures reader.sheet == sheet && reader.rows == rows && reader.idx == 0
      ensures writer.sheet == sheet && writer.cells == map[]
    {
      writer := new ExcelWriter(sheet);
      reader := new ExcelReader(sheet, rows);
    }

    method Read() returns (r: Result<TxParams, RWError>)
      requires reader.idx >= 0
      modifies reader
      ensures r.Failure? && reader.idx >= 0
      ensures |reader.rows| < 1 ==> r == Failure(EmptyFileContent) && reader.idx == old(reader.idx)
      ensures |reader.rows| >= 1 ==> reader.idx == old(reader.idx) + 1 &&
                                     r == Failure(if |reader.rows| >= reader.idx then EOF else IndexOutOfRange)
    {
      r := reader.Read();
    }

    method ReadAll() returns (r: Result<seq<TxParams>, RWError>)
      ensures |reader.rows| < 1 ==> r == Failure(EmptyFileContent)
      ensures |reader.rows| >= 1 ==> r == Success(Kept(RecordOf, reader.rows[1..]))
    {
      r := reader.ReadAll();
    }

    method WriteString(axis: string, value: string) returns (r: Result<(), RWError>)
      modifies writer
      ensures r == Success(()) && writer.cells == old(writer.cells)[axis := value]
    {
      r := writer.WriteString(axis, value);
    }

    method Flush() returns (out: map<string, string>)
      ensures out == writer.cells
    {
      out := writer.Flush();
    }
  }

  /** RawTextRWriter: a line reader and a line writer over the same text
      file, each operation passed to one of them. */
  class RawTextRWriter {
    const reader: RawTextReader
    const writer: RawTextWriter

    constructor (content: string)
      ensures fresh(reader) && fresh(writer) && fresh(writer.lines)
      ensures reader.Valid() && reader.hasScanner && reader.lines == Text.ScanLines(content) && reader.pos == 0
      ensures writer.lines[..] == Text.Split(content, '\n')
    {
      writer := new RawTextWriter(content);
      reader := new RawTextReader(content);
    }

    method Read() returns (r: Result<TxParams, RWError>)
      requires reader.Valid()
      modifies reader
      ensures reader.Valid()
      ensures !reader.hasScanner ==> r == Failure(EmptyScanner) && reader.pos == old(reader.pos)
      ensures reader.hasScanner && old(reader.pos) < |reader.lines| ==>
                r == RecordOf(LineFields(reader.lines[old(reader.pos)])) && reader.pos == old(reader.pos) + 1
      ensures reader.hasScanner && old(reader.pos) == |reader.lines| ==> r == Failure(EOF) && reader.pos == old(reader.pos)
    {
      r := reader.Read();
    }

    method ReadAll() returns (r: Result<seq<TxParams>, RWError>)
      requires reader.Valid()
      modifies reader
      ensures reader.Valid()
      ensures !reader.hasScanner ==> r == Failure(EmptyScanner) && reader.pos == old(reader.pos)
      ensures reader.hasScanner ==>
                r == Success(Kept(RecordOf, AllLineFields(reader.lines)[old(reader.pos)..])) && reader.pos == |reader.lines|
    {
      r := reader.ReadAll();
    }

    method WriteString(s: string, value: string) returns (r: Result<(), RWError>)
      modifies writer.lines
      ensures Annotate(old(writer.lines[..]), s, value).Success? ==>
                r == Success(()) && writer.lines[..] == Annotate(old(writer.lines[..]), s, value).value
      ensures Annotate(old(writer.lines[..]), s, value).Failure? ==>
                r == Failure(Annotate(old(writer.lines[..]), s, value).error) && writer.lines[..] == old(writer.lines[..])
    {
      r := writer.WriteString(s, value);
    }

    method Flush() returns (out: string)
      ensures out == Text.Join(writer.lines[..], "\n")
    {
      out := writer.Flush();
    }
  }
}
