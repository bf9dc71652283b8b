/**
  The service's test scenarios, and two inputs on which decoding what was
  encoded does not give the records back.
 */
module Scenarios {
  import opened Records
  import opened CsvRows
  import opened ColumnNames
  import opened CsvService

  /** A record of the tests: columns A, B and C. */
  function Abc(a: string, b: string, c: string): Record {
    [("A", a), ("B", b), ("C", c)]
  }

  lemma AbcParts(a: string, b: string, c: string)
    ensures Keys(Abc(a, b, c)) == ["A", "B", "C"] && Values(Abc(a, b, c)) == [a, b, c]
  {
  }

  /** A row of three fields, each written as it is. */
  lemma PlainRow(a: string, b: string, c: string)
    requires !NeedsEnclosure(a, DefaultDialect) && !NeedsEnclosure(b, DefaultDialect)
    requires !NeedsEnclosure(c, DefaultDialect)
    ensures EncodeRow([a, b, c], DefaultDialect, "\n") == a + "," + b + "," + c + "\n"
  {
    var d := DefaultDialect;
    assert [a, b, c][1..] == [b, c] && [b, c][1..] == [c];
    assert EncodeFields([c], d) == c;
    assert EncodeFields([b, c], d) == b + "," + c;
  }

  lemma DataRowsThree(r1: Record, r2: Record, r3: Record, d: Dialect, eol: string)
    ensures DataRows([r1, r2, r3], d, eol)
      == EncodeRow(Values(r1), d, eol) + EncodeRow(Values(r2), d, eol) + EncodeRow(Values(r3), d, eol)
  {
    assert [r1, r2, r3][1..] == [r2, r3] && [r2, r3][1..] == [r3] && [r3][1..] == [];
    var a, b, c := EncodeRow(Values(r1), d, eol), EncodeRow(Values(r2), d, eol), EncodeRow(Values(r3), d, eol);
    assert DataRows([r3], d, eol) == c + "" == c;
    assert a + (b + c) == a + b + c;
  }

  /** A field of one character that is not special in the default dialect. */
  predicate Plain(c: char) {
    c !in ",\"\\\n\r"
  }

  lemma PlainField(c: char)
    requires Plain(c)
    ensures !NeedsEnclosure([c], DefaultDialect)
  {
  }

  /** Three records of one-character plain fields. */
  function Grid(a: char, b: char, c: char, d: char, e: char, f: char, g: char, h: char, i: char): seq<Record> {
    [Abc([a], [b], [c]), Abc([d], [e], [f]), Abc([g], [h], [i])]
  }

  /** The rows written for a grid, without the header row. */
  function GridText(a: char, b: char, c: char, d: char, e: char, f: char, g: char, h: char, i: char): string {
    [a, ',', b, ',', c, '\n', d, ',', e, ',', f, '\n', g, ',', h, ',', i, '\n']
  }

  /** One record of a grid, written. */
  lemma AbcRow(a: char, b: char, c: char)
    requires Plain(a) && Plain(b) && Plain(c)
    ensures EncodeRow(Values(Abc([a], [b], [c])), DefaultDialect, "\n") == [a, ',', b, ',', c, '\n']
  {
    AbcParts([a], [b], [c]);
    PlainField(a);
    PlainField(b);
    PlainField(c);
    PlainRow([a], [b], [c]);
  }

  /** The data rows of a grid: each record's three characters, comma-separated. */
  lemma GridData(a: char, b: char, c: char, d: char, e: char, f: char, g: char, h: char, i: char)
    requires Plain(a) && Plain(b) && Plain(c) && Plain(d) && Plain(e) && Plain(f)
    requires Plain(g) && Plain(h) && Plain(i)
    ensures SameColumnCount(Grid(a, b, c, d, e, f, g, h, i))
    ensures DataRows(Grid(a, b, c, d, e, f, g, h, i), DefaultDialect, "\n") == GridText(a, b, c, d, e, f, g, h, i)
  {
    GridWidth(a, b, c, d, e, f, g, h, i);
    AbcRow(a, b, c);
    AbcRow(d, e, f);
    AbcRow(g, h, i);
    DataRowsThree(Abc([a], [b], [c]), Abc([d], [e], [f]), Abc([g], [h], [i]), DefaultDialect, "\n");
  }

  lemma GridWidth(a: char, b: char, c: char, d: char, e: char, f: char, g: char, h: char, i: char)
    ensures SameColumnCount(Grid(a, b, c, d, e, f, g, h, i))
  {
    var records := Grid(a, b, c, d, e, f, g, h, i);
    assert forall k :: 0 <= k < 3 ==> |records[k]| == 3;
  }

  /**
    arrayToCsv of three records of one-character plain fields, as in the
    tests: the header row "A,B,C" when asked for, then one row per record,
    each ended by a line feed.
   */
  lemma EncodeGrid(a: char, b: char, c: char, d: char, e: char, f: char, g: char, h: char, i: char)
    requires Plain(a) && Plain(b) && Plain(c) && Plain(d) && Plain(e) && Plain(f)
    requires Plain(g) && Plain(h) && Plain(i)
    ensures Encode(Grid(a, b, c, d, e, f, g, h, i), true, DefaultDialect, "\n")
      == Ok("A,B,C\n" + GridText(a, b, c, d, e, f, g, h, i))
    ensures Encode(Grid(a, b, c, d, e, f, g, h, i), false, DefaultDialect, "\n")
      == Ok(GridText(a, b, c, d, e, f, g, h, i))
  {
    var records := Grid(a, b, c, d, e, f, g, h, i);
    GridData(a, b, c, d, e, f, g, h, i);
    var data := DataRows(records, DefaultDialect, "\n");
    assert HeaderRow(records, true, DefaultDialect, "\n") == "A,B,C\n" by {
      AbcParts([a], [b], [c]);
      PlainRow("A", "B", "C");
    }
    assert HeaderRow(records, false, DefaultDialect, "\n") + data == data;
  }

  lemma GridWritable(a: char, b: char, c: char, d: char, e: char, f: char, g: char, h: char, i: char)
    requires Plain(a) && Plain(b) && Plain(c) && Plain(d) && Plain(e) && Plain(f)
    requires Plain(g) && Plain(h) && Plain(i)
    ensures var records := Grid(a, b, c, d, e, f, g, h, i);
      && WritableRecords(records, DefaultDialect)
      && forall k :: 0 <= k < |records| ==> Keys(records[k]) == ["A", "B", "C"]
  {
    var records := Grid(a, b, c, d, e, f, g, h, i);
    AbcParts([a], [b], [c]);
    AbcParts([d], [e], [f]);
    AbcParts([g], [h], [i]);
    assert WritableRecords(records, DefaultDialect);
  }

  /** csvToArray of the tests' text with its header row gives the records back. */
  lemma DecodeGrid(a: char, b: char, c: char, d: char, e: char, f: char, g: char, h: char, i: char)
    requires Plain(a) && Plain(b) && Plain(c) && Plain(d) && Plain(e) && Plain(f)
    requires Plain(g) && Plain(h) && Plain(i)
    ensures Decode("A,B,C\n" + GridText(a, b, c, d, e, f, g, h, i), true, DefaultDialect)
      == Ok(Grid(a, b, c, d, e, f, g, h, i))
  {
    EncodeGrid(a, b, c, d, e, f, g, h, i);
    GridWritable(a, b, c, d, e, f, g, h, i);
    assert WritableRow(["A", "B", "C"], DefaultDialect);
    DecodeEncodeWithHeader(Grid(a, b, c, d, e, f, g, h, i), DefaultDialect);
  }

  lemma DefaultHeaderAbc()
    ensures DefaultHeaderOf(3) == ["A", "B", "C"]
  {
    ColumnNameExamples();
    assert Numeral(2) == "B" && Numeral(3) == "C";
  }

  /** csvToArray of the tests' text without a header row names the columns A, B, C. */
  lemma DecodeGridNoHeader(a: char, b: char, c: char, d: char, e: char, f: char, g: char, h: char, i: char)
    requires Plain(a) && Plain(b) && Plain(c) && Plain(d) && Plain(e) && Plain(f)
    requires Plain(g) && Plain(h) && Plain(i)
    ensures Decode(GridText(a, b, c, d, e, f, g, h, i), false, DefaultDialect)
      == Ok(Grid(a, b, c, d, e, f, g, h, i))
  {
    var records := Grid(a, b, c, d, e, f, g, h, i);
    EncodeGrid(a, b, c, d, e, f, g, h, i);
    GridWritable(a, b, c, d, e, f, g, h, i);
    DecodeEncodeWithoutHeader(records, DefaultDialect);
    DefaultHeaderAbc();
    SameKeysAndValues(Decode(GridText(a, b, c, d, e, f, g, h, i), false, DefaultDialect).value, records);
  }

  /** Records with the same keys and the same values, in order, are equal. */
  lemma SameKeysAndValues(xs: seq<Record>, ys: seq<Record>)
    requires |xs| == |ys|
    requires forall k :: 0 <= k < |xs| ==> Keys(xs[k]) == Keys(ys[k]) && Values(xs[k]) == Values(ys[k])
    ensures xs == ys
  {
    forall k | 0 <= k < |xs|
      ensures xs[k] == ys[k]
    {
      ZipKeysValues(xs[k]);
      ZipKeysValues(ys[k]);
    }
  }


  /**
    csvToArray of "A,B,C", a row of three fields, then a row of two: the
    column-count error, as in the tests.
   */
  lemma DecodeShortRow(a: char, b: char, c: char, d: char, e: char, f: char)
    requires Plain(a) && Plain(b) && Plain(c) && Plain(d) && Plain(e) && Plain(f)
    ensures Decode("A,B,C\n" + [a, ',', b, ',', c, '\n', d, ',', e, '\n', f, '\n'], true, DefaultDialect)
      == Err(ColumnCountMismatch)
  {
    var dl := DefaultDialect;
    var header, row1, row2 := ["A", "B", "C"], [[a], [b], [c]], [[d], [e]];
    var rest := [f, '\n'];
    PlainField(a); PlainField(b); PlainField(c); PlainField(d); PlainField(e);
    PlainRow("A", "B", "C");
    PlainRow([a], [b], [c]);
    assert EncodeRow(row2, dl, "\n") == [d, ',', e, '\n'] by {
      TwoFields([d], [e], dl);
      assert [d] + [','] + [e] + "\n" == [d, ',', e, '\n'];
    }
    var text2 := EncodeRow(row2, dl, "\n") + rest;
    var text1 := EncodeRow(row1, dl, "\n") + text2;
    var csv := EncodeRow(header, dl, "\n") + text1;
    assert csv == "A,B,C\n" + [a, ',', b, ',', c, '\n', d, ',', e, '\n', f, '\n'];
    assert WritableRow(header, dl) && WritableRow(row1, dl) && WritableRow(row2, dl);
    ReadEncodedRow(header, text1, dl);
    ReadEncodedRow(row1, text2, dl);
    ReadEncodedRow(row2, rest, dl);
    assert csv != "0" by {
      assert |csv| > 1;
    }
    assert Decode(csv, true, dl) == DecodeRows(text1, header, dl);
    assert DecodeRows(text2, header, dl) == Err(ColumnCountMismatch);
  }

  /** A field with a line feed inside is enclosed, and otherwise kept as it is. */
  lemma EnclosedLineBreak(a: char, b: char)
    requires Plain(a) && Plain(b)
    ensures EncodeField([a, '\n', b], DefaultDialect) == ['"', a, '\n', b, '"']
  {
    var dl := DefaultDialect;
    var s := [a, '\n', b];
    assert NeedsEnclosure(s, dl) by {
      assert s[1] == '\n';
    }
    assert s[1..] == ['\n', b] && s[1..][1..] == [b] && [b][1..] == [];
    assert Escaped([b], dl, false) == [b];
    assert Escaped(['\n', b], dl, false) == ['\n', b];
    assert Escaped(s, dl, false) == s;
  }

  /** The record of the tests whose values hold line feeds. */
  function LineBreakRecord(a: char, b: char, c: char, d: char, e: char, f: char): Record {
    Abc([a, '\n', b], [c, '\n', d], [e, '\n', f])
  }

  /** The row written for that record: three enclosed values. */
  function LineBreakRow(a: char, b: char, c: char, d: char, e: char, f: char): string {
    ['"', a, '\n', b, '"', ',', '"', c, '\n', d, '"', ',', '"', e, '\n', f, '"', '\n']
  }

  /** A row of three fields. */
  lemma ThreeFields(x: string, y: string, z: string, d: Dialect)
    ensures EncodeRow([x, y, z], d, "\n")
      == EncodeField(x, d) + [d.separator] + EncodeField(y, d) + [d.separator] + EncodeField(z, d) + "\n"
  {
    var fx, fy, fz := EncodeField(x, d), EncodeField(y, d), EncodeField(z, d);
    assert [x, y, z][1..] == [y, z] && [y, z][1..] == [z];
    assert EncodeFields([z], d) == fz;
    assert EncodeFields([y, z], d) == fy + [d.separator] + fz;
    assert EncodeFields([x, y, z], d) == fx + [d.separator] + (fy + [d.separator] + fz);
    assert fx + [d.separator] + (fy + [d.separator] + fz) == fx + [d.separator] + fy + [d.separator] + fz;
  }

  lemma LineBreakRowWritten(a: char, b: char, c: char, d: char, e: char, f: char)
    requires Plain(a) && Plain(b) && Plain(c) && Plain(d) && Plain(e) && Plain(f)
    ensures DataRows([LineBreakRecord(a, b, c, d, e, f)], DefaultDialect, "\n") == LineBreakRow(a, b, c, d, e, f)
  {
    var r := LineBreakRecord(a, b, c, d, e, f);
    var x, y, z := [a, '\n', b], [c, '\n', d], [e, '\n', f];
    AbcParts(x, y, z);
    LineBreakValues(a, b, c, d, e, f);
    assert [r][1..] == [];
  }

  lemma LineBreakValues(a: char, b: char, c: char, d: char, e: char, f: char)
    requires Plain(a) && Plain(b) && Plain(c) && Plain(d) && Plain(e) && Plain(f)
    ensures EncodeRow([[a, '\n', b], [c, '\n', d], [e, '\n', f]], DefaultDialect, "\n") == LineBreakRow(a, b, c, d, e, f)
  {
    var x, y, z := ['"', a, '\n', b, '"'], ['"', c, '\n', d, '"'], ['"', e, '\n', f, '"'];
    EnclosedLineBreak(a, b);
    EnclosedLineBreak(c, d);
    EnclosedLineBreak(e, f);
    ThreeFields([a, '\n', b], [c, '\n', d], [e, '\n', f], DefaultDialect);
    var p := x + [','] + y;
    assert p == ['"', a, '\n', b, '"', ',', '"', c, '\n', d, '"'];
    var q := p + [','] + z;
    assert q == ['"', a, '\n', b, '"', ',', '"', c, '\n', d, '"', ',', '"', e, '\n', f, '"'];
    assert q + "\n" == LineBreakRow(a, b, c, d, e, f);
  }

  /** arrayToCsv of a record whose values hold line feeds: each value is enclosed, as in the tests. */
  lemma EncodeLineBreaks(a: char, b: char, c: char, d: char, e: char, f: char)
    requires Plain(a) && Plain(b) && Plain(c) && Plain(d) && Plain(e) && Plain(f)
    ensures Encode([LineBreakRecord(a, b, c, d, e, f)], true, DefaultDialect, "\n")
      == Ok("A,B,C\n" + LineBreakRow(a, b, c, d, e, f))
  {
    var r := LineBreakRecord(a, b, c, d, e, f);
    LineBreakRowWritten(a, b, c, d, e, f);
    AbcParts([a, '\n', b], [c, '\n', d], [e, '\n', f]);
    PlainRow("A", "B", "C");
    assert SameColumnCount([r]);
    assert HeaderRow([r], true, DefaultDialect, "\n") == "A,B,C\n";
  }

  /** csvToArray of that text gives the record back, line feeds included. */
  lemma DecodeLineBreaks(a: char, b: char, c: char, d: char, e: char, f: char)
    requires Plain(a) && Plain(b) && Plain(c) && Plain(d) && Plain(e) && Plain(f)
    ensures Decode("A,B,C\n" + LineBreakRow(a, b, c, d, e, f), true, DefaultDialect)
      == Ok([LineBreakRecord(a, b, c, d, e, f)])
  {
    var r := LineBreakRecord(a, b, c, d, e, f);
    EncodeLineBreaks(a, b, c, d, e, f);
    AbcParts([a, '\n', b], [c, '\n', d], [e, '\n', f]);
    assert WritableRecords([r], DefaultDialect);
    assert WritableRow(["A", "B", "C"], DefaultDialect);
    DecodeEncodeWithHeader([r], DefaultDialect);
  }

  /** No records encode to "", even with a header. */
  lemma EncodeNoRecords(useHeader: bool, d: Dialect, eol: string)
    ensures Encode([], useHeader, d, eol) == Ok("")
  {
  }

  /** "" decodes to no records, and so does "0", which PHP's empty() treats alike. */
  lemma DecodeEmptyText(hasHeader: bool, d: Dialect)
    ensures Decode("", hasHeader, d) == Ok([]) && Decode("0", hasHeader, d) == Ok([])
  {
  }

  /** Records of three, two and one columns: the column-count error, as in the tests. */
  lemma EncodeDifferentColumnCounts(a: string, b: string, c: string, x: string, y: string, z: string, useHeader: bool)
    ensures Encode([Abc(a, b, c), [("A", x), ("B", y)], [("A", z)]], useHeader, DefaultDialect, "\n")
      == Err(ColumnCountMismatch)
  {
    var records := [Abc(a, b, c), [("A", x), ("B", y)], [("A", z)]];
    EncodeMismatch(records, useHeader, DefaultDialect, "\n", 1);
  }

  /** A text of one written row reads as that row, with nothing after it. */
  lemma OneRowRead(fields: seq<string>, d: Dialect)
    requires ValidDialect(d) && WritableRow(fields, d)
    ensures ReadRecord(EncodeRow(fields, d, "\n"), d) == Ok((fields, ""))
    ensures EncodeRow(fields, d, "\n") != "" && EncodeRow(fields, d, "\n") != "0"
  {
    var csv := EncodeRow(fields, d, "\n");
    ReadEncodedRow(fields, "", d);
    assert csv + "" == csv;
    assert csv[|csv| - 1] == '\n';
  }

  /** The loop of csvToArray over one written row gives one record. */
  lemma OneRowRecords(fields: seq<string>, header: seq<string>, d: Dialect)
    requires ValidDialect(d) && WritableRow(fields, d) && |header| == |fields|
    ensures DecodeRows(EncodeRow(fields, d, "\n"), header, d) == Ok([Combine(header, fields)])
  {
    OneRowRead(fields, d);
    assert DecodeRows("", header, d) == Ok([]);
    assert [Combine(header, fields)] + [] == [Combine(header, fields)];
  }

  /**
    csvToArray without a header row of a text holding one row: one
    record, which pairs the default header's names with the row's fields.
   */
  lemma DecodeOneRowNoHeader(fields: seq<string>, d: Dialect)
    requires ValidDialect(d) && WritableRow(fields, d)
    ensures Decode(EncodeRow(fields, d, "\n"), false, d) == Ok([Zip(DefaultHeaderOf(|fields|), fields)])
  {
    var header := DefaultHeaderOf(|fields|);
    OneRowRead(fields, d);
    assert Decode(EncodeRow(fields, d, "\n"), false, d) == DecodeRows(EncodeRow(fields, d, "\n"), header, d);
    OneRowRecords(fields, header, d);
    DefaultHeaderDistinct(|fields|);
    CombineDistinct(header, fields);
  }

  /** The names the tests expect for a row of 32 columns. */
  const ThirtyTwoNames: seq<string> := [
    "A", "B", "C", "D", "E", "F", "G", "H", "I", "J", "K", "L", "M",
    "N", "O", "P", "Q", "R", "S", "T", "U", "V", "W", "X", "Y", "Z",
    "AA", "AB", "AC", "AD", "AE", "AF"]

  /** The name of a column before BA: one letter, or 'A' and one letter. */
  function ShortName(i: nat): string
    requires i < 52
  {
    if i < 26 then [Letter(i)] else ['A', Letter(i - 26)]
  }

  lemma ShortNames(i: nat)
    requires i < 52
    ensures Numeral(i + 1) == ShortName(i)
  {
    NumeralStep(i);
    if i >= 26 {
      assert i / 26 == 1 && i % 26 == i - 26;
      assert Numeral(1) == "A";
    } else {
      assert i / 26 == 0 && i % 26 == i;
    }
  }

  lemma ThirtyTwoShortNames()
    ensures forall i :: 0 <= i < 32 ==> ThirtyTwoNames[i] == ShortName(i)
  {
  }

  lemma DefaultHeaderThirtyTwo()
    ensures DefaultHeaderOf(32) == ThirtyTwoNames
  {
    ThirtyTwoShortNames();
    forall i | 0 <= i < 32
      ensures DefaultHeaderOf(32)[i] == ThirtyTwoNames[i]
    {
      ShortNames(i);
    }
  }

  /**
    csvToArray without a header of a row of 32 fields, as in the tests:
    one record whose columns are named A to Z, then AA to AF.
   */
  lemma DecodeThirtyTwoColumns(fields: seq<string>)
    requires |fields| == 32 && WritableRow(fields, DefaultDialect)
    ensures Decode(EncodeRow(fields, DefaultDialect, "\n"), false, DefaultDialect)
      == Ok([Zip(ThirtyTwoNames, fields)])
  {
    DecodeOneRowNoHeader(fields, DefaultDialect);
    DefaultHeaderThirtyTwo();
  }

  // ---------------------------------------------------------- counterexamples

  /** A character with no meaning to the reader or the writer of dialect d. */
  predicate Ordinary(c: char, d: Dialect) {
    c != d.separator && c != d.enclosure && c != d.escape && c != '\n' && c != '\r'
  }

  /**
    A record whose only value is empty is written as an empty line, which
    csvToArray rejects: the round trip fails on [[k => ""]].
   */
  lemma EmptyValueBreaksRoundTrip(k: char, d: Dialect)
    requires ValidDialect(d) && Ordinary(k, d)
    ensures Encode([[([k], "")]], true, d, "\n") == Ok([k, '\n', '\n'])
    ensures Decode([k, '\n', '\n'], true, d) == Err(MalformedRow)
  {
    var r: Record := [([k], "")];
    assert Keys(r) == [[k]] && Values(r) == [""];
    OrdinaryField(k, d);
    assert EncodeRow([[k]], d, "\n") == [k, '\n'];
    assert EncodeRow([""], d, "\n") == "\n";
    assert DataRows([r], d, "\n") == "\n" + "" by {
      assert [r][1..] == [];
    }
    assert SameColumnCount([r]);
    assert [k, '\n'] + ("\n" + "") == [k, '\n', '\n'];
    assert WritableRow([[k]], d);
    ReadEncodedRow([[k]], "\n", d);
    assert [k, '\n'] + "\n" == [k, '\n', '\n'];
    assert [k, '\n', '\n'] != "0";
  }

  /**
    A record with no columns is written as an empty header row and an
    empty data row, and csvToArray rejects the blank first line.
   */
  lemma NoColumnsBreaksRoundTrip(d: Dialect)
    ensures Encode([[]], true, d, "\n") == Ok("\n\n")
    ensures Decode("\n\n", true, d) == Err(MalformedRow)
  {
    var r: Record := [];
    assert Keys(r) == [] && Values(r) == [];
    assert EncodeRow([], d, "\n") == "\n";
    assert DataRows([r], d, "\n") == "\n" + "" by {
      assert [r][1..] == [];
    }
    assert SameColumnCount([r]);
    assert HeaderRow([r], true, d, "\n") == "\n";
    assert "\n" + ("\n" + "") == "\n\n";
    assert "\n\n"[0] == '\n';
  }

  /** The record {k1: x followed by the escape character, k2: y}. */
  function TrailingEscapeRecord(k1: char, k2: char, x: char, y: char, d: Dialect): Record {
    [([k1], [x, d.escape]), ([k2], [y])]
  }

  /** A one-character field of an ordinary character is written as it is. */
  lemma OrdinaryField(c: char, d: Dialect)
    requires Ordinary(c, d)
    ensures EncodeField([c], d) == [c]
  {
    assert forall e :: e in [c] ==> e == c;
  }

  /** A row of two fields. */
  lemma TwoFields(a: string, b: string, d: Dialect)
    ensures EncodeRow([a, b], d, "\n") == EncodeField(a, d) + [d.separator] + EncodeField(b, d) + "\n"
  {
    assert [a, b][1..] == [b];
    assert EncodeFields([b], d) == EncodeField(b, d);
    assert EncodeFields([a, b], d) == EncodeField(a, d) + [d.separator] + EncodeField(b, d);
  }

  /** The character before the escape character is kept; the escape character too. */
  lemma EscapedTrailing(x: char, d: Dialect)
    requires ValidDialect(d) && Ordinary(x, d)
    ensures EncodeField([x, d.escape], d) == [d.enclosure, x, d.escape, d.enclosure]
  {
    assert NeedsEnclosure([x, d.escape], d) by {
      assert [x, d.escape][1] == d.escape;
    }
    assert [x, d.escape][1..] == [d.escape] && [d.escape][1..] == [];
    assert Escaped([d.escape], d, false) == [d.escape] + Escaped([], d, true) == [d.escape];
    assert Escaped([x, d.escape], d, false) == [x] + Escaped([d.escape], d, false);
  }

  /**
    A value that ends with the escape character is written enclosed, and
    its closing enclosure follows the escape character.
   */
  lemma TrailingEscapeEncoded(k1: char, k2: char, x: char, y: char, d: Dialect)
    requires ValidDialect(d) && Ordinary(k1, d) && Ordinary(k2, d) && Ordinary(x, d) && Ordinary(y, d)
    ensures Encode([TrailingEscapeRecord(k1, k2, x, y, d)], true, d, "\n")
      == Ok([k1, d.separator, k2, '\n', d.enclosure, x, d.escape, d.enclosure, d.separator, y, '\n'])
  {
    var r := TrailingEscapeRecord(k1, k2, x, y, d);
    assert Keys(r) == [[k1], [k2]] && Values(r) == [[x, d.escape], [y]];
    OrdinaryField(k1, d);
    OrdinaryField(k2, d);
    OrdinaryField(y, d);
    EscapedTrailing(x, d);
    TwoFields([k1], [k2], d);
    TwoFields([x, d.escape], [y], d);
    assert DataRows([r], d, "\n") == EncodeRow(Values(r), d, "\n") + "" by {
      assert [r][1..] == [];
    }
    assert SameColumnCount([r]);
    assert [k1] + [d.separator] + [k2] + "\n" == [k1, d.separator, k2, '\n'];
    assert [d.enclosure, x, d.escape, d.enclosure] + [d.separator] + [y] + "\n"
      == [d.enclosure, x, d.escape, d.enclosure, d.separator, y, '\n'];
    var head, row := EncodeRow(Keys(r), d, "\n"), EncodeRow(Values(r), d, "\n");
    assert head == [k1, d.separator, k2, '\n'];
    assert row == [d.enclosure, x, d.escape, d.enclosure, d.separator, y, '\n'];
    assert Encode([r], true, d, "\n") == Ok(head + (row + ""));
    assert head + (row + "") == [k1, d.separator, k2, '\n', d.enclosure, x, d.escape, d.enclosure, d.separator, y, '\n'];
  }

  /** An enclosed field that is never closed takes the rest of the text. */
  lemma {:induction false} UnclosedField(s: string, d: Dialect)
    requires d.enclosure !in s && d.escape !in s
    ensures ScanEnclosed(s, d) == (s, "")
  {
    if s != [] {
      assert s[0] in s;
      UnclosedField(s[1..], d);
      assert s == [s[0]] + s[1..];
    }
  }

  /** The escape character and the character after it are kept as they are. */
  lemma EscapedStep(s: string, d: Dialect)
    requires |s| > 1 && s[0] == d.escape && s[0] != d.enclosure
    ensures ScanEnclosed(s, d) == (s[..2] + ScanEnclosed(s[2..], d).0, ScanEnclosed(s[2..], d).1)
  {
  }

  /** Any other character inside an enclosure is kept. */
  lemma OrdinaryStep(s: string, d: Dialect)
    requires s != [] && s[0] != d.escape && s[0] != d.enclosure
    ensures ScanEnclosed(s, d) == ([s[0]] + ScanEnclosed(s[1..], d).0, ScanEnclosed(s[1..], d).1)
  {
  }

  /**
    Reading that row back: the escape character keeps the closing
    enclosure, so the field runs on to the end of the text and the row
    has one field instead of two.
   */
  lemma TrailingEscapeRead(x: char, y: char, d: Dialect)
    requires ValidDialect(d) && Ordinary(x, d) && Ordinary(y, d)
    ensures ReadRecord([d.enclosure, x, d.escape, d.enclosure, d.separator, y, '\n'], d)
      == Ok(([[x, d.escape, d.enclosure, d.separator, y, '\n']], ""))
  {
    var tail := [d.separator, y, '\n'];
    UnclosedField(tail, d);
    var s := [d.escape, d.enclosure] + tail;
    EscapedStep(s, d);
    assert s[..2] == [d.escape, d.enclosure] && s[2..] == tail;
    OrdinaryStep([x] + s, d);
    assert ([x] + s)[1..] == s;
    var row := [d.enclosure, x, d.escape, d.enclosure, d.separator, y, '\n'];
    assert row[1..] == [x] + s;
    assert [x] + ([d.escape, d.enclosure] + tail) == [x, d.escape, d.enclosure, d.separator, y, '\n'];
  }

  /** A header of two ordinary one-character names is written as it is. */
  lemma OrdinaryHeader(k1: char, k2: char, d: Dialect)
    requires Ordinary(k1, d) && Ordinary(k2, d)
    ensures EncodeRow([[k1], [k2]], d, "\n") == [k1, d.separator, k2, '\n']
  {
    OrdinaryField(k1, d);
    OrdinaryField(k2, d);
    TwoFields([k1], [k2], d);
    assert [k1] + [d.separator] + [k2] + "\n" == [k1, d.separator, k2, '\n'];
  }

  /** The text written for that record: an ordinary header, then the row. */
  function TrailingEscapeRow(x: char, y: char, d: Dialect): string {
    [d.enclosure, x, d.escape, d.enclosure, d.separator, y, '\n']
  }

  /** Decoding that text reads the header, then a row of one field: the column-count error. */
  lemma TrailingEscapeDecoded(k1: char, k2: char, x: char, y: char, d: Dialect)
    requires ValidDialect(d) && Ordinary(k1, d) && Ordinary(k2, d) && Ordinary(x, d) && Ordinary(y, d)
    ensures Decode([k1, d.separator, k2, '\n'] + TrailingEscapeRow(x, y, d), true, d) == Err(ColumnCountMismatch)
  {
    var header, row := [[k1], [k2]], TrailingEscapeRow(x, y, d);
    OrdinaryHeader(k1, k2, d);
    assert WritableRow(header, d);
    ReadEncodedRow(header, row, d);
    var csv := [k1, d.separator, k2, '\n'] + row;
    assert csv != "0" by {
      assert |csv| > 1;
    }
    assert Decode(csv, true, d) == DecodeRows(row, header, d);
    TrailingEscapeRead(x, y, d);
  }

  /** So csvToArray rejects what arrayToCsv wrote, with the column-count error. */
  lemma TrailingEscapeBreaksRoundTrip(k1: char, k2: char, x: char, y: char, d: Dialect)
    requires ValidDialect(d) && Ordinary(k1, d) && Ordinary(k2, d) && Ordinary(x, d) && Ordinary(y, d)
    ensures Encode([TrailingEscapeRecord(k1, k2, x, y, d)], true, d, "\n").Ok?
    ensures Decode(Encode([TrailingEscapeRecord(k1, k2, x, y, d)], true, d, "\n").value, true, d)
      == Err(ColumnCountMismatch)
  {
    TrailingEscapeEncoded(k1, k2, x, y, d);
    assert [k1, d.separator, k2, '\n'] + TrailingEscapeRow(x, y, d)
      == [k1, d.separator, k2, '\n', d.enclosure, x, d.escape, d.enclosure, d.separator, y, '\n'];
    TrailingEscapeDecoded(k1, k2, x, y, d);
  }

  // ------------------------------------------------- fgetcsv's edge rules

  /**
    An enclosure opened on the last line and never closed: without a line
    ending fgetcsv returns false, which csvToArray reports as a read
    failure; with one, the field takes the rest of the text.
   */
  lemma UnclosedLastLine(x: char, d: Dialect)
    requires ValidDialect(d) && Ordinary(x, d)
    ensures ReadRecord([d.enclosure, x], d) == Err(MalformedRow)
    ensures Decode([d.enclosure, x], true, d) == Err(MalformedRow)
    ensures ReadRecord([d.enclosure, x, '\n'], d) == Ok(([[x, '\n']], ""))
  {
    var s := [d.enclosure, x];
    assert s[1..] == [x] && [x][1..] == [];
    UnclosedField([x], d);
    assert EndsOpen(s, d);
    var t := [d.enclosure, x, '\n'];
    assert t[1..] == [x, '\n'] && [x, '\n'][1..] == ['\n'] && ['\n'][1..] == [];
    UnclosedField([x, '\n'], d);
  }

  /**
    Blanks before an opening enclosure are dropped; blanks before any
    other character belong to the field.
   */
  lemma BlanksBeforeEnclosure(x: char, d: Dialect)
    requires ValidDialect(d) && Ordinary(x, d) && ' ' != d.separator && !Blank(d.enclosure, d)
    ensures ReadRecord([' ', d.enclosure, x, d.enclosure, '\n'], d) == Ok(([[x]], ""))
    ensures ReadRecord([' ', x, '\n'], d) == Ok(([[' ', x]], ""))
  {
    var s := [' ', d.enclosure, x, d.enclosure, '\n'];
    assert s[1..] == [d.enclosure, x, d.enclosure, '\n'];
    assert BlankRun(s, d) == 1;
    var inside := [x, d.enclosure, '\n'];
    assert s[2..] == inside && inside[1..] == [d.enclosure, '\n'];
    OrdinaryStep(inside, d);
    assert [d.enclosure, '\n'][1..] == ['\n'] && "" + ['\n'] == ['\n'];
    ScanUnenclosedPlain("", ['\n'], d);
    assert ScanEnclosed([d.enclosure, '\n'], d) == ("", ['\n']);
    assert [x] + "" == [x];
    assert ScanEnclosed(inside, d) == ([x], ['\n']);
    var t := [' ', x, '\n'];
    assert !OpensEnclosure(t, d) by {
      BlankRunStops(t, 2, d);
    }
    assert t == [' ', x] + ['\n'];
    ScanUnenclosedPlain([' ', x], ['\n'], d);
  }
}
