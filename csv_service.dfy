/**
  The CSV service: arrayToCsv (records to CSV text) and csvToArray (CSV
  text to records).

  `Encode` and `Decode` are the reference definitions; the methods
  ArrayToCsv and CsvToArray are the service's loops over the temporary
  buffer and are proved to compute them. The lemmas characterise decoding
  as "read every row, check the column counts, pair each row with the
  header", and prove that decoding what was encoded gives the records back.
 */
module CsvService {
  import opened Records
  import opened CsvRows
  import opened ColumnNames

  // ---------------------------------------------------------------- encode

  /** Every record has as many columns as the first. */
  predicate SameColumnCount(records: seq<Record>) {
    forall i :: 0 <= i < |records| ==> |records[i]| == |records[0]|
  }

  /** One row per record, in order: each record's values in its own order. */
  function DataRows(records: seq<Record>, d: Dialect, eol: string): string
    decreases |records|
  {
    if records == [] then "" else EncodeRow(Values(records[0]), d, eol) + DataRows(records[1..], d, eol)
  }

  /** The header row, made from the keys of the first record, or nothing. */
  function HeaderRow(records: seq<Record>, useHeader: bool, d: Dialect, eol: string): string
    requires records != []
  {
    if useHeader then EncodeRow(Keys(records[0]), d, eol) else ""
  }

  /**
    arrayToCsv: "" for no records, even with a header; the column-count
    error when the number of columns of some record differs from that of
    the first; otherwise the header row (when asked for) and the data rows.
   */
  function Encode(records: seq<Record>, useHeader: bool, d: Dialect, eol: string): (r: Result<string>)
    ensures r.Err? <==> !SameColumnCount(records)
    ensures r.Err? ==> r.error == ColumnCountMismatch
    ensures records == [] ==> r == Ok("")
  {
    if records == [] then Ok("")
    else if !SameColumnCount(records) then Err(ColumnCountMismatch)
    else Ok(HeaderRow(records, useHeader, d, eol) + DataRows(records, d, eol))
  }

  lemma {:induction false} DataRowsAppend(records: seq<Record>, r: Record, d: Dialect, eol: string)
    ensures DataRows(records + [r], d, eol) == DataRows(records, d, eol) + EncodeRow(Values(r), d, eol)
    decreases |records|
  {
    if records == [] {
      assert [r][1..] == [];
    } else {
      assert (records + [r])[1..] == records[1..] + [r];
      DataRowsAppend(records[1..], r, d, eol);
    }
  }

  /** One turn of arrayToCsv's loop: the buffer grows by the next row. */
  lemma DataRowsPrefix(prefix: string, records: seq<Record>, i: nat, d: Dialect, eol: string)
    requires i < |records|
    ensures prefix + DataRows(records[..i + 1], d, eol)
      == (prefix + DataRows(records[..i], d, eol)) + EncodeRow(Values(records[i]), d, eol)
  {
    var a, b := DataRows(records[..i], d, eol), EncodeRow(Values(records[i]), d, eol);
    assert records[..i + 1] == records[..i] + [records[i]];
    DataRowsAppend(records[..i], records[i], d, eol);
    assert DataRows(records[..i + 1], d, eol) == a + b;
    assert prefix + (a + b) == (prefix + a) + b;
  }

  lemma EncodeMismatch(records: seq<Record>, useHeader: bool, d: Dialect, eol: string, i: nat)
    requires i < |records| && |records[i]| != |records[0]|
    ensures Encode(records, useHeader, d, eol) == Err(ColumnCountMismatch)
  {
  }

  lemma EncodeMatching(records: seq<Record>, useHeader: bool, d: Dialect, eol: string, buffer: string)
    requires records != [] && forall j :: 0 <= j < |records| ==> |records[j]| == |records[0]|
    requires buffer == HeaderRow(records, useHeader, d, eol) + DataRows(records[..|records|], d, eol)
    ensures Encode(records, useHeader, d, eol) == Ok(buffer)
  {
    assert records[..|records|] == records;
  }

  lemma {:induction false} DataRowsByValues(records: seq<Record>, others: seq<Record>, d: Dialect, eol: string)
    requires |records| == |others|
    requires forall i :: 0 <= i < |records| ==> Values(records[i]) == Values(others[i])
    ensures DataRows(records, d, eol) == DataRows(others, d, eol)
    decreases |records|
  {
    if records != [] {
      assert Values(records[0]) == Values(others[0]);
      forall i | 0 <= i < |records| - 1
        ensures Values(records[1..][i]) == Values(others[1..][i])
      {
        assert records[1..][i] == records[i + 1] && others[1..][i] == others[i + 1];
      }
      DataRowsByValues(records[1..], others[1..], d, eol);
    }
  }

  /**
    Only the number of columns of a record is checked and only its values
    are written: the keys of every record after the first do not matter,
    nor does their order relative to the first record's.
   */
  lemma EncodeIgnoresLaterKeys(records: seq<Record>, others: seq<Record>, useHeader: bool, d: Dialect, eol: string)
    requires records != [] && |records| == |others| && others[0] == records[0]
    requires forall i :: 0 <= i < |records| ==> Values(records[i]) == Values(others[i])
    ensures Encode(records, useHeader, d, eol) == Encode(others, useHeader, d, eol)
  {
    forall i | 0 <= i < |records|
      ensures |records[i]| == |others[i]|
    {
      assert |Values(records[i])| == |Values(others[i])|;
    }
    DataRowsByValues(records, others, d, eol);
  }

  /** arrayToCsv: writes the header and then each record into the buffer. */
  method ArrayToCsv(records: seq<Record>, useHeader: bool, d: Dialect, eol: string) returns (csv: Result<string>)
    ensures csv == Encode(records, useHeader, d, eol)
  {
    if records == [] {
      return Ok("");
    }
    var buffer := "";
    if useHeader {
      var header := Keys(records[0]);
      buffer := buffer + EncodeRow(header, d, eol);
    }
    ghost var headerRow := buffer;
    assert headerRow == HeaderRow(records, useHeader, d, eol);
    var numberOfColumns := |records[0]|;
    assert records[..0] == [];
    for i := 0 to |records|
      invariant buffer == headerRow + DataRows(records[..i], d, eol)
      invariant forall j :: 0 <= j < i ==> |records[j]| == numberOfColumns
    {
      var record := records[i];
      if |record| != numberOfColumns {
        EncodeMismatch(records, useHeader, d, eol, i);
        return Err(ColumnCountMismatch);
      }
      DataRowsPrefix(headerRow, records, i, d, eol);
      buffer := buffer + EncodeRow(Values(record), d, eol);
      assert buffer == headerRow + DataRows(records[..i + 1], d, eol);
    }
    EncodeMatching(records, useHeader, d, eol, buffer);
    return Ok(buffer);
  }

  // ---------------------------------------------------------------- decode

  function Prepend(records: seq<Record>, r: Result<seq<Record>>): Result<seq<Record>> {
    match r
    case Err(e) => Err(e)
    case Ok(more) => Ok(records + more)
  }

  /**
    The loop of csvToArray from the given read position: stops at the end
    of the input, fails on a malformed row or on a row whose number of
    fields differs from the header's, and otherwise pairs the row with
    the header.
   */
  function DecodeRows(s: string, header: seq<string>, d: Dialect): (r: Result<seq<Record>>)
    ensures r.Ok? ==> forall i :: 0 <= i < |r.value| ==> UniqueKeys(r.value[i])
    decreases |s|
  {
    match ReadRecord(s, d)
    case Err(e) => Err(e)
    case Ok((fields, rest)) =>
      if fields == [] then Ok([])
      else if |fields| != |header| then Err(ColumnCountMismatch)
      else Prepend([Combine(header, fields)], DecodeRows(rest, header, d))
  }

  /**
    csvToArray: no records for "" (and for "0", which PHP's empty() also
    treats as empty); otherwise the header is the first row, or the
    default header of as many columns as the first row has, in which case
    the first row is read again as data.
   */
  function Decode(csv: string, hasHeader: bool, d: Dialect): (r: Result<seq<Record>>)
    ensures csv == "" || csv == "0" ==> r == Ok([])
    ensures r.Ok? ==> forall i :: 0 <= i < |r.value| ==> UniqueKeys(r.value[i])
  {
    if csv == "" || csv == "0" then Ok([])
    else
      match ReadRecord(csv, d)
      case Err(e) => Err(e)
      case Ok((first, rest)) =>
        if hasHeader then DecodeRows(rest, first, d)
        else DecodeRows(csv, DefaultHeaderOf(|first|), d)
  }

  /** csvToArray: reads the header, then records until the end of the buffer. */
  method CsvToArray(csv: string, hasHeader: bool, d: Dialect) returns (result: Result<seq<Record>>)
    ensures result == Decode(csv, hasHeader, d)
  {
    if csv == "" || csv == "0" {
      return Ok([]);
    }
    var remaining := csv;
    var header: seq<string>;
    if hasHeader {
      var read := ReadRecord(remaining, d);
      if read.Err? {
        return Err(read.error);
      }
      header, remaining := read.value.0, read.value.1;
    } else {
      var read := ReadRecord(remaining, d);
      if read.Err? {
        return Err(read.error);
      }
      header := DefaultHeader(|read.value.0|);
      remaining := csv;
    }
    assert Decode(csv, hasHeader, d) == DecodeRows(remaining, header, d);
    var numberOfColumns := |header|;
    var records: seq<Record> := [];
    PrependNothing(DecodeRows(remaining, header, d));
    while true
      invariant Decode(csv, hasHeader, d) == Prepend(records, DecodeRows(remaining, header, d))
      decreases |remaining|
    {
      var read := ReadRecord(remaining, d);
      if read.Err? {
        return Err(read.error);
      }
      var fields, rest := read.value.0, read.value.1;
      if fields == [] {
        break;
      }
      if |fields| != numberOfColumns {
        return Err(ColumnCountMismatch);
      }
      var record := Combine(header, fields);
      PrependTwice(records, record, DecodeRows(rest, header, d));
      records := records + [record];
      remaining := rest;
    }
    assert records + [] == records;
    return Ok(records);
  }

  lemma PrependNothing(r: Result<seq<Record>>)
    ensures Prepend([], r) == r
  {
    if r.Ok? {
      assert [] + r.value == r.value;
    }
  }

  lemma PrependTwice(records: seq<Record>, record: Record, r: Result<seq<Record>>)
    ensures Prepend(records, Prepend([record], r)) == Prepend(records + [record], r)
  {
    if r.Ok? {
      assert records + ([record] + r.value) == records + [record] + r.value;
    }
  }

  // ------------------------------------------------- decoding, row by row

  /** Every row of the text up to its end, with no column-count check. */
  function ReadRows(s: string, d: Dialect): Result<seq<seq<string>>>
    decreases |s|
  {
    match ReadRecord(s, d)
    case Err(e) => Err(e)
    case Ok((fields, rest)) =>
      if fields == [] then Ok([])
      else
        match ReadRows(rest, d)
        case Err(e) => Err(e)
        case Ok(rows) => Ok([fields] + rows)
  }

  predicate FitHeader(rows: seq<seq<string>>, header: seq<string>) {
    forall i :: 0 <= i < |rows| ==> |rows[i]| == |header|
  }

  /** Each row paired with the header, in order. */
  function CombineAll(header: seq<string>, rows: seq<seq<string>>): seq<Record>
    requires FitHeader(rows, header)
    decreases |rows|
  {
    if rows == [] then []
    else
      assert FitHeader(rows[1..], header) by {
        forall i | 0 <= i < |rows| - 1 ensures |rows[1..][i]| == |header| {
          assert rows[1..][i] == rows[i + 1];
        }
      }
      [Combine(header, rows[0])] + CombineAll(header, rows[1..])
  }

  lemma {:induction false} CombineAllAt(header: seq<string>, rows: seq<seq<string>>, i: nat)
    requires FitHeader(rows, header) && i < |rows|
    ensures |CombineAll(header, rows)| == |rows|
    ensures CombineAll(header, rows)[i] == Combine(header, rows[i])
    decreases i
  {
    if i > 0 {
      CombineAllAt(header, rows[1..], i - 1);
      assert rows[1..][i - 1] == rows[i];
    } else {
      CombineAllLength(header, rows);
    }
  }

  lemma {:induction false} CombineAllLength(header: seq<string>, rows: seq<seq<string>>)
    requires FitHeader(rows, header)
    ensures |CombineAll(header, rows)| == |rows|
    decreases |rows|
  {
    if rows != [] {
      CombineAllLength(header, rows[1..]);
    }
  }

  /**
    The decoding loop is "read every row, then check the counts, then
    pair each row with the header": a malformed row makes it fail, a row
    of the wrong width makes it fail with the column-count error, and
    otherwise there is one record per row, in order.
   */
  lemma {:induction false} DecodeRowsByRows(s: string, header: seq<string>, d: Dialect)
    ensures ReadRows(s, d).Err? ==> DecodeRows(s, header, d).Err?
    ensures ReadRows(s, d).Ok? && !FitHeader(ReadRows(s, d).value, header) ==>
      DecodeRows(s, header, d) == Err(ColumnCountMismatch)
    ensures ReadRows(s, d).Ok? && FitHeader(ReadRows(s, d).value, header) ==>
      DecodeRows(s, header, d) == Ok(CombineAll(header, ReadRows(s, d).value))
    decreases |s|
  {
    var read := ReadRecord(s, d);
    if read.Ok? && read.value.0 != [] {
      var fields, rest := read.value.0, read.value.1;
      DecodeRowsByRows(rest, header, d);
      if ReadRows(rest, d).Ok? {
        var rows := ReadRows(rest, d).value;
        assert ReadRows(s, d) == Ok([fields] + rows);
        if |fields| == |header| && FitHeader(rows, header) {
          CombineAllCons(header, fields, rows);
        } else if |fields| == |header| {
          var i :| 0 <= i < |rows| && |rows[i]| != |header|;
          assert ([fields] + rows)[i + 1] == rows[i];
        } else {
          assert ([fields] + rows)[0] == fields;
        }
      }
    } else if read.Ok? {
      assert ReadRows(s, d) == Ok([]);
      assert CombineAll(header, []) == [];
    }
  }

  lemma CombineAllCons(header: seq<string>, fields: seq<string>, rows: seq<seq<string>>)
    requires |fields| == |header| && FitHeader(rows, header)
    ensures FitHeader([fields] + rows, header)
    ensures CombineAll(header, [fields] + rows) == [Combine(header, fields)] + CombineAll(header, rows)
  {
    var all := [fields] + rows;
    assert all[0] == fields && all[1..] == rows;
    forall i | 0 <= i < |all|
      ensures |all[i]| == |header|
    {
      if i > 0 {
        assert all[i] == rows[i - 1];
      }
    }
  }

  /** Decoding a whole text, in terms of the rows it holds. */
  lemma DecodeStructure(csv: string, hasHeader: bool, d: Dialect)
    requires csv != "" && csv != "0"
    ensures ReadRows(csv, d).Err? ==> Decode(csv, hasHeader, d).Err?
    ensures ReadRows(csv, d).Ok? ==>
      var rows := ReadRows(csv, d).value;
      && |rows| >= 1
      && var header := if hasHeader then rows[0] else DefaultHeaderOf(|rows[0]|);
         var data := if hasHeader then rows[1..] else rows;
         Decode(csv, hasHeader, d)
           == if FitHeader(data, header) then Ok(CombineAll(header, data)) else Err(ColumnCountMismatch)
  {
    var read := ReadRecord(csv, d);
    if read.Ok? {
      var (first, rest) := read.value;
      if hasHeader {
        DecodeRowsByRows(rest, first, d);
        if ReadRows(rest, d).Ok? {
          assert ReadRows(csv, d).value[1..] == ReadRows(rest, d).value;
        }
      } else {
        DecodeRowsByRows(csv, DefaultHeaderOf(|first|), d);
      }
    }
  }

  // ------------------------------------------------------------ round trip

  function AllValues(records: seq<Record>): seq<seq<string>> {
    seq(|records|, i requires 0 <= i < |records| => Values(records[i]))
  }

  /** Every row can be read back: see ReadEncodedRow. */
  predicate WritableRecords(records: seq<Record>, d: Dialect) {
    forall i :: 0 <= i < |records| ==> WritableRow(Values(records[i]), d)
  }

  lemma {:induction false} ReadDataRows(records: seq<Record>, d: Dialect)
    requires ValidDialect(d) && WritableRecords(records, d)
    ensures ReadRows(DataRows(records, d, "\n"), d) == Ok(AllValues(records))
    decreases |records|
  {
    if records != [] {
      var rest := DataRows(records[1..], d, "\n");
      var s := DataRows(records, d, "\n");
      assert s == EncodeRow(Values(records[0]), d, "\n") + rest;
      ReadEncodedRow(Values(records[0]), rest, d);
      WritableTail(records, d);
      ReadDataRows(records[1..], d);
      ReadRowsStep(s, Values(records[0]), rest, AllValues(records[1..]), d);
      AllValuesCons(records);
    } else {
      assert DataRows(records, d, "\n") == "";
      assert AllValues(records) == [];
    }
  }

  lemma AllValuesCons(records: seq<Record>)
    requires records != []
    ensures AllValues(records) == [Values(records[0])] + AllValues(records[1..])
  {
  }

  lemma WritableTail(records: seq<Record>, d: Dialect)
    requires records != [] && WritableRecords(records, d)
    ensures WritableRecords(records[1..], d)
  {
    forall i | 0 <= i < |records[1..]|
      ensures WritableRow(Values(records[1..][i]), d)
    {
      assert records[1..][i] == records[i + 1];
    }
  }

  /** A non-empty row read from the front of the text comes before the rows after it. */
  lemma ReadRowsStep(s: string, row: seq<string>, rest: string, rows: seq<seq<string>>, d: Dialect)
    requires ReadRecord(s, d) == Ok((row, rest)) && row != []
    requires ReadRows(rest, d) == Ok(rows)
    ensures ReadRows(s, d) == Ok([row] + rows)
  {
  }

  lemma ZipKeysValues(r: Record)
    ensures Zip(Keys(r), Values(r)) == r
  {
  }

  /** A written text is never one that csvToArray treats as empty. */
  lemma EncodedNotEmpty(prefix: string, records: seq<Record>, d: Dialect)
    requires records != []
    ensures prefix + DataRows(records, d, "\n") != ""
    ensures prefix + DataRows(records, d, "\n") != "0"
  {
    var row := EncodeRow(Values(records[0]), d, "\n");
    var tail := DataRows(records[1..], d, "\n");
    assert DataRows(records, d, "\n") == row + tail;
    var csv := prefix + (row + tail);
    assert row == EncodeFields(Values(records[0]), d) + ['\n'];
    assert |row| >= 1 && row[|row| - 1] == '\n';
    if |csv| == 1 {
      assert prefix == [] && tail == [] && csv == row;
      assert csv[0] == '\n';
    }
  }

  /** Decoding the data rows that were written gives one record per row. */
  lemma DecodeDataRows(records: seq<Record>, header: seq<string>, d: Dialect)
    requires ValidDialect(d) && WritableRecords(records, d)
    requires forall i :: 0 <= i < |records| ==> |records[i]| == |header|
    ensures FitHeader(AllValues(records), header)
    ensures DecodeRows(DataRows(records, d, "\n"), header, d) == Ok(CombineAll(header, AllValues(records)))
  {
    ReadDataRows(records, d);
    DecodeRowsByRows(DataRows(records, d, "\n"), header, d);
  }

  /** With every record keyed like the first, encoding succeeds with a header row. */
  lemma EncodeWithHeaderIs(records: seq<Record>, d: Dialect)
    requires records != []
    requires forall i :: 0 <= i < |records| ==> Keys(records[i]) == Keys(records[0])
    ensures Encode(records, true, d, "\n")
      == Ok(EncodeRow(Keys(records[0]), d, "\n") + DataRows(records, d, "\n"))
  {
    forall i | 0 <= i < |records|
      ensures |records[i]| == |records[0]|
    {
      assert |Keys(records[i])| == |records[i]|;
    }
  }

  /** Decoding with a header reads the header row and decodes the rest. */
  lemma DecodeAfterHeader(keys: seq<string>, records: seq<Record>, d: Dialect)
    requires ValidDialect(d) && WritableRow(keys, d) && records != []
    ensures Decode(EncodeRow(keys, d, "\n") + DataRows(records, d, "\n"), true, d)
      == DecodeRows(DataRows(records, d, "\n"), keys, d)
  {
    EncodedNotEmpty(EncodeRow(keys, d, "\n"), records, d);
    ReadEncodedRow(keys, DataRows(records, d, "\n"), d);
  }

  /** Pairing each record's values with its own distinct keys rebuilds the records. */
  lemma CombineAllRecords(records: seq<Record>, keys: seq<string>)
    requires Distinct(keys)
    requires forall i :: 0 <= i < |records| ==> Keys(records[i]) == keys
    ensures FitHeader(AllValues(records), keys)
    ensures CombineAll(keys, AllValues(records)) == records
  {
    assert FitHeader(AllValues(records), keys) by {
      forall i | 0 <= i < |records|
        ensures |AllValues(records)[i]| == |keys|
      {
        assert |Keys(records[i])| == |records[i]|;
      }
    }
    var decoded := CombineAll(keys, AllValues(records));
    CombineAllLength(keys, AllValues(records));
    forall i | 0 <= i < |records|
      ensures decoded[i] == records[i]
    {
      CombineAllAt(keys, AllValues(records), i);
      CombineDistinct(keys, Values(records[i]));
      ZipKeysValues(records[i]);
    }
  }

  /**
    With a header: decoding what was encoded gives the records back, when
    all records have the keys of the first in the same order, no key or
    value holds the escape character, and no row is a single empty field.
   */
  lemma DecodeEncodeWithHeader(records: seq<Record>, d: Dialect)
    requires ValidDialect(d) && records != []
    requires UniqueKeys(records[0])
    requires forall i :: 0 <= i < |records| ==> Keys(records[i]) == Keys(records[0])
    requires WritableRow(Keys(records[0]), d) && WritableRecords(records, d)
    ensures Encode(records, true, d, "\n").Ok?
    ensures Decode(Encode(records, true, d, "\n").value, true, d) == Ok(records)
  {
    var keys := Keys(records[0]);
    EncodeWithHeaderIs(records, d);
    DecodeAfterHeader(keys, records, d);
    CombineAllRecords(records, keys);
    DecodeDataRows(records, keys, d);
  }

  /** Decoding without a header takes its width from the first written row. */
  lemma DecodeWithoutHeaderIs(records: seq<Record>, d: Dialect)
    requires ValidDialect(d) && records != [] && WritableRecords(records, d)
    ensures Decode(DataRows(records, d, "\n"), false, d)
      == DecodeRows(DataRows(records, d, "\n"), DefaultHeaderOf(|records[0]|), d)
  {
    EncodedNotEmpty([], records, d);
    assert [] + DataRows(records, d, "\n") == DataRows(records, d, "\n");
    ReadEncodedRow(Values(records[0]), DataRows(records[1..], d, "\n"), d);
  }

  /** Pairing rows of the right width with distinct names keeps their values. */
  lemma CombineAllDefault(records: seq<Record>, header: seq<string>)
    requires Distinct(header)
    requires forall i :: 0 <= i < |records| ==> |records[i]| == |header|
    ensures FitHeader(AllValues(records), header)
    ensures var decoded := CombineAll(header, AllValues(records));
      && |decoded| == |records|
      && forall i :: 0 <= i < |records| ==>
           Keys(decoded[i]) == header && Values(decoded[i]) == Values(records[i])
  {
    var decoded := CombineAll(header, AllValues(records));
    CombineAllLength(header, AllValues(records));
    forall i | 0 <= i < |records|
      ensures Keys(decoded[i]) == header && Values(decoded[i]) == Values(records[i])
    {
      CombineAllAt(header, AllValues(records), i);
      CombineDistinct(header, Values(records[i]));
    }
  }

  /**
    Without a header: decoding what was encoded gives one record per
    input record, keyed by the default header, with the same values.
   */
  lemma DecodeEncodeWithoutHeader(records: seq<Record>, d: Dialect)
    requires ValidDialect(d) && records != [] && SameColumnCount(records)
    requires WritableRecords(records, d)
    ensures Encode(records, false, d, "\n").Ok?
    ensures var decoded := Decode(Encode(records, false, d, "\n").value, false, d);
      && decoded.Ok? && |decoded.value| == |records|
      && forall i :: 0 <= i < |records| ==>
           Keys(decoded.value[i]) == DefaultHeaderOf(|records[0]|)
           && Values(decoded.value[i]) == Values(records[i])
  {
    var header := DefaultHeaderOf(|records[0]|);
    var csv := DataRows(records, d, "\n");
    assert HeaderRow(records, false, d, "\n") + csv == csv;
    assert Encode(records, false, d, "\n") == Ok(csv);
    DecodeWithoutHeaderIs(records, d);
    DecodeDataRows(records, header, d);
    DefaultHeaderDistinct(|records[0]|);
    CombineAllDefault(records, header);
  }
}
