# CSV codec of comma-separated-values-php, in Dafny

This project models `CommaSeparatedValuesService`, the whole of the PHP
library's logic. The service has two public operations:

- `arrayToCsv` turns a list of records into CSV text. A record is an array
  from column name to value. The service can write a header row made from
  the first record's keys. It rejects records whose column counts differ.
- `csvToArray` turns CSV text into records. The header is either the
  first row or a default header of spreadsheet column names: A, B, ...,
  Z, AA, AB, ...

The modules follow the service's structure:

- `ColumnNames`: `getColumnName` and `getDefaultHeader`. The do-while loop
  of `getColumnName` is the method `ColumnName`. It is proved to compute
  the bijective base-26 numeral of `index + 1`. The numeral is proved
  injective and onto the strings of capital letters.
- `Records`: records as ordered key/value sequences with unique keys, and
  PHP's array write (`$r[$k] = $v`). It also defines `array_combine` as a
  sequence of such writes, so a repeated header name keeps its last
  value. The two exceptions the service throws become the `CsvError`
  values `ColumnCountMismatch` and `MalformedRow`.
- `CsvRows`: a stand-in for PHP's `fputcsv` and `fgetcsv`, whose code is
  not part of this model. It is labelled as such and takes the separator,
  enclosure and escape characters and the line terminator as parameters.
  The same module models `readRecordFromTemporaryFile`, the service's
  wrapper around the reader:
  - at the end of the input it returns an empty row;
  - a blank line, which `fgetcsv` reads as a single null field, is a read
    failure;
  - so is a last line without a line ending that opens an enclosure and
    never closes it, for which `fgetcsv` returns false.

  As `fgetcsv` does, the reader skips blanks before an opening enclosure
  (` "x"` reads as `x`) and keeps them before any other character.

  The temporary stream is modelled as the unread rest of the text, and
  rewinding it means starting again from the whole text.
- `CsvService`: `arrayToCsv` and `csvToArray`.
  - The methods `ArrayToCsv` and `CsvToArray` keep the service's loops
    over the buffer. Each is proved to compute a reference function,
    `Encode` or `Decode`.
  - Decoding is characterised as three steps: read every row, check each
    row's width, and pair each row with the header.
  - Decoding what was encoded is proved to give the records back, with a
    header and without one.
- `Scenarios`: every test case of the service, proved for any plain
  characters in place of the tests' digits. That covers encoding with and
  without a header, no records, records of different widths, values with
  line feeds, decoding with and without a header (including the 32-column
  row named A to AF), and an empty text. It also shows the reader's rules
  for blanks before an enclosure and for an enclosure left open at the
  end, and holds three counterexamples to the round trip.

One might expect `decode(encode(d)) == d` for every dataset with at
least one record and uniform column counts. The code does not meet that,
and the model follows the code. There are three counterexamples:

- A record with one column whose value is empty, such as `[k => ""]`, is
  written as `"k\n\n"`. Its data row is a blank line, and `csvToArray`
  rejects a blank line as a read failure
  (`Scenarios.EmptyValueBreaksRoundTrip`).
- A record with no columns is written as `"\n\n"`: an empty header row
  and an empty data row. Decoding rejects the first blank line
  (`Scenarios.NoColumnsBreaksRoundTrip`).
- A value that ends with the escape character is written enclosed, with
  the closing enclosure right after the escape character. The reader
  treats that enclosure as escaped, so the field runs on to the end of the
  text. The row then has fewer fields than the header, and decoding fails
  with the column-count error (`Scenarios.TrailingEscapeBreaksRoundTrip`).

The round-trip lemmas therefore assume:

- no key or value contains the escape character;
- every row has at least one field, and no row is a single empty field;
- the separator, enclosure and escape characters differ from each other
  and none is a line break;
- the line terminator is `"\n"`;
- with a header, every record has the first record's keys, in the same
  order. Otherwise the header row names columns the later records do not
  have.

## Model

| member | source | states |
|---|---|---|
| ColumnNames.Letter | src/Services/CommaSeparatedValuesService.php:132 | `chr(65 + k)` for `k < 26` is a capital letter |
| ColumnNames.Numeral | src/Services/CommaSeparatedValuesService.php:127-144 | the reference column name of n uses only the letters A to Z, and is empty exactly when n is 0 |
| ColumnNames.ValueOfNumeral | src/Services/CommaSeparatedValuesService.php:127-144 | reading a column name back in bijective base 26 gives the number it was made from |
| ColumnNames.NumeralOfValue | src/Services/CommaSeparatedValuesService.php:127-144 | every string of capital letters is the column name of the number it denotes, so every name is reachable |
| ColumnNames.NumeralInjective | src/Services/CommaSeparatedValuesService.php:127-144 | two numbers with the same column name are equal |
| ColumnNames.ColumnName | src/Services/CommaSeparatedValuesService.php:127-144 | the do-while loop, with its `0 === $index` branch, returns the bijective base-26 numeral of index + 1 (0 gives A, 25 gives Z, 26 gives AA), and it terminates because the index decreases |
| ColumnNames.DefaultHeaderOf | src/Services/CommaSeparatedValuesService.php:116-125 | the closed form of getDefaultHeader: column i is named by the numeral of i + 1. `ColumnNames.DefaultHeader` computes it and `ColumnNames.DefaultHeaderDistinct` proves its names distinct |
| ColumnNames.DefaultHeaderDistinct | src/Services/CommaSeparatedValuesService.php:116-125 | no two columns of a default header share a name |
| ColumnNames.DefaultHeader | src/Services/CommaSeparatedValuesService.php:116-125 | the for loop returns exactly n names, the i-th being the name of column i, and they are pairwise distinct |
| ColumnNames.ColumnNameExamples | tests/CommaSeparatedValuesServiceTest.php:225-270 | columns 0, 25, 26, 31 and 52 are named A, Z, AA, AF and BA |
| Records.Keys | src/Services/CommaSeparatedValuesService.php:24 | `array_keys`: the keys of a record, in the record's order |
| Records.Put | src/Services/CommaSeparatedValuesService.php:100 | a PHP array write keeps keys unique. An existing key keeps its place and a new key goes last. The key then holds the new value, and every other entry is unchanged |
| Records.Combine | src/Services/CommaSeparatedValuesService.php:100 | the record `array_combine` builds has unique keys |
| Records.CombineDistinct | src/Services/CommaSeparatedValuesService.php:100 | with distinct header names, `array_combine` pairs header[i] with fields[i] in header order |
| Records.CombineHasEveryName | src/Services/CommaSeparatedValuesService.php:100 | every header name is a key of the combined record |
| Records.CombineKeepsLast | src/Services/CommaSeparatedValuesService.php:100 | with repeated names, each entry pairs a name with the field at the last position of that name in the header |
| CsvRows.NeedsEnclosure | src/Services/CommaSeparatedValuesService.php:230 | the writer encloses a field exactly when it holds the separator, the enclosure, the escape character, a line feed or a carriage return |
| CsvRows.Escaped | src/Services/CommaSeparatedValuesService.php:230 | inside an enclosure, every enclosure character is doubled except right after the escape character; the result is never shorter, and a field without the enclosure character is kept as it is |
| CsvRows.EncodeField | src/Services/CommaSeparatedValuesService.php:230 | a field is written unchanged exactly when it needs no enclosure; otherwise it is enclosed and escaped. `CsvRows.ScanEncodedField` proves the reader inverts it |
| CsvRows.EncodeFields | src/Services/CommaSeparatedValuesService.php:230 | the fields are written in order, joined by the separator. `CsvRows.ScanEncodedFields` proves the reader inverts it |
| CsvRows.EncodeRow | src/Services/CommaSeparatedValuesService.php:228-233 | one row written by the writer stand-in, ended by the line terminator. `CsvRows.ReadEncodedRow` proves the reader inverts it |
| CsvRows.ScanUnenclosed | src/Services/CommaSeparatedValuesService.php:209 | an unenclosed field is the text up to the next separator or line feed. The field and the rest make up the input, and the field holds neither character |
| CsvRows.ScanEnclosed | src/Services/CommaSeparatedValuesService.php:209 | an enclosed field ends at its closing enclosure: a doubled enclosure stands for one, and the escape character keeps the next character. The reader then stops at a separator, a line feed or the end, and never reads past the input |
| CsvRows.BlankRun | src/Services/CommaSeparatedValuesService.php:209 | the number of blanks at the start of a text: every character it covers is a space, tab, vertical tab, form feed or carriage return other than the separator, and the next character is not |
| CsvRows.OpensEnclosure | src/Services/CommaSeparatedValuesService.php:209 | a field is enclosed when it starts with the enclosure, or with blanks followed by the enclosure |
| CsvRows.Opening | src/Services/CommaSeparatedValuesService.php:209 | the opening enclosure of an enclosed field is there, with only blanks before it |
| CsvRows.ScanField | src/Services/CommaSeparatedValuesService.php:209 | an enclosed field is read from after its opening enclosure, so blanks before it are dropped. Any other field is read as it stands, blanks included, and the field and the rest make up the input. The reader stops at a separator, a line feed or the end |
| CsvRows.EndsOpen | src/Services/CommaSeparatedValuesService.php:209 | the last field of a row opens an enclosure that the text never closes |
| CsvRows.ReadLine | src/Services/CommaSeparatedValuesService.php:209-212 | the reader gives a single null field exactly for a blank line. It gives false exactly when no line feed is left and the row ends inside an enclosure that is never closed. Any other line gives at least one field, and the rest is always shorter |
| CsvRows.ScanFields | src/Services/CommaSeparatedValuesService.php:209 | the row reader returns at least one field and always consumes input |
| CsvRows.ReadRecord | src/Services/CommaSeparatedValuesService.php:203-220 | reading a row gives an empty row exactly at the end of the input. It fails with the read error exactly when the next line is blank (the single-null-field row), or is the last line, has no line ending and ends inside an enclosure (`fgetcsv` returns false). Otherwise it gives the row's fields and a shorter rest |
| CsvRows.ScanUnenclosedPlain | src/Services/CommaSeparatedValuesService.php:209 | an unenclosed field without separator or line feed is read back up to the next separator or line feed |
| CsvRows.ScanEnclosedEscaped | src/Services/CommaSeparatedValuesService.php:209 | the inside of an enclosed field, with its enclosures doubled, is read back to the original value when it holds no escape character |
| CsvRows.PlainNotEnclosed | src/Services/CommaSeparatedValuesService.php:209 | a field written without an enclosure is never taken for an enclosed one by the reader, blanks included |
| CsvRows.ScanEncodedField | src/Services/CommaSeparatedValuesService.php:228-233 | a written field, enclosed or not, is read back to the original value when it holds no escape character |
| CsvRows.ScanEncodedFields | src/Services/CommaSeparatedValuesService.php:228-233 | the fields of a written row are read back, in order, and the text after the row is left unread |
| CsvRows.ReadEncodedRow | src/Services/CommaSeparatedValuesService.php:203-233 | reading a row that was written gives back exactly its fields and leaves the rest unread, when no field holds the escape character and the row is not a single empty field |
| CsvService.Encode | src/Services/CommaSeparatedValuesService.php:14-53 | the reference for arrayToCsv: it fails, only with the column-count error, exactly when some record's column count differs from the first record's, and it gives "" for no records |
| CsvService.DecodeRows | src/Services/CommaSeparatedValuesService.php:85-101 | the reference for the read loop of csvToArray: every record it returns has unique keys. `CsvService.DecodeRowsByRows` characterises it |
| CsvService.Decode | src/Services/CommaSeparatedValuesService.php:60-111 | the reference for csvToArray: "" and "0" give no records, and every record returned has unique keys. `CsvService.DecodeStructure` characterises it |
| CsvService.HeaderRow | src/Services/CommaSeparatedValuesService.php:23-27 | the header row is the first record's keys, written as one row, when asked for, and nothing otherwise |
| CsvService.DataRows | src/Services/CommaSeparatedValuesService.php:31-39 | one written row per record, each from that record's values. `CsvService.DataRowsAppend` proves the rows come in input order |
| CsvService.DataRowsAppend | src/Services/CommaSeparatedValuesService.php:31-39 | appending a record appends exactly its row, so rows come in input order |
| CsvService.EncodeMismatch | src/Services/CommaSeparatedValuesService.php:29-36 | any record whose column count differs from the first record's makes encoding fail with the column-count error, and no text is returned |
| CsvService.EncodeIgnoresLaterKeys | src/Services/CommaSeparatedValuesService.php:29-38 | encoding never compares key names: records after the first with the same values but other keys give the same result |
| CsvService.ArrayToCsv | src/Services/CommaSeparatedValuesService.php:14-53 | the write loop computes `Encode`. That is "" for no records, even with a header. It is the column-count error if any count differs. Otherwise it is the first record's keys as a header row, only when asked for, then one row per record, in input order, each with that record's own values |
| CsvService.CsvToArray | src/Services/CommaSeparatedValuesService.php:60-111 | the read loop computes `Decode`. That is no records for "" and for "0". Otherwise the header is the first row, or the default header for the first row's width with the first row read again as data. Then each row is paired with the header until the end of the input |
| CsvService.DecodeRowsByRows | src/Services/CommaSeparatedValuesService.php:85-101 | the read loop fails when some row cannot be read. It gives the column-count error when some row's width differs from the header's. Otherwise it gives one record per row, in order |
| CsvService.DecodeStructure | src/Services/CommaSeparatedValuesService.php:73-101 | with a header, the first row is the header and not a record. Without one, the default header is used and every row is data. Then all rows fit the header and are combined, or the call fails with the column-count error |
| CsvService.CombineAllAt | src/Services/CommaSeparatedValuesService.php:100 | the i-th record decoded is `array_combine` of the header and the i-th row |
| CsvService.ReadDataRows | src/Services/CommaSeparatedValuesService.php:87-101 | reading the written data rows gives back every record's values, in order, and stops at the end |
| CsvService.EncodedNotEmpty | src/Services/CommaSeparatedValuesService.php:62-64 | what encoding writes for at least one record is never "" or "0", so decoding does not short-circuit on it |
| CsvService.DecodeDataRows | src/Services/CommaSeparatedValuesService.php:85-101 | decoding the written data rows with a header of the right width gives one combined record per input record |
| CsvService.CombineAllRecords | src/Services/CommaSeparatedValuesService.php:100 | pairing each record's values with its own distinct keys rebuilds the records |
| CsvService.CombineAllDefault | src/Services/CommaSeparatedValuesService.php:76-100 | pairing rows with a header of distinct names keeps every row's values, in order, under the header's names |
| CsvService.DecodeEncodeWithHeader | src/Services/CommaSeparatedValuesService.php:14-111 | with a header, decoding what was encoded gives the records back. This holds when every record has the first record's keys in the same order and no row holds the escape character or is a single empty field |
| CsvService.DecodeEncodeWithoutHeader | src/Services/CommaSeparatedValuesService.php:14-111 | without a header, decoding what was encoded gives one record per input record. Each has the default header's names as keys and the input record's values |
| Scenarios.EncodeGrid | tests/CommaSeparatedValuesServiceTest.php:20-74 | three records of columns A, B, C encode as "A,B,C\n" followed by one comma-separated row per record, and without the header row when it is not asked for |
| Scenarios.DecodeGrid | tests/CommaSeparatedValuesServiceTest.php:129-155 | decoding that text with its header row gives the three records |
| Scenarios.DecodeGridNoHeader | tests/CommaSeparatedValuesServiceTest.php:157-183 | decoding the rows without a header names the columns A, B, C and gives the three records |
| Scenarios.DecodeShortRow | tests/CommaSeparatedValuesServiceTest.php:197-205 | a data row of two fields under a header of three fails with the column-count error |
| Scenarios.EncodeLineBreaks | tests/CommaSeparatedValuesServiceTest.php:111-127 | values holding a line feed are written enclosed in double quotes |
| Scenarios.DecodeLineBreaks | tests/CommaSeparatedValuesServiceTest.php:207-223 | decoding that text gives the record back, line feeds included |
| Scenarios.EncodeNoRecords | tests/CommaSeparatedValuesServiceTest.php:76-86 | no records encode to "", even with a header |
| Scenarios.DecodeEmptyText | tests/CommaSeparatedValuesServiceTest.php:185-195 | "" decodes to no records, and so does "0" |
| Scenarios.EncodeDifferentColumnCounts | tests/CommaSeparatedValuesServiceTest.php:88-109 | records of three, two and one columns fail to encode with the column-count error |
| Scenarios.DecodeOneRowNoHeader | src/Services/CommaSeparatedValuesService.php:73-101 | decoding one written row without a header gives one record that pairs the default header's names with the row's fields |
| Scenarios.ShortNames | src/Services/CommaSeparatedValuesService.php:127-144 | columns 0 to 25 are named by one letter, and columns 26 to 51 by 'A' followed by one letter |
| Scenarios.DefaultHeaderThirtyTwo | src/Services/CommaSeparatedValuesService.php:116-125 | the default header of 32 columns is A to Z, then AA to AF |
| Scenarios.DecodeThirtyTwoColumns | tests/CommaSeparatedValuesServiceTest.php:225-270 | decoding a row of 32 fields without a header gives one record with the columns A to AF, in order |
| Scenarios.UnclosedLastLine | src/Services/CommaSeparatedValuesService.php:209-212 | a last line that opens an enclosure and has no line ending is a read failure, and csvToArray rejects it. With a line feed after it, the field takes the rest of the text, line feed included |
| Scenarios.BlanksBeforeEnclosure | src/Services/CommaSeparatedValuesService.php:209 | a blank before an opening enclosure is dropped, so ` "x"` reads as `x`; a blank before any other character stays in the field |
| Scenarios.NoColumnsBreaksRoundTrip | src/Services/CommaSeparatedValuesService.php:215-217 | a record with no columns encodes to "\n\n", and decoding that fails with the read error |
| Scenarios.EmptyValueBreaksRoundTrip | src/Services/CommaSeparatedValuesService.php:215-217 | the record `[k => ""]` encodes to "k\n\n", and decoding that fails with the read error |
| Scenarios.TrailingEscapeBreaksRoundTrip | src/Services/CommaSeparatedValuesService.php:209 | a record whose value ends with the escape character encodes, but decoding the result fails with the column-count error |

## Left out

- The temporary-stream plumbing (`openTemporaryFile`, `readContentFromTemporaryFile`, `writeContentToTemporaryFile`, `rewindTemporaryFile`, `closeTemporaryFile`, the try/finally cleanup) is I/O. The stream is a string and a read position, and the failure branches of fopen, fwrite, fread, rewind and fclose are not modelled.
- `feof` is modelled as "no input left". `fgetcsv` returns false (line 211) for a last line without line ending that ends inside an enclosure; that case is modelled (`CsvRows.ReadLine`). Its other false returns are stream failures and are not modelled.
- PHP's `fputcsv` and `fgetcsv` are foreign code. `CsvRows` is a stand-in that follows their documented behaviour, not their source.
- CsvRows.NeedsEnclosure: PHP's `fputcsv` also encloses fields that contain a space or a tab. The stand-in encloses only on the separator, the enclosure, the escape character and line breaks. This changes only the quoting, not the values read back.
- CsvRows.ReadRecord: only a line feed ends a row. PHP's reader drops a "\r" right before the line feed; the stand-in keeps it as the end of the last field, so rows written with the line terminator "\r\n" are not modelled on the way back.
- CsvService.DecodeEncodeWithHeader: proved only for the line terminator "\n" and for data without the escape character. It also needs all records to share the first record's keys in the same order. Other data may not round-trip, as the two `Scenarios` counterexamples show.
- CsvService.DecodeEncodeWithoutHeader: proved only for the line terminator "\n" and data without the escape character.
- ColumnNames.ColumnName: the index is a natural number. A negative PHP index is not modelled; the service only passes indices from 0 upwards.
- PHP converts numeric-string array keys such as "1" to integers. Keys here stay strings.
- The records argument is a list. A PHP array without key 0 (where `$records[0]` is undefined) is not modelled.
- CsvRows.Dialect: the escape character is always a character. PHP's `fputcsv` and `fgetcsv` also accept an empty escape string, which turns the escape mechanism off, and the service passes `$escape` on unchanged (lines 209 and 230). That "no escape character" setting is not modelled.
- The separator, enclosure and escape parameters are single characters. PHP rejects longer strings with an error, and that error is not modelled.
- PHP strings are bytes. The model works on Dafny characters, with no encoding.
- `CommaSeparatedValuesServiceInterface` declares signatures only and is not part of this model.
