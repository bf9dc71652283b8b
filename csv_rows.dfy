/**
  Row-level CSV: a STAND-IN for PHP's fputcsv and fgetcsv, whose code is
  not part of this model, and the service's readRecordFromTemporaryFile
  built on the reader.

  The writer encloses a field that contains the separator, the enclosure,
  the escape character or a line break, doubles the enclosure inside it
  (except right after the escape character, as fputcsv does), joins the
  fields with the separator and ends the row with the line terminator.
  This follows rules 5 to 7 of section 2 of RFC 4180 for data without the
  escape character. The reader is its inverse: a line feed ends a row, an
  empty line reads as a single null field, a doubled enclosure inside an
  enclosed field stands for one enclosure character. Like fgetcsv, it
  skips blanks before an opening enclosure, and fails on a last line
  without line ending that ends inside an enclosure.

  The read buffer is the unread rest of the text: reading a row returns
  the fields and the text after them.
 */
module CsvRows {
  import opened Records

  /** The separator, enclosure and escape characters of one call. */
  datatype Dialect = Dialect(separator: char, enclosure: char, escape: char)

  /** The service's defaults: ',', '"' and '\'. */
  const DefaultDialect := Dialect(',', '"', '\\')

  /** The special characters are pairwise distinct and none is a line break. */
  predicate ValidDialect(d: Dialect) {
    && d.separator != d.enclosure && d.separator != d.escape && d.enclosure != d.escape
    && d.separator !in "\n\r" && d.enclosure !in "\n\r" && d.escape !in "\n\r"
  }

  // ---------------------------------------------------------------- writer

  /** The writer encloses a field that holds any special character. */
  predicate NeedsEnclosure(field: string, d: Dialect) {
    d.separator in field || d.enclosure in field || d.escape in field
    || '\n' in field || '\r' in field
  }

  /**
    The inside of an enclosed field: every enclosure is doubled unless the
    character before it was the escape character.
   */
  function Escaped(field: string, d: Dialect, afterEscape: bool): (r: string)
    ensures |field| <= |r|
    ensures d.enclosure !in field ==> r == field
    decreases |field|
  {
    if field == [] then ""
    else if field[0] == d.escape then [field[0]] + Escaped(field[1..], d, true)
    else if !afterEscape && field[0] == d.enclosure then [d.enclosure, d.enclosure] + Escaped(field[1..], d, false)
    else [field[0]] + Escaped(field[1..], d, false)
  }

  /** A field is written as it is exactly when it needs no enclosure. */
  function EncodeField(field: string, d: Dialect): (r: string)
    ensures r == field <==> !NeedsEnclosure(field, d)
    ensures |field| <= |r|
  {
    if NeedsEnclosure(field, d) then [d.enclosure] + Escaped(field, d, false) + [d.enclosure]
    else field
  }

  /** The fields, each encoded, joined with the separator. */
  function EncodeFields(fields: seq<string>, d: Dialect): string
    decreases |fields|
  {
    if fields == [] then ""
    else if |fields| == 1 then EncodeField(fields[0], d)
    else EncodeField(fields[0], d) + [d.separator] + EncodeFields(fields[1..], d)
  }

  /** fputcsv: one row, ended by the line terminator. */
  function EncodeRow(fields: seq<string>, d: Dialect, eol: string): string {
    EncodeFields(fields, d) + eol
  }

  // ---------------------------------------------------------------- reader

  /**
    An unenclosed field: the text up to the next separator or line feed.
    Returns the field and the text after it.
   */
  function ScanUnenclosed(s: string, d: Dialect): (r: (string, string))
    ensures s == r.0 + r.1
    ensures d.separator !in r.0 && '\n' !in r.0
    ensures r.1 == [] || r.1[0] == d.separator || r.1[0] == '\n'
    decreases |s|
  {
    if s == [] || s[0] == d.separator || s[0] == '\n' then ("", s)
    else
      var (field, rest) := ScanUnenclosed(s[1..], d);
      ([s[0]] + field, rest)
  }

  /**
    The text of an enclosed field after its opening enclosure. A doubled
    enclosure stands for one; the escape character keeps itself and the
    next character; the closing enclosure is dropped and the text up to
    the next separator or line feed is kept; an enclosure never closed
    takes the rest of the input.
   */
  function ScanEnclosed(s: string, d: Dialect): (r: (string, string))
    ensures |r.1| <= |s|
    ensures r.1 == [] || r.1[0] == d.separator || r.1[0] == '\n'
    decreases |s|
  {
    if s == [] then ("", "")
    else if s[0] == d.enclosure then
      if |s| > 1 && s[1] == d.enclosure then
        var (field, rest) := ScanEnclosed(s[2..], d);
        ([d.enclosure] + field, rest)
      else
        ScanUnenclosed(s[1..], d)
    else if s[0] == d.escape && |s| > 1 then
      var (field, rest) := ScanEnclosed(s[2..], d);
      (s[..2] + field, rest)
    else
      var (field, rest) := ScanEnclosed(s[1..], d);
      ([s[0]] + field, rest)
  }

  /**
    fgetcsv's blanks (C's isspace within a line): a space, tab, vertical
    tab, form feed or carriage return that is not the separator.
   */
  predicate Blank(c: char, d: Dialect) {
    c != d.separator && (c == ' ' || c == '\t' || c == '\r' || c as int == 11 || c as int == 12)
  }

  /** The number of blanks at the start of s. */
  function BlankRun(s: string, d: Dialect): (n: nat)
    ensures n <= |s|
    ensures forall i :: 0 <= i < n ==> Blank(s[i], d)
    ensures n < |s| ==> !Blank(s[n], d)
    decreases |s|
  {
    if s != [] && Blank(s[0], d) then
      var n := 1 + BlankRun(s[1..], d);
      assert forall i :: 1 <= i < n ==> s[i] == s[1..][i - 1];
      n
    else 0
  }

  /**
    A field is enclosed when it starts with the enclosure, or with blanks
    followed by the enclosure: fgetcsv skips blanks only when an enclosure
    comes after them.
   */
  predicate OpensEnclosure(s: string, d: Dialect) {
    (s != [] && s[0] == d.enclosure) || (BlankRun(s, d) < |s| && s[BlankRun(s, d)] == d.enclosure)
  }

  /** Where the opening enclosure of an enclosed field stands. */
  function Opening(s: string, d: Dialect): (k: nat)
    requires OpensEnclosure(s, d)
    ensures k < |s| && s[k] == d.enclosure
    ensures forall i :: 0 <= i < k ==> Blank(s[i], d)
  {
    if s[0] == d.enclosure then 0 else BlankRun(s, d)
  }

  /**
    One field: the inside of an enclosed field, its leading blanks dropped,
    or an unenclosed field as it stands, blanks included.
   */
  function ScanField(s: string, d: Dialect): (r: (string, string))
    ensures |r.1| <= |s|
    ensures r.1 == [] || r.1[0] == d.separator || r.1[0] == '\n'
    ensures !OpensEnclosure(s, d) ==> s == r.0 + r.1
  {
    if OpensEnclosure(s, d) then ScanEnclosed(s[Opening(s, d) + 1..], d) else ScanUnenclosed(s, d)
  }

  /** The inside of an enclosed field from s on is never closed. */
  predicate NeverClosed(s: string, d: Dialect)
    decreases |s|
  {
    if s == [] then true
    else if s[0] == d.enclosure then |s| > 1 && s[1] == d.enclosure && NeverClosed(s[2..], d)
    else if s[0] == d.escape && |s| > 1 then NeverClosed(s[2..], d)
    else NeverClosed(s[1..], d)
  }

  /** The last field of the row starting at s opens an enclosure that is never closed. */
  predicate EndsOpen(s: string, d: Dialect)
    decreases |s|
  {
    var (_, rest) := ScanField(s, d);
    if rest == [] then OpensEnclosure(s, d) && NeverClosed(s[Opening(s, d) + 1..], d)
    else rest[0] == d.separator && EndsOpen(rest[1..], d)
  }

  /** The fields of one row and the text after the line feed that ends it. */
  function ScanFields(s: string, d: Dialect): (r: (seq<string>, string))
    ensures |r.0| >= 1
    ensures |r.1| <= |s|
    ensures s != [] ==> |r.1| < |s|
    decreases |s|
  {
    var (field, rest) := ScanField(s, d);
    if rest == [] then ([field], [])
    else if rest[0] == d.separator then
      var (fields, after) := ScanFields(rest[1..], d);
      ([field] + fields, after)
    else ([field], rest[1..])
  }

  /** What fgetcsv returns for the next line of a non-empty text. */
  datatype Line =
    | NullField(rest: string)                   // an empty line: [null]
    | Unterminated                              // false
    | Fields(fields: seq<string>, rest: string)

  /**
    fgetcsv. An enclosure still open at the end of the input is read up to
    the end when the row crossed a line feed, but makes fgetcsv return
    false when the row is the last line and has no line ending.
   */
  function ReadLine(s: string, d: Dialect): (r: Line)
    requires s != []
    ensures r.NullField? <==> s[0] == '\n'
    ensures r.Unterminated? <==> '\n' !in s && EndsOpen(s, d)
    ensures !r.Unterminated? ==> |r.rest| < |s|
    ensures r.Fields? ==> |r.fields| >= 1
  {
    if s[0] == '\n' then NullField(s[1..])
    else if '\n' !in s && EndsOpen(s, d) then Unterminated
    else
      var (fields, rest) := ScanFields(s, d);
      Fields(fields, rest)
  }

  /**
    The next row cannot be read: it is an empty line, or the last line
    and left inside an enclosure.
   */
  predicate Unreadable(s: string, d: Dialect) {
    s != [] && (s[0] == '\n' || ('\n' !in s && EndsOpen(s, d)))
  }

  /**
    readRecordFromTemporaryFile: [] at the end of the input; an empty
    line or a last line left inside an enclosure is a read failure;
    otherwise the fields of the next row and the text after it.
   */
  function ReadRecord(s: string, d: Dialect): (r: Result<(seq<string>, string)>)
    ensures r.Err? <==> Unreadable(s, d)
    ensures r.Err? ==> r.error == MalformedRow
    ensures r.Ok? ==> (r.value.0 == [] <==> s == [])
    ensures r.Ok? && s != [] ==> |r.value.1| < |s|
  {
    if s == [] then Ok(([], s))
    else
      match ReadLine(s, d)
      case NullField(_) => Err(MalformedRow)
      case Unterminated => Err(MalformedRow)
      case Fields(fields, rest) => Ok((fields, rest))
  }

  // ------------------------------------------------------------ round trip

  /** A row the reader gives back unchanged: see ReadEncodedRow. */
  predicate WritableRow(fields: seq<string>, d: Dialect) {
    && |fields| >= 1
    && !(|fields| == 1 && fields[0] == "")
    && forall i :: 0 <= i < |fields| ==> d.escape !in fields[i]
  }

  lemma {:induction false} ScanUnenclosedPlain(field: string, t: string, d: Dialect)
    requires d.separator !in field && '\n' !in field
    requires t == [] || t[0] == d.separator || t[0] == '\n'
    ensures ScanUnenclosed(field + t, d) == (field, t)
  {
    if field != [] {
      assert field[0] in field;
      assert (field + t)[0] == field[0] && (field + t)[1..] == field[1..] + t;
      ScanUnenclosedPlain(field[1..], t, d);
      assert field == [field[0]] + field[1..];
    } else {
      assert field + t == t;
    }
  }

  lemma {:induction false} ScanEnclosedEscaped(field: string, t: string, d: Dialect)
    requires ValidDialect(d) && d.escape !in field
    requires t == [] || t[0] == d.separator || t[0] == '\n'
    ensures ScanEnclosed(Escaped(field, d, false) + [d.enclosure] + t, d) == (field, t)
  {
    var s := Escaped(field, d, false) + [d.enclosure] + t;
    if field == [] {
      assert s == [d.enclosure] + t;
      assert s[1..] == t;
      ScanUnenclosedPlain("", t, d);
    } else if field[0] == d.enclosure {
      assert s == [d.enclosure, d.enclosure] + (Escaped(field[1..], d, false) + [d.enclosure] + t);
      ScanEnclosedEscaped(field[1..], t, d);
      assert field == [d.enclosure] + field[1..];
    } else {
      assert s == [field[0]] + (Escaped(field[1..], d, false) + [d.enclosure] + t);
      ScanEnclosedEscaped(field[1..], t, d);
      assert field == [field[0]] + field[1..];
    }
  }

  lemma {:induction false} BlankRunStops(s: string, k: nat, d: Dialect)
    requires k < |s| && !Blank(s[k], d)
    ensures BlankRun(s, d) <= k
    decreases k
  {
    if s != [] && Blank(s[0], d) {
      assert s[1..][k - 1] == s[k];
      BlankRunStops(s[1..], k - 1, d);
    }
  }

  /** A field written as it stands is not read as an enclosed one. */
  lemma PlainNotEnclosed(field: string, t: string, d: Dialect)
    requires ValidDialect(d) && !NeedsEnclosure(field, d)
    requires t == [] || t[0] == d.separator || t[0] == '\n'
    ensures !OpensEnclosure(field + t, d)
  {
    var s := field + t;
    var n := BlankRun(s, d);
    if t != [] {
      assert s[|field|] == t[0];
      BlankRunStops(s, |field|, d);
    }
    if n < |s| {
      if n < |field| {
        assert s[n] == field[n] && field[n] in field;
      } else {
        assert s[n] == t[0];
      }
    }
    if field != [] {
      assert s[0] == field[0] && field[0] in field;
    } else if s != [] {
      assert s[0] == t[0];
    }
  }

  lemma ScanEncodedField(field: string, t: string, d: Dialect)
    requires ValidDialect(d) && d.escape !in field
    requires t == [] || t[0] == d.separator || t[0] == '\n'
    ensures ScanField(EncodeField(field, d) + t, d) == (field, t)
  {
    if NeedsEnclosure(field, d) {
      var s := EncodeField(field, d) + t;
      assert s == [d.enclosure] + (Escaped(field, d, false) + [d.enclosure] + t);
      ScanEnclosedEscaped(field, t, d);
    } else {
      PlainNotEnclosed(field, t, d);
      ScanUnenclosedPlain(field, t, d);
    }
  }

  lemma ScanFieldsLast(s: string, d: Dialect, field: string, rest: string)
    requires ScanField(s, d) == (field, ['\n'] + rest) && d.separator != '\n'
    ensures ScanFields(s, d) == ([field], rest)
  {
    assert (['\n'] + rest)[1..] == rest;
  }

  lemma ScanFieldsNext(s: string, d: Dialect, field: string, tail: string)
    requires ScanField(s, d) == (field, [d.separator] + tail)
    ensures ScanFields(s, d) == ([field] + ScanFields(tail, d).0, ScanFields(tail, d).1)
  {
    assert ([d.separator] + tail)[1..] == tail;
  }

  lemma {:induction false} ScanEncodedFields(fields: seq<string>, rest: string, d: Dialect)
    requires ValidDialect(d) && |fields| >= 1
    requires forall i :: 0 <= i < |fields| ==> d.escape !in fields[i]
    ensures ScanFields(EncodeFields(fields, d) + ['\n'] + rest, d) == (fields, rest)
  {
    var s := EncodeFields(fields, d) + ['\n'] + rest;
    if |fields| == 1 {
      var t := ['\n'] + rest;
      assert s == EncodeField(fields[0], d) + t;
      ScanEncodedField(fields[0], t, d);
      ScanFieldsLast(s, d, fields[0], rest);
      assert fields == [fields[0]];
    } else {
      ScanEncodedFirst(fields, rest, d);
      ScanEncodedFields(fields[1..], rest, d);
      assert fields == [fields[0]] + fields[1..];
    }
  }

  /** The first of several written fields is read back, and the reader goes on after its separator. */
  lemma ScanEncodedFirst(fields: seq<string>, rest: string, d: Dialect)
    requires ValidDialect(d) && |fields| >= 2 && d.escape !in fields[0]
    ensures ScanFields(EncodeFields(fields, d) + ['\n'] + rest, d)
      == ([fields[0]] + ScanFields(EncodeFields(fields[1..], d) + ['\n'] + rest, d).0,
          ScanFields(EncodeFields(fields[1..], d) + ['\n'] + rest, d).1)
  {
    var s := EncodeFields(fields, d) + ['\n'] + rest;
    var tail := EncodeFields(fields[1..], d) + ['\n'] + rest;
    var t := [d.separator] + tail;
    assert s == EncodeField(fields[0], d) + t;
    ScanEncodedField(fields[0], t, d);
    ScanFieldsNext(s, d, fields[0], tail);
  }

  /** Reading a written row gives back its fields and leaves the rest unread. */
  lemma ReadEncodedRow(fields: seq<string>, rest: string, d: Dialect)
    requires ValidDialect(d) && WritableRow(fields, d)
    ensures ReadRecord(EncodeRow(fields, d, "\n") + rest, d) == Ok((fields, rest))
  {
    var s := EncodeRow(fields, d, "\n") + rest;
    assert s == EncodeFields(fields, d) + ['\n'] + rest;
    assert s[|EncodeFields(fields, d)|] == '\n';
    ScanEncodedFields(fields, rest, d);
    if |fields| == 1 {
      assert EncodeField(fields[0], d) != [] by {
        if !NeedsEnclosure(fields[0], d) {
          assert fields[0] != "";
        }
      }
      assert s[0] == EncodeField(fields[0], d)[0];
    } else {
      assert s[0] == EncodeFields(fields, d)[0];
    }
  }
}
