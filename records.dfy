/**
  Records as the service sees them: PHP arrays from column name to cell
  value, kept in insertion order, with each key present once. Also the
  codec's two failure kinds, which replace the service's exceptions.
 */
module Records {

  /** The two ways an encode or decode call fails. */
  datatype CsvError =
    | ColumnCountMismatch  // "The records must have the same number of columns for each record."
    | MalformedRow         // "Failed to read row from temporary file."

  datatype Result<T> = Ok(value: T) | Err(error: CsvError)

  predicate Distinct(names: seq<string>) {
    forall i, j :: 0 <= i < j < |names| ==> names[i] != names[j]
  }

  /**
    An ordered mapping from column name to value. A PHP array holds each
    key once: see UniqueKeys.
   */
  type Record = seq<(string, string)>

  predicate UniqueKeys(r: Record) {
    Distinct(Keys(r))
  }

  /** array_keys: the column names of a record, in order. */
  function Keys(r: Record): seq<string> {
    seq(|r|, i requires 0 <= i < |r| => r[i].0)
  }

  /** The values of a record, in the record's own order. */
  function Values(r: Record): seq<string> {
    seq(|r|, i requires 0 <= i < |r| => r[i].1)
  }

  /** The record that pairs header[i] with fields[i], for every i. */
  function Zip(header: seq<string>, fields: seq<string>): Record
    requires |header| == |fields|
  {
    seq(|header|, i requires 0 <= i < |header| => (header[i], fields[i]))
  }

  /** The position of a key in a sequence of names that contains it. */
  function IndexOf(names: seq<string>, k: string): (i: nat)
    requires k in names
    ensures i < |names| && names[i] == k
    ensures forall j :: 0 <= j < i ==> names[j] != k
  {
    if names[0] == k then 0 else 1 + IndexOf(names[1..], k)
  }

  /**
    `$r[$k] = $v` on a PHP array: a key already present keeps its place
    and takes the new value; a new key goes at the end.
   */
  function Put(r: Record, k: string, v: string): (r': Record)
    requires UniqueKeys(r)
    ensures UniqueKeys(r')
    ensures Keys(r') == if k in Keys(r) then Keys(r) else Keys(r) + [k]
    ensures forall i :: 0 <= i < |r'| && r'[i].0 == k ==> r'[i].1 == v
    ensures forall i :: 0 <= i < |r| && r[i].0 != k ==> r'[i] == r[i]
  {
    if k in Keys(r) then
      var i := IndexOf(Keys(r), k);
      var r' := r[i := (k, v)];
      assert Keys(r') == Keys(r);
      assert forall j :: 0 <= j < |r'| && r'[j].0 == k ==> Keys(r')[j] == Keys(r')[i];
      r'
    else
      var r' := r + [(k, v)];
      assert Keys(r') == Keys(r) + [k];
      assert forall j :: 0 <= j < |r| ==> r'[j] == r[j] && r[j].0 == Keys(r)[j] != k;
      r'
  }

  /**
    array_combine(header, fields): write fields[i] under header[i] for
    i = 0, 1, ... in turn, so a repeated name keeps its last value.
   */
  function Combine(header: seq<string>, fields: seq<string>): (r: Record)
    requires |header| == |fields|
    ensures UniqueKeys(r)
    decreases |header|
  {
    if header == [] then []
    else
      var n := |header| - 1;
      Put(Combine(header[..n], fields[..n]), header[n], fields[n])
  }

  /** Writing a key the record does not hold appends the pair. */
  lemma PutNew(r: Record, k: string, v: string)
    requires UniqueKeys(r) && k !in Keys(r)
    ensures Put(r, k, v) == r + [(k, v)]
  {
  }

  lemma ZipKeys(header: seq<string>, fields: seq<string>)
    requires |header| == |fields|
    ensures Keys(Zip(header, fields)) == header
  {
  }

  lemma ZipSnoc(header: seq<string>, fields: seq<string>)
    requires |header| == |fields| && header != []
    ensures Zip(header, fields)
      == Zip(header[..|header| - 1], fields[..|header| - 1]) + [(header[|header| - 1], fields[|header| - 1])]
  {
  }

  /** With distinct names, combining is plain positional pairing. */
  lemma {:induction false} CombineDistinct(header: seq<string>, fields: seq<string>)
    requires |header| == |fields| && Distinct(header)
    ensures Combine(header, fields) == Zip(header, fields)
  {
    if header != [] {
      var n := |header| - 1;
      var h, f := header[..n], fields[..n];
      CombineDistinct(h, f);
      ZipKeys(h, f);
      assert header[n] !in h;
      PutNew(Combine(h, f), header[n], fields[n]);
      ZipSnoc(header, fields);
    }
  }

  /** Position i holds the last occurrence of its name in the header. */
  predicate IsLastOccurrence(header: seq<string>, i: int) {
    0 <= i < |header| && forall i' :: i < i' < |header| ==> header[i'] != header[i]
  }

  /** Every name of the header is a key of what array_combine makes. */
  lemma {:induction false} CombineHasEveryName(header: seq<string>, fields: seq<string>)
    requires |header| == |fields|
    ensures forall i :: 0 <= i < |header| ==> header[i] in Keys(Combine(header, fields))
  {
    if header != [] {
      var n := |header| - 1;
      var h, f := header[..n], fields[..n];
      CombineHasEveryName(h, f);
      forall i | 0 <= i < |header|
        ensures header[i] in Keys(Combine(header, fields))
      {
        if i < n {
          assert h[i] == header[i];
        }
      }
    }
  }

  /** An entry the last write of array_combine did not touch was there before. */
  lemma KeptEntry(header: seq<string>, fields: seq<string>, j: nat)
    requires |header| == |fields| && header != []
    requires j < |Combine(header, fields)|
    requires Combine(header, fields)[j].0 != header[|header| - 1]
    ensures j < |Combine(header[..|header| - 1], fields[..|header| - 1])|
    ensures Combine(header, fields)[j] == Combine(header[..|header| - 1], fields[..|header| - 1])[j]
  {
    var n := |header| - 1;
    var prev, r := Combine(header[..n], fields[..n]), Combine(header, fields);
    assert r == Put(prev, header[n], fields[n]);
    assert r[j].0 == Keys(r)[j];
    assert j < |prev| by {
      if header[n] !in Keys(prev) {
        assert Keys(r) == Keys(prev) + [header[n]];
      }
    }
    assert Keys(r)[j] == Keys(prev)[j];
    assert prev[j].0 == Keys(prev)[j];
  }

  /** The entry pairs a name with the field at that name's last position. */
  ghost predicate FromLastOccurrence(header: seq<string>, fields: seq<string>, entry: (string, string))
    requires |header| == |fields|
  {
    exists i :: IsLastOccurrence(header, i) && entry == (header[i], fields[i])
  }

  /** The entry under the last name written holds the last field. */
  lemma LastWrite(header: seq<string>, fields: seq<string>, j: nat)
    requires |header| == |fields| && header != []
    requires j < |Combine(header, fields)|
    requires Combine(header, fields)[j].0 == header[|header| - 1]
    ensures FromLastOccurrence(header, fields, Combine(header, fields)[j])
  {
    var n := |header| - 1;
    assert Combine(header, fields) == Put(Combine(header[..n], fields[..n]), header[n], fields[n]);
    assert IsLastOccurrence(header, n);
  }

  /** An entry from the first n names stays one once a different name is written. */
  lemma LastOccurrenceExtends(header: seq<string>, fields: seq<string>, entry: (string, string))
    requires |header| == |fields| && header != []
    requires FromLastOccurrence(header[..|header| - 1], fields[..|header| - 1], entry)
    requires entry.0 != header[|header| - 1]
    ensures FromLastOccurrence(header, fields, entry)
  {
    var n := |header| - 1;
    var h, f := header[..n], fields[..n];
    var i :| IsLastOccurrence(h, i) && entry == (h[i], f[i]);
    assert h[i] == header[i] && f[i] == fields[i];
    assert IsLastOccurrence(header, i);
  }

  /**
    What array_combine keeps when names repeat: each entry of the result
    pairs a name with the field at that name's last position in the header.
   */
  lemma {:induction false} CombineKeepsLast(header: seq<string>, fields: seq<string>)
    requires |header| == |fields|
    ensures forall j :: 0 <= j < |Combine(header, fields)| ==>
      FromLastOccurrence(header, fields, Combine(header, fields)[j])
  {
    if header != [] {
      var n := |header| - 1;
      var h, f := header[..n], fields[..n];
      var r := Combine(header, fields);
      CombineKeepsLast(h, f);
      forall j | 0 <= j < |r|
        ensures FromLastOccurrence(header, fields, r[j])
      {
        if r[j].0 == header[n] {
          LastWrite(header, fields, j);
        } else {
          KeptEntry(header, fields, j);
          LastOccurrenceExtends(header, fields, r[j]);
        }
      }
    } else {
      assert Combine(header, fields) == [];
    }
  }
}
