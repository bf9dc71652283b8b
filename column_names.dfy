/**
  Spreadsheet-style column names (A, B, ..., Z, AA, AB, ...) used as the
  default header when a CSV text is decoded without a header row.

  The reference definition is the bijective base-26 numeral `Numeral(n)`
  of a positive number n; the method `ColumnName` is the service's
  do-while loop, whose `0 === $index` branch is the last step of that
  numeral written out, and is proved to compute `Numeral(index + 1)`.
 */
module ColumnNames {

  /** A capital letter 'A'..'Z'. */
  predicate IsLetter(c: char) {
    'A' <= c <= 'Z'
  }

  predicate AllLetters(s: string) {
    forall i :: 0 <= i < |s| ==> IsLetter(s[i])
  }

  /** chr(65 + k): the k-th capital letter. */
  function Letter(k: nat): (c: char)
    requires k < 26
    ensures IsLetter(c)
  {
    (65 + k) as char
  }

  /** The bijective digit of a letter: 'A' is 1, 'Z' is 26. */
  function Digit(c: char): (k: nat)
    requires IsLetter(c)
    ensures 1 <= k <= 26
  {
    c as int - 64
  }

  /** The bijective base-26 numeral of n: "" for 0, "A".."Z" for 1..26, "AA" for 27. */
  function Numeral(n: nat): (s: string)
    ensures AllLetters(s)
    ensures |s| == 0 <==> n == 0
    decreases n
  {
    if n == 0 then "" else Numeral((n - 1) / 26) + [Letter((n - 1) % 26)]
  }

  /** The number a string of letters denotes in bijective base 26. */
  function Value(s: string): nat
    requires AllLetters(s)
  {
    if s == [] then 0 else Value(s[..|s| - 1]) * 26 + Digit(s[|s| - 1])
  }

  lemma DivMod26(q: nat, k: nat)
    requires k < 26
    ensures (q * 26 + k) / 26 == q && (q * 26 + k) % 26 == k
  {
  }

  /** Reading a numeral back gives the number it was made from. */
  lemma {:induction false} ValueOfNumeral(n: nat)
    ensures Value(Numeral(n)) == n
  {
    if n > 0 {
      var s := Numeral(n);
      assert s[..|s| - 1] == Numeral((n - 1) / 26);
      ValueOfNumeral((n - 1) / 26);
    }
  }

  /** Every string of letters is a numeral: Numeral is onto the letter strings. */
  lemma {:induction false} NumeralOfValue(s: string)
    requires AllLetters(s)
    ensures Numeral(Value(s)) == s
  {
    if s != [] {
      var p, c := s[..|s| - 1], s[|s| - 1];
      NumeralOfValue(p);
      DivMod26(Value(p), Digit(c) - 1);
      assert Letter(Digit(c) - 1) == c;
      assert s == p + [c];
    }
  }

  /** Distinct numbers have distinct numerals. */
  lemma NumeralInjective(a: nat, b: nat)
    ensures Numeral(a) == Numeral(b) ==> a == b
  {
    ValueOfNumeral(a);
    ValueOfNumeral(b);
  }

  /** One turn of getColumnName's loop: the last letter and what precedes it. */
  lemma NumeralStep(i: nat)
    ensures Numeral(i + 1) == Numeral(i / 26) + [Letter(i % 26)]
  {
  }

  /** getColumnName: the name of the 0-based column `index`. */
  method ColumnName(index: nat) returns (name: string)
    ensures name == Numeral(index + 1)
  {
    name := "";
    var i: int := index;
    while true
      invariant 0 <= i
      invariant Numeral(index + 1) == Numeral(i + 1) + name
      decreases i
    {
      NumeralStep(i);
      assert Numeral(index + 1) == Numeral(i / 26) + ([Letter(i % 26)] + name);
      name := [Letter(i % 26)] + name;
      i := i / 26 - 1;
      if i == 0 {
        name := ['A'] + name;
      }
      if i <= 0 {
        break;
      }
    }
  }

  /** The default header of n columns: the names of columns 0..n-1, in order. */
  function DefaultHeaderOf(n: nat): seq<string> {
    seq(n, i requires 0 <= i => Numeral(i + 1))
  }

  /** No name repeats in a default header. */
  lemma DefaultHeaderDistinct(n: nat)
    ensures forall i, j :: 0 <= i < j < n ==> DefaultHeaderOf(n)[i] != DefaultHeaderOf(n)[j]
  {
    forall i, j | 0 <= i < j < n
      ensures DefaultHeaderOf(n)[i] != DefaultHeaderOf(n)[j]
    {
      NumeralInjective(i + 1, j + 1);
    }
  }

  /** getDefaultHeader: the names of the first n columns. */
  method DefaultHeader(n: nat) returns (header: seq<string>)
    ensures header == DefaultHeaderOf(n)
    ensures forall i, j :: 0 <= i < j < n ==> header[i] != header[j]
  {
    header := [];
    for i := 0 to n
      invariant header == DefaultHeaderOf(i)
    {
      var name := ColumnName(i);
      header := header + [name];
    }
    DefaultHeaderDistinct(n);
  }

  /** The names the service's tests expect, by 0-based column index. */
  lemma ColumnNameExamples()
    ensures Numeral(0 + 1) == "A" && Numeral(25 + 1) == "Z"
    ensures Numeral(26 + 1) == "AA" && Numeral(31 + 1) == "AF" && Numeral(52 + 1) == "BA"
  {
    assert Numeral(1) == "A";
    assert Numeral(2) == "B";
    assert Numeral(27) == Numeral(1) + "A";
    assert Numeral(32) == Numeral(1) + "F";
    assert Numeral(53) == Numeral(2) + "A";
  }
}
