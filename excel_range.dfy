/**
 * `compare._get_excel_range`: the A1-style cell range that the conflict
 * highlighting of `save_as_excel` covers. Column names come from a fixed
 * list of 702 names, the 26 single letters followed by the 676 letter pairs,
 * and the row numbers from the decimal rendering of an integer.
 */
module ExcelRange {
  import opened Tables

  /** The number of column names in the list: 26 letters plus 26 * 26 pairs. */
  const LetterCount: nat := 702

  function Letter(i: nat): char
    requires i < 26
  {
    (('A' as int) + i) as char
  }

  predicate IsLetter(ch: char) {
    'A' <= ch <= 'Z'
  }

  function LetterValue(ch: char): nat
    requires IsLetter(ch)
  {
    (ch as int) - ('A' as int)
  }

  /** `letters[i]`, the i-th entry of the name list. */
  function ColumnLetters(i: nat): (s: string)
    requires i < LetterCount
    ensures 1 <= |s| <= 2
    ensures forall j | 0 <= j < |s| :: IsLetter(s[j])
  {
    if i < 26 then [Letter(i)] else [Letter((i - 26) / 26), Letter((i - 26) % 26)]
  }

  /** Excel's own column numbering of a name: bijective base 26, "A" is 1, "Z" 26, "AA" 27. */
  function ExcelColumnNumber(s: string): nat
    requires forall j | 0 <= j < |s| :: IsLetter(s[j])
    decreases |s|
  {
    if s == [] then 0 else ExcelColumnNumber(s[..|s| - 1]) * 26 + LetterValue(s[|s| - 1]) + 1
  }

  lemma DivModPair(i: nat)
    requires 26 <= i < LetterCount
    ensures 0 <= (i - 26) / 26 < 26
    ensures ((i - 26) / 26 + 1) * 26 + (i - 26) % 26 + 1 == i + 1
  {
  }

  /** The i-th name of the list is Excel's name of column i + 1 (so it names the column after the first i). */
  lemma ColumnLettersNumber(i: nat)
    requires i < LetterCount
    ensures ExcelColumnNumber(ColumnLetters(i)) == i + 1
  {
    var s := ColumnLetters(i);
    if i < 26 {
      assert s[..0] == [];
    } else {
      DivModPair(i);
      var hi, lo := (i - 26) / 26, (i - 26) % 26;
      assert LetterValue(Letter(hi)) == hi && LetterValue(Letter(lo)) == lo;
      assert s[..1] == [Letter(hi)];
      assert s[..1][..0] == [];
      assert ExcelColumnNumber(s[..1]) == hi + 1;
    }
  }

  /** Distinct positions of the list carry distinct names. */
  lemma ColumnLettersInjective(i: nat, j: nat)
    requires i < LetterCount && j < LetterCount
    requires ColumnLetters(i) == ColumnLetters(j)
    ensures i == j
  {
    ColumnLettersNumber(i);
    ColumnLettersNumber(j);
  }

  // ---------------------------------------------------------------------
  // Decimal rendering of a row number, as an f-string renders an int.
  // ---------------------------------------------------------------------

  function Digit(d: nat): char
    requires d < 10
  {
    (('0' as int) + d) as char
  }

  predicate IsDigit(ch: char) {
    '0' <= ch <= '9'
  }

  function DigitValue(ch: char): nat
    requires IsDigit(ch)
  {
    (ch as int) - ('0' as int)
  }

  function Decimal(n: nat): (s: string)
    ensures |s| >= 1
    ensures forall j | 0 <= j < |s| :: IsDigit(s[j])
  {
    if n < 10 then [Digit(n)] else Decimal(n / 10) + [Digit(n % 10)]
  }

  function DecimalValue(s: string): nat
    requires forall j | 0 <= j < |s| :: IsDigit(s[j])
    decreases |s|
  {
    if s == [] then 0 else DecimalValue(s[..|s| - 1]) * 10 + DigitValue(s[|s| - 1])
  }

  /** Reading the rendered number back gives the number. */
  lemma {:induction false} DecimalRoundTrip(n: nat)
    ensures DecimalValue(Decimal(n)) == n
    decreases n
  {
    var s := Decimal(n);
    if n < 10 {
      assert s[..0] == [];
    } else {
      DecimalRoundTrip(n / 10);
      assert s[..|s| - 1] == Decimal(n / 10);
    }
  }

  // ---------------------------------------------------------------------
  // Reading an A1 range back.
  // ---------------------------------------------------------------------

  /** A range as numbers: first column, first row, last column, last row (all 1-based, as Excel counts). */
  datatype Span = Span(firstColumn: nat, firstRow: nat, lastColumn: nat, lastRow: nat)

  function LeadingLetters(s: string): (k: nat)
    ensures k <= |s|
    ensures forall j | 0 <= j < k :: IsLetter(s[j])
  {
    if s != [] && IsLetter(s[0]) then 1 + LeadingLetters(s[1..]) else 0
  }

  /** A cell reference such as "AB12": one or more letters, then one or more digits. */
  function ParseCell(s: string): Option<(nat, nat)> {
    var k := LeadingLetters(s);
    if 1 <= k < |s| && forall j | k <= j < |s| :: IsDigit(s[j]) then
      Some((ExcelColumnNumber(s[..k]), DecimalValue(s[k..])))
    else None
  }

  function ColonAt(s: string): (k: nat)
    ensures k <= |s|
    ensures k < |s| ==> s[k] == ':'
    ensures forall j | 0 <= j < k :: s[j] != ':'
  {
    if s == [] then 0 else if s[0] == ':' then 0 else 1 + ColonAt(s[1..])
  }

  /** "<cell>:<cell>" */
  function ParseRange(s: string): Option<Span> {
    var k := ColonAt(s);
    if k == |s| then None
    else match (ParseCell(s[..k]), ParseCell(s[k + 1..]))
      case (Some((c1, r1)), Some((c2, r2))) => Some(Span(c1, r1, c2, r2))
      case _ => None
  }

  lemma {:induction false} LeadingLettersOf(letters: string, digits: string)
    requires forall j | 0 <= j < |letters| :: IsLetter(letters[j])
    requires |digits| >= 1 && IsDigit(digits[0])
    ensures LeadingLetters(letters + digits) == |letters|
    decreases |letters|
  {
    if letters == [] {
      assert letters + digits == digits;
    } else {
      LeadingLettersOf(letters[1..], digits);
      assert (letters + digits)[1..] == letters[1..] + digits;
    }
  }

  /** A reference written as letters then a rendered number reads back as that column and row. */
  lemma CellRoundTrip(letters: string, row: nat)
    requires |letters| >= 1
    requires forall j | 0 <= j < |letters| :: IsLetter(letters[j])
    ensures ParseCell(letters + Decimal(row)) == Some((ExcelColumnNumber(letters), row))
  {
    var s := letters + Decimal(row);
    LeadingLettersOf(letters, Decimal(row));
    assert s[..|letters|] == letters;
    assert s[|letters|..] == Decimal(row);
    DecimalRoundTrip(row);
  }

  /** The string `<col1><row1>:<col2><row2>`. */
  function RangeText(col1: string, row1: nat, col2: string, row2: nat): string {
    col1 + Decimal(row1) + ":" + col2 + Decimal(row2)
  }

  lemma RangeRoundTrip(col1: string, row1: nat, col2: string, row2: nat)
    requires |col1| >= 1 && forall j | 0 <= j < |col1| :: IsLetter(col1[j])
    requires |col2| >= 1 && forall j | 0 <= j < |col2| :: IsLetter(col2[j])
    ensures ParseRange(RangeText(col1, row1, col2, row2))
      == Some(Span(ExcelColumnNumber(col1), row1, ExcelColumnNumber(col2), row2))
  {
    var first := col1 + Decimal(row1);
    var second := col2 + Decimal(row2);
    var s := RangeText(col1, row1, col2, row2);
    assert s == first + ":" + second;
    assert forall j | 0 <= j < |first| :: first[j] != ':' by {
      forall j | 0 <= j < |first| ensures first[j] != ':' {
        if j < |col1| { assert first[j] == col1[j]; } else { assert first[j] == Decimal(row1)[j - |col1|]; }
      }
    }
    assert ColonAt(s) == |first| by {
      ColonAtPrefix(first, second);
    }
    assert s[..|first|] == first;
    assert s[|first| + 1..] == second;
    CellRoundTrip(col1, row1);
    CellRoundTrip(col2, row2);
  }

  lemma {:induction false} ColonAtPrefix(first: string, second: string)
    requires forall j | 0 <= j < |first| :: first[j] != ':'
    ensures ColonAt(first + ":" + second) == |first|
    decreases |first|
  {
    if first == [] {
      assert first + ":" + second == [':'] + second;
    } else {
      ColonAtPrefix(first[1..], second);
      assert (first + ":" + second)[1..] == first[1..] + ":" + second;
    }
  }

  // ---------------------------------------------------------------------
  // The range itself.
  // ---------------------------------------------------------------------

  /** The table as `to_excel(index = False)` writes it: a header row, then `length` rows in columns 1 to `width`. */
  function DataSpan(length: nat, width: nat, columns: bool): Span {
    Span(1, if columns then 2 else 1, width, length + 1)
  }

  /**
   * `_get_excel_range(length, width, columns)` as written: the end column is
   * `letters[width]`; an index past the list raises IndexError.
   */
  function GetExcelRange(length: nat, width: nat, columns: bool): (r: Result<string, Error>)
    ensures r.Failure? <==> width >= LetterCount
    ensures r.Failure? ==> r.error == ColumnOutOfRange
  {
    if width < LetterCount then Success(RangeText("A", if columns then 2 else 1, ColumnLetters(width), length + 1))
    else Failure(ColumnOutOfRange)
  }

  /** The range as written ends one column to the right of the table. */
  lemma GetExcelRangeSpan(length: nat, width: nat, columns: bool)
    requires width < LetterCount
    ensures GetExcelRange(length, width, columns).Success?
    ensures ParseRange(GetExcelRange(length, width, columns).value)
      == Some(Span(1, if columns then 2 else 1, width + 1, length + 1))
    ensures ParseRange(GetExcelRange(length, width, columns).value) != Some(DataSpan(length, width, columns))
  {
    ColumnLettersNumber(width);
    assert ExcelColumnNumber("A") == 1 by { assert "A"[..0] == []; }
    RangeRoundTrip("A", if columns then 2 else 1, ColumnLetters(width), length + 1);
  }

  /** A concrete instance: a 2-row, 3-column table's range reaches column D. */
  lemma GetExcelRangeExample()
    ensures GetExcelRange(2, 3, true) == Success("A2:D3")
  {
    assert Letter(3) == 'D';
    assert ColumnLetters(3) == "D";
    assert Digit(2) == '2' && Digit(3) == '3';
    assert Decimal(2) == "2" && Decimal(3) == "3";
    assert RangeText("A", 2, "D", 3) == "A2:D3";
  }

  /** The range over exactly the written data: the end column is `letters[width - 1]`. */
  function GetExcelRangeIntended(length: nat, width: nat, columns: bool): (r: Result<string, Error>)
    ensures r.Failure? <==> width == 0 || width > LetterCount
    ensures r.Failure? ==> r.error == ColumnOutOfRange
  {
    if 1 <= width <= LetterCount then Success(RangeText("A", if columns then 2 else 1, ColumnLetters(width - 1), length + 1))
    else Failure(ColumnOutOfRange)
  }

  /** The corrected range spans exactly the table's data cells (or, with `columns` false, the header too). */
  lemma GetExcelRangeIntendedSpan(length: nat, width: nat, columns: bool)
    requires 1 <= width <= LetterCount
    ensures GetExcelRangeIntended(length, width, columns).Success?
    ensures ParseRange(GetExcelRangeIntended(length, width, columns).value) == Some(DataSpan(length, width, columns))
  {
    ColumnLettersNumber(width - 1);
    assert ExcelColumnNumber("A") == 1 by { assert "A"[..0] == []; }
    RangeRoundTrip("A", if columns then 2 else 1, ColumnLetters(width - 1), length + 1);
  }
}
