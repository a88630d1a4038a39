/** The month/year picker of the project form: picking month `m` (0 for
    January) of the displayed year yields `` `${year}-${MM}` `` with a
    zero-padded two-digit month; the arrows move the displayed year by one;
    the button shows the value with its first `-` replaced by `. `. */
module MonthPicker {
  import opened Types
  import opened Text
  import ProjectDetail

  /** `(monthIndex + 1).toString().padStart(2, '0')` */
  function MonthField(monthIndex: int): (r: string)
    requires 0 <= monthIndex < 12
    ensures r == Digits(monthIndex + 1, 2)
  {
    var v := monthIndex + 1;
    var r := PadStart(DecimalNat(v), 2, '0');
    if v < 10 then
      assert r == ['0', DigitChar(v)];
      r
    else
      DecimalNatIsDigits(v, 2);
      r
  }

  /** `handleMonthSelect(monthIndex)` with the picker showing `year`. */
  function MonthValue(year: int, monthIndex: int): (r: string)
    requires 0 <= monthIndex < 12
    ensures r == Decimal(year) + "-" + Digits(monthIndex + 1, 2)
  {
    Decimal(year) + "-" + MonthField(monthIndex)
  }

  /** A four-digit year prints as exactly its four digits. */
  lemma FourDigitYear(year: int)
    requires 1000 <= year <= 9999
    ensures Decimal(year) == Digits(year, 4)
  {
    assert Pow10(3) == 1000 && Pow10(4) == 10000;
    DecimalNatIsDigits(year, 4);
  }

  lemma TwoDigitMonth(v: nat)
    requires 1 <= v <= 12
    ensures Digits(v, 2) == [DigitChar(v / 10), DigitChar(v % 10)]
    ensures 10 * (Digits(v, 2)[0] as int - '0' as int) + (Digits(v, 2)[1] as int - '0' as int) == v
  {
    assert Digits(v / 10, 1) == [DigitChar(v / 10 % 10)];
  }

  /** For a four-digit year the value is a well-formed `YYYY-MM` date whose
      month digits spell `monthIndex + 1`, that is `01` to `12`. */
  lemma MonthValueIsYearMonth(year: int, monthIndex: int)
    requires 1000 <= year <= 9999 && 0 <= monthIndex < 12
    ensures IsYearMonth(MonthValue(year, monthIndex))
    ensures MonthValue(year, monthIndex)[..4] == Digits(year, 4)
    ensures MonthValue(year, monthIndex)[5..] == Digits(monthIndex + 1, 2)
    ensures 10 * (MonthValue(year, monthIndex)[5] as int - '0' as int) + (MonthValue(year, monthIndex)[6] as int - '0' as int)
         == monthIndex + 1
  {
    var s := MonthValue(year, monthIndex);
    var y, mm := Digits(year, 4), Digits(monthIndex + 1, 2);
    FourDigitYear(year);
    assert s == y + "-" + mm;
    DigitsAreDigits(year, 4);
    DigitsAreDigits(monthIndex + 1, 2);
    TwoDigitMonth(monthIndex + 1);
    assert s[..4] == y && s[5..] == mm;
    assert s[5] == mm[0] && s[6] == mm[1];
  }

  /** A picked value with a four-digit year is two fixed-width digit fields around `-`. */
  lemma MonthValueFields(year: int, monthIndex: int)
    requires 1000 <= year <= 9999 && 0 <= monthIndex < 12
    ensures MonthValue(year, monthIndex) == Digits(year, 4) + ['-'] + Digits(monthIndex + 1, 2)
  {
    FourDigitYear(year);
  }

  /** Two `YYYY-MM` digit strings compare as their (year, month) pairs. */
  lemma YearMonthDigitsLess(y1: nat, v1: nat, y2: nat, v2: nat)
    requires y1 < 10000 && v1 < 100 && y2 < 10000 && v2 < 100
    ensures LexLess(Digits(y1, 4) + ['-'] + Digits(v1, 2), Digits(y2, 4) + ['-'] + Digits(v2, 2))
        <==> y1 < y2 || (y1 == y2 && v1 < v2)
  {
    assert Pow10(4) == 10000 && Pow10(2) == 100;
    DigitsOrder(y1, y2, 4);
    DigitsOrder(v1, v2, 2);
    LexTwoFields(Digits(y1, 4), Digits(v1, 2), Digits(y2, 4), Digits(v2, 2), '-');
  }

  /** Two `YYYY-MM` digit strings are equal exactly when their pairs are. */
  lemma YearMonthDigitsEqual(y1: nat, v1: nat, y2: nat, v2: nat)
    requires y1 < 10000 && v1 < 100 && y2 < 10000 && v2 < 100
    ensures Digits(y1, 4) + ['-'] + Digits(v1, 2) == Digits(y2, 4) + ['-'] + Digits(v2, 2)
        <==> y1 == y2 && v1 == v2
  {
    assert Pow10(4) == 10000 && Pow10(2) == 100;
    DigitsOrder(y1, y2, 4);
    DigitsOrder(v1, v2, 2);
    LexTwoFields(Digits(y1, 4), Digits(v1, 2), Digits(y2, 4), Digits(v2, 2), '-');
  }

  /** Because every part has a fixed width, comparing two picked values as
      strings orders them by year and then by month: the lexicographic date
      sort is chronological. */
  lemma MonthValueOrder(y1: int, m1: int, y2: int, m2: int)
    requires 1000 <= y1 <= 9999 && 0 <= m1 < 12
    requires 1000 <= y2 <= 9999 && 0 <= m2 < 12
    ensures LexLess(MonthValue(y1, m1), MonthValue(y2, m2)) <==> y1 < y2 || (y1 == y2 && m1 < m2)
    ensures MonthValue(y1, m1) == MonthValue(y2, m2) <==> y1 == y2 && m1 == m2
  {
    var v1, v2 := MonthValue(y1, m1), MonthValue(y2, m2);
    var d1 := Digits(y1, 4) + ['-'] + Digits(m1 + 1, 2);
    var d2 := Digits(y2, 4) + ['-'] + Digits(m2 + 1, 2);
    MonthValueFields(y1, m1);
    MonthValueFields(y2, m2);
    assert v1 == d1 && v2 == d2;
    YearMonthDigitsLess(y1, m1 + 1, y2, m2 + 1);
    YearMonthDigitsEqual(y1, m1 + 1, y2, m2 + 1);
    assert LexLess(v1, v2) == LexLess(d1, d2);
  }

  /** The previous-year arrow moves the value a month would get to an earlier
      date, the next-year arrow to a later one. */
  lemma YearArrowsMoveChronologically(year: int, monthIndex: int)
    requires 1001 <= year <= 9998 && 0 <= monthIndex < 12
    ensures LexLess(MonthValue(year - 1, monthIndex), MonthValue(year, monthIndex))
    ensures LexLess(MonthValue(year, monthIndex), MonthValue(year + 1, monthIndex))
  {
    MonthValueOrder(year - 1, monthIndex, year, monthIndex);
    MonthValueOrder(year, monthIndex, year + 1, monthIndex);
  }

  /** The month button that is highlighted (its value equals the current one)
      is unique for a given year. */
  lemma HighlightIsUnique(year: int, m1: int, m2: int)
    requires 0 <= m1 < 12 && 0 <= m2 < 12
    requires MonthValue(year, m1) == MonthValue(year, m2)
    ensures m1 == m2
  {
    var p := Decimal(year) + "-";
    assert Digits(m1 + 1, 2) == MonthValue(year, m1)[|p|..];
    assert Digits(m2 + 1, 2) == MonthValue(year, m2)[|p|..];
    assert Pow10(2) == 100;
    DigitsOrder(m1 + 1, m2 + 1, 2);
  }

  /** The picker button's label: `value ? value.replace('-', '. ') : "Select Date"`. */
  function PickerLabel(value: string): (r: string)
    ensures value == "" ==> r == "Select Date"
  {
    if value == "" then "Select Date" else ReplaceFirst(value, '-', ". ")
  }

  /** The picker's label and the detail page's `formatDate` agree on every
      `Y-M` value whose parts hold no further `-`. */
  lemma PickerLabelMatchesDetailDate(y: string, m: string)
    requires '-' !in y && '-' !in m
    ensures PickerLabel(y + "-" + m) == ProjectDetail.FormatDate(y + "-" + m)
  {
    ProjectDetail.FormatDateOfFields(y, m);
    SplitAtFirst(y, '-', m);
    assert (y + "-" + m)[|y|] == '-';
  }

  /** A `YYYY-MM` string is its two digit fields around its only `-`. */
  lemma YearMonthFields(s: string)
    requires IsYearMonth(s)
    ensures '-' !in s[..4] && '-' !in s[5..]
    ensures s == s[..4] + "-" + s[5..]
  {
    assert forall i :: 0 <= i < 4 ==> s[..4][i] == s[i];
    assert forall i :: 0 <= i < 2 ==> s[5..][i] == s[5 + i];
  }

  /** A picked value is labelled `YYYY. MM`. */
  lemma PickedValueLabel(year: int, monthIndex: int)
    requires 1000 <= year <= 9999 && 0 <= monthIndex < 12
    ensures PickerLabel(MonthValue(year, monthIndex)) == Digits(year, 4) + ". " + Digits(monthIndex + 1, 2)
  {
    var s := MonthValue(year, monthIndex);
    MonthValueIsYearMonth(year, monthIndex);
    YearMonthFields(s);
    var y, m := s[..4], s[5..];
    assert y == Digits(year, 4) && m == Digits(monthIndex + 1, 2);
    PickerLabelMatchesDetailDate(y, m);
    ProjectDetail.FormatDateOfFields(y, m);
    calc {
      PickerLabel(s);
      PickerLabel(y + "-" + m);
      ProjectDetail.FormatDate(y + "-" + m);
      y + ". " + m;
    }
  }
}
