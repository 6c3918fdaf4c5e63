/**
 * The `'%Y-%m-%d'` date format of Ruby's `Time#strftime`: a year padded to at
 * least four digits, then month and day padded to two, joined by '-'.
 */
module Strftime {
  import opened Wrappers
  import opened Strings
  import opened Decimal

  /** A date already resolved to the site's time zone. */
  datatype Date = Date(year: nat, month: nat, day: nat)

  /** Month and day in the ranges a Ruby `Time` reports. */
  predicate IsCalendarDate(d: Date) {
    1 <= d.month <= 12 && 1 <= d.day <= 31
  }

  /** A date whose year `%Y` writes with exactly four digits. */
  predicate HasFourDigitYear(d: Date) {
    d.year <= 9999
  }

  /** `d.strftime('%Y-%m-%d')`. */
  function FormatYmd(d: Date): (r: string)
    ensures |r| >= 10
  {
    Pad(d.year, 4) + "-" + Pad(d.month, 2) + "-" + Pad(d.day, 2)
  }

  /** Three digit fields of widths 4, 2 and 2 joined by '-' form a `YYYY-MM-DD` segment. */
  lemma SegmentShape(y: string, m: string, dd: string)
    requires |y| == 4 && |m| == 2 && |dd| == 2
    requires AllDigits(y) && AllDigits(m) && AllDigits(dd)
    ensures var r := y + "-" + m + "-" + dd;
      |r| == 10 && r[4] == '-' && r[7] == '-' &&
      (forall k :: 0 <= k < 10 && k != 4 && k != 7 ==> IsDigit(r[k])) &&
      r[..4] == y && r[5..7] == m && r[8..] == dd
  {
    var r := y + "-" + m + "-" + dd;
    forall k | 0 <= k < 10 && k != 4 && k != 7 ensures IsDigit(r[k]) {
      if k < 4 { assert r[k] == y[k]; }
      else if k < 7 { assert r[k] == m[k - 5]; }
      else { assert r[k] == dd[k - 8]; }
    }
  }

  /**
   * For a calendar date with a four-digit year the segment is exactly ten
   * characters, with '-' at positions 4 and 7 and digits everywhere else.
   */
  lemma FormatYmdShape(d: Date)
    requires IsCalendarDate(d) && HasFourDigitYear(d)
    ensures var r := FormatYmd(d);
      |r| == 10 && r[4] == '-' && r[7] == '-' &&
      forall k :: 0 <= k < 10 && k != 4 && k != 7 ==> IsDigit(r[k])
  {
    PadWidth(d.year, 4);
    PadWidth(d.month, 2);
    PadWidth(d.day, 2);
    SegmentShape(Pad(d.year, 4), Pad(d.month, 2), Pad(d.day, 2));
  }

  /** Reads a ten-character `YYYY-MM-DD` segment back into a date. */
  function ParseYmd(s: string): Option<Date>
  {
    if |s| == 10 && s[4] == '-' && s[7] == '-' &&
       AllDigits(s[..4]) && AllDigits(s[5..7]) && AllDigits(s[8..])
    then Some(Date(ValueOf(s[..4]), ValueOf(s[5..7]), ValueOf(s[8..])))
    else None
  }

  /** A formatted date reads back as the same date, so distinct dates format differently. */
  lemma ParseFormatYmd(d: Date)
    requires IsCalendarDate(d) && HasFourDigitYear(d)
    ensures ParseYmd(FormatYmd(d)) == Some(d)
  {
    var y, m, dd := Pad(d.year, 4), Pad(d.month, 2), Pad(d.day, 2);
    PadWidth(d.year, 4);
    PadWidth(d.month, 2);
    PadWidth(d.day, 2);
    SegmentShape(y, m, dd);
    ValueOfPad(d.year, 4);
    ValueOfPad(d.month, 2);
    ValueOfPad(d.day, 2);
  }

  /** 5 March 2021 formats as "2021-03-05". */
  lemma FormatYmdExample()
    ensures FormatYmd(Date(2021, 3, 5)) == "2021-03-05"
  {
    YearExample();
    MonthDayExample();
    SegmentExample(Pad(2021, 4), Pad(3, 2), Pad(5, 2));
  }

  lemma YearExample()
    ensures Pad(2021, 4) == "2021"
  {
    assert Digits(2) == "2";
    assert Digits(20) == Digits(2) + [DigitChar(0)];
    assert Digits(202) == Digits(20) + [DigitChar(2)];
    assert Digits(2021) == Digits(202) + [DigitChar(1)];
  }

  lemma MonthDayExample()
    ensures Pad(3, 2) == "03" && Pad(5, 2) == "05"
  {
    assert Digits(3) == "3";
    assert Digits(5) == "5";
  }

  lemma SegmentExample(y: string, m: string, d: string)
    requires y == "2021" && m == "03" && d == "05"
    ensures y + "-" + m + "-" + d == "2021-03-05"
  {
  }
}
