/**
 * Calendar dates as Python's `datetime.date` sees them: construction that raises on an
 * impossible day, chronological comparison, ISO text form, and the Spanish month names
 * the news sites print.
 */
module Dates {
  import opened Wrappers
  import opened Text

  datatype Date = Date(year: int, month: int, day: int)

  predicate IsLeapYear(y: int)
  {
    y % 4 == 0 && (y % 100 != 0 || y % 400 == 0)
  }

  function DaysInMonth(y: int, m: int): (n: int)
    requires 1 <= m <= 12
    ensures 28 <= n <= 31
    ensures n == 29 <==> m == 2 && IsLeapYear(y)
  {
    if m == 2 then (if IsLeapYear(y) then 29 else 28)
    else if m == 4 || m == 6 || m == 9 || m == 11 then 30
    else 31
  }

  /** The dates `datetime.date` can hold (MINYEAR 1 to MAXYEAR 9999). */
  predicate Valid(d: Date)
  {
    1 <= d.year <= 9999 && 1 <= d.month <= 12 && 1 <= d.day <= DaysInMonth(d.year, d.month)
  }

  /** A date `datetime.date.today()` or `datetime.now()` can give. */
  type Today = d: Date | Valid(d) witness Date(2025, 6, 17)

  /** `datetime.date(year, month, day)`; None where Python raises ValueError. */
  function MakeDate(year: int, month: int, day: int): (r: Option<Date>)
    ensures r.Some? <==> Valid(Date(year, month, day))
    ensures r.Some? ==> r.value == Date(year, month, day)
  {
    if 1 <= year <= 9999 && 1 <= month <= 12 && 1 <= day <= DaysInMonth(year, month)
    then Some(Date(year, month, day))
    else None
  }

  /** The date `datetime.date` builds, or `today` where it raises. */
  function DateOrToday(year: int, month: int, day: int, today: Date): (d: Date)
    ensures d == today || (Valid(d) && d == Date(year, month, day))
    ensures Valid(Date(year, month, day)) ==> d == Date(year, month, day)
  {
    var made := MakeDate(year, month, day);
    if made.Some? then made.value else today
  }

  /** Python's `a < b` on dates: chronological order. */
  predicate Before(a: Date, b: Date)
  {
    a.year < b.year
    || (a.year == b.year && a.month < b.month)
    || (a.year == b.year && a.month == b.month && a.day < b.day)
  }

  /** Day number counting from an arbitrary origin, consistent with `Before`. */
  function DayKey(d: Date): int
  {
    (d.year * 13 + d.month) * 32 + d.day
  }

  /** On valid dates `Before` is the order of the day keys. */
  lemma BeforeIsKeyOrder(a: Date, b: Date)
    requires Valid(a) && Valid(b)
    ensures Before(a, b) <==> DayKey(a) < DayKey(b)
  {
    var ka := a.year * 13 + a.month;
    var kb := b.year * 13 + b.month;
    if a.year < b.year {
      assert a.year * 13 + 13 <= b.year * 13;
    } else if a.year > b.year {
      assert b.year * 13 + 13 <= a.year * 13;
    }
    if ka < kb {
      assert (ka + 1) * 32 <= kb * 32;
    } else if ka > kb {
      assert (kb + 1) * 32 <= ka * 32;
    }
  }

  lemma BeforeIrreflexive(a: Date)
    ensures !Before(a, a)
  {
  }

  lemma BeforeTransitive(a: Date, b: Date, c: Date)
    requires Before(a, b) && Before(b, c)
    ensures Before(a, c)
  {
  }

  /** Any two different dates are ordered one way or the other. */
  lemma BeforeTotal(a: Date, b: Date)
    ensures a == b || Before(a, b) || Before(b, a)
  {
  }

  // ---------------------------------------------------------------------------------------
  // ISO form YYYY-MM-DD
  // ---------------------------------------------------------------------------------------

  /** `n` written with at least `width` digits, padded with zeros on the left. */
  function PadNat(n: nat, width: nat): (s: string)
    ensures |s| >= width && |s| >= 1 && AllDigits(s)
    ensures DigitsValue(s) == n
    decreases width
  {
    var t := NatToStr(n);
    NatToStrValue(n);
    if |t| >= width then t
    else
      var rest := PadNat(n, width - 1);
      ZeroPrefix(rest);
      if |rest| >= width then rest else "0" + rest
  }

  lemma {:induction false} ZeroPrefix(s: string)
    requires AllDigits(s)
    ensures AllDigits("0" + s) && DigitsValue("0" + s) == DigitsValue(s)
    decreases |s|
  {
    var z := "0" + s;
    if |s| > 0 {
      var init := s[..|s| - 1];
      ZeroPrefix(init);
      assert z[..|z| - 1] == "0" + init;
    } else {
      assert z[..0] == "";
    }
  }

  /** `d.isoformat()` for a valid date. */
  function IsoFormat(d: Date): (s: string)
    requires Valid(d)
  {
    PadNat(d.year, 4) + "-" + PadNat(d.month, 2) + "-" + PadNat(d.day, 2)
  }

  /** Padding never makes a number longer than its plain decimal form or the width. */
  lemma {:induction false} LeadingPadding(n: nat, width: nat)
    requires (width == 4 && n < 10000) || (width == 2 && n < 100)
    ensures |PadNat(n, width)| == width
  {
    NatToStrLength(n);
    PadNatLength(n, width);
  }

  /** Length of the plain decimal form of `n`. */
  function DecimalLength(n: nat): (k: nat)
    ensures k >= 1
  {
    if n < 10 then 1 else 1 + DecimalLength(n / 10)
  }

  lemma {:induction false} NatToStrLength(n: nat)
    ensures |NatToStr(n)| == DecimalLength(n)
    ensures n < 10 ==> DecimalLength(n) == 1
    ensures n < 100 ==> DecimalLength(n) <= 2
    ensures n < 1000 ==> DecimalLength(n) <= 3
    ensures n < 10000 ==> DecimalLength(n) <= 4
  {
    if n >= 10 { NatToStrLength(n / 10); }
  }

  lemma {:induction false} PadNatLength(n: nat, width: nat)
    ensures |PadNat(n, width)| == if DecimalLength(n) >= width then DecimalLength(n) else width
    decreases width
  {
    NatToStrLength(n);
    if DecimalLength(n) < width {
      PadNatLength(n, width - 1);
    }
  }

  /** A zero-padded digit run of width 2 or 4 is the padded form of its own value. */
  lemma PadDigits(s: string, width: nat)
    requires AllDigits(s) && |s| == width && (width == 2 || width == 4)
    ensures PadNat(DigitsValue(s), width) == s
  {
    DigitsBelow(s);
    LeadingPadding(DigitsValue(s), width);
    DigitsUnique(PadNat(DigitsValue(s), width), s);
  }

  function Pow10(k: nat): (p: nat)
    ensures p >= 1
  {
    if k == 0 then 1 else 10 * Pow10(k - 1)
  }

  /** A run of `k` digits is worth less than 10 to the `k`. */
  lemma {:induction false} DigitsBelow(s: string)
    requires AllDigits(s)
    ensures DigitsValue(s) < Pow10(|s|)
    ensures |s| == 2 ==> DigitsValue(s) < 100
    ensures |s| == 4 ==> DigitsValue(s) < 10000
    decreases |s|
  {
    if |s| > 0 {
      DigitsBelow(s[..|s| - 1]);
    }
    if |s| == 2 || |s| == 4 {
      assert Pow10(2) == 100 && Pow10(4) == 10000;
    }
  }

  /** Two digit runs of the same length and value are the same text. */
  lemma {:induction false} DigitsUnique(a: string, b: string)
    requires AllDigits(a) && AllDigits(b) && |a| == |b| && DigitsValue(a) == DigitsValue(b)
    ensures a == b
    decreases |a|
  {
    if |a| > 0 {
      var n := |a| - 1;
      var x, y := DigitsValue(a[..n]), DigitsValue(b[..n]);
      var c, d := DigitValue(a[n]), DigitValue(b[n]);
      assert x * 10 + c == y * 10 + d;
      assert c == d && x == y by {
        LastDigit(x, c);
        LastDigit(y, d);
      }
      DigitsUnique(a[..n], b[..n]);
      assert a == a[..n] + [a[n]] && b == b[..n] + [b[n]];
      assert a[n] == b[n] by {
        assert a[n] as int == '0' as int + c;
      }
    }
  }

  lemma LastDigit(x: nat, c: nat)
    requires c < 10
    ensures (x * 10 + c) % 10 == c && (x * 10 + c) / 10 == x
  {
  }

  /** `datetime.date.fromisoformat(s)` on the `YYYY-MM-DD` form; None where Python raises. */
  function FromIsoFormat(s: string): (r: Option<Date>)
    ensures r.Some? ==> Valid(r.value)
  {
    if |s| == 10 && s[4] == '-' && s[7] == '-'
       && AllDigits(s[..4]) && AllDigits(s[5..7]) && AllDigits(s[8..])
    then MakeDate(DigitsValue(s[..4]), DigitsValue(s[5..7]), DigitsValue(s[8..]))
    else None
  }

  /** Reading back the ISO form of a date gives the same date. */
  lemma IsoRoundTrip(d: Date)
    requires Valid(d)
    ensures FromIsoFormat(IsoFormat(d)) == Some(d)
  {
    var y := PadNat(d.year, 4);
    var m := PadNat(d.month, 2);
    var dd := PadNat(d.day, 2);
    LeadingPadding(d.year, 4);
    LeadingPadding(d.month, 2);
    LeadingPadding(d.day, 2);
    var s := IsoFormat(d);
    assert s == y + "-" + m + "-" + dd;
    assert s[..4] == y && s[5..7] == m && s[8..] == dd;
  }

  // ---------------------------------------------------------------------------------------
  // Day-first form DD/MM/YYYY
  // ---------------------------------------------------------------------------------------

  /** The DD/MM/YYYY form of a date the Salta sites print. */
  function SlashFormat(d: Date): string
    requires Valid(d)
  {
    PadNat(d.day, 2) + "/" + PadNat(d.month, 2) + "/" + PadNat(d.year, 4)
  }

  /** Three runs of digits joined by a separator that is not a digit split back into the three. */
  lemma DigitPieces(a: string, b: string, c: string, sep: char)
    requires AllDigits(a) && AllDigits(b) && AllDigits(c) && !IsAsciiDigit(sep)
    ensures Split(a + [sep] + b + [sep] + c, sep) == [a, b, c]
  {
    DigitsHaveNo(a, sep);
    DigitsHaveNo(b, sep);
    DigitsHaveNo(c, sep);
    SplitThree(a, b, c, sep);
  }

  lemma SlashPieces(dd: string, mm: string, yy: string)
    requires AllDigits(dd) && AllDigits(mm) && AllDigits(yy)
    ensures Split(dd + "/" + mm + "/" + yy, '/') == [dd, mm, yy]
  {
    assert dd + "/" + mm + "/" + yy == dd + ['/'] + mm + ['/'] + yy;
    DigitPieces(dd, mm, yy, '/');
  }

  /** Text that starts and ends with a digit is left alone by `strip`. */
  lemma DigitEndsStripped(dd: string, mm: string, yy: string)
    requires |dd| >= 1 && |yy| >= 1 && AllDigits(dd) && AllDigits(yy)
    ensures Strip(dd + "/" + mm + "/" + yy) == dd + "/" + mm + "/" + yy
  {
    var t := dd + "/" + mm + "/" + yy;
    assert t[0] == dd[0] && IsAsciiDigit(dd[0]);
    assert t[|t| - 1] == yy[|yy| - 1] && IsAsciiDigit(yy[|yy| - 1]);
    StripNoSpace(t);
  }

  // ---------------------------------------------------------------------------------------
  // datetime.strptime with a day-first format
  // ---------------------------------------------------------------------------------------

  /** The text `%d` matches: two digits worth 1 to 31, one digit 1 to 9, or a space then 1 to 9. */
  function DayDirective(t: string): (r: Option<int>)
    ensures r.Some? ==> 1 <= r.value <= 31
  {
    if |t| == 1 && '1' <= t[0] <= '9' then Some(DigitValue(t[0]))
    else if |t| == 2 && t[0] == ' ' && '1' <= t[1] <= '9' then Some(DigitValue(t[1]))
    else if |t| == 2 && AllDigits(t) && 1 <= DigitsValue(t) <= 31 then Some(DigitsValue(t))
    else None
  }

  /** The text `%m` matches: two digits worth 1 to 12, or one digit 1 to 9. */
  function MonthDirective(t: string): (r: Option<int>)
    ensures r.Some? ==> 1 <= r.value <= 12
  {
    if |t| == 1 && '1' <= t[0] <= '9' then Some(DigitValue(t[0]))
    else if |t| == 2 && AllDigits(t) && 1 <= DigitsValue(t) <= 12 then Some(DigitsValue(t))
    else None
  }

  /** The text `%Y` matches: exactly four digits. */
  function YearDirective(t: string): (r: Option<int>)
    ensures r.Some? ==> 0 <= r.value <= 9999
  {
    if |t| == 4 && AllDigits(t) then DigitsBelow(t); Some(DigitsValue(t)) else None
  }

  /**
   * `datetime.strptime(s, f"%d{sep}%m{sep}%Y").date()`: the whole text must be a day, the
   * separator, a month, the separator and a year, naming a date that exists; None where
   * Python raises ValueError. None of the three fields can hold the separator.
   */
  function StrptimeDmy(s: string, sep: char): (r: Option<Date>)
    requires sep == '/' || sep == '-'
    ensures r.Some? ==> Valid(r.value)
  {
    var parts := Split(s, sep);
    if |parts| != 3 then None
    else
      var d, m, y := DayDirective(parts[0]), MonthDirective(parts[1]), YearDirective(parts[2]);
      if d.None? || m.None? || y.None? then None else MakeDate(y.value, m.value, d.value)
  }

  /** The zero-padded day-first form of a valid date reads back as that date. */
  lemma StrptimeRoundTrip(d: Date, sep: char)
    requires Valid(d) && (sep == '/' || sep == '-')
    ensures StrptimeDmy(PadNat(d.day, 2) + [sep] + PadNat(d.month, 2) + [sep] + PadNat(d.year, 4), sep) == Some(d)
  {
    var dd, mm, yy := PadNat(d.day, 2), PadNat(d.month, 2), PadNat(d.year, 4);
    LeadingPadding(d.day, 2);
    LeadingPadding(d.month, 2);
    LeadingPadding(d.year, 4);
    DigitPieces(dd, mm, yy, sep);
    assert DayDirective(dd) == Some(d.day);
    assert MonthDirective(mm) == Some(d.month);
    assert YearDirective(yy) == Some(d.year);
  }

  /** Day and month written without padding are read as well. */
  lemma StrptimeShortFields(d: Date, sep: char)
    requires Valid(d) && d.day < 10 && d.month < 10 && 1000 <= d.year && (sep == '/' || sep == '-')
    ensures StrptimeDmy(NatToStr(d.day) + [sep] + NatToStr(d.month) + [sep] + NatToStr(d.year), sep) == Some(d)
  {
    var dd, mm, yy := NatToStr(d.day), NatToStr(d.month), NatToStr(d.year);
    NatToStrLength(d.day);
    NatToStrLength(d.month);
    NatToStrLength(d.year);
    NatToStrValue(d.day);
    NatToStrValue(d.month);
    NatToStrValue(d.year);
    assert DecimalLength(d.year) == 4 by {
      assert DecimalLength(d.year) == 1 + DecimalLength(d.year / 10);
      assert DecimalLength(d.year / 10) == 1 + DecimalLength(d.year / 100);
      assert DecimalLength(d.year / 100) == 1 + DecimalLength(d.year / 1000);
    }
    DigitPieces(dd, mm, yy, sep);
    assert DayDirective(dd) == Some(d.day);
    assert MonthDirective(mm) == Some(d.month);
  }

  /** A text that reads as a date is a day, the separator, a month, the separator and four year digits, each worth its field. */
  lemma StrptimeReads(s: string, sep: char)
    requires (sep == '/' || sep == '-') && StrptimeDmy(s, sep).Some?
    ensures var d := StrptimeDmy(s, sep).value;
      exists dd, mm, yy :: s == dd + [sep] + mm + [sep] + yy
        && DayDirective(dd) == Some(d.day) && MonthDirective(mm) == Some(d.month)
        && |yy| == 4 && AllDigits(yy) && DigitsValue(yy) == d.year
  {
    var parts := Split(s, sep);
    JoinSplit(s, sep);
    assert parts[1..][1..] == [parts[2]];
    assert Join([sep], parts[1..]) == parts[1] + [sep] + parts[2];
    assert Join([sep], parts) == parts[0] + [sep] + (parts[1] + [sep] + parts[2]);
    assert s == parts[0] + [sep] + parts[1] + [sep] + parts[2];
  }

  // ---------------------------------------------------------------------------------------
  // Spanish month names
  // ---------------------------------------------------------------------------------------

  /** The `meses` table the scrapers share: month names in lower case, January first. */
  const MonthNames: seq<string> :=
    ["enero", "febrero", "marzo", "abril", "mayo", "junio",
     "julio", "agosto", "septiembre", "octubre", "noviembre", "diciembre"]

  /** `meses.get(name)`. */
  function MonthNumber(name: string): (r: Option<int>)
    ensures r.Some? ==> 1 <= r.value <= 12 && MonthNames[r.value - 1] == name
    ensures r.None? ==> name !in MonthNames
  {
    MonthFrom(name, 0)
  }

  function MonthFrom(name: string, i: nat): (r: Option<int>)
    requires i <= 12
    ensures r.Some? ==> i < r.value <= 12 && MonthNames[r.value - 1] == name
    ensures r.None? ==> forall k | i <= k < 12 :: MonthNames[k] != name
    decreases 12 - i
  {
    if i == 12 then None
    else if MonthNames[i] == name then Some(i + 1)
    else MonthFrom(name, i + 1)
  }

  /** Every month name is recognised, and gives its own month number. */
  lemma MonthNamesRecognised(k: int)
    requires 1 <= k <= 12
    ensures MonthNumber(MonthNames[k - 1]) == Some(k)
  {
    var r := MonthNumber(MonthNames[k - 1]);
    assert r.Some?;
    MonthNamesDistinct(r.value - 1, k - 1);
  }

  /** Every month name is a non-empty run of lower-case ASCII letters: `\w` characters that `lower()` leaves alone. */
  lemma MonthNameIsLowerWord(k: int)
    requires 0 <= k < 12
    ensures MonthNames[k] != ""
    ensures forall i | 0 <= i < |MonthNames[k]| :: IsWordChar(MonthNames[k][i])
    ensures Lower(MonthNames[k]) == MonthNames[k]
  {
    var w := MonthNames[k];
    assert LowerAscii(w) by {
      assert forall j | 0 <= j < 12 :: LowerAscii(MonthNames[j]);
    }
    assert Lower(w) == w;
  }

  predicate LowerAscii(s: string)
  {
    forall i | 0 <= i < |s| :: 'a' <= s[i] <= 'z'
  }

  lemma MonthNamesDistinct(i: int, j: int)
    requires 0 <= i < 12 && 0 <= j < 12 && MonthNames[i] == MonthNames[j]
    ensures i == j
  {
    assert MonthNames[i][..3] == MonthNames[j][..3];
    if MonthNames[i][..3] == "jun" || MonthNames[i][..3] == "jul" || MonthNames[i][..3] == "mar"
       || MonthNames[i][..3] == "may" {
      assert |MonthNames[i]| == |MonthNames[j]|;
      assert MonthNames[i][2] == MonthNames[j][2];
    }
  }

  // ---------------------------------------------------------------------------------------
  // `datetime.fromisoformat` on a date and time
  // ---------------------------------------------------------------------------------------

  /**
   * The date of `datetime.fromisoformat(s)`: a valid "YYYY-MM-DD", alone or followed by a
   * separator and a time of day; `None` where Python raises ValueError.
   */
  function DateTimeDate(s: string): (r: Option<Date>)
    ensures r.Some? ==> Valid(r.value) && |s| >= 10 && IsoFormat(r.value) == s[..10]
  {
    if |s| < 10 || |s| == 11 then None
    else
      var d := FromIsoFormat(s[..10]);
      if d.Some? then IsoOfRead(s[..10]); d else None
  }

  /** Reading the ISO date text and writing the date back gives the same text. */
  lemma IsoOfRead(s: string)
    requires FromIsoFormat(s).Some?
    ensures IsoFormat(FromIsoFormat(s).value) == s
  {
    var d := FromIsoFormat(s).value;
    var y, m, dd := s[..4], s[5..7], s[8..];
    DigitsPadded(y, 4);
    DigitsPadded(m, 2);
    DigitsPadded(dd, 2);
    assert s == y + "-" + m + "-" + dd;
  }

  /** A run of `width` digits is the zero-padded form of its value. */
  lemma DigitsPadded(s: string, width: nat)
    requires AllDigits(s) && |s| == width && (width == 2 || width == 4)
    ensures PadNat(DigitsValue(s), width) == s
  {
    PadDigits(s, width);
  }

  /** The ISO date, alone or with a time after a separator, reads back as the date. */
  lemma DateTimeRoundTrip(d: Date, sep: char, time: string)
    requires Valid(d) && |time| > 0
    ensures DateTimeDate(IsoFormat(d)) == Some(d)
    ensures DateTimeDate(IsoFormat(d) + [sep] + time) == Some(d)
  {
    var s := IsoFormat(d);
    LeadingPadding(d.year, 4);
    LeadingPadding(d.month, 2);
    LeadingPadding(d.day, 2);
    assert |s| == 10 && s[..10] == s;
    IsoRoundTrip(d);
    var t := s + [sep] + time;
    assert |t| > 11 && t[..10] == s;
  }
}
