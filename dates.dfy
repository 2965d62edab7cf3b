/**
 * Birthdates. The source parses and formats them with Go's `time` package
 * under the layout `TimeFormat = "02-01-2006"` (two-digit day, two-digit month,
 * four-digit year, separated by '-') and stores them as a `primitive.DateTime`.
 * Here a date is a calendar day; `Parse` and `Format` are the two directions
 * of that layout, and the store keeps the `Date` itself.
 */
module Dates {
  import opened Wrappers

  /** Go's reference layout for DD-MM-YYYY. */
  const TimeFormat := "02-01-2006"

  datatype Date = Date(year: int, month: int, day: int)

  /** `time.Time{}`, what `time.Parse` returns together with an error. */
  const ZeroTime := Date(1, 1, 1)

  /** `primitive.DateTime(0)`, the zero value of a stored birthdate: the Unix epoch. */
  const UnixEpoch := Date(1970, 1, 1)

  predicate IsLeap(year: int) {
    year % 4 == 0 && (year % 100 != 0 || year % 400 == 0)
  }

  function DaysIn(month: int, year: int): (n: int)
    requires 1 <= month <= 12
    ensures 28 <= n <= 31
  {
    if month == 2 then (if IsLeap(year) then 29 else 28)
    else if month == 4 || month == 6 || month == 9 || month == 11 then 30
    else 31
  }

  /** A date the layout can write: a real calendar day in years 0000 to 9999. */
  predicate IsValid(d: Date) {
    0 <= d.year < 10000 && 1 <= d.month <= 12 && 1 <= d.day <= DaysIn(d.month, d.year)
  }

  predicate IsDigit(c: char) { '0' <= c <= '9' }

  predicate AllDigits(s: string) {
    forall i :: 0 <= i < |s| ==> IsDigit(s[i])
  }

  function Pow10(n: nat): (p: nat)
    ensures p > 0
  {
    if n == 0 then 1 else 10 * Pow10(n - 1)
  }

  /** The value of a string of decimal digits. */
  function Number(s: string): (n: nat)
    requires AllDigits(s)
    ensures n < Pow10(|s|)
  {
    if s == [] then 0
    else 10 * Number(s[..|s| - 1]) + (s[|s| - 1] as int - '0' as int)
  }

  /** `n` in exactly `width` decimal digits, with leading zeros. */
  function Padded(n: nat, width: nat): (s: string)
    requires n < Pow10(width)
    ensures |s| == width && AllDigits(s)
  {
    if width == 0 then ""
    else Padded(n / 10, width - 1) + [('0' as int + n % 10) as char]
  }

  lemma {:induction false} NumberPadded(n: nat, width: nat)
    requires n < Pow10(width)
    ensures Number(Padded(n, width)) == n
  {
    if width > 0 {
      var s := Padded(n, width);
      assert s[..|s| - 1] == Padded(n / 10, width - 1);
      NumberPadded(n / 10, width - 1);
    }
  }

  lemma {:induction false} PaddedNumber(s: string)
    requires AllDigits(s)
    ensures Padded(Number(s), |s|) == s
  {
    if s != [] {
      var init := s[..|s| - 1];
      var n := Number(s);
      assert n / 10 == Number(init) && n % 10 == s[|s| - 1] as int - '0' as int;
      PaddedNumber(init);
      assert init + [s[|s| - 1]] == s;
    }
  }

  /** `time.Parse(TimeFormat, s)`: a date when `s` is DD-MM-YYYY naming a real day. */
  function Parse(s: string): (r: Option<Date>)
    ensures r.Some? ==> IsValid(r.value) && |s| == 10
  {
    if |s| == 10 && s[2] == '-' && s[5] == '-'
       && AllDigits(s[0..2]) && AllDigits(s[3..5]) && AllDigits(s[6..10])
    then
      var day := Number(s[0..2]);
      var month := Number(s[3..5]);
      var year := Number(s[6..10]);
      if 1 <= month <= 12 && 1 <= day <= DaysIn(month, year)
      then Some(Date(year, month, day))
      else None
    else None
  }

  /** `dt, _ := time.Parse(TimeFormat, s)`: the parsed date, or the zero time on failure. */
  function ParseOrZero(s: string): (d: Date)
    ensures IsValid(d)
    ensures Parse(s).None? ==> d == ZeroTime
  {
    match Parse(s)
    case Some(d) => d
    case None => ZeroTime
  }

  /** `t.Format(TimeFormat)`. */
  function Format(d: Date): (s: string)
    requires IsValid(d)
    ensures |s| == 10
  {
    Padded(d.day, 2) + "-" + Padded(d.month, 2) + "-" + Padded(d.year, 4)
  }

  /** Formatting a date and parsing the text gives the date back. */
  lemma ParseFormat(d: Date)
    requires IsValid(d)
    ensures Parse(Format(d)) == Some(d)
  {
    var s := Format(d);
    assert s[0..2] == Padded(d.day, 2);
    assert s[3..5] == Padded(d.month, 2);
    assert s[6..10] == Padded(d.year, 4);
    NumberPadded(d.day, 2);
    NumberPadded(d.month, 2);
    NumberPadded(d.year, 4);
  }

  /** Every string the layout accepts is reproduced exactly by formatting what it parses to. */
  lemma FormatParse(s: string)
    requires Parse(s).Some?
    ensures Format(Parse(s).value) == s
  {
    PaddedNumber(s[0..2]);
    PaddedNumber(s[3..5]);
    PaddedNumber(s[6..10]);
    assert s == s[0..2] + "-" + s[3..5] + "-" + s[6..10];
  }

  /** Parse, then store, then format: the text comes back exactly when it was accepted. */
  lemma FormatParseOrZero(s: string)
    ensures Format(ParseOrZero(s)) == s <==> Parse(s).Some?
  {
    if Parse(s).Some? {
      FormatParse(s);
    } else {
      ParseFormat(ZeroTime);
    }
  }
}
