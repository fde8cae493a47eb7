/** Proleptic Gregorian calendar dates as the browser code uses them through
    `Date.UTC`, `setUTCDate`, `toISOString` and `replaceAll("-", "")`: day
    arithmetic, JavaScript's normalisation of out-of-range days and months,
    and the ISO 8601 renderings. */
module Dates {
  import opened Wrappers
  import opened Text

  datatype Date = Date(year: int, month: int, day: int)

  predicate IsLeapYear(y: int) {
    y % 4 == 0 && (y % 100 != 0 || y % 400 == 0)
  }

  function DaysInMonth(y: int, m: int): (n: int)
    requires 1 <= m <= 12
    ensures 28 <= n <= 31
    ensures n == 29 <==> m == 2 && IsLeapYear(y)
  {
    if m == 2 then (if IsLeapYear(y) then 29 else 28)
    else if m == 4 || m == 6 || m == 9 || m == 11 then 30
    else 31
  }

  /** A day that exists in the calendar. */
  predicate Valid(d: Date) {
    1 <= d.month <= 12 && 1 <= d.day <= DaysInMonth(d.year, d.month)
  }

  /** Chronological order. */
  predicate Before(a: Date, b: Date) {
    a.year < b.year ||
    (a.year == b.year && (a.month < b.month || (a.month == b.month && a.day < b.day)))
  }

  /** The following day: later than `d`, with no valid day in between. */
  function NextDay(d: Date): (r: Date)
    requires Valid(d)
    ensures Valid(r) && Before(d, r)
  {
    if d.day < DaysInMonth(d.year, d.month) then Date(d.year, d.month, d.day + 1)
    else if d.month < 12 then Date(d.year, d.month + 1, 1)
    else Date(d.year + 1, 1, 1)
  }

  /** The preceding day: earlier than `d`, with no valid day in between. */
  function PrevDay(d: Date): (r: Date)
    requires Valid(d)
    ensures Valid(r) && Before(r, d)
  {
    if d.day > 1 then Date(d.year, d.month, d.day - 1)
    else if d.month > 1 then Date(d.year, d.month - 1, DaysInMonth(d.year, d.month - 1))
    else Date(d.year - 1, 12, 31)
  }

  /** No day lies strictly between a day and the next one, or the previous one. */
  lemma NoDayBetween(d: Date, x: Date)
    requires Valid(d) && Valid(x)
    ensures Before(d, x) ==> !Before(x, NextDay(d))
    ensures Before(x, d) ==> !Before(PrevDay(d), x)
  {
  }

  lemma NextPrevInverse(d: Date)
    requires Valid(d)
    ensures PrevDay(NextDay(d)) == d
    ensures NextDay(PrevDay(d)) == d
  {
  }

  /** `setUTCDate(getUTCDate() + k)`: `k` days later (earlier for negative `k`). */
  function AddDays(d: Date, k: int): (r: Date)
    requires Valid(d)
    ensures Valid(r)
    ensures k > 0 ==> Before(d, r)
    ensures k < 0 ==> Before(r, d)
    ensures k == 0 ==> r == d
    decreases if k >= 0 then k else -k
  {
    if k == 0 then d
    else if k > 0 then AddDays(NextDay(d), k - 1)
    else AddDays(PrevDay(d), k + 1)
  }

  lemma {:induction false} AddOneDay(d: Date)
    requires Valid(d)
    ensures AddDays(d, 1) == NextDay(d)
  {
    assert AddDays(NextDay(d), 0) == NextDay(d);
  }

  /** Adding days within one month only moves the day number. */
  lemma {:induction false} AddDaysInMonth(d: Date, k: nat)
    requires Valid(d)
    requires d.day + k <= DaysInMonth(d.year, d.month)
    ensures AddDays(d, k) == Date(d.year, d.month, d.day + k)
    decreases k
  {
    if k > 0 {
      AddDaysInMonth(NextDay(d), k - 1);
    }
  }

  /** Adding `a` days and then `b` more is adding `a + b`, for non-negative counts. */
  lemma {:induction false} AddDaysCompose(d: Date, a: nat, b: nat)
    requires Valid(d)
    ensures AddDays(AddDays(d, a), b) == AddDays(d, a + b)
    decreases a
  {
    if a > 0 {
      AddDaysCompose(NextDay(d), a - 1, b);
    }
  }

  /** `Date.UTC`'s MakeFullYear: a year from 0 to 99 means 1900 to 1999. */
  function MakeFullYear(year: int): (y: int)
    ensures 0 <= year <= 99 ==> y == 1900 + year
    ensures !(0 <= year <= 99) ==> y == year
  {
    if 0 <= year <= 99 then 1900 + year else year
  }

  /** `new Date(Date.UTC(year, month - 1, day))` for the numbers of a `D.M.YYYY`
      match: months past 12 carry into the year, and the day counts from the first
      of the month, so `31.2.2025` is the 3rd of March and `0.3.2025` the 28th of February. */
  function UtcDate(day: nat, month: nat, year: nat): (r: Date)
    ensures Valid(r)
  {
    var m := month - 1;
    AddDays(Date(MakeFullYear(year) + m / 12, m % 12 + 1, 1), day - 1)
  }

  /** On a day that exists, in a year from 100 on, `Date.UTC` changes nothing. */
  lemma UtcDateOfValid(day: nat, month: nat, year: nat)
    requires year >= 100
    requires Valid(Date(year, month, day))
    ensures UtcDate(day, month, year) == Date(year, month, day)
  {
    assert (month - 1) / 12 == 0 && (month - 1) % 12 + 1 == month;
    assert MakeFullYear(year) == year;
    AddDaysInMonth(Date(year, month, 1), day - 1);
  }

  /** The 31st of February 2025 rolls over into March. */
  lemma UtcDateRollsOver()
    ensures UtcDate(31, 2, 2025) == Date(2025, 3, 3)
  {
    var first := Date(2025, 2, 1);
    AddDaysInMonth(first, 27);
    AddDaysCompose(first, 27, 3);
    var last := Date(2025, 2, 28);
    assert NextDay(last) == Date(2025, 3, 1);
    assert AddDays(last, 3) == AddDays(Date(2025, 3, 1), 2);
    AddDaysInMonth(Date(2025, 3, 1), 2);
  }

  function Pow10(w: nat): (p: nat)
    ensures p >= 1
  {
    if w == 0 then 1 else 10 * Pow10(w - 1)
  }

  function DigitChar(n: int): (c: char)
    requires 0 <= n < 10
    ensures IsDigit(c)
  {
    ('0' as int + n) as char
  }

  /** The last `width` decimal digits of `n`, zero-padded on the left. */
  function PadDigits(n: nat, width: nat): (s: string)
    ensures |s| == width
    ensures forall i :: 0 <= i < |s| ==> IsDigit(s[i])
  {
    if width == 0 then "" else PadDigits(n / 10, width - 1) + [DigitChar(n % 10)]
  }

  /** The number a string of decimal digits denotes. */
  function DigitsValue(s: string): (n: nat)
    requires forall i :: 0 <= i < |s| ==> IsDigit(s[i])
    ensures n < Pow10(|s|)
  {
    if s == [] then 0
    else
      assert IsDigit(s[|s| - 1]);
      var v := DigitsValue(s[..|s| - 1]);
      assert v < Pow10(|s| - 1);
      v * 10 + (s[|s| - 1] as int - '0' as int)
  }

  /** Padding a number that fits and reading it back gives the number. */
  lemma {:induction false} DigitsValuePad(n: nat, width: nat)
    requires n < Pow10(width)
    ensures DigitsValue(PadDigits(n, width)) == n
  {
    if width > 0 {
      DigitsValuePad(n / 10, width - 1);
      var s := PadDigits(n, width);
      assert s[..|s| - 1] == PadDigits(n / 10, width - 1);
    }
  }

  /** `toISOString().slice(0, 10)`. A year from 0 to 9999 gives `YYYY-MM-DD`;
      any other year is written with a sign and six digits, and the first ten
      characters of that are `+YYYYYY-MM`, without the day. */
  function ToIsoDate(d: Date): (s: string)
    requires Valid(d)
    ensures |s| == 10
  {
    var mmdd := "-" + PadDigits(d.month, 2) + "-" + PadDigits(d.day, 2);
    if 0 <= d.year <= 9999 then PadDigits(d.year, 4) + mmdd
    else
      var sign := if d.year < 0 then "-" else "+";
      var year := PadDigits(if d.year < 0 then -d.year else d.year, 6);
      (sign + year + mmdd)[..10]
  }

  /** `s` with every `c` removed: `replaceAll(c, "")`. */
  function RemoveAll(s: string, c: char): (r: string)
    ensures c !in r
    ensures |r| <= |s|
    ensures c !in s ==> r == s
  {
    if s == [] then []
    else (if s[0] == c then [] else [s[0]]) + RemoveAll(s[1..], c)
  }

  lemma {:induction false} RemoveAllAppend(a: string, b: string, c: char)
    ensures RemoveAll(a + b, c) == RemoveAll(a, c) + RemoveAll(b, c)
  {
    if a == [] {
      assert a + b == b;
    } else {
      assert (a + b)[0] == a[0];
      assert (a + b)[1..] == a[1..] + b;
      RemoveAllAppend(a[1..], b, c);
    }
  }

  /** `toBasicDate`: the ISO date with its hyphens removed, as in an RFC 5545 DATE value. */
  function ToBasicDate(iso: string): (basic: string)
    ensures '-' !in basic
    ensures |basic| <= |iso|
    ensures '-' !in iso ==> basic == iso
  {
    RemoveAll(iso, '-')
  }

  /** Reads an RFC 5545 DATE value `YYYYMMDD` (section 3.3.4 of RFC 5545). */
  function ParseBasicDate(s: string): (r: Option<Date>)
    ensures r.Some? <==> |s| == 8 && forall i :: 0 <= i < 8 ==> IsDigit(s[i])
    ensures r.Some? ==> 0 <= r.value.year <= 9999
  {
    if |s| == 8 && forall i :: 0 <= i < 8 ==> IsDigit(s[i]) then
      Some(Date(DigitsValue(s[..4]), DigitsValue(s[4..6]), DigitsValue(s[6..])))
    else None
  }

  /** A day in a four-digit year is written `YYYY-MM-DD`. */
  lemma IsoDateFourDigitYear(d: Date)
    requires Valid(d) && 0 <= d.year <= 9999
    ensures ToIsoDate(d) == PadDigits(d.year, 4) + "-" + PadDigits(d.month, 2) + "-" + PadDigits(d.day, 2)
  {
  }

  /** Removing the hyphens of `YYYY-MM-DD` leaves the digits. */
  lemma {:induction false} RemoveHyphens(y: string, m: string, dd: string)
    requires '-' !in y && '-' !in m && '-' !in dd
    ensures RemoveAll(y + "-" + m + "-" + dd, '-') == y + m + dd
  {
    var hyphen := RemoveAll("-", '-');
    assert hyphen == [];
    var a := y + "-";
    RemoveAllAppend(y, "-", '-');
    assert RemoveAll(a, '-') == y;
    var b := a + m;
    RemoveAllAppend(a, m, '-');
    assert RemoveAll(b, '-') == y + m;
    var c := b + "-";
    RemoveAllAppend(b, "-", '-');
    assert RemoveAll(c, '-') == y + m;
    RemoveAllAppend(c, dd, '-');
  }

  /** The `DTSTART`/`DTEND` value of a day in a four-digit year reads back as that day. */
  lemma BasicDateRoundTrip(d: Date)
    requires Valid(d) && 0 <= d.year <= 9999
    ensures ParseBasicDate(ToBasicDate(ToIsoDate(d))) == Some(d)
  {
    var y, m, dd := PadDigits(d.year, 4), PadDigits(d.month, 2), PadDigits(d.day, 2);
    IsoDateFourDigitYear(d);
    assert forall i :: 0 <= i < |y| ==> y[i] != '-';
    assert forall i :: 0 <= i < |m| ==> m[i] != '-';
    assert forall i :: 0 <= i < |dd| ==> dd[i] != '-';
    RemoveHyphens(y, m, dd);
    assert ToBasicDate(ToIsoDate(d)) == y + m + dd;
    ParseDigitGroups(y, m, dd);
    DigitsValuePad(d.year, 4);
    DigitsValuePad(d.month, 2);
    DigitsValuePad(d.day, 2);
  }

  /** Four, two and two digits in a row read as that year, month and day. */
  lemma ParseDigitGroups(y: string, m: string, dd: string)
    requires |y| == 4 && |m| == 2 && |dd| == 2
    requires forall i :: 0 <= i < 4 ==> IsDigit(y[i])
    requires forall i :: 0 <= i < 2 ==> IsDigit(m[i]) && IsDigit(dd[i])
    ensures ParseBasicDate(y + m + dd) == Some(Date(DigitsValue(y), DigitsValue(m), DigitsValue(dd)))
  {
    var b := y + m + dd;
    assert b[..4] == y && b[4..6] == m && b[6..] == dd;
    assert forall i :: 0 <= i < 8 ==> IsDigit(b[i]) by {
      forall i | 0 <= i < 8
        ensures IsDigit(b[i])
      {
        if i < 4 {
          assert b[i] == y[i];
        } else if i < 6 {
          assert b[i] == m[i - 4];
        } else {
          assert b[i] == dd[i - 6];
        }
      }
    }
  }

  /** From the year 10000 on, `toISOString().slice(0, 10)` drops the day:
      two different days of one month get the same string. */
  lemma IsoDateDropsDayAfter9999()
    ensures ToIsoDate(Date(10000, 1, 1)) == ToIsoDate(Date(10000, 1, 2))
  {
  }
}
