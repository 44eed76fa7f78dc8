/** Receipt dates: `pd.to_datetime(..., format="%Y%m%d", errors="coerce")`
    followed by `.dt.date`, as a strict parser of eight-digit Gregorian
    `YYYYMMDD` strings, and the chronological order on the parsed dates. */
module Dates {
  import opened Wrappers

  datatype Date = Date(year: int, month: int, day: int)

  predicate IsLeapYear(year: int) {
    year % 4 == 0 && (year % 100 != 0 || year % 400 == 0)
  }

  function DaysInMonth(year: int, month: int): int
    requires 1 <= month <= 12
  {
    if month == 2 then (if IsLeapYear(year) then 29 else 28)
    else if month == 4 || month == 6 || month == 9 || month == 11 then 30
    else 31
  }

  /** A day of the proleptic Gregorian calendar with a four-digit year. */
  predicate ValidDate(d: Date) {
    && 1 <= d.year <= 9999
    && 1 <= d.month <= 12
    && 1 <= d.day <= DaysInMonth(d.year, d.month)
  }

  predicate IsDigit(c: char) {
    '0' <= c <= '9'
  }

  predicate AllDigits(s: string) {
    forall i :: 0 <= i < |s| ==> IsDigit(s[i])
  }

  function Pow10(width: nat): nat {
    if width == 0 then 1 else 10 * Pow10(width - 1)
  }

  /** The number a string of decimal digits denotes. */
  function DigitsValue(s: string): (n: nat)
    requires AllDigits(s)
    ensures n < Pow10(|s|)
  {
    if s == [] then 0
    else DigitsValue(s[..|s| - 1]) * 10 + (s[|s| - 1] as int - '0' as int)
  }

  /** `n` written with exactly `width` digits, zero-padded on the left. */
  function Digits(n: nat, width: nat): (s: string)
    ensures |s| == width && AllDigits(s)
  {
    if width == 0 then []
    else Digits(n / 10, width - 1) + [('0' as int + n % 10) as char]
  }

  lemma {:induction false} ValueOfDigits(n: nat, width: nat)
    requires n < Pow10(width)
    ensures DigitsValue(Digits(n, width)) == n
  {
    if width > 0 {
      var s := Digits(n, width);
      ValueOfDigits(n / 10, width - 1);
      assert s[..|s| - 1] == Digits(n / 10, width - 1);
    }
  }

  lemma {:induction false} DigitsOfValue(s: string)
    requires AllDigits(s)
    ensures Digits(DigitsValue(s), |s|) == s
  {
    if s != [] {
      var init := s[..|s| - 1];
      var v := DigitsValue(s);
      DigitsOfValue(init);
      assert v / 10 == DigitsValue(init);
      assert s == init + [s[|s| - 1]];
    }
  }

  /** The eight-digit `YYYYMMDD` text of a date. */
  function Format(d: Date): (s: string)
    requires ValidDate(d)
    ensures |s| == 8 && AllDigits(s)
  {
    Digits(d.year, 4) + Digits(d.month, 2) + Digits(d.day, 2)
  }

  /** Parses `YYYYMMDD`; text that is not eight digits naming a real day
      of the calendar (month 13, 30 February, day 45, year 0) yields no date. */
  function ParseYmd(s: string): (r: Option<Date>)
    ensures r.Some? ==> ValidDate(r.value) && Format(r.value) == s
  {
    if |s| == 8 && AllDigits(s) then
      var d := Date(DigitsValue(s[..4]), DigitsValue(s[4..6]), DigitsValue(s[6..]));
      if ValidDate(d) then
        DigitsOfValue(s[..4]);
        DigitsOfValue(s[4..6]);
        DigitsOfValue(s[6..]);
        assert s == s[..4] + s[4..6] + s[6..];
        Some(d)
      else None
    else None
  }

  /** Every valid date is recovered from its own text; with the contract of
      `ParseYmd` this makes a text parse exactly when it is the text of a
      valid date. */
  lemma ParseFormat(d: Date)
    requires ValidDate(d)
    ensures ParseYmd(Format(d)) == Some(d)
  {
    var s := Format(d);
    assert s[..4] == Digits(d.year, 4);
    assert s[4..6] == Digits(d.month, 2);
    assert s[6..] == Digits(d.day, 2);
    ValueOfDigits(d.year, 4);
    ValueOfDigits(d.month, 2);
    ValueOfDigits(d.day, 2);
  }

  /** An invalid day: 45 January is rejected. */
  lemma InvalidDayRejected()
    ensures ParseYmd("20230145") == None
  {
    var s := "20230145";
    assert AllDigits(s);
    assert DigitsValue(s[4..6]) == 1 by {
      assert s[4..6] == "01";
    }
    assert DigitsValue(s[6..]) == 45 by {
      assert s[6..] == "45";
    }
    DayPastMonthEnd(s);
  }

  /** No month has more than 31 days. */
  lemma DayPastMonthEnd(s: string)
    requires |s| == 8 && AllDigits(s)
    requires DigitsValue(s[6..]) > 31
    ensures ParseYmd(s) == None
  {
  }

  function DigitOf(c: char): int {
    c as int - '0' as int
  }

  lemma FourDigits(s: string)
    requires |s| == 4 && AllDigits(s)
    ensures DigitsValue(s) == 1000 * DigitOf(s[0]) + 100 * DigitOf(s[1]) + 10 * DigitOf(s[2]) + DigitOf(s[3])
  {
    var s1, s2, s3 := s[..1], s[..2], s[..3];
    assert s1[..0] == [];
    assert DigitsValue(s1) == DigitOf(s[0]);
    assert s2[..1] == s1;
    assert DigitsValue(s2) == DigitsValue(s1) * 10 + DigitOf(s[1]);
    assert s3[..2] == s2;
    assert DigitsValue(s3) == DigitsValue(s2) * 10 + DigitOf(s[2]);
    assert s[..3] == s3;
    assert DigitsValue(s) == DigitsValue(s3) * 10 + DigitOf(s[3]);
  }

  /** 29 February exists in leap years only: 2024 has one, 2023 and
      1900 do not. */
  lemma LeapDay2024()
    ensures ParseYmd("20240229") == Some(Date(2024, 2, 29))
  {
    var s := "20240229";
    assert AllDigits(s);
    assert DigitsValue(s[..4]) == 2024 by {
      assert s[..4] == "2024";
      FourDigits(s[..4]);
    }
    assert DigitsValue(s[4..6]) == 2 by {
      assert s[4..6] == "02";
    }
    assert DigitsValue(s[6..]) == 29 by {
      assert s[6..] == "29";
    }
  }

  lemma NoLeapDay2023()
    ensures ParseYmd("20230229") == None
  {
    var s := "20230229";
    assert AllDigits(s);
    assert DigitsValue(s[..4]) == 2023 by {
      assert s[..4] == "2023";
      FourDigits(s[..4]);
    }
    assert DigitsValue(s[4..6]) == 2 by {
      assert s[4..6] == "02";
    }
    assert DigitsValue(s[6..]) == 29 by {
      assert s[6..] == "29";
    }
  }

  lemma NoLeapDay1900()
    ensures ParseYmd("19000229") == None
  {
    var s := "19000229";
    assert AllDigits(s);
    assert DigitsValue(s[..4]) == 1900 by {
      assert s[..4] == "1900";
      FourDigits(s[..4]);
    }
    assert DigitsValue(s[4..6]) == 2 by {
      assert s[4..6] == "02";
    }
    assert DigitsValue(s[6..]) == 29 by {
      assert s[6..] == "29";
    }
    assert !IsLeapYear(1900);
    assert !ValidDate(Date(1900, 2, 29));
  }

  /** Chronological order: `a` is not later than `b`. */
  predicate NotAfter(a: Date, b: Date) {
    || a.year < b.year
    || (a.year == b.year && a.month < b.month)
    || (a.year == b.year && a.month == b.month && a.day <= b.day)
  }

  /** `NotAfter` is a total order. */
  lemma NotAfterTotalOrder(a: Date, b: Date, c: Date)
    ensures NotAfter(a, a)
    ensures NotAfter(a, b) || NotAfter(b, a)
    ensures NotAfter(a, b) && NotAfter(b, a) ==> a == b
    ensures NotAfter(a, b) && NotAfter(b, c) ==> NotAfter(a, c)
  {
  }
}
