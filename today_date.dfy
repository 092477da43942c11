/** `getTodayDate`: the calendar date as "YYYY-MM-DD", used as the lower bound of the
    reservation date field. The clock read is left to the caller, who passes the
    year, the zero-based month index and the day of the month. */
module TodayDate {

  import opened JsText

  /** `${yyyy}-${mm}-${dd}` with mm = String(month + 1).padStart(2, "0") and
      dd = String(day).padStart(2, "0"). */
  function TodayDate(year: int, monthIndex: nat, day: nat): string
  {
    IntToString(year) + "-" + ZeroPad2(monthIndex + 1) + "-" + ZeroPad2(day)
  }

  /** For any year, a month index below 99 and a day below 100, the text is the year's
      digits, a dash, the month number in two digits, a dash and the day in two digits. */
  lemma TodayDateFields(year: int, monthIndex: nat, day: nat)
    requires monthIndex < 99 && day < 100
    ensures var r := TodayDate(year, monthIndex, day);
      && |r| == |IntToString(year)| + 6
      && r[..|r| - 6] == IntToString(year)
      && r[|r| - 6] == '-' && r[|r| - 3] == '-'
      && AllDigits(r[|r| - 5..|r| - 3]) && DigitsValue(r[|r| - 5..|r| - 3]) == monthIndex + 1
      && AllDigits(r[|r| - 2..]) && DigitsValue(r[|r| - 2..]) == day
  {
    ZeroPad2Value(monthIndex + 1);
    ZeroPad2Value(day);
    DashFields(IntToString(year), ZeroPad2(monthIndex + 1), ZeroPad2(day));
  }

  /** Where the three fields of y + "-" + mm + "-" + dd sit when mm and dd have two
      characters each. */
  lemma DashFields(y: string, mm: string, dd: string)
    requires |mm| == 2 && |dd| == 2
    ensures var r := y + "-" + mm + "-" + dd;
      && |r| == |y| + 6 && r[..|r| - 6] == y
      && r[|r| - 6] == '-' && r[|r| - 3] == '-'
      && r[|r| - 5..|r| - 3] == mm && r[|r| - 2..] == dd
  {
    var r := y + "-" + mm + "-" + dd;
    assert r[..|y|] == y;
    assert r[|y| + 1..|y| + 3] == mm;
    assert r[|y| + 4..] == dd;
  }

  /** With a four-digit year and a date the clock can produce, the text is exactly ten
      characters, "YYYY-MM-DD", each field reads back as its number, and the month and
      day are written as their tens digit followed by their units digit. */
  lemma TodayDateLayout(year: int, monthIndex: nat, day: nat)
    requires 1000 <= year <= 9999 && monthIndex < 12 && day < 32
    ensures var r := TodayDate(year, monthIndex, day);
      && |r| == 10 && r[4] == '-' && r[7] == '-'
      && AllDigits(r[..4]) && DigitsValue(r[..4]) == year
      && AllDigits(r[5..7]) && DigitsValue(r[5..7]) == monthIndex + 1
      && AllDigits(r[8..]) && DigitsValue(r[8..]) == day
      && r[5..7] == [DigitChar((monthIndex + 1) / 10), DigitChar((monthIndex + 1) % 10)]
      && r[8..] == [DigitChar(day / 10), DigitChar(day % 10)]
  {
    NatToStringLength(year);
    TodayDateFields(year, monthIndex, day);
    ZeroPad2Digits(monthIndex + 1);
    ZeroPad2Digits(day);
    DashFields(IntToString(year), ZeroPad2(monthIndex + 1), ZeroPad2(day));
  }

  /** Distinct dates give distinct texts. */
  lemma TodayDateInjective(y1: int, m1: nat, d1: nat, y2: int, m2: nat, d2: nat)
    requires 1000 <= y1 <= 9999 && m1 < 12 && d1 < 32
    requires 1000 <= y2 <= 9999 && m2 < 12 && d2 < 32
    ensures TodayDate(y1, m1, d1) == TodayDate(y2, m2, d2) ==> y1 == y2 && m1 == m2 && d1 == d2
  {
    TodayDateLayout(y1, m1, d1);
    TodayDateLayout(y2, m2, d2);
  }

}
