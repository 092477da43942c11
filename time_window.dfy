/** The reservation form's time rule: `isTimeValid` and the `validTime` rule built on it. */
module TimeWindow {

  import opened Options
  import opened JsText
  import opened FormRules

  /** The part of a restaurant record the time rule reads: the opening and closing
      hours, as the text `parseInt` is given. */
  datatype Restaurant = Restaurant(opening: string, closing: string)

  /** The (hour, minute) pair `time.split(":").map(Number)` destructures; a time with no
      colon has an undefined minute, which compares like NaN. */
  function ParseTime(time: string): (JsNum, JsNum)
  {
    var parts := Split(time, ':');
    (ToNumber(parts[0]), if |parts| >= 2 then ToNumber(parts[1]) else NaN)
  }

  /** The three accepting clauses: strictly between the two hours, anywhere in the
      opening hour, or exactly on the closing hour. */
  predicate WithinHours(hour: JsNum, minute: JsNum, opening: JsNum, closing: JsNum)
  {
    || (Less(opening, hour) && Less(hour, closing))
    || (StrictEquals(hour, opening) && AtLeast(minute, Num(0)))
    || (StrictEquals(hour, closing) && StrictEquals(minute, Num(0)))
  }

  /** `isTimeValid(time)` against the restaurant currently held in shared state. */
  predicate IsTimeValid(time: string, restaurant: Option<Restaurant>)
  {
    match restaurant
    case None => true
    case Some(r) =>
      var (hour, minute) := ParseTime(time);
      WithinHours(hour, minute, ParseInt(r.opening), ParseInt(r.closing))
  }

  const ClosedMessage := "Local cerrado"

  /** The `validTime` rule: `isTimeValid(value) || "Local cerrado"`. */
  function ValidTime(value: string, restaurant: Option<Restaurant>): (v: Verdict)
    ensures v == Accepted <==> IsTimeValid(value, restaurant)
    ensures v != Accepted ==> v == Rejected(ClosedMessage)
  {
    if IsTimeValid(value, restaurant) then Accepted else Rejected(ClosedMessage)
  }

  /** All rules of the time field, in react-hook-form's order: `required` first, and
      `validTime` only for a non-empty value. */
  function TimeField(value: string, restaurant: Option<Restaurant>): (v: Verdict)
    ensures v == Accepted <==> value != "" && IsTimeValid(value, restaurant)
    ensures value == "" ==> v == Missing
    ensures value != "" && v != Accepted ==> v == Rejected(ClosedMessage)
  {
    if RequiredField(value) != Accepted then Missing else ValidTime(value, restaurant)
  }

  // ---------------------------------------------------------------- clock times

  /** The "HH:MM" text a time input yields for hour h and minute m. */
  function ClockText(h: nat, m: nat): string
  {
    ZeroPad2(h) + ":" + ZeroPad2(m)
  }

  /** A clock text parses back to its hour and minute. */
  lemma ClockTextParses(h: nat, m: nat)
    ensures ParseTime(ClockText(h, m)) == (Num(h), Num(m))
  {
    ZeroPad2Value(h);
    ZeroPad2Value(m);
    var a, b := ZeroPad2(h), ZeroPad2(m);
    NotAmongDigits(a, ':');
    NotAmongDigits(b, ':');
    assert Join([a, b], ':') == ClockText(h, m);
    SplitJoin([a, b], ':');
    ToNumberOfDigits(a);
    ToNumberOfDigits(b);
  }

  /** For a clock time and a restaurant whose hours are stored as integers, the rule
      is exactly the three clauses on the integers. */
  lemma ClockTimeValid(h: nat, m: nat, opening: int, closing: int)
    ensures IsTimeValid(ClockText(h, m), Some(Restaurant(IntToString(opening), IntToString(closing))))
        <==> WithinHours(Num(h), Num(m), Num(opening), Num(closing))
  {
    var t := ClockText(h, m);
    var r := Restaurant(IntToString(opening), IntToString(closing));
    ClockTextParses(h, m);
    ParseIntOfInt(opening);
    ParseIntOfInt(closing);
    IsTimeValidFromParts(t, r, Num(h), Num(m), Num(opening), Num(closing));
  }

  /** `isTimeValid` in terms of what its text parses to. */
  lemma IsTimeValidFromParts(time: string, r: Restaurant, hour: JsNum, minute: JsNum, opening: JsNum, closing: JsNum)
    requires ParseTime(time) == (hour, minute)
    requires ParseInt(r.opening) == opening && ParseInt(r.closing) == closing
    ensures IsTimeValid(time, Some(r)) == WithinHours(hour, minute, opening, closing)
  {
  }

  // ---------------------------------------------------------------- the policy

  /** Fail-open: with no restaurant loaded every text is accepted. */
  lemma AbsentRestaurantAcceptsAll(time: string)
    ensures IsTimeValid(time, None)
    ensures ValidTime(time, None) == Accepted
  {
  }

  /** An hour that is not a number is never accepted once a restaurant is loaded. */
  lemma NonNumericHourRejected(time: string, r: Restaurant)
    requires ParseTime(time).0 == NaN
    ensures !IsTimeValid(time, Some(r))
  {
    IsTimeValidFromParts(time, r, NaN, ParseTime(time).1, ParseInt(r.opening), ParseInt(r.closing));
  }

  /** Strictly between the opening and closing hours every minute is accepted,
      even one that is not a number. */
  lemma InsideHoursAccepted(h: int, minute: JsNum, opening: int, closing: int)
    requires opening < h < closing
    ensures WithinHours(Num(h), minute, Num(opening), Num(closing))
  {
  }

  /** The whole opening hour is accepted: every minute from 0 on. */
  lemma OpeningHourAccepted(m: int, opening: int, closing: int)
    requires 0 <= m
    ensures WithinHours(Num(opening), Num(m), Num(opening), Num(closing))
  {
  }

  /** In the closing hour (when it differs from the opening one) only the top of the
      hour is accepted: closing:00 passes and closing:01 does not. */
  lemma ClosingHourOnlyOnTheHour(m: JsNum, opening: int, closing: int)
    requires opening != closing
    ensures WithinHours(Num(closing), m, Num(opening), Num(closing)) <==> m == Num(0)
  {
  }

  /** Before the opening hour or after the closing hour, and on neither bound, every
      minute is rejected. */
  lemma OutsideHoursRejected(h: int, minute: JsNum, opening: int, closing: int)
    requires h < opening || h > closing
    requires h != opening && h != closing
    ensures !WithinHours(Num(h), minute, Num(opening), Num(closing))
  {
  }

  /** A restaurant that closes at an earlier hour than it opens (overnight hours)
      accepts only through the two boundary clauses. */
  lemma OvernightOnlyBoundaries(h: int, m: int, opening: int, closing: int)
    requires closing < opening
    ensures WithinHours(Num(h), Num(m), Num(opening), Num(closing))
        <==> (h == opening && m >= 0) || (h == closing && m == 0)
  {
  }

  /** The reference reading of the policy: for a proper window and a minute of the
      clock, a time is accepted exactly when it lies in the closed interval from
      opening:00 to closing:00, counted in minutes since midnight. */
  lemma WindowIsMinuteInterval(h: int, m: int, opening: int, closing: int)
    requires opening < closing
    requires 0 <= m < 60
    ensures WithinHours(Num(h), Num(m), Num(opening), Num(closing))
        <==> opening * 60 <= h * 60 + m <= closing * 60
  {
    if h < opening {
      assert h * 60 + m < opening * 60 by {
        assert h * 60 <= (opening - 1) * 60;
      }
    } else if h > closing {
      assert h * 60 + m > closing * 60 by {
        assert h * 60 >= (closing + 1) * 60;
      }
    } else if h == closing {
    } else if h == opening {
      assert h * 60 + m < closing * 60 by {
        assert h * 60 <= (closing - 1) * 60;
      }
    } else {
      assert opening * 60 < h * 60 < closing * 60;
    }
  }

  /** When the opening and closing hours coincide the opening clause wins: the whole
      hour is accepted, minute 59 included. */
  lemma SingleHourWindow(h: int, m: int, hour: int)
    requires 0 <= m
    ensures WithinHours(Num(h), Num(m), Num(hour), Num(hour)) <==> h == hour
  {
  }

}
