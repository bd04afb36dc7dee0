/** `ActToString`, the duration formatter of package `global`: a count of
    seconds becomes a phrase of days, hours and minutes. */
module Duration {
  import opened GoTypes
  import opened Strconv

  /** Go's integer `/`, which truncates toward zero. */
  function Quot(a: int, b: int): int
    requires b > 0
  {
    if a >= 0 then a / b else -((-a) / b)
  }

  /** Go's integer `%`: what `Quot` leaves over, with the sign of `a`. */
  function Rem(a: int, b: int): int
    requires b > 0
  {
    if a >= 0 then a % b else -((-a) % b)
  }

  /** The day, hour and minute counts `ActToString` derives, with a zero
      argument standing for one hour; leftover seconds are dropped. For a
      non-negative argument they are its days, hours of the day and minutes
      of the hour; for a negative one none of them is positive. */
  function Units(t: Int64): (u: (int, int, int))
    ensures var secs := if t == 0 then 3600 else t;
      0 <= secs ==>
        u.0 >= 0 && 0 <= u.1 < 24 && 0 <= u.2 < 60 &&
        u.0 * 86400 + u.1 * 3600 + u.2 * 60 + secs % 60 == secs
    ensures t < 0 ==> u.0 <= 0 && u.1 <= 0 && -60 < u.2 <= 0
  {
    var secs := if t == 0 then 3600 else t;
    var mins := Quot(secs, 60);
    var hours := Quot(mins, 60);
    var min := Rem(mins, 60);
    var day := Quot(hours, 24);
    var hour := Rem(hours, 24);
    (day, hour, min)
  }

  /** The units of a positive count in closed form. */
  lemma UnitsOfPositive(t: Int64)
    ensures t > 0 ==> Units(t) == (t / 86400, t / 3600 % 24, t / 60 % 60)
  {
    if t > 0 {
      assert t / 60 / 60 == t / 3600;
      assert t / 3600 / 24 == t / 86400;
    }
  }

  /** The minutes of a negative count in closed form. */
  lemma UnitsOfNegative(t: Int64)
    ensures t < 0 ==> Units(t).2 == -((-(t as int)) / 60 % 60)
  {
  }

  const DAYS: GoString := " days"
  const DAYS_COMMA: GoString := " days, "
  const HOURS: GoString := " hours"
  const HOURS_COMMA: GoString := " hours, "
  const MINUTES: GoString := " minutes"

  /** The phrase for `day` days, `hour` hours and `min` minutes, by which of
      the three are positive: days alone; days and hours; all three whenever
      days and minutes are positive, even with zero hours; hours alone; hours
      and minutes; otherwise minutes alone, even zero. */
  function Phrase(day: int, hour: int, min: int): GoString {
    if day > 0 && hour == 0 && min == 0 then Itoa(day) + DAYS
    else if day > 0 && hour > 0 && min == 0 then Itoa(day) + DAYS_COMMA + Itoa(hour) + HOURS
    else if day > 0 && min > 0 then
      Itoa(day) + DAYS_COMMA + Itoa(hour) + HOURS_COMMA + Itoa(min) + MINUTES
    else if day <= 0 && hour > 0 && min <= 0 then Itoa(hour) + HOURS
    else if day <= 0 && hour > 0 && min > 0 then Itoa(hour) + HOURS_COMMA + Itoa(min) + MINUTES
    else Itoa(min) + MINUTES
  }

  /** `ActToString`: a positive count of seconds is written as the phrase
      for its whole days, hours of the day and minutes of the hour; zero is
      written as one hour; a negative count yields only its (non-positive)
      minutes of the hour. */
  function ActToString(t: Int64): (r: GoString)
    ensures t > 0 ==> r == Phrase(t / 86400, t / 3600 % 24, t / 60 % 60)
    ensures t == 0 ==> r == Phrase(0, 1, 0)
    ensures t < 0 ==> r == Itoa(-((-(t as int)) / 60 % 60)) + MINUTES
  {
    UnitsOfPositive(t);
    UnitsOfNegative(t);
    var (day, hour, min) := Units(t);
    var oneUnit := Itoa(day) + DAYS;
    var twoUnits := if hour > 0 then Itoa(day) + DAYS_COMMA + Itoa(hour) + HOURS else oneUnit;
    var inDays := if min > 0 then
      Itoa(day) + DAYS_COMMA + Itoa(hour) + HOURS_COMMA + Itoa(min) + MINUTES
      else twoUnits;
    var inHours := if min > 0 then Itoa(hour) + HOURS_COMMA + Itoa(min) + MINUTES
      else Itoa(hour) + HOURS;
    if day > 0 then inDays
    else if hour > 0 then inHours
    else Itoa(min) + MINUTES
  }

  /** The days, hours of the day and minutes of the hour of a count are
      the only ones that add up to it with fewer than 60 seconds left over. */
  lemma SplitIsUnique(t: int, day: int, hour: int, min: int, sec: int)
    requires day >= 0 && 0 <= hour < 24 && 0 <= min < 60 && 0 <= sec < 60
    requires t == day * 86400 + hour * 3600 + min * 60 + sec
    ensures t / 86400 == day && t / 3600 % 24 == hour && t / 60 % 60 == min
  {
    assert t / 60 == day * 1440 + hour * 60 + min;
    assert t / 3600 == day * 24 + hour;
    assert t / 86400 == day;
  }

  /** Any split of a positive `t` into days, hours of the day, minutes of the
      hour and seconds of the minute determines the phrase `ActToString`
      prints. */
  lemma ActToStringPhrase(t: Int64, day: int, hour: int, min: int, sec: int)
    requires day >= 0 && 0 <= hour < 24 && 0 <= min < 60 && 0 <= sec < 60
    requires t == day * 86400 + hour * 3600 + min * 60 + sec && t > 0
    ensures ActToString(t) == Phrase(day, hour, min)
  {
    SplitIsUnique(t, day, hour, min, sec);
  }

  /** Zero is formatted as one hour. */
  lemma ZeroIsOneHour()
    ensures ActToString(0) == ActToString(3600) == "1 hours"
  {
    ActToStringPhrase(3600, 0, 1, 0, 0);
    assert Itoa(1) == "1";
  }

  /** For a positive count the seconds past the last whole minute never
      matter. */
  lemma SecondsAreDropped(t: Int64, u: Int64)
    requires t > 0 && u > 0 && t / 60 == u / 60
    ensures ActToString(t) == ActToString(u)
  {
  }

  /** One day and one hour. */
  lemma DayAndHourExample()
    ensures ActToString(90000) == "1 days, 1 hours"
  {
    ActToStringPhrase(90000, 1, 1, 0, 0);
    assert Itoa(1) == "1";
  }

  /** A whole day. */
  lemma WholeDayExample()
    ensures ActToString(86400) == "1 days"
  {
    ActToStringPhrase(86400, 1, 0, 0, 0);
    assert Itoa(1) == "1";
  }

  /** With days and minutes but no hours, the zero hours are still printed. */
  lemma ZeroHoursPrintedExample()
    ensures ActToString(86700) == "1 days, 0 hours, 5 minutes"
  {
    ActToStringPhrase(86700, 1, 0, 5, 0);
    assert Itoa(1) == "1" && Itoa(0) == "0" && Itoa(5) == "5";
  }

  /** An hour and a minute. */
  lemma HourAndMinuteExample()
    ensures ActToString(3660) == "1 hours, 1 minutes"
  {
    ActToStringPhrase(3660, 0, 1, 1, 0);
    assert Itoa(1) == "1";
  }

  /** Under a minute prints zero minutes. */
  lemma UnderAMinuteExample()
    ensures ActToString(59) == "0 minutes"
  {
    ActToStringPhrase(59, 0, 0, 0, 59);
    assert Itoa(0) == "0";
  }

  /** A negative count prints its negative minutes. */
  lemma NegativeExample()
    ensures ActToString(-120) == "-2 minutes"
  {
    assert Itoa(-2) == "-2";
  }
}
