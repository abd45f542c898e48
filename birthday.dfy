/**
 * The birthday of a record: one date-validated field, and the number of days
 * until the birthday next comes round, computed from a given `now`.
 */
module Birthdays {
  import opened Base
  import opened Calendar
  import opened Validators
  import opened Fields

  /** What `days_to_birthday` gives: `None`, a day count, or the error it raises. */
  datatype Countdown = NoBirthday | DaysLeft(n: int) | Failed(error: Error)

  /**
   * `days_to_birthday` with `datetime.today()` replaced by `now`: no
   * birthday gives None, text strptime rejects raises, and a parsed birthday
   * is counted by CountFrom.
   */
  function DaysUntil(stored: Value, now: DateTime): (r: Countdown)
    requires IsValidDateTime(now)
    ensures r == NoBirthday <==> !Truthy(stored)
  {
    if !Truthy(stored) then NoBirthday
    else match ParseDate(stored.s)
      case None => Failed(BadDate)
      case Some(b) => CountFrom(b, now)
  }

  /**
   * The count from a parsed birthday `b`. Its midnight in this year is the
   * target unless `now` is strictly later, in which case the target is the
   * same month and day next year; `datetime(...)` raises for a day the target
   * year lacks. The result is `delta.days`, the floor of the time left in
   * whole days.
   */
  function CountFrom(b: Date, now: DateTime): (r: Countdown)
    requires IsValidDateTime(now)
    ensures r != NoBirthday
    ensures r.Failed? ==> r.error == DateOutOfRange
  {
    var first := Date(now.date.year, b.month, b.day);
    if !IsValidDate(first) then Failed(DateOutOfRange)
    else if !After(now, Midnight(first)) then
      DaysLeft((Stamp(Midnight(first)) - Stamp(now)) / MicrosPerDay)
    else
      var second := Date(now.date.year + 1, b.month, b.day);
      if !IsValidDate(second) then Failed(DateOutOfRange)
      else DaysLeft((Stamp(Midnight(second)) - Stamp(now)) / MicrosPerDay)
  }

  /**
   * `t` is the birthday `b` counted from `now`: the first midnight on b's
   * month and day that is not before `now`, in this year or the next.
   */
  ghost predicate IsNextBirthday(b: Date, now: DateTime, t: Date)
  {
    var y := now.date.year;
    && IsValidDate(t) && t.month == b.month && t.day == b.day
    && !After(now, Midnight(t))
    && (t.year == y
        || (t.year == y + 1 && IsValidDate(Date(y, b.month, b.day))
            && After(now, Midnight(Date(y, b.month, b.day)))))
  }

  /**
   * A day count is the floor, in whole days, of the time from `now` to the
   * next birthday's midnight.
   */
  lemma CountFromFloor(b: Date, now: DateTime)
    requires IsValidDateTime(now)
    requires CountFrom(b, now).DaysLeft?
    ensures var n := CountFrom(b, now).n;
            exists t :: IsNextBirthday(b, now, t)
                        && n * MicrosPerDay <= Stamp(Midnight(t)) - Stamp(now) < (n + 1) * MicrosPerDay
  {
    var n := CountFrom(b, now).n;
    var y := now.date.year;
    var first := Date(y, b.month, b.day);
    AfterIsLaterStamp(now, Midnight(first));
    if !After(now, Midnight(first)) {
      assert IsNextBirthday(b, now, first);
    } else {
      var second := Date(y + 1, b.month, b.day);
      AfterIsLaterStamp(now, Midnight(second));
      NextYearDistance(first);
      assert IsNextBirthday(b, now, second);
    }
  }

  /** The next birthday's midnight is not before `now` and less than 366 days after it. */
  lemma NextBirthdayWithinAYear(b: Date, now: DateTime, t: Date)
    requires IsValidDateTime(now) && IsNextBirthday(b, now, t)
    ensures 0 <= Stamp(Midnight(t)) - Stamp(now) < 366 * MicrosPerDay
  {
    if t.year == now.date.year {
      WithinThisYear(now, t);
    } else {
      WithinNextYear(now, Date(now.date.year, b.month, b.day));
    }
  }

  /** A midnight later this year, not before `now`, is less than 366 days away. */
  lemma WithinThisYear(now: DateTime, t: Date)
    requires IsValidDateTime(now) && IsValidDate(t) && t.year == now.date.year
    requires !After(now, Midnight(t))
    ensures 0 <= Stamp(Midnight(t)) - Stamp(now) < 366 * MicrosPerDay
  {
    AfterIsLaterStamp(now, Midnight(t));
    OrdinalInYear(t);
    OrdinalInYear(now.date);
  }

  /** Once this year's day has passed, the same day next year is less than 366 days away. */
  lemma WithinNextYear(now: DateTime, first: Date)
    requires IsValidDateTime(now) && IsValidDate(first) && first.year == now.date.year
    requires IsValidDate(Date(first.year + 1, first.month, first.day))
    requires After(now, Midnight(first))
    ensures var t := Date(first.year + 1, first.month, first.day);
            0 <= Stamp(Midnight(t)) - Stamp(now) < 366 * MicrosPerDay
  {
    var t := Date(first.year + 1, first.month, first.day);
    AfterIsLaterStamp(now, Midnight(first));
    NextYearDistance(first);
    OrdinalOrder(now.date, t);
  }

  /** A day count lies between 0 and 365. */
  lemma DaysUntilBounds(stored: Value, now: DateTime)
    requires IsValidDateTime(now)
    ensures DaysUntil(stored, now).DaysLeft? ==> 0 <= DaysUntil(stored, now).n <= 365
  {
    if DaysUntil(stored, now).DaysLeft? {
      var b := ParseDate(stored.s).value;
      var n := DaysUntil(stored, now).n;
      CountFromFloor(b, now);
      var t :| IsNextBirthday(b, now, t)
               && n * MicrosPerDay <= Stamp(Midnight(t)) - Stamp(now) < (n + 1) * MicrosPerDay;
      NextBirthdayWithinAYear(b, now, t);
    }
  }

  /** At exactly midnight on the birthday the count is 0. */
  lemma OnBirthdayAtMidnight(b: Date, now: DateTime)
    requires IsValidDateTime(now)
    requires now.date.month == b.month && now.date.day == b.day && now.micros == 0
    ensures CountFrom(b, now) == DaysLeft(0)
  {
    assert now == Midnight(Date(now.date.year, b.month, b.day));
  }

  /**
   * After midnight on the birthday itself, `now` is later than the birthday's
   * midnight, so the count rolls over to next year: 364 or 365.
   */
  lemma OnBirthdayAfterMidnight(b: Date, now: DateTime)
    requires IsValidDateTime(now)
    requires now.date.month == b.month && now.date.day == b.day && now.micros > 0
    requires now.date.year < 9999 && !(b.month == 2 && b.day == 29)
    ensures CountFrom(b, now).DaysLeft?
    ensures 364 <= CountFrom(b, now).n <= 365
  {
    var first := Date(now.date.year, b.month, b.day);
    assert first == now.date;
    var second := Date(now.date.year + 1, b.month, b.day);
    assert IsValidDate(second);
    NextYearDistance(first);
  }

  /** A concrete instance: 15 May 1990, asked at 10:00 on 15 May 2024, gives 364. */
  lemma BirthdayMorningExample()
    ensures DaysUntil(Text("15-05-1990"), DateTime(Date(2024, 5, 15), 36_000_000_000)) == DaysLeft(364)
  {
    SampleBirthdayParses();
    SampleMorningCount();
  }

  /** The day before: asked at 10:00 on 14 May 2024, "15-05-1990" already gives 0. */
  lemma DayBeforeExample()
    ensures DaysUntil(Text("15-05-1990"), DateTime(Date(2024, 5, 14), 36_000_000_000)) == DaysLeft(0)
  {
    SampleBirthdayParses();
  }

  /** The sample birthday text reads as 15 May 1990. */
  lemma SampleBirthdayParses()
    ensures ParseDate("15-05-1990") == Some(Date(1990, 5, 15))
  {
    var s := "15-05-1990";
    assert s[3..5] == [s[3], s[4]];
    assert s[..2] == "15" && s[3..5] == "05" && s[6..] == "1990";
    NumberOfTwo("15");
    NumberOfTwo("05");
    NumberOfFour("1990");
  }

  /** From 10:00 on 15 May 2024, the next 15 May midnight is 365 days minus ten hours away. */
  lemma SampleMorningCount()
    ensures CountFrom(Date(1990, 5, 15), DateTime(Date(2024, 5, 15), 36_000_000_000)) == DaysLeft(364)
  {
    YearStep(2024);
    assert Ordinal(Date(2025, 5, 15)) == Ordinal(Date(2024, 5, 15)) + 365;
  }

  /**
   * The count is 0 exactly when the next birthday's midnight is less than a
   * day away: `now` is midnight on the birthday, or the birthday is the next
   * day and `now` is past midnight.
   */
  lemma CountFromZero(b: Date, now: DateTime)
    requires IsValidDateTime(now)
    requires CountFrom(b, now).DaysLeft?
    ensures CountFrom(b, now).n == 0 <==>
            exists t :: IsNextBirthday(b, now, t)
                        && ((t == now.date && now.micros == 0)
                            || (Ordinal(t) == Ordinal(now.date) + 1 && now.micros > 0))
  {
    var n := CountFrom(b, now).n;
    CountFromFloor(b, now);
    var t :| IsNextBirthday(b, now, t)
             && n * MicrosPerDay <= Stamp(Midnight(t)) - Stamp(now) < (n + 1) * MicrosPerDay;
    OrdinalInjective(t, now.date);
    forall u | IsNextBirthday(b, now, u)
      ensures u == t
    {
      NextBirthdayUnique(b, now, t, u);
    }
  }

  /** There is only one next birthday. */
  lemma NextBirthdayUnique(b: Date, now: DateTime, t: Date, u: Date)
    requires IsNextBirthday(b, now, t) && IsNextBirthday(b, now, u)
    ensures t == u
  {
  }

  /**
   * A 29 February birthday raises whenever this year is not a leap year, and
   * in a leap year once that day has passed, since the next year is not one.
   */
  lemma LeapDayBirthday(b: Date, now: DateTime)
    requires IsValidDateTime(now)
    requires b.month == 2 && b.day == 29
    ensures CountFrom(b, now).Failed? <==>
            !IsLeapYear(now.date.year) || After(now, Midnight(Date(now.date.year, 2, 29)))
  {
    NoConsecutiveLeapYears(now.date.year);
  }

  /** Text that does not parse as a date raises what strptime raises. */
  lemma DaysUntilUnparsable(s: string, now: DateTime)
    requires IsValidDateTime(now) && s != "" && ParseDate(s).None?
    ensures DaysUntil(Text(s), now) == Failed(BadDate)
  {
  }

  // ------------------------------------------------ the evidently intended count

  /**
   * The count the program evidently intends: compare calendar dates only, so
   * that the birthday itself counts as 0 days away at any time of that day.
   */
  function DaysUntilByDate(stored: Value, now: DateTime): (r: Countdown)
    requires IsValidDateTime(now)
    ensures r == NoBirthday <==> !Truthy(stored)
  {
    if !Truthy(stored) then NoBirthday
    else match ParseDate(stored.s)
      case None => Failed(BadDate)
      case Some(b) => CountFromByDate(b, now)
  }

  /** The count by dates from a parsed birthday: whole days between today's date and the target. */
  function CountFromByDate(b: Date, now: DateTime): (r: Countdown)
    requires IsValidDateTime(now)
    ensures r != NoBirthday
  {
    var today := now.date;
    var first := Date(today.year, b.month, b.day);
    if !IsValidDate(first) then Failed(DateOutOfRange)
    else if !After(Midnight(today), Midnight(first)) then DaysLeft(Ordinal(first) - Ordinal(today))
    else
      var second := Date(today.year + 1, b.month, b.day);
      if !IsValidDate(second) then Failed(DateOutOfRange)
      else DaysLeft(Ordinal(second) - Ordinal(today))
  }

  /** By dates, the count is between 0 and 365 and is 0 exactly on the birthday. */
  lemma CountFromByDateSpec(b: Date, now: DateTime)
    requires IsValidDateTime(now)
    requires CountFromByDate(b, now).DaysLeft?
    ensures 0 <= CountFromByDate(b, now).n <= 365
    ensures CountFromByDate(b, now).n == 0 <==> now.date.month == b.month && now.date.day == b.day
  {
    var today := now.date;
    var first := Date(today.year, b.month, b.day);
    var n := CountFromByDate(b, now).n;
    AfterMidnightIsLaterOrdinal(today, first);
    OrdinalInjective(first, today);
    if !After(Midnight(today), Midnight(first)) {
      assert n == Ordinal(first) - Ordinal(today);
      DaysWithinYear(today, first);
    } else {
      var second := Date(today.year + 1, b.month, b.day);
      assert n == Ordinal(second) - Ordinal(today);
      DaysToNextYear(today, first);
    }
  }

  /** A date later in the same year is at most 365 days after today. */
  lemma DaysWithinYear(today: Date, first: Date)
    requires IsValidDate(today) && IsValidDate(first) && first.year == today.year
    ensures Ordinal(first) - Ordinal(today) <= 365
  {
    OrdinalInYear(first);
    OrdinalInYear(today);
  }

  /** Once this year's date has passed, the same date next year is 1 to 365 days after today. */
  lemma DaysToNextYear(today: Date, first: Date)
    requires IsValidDate(today) && IsValidDate(first) && first.year == today.year
    requires IsValidDate(Date(first.year + 1, first.month, first.day))
    requires Ordinal(today) > Ordinal(first)
    ensures 1 <= Ordinal(Date(first.year + 1, first.month, first.day)) - Ordinal(today) <= 365
  {
    var second := Date(first.year + 1, first.month, first.day);
    NextYearDistance(first);
    OrdinalOrder(today, second);
  }

  // ---------------------------------------------------------------- RecordBirthday

  class RecordBirthday {
    const birthday: Field

    /** The birthday field carries the date validator. */
    ghost predicate Valid()
    {
      birthday.validator == Some(DateValidator)
    }

    /** `RecordBirthday(birthday)`: the initial value is installed without validation. */
    constructor (birthday: Value)
      ensures Valid() && fresh(this.birthday) && this.birthday.value == birthday
    {
      this.birthday := new Field(birthday, Some(DateValidator));
    }

    /** `add_birthday`: the date validator decides; a rejected value leaves the birthday as it was. */
    method AddBirthday(raw: Value) returns (outcome: Outcome)
      requires Valid()
      modifies birthday
      ensures outcome == Validate(DateValidator, raw)
      ensures birthday.value == if outcome == Ok then raw else old(birthday.value)
    {
      outcome := birthday.SetValue(raw);
    }

    /** `edit_birthday`: an unconditional overwrite with the same validation as `add_birthday`. */
    method EditBirthday(raw: Value) returns (outcome: Outcome)
      requires Valid()
      modifies birthday
      ensures outcome == Validate(DateValidator, raw)
      ensures birthday.value == if outcome == Ok then raw else old(birthday.value)
    {
      outcome := birthday.SetValue(raw);
    }

    /**
     * `remove_birthday` passes None to the date validator, which always
     * raises, so the birthday is never cleared.
     */
    method RemoveBirthday() returns (outcome: Outcome)
      requires Valid()
      modifies birthday
      ensures outcome == Raised(NotAString)
      ensures birthday.value == old(birthday.value)
    {
      outcome := birthday.SetValue(Null);
    }

    /** The evidently intended `remove_birthday`: the birthday becomes absent. */
    method ClearBirthday()
      modifies birthday
      ensures birthday.value == Null
    {
      birthday.value := Null;
    }

    /** `days_to_birthday`, with `now` given: reads the birthday and changes nothing. */
    function DaysToBirthday(now: DateTime): (r: Countdown)
      reads birthday
      requires IsValidDateTime(now)
      ensures r == NoBirthday <==> !Truthy(birthday.value)
      ensures r.DaysLeft? ==> 0 <= r.n <= 365
    {
      DaysUntilBounds(birthday.value, now);
      DaysUntil(birthday.value, now)
    }
  }
}
