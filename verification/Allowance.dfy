/** Data allowances: the UTC calendar periods they run over, and a grant's running total.

    Times are Unix seconds. The program keeps them in u64, where only `End` can overflow;
    `EndFitsIffNotLast` says exactly when it does not. */
module Allowance {
  import opened Arithmetic
  import opened Calendar
  import opened Wrappers

  const DAY := 86_400

  datatype Period = Day | Week | Month

  // ----- Periods

  function FirstDay(p: Period, day: nat): (first: nat)
    ensures first <= day
  {
    match p
    case Day => day
    // Day 0 is a Thursday, three days into its week.
    case Week => if day < (day + 3) % 7 then 0 else day - (day + 3) % 7
    case Month =>
      var d := CivilFromDays(day);
      MonthStart(day);
      DaysFromCivil(Date(d.year, d.month, 1))
  }

  /** The first day after the period holding `day`. */
  function DayAfter(p: Period, day: nat): nat
  {
    match p
    case Day => day + 1
    case Week => FirstDay(Week, day) + 7
    case Month =>
      var d := CivilFromDays(day);
      MonthEnd(day);
      DaysFromCivil(NextMonth(d.year, d.month))
  }

  /** The second at which the period of `now` starts. */
  function Start(p: Period, now: nat): nat {
    FirstDay(p, now / DAY) * DAY
  }

  /** The first second behind the period of `now`. */
  function End(p: Period, now: nat): nat {
    DayAfter(p, now / DAY) * DAY
  }

  /** A month's first day is `day - 1` days before its day number `day`. */
  lemma MonthStart(day: nat)
    ensures var d := CivilFromDays(day);
            IsDate(Date(d.year, d.month, 1)) && DaysFromCivil(Date(d.year, d.month, 1)) == day - (d.day - 1) >= 0
  {
    hide CivilFromDays, DayInEra, IsLeap;
    CivilRoundTrip(day);
    var d := CivilFromDays(day);
    DaysOfMonth(d.year, d.month, d.day);
    CalendarDateOfDays(Date(d.year, d.month, 1));
  }

  lemma DaysOfMonth(year: nat, month: nat, day: nat)
    requires IsDate(Date(year, month, day))
    ensures IsDate(Date(year, month, 1))
    ensures DaysFromCivil(Date(year, month, day)) == DaysFromCivil(Date(year, month, 1)) + day - 1
  {
    hide IsLeap, YearStart;
  }

  lemma MonthEnd(day: nat)
    ensures var d := CivilFromDays(day);
            var next := NextMonth(d.year, d.month);
            && IsDate(next) && DaysFromCivil(next) > day
            && DaysFromCivil(next) == day - (d.day - 1) + DaysInMonth(d.year, d.month)
  {
    hide CivilFromDays, DayInEra, IsLeap, DaysFromCivil;
    CivilRoundTrip(day);
    var d := CivilFromDays(day);
    var last := Date(d.year, d.month, DaysInMonth(d.year, d.month));
    DaysOfMonth(d.year, d.month, d.day);
    DaysOfMonth(d.year, d.month, last.day);
    NextDayCountsOne(last);
  }

  /** Whether the periods tile time from the day `day` on: weeks only do from Monday 1970-01-05. */
  predicate Tiled(p: Period, day: nat) {
    p.Week? ==> day >= 4
  }

  lemma DaysTile(p: Period, day: nat, other: nat)
    requires Tiled(p, day) && FirstDay(p, day) <= other < DayAfter(p, day)
    ensures FirstDay(p, other) == FirstDay(p, day) && DayAfter(p, other) == DayAfter(p, day)
  {
    hide CivilFromDays, DaysFromCivil, DaysInMonth;
    match p
    case Day =>
    case Week => WeekOf(day, other);
    case Month => MonthOf(day, other);
  }

  lemma NextPeriodStarts(p: Period, day: nat)
    requires Tiled(p, day)
    ensures FirstDay(p, day) <= day < DayAfter(p, day)
    ensures FirstDay(p, DayAfter(p, day)) == DayAfter(p, day)
  {
    hide CivilFromDays, DaysFromCivil, DaysInMonth;
    match p
    case Day =>
    case Week =>
      var k := (day + 3) / 7;
      DivModUnique(DayAfter(Week, day) + 3, 7, k + 1, 0);
    case Month =>
      MonthEnd(day);
      CivilRoundTrip(day);
      var next := NextMonth(CivilFromDays(day).year, CivilFromDays(day).month);
      CivilInvertsDays(next);
  }

  lemma WeekOf(day: nat, other: nat)
    requires day >= 4 && FirstDay(Week, day) <= other < FirstDay(Week, day) + 7
    ensures FirstDay(Week, other) == FirstDay(Week, day)
  {
    DivModUnique(other + 3, 7, (day + 3) / 7, other - FirstDay(Week, day));
  }

  lemma MonthOf(day: nat, other: nat)
    requires FirstDay(Month, day) <= other < DayAfter(Month, day)
    ensures CivilFromDays(other).year == CivilFromDays(day).year
    ensures CivilFromDays(other).month == CivilFromDays(day).month
  {
    hide CivilFromDays, DaysFromCivil, DaysInMonth;
    MonthStart(day);
    MonthEnd(day);
    CivilRoundTrip(day);
    var d := CivilFromDays(day);
    var o := Date(d.year, d.month, other - FirstDay(Month, day) + 1);
    DaysOfMonth(o.year, o.month, o.day);
    CivilInvertsDays(o);
  }

  lemma SecondsOfDay(now: nat, first: nat)
    ensures first * DAY <= now <==> first <= now / DAY
    ensures first * DAY / DAY == first
  {
  }

  /** Day and month periods, and weeks from 1970-01-05, tile time: each moment is in its own
      period, the moments that share its start are exactly those of the period, they share its
      end, and the next period starts where it ends. */
  lemma PeriodsTile(p: Period, now: nat, t: nat)
    requires Tiled(p, now / DAY)
    ensures Start(p, now) <= now < End(p, now)
    ensures Start(p, t) == Start(p, now) <==> Start(p, now) <= t < End(p, now)
    ensures Start(p, t) == Start(p, now) ==> End(p, t) == End(p, now)
    ensures Start(p, End(p, now)) == End(p, now)
  {
    var day, other := now / DAY, t / DAY;
    var first, after := FirstDay(p, day), DayAfter(p, day);
    NextPeriodStarts(p, day);
    hide FirstDay, DayAfter;
    SecondsOfDay(now, first);
    SecondsOfDay(now, after);
    SecondsOfDay(t, first);
    SecondsOfDay(t, after);
    if first <= other < after {
      DaysTile(p, day, other);
    }
    if FirstDay(p, other) == first {
      TiledFrom(p, day, other);
      NextPeriodStarts(p, other);
      DaysTile(p, day, first);
      DaysTile(p, other, first);
    }
  }

  /** Month periods are the months of the calendar: two moments share one exactly when their dates share
      year and month; it starts with its first day, and ends where the next month's first day starts. */
  lemma MonthsAreCalendarMonths(now: nat, t: nat)
    ensures var d, e := DateOf(now / DAY), DateOf(t / DAY);
            && (Start(Month, t) == Start(Month, now) <==> e.year == d.year && e.month == d.month)
            && Start(Month, now) % DAY == 0 && DateOf(Start(Month, now) / DAY) == Date(d.year, d.month, 1)
            && End(Month, now) % DAY == 0
            && DateOf(End(Month, now) / DAY)
               == if d.month == 12 then Date(d.year + 1, 1, 1) else Date(d.year, d.month + 1, 1)
  {
    var day, other := now / DAY, t / DAY;
    MonthDates(day);
    MonthDates(other);
    SecondsOfDay(now, FirstDay(Month, day));
    SecondsOfDay(now, DayAfter(Month, day));
    SecondsOfDay(t, FirstDay(Month, other));
    CivilIsCalendar(day);
    CivilIsCalendar(other);
    hide CivilFromDays, DaysFromCivil;
  }

  lemma MonthDates(day: nat)
    ensures var d := DateOf(day);
            && DateOf(FirstDay(Month, day)) == Date(d.year, d.month, 1)
            && DateOf(DayAfter(Month, day))
               == if d.month == 12 then Date(d.year + 1, 1, 1) else Date(d.year, d.month + 1, 1)
  {
    hide CivilFromDays, DaysFromCivil, DateOf;
    CivilIsCalendar(day);
    CivilRoundTrip(day);
    MonthStart(day);
    MonthEnd(day);
    var d := CivilFromDays(day);
    CalendarDateOfDays(Date(d.year, d.month, 1));
    CalendarDateOfDays(NextMonth(d.year, d.month));
  }

  /** Day periods run from midnight to midnight, and week periods, from 1970-01-05 on, from a Monday to the
      next. */
  lemma DaysAndWeeks(now: nat)
    ensures Start(Day, now) == now - now % 86_400 && End(Day, now) == Start(Day, now) + 86_400
    ensures now >= 345_600 ==>
              && Start(Week, now) <= now < End(Week, now) == Start(Week, now) + 604_800
              && Start(Week, now) % 86_400 == 0 && WeekdayOf(Start(Week, now) / 86_400) == Monday
    ensures now < 345_600 ==> Start(Week, now) == 0 && End(Week, now) == 604_800
  {
    var day := now / DAY;
    if now >= 345_600 {
      var k := (day + 3) / 7;
      DivModUnique(FirstDay(Week, day), 7, k - 1, 4);
      MondaysAreSevenApart(FirstDay(Week, day));
      SecondsOfDay(now, FirstDay(Week, day));
    }
  }

  /** A day whose period starts no earlier than a tiled one's is tiled too. */
  lemma TiledFrom(p: Period, day: nat, other: nat)
    requires Tiled(p, day) && FirstDay(p, other) == FirstDay(p, day)
    ensures Tiled(p, other)
  {
    if p == Week {
      DivModUnique(FirstDay(Week, day) + 3, 7, (day + 3) / 7, 0);
    }
  }

  /** All that `PeriodsTile` says of one moment. */
  ghost predicate TilesAt(p: Period, now: nat) {
    && Start(p, now) <= now < End(p, now) && Start(p, End(p, now)) == End(p, now)
    && forall t: nat :: && (Start(p, t) == Start(p, now) <==> Start(p, now) <= t < End(p, now))
                   && (Start(p, t) == Start(p, now) ==> End(p, t) == End(p, now))
  }

  /** Weeks tile exactly from Monday 1970-01-05 on: the days before it count into a period that
      ends on 1970-01-08, when the week from 1970-01-05 already runs. */
  lemma WeeksTileFromFirstMonday(now: nat)
    ensures TilesAt(Week, now) <==> now >= 345_600
    ensures Start(Week, End(Week, now)) == End(Week, now) <==> now >= 345_600
  {
    if now >= 345_600 {
      hide Start, End;
      PeriodsTile(Week, now, now);
      forall t: nat ensures && (Start(Week, t) == Start(Week, now) <==> Start(Week, now) <= t < End(Week, now))
                            && (Start(Week, t) == Start(Week, now) ==> End(Week, t) == End(Week, now)) {
        PeriodsTile(Week, now, t);
      }
    } else {
      assert FirstDay(Week, now / DAY) == 0;
      assert FirstDay(Week, 7) == 4;
    }
  }

  /** `End` stays in u64 exactly for the moments before the last period that starts in u64. */
  lemma EndFitsIffNotLast(p: Period, now: nat)
    requires now <= U64_MAX
    ensures End(p, now) <= U64_MAX <==> now < Start(p, U64_MAX)
  {
    if Tiled(p, now / DAY) {
      PeriodsTile(p, now, U64_MAX);
      PeriodsTile(p, U64_MAX, now);
    }
  }

  /** From a period's start up to `now`, every moment has the same start; weeks included. */
  lemma StartShared(p: Period, now: nat, t: nat)
    ensures Start(p, now) <= now
    ensures Start(p, now) <= t <= now ==> Start(p, t) == Start(p, now)
  {
    if Tiled(p, now / DAY) {
      PeriodsTile(p, now, t);
    }
  }

  /** Later moments are not in earlier periods. */
  lemma StartIsMonotone(p: Period, a: nat, b: nat)
    requires a <= b
    ensures Start(p, a) <= Start(p, b)
  {
    hide Start;
    StartShared(p, a, a);
    StartShared(p, b, a);
  }

  // ----- A grant's running total

  datatype DataAllowance = DataAllowance(bytes: nat, period: Period)

  datatype PeriodUsage = PeriodUsage(start: nat, used: nat)

  datatype AllowanceStatus = AllowanceStatus(allowance: DataAllowance, used: nat, resetsAt: nat)

  /** The stored total, if it is that of the current period. */
  function Used(allowance: Option<DataAllowance>, usage: Option<PeriodUsage>, now: nat): nat {
    if allowance.Some? && usage.Some? && usage.value.start == Start(allowance.value.period, now)
    then usage.value.used
    else 0
  }

  function Status(allowance: Option<DataAllowance>, usage: Option<PeriodUsage>, now: nat): Option<AllowanceStatus> {
    if allowance.None? then None
    else Some(AllowanceStatus(allowance.value, Used(allowance, usage, now), End(allowance.value.period, now)))
  }

  /** The end of the period when nothing of the allowance is left in it. */
  function UsedUpUntil(allowance: Option<DataAllowance>, usage: Option<PeriodUsage>, now: nat): Option<nat> {
    match Status(allowance, usage, now)
    case Some(status) => if status.used >= status.allowance.bytes then Some(status.resetsAt) else None
    case None => None
  }

  function AfterAdd(allowance: Option<DataAllowance>, usage: Option<PeriodUsage>, bytes: nat, now: nat):
    Option<PeriodUsage>
  {
    if allowance.None? || bytes == 0 then usage
    else Some(PeriodUsage(Start(allowance.value.period, now), SaturatingAdd(Used(allowance, usage, now), bytes)))
  }

  /** The part of an access grant that counts traffic. */
  class Meter {
    const allowance: Option<DataAllowance>
    var usage: Option<PeriodUsage>
    /** Every `Add` so far, for the specification. */
    ghost var added: seq<Added>

    ghost predicate Valid()
      reads this
    {
      usage == UsageAfter(allowance, added)
    }

    constructor (allowance: Option<DataAllowance>)
      ensures Valid() && this.allowance == allowance && added == []
    {
      this.allowance := allowance;
      usage := None;
      added := [];
    }

    method Add(bytes: nat, now: nat)
      requires Valid()
      modifies this
      ensures Valid() && added == old(added) + [Added(now, bytes)]
      ensures usage == AfterAdd(allowance, old(usage), bytes, now)
    {
      added := added + [Added(now, bytes)];
      if allowance.None? || bytes == 0 {
        return;
      }
      usage := Some(PeriodUsage(Start(allowance.value.period, now),
                                SaturatingAdd(Used(allowance, usage, now), bytes)));
    }

    /** The meter reads the latest uninterrupted run of adds of the current period: all of them exactly
        when no add of another period came between, or the run alone fills the counter. */
    method Read(now: nat) returns (used: nat)
      requires Valid()
      ensures allowance.None? ==> used == 0
      ensures allowance.Some? ==>
                var p := allowance.value.period;
                var all := Min(PeriodTotal(p, added, Start(p, now)), U64_MAX);
                && used <= all
                && (used == all <==>
                    Unbroken(p, added, Start(p, now)) || RunTotal(p, added, Start(p, now)) >= U64_MAX)
    {
      used := Used(allowance, usage, now);
      if allowance.Some? {
        UsedIsPeriodTotal(allowance.value, added, now);
      }
    }
  }

  datatype Added = Added(time: nat, bytes: nat)

  function UsageAfter(allowance: Option<DataAllowance>, added: seq<Added>): Option<PeriodUsage> {
    if added == [] then None
    else
      var last := added[|added| - 1];
      AfterAdd(allowance, UsageAfter(allowance, added[..|added| - 1]), last.bytes, last.time)
  }

  /** The bytes added in the period that starts at `start`. */
  function PeriodTotal(p: Period, added: seq<Added>, start: nat): nat {
    if added == [] then 0
    else
      var last := added[|added| - 1];
      PeriodTotal(p, added[..|added| - 1], start) + (if Start(p, last.time) == start then last.bytes else 0)
  }

  /** Those of them behind the last bytes of any other period. */
  function RunTotal(p: Period, added: seq<Added>, start: nat): nat {
    if added == [] then 0
    else
      var rest, last := added[..|added| - 1], added[|added| - 1];
      if last.bytes == 0 then RunTotal(p, rest, start)
      else if Start(p, last.time) == start then RunTotal(p, rest, start) + last.bytes
      else 0
  }

  ghost predicate Counts(p: Period, e: Added, start: nat) {
    e.bytes > 0 && Start(p, e.time) == start
  }

  /** Once bytes of the period were added, only its bytes are. */
  ghost predicate Unbroken(p: Period, added: seq<Added>, start: nat) {
    forall i, j :: 0 <= i < j < |added| && Counts(p, added[i], start) && added[j].bytes > 0 ==>
        Counts(p, added[j], start)
  }

  /** Times whose periods never go back leave every period unbroken, whatever the clock does within
      a period. */
  lemma InOrderIsUnbroken(p: Period, added: seq<Added>, now: nat)
    requires forall i, j :: 0 <= i < j < |added| ==> Start(p, added[i].time) <= Start(p, added[j].time)
    requires forall i :: 0 <= i < |added| ==> Start(p, added[i].time) <= Start(p, now)
    ensures Unbroken(p, added, Start(p, now))
  {
    hide Start;
  }

  lemma {:induction false} NothingCounts(p: Period, added: seq<Added>, start: nat)
    ensures PeriodTotal(p, added, start) == 0 <==> forall i :: 0 <= i < |added| ==> !Counts(p, added[i], start)
  {
    hide Start;
    if added != [] {
      var last := |added| - 1;
      NothingCounts(p, added[..last], start);
      assert added == added[..last] + [added[last]];
      assert PeriodTotal(p, added, start) == 0 ==> !Counts(p, added[last], start);
    }
  }

  lemma UnbrokenStep(p: Period, added: seq<Added>, start: nat)
    requires added != []
    ensures var rest, last := added[..|added| - 1], added[|added| - 1];
            Unbroken(p, added, start) <==>
            Unbroken(p, rest, start)
            && (last.bytes == 0 || Counts(p, last, start) || forall i :: 0 <= i < |rest| ==> !Counts(p, rest[i], start))
  {
    hide Counts;
    var rest, last := added[..|added| - 1], added[|added| - 1];
    assert added == rest + [last];
    if Unbroken(p, added, start) {
      forall i, j | 0 <= i < j < |rest| && Counts(p, rest[i], start) && rest[j].bytes > 0
        ensures Counts(p, rest[j], start)
      {
        assert added[i] == rest[i] && added[j] == rest[j];
      }
      forall i | 0 <= i < |rest| && Counts(p, rest[i], start) ensures last.bytes == 0 || Counts(p, last, start) {
        assert added[i] == rest[i] && added[|rest|] == last;
      }
    }
  }

  /** The run is the whole period's total exactly when the period is unbroken. */
  lemma {:induction false} RunIsPeriod(p: Period, added: seq<Added>, start: nat)
    ensures RunTotal(p, added, start) <= PeriodTotal(p, added, start)
    ensures RunTotal(p, added, start) == PeriodTotal(p, added, start) <==> Unbroken(p, added, start)
  {
    if added != [] {
      hide Start, Unbroken;
      RunIsPeriod(p, added[..|added| - 1], start);
      UnbrokenStep(p, added, start);
      NothingCounts(p, added[..|added| - 1], start);
      NoneIsUnbroken(p, added[..|added| - 1], start);
    }
  }

  lemma NoneIsUnbroken(p: Period, added: seq<Added>, start: nat)
    ensures (forall i :: 0 <= i < |added| ==> !Counts(p, added[i], start)) ==> Unbroken(p, added, start)
  {
    hide Counts;
  }

  /** One stored total, overwritten when the period changes, is the total of the run. */
  lemma {:induction false} UsedIsRun(a: DataAllowance, added: seq<Added>, now: nat)
    ensures Used(Some(a), UsageAfter(Some(a), added), now)
            == Min(RunTotal(a.period, added, Start(a.period, now)), U64_MAX)
  {
    hide Start;
    if added != [] {
      var rest, last := added[..|added| - 1], added[|added| - 1];
      if last.bytes == 0 {
        UsedIsRun(a, rest, now);
      } else if Start(a.period, last.time) == Start(a.period, now) {
        UsedIsRun(a, rest, last.time);
      }
    }
  }

  /** What is read never exceeds the bytes of the current period, and is all of them exactly when the
      period is unbroken or its latest run alone fills the counter. */
  lemma UsedIsPeriodTotal(a: DataAllowance, added: seq<Added>, now: nat)
    ensures var used := Used(Some(a), UsageAfter(Some(a), added), now);
            var all := Min(PeriodTotal(a.period, added, Start(a.period, now)), U64_MAX);
            && used <= all
            && (used == all <==>
                || Unbroken(a.period, added, Start(a.period, now))
                || RunTotal(a.period, added, Start(a.period, now)) >= U64_MAX)
  {
    hide Start, Used, UsageAfter, Unbroken, RunTotal, PeriodTotal;
    UsedIsRun(a, added, now);
    RunIsPeriod(a.period, added, Start(a.period, now));
  }

  /** Adds at times that never go back: what is read from the last of them on is the total of the current
      period. */
  lemma UsedInOrder(a: DataAllowance, added: seq<Added>, now: nat)
    requires forall i, j :: 0 <= i < j < |added| ==> added[i].time <= added[j].time
    requires forall i :: 0 <= i < |added| ==> added[i].time <= now
    ensures Used(Some(a), UsageAfter(Some(a), added), now)
            == Min(PeriodTotal(a.period, added, Start(a.period, now)), U64_MAX)
  {
    hide Start, Used, UsageAfter, PeriodTotal, Unbroken;
    forall i, j | 0 <= i < j < |added| ensures Start(a.period, added[i].time) <= Start(a.period, added[j].time) {
      StartIsMonotone(a.period, added[i].time, added[j].time);
    }
    forall i | 0 <= i < |added| ensures Start(a.period, added[i].time) <= Start(a.period, now) {
      StartIsMonotone(a.period, added[i].time, now);
    }
    InOrderIsUnbroken(a.period, added, now);
    UsedIsPeriodTotal(a, added, now);
  }

  /** A clock that steps back over midnight and on again: of the ten and five bytes of the second day only
      the last five are read. */
  lemma ForgottenBytes()
    ensures var a, added := DataAllowance(100, Day), [Added(DAY, 10), Added(DAY - 1, 7), Added(DAY, 5)];
            && Used(Some(a), UsageAfter(Some(a), added), DAY) == 5
            && PeriodTotal(Day, added, Start(Day, DAY)) == 15
            && !Unbroken(Day, added, Start(Day, DAY))
  {
    var a, added := DataAllowance(100, Day), [Added(DAY, 10), Added(DAY - 1, 7), Added(DAY, 5)];
    assert Start(Day, DAY) == DAY && Start(Day, DAY - 1) == 0;
    assert added[..2][..1] == [added[0]] && added[..1][..0] == [];
    assert UsageAfter(Some(a), added[..1]) == Some(PeriodUsage(DAY, 10));
    assert UsageAfter(Some(a), added[..2]) == Some(PeriodUsage(0, 7));
    assert UsageAfter(Some(a), added) == Some(PeriodUsage(DAY, 5));
    assert PeriodTotal(Day, added[..1], DAY) == 10;
    assert PeriodTotal(Day, added[..2], DAY) == 10;
    assert Counts(Day, added[0], DAY) && !Counts(Day, added[1], DAY);
  }

  /** A grant is refused, until the period ends, exactly when the bytes of an unbroken period reach the
      allowance. */
  lemma UsedUpIffPeriodReached(a: DataAllowance, added: seq<Added>, now: nat)
    requires a.bytes <= U64_MAX
    ensures UsedUpUntil(Some(a), UsageAfter(Some(a), added), now)
            == if RunTotal(a.period, added, Start(a.period, now)) >= a.bytes then Some(End(a.period, now)) else None
    ensures Unbroken(a.period, added, Start(a.period, now)) ==>
              UsedUpUntil(Some(a), UsageAfter(Some(a), added), now)
              == if PeriodTotal(a.period, added, Start(a.period, now)) >= a.bytes
                 then Some(End(a.period, now)) else None
  {
    hide Start, End, Used, UsageAfter, Unbroken, RunTotal, PeriodTotal;
    UsedIsRun(a, added, now);
    RunIsPeriod(a.period, added, Start(a.period, now));
  }
}
