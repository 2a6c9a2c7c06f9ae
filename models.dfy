/**
 * The persisted entities: the two enumerations, a calendar date-time with
 * .NET tick arithmetic, a rocket launch and a moon-phase event.
 */
module Models {
  import opened Wrappers

  /** Moon phases as reported by the astronomical data provider, in declaration order. */
  datatype MoonPhase = NewMoon | FirstQuarter | FullMoon | LastQuarter

  /** Outcome of a launch, in declaration order. */
  datatype LaunchStatus = Success | Failure | Partial | TBD

  /** The underlying integer value of a MoonPhase enum member. */
  function PhaseOrdinal(p: MoonPhase): nat
  {
    match p
    case NewMoon => 0
    case FirstQuarter => 1
    case FullMoon => 2
    case LastQuarter => 3
  }

  // ---------------------------------------------------------------------------
  // Calendar. A DateTime is a proleptic Gregorian date in years 1..9999 plus a
  // time of day counted in 100-nanosecond ticks, exactly the range a .NET
  // DateTime can hold.
  // ---------------------------------------------------------------------------

  const TicksPerDay: int := 864_000_000_000

  predicate IsLeapYear(year: int)
  {
    year % 4 == 0 && (year % 100 != 0 || year % 400 == 0)
  }

  function DaysInMonth(year: int, month: int): int
    requires 1 <= month <= 12
  {
    if month == 2 then (if IsLeapYear(year) then 29 else 28)
    else if month == 4 || month == 6 || month == 9 || month == 11 then 30
    else 31
  }

  /** What the DateTime(year, month, day) constructor accepts without throwing. */
  predicate IsValidDate(year: int, month: int, day: int)
  {
    1 <= year <= 9999 && 1 <= month <= 12 && 1 <= day <= DaysInMonth(year, month)
  }

  /** Days in the months of `year` before `month`. */
  function DaysBeforeMonth(year: int, month: int): (days: nat)
    requires 1 <= month <= 12
  {
    var common := [0, 31, 59, 90, 120, 151, 181, 212, 243, 273, 304, 334][month - 1];
    if month > 2 && IsLeapYear(year) then common + 1 else common
  }

  /** Days from 0001-01-01 to the first day of `year`. */
  function DaysBeforeYear(year: int): int
    requires year >= 1
  {
    var y := year - 1;
    y * 365 + y / 4 - y / 100 + y / 400
  }

  datatype DateTime = DateTime(year: int, month: int, day: int, timeOfDay: int)
  {
    predicate Valid()
    {
      IsValidDate(year, month, day) && 0 <= timeOfDay < TicksPerDay
    }

    /** Ticks since 0001-01-01T00:00, the value DateTime comparison and subtraction use. */
    function Ticks(): int
      requires Valid()
    {
      (DaysBeforeYear(year) + DaysBeforeMonth(year, month) + day - 1) * TicksPerDay + timeOfDay
    }
  }

  type ValidDateTime = d: DateTime | d.Valid() witness DateTime(1, 1, 1, 0)

  /** new DateTime(year, month, day): midnight of that day, or None where .NET throws. */
  function NewDate(year: int, month: int, day: int): (r: Option<ValidDateTime>)
    ensures r.Some? <==> IsValidDate(year, month, day)
    ensures r.Some? ==> r.value == DateTime(year, month, day, 0)
  {
    if IsValidDate(year, month, day) then Some(DateTime(year, month, day, 0)) else None
  }

  /** A later day of the same month lies a whole number of days later on the tick scale. */
  lemma {:induction false} TicksFollowDays(a: ValidDateTime, b: ValidDateTime)
    requires a.year == b.year && a.month == b.month && a.day <= b.day
    ensures b.Ticks() - a.Ticks() == (b.day - a.day) * TicksPerDay + b.timeOfDay - a.timeOfDay
    ensures a.day < b.day ==> a.Ticks() < b.Ticks()
  {
    var base := DaysBeforeYear(a.year) + DaysBeforeMonth(a.year, a.month) - 1;
    assert a.Ticks() == (base + a.day) * TicksPerDay + a.timeOfDay;
    assert b.Ticks() == (base + b.day) * TicksPerDay + b.timeOfDay;
    assert (base + b.day) * TicksPerDay - (base + a.day) * TicksPerDay == (b.day - a.day) * TicksPerDay;
  }

  // ---------------------------------------------------------------------------
  // Entities
  // ---------------------------------------------------------------------------

  /** One launch row. `id` is the database key (0 until the store assigns one). */
  datatype RocketLaunch = RocketLaunch(
    id: int,
    name: string,
    launchDate: ValidDateTime,
    status: LaunchStatus,
    agency: string,
    rocketType: string,
    externalId: Option<string>,
    moonPhaseId: Option<int>)

  /** One moon-phase row: the phase, its calendar day (midnight) and the year it was fetched for. */
  datatype MoonData = MoonData(id: int, phase: MoonPhase, date: ValidDateTime, year: int)

  function LaunchTicks(l: RocketLaunch): int { l.launchDate.Ticks() }

  function MoonTicks(m: MoonData): int { m.date.Ticks() }

  /** The query `launches.Where(l => l.LaunchDate.Year == year)`. */
  function LaunchesInYear(launches: seq<RocketLaunch>, year: int): (r: seq<RocketLaunch>)
    ensures |r| <= |launches|
    ensures forall l :: l in r <==> l in launches && l.launchDate.year == year
    ensures forall l :: multiset(r)[l] == if l.launchDate.year == year then multiset(launches)[l] else 0
  {
    if launches == [] then []
    else
      assert launches == [launches[0]] + launches[1..];
      if launches[0].launchDate.year == year then [launches[0]] + LaunchesInYear(launches[1..], year)
    else LaunchesInYear(launches[1..], year)
  }

  /** The query `moonPhases.Where(m => m.Year == year)`. */
  function MoonPhasesInYear(phases: seq<MoonData>, year: int): (r: seq<MoonData>)
    ensures |r| <= |phases|
    ensures forall m :: m in r <==> m in phases && m.year == year
    ensures forall m :: multiset(r)[m] == if m.year == year then multiset(phases)[m] else 0
  {
    if phases == [] then []
    else
      assert phases == [phases[0]] + phases[1..];
      if phases[0].year == year then [phases[0]] + MoonPhasesInYear(phases[1..], year)
    else MoonPhasesInYear(phases[1..], year)
  }
}
