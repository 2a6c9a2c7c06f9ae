/**
 * The chart analysis service: three charts computed from the launches and
 * moon-phase events of one year. The database reads become the sequences
 * `launches` and `moonPhases` (the whole stored tables); each chart filters
 * them by year exactly as its query does.
 */
module ChartAnalysis {
  import opened Wrappers
  import opened Models
  import opened ChartDtos
  import Linq

  const SuccessRateTitle: string := "Erfolgsrate pro Mondphase"
  const StatusTitle: string := "Launch-Status Verteilung"
  const TimelineTitle: string := "Raketen-Starts pro Monat"

  /** The abbreviated month names January..December of the configured culture. */
  type MonthNames = names: seq<string> | |names| == 12
    witness ["", "", "", "", "", "", "", "", "", "", "", ""]

  function Abs(x: int): nat
  {
    if x < 0 then -x else x
  }

  // ---------------------------------------------------------------------------
  // Rounding of a quotient to one decimal place
  // ---------------------------------------------------------------------------

  /** `r` is a nearest integer to n / d, and the even one when n / d lies halfway. */
  predicate IsRoundedHalfEven(n: int, d: int, r: int)
    requires d > 0
  {
    2 * Abs(n - r * d) <= d && (2 * Abs(n - r * d) == d ==> r % 2 == 0)
  }

  /** n / d rounded to an integer with ties to even (MidpointRounding.ToEven). */
  function RoundHalfEven(n: nat, d: nat): (r: nat)
    requires d > 0
    ensures IsRoundedHalfEven(n, d, r)
  {
    var q, m := n / d, n % d;
    assert n == q * d + m;
    if 2 * m > d then
      assert n - (q + 1) * d == m - d;
      q + 1
    else if 2 * m < d then q
    else if q % 2 == 0 then q
    else
      assert n - (q + 1) * d == m - d;
      q + 1
  }

  lemma ProductAtLeast(x: int, d: int)
    requires x >= 1 && d > 0
    ensures x * d >= d
  {
  }

  lemma ProductIsFactor(x: int, d: int)
    requires d > 0 && x * d == d
    ensures x == 1
  {
  }

  /** Rounding half to even has exactly one answer. */
  lemma RoundHalfEvenUnique(n: nat, d: nat, r: int)
    requires d > 0
    requires IsRoundedHalfEven(n, d, r)
    ensures r == RoundHalfEven(n, d)
  {
    var e := RoundHalfEven(n, d);
    if r != e {
      var lo, hi := if r < e then r else e, if r < e then e else r;
      assert IsRoundedHalfEven(n, d, lo) && IsRoundedHalfEven(n, d, hi);
      var a, b := n - lo * d, n - hi * d;
      assert a - b == (hi - lo) * d;
      ProductAtLeast(hi - lo, d);
      assert 2 * Abs(a) == d && 2 * Abs(b) == d;
      ProductIsFactor(hi - lo, d);
      assert false;
    }
  }

  /** A quotient of at most k rounds to at most k. */
  lemma RoundHalfEvenAtMost(n: nat, d: nat, k: nat)
    requires d > 0 && n <= k * d
    ensures RoundHalfEven(n, d) <= k
  {
    var r := RoundHalfEven(n, d);
    if r > k {
      ProductAtLeast(r - k, d);
      assert false;
    }
  }

  /** `part` out of `whole` as a percentage with one decimal, in tenths. */
  function PercentTenths(part: nat, whole: nat): (tenths: nat)
    requires whole > 0
    ensures IsRoundedHalfEven(1000 * part, whole, tenths)
    ensures part <= whole ==> tenths <= 1000
  {
    if part <= whole then
      RoundHalfEvenAtMost(1000 * part, whole, 1000);
      RoundHalfEven(1000 * part, whole)
    else
      RoundHalfEven(1000 * part, whole)
  }

  /** CalculateSuccessRate: 0 for an empty group, otherwise successful / total in tenths of a percent. */
  function CalculateSuccessRate(successful: nat, total: nat): (rate: nat)
    ensures total == 0 ==> rate == 0
    ensures total > 0 ==> IsRoundedHalfEven(1000 * successful, total, rate)
    ensures successful <= total ==> rate <= 1000
  {
    if total == 0 then 0 else PercentTenths(successful, total)
  }

  /** One success out of three launches is 33.3 percent. */
  lemma OneOfThreeIsThirtyThreePointThree()
    ensures CalculateSuccessRate(1, 3) == 333
  {
    RoundHalfEvenUnique(1000, 3, 333);
  }

  // ---------------------------------------------------------------------------
  // Labels and the phase order
  // ---------------------------------------------------------------------------

  /** The chart label of a phase; distinct phases get distinct labels. */
  function FormatMoonPhase(phase: MoonPhase): (caption: string)
    ensures phase == NewMoon <==> caption == "New Moon"
    ensures phase == FirstQuarter <==> caption == "First Quarter"
    ensures phase == FullMoon <==> caption == "Full Moon"
    ensures phase == LastQuarter <==> caption == "Last Quarter"
  {
    match phase
    case NewMoon => "New Moon"
    case FirstQuarter => "First Quarter"
    case FullMoon => "Full Moon"
    case LastQuarter => "Last Quarter"
  }

  /** The chart label of a status; distinct statuses get distinct labels. */
  function FormatStatus(status: LaunchStatus): (caption: string)
    ensures status == Success <==> caption == "Success"
    ensures status == Failure <==> caption == "Failure"
    ensures status == Partial <==> caption == "Partial Success"
    ensures status == TBD <==> caption == "TBD"
  {
    match status
    case Success => "Success"
    case Failure => "Failure"
    case Partial => "Partial Success"
    case TBD => "TBD"
  }

  /** Sort position of a phase label: the phase's ordinal plus one, 5 for any other text. */
  function GetPhaseOrder(phase: string): (order: int)
    ensures 1 <= order <= 5
    ensures forall p :: phase == FormatMoonPhase(p) ==> order == PhaseOrdinal(p) + 1
    ensures order == 5 <==> forall p :: phase != FormatMoonPhase(p)
  {
    if phase == "New Moon" then assert phase == FormatMoonPhase(NewMoon); 1
    else if phase == "First Quarter" then assert phase == FormatMoonPhase(FirstQuarter); 2
    else if phase == "Full Moon" then assert phase == FormatMoonPhase(FullMoon); 3
    else if phase == "Last Quarter" then assert phase == FormatMoonPhase(LastQuarter); 4
    else 5
  }

  lemma FormatMoonPhaseInjective(p: MoonPhase, q: MoonPhase)
    ensures FormatMoonPhase(p) == FormatMoonPhase(q) ==> p == q
  {
  }

  lemma FormatStatusInjective(s: LaunchStatus, t: LaunchStatus)
    ensures FormatStatus(s) == FormatStatus(t) ==> s == t
  {
  }

  /** The name of month `month` (1 = January) from the injected table. */
  function GetMonthName(names: MonthNames, month: int): (name: string)
    requires 1 <= month <= 12
    ensures name in names
    ensures name == names[month - 1]
  {
    names[month - 1]
  }

  // ---------------------------------------------------------------------------
  // Nearest moon-phase event
  // ---------------------------------------------------------------------------

  /** Distance in ticks between an event's day and the instant `at`. */
  function EventDistance(event: MoonData, at: int): (d: nat)
    ensures d == MoonTicks(event) - at || d == at - MoonTicks(event)
    ensures d >= MoonTicks(event) - at && d >= at - MoonTicks(event)
    ensures d == 0 <==> MoonTicks(event) == at
  {
    Abs(MoonTicks(event) - at)
  }

  /** The distance of every event to `at`, in list order. */
  function Distances(events: seq<MoonData>, at: int): (ds: seq<nat>)
    ensures |ds| == |events|
  {
    seq(|events|, j requires 0 <= j < |events| => EventDistance(events[j], at))
  }

  /** Index `i` holds a least value of `ds`, and every earlier value is strictly greater. */
  predicate IsFirstMinimum(i: int, ds: seq<nat>)
  {
    && 0 <= i < |ds|
    && (forall j :: 0 <= j < |ds| ==> ds[i] <= ds[j])
    && (forall j :: 0 <= j < i ==> ds[j] > ds[i])
  }

  /**
   * The first element of `ds` ordered by value: a stable OrderBy keeps equal
   * values in list order, so FirstOrDefault picks the first least value.
   */
  function FirstMinimum(ds: seq<nat>): (i: nat)
    requires ds != []
    ensures IsFirstMinimum(i, ds)
  {
    if |ds| == 1 then 0
    else
      var n := |ds| - 1;
      var i := FirstMinimum(ds[..n]);
      assert forall j :: 0 <= j < n ==> ds[..n][j] == ds[j];
      if ds[n] < ds[i] then n else i
  }

  /** The index of the event FindClosestMoonPhase resolves to. */
  function ClosestIndex(at: int, events: seq<MoonData>): (i: nat)
    requires events != []
    ensures IsFirstMinimum(i, Distances(events, at))
  {
    FirstMinimum(Distances(events, at))
  }

  /** The phase of the event nearest to the launch; NewMoon when there are no events. */
  function FindClosestMoonPhase(launchDate: ValidDateTime, moonPhases: seq<MoonData>): (phase: MoonPhase)
    ensures moonPhases == [] ==> phase == NewMoon
    ensures moonPhases != [] ==>
      exists i :: IsFirstMinimum(i, Distances(moonPhases, launchDate.Ticks())) && phase == moonPhases[i].phase
  {
    if moonPhases == [] then NewMoon
    else moonPhases[ClosestIndex(launchDate.Ticks(), moonPhases)].phase
  }

  /**
   * The scan agrees with the source's query: the phase of the first event of
   * the stable `OrderBy` by distance, or NewMoon when there is none.
   */
  lemma ClosestIsOrderByHead(launchDate: ValidDateTime, events: seq<MoonData>)
    ensures var byDistance := Linq.OrderBy(events, m => EventDistance(m, launchDate.Ticks()));
      FindClosestMoonPhase(launchDate, events) == if byDistance == [] then NewMoon else byDistance[0].phase
  {
    var at := launchDate.Ticks();
    var key := (m: MoonData) => EventDistance(m, at) as int;
    if events == [] {
      assert Linq.OrderBy(events, key) == [];
    } else {
      var i := ClosestIndex(at, events);
      var ds := Distances(events, at);
      assert forall j :: 0 <= j < |events| ==> ds[j] == key(events[j]);
      Linq.OrderByHeadIsFirstLeast(events, key, i);
    }
  }

  /**
   * With the events in date order, the resolved event is nearest and, among
   * equally near events, the earliest.
   */
  lemma ClosestIsEarliestOfTies(at: int, events: seq<MoonData>)
    requires events != []
    requires Linq.SortedBy(events, MoonTicks)
    ensures var i := ClosestIndex(at, events);
      forall j :: 0 <= j < |events| ==>
        EventDistance(events[i], at) <= EventDistance(events[j], at)
        && (EventDistance(events[j], at) == EventDistance(events[i], at) ==> MoonTicks(events[i]) <= MoonTicks(events[j]))
  {
    var i := ClosestIndex(at, events);
    forall j | 0 <= j < |events|
      ensures EventDistance(events[i], at) <= EventDistance(events[j], at)
      ensures EventDistance(events[j], at) == EventDistance(events[i], at) ==> MoonTicks(events[i]) <= MoonTicks(events[j])
    {
      assert Distances(events, at)[j] == EventDistance(events[j], at);
      assert Distances(events, at)[i] == EventDistance(events[i], at);
    }
  }

  /**
   * Events on 2025-01-06 (New Moon), 2025-01-13 (First Quarter) and
   * 2025-01-21 (Full Moon): a launch at midnight of 2025-01-15 is two days from
   * the First Quarter and six from the Full Moon, and resolves to First Quarter.
   */
  lemma ResolverExample()
    ensures var events := [
        MoonData(0, NewMoon, DateTime(2025, 1, 6, 0), 2025),
        MoonData(0, FirstQuarter, DateTime(2025, 1, 13, 0), 2025),
        MoonData(0, FullMoon, DateTime(2025, 1, 21, 0), 2025)];
      FindClosestMoonPhase(DateTime(2025, 1, 15, 0), events) == FirstQuarter
  {
    var d6: ValidDateTime := DateTime(2025, 1, 6, 0);
    var d13: ValidDateTime := DateTime(2025, 1, 13, 0);
    var d15: ValidDateTime := DateTime(2025, 1, 15, 0);
    var d21: ValidDateTime := DateTime(2025, 1, 21, 0);
    var events := [MoonData(0, NewMoon, d6, 2025), MoonData(0, FirstQuarter, d13, 2025), MoonData(0, FullMoon, d21, 2025)];
    TicksFollowDays(d6, d15);
    TicksFollowDays(d13, d15);
    TicksFollowDays(d15, d21);
    var ds := Distances(events, d15.Ticks());
    assert ds[0] == 9 * TicksPerDay && ds[1] == 2 * TicksPerDay && ds[2] == 6 * TicksPerDay;
    var i := ClosestIndex(d15.Ticks(), events);
    assert i == 1;
  }

  // ---------------------------------------------------------------------------
  // Chart 1: success rate per moon phase
  // ---------------------------------------------------------------------------

  /** A launch paired with the phase of its nearest event. */
  datatype LaunchWithPhase = LaunchWithPhase(launch: RocketLaunch, moonPhase: MoonPhase)

  /** The year's launches ordered by launch time. */
  function OrderedLaunches(launches: seq<RocketLaunch>, year: int): seq<RocketLaunch>
  {
    Linq.OrderBy(LaunchesInYear(launches, year), LaunchTicks)
  }

  /** The year's moon-phase events ordered by date. */
  function OrderedMoonPhases(moonPhases: seq<MoonData>, year: int): seq<MoonData>
  {
    Linq.OrderBy(MoonPhasesInYear(moonPhases, year), MoonTicks)
  }

  function WithClosestPhase(launches: seq<RocketLaunch>, moonPhases: seq<MoonData>): seq<LaunchWithPhase>
  {
    seq(|launches|, i requires 0 <= i < |launches| =>
      LaunchWithPhase(launches[i], FindClosestMoonPhase(launches[i].launchDate, moonPhases)))
  }

  function PhasesOf(pairs: seq<LaunchWithPhase>): seq<MoonPhase>
  {
    seq(|pairs|, i requires 0 <= i < |pairs| => pairs[i].moonPhase)
  }

  /** Number of successful launches resolved to `phase`. */
  function SuccessfulCount(pairs: seq<LaunchWithPhase>, phase: MoonPhase): nat
  {
    if pairs == [] then 0
    else
      var last := pairs[|pairs| - 1];
      SuccessfulCount(pairs[..|pairs| - 1], phase)
        + (if last.moonPhase == phase && last.launch.status == Success then 1 else 0)
  }

  /** A group never has more successes than launches. */
  lemma {:induction false} SuccessfulAtMostTotal(pairs: seq<LaunchWithPhase>, phase: MoonPhase)
    ensures SuccessfulCount(pairs, phase) <= Linq.Count(PhasesOf(pairs), phase)
  {
    if pairs != [] {
      var init := pairs[..|pairs| - 1];
      assert PhasesOf(pairs)[..|pairs| - 1] == PhasesOf(init);
      SuccessfulAtMostTotal(init, phase);
    }
  }

  /** The row of the group of launches resolved to `phase`. */
  function PhaseRow(pairs: seq<LaunchWithPhase>, phase: MoonPhase): MoonPhaseSuccessRate
  {
    var total := Linq.Count(PhasesOf(pairs), phase);
    var successful := SuccessfulCount(pairs, phase);
    MoonPhaseSuccessRate(FormatMoonPhase(phase), CalculateSuccessRate(successful, total), total, successful)
  }

  function PhaseRows(pairs: seq<LaunchWithPhase>, keys: seq<MoonPhase>): seq<MoonPhaseSuccessRate>
  {
    seq(|keys|, i requires 0 <= i < |keys| => PhaseRow(pairs, keys[i]))
  }

  function PhaseOrderOf(row: MoonPhaseSuccessRate): int { GetPhaseOrder(row.moonPhase) }

  function TotalOf(row: MoonPhaseSuccessRate): int { row.totalLaunches }

  /** Group by resolved phase (groups in order of first appearance), one row per group, ordered by phase. */
  function PhaseChartRows(pairs: seq<LaunchWithPhase>): seq<MoonPhaseSuccessRate>
  {
    Linq.OrderBy(PhaseRows(pairs, Linq.Distinct(PhasesOf(pairs))), PhaseOrderOf)
  }

  /** GetSuccessRateByMoonPhaseAsync. */
  function GetSuccessRateByMoonPhase(year: int, launches: seq<RocketLaunch>, moonPhases: seq<MoonData>)
    : (chart: MoonPhaseSuccessChart)
    ensures chart.chartType == "bar" && chart.title == Some(SuccessRateTitle) && chart.year == year
    ensures LaunchesInYear(launches, year) == [] || MoonPhasesInYear(moonPhases, year) == [] ==> chart.data == []
  {
    var ls := OrderedLaunches(launches, year);
    var ms := OrderedMoonPhases(moonPhases, year);
    Linq.OrderBySorts(LaunchesInYear(launches, year), LaunchTicks);
    Linq.OrderBySorts(MoonPhasesInYear(moonPhases, year), MoonTicks);
    assert |ls| == |multiset(ls)| && |ms| == |multiset(ms)|;
    if ls == [] || ms == [] then
      ChartData("bar", Some(SuccessRateTitle), year, [])
    else
      ChartData("bar", Some(SuccessRateTitle), year, PhaseChartRows(WithClosestPhase(ls, ms)))
  }

  function LabelOf(row: MoonPhaseSuccessRate): string { row.moonPhase }

  /** The year's launches, in time order, each paired with its resolved phase. */
  function YearPairs(year: int, launches: seq<RocketLaunch>, moonPhases: seq<MoonData>): seq<LaunchWithPhase>
  {
    WithClosestPhase(OrderedLaunches(launches, year), OrderedMoonPhases(moonPhases, year))
  }

  lemma {:induction false} PhaseRowsTotal(pairs: seq<LaunchWithPhase>, keys: seq<MoonPhase>)
    ensures Linq.SumOf(PhaseRows(pairs, keys), TotalOf) == Linq.SumCounts(keys, PhasesOf(pairs))
  {
    if keys != [] {
      assert PhaseRows(pairs, keys)[1..] == PhaseRows(pairs, keys[1..]);
      PhaseRowsTotal(pairs, keys[1..]);
    }
  }

  /** The ordering and filtering of the two queries keep every row of the year. */
  lemma OrderedSizes(year: int, launches: seq<RocketLaunch>, moonPhases: seq<MoonData>)
    ensures |OrderedLaunches(launches, year)| == |LaunchesInYear(launches, year)|
    ensures |OrderedMoonPhases(moonPhases, year)| == |MoonPhasesInYear(moonPhases, year)|
    ensures Linq.SortedBy(OrderedMoonPhases(moonPhases, year), MoonTicks)
  {
    Linq.OrderBySorts(LaunchesInYear(launches, year), LaunchTicks);
    Linq.OrderBySorts(MoonPhasesInYear(moonPhases, year), MoonTicks);
    assert |OrderedLaunches(launches, year)| == |multiset(OrderedLaunches(launches, year))|;
    assert |OrderedMoonPhases(moonPhases, year)| == |multiset(OrderedMoonPhases(moonPhases, year))|;
  }

  /** The group facts of one row. */
  predicate IsPhaseGroupRow(row: MoonPhaseSuccessRate, pairs: seq<LaunchWithPhase>, p: MoonPhase)
  {
    && row.moonPhase == FormatMoonPhase(p)
    && row.totalLaunches == Linq.Count(PhasesOf(pairs), p) > 0
    && row.successfulLaunches == SuccessfulCount(pairs, p) <= row.totalLaunches
    && row.successRate == CalculateSuccessRate(row.successfulLaunches, row.totalLaunches)
  }

  lemma PhaseRowIsGroupRow(pairs: seq<LaunchWithPhase>, p: MoonPhase)
    requires p in PhasesOf(pairs)
    ensures IsPhaseGroupRow(PhaseRow(pairs, p), pairs, p)
  {
    SuccessfulAtMostTotal(pairs, p);
  }

  /** Each row of PhaseChartRows is the row of one phase some launch resolved to. */
  lemma PhaseChartRowIsGroup(pairs: seq<LaunchWithPhase>, i: int)
    requires 0 <= i < |PhaseChartRows(pairs)|
    ensures exists p :: p in PhasesOf(pairs) && PhaseChartRows(pairs)[i] == PhaseRow(pairs, p)
  {
    var keys := Linq.Distinct(PhasesOf(pairs));
    var rows := PhaseRows(pairs, keys);
    Linq.OrderBySorts(rows, PhaseOrderOf);
    assert PhaseChartRows(pairs)[i] in multiset(rows);
    var k :| 0 <= k < |rows| && rows[k] == PhaseChartRows(pairs)[i];
    assert keys[k] in keys;
  }

  /** The row of every phase some launch resolved to is in PhaseChartRows. */
  lemma PhaseChartRowOfPhase(pairs: seq<LaunchWithPhase>, p: MoonPhase)
    requires p in PhasesOf(pairs)
    ensures PhaseRow(pairs, p) in PhaseChartRows(pairs)
  {
    var keys := Linq.Distinct(PhasesOf(pairs));
    var rows := PhaseRows(pairs, keys);
    Linq.OrderBySorts(rows, PhaseOrderOf);
    var k :| 0 <= k < |keys| && keys[k] == p;
    assert rows[k] in multiset(PhaseChartRows(pairs));
  }

  lemma PhaseChartRowsAreGroups(pairs: seq<LaunchWithPhase>)
    ensures forall row :: row in PhaseChartRows(pairs) ==> exists p :: IsPhaseGroupRow(row, pairs, p)
  {
    forall row | row in PhaseChartRows(pairs) ensures exists p :: IsPhaseGroupRow(row, pairs, p) {
      var i :| 0 <= i < |PhaseChartRows(pairs)| && PhaseChartRows(pairs)[i] == row;
      PhaseChartRowIsGroup(pairs, i);
      var p :| p in PhasesOf(pairs) && row == PhaseRow(pairs, p);
      PhaseRowIsGroupRow(pairs, p);
    }
  }

  lemma PhaseChartRowsCoverPhases(pairs: seq<LaunchWithPhase>)
    ensures forall p :: p in PhasesOf(pairs) <==> FormatMoonPhase(p) in Labels(PhaseChartRows(pairs))
  {
    var data := PhaseChartRows(pairs);
    forall p | p in PhasesOf(pairs) ensures FormatMoonPhase(p) in Labels(data) {
      PhaseChartRowOfPhase(pairs, p);
      var i :| 0 <= i < |data| && data[i] == PhaseRow(pairs, p);
      assert Labels(data)[i] == FormatMoonPhase(p);
    }
    forall p | FormatMoonPhase(p) in Labels(data) ensures p in PhasesOf(pairs) {
      var i :| 0 <= i < |data| && Labels(data)[i] == FormatMoonPhase(p);
      PhaseChartRowIsGroup(pairs, i);
      var q :| q in PhasesOf(pairs) && data[i] == PhaseRow(pairs, q);
      FormatMoonPhaseInjective(p, q);
    }
  }

  function Labels(rows: seq<MoonPhaseSuccessRate>): seq<string>
  {
    seq(|rows|, i requires 0 <= i < |rows| => rows[i].moonPhase)
  }

  /** Rows of distinct phases carry distinct labels. */
  lemma PhaseRowsDistinctLabels(pairs: seq<LaunchWithPhase>, keys: seq<MoonPhase>)
    requires Linq.NoDuplicates(keys)
    ensures Linq.DistinctBy(PhaseRows(pairs, keys), LabelOf)
  {
    var rows := PhaseRows(pairs, keys);
    forall i, j | 0 <= i < j < |rows| ensures LabelOf(rows[i]) != LabelOf(rows[j]) {
      FormatMoonPhaseInjective(keys[i], keys[j]);
    }
  }

  /** Two different phase labels have different phase orders. */
  lemma LabelsOrderStrictly(a: MoonPhase, b: MoonPhase)
    requires FormatMoonPhase(a) != FormatMoonPhase(b)
    requires GetPhaseOrder(FormatMoonPhase(a)) <= GetPhaseOrder(FormatMoonPhase(b))
    ensures GetPhaseOrder(FormatMoonPhase(a)) < GetPhaseOrder(FormatMoonPhase(b))
  {
  }

  lemma PhaseChartRowsOrdered(pairs: seq<LaunchWithPhase>)
    ensures var data := PhaseChartRows(pairs);
      forall i, j :: 0 <= i < j < |data| ==> PhaseOrderOf(data[i]) < PhaseOrderOf(data[j])
  {
    var data := PhaseChartRows(pairs);
    var rows := PhaseRows(pairs, Linq.Distinct(PhasesOf(pairs)));
    Linq.OrderBySorts(rows, PhaseOrderOf);
    PhaseRowsDistinctLabels(pairs, Linq.Distinct(PhasesOf(pairs)));
    Linq.OrderByKeepsDistinct(rows, PhaseOrderOf, LabelOf);
    forall i, j | 0 <= i < j < |data| ensures PhaseOrderOf(data[i]) < PhaseOrderOf(data[j]) {
      assert PhaseOrderOf(data[i]) <= PhaseOrderOf(data[j]);
      assert LabelOf(data[i]) != LabelOf(data[j]);
      PhaseChartRowIsGroup(pairs, i);
      PhaseChartRowIsGroup(pairs, j);
      var p :| p in PhasesOf(pairs) && data[i] == PhaseRow(pairs, p);
      var q :| q in PhasesOf(pairs) && data[j] == PhaseRow(pairs, q);
      LabelsOrderStrictly(p, q);
    }
  }

  /** Sizes of the groups: rows over all groups add up to the number of launches. */
  lemma PhaseChartRowsTotal(pairs: seq<LaunchWithPhase>)
    ensures Linq.SumOf(PhaseChartRows(pairs), TotalOf) == |pairs|
  {
    var keys := Linq.Distinct(PhasesOf(pairs));
    var rows := PhaseRows(pairs, keys);
    Linq.SumOfOrderBy(rows, PhaseOrderOf, TotalOf);
    PhaseRowsTotal(pairs, keys);
    Linq.CountsPartition(keys, PhasesOf(pairs));
  }

  /** The data of chart 1 in terms of the year's resolved launches. */
  lemma SuccessRateData(year: int, launches: seq<RocketLaunch>, moonPhases: seq<MoonData>)
    ensures var data := GetSuccessRateByMoonPhase(year, launches, moonPhases).data;
      data == if MoonPhasesInYear(moonPhases, year) == [] then [] else PhaseChartRows(YearPairs(year, launches, moonPhases))
  {
    OrderedSizes(year, launches, moonPhases);
    if LaunchesInYear(launches, year) == [] && MoonPhasesInYear(moonPhases, year) != [] {
      assert YearPairs(year, launches, moonPhases) == [];
      assert PhasesOf([]) == [];
    }
  }

  /** The bars account for every launch of the year, once the year has moon-phase events. */
  lemma SuccessRateCoversYear(year: int, launches: seq<RocketLaunch>, moonPhases: seq<MoonData>)
    ensures Linq.SumOf(GetSuccessRateByMoonPhase(year, launches, moonPhases).data, TotalOf)
      == if MoonPhasesInYear(moonPhases, year) == [] then 0 else |LaunchesInYear(launches, year)|
  {
    SuccessRateData(year, launches, moonPhases);
    OrderedSizes(year, launches, moonPhases);
    PhaseChartRowsTotal(YearPairs(year, launches, moonPhases));
  }

  /**
   * Each bar is the group of one phase: its label, its size (at least one),
   * its successful launches (no more than its size) and its rounded rate;
   * and a phase has a bar exactly when some launch of the year resolves to it.
   */
  lemma SuccessRateRows(year: int, launches: seq<RocketLaunch>, moonPhases: seq<MoonData>)
    requires MoonPhasesInYear(moonPhases, year) != []
    ensures var data := GetSuccessRateByMoonPhase(year, launches, moonPhases).data;
      var pairs := YearPairs(year, launches, moonPhases);
      && (forall row :: row in data ==> exists p :: IsPhaseGroupRow(row, pairs, p))
      && (forall p :: p in PhasesOf(pairs) <==> FormatMoonPhase(p) in Labels(data))
  {
    SuccessRateData(year, launches, moonPhases);
    PhaseChartRowsAreGroups(YearPairs(year, launches, moonPhases));
    PhaseChartRowsCoverPhases(YearPairs(year, launches, moonPhases));
  }

  /** The bars follow the phase order New Moon, First Quarter, Full Moon, Last Quarter, each phase at most once. */
  lemma SuccessRateOrdered(year: int, launches: seq<RocketLaunch>, moonPhases: seq<MoonData>)
    ensures var data := GetSuccessRateByMoonPhase(year, launches, moonPhases).data;
      forall i, j :: 0 <= i < j < |data| ==> GetPhaseOrder(data[i].moonPhase) < GetPhaseOrder(data[j].moonPhase)
    ensures Linq.DistinctBy(GetSuccessRateByMoonPhase(year, launches, moonPhases).data, LabelOf)
  {
    SuccessRateData(year, launches, moonPhases);
    PhaseChartRowsOrdered(YearPairs(year, launches, moonPhases));
  }

  /** Phase orders of chart rows lie in 1..4. */
  lemma PhaseChartRowOrderRange(pairs: seq<LaunchWithPhase>)
    ensures forall row :: row in PhaseChartRows(pairs) ==> 1 <= PhaseOrderOf(row) <= 4
  {
    forall row | row in PhaseChartRows(pairs) ensures 1 <= PhaseOrderOf(row) <= 4 {
      var i :| 0 <= i < |PhaseChartRows(pairs)| && PhaseChartRows(pairs)[i] == row;
      PhaseChartRowIsGroup(pairs, i);
    }
  }

  /** A strictly increasing sequence of keys drawn from lo..hi has at most hi - lo + 1 elements. */
  lemma {:induction false} StrictlyIncreasingBound<T>(s: seq<T>, key: T -> int, lo: int, hi: int)
    requires lo <= hi + 1
    requires forall x :: x in s ==> lo <= key(x) <= hi
    requires forall i, j :: 0 <= i < j < |s| ==> key(s[i]) < key(s[j])
    ensures |s| <= hi - lo + 1
  {
    if s != [] {
      assert key(s[0]) >= lo;
      forall x | x in s[1..] ensures key(s[0]) + 1 <= key(x) <= hi {
        var k :| 0 <= k < |s[1..]| && s[1..][k] == x;
        assert s[k + 1] == x;
      }
      forall i, j | 0 <= i < j < |s[1..]| ensures key(s[1..][i]) < key(s[1..][j]) {
        assert s[1..][i] == s[i + 1] && s[1..][j] == s[j + 1];
      }
      StrictlyIncreasingBound(s[1..], key, key(s[0]) + 1, hi);
    }
  }

  /** With launches and events in the year there are between one and four bars. */
  lemma SuccessRateNonEmpty(year: int, launches: seq<RocketLaunch>, moonPhases: seq<MoonData>)
    requires LaunchesInYear(launches, year) != [] && MoonPhasesInYear(moonPhases, year) != []
    ensures 1 <= |GetSuccessRateByMoonPhase(year, launches, moonPhases).data| <= 4
  {
    SuccessRateCoversYear(year, launches, moonPhases);
    SuccessRateData(year, launches, moonPhases);
    var pairs := YearPairs(year, launches, moonPhases);
    PhaseChartRowsOrdered(pairs);
    PhaseChartRowOrderRange(pairs);
    StrictlyIncreasingBound(PhaseChartRows(pairs), PhaseOrderOf, 1, 4);
  }

  // ---------------------------------------------------------------------------
  // Chart 2: launch-status distribution
  // ---------------------------------------------------------------------------

  function StatusesOf(launches: seq<RocketLaunch>): seq<LaunchStatus>
  {
    seq(|launches|, i requires 0 <= i < |launches| => launches[i].status)
  }

  /** The slice of the launches with `status`: its label, size and share of all launches. */
  function StatusRow(launches: seq<RocketLaunch>, status: LaunchStatus): LaunchStatusDistribution
    requires launches != []
  {
    var count := Linq.Count(StatusesOf(launches), status);
    LaunchStatusDistribution(FormatStatus(status), count, PercentTenths(count, |launches|))
  }

  function StatusRows(launches: seq<RocketLaunch>, keys: seq<LaunchStatus>): seq<LaunchStatusDistribution>
    requires launches != []
  {
    seq(|keys|, i requires 0 <= i < |keys| => StatusRow(launches, keys[i]))
  }

  function CountOf(row: LaunchStatusDistribution): int { row.count }

  function NegatedCountOf(row: LaunchStatusDistribution): int { -row.count }

  function PercentageOf(row: LaunchStatusDistribution): int { row.percentage }

  function StatusLabelOf(row: LaunchStatusDistribution): string { row.status }

  /** Group by status (groups in order of first appearance), one slice per group, largest first. */
  function StatusChartRows(launches: seq<RocketLaunch>): seq<LaunchStatusDistribution>
    requires launches != []
  {
    Linq.OrderBy(StatusRows(launches, Linq.Distinct(StatusesOf(launches))), NegatedCountOf)
  }

  /** GetLaunchStatusDistributionAsync. */
  function GetLaunchStatusDistribution(year: int, launches: seq<RocketLaunch>): (chart: LaunchStatusChart)
    ensures chart.chartType == "pie" && chart.title == Some(StatusTitle) && chart.year == year
    ensures LaunchesInYear(launches, year) == [] <==> chart.data == []
  {
    var ls := LaunchesInYear(launches, year);
    if ls == [] then ChartData("pie", Some(StatusTitle), year, [])
    else
      assert StatusesOf(ls)[0] == ls[0].status;
      StatusChartRowOfStatus(ls, ls[0].status);
      ChartData("pie", Some(StatusTitle), year, StatusChartRows(ls))
  }

  /** The group facts of one slice. */
  predicate IsStatusGroupRow(row: LaunchStatusDistribution, launches: seq<RocketLaunch>, s: LaunchStatus)
    requires launches != []
  {
    && row.status == FormatStatus(s)
    && row.count == Linq.Count(StatusesOf(launches), s) > 0
    && IsRoundedHalfEven(1000 * row.count, |launches|, row.percentage)
    && 0 <= row.percentage <= 1000
  }

  lemma StatusRowIsGroupRow(launches: seq<RocketLaunch>, s: LaunchStatus)
    requires launches != [] && s in StatusesOf(launches)
    ensures IsStatusGroupRow(StatusRow(launches, s), launches, s)
  {
  }

  /** Each slice is the slice of one status some launch has. */
  lemma StatusChartRowIsGroup(launches: seq<RocketLaunch>, i: int)
    requires launches != [] && 0 <= i < |StatusChartRows(launches)|
    ensures exists s :: s in StatusesOf(launches) && StatusChartRows(launches)[i] == StatusRow(launches, s)
  {
    var keys := Linq.Distinct(StatusesOf(launches));
    var rows := StatusRows(launches, keys);
    Linq.OrderBySorts(rows, NegatedCountOf);
    assert StatusChartRows(launches)[i] in multiset(rows);
    var k :| 0 <= k < |rows| && rows[k] == StatusChartRows(launches)[i];
    assert keys[k] in keys;
  }

  /** The slice of every status some launch has is in the chart. */
  lemma StatusChartRowOfStatus(launches: seq<RocketLaunch>, s: LaunchStatus)
    requires launches != [] && s in StatusesOf(launches)
    ensures StatusRow(launches, s) in StatusChartRows(launches)
  {
    var keys := Linq.Distinct(StatusesOf(launches));
    var rows := StatusRows(launches, keys);
    Linq.OrderBySorts(rows, NegatedCountOf);
    var k :| 0 <= k < |keys| && keys[k] == s;
    assert rows[k] in multiset(StatusChartRows(launches));
  }

  lemma StatusChartRowsAreGroups(launches: seq<RocketLaunch>)
    requires launches != []
    ensures forall row :: row in StatusChartRows(launches) ==> exists s :: IsStatusGroupRow(row, launches, s)
  {
    forall row | row in StatusChartRows(launches) ensures exists s :: IsStatusGroupRow(row, launches, s) {
      var i :| 0 <= i < |StatusChartRows(launches)| && StatusChartRows(launches)[i] == row;
      StatusChartRowIsGroup(launches, i);
      var s :| s in StatusesOf(launches) && row == StatusRow(launches, s);
      StatusRowIsGroupRow(launches, s);
    }
  }

  function StatusLabels(rows: seq<LaunchStatusDistribution>): seq<string>
  {
    seq(|rows|, i requires 0 <= i < |rows| => rows[i].status)
  }

  lemma StatusChartRowsCoverStatuses(launches: seq<RocketLaunch>)
    requires launches != []
    ensures forall s :: s in StatusesOf(launches) <==> FormatStatus(s) in StatusLabels(StatusChartRows(launches))
  {
    var data := StatusChartRows(launches);
    forall s | s in StatusesOf(launches) ensures FormatStatus(s) in StatusLabels(data) {
      StatusChartRowOfStatus(launches, s);
      var i :| 0 <= i < |data| && data[i] == StatusRow(launches, s);
      assert StatusLabels(data)[i] == FormatStatus(s);
    }
    forall s | FormatStatus(s) in StatusLabels(data) ensures s in StatusesOf(launches) {
      var i :| 0 <= i < |data| && StatusLabels(data)[i] == FormatStatus(s);
      StatusChartRowIsGroup(launches, i);
      var t :| t in StatusesOf(launches) && data[i] == StatusRow(launches, t);
      FormatStatusInjective(s, t);
    }
  }

  lemma StatusRowsTotal(launches: seq<RocketLaunch>, keys: seq<LaunchStatus>)
    requires launches != []
    ensures Linq.SumOf(StatusRows(launches, keys), CountOf) == Linq.SumCounts(keys, StatusesOf(launches))
  {
    if keys != [] {
      assert StatusRows(launches, keys)[1..] == StatusRows(launches, keys[1..]);
      StatusRowsTotal(launches, keys[1..]);
    }
  }

  lemma StatusChartRowsTotal(launches: seq<RocketLaunch>)
    requires launches != []
    ensures Linq.SumOf(StatusChartRows(launches), CountOf) == |launches|
  {
    var keys := Linq.Distinct(StatusesOf(launches));
    Linq.SumOfOrderBy(StatusRows(launches, keys), NegatedCountOf, CountOf);
    StatusRowsTotal(launches, keys);
    Linq.CountsPartition(keys, StatusesOf(launches));
  }

  lemma StatusRowsDistinctLabels(launches: seq<RocketLaunch>, keys: seq<LaunchStatus>)
    requires launches != [] && Linq.NoDuplicates(keys)
    ensures Linq.DistinctBy(StatusRows(launches, keys), StatusLabelOf)
  {
    var rows := StatusRows(launches, keys);
    forall i, j | 0 <= i < j < |rows| ensures StatusLabelOf(rows[i]) != StatusLabelOf(rows[j]) {
      FormatStatusInjective(keys[i], keys[j]);
    }
  }

  /** Slices come largest first, and no status label appears twice. */
  lemma StatusChartRowsOrdered(launches: seq<RocketLaunch>)
    requires launches != []
    ensures var data := StatusChartRows(launches);
      forall i, j :: 0 <= i < j < |data| ==> data[i].count >= data[j].count
    ensures Linq.DistinctBy(StatusChartRows(launches), StatusLabelOf)
  {
    var data := StatusChartRows(launches);
    var keys := Linq.Distinct(StatusesOf(launches));
    Linq.OrderBySorts(StatusRows(launches, keys), NegatedCountOf);
    StatusRowsDistinctLabels(launches, keys);
    Linq.OrderByKeepsDistinct(StatusRows(launches, keys), NegatedCountOf, StatusLabelOf);
    forall i, j | 0 <= i < j < |data| ensures data[i].count >= data[j].count {
      assert NegatedCountOf(data[i]) <= NegatedCountOf(data[j]);
    }
  }

  /** The data of chart 2 in terms of the year's launches. */
  lemma StatusDistributionData(year: int, launches: seq<RocketLaunch>)
    ensures var ls := LaunchesInYear(launches, year);
      GetLaunchStatusDistribution(year, launches).data == if ls == [] then [] else StatusChartRows(ls)
  {
  }

  /**
   * Status distribution: one slice per status present in the year, labelled,
   * with its count (at least one) and its share rounded to tenths of a percent.
   */
  lemma StatusDistributionRows(year: int, launches: seq<RocketLaunch>)
    requires LaunchesInYear(launches, year) != []
    ensures var ls := LaunchesInYear(launches, year);
      var data := GetLaunchStatusDistribution(year, launches).data;
      && (forall row :: row in data ==> exists s :: IsStatusGroupRow(row, ls, s))
      && (forall s :: s in StatusesOf(ls) <==> FormatStatus(s) in StatusLabels(data))
  {
    StatusDistributionData(year, launches);
    StatusChartRowsAreGroups(LaunchesInYear(launches, year));
    StatusChartRowsCoverStatuses(LaunchesInYear(launches, year));
  }

  /** The slice counts add up to the number of launches in the year. */
  lemma StatusDistributionCoversYear(year: int, launches: seq<RocketLaunch>)
    ensures Linq.SumOf(GetLaunchStatusDistribution(year, launches).data, CountOf) == |LaunchesInYear(launches, year)|
  {
    StatusDistributionData(year, launches);
    if LaunchesInYear(launches, year) != [] {
      StatusChartRowsTotal(LaunchesInYear(launches, year));
    }
  }

  /** Slices are ordered by count, largest first, and each status label appears once. */
  lemma StatusDistributionOrdered(year: int, launches: seq<RocketLaunch>)
    ensures var data := GetLaunchStatusDistribution(year, launches).data;
      forall i, j :: 0 <= i < j < |data| ==> data[i].count >= data[j].count
    ensures Linq.DistinctBy(GetLaunchStatusDistribution(year, launches).data, StatusLabelOf)
  {
    StatusDistributionData(year, launches);
    if LaunchesInYear(launches, year) != [] {
      StatusChartRowsOrdered(LaunchesInYear(launches, year));
    }
  }

  /** One more slice adds its own rounding error, at most half of `total`. */
  lemma RoundingErrorStep(c: int, p: int, a: int, b: int, total: int, n: int)
    requires 2 * Abs(1000 * c - p * total) <= total
    requires 2 * Abs(1000 * a - b * total) <= n * total
    ensures 2 * Abs(1000 * (c + a) - (p + b) * total) <= (n + 1) * total
  {
    assert (p + b) * total == p * total + b * total;
    assert (n + 1) * total == n * total + total;
  }

  /**
   * Each share is off by at most half a tenth of a percent, so the scaled
   * shares of slices with counts adding up to `total` add up to 1000 * total
   * within half a `total` per slice.
   */
  lemma {:induction false} RoundedSharesError(rows: seq<LaunchStatusDistribution>, total: nat)
    requires total > 0
    requires forall row :: row in rows ==> IsRoundedHalfEven(1000 * row.count, total, row.percentage)
    ensures 2 * Abs(1000 * Linq.SumOf(rows, CountOf) - Linq.SumOf(rows, PercentageOf) * total) <= |rows| * total
  {
    if rows != [] {
      assert forall row :: row in rows[1..] ==> row in rows;
      RoundedSharesError(rows[1..], total);
      assert rows[0] in rows;
      RoundingErrorStep(rows[0].count, rows[0].percentage,
        Linq.SumOf(rows[1..], CountOf), Linq.SumOf(rows[1..], PercentageOf), total, |rows| - 1);
    }
  }

  lemma CancelPositiveFactor(a: int, b: int, n: int)
    requires n > 0 && a * n <= b * n
    ensures a <= b
  {
    if a > b {
      ProductAtLeast(a - b, n);
    }
  }

  lemma ScaledErrorCancels(sum: int, k: int, n: int)
    requires n > 0
    requires 2 * Abs(1000 * n - sum * n) <= k * n
    ensures 2 * Abs(sum - 1000) <= k
  {
    assert 1000 * n - sum * n == (1000 - sum) * n;
    assert 2 * Abs(1000 * n - sum * n) == (2 * Abs(sum - 1000)) * n;
    CancelPositiveFactor(2 * Abs(sum - 1000), k, n);
  }

  /** Every status is one of four. */
  const AllStatuses: seq<LaunchStatus> := [Success, Failure, Partial, TBD]

  lemma AllStatusesListsEach()
    ensures Linq.NoDuplicates(AllStatuses)
    ensures forall s :: s in AllStatuses
  {
    forall s ensures s in AllStatuses {
      match s
      case Success => assert AllStatuses[0] == s;
      case Failure => assert AllStatuses[1] == s;
      case Partial => assert AllStatuses[2] == s;
      case TBD => assert AllStatuses[3] == s;
    }
  }

  /** At most one slice per status. */
  lemma StatusChartRowsAtMostFour(launches: seq<RocketLaunch>)
    requires launches != []
    ensures |StatusChartRows(launches)| <= 4
  {
    var keys := Linq.Distinct(StatusesOf(launches));
    var rows := StatusRows(launches, keys);
    Linq.OrderBySorts(rows, NegatedCountOf);
    assert |StatusChartRows(launches)| == |multiset(StatusChartRows(launches))| == |multiset(rows)| == |keys|;
    AllStatusesListsEach();
    Linq.NoDuplicatesBound(keys, AllStatuses);
  }

  lemma StatusChartRowsRounded(launches: seq<RocketLaunch>)
    requires launches != []
    ensures forall row :: row in StatusChartRows(launches) ==>
      IsRoundedHalfEven(1000 * row.count, |launches|, row.percentage)
  {
    StatusChartRowsAreGroups(launches);
  }

  lemma StatusChartRowsShares(launches: seq<RocketLaunch>)
    requires launches != []
    ensures 2 * Abs(Linq.SumOf(StatusChartRows(launches), PercentageOf) - 1000) <= |StatusChartRows(launches)|
  {
    var data := StatusChartRows(launches);
    StatusChartRowsRounded(launches);
    StatusChartRowsTotal(launches);
    RoundedSharesError(data, |launches|);
    ScaledErrorCancels(Linq.SumOf(data, PercentageOf), |data|, |launches|);
  }

  /**
   * At most four slices, and the shares add up to 100 percent up to the
   * rounding of each slice: the sum is off by at most 0.05 percent per slice.
   */
  predicate SharesAddUp(data: seq<LaunchStatusDistribution>)
  {
    && |data| <= 4
    && 2 * Abs(Linq.SumOf(data, PercentageOf) - 1000) <= |data|
  }

  lemma StatusDistributionShares(year: int, launches: seq<RocketLaunch>)
    requires LaunchesInYear(launches, year) != []
    ensures SharesAddUp(GetLaunchStatusDistribution(year, launches).data)
  {
    var ls := LaunchesInYear(launches, year);
    StatusDistributionData(year, launches);
    assert SharesAddUp(StatusChartRows(ls)) by {
      StatusChartRowsAtMostFour(ls);
      StatusChartRowsShares(ls);
    }
  }

  // ---------------------------------------------------------------------------
  // Chart 3: launches per month
  // ---------------------------------------------------------------------------

  function MonthsOf(launches: seq<RocketLaunch>): seq<int>
  {
    seq(|launches|, i requires 0 <= i < |launches| => launches[i].launchDate.month)
  }

  /** Enumerable.Range(1, 12). */
  function MonthNumbers(): (ms: seq<int>)
    ensures |ms| == 12 && forall i :: 0 <= i < 12 ==> ms[i] == i + 1
  {
    seq(12, i requires 0 <= i < 12 => i + 1)
  }

  function TimelinePoint(names: MonthNames, launches: seq<RocketLaunch>, month: int): LaunchTimelinePoint
    requires 1 <= month <= 12
  {
    LaunchTimelinePoint(GetMonthName(names, month), month, Linq.Count(MonthsOf(launches), month))
  }

  function TimelinePoints(names: MonthNames, launches: seq<RocketLaunch>, months: seq<int>): seq<LaunchTimelinePoint>
    requires forall i :: 0 <= i < |months| ==> 1 <= months[i] <= 12
  {
    seq(|months|, i requires 0 <= i < |months| => TimelinePoint(names, launches, months[i]))
  }

  function LaunchCountOf(point: LaunchTimelinePoint): int { point.launchCount }

  /** GetLaunchTimelineAsync: twelve points, January to December, even for a year without launches. */
  function GetLaunchTimeline(year: int, launches: seq<RocketLaunch>, names: MonthNames): (chart: LaunchTimelineChart)
    ensures chart.chartType == "line" && chart.title == Some(TimelineTitle) && chart.year == year
    ensures |chart.data| == 12
    ensures forall i :: 0 <= i < 12 ==> chart.data[i].monthNumber == i + 1 && chart.data[i].month == names[i]
    ensures forall i :: 0 <= i < 12 ==> chart.data[i].launchCount >= 0
  {
    ChartData("line", Some(TimelineTitle), year, TimelinePoints(names, LaunchesInYear(launches, year), MonthNumbers()))
  }

  /** A month count is 0 exactly when no launch falls in that month. */
  lemma MonthCountZero(ls: seq<RocketLaunch>, month: int)
    ensures Linq.Count(MonthsOf(ls), month) == 0 <==> forall l :: l in ls ==> l.launchDate.month != month
  {
    if exists l :: l in ls && l.launchDate.month == month {
      var l :| l in ls && l.launchDate.month == month;
      var k :| 0 <= k < |ls| && ls[k] == l;
      assert MonthsOf(ls)[k] == month;
    }
    if month in MonthsOf(ls) {
      var k :| 0 <= k < |ls| && MonthsOf(ls)[k] == month;
      assert ls[k] in ls;
    }
  }

  /** A point counts exactly the launches of the year in its month; it is 0 exactly when there are none. */
  lemma TimelineCounts(year: int, launches: seq<RocketLaunch>, names: MonthNames, i: int)
    requires 0 <= i < 12
    ensures var count := GetLaunchTimeline(year, launches, names).data[i].launchCount;
      && count == Linq.Count(MonthsOf(LaunchesInYear(launches, year)), i + 1)
      && (count == 0 <==> forall l :: l in launches && l.launchDate.year == year ==> l.launchDate.month != i + 1)
  {
    var ls := LaunchesInYear(launches, year);
    assert GetLaunchTimeline(year, launches, names).data[i].launchCount == Linq.Count(MonthsOf(ls), i + 1);
    MonthCountZero(ls, i + 1);
  }

  lemma {:induction false} TimelinePointsTotal(names: MonthNames, launches: seq<RocketLaunch>, months: seq<int>)
    requires forall i :: 0 <= i < |months| ==> 1 <= months[i] <= 12
    ensures Linq.SumOf(TimelinePoints(names, launches, months), LaunchCountOf) == Linq.SumCounts(months, MonthsOf(launches))
  {
    if months != [] {
      var rest := months[1..];
      assert forall i :: 0 <= i < |rest| ==> rest[i] == months[i + 1];
      TimelinePointsTotal(names, launches, rest);
      assert TimelinePoints(names, launches, months)[1..] == TimelinePoints(names, launches, rest);
    }
  }

  /** The monthly counts add up to the number of launches in the year. */
  lemma TimelineCoversYear(year: int, launches: seq<RocketLaunch>, names: MonthNames)
    ensures Linq.SumOf(GetLaunchTimeline(year, launches, names).data, LaunchCountOf) == |LaunchesInYear(launches, year)|
  {
    var ls := LaunchesInYear(launches, year);
    var months := MonthNumbers();
    TimelinePointsTotal(names, ls, months);
    assert Linq.NoDuplicates(months);
    forall m | m in MonthsOf(ls) ensures m in months {
      var k :| 0 <= k < |ls| && MonthsOf(ls)[k] == m;
      assert ls[k].launchDate.Valid();
      assert months[m - 1] == m;
    }
    Linq.CountsPartition(months, MonthsOf(ls));
  }
}
