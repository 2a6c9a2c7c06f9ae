/**
 * The launch ingestion service: classification of a Launch Library 2 status
 * name, conversion of an API launch into a record, the list of selectable
 * years, the collection of launches over result pages and the store rule
 * that fetches a year only when it has no launches yet.
 *
 * The network is not modelled: the response of each page request, in the
 * order the requests are made, is an input.
 */
module RocketLaunchIngest {
  import opened Wrappers
  import opened Models
  import opened Text
  import Linq
  import opened ChartAnalysis

  // ---------------------------------------------------------------------------
  // Status classification
  // ---------------------------------------------------------------------------

  /** The status name lowercased contains "success" but not "partial". */
  predicate NamesSuccess(lower: string)
  {
    Contains(lower, "success") && !Contains(lower, "partial")
  }

  /**
   * MapStatusToEnum: "contains" tests on the lowercased name, in order; the
   * first that holds decides, and a name none of them matches is TBD.
   */
  function MapStatusToEnum(statusName: string): (status: LaunchStatus)
    ensures var lower := ToLower(statusName);
      && (status == Success <==> NamesSuccess(lower))
      && (status == Failure <==> !NamesSuccess(lower) && Contains(lower, "fail"))
      && (status == Partial <==> Contains(lower, "partial") && !Contains(lower, "fail"))
      && (status == TBD <==> !Contains(lower, "success") && !Contains(lower, "fail") && !Contains(lower, "partial"))
  {
    var lower := ToLower(statusName);
    FailureContainsFail(lower);
    if NamesSuccess(lower) then Success
    else if Contains(lower, "failure") || Contains(lower, "fail") then Failure
    else if Contains(lower, "partial") then Partial
    else TBD
  }

  lemma FailureContainsFail(s: string)
    ensures Contains(s, "failure") ==> Contains(s, "fail")
  {
    if Contains(s, "failure") {
      ContainsPrefixOf(s, "fail", "failure");
    }
  }

  /** A name with none of the three words, such as "TBD" itself, is TBD. */
  lemma TbdIsTbd()
    ensures MapStatusToEnum("TBD") == TBD
  {
    assert ToLower("TBD") == "tbd";
    ShorterDoesNotContain("tbd", "success");
    ShorterDoesNotContain("tbd", "fail");
    ShorterDoesNotContain("tbd", "partial");
  }

  /** Classification ignores the case of ASCII letters. */
  lemma MapStatusIgnoresCase(statusName: string)
    ensures MapStatusToEnum(ToLower(statusName)) == MapStatusToEnum(statusName)
  {
    ToLowerIdempotent(statusName);
  }

  /** The chart label of every status classifies back to that status. */
  lemma MapStatusOfLabel(status: LaunchStatus)
    ensures MapStatusToEnum(FormatStatus(status)) == status
  {
    match status
    case Success => SuccessLabelIsSuccess();
    case Failure => FailureLabelIsFailure();
    case Partial => PartialLabelIsPartial();
    case TBD => TbdIsTbd();
  }

  lemma SuccessLabelIsSuccess()
    ensures MapStatusToEnum("Success") == Success
  {
    assert ToLower("Success") == "success";
    ContainsAt("success", "success", 0);
    MissingFirstChar("success", "partial");
  }

  lemma FailureLabelIsFailure()
    ensures MapStatusToEnum("Failure") == Failure
  {
    assert ToLower("Failure") == "failure";
    ContainsAt("failure", "fail", 0);
  }

  lemma PartialLabelIsPartial()
    ensures MapStatusToEnum("Partial Success") == Partial
  {
    var name := "Partial Success";
    var lower := ToLower(name);
    assert lower[..7] == "partial";
    ContainsAt(lower, "partial", 0);
    LowerKeepsMissing(name, 'f');
    MissingFirstChar(lower, "fail");
  }

  /** "Partial Failure", one of the documented status names, is classified as a failure. */
  lemma PartialFailureIsFailure()
    ensures MapStatusToEnum("Partial Failure") == Failure
  {
    var lower := ToLower("Partial Failure");
    assert lower == "partial failure";
    assert lower[8..12] == "fail";
    ContainsAt(lower, "fail", 8);
  }

  // ---------------------------------------------------------------------------
  // API launch → record
  // ---------------------------------------------------------------------------

  // The names are declared non-null with an empty default, but a JSON null
  // still sets them to null; `None` stands for that.

  datatype LaunchStatusResult = LaunchStatusResult(id: int, name: Option<string>)

  datatype LaunchServiceProvider = LaunchServiceProvider(name: Option<string>)

  datatype RocketConfiguration = RocketConfiguration(name: Option<string>)

  datatype RocketInfo = RocketInfo(configuration: Option<RocketConfiguration>)

  /** One launch of a result page; the nested objects may be null. */
  datatype LaunchResult = LaunchResult(
    id: string,
    name: string,
    launchDate: ValidDateTime,
    status: Option<LaunchStatusResult>,
    agency: Option<LaunchServiceProvider>,
    rocket: Option<RocketInfo>)

  /** A result page: the URL of the next page, if any, and the launches (null when absent). */
  datatype LaunchLibraryResponse = LaunchLibraryResponse(next: Option<string>, results: Option<seq<LaunchResult>>)

  function StatusNameOf(r: LaunchResult): string
  {
    if r.status.Some? then r.status.value.name.GetOr("TBD") else "TBD"
  }

  function AgencyNameOf(r: LaunchResult): string
  {
    if r.agency.Some? then r.agency.value.name.GetOr("Unknown") else "Unknown"
  }

  function RocketTypeOf(r: LaunchResult): string
  {
    if r.rocket.Some? && r.rocket.value.configuration.Some? then r.rocket.value.configuration.value.name.GetOr("Unknown") else "Unknown"
  }

  /** The record built from an API launch; the database assigns the id later (0 here). */
  function ToRocketLaunch(r: LaunchResult): (l: RocketLaunch)
    ensures l.externalId == Some(r.id) && l.name == r.name && l.launchDate == r.launchDate
    ensures l.status == MapStatusToEnum(StatusNameOf(r))
    ensures r.status.None? || r.status.value.name.None? ==> l.status == TBD
    ensures r.agency.None? || r.agency.value.name.None? ==> l.agency == "Unknown"
    ensures r.agency.Some? && r.agency.value.name.Some? ==> l.agency == r.agency.value.name.value
    ensures r.rocket.None? || r.rocket.value.configuration.None? || r.rocket.value.configuration.value.name.None? ==>
      l.rocketType == "Unknown"
    ensures r.rocket.Some? && r.rocket.value.configuration.Some? && r.rocket.value.configuration.value.name.Some? ==>
      l.rocketType == r.rocket.value.configuration.value.name.value
    ensures l.moonPhaseId.None?
  {
    TbdIsTbd();
    RocketLaunch(0, r.name, r.launchDate, MapStatusToEnum(StatusNameOf(r)), AgencyNameOf(r), RocketTypeOf(r), Some(r.id), None)
  }

  function ToRocketLaunches(results: seq<LaunchResult>): (ls: seq<RocketLaunch>)
    ensures |ls| == |results|
    ensures forall i :: 0 <= i < |results| ==> ls[i] == ToRocketLaunch(results[i])
  {
    seq(|results|, i requires 0 <= i < |results| => ToRocketLaunch(results[i]))
  }

  // ---------------------------------------------------------------------------
  // Available years
  // ---------------------------------------------------------------------------

  /** The first year the list falls back to. */
  const FirstLaunchYear: int := 1957

  /** The years from `newest` down to `oldest`. */
  function YearsDescending(oldest: int, newest: int): (years: seq<int>)
    requires oldest <= newest + 1
    ensures |years| == newest - oldest + 1
    ensures forall i, j :: 0 <= i < j < |years| ==> years[i] > years[j]
    ensures years != [] ==> years[0] == newest && years[|years| - 1] == oldest
  {
    seq(newest - oldest + 1, i requires 0 <= i <= newest - oldest => newest - i)
  }

  /** The list holds exactly the years from `oldest` to `newest`. */
  lemma YearsDescendingMembers(oldest: int, newest: int)
    requires oldest <= newest + 1
    ensures forall y :: y in YearsDescending(oldest, newest) <==> oldest <= y <= newest
  {
    var years := YearsDescending(oldest, newest);
    forall y | oldest <= y <= newest ensures y in years {
      assert years[newest - y] == y;
    }
  }

  /**
   * Enumerable.Range(start, count) ordered descending: the error of a negative
   * count is the ArgumentOutOfRangeException Range throws.
   */
  function RangeDescending(start: int, count: int): (r: Result<seq<int>, string>)
    ensures r.Ok? <==> count >= 0
    ensures r.Ok? ==> r.value == YearsDescending(start, start + count - 1)
  {
    if count < 0 then Err("count is less than 0") else Ok(YearsDescending(start, start + count - 1))
  }

  /**
   * GetAvailableYearsAsync with the query for the oldest launch as input:
   * Err when that request or its parsing failed, Ok(None) when it found no
   * launch, Ok(Some(y)) when the oldest launch is in year y. A failure in the
   * first attempt falls back to the years from 1957; a failure of the fallback
   * is not caught.
   */
  function GetAvailableYears(oldestQuery: Result<Option<int>, string>, currentYear: int): (r: Result<seq<int>, string>)
    ensures var oldest := if oldestQuery.Ok? && oldestQuery.value.Some? then oldestQuery.value.value else FirstLaunchYear;
      && (oldestQuery.Ok? && oldest <= currentYear + 1 ==> r == Ok(YearsDescending(oldest, currentYear)))
      && (!(oldestQuery.Ok? && oldest <= currentYear + 1) && FirstLaunchYear <= currentYear + 1 ==>
            r == Ok(YearsDescending(FirstLaunchYear, currentYear)))
      && (r.Err? <==> !(oldestQuery.Ok? && oldest <= currentYear + 1) && currentYear + 1 < FirstLaunchYear)
  {
    var fallback := RangeDescending(FirstLaunchYear, currentYear - FirstLaunchYear + 1);
    match oldestQuery
    case Err(_) => fallback
    case Ok(found) =>
      var oldest := found.GetOr(FirstLaunchYear);
      var years := RangeDescending(oldest, currentYear - oldest + 1);
      if years.Ok? then years else fallback
  }

  /** A missing oldest launch counts as 1957: the list runs from this year down to 1957. */
  lemma AvailableYearsDefault(currentYear: int)
    requires currentYear >= FirstLaunchYear
    ensures var r := GetAvailableYears(Ok(None), currentYear);
      && r.Ok? && |r.value| == currentYear - FirstLaunchYear + 1
      && r.value[0] == currentYear && r.value[|r.value| - 1] == FirstLaunchYear
  {
  }

  // ---------------------------------------------------------------------------
  // Collecting the launches of all result pages
  // ---------------------------------------------------------------------------

  /** A page whose results are null or empty ends the collection. */
  predicate EndsCollection(page: Option<LaunchLibraryResponse>)
  {
    page.None? || page.value.results.None? || page.value.results.value == []
  }

  /** A page with launches leads on when it names a non-empty next URL. */
  predicate HasNext(page: LaunchLibraryResponse)
  {
    page.next.Some? && page.next.value != ""
  }

  function PageLaunches(page: Option<LaunchLibraryResponse>): seq<RocketLaunch>
    requires !EndsCollection(page)
  {
    ToRocketLaunches(page.value.results.value)
  }

  /**
   * The launches of the pages the loop reads, in order. `responses[k]` is
   * the parsed body of the k-th request (None for a null body); a request
   * the loop makes beyond the given responses is a failed request.
   */
  function Harvest(responses: seq<Option<LaunchLibraryResponse>>): (r: Result<seq<RocketLaunch>, string>)
  {
    if responses == [] then Err("request failed")
    else if EndsCollection(responses[0]) then Ok([])
    else if !HasNext(responses[0].value) then Ok(PageLaunches(responses[0]))
    else
      match Harvest(responses[1..])
      case Ok(rest) => Ok(PageLaunches(responses[0]) + rest)
      case Err(e) => Err(e)
  }

  /** A prefix of collected launches followed by the outcome of the remaining pages. */
  function Then(collected: seq<RocketLaunch>, rest: Result<seq<RocketLaunch>, string>): Result<seq<RocketLaunch>, string>
  {
    match rest
    case Ok(more) => Ok(collected + more)
    case Err(e) => Err(e)
  }

  lemma ThenAssociates(a: seq<RocketLaunch>, b: seq<RocketLaunch>, rest: Result<seq<RocketLaunch>, string>)
    ensures Then(a, Then(b, rest)) == Then(a + b, rest)
  {
    if rest.Ok? {
      assert a + (b + rest.value) == (a + b) + rest.value;
    }
  }

  /** Every page has launches. */
  predicate AllHaveResults(pages: seq<Option<LaunchLibraryResponse>>)
  {
    forall i :: 0 <= i < |pages| ==> !EndsCollection(pages[i])
  }

  /** The launches of pages that all have results, page after page. */
  function LaunchesOfPages(pages: seq<Option<LaunchLibraryResponse>>): seq<RocketLaunch>
    requires AllHaveResults(pages)
  {
    if pages == [] then [] else PageLaunches(pages[0]) + LaunchesOfPages(pages[1..])
  }

  /**
   * When pages 0..n all have launches, each before n names a next page and
   * page n does not, the collection succeeds with every launch of those
   * pages, in order.
   */
  lemma {:induction false} HarvestCollectsPages(responses: seq<Option<LaunchLibraryResponse>>, n: nat)
    requires n < |responses|
    requires forall i :: 0 <= i < n ==> !EndsCollection(responses[i]) && HasNext(responses[i].value)
    requires !EndsCollection(responses[n]) && !HasNext(responses[n].value)
    ensures AllHaveResults(responses[..n + 1])
    ensures Harvest(responses) == Ok(LaunchesOfPages(responses[..n + 1]))
  {
    var pages := responses[..n + 1];
    assert forall i :: 0 <= i < |pages| ==> pages[i] == responses[i];
    assert pages[0] == responses[0];
    if n == 0 {
      assert LaunchesOfPages(pages[1..]) == [];
      assert PageLaunches(responses[0]) + [] == PageLaunches(responses[0]);
    } else {
      var rest := responses[1..];
      forall i | 0 <= i < n - 1 ensures !EndsCollection(rest[i]) && HasNext(rest[i].value) {
        assert rest[i] == responses[i + 1];
      }
      assert rest[n - 1] == responses[n];
      HarvestCollectsPages(rest, n - 1);
      assert rest[..n] == pages[1..];
    }
  }

  /**
   * When every given page has launches and names a next page, the loop asks
   * for one page more than it was given, and that request fails.
   */
  lemma {:induction false} HarvestFailsPastLastResponse(responses: seq<Option<LaunchLibraryResponse>>)
    requires forall i :: 0 <= i < |responses| ==> !EndsCollection(responses[i]) && HasNext(responses[i].value)
    ensures Harvest(responses).Err?
  {
    if responses != [] {
      var rest := responses[1..];
      forall i | 0 <= i < |rest| ensures !EndsCollection(rest[i]) && HasNext(rest[i].value) {
        assert rest[i] == responses[i + 1];
      }
      HarvestFailsPastLastResponse(rest);
    }
  }

  /**
   * The page loop of FetchAndSaveLaunchesAsync: follow the next URLs, append
   * the records of each page, stop at a page without launches or without a
   * next URL; a failed request aborts the whole collection.
   */
  method CollectLaunches(responses: seq<Option<LaunchLibraryResponse>>) returns (r: Result<seq<RocketLaunch>, string>)
    ensures r == Harvest(responses)
  {
    var allLaunches: seq<RocketLaunch> := [];
    var k := 0;
    var hasUrl := true;
    assert responses[0..] == responses;
    assert Then([], Harvest(responses)) == Harvest(responses) by {
      if Harvest(responses).Ok? {
        assert [] + Harvest(responses).value == Harvest(responses).value;
      }
    }
    while hasUrl
      invariant 0 <= k <= |responses|
      invariant hasUrl ==> Harvest(responses) == Then(allLaunches, Harvest(responses[k..]))
      invariant !hasUrl ==> Harvest(responses) == Ok(allLaunches)
      decreases |responses| - k, hasUrl
    {
      if k == |responses| {
        return Err("request failed");
      }
      var page := responses[k];
      if EndsCollection(page) {
        assert allLaunches + [] == allLaunches;
        hasUrl := false;
      } else {
        var pageLaunches := ToRocketLaunches(page.value.results.value);
        ThenAssociates(allLaunches, pageLaunches, Harvest(responses[k + 1..]));
        assert responses[k..][1..] == responses[k + 1..];
        allLaunches := allLaunches + pageLaunches;
        hasUrl := HasNext(page.value);
        k := k + 1;
      }
    }
    return Ok(allLaunches);
  }

  // ---------------------------------------------------------------------------
  // The launch store
  // ---------------------------------------------------------------------------

  /** The RocketLaunches table. */
  class LaunchStore {
    var launches: seq<RocketLaunch>

    constructor(initial: seq<RocketLaunch>)
      ensures launches == initial
    {
      launches := initial;
    }

    /** GetLaunchesForYearAsync: the launches of the year ordered by launch time. */
    function LaunchesForYear(year: int): (r: seq<RocketLaunch>)
      reads this
      ensures Linq.SortedBy(r, LaunchTicks)
      ensures multiset(r) == multiset(LaunchesInYear(launches, year))
    {
      Linq.OrderBySorts(LaunchesInYear(launches, year), LaunchTicks);
      Linq.OrderBy(LaunchesInYear(launches, year), LaunchTicks)
    }

    /**
     * FetchAndSaveLaunchesAsync. A year that already has launches is
     * returned as stored and nothing is fetched. Otherwise the request URL is
     * built from 1 January and 31 December of the year, which fails for a
     * year outside 1..9999 before any request; for any other year the pages
     * are collected and, when the collection succeeds with at least one
     * launch, appended to the store.
     */
    method FetchAndSave(year: int, responses: seq<Option<LaunchLibraryResponse>>)
      returns (r: Result<seq<RocketLaunch>, string>)
      modifies this
      ensures var existing := LaunchesInYear(old(launches), year);
        existing != [] ==> r == Ok(existing) && launches == old(launches)
      ensures LaunchesInYear(old(launches), year) == [] && !(1 <= year <= 9999) ==> r.Err?
      ensures LaunchesInYear(old(launches), year) == [] && 1 <= year <= 9999 ==> r == Harvest(responses)
      ensures r.Ok? && LaunchesInYear(old(launches), year) == [] ==> launches == old(launches) + r.value
      ensures r.Err? ==> launches == old(launches)
    {
      var existing := LaunchesInYear(launches, year);
      if existing != [] {
        return Ok(existing);
      }
      if NewDate(year, 1, 1).None? || NewDate(year, 12, 31).None? {
        return Err("year out of range");
      }
      r := CollectLaunches(responses);
      if r.Ok? && r.value != [] {
        launches := launches + r.value;
      }
    }
  }
}
