/**
 * The moon-phase ingestion service: parsing of a phase name, conversion of
 * the provider's phase entries into records and the store rule that fetches
 * a year only when it has no phases yet. The provider's answer is an input.
 */
module MoonDataIngest {
  import opened Wrappers
  import opened Models
  import opened Text
  import opened ChartAnalysis

  /** MapPhaseStringToEnum: one of the four lowercased phase names, anything else is an error. */
  function MapPhaseStringToEnum(phaseString: string): (r: Result<MoonPhase, string>)
    ensures var lower := ToLower(phaseString);
      && (r == Ok(NewMoon) <==> lower == "new moon")
      && (r == Ok(FirstQuarter) <==> lower == "first quarter")
      && (r == Ok(FullMoon) <==> lower == "full moon")
      && (r == Ok(LastQuarter) <==> lower == "last quarter")
      && (r.Err? <==> lower !in ["new moon", "first quarter", "full moon", "last quarter"])
  {
    var lower := ToLower(phaseString);
    if lower == "new moon" then Ok(NewMoon)
    else if lower == "first quarter" then Ok(FirstQuarter)
    else if lower == "full moon" then Ok(FullMoon)
    else if lower == "last quarter" then Ok(LastQuarter)
    else Err("Unknown moon phase: " + phaseString)
  }

  /** Parsing ignores the case of ASCII letters (only the error message keeps the original text). */
  lemma MapPhaseIgnoresCase(phaseString: string)
    ensures MapPhaseStringToEnum(ToLower(phaseString)).Ok? == MapPhaseStringToEnum(phaseString).Ok?
    ensures MapPhaseStringToEnum(phaseString).Ok? ==>
      MapPhaseStringToEnum(ToLower(phaseString)).value == MapPhaseStringToEnum(phaseString).value
  {
    ToLowerIdempotent(phaseString);
  }

  /** The chart label of every phase parses back to that phase. */
  lemma MapPhaseOfLabel(phase: MoonPhase)
    ensures MapPhaseStringToEnum(FormatMoonPhase(phase)) == Ok(phase)
  {
    match phase
    case NewMoon => assert ToLower("New Moon") == "new moon";
    case FirstQuarter => assert ToLower("First Quarter") == "first quarter";
    case FullMoon => assert ToLower("Full Moon") == "full moon";
    case LastQuarter => assert ToLower("Last Quarter") == "last quarter";
  }

  /** One entry of the provider's phase list. */
  datatype MoonPhaseData = MoonPhaseData(year: int, month: int, day: int, phase: string, time: Option<string>)

  /** The provider's answer: the phase list may be null. */
  datatype MoonApiResponse = MoonApiResponse(year: int, phaseData: Option<seq<MoonPhaseData>>)

  /**
   * The record for one entry, filed under the requested `year`, at midnight of
   * the entry's own date. The phase is parsed first, then the date is built;
   * either can fail.
   */
  function ToMoonData(entry: MoonPhaseData, year: int): (r: Result<MoonData, string>)
    ensures r.Ok? <==> MapPhaseStringToEnum(entry.phase).Ok? && IsValidDate(entry.year, entry.month, entry.day)
    ensures r.Ok? ==> r.value == MoonData(0, MapPhaseStringToEnum(entry.phase).value, DateTime(entry.year, entry.month, entry.day, 0), year)
  {
    match MapPhaseStringToEnum(entry.phase)
    case Err(e) => Err(e)
    case Ok(phase) =>
      match NewDate(entry.year, entry.month, entry.day)
      case None => Err("invalid date")
      case Some(date) => Ok(MoonData(0, phase, date, year))
  }

  /** The entry list converted in order; the first entry that fails makes the whole conversion fail. */
  function ConvertPhases(entries: seq<MoonPhaseData>, year: int): (r: Result<seq<MoonData>, string>)
    ensures r.Ok? ==> |r.value| == |entries|
  {
    if entries == [] then Ok([])
    else
      match ToMoonData(entries[0], year)
      case Err(e) => Err(e)
      case Ok(first) =>
        match ConvertPhases(entries[1..], year)
        case Err(e) => Err(e)
        case Ok(rest) => Ok([first] + rest)
  }

  /**
   * The conversion succeeds exactly when every entry converts, and then keeps
   * length and order: record i is the conversion of entry i, filed under
   * `year` whatever the entry's own year.
   */
  lemma {:induction false} ConvertPhasesPointwise(entries: seq<MoonPhaseData>, year: int)
    ensures ConvertPhases(entries, year).Ok? <==> forall i :: 0 <= i < |entries| ==> ToMoonData(entries[i], year).Ok?
    ensures ConvertPhases(entries, year).Ok? ==>
      forall i :: 0 <= i < |entries| ==>
        && ConvertPhases(entries, year).value[i] == ToMoonData(entries[i], year).value
        && ConvertPhases(entries, year).value[i].year == year
  {
    if entries != [] {
      ConvertPhasesPointwise(entries[1..], year);
      assert forall i :: 1 <= i < |entries| ==> entries[1..][i - 1] == entries[i];
    }
  }

  /** The MoonPhases table. */
  class MoonStore {
    var phases: seq<MoonData>

    constructor(initial: seq<MoonData>)
      ensures phases == initial
    {
      phases := initial;
    }

    /**
     * FetchAndSaveMoonPhasesAsync. `response` is the provider's answer for
     * the year: Err when the request or its parsing failed. A year that
     * already has phases is returned as stored; a null phase list yields no
     * phases; otherwise every entry is converted and, only when all convert,
     * the records are appended.
     */
    method FetchAndSave(year: int, response: Result<Option<MoonApiResponse>, string>)
      returns (r: Result<seq<MoonData>, string>)
      modifies this
      ensures var existing := MoonPhasesInYear(old(phases), year);
        existing != [] ==> r == Ok(existing) && phases == old(phases)
      ensures MoonPhasesInYear(old(phases), year) == [] ==>
        r == (match response
              case Err(e) => Err(e)
              case Ok(body) =>
                if body.None? || body.value.phaseData.None? then Ok([])
                else ConvertPhases(body.value.phaseData.value, year))
      ensures r.Ok? && MoonPhasesInYear(old(phases), year) == [] ==> phases == old(phases) + r.value
      ensures r.Err? ==> phases == old(phases)
      ensures r.Ok? ==> forall m :: m in MoonPhasesInYear(phases, year) <==> m in r.value
    {
      var existing := MoonPhasesInYear(phases, year);
      if existing != [] {
        return Ok(existing);
      }
      if response.Err? {
        return Err(response.error);
      }
      var body := response.value;
      if body.None? || body.value.phaseData.None? {
        assert phases + [] == phases;
        return Ok([]);
      }
      r := ConvertPhases(body.value.phaseData.value, year);
      if r.Ok? {
        ConvertPhasesPointwise(body.value.phaseData.value, year);
        StoredPhasesOfYear(phases, r.value, year);
        phases := phases + r.value;
      }
    }
  }

  /** Appending records of `year` adds exactly them to the phases of that year. */
  lemma StoredPhasesOfYear(before: seq<MoonData>, added: seq<MoonData>, year: int)
    requires forall m :: m in added ==> m.year == year
    ensures forall m :: m in MoonPhasesInYear(before + added, year) <==> m in MoonPhasesInYear(before, year) || m in added
  {
  }
}
