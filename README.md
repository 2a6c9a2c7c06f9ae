# RoMo chart analysis — a Dafny model

RoMo stores rocket launches (from Launch Library 2) and moon-phase events (from
the USNO moon-phase service), and derives three charts for a chosen year:

- **Success rate per moon phase** (bar chart). Each launch of the year is matched
  to the nearest moon-phase event of the year. Launches are grouped by the
  matched phase. Each group gets its success rate, and the bars follow the
  phase order New Moon, First Quarter, Full Moon, Last Quarter.
- **Launch-status distribution** (pie chart). Launches are grouped by status.
  Each slice holds its count and its share of all launches, largest first.
- **Launch timeline** (line chart). Twelve points, January to December, with
  the launch count of each month.

The model also covers the ingestion rules that fill the two tables:

- the classification of a Launch Library 2 status name;
- the defaults used when an API launch record has missing fields;
- the list of selectable years;
- the loop that collects launches page by page;
- the parsing of a moon-phase name and the conversion of phase entries;
- the store rule that fetches a year only when it has no rows yet.

Modules, one file each:

| file | module | contents |
|---|---|---|
| `wrappers.dfy` | `Wrappers` | `Option`, `Result` |
| `models.dfy` | `Models` | the enums; a .NET-style `DateTime` with its tick count; `RocketLaunch`, `MoonData`; the filters by year |
| `chart_dtos.dfy` | `ChartDtos` | the chart rows and the chart envelope |
| `linq.dfy` | `Linq` | the LINQ operators the queries use: `Count`, the group order of `GroupBy` (`Distinct`) and a stable `OrderBy` (insertion sort); also `SumOf`, used to state column totals |
| `text.dfy` | `Text` | `ToLower` and `String.Contains` |
| `chart_analysis.dfy` | `ChartAnalysis` | the chart analysis service |
| `rocket_launch_service.dfy` | `RocketLaunchIngest` | the launch ingestion service (functions, a loop method, the `LaunchStore` class) |
| `moon_data_service.dfy` | `MoonDataIngest` | the moon-phase ingestion service (functions, the `MoonStore` class) |

Representation choices:

- **Time.** A time is an integer number of 100-ns ticks since 0001-01-01, as in
  .NET. The distance between a launch and an event is the absolute difference
  of their ticks. The source compares `TimeSpan.TotalDays`, which is the same
  distance divided by the ticks per day.
- **Percentages.** A percentage with one decimal place is held as an integer
  number of tenths, so 33.3 % is 333. `Math.Round(decimal, 1)` rounds half to
  even. It is modelled by `RoundHalfEven(1000 * part, whole)`, and
  `RoundHalfEvenUnique` shows that this rounding has exactly one answer.
- **Database reads.** The chart functions take the whole `RocketLaunches` and
  `MoonPhases` tables as sequences, and filter them by year exactly as the
  queries do.
- **Month names.** They are an injected table of twelve strings
  (`MonthNames`), in place of the de-DE culture lookup.
- **Current year.** "Now" is a `currentYear` parameter.
- **Network responses.** Each HTTP/JSON result is an input, with `None` for a
  null body. For the list of years and the moon-phase fetch, a failed request
  is an `Err` input. In the page loop (`Harvest`, `CollectLaunches`), the
  responses are a list in request order, and a failed request is the end of
  that list: a request beyond the last given response fails the collection.

Two behaviours of the code that the model makes explicit:

- The `ChartCache` entity and its unique (Year, ChartType) index exist, but no
  code reads or writes them; every chart is recomputed from the tables. So the
  model has no cache.
- The code orders the year's events by date, then by distance with the stable
  `OrderBy`, and takes the first. So among equally near events the earliest
  wins. `ClosestIsOrderByHead` proves that the model's first-minimum scan
  picks exactly the head of that `OrderBy`, and `ClosestIsEarliestOfTies`
  states the tie-break. The database's `ORDER BY Date` leaves the order of
  events with the same date open; the model fixes it as their stored order
  (`OrderBy` is stable), so among equally near events on the same day the one
  stored first wins.

## Model

| member | source | states |
|---|---|---|
| `Models.NewDate` | RoMo.Server/Services/MoonDataService.cs:63 | `new DateTime(y, m, d)` succeeds exactly for a valid Gregorian date in years 1..9999, and gives midnight of that day |
| `Models.LaunchesInYear` | RoMo.Server/Services/ChartAnalysisService.cs:31-32 | the launches of the year: a launch is kept exactly when it is stored and dated in the year, and each such launch is kept as often as it is stored (duplicates count), so the result is no longer than the table |
| `Models.MoonPhasesInYear` | RoMo.Server/Services/ChartAnalysisService.cs:37-38 | the events filed under the year: an event is kept exactly when it is stored and its Year is the year, as often as it is stored |
| `Linq.Count` | RoMo.Server/Services/ChartAnalysisService.cs:68 | a group size is the number of occurrences of the key (its multiplicity), so at most the number of elements and 0 exactly when the key does not occur |
| `Linq.Distinct` | RoMo.Server/Services/ChartAnalysisService.cs:64 | the group keys of `GroupBy` have no duplicates, and a key has a group exactly when some element carries it |
| `Linq.CountsPartition` | RoMo.Server/Services/ChartAnalysisService.cs:63-68 | grouping partitions: over duplicate-free keys that cover every element, the group sizes add up to the number of elements |
| `Linq.OrderBy` | RoMo.Server/Services/ChartAnalysisService.cs:33 | `OrderBy`, an insertion sort that places each element before the first one with a key not smaller; keeps the length. Partners: `OrderBySorts` (ordered, a permutation) and `OrderByHeadIsFirstLeast` (stable at the head) |
| `Linq.OrderByHeadIsFirstLeast` | RoMo.Server/Services/ChartAnalysisService.cs:177-179 | stability where `FirstOrDefault` looks: the first element of `OrderBy` is the first input element with a least key |
| `Linq.OrderBySorts` | RoMo.Server/Services/ChartAnalysisService.cs:75 | `OrderBy` yields a sequence ordered by the key that is a permutation of its input |
| `Linq.SumOfOrderBy` | RoMo.Server/Services/ChartAnalysisService.cs:75 | reordering rows does not change any column total |
| `Linq.OrderByKeepsDistinct` | RoMo.Server/Services/ChartAnalysisService.cs:75 | labels that are distinct before `OrderBy` stay distinct after it |
| `Linq.NoDuplicatesBound` | RoMo.Server/Services/ChartAnalysisService.cs:115 | a duplicate-free list of keys drawn from a fixed list of values is no longer than that list |
| `Text.ToLowerIdempotent` | RoMo.Server/Services/RocketLaunchService.cs:155 | lower-casing a lower-cased string changes nothing |
| `Text.ContainsPrefixOf` | RoMo.Server/Services/RocketLaunchService.cs:158 | a string containing "failure" also contains every prefix of it, such as "fail" |
| `ChartAnalysis.RoundHalfEven` | RoMo.Server/Services/ChartAnalysisService.cs:190 | the result is a nearest integer to n/d, and the even one when n/d lies halfway between two integers |
| `ChartAnalysis.RoundHalfEvenUnique` | RoMo.Server/Services/ChartAnalysisService.cs:190 | any integer with that nearest-and-even property equals `RoundHalfEven`: the rounding is fully determined |
| `ChartAnalysis.PercentTenths` | RoMo.Server/Services/ChartAnalysisService.cs:120 | part/whole × 100 rounded half to even to one decimal, in tenths; at most 100 % when part ≤ whole |
| `ChartAnalysis.CalculateSuccessRate` | RoMo.Server/Services/ChartAnalysisService.cs:187-191 | 0 when total is 0; otherwise successful/total × 100 rounded half to even to one decimal; in 0..100 % when successful ≤ total |
| `ChartAnalysis.OneOfThreeIsThirtyThreePointThree` | RoMo.Server/Services/ChartAnalysisService.cs:187-191 | 1 success out of 3 launches is 33.3 % |
| `ChartAnalysis.GetPhaseOrder` | RoMo.Server/Services/ChartAnalysisService.cs:226-236 | total; the label of a phase gets the phase's enum ordinal + 1 (1..4), and a string gets 5 exactly when it is no phase label |
| `ChartAnalysis.FormatMoonPhase` | RoMo.Server/Services/ChartAnalysisService.cs:196-206 | the label table New Moon ↔ "New Moon", First Quarter ↔ "First Quarter", Full Moon ↔ "Full Moon", Last Quarter ↔ "Last Quarter", each in both directions. Partners: `FormatMoonPhaseInjective`, `GetPhaseOrder`, and `MapPhaseOfLabel` (the label parses back) |
| `ChartAnalysis.FormatStatus` | RoMo.Server/Services/ChartAnalysisService.cs:211-221 | the label table Success ↔ "Success", Failure ↔ "Failure", Partial ↔ "Partial Success", TBD ↔ "TBD", each in both directions. Partners: `FormatStatusInjective` and `MapStatusOfLabel` (the label classifies back) |
| `ChartAnalysis.GetMonthName` | RoMo.Server/Services/ChartAnalysisService.cs:241-244 | the name of month m (1..12) is entry m − 1 of the injected twelve-name table |
| `ChartAnalysis.EventDistance` | RoMo.Server/Services/ChartAnalysisService.cs:178 | the absolute distance in ticks between an event's day and the launch: either difference, never less than either, and 0 exactly at the same instant |
| `ChartAnalysis.FormatMoonPhaseInjective` | RoMo.Server/Services/ChartAnalysisService.cs:196-206 | distinct phases get distinct labels, so no label can stand for two groups |
| `ChartAnalysis.FormatStatusInjective` | RoMo.Server/Services/ChartAnalysisService.cs:211-221 | distinct statuses get distinct labels (Partial is "Partial Success") |
| `ChartAnalysis.FirstMinimum` | RoMo.Server/Services/ChartAnalysisService.cs:177-179 | the first element after a stable sort by value: a least value, with every earlier value strictly greater |
| `ChartAnalysis.FindClosestMoonPhase` | RoMo.Server/Services/ChartAnalysisService.cs:175-182 | NewMoon when there are no events; otherwise the phase of an event at least as near to the launch as every other, and strictly nearer than every earlier one |
| `ChartAnalysis.ClosestIsOrderByHead` | RoMo.Server/Services/ChartAnalysisService.cs:175-182 | the resolved phase is that of the first event of the stable `OrderBy` by distance, or NewMoon when there are no events, as `FirstOrDefault()?.Phase ?? NewMoon` gives |
| `ChartAnalysis.ClosestIsEarliestOfTies` | RoMo.Server/Services/ChartAnalysisService.cs:37-40 | with the events in date order, the resolved event is nearest, and among equally near events it is the earliest |
| `ChartAnalysis.ResolverExample` | RoMo.Server/Services/ChartAnalysisService.cs:175-182 | events on 2025-01-06 (New Moon), 01-13 (First Quarter) and 01-21 (Full Moon): a launch at 2025-01-15 00:00 resolves to First Quarter |
| `ChartAnalysis.SuccessfulAtMostTotal` | RoMo.Server/Services/ChartAnalysisService.cs:68-71 | a group never has more successful launches than launches |
| `ChartAnalysis.GetSuccessRateByMoonPhase` | RoMo.Server/Services/ChartAnalysisService.cs:42-53 | a "bar" chart titled "Erfolgsrate pro Mondphase" for the year, with no bars when the year has no launches or no moon-phase events |
| `ChartAnalysis.SuccessRateCoversYear` | RoMo.Server/Services/ChartAnalysisService.cs:63-76 | once the year has events, the bar totals add up to the number of launches in the year |
| `ChartAnalysis.SuccessRateRows` | RoMo.Server/Services/ChartAnalysisService.cs:63-74 | each bar is one phase's group: its label, its size (≥ 1), its successful launches (≤ size) and its rounded rate; a phase has a bar exactly when some launch resolves to it |
| `ChartAnalysis.SuccessRateOrdered` | RoMo.Server/Services/ChartAnalysisService.cs:75 | bars strictly increase in `GetPhaseOrder` (New Moon, First Quarter, Full Moon, Last Quarter), so no phase label appears twice |
| `ChartAnalysis.SuccessRateNonEmpty` | RoMo.Server/Services/ChartAnalysisService.cs:56-76 | with launches and events in the year there are between one and four bars |
| `ChartAnalysis.StrictlyIncreasingBound` | RoMo.Server/Services/ChartAnalysisService.cs:226-236 | rows strictly increasing in an order drawn from 1..4 are at most four |
| `ChartAnalysis.GetLaunchStatusDistribution` | RoMo.Server/Services/ChartAnalysisService.cs:92-111 | a "pie" chart titled "Launch-Status Verteilung" for the year, with no slices exactly when the year has no launches |
| `ChartAnalysis.StatusDistributionRows` | RoMo.Server/Services/ChartAnalysisService.cs:113-121 | each slice is one status's group: its label, its count (≥ 1) and its share rounded half to even to one decimal and at most 100 %; a status has a slice exactly when some launch of the year has it |
| `ChartAnalysis.StatusDistributionCoversYear` | RoMo.Server/Services/ChartAnalysisService.cs:113-123 | the slice counts add up to the number of launches in the year |
| `ChartAnalysis.StatusDistributionOrdered` | RoMo.Server/Services/ChartAnalysisService.cs:122 | slices are ordered by count, highest first, and no status label appears twice |
| `ChartAnalysis.StatusDistributionShares` | RoMo.Server/Services/ChartAnalysisService.cs:113-123 | at most four slices, and the shares add up to 100 % within 0.05 % per slice (within 0.2 % overall) |
| `ChartAnalysis.RoundedSharesError` | RoMo.Server/Services/ChartAnalysisService.cs:120 | shares each rounded to the nearest tenth deviate, in total, by at most half a tenth per slice |
| `ChartAnalysis.GetLaunchTimeline` | RoMo.Server/Services/ChartAnalysisService.cs:139-166 | a "line" chart titled "Raketen-Starts pro Monat" for the year, with exactly 12 points; point i has month number i + 1 and that month's name, even for a year without launches |
| `ChartAnalysis.TimelineCounts` | RoMo.Server/Services/ChartAnalysisService.cs:152 | a point counts the year's launches in its month, and it is 0 exactly when no launch of the year falls in that month |
| `ChartAnalysis.TimelineCoversYear` | RoMo.Server/Services/ChartAnalysisService.cs:148-155 | the twelve monthly counts add up to the number of launches in the year |
| `RocketLaunchIngest.MapStatusToEnum` | RoMo.Server/Services/RocketLaunchService.cs:153-162 | on the lowercased name: Success exactly when it contains "success" and not "partial"; otherwise Failure exactly when it contains "fail"; Partial exactly when it contains "partial" and no "fail"; TBD exactly when it contains none of the three words |
| `RocketLaunchIngest.MapStatusIgnoresCase` | RoMo.Server/Services/RocketLaunchService.cs:155 | the classification does not depend on the case of ASCII letters |
| `RocketLaunchIngest.MapStatusOfLabel` | RoMo.Server/Services/RocketLaunchService.cs:153-162 | the chart label of every status ("Success", "Failure", "Partial Success", "TBD") classifies back to that status |
| `RocketLaunchIngest.PartialFailureIsFailure` | RoMo.Server/Services/RocketLaunchService.cs:151-158 | the documented status "Partial Failure" is classified as Failure, not Partial |
| `RocketLaunchIngest.TbdIsTbd` | RoMo.Server/Services/RocketLaunchService.cs:118 | the default status name "TBD" is classified as TBD |
| `RocketLaunchIngest.ToRocketLaunch` | RoMo.Server/Services/RocketLaunchService.cs:112-122 | the record keeps the API id, name and date; a missing status or status name becomes TBD; a missing agency, rocket configuration or name becomes "Unknown", and a present name is kept; no moon phase is linked |
| `RocketLaunchIngest.ToRocketLaunches` | RoMo.Server/Services/RocketLaunchService.cs:112-122 | a page converts launch by launch, keeping length and order |
| `RocketLaunchIngest.YearsDescending` | RoMo.Server/Services/RocketLaunchService.cs:46-48 | newest − oldest + 1 years, strictly descending, from the newest year down to the oldest |
| `RocketLaunchIngest.YearsDescendingMembers` | RoMo.Server/Services/RocketLaunchService.cs:46-48 | the list holds exactly the years from the oldest to the newest |
| `RocketLaunchIngest.RangeDescending` | RoMo.Server/Services/RocketLaunchService.cs:46 | `Enumerable.Range` fails exactly for a negative count; otherwise it gives the years from start to start + count − 1, newest first |
| `RocketLaunchIngest.GetAvailableYears` | RoMo.Server/Services/RocketLaunchService.cs:31-64 | the years from the oldest launch (1957 when none is found) to the current year, newest first; a failed query or an oldest year after next year falls back to 1957; the fallback's own error is not caught |
| `RocketLaunchIngest.AvailableYearsDefault` | RoMo.Server/Services/RocketLaunchService.cs:41 | without an oldest launch the list runs from the current year down to 1957 |
| `RocketLaunchIngest.HarvestCollectsPages` | RoMo.Server/Services/RocketLaunchService.cs:94-129 | when pages 0..n all have launches, each page before n names a next page and page n does not, the collection succeeds with every launch of those pages, page after page |
| `RocketLaunchIngest.HarvestFailsPastLastResponse` | RoMo.Server/Services/RocketLaunchService.cs:94-129 | when every given page has launches and names a next page, the loop requests one more page and the collection fails |
| `RocketLaunchIngest.CollectLaunches` | RoMo.Server/Services/RocketLaunchService.cs:94-129 | the page loop returns exactly `Harvest`: the records of the pages up to the first one without launches or without a next URL, in order; a failed request fails the whole collection |
| `RocketLaunchIngest.LaunchStore.LaunchesForYear` | RoMo.Server/Services/RocketLaunchService.cs:167-175 | the stored launches of the year, ordered by launch date |
| `RocketLaunchIngest.LaunchStore.FetchAndSave` | RoMo.Server/Services/RocketLaunchService.cs:69-146 | a year with stored launches returns them and leaves the store unchanged; otherwise a year outside 1..9999 fails before any request, because the URL's `new DateTime(year, 1, 1)` throws; for any other year the pages are collected and, if at least one launch was collected, appended; a failure leaves the store unchanged |
| `MoonDataIngest.MapPhaseStringToEnum` | RoMo.Server/Services/MoonDataService.cs:92-102 | the lowercased name "new moon", "first quarter", "full moon" or "last quarter" gives its phase; any other name is an error, never a default |
| `MoonDataIngest.MapPhaseIgnoresCase` | RoMo.Server/Services/MoonDataService.cs:94 | parsing does not depend on the case of ASCII letters |
| `MoonDataIngest.MapPhaseOfLabel` | RoMo.Server/Services/MoonDataService.cs:94-99 | the chart label of every phase parses back to that phase |
| `MoonDataIngest.ToMoonData` | RoMo.Server/Services/MoonDataService.cs:60-65 | an entry converts exactly when its phase name parses and its date is valid; the record has that phase, midnight of the entry's date, and the requested year |
| `MoonDataIngest.ConvertPhases` | RoMo.Server/Services/MoonDataService.cs:59-66 | a successful conversion has as many records as entries |
| `MoonDataIngest.ConvertPhasesPointwise` | RoMo.Server/Services/MoonDataService.cs:59-66 | the conversion succeeds exactly when every entry converts; then record i is the conversion of entry i, filed under the requested year |
| `MoonDataIngest.StoredPhasesOfYear` | RoMo.Server/Services/MoonDataService.cs:69-70 | appending records of the year adds exactly them to that year's phases |
| `MoonDataIngest.MoonStore.FetchAndSave` | RoMo.Server/Services/MoonDataService.cs:30-87 | a year with stored phases returns them unchanged; a failed request fails without storing; a null phase list gives no phases and stores nothing; one unparsable entry fails the whole conversion before anything is stored; otherwise all records are appended; on success the returned list is exactly the year's stored phases |

## Left out

- The HTTP requests, URL construction, JSON deserialisation and logging of both ingestion services. Every response is an input to the model.
- The `Task`/`async` wrappers. They add no behaviour.
- The chart cache entity and its unique index. No code reads or writes them.
- EF Core mechanics (`AppDbContext`, `SaveChangesAsync`), the controllers, hosting and the client. They are plumbing. Fresh records carry id 0, because the database assigns ids.
- Concurrency. Two overlapping fetches of the same year could both find it empty and both append; the model runs one call at a time.
- Floating point. `TimeSpan.TotalDays` is a double. Two events whose tick distances differ by less than a double can tell apart would tie in the source but not in the model.
- `decimal` arithmetic. The division in the two percentage formulas is treated as exact before rounding. `decimal` carries 28 significant digits, so it could only differ in a last-digit case next to a rounding midpoint.
- `ToLower`. .NET lower-cases with the current culture; the model lower-cases only the ASCII letters A..Z.
- The `_ => phase.ToString()` and `_ => status.ToString()` branches of the two label switches. They are reached only by enum values outside the declared members, which a Dafny datatype cannot hold.
- The de-DE month abbreviations. The names are an injected table; `GetMonthName` returns the table entry.
- `Enumerable.Range` also fails when start + count − 1 exceeds `int.MaxValue`. Years never come near that bound, so the model leaves it out.
- The `Id` and `Name` of an API launch are not nullable in the model. The source declares both as non-null strings with an empty default (RoMo.Server/DTOs/ApiResponseModels.cs:30-33). A JSON `null` id would store a null `ExternalId`, while `ToRocketLaunch` always gives `Some(id)`. The names of a status, an agency and a rocket configuration are optional, because the code handles their null with `??`.
- A null `Phase` in a moon-phase entry. The source calls `ToLower` on it (RoMo.Server/Services/MoonDataService.cs:94) and throws; `MoonPhaseData.phase` is a string that is always present.
