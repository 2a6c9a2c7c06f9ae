/**
 * The chart results handed to the client. A decimal percentage with one
 * decimal place is held as an integer number of tenths (33.3 is 333).
 */
module ChartDtos {
  import opened Wrappers

  /** One bar: a moon phase label, its success rate in tenths of a percent and its launch counts. */
  datatype MoonPhaseSuccessRate = MoonPhaseSuccessRate(
    moonPhase: string,
    successRate: int,
    totalLaunches: int,
    successfulLaunches: int)

  /** One pie slice: a status label, its launch count and its share in tenths of a percent. */
  datatype LaunchStatusDistribution = LaunchStatusDistribution(status: string, count: int, percentage: int)

  /** One point of the line chart: month name, month number 1..12 and launch count. */
  datatype LaunchTimelinePoint = LaunchTimelinePoint(month: string, monthNumber: int, launchCount: int)

  /** The common chart envelope (chart type, optional title, year) with its data rows. */
  datatype ChartData<R> = ChartData(chartType: string, title: Option<string>, year: int, data: seq<R>)

  type MoonPhaseSuccessChart = ChartData<MoonPhaseSuccessRate>
  type LaunchStatusChart = ChartData<LaunchStatusDistribution>
  type LaunchTimelineChart = ChartData<LaunchTimelinePoint>
}
