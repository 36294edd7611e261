/** What every aggregation hands to the chart: the derived rows, the keys of
    the x and y axes, and the suggested chart type. */
module Charts {

  /** The chart types the dashboard offers. */
  datatype ChartType = Line | Bar | Scatter | Pie

  /** `{ dataset, x, y, type }`. */
  datatype Aggregate<T> = Aggregate(dataset: seq<T>, x: string, y: string, chartType: ChartType)
}
