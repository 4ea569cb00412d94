/** The chart data holder of InferNetHOL.CSharp/LabelledSeries.cs. */
module Charting {

  /** `LabelledSeries<T>`: a label, the points (copied with `ToArray()` when
      the series is made) and whether it is drawn as a scatter plot. */
  datatype LabelledSeries<T> = LabelledSeries(Label: string, Series: seq<T>, IsScatter: bool)
}
