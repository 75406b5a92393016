/** The chart record that the grouping stage files into folders. */
module Graphs {
  import opened Outcome
  import opened Util

  /**
   * One chart: its name split into folder and base, its unit (if any), the
   * x-axis label, its points and whether it is drawn as an area.  The
   * grouping stage only reads `nameFolder`.
   */
  datatype Graph = Graph(
    name: string, nameBase: string, nameFolder: string,
    unit: Option<string>, xUnit: string,
    data: seq<(Float64, Float64)>, area: bool)
}
