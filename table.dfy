/** The data that flows through the penalty-points transform: table rows as
    read from the wiki page, the per-driver records built from them, and
    the entries of the chart summary. */
module Table {

  /** A cell that may be empty (pandas reads an empty numeric cell as NaN). */
  datatype Option<T> = None | Some(value: T)

  /** One row of the penalty-points table. `points` is empty on the row that
      only states a driver's running total. */
  datatype TableRow = TableRow(
    driver: string,
    totalPoints: int,
    points: Option<int>,
    expiryDate: string,
    grandPrix: string,
    reason: string)

  /** One penalty-points event of a driver. */
  datatype Incident = Incident(
    points: int,
    expiryDate: string,
    grandPrix: string,
    reason: string)

  /** The detailed per-driver record, `{driver, totalPoints, incidents}`. */
  datatype DriverRecord = DriverRecord(
    driver: string,
    totalPoints: int,
    incidents: seq<Incident>)

  /** One entry of the chart summary, `{name, points}`. */
  datatype ChartEntry = ChartEntry(name: string, points: int)
}
