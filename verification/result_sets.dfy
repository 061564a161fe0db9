/**
 * The JDBC side of a page query, as the servlet sees it: either the
 * connection or query fails outright, or a result set delivers its column
 * labels and its rows of cell text. Any JDBC call the servlet makes while
 * reading the result set may throw; a result set carries at most one such
 * fault, at the call where it happens, with the text `ex.toString()` gives.
 */
module ResultSets {
  import opened Wrappers

  /** The JDBC call that throws while the result set is read. */
  datatype FaultPoint =
    | MetaDataFault                     // rs.getMetaData() or getColumnCount()
    | LabelFault(column: nat)           // rsmd.getColumnLabel(column + 1)
    | NextFault(row: nat)               // the rs.next() that would deliver row `row`; row == |rows| is the final call
    | CellFault(row: nat, column: nat)  // rs.getString(column + 1) while on row `row`

  datatype Fault = Fault(point: FaultPoint, message: string)

  datatype RawResultSet = RawResultSet(labels: seq<string>, rows: seq<seq<string>>, fault: Option<Fault>)

  /** Every row JDBC delivers has one cell per column. */
  predicate Rectangular(raw: RawResultSet) {
    forall r :: 0 <= r < |raw.rows| ==> |raw.rows[r]| == |raw.labels|
  }

  type ResultSet = raw: RawResultSet | Rectangular(raw) witness RawResultSet([], [], None)

  /**
   * What loading the driver, connecting, creating the statement and running
   * the query yield: the text of the exception one of them threw, or a result set.
   */
  datatype Connection = Refused(message: string) | Opened(results: ResultSet)

  /** The fault of `rs` sits at JDBC call `p`. */
  predicate FailsAt(rs: ResultSet, p: FaultPoint) {
    rs.fault.Some? && rs.fault.value.point == p
  }

  /** Reading `rs` front to back reaches its fault point, so the reading throws. */
  predicate Throws(rs: ResultSet) {
    rs.fault.Some? &&
    match rs.fault.value.point
    case MetaDataFault => true
    case LabelFault(c) => c < |rs.labels|
    case NextFault(r) => r <= |rs.rows|
    case CellFault(r, c) => r < |rs.rows| && c < |rs.labels|
  }

  /** Reading the column labels before label `i` does not throw. */
  predicate ClearBeforeLabel(rs: ResultSet, i: nat) {
    rs.fault.None? ||
    match rs.fault.value.point
    case MetaDataFault => false
    case LabelFault(c) => c >= i
    case NextFault(_) => true
    case CellFault(_, _) => true
  }

  /** Reading the header and the rows before row `row` does not throw. */
  predicate ClearBeforeRow(rs: ResultSet, row: nat) {
    rs.fault.None? ||
    match rs.fault.value.point
    case MetaDataFault => false
    case LabelFault(c) => c >= |rs.labels|
    case NextFault(r) => r >= row
    case CellFault(r, c) => r >= row || c >= |rs.labels|
  }

  /** Reading everything before cell `j` of row `row` does not throw. */
  predicate ClearBeforeCell(rs: ResultSet, row: nat, j: nat) {
    ClearBeforeRow(rs, row) && !FailsAt(rs, NextFault(row)) &&
    (rs.fault.Some? && rs.fault.value.point.CellFault? && rs.fault.value.point.row == row ==>
       rs.fault.value.point.column >= j)
  }

  /** Reading every column label without a throw leaves the rows to read. */
  lemma HeaderRead(rs: ResultSet)
    requires ClearBeforeLabel(rs, |rs.labels|)
    ensures ClearBeforeRow(rs, 0)
  {
  }
}
