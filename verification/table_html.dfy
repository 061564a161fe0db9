/**
 * The HTML table the servlet writes for a result set. The text is built
 * from pieces that are either fixed markup or data taken verbatim from the
 * database (the servlet does not escape it, so a data piece may itself look
 * like markup); counting and ordering facts are stated over the pieces,
 * and `Render` gives the characters that reach the buffer.
 */
module TableHtml {
  import opened Wrappers
  import opened ResultSets
  import opened Strings

  datatype CellKind = HeaderCell | BodyCell

  /** The fixed markup the servlet writes around the data. */
  datatype Tag = TableOpen | TableClose | RowOpen | RowClose | CellOpen(kind: CellKind) | CellClose(kind: CellKind)

  function TagText(t: Tag): string {
    match t
    case TableOpen => "<center><table border>"
    case TableClose => "</table></center>"
    case RowOpen => "<tr>"
    case RowClose => "</tr>"
    case CellOpen(HeaderCell) => "<th>"
    case CellOpen(BodyCell) => "<td>"
    case CellClose(HeaderCell) => "</th>"
    case CellClose(BodyCell) => "</td>"
  }

  datatype Piece = Markup(tag: Tag) | Data(text: string)

  function PieceText(p: Piece): string {
    match p
    case Markup(t) => TagText(t)
    case Data(x) => x
  }

  /** The characters of a list of pieces, in order. */
  function Render(ps: seq<Piece>): string {
    if ps == [] then "" else Render(ps[..|ps| - 1]) + PieceText(ps[|ps| - 1])
  }

  /** The data texts of a list of pieces, in order. */
  function DataOf(ps: seq<Piece>): seq<string> {
    if ps == [] then []
    else DataOf(ps[..|ps| - 1]) + (if ps[|ps| - 1].Data? then [ps[|ps| - 1].text] else [])
  }

  /** How often `p` occurs in `ps`. */
  function Count(ps: seq<Piece>, p: Piece): nat {
    if ps == [] then 0 else Count(ps[..|ps| - 1], p) + (if ps[|ps| - 1] == p then 1 else 0)
  }

  /** All cells of all rows, row after row. */
  function Flatten(rows: seq<seq<string>>): seq<string> {
    if rows == [] then [] else Flatten(rows[..|rows| - 1]) + rows[|rows| - 1]
  }

  const TABLE_OPEN := Markup(TableOpen)
  const TABLE_CLOSE := Markup(TableClose)
  const ROW_OPEN := Markup(RowOpen)
  const ROW_CLOSE := Markup(RowClose)
  const TH_OPEN := Markup(CellOpen(HeaderCell))

  function Cell(k: CellKind, x: string): seq<Piece> {
    [Markup(CellOpen(k)), Data(x), Markup(CellClose(k))]
  }

  /** One cell per element of `xs`, in order: three pieces per value. */
  function Cells(k: CellKind, xs: seq<string>): (ps: seq<Piece>)
    ensures |ps| == 3 * |xs|
  {
    if xs == [] then [] else Cells(k, xs[..|xs| - 1]) + Cell(k, xs[|xs| - 1])
  }

  function Row(k: CellKind, xs: seq<string>): seq<Piece> {
    [ROW_OPEN] + Cells(k, xs) + [ROW_CLOSE]
  }

  /** One body row per element of `rows`, in order. */
  function Rows(rows: seq<seq<string>>): seq<Piece> {
    if rows == [] then [] else Rows(rows[..|rows| - 1]) + Row(BodyCell, rows[|rows| - 1])
  }

  /** The complete table: a header row of column labels, then the data rows. */
  function Table(labels: seq<string>, rows: seq<seq<string>>): seq<Piece> {
    [TABLE_OPEN] + Row(HeaderCell, labels) + Rows(rows) + [TABLE_CLOSE]
  }

  /**
   * What reading `rs` writes before its fault point throws, or the complete
   * table when no fault point is reached.
   */
  function Emitted(rs: ResultSet): seq<Piece> {
    if !Throws(rs) then Table(rs.labels, rs.rows)
    else
      match rs.fault.value.point
      case MetaDataFault => [TABLE_OPEN]
      case LabelFault(c) => [TABLE_OPEN, ROW_OPEN] + Cells(HeaderCell, rs.labels[..c]) + [TH_OPEN]
      case NextFault(r) => [TABLE_OPEN] + Row(HeaderCell, rs.labels) + Rows(rs.rows[..r])
      case CellFault(r, c) =>
        [TABLE_OPEN] + Row(HeaderCell, rs.labels) + Rows(rs.rows[..r])
        + [ROW_OPEN] + Cells(BodyCell, rs.rows[r][..c])
  }

  lemma {:induction false} RenderAppend(p: seq<Piece>, q: seq<Piece>)
    ensures Render(p + q) == Render(p) + Render(q)
    decreases |q|
  {
    if q != [] {
      var q' := q[..|q| - 1];
      assert (p + q)[..|p + q| - 1] == p + q';
      RenderAppend(p, q');
    } else {
      assert p + q == p;
    }
  }

  /** Writing more pieces only extends the text. */
  lemma RenderPrefix(p: seq<Piece>, q: seq<Piece>)
    requires p <= q
    ensures Render(p) <= Render(q)
  {
    assert q == p + q[|p|..];
    RenderAppend(p, q[|p|..]);
  }

  lemma {:induction false} CountAppend(p: seq<Piece>, q: seq<Piece>, m: Piece)
    ensures Count(p + q, m) == Count(p, m) + Count(q, m)
    decreases |q|
  {
    if q != [] {
      assert (p + q)[..|p + q| - 1] == p + q[..|q| - 1];
      CountAppend(p, q[..|q| - 1], m);
    } else {
      assert p + q == p;
    }
  }

  lemma {:induction false} DataOfAppend(p: seq<Piece>, q: seq<Piece>)
    ensures DataOf(p + q) == DataOf(p) + DataOf(q)
    decreases |q|
  {
    if q != [] {
      assert (p + q)[..|p + q| - 1] == p + q[..|q| - 1];
      DataOfAppend(p, q[..|q| - 1]);
    } else {
      assert p + q == p;
    }
  }

  /** Cell `i` of a row is the three pieces `<tag>`, the i-th value, `</tag>`. */
  lemma {:induction false} CellsAt(k: CellKind, xs: seq<string>, i: nat)
    requires i < |xs|
    ensures Cells(k, xs)[3 * i..3 * i + 3] == Cell(k, xs[i])
    decreases |xs|
  {
    var n := |xs| - 1;
    var pre := Cells(k, xs[..n]);
    assert Cells(k, xs) == pre + Cell(k, xs[n]);
    if i < n {
      CellsAt(k, xs[..n], i);
      assert (pre + Cell(k, xs[n]))[3 * i..3 * i + 3] == pre[3 * i..3 * i + 3];
    } else {
      assert (pre + Cell(k, xs[n]))[3 * i..3 * i + 3] == Cell(k, xs[n]);
    }
  }

  /** The cells of a prefix of the values are a prefix of the cells. */
  lemma {:induction false} CellsPrefix(k: CellKind, xs: seq<string>, c: nat)
    requires c <= |xs|
    ensures Cells(k, xs[..c]) <= Cells(k, xs)
    decreases |xs|
  {
    if c < |xs| {
      var n := |xs| - 1;
      assert xs[..n][..c] == xs[..c];
      CellsPrefix(k, xs[..n], c);
    } else {
      assert xs[..c] == xs;
    }
  }

  /** The rows of a prefix of the data are a prefix of the rows. */
  lemma {:induction false} RowsPrefix(rows: seq<seq<string>>, r: nat)
    requires r <= |rows|
    ensures Rows(rows[..r]) <= Rows(rows)
    decreases |rows|
  {
    if r < |rows| {
      var n := |rows| - 1;
      assert rows[..n][..r] == rows[..r];
      RowsPrefix(rows[..n], r);
    } else {
      assert rows[..r] == rows;
    }
  }

  /** Appending the same pieces after a prefix keeps it a prefix. */
  lemma PrefixAfter(a: seq<Piece>, p: seq<Piece>, q: seq<Piece>)
    requires p <= q
    ensures a + p <= a + q
  {
    assert (a + q)[..|a + p|] == a + p;
  }

  /**
   * The part of the table a header-label fault leaves behind: the cells
   * before the failing column and the `<th>` written before the lookup.
   */
  lemma LabelFaultPrefix(labels: seq<string>, c: nat)
    requires c < |labels|
    ensures [TABLE_OPEN, ROW_OPEN] + Cells(HeaderCell, labels[..c]) + [TH_OPEN] <= [TABLE_OPEN] + Row(HeaderCell, labels)
  {
    var done := Cells(HeaderCell, labels[..c]);
    assert labels[..c + 1][..c] == labels[..c];
    assert Cells(HeaderCell, labels[..c + 1]) == done + Cell(HeaderCell, labels[c]);
    assert done + [TH_OPEN] <= Cells(HeaderCell, labels[..c + 1]);
    CellsPrefix(HeaderCell, labels, c + 1);
    PrefixAfter([TABLE_OPEN, ROW_OPEN], done + [TH_OPEN], Cells(HeaderCell, labels));
    assert [TABLE_OPEN, ROW_OPEN] + done + [TH_OPEN] == [TABLE_OPEN, ROW_OPEN] + (done + [TH_OPEN]);
    assert [TABLE_OPEN] + Row(HeaderCell, labels)
      == ([TABLE_OPEN, ROW_OPEN] + Cells(HeaderCell, labels)) + [ROW_CLOSE];
  }

  /** The part of the body a cell fault in row `r` leaves behind. */
  lemma CellFaultPrefix(rows: seq<seq<string>>, r: nat, c: nat)
    requires r < |rows| && c <= |rows[r]|
    ensures Rows(rows[..r]) + [ROW_OPEN] + Cells(BodyCell, rows[r][..c]) <= Rows(rows)
  {
    var pre := Rows(rows[..r]) + [ROW_OPEN];
    CellsPrefix(BodyCell, rows[r], c);
    PrefixAfter(pre, Cells(BodyCell, rows[r][..c]), Cells(BodyCell, rows[r]));
    assert rows[..r + 1][..r] == rows[..r];
    assert rows[..r + 1][r] == rows[r];
    assert Rows(rows[..r + 1]) == (pre + Cells(BodyCell, rows[r])) + [ROW_CLOSE];
    RowsPrefix(rows, r + 1);
  }

  /**
   * A fault leaves a strict prefix of the complete table behind (the table is
   * never closed); without one, the complete table is written.
   */
  lemma EmittedIsPrefix(rs: ResultSet)
    ensures Emitted(rs) <= Table(rs.labels, rs.rows)
    ensures Throws(rs) <==> |Emitted(rs)| < |Table(rs.labels, rs.rows)|
    ensures !Throws(rs) ==> Emitted(rs) == Table(rs.labels, rs.rows)
  {
    var body := [TABLE_OPEN] + Row(HeaderCell, rs.labels) + Rows(rs.rows);
    assert Table(rs.labels, rs.rows) == body + [TABLE_CLOSE];
    if Throws(rs) {
      ThrownWithinBody(rs);
      PrefixExtend(Emitted(rs), body, [TABLE_CLOSE]);
    }
  }

  /** A prefix of `b` is a prefix of anything that starts with `b`. */
  lemma PrefixExtend(a: seq<Piece>, b: seq<Piece>, c: seq<Piece>)
    requires a <= b
    ensures a <= b + c
  {
    assert (b + c)[..|a|] == b[..|a|];
  }

  /** A fault that is reached leaves behind part of the table before its closing tag. */
  lemma ThrownWithinBody(rs: ResultSet)
    requires Throws(rs)
    ensures Emitted(rs) <= [TABLE_OPEN] + Row(HeaderCell, rs.labels) + Rows(rs.rows)
  {
    match rs.fault.value.point
    case MetaDataFault =>
      EmittedAtMetaData(rs);
      MetaDataFaultPrefix(rs.labels, rs.rows);
    case LabelFault(c) =>
      EmittedAtLabel(rs);
      LabelFaultPrefix(rs.labels, c);
      PrefixExtend(Emitted(rs), [TABLE_OPEN] + Row(HeaderCell, rs.labels), Rows(rs.rows));
    case NextFault(r) =>
      EmittedAtNext(rs, r);
      NextFaultPrefix(rs.labels, rs.rows, r);
    case CellFault(r, c) =>
      EmittedAtCell(rs, r);
      CellFaultInBody(rs.labels, rs.rows, r, c);
  }

  lemma MetaDataFaultPrefix(labels: seq<string>, rows: seq<seq<string>>)
    ensures [TABLE_OPEN] <= [TABLE_OPEN] + Row(HeaderCell, labels) + Rows(rows)
  {
    assert ([TABLE_OPEN] + Row(HeaderCell, labels) + Rows(rows))[..1] == [TABLE_OPEN];
  }

  lemma NextFaultPrefix(labels: seq<string>, rows: seq<seq<string>>, r: nat)
    requires r <= |rows|
    ensures [TABLE_OPEN] + Row(HeaderCell, labels) + Rows(rows[..r])
      <= [TABLE_OPEN] + Row(HeaderCell, labels) + Rows(rows)
  {
    RowsPrefix(rows, r);
    PrefixAfter([TABLE_OPEN] + Row(HeaderCell, labels), Rows(rows[..r]), Rows(rows));
  }

  lemma CellFaultInBody(labels: seq<string>, rows: seq<seq<string>>, r: nat, c: nat)
    requires r < |rows| && c <= |rows[r]|
    ensures [TABLE_OPEN] + Row(HeaderCell, labels) + Rows(rows[..r]) + [ROW_OPEN] + Cells(BodyCell, rows[r][..c])
      <= [TABLE_OPEN] + Row(HeaderCell, labels) + Rows(rows)
  {
    var head := [TABLE_OPEN] + Row(HeaderCell, labels);
    var rest := Rows(rows[..r]) + [ROW_OPEN] + Cells(BodyCell, rows[r][..c]);
    CellFaultPrefix(rows, r, c);
    PrefixAfter(head, rest, Rows(rows));
    assert head + Rows(rows[..r]) + [ROW_OPEN] + Cells(BodyCell, rows[r][..c]) == head + rest;
  }

  lemma CountCell(k: CellKind, x: string, m: Piece)
    requires m.Markup?
    ensures Count(Cell(k, x), m)
      == (if m.tag == CellOpen(k) then 1 else 0) + (if m.tag == CellClose(k) then 1 else 0)
  {
    var a, d, z := Markup(CellOpen(k)), Data(x), Markup(CellClose(k));
    assert Cell(k, x)[..2] == [a, d];
    assert [a, d][..1] == [a];
    assert [a][..0] == [];
    assert Count([a], m) == (if a == m then 1 else 0);
    assert Count([a, d], m) == Count([a], m);
  }

  lemma {:induction false} CountCells(k: CellKind, xs: seq<string>, m: Piece)
    requires m.Markup?
    ensures Count(Cells(k, xs), m)
      == (if m.tag == CellOpen(k) then |xs| else 0) + (if m.tag == CellClose(k) then |xs| else 0)
    decreases |xs|
  {
    if xs != [] {
      var n := |xs| - 1;
      CountCells(k, xs[..n], m);
      CountAppend(Cells(k, xs[..n]), Cell(k, xs[n]), m);
      CountCell(k, xs[n], m);
    }
  }

  lemma CountRow(k: CellKind, xs: seq<string>, m: Piece)
    requires m.Markup?
    ensures Count(Row(k, xs), m)
      == (if m.tag == CellOpen(k) then |xs| else 0) + (if m.tag == CellClose(k) then |xs| else 0)
       + (if m == ROW_OPEN then 1 else 0) + (if m == ROW_CLOSE then 1 else 0)
  {
    CountCells(k, xs, m);
    CountAppend([ROW_OPEN] + Cells(k, xs), [ROW_CLOSE], m);
    CountAppend([ROW_OPEN], Cells(k, xs), m);
  }

  /** How often the markup piece `m` occurs in one body row of width `w`. */
  function BodyRowCount(m: Piece, w: nat): nat {
    (if m == Markup(CellOpen(BodyCell)) then w else 0) + (if m == Markup(CellClose(BodyCell)) then w else 0)
    + (if m == ROW_OPEN then 1 else 0) + (if m == ROW_CLOSE then 1 else 0)
  }

  lemma MulSucc(n: nat, c: nat)
    ensures n * c + c == (n + 1) * c
  {
  }

  /** Body rows of width `w` all hold the same markup, row after row. */
  lemma {:induction false} CountRows(rows: seq<seq<string>>, w: nat, m: Piece)
    requires m.Markup?
    requires forall r :: 0 <= r < |rows| ==> |rows[r]| == w
    ensures Count(Rows(rows), m) == |rows| * BodyRowCount(m, w)
    decreases |rows|
  {
    if rows != [] {
      var n := |rows| - 1;
      var c := BodyRowCount(m, w);
      CountRows(rows[..n], w, m);
      assert Rows(rows) == Rows(rows[..n]) + Row(BodyCell, rows[n]);
      CountAppend(Rows(rows[..n]), Row(BodyCell, rows[n]), m);
      CountRow(BodyCell, rows[n], m);
      assert Count(Row(BodyCell, rows[n]), m) == c;
      MulSucc(n, c);
    }
  }

  /**
   * The complete table has one `<th>` per column, one `<td>` per cell and
   * one `<tr>` per row plus the header row.
   */
  lemma TableCounts(rs: ResultSet)
    ensures Count(Table(rs.labels, rs.rows), Markup(CellOpen(HeaderCell))) == |rs.labels|
    ensures Count(Table(rs.labels, rs.rows), Markup(CellOpen(BodyCell))) == |rs.rows| * |rs.labels|
    ensures Count(Table(rs.labels, rs.rows), ROW_OPEN) == |rs.rows| + 1
  {
    TableCount(rs, Markup(CellOpen(HeaderCell)));
    CountRow(HeaderCell, rs.labels, Markup(CellOpen(HeaderCell)));
    TableCount(rs, Markup(CellOpen(BodyCell)));
    CountRow(HeaderCell, rs.labels, Markup(CellOpen(BodyCell)));
    TableCount(rs, ROW_OPEN);
    CountRow(HeaderCell, rs.labels, ROW_OPEN);
  }

  lemma TableCount(rs: ResultSet, m: Piece)
    requires m.Markup? && m != TABLE_OPEN && m != TABLE_CLOSE
    ensures Count(Table(rs.labels, rs.rows), m)
      == Count(Row(HeaderCell, rs.labels), m) + |rs.rows| * BodyRowCount(m, |rs.labels|)
  {
    var head := [TABLE_OPEN] + Row(HeaderCell, rs.labels);
    CountRows(rs.rows, |rs.labels|, m);
    CountAppend(head + Rows(rs.rows), [TABLE_CLOSE], m);
    CountAppend(head, Rows(rs.rows), m);
    CountAppend([TABLE_OPEN], Row(HeaderCell, rs.labels), m);
    CountRow(HeaderCell, rs.labels, m);
    assert [TABLE_CLOSE][..0] == [] && [TABLE_OPEN][..0] == [];
  }

  lemma DataOfCell(k: CellKind, x: string)
    ensures DataOf(Cell(k, x)) == [x]
  {
    var a, d, z := Markup(CellOpen(k)), Data(x), Markup(CellClose(k));
    assert Cell(k, x)[..2] == [a, d];
    assert [a, d][..1] == [a];
    assert [a][..0] == [];
    assert DataOf([a]) == [];
    assert DataOf([a, d]) == [x];
  }

  lemma {:induction false} DataOfCells(k: CellKind, xs: seq<string>)
    ensures DataOf(Cells(k, xs)) == xs
    decreases |xs|
  {
    if xs != [] {
      var n := |xs| - 1;
      DataOfCells(k, xs[..n]);
      DataOfAppend(Cells(k, xs[..n]), Cell(k, xs[n]));
      DataOfCell(k, xs[n]);
      assert xs == xs[..n] + [xs[n]];
    }
  }

  lemma DataOfRow(k: CellKind, xs: seq<string>)
    ensures DataOf(Row(k, xs)) == xs
  {
    DataOfCells(k, xs);
    DataOfAppend([ROW_OPEN] + Cells(k, xs), [ROW_CLOSE]);
    DataOfAppend([ROW_OPEN], Cells(k, xs));
  }

  lemma {:induction false} DataOfRows(rows: seq<seq<string>>)
    ensures DataOf(Rows(rows)) == Flatten(rows)
    decreases |rows|
  {
    if rows != [] {
      var n := |rows| - 1;
      DataOfRows(rows[..n]);
      DataOfAppend(Rows(rows[..n]), Row(BodyCell, rows[n]));
      DataOfRow(BodyCell, rows[n]);
    }
  }

  /**
   * The data the complete table shows are the column labels in column order,
   * then the cells row by row, each row in column order.
   */
  lemma TableData(labels: seq<string>, rows: seq<seq<string>>)
    ensures DataOf(Table(labels, rows)) == labels + Flatten(rows)
  {
    var head := [TABLE_OPEN] + Row(HeaderCell, labels);
    DataOfAppend(head + Rows(rows), [TABLE_CLOSE]);
    DataOfAppend(head, Rows(rows));
    DataOfAppend([TABLE_OPEN], Row(HeaderCell, labels));
    DataOfRow(HeaderCell, labels);
    DataOfRows(rows);
  }

  lemma RenderCell(k: CellKind, x: string)
    ensures Render(Cell(k, x)) == TagText(CellOpen(k)) + x + TagText(CellClose(k))
  {
    var a, d, z := Markup(CellOpen(k)), Data(x), Markup(CellClose(k));
    assert Cell(k, x)[..2] == [a, d];
    assert [a, d][..1] == [a];
    assert [a][..0] == [];
    assert Render([a]) == TagText(CellOpen(k));
    assert Render([a, d]) == TagText(CellOpen(k)) + x;
  }

  /** Writing one more cell after `prefix` adds `<tag>x</tag>` to the text. */
  lemma RenderCellStep(prefix: seq<Piece>, k: CellKind, xs: seq<string>, i: nat)
    requires i < |xs|
    ensures Render(prefix + Cells(k, xs[..i + 1]))
      == Render(prefix + Cells(k, xs[..i])) + TagText(CellOpen(k)) + xs[i] + TagText(CellClose(k))
  {
    assert xs[..i + 1][..i] == xs[..i];
    assert prefix + Cells(k, xs[..i + 1]) == (prefix + Cells(k, xs[..i])) + Cell(k, xs[i]);
    RenderAppend(prefix + Cells(k, xs[..i]), Cell(k, xs[i]));
    RenderCell(k, xs[i]);
    Regroup3(Render(prefix + Cells(k, xs[..i])), TagText(CellOpen(k)), xs[i], TagText(CellClose(k)));
  }

  /** Closing a complete body row after `prefix` finishes row `row` of the table. */
  lemma RenderRowStep(prefix: seq<Piece>, rows: seq<seq<string>>, row: nat)
    requires row < |rows|
    ensures Render(prefix + Rows(rows[..row + 1]))
      == Render(prefix + Rows(rows[..row]) + [ROW_OPEN] + Cells(BodyCell, rows[row])) + TagText(RowClose)
  {
    assert rows[..row + 1][..row] == rows[..row];
    assert prefix + Rows(rows[..row + 1])
      == (prefix + Rows(rows[..row]) + [ROW_OPEN] + Cells(BodyCell, rows[row])) + [ROW_CLOSE];
    RenderAppend(prefix + Rows(rows[..row]) + [ROW_OPEN] + Cells(BodyCell, rows[row]), [ROW_CLOSE]);
    assert [ROW_CLOSE][..0] == [];
  }

  /** Writing one piece adds its text. */
  lemma RenderPiece(prefix: seq<Piece>, p: Piece)
    ensures Render(prefix + [p]) == Render(prefix) + PieceText(p)
  {
    assert (prefix + [p])[..|prefix|] == prefix;
  }

  /** Appending the text of one more piece to a buffer that holds `x + Render(ps)`. */
  lemma AppendPiece(x: string, ps: seq<Piece>, p: Piece)
    ensures (x + Render(ps)) + PieceText(p) == x + Render(ps + [p])
  {
    RenderPiece(ps, p);
    Assoc(x, Render(ps), PieceText(p));
  }

  /** Appending `<tag>`, the cell text and `</tag>` to a buffer writes one more cell. */
  lemma AppendCell(x: string, prefix: seq<Piece>, k: CellKind, xs: seq<string>, i: nat)
    requires i < |xs|
    ensures (((x + Render(prefix + Cells(k, xs[..i]))) + TagText(CellOpen(k))) + xs[i]) + TagText(CellClose(k))
      == x + Render(prefix + Cells(k, xs[..i + 1]))
  {
    RenderCellStep(prefix, k, xs, i);
    Extend3(x, Render(prefix + Cells(k, xs[..i])), TagText(CellOpen(k)), xs[i], TagText(CellClose(k)));
  }

  /** Appending `</tr>` after the cells of body row `row` completes that row. */
  lemma AppendRowClose(x: string, prefix: seq<Piece>, rows: seq<seq<string>>, row: nat)
    requires row < |rows|
    ensures (x + Render(prefix + Rows(rows[..row]) + [ROW_OPEN] + Cells(BodyCell, rows[row]))) + TagText(RowClose)
      == x + Render(prefix + Rows(rows[..row + 1]))
  {
    RenderRowStep(prefix, rows, row);
    Assoc(x, Render(prefix + Rows(rows[..row]) + [ROW_OPEN] + Cells(BodyCell, rows[row])), TagText(RowClose));
  }

  /** `AppendCell` for a header cell, with the tags as the servlet writes them. */
  lemma AppendHeaderCell(x: string, prefix: seq<Piece>, labels: seq<string>, i: nat)
    requires i < |labels|
    ensures (((x + Render(prefix + Cells(HeaderCell, labels[..i]))) + "<th>") + labels[i]) + "</th>"
      == x + Render(prefix + Cells(HeaderCell, labels[..i + 1]))
  {
    AppendCell(x, prefix, HeaderCell, labels, i);
  }

  /** `AppendCell` for a body cell, with the tags as the servlet writes them. */
  lemma AppendBodyCell(x: string, prefix: seq<Piece>, cells: seq<string>, j: nat)
    requires j < |cells|
    ensures (((x + Render(prefix + Cells(BodyCell, cells[..j]))) + "<td>") + cells[j]) + "</td>"
      == x + Render(prefix + Cells(BodyCell, cells[..j + 1]))
  {
    AppendCell(x, prefix, BodyCell, cells, j);
  }

  /** `<tr>` after the rows written so far opens the next body row, with no cell written yet. */
  lemma OpenBodyRow(x: string, prefix: seq<Piece>, cells: seq<string>)
    ensures (x + Render(prefix)) + "<tr>" == x + Render(prefix + [ROW_OPEN] + Cells(BodyCell, cells[..0]))
  {
    AppendPiece(x, prefix, ROW_OPEN);
    NoCells(prefix + [ROW_OPEN], BodyCell, cells);
  }

  /** `</tr>` after every cell of body row `row` completes that row. */
  lemma CloseBodyRow(x: string, prefix: seq<Piece>, rows: seq<seq<string>>, row: nat)
    requires row < |rows|
    ensures (x + Render(prefix + Rows(rows[..row]) + [ROW_OPEN] + Cells(BodyCell, rows[row][..|rows[row]|]))) + "</tr>"
      == x + Render(prefix + Rows(rows[..row + 1]))
  {
    assert rows[row][..|rows[row]|] == rows[row];
    AppendRowClose(x, prefix, rows, row);
  }

  /** No cells yet: the pieces are just `prefix`. */
  lemma NoCells(prefix: seq<Piece>, k: CellKind, xs: seq<string>)
    ensures prefix + Cells(k, xs[..0]) == prefix
  {
    assert xs[..0] == [];
  }

  /** The text `<center><table border>` is the rendered table opening. */
  lemma OpenTable(x: string)
    ensures x + "<center><table border>" == x + Render([TABLE_OPEN])
  {
    RenderPiece([], TABLE_OPEN);
    assert [] + [TABLE_OPEN] == [TABLE_OPEN];
  }

  /** After the table opening, `<tr>` starts the header row, with no label written yet. */
  lemma OpenHeaderRow(x: string, labels: seq<string>)
    ensures (x + Render([TABLE_OPEN])) + "<tr>" == x + Render([TABLE_OPEN, ROW_OPEN] + Cells(HeaderCell, labels[..0]))
  {
    AppendPiece(x, [TABLE_OPEN], ROW_OPEN);
    NoCells([TABLE_OPEN, ROW_OPEN], HeaderCell, labels);
    assert [TABLE_OPEN] + [ROW_OPEN] == [TABLE_OPEN, ROW_OPEN];
  }

  /** `</tr>` after all labels completes the header row, with no body row written yet. */
  lemma CloseHeaderRow(x: string, labels: seq<string>, rows: seq<seq<string>>)
    ensures (x + Render([TABLE_OPEN, ROW_OPEN] + Cells(HeaderCell, labels[..|labels|]))) + "</tr>"
      == x + Render([TABLE_OPEN] + Row(HeaderCell, labels) + Rows(rows[..0]))
  {
    var cells := Cells(HeaderCell, labels);
    assert labels[..|labels|] == labels;
    AppendPiece(x, [TABLE_OPEN, ROW_OPEN] + cells, ROW_CLOSE);
    assert rows[..0] == [];
    PiecesRegroup([TABLE_OPEN], [ROW_OPEN], cells, [ROW_CLOSE]);
    assert [TABLE_OPEN] + [ROW_OPEN] == [TABLE_OPEN, ROW_OPEN];
  }

  lemma PiecesRegroup(a: seq<Piece>, b: seq<Piece>, c: seq<Piece>, d: seq<Piece>)
    ensures a + ((b + c) + d) + [] == ((a + b) + c) + d
  {
  }

  /** `</table></center>` after every body row completes the table. */
  lemma CloseTable(x: string, labels: seq<string>, rows: seq<seq<string>>)
    ensures (x + Render([TABLE_OPEN] + Row(HeaderCell, labels) + Rows(rows[..|rows|]))) + "</table></center>"
      == x + Render(Table(labels, rows))
  {
    assert rows[..|rows|] == rows;
    AppendPiece(x, [TABLE_OPEN] + Row(HeaderCell, labels) + Rows(rows), TABLE_CLOSE);
  }

  /** `getMetaData` throws: only the table opening has been written. */
  lemma EmittedAtMetaData(rs: ResultSet)
    requires FailsAt(rs, MetaDataFault)
    ensures Throws(rs) && Emitted(rs) == [TABLE_OPEN]
  {
  }

  /**
   * A label lookup throws: the header row holds the labels before it and the
   * `<th>` appended before the lookup.
   */
  lemma EmittedAtLabel(rs: ResultSet)
    requires rs.fault.Some? && rs.fault.value.point.LabelFault?
    requires rs.fault.value.point.column < |rs.labels|
    ensures Throws(rs)
    ensures Emitted(rs) == [TABLE_OPEN, ROW_OPEN] + Cells(HeaderCell, rs.labels[..rs.fault.value.point.column]) + [TH_OPEN]
  {
  }

  /** `next` throws on row `row`: the header and the rows before it have been written. */
  lemma EmittedAtNext(rs: ResultSet, row: nat)
    requires FailsAt(rs, NextFault(row)) && row <= |rs.rows|
    ensures Throws(rs)
    ensures Emitted(rs) == [TABLE_OPEN] + Row(HeaderCell, rs.labels) + Rows(rs.rows[..row])
  {
  }

  /** A `getString` throws: the current row holds the cells before it. */
  lemma EmittedAtCell(rs: ResultSet, row: nat)
    requires rs.fault.Some? && rs.fault.value.point.CellFault? && rs.fault.value.point.row == row
    requires row < |rs.rows| && rs.fault.value.point.column < |rs.labels|
    ensures Throws(rs)
    ensures Emitted(rs)
      == [TABLE_OPEN] + Row(HeaderCell, rs.labels) + Rows(rs.rows[..row])
       + [ROW_OPEN] + Cells(BodyCell, rs.rows[row][..rs.fault.value.point.column])
  {
  }

  /** Every call up to the final `next` succeeded: the whole table has been written. */
  lemma EmittedWhole(rs: ResultSet)
    requires ClearBeforeRow(rs, |rs.rows|) && !FailsAt(rs, NextFault(|rs.rows|))
    ensures !Throws(rs) && Emitted(rs) == Table(rs.labels, rs.rows)
  {
  }

  /** What is in the buffer when label `i` throws is all the table `rs` emits. */
  lemma LabelThrowOutput(rs: ResultSet, x: string, prefix: seq<Piece>, i: nat)
    requires prefix == [TABLE_OPEN, ROW_OPEN]
    requires FailsAt(rs, LabelFault(i)) && i < |rs.labels|
    ensures Throws(rs)
    ensures (x + Render(prefix + Cells(HeaderCell, rs.labels[..i]))) + "<th>" == x + Render(Emitted(rs))
  {
    EmittedAtLabel(rs);
    AppendPiece(x, prefix + Cells(HeaderCell, rs.labels[..i]), TH_OPEN);
  }
}
