/**
 * The servlet that renders one page of Indianapolis 500 winners. All HTML
 * goes into one `buffer` owned by the servlet instance and never cleared,
 * so every response carries the output of every earlier request before
 * its own. The database is a function from SQL text to what the JDBC calls
 * yield; the elapsed time of the query step is a parameter.
 */
module Servlet {
  import opened Wrappers
  import opened JavaInt
  import opened Decimal
  import opened ResultSets
  import opened TableHtml
  import opened Paging
  import opened Strings

  const PAGE_HEADER := "<html>" + "<head><title>Indianapolis 500 Winners</title></head>"
    + "<h2><center>Indianapolis 500 Winners</center></h2><br>"
  const PAGE_END := "</html>"

  /** What `PrintWriter.println` adds after the buffer (taken to be the Unix line separator). */
  const LINE_SEPARATOR := "\n"

  function ExceptionHtml(message: string): string {
    "Exception! " + message
  }

  function RowsLine(rowCount: int32, elapsed: int64): string {
    "<br><i>(" + Show(rowCount as int) + " rows in " + Show(elapsed as int) + " ms)</i>"
  }

  /** Everything the query step writes for the page `page`. */
  function QueryOutput(conn: Connection, page: int32, elapsed: int64): string {
    (match conn
     case Refused(message) => ExceptionHtml(message)
     case Opened(rs) =>
       Render(Emitted(rs))
       + (if Throws(rs) then ExceptionHtml(rs.fault.value.message) else RowsLine(Wrap32(|rs.rows|), elapsed)))
    + PaginationHtml(page)
  }

  /** Everything one request appends to the buffer. */
  function RequestOutput(param: PageParam, db: string -> Connection, elapsed: int64): string {
    PAGE_HEADER + RequestBody(param, db, elapsed)
  }

  /** What a request appends after the page header: nothing when the page parameter does not parse. */
  function RequestBody(param: PageParam, db: string -> Connection, elapsed: int64): string {
    match CurrentPage(param)
    case None => ""
    case Some(page) => QueryOutput(db(PageQuery(page)), page, elapsed) + PAGE_END
  }

  /** The outputs of a series of requests, one after the other. */
  function Concat(outputs: seq<string>): string {
    if outputs == [] then "" else Concat(outputs[..|outputs| - 1]) + outputs[|outputs| - 1]
  }

  /** Later requests only extend what earlier requests wrote. */
  lemma {:induction false} ConcatPrefix(earlier: seq<string>, later: seq<string>)
    requires earlier <= later
    ensures Concat(earlier) <= Concat(later)
    decreases |later|
  {
    if earlier != later {
      var n := |later| - 1;
      assert earlier <= later[..n];
      ConcatPrefix(earlier, later[..n]);
    }
  }

  lemma ConcatSnoc(outputs: seq<string>, x: string)
    ensures Concat(outputs + [x]) == Concat(outputs) + x
  {
    assert (outputs + [x])[..|outputs|] == outputs;
  }

  /**
   * A query that runs through writes the complete table, a row count equal
   * to the number of rows delivered (as a Java `int`), and the navigation.
   */
  lemma QuerySucceeds(conn: Connection, page: int32, elapsed: int64)
    requires conn.Opened? && !Throws(conn.results)
    ensures QueryOutput(conn, page, elapsed)
      == Render(Table(conn.results.labels, conn.results.rows))
       + RowsLine(Wrap32(|conn.results.rows|), elapsed) + PaginationHtml(page)
    ensures |conn.results.rows| <= MAX_INT32 ==> Wrap32(|conn.results.rows|) as int == |conn.results.rows|
  {
    EmittedIsPrefix(conn.results);
  }

  /**
   * A result set whose reading throws writes what was written of the table
   * before the fault (a strict prefix of the complete table), then the
   * exception text, then the navigation; no row-count line is written.
   */
  lemma QueryFails(rs: ResultSet, page: int32, elapsed: int64)
    requires Throws(rs)
    ensures QueryOutput(Opened(rs), page, elapsed)
      == Render(Emitted(rs)) + ExceptionHtml(rs.fault.value.message) + PaginationHtml(page)
    ensures Render(Emitted(rs)) <= Render(Table(rs.labels, rs.rows))
    ensures |Render(Emitted(rs))| < |Render(Table(rs.labels, rs.rows))|
  {
    var table := Table(rs.labels, rs.rows);
    EmittedIsPrefix(rs);
    var body := table[..|table| - 1];
    assert table == body + [TABLE_CLOSE];
    assert Emitted(rs) <= body;
    RenderPrefix(Emitted(rs), body);
    RenderPiece(body, TABLE_CLOSE);
  }

  /**
   * A result set without rows gives a table holding only its header row,
   * the line "(0 rows in ...)", and navigation without a Previous link on
   * the first page.
   */
  lemma EmptyResult(labels: seq<string>, page: int32, elapsed: int64)
    ensures var rs: ResultSet := RawResultSet(labels, [], None);
      && QueryOutput(Opened(rs), page, elapsed)
        == Render([TABLE_OPEN] + Row(HeaderCell, labels) + [TABLE_CLOSE])
         + RowsLine(0, elapsed) + PaginationHtml(page)
      && Count(Table(labels, []), ROW_OPEN) == 1
      && Count(Table(labels, []), Markup(CellOpen(BodyCell))) == 0
      && (page == 1 ==> !Contains(PaginationHtml(page), "Previous"))
  {
    var rs: ResultSet := RawResultSet(labels, [], None);
    QuerySucceeds(Opened(rs), page, elapsed);
    assert Table(labels, []) == [TABLE_OPEN] + Row(HeaderCell, labels) + [TABLE_CLOSE];
    TableCounts(rs);
    PaginationLinks(page);
  }

  /**
   * Every request starts with the page header. A page parameter that does
   * not parse ends the request right after it; otherwise the query for the
   * current page (1 when the parameter is missing) follows, and `</html>`
   * closes the output.
   */
  lemma RequestOutputShape(param: PageParam, db: string -> Connection, elapsed: int64)
    ensures PAGE_HEADER <= RequestOutput(param, db, elapsed)
    ensures param.Unparsable? ==> RequestOutput(param, db, elapsed) == PAGE_HEADER
    ensures param.Absent? ==>
      RequestOutput(param, db, elapsed) == PAGE_HEADER + QueryOutput(db(PageQuery(1)), 1, elapsed) + PAGE_END
    ensures param.Parsed? ==>
      RequestOutput(param, db, elapsed)
      == PAGE_HEADER + QueryOutput(db(PageQuery(param.value)), param.value, elapsed) + PAGE_END
  {
    var body := RequestBody(param, db, elapsed);
    AppendExtends(PAGE_HEADER, body);
    if param.Unparsable? {
      AppendEmpty(PAGE_HEADER);
    } else {
      Assoc(PAGE_HEADER, QueryOutput(db(PageQuery(CurrentPage(param).value)), CurrentPage(param).value, elapsed), PAGE_END);
    }
  }

  /** A request whose page parameter does not parse appends the page header alone. */
  lemma HeaderOnly(x: string, param: PageParam, db: string -> Connection, elapsed: int64)
    requires param.Unparsable?
    ensures x + PAGE_HEADER == x + RequestOutput(param, db, elapsed)
  {
    AppendEmpty(PAGE_HEADER);
  }

  /** The three appends of a request whose page parameter gives page `page`. */
  lemma RequestAppends(x: string, param: PageParam, db: string -> Connection, elapsed: int64, page: int32)
    requires CurrentPage(param) == Some(page)
    ensures ((x + PAGE_HEADER) + QueryOutput(db(PageQuery(page)), page, elapsed)) + PAGE_END
      == x + RequestOutput(param, db, elapsed)
  {
    Regroup3(x, PAGE_HEADER, QueryOutput(db(PageQuery(page)), page, elapsed), PAGE_END);
    Assoc(PAGE_HEADER, QueryOutput(db(PageQuery(page)), page, elapsed), PAGE_END);
  }

  class IndyWinnerSimpleSV {
    /** The HTML content builder, shared by all requests to this instance. */
    var buffer: string
    /** What each request served so far has appended, in order. */
    ghost var outputs: seq<string>

    ghost predicate Valid()
      reads this
    {
      buffer == Concat(outputs)
    }

    constructor ()
      ensures Valid() && outputs == [] && buffer == ""
    {
      buffer := "";
      outputs := [];
    }

    /**
     * Serves one request. The response body is the whole buffer, which
     * begins with everything earlier requests wrote; a page parameter that
     * does not parse makes the request fail (no response) after the page
     * header has already been appended.
     */
    method DoGet(param: PageParam, db: string -> Connection, elapsed: int64) returns (response: Option<string>)
      requires Valid()
      modifies this
      ensures Valid()
      ensures outputs == old(outputs) + [RequestOutput(param, db, elapsed)]
      ensures buffer == old(buffer) + RequestOutput(param, db, elapsed)
      ensures response == if param.Unparsable? then None else Some(buffer + LINE_SEPARATOR)
      ensures response.Some? ==> old(buffer) <= response.value
    {
      FormatPageHeader();
      var currentPage: int32 := 1;
      if !param.Absent? {
        if param.Unparsable? {
          // Integer.parseInt throws: the request ends with the header written.
          HeaderOnly(old(buffer), param, db, elapsed);
          outputs := outputs + [RequestOutput(param, db, elapsed)];
          ConcatSnoc(old(outputs), RequestOutput(param, db, elapsed));
          return None;
        }
        currentPage := param.value;
      }
      var winnersPerPage := WINNERS_PER_PAGE;
      var offset := Wrap32(Wrap32(currentPage as int - 1) as int * winnersPerPage);
      var query := QUERY_HEAD + Show(winnersPerPage) + " OFFSET " + Show(offset as int);
      assert query == PageQuery(currentPage);
      SqlQuery(query, db, currentPage, elapsed);
      buffer := buffer + PAGE_END;
      RequestAppends(old(buffer), param, db, elapsed, currentPage);
      outputs := outputs + [RequestOutput(param, db, elapsed)];
      ConcatSnoc(old(outputs), RequestOutput(param, db, elapsed));
      response := Some(buffer + LINE_SEPARATOR);
      AppendTwiceExtends(old(buffer), RequestOutput(param, db, elapsed), LINE_SEPARATOR);
    }

    method FormatPageHeader()
      modifies this`buffer
      ensures buffer == old(buffer) + PAGE_HEADER
    {
      buffer := buffer + "<html>";
      buffer := buffer + "<head><title>Indianapolis 500 Winners</title></head>";
      buffer := buffer + "<h2><center>Indianapolis 500 Winners</center></h2><br>";
      Extend3(old(buffer), "", "<html>", "<head><title>Indianapolis 500 Winners</title></head>",
        "<h2><center>Indianapolis 500 Winners</center></h2><br>");
      assert old(buffer) + "" == old(buffer);
      assert "" + "<html>" == "<html>";
    }

    /**
     * Runs `query` and writes the table, then either the row count and the
     * elapsed time or the exception text, then the navigation.
     */
    method SqlQuery(query: string, db: string -> Connection, currentPage: int32, elapsed: int64)
      modifies this`buffer
      ensures buffer == old(buffer) + QueryOutput(db(query), currentPage, elapsed)
    {
      var success := true;
      var rowCount: int32 := 0;
      var conn := db(query);
      ghost var written: string;
      match conn {
        case Refused(message) =>
          buffer := buffer + "Exception! " + message;
          success := false;
          written := ExceptionHtml(message);
          Assoc(old(buffer), "Exception! ", message);
        case Opened(rs) =>
          var count, thrown := ResultSetToHtml(rs);
          ghost var table := buffer;
          if thrown.Some? {
            buffer := buffer + "Exception! " + thrown.value;
            success := false;
            written := Render(Emitted(rs)) + ExceptionHtml(thrown.value);
            Assoc(table, "Exception! ", thrown.value);
            Assoc(old(buffer), Render(Emitted(rs)), ExceptionHtml(thrown.value));
          } else {
            rowCount := count;
            written := Render(Emitted(rs));
          }
      }
      assert buffer == old(buffer) + written;
      if success {
        ghost var before := buffer;
        buffer := buffer + "<br><i>(" + Show(rowCount as int) + " rows in " + Show(elapsed as int) + " ms)</i>";
        Extend5(old(buffer), written, "<br><i>(", Show(rowCount as int), " rows in ", Show(elapsed as int), " ms)</i>");
        Assoc(written, "<br><i>(", Show(rowCount as int));
        Assoc(written, "<br><i>(" + Show(rowCount as int), " rows in ");
        Assoc(written, "<br><i>(" + Show(rowCount as int) + " rows in ", Show(elapsed as int));
        Assoc(written, "<br><i>(" + Show(rowCount as int) + " rows in " + Show(elapsed as int), " ms)</i>");
        written := written + RowsLine(rowCount, elapsed);
      }
      assert buffer == old(buffer) + written;
      AddPaginationControls(currentPage);
      Assoc(old(buffer), written, PaginationHtml(currentPage));
      assert QueryOutput(conn, currentPage, elapsed) == written + PaginationHtml(currentPage);
    }

    /**
     * Writes the result set as a table and returns the number of rows read;
     * a JDBC call that throws stops the writing where it happens and hands
     * the exception text back instead.
     */
    method ResultSetToHtml(rs: ResultSet) returns (rowCount: int32, thrown: Option<string>)
      modifies this`buffer
      ensures buffer == old(buffer) + Render(Emitted(rs))
      ensures thrown.Some? <==> Throws(rs)
      ensures thrown.Some? ==> thrown.value == rs.fault.value.message
      ensures thrown.None? ==> rowCount == Wrap32(|rs.rows|)
    {
      rowCount := 0;
      thrown := None;
      buffer := buffer + "<center><table border>";
      OpenTable(old(buffer));
      if FailsAt(rs, MetaDataFault) {
        EmittedAtMetaData(rs);
        thrown := Some(rs.fault.value.message);
        return;
      }
      var columnCount := |rs.labels|;
      buffer := buffer + "<tr>";
      OpenHeaderRow(old(buffer), rs.labels);
      thrown := LabelsToHtml(rs, old(buffer), [TABLE_OPEN, ROW_OPEN]);
      if thrown.Some? {
        LabelThrowOutput(rs, old(buffer), [TABLE_OPEN, ROW_OPEN], rs.fault.value.point.column);
        return;
      }
      HeaderRead(rs);
      buffer := buffer + "</tr>";
      CloseHeaderRow(old(buffer), rs.labels, rs.rows);
      ghost var head := [TABLE_OPEN] + Row(HeaderCell, rs.labels);
      rowCount, thrown := RowsToHtml(rs, old(buffer), head);
      if thrown.Some? {
        return;
      }
      buffer := buffer + "</table></center>";
      CloseTable(old(buffer), rs.labels, rs.rows);
      CountIsWrap(|rs.rows|);
    }

    /**
     * Writes one table row per result-set row, the row loop of
     * `ResultSetToHtml`, after the table head `x + Render(head)` already in
     * the buffer, and counts the rows; an `rs.next()` or `getString` that
     * throws stops the writing and hands the exception text back.
     */
    method RowsToHtml(rs: ResultSet, ghost x: string, ghost head: seq<Piece>) returns (rowCount: int32, thrown: Option<string>)
      requires head == [TABLE_OPEN] + Row(HeaderCell, rs.labels)
      requires ClearBeforeRow(rs, 0)
      requires buffer == x + Render(head + Rows(rs.rows[..0]))
      modifies this`buffer
      ensures thrown.Some? <==> Throws(rs)
      ensures thrown.Some? ==> thrown.value == rs.fault.value.message && buffer == x + Render(Emitted(rs))
      ensures thrown.None? ==> rowCount == Count32(|rs.rows|) && buffer == x + Render(head + Rows(rs.rows[..|rs.rows|]))
    {
      rowCount := 0;
      thrown := None;
      var row := 0;
      while true
        invariant 0 <= row <= |rs.rows|
        invariant rowCount == Count32(row)
        invariant thrown.None?
        invariant buffer == x + Render(head + Rows(rs.rows[..row]))
        invariant ClearBeforeRow(rs, row)
        decreases |rs.rows| - row
      {
        // rs.next()
        if FailsAt(rs, NextFault(row)) {
          EmittedAtNext(rs, row);
          thrown := Some(rs.fault.value.message);
          return;
        }
        if row == |rs.rows| {
          break;
        }
        rowCount := Inc32(rowCount);
        ghost var done := head + Rows(rs.rows[..row]);
        buffer := buffer + "<tr>";
        OpenBodyRow(x, done, rs.rows[row]);
        thrown := CellsToHtml(rs, row, x, done + [ROW_OPEN]);
        if thrown.Some? {
          EmittedAtCell(rs, row);
          return;
        }
        buffer := buffer + "</tr>";
        CloseBodyRow(x, head, rs.rows, row);
        row := row + 1;
      }
      EmittedWhole(rs);
    }

    /**
     * Writes one `<th>` cell per column label, the header loop of
     * `ResultSetToHtml`, after the text `x + Render(prefix)` already in the
     * buffer; a label lookup that throws stops the writing, right after the
     * `<th>` of its cell, and hands the exception text back.
     */
    method LabelsToHtml(rs: ResultSet, ghost x: string, ghost prefix: seq<Piece>) returns (thrown: Option<string>)
      requires ClearBeforeLabel(rs, 0)
      requires buffer == x + Render(prefix + Cells(HeaderCell, rs.labels[..0]))
      modifies this`buffer
      ensures thrown.None? ==> ClearBeforeLabel(rs, |rs.labels|)
      ensures thrown.None? ==> buffer == x + Render(prefix + Cells(HeaderCell, rs.labels[..|rs.labels|]))
      ensures thrown.Some? ==>
        && rs.fault.Some? && rs.fault.value.point.LabelFault?
        && rs.fault.value.point.column < |rs.labels|
        && thrown.value == rs.fault.value.message
        && buffer == (x + Render(prefix + Cells(HeaderCell, rs.labels[..rs.fault.value.point.column]))) + "<th>"
    {
      thrown := None;
      var columnCount := |rs.labels|;
      for i := 0 to columnCount
        invariant buffer == x + Render(prefix + Cells(HeaderCell, rs.labels[..i]))
        invariant ClearBeforeLabel(rs, i)
      {
        // `<th>` is appended before `getColumnLabel` is called.
        buffer := buffer + "<th>";
        if FailsAt(rs, LabelFault(i)) {
          thrown := Some(rs.fault.value.message);
          return;
        }
        buffer := buffer + rs.labels[i] + "</th>";
        AppendHeaderCell(x, prefix, rs.labels, i);
      }
    }

    /**
     * Writes the cells of row `row`, the inner loop of the row loop of
     * `ResultSetToHtml`, after the text `x + Render(prefix)` already in the
     * buffer; a `getString` that throws stops the writing and hands the
     * exception text back.
     */
    method CellsToHtml(rs: ResultSet, row: nat, ghost x: string, ghost prefix: seq<Piece>) returns (thrown: Option<string>)
      requires row < |rs.rows| && ClearBeforeCell(rs, row, 0)
      requires buffer == x + Render(prefix + Cells(BodyCell, rs.rows[row][..0]))
      modifies this`buffer
      ensures thrown.None? ==> ClearBeforeCell(rs, row, |rs.labels|)
      ensures thrown.None? ==> buffer == x + Render(prefix + Cells(BodyCell, rs.rows[row][..|rs.rows[row]|]))
      ensures thrown.Some? ==>
        && rs.fault.Some? && rs.fault.value.point.CellFault? && rs.fault.value.point.row == row
        && rs.fault.value.point.column < |rs.labels|
        && thrown.value == rs.fault.value.message
        && buffer == x + Render(prefix + Cells(BodyCell, rs.rows[row][..rs.fault.value.point.column]))
    {
      thrown := None;
      var columnCount := |rs.labels|;
      for j := 0 to columnCount
        invariant buffer == x + Render(prefix + Cells(BodyCell, rs.rows[row][..j]))
        invariant ClearBeforeCell(rs, row, j)
      {
        if FailsAt(rs, CellFault(row, j)) {
          thrown := Some(rs.fault.value.message);
          return;
        }
        buffer := buffer + "<td>" + rs.rows[row][j] + "</td>";
        AppendBodyCell(x, prefix, rs.rows[row], j);
      }
    }

    /** Writes the Previous link (only after the first page) and the Next link. */
    method AddPaginationControls(currentPage: int32)
      modifies this`buffer
      ensures buffer == old(buffer) + PaginationHtml(currentPage)
    {
      buffer := buffer + "<center>";
      if currentPage > 1 {
        buffer := buffer + "<a href=\"IndyWinnerSimpleSV?page=" + Show(currentPage as int - 1) + "\">Previous</a> ";
      }
      buffer := buffer + "<a href=\"IndyWinnerSimpleSV?page=" + Show(Wrap32(currentPage as int + 1) as int) + "\">Next</a>";
      buffer := buffer + "</center>";
      PaginationAppends(old(buffer), currentPage);
    }
  }
}
