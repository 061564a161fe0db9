# Indianapolis 500 winners servlet, modelled in Dafny

This project models the servlet `IndyWinnerSimpleSV` and the record class
`IndyWinner`. The servlet renders one page of race winners as HTML. Each
request does the following:

- it appends a fixed page header to a `StringBuilder` the servlet owns;
- it reads the `page` parameter, which defaults to page 1;
- it asks the database for ten rows, newest year first, after
  `(page - 1) * 10` rows;
- it writes the result set as an HTML table, followed by the line
  "(N rows in E ms)" or by the text `Exception! ...`;
- it appends Previous/Next links and `</html>`;
- it prints the whole buffer as the response.

The buffer is never cleared, so each response also holds the output of
every earlier request.

The model follows the code's own structure:

- `JavaInt` models Java `int` and `long`. `Wrap32` is two's-complement
  wrap-around. `Inc32` is `x + 1` on an `int`, and `Count32` is a counter
  incremented n times.
- `Decimal` gives the text that `StringBuilder.append(int/long)` writes. A
  reference reader serves as its inverse.
- `Paging` covers the page parameter, the offset and the query text, all
  with Java `int` arithmetic. It also covers the navigation HTML.
- `ResultSets` is the JDBC side, made abstract:
  - a connection either fails with an exception text or delivers a
    result set;
  - a result set has column labels and rows of cell text;
  - it has at most one fault, at one JDBC call: `getMetaData`,
    `getColumnLabel(c)`, the `next()` for row r, or `getString(c)` on
    row r.
- `TableHtml` describes the table as a list of pieces, each either markup
  or data, and `Render` turns the pieces into the characters that reach
  the buffer. `Emitted(rs)` is what reading `rs` writes:
  - without a fault, the complete table;
  - otherwise everything written before the failing call. For a label
    lookup that includes the `<th>` appended just before
    `getColumnLabel` runs.
- `Servlet` holds the class `IndyWinnerSimpleSV`:
  - a `buffer: string` field;
  - a ghost log of what each request appended, with the invariant that the
    buffer is the concatenation of that log;
  - one method per Java method or loop. Each appends in place, with Java's own
    literals, and is proved against the specification functions
    `QueryOutput` and `RequestOutput`.
- `IndyWinnerRecord` holds the class `IndyWinner`: three mutable fields,
  getters and setters.

Page number arithmetic wraps as in Java. The offset `(page - 1) * 10` is
the true product for pages -214748363 to 214748365: non-negative from page
1 up, negative from page 0 down. The page after 214748365 gets a negative
offset (`OffsetWrapsAfterMaxSafePage`). Pages below -214748363 wrap too,
some of them to a non-negative offset. The Next link of page
2147483647 points to page -2147483648. The row counter wraps too: the
count returned is `Wrap32` of the number of rows.

Three behaviours of the code are kept as written:

- the query orders by year, descending;
- a page parameter that does not parse makes the request fail after the
  header has been appended;
- the buffer is one per servlet instance and shared by all requests.

## Model

| member | source | states |
|---|---|---|
| `Servlet.IndyWinnerSimpleSV.constructor` | src/java/IndyWinnerSimpleSV.java:20 | the buffer starts empty and no request has been served |
| `Servlet.IndyWinnerSimpleSV.DoGet` | src/java/IndyWinnerSimpleSV.java:45-81 | the buffer grows by exactly this request's output: header, query output, `</html>`. The buffer stays the concatenation of all request outputs. The response is the whole buffer plus a line separator, so it begins with all earlier output. A page parameter that does not parse gives no response, with the header already appended |
| `Servlet.IndyWinnerSimpleSV.FormatPageHeader` | src/java/IndyWinnerSimpleSV.java:88-92 | appends exactly the fixed page header |
| `Servlet.IndyWinnerSimpleSV.SqlQuery` | src/java/IndyWinnerSimpleSV.java:106-143 | appends exactly `QueryOutput`: a refused connection gives the exception text; otherwise the emitted table, then either the row-count line or the exception text; the navigation follows in every case |
| `Servlet.IndyWinnerSimpleSV.ResultSetToHtml` | src/java/IndyWinnerSimpleSV.java:154-181 | appends `Render(Emitted(rs))`. It reports an exception exactly when reading reaches the fault point, and then with the fault's message. Otherwise it returns the number of rows as a wrapped Java `int` |
| `Servlet.IndyWinnerSimpleSV.LabelsToHtml` | src/java/IndyWinnerSimpleSV.java:162-166 | writes one header cell per column label, in column order. A failing label lookup stops the loop right after that cell's `<th>` and reports the fault's message |
| `Servlet.IndyWinnerSimpleSV.RowsToHtml` | src/java/IndyWinnerSimpleSV.java:169-177 | writes one body row per row delivered, in order, and counts them with Java `int` increments. A failing `next` or `getString` ends the writing where `Emitted` says and reports the fault |
| `Servlet.IndyWinnerSimpleSV.CellsToHtml` | src/java/IndyWinnerSimpleSV.java:172-175 | writes one `<td>` cell per column of the current row, in column order. A failing `getString` stops before its cell and reports the fault's message |
| `Servlet.IndyWinnerSimpleSV.AddPaginationControls` | src/java/IndyWinnerSimpleSV.java:189-196 | appends exactly `PaginationHtml(page)` |
| `Servlet.RequestOutputShape` | src/java/IndyWinnerSimpleSV.java:51-72 | a request's output starts with the header. It is the header alone when the parameter does not parse. Otherwise the query output for page 1 (parameter missing) or for the parsed page follows, then `</html>` |
| `Servlet.ConcatPrefix` | src/java/IndyWinnerSimpleSV.java:20 | the buffer is never cleared: what earlier requests wrote is a prefix of what later ones leave |
| `Servlet.QuerySucceeds` | src/java/IndyWinnerSimpleSV.java:116-142 | without a fault, the query output is the complete table, then "(N rows in E ms)" with N the row count, then the navigation. N equals the number of rows whenever that fits in an `int` |
| `Servlet.QueryFails` | src/java/IndyWinnerSimpleSV.java:122-142 | a fault gives the partial table, then `Exception! ` and the message, then the navigation, with no row-count line. The partial table is a strict prefix of the complete table's text |
| `Servlet.EmptyResult` | src/java/IndyWinnerSimpleSV.java:155-179 | zero rows give a table with only the header row, one `<tr>`, no `<td>`, the count 0, and no Previous link on page 1 |
| `TableHtml.EmittedIsPrefix` | src/java/IndyWinnerSimpleSV.java:154-181 | what reading writes is a prefix of the complete table. It is strictly shorter exactly when reading throws, and it is the complete table otherwise |
| `TableHtml.TableCounts` | src/java/IndyWinnerSimpleSV.java:162-176 | the complete table has one `<th>` per column, `rows * columns` `<td>`s, and one `<tr>` per row plus the header row |
| `TableHtml.TableData` | src/java/IndyWinnerSimpleSV.java:163-175 | the data in the table are the labels in column order, then the cells row by row in column order |
| `TableHtml.LabelFaultPrefix` | src/java/IndyWinnerSimpleSV.java:162-166 | the header left by a failing label lookup is a prefix of the complete header row |
| `TableHtml.CellFaultPrefix` | src/java/IndyWinnerSimpleSV.java:169-177 | the body left by a failing `getString` is a prefix of the complete body |
| `JavaInt.Count32` | src/java/IndyWinnerSimpleSV.java:155-170 | defines the counter after n Java `rowCount++` steps from 0, each step wrapping the largest `int` to the smallest |
| `Decimal.Show` | src/java/IndyWinnerSimpleSV.java:139 | defines the text `StringBuilder.append` writes for an `int` or `long`: a minus sign for negatives, then the digits without leading zeros |
| `Paging.CurrentPage` | src/java/IndyWinnerSimpleSV.java:54-57 | defines the page shown: 1 when the parameter is missing, the parsed value otherwise, and none when parsing throws |
| `Paging.Offset` | src/java/IndyWinnerSimpleSV.java:60-61 | defines the offset as `(page - 1) * 10`, with each operation wrapped as a Java `int` |
| `Paging.PageQuery` | src/java/IndyWinnerSimpleSV.java:68 | defines the query text: the fixed `SELECT ... ORDER BY year DESC LIMIT ` head, the decimal text of 10, ` OFFSET `, and the decimal text of the offset |
| `Paging.PaginationHtml` | src/java/IndyWinnerSimpleSV.java:189-196 | defines the navigation: `<center>`, the Previous link only when the page is above 1, the Next link to the wrapped page + 1, then `</center>` |
| `TableHtml.Emitted` | src/java/IndyWinnerSimpleSV.java:154-181 | defines what reading a result set writes: the complete table, or, at a fault, the table opening, then the header cells before a failing label plus its `<th>`, or the header row and the rows before a failing `next`, or those rows and the cells before a failing `getString` |
| `Servlet.QueryOutput` | src/java/IndyWinnerSimpleSV.java:106-143 | defines what the query step writes: the exception text for a refused connection; otherwise the emitted table, followed by the exception text when reading throws or by the row-count line; then the navigation |
| `Servlet.RequestOutput` | src/java/IndyWinnerSimpleSV.java:51-72 | defines what one request appends: the page header, then, unless the parameter does not parse, the query output for the current page and `</html>` |
| `JavaInt.CountIsWrap` | src/java/IndyWinnerSimpleSV.java:170 | incrementing an `int` counter from 0 n times gives `Wrap32(n)` |
| `JavaInt.Wrap32` | src/java/IndyWinnerSimpleSV.java:61 | the result agrees with the exact value modulo 2^32 and equals it when it is within `int` range |
| `Decimal.ShowRoundTrip` | src/java/IndyWinnerSimpleSV.java:68 | reading back the decimal text of any number gives the number |
| `Decimal.ShowInjective` | src/java/IndyWinnerSimpleSV.java:68 | different numbers are written differently |
| `Paging.OffsetOfPage` | src/java/IndyWinnerSimpleSV.java:60-61 | for pages 1 to 214748365 the offset is exactly `(page - 1) * 10`, never negative |
| `Paging.OffsetsAdjacent` | src/java/IndyWinnerSimpleSV.java:60-61 | for pages 1 to 214748364, the next page asks for the ten rows right after this page's |
| `Paging.OffsetWrapsAfterMaxSafePage` | src/java/IndyWinnerSimpleSV.java:61 | page 214748366 gets a negative offset through `int` overflow |
| `Paging.OffsetOfNonPositivePage` | src/java/IndyWinnerSimpleSV.java:61 | pages -214748363 to 0 get the negative offset `(page - 1) * 10` |
| `Paging.PageQueryRequestsOffset` | src/java/IndyWinnerSimpleSV.java:68 | the query is `SELECT * FROM IndyWinners ORDER BY year DESC LIMIT 10 OFFSET ` followed by text that reads back as the page's offset |
| `Paging.PageQueriesDistinct` | src/java/IndyWinnerSimpleSV.java:68 | different pages in the safe range send different queries |
| `Paging.PreviousLinkIsAnchor` | src/java/IndyWinnerSimpleSV.java:192 | after the first page, the Previous link is an anchor to `page - 1` |
| `Paging.NextLinkIsAnchor` | src/java/IndyWinnerSimpleSV.java:194 | the Next link is an anchor to `page + 1` (Java `int`) |
| `Paging.PaginationLinks` | src/java/IndyWinnerSimpleSV.java:189-196 | "Previous" appears if and only if the page is beyond the first, and then links to the page before. The Next link is always there. Both sit inside `<center>`…`</center>` |
| `IndyWinnerRecord.IndyWinner.constructor` | src/java/IndyWinner.java:22-26 | the fields hold the given id, name and year |
| `IndyWinnerRecord.IndyWinner.GetId` | src/java/IndyWinner.java:29-31 | returns the id and changes nothing |
| `IndyWinnerRecord.IndyWinner.SetId` | src/java/IndyWinner.java:32-34 | the id becomes the argument; name and year are unchanged |
| `IndyWinnerRecord.IndyWinner.GetName` | src/java/IndyWinner.java:37-39 | returns the name and changes nothing |
| `IndyWinnerRecord.IndyWinner.SetName` | src/java/IndyWinner.java:40-42 | the name becomes the argument; id and year are unchanged |
| `IndyWinnerRecord.IndyWinner.GetYear` | src/java/IndyWinner.java:45-47 | returns the year and changes nothing |
| `IndyWinnerRecord.IndyWinner.SetYear` | src/java/IndyWinner.java:48-50 | the year becomes the argument; id and name are unchanged |
| `IndyWinnerRecord.SetThenGet` | src/java/IndyWinner.java:45-50 | after `setYear(y)` the getters return the old id, the old name and `y`, and another winner object is untouched |

## Left out

- JDBC itself is not modelled: loading the driver, connecting, creating the statement and closing the resources. The fixed driver name, URL and credentials go with it. What these calls yield is the `Connection` input, and `SQLException`s from the closing calls are suppressed in the code anyway.
- Wall-clock time: the elapsed milliseconds are a parameter of `DoGet` and `SqlQuery`.
- Servlet I/O: reading the request URI and parameter, `setContentType`, and the `PrintWriter`, whose exceptions the code suppresses. The response is returned as a value. `doPost` only delegates to `doGet`.
- The `Integer.parseInt` grammar: the page parameter is absent, a parsed `int`, or text the parser rejects.
- `PrintWriter.println` adds the platform line separator, which the model fixes as `"\n"`.
- Null cells, which `StringBuilder` writes as `null`: cells, labels and the name of an `IndyWinner` are plain strings, which cannot be `null`.
- The `uri` parameter of `sqlQuery` and `resultSetToHTML` is unused in the code and omitted.
- Concurrency: the shared buffer is modelled for one request at a time.
- The text of a JDBC exception (`ex.toString()`) is an opaque string carried by the fault.
- `src/java/IndyWinnerDAO.java` and `src/java/IndyWinnerDAOImpl.java`, the data-access interface and its JDBC implementation, are not part of this model. The servlet does not use them.
- The header loop, the row loop and the cell loop of `resultSetToHTML` are separate methods (`LabelsToHtml`, `RowsToHtml`, `CellsToHtml`). Their statements and order are unchanged.
