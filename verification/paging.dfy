/**
 * The page arithmetic of a request: which page is shown, which rows the
 * query asks for, and the Previous/Next links written below the table.
 * Java `int` arithmetic is modelled with its 32-bit wrap-around.
 */
module Paging {
  import opened Wrappers
  import opened JavaInt
  import opened Decimal
  import opened Strings

  const WINNERS_PER_PAGE: int := 10

  /** The largest page whose offset `(page - 1) * 10` still fits in a Java `int`. */
  const MAX_SAFE_PAGE: int := 214748365

  /** The `page` request parameter: missing, a number `Integer.parseInt` accepts, or text it rejects. */
  datatype PageParam = Absent | Parsed(value: int32) | Unparsable

  /** The page shown: 1 when the parameter is missing; no page at all when parsing throws. */
  function CurrentPage(param: PageParam): Option<int32> {
    match param
    case Absent => Some(1)
    case Parsed(v) => Some(v)
    case Unparsable => None
  }

  /** The number of rows skipped, computed with Java `int` arithmetic. */
  function Offset(page: int32): int32 {
    Wrap32(Wrap32(page as int - 1) as int * WINNERS_PER_PAGE)
  }

  const QUERY_HEAD := "SELECT * FROM IndyWinners ORDER BY year DESC LIMIT "

  /** The SQL text sent for a page: newest winners first, ten rows, after `Offset(page)` rows. */
  function PageQuery(page: int32): string {
    QUERY_HEAD + Show(WINNERS_PER_PAGE) + " OFFSET " + Show(Offset(page) as int)
  }

  /** The query text up to the offset, with the page size written out. */
  const QUERY_PREFIX := "SELECT * FROM IndyWinners ORDER BY year DESC LIMIT 10 OFFSET "

  const LINK_HEAD := "<a href=\"IndyWinnerSimpleSV?page="

  /** The link to the page before, written only after the first page. */
  function PreviousLink(page: int32): string {
    if page > 1 then LINK_HEAD + Show(page as int - 1) + "\">Previous</a> " else ""
  }

  /** The link to the page after, computed with Java `int` arithmetic. */
  function NextLink(page: int32): string {
    LINK_HEAD + Show(Wrap32(page as int + 1) as int) + "\">Next</a>"
  }

  /** The navigation written after the table or the error message. */
  function PaginationHtml(page: int32): string {
    "<center>" + PreviousLink(page) + NextLink(page) + "</center>"
  }

  /** A link back to this servlet for page `target`, reference form. */
  function Anchor(target: int, caption: string): string {
    "<a href=\"IndyWinnerSimpleSV?page=" + Show(target) + "\">" + caption + "</a>"
  }

  /** For every page from 1 to `MAX_SAFE_PAGE` the offset is `(page - 1) * 10`, never negative. */
  lemma OffsetOfPage(page: int32)
    requires 1 <= page as int <= MAX_SAFE_PAGE
    ensures Offset(page) as int == (page as int - 1) * WINNERS_PER_PAGE
    ensures Offset(page) >= 0
  {
  }

  /** Consecutive pages ask for adjacent windows of ten rows: no row is skipped or shown twice. */
  lemma OffsetsAdjacent(page: int32)
    requires 1 <= page as int < MAX_SAFE_PAGE
    ensures Offset(page + 1) as int == Offset(page) as int + WINNERS_PER_PAGE
  {
    OffsetOfPage(page);
    OffsetOfPage(page + 1);
  }

  /** Past `MAX_SAFE_PAGE` the multiplication wraps and the offset turns negative. */
  lemma OffsetWrapsAfterMaxSafePage()
    ensures Offset((MAX_SAFE_PAGE + 1) as int32) < 0
  {
    assert Wrap32(MAX_SAFE_PAGE) as int == MAX_SAFE_PAGE;
    assert Wrap32(MAX_SAFE_PAGE * WINNERS_PER_PAGE) as int == MAX_SAFE_PAGE * WINNERS_PER_PAGE - TWO_TO_32 by {
      WrapCongruent(MAX_SAFE_PAGE * WINNERS_PER_PAGE, MAX_SAFE_PAGE * WINNERS_PER_PAGE - TWO_TO_32);
    }
  }

  /** Pages 0 and below, down to where the product would wrap, ask for a negative offset. */
  lemma OffsetOfNonPositivePage(page: int32)
    requires -214748363 <= page as int <= 0
    ensures Offset(page) as int == (page as int - 1) * WINNERS_PER_PAGE < 0
  {
  }

  lemma ShowTen()
    ensures Show(WINNERS_PER_PAGE) == "10"
  {
    assert Digits(1) == "1";
    assert Digits(0) == "0";
  }

  /** The query asks for ten rows after exactly `Offset(page)` rows. */
  lemma PageQueryRequestsOffset(page: int32)
    ensures QUERY_PREFIX <= PageQuery(page)
    ensures ParseDecimal(PageQuery(page)[|QUERY_PREFIX|..]) == Some(Offset(page) as int)
  {
    ShowTen();
    assert PageQuery(page) == QUERY_PREFIX + Show(Offset(page) as int);
    ShowRoundTrip(Offset(page) as int);
  }

  /** Different pages in the safe range send different queries. */
  lemma PageQueriesDistinct(p: int32, q: int32)
    requires 1 <= p as int <= MAX_SAFE_PAGE && 1 <= q as int <= MAX_SAFE_PAGE
    requires p != q
    ensures PageQuery(p) != PageQuery(q)
  {
    PageQueryRequestsOffset(p);
    PageQueryRequestsOffset(q);
    OffsetOfPage(p);
    OffsetOfPage(q);
  }

  /** The Previous link, when written, is the anchor for the page before followed by a space. */
  lemma PreviousLinkIsAnchor(page: int32)
    requires page > 1
    ensures PreviousLink(page) == Anchor(page as int - 1, "Previous") + " "
  {
    var t := Show(page as int - 1);
    assert "\">Previous</a> " == (("\">" + "Previous") + "</a>") + " ";
    Assoc(LINK_HEAD + t, ("\">" + "Previous") + "</a>", " ");
    Assoc(LINK_HEAD + t, "\">" + "Previous", "</a>");
    Assoc(LINK_HEAD + t, "\">", "Previous");
  }

  lemma NextLinkIsAnchor(page: int32)
    ensures NextLink(page) == Anchor(Wrap32(page as int + 1) as int, "Next")
  {
    var t := Show(Wrap32(page as int + 1) as int);
    assert "\">Next</a>" == ("\">" + "Next") + "</a>";
    Assoc(LINK_HEAD + t, "\">" + "Next", "</a>");
    Assoc(LINK_HEAD + t, "\">", "Next");
  }

  /**
   * Appending the navigation piece by piece, the Previous link only after
   * the first page, appends `PaginationHtml(page)`.
   */
  lemma PaginationAppends(x: string, page: int32)
    ensures page > 1 ==>
      (((((((x + "<center>") + LINK_HEAD) + Show(page as int - 1)) + "\">Previous</a> ")
        + LINK_HEAD) + Show(Wrap32(page as int + 1) as int)) + "\">Next</a>") + "</center>"
      == x + PaginationHtml(page)
    ensures page <= 1 ==>
      ((((x + "<center>") + LINK_HEAD) + Show(Wrap32(page as int + 1) as int)) + "\">Next</a>") + "</center>"
      == x + PaginationHtml(page)
  {
    if page > 1 {
      Regroup8(x, "<center>", LINK_HEAD, Show(page as int - 1), "\">Previous</a> ",
        Show(Wrap32(page as int + 1) as int), "\">Next</a>", "</center>");
    } else {
      Regroup5(x, "<center>", LINK_HEAD, Show(Wrap32(page as int + 1) as int), "\">Next</a>", "</center>");
    }
  }

  /** Whatever `PreviousLink(page)` holds, `PaginationHtml(page)` holds too. */
  lemma InPaginationViaPrevious(page: int32, w: string)
    requires Contains(PreviousLink(page), w)
    ensures Contains(PaginationHtml(page), w)
  {
    ContainsLeft("<center>", PreviousLink(page), w);
    ContainsRight("<center>" + PreviousLink(page), NextLink(page), w);
    ContainsRight("<center>" + PreviousLink(page) + NextLink(page), "</center>", w);
  }

  lemma PaginationWithPrevious(page: int32)
    requires page > 1
    ensures Contains(PaginationHtml(page), "Previous")
    ensures Contains(PaginationHtml(page), Anchor(page as int - 1, "Previous"))
  {
    var tail := "\">Previous</a> ";
    assert OccursAt(tail, "Previous", 2);
    ContainsLeft(LINK_HEAD + Show(page as int - 1), tail, "Previous");
    InPaginationViaPrevious(page, "Previous");
    PreviousLinkIsAnchor(page);
    ContainsSelf(Anchor(page as int - 1, "Previous"), " ");
    InPaginationViaPrevious(page, Anchor(page as int - 1, "Previous"));
  }

  lemma PaginationWithoutPrevious(page: int32)
    requires page <= 1
    ensures !Contains(PaginationHtml(page), "Previous")
  {
    var t := Show(Wrap32(page as int + 1) as int);
    ShowCharacters(Wrap32(page as int + 1) as int);
    assert 'P' !in t;
    assert 'P' !in LINK_HEAD && 'P' !in "\">Next</a>";
    assert 'P' !in NextLink(page);
    assert 'P' !in "<center>" && 'P' !in "</center>";
    assert PreviousLink(page) == "";
    assert 'P' !in PaginationHtml(page);
    NotContainsWithoutFirst(PaginationHtml(page), "Previous");
  }

  lemma PaginationNext(page: int32)
    ensures Contains(PaginationHtml(page), Anchor(Wrap32(page as int + 1) as int, "Next"))
  {
    var w := Anchor(Wrap32(page as int + 1) as int, "Next");
    NextLinkIsAnchor(page);
    ContainsSelf(w, "");
    assert w + "" == w;
    ContainsLeft("<center>" + PreviousLink(page), NextLink(page), w);
    ContainsRight("<center>" + PreviousLink(page) + NextLink(page), "</center>", w);
  }

  /**
   * A Previous link appears exactly when the page is beyond the first, and
   * then leads to the page before; the Next link to the following page is
   * always there; both sit inside one `<center>` element.
   */
  lemma PaginationLinks(page: int32)
    ensures Contains(PaginationHtml(page), "Previous") <==> page > 1
    ensures page > 1 ==> Contains(PaginationHtml(page), Anchor(page as int - 1, "Previous"))
    ensures Contains(PaginationHtml(page), Anchor(Wrap32(page as int + 1) as int, "Next"))
    ensures "<center>" <= PaginationHtml(page)
    ensures PaginationHtml(page)[|PaginationHtml(page)| - |"</center>"|..] == "</center>"
  {
    if page > 1 {
      PaginationWithPrevious(page);
    } else {
      PaginationWithoutPrevious(page);
    }
    PaginationNext(page);
  }
}
