/** The pagination arithmetic shared by the catalogue and admin listings
    (`getAllBooks` and `searchBooks` in `backend/books.php`, `getAllMembers`
    and `getBooksForManagement` in `backend/admin.php`): page `p` of size
    `limit` starts at row `(p - 1) * limit`, and the number of pages is
    `ceil(total / limit)`.

    The page and limit come from the query string after an `(int)` cast, so
    they can be zero or negative.  MySQL rejects a negative `LIMIT` or
    `OFFSET`, which the handler reports with its own failure message; a zero
    limit is accepted by MySQL but makes the later `total / limit` throw a
    `DivisionByZeroError`, which nothing catches.
 */
module Paging {
  import opened Basics

  /** The `LIMIT ? OFFSET ?` of one page. */
  datatype Window = Window(offset: nat, limit: nat)

  /** The window of page `page`, or the handler's failure when the database
      rejects the negative `LIMIT` or `OFFSET`. */
  function PageWindow(page: int, limit: int, failure: string): (r: Result<Window>)
    ensures r.Ok? <==> limit >= 0 && (page - 1) * limit >= 0
    ensures r.Err? ==> r.error == BadRequest(failure)
    ensures r.Ok? ==> r.value.offset == (page - 1) * limit && r.value.limit == limit
  {
    var offset := (page - 1) * limit;
    if limit < 0 || offset < 0 then Err(BadRequest(failure))
    else Ok(Window(offset, limit))
  }

  /** The rows `LIMIT limit OFFSET offset` returns. */
  function Slice<T>(rows: seq<T>, w: Window): (r: seq<T>)
    ensures |r| == Min(w.limit, Max(|rows| - w.offset, 0))
    ensures forall k :: 0 <= k < |r| ==> w.offset + k < |rows| && r[k] == rows[w.offset + k]
  {
    var lo := Min(w.offset, |rows|);
    var hi := Min(w.offset + w.limit, |rows|);
    rows[lo..hi]
  }

  /** `ceil(total / limit)`: the fewest pages of `limit` rows that hold
      `total` rows; a zero limit is a division by zero. */
  function TotalPages(total: nat, limit: nat): (r: Result<nat>)
    ensures limit == 0 <==> r.Err?
    ensures r.Err? ==> r.error.Fatal?
    ensures r.Ok? ==> r.value * limit >= total && (r.value == 0 || (r.value - 1) * limit < total)
  {
    if limit == 0 then Err(Fatal("Division by zero"))
    else
      var tp := (total + limit - 1) / limit;
      CeilDivIsLeast(total, limit, tp);
      Ok(tp)
  }

  lemma CeilDivIsLeast(total: nat, limit: nat, tp: nat)
    requires limit > 0 && tp == (total + limit - 1) / limit
    ensures tp * limit >= total && (tp == 0 || (tp - 1) * limit < total)
  {
    var m := total + limit - 1;
    assert m == tp * limit + m % limit;
    assert (tp - 1) * limit == tp * limit - limit;
  }

  /** `d * limit` is at least `limit` when `d >= 1`, and at most 0 when `d <= 0`. */
  lemma {:induction false} MulSign(d: int, limit: nat)
    ensures d >= 1 ==> d * limit >= limit
    ensures d <= 0 ==> d * limit <= 0
    decreases if d < 0 then -d else d
  {
    if d > 1 {
      MulSign(d - 1, limit);
      assert d * limit == (d - 1) * limit + limit;
    } else if d < 0 {
      MulSign(d + 1, limit);
      assert d * limit == (d + 1) * limit - limit;
    }
  }

  /** Row `i` lies on page `i / limit + 1`, and on no other page. */
  lemma RowOnOnePage(i: nat, limit: nat, page: int)
    requires limit > 0 && page >= 1
    ensures var w := PageWindow(page, limit, "").value;
      w.offset <= i < w.offset + limit <==> page == i / limit + 1
  {
    var q := i / limit;
    var r := i % limit;
    var d := page - 1 - q;
    assert i == q * limit + r;
    assert (page - 1) * limit == q * limit + d * limit;
    MulSign(d, limit);
    MulSign(d + 1, limit);
    assert (d + 1) * limit == d * limit + limit;
  }

  /** The page holding row `i` is within `total_pages`. */
  lemma PageOfRowExists(n: nat, limit: nat, i: nat)
    requires limit > 0 && i < n
    ensures i / limit + 1 <= TotalPages(n, limit).value
  {
    var q := i / limit;
    var tp := TotalPages(n, limit).value;
    assert q * limit <= i;
    assert tp * limit - q * limit == (tp - q) * limit;
    MulSign(tp - q, limit);
  }

  /** Walking the pages 1, 2, ... shows every row: row `i` is entry
      `i % limit` of page `i / limit + 1`, and that page is within
      `total_pages`. */
  lemma PagesCoverRows<T>(rows: seq<T>, limit: nat, i: nat)
    requires limit > 0 && i < |rows|
    ensures var page := i / limit + 1;
      && PageWindow(page, limit, "").Ok?
      && page <= TotalPages(|rows|, limit).value
      && i % limit < |Slice(rows, PageWindow(page, limit, "").value)|
      && Slice(rows, PageWindow(page, limit, "").value)[i % limit] == rows[i]
  {
    PageOfRowExists(|rows|, limit, i);
    WindowOfRow(i, limit);
    SliceEntry(rows, PageWindow(i / limit + 1, limit, "").value, i % limit);
  }

  lemma WindowOfRow(i: nat, limit: nat)
    requires limit > 0
    ensures var w := PageWindow(i / limit + 1, limit, "");
      w.Ok? && w.value.limit == limit && w.value.offset + i % limit == i && i % limit < limit
  {
    var q := i / limit;
    assert q * limit >= 0;
    assert i == q * limit + i % limit;
  }

  /** Entry `k` of a window that reaches row `offset + k`. */
  lemma SliceEntry<T>(rows: seq<T>, w: Window, k: nat)
    requires k < w.limit && w.offset + k < |rows|
    ensures k < |Slice(rows, w)| && Slice(rows, w)[k] == rows[w.offset + k]
  {
  }

  /** A page past `total_pages` is empty. */
  lemma PagesPastTheEndAreEmpty<T>(rows: seq<T>, limit: nat, page: int)
    requires limit > 0 && page > TotalPages(|rows|, limit).value
    ensures PageWindow(page, limit, "").Ok?
    ensures Slice(rows, PageWindow(page, limit, "").value) == []
  {
    var tp := TotalPages(|rows|, limit).value;
    MulSign(page - 1 - tp, limit);
    MulSign(page - 1, limit);
    assert (page - 1) * limit == tp * limit + (page - 1 - tp) * limit;
  }

  /** One page of a listing with its `pagination` block. */
  datatype Listing<T> = Listing(rows: seq<T>, currentPage: int, totalPages: nat, total: nat, perPage: nat)

  /** A paginated listing of `rows`: the page's rows, and `total_pages`
      computed from `total`, the number the handler's count query returns.
      The window is fetched first, so a negative limit or offset fails with
      the handler's message before the division is reached. */
  function ListPage<T>(rows: seq<T>, total: nat, page: int, limit: int, failure: string): (r: Result<Listing<T>>)
    ensures r.Ok? <==> page >= 1 && limit >= 1
    ensures PageWindow(page, limit, failure).Err? ==> r == Err(BadRequest(failure))
    ensures limit == 0 ==> r.Err? && r.error.Fatal?
    ensures r.Ok? ==>
      && r.value.rows == Slice(rows, PageWindow(page, limit, failure).value)
      && r.value.currentPage == page && r.value.total == total && r.value.perPage == limit
      && r.value.totalPages == TotalPages(total, limit).value
      && r.value.totalPages * limit >= total
      && (r.value.totalPages == 0 || (r.value.totalPages - 1) * limit < total)
  {
    MulSign(page - 1, if limit < 0 then 0 else limit);
    match PageWindow(page, limit, failure)
    case Err(e) => Err(e)
    case Ok(w) =>
      match TotalPages(total, w.limit)
      case Err(e) => Err(e)
      case Ok(tp) => Ok(Listing(Slice(rows, w), page, tp, total, w.limit))
  }

  /** Walking a listing page by page shows every row: row `i` is entry
      `i % limit` of page `i / limit + 1`, which is within `total_pages`. */
  lemma ListPageShowsEveryRow<T>(rows: seq<T>, limit: int, failure: string, i: nat)
    requires limit >= 1 && i < |rows|
    ensures var l := ListPage(rows, |rows|, i / limit + 1, limit, failure);
      && l.Ok?
      && i / limit + 1 <= l.value.totalPages
      && i % limit < |l.value.rows| && l.value.rows[i % limit] == rows[i]
  {
    PagesCoverRows(rows, limit, i);
    assert PageWindow(i / limit + 1, limit, failure).value == PageWindow(i / limit + 1, limit, "").value;
  }

  /** A listing page past `total_pages` holds no rows. */
  lemma ListPagePastTheEnd<T>(rows: seq<T>, limit: int, failure: string, page: int)
    requires limit >= 1 && page > TotalPages(|rows|, limit).value
    ensures ListPage(rows, |rows|, page, limit, failure).Ok?
    ensures ListPage(rows, |rows|, page, limit, failure).value.rows == []
  {
    PagesPastTheEndAreEmpty(rows, limit, page);
    assert PageWindow(page, limit, failure).value == PageWindow(page, limit, "").value;
  }
}
