/** The catalogue handlers of `backend/books.php`: listing and searching the
    active books, and the admin operations that add, update and soft-delete
    a book.

    MySQL's `rowCount()` after an `UPDATE` counts the rows whose values
    actually changed.  Every update here also sets `updated_at = NOW()`, so a
    row counts as changed unless it already held exactly the new values,
    timestamp included.
 */
module Books {
  import opened Basics
  import opened Text
  import opened Tables
  import opened Paging
  import opened Config
  import Users

  // Messages the handlers return, word for word.
  const OnLoanMessage: string := "Cannot delete book. It has active borrowings."

  predicate IsActive(b: Book) {
    b.status == BookActive
  }

  /** `WHERE b.status = 'active'`. */
  function ActiveBooks(books: seq<Book>): (r: seq<Book>)
    ensures forall b :: b in r <==> b in books && b.status == BookActive
  {
    Filter(books, IsActive)
  }

  // ---------------------------------------------------------- getAllBooks

  /** `getAllBooks`: page `page` (default 1) of the active books, `limit`
      (default 12) per page.  The rows come in table order here; the SQL's
      `ORDER BY created_at DESC` is not modelled. */
  function ListBooks(st: State, page: int, limit: int): (r: Result<Listing<Book>>)
    ensures r.Ok? <==> page >= 1 && limit >= 1
    ensures r.Ok? ==>
      && r.value.rows == Slice(ActiveBooks(st.books), PageWindow(page, limit, "Failed to fetch books").value)
      && r.value.total == |ActiveBooks(st.books)|
      && r.value.totalPages == TotalPages(r.value.total, limit).value
      && r.value.currentPage == page && r.value.perPage == limit
      && (forall k :: 0 <= k < |r.value.rows| ==> r.value.rows[k] in st.books && r.value.rows[k].status == BookActive)
    ensures limit == 0 ==> r.Err? && r.error.Fatal?
    ensures PageWindow(page, limit, "Failed to fetch books").Err? ==> r == Err(BadRequest("Failed to fetch books"))
  {
    var active := ActiveBooks(st.books);
    var r := ListPage(active, |active|, page, limit, "Failed to fetch books");
    if r.Ok? then
      assert forall k :: 0 <= k < |r.value.rows| ==> r.value.rows[k] in active;
      r
    else r
  }

  /** Paging through `getAllBooks` shows every active book: active book `i`
      is on page `i / limit + 1`, within `total_pages`, and every page past
      `total_pages` is empty. */
  lemma EveryActiveBookListed(st: State, limit: int, i: nat, later: int)
    requires limit >= 1 && i < |ActiveBooks(st.books)|
    ensures var l := ListBooks(st, i / limit + 1, limit);
      && l.Ok? && i / limit + 1 <= l.value.totalPages
      && ActiveBooks(st.books)[i] in l.value.rows
    ensures later > TotalPages(|ActiveBooks(st.books)|, limit).value ==>
      ListBooks(st, later, limit).Ok? && ListBooks(st, later, limit).value.rows == []
  {
    var active := ActiveBooks(st.books);
    ListPageShowsEveryRow(active, limit, "Failed to fetch books", i);
    if later > TotalPages(|active|, limit).value {
      ListPagePastTheEnd(active, limit, "Failed to fetch books", later);
    }
  }

  // ---------------------------------------------------------- searchBooks

  /** The search filter: an active book whose title, author or description
      contains the query (skipped when the query is `empty()`), in the given
      category (skipped unless the category is positive).  `LIKE` is read as
      a literal, case-sensitive substring test. */
  predicate Matches(b: Book, query: string, category: int) {
    && b.status == BookActive
    && (PhpEmpty(query) || Contains(b.title, query) || Contains(b.author, query) || Contains(b.description, query))
    && (category <= 0 || b.categoryId == category)
  }

  /** Every book the search's `WHERE` clause admits, in table order. */
  function SearchHits(books: seq<Book>, query: string, category: int): (r: seq<Book>)
    ensures forall b :: b in r <==> b in books && Matches(b, query, category)
  {
    Filter(books, (b: Book) => Matches(b, query, category))
  }

  datatype SearchReply =
    | AllBooks(listing: Listing<Book>)
    | Found(books: seq<Book>, query: string, category: int, totalFound: nat)

  /** `searchBooks`: `query` is the `q` parameter after `sanitizeInput`, so
      emptiness is judged on the sanitized text.  With an `empty()` query
      and category 0 it answers exactly as `getAllBooks`; otherwise one page
      of the matching books, where `total_found` counts the rows on this
      page only. */
  function SearchBooks(st: State, query: string, category: int, page: int, limit: int): (r: Result<SearchReply>)
    ensures PhpEmpty(query) && category == 0 ==>
      match ListBooks(st, page, limit)
      case Ok(listing) => r == Ok(AllBooks(listing))
      case Err(e) => r == Err(e)
    ensures !(PhpEmpty(query) && category == 0) ==>
      && (r.Ok? <==> PageWindow(page, limit, "Search failed. Please try again.").Ok?)
      && (r.Err? ==> r.error == BadRequest("Search failed. Please try again."))
      && (r.Ok? ==>
            && r.value.Found?
            && r.value.books == Slice(SearchHits(st.books, query, category),
                                      PageWindow(page, limit, "Search failed. Please try again.").value)
            && r.value.totalFound == |r.value.books|
            && |r.value.books| <= limit
            && (forall k :: 0 <= k < |r.value.books| ==>
                  r.value.books[k] in st.books && Matches(r.value.books[k], query, category)))
  {
    if PhpEmpty(query) && category == 0 then
      match ListBooks(st, page, limit)
      case Ok(listing) => Ok(AllBooks(listing))
      case Err(e) => Err(e)
    else
      match PageWindow(page, limit, "Search failed. Please try again.")
      case Err(e) => Err(e)
      case Ok(w) =>
        var hits := SearchHits(st.books, query, category);
        var rows := Slice(hits, w);
        assert forall k :: 0 <= k < |rows| ==> rows[k] in hits;
        Ok(Found(rows, query, category, |rows|))
  }

  /** A search with a query or a category finds every match on some page:
      match `i` is on page `i / limit + 1`. */
  lemma EveryMatchFound(st: State, query: string, category: int, limit: int, i: nat)
    requires !(PhpEmpty(query) && category == 0)
    requires limit >= 1 && i < |SearchHits(st.books, query, category)|
    ensures var r := SearchBooks(st, query, category, i / limit + 1, limit);
      r.Ok? && r.value.Found? && SearchHits(st.books, query, category)[i] in r.value.books
  {
    var hits := SearchHits(st.books, query, category);
    ListPageShowsEveryRow(hits, limit, "Search failed. Please try again.", i);
  }

  // -------------------------------------------------------------- addBook

  /** The `addBook` fields after sanitizing and casting; `quantity` is
      `None` when the client omitted it. */
  datatype BookInput = BookInput(
    title: string, author: string, isbn: string, categoryId: int, description: string,
    publisher: string, publicationYear: int, pages: int, quantity: Option<int>)

  datatype AddReply = AddReply(status: int, bookId: nat)

  predicate IsbnTaken(books: seq<Book>, isbn: string) {
    exists i :: 0 <= i < |books| && books[i].isbn == isbn
  }

  /** No two books share a non-empty ISBN. */
  ghost predicate NonEmptyIsbnsUnique(books: seq<Book>) {
    forall i, j :: 0 <= i < j < |books| && !PhpEmpty(books[i].isbn) ==> books[i].isbn != books[j].isbn
  }

  /** `addBook`: a non-empty ISBN already used by any book, active or not,
      is refused; an empty one skips the check.  The new book is active with
      every copy available. */
  function AddBook(st: State, input: BookInput, env: Env): (r: Result<(State, AddReply)>)
    ensures r.Err? <==> !PhpEmpty(input.isbn) && IsbnTaken(st.books, input.isbn)
    ensures r.Err? ==> r.error == BadRequest("Book with this ISBN already exists")
    ensures r.Ok? ==>
      var st' := r.value.0;
      var id := r.value.1.bookId;
      var q := input.quantity.GetOr(1);
      && r.value.1.status == 201
      && |st'.books| == |st.books| + 1
      && st'.books[..|st.books|] == st.books
      && (forall i :: 0 <= i < |st.books| ==> st.books[i].id != id)
      && st'.books[|st.books|] == Book(id, input.title, input.author, input.isbn, input.categoryId,
           input.description, input.publisher, input.publicationYear, input.pages,
           q, q, BookActive, None, false, None, None, None)
      && st'.transactions == st.transactions
      && st'.(books := st.books, activity := st.activity) == st
  {
    if !PhpEmpty(input.isbn) && IsbnTaken(st.books, input.isbn) then
      Err(BadRequest("Book with this ISBN already exists"))
    else
      var id := NextId(st.books, (b: Book) => b.id);
      var q := input.quantity.GetOr(1);
      var book := Book(id, input.title, input.author, input.isbn, input.categoryId,
        input.description, input.publisher, input.publicationYear, input.pages,
        q, q, BookActive, None, false, None, None, None);
      var st1 := st.(books := st.books + [book]);
      Ok((LogActivity(st1, env.logOk, Activity(None, "book_added", "New book added: " + input.title)), AddReply(201, id)))
  }

  /** `addBook` keeps non-empty ISBNs unique. */
  lemma AddBookKeepsIsbnsUnique(st: State, input: BookInput, env: Env)
    requires NonEmptyIsbnsUnique(st.books)
    requires AddBook(st, input, env).Ok?
    ensures NonEmptyIsbnsUnique(AddBook(st, input, env).value.0.books)
  {
    var bs := AddBook(st, input, env).value.0.books;
    forall i, j | 0 <= i < j < |bs| && !PhpEmpty(bs[i].isbn) ensures bs[i].isbn != bs[j].isbn {
      assert bs[i] == st.books[i];
      if j == |st.books| {
        assert !IsbnTaken(st.books, input.isbn) || PhpEmpty(input.isbn);
      } else {
        assert bs[j] == st.books[j];
      }
    }
  }

  // ----------------------------------------------------------- updateBook

  /** The `updateBook` fields; `available` defaults to the new quantity. */
  datatype UpdateInput = UpdateInput(
    id: int, title: string, author: string, isbn: string, categoryId: int, description: string,
    publisher: string, publicationYear: int, pages: int, quantity: Option<int>, available: Option<int>)

  /** The row after the `UPDATE ... SET`. */
  function Updated(b: Book, input: UpdateInput, now: int): (r: Book)
    ensures r.id == b.id && r.status == b.status
    ensures r.quantity == input.quantity.GetOr(1) && r.available == input.available.GetOr(r.quantity)
    ensures r.updatedAt == Some(now)
  {
    var q := input.quantity.GetOr(1);
    b.(title := input.title, author := input.author, isbn := input.isbn, categoryId := input.categoryId,
       description := input.description, publisher := input.publisher,
       publicationYear := input.publicationYear, pages := input.pages,
       quantity := q, available := input.available.GetOr(q), updatedAt := Some(now))
  }

  predicate UpdateTarget(b: Book, id: int) {
    b.id == id && b.status == BookActive
  }

  /** `updateBook`: rewrites the active book with the given id; inactive
      books and every other row are left alone.  When no row changed (no
      such active book, or it already held these values at this instant)
      the answer is 404 and nothing is written. */
  function UpdateBook(st: State, input: UpdateInput, env: Env): (r: Result<State>)
    ensures r.Ok? <==>
      exists i :: 0 <= i < |st.books| && UpdateTarget(st.books[i], input.id) &&
                  Updated(st.books[i], input, env.now) != st.books[i]
    ensures r.Err? ==> r.error == Http(404, "Book not found or no changes made")
    ensures r.Ok? ==>
      && |r.value.books| == |st.books|
      && (forall i :: 0 <= i < |st.books| ==>
            r.value.books[i] == if UpdateTarget(st.books[i], input.id) then Updated(st.books[i], input, env.now) else st.books[i])
      && r.value.(books := st.books, activity := st.activity) == st
  {
    var bs := st.books;
    if exists i :: 0 <= i < |bs| && UpdateTarget(bs[i], input.id) && Updated(bs[i], input, env.now) != bs[i] then
      var bs' := seq(|bs|, i requires 0 <= i < |bs| =>
        if UpdateTarget(bs[i], input.id) then Updated(bs[i], input, env.now) else bs[i]);
      Ok(LogActivity(st.(books := bs'), env.logOk,
        Activity(None, "book_updated", "Book updated: " + input.title + " (ID: " + IntToString(input.id) + ")")))
    else
      Err(Http(404, "Book not found or no changes made"))
  }

  /** Repeating an update within the same second changes no row, so the
      second attempt is answered with 404. */
  lemma UpdateTwiceSameInstant(st: State, input: UpdateInput, env: Env)
    requires UpdateBook(st, input, env).Ok?
    ensures UpdateBook(UpdateBook(st, input, env).value, input, env) == Err(Http(404, "Book not found or no changes made"))
  {
    var bs := UpdateBook(st, input, env).value.books;
    forall i | 0 <= i < |bs| && UpdateTarget(bs[i], input.id) ensures Updated(bs[i], input, env.now) == bs[i] {
      assert UpdateTarget(st.books[i], input.id);
    }
  }

  // ----------------------------------------------------------- deleteBook

  /** A loan of the book is still open. */
  predicate OnLoan(st: State, bookId: int) {
    exists i :: 0 <= i < |st.transactions| && st.transactions[i].bookId == bookId && st.transactions[i].status == Issued
  }

  function SoftDeleted(b: Book, now: int): Book {
    b.(status := BookInactive, updatedAt := Some(now))
  }

  /** `deleteBook`: a soft delete.  The id is required, and a book with an
      open loan cannot be deleted.  Every row with the id (whatever its
      status) becomes inactive with `updated_at = now`; nothing else about
      it changes.  When no row changed, the answer is 404. */
  function DeleteBook(st: State, id: int, env: Env): (r: Result<State>)
    ensures id == 0 ==> r == Err(BadRequest("Book ID required"))
    ensures id != 0 && OnLoan(st, id) ==> r == Err(BadRequest(OnLoanMessage))
    ensures r.Ok? <==>
      id != 0 && !OnLoan(st, id) &&
      exists i :: 0 <= i < |st.books| && st.books[i].id == id && SoftDeleted(st.books[i], env.now) != st.books[i]
    ensures id != 0 && !OnLoan(st, id) && r.Err? ==> r.error == Http(404, "Book not found")
    ensures r.Ok? ==>
      && |r.value.books| == |st.books|
      && (forall i :: 0 <= i < |st.books| ==>
            r.value.books[i] == if st.books[i].id == id then SoftDeleted(st.books[i], env.now) else st.books[i])
      && r.value.(books := st.books, activity := st.activity) == st
  {
    var bs := st.books;
    if id == 0 then Err(BadRequest("Book ID required"))
    else if OnLoan(st, id) then Err(BadRequest(OnLoanMessage))
    else if exists i :: 0 <= i < |bs| && bs[i].id == id && SoftDeleted(bs[i], env.now) != bs[i] then
      var bs' := seq(|bs|, i requires 0 <= i < |bs| => if bs[i].id == id then SoftDeleted(bs[i], env.now) else bs[i]);
      Ok(LogActivity(st.(books := bs'), env.logOk, Activity(None, "book_deleted", "Book deleted (ID: " + IntToString(id) + ")")))
    else
      Err(Http(404, "Book not found"))
  }

  /** After a successful delete the book can no longer be found as active,
      so a member's request for it is refused. */
  lemma DeletedBookCannotBeRequested(st: State, id: int, env: Env, userId: int, priority: Option<string>)
    requires DeleteBook(st, id, env).Ok?
    ensures FindActiveBook(DeleteBook(st, id, env).value.books, id).None?
    ensures Users.RequestBook(DeleteBook(st, id, env).value, Users.RequestInput(userId, id, priority), env) ==
            Err(BadRequest("Book not found or inactive"))
  {
    var bs := DeleteBook(st, id, env).value.books;
    forall i | 0 <= i < |bs| ensures !(bs[i].id == id && bs[i].status == BookActive) {
      if st.books[i].id == id {
        assert bs[i] == SoftDeleted(st.books[i], env.now);
      }
    }
  }

  // ------------------------------------------------------------ request bodies

  /* `addBook` and `updateBook` first call `validateInput` on the decoded
     request body; only a body that passes reaches the handlers above.
     `stripTags` stands for PHP's `strip_tags`. */

  /** Required by `addBook` and by the admin's `addBookWithFiles`. */
  const BookFields: seq<string> := ["title", "author", "category_id"]
  const UpdateFields: seq<string> := ["id", "title", "author"]

  /** The fields `addBook` and `addBookWithFiles` read from the body. */
  function BookInputOf(data: map<string, Value>, stripTags: string -> string): BookInput {
    BookInput(TextField(data, "title", "", stripTags), TextField(data, "author", "", stripTags),
              TextField(data, "isbn", "", stripTags), IntField(data, "category_id", 0),
              TextField(data, "description", "", stripTags), TextField(data, "publisher", "", stripTags),
              IntField(data, "publication_year", 0), IntField(data, "pages", 0),
              Some(IntField(data, "quantity", 1)))
  }

  /** `addBook` on the request body. */
  function AddBookRequest(st: State, data: map<string, Value>, env: Env, stripTags: string -> string)
    : (r: Result<(State, AddReply)>)
    ensures ValidateInput(data, BookFields).Fail? ==> r == Err(ValidateInput(data, BookFields).error)
    ensures ValidateInput(data, BookFields).Pass? ==> r == AddBook(st, BookInputOf(data, stripTags), env)
    ensures r.Ok? ==> forall k :: 0 <= k < |BookFields| ==> !Blank(data, BookFields[k])
  {
    match ValidateInput(data, BookFields)
    case Fail(e) => Err(e)
    case Pass => AddBook(st, BookInputOf(data, stripTags), env)
  }

  /** Category 0 is reported as missing; no book is added. */
  lemma ZeroCategoryIs422(st: State, data: map<string, Value>, env: Env, stripTags: string -> string)
    requires "category_id" in data && data["category_id"] == Int(0)
    requires !Blank(data, "title") && !HoldsArray(data, "title")
    requires !Blank(data, "author") && !HoldsArray(data, "author")
    ensures AddBookRequest(st, data, env, stripTags) == Err(Http(422, MissingMessage(["category_id"])))
  {
    assert BookFields[0] == "title" && BookFields[1] == "author" && BookFields[2] == "category_id";
    ZeroLastOfThreeReported(data, BookFields);
  }

  /** A book added from a numeric `category_id` always has a category. */
  lemma AddedBookHasCategory(st: State, data: map<string, Value>, env: Env, stripTags: string -> string)
    requires "category_id" in data && data["category_id"].Int?
    requires AddBookRequest(st, data, env, stripTags).Ok?
    ensures AddBookRequest(st, data, env, stripTags).value.0.books[|st.books|].categoryId == data["category_id"].i != 0
  {
    assert !Blank(data, BookFields[2]);
    ValidatedNumberIsNonZero(data, "category_id");
  }

  function UpdateInputOf(data: map<string, Value>, stripTags: string -> string): UpdateInput {
    var quantity := IntField(data, "quantity", 1);
    UpdateInput(IntField(data, "id", 0), TextField(data, "title", "", stripTags), TextField(data, "author", "", stripTags),
                TextField(data, "isbn", "", stripTags), IntField(data, "category_id", 0),
                TextField(data, "description", "", stripTags), TextField(data, "publisher", "", stripTags),
                IntField(data, "publication_year", 0), IntField(data, "pages", 0),
                Some(quantity), Some(IntField(data, "available_quantity", quantity)))
  }

  /** `updateBook` on the request body. */
  function UpdateBookRequest(st: State, data: map<string, Value>, env: Env, stripTags: string -> string): (r: Result<State>)
    ensures ValidateInput(data, UpdateFields).Fail? ==> r == Err(ValidateInput(data, UpdateFields).error)
    ensures ValidateInput(data, UpdateFields).Pass? ==> r == UpdateBook(st, UpdateInputOf(data, stripTags), env)
    ensures r.Ok? ==> forall k :: 0 <= k < |UpdateFields| ==> !Blank(data, UpdateFields[k])
  {
    match ValidateInput(data, UpdateFields)
    case Fail(e) => Err(e)
    case Pass => UpdateBook(st, UpdateInputOf(data, stripTags), env)
  }
}
