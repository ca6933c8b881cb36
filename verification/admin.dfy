/** The admin handlers of `backend/admin.php` that maintain the catalogue
    and the membership: adding a book with its PDF and cover, the upload
    checks, adding a member, the member and book management listings, and
    bulk notifications.

    `password_hash` and `filter_var(..., FILTER_VALIDATE_EMAIL)` are library
    calls this model does not look inside: they are the parameters `hash` and
    `isEmail`.  Moving uploaded files is reduced to whether the move succeeds.
 */
module Admin {
  import opened Basics
  import opened Text
  import opened Config
  import opened Tables
  import opened Paging
  import Books

  // Messages the handlers return, word for word.
  const NotPdf: string := "Invalid file type. Only PDF files are allowed."
  const PdfTooLarge: string := "File too large. Maximum size is 50MB."
  const NotImage: string := "Invalid file type. Only JPEG, PNG, and GIF are allowed."
  const CoverTooLarge: string := "File too large. Maximum size is 5MB."
  const ContactTaken: string := "User with this email or student ID already exists"

  // ----------------------------------------------------------- reading time

  /** `$pages ? ceil($pages * 250 / 200) : null`: minutes to read `pages`
      pages at 250 words a page and 200 words a minute, i.e. the least whole
      number of minutes `r` with `4 r >= 5 pages`; no estimate for 0 pages. */
  function ReadingTime(pages: int): (r: Option<int>)
    ensures r.None? <==> pages == 0
    ensures r.Some? ==> 4 * r.value >= 5 * pages && 4 * (r.value - 1) < 5 * pages
  {
    if pages == 0 then None else Some((5 * pages + 3) / 4)
  }

  // --------------------------------------------------------------- uploads

  /** An uploaded file as `$_FILES` describes it, and whether
      `move_uploaded_file` manages to store it. */
  datatype Upload = Upload(mime: string, size: int, moved: bool)

  /** 50 MiB. */
  const MaxPdfSize: int := 50 * 1024 * 1024

  /** 5 MiB. */
  const MaxCoverSize: int := 5 * 1024 * 1024

  /** `handlePDFUpload`: the message of the exception it throws, if any.
      Type and size are checked, in that order, before the file is moved. */
  function PdfUploadError(f: Upload): (r: Option<string>)
    ensures r.None? <==> f.mime == "application/pdf" && f.size <= 52428800 && f.moved
    ensures f.mime != "application/pdf" ==> r == Some(NotPdf)
    ensures f.mime == "application/pdf" && f.size > 52428800 ==> r == Some(PdfTooLarge)
    ensures f.mime == "application/pdf" && f.size <= 52428800 && !f.moved ==> r == Some("Failed to upload PDF file.")
  {
    if f.mime != "application/pdf" then Some(NotPdf)
    else if f.size > MaxPdfSize then Some(PdfTooLarge)
    else if !f.moved then Some("Failed to upload PDF file.")
    else None
  }

  predicate CoverType(mime: string) {
    mime == "image/jpeg" || mime == "image/png" || mime == "image/gif"
  }

  /** `handleCoverImageUpload`: JPEG, PNG or GIF of at most 5 MiB. */
  function CoverUploadError(f: Upload): (r: Option<string>)
    ensures r.None? <==> CoverType(f.mime) && f.size <= 5242880 && f.moved
    ensures !CoverType(f.mime) ==> r == Some(NotImage)
    ensures CoverType(f.mime) && f.size > 5242880 ==> r == Some(CoverTooLarge)
    ensures CoverType(f.mime) && f.size <= 5242880 && !f.moved ==> r == Some("Failed to upload cover image.")
  {
    if !CoverType(f.mime) then Some(NotImage)
    else if f.size > MaxCoverSize then Some(CoverTooLarge)
    else if !f.moved then Some("Failed to upload cover image.")
    else None
  }

  // ------------------------------------------------------- addBookWithFiles

  datatype FilesReply = FilesReply(status: int, bookId: nat, pdfUploaded: bool, coverUploaded: bool)

  /** The book `addBookWithFiles` inserts. */
  function NewBookWithFiles(id: nat, input: Books.BookInput, pdf: Option<Upload>, cover: Option<Upload>): Book {
    var q := input.quantity.GetOr(1);
    Book(id, input.title, input.author, input.isbn, input.categoryId, input.description,
         input.publisher, input.publicationYear, input.pages, q, q, BookActive,
         if pdf.Some? then Some(pdf.value.size) else None, cover.Some?,
         Some(input.pages), ReadingTime(input.pages), None)
  }

  /** `addBookWithFiles`: `pdf` and `cover` are the files that arrived
      without an upload error.  A rejected PDF, then a rejected cover, aborts
      with "Failed to add book: " and the reason.  This path does not check
      the ISBN.  The new book is active with every copy available, its page
      count doubling as `total_pages`, and the reading-time estimate. */
  function AddBookWithFiles(st: State, input: Books.BookInput, pdf: Option<Upload>, cover: Option<Upload>, env: Env)
    : (r: Result<(State, FilesReply)>)
    ensures r.Ok? <==>
      (pdf.None? || PdfUploadError(pdf.value).None?) && (cover.None? || CoverUploadError(cover.value).None?)
    ensures pdf.Some? && PdfUploadError(pdf.value).Some? ==>
      r == Err(BadRequest("Failed to add book: " + PdfUploadError(pdf.value).value))
    ensures (pdf.None? || PdfUploadError(pdf.value).None?) && cover.Some? && CoverUploadError(cover.value).Some? ==>
      r == Err(BadRequest("Failed to add book: " + CoverUploadError(cover.value).value))
    ensures r.Ok? ==>
      var st' := r.value.0;
      var reply := r.value.1;
      && |st'.books| == |st.books| + 1
      && st'.books[..|st.books|] == st.books
      && (forall i :: 0 <= i < |st.books| ==> st.books[i].id != reply.bookId)
      && reply == FilesReply(201, reply.bookId, pdf.Some?, cover.Some?)
      && var book := st'.books[|st.books|];
         && book.id == reply.bookId
         && book.title == input.title && book.author == input.author && book.isbn == input.isbn
         && book.categoryId == input.categoryId && book.description == input.description
         && book.publisher == input.publisher && book.publicationYear == input.publicationYear
         && book.pages == input.pages
         && book.status == BookActive
         && book.quantity == input.quantity.GetOr(1) && book.available == book.quantity
         && book.pdfSize == (if pdf.Some? then Some(pdf.value.size) else None)
         && book.hasCover == cover.Some?
         && book.totalPages == Some(input.pages)
         && book.readingMinutes == ReadingTime(input.pages)
         && book.updatedAt.None?
    ensures r.Ok? ==> r.value.0.(books := st.books, activity := st.activity) == st
  {
    if pdf.Some? && PdfUploadError(pdf.value).Some? then
      Err(BadRequest("Failed to add book: " + PdfUploadError(pdf.value).value))
    else if cover.Some? && CoverUploadError(cover.value).Some? then
      Err(BadRequest("Failed to add book: " + CoverUploadError(cover.value).value))
    else
      var id := NextId(st.books, (b: Book) => b.id);
      var st1 := st.(books := st.books + [NewBookWithFiles(id, input, pdf, cover)]);
      var st2 := LogActivity(st1, env.logOk, Activity(None, "book_added", "New book added: " + input.title));
      Ok((st2, FilesReply(201, id, pdf.Some?, cover.Some?)))
  }

  /** Both ways of adding a book, given the same fields and no files, store
      the same catalogue data; only the admin path fills in `total_pages` and
      the reading time, and it does so without the ISBN check. */
  lemma AddBookPathsAgree(st: State, input: Books.BookInput, env: Env)
    requires Books.AddBook(st, input, env).Ok?
    ensures AddBookWithFiles(st, input, None, None, env).Ok?
    ensures
      var a := Books.AddBook(st, input, env).value.0.books[|st.books|];
      var b := AddBookWithFiles(st, input, None, None, env).value.0.books[|st.books|];
      a == b.(totalPages := None, readingMinutes := None)
  {
  }

  /** The size limits are inclusive: a file of exactly 50 MiB (PDF) or
      5 MiB (cover) is stored with the book, and one byte more aborts the
      insert with the size message, whatever the rest of the request. */
  lemma UploadSizeBoundaries(st: State, input: Books.BookInput, env: Env, pdf: Upload, cover: Upload)
    requires pdf.mime == "application/pdf" && pdf.moved
    requires CoverType(cover.mime) && cover.moved
    ensures var r := AddBookWithFiles(st, input, Some(pdf.(size := MaxPdfSize)), Some(cover.(size := MaxCoverSize)), env);
      r.Ok? && r.value.0.books[|st.books|].pdfSize == Some(52428800) && r.value.0.books[|st.books|].hasCover
    ensures AddBookWithFiles(st, input, Some(pdf.(size := MaxPdfSize + 1)), Some(cover), env) ==
            Err(BadRequest("Failed to add book: " + PdfTooLarge))
    ensures AddBookWithFiles(st, input, Some(pdf.(size := MaxPdfSize)), Some(cover.(size := MaxCoverSize + 1)), env) ==
            Err(BadRequest("Failed to add book: " + CoverTooLarge))
  {
  }

  // ----------------------------------------------------------- addNewMember

  /** The `addNewMember` fields after sanitizing; `password` is `None` when
      the client sent none (it is not sanitized). */
  datatype MemberInput = MemberInput(
    studentId: string, name: string, email: string, course: string, year: string,
    phone: string, password: Option<string>)

  datatype MemberReply = MemberReply(status: int, memberId: nat, temporaryPassword: string)

  const DefaultPassword: string := "password123"

  /** The notification a member added by an administrator receives. */
  const WelcomeTitle: string := "Welcome to DigiShelf!"
  const WelcomeText: string := "Your account has been created by an administrator. Please change your password on first login."

  /** `addNewMember`: the email must be valid and neither the email nor the
      student id may be in use.  The new member is active, holds the hash of
      the given password (default "password123"), gets a welcome
      notification, and the reply reveals the temporary password. */
  function AddNewMember(st: State, input: MemberInput, env: Env, isEmail: string -> bool, hash: string -> string)
    : (r: Result<(State, MemberReply)>)
    ensures !isEmail(input.email) ==> r == Err(BadRequest("Invalid email format"))
    ensures isEmail(input.email) && UserExists(st.users, input.email, input.studentId) ==>
      r == Err(BadRequest(ContactTaken))
    ensures r.Ok? <==> isEmail(input.email) && !UserExists(st.users, input.email, input.studentId)
    ensures r.Ok? ==>
      var st' := r.value.0;
      var reply := r.value.1;
      var pw := input.password.GetOr(DefaultPassword);
      && reply.status == 201 && reply.temporaryPassword == pw
      && st'.users == st.users + [User(reply.memberId, input.studentId, input.name, input.email, hash(pw),
                                       Some(input.phone), input.course, input.year, Active)]
      && (forall i :: 0 <= i < |st.users| ==> st.users[i].id != reply.memberId)
      && st'.(users := st.users, notifications := st.notifications, activity := st.activity) == st
  {
    if !isEmail(input.email) then Err(BadRequest("Invalid email format"))
    else if UserExists(st.users, input.email, input.studentId) then
      Err(BadRequest(ContactTaken))
    else
      var id := NextId(st.users, (u: User) => u.id);
      var pw := input.password.GetOr(DefaultPassword);
      var user := User(id, input.studentId, input.name, input.email, hash(pw), Some(input.phone), input.course, input.year, Active);
      var st1 := st.(users := st.users + [user]);
      var st2 := Notify(st1, env.notifyOk, Notification(id, WelcomeTitle, WelcomeText, "info"));
      var st3 := LogActivity(st2, env.logOk, Activity(None, "member_added", "New member added: " + input.name + " (ID: " + input.studentId + ")"));
      assert st3.users == st1.users;
      assert forall i :: 0 <= i < |st.users| ==> st.users[i].id < id;
      Ok((st3, MemberReply(201, id, pw)))
  }

  /** Adding a member keeps emails and student ids unique. */
  lemma AddNewMemberKeepsContactsUnique(st: State, input: MemberInput, env: Env, isEmail: string -> bool, hash: string -> string)
    requires UniqueContacts(st.users)
    requires AddNewMember(st, input, env, isEmail, hash).Ok?
    ensures UniqueContacts(AddNewMember(st, input, env, isEmail, hash).value.0.users)
  {
    var r := AddNewMember(st, input, env, isEmail, hash).value;
    var u := r.0.users[|st.users|];
    AppendKeepsContactsUnique(st.users, u);
    assert r.0.users == st.users + [u];
  }

  // ------------------------------------------------------ management lists

  function UserStatusName(s: UserStatus): string {
    match s
    case Active => "active"
    case Blocked => "blocked"
    case Inactive => "inactive"
  }

  function BookStatusName(s: BookStatus): string {
    match s
    case BookActive => "active"
    case BookInactive => "inactive"
  }

  /** The `getAllMembers` filters; a filter that is `empty()` is skipped. */
  predicate MemberMatches(u: User, search: string, status: string, course: string) {
    && (PhpEmpty(search) || Contains(u.name, search) || Contains(u.email, search) || Contains(u.studentId, search))
    && (PhpEmpty(status) || UserStatusName(u.status) == status)
    && (PhpEmpty(course) || Contains(u.course, course))
  }

  /** Every member the `getAllMembers` filters admit, in table order. */
  function MemberHits(users: seq<User>, search: string, status: string, course: string): (r: seq<User>)
    ensures forall u :: u in r <==> u in users && MemberMatches(u, search, status, course)
  {
    Filter(users, (u: User) => MemberMatches(u, search, status, course))
  }

  /** `getAllMembers`: one page (default 20 rows) of the matching members.
      `counted` is what its count query returns: that query is built by
      rewriting the listing's SQL text and is not modelled, so the page
      count is stated relative to it. */
  function MembersPage(st: State, search: string, status: string, course: string, page: int, limit: int, counted: nat)
    : (r: Result<Listing<User>>)
    ensures r.Ok? <==> page >= 1 && limit >= 1
    ensures PageWindow(page, limit, "Failed to fetch members").Err? ==> r == Err(BadRequest("Failed to fetch members"))
    ensures limit == 0 ==> r.Err? && r.error.Fatal?
    ensures r.Ok? ==>
      && r.value.rows == Slice(MemberHits(st.users, search, status, course),
                               PageWindow(page, limit, "Failed to fetch members").value)
      && (forall k :: 0 <= k < |r.value.rows| ==> r.value.rows[k] in st.users && MemberMatches(r.value.rows[k], search, status, course))
      && |r.value.rows| <= limit
      && r.value.total == counted
      && r.value.totalPages == TotalPages(counted, limit).value
      && r.value.currentPage == page && r.value.perPage == limit
  {
    var hits := MemberHits(st.users, search, status, course);
    var r := ListPage(hits, counted, page, limit, "Failed to fetch members");
    if r.Ok? then
      assert forall k :: 0 <= k < |r.value.rows| ==> r.value.rows[k] in hits;
      r
    else r
  }

  /** Paging through `getAllMembers` shows every matching member: match `i`
      is on page `i / limit + 1`, which is within `total_pages` whenever the
      count query counted the matches. */
  lemma EveryMatchingMemberListed(st: State, search: string, status: string, course: string, limit: int, counted: nat, i: nat)
    requires limit >= 1 && i < |MemberHits(st.users, search, status, course)|
    ensures var l := MembersPage(st, search, status, course, i / limit + 1, limit, counted);
      && l.Ok? && MemberHits(st.users, search, status, course)[i] in l.value.rows
      && (counted == |MemberHits(st.users, search, status, course)| ==> i / limit + 1 <= l.value.totalPages)
  {
    var hits := MemberHits(st.users, search, status, course);
    ListPageShowsEveryRow(hits, limit, "Failed to fetch members", i);
    assert ListPage(hits, |hits|, i / limit + 1, limit, "Failed to fetch members").value.rows
        == MembersPage(st, search, status, course, i / limit + 1, limit, counted).value.rows;
  }

  /** The `getBooksForManagement` filters: search over title, author and
      ISBN, a category id (0 when none was given) and a status name (by
      default `active`; `empty()` means any status). */
  predicate ManagedBookMatches(b: Book, search: string, category: int, status: string) {
    && (PhpEmpty(search) || Contains(b.title, search) || Contains(b.author, search) || Contains(b.isbn, search))
    && (category == 0 || b.categoryId == category)
    && (PhpEmpty(status) || BookStatusName(b.status) == status)
  }

  /** Every book the `getBooksForManagement` filters admit, in table order. */
  function ManagedHits(books: seq<Book>, search: string, category: int, status: string): (r: seq<Book>)
    ensures forall b :: b in r <==> b in books && ManagedBookMatches(b, search, category, status)
  {
    Filter(books, (b: Book) => ManagedBookMatches(b, search, category, status))
  }

  /** `getBooksForManagement`: one page (default 20 rows) of the matching
      books, with the total taken over all matching books.  An absent
      `status` filter means `active`. */
  function ManagementBooks(st: State, search: string, category: int, status: Option<string>, page: int, limit: int)
    : (r: Result<Listing<Book>>)
    ensures r.Ok? <==> page >= 1 && limit >= 1
    ensures PageWindow(page, limit, "Failed to fetch books").Err? ==> r == Err(BadRequest("Failed to fetch books"))
    ensures limit == 0 ==> r.Err? && r.error.Fatal?
    ensures r.Ok? ==>
      && r.value.rows == Slice(ManagedHits(st.books, search, category, status.GetOr("active")),
                               PageWindow(page, limit, "Failed to fetch books").value)
      && (forall k :: 0 <= k < |r.value.rows| ==> r.value.rows[k] in st.books && ManagedBookMatches(r.value.rows[k], search, category, status.GetOr("active")))
      && r.value.total == |ManagedHits(st.books, search, category, status.GetOr("active"))|
      && r.value.totalPages == TotalPages(r.value.total, limit).value
      && r.value.currentPage == page && r.value.perPage == limit
  {
    var hits := ManagedHits(st.books, search, category, status.GetOr("active"));
    var r := ListPage(hits, |hits|, page, limit, "Failed to fetch books");
    if r.Ok? then
      assert forall k :: 0 <= k < |r.value.rows| ==> r.value.rows[k] in hits;
      r
    else r
  }

  /** Paging through `getBooksForManagement` shows every matching book, on
      page `i / limit + 1` within `total_pages`. */
  lemma EveryManagedBookListed(st: State, search: string, category: int, status: Option<string>, limit: int, i: nat)
    requires limit >= 1 && i < |ManagedHits(st.books, search, category, status.GetOr("active"))|
    ensures var l := ManagementBooks(st, search, category, status, i / limit + 1, limit);
      && l.Ok? && i / limit + 1 <= l.value.totalPages
      && ManagedHits(st.books, search, category, status.GetOr("active"))[i] in l.value.rows
  {
    var hits := ManagedHits(st.books, search, category, status.GetOr("active"));
    ListPageShowsEveryRow(hits, limit, "Failed to fetch books", i);
  }

  // --------------------------------------------------- sendBulkNotification

  /** The list without repeats, keeping the last occurrence of each value. */
  function Distinct(xs: seq<int>): (r: seq<int>)
    ensures forall x :: x in r <==> x in xs
    ensures forall i, j :: 0 <= i < j < |r| ==> r[i] != r[j]
  {
    if xs == [] then []
    else
      var rest := Distinct(xs[1..]);
      assert forall x :: x in xs <==> x == xs[0] || x in xs[1..];
      if xs[0] in rest then rest else [xs[0]] + rest
  }

  function UserIds(users: seq<User>): (r: seq<int>)
    ensures |r| == |users|
    ensures forall i :: 0 <= i < |users| ==> r[i] == users[i].id
  {
    seq(|users|, i requires 0 <= i < |users| => users[i].id)
  }

  /** The integers of an array of user ids. */
  function IntEntries(es: seq<Entry>): (r: seq<int>)
    ensures forall x :: x in r <==> exists k :: 0 <= k < |es| && es[k].val == Int(x)
  {
    if es == [] then []
    else
      var rest := IntEntries(es[1..]);
      assert forall k :: 1 <= k < |es| ==> es[k] == es[1..][k - 1];
      if es[0].val.Int? then [es[0].val.i] + rest else rest
  }

  predicate IsActiveUser(u: User) {
    u.status == Active
  }

  /** The ids of the active users: `SELECT id FROM users WHERE status = 'active'`. */
  function ActiveUserIds(users: seq<User>): (r: seq<int>)
    ensures forall x :: x in r <==> exists i :: 0 <= i < |users| && users[i].id == x && users[i].status == Active
  {
    var us := Filter(users, IsActiveUser);
    var ids := UserIds(us);
    forall x ensures x in ids <==> exists i :: 0 <= i < |users| && users[i].id == x && users[i].status == Active {
      if i :| 0 <= i < |users| && users[i].id == x && users[i].status == Active {
        assert users[i] in us;
        var k :| 0 <= k < |us| && us[k] == users[i];
        assert ids[k] == x;
      }
      if x in ids {
        var k :| 0 <= k < |ids| && ids[k] == x;
        assert us[k] in users;
      }
    }
    ids
  }

  predicate IsOverdue(t: Transaction, today: int) {
    t.status == Issued && t.dueDate < today
  }

  /** `SELECT DISTINCT t.user_id FROM transactions t WHERE t.status = 'issued'
      AND t.due_date < CURDATE()`. */
  function OverdueUserIds(ts: seq<Transaction>, today: int): (r: seq<int>)
    ensures forall x :: x in r <==> exists i :: 0 <= i < |ts| && ts[i].userId == x && IsOverdue(ts[i], today)
    ensures forall i, j :: 0 <= i < j < |r| ==> r[i] != r[j]
  {
    var late := Filter(ts, (t: Transaction) => IsOverdue(t, today));
    var ids := seq(|late|, i requires 0 <= i < |late| => late[i].userId);
    forall x ensures x in ids <==> exists i :: 0 <= i < |ts| && ts[i].userId == x && IsOverdue(ts[i], today) {
      if i :| 0 <= i < |ts| && ts[i].userId == x && IsOverdue(ts[i], today) {
        assert ts[i] in late;
        var k :| 0 <= k < |late| && late[k] == ts[i];
        assert ids[k] == x;
      }
      if x in ids {
        var k :| 0 <= k < |ids| && ids[k] == x;
        assert late[k] in ts;
      }
    }
    Distinct(ids)
  }

  /** The recipient ids of `sendBulkNotification`: every user for "all", the
      active users for "active", each member holding an overdue loan once
      for "overdue", the ids listed for an array, and nobody otherwise. */
  function Recipients(st: State, recipients: Value, today: int): (r: seq<int>)
    ensures recipients == Str("all") ==> |r| == |st.users| && forall i :: 0 <= i < |st.users| ==> r[i] == st.users[i].id
    ensures recipients == Str("active") ==>
      forall x :: x in r <==> exists i :: 0 <= i < |st.users| && st.users[i].id == x && st.users[i].status == Active
    ensures recipients == Str("overdue") ==>
      && (forall x :: x in r <==>
            exists i :: 0 <= i < |st.transactions| && st.transactions[i].userId == x && IsOverdue(st.transactions[i], today))
      && (forall i, j :: 0 <= i < j < |r| ==> r[i] != r[j])
    ensures recipients.Array? ==>
      forall x :: x in r <==> exists k :: 0 <= k < |recipients.entries| && recipients.entries[k].val == Int(x)
    ensures !recipients.Array? && recipients !in {Str("all"), Str("active"), Str("overdue")} ==> r == []
  {
    if recipients == Str("all") then UserIds(st.users)
    else if recipients == Str("active") then ActiveUserIds(st.users)
    else if recipients == Str("overdue") then OverdueUserIds(st.transactions, today)
    else if recipients.Array? then IntEntries(recipients.entries)
    else []
  }

  /** The `sendBulkNotification` fields after validation: title and message
      sanitized, `kind` the sanitized `type` when one was sent. */
  datatype BulkInput = BulkInput(title: string, message: string, kind: Option<string>, recipients: Value)

  /** Appends one notification per recipient, in order. */
  function NotifyAll(ns: seq<Notification>, ids: seq<int>, title: string, message: string, kind: string): (r: seq<Notification>)
    decreases |ids|
    ensures |r| == |ns| + |ids|
    ensures r[..|ns|] == ns
    ensures forall k :: 0 <= k < |ids| ==> r[|ns| + k] == Notification(ids[k], title, message, kind)
  {
    if ids == [] then ns
    else
      var r := NotifyAll(ns + [Notification(ids[0], title, message, kind)], ids[1..], title, message, kind);
      assert forall k :: 1 <= k < |ids| ==> ids[k] == ids[1..][k - 1];
      r
  }

  /** `sendBulkNotification`: one notification (type default "info") for
      each recipient, and `recipients_count` is the number inserted. */
  function SendBulkNotification(st: State, input: BulkInput, env: Env): (r: (State, nat))
    ensures var ids := Recipients(st, input.recipients, env.today);
      && r.1 == |ids|
      && |r.0.notifications| == |st.notifications| + |ids|
      && r.0.notifications[..|st.notifications|] == st.notifications
      && (forall k :: 0 <= k < |ids| ==>
            r.0.notifications[|st.notifications| + k] == Notification(ids[k], input.title, input.message, input.kind.GetOr("info")))
      && r.0.(notifications := st.notifications, activity := st.activity) == st
  {
    var ids := Recipients(st, input.recipients, env.today);
    var st1 := st.(notifications := NotifyAll(st.notifications, ids, input.title, input.message, input.kind.GetOr("info")));
    var st2 := LogActivity(st1, env.logOk, Activity(None, "bulk_notification_sent",
      "Sent to " + NatToString(|ids|) + " users: " + input.title));
    (st2, |ids|)
  }

  /** `x` receives one of the notifications from position `from` on. */
  predicate Notified(ns: seq<Notification>, from: nat, x: int) {
    exists k :: from <= k < |ns| && ns[k].userId == x
  }

  predicate HasActiveUser(users: seq<User>, x: int) {
    exists i :: 0 <= i < |users| && users[i].id == x && users[i].status == Active
  }

  /** Notifications appended for `ids`, one each, reach exactly the listed ids. */
  lemma NotifiedIffListed(ns: seq<Notification>, n: nat, ids: seq<int>, x: int)
    requires |ns| == n + |ids|
    requires forall k :: 0 <= k < |ids| ==> ns[n + k].userId == ids[k]
    ensures Notified(ns, n, x) <==> x in ids
  {
    if x in ids {
      var k :| 0 <= k < |ids| && ids[k] == x;
      assert ns[n + k].userId == x;
    }
    if Notified(ns, n, x) {
      var k :| n <= k < |ns| && ns[k].userId == x;
      assert ids[k - n] == x;
    }
  }

  lemma ActiveRecipients(st: State, today: int, x: int)
    ensures x in Recipients(st, Str("active"), today) <==> HasActiveUser(st.users, x)
  {
  }

  /** Sending to "active" notifies exactly the active members: a user id
      receives one of the new notifications iff it is an active user's. */
  lemma ActiveBroadcastReachesActiveMembers(st: State, input: BulkInput, env: Env)
    requires input.recipients == Str("active")
    ensures forall x :: Notified(SendBulkNotification(st, input, env).0.notifications, |st.notifications|, x) <==>
                        HasActiveUser(st.users, x)
  {
    var ids := Recipients(st, input.recipients, env.today);
    var ns := SendBulkNotification(st, input, env).0.notifications;
    assert |ns| == |st.notifications| + |ids|;
    assert forall k :: 0 <= k < |ids| ==> ns[|st.notifications| + k].userId == ids[k];
    forall x ensures Notified(ns, |st.notifications|, x) <==> HasActiveUser(st.users, x) {
      NotifiedIffListed(ns, |st.notifications|, ids, x);
      ActiveRecipients(st, env.today, x);
    }
  }

  // ------------------------------------------------------------ request bodies

  /* `addBookWithFiles`, `addNewMember` and `sendBulkNotification` first call
     `validateInput` on the decoded request body; only a body that passes
     reaches the handlers above.  `stripTags` stands for PHP's `strip_tags`. */

  const MemberFields: seq<string> := ["student_id", "name", "email", "course", "year"]
  const BulkFields: seq<string> := ["title", "message", "recipients"]

  /** `addBookWithFiles` on the request body; it reads the same fields as `addBook`. */
  function AddBookWithFilesRequest(st: State, data: map<string, Value>, pdf: Option<Upload>, cover: Option<Upload>,
                                   env: Env, stripTags: string -> string)
    : (r: Result<(State, FilesReply)>)
    ensures ValidateInput(data, Books.BookFields).Fail? ==> r == Err(ValidateInput(data, Books.BookFields).error)
    ensures ValidateInput(data, Books.BookFields).Pass? ==>
      r == AddBookWithFiles(st, Books.BookInputOf(data, stripTags), pdf, cover, env)
    ensures r.Ok? ==> forall k :: 0 <= k < |Books.BookFields| ==> !Blank(data, Books.BookFields[k])
  {
    match ValidateInput(data, Books.BookFields)
    case Fail(e) => Err(e)
    case Pass => AddBookWithFiles(st, Books.BookInputOf(data, stripTags), pdf, cover, env)
  }

  /** The same body, sent without files, fares alike on both paths whenever
      `addBook` accepts it, and both store the same catalogue data. */
  lemma AddBookRequestsAgree(st: State, data: map<string, Value>, env: Env, stripTags: string -> string)
    requires Books.AddBookRequest(st, data, env, stripTags).Ok?
    ensures AddBookWithFilesRequest(st, data, None, None, env, stripTags).Ok?
    ensures
      var a := Books.AddBookRequest(st, data, env, stripTags).value.0.books[|st.books|];
      var b := AddBookWithFilesRequest(st, data, None, None, env, stripTags).value.0.books[|st.books|];
      a == b.(totalPages := None, readingMinutes := None)
  {
    assert ValidateInput(data, Books.BookFields).Pass?;
    AddBookPathsAgree(st, Books.BookInputOf(data, stripTags), env);
  }

  /** The fields `addNewMember` reads; the password is used unsanitized. */
  function MemberInputOf(data: map<string, Value>, stripTags: string -> string): MemberInput {
    MemberInput(TextField(data, "student_id", "", stripTags), TextField(data, "name", "", stripTags),
                TextField(data, "email", "", stripTags), TextField(data, "course", "", stripTags),
                TextField(data, "year", "", stripTags), TextField(data, "phone", "", stripTags),
                Some(RawOf(Field(data, "password", Str(DefaultPassword)))))
  }

  /** `addNewMember` on the request body. */
  function AddNewMemberRequest(st: State, data: map<string, Value>, env: Env, stripTags: string -> string,
                               isEmail: string -> bool, hash: string -> string)
    : (r: Result<(State, MemberReply)>)
    ensures ValidateInput(data, MemberFields).Fail? ==> r == Err(ValidateInput(data, MemberFields).error)
    ensures ValidateInput(data, MemberFields).Pass? ==>
      r == AddNewMember(st, MemberInputOf(data, stripTags), env, isEmail, hash)
    ensures r.Ok? ==> forall k :: 0 <= k < |MemberFields| ==> !Blank(data, MemberFields[k])
  {
    match ValidateInput(data, MemberFields)
    case Fail(e) => Err(e)
    case Pass => AddNewMember(st, MemberInputOf(data, stripTags), env, isEmail, hash)
  }

  /** Without a `password` field the new member's temporary password is
      "password123". */
  lemma DefaultPasswordWhenNoneSent(st: State, data: map<string, Value>, env: Env, stripTags: string -> string,
                                    isEmail: string -> bool, hash: string -> string)
    requires "password" !in data
    requires AddNewMemberRequest(st, data, env, stripTags, isEmail, hash).Ok?
    ensures AddNewMemberRequest(st, data, env, stripTags, isEmail, hash).value.1.temporaryPassword == DefaultPassword
  {
    assert ValidateInput(data, MemberFields).Pass?;
  }

  function BulkInputOf(data: map<string, Value>, stripTags: string -> string): BulkInput {
    BulkInput(TextField(data, "title", "", stripTags), TextField(data, "message", "", stripTags),
              Some(TextField(data, "type", "info", stripTags)), Field(data, "recipients", Null))
  }

  /** `sendBulkNotification` on the request body. */
  function SendBulkNotificationRequest(st: State, data: map<string, Value>, env: Env, stripTags: string -> string)
    : (r: Result<(State, nat)>)
    ensures ValidateInput(data, BulkFields).Fail? ==> r == Err(ValidateInput(data, BulkFields).error)
    ensures ValidateInput(data, BulkFields).Pass? ==> r == Ok(SendBulkNotification(st, BulkInputOf(data, stripTags), env))
    ensures r.Ok? ==> forall k :: 0 <= k < |BulkFields| ==> !Blank(data, BulkFields[k])
  {
    match ValidateInput(data, BulkFields)
    case Fail(e) => Err(e)
    case Pass => Ok(SendBulkNotification(st, BulkInputOf(data, stripTags), env))
  }

  /** An array of recipients never reaches `sendBulkNotification`: PHP 8's
      `trim()` throws on the array while `validateInput` checks the required
      `recipients` field, so only the named groups are usable. */
  lemma ArrayRecipientsAreFatal(st: State, data: map<string, Value>, env: Env, stripTags: string -> string)
    requires "recipients" in data && data["recipients"].Array?
    ensures SendBulkNotificationRequest(st, data, env, stripTags) == Err(Fatal(ArrayTrimError))
  {
    assert HoldsArray(data, BulkFields[2]);
  }
}
