/** The library database as an in-memory value: one sequence of rows per
    table, in insertion order.  Dates are day numbers, instants are seconds;
    `Env` carries the clock the handlers read (`CURDATE()`, `NOW()`, `time()`)
    and whether the best-effort side writes (activity log, notifications)
    succeed this time.
 */
module Tables {
  import opened Basics

  datatype BookStatus = BookActive | BookInactive

  datatype Book = Book(
    id: nat, title: string, author: string, isbn: string, categoryId: int,
    description: string, publisher: string, publicationYear: int, pages: int,
    quantity: int, available: int, status: BookStatus,
    pdfSize: Option<int>, hasCover: bool, totalPages: Option<int>,
    readingMinutes: Option<int>, updatedAt: Option<int>)

  datatype TxStatus = Issued | Returned

  /** A loan: only the columns the modelled handlers read. */
  datatype Transaction = Transaction(id: nat, userId: int, bookId: int, dueDate: int, status: TxStatus)

  datatype RequestStatus = Pending | Approved | Rejected

  datatype BookRequest = BookRequest(
    id: nat, userId: int, bookId: int, requestDate: int, status: RequestStatus, priority: string)

  datatype Review = Review(
    id: nat, userId: int, bookId: int, rating: int, text: string, status: string, helpfulCount: nat)

  datatype VoteType = Helpful | NotHelpful

  datatype ReviewVote = ReviewVote(reviewId: int, userId: int, vote: VoteType)

  /** `end` is `None` while the session is open (`session_end IS NULL`). */
  datatype ReadingSession = ReadingSession(
    id: nat, userId: int, bookId: int, start: int, end: Option<int>,
    currentPage: int, pagesRead: int, device: string)

  datatype WishItem = WishItem(userId: int, bookId: int)

  datatype UserStatus = Active | Blocked | Inactive

  datatype User = User(
    id: nat, studentId: string, name: string, email: string, passwordHash: string,
    phone: Option<string>, course: string, year: string, status: UserStatus)

  datatype Admin = Admin(id: nat, username: string, name: string, email: string, passwordHash: string)

  datatype Notification = Notification(userId: int, title: string, message: string, kind: string)

  datatype Activity = Activity(userId: Option<int>, action: string, details: string)

  datatype State = State(
    books: seq<Book>,
    transactions: seq<Transaction>,
    requests: seq<BookRequest>,
    reviews: seq<Review>,
    votes: seq<ReviewVote>,
    sessions: seq<ReadingSession>,
    wishlist: set<WishItem>,
    users: seq<User>,
    admins: seq<Admin>,
    notifications: seq<Notification>,
    activity: seq<Activity>)

  /** `today` is `CURDATE()` as a day number, `now` is `NOW()`/`time()` in
      seconds; `logOk` and `notifyOk` say whether this request's activity-log
      and notification inserts succeed. */
  datatype Env = Env(today: int, now: int, logOk: bool, notifyOk: bool)

  /** The AUTO_INCREMENT id of the next row: larger than every id in use. */
  function NextId<T>(rows: seq<T>, id: T -> nat): (r: nat)
    ensures r > 0
    ensures forall i :: 0 <= i < |rows| ==> id(rows[i]) < r
  {
    if rows == [] then 1
    else
      var m := NextId(rows[..|rows| - 1], id);
      var last := id(rows[|rows| - 1]);
      assert forall i :: 0 <= i < |rows| - 1 ==> rows[i] == rows[..|rows| - 1][i];
      if last < m then m else last + 1
  }

  /** `logActivity`: appends an audit row, or, when the insert fails, writes
      nothing and still returns normally; it never reports failure. */
  function LogActivity(st: State, ok: bool, entry: Activity): (r: State)
    ensures r.(activity := st.activity) == st
    ensures ok ==> r.activity == st.activity + [entry]
    ensures !ok ==> r == st
  {
    if ok then st.(activity := st.activity + [entry]) else st
  }

  /** `createNotification`: like `logActivity`, a failed insert is swallowed. */
  function Notify(st: State, ok: bool, n: Notification): (r: State)
    ensures r.(notifications := st.notifications) == st
    ensures ok ==> r.notifications == st.notifications + [n]
    ensures !ok ==> r == st
  {
    if ok then st.(notifications := st.notifications + [n]) else st
  }

  // ---------------------------------------------------------------- queries

  /** `SELECT ... FROM books WHERE id = ? AND status = 'active'`: the first
      such row, if any. */
  function FindActiveBook(books: seq<Book>, id: int): (r: Option<Book>)
    ensures r.Some? ==> r.value in books && r.value.id == id && r.value.status == BookActive
    ensures r.None? <==> forall i :: 0 <= i < |books| ==> !(books[i].id == id && books[i].status == BookActive)
  {
    if books == [] then None
    else if books[0].id == id && books[0].status == BookActive then Some(books[0])
    else
      var r := FindActiveBook(books[1..], id);
      assert forall i :: 1 <= i < |books| ==> books[i] == books[1..][i - 1];
      r
  }

  /** The user holds the book: an `issued` transaction for the pair exists. */
  predicate HoldsIssued(st: State, userId: int, bookId: int) {
    exists i :: 0 <= i < |st.transactions| &&
      st.transactions[i].userId == userId && st.transactions[i].bookId == bookId &&
      st.transactions[i].status == Issued
  }

  /** Some transaction, of any status, exists for the pair. */
  predicate HasBorrowed(st: State, userId: int, bookId: int) {
    exists i :: 0 <= i < |st.transactions| &&
      st.transactions[i].userId == userId && st.transactions[i].bookId == bookId
  }

  predicate HasPendingRequest(st: State, userId: int, bookId: int) {
    exists i :: 0 <= i < |st.requests| &&
      st.requests[i].userId == userId && st.requests[i].bookId == bookId &&
      st.requests[i].status == Pending
  }

  /** The book-request invariant: no (user, book) pair has two pending requests. */
  ghost predicate AtMostOnePending(requests: seq<BookRequest>) {
    forall i, j :: 0 <= i < j < |requests| && requests[i].status == Pending && requests[j].status == Pending ==>
      requests[i].userId != requests[j].userId || requests[i].bookId != requests[j].bookId
  }

  /** The primary key of `users`. */
  ghost predicate UniqueUserIds(users: seq<User>) {
    forall i, j :: 0 <= i < j < |users| ==> users[i].id != users[j].id
  }

  ghost predicate UniqueAdminIds(admins: seq<Admin>) {
    forall i, j :: 0 <= i < j < |admins| ==> admins[i].id != admins[j].id
  }

  /** `SELECT id FROM users WHERE email = ? OR student_id = ?` finds a row. */
  predicate UserExists(users: seq<User>, email: string, studentId: string) {
    exists i :: 0 <= i < |users| && (users[i].email == email || users[i].studentId == studentId)
  }

  /** Neither two users share an email nor two users share a student id. */
  ghost predicate UniqueContacts(users: seq<User>) {
    forall i, j :: 0 <= i < j < |users| ==>
      users[i].email != users[j].email && users[i].studentId != users[j].studentId
  }

  /** A user added only after the existence check keeps emails and student ids unique. */
  lemma AppendKeepsContactsUnique(users: seq<User>, u: User)
    requires UniqueContacts(users)
    requires !UserExists(users, u.email, u.studentId)
    ensures UniqueContacts(users + [u])
  {
    var us := users + [u];
    forall i, j | 0 <= i < j < |us| ensures us[i].email != us[j].email && us[i].studentId != us[j].studentId {
      if j == |users| {
        assert us[i] == users[i];
      } else {
        assert us[i] == users[i] && us[j] == users[j];
      }
    }
  }
}
