# DigiShelf library core in Dafny

DigiShelf is a small library system. Its PHP backend keeps tables of books, loans
(transactions), borrow requests, reviews and their votes, reading sessions, wishlists,
members and admins. Its React frontend talks to the backend over HTTP. This project
models the deterministic core of both sides and proves properties about it.

- **State and handlers.** The library's tables form one immutable `Tables.State`. Every
  backend handler is a pure function from a state and a typed input to
  `Result<(State, Reply)>`. An error carries no state, so a rejected request never
  changes anything. Clock readings and the outcome of the best-effort activity-log and
  notification writes arrive in an `Env` value.
- **Request bodies.** Every handler that calls `validateInput` has a `…Request` entry point
  (for example `Users.AddBookReviewRequest`). It takes the decoded JSON body as a map from
  field names to `Config.Value`s and runs `Config.ValidateInput` with the handler's list of
  required fields. If validation fails, the entry point returns that failure: a 422 naming
  the blank fields, or a fatal error for an array. Otherwise it reads the fields as the
  source does and calls the typed handler:
  - numbers with PHP's `(int)` (`Config.IntField`);
  - text through `sanitizeInput`, defaults included (`Config.TextField`);
  - passwords as sent.

  The typed handlers therefore describe what happens after validation. The entry point
  applies each field's default itself. So an `Option` field that has a default is always
  `Some` when a body reaches the handler this way.
- **Backend modules.**
  - `Users` covers the member handlers in `backend/user.php`: borrow requests, reviews,
    reading sessions, review votes, the wishlist and loan classification.
  - `Streak` covers the reading-streak loop.
  - `Books` covers the catalogue in `backend/books.php`.
  - `Admin` covers the admin handlers in `backend/admin.php`.
  - `Auth` covers tokens, login and registration in `backend/auth.php`.
  - `Config` covers the shared request helpers in `backend/config.php`.
  - `Paging` holds the pagination arithmetic that four listings share.
- **Frontend modules.**
  - `RegisterForm` is the registration form check.
  - `ApiErrors` is the error-to-message mapping of the API client.
- **Helper modules.** `Basics` holds `Option`, `Result` and the error type. `Text` holds
  PHP and JavaScript string behaviour: `trim`, `empty()`, `explode`/`implode`, decimal
  rendering, and UTF-8 and UTF-16 lengths.

Dates are day numbers and instants are integers. SQL `WHERE` clauses become filters and
comprehensions over the tables. Where the code and its documentation disagree, the model
follows the code.

## Model

| member | source | states |
|---|---|---|
| Users.RequestBook | backend/user.php:854-932 | On a body that passed `validateInput` (Users.RequestBookRequest): A request fails exactly when the book is missing or inactive, the member holds it `issued`, or a pending request for the pair exists. The checks run in that order, each with its own message. On success exactly one `pending` request is appended, with the given priority (default `normal`) and a fresh id. Only the request, notification and activity tables change. The wait estimate is 1 day when copies are available, otherwise 7. |
| Users.RequestBookKeepsOnePending | backend/user.php:887-895 | A successful request preserves "at most one pending request per (member, book)". |
| Users.RequestBookIgnoresSideWrites | backend/user.php:912-922 | Whether the activity-log or notification insert fails changes neither the outcome, the reply nor the request table. |
| Users.RequestBookRequest | backend/user.php:854-859 | A body with a blank required field (`user_id`, `book_id`) gets `validateInput`'s 422 listing the blank fields, or its fatal error when one holds an array, and nothing changes. Success implies every required field was supplied. Otherwise the ids are cast with `(int)` and the priority is sanitized (default `normal`), and `Users.RequestBook` decides. |
| Users.AddBookReview | backend/user.php:322-386 | On a body that passed `validateInput` (Users.AddBookReviewRequest): A review is accepted iff the rating is in 1..5, the member has at least one loan of the book, and the pair has no review yet. Each failure has its message. A new review is `approved` with helpful count 0 and a fresh id. Only the review, notification and activity tables change. |
| Users.AddBookReviewKeepsOnePerPair | backend/user.php:347-356 | Accepting a review preserves "one review per (member, book)". |
| Users.AddBookReviewRequest | backend/user.php:322-328 | A body with a blank required field (`user_id`, `book_id`, `rating`) gets `validateInput`'s 422 listing the blank fields, or its fatal error when one holds an array, and nothing changes. Success implies every required field was supplied. Otherwise the ids and rating are cast with `(int)` and the review text is sanitized (default empty), and `Users.AddBookReview` decides. |
| Users.ZeroRatingIs422 | backend/user.php:323-332 | With the ids supplied, a rating of 0 gets 422 "Missing required fields: rating". The typed handler would have answered "Rating must be between 1 and 5", but that check is never reached for 0. |
| Users.StartReadingSession | backend/user.php:390-425 | On a body that passed `validateInput` (Users.StartReadingSessionRequest): Any open session for the pair is closed. Afterwards exactly one open session exists for the pair, starting at the given page (default 1). Sessions of other pairs are untouched, and no other table changes. |
| Users.StartReadingSessionRequest | backend/user.php:390-396 | A body with a blank required field (`user_id`, `book_id`) gets `validateInput`'s 422 listing the blank fields, or its fatal error when one holds an array, and nothing changes. Success implies every required field was supplied. Otherwise the ids and page (default 1) are cast with `(int)` and the device type is sanitized (default `unknown`), and `Users.StartReadingSession` decides. |
| Users.EndReadingSession | backend/user.php:429-457 | On a body that passed `validateInput` (Users.EndReadingSessionRequest): Ending fails with "No active reading session found" iff no open session exists for the pair. Otherwise every open session for the pair is closed at the final page, with pages read equal to max(final − the session's current page just before the update, 0). Other sessions are untouched. No other table changes. This is the intended behaviour; see Findings. |
| Users.EndReadingSessionRequest | backend/user.php:429-434 | A body with a blank required field (`user_id`, `book_id`) gets `validateInput`'s 422 listing the blank fields, or its fatal error when one holds an array, and nothing changes. Success implies every required field was supplied. Otherwise the ids and final page (default 1) are cast with `(int)`, and `Users.EndReadingSession` decides. |
| Users.EndReadingSessionAsWritten | backend/user.php:429-457 | On a body that passed `validateInput` (Users.EndReadingSessionAsWrittenRequest): The statement as the code writes it. It fails with "No active reading session found" iff no open session exists for the pair. Otherwise every open session for the pair is closed at now and at the final page, keeps its id and start, and records 0 pages read. Every other session is untouched, and no other table changes. |
| Users.EndReadingSessionAsWrittenRequest | backend/user.php:429-434 | A body with a blank required field (`user_id`, `book_id`) gets `validateInput`'s 422 listing the blank fields, or its fatal error when one holds an array, and nothing changes. Success implies every required field was supplied. Otherwise the ids and final page (default 1) are cast with `(int)`, and `Users.EndReadingSessionAsWritten` decides. |
| Users.EndSessionAsWrittenReadsZero | backend/user.php:438-451 | As written, every session it closes records 0 pages read. |
| Users.UpdateReadingProgress | backend/user.php:962-983 | On a body that passed `validateInput` (Users.UpdateReadingProgressRequest): Only the open sessions of the pair move to the new page, with pages read max(page − 1, 0). No other session changes, and no other table changes. |
| Users.UpdateReadingProgressRequest | backend/user.php:962-967 | A body with a blank required field (`user_id`, `book_id`, `current_page`) gets `validateInput`'s 422 listing the blank fields, or its fatal error when one holds an array, and nothing changes. Success implies every required field was supplied. Otherwise the three are cast with `(int)`, and `Users.UpdateReadingProgress` decides. |
| Users.ZeroPageIs422 | backend/user.php:963-967 | With the ids supplied, page 0 gets 422 "Missing required fields: current_page", and no session moves. |
| Users.ProgressThenEnd | backend/user.php:390-457 | After a session is started and progress is reported at page p (user.php:962-983), ending it succeeds. It closes exactly that session, with pages read max(final − p, 0), and leaves every earlier session as the start left it. |
| Users.UpsertVote | backend/user.php:670-680 | If the member already voted on the review, that vote is replaced in place. Otherwise one vote is appended. |
| Users.VoteOnReview | backend/user.php:657-697 | On a body that passed `validateInput` (Users.VoteOnReviewRequest): The vote type must be `helpful` or `not_helpful` ("Invalid vote type" otherwise). The vote table becomes `Users.UpsertVote` of the member's vote, so it grows by at most one. Afterwards the member's vote on the review is the new one, every other vote is unchanged, and the review's helpful count equals the number of `helpful` votes on it. Only the vote and review tables change. |
| Users.VoteKeepsVotesUnique | backend/user.php:670-680 | Voting keeps at most one vote per (review, member). |
| Users.VoteTwiceIsVoteOnce | backend/user.php:657-697 | Repeating the same vote changes nothing: the latest vote wins. |
| Users.VoteOnReviewRequest | backend/user.php:657-662 | A body with a blank required field (`review_id`, `user_id`, `vote_type`) gets `validateInput`'s 422 listing the blank fields, or its fatal error when one holds an array, and nothing changes. Success implies every required field was supplied. Otherwise the ids are cast with `(int)` and the vote type is sanitized, and `Users.VoteOnReview` decides. |
| Users.EmptyVoteTypeIs422 | backend/user.php:658-666 | With the ids supplied, an empty vote type gets 422 "Missing required fields: vote_type", not "Invalid vote type". |
| Users.AddToWishlist | backend/user.php:545-568 | On a body that passed `validateInput` (Users.AddToWishlistRequest): Adding fails iff the book is already on the member's wishlist. Otherwise exactly that entry is added. |
| Users.RemoveFromWishlist | backend/user.php:936-958 | Missing ids give "User ID and Book ID required". An absent entry gives "Book not found in wishlist". Otherwise exactly that entry is removed. |
| Users.WishlistAddRemove | backend/user.php:545-568 | Adding and then removing the same book restores the original state. |
| Users.AddToWishlistRequest | backend/user.php:545-549 | A body with a blank required field (`user_id`, `book_id`) gets `validateInput`'s 422 listing the blank fields, or its fatal error when one holds an array, and nothing changes. Success implies every required field was supplied. Otherwise the ids are cast with `(int)`, and `Users.AddToWishlist` decides. |
| Users.WishlistRequestThenRemove | backend/user.php:545-568 | Numeric ids that pass validation are nonzero. So removing the pair that a successful wishlist request added (user.php:936-958) restores the state exactly. |
| Users.StatusType | backend/user.php:264-269 | A loan is `overdue` iff it is past due, `due_soon` iff 0 to 3 days remain, and `normal` iff more than 3 remain. |
| Users.StatusOnlyWorsens | backend/user.php:264-269 | As the day advances, a loan's classification never improves. |
| Users.BorrowedBooks | backend/user.php:255-286 | The listing holds exactly the member's `issued` loans, each with its days remaining and classification. |
| Streak.ReadingStreak | backend/user.php:772-804 | The loop as written. The result is at most the number of dates. The k-th date is accepted iff its distance from the previously accepted date (from today for the first) equals k, and the loop stops at the first failure. The result is 0 when there are no dates or the newest is not today. It agrees with the recursive reference `Walk`. |
| Streak.ConsecutiveStreak | backend/user.php:772-804 | The intended streak: the length of the longest run of consecutive days ending today. |
| Streak.StreakUndercounts | backend/user.php:786-796 | Three consecutive days ending today give 2 as written and 3 as intended. |
| Streak.ConsecutiveDaysCountTwo | backend/user.php:786-796 | Whenever the newest three days are today, yesterday and the day before, the loop as written returns 2, while the true streak is at least 3. |
| Paging.PageWindow | backend/books.php:68-70 | Page p of size n starts at row (p−1)·n. A negative LIMIT or OFFSET is a storage error reported with the handler's message. |
| Paging.TotalPages | backend/books.php:98 | `ceil(total/limit)` is the fewest pages holding all rows. A zero limit is an uncaught division by zero. |
| Paging.RowOnOnePage | backend/books.php:68-70 | Row i lies on page i / n + 1 and on no other. |
| Paging.PagesCoverRows | backend/books.php:68-98 | Every row appears on some page within `total_pages`, at the expected position. |
| Paging.PagesPastTheEndAreEmpty | backend/books.php:68-98 | A page past `total_pages` is empty. |
| Paging.ListPage | backend/books.php:66-108 | A listing succeeds iff page ≥ 1 and limit ≥ 1. It returns exactly the rows of the page's window, with `total_pages` the fewest pages holding the counted total. |
| Paging.ListPageShowsEveryRow | backend/books.php:66-108 | Paging through a listing shows every row: row i is entry i mod n of page i / n + 1, which is within `total_pages`. |
| Paging.ListPagePastTheEnd | backend/books.php:66-108 | A listing page past `total_pages` succeeds and holds no rows. |
| Books.ListBooks | backend/books.php:66-108 | `getAllBooks` returns exactly the page's window of the active books. `total` counts all active books, and `total_pages` is the fewest pages holding them. Bad paging parameters fail as in `Paging.ListPage`. |
| Books.EveryActiveBookListed | backend/books.php:66-108 | Every active book appears on some page of `getAllBooks` within `total_pages`, and every page past `total_pages` is empty. |
| Books.SearchBooks | backend/books.php:113-171 | The query is the parameter after `sanitizeInput`, so a query that sanitizes to "" (for example `<b></b>`) counts as empty. An empty query with category 0 behaves exactly like `getAllBooks`. Otherwise the result is exactly the page's window of the active books matching the query and category, and `total_found` is the size of that page. |
| Books.EveryMatchFound | backend/books.php:113-171 | A search with a query or a category shows every matching book on some page. |
| Books.AddBook | backend/books.php:253-308 | On a body that passed `validateInput` (Books.AddBookRequest): A non-empty ISBN already in the catalogue is rejected, and an empty ISBN skips the check. A new book is appended, `active`, with a fresh id and available copies equal to the quantity (default 1). Only the book table and the activity log change. |
| Books.AddBookKeepsIsbnsUnique | backend/books.php:270-276 | Adding keeps non-empty ISBNs unique. |
| Books.AddBookRequest | backend/books.php:253-266 | A body with a blank required field (`title`, `author`, `category_id`) gets `validateInput`'s 422 listing the blank fields, or its fatal error when one holds an array, and nothing changes. Success implies every required field was supplied. Otherwise the numbers are cast with `(int)` (quantity default 1) and the text fields are sanitized, and `Books.AddBook` decides. |
| Books.ZeroCategoryIs422 | backend/books.php:255-262 | With title and author supplied, category 0 gets 422 "Missing required fields: category_id", and no book is added. |
| Books.AddedBookHasCategory | backend/books.php:255-262 | A book added from a numeric `category_id` stores that category, and it is never 0. |
| Books.UpdateBook | backend/books.php:313-355 | On a body that passed `validateInput` (Books.UpdateBookRequest): Only an active book with the id is updated. Apart from that row and one activity-log entry, nothing changes. If no row changes, the result is 404 "Book not found or no changes made". |
| Books.Updated | backend/books.php:316-336 | The updated row keeps its id and status. Its quantity defaults to 1, its available count defaults to the new quantity, and it is stamped with the current instant. |
| Books.UpdateTwiceSameInstant | backend/books.php:346-349 | Repeating an update at the same instant changes no row, so it reports 404. |
| Books.UpdateBookRequest | backend/books.php:313-328 | A body with a blank required field (`id`, `title`, `author`) gets `validateInput`'s 422 listing the blank fields, or its fatal error when one holds an array, and nothing changes. Success implies every required field was supplied. Otherwise the numbers are cast with `(int)`, an absent `category_id` becomes 0, the available count defaults to the quantity, and the text fields are sanitized, and `Books.UpdateBook` decides. |
| Books.DeleteBook | backend/books.php:360-397 | A missing id is rejected. Deletion is refused while any `issued` loan references the book. Otherwise every row with the id gets status `inactive` and has `updated_at` stamped with the current instant. Other rows are untouched, and apart from one activity-log entry no other table changes. When no row changes the answer is 404 "Book not found". |
| Books.DeletedBookCannotBeRequested | backend/books.php:379-391 | After a deletion, a request for that book is refused as "Book not found or inactive". |
| Admin.ReadingTime | backend/admin.php:595 | The estimate is null iff pages is 0. Otherwise it is the least r with 4r ≥ 5·pages. |
| Admin.PdfUploadError | backend/admin.php:637-665 | A PDF is accepted iff its type is `application/pdf`, its size is at most 50 MiB and the move succeeds. The checks run in that order, each with its own message. |
| Admin.CoverUploadError | backend/admin.php:670-696 | A cover is accepted iff it is JPEG, PNG or GIF, at most 5 MiB, and the move succeeds. The checks run in that order, each with its own message. |
| Admin.AddBookWithFiles | backend/admin.php:565-632 | On a body that passed `validateInput` (Admin.AddBookWithFilesRequest): An upload error aborts with "Failed to add book: " and the message. Otherwise the book is appended under a fresh id. It stores the given title, author, ISBN, category, description, publisher, year and pages. It is active, with available copies equal to the quantity (default 1). Its PDF size is that of the uploaded PDF, and it has a cover iff one was uploaded. `total_pages` is its page count, and the reading time comes from its pages. Only the books table and the activity log change. |
| Admin.AddBookPathsAgree | backend/admin.php:576-610 | Without files, the admin path succeeds whenever `addBook` does, and stores the same row apart from the page-derived reading fields. |
| Admin.UploadSizeBoundaries | backend/admin.php:637-696 | The size limits are inclusive. A PDF of exactly 50 MiB and a cover of exactly 5 MiB are stored with the book. One byte more aborts the insert with the matching size message. |
| Admin.AddBookWithFilesRequest | backend/admin.php:565-576 | A body with a blank required field (`title`, `author`, `category_id`) gets `validateInput`'s 422 listing the blank fields, or its fatal error when one holds an array, and nothing changes. Success implies every required field was supplied. Otherwise the fields are read as `addBook` reads them, and `Admin.AddBookWithFiles` decides. |
| Admin.AddBookRequestsAgree | backend/admin.php:565-576 | The same body sent without files succeeds on the admin path whenever `addBook` (books.php:253-266) accepts it. Both store the same catalogue data. |
| Admin.AddNewMember | backend/admin.php:458-525 | On a body that passed `validateInput` (Admin.AddNewMemberRequest): An invalid email is rejected, and so is an email or student id already in use. A new member is `active`, gets a fresh id, holds the hash of the given password (default `password123`), and the reply reveals that password. Only the user, notification and activity tables change. |
| Admin.AddNewMemberKeepsContactsUnique | backend/admin.php:476-480 | Adding a member keeps emails and student ids unique. |
| Admin.AddNewMemberRequest | backend/admin.php:458-467 | A body with a blank required field (`student_id`, `name`, `email`, `course`, `year`) gets `validateInput`'s 422 listing the blank fields, or its fatal error when one holds an array, and nothing changes. Success implies every required field was supplied. Otherwise the text fields are sanitized (phone default empty) and the password is taken as sent (default `password123`), and `Admin.AddNewMember` decides. |
| Admin.DefaultPasswordWhenNoneSent | backend/admin.php:467 | A member added from a body without `password` is given the temporary password "password123". |
| Admin.MembersPage | backend/admin.php:303-373 | Exactly the page's window of the members matching the search, status and course filters, with the shared paging rules. `total_pages` is computed from the count query's result. |
| Admin.EveryMatchingMemberListed | backend/admin.php:303-373 | Every matching member appears on some page. That page is within `total_pages` whenever the count query counted the matches. |
| Admin.ManagementBooks | backend/admin.php:701-788 | Exactly the page's window of the books matching the management filters, the status filter defaulting to `active` (admin.php:705). `total` counts every match, and `total_pages` is the fewest pages holding them. |
| Admin.EveryManagedBookListed | backend/admin.php:701-788 | Every matching book appears on some page within `total_pages`. |
| Admin.Recipients | backend/admin.php:805-818 | `all` is every user in table order and `active` the active users. `overdue` is the distinct users with an issued loan past due. Any other string gives nobody. |
| Admin.SendBulkNotification | backend/admin.php:793-845 | On a body that passed `validateInput` (Admin.SendBulkNotificationRequest): Every resolved recipient gets the notification, type defaulting to `info`. The reported count equals the number of recipients. Only the notifications table and the activity log change. |
| Admin.SendBulkNotificationRequest | backend/admin.php:793-799 | A body with a blank required field (`title`, `message`, `recipients`) gets `validateInput`'s 422 listing the blank fields, or its fatal error when one holds an array, and nothing changes. Success implies every required field was supplied. Otherwise title, message and type (default `info`) are sanitized and `recipients` is taken as sent, and `Admin.SendBulkNotification` decides. |
| Admin.ActiveBroadcastReachesActiveMembers | backend/admin.php:793-845 | Sending to `active` notifies exactly the active members: a user id receives one of the new notifications iff it belongs to an active user. |
| Admin.ArrayRecipientsAreFatal | backend/admin.php:794-799 | A body whose `recipients` is an array dies in `validateInput`'s `trim()`: the request ends in that fatal error, so the array branch is never reached. |
| Auth.VerifyToken | backend/auth.php:269-324 | An `empty()` token gives 401 "Token required". A `user_` token with at least three `_` pieces whose second piece names an active member gives that member. An `admin_` token likewise gives that admin. Anything else is 401 "Invalid or expired token". |
| Auth.UserTokenRoundTrip | backend/auth.php:101 | The token minted at login verifies back to the same active member, whatever the login time. |
| Auth.UserTokenOfInactive | backend/auth.php:277-297 | A token for a member who is not active is refused. |
| Auth.AdminTokenRoundTrip | backend/auth.php:232 | The token minted at admin login verifies back to the same admin. |
| Auth.FindActiveByEmail | backend/auth.php:72-75 | The lookup returns the first active user with the email, and nothing only when none exists. |
| Auth.Login | backend/auth.php:62-118 | On a body that passed `validateInput` (Auth.LoginRequest): Login succeeds iff the email is valid, an active member has it, and the password verifies. Every other valid-email case is 401 "Invalid email or password". The token names the member and the login time. A login writes only the activity log. |
| Auth.BlockedMemberGets401 | backend/auth.php:77-95 | A member who is not active gets the 401, so the 403 branch is unreachable. |
| Auth.LoginTokenVerifies | backend/auth.php:101 | The token a successful login returns verifies to the member who logged in. |
| Auth.LoginRequest | backend/auth.php:62-68 | A body with a blank required field (`email`, `password`) gets `validateInput`'s 422 listing the blank fields, or its fatal error when one holds an array, and nothing changes. Success implies every required field was supplied. Otherwise the email is sanitized and the password is taken as sent, and `Auth.Login` decides. |
| Auth.EmptyEmailIs422 | backend/auth.php:64-73 | With a password supplied, an empty email gets 422 "Missing required fields: email", not "Invalid email format". |
| Auth.AdminLogin | backend/auth.php:204-249 | On a body that passed `validateInput` (Auth.AdminLoginRequest): Admin login succeeds iff the username exists and the password verifies ("Invalid username or password" otherwise). The token names the admin and the login time. A login writes only the activity log. |
| Auth.AdminLoginTokenVerifies | backend/auth.php:232 | The token an admin login returns verifies to that admin. |
| Auth.AdminLoginRequest | backend/auth.php:204-210 | A body with a blank required field (`username`, `password`) gets `validateInput`'s 422 listing the blank fields, or its fatal error when one holds an array, and nothing changes. Success implies every required field was supplied. Otherwise the username is sanitized and the password is taken as sent, and `Auth.AdminLogin` decides. |
| Auth.Register | backend/auth.php:123-199 | On a body that passed `validateInput` (Auth.RegisterRequest): In order: an invalid email is rejected, then a password under 6 bytes, then an email or student id already in use. A new member is `active`, holds the password's hash, and gets a fresh id. Only the user table and the activity log change. |
| Auth.RegisterKeepsContactsUnique | backend/auth.php:155-164 | Registration keeps emails and student ids unique. |
| Auth.RegisteredMemberCanLogIn | backend/auth.php:123-199 | A member who has just registered can log in with the same email and password. |
| Auth.RegisterRequest | backend/auth.php:123-134 | A body with a blank required field (`student_id`, `name`, `email`, `password`, `course`, `year`) gets `validateInput`'s 422 listing the blank fields, or its fatal error when one holds an array, and nothing changes. Success implies every required field was supplied. Otherwise the text fields are sanitized, the password is taken as sent, and the phone is kept only when set, and `Auth.Register` decides. |
| Auth.BlankPasswordIs422 | backend/auth.php:125-144 | With every other field supplied, a password of whitespace only gets 422 "Missing required fields: password". Six spaces would pass the 6-byte length check, but that check is never reached. |
| Auth.RegisteredFieldsHaveText | backend/auth.php:125 | Whoever registers has a name and a password that each hold some character other than whitespace. |
| Config.ValidateInput | backend/config.php:85-97 | Validation passes iff every required field is present and non-blank after trimming. Otherwise it fails with 422, listing every blank field in order. A field holding an array is a fatal `trim()` error. |
| Config.ZeroIsMissing | backend/config.php:89 | Because `empty("0")` holds, a field whose trimmed text is "0" is reported missing. |
| Config.OnlyBlankReported | backend/config.php:85-97 | When exactly one required field is blank and none holds an array, the 422 message names that field alone. |
| Config.WhitespaceIsBlank | backend/config.php:89 | A text field of whitespace only (or empty) counts as missing. |
| Config.NumberZeroIsBlank | backend/config.php:89 | The number 0 in a required field counts as missing. |
| Config.ValidatedNumberIsNonZero | backend/config.php:89 | A JSON number that passes validation is never 0 after `(int)`. |
| Config.IntOfRoundTrip | backend/user.php:325-327 | `(int)` on PHP's decimal text of an integer gives that integer back. |
| Config.CastAgreesWithText | backend/user.php:325-327 | Casting a scalar gives the same integer as casting its string form. |
| Config.SanitizeInput | backend/config.php:110-115 | An array is mapped element by element, keeping keys and length. Any other value becomes text free of raw `<`, `>`, `"` and `'`. |
| Config.EscapeRoundTrip | backend/config.php:114 | HTML escaping loses nothing: decoding the escaped text gives the text back. |
| Config.SanitizedIsClean | backend/config.php:110-115 | Sanitizing a nested array cleans every string at every depth. |
| Config.TextOf | backend/config.php:110-115 | A scalar field read as text is exactly `sanitizeInput` of it, and holds no raw `<`, `>`, `"` or `'`. |
| Tables.LogActivity | backend/config.php:118-136 | A failed audit insert is swallowed and leaves the state as it was. Otherwise only the activity log grows, by exactly the entry. |
| Tables.Notify | backend/user.php:529-541 | A failed notification insert is swallowed and leaves the state as it was. Otherwise only the notification table grows, by exactly the notification. |
| Text.SplitJoin | backend/auth.php:278 | `explode` undoes `implode` for pieces free of the separator. |
| RegisterForm.ValidateForm | frontend/src/pages/RegisterPage.js:33-64 | The result is null iff every check passes. Otherwise the first failing check decides the message, in this order: blank required fields (student id, name, email, password, course, year), the email pattern, the password length, the confirmation, and the student id length. |
| RegisterForm.EmailOkIff | frontend/src/pages/RegisterPage.js:43-46 | The email scan accepts exactly the strings of the form a@b.c, where a, b and c are non-empty and free of whitespace and `@`. |
| RegisterForm.BlankStudentIdFirst | frontend/src/pages/RegisterPage.js:35-40 | A blank student id is reported first, as "student id is required" (the first `_` becomes a space). |
| RegisterForm.FormPasswordPassesServer | frontend/src/pages/RegisterPage.js:49-51 | A password the form accepts (6 or more UTF-16 units) also passes the server's 6-byte minimum. |
| ApiErrors.ServerText | frontend/src/services/api.js:437 | The message is the body's `error`, else its `message`, else "Server error occurred". It is never empty. |
| ApiErrors.HandleApiError | frontend/src/services/api.js:432-461 | 400 prefixes "Invalid request: ". 401, 403, 404 and 500 give fixed texts, and any other status gives the server text. Without a response, a sent request gives the connectivity text, then ECONNREFUSED gives the demo-mode text, then the error's own message or the generic fallback. The result is never empty. |
| ApiErrors.ContactDecides | frontend/src/services/api.js:434-454 | When the server answered, or a request went out, the error code and message do not matter. So the ECONNREFUSED text needs neither a response nor a request. |
| ApiErrors.FixedStatusIgnoresBody | frontend/src/services/api.js:441-448 | For 401, 403, 404 and 500 the body is ignored. |
| ApiErrors.Sent | backend/config.php:66-82 | `sendError` answers with its status and a JSON body whose `error` is the message. An uncaught PHP error answers 200 with a body that is not JSON, because `display_errors` is on (config.php:147). |
| ApiErrors.BackendErrorShown | frontend/src/services/api.js:437-450 | A backend error with a non-2xx status rejects the request. Its message reaches the reader verbatim, or prefixed for 400, unless its status has a fixed text. An uncaught PHP error does not reject, so `handleApiError` never sees it. |

## Left out

- HTTP dispatch, `sendResponse`/`sendError`, JSON encoding and CORS headers are I/O plumbing. `ApiErrors.Sent` states only the status and the shape of the error body the frontend reads.
- What a frontend page does with a resolved response whose body is PHP's error text rather than JSON is not modelled. Only `handleApiError` is.
- PDO and MySQL are not modelled. Tables are sequences and sets, and `ORDER BY` is replaced by table order.
- Storage exceptions are not modelled: a failed insert or update that is caught and turned into a 500 or 400. The one exception is the negative `LIMIT`/`OFFSET` of the listings.
- Activity-log and notification writes on error paths (for example `failed_login`) are left out. An error result carries no state.
- `password_hash`/`password_verify`, `filter_var(..., FILTER_VALIDATE_EMAIL)` and `strip_tags` are library calls. They are parameters of the model (`hash`, `verify`, `isEmail`, `stripTags`).
- File moves, directory creation, `uniqid()` file names and `backend/upload_image.php` are left out. Whether the move succeeded is the input flag `moved`.
- The approve, reject, issue, return and fine lifecycle has no backend handler, so only request submission is modelled.
- Float aggregates (averages, percentages, reading hours), dashboards, recommendations, reports, exports and profile updates are outside the core.
- SQL `LIKE` is modelled as case-sensitive substring search. Collation case-insensitivity and `%`/`_` wildcards inside the search text are not modelled.
- The `=` lookups compare strings exactly. The connection uses `utf8mb4`, whose default collation ignores case, so in the source "Bob@x.com" matches a stored "bob@x.com". This affects the following lookups:
  - login's email lookup (`Auth.FindActiveByEmail`);
  - the email and student id checks of registration (`Auth.Register`) and of `Admin.AddNewMember`;
  - the ISBN check of `Books.AddBook`;
  - the admin username lookup (`Auth.AdminLogin`).
- Auth.RegisterKeepsContactsUnique, Admin.AddNewMemberKeepsContactsUnique and Books.AddBookKeepsIsbnsUnique promise uniqueness under exact string equality only. Under the case-insensitive collation the source is stricter.
- Concurrency and transactions are not modelled: each handler, including the vote transaction, is one atomic step.
- Dates are whole day numbers. Time zones and daylight-saving shifts in `DateTime::diff` are not modelled.
- Auth.VerifyToken: the second token piece must be a run of decimal digits whose value is the id. MySQL's lenient string-to-number comparison, which would also accept for example "7abc" for id 7, is not modelled.
- Admin.MembersPage: `total` is the parameter `counted`. The count query is built by rewriting the listing's SQL text with `str_replace`, and that rewrite is not modelled.
- Admin.Recipients: an array of recipients keeps only its integer entries. The branch cannot be reached, because `validateInput` dies on an array first (Admin.ArrayRecipientsAreFatal).
- Admin.SendBulkNotification: a failed insert raises an exception that aborts the handler, so the model has no partial-success count.
- Users.AddBookReview: the helpful count of a new review is the column default, 0.
- Admin.ReadingTime: PHP computes `ceil(pages * 250 / 200)` in floating point. The model uses exact rational rounding, which agrees for all page counts below 2^50.
- Streak.ReadingStreak: the dates are given as distinct day numbers, newest first, as the SQL query returns them. The instant of the first comparison is today's day number.
- Users.RemoveFromWishlist: the ids arrive as integers, and a missing id is 0.
- Books.DeleteBook: the id is an integer, and a missing id is 0. The source tests the raw query-string value with `!$id`, so for example "00" is truthy there and reaches the lookup (answering 404), where the model answers 400 "Book ID required".
- Admin.ManagementBooks: the category is an integer, 0 when absent. The source tests the raw `$_GET['category']` for truthiness and binds it as a string, so a value such as "abc" or "00" filters on `category_id = 0` there.
- Config.IntOf: PHP's `(int)` on a string reads an optional sign and the leading decimal digits. It also skips leading whitespace, reads fractions and exponents ("1e3" is 1000) and saturates at 64 bits. The model does none of these three.
- Paging.PageWindow: PHP computes the offset `($page - 1) * $limit` in 64-bit integers, and a huge page overflows to a float. The model's offset is exact.
- Config.TextOf: an array in a field that a handler uses as text reads as "". In the source the array flows on into the query or a string function, and that is not modelled. The same holds for `Config.RawOf`, which reads the password of `Admin.AddNewMemberRequest`.
- Config.ValidateInput: `Value` has no floating-point variant. A JSON number such as `1.5` becomes a PHP float, which `trim()` renders as "1.5". That conversion is not modelled.

## Findings

| source | as written | input that shows it | evidently intended | confidence | as-written member | corrected member |
|---|---|---|---|---|---|---|
| backend/user.php:438-451 | `UPDATE ... SET current_page = ?, pages_read = GREATEST(? - current_page, 0)`. MySQL assigns single-table `SET` items left to right, so the subtraction already sees the new `current_page`. | Open session at page 10, ended at page 25: `pages_read` becomes 0. | `pages_read` = max(final page − page before the update, 0), here 15. | medium, not executed | Users.EndSessionAsWrittenReadsZero | Users.EndReadingSession |
| backend/user.php:786-796 | The streak loop accepts a day when its gap from the previously accepted day equals the running count. | Reading on today, yesterday and the day before gives a streak of 2. | Accept each day exactly one day before the previous one, giving 3. | high, not executed | Streak.StreakUndercounts | Streak.ConsecutiveStreak |
