/** The member-side handlers of `backend/user.php`: borrow requests, reviews,
    reading sessions, review votes, the wishlist and the loan status shown on
    the dashboard.  Each handler checks its guards against the tables and
    then makes one change; an `Err` result means nothing was written.
 */
module Users {
  import opened Basics
  import opened Text
  import opened Tables
  import opened Config

  // Messages the handlers return, word for word.
  const AlreadyBorrowed: string := "You have already borrowed this book"
  const AlreadyRequested: string := "You already have a pending request for this book"
  const NotBorrowed: string := "You can only review books you have borrowed"
  const AlreadyReviewed: string := "You have already reviewed this book"
  const ReviewAdded: string := "Your review has been successfully added!"

  // ------------------------------------------------------------ requestBook

  /** The request fields after validation: `user_id` and `book_id` cast to
      integers, and `priority` (already sanitized) when the client sent one. */
  datatype RequestInput = RequestInput(userId: int, bookId: int, priority: Option<string>)

  datatype RequestReply = RequestReply(status: int, requestId: nat, estimatedWaitDays: int)

  /** `requestBook`: the book must exist and be active, the member must not
      hold it already and must not have a pending request for it.  Success
      queues exactly one pending request and never touches the stock. */
  function RequestBook(st: State, input: RequestInput, env: Env): (r: Result<(State, RequestReply)>)
    ensures r.Err? <==>
      FindActiveBook(st.books, input.bookId).None? ||
      HoldsIssued(st, input.userId, input.bookId) ||
      HasPendingRequest(st, input.userId, input.bookId)
    ensures FindActiveBook(st.books, input.bookId).None? ==>
      r == Err(BadRequest("Book not found or inactive"))
    ensures FindActiveBook(st.books, input.bookId).Some? && HoldsIssued(st, input.userId, input.bookId) ==>
      r == Err(BadRequest(AlreadyBorrowed))
    ensures FindActiveBook(st.books, input.bookId).Some? && !HoldsIssued(st, input.userId, input.bookId) &&
            HasPendingRequest(st, input.userId, input.bookId) ==>
      r == Err(BadRequest(AlreadyRequested))
    ensures r.Ok? ==>
      var st' := r.value.0;
      var reply := r.value.1;
      var book := FindActiveBook(st.books, input.bookId).value;
      && reply.status == 201
      && st'.requests == st.requests +
           [BookRequest(reply.requestId, input.userId, input.bookId, env.today, Pending, input.priority.GetOr("normal"))]
      && (forall i :: 0 <= i < |st.requests| ==> st.requests[i].id != reply.requestId)
      && st'.books == st.books
      && st'.transactions == st.transactions
      && st'.(requests := st.requests, notifications := st.notifications, activity := st.activity) == st
      && reply.estimatedWaitDays == (if book.available > 0 then 1 else 7)
  {
    match FindActiveBook(st.books, input.bookId)
    case None => Err(BadRequest("Book not found or inactive"))
    case Some(book) =>
      if HoldsIssued(st, input.userId, input.bookId) then
        Err(BadRequest(AlreadyBorrowed))
      else if HasPendingRequest(st, input.userId, input.bookId) then
        Err(BadRequest(AlreadyRequested))
      else
        var id := NextId(st.requests, (q: BookRequest) => q.id);
        var request := BookRequest(id, input.userId, input.bookId, env.today, Pending, input.priority.GetOr("normal"));
        var st1 := st.(requests := st.requests + [request]);
        var st2 := Notify(st1, env.notifyOk, Notification(input.userId, "Book Request Submitted",
          "Your request for '" + book.title + "' has been submitted and is pending approval.", "info"));
        var st3 := LogActivity(st2, env.logOk, Activity(Some(input.userId), "book_requested", "Requested book: " + book.title));
        Ok((st3, RequestReply(201, id, if book.available > 0 then 1 else 7)))
  }

  /** A successful request keeps "at most one pending request per (user, book)". */
  lemma RequestBookKeepsOnePending(st: State, input: RequestInput, env: Env)
    requires AtMostOnePending(st.requests)
    requires RequestBook(st, input, env).Ok?
    ensures AtMostOnePending(RequestBook(st, input, env).value.0.requests)
  {
    var rs := RequestBook(st, input, env).value.0.requests;
    var n := |st.requests|;
    forall i, j | 0 <= i < j < |rs| && rs[i].status == Pending && rs[j].status == Pending
      ensures rs[i].userId != rs[j].userId || rs[i].bookId != rs[j].bookId
    {
      assert rs[i] == st.requests[i];
      if j == n {
        assert !HasPendingRequest(st, input.userId, input.bookId);
      } else {
        assert rs[j] == st.requests[j];
      }
    }
  }

  /** A failing activity-log or notification insert never changes what the
      member is told, nor the requests table. */
  lemma RequestBookIgnoresSideWrites(st: State, input: RequestInput, env: Env, env': Env)
    requires env'.today == env.today
    ensures RequestBook(st, input, env).Ok? == RequestBook(st, input, env').Ok?
    ensures RequestBook(st, input, env).Ok? ==>
      RequestBook(st, input, env).value.1 == RequestBook(st, input, env').value.1 &&
      RequestBook(st, input, env).value.0.requests == RequestBook(st, input, env').value.0.requests
  {
  }

  // ---------------------------------------------------------- addBookReview

  datatype ReviewInput = ReviewInput(userId: int, bookId: int, rating: int, text: string)

  datatype ReviewReply = ReviewReply(status: int, reviewId: nat)

  predicate HasReviewed(st: State, userId: int, bookId: int) {
    exists i :: 0 <= i < |st.reviews| && st.reviews[i].userId == userId && st.reviews[i].bookId == bookId
  }

  /** No member has two reviews of the same book. */
  ghost predicate OneReviewPerPair(reviews: seq<Review>) {
    forall i, j :: 0 <= i < j < |reviews| ==>
      reviews[i].userId != reviews[j].userId || reviews[i].bookId != reviews[j].bookId
  }

  /** `addBookReview`: the rating must lie in 1..5 (checked before any
      query), the member must have borrowed the book at least once, and may
      review it only once.  A new review is published at once (`approved`)
      with no helpful votes yet. */
  function AddBookReview(st: State, input: ReviewInput, env: Env): (r: Result<(State, ReviewReply)>)
    ensures r.Ok? <==>
      1 <= input.rating <= 5 && HasBorrowed(st, input.userId, input.bookId) && !HasReviewed(st, input.userId, input.bookId)
    ensures !(1 <= input.rating <= 5) ==> r == Err(BadRequest("Rating must be between 1 and 5"))
    ensures 1 <= input.rating <= 5 && !HasBorrowed(st, input.userId, input.bookId) ==>
      r == Err(BadRequest(NotBorrowed))
    ensures 1 <= input.rating <= 5 && HasBorrowed(st, input.userId, input.bookId) && HasReviewed(st, input.userId, input.bookId) ==>
      r == Err(BadRequest(AlreadyReviewed))
    ensures r.Ok? ==>
      var st' := r.value.0;
      var id := r.value.1.reviewId;
      && r.value.1.status == 201
      && st'.reviews == st.reviews + [Review(id, input.userId, input.bookId, input.rating, input.text, "approved", 0)]
      && (forall i :: 0 <= i < |st.reviews| ==> st.reviews[i].id != id)
      && st'.transactions == st.transactions && st'.books == st.books
      && st'.(reviews := st.reviews, notifications := st.notifications, activity := st.activity) == st
  {
    if input.rating < 1 || input.rating > 5 then
      Err(BadRequest("Rating must be between 1 and 5"))
    else if !HasBorrowed(st, input.userId, input.bookId) then
      Err(BadRequest(NotBorrowed))
    else if HasReviewed(st, input.userId, input.bookId) then
      Err(BadRequest(AlreadyReviewed))
    else
      var id := NextId(st.reviews, (v: Review) => v.id);
      var st1 := st.(reviews := st.reviews + [Review(id, input.userId, input.bookId, input.rating, input.text, "approved", 0)]);
      var st2 := Notify(st1, env.notifyOk, Notification(input.userId, "Review Added", ReviewAdded, "success"));
      var st3 := LogActivity(st2, env.logOk, Activity(Some(input.userId), "review_added", "Added review for book ID: " + IntToString(input.bookId)));
      Ok((st3, ReviewReply(201, id)))
  }

  /** Adding a review keeps "one review per (user, book)". */
  lemma AddBookReviewKeepsOnePerPair(st: State, input: ReviewInput, env: Env)
    requires OneReviewPerPair(st.reviews)
    requires AddBookReview(st, input, env).Ok?
    ensures OneReviewPerPair(AddBookReview(st, input, env).value.0.reviews)
  {
    var rs := AddBookReview(st, input, env).value.0.reviews;
    forall i, j | 0 <= i < j < |rs| ensures rs[i].userId != rs[j].userId || rs[i].bookId != rs[j].bookId {
      assert rs[i] == st.reviews[i];
      if j == |st.reviews| {
        assert !HasReviewed(st, input.userId, input.bookId);
      } else {
        assert rs[j] == st.reviews[j];
      }
    }
  }

  // ------------------------------------------------------- reading sessions

  /** `user_id = ? AND book_id = ? AND session_end IS NULL`. */
  predicate OpenFor(s: ReadingSession, userId: int, bookId: int) {
    s.userId == userId && s.bookId == bookId && s.end.None?
  }

  datatype StartInput = StartInput(userId: int, bookId: int, device: Option<string>, currentPage: Option<int>)

  /** `startReadingSession`: closes every open session of the member on this
      book at `now`, then opens a new one at the given page (default 1), so
      afterwards exactly one session for the pair is open: the new one.
      Sessions of other pairs are untouched. */
  function StartReadingSession(st: State, input: StartInput, env: Env): (r: (State, nat))
    ensures var ss := r.0.sessions;
      && |ss| == |st.sessions| + 1
      && ss[|st.sessions|] == ReadingSession(r.1, input.userId, input.bookId, env.now, None,
                                             input.currentPage.GetOr(1), 0, input.device.GetOr("unknown"))
      && (forall i :: 0 <= i < |ss| && OpenFor(ss[i], input.userId, input.bookId) ==> i == |st.sessions|)
      && (forall i :: 0 <= i < |st.sessions| ==>
            if OpenFor(st.sessions[i], input.userId, input.bookId)
            then ss[i] == st.sessions[i].(end := Some(env.now))
            else ss[i] == st.sessions[i])
      && (forall i :: 0 <= i < |st.sessions| ==> st.sessions[i].id != r.1)
    ensures r.0.(sessions := st.sessions) == st
  {
    var ss := st.sessions;
    var closed := seq(|ss|, i requires 0 <= i < |ss| =>
      if OpenFor(ss[i], input.userId, input.bookId) then ss[i].(end := Some(env.now)) else ss[i]);
    var id := NextId(ss, (s: ReadingSession) => s.id);
    var newSession := ReadingSession(id, input.userId, input.bookId, env.now, None,
                                input.currentPage.GetOr(1), 0, input.device.GetOr("unknown"));
    (st.(sessions := closed + [newSession]), id)
  }

  datatype EndInput = EndInput(userId: int, bookId: int, finalPage: Option<int>)

  /** The session row after `endReadingSession` as evidently intended: closed
      at `now`, now at the final page, with the pages advanced during the
      session (never negative) recorded. */
  function EndSession(s: ReadingSession, finalPage: int, now: int): ReadingSession {
    s.(end := Some(now), currentPage := finalPage, pagesRead := Max(finalPage - s.currentPage, 0))
  }

  /** `endReadingSession` with the page arithmetic it evidently intends:
      every open session of the pair is closed with
      `pages_read = max(final - previous current_page, 0)`; when none is open
      the member is told so and nothing changes. */
  function EndReadingSession(st: State, input: EndInput, env: Env): (r: Result<State>)
    ensures r.Ok? <==> exists i :: 0 <= i < |st.sessions| && OpenFor(st.sessions[i], input.userId, input.bookId)
    ensures r.Err? ==> r.error == BadRequest("No active reading session found")
    ensures r.Ok? ==>
      var ss := r.value.sessions;
      var final := input.finalPage.GetOr(1);
      && |ss| == |st.sessions|
      && forall i :: 0 <= i < |ss| ==>
           if OpenFor(st.sessions[i], input.userId, input.bookId) then
             && ss[i].end == Some(env.now) && ss[i].currentPage == final
             && ss[i].pagesRead == Max(final - st.sessions[i].currentPage, 0)
             && ss[i].pagesRead >= 0
             && ss[i].id == st.sessions[i].id && ss[i].start == st.sessions[i].start
           else ss[i] == st.sessions[i]
    ensures r.Ok? ==> r.value.(sessions := st.sessions) == st
  {
    var ss := st.sessions;
    var final := input.finalPage.GetOr(1);
    if exists i :: 0 <= i < |ss| && OpenFor(ss[i], input.userId, input.bookId) then
      Ok(st.(sessions := seq(|ss|, i requires 0 <= i < |ss| =>
        if OpenFor(ss[i], input.userId, input.bookId) then EndSession(ss[i], final, env.now) else ss[i])))
    else
      Err(BadRequest("No active reading session found"))
  }

  /** The row as the source's UPDATE actually writes it: MySQL evaluates the
      assignments of a single-table UPDATE from left to right, so by the
      time `pages_read = GREATEST(? - current_page, 0)` runs, `current_page`
      already holds the final page. */
  function EndSessionAsWritten(s: ReadingSession, finalPage: int, now: int): ReadingSession {
    var s1 := s.(end := Some(now));
    var s2 := s1.(currentPage := finalPage);
    s2.(pagesRead := Max(finalPage - s2.currentPage, 0))
  }

  /** `endReadingSession` exactly as written in the source. */
  function EndReadingSessionAsWritten(st: State, input: EndInput, env: Env): (r: Result<State>)
    ensures r.Ok? <==> exists i :: 0 <= i < |st.sessions| && OpenFor(st.sessions[i], input.userId, input.bookId)
    ensures r.Err? ==> r.error == BadRequest("No active reading session found")
    ensures r.Ok? ==>
      var ss := r.value.sessions;
      && |ss| == |st.sessions|
      && forall i :: 0 <= i < |ss| ==>
           if OpenFor(st.sessions[i], input.userId, input.bookId) then
             && ss[i].end == Some(env.now) && ss[i].currentPage == input.finalPage.GetOr(1)
             && ss[i].pagesRead == 0
             && ss[i].id == st.sessions[i].id && ss[i].start == st.sessions[i].start
           else ss[i] == st.sessions[i]
    ensures r.Ok? ==> r.value.(sessions := st.sessions) == st
  {
    var ss := st.sessions;
    var final := input.finalPage.GetOr(1);
    if exists i :: 0 <= i < |ss| && OpenFor(ss[i], input.userId, input.bookId) then
      Ok(st.(sessions := seq(|ss|, i requires 0 <= i < |ss| =>
        if OpenFor(ss[i], input.userId, input.bookId) then EndSessionAsWritten(ss[i], final, env.now) else ss[i])))
    else
      Err(BadRequest("No active reading session found"))
  }

  /** As written, every session it closes records zero pages read, whatever
      pages the member moved through; the intended version records the
      difference.  Example: a session opened at page 10 and ended at page 25
      records 0 instead of 15. */
  lemma EndSessionAsWrittenReadsZero(st: State, input: EndInput, env: Env)
    requires EndReadingSessionAsWritten(st, input, env).Ok?
    ensures forall i :: 0 <= i < |st.sessions| && OpenFor(st.sessions[i], input.userId, input.bookId) ==>
      EndReadingSessionAsWritten(st, input, env).value.sessions[i].pagesRead == 0 &&
      EndReadingSession(st, input, env).value.sessions[i].pagesRead ==
        Max(input.finalPage.GetOr(1) - st.sessions[i].currentPage, 0)
  {
  }

  /** `updateReadingProgress`: every open session of the pair moves to the
      given page and records `max(page - 1, 0)` pages read; the member is told
      "updated" even when no session was open. */
  function UpdateReadingProgress(st: State, userId: int, bookId: int, page: int): (r: State)
    ensures |r.sessions| == |st.sessions|
    ensures forall i :: 0 <= i < |st.sessions| ==>
      if OpenFor(st.sessions[i], userId, bookId)
      then r.sessions[i] == st.sessions[i].(currentPage := page, pagesRead := Max(page - 1, 0))
      else r.sessions[i] == st.sessions[i]
    ensures r.(sessions := st.sessions) == st
  {
    var ss := st.sessions;
    st.(sessions := seq(|ss|, i requires 0 <= i < |ss| =>
      if OpenFor(ss[i], userId, bookId) then ss[i].(currentPage := page, pagesRead := Max(page - 1, 0)) else ss[i]))
  }

  /** Progress reports feed the end of a session: after a session is
      started and progress is reported at page `p`, ending it closes exactly
      that session and records `max(final - p, 0)` pages read. */
  lemma ProgressThenEnd(st: State, input: StartInput, env: Env, page: int, finalPage: Option<int>, env': Env)
    ensures var started := StartReadingSession(st, input, env);
      var moved := UpdateReadingProgress(started.0, input.userId, input.bookId, page);
      var ended := EndReadingSession(moved, EndInput(input.userId, input.bookId, finalPage), env');
      var n := |st.sessions|;
      && ended.Ok?
      && |ended.value.sessions| == n + 1
      && ended.value.sessions[n].id == started.1
      && ended.value.sessions[n].end == Some(env'.now)
      && ended.value.sessions[n].pagesRead == Max(finalPage.GetOr(1) - page, 0)
      && forall i :: 0 <= i < n ==> ended.value.sessions[i] == started.0.sessions[i]
  {
    var started := StartReadingSession(st, input, env);
    var moved := UpdateReadingProgress(started.0, input.userId, input.bookId, page);
    var n := |st.sessions|;
    assert OpenFor(started.0.sessions[n], input.userId, input.bookId);
    assert moved.sessions[n].currentPage == page;
    assert forall i :: 0 <= i < n ==> !OpenFor(started.0.sessions[i], input.userId, input.bookId);
  }

  // ------------------------------------------------------------ voteOnReview

  datatype VoteInput = VoteInput(reviewId: int, userId: int, voteType: string)

  function ParseVote(s: string): Option<VoteType> {
    if s == "helpful" then Some(Helpful)
    else if s == "not_helpful" then Some(NotHelpful)
    else None
  }

  predicate VoteBy(v: ReviewVote, reviewId: int, userId: int) {
    v.reviewId == reviewId && v.userId == userId
  }

  /** The unique key of `review_votes`: one vote per (review, user). */
  ghost predicate VotesUnique(votes: seq<ReviewVote>) {
    forall i, j :: 0 <= i < j < |votes| ==>
      votes[i].reviewId != votes[j].reviewId || votes[i].userId != votes[j].userId
  }

  /** `INSERT ... ON DUPLICATE KEY UPDATE vote_type = VALUES(vote_type)`. */
  function UpsertVote(votes: seq<ReviewVote>, reviewId: int, userId: int, vote: VoteType): (r: seq<ReviewVote>)
    ensures (exists i :: 0 <= i < |votes| && VoteBy(votes[i], reviewId, userId)) ==>
      |r| == |votes| &&
      forall i :: 0 <= i < |votes| ==>
        r[i] == if VoteBy(votes[i], reviewId, userId) then votes[i].(vote := vote) else votes[i]
    ensures (forall i :: 0 <= i < |votes| ==> !VoteBy(votes[i], reviewId, userId)) ==>
      r == votes + [ReviewVote(reviewId, userId, vote)]
  {
    if exists i :: 0 <= i < |votes| && VoteBy(votes[i], reviewId, userId) then
      seq(|votes|, i requires 0 <= i < |votes| =>
        if VoteBy(votes[i], reviewId, userId) then votes[i].(vote := vote) else votes[i])
    else
      votes + [ReviewVote(reviewId, userId, vote)]
  }

  /** After the upsert the member has a vote on the review, and every vote of
      theirs on it carries the new type. */
  lemma UpsertVoteRecords(votes: seq<ReviewVote>, reviewId: int, userId: int, vote: VoteType)
    ensures var r := UpsertVote(votes, reviewId, userId, vote);
      && |r| >= |votes|
      && (exists i :: 0 <= i < |r| && VoteBy(r[i], reviewId, userId))
      && (forall i :: 0 <= i < |r| && VoteBy(r[i], reviewId, userId) ==> r[i].vote == vote)
  {
    var r := UpsertVote(votes, reviewId, userId, vote);
    if k :| 0 <= k < |votes| && VoteBy(votes[k], reviewId, userId) {
      assert VoteBy(r[k], reviewId, userId);
    } else {
      assert VoteBy(r[|votes|], reviewId, userId);
    }
  }

  /** `SELECT COUNT(*) FROM review_votes WHERE review_id = ? AND vote_type = 'helpful'`. */
  function HelpfulVotes(votes: seq<ReviewVote>, reviewId: int): nat {
    |set i | 0 <= i < |votes| && votes[i].reviewId == reviewId && votes[i].vote == Helpful|
  }

  /** `voteOnReview`: rejects any vote type other than `helpful` and
      `not_helpful`; otherwise records the member's vote, replacing an earlier
      one, and recounts the review's `helpful_count` from the votes, as one
      atomic step. */
  function VoteOnReview(st: State, input: VoteInput): (r: Result<State>)
    ensures r.Ok? <==> input.voteType == "helpful" || input.voteType == "not_helpful"
    ensures r.Err? ==> r.error == BadRequest("Invalid vote type")
    ensures r.Ok? ==>
      var vs := r.value.votes;
      var vote := ParseVote(input.voteType).value;
      && vs == UpsertVote(st.votes, input.reviewId, input.userId, vote)
      && |st.votes| <= |vs| <= |st.votes| + 1
      && r.value.(votes := st.votes, reviews := st.reviews) == st
      && (exists i :: 0 <= i < |vs| && VoteBy(vs[i], input.reviewId, input.userId))
      && (forall i :: 0 <= i < |vs| && VoteBy(vs[i], input.reviewId, input.userId) ==> vs[i].vote == vote)
      && (forall i :: 0 <= i < |st.votes| && !VoteBy(st.votes[i], input.reviewId, input.userId) ==> vs[i] == st.votes[i])
      && |r.value.reviews| == |st.reviews|
      && (forall i :: 0 <= i < |st.reviews| ==>
            if st.reviews[i].id == input.reviewId
            then r.value.reviews[i] == st.reviews[i].(helpfulCount := HelpfulVotes(vs, input.reviewId))
            else r.value.reviews[i] == st.reviews[i])
  {
    match ParseVote(input.voteType)
    case None => Err(BadRequest("Invalid vote type"))
    case Some(vote) =>
      var vs := UpsertVote(st.votes, input.reviewId, input.userId, vote);
      var n := HelpfulVotes(vs, input.reviewId);
      var rs := st.reviews;
      var recounted := seq(|rs|, i requires 0 <= i < |rs| =>
        if rs[i].id == input.reviewId then rs[i].(helpfulCount := n) else rs[i]);
      UpsertVoteRecords(st.votes, input.reviewId, input.userId, vote);
      Ok(st.(votes := vs, reviews := recounted))
  }

  /** Voting keeps the (review, user) key unique. */
  lemma VoteKeepsVotesUnique(st: State, input: VoteInput)
    requires VotesUnique(st.votes)
    requires VoteOnReview(st, input).Ok?
    ensures VotesUnique(VoteOnReview(st, input).value.votes)
  {
    var vs := VoteOnReview(st, input).value.votes;
    var vote := ParseVote(input.voteType).value;
    assert vs == UpsertVote(st.votes, input.reviewId, input.userId, vote);
    if forall i :: 0 <= i < |st.votes| ==> !VoteBy(st.votes[i], input.reviewId, input.userId) {
      forall i, j | 0 <= i < j < |vs| ensures vs[i].reviewId != vs[j].reviewId || vs[i].userId != vs[j].userId {
        assert vs[i] == st.votes[i];
        if j < |st.votes| {
          assert vs[j] == st.votes[j];
        }
      }
    } else {
      forall i, j | 0 <= i < j < |vs| ensures vs[i].reviewId != vs[j].reviewId || vs[i].userId != vs[j].userId {
        assert vs[i].reviewId == st.votes[i].reviewId && vs[i].userId == st.votes[i].userId;
        assert vs[j].reviewId == st.votes[j].reviewId && vs[j].userId == st.votes[j].userId;
      }
    }
  }

  /** Casting the same vote again changes nothing: the upsert and the recount
      are idempotent. */
  lemma VoteTwiceIsVoteOnce(st: State, input: VoteInput)
    requires VoteOnReview(st, input).Ok?
    ensures VoteOnReview(VoteOnReview(st, input).value, input) == VoteOnReview(st, input)
  {
    var vote := ParseVote(input.voteType).value;
    var st1 := VoteOnReview(st, input).value;
    var st2 := VoteOnReview(st1, input).value;
    var vs1 := st1.votes;
    var k :| 0 <= k < |vs1| && VoteBy(vs1[k], input.reviewId, input.userId);
    var vs2 := UpsertVote(vs1, input.reviewId, input.userId, vote);
    assert |vs2| == |vs1|;
    forall i | 0 <= i < |vs1| ensures vs2[i] == vs1[i] {
      if VoteBy(vs1[i], input.reviewId, input.userId) {
        assert vs1[i].vote == vote;
      }
    }
    assert vs2 == vs1;
    assert st2.votes == vs1;
    assert |st2.reviews| == |st1.reviews|;
    forall i | 0 <= i < |st1.reviews| ensures st2.reviews[i] == st1.reviews[i] {
    }
    assert st2.reviews == st1.reviews;
  }

  // --------------------------------------------------------------- wishlist

  /** `addToWishlist`: `INSERT IGNORE` on the (user, book) key; a pair already
      present is reported and the list is unchanged. */
  function AddToWishlist(st: State, userId: int, bookId: int): (r: Result<State>)
    ensures r.Ok? <==> WishItem(userId, bookId) !in st.wishlist
    ensures r.Err? ==> r.error == BadRequest("Book is already in your wishlist")
    ensures r.Ok? ==> r.value == st.(wishlist := st.wishlist + {WishItem(userId, bookId)})
  {
    if WishItem(userId, bookId) in st.wishlist then Err(BadRequest("Book is already in your wishlist"))
    else Ok(st.(wishlist := st.wishlist + {WishItem(userId, bookId)}))
  }

  /** `removeFromWishlist`: both ids are required (a 0 or missing id is
      falsy in PHP); removing a pair that is not listed is an error. */
  function RemoveFromWishlist(st: State, userId: int, bookId: int): (r: Result<State>)
    ensures userId == 0 || bookId == 0 ==> r == Err(BadRequest("User ID and Book ID required"))
    ensures r.Ok? <==> userId != 0 && bookId != 0 && WishItem(userId, bookId) in st.wishlist
    ensures userId != 0 && bookId != 0 && WishItem(userId, bookId) !in st.wishlist ==>
      r == Err(BadRequest("Book not found in wishlist"))
    ensures r.Ok? ==> r.value == st.(wishlist := st.wishlist - {WishItem(userId, bookId)})
  {
    if userId == 0 || bookId == 0 then Err(BadRequest("User ID and Book ID required"))
    else if WishItem(userId, bookId) !in st.wishlist then Err(BadRequest("Book not found in wishlist"))
    else Ok(st.(wishlist := st.wishlist - {WishItem(userId, bookId)}))
  }

  /** Adding a book to the wishlist and removing it again restores the state. */
  lemma WishlistAddRemove(st: State, userId: int, bookId: int)
    requires userId != 0 && bookId != 0
    requires WishItem(userId, bookId) !in st.wishlist
    ensures AddToWishlist(st, userId, bookId).Ok?
    ensures RemoveFromWishlist(AddToWishlist(st, userId, bookId).value, userId, bookId) == Ok(st)
  {
    var w := st.wishlist + {WishItem(userId, bookId)};
    assert w - {WishItem(userId, bookId)} == st.wishlist;
  }

  // ------------------------------------------------------------ loan status

  datatype LoanStatus = Overdue | DueSoon | Normal

  /** `DATEDIFF(t.due_date, CURDATE())`. */
  function DaysRemaining(dueDate: int, today: int): int {
    dueDate - today
  }

  /** The `status_type` CASE of `getCurrentBorrowedBooksDetailed`. */
  function StatusType(dueDate: int, today: int): (r: LoanStatus)
    ensures r == Overdue <==> DaysRemaining(dueDate, today) < 0
    ensures r == DueSoon <==> 0 <= DaysRemaining(dueDate, today) <= 3
    ensures r == Normal <==> DaysRemaining(dueDate, today) > 3
  {
    if dueDate < today then Overdue
    else if DaysRemaining(dueDate, today) <= 3 then DueSoon
    else Normal
  }

  function Severity(s: LoanStatus): nat {
    match s
    case Normal => 0
    case DueSoon => 1
    case Overdue => 2
  }

  /** As days pass, a loan only moves from normal to due-soon to overdue. */
  lemma StatusOnlyWorsens(dueDate: int, today: int, later: int)
    requires today <= later
    ensures Severity(StatusType(dueDate, today)) <= Severity(StatusType(dueDate, later))
  {
  }

  datatype LoanView = LoanView(loan: Transaction, daysRemaining: int, statusType: LoanStatus)

  /** The member's open loans with their countdown and status (the SQL's
      `ORDER BY due_date` is not modelled: the result is a set). */
  function BorrowedBooks(st: State, userId: int, today: int): (r: set<LoanView>)
    ensures forall v :: v in r ==>
      v.loan in st.transactions && v.loan.userId == userId && v.loan.status == Issued &&
      v.daysRemaining == v.loan.dueDate - today && v.statusType == StatusType(v.loan.dueDate, today)
    ensures forall t :: t in st.transactions && t.userId == userId && t.status == Issued ==>
      LoanView(t, t.dueDate - today, StatusType(t.dueDate, today)) in r
  {
    set t | t in st.transactions && t.userId == userId && t.status == Issued ::
      LoanView(t, DaysRemaining(t.dueDate, today), StatusType(t.dueDate, today))
  }

  // ------------------------------------------------------------ request bodies

  /* Each handler first calls `validateInput` on the decoded request body with
     its list of required fields; only a body that passes reaches the checks
     modelled above, after its fields are cast and sanitized.  `stripTags`
     stands for PHP's `strip_tags`. */

  /** Required by `requestBook`, the reading-session handlers and `addToWishlist`. */
  const PairFields: seq<string> := ["user_id", "book_id"]
  const ReviewFields: seq<string> := ["user_id", "book_id", "rating"]
  const ProgressFields: seq<string> := ["user_id", "book_id", "current_page"]
  const VoteFields: seq<string> := ["review_id", "user_id", "vote_type"]

  function RequestInputOf(data: map<string, Value>, stripTags: string -> string): RequestInput {
    RequestInput(IntField(data, "user_id", 0), IntField(data, "book_id", 0),
                 Some(TextField(data, "priority", "normal", stripTags)))
  }

  /** `requestBook` on the request body. */
  function RequestBookRequest(st: State, data: map<string, Value>, env: Env, stripTags: string -> string)
    : (r: Result<(State, RequestReply)>)
    ensures ValidateInput(data, PairFields).Fail? ==> r == Err(ValidateInput(data, PairFields).error)
    ensures ValidateInput(data, PairFields).Pass? ==> r == RequestBook(st, RequestInputOf(data, stripTags), env)
    ensures r.Ok? ==> forall k :: 0 <= k < |PairFields| ==> !Blank(data, PairFields[k])
  {
    match ValidateInput(data, PairFields)
    case Fail(e) => Err(e)
    case Pass => RequestBook(st, RequestInputOf(data, stripTags), env)
  }

  function ReviewInputOf(data: map<string, Value>, stripTags: string -> string): ReviewInput {
    ReviewInput(IntField(data, "user_id", 0), IntField(data, "book_id", 0), IntField(data, "rating", 0),
                TextField(data, "review_text", "", stripTags))
  }

  /** `addBookReview` on the request body. */
  function AddBookReviewRequest(st: State, data: map<string, Value>, env: Env, stripTags: string -> string)
    : (r: Result<(State, ReviewReply)>)
    ensures ValidateInput(data, ReviewFields).Fail? ==> r == Err(ValidateInput(data, ReviewFields).error)
    ensures ValidateInput(data, ReviewFields).Pass? ==> r == AddBookReview(st, ReviewInputOf(data, stripTags), env)
    ensures r.Ok? ==> forall k :: 0 <= k < |ReviewFields| ==> !Blank(data, ReviewFields[k])
  {
    match ValidateInput(data, ReviewFields)
    case Fail(e) => Err(e)
    case Pass => AddBookReview(st, ReviewInputOf(data, stripTags), env)
  }

  /** A rating of 0 never reaches the rating check: `validateInput` already
      reports the rating as missing. */
  lemma ZeroRatingIs422(st: State, data: map<string, Value>, env: Env, stripTags: string -> string)
    requires "rating" in data && data["rating"] == Int(0)
    requires !Blank(data, "user_id") && !HoldsArray(data, "user_id")
    requires !Blank(data, "book_id") && !HoldsArray(data, "book_id")
    ensures AddBookReviewRequest(st, data, env, stripTags) == Err(Http(422, MissingMessage(["rating"])))
    ensures AddBookReview(st, ReviewInputOf(data, stripTags), env) == Err(BadRequest("Rating must be between 1 and 5"))
  {
    assert ReviewFields[0] == "user_id" && ReviewFields[1] == "book_id" && ReviewFields[2] == "rating";
    ZeroLastOfThreeReported(data, ReviewFields);
  }

  function StartInputOf(data: map<string, Value>, stripTags: string -> string): StartInput {
    StartInput(IntField(data, "user_id", 0), IntField(data, "book_id", 0),
               Some(TextField(data, "device_type", "unknown", stripTags)), Some(IntField(data, "current_page", 1)))
  }

  /** `startReadingSession` on the request body. */
  function StartReadingSessionRequest(st: State, data: map<string, Value>, env: Env, stripTags: string -> string)
    : (r: Result<(State, nat)>)
    ensures ValidateInput(data, PairFields).Fail? ==> r == Err(ValidateInput(data, PairFields).error)
    ensures ValidateInput(data, PairFields).Pass? ==> r == Ok(StartReadingSession(st, StartInputOf(data, stripTags), env))
    ensures r.Ok? ==> forall k :: 0 <= k < |PairFields| ==> !Blank(data, PairFields[k])
  {
    match ValidateInput(data, PairFields)
    case Fail(e) => Err(e)
    case Pass => Ok(StartReadingSession(st, StartInputOf(data, stripTags), env))
  }

  function EndInputOf(data: map<string, Value>): EndInput {
    EndInput(IntField(data, "user_id", 0), IntField(data, "book_id", 0), Some(IntField(data, "final_page", 1)))
  }

  /** `endReadingSession` on the request body, with the intended page arithmetic. */
  function EndReadingSessionRequest(st: State, data: map<string, Value>, env: Env): (r: Result<State>)
    ensures ValidateInput(data, PairFields).Fail? ==> r == Err(ValidateInput(data, PairFields).error)
    ensures ValidateInput(data, PairFields).Pass? ==> r == EndReadingSession(st, EndInputOf(data), env)
    ensures r.Ok? ==> forall k :: 0 <= k < |PairFields| ==> !Blank(data, PairFields[k])
  {
    match ValidateInput(data, PairFields)
    case Fail(e) => Err(e)
    case Pass => EndReadingSession(st, EndInputOf(data), env)
  }

  /** `endReadingSession` on the request body, exactly as written. */
  function EndReadingSessionAsWrittenRequest(st: State, data: map<string, Value>, env: Env): (r: Result<State>)
    ensures ValidateInput(data, PairFields).Fail? ==> r == Err(ValidateInput(data, PairFields).error)
    ensures ValidateInput(data, PairFields).Pass? ==> r == EndReadingSessionAsWritten(st, EndInputOf(data), env)
    ensures r.Ok? ==> forall k :: 0 <= k < |PairFields| ==> !Blank(data, PairFields[k])
  {
    match ValidateInput(data, PairFields)
    case Fail(e) => Err(e)
    case Pass => EndReadingSessionAsWritten(st, EndInputOf(data), env)
  }

  /** `updateReadingProgress` on the request body. */
  function UpdateReadingProgressRequest(st: State, data: map<string, Value>): (r: Result<State>)
    ensures ValidateInput(data, ProgressFields).Fail? ==> r == Err(ValidateInput(data, ProgressFields).error)
    ensures ValidateInput(data, ProgressFields).Pass? ==>
      r == Ok(UpdateReadingProgress(st, IntField(data, "user_id", 0), IntField(data, "book_id", 0),
                                    IntField(data, "current_page", 0)))
    ensures r.Ok? ==> forall k :: 0 <= k < |ProgressFields| ==> !Blank(data, ProgressFields[k])
  {
    match ValidateInput(data, ProgressFields)
    case Fail(e) => Err(e)
    case Pass =>
      Ok(UpdateReadingProgress(st, IntField(data, "user_id", 0), IntField(data, "book_id", 0),
                               IntField(data, "current_page", 0)))
  }

  /** Page 0 is reported as missing, and no session moves. */
  lemma ZeroPageIs422(st: State, data: map<string, Value>)
    requires "current_page" in data && data["current_page"] == Int(0)
    requires !Blank(data, "user_id") && !HoldsArray(data, "user_id")
    requires !Blank(data, "book_id") && !HoldsArray(data, "book_id")
    ensures UpdateReadingProgressRequest(st, data) == Err(Http(422, MissingMessage(["current_page"])))
  {
    assert ProgressFields[0] == "user_id" && ProgressFields[1] == "book_id" && ProgressFields[2] == "current_page";
    ZeroLastOfThreeReported(data, ProgressFields);
  }

  function VoteInputOf(data: map<string, Value>, stripTags: string -> string): VoteInput {
    VoteInput(IntField(data, "review_id", 0), IntField(data, "user_id", 0), TextField(data, "vote_type", "", stripTags))
  }

  /** `voteOnReview` on the request body. */
  function VoteOnReviewRequest(st: State, data: map<string, Value>, stripTags: string -> string): (r: Result<State>)
    ensures ValidateInput(data, VoteFields).Fail? ==> r == Err(ValidateInput(data, VoteFields).error)
    ensures ValidateInput(data, VoteFields).Pass? ==> r == VoteOnReview(st, VoteInputOf(data, stripTags))
    ensures r.Ok? ==> forall k :: 0 <= k < |VoteFields| ==> !Blank(data, VoteFields[k])
  {
    match ValidateInput(data, VoteFields)
    case Fail(e) => Err(e)
    case Pass => VoteOnReview(st, VoteInputOf(data, stripTags))
  }

  /** An empty vote type is reported as missing, not as an invalid vote type. */
  lemma EmptyVoteTypeIs422(st: State, data: map<string, Value>, stripTags: string -> string)
    requires "vote_type" in data && data["vote_type"] == Str("")
    requires !Blank(data, "review_id") && !HoldsArray(data, "review_id")
    requires !Blank(data, "user_id") && !HoldsArray(data, "user_id")
    ensures VoteOnReviewRequest(st, data, stripTags) == Err(Http(422, MissingMessage(["vote_type"])))
  {
    assert VoteFields[0] == "review_id" && VoteFields[1] == "user_id" && VoteFields[2] == "vote_type";
    ZeroLastOfThreeReported(data, VoteFields);
  }

  /** `addToWishlist` on the request body. */
  function AddToWishlistRequest(st: State, data: map<string, Value>): (r: Result<State>)
    ensures ValidateInput(data, PairFields).Fail? ==> r == Err(ValidateInput(data, PairFields).error)
    ensures ValidateInput(data, PairFields).Pass? ==>
      r == AddToWishlist(st, IntField(data, "user_id", 0), IntField(data, "book_id", 0))
    ensures r.Ok? ==> forall k :: 0 <= k < |PairFields| ==> !Blank(data, PairFields[k])
  {
    match ValidateInput(data, PairFields)
    case Fail(e) => Err(e)
    case Pass => AddToWishlist(st, IntField(data, "user_id", 0), IntField(data, "book_id", 0))
  }

  /** Validation keeps numeric ids nonzero, so whatever a wishlist request
      adds, a removal of the same pair takes away again. */
  lemma WishlistRequestThenRemove(st: State, data: map<string, Value>)
    requires "user_id" in data && data["user_id"].Int?
    requires "book_id" in data && data["book_id"].Int?
    requires AddToWishlistRequest(st, data).Ok?
    ensures RemoveFromWishlist(AddToWishlistRequest(st, data).value, data["user_id"].i, data["book_id"].i) == Ok(st)
  {
    assert !Blank(data, PairFields[0]) && !Blank(data, PairFields[1]);
    ValidatedNumberIsNonZero(data, "user_id");
    ValidatedNumberIsNonZero(data, "book_id");
    WishlistAddRemove(st, data["user_id"].i, data["book_id"].i);
  }
}
