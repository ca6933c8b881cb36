/** The reading streak of `getReadingStreak` in `backend/user.php`.

    The input is the member's distinct reading days (days on which a closed
    session started), newest first, as day numbers; `today` is the current
    day.  The loop walks the days while the gap from the previously accepted
    day equals the count accepted so far.  The first gap is from the current
    instant, which is less than a whole day after the start of today, so
    counting in whole days it is `today - dates[0]`.
 */
module Streak {
  import opened Basics

  /** The day the `k`-th comparison measures from: today for the first,
      afterwards the previously accepted day. */
  function Prev(dates: seq<int>, today: int, k: nat): int
    requires k <= |dates|
  {
    if k == 0 then today else dates[k - 1]
  }

  /** The loop as a recursive definition: `current` is the last accepted day
      and `count` the streak so far. */
  function Walk(dates: seq<int>, current: int, count: nat): (r: nat)
    ensures count <= r <= count + |dates|
    decreases |dates|
  {
    if dates == [] then count
    else if Abs(current - dates[0]) == count then Walk(dates[1..], dates[0], count + 1)
    else count
  }

  /** `getReadingStreak` as written.  The result is the length of the longest
      prefix whose `k`-th day lies exactly `k` days from the day before it
      (from today, for the first), so it is 0 when there are no days or the
      newest is not today. */
  method ReadingStreak(dates: seq<int>, today: int) returns (streak: nat)
    ensures streak <= |dates|
    ensures forall k :: 0 <= k < streak ==> Abs(Prev(dates, today, k) - dates[k]) == k
    ensures streak < |dates| ==> Abs(Prev(dates, today, streak) - dates[streak]) != streak
    ensures streak == Walk(dates, today, 0)
    ensures (dates == [] || dates[0] != today) ==> streak == 0
  {
    streak := 0;
    var current := today;
    var i := 0;
    while i < |dates|
      invariant 0 <= i <= |dates| && streak == i
      invariant current == Prev(dates, today, i)
      invariant forall k :: 0 <= k < i ==> Abs(Prev(dates, today, k) - dates[k]) == k
      invariant Walk(dates, today, 0) == Walk(dates[i..], current, i)
    {
      if Abs(current - dates[i]) == streak {
        assert dates[i..][1..] == dates[i + 1..];
        streak := streak + 1;
        current := dates[i];
        i := i + 1;
      } else {
        break;
      }
    }
  }

  /** What a reading streak evidently means: the number of consecutive days,
      ending today, on which the member read.  With the days newest first,
      that is the longest prefix with `dates[k] == today - k`. */
  function ConsecutiveStreak(dates: seq<int>, today: int): (r: nat)
    ensures r <= |dates|
    ensures forall k :: 0 <= k < r ==> dates[k] == today - k
    ensures r < |dates| ==> dates[r] != today - r
  {
    if dates == [] || dates[0] != today then 0
    else
      var rest := ConsecutiveStreak(dates[1..], today - 1);
      assert forall k :: 1 <= k < rest + 1 ==> dates[k] == dates[1..][k - 1];
      rest + 1
  }

  /** Three consecutive reading days ending today: the walk stops at the
      third day, because its gap from the second (1) differs from the count
      so far (2), so the member is credited with a 2-day streak instead of 3. */
  lemma StreakUndercounts(today: int)
    ensures Walk([today, today - 1, today - 2], today, 0) == 2
    ensures ConsecutiveStreak([today, today - 1, today - 2], today) == 3
  {
    var d := [today, today - 1, today - 2];
    assert d[1..] == [today - 1, today - 2];
    assert d[1..][1..] == [today - 2];
    assert Walk(d[1..][1..], today - 1, 2) == 2;
    assert ConsecutiveStreak(d[1..][1..], today - 2) == 1;
  }

  /** More generally, the literal walk never credits more than two days once
      the days are consecutive: whenever the newest three days are today,
      yesterday and the day before, the streak is 2. */
  lemma {:induction false} ConsecutiveDaysCountTwo(dates: seq<int>, today: int)
    requires |dates| >= 3 && dates[0] == today && dates[1] == today - 1 && dates[2] == today - 2
    ensures Walk(dates, today, 0) == 2
    ensures ConsecutiveStreak(dates, today) >= 3
  {
    assert dates[1..][0] == today - 1;
    assert dates[1..][1..][0] == today - 2;
    assert Walk(dates[1..][1..], today - 1, 2) == 2;
    assert Walk(dates[1..], today, 1) == 2;
    assert dates[1..][1..][1..] == dates[3..];
    assert ConsecutiveStreak(dates[1..][1..], today - 2) >= 1;
  }
}
