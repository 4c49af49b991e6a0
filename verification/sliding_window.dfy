/**
 A sliding-window rate limiter: per user, a FIFO queue of the timestamps of the
 accepted messages; a message is admitted while fewer than `maxRequests` of them
 lie inside the trailing window of `windowSize` seconds.

 The ambient clock is replaced by explicit time parameters. The first half of the
 module gives the behaviour of each operation as a function of the limiter's state
 (the map from user to queue) and states its properties as lemmas; the class
 `SlidingWindowRateLimiter` holds that state and updates it in place, and each of
 its methods is proved to compute what the corresponding function says.
 */
module SlidingWindow {

  type UserId = string

  /** The limiter's state: each user's accepted timestamps, oldest first. */
  type History = map<UserId, seq<real>>

  /** The user's queue, or the empty queue for a user without an entry. */
  function Entries(h: History, u: UserId): seq<real>
  {
    if u in h then h[u] else []
  }

  /** The number of timestamps the limiter holds for `u` (0 for an absent user). */
  function Count(h: History, u: UserId): nat
  {
    |Entries(h, u)|
  }

  ghost predicate Sorted(q: seq<real>)
  {
    forall i, j :: 0 <= i < j < |q| ==> q[i] <= q[j]
  }

  /** No queue is empty and none is longer than the capacity. */
  ghost predicate WellFormed(h: History, maxRequests: int)
  {
    forall u :: u in h ==> 0 < |h[u]| <= maxRequests
  }

  /** The queue is oldest-first and holds no timestamp later than `now`. */
  ghost predicate InOrderUpTo(q: seq<real>, now: real)
  {
    Sorted(q) && forall i :: 0 <= i < |q| ==> q[i] <= now
  }

  /** Every queue is oldest-first and holds no timestamp later than `now`. */
  ghost predicate Chronological(h: History, now: real)
  {
    forall u :: u in h ==> InOrderUpTo(h[u], now)
  }

  /**
   How many timestamps pruning at `cutoff` pops off the front of `q`: all of them
   up to the first one that is not strictly older than `cutoff`.
   */
  function StaleCount(q: seq<real>, cutoff: real): (k: nat)
    ensures k <= |q|
    ensures forall i :: 0 <= i < k ==> q[i] < cutoff
    ensures k < |q| ==> q[k] >= cutoff
    decreases |q|
  {
    if q != [] && q[0] < cutoff then 1 + StaleCount(q[1..], cutoff) else 0
  }

  /** The suffix of `q` that survives pruning at `cutoff`, in its original order. */
  function Prune(q: seq<real>, cutoff: real): seq<real>
  {
    q[StaleCount(q, cutoff)..]
  }

  /** What is left of the user's queue once `_cleanup_window(u, now)` has pruned it. */
  function Pruned(h: History, u: UserId, now: real, windowSize: real): seq<real>
  {
    Prune(Entries(h, u), now - windowSize)
  }

  /**
   The state after `_cleanup_window(u, now)`: the user's queue pruned at
   `now - windowSize`, and the user's entry deleted when nothing survives.
   No other user's entry changes, and no empty queue is left behind.
   */
  function Cleaned(h: History, u: UserId, now: real, windowSize: real): (r: History)
    ensures u in r ==> r[u] != []
    ensures forall v :: v != u ==> (v in r <==> v in h) && (v in r ==> r[v] == h[v])
  {
    if u !in h then h
    else
      var q := Prune(h[u], now - windowSize);
      if q == [] then h - {u} else h[u := q]
  }

  /** The decision of `can_send_message(u)` at time `now`, taken on the state before it. */
  predicate Admits(h: History, u: UserId, now: real, windowSize: real, maxRequests: int)
  {
    |Pruned(h, u, now, windowSize)| < maxRequests
  }

  /**
   The state after `record_message(u)`: the admission check prunes at `checkTime`;
   when it admits, `stampTime` (the clock read again) goes to the tail of the
   user's queue, creating the queue if needed.
   */
  function Recorded(h: History, u: UserId, checkTime: real, stampTime: real, windowSize: real, maxRequests: int): (r: History)
    ensures u in r ==> r[u] != []
    ensures forall v :: v != u ==> (v in r <==> v in h) && (v in r ==> r[v] == h[v])
  {
    var p := Cleaned(h, u, checkTime, windowSize);
    if Admits(h, u, checkTime, windowSize, maxRequests)
    then p[u := Pruned(h, u, checkTime, windowSize) + [stampTime]]
    else p
  }

  /**
   The value of `time_until_next_allowed(u)` at time `now`: zero when the user's
   pruned queue is gone or has room, otherwise the time until its oldest timestamp
   leaves the window. It is never negative, and it is zero exactly when the user is
   admitted, or has no timestamps left, or the oldest one sits exactly on the
   window's edge.
   */
  function WaitTime(h: History, u: UserId, now: real, windowSize: real, maxRequests: int): (w: real)
    ensures w >= 0.0
    ensures w == 0.0 <==>
              Admits(h, u, now, windowSize, maxRequests) ||
              Pruned(h, u, now, windowSize) == [] ||
              Pruned(h, u, now, windowSize)[0] == now - windowSize
  {
    var q := Pruned(h, u, now, windowSize);
    if q == [] || |q| < maxRequests then 0.0
    else
      var remaining := windowSize - (now - q[0]);
      if 0.0 >= remaining then 0.0 else remaining
  }

  /** After cleanup the user's entry, if any, is the pruned queue. */
  lemma CleanedEntries(h: History, u: UserId, now: real, windowSize: real)
    ensures Entries(Cleaned(h, u, now, windowSize), u) == Pruned(h, u, now, windowSize)
  {
  }

  /**
   Recording appends the second clock reading to the pruned queue exactly when
   the check admits; otherwise the state is the cleaned-up one.
   */
  lemma RecordedEntries(h: History, u: UserId, checkTime: real, stampTime: real, windowSize: real, maxRequests: int)
    ensures var r := Recorded(h, u, checkTime, stampTime, windowSize, maxRequests);
            Entries(r, u) == Pruned(h, u, checkTime, windowSize) +
                             (if Admits(h, u, checkTime, windowSize, maxRequests) then [stampTime] else [])
    ensures !Admits(h, u, checkTime, windowSize, maxRequests) ==>
              Recorded(h, u, checkTime, stampTime, windowSize, maxRequests) == Cleaned(h, u, checkTime, windowSize)
  {
  }

  // ---------------------------------------------------------------------------
  // Properties of pruning

  /** Any count of stale leading timestamps followed by a fresh one (or the end) is `StaleCount`. */
  lemma StaleCountUnique(q: seq<real>, cutoff: real, k: nat)
    requires k <= |q| && (k < |q| ==> q[k] >= cutoff)
    requires forall i :: 0 <= i < k ==> q[i] < cutoff
    ensures StaleCount(q, cutoff) == k
  {
  }

  /** On an oldest-first queue, everything pruning keeps is inside the window. */
  lemma PruneKeepsWindow(q: seq<real>, cutoff: real, now: real)
    requires InOrderUpTo(q, now)
    ensures InOrderUpTo(Prune(q, cutoff), now)
    ensures forall i :: 0 <= i < |Prune(q, cutoff)| ==> cutoff <= Prune(q, cutoff)[i]
  {
    var k := StaleCount(q, cutoff);
    var r := q[k..];
    forall i | 0 <= i < |r|
      ensures cutoff <= r[i] <= now
    {
      assert r[i] == q[k + i] && q[k] <= q[k + i];
    }
    forall i, j | 0 <= i < j < |r|
      ensures r[i] <= r[j]
    {
      assert r[i] == q[k + i] && r[j] == q[k + j];
    }
  }

  /** Pruning at a cutoff, then at a later one, is pruning at the later one. */
  lemma PruneTwice(q: seq<real>, c1: real, c2: real)
    requires c1 <= c2
    ensures Prune(Prune(q, c1), c2) == Prune(q, c2)
  {
    var k1 := StaleCount(q, c1);
    var p := q[k1..];
    var k := StaleCount(p, c2);
    forall i | 0 <= i < k1 + k
      ensures q[i] < c2
    {
      if k1 <= i {
        assert q[i] == p[i - k1];
      }
    }
    if k1 + k < |q| {
      assert q[k1 + k] == p[k];
    }
    StaleCountUnique(q, c2, k1 + k);
    assert p[k..] == q[k1 + k..];
  }

  /** Pruning twice at the same time changes nothing the second time. */
  lemma CleanedIdempotent(h: History, u: UserId, now: real, windowSize: real)
    ensures Cleaned(Cleaned(h, u, now, windowSize), u, now, windowSize) == Cleaned(h, u, now, windowSize)
  {
    if u in h {
      var q := Prune(h[u], now - windowSize);
      if q != [] {
        assert Prune(q, now - windowSize) == q;
        assert Cleaned(h[u := q], u, now, windowSize) == h[u := q][u := q];
      }
    }
  }

  // ---------------------------------------------------------------------------
  // Invariants kept by every operation

  lemma CleanedWellFormed(h: History, u: UserId, now: real, windowSize: real, maxRequests: int)
    requires WellFormed(h, maxRequests)
    ensures WellFormed(Cleaned(h, u, now, windowSize), maxRequests)
  {
  }

  /** A queue only grows when it has room, so no queue exceeds the capacity. */
  lemma RecordedWellFormed(h: History, u: UserId, checkTime: real, stampTime: real, windowSize: real, maxRequests: int)
    requires WellFormed(h, maxRequests)
    ensures WellFormed(Recorded(h, u, checkTime, stampTime, windowSize, maxRequests), maxRequests)
  {
    var p := Cleaned(h, u, checkTime, windowSize);
    CleanedWellFormed(h, u, checkTime, windowSize, maxRequests);
    var r := Recorded(h, u, checkTime, stampTime, windowSize, maxRequests);
    if Admits(h, u, checkTime, windowSize, maxRequests) {
      var q := Entries(p, u) + [stampTime];
      assert r == p[u := q];
      assert |q| <= maxRequests;
    } else {
      assert r == p;
    }
  }

  /** A state consistent with a clock reading stays consistent as the clock advances. */
  lemma ChronologicalLater(h: History, before: real, now: real)
    requires Chronological(h, before) && before <= now
    ensures Chronological(h, now)
  {
    forall u | u in h
      ensures InOrderUpTo(h[u], now)
    {
    }
  }

  /** Pruning keeps the queues in order, and leaves the user's queue inside `[now - windowSize, now]`. */
  lemma CleanedChronological(h: History, u: UserId, now: real, windowSize: real)
    requires Chronological(h, now)
    ensures Chronological(Cleaned(h, u, now, windowSize), now)
    ensures forall i :: 0 <= i < Count(Cleaned(h, u, now, windowSize), u) ==>
              now - windowSize <= Entries(Cleaned(h, u, now, windowSize), u)[i] <= now
  {
    if u in h {
      PruneKeepsWindow(h[u], now - windowSize, now);
      var q := Prune(h[u], now - windowSize);
      if q != [] {
        assert Cleaned(h, u, now, windowSize) == h[u := q];
      }
    }
  }

  /** Appending a timestamp no earlier than the clock keeps a queue in order. */
  lemma AppendInOrder(q: seq<real>, now: real, t: real)
    requires InOrderUpTo(q, now) && now <= t
    ensures InOrderUpTo(q + [t], t)
  {
    var r := q + [t];
    forall i, j | 0 <= i < j < |r|
      ensures r[i] <= r[j]
    {
      if j < |q| {
        assert r[i] == q[i] && r[j] == q[j];
      } else {
        assert r[i] == q[i];
      }
    }
  }

  /** With a nondecreasing clock, recording keeps every queue oldest-first. */
  lemma RecordedChronological(h: History, u: UserId, checkTime: real, stampTime: real, windowSize: real, maxRequests: int)
    requires Chronological(h, checkTime) && checkTime <= stampTime
    ensures Chronological(Recorded(h, u, checkTime, stampTime, windowSize, maxRequests), stampTime)
  {
    var p := Cleaned(h, u, checkTime, windowSize);
    CleanedChronological(h, u, checkTime, windowSize);
    ChronologicalLater(p, checkTime, stampTime);
    var r := Recorded(h, u, checkTime, stampTime, windowSize, maxRequests);
    if Admits(h, u, checkTime, windowSize, maxRequests) {
      var q := Pruned(h, u, checkTime, windowSize);
      CleanedEntries(h, u, checkTime, windowSize);
      assert InOrderUpTo(q, checkTime);
      AppendInOrder(q, checkTime, stampTime);
      assert r == p[u := q + [stampTime]];
    } else {
      assert r == p;
    }
  }

  // ---------------------------------------------------------------------------
  // Admission and wait time

  /** `len(pruned) < max_requests`: nobody is ever admitted with a capacity of zero or less. */
  lemma NoCapacityRejectsAll(h: History, u: UserId, now: real, windowSize: real, maxRequests: int)
    requires maxRequests <= 0
    ensures !Admits(h, u, now, windowSize, maxRequests)
  {
  }

  /** A user without history is admitted whenever the capacity is positive. */
  lemma FreshUserAdmitted(h: History, u: UserId, now: real, windowSize: real, maxRequests: int)
    requires u !in h && maxRequests > 0
    ensures Admits(h, u, now, windowSize, maxRequests)
    ensures WaitTime(h, u, now, windowSize, maxRequests) == 0.0
  {
  }

  /** Once the oldest timestamp has left the window, a well-formed queue has room again. */
  lemma CapacityRegained(h: History, u: UserId, now: real, windowSize: real, maxRequests: int)
    requires WellFormed(h, maxRequests) && maxRequests > 0
    requires u in h ==> h[u][0] < now - windowSize
    ensures Admits(h, u, now, windowSize, maxRequests)
  {
  }

  /** Recording for one user leaves every other user's admission and wait time as they were. */
  lemma RecordIsolated(h: History, u: UserId, v: UserId, checkTime: real, stampTime: real, now: real, windowSize: real, maxRequests: int)
    requires u != v
    ensures var r := Recorded(h, u, checkTime, stampTime, windowSize, maxRequests);
            Admits(r, v, now, windowSize, maxRequests) == Admits(h, v, now, windowSize, maxRequests) &&
            WaitTime(r, v, now, windowSize, maxRequests) == WaitTime(h, v, now, windowSize, maxRequests)
  {
    var r := Recorded(h, u, checkTime, stampTime, windowSize, maxRequests);
    assert Entries(r, v) == Entries(h, v);
  }

  /** A user admitted now gets a wait time of zero. */
  lemma AdmittedMeansNoWait(h: History, u: UserId, now: real, windowSize: real, maxRequests: int)
    requires Admits(h, u, now, windowSize, maxRequests)
    ensures WaitTime(h, u, now, windowSize, maxRequests) == 0.0
  {
  }

  /**
   The converse fails: with no capacity, or with the oldest timestamp exactly on the
   window's edge, the wait time is zero while the user is rejected.
   */
  lemma ZeroWaitWhileRejected()
    ensures var h: History := map["u" := [0.0]];
            !Admits(h, "u", 10.0, 10.0, 1) && WaitTime(h, "u", 10.0, 10.0, 1) == 0.0
    ensures var e: History := map[];
            !Admits(e, "u", 10.0, 10.0, 0) && WaitTime(e, "u", 10.0, 10.0, 0) == 0.0
  {
    var h: History := map["u" := [0.0]];
    assert Prune([0.0], 0.0) == [0.0];
  }

  /** When no timestamp is later than `now`, the wait is at most the window. */
  lemma WaitTimeAtMostWindow(h: History, u: UserId, now: real, windowSize: real, maxRequests: int)
    requires Chronological(h, now) && windowSize >= 0.0
    ensures 0.0 <= WaitTime(h, u, now, windowSize, maxRequests) <= windowSize
  {
    CleanedChronological(h, u, now, windowSize);
  }

  /**
   For a rejected user the wait time is the threshold of admission: waiting `d`
   more seconds gets the user admitted exactly when `d` exceeds it. At the wait
   time itself the oldest timestamp sits on the window's edge and still counts.
   */
  lemma {:induction false} WaitTimeIsThreshold(h: History, u: UserId, now: real, d: real, windowSize: real, maxRequests: int)
    requires WellFormed(h, maxRequests)
    requires !Admits(h, u, now, windowSize, maxRequests) && d >= 0.0
    ensures Admits(h, u, now + d, windowSize, maxRequests) <==>
              maxRequests > 0 && d > WaitTime(h, u, now, windowSize, maxRequests)
  {
    if maxRequests > 0 {
      var q := Entries(h, u);
      var p := Prune(q, now - windowSize);
      PruneTwice(q, now - windowSize, now + d - windowSize);
      assert |p| == maxRequests;
      if p[0] < now + d - windowSize {
        assert Prune(p, now + d - windowSize) == Prune(p[1..], now + d - windowSize);
      } else {
        assert Prune(p, now + d - windowSize) == p;
      }
    }
  }

  /**
   A window of 10 seconds with room for one message. A user without history is
   accepted at time 0 ...
   */
  lemma SingleSlotFirstMessage(h: History, u: UserId)
    requires u !in h
    ensures Admits(h, u, 0.0, 10.0, 1)
    ensures Entries(Recorded(h, u, 0.0, 0.0, 10.0, 1), u) == [0.0]
  {
    RecordedEntries(h, u, 0.0, 0.0, 10.0, 1);
  }

  /**
   ... is then rejected at time 3, with 7 seconds to wait and the state unchanged,
   and is accepted again at time 11.
   */
  lemma SingleSlotLaterMessages(h: History, u: UserId)
    requires Entries(h, u) == [0.0]
    ensures !Admits(h, u, 3.0, 10.0, 1) && WaitTime(h, u, 3.0, 10.0, 1) == 7.0
    ensures Entries(Recorded(h, u, 3.0, 3.0, 10.0, 1), u) == [0.0]
    ensures Admits(h, u, 11.0, 10.0, 1)
  {
    assert StaleCount([0.0], -7.0) == 0;
    assert StaleCount([0.0], 1.0) == 1;
    RecordedEntries(h, u, 3.0, 3.0, 10.0, 1);
  }

  // ---------------------------------------------------------------------------
  // The limiter object

  class SlidingWindowRateLimiter {
    const windowSize: real
    const maxRequests: int
    var userHistory: History

    ghost predicate Valid()
      reads this
    {
      WellFormed(userHistory, maxRequests)
    }

    constructor (windowSize: real := 10.0, maxRequests: int := 1)
      ensures this.windowSize == windowSize && this.maxRequests == maxRequests
      ensures userHistory == map[] && Valid()
    {
      this.windowSize := windowSize;
      this.maxRequests := maxRequests;
      userHistory := map[];
    }

    /** Pops the user's stale timestamps in place, then deletes an emptied entry. */
    method CleanupWindow(userId: UserId, currentTime: real)
      requires Valid()
      modifies this
      ensures Valid()
      ensures userHistory == Cleaned(old(userHistory), userId, currentTime, windowSize)
    {
      if userId !in userHistory {
        return;
      }
      ghost var cutoff := currentTime - windowSize;
      while userHistory[userId] != [] && userHistory[userId][0] < currentTime - windowSize
        invariant userId in userHistory
        invariant userHistory == old(userHistory)[userId := userHistory[userId]]
        invariant Prune(userHistory[userId], cutoff) == Prune(old(userHistory)[userId], cutoff)
        decreases |userHistory[userId]|
      {
        userHistory := userHistory[userId := userHistory[userId][1..]];
      }
      if userHistory[userId] == [] {
        userHistory := userHistory - {userId};
      }
      CleanedWellFormed(old(userHistory), userId, currentTime, windowSize, maxRequests);
    }

    method CanSendMessage(userId: UserId, now: real) returns (ok: bool)
      requires Valid()
      modifies this
      ensures Valid()
      ensures ok == Admits(old(userHistory), userId, now, windowSize, maxRequests)
      ensures userHistory == Cleaned(old(userHistory), userId, now, windowSize)
    {
      CleanupWindow(userId, now);
      CleanedEntries(old(userHistory), userId, now, windowSize);
      var q := if userId in userHistory then userHistory[userId] else [];
      ok := |q| < maxRequests;
    }

    /**
     The admission check reads the clock at `checkTime`; an admitted message is
     stamped with the second reading, `stampTime`.
     */
    method RecordMessage(userId: UserId, checkTime: real, stampTime: real) returns (ok: bool)
      requires Valid()
      modifies this
      ensures Valid()
      ensures ok == Admits(old(userHistory), userId, checkTime, windowSize, maxRequests)
      ensures userHistory == Recorded(old(userHistory), userId, checkTime, stampTime, windowSize, maxRequests)
    {
      ok := CanSendMessage(userId, checkTime);
      if ok {
        ghost var cleaned := userHistory;
        if userId !in userHistory {
          userHistory := userHistory[userId := []];
        }
        userHistory := userHistory[userId := userHistory[userId] + [stampTime]];
        CleanedEntries(old(userHistory), userId, checkTime, windowSize);
        assert userHistory == cleaned[userId := Pruned(old(userHistory), userId, checkTime, windowSize) + [stampTime]];
      }
      RecordedWellFormed(old(userHistory), userId, checkTime, stampTime, windowSize, maxRequests);
    }

    method TimeUntilNextAllowed(userId: UserId, now: real) returns (wait: real)
      requires Valid()
      modifies this
      ensures Valid()
      ensures wait == WaitTime(old(userHistory), userId, now, windowSize, maxRequests)
      ensures userHistory == Cleaned(old(userHistory), userId, now, windowSize)
    {
      CleanupWindow(userId, now);
      CleanedEntries(old(userHistory), userId, now, windowSize);
      if userId !in userHistory || |userHistory[userId]| < maxRequests {
        return 0.0;
      }
      var earliest := userHistory[userId][0];
      var remaining := windowSize - (now - earliest);
      wait := if 0.0 >= remaining then 0.0 else remaining;
    }
  }
}
