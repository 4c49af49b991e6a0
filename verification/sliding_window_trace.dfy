/**
 What the sliding-window limiter guarantees over a whole run: replaying any
 sequence of calls, with a clock that never goes backwards, the timestamps it
 accepts for one user never crowd more than `maxRequests` of them into a window
 of `windowSize` seconds.
 */
module SlidingWindowTrace {
  import opened SlidingWindow

  /** One call on the limiter, with the clock readings it takes. */
  datatype Call =
    | CanSend(user: UserId, now: real)
    | Record(user: UserId, checkTime: real, stampTime: real)
    | WaitQuery(user: UserId, now: real)

  /** The first clock reading the call takes. */
  function Start(c: Call): real
  {
    if c.Record? then c.checkTime else c.now
  }

  /** The last clock reading the call takes. */
  function End(c: Call): real
  {
    if c.Record? then c.stampTime else c.now
  }

  /** The clock never goes backwards, within a call or from one call to the next. */
  ghost predicate Monotone(calls: seq<Call>)
  {
    && (forall i :: 0 <= i < |calls| ==> Start(calls[i]) <= End(calls[i]))
    && (forall i, j :: 0 <= i < j < |calls| ==> End(calls[i]) <= Start(calls[j]))
  }

  /** The state change one call makes. */
  function Step(h: History, c: Call, windowSize: real, maxRequests: int): History
  {
    match c
    case CanSend(u, now) => Cleaned(h, u, now, windowSize)
    case Record(u, checkTime, stampTime) => Recorded(h, u, checkTime, stampTime, windowSize, maxRequests)
    case WaitQuery(u, now) => Cleaned(h, u, now, windowSize)
  }

  /** The state after running `calls` on a freshly constructed limiter. */
  function Replay(calls: seq<Call>, windowSize: real, maxRequests: int): History
  {
    if calls == [] then map[]
    else Step(Replay(calls[..|calls| - 1], windowSize, maxRequests), calls[|calls| - 1], windowSize, maxRequests)
  }

  /** The accepted-timestamp log of `u` after call `c` on state `h`. */
  function StepLog(log: seq<real>, h: History, c: Call, windowSize: real, maxRequests: int, u: UserId): seq<real>
  {
    if c.Record? && c.user == u && Admits(h, u, c.checkTime, windowSize, maxRequests)
    then log + [c.stampTime]
    else log
  }

  /** Every timestamp accepted for `u` during the run, in the order of acceptance. */
  function Accepted(calls: seq<Call>, windowSize: real, maxRequests: int, u: UserId): seq<real>
  {
    if calls == [] then []
    else
      var before := calls[..|calls| - 1];
      StepLog(Accepted(before, windowSize, maxRequests, u), Replay(before, windowSize, maxRequests),
              calls[|calls| - 1], windowSize, maxRequests, u)
  }

  /**
   The queue `q` holds the latest accepted timestamps of `log`; all the earlier
   ones, already popped, are older than `cutoff`.
   */
  ghost predicate Tracks(q: seq<real>, log: seq<real>, cutoff: real)
  {
    |q| <= |log| && q == log[|log| - |q|..] && forall i :: 0 <= i < |log| - |q| ==> log[i] < cutoff
  }

  /** Any `maxRequests + 1` consecutive timestamps of `log` span more than `windowSize`. */
  ghost predicate Spread(log: seq<real>, windowSize: real, maxRequests: int)
  {
    forall i, j :: 0 <= i <= j < |log| && j - i == maxRequests ==> log[j] - log[i] > windowSize
  }

  lemma MonotonePrefix(calls: seq<Call>)
    requires Monotone(calls) && calls != []
    ensures Monotone(calls[..|calls| - 1])
  {
    var before := calls[..|calls| - 1];
    assert forall i :: 0 <= i < |before| ==> before[i] == calls[i];
  }

  lemma TracksLater(q: seq<real>, log: seq<real>, c1: real, c2: real)
    requires Tracks(q, log, c1) && c1 <= c2
    ensures Tracks(q, log, c2)
  {
  }

  /** Pruning at the cutoff the invariant speaks of keeps it. */
  lemma TracksPrune(q: seq<real>, log: seq<real>, cutoff: real)
    requires Tracks(q, log, cutoff)
    ensures Tracks(Prune(q, cutoff), log, cutoff)
  {
    var k := StaleCount(q, cutoff);
    var d := |log| - |q|;
    forall i | 0 <= i < |log| - |q[k..]|
      ensures log[i] < cutoff
    {
      if d <= i {
        assert log[i] == q[i - d];
      }
    }
    assert q[k..] == log[d + k..];
  }

  lemma TracksAppend(q: seq<real>, log: seq<real>, cutoff: real, t: real)
    requires Tracks(q, log, cutoff)
    ensures Tracks(q + [t], log + [t], cutoff)
  {
    var log' := log + [t];
    assert log'[|log'| - |q + [t]|..] == log[|log| - |q|..] + [t];
  }

  /**
   Appending a timestamp keeps the spread when the timestamp `maxRequests` places
   before it is more than `windowSize` older.
   */
  lemma AppendSpread(log: seq<real>, t: real, windowSize: real, maxRequests: int)
    requires Spread(log, windowSize, maxRequests) && maxRequests >= 1
    requires |log| >= maxRequests ==> t - log[|log| - maxRequests] > windowSize
    ensures Spread(log + [t], windowSize, maxRequests)
  {
    var log' := log + [t];
    forall i, j | 0 <= i <= j < |log'| && j - i == maxRequests
      ensures log'[j] - log'[i] > windowSize
    {
      if j < |log| {
        assert log'[i] == log[i] && log'[j] == log[j];
      } else {
        assert log'[i] == log[i];
      }
    }
  }

  /** The state the last call starts from tracks the log with a cutoff at its first clock reading. */
  lemma {:induction false} TracksBeforeLast(calls: seq<Call>, windowSize: real, maxRequests: int, u: UserId)
    requires Monotone(calls) && calls != []
    ensures var before := calls[..|calls| - 1];
            Tracks(Entries(Replay(before, windowSize, maxRequests), u),
                   Accepted(before, windowSize, maxRequests, u),
                   Start(calls[|calls| - 1]) - windowSize)
    decreases |calls|, 0
  {
    var before := calls[..|calls| - 1];
    if before != [] {
      MonotonePrefix(calls);
      ReplayTracks(before, windowSize, maxRequests, u);
      TracksLater(Entries(Replay(before, windowSize, maxRequests), u), Accepted(before, windowSize, maxRequests, u),
                  End(before[|before| - 1]) - windowSize, Start(calls[|calls| - 1]) - windowSize);
    }
  }

  lemma CleanedTracks(h: History, u: UserId, now: real, log: seq<real>, windowSize: real)
    requires Tracks(Entries(h, u), log, now - windowSize)
    ensures Tracks(Entries(Cleaned(h, u, now, windowSize), u), log, now - windowSize)
  {
    CleanedEntries(h, u, now, windowSize);
    TracksPrune(Entries(h, u), log, now - windowSize);
  }

  lemma RecordedTracks(h: History, u: UserId, checkTime: real, stampTime: real, log: seq<real>, windowSize: real, maxRequests: int)
    requires Tracks(Entries(h, u), log, checkTime - windowSize) && checkTime <= stampTime
    ensures Tracks(Entries(Recorded(h, u, checkTime, stampTime, windowSize, maxRequests), u),
                   if Admits(h, u, checkTime, windowSize, maxRequests) then log + [stampTime] else log,
                   stampTime - windowSize)
  {
    var q := Entries(h, u);
    var cutoff := checkTime - windowSize;
    var r := Recorded(h, u, checkTime, stampTime, windowSize, maxRequests);
    RecordedEntries(h, u, checkTime, stampTime, windowSize, maxRequests);
    TracksPrune(q, log, cutoff);
    if Admits(h, u, checkTime, windowSize, maxRequests) {
      TracksAppend(Prune(q, cutoff), log, cutoff, stampTime);
      assert Entries(r, u) == Prune(q, cutoff) + [stampTime];
      TracksLater(Entries(r, u), log + [stampTime], cutoff, stampTime - windowSize);
    } else {
      assert Entries(r, u) == Prune(q, cutoff);
      TracksLater(Entries(r, u), log, cutoff, stampTime - windowSize);
    }
  }

  /** One call keeps the queue tracking the log, with the cutoff moving up to the call's last clock reading. */
  lemma StepTracks(h: History, c: Call, log: seq<real>, windowSize: real, maxRequests: int, u: UserId)
    requires Tracks(Entries(h, u), log, Start(c) - windowSize) && Start(c) <= End(c)
    ensures Tracks(Entries(Step(h, c, windowSize, maxRequests), u),
                   StepLog(log, h, c, windowSize, maxRequests, u),
                   End(c) - windowSize)
  {
    var h' := Step(h, c, windowSize, maxRequests);
    var log' := StepLog(log, h, c, windowSize, maxRequests, u);
    if c.user == u && c.Record? {
      assert h' == Recorded(h, u, c.checkTime, c.stampTime, windowSize, maxRequests);
      assert log' == if Admits(h, u, c.checkTime, windowSize, maxRequests) then log + [c.stampTime] else log;
      RecordedTracks(h, u, c.checkTime, c.stampTime, log, windowSize, maxRequests);
    } else if c.user == u {
      assert h' == Cleaned(h, u, c.now, windowSize) && log' == log;
      CleanedTracks(h, u, c.now, log, windowSize);
    } else {
      assert Entries(h', u) == Entries(h, u) && log' == log;
      TracksLater(Entries(h, u), log, Start(c) - windowSize, End(c) - windowSize);
    }
  }

  /**
   After any run the user's queue holds the latest accepted timestamps, and every
   accepted timestamp no longer in it is older than the window ending at the
   last clock reading.
   */
  lemma {:induction false} ReplayTracks(calls: seq<Call>, windowSize: real, maxRequests: int, u: UserId)
    requires Monotone(calls) && calls != []
    ensures Tracks(Entries(Replay(calls, windowSize, maxRequests), u),
                   Accepted(calls, windowSize, maxRequests, u),
                   End(calls[|calls| - 1]) - windowSize)
    decreases |calls|, 1
  {
    var before := calls[..|calls| - 1];
    var c := calls[|calls| - 1];
    TracksBeforeLast(calls, windowSize, maxRequests, u);
    StepTracks(Replay(before, windowSize, maxRequests), c, Accepted(before, windowSize, maxRequests, u),
               windowSize, maxRequests, u);
  }

  /**
   The window guarantee: with a clock that never goes backwards, any
   `maxRequests + 1` consecutive messages accepted for one user were stamped
   more than `windowSize` seconds apart, so no closed window of `windowSize`
   seconds holds more than `maxRequests` of them.
   */
  lemma {:induction false} WindowGuarantee(calls: seq<Call>, windowSize: real, maxRequests: int, u: UserId)
    requires Monotone(calls)
    ensures Spread(Accepted(calls, windowSize, maxRequests, u), windowSize, maxRequests)
    decreases |calls|
  {
    if calls != [] {
      var before := calls[..|calls| - 1];
      var c := calls[|calls| - 1];
      var h := Replay(before, windowSize, maxRequests);
      var log := Accepted(before, windowSize, maxRequests, u);
      MonotonePrefix(calls);
      WindowGuarantee(before, windowSize, maxRequests, u);
      if c.Record? && c.user == u && Admits(h, u, c.checkTime, windowSize, maxRequests) {
        var cutoff := c.checkTime - windowSize;
        var q := Entries(h, u);
        TracksBeforeLast(calls, windowSize, maxRequests, u);
        TracksPrune(q, log, cutoff);
        assert Start(c) <= End(c);
        AppendSpread(log, c.stampTime, windowSize, maxRequests);
      }
    }
  }
}
