/**
 What the throttling limiter guarantees over a whole run of `record_message`
 calls: when each call's second clock reading is not earlier than its first,
 the timestamps accepted for one user are at least `minInterval` apart, and the
 first of them is at least `minInterval` after time 0.
 */
module ThrottlingTrace {
  import opened Throttling

  /** One `record_message` call, with its two clock readings. */
  datatype Send = Send(user: UserId, checkTime: real, stampTime: real)

  /** The map after running `sends` on a freshly constructed limiter. */
  function Replay(sends: seq<Send>, minInterval: real): map<UserId, real>
  {
    if sends == [] then map[]
    else
      var s := sends[|sends| - 1];
      Recorded(Replay(sends[..|sends| - 1], minInterval), s.user, s.checkTime, s.stampTime, minInterval)
  }

  /** Every timestamp accepted for `u` during the run, in the order of acceptance. */
  function Accepted(sends: seq<Send>, minInterval: real, u: UserId): seq<real>
  {
    if sends == [] then []
    else
      var before := sends[..|sends| - 1];
      var s := sends[|sends| - 1];
      var log := Accepted(before, minInterval, u);
      if s.user == u && CanSendMessage(Replay(before, minInterval), u, s.checkTime, minInterval)
      then log + [s.stampTime]
      else log
  }

  /** Each call stamps no earlier than it checks. */
  ghost predicate StampsAfterChecks(sends: seq<Send>)
  {
    forall i :: 0 <= i < |sends| ==> sends[i].checkTime <= sends[i].stampTime
  }

  /**
   Consecutive accepted timestamps are at least `minInterval` apart, and the first
   is at least `minInterval` after time 0.
   */
  ghost predicate Spaced(log: seq<real>, minInterval: real)
  {
    && (log != [] ==> log[0] >= minInterval)
    && forall i :: 0 < i < |log| ==> log[i] - log[i - 1] >= minInterval
  }

  /** The map holds, for `u`, the last accepted timestamp, and nothing when none was accepted. */
  lemma {:induction false} ReplayHoldsLast(sends: seq<Send>, minInterval: real, u: UserId)
    ensures var log := Accepted(sends, minInterval, u);
            var m := Replay(sends, minInterval);
            (u in m <==> log != []) && (log != [] ==> m[u] == log[|log| - 1])
    decreases |sends|
  {
    if sends != [] {
      var before := sends[..|sends| - 1];
      var s := sends[|sends| - 1];
      ReplayHoldsLast(before, minInterval, u);
      var m := Replay(before, minInterval);
      var log := Accepted(before, minInterval, u);
      if s.user == u && CanSendMessage(m, u, s.checkTime, minInterval) {
        assert Replay(sends, minInterval) == m[u := s.stampTime];
        assert Accepted(sends, minInterval, u) == log + [s.stampTime];
      } else {
        assert Accepted(sends, minInterval, u) == log;
        assert u in Replay(sends, minInterval) <==> u in m;
        assert u in m ==> Replay(sends, minInterval)[u] == m[u];
      }
    }
  }

  lemma AppendSpaced(log: seq<real>, t: real, minInterval: real)
    requires Spaced(log, minInterval)
    requires if log == [] then t >= minInterval else t - log[|log| - 1] >= minInterval
    ensures Spaced(log + [t], minInterval)
  {
    var log' := log + [t];
    forall i | 0 < i < |log'|
      ensures log'[i] - log'[i - 1] >= minInterval
    {
      assert log'[i - 1] == log[i - 1];
    }
  }

  /**
   The throttling guarantee: accepted messages of one user are spaced at least
   `minInterval` apart, the first counted from time 0.
   */
  lemma {:induction false} IntervalGuarantee(sends: seq<Send>, minInterval: real, u: UserId)
    requires StampsAfterChecks(sends)
    ensures Spaced(Accepted(sends, minInterval, u), minInterval)
    decreases |sends|
  {
    if sends != [] {
      var before := sends[..|sends| - 1];
      var s := sends[|sends| - 1];
      assert StampsAfterChecks(before) by {
        forall i | 0 <= i < |before| ensures before[i].checkTime <= before[i].stampTime {
          assert before[i] == sends[i];
        }
      }
      IntervalGuarantee(before, minInterval, u);
      var m := Replay(before, minInterval);
      var log := Accepted(before, minInterval, u);
      if s.user == u && CanSendMessage(m, u, s.checkTime, minInterval) {
        ReplayHoldsLast(before, minInterval, u);
        assert s.checkTime <= s.stampTime;
        AppendSpaced(log, s.stampTime, minInterval);
      }
    }
  }
}
