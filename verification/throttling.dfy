/**
 A throttling rate limiter: per user, the time of the last accepted message; a
 new message is admitted once at least `minInterval` seconds have passed since
 then. A user never seen before counts as having sent a message at time 0.

 The ambient clock is replaced by explicit time parameters. The two queries are
 functions of the limiter's map; recording is a method of the class
 `ThrottlingRateLimiter`, which owns that map and overwrites one entry of it.
 */
module Throttling {

  type UserId = string

  /** The user's last accepted time, 0 for a user never recorded. */
  function LastTime(last: map<UserId, real>, u: UserId): real
  {
    if u in last then last[u] else 0.0
  }

  /** `can_send_message(u)` at time `now`. */
  predicate CanSendMessage(last: map<UserId, real>, u: UserId, now: real, minInterval: real)
  {
    now - LastTime(last, u) >= minInterval
  }

  /**
   `time_until_next_allowed(u)` at time `now`: never negative, and zero exactly
   when the user may send now.
   */
  function TimeUntilNextAllowed(last: map<UserId, real>, u: UserId, now: real, minInterval: real): (w: real)
    ensures w >= 0.0
    ensures w == 0.0 <==> CanSendMessage(last, u, now, minInterval)
  {
    var remaining := minInterval - (now - LastTime(last, u));
    if 0.0 >= remaining then 0.0 else remaining
  }

  /**
   The map after `record_message(u)`: the check reads the clock at `checkTime`,
   and an admitted message stores the second reading, `stampTime`. No key is
   ever removed, and no other user's entry changes.
   */
  function Recorded(last: map<UserId, real>, u: UserId, checkTime: real, stampTime: real, minInterval: real): (r: map<UserId, real>)
    ensures last.Keys <= r.Keys
    ensures forall v :: v != u ==> (v in r <==> v in last) && (v in r ==> r[v] == last[v])
  {
    if CanSendMessage(last, u, checkTime, minInterval) then last[u := stampTime] else last
  }

  /**
   After an accepted message stamped `stampTime`, the user may send again exactly
   when `minInterval` has passed since that stamp; a rejected message changes nothing.
   */
  lemma RecordResetsInterval(last: map<UserId, real>, u: UserId, checkTime: real, stampTime: real, now: real, minInterval: real)
    ensures var r := Recorded(last, u, checkTime, stampTime, minInterval);
            if CanSendMessage(last, u, checkTime, minInterval)
            then LastTime(r, u) == stampTime && (CanSendMessage(r, u, now, minInterval) <==> now - stampTime >= minInterval)
            else r == last
  {
  }

  /** Recording for one user leaves every other user's answers as they were. */
  lemma RecordIsolated(last: map<UserId, real>, u: UserId, v: UserId, checkTime: real, stampTime: real, now: real, minInterval: real)
    requires u != v
    ensures var r := Recorded(last, u, checkTime, stampTime, minInterval);
            LastTime(r, v) == LastTime(last, v) &&
            CanSendMessage(r, v, now, minInterval) == CanSendMessage(last, v, now, minInterval) &&
            TimeUntilNextAllowed(r, v, now, minInterval) == TimeUntilNextAllowed(last, v, now, minInterval)
  {
  }

  /** A user never recorded may send once the clock reads at least `minInterval`. */
  lemma FreshUserAdmission(last: map<UserId, real>, u: UserId, now: real, minInterval: real)
    requires u !in last
    ensures CanSendMessage(last, u, now, minInterval) <==> now >= minInterval
    ensures TimeUntilNextAllowed(last, u, now, minInterval) == if now >= minInterval then 0.0 else minInterval - now
  {
  }

  /**
   The wait time is the least delay after which the user may send: after `d` more
   seconds the user is admitted exactly when `d` reaches the wait time.
   */
  lemma WaitIsLeastDelay(last: map<UserId, real>, u: UserId, now: real, d: real, minInterval: real)
    requires d >= 0.0
    ensures CanSendMessage(last, u, now + d, minInterval) <==> d >= TimeUntilNextAllowed(last, u, now, minInterval)
  {
  }

  /** With the last message not in the future, the wait never exceeds the interval. */
  lemma WaitAtMostInterval(last: map<UserId, real>, u: UserId, now: real, minInterval: real)
    requires LastTime(last, u) <= now && minInterval >= 0.0
    ensures TimeUntilNextAllowed(last, u, now, minInterval) <= minInterval
  {
  }

  /**
   A ten-second interval with a clock that starts at 0: a new user is rejected at
   0 with 10 seconds to wait, accepted at 10, rejected at 15 with 5 seconds to
   wait, and accepted at 20.
   */
  lemma TenSecondScenario(u: UserId)
    ensures var m0: map<UserId, real> := map[];
            var m1 := Recorded(m0, u, 10.0, 10.0, 10.0);
            && !CanSendMessage(m0, u, 0.0, 10.0) && TimeUntilNextAllowed(m0, u, 0.0, 10.0) == 10.0
            && CanSendMessage(m0, u, 10.0, 10.0) && LastTime(m1, u) == 10.0
            && !CanSendMessage(m1, u, 15.0, 10.0) && TimeUntilNextAllowed(m1, u, 15.0, 10.0) == 5.0
            && Recorded(m1, u, 15.0, 15.0, 10.0) == m1
            && CanSendMessage(m1, u, 20.0, 10.0)
  {
  }

  /**
   The same interval with a clock already past it: a new user is accepted at 100,
   rejected at 105 with 5 seconds to wait, and accepted again at 110.
   */
  lemma LaterClockScenario(last: map<UserId, real>, u: UserId)
    requires u !in last
    ensures CanSendMessage(last, u, 100.0, 10.0)
    ensures var m := Recorded(last, u, 100.0, 100.0, 10.0);
            && !CanSendMessage(m, u, 105.0, 10.0) && TimeUntilNextAllowed(m, u, 105.0, 10.0) == 5.0
            && Recorded(m, u, 105.0, 105.0, 10.0) == m
            && CanSendMessage(m, u, 110.0, 10.0)
  {
  }

  class ThrottlingRateLimiter {
    const minInterval: real
    var lastMessageTime: map<UserId, real>

    constructor (minInterval: real := 10.0)
      ensures this.minInterval == minInterval && lastMessageTime == map[]
    {
      this.minInterval := minInterval;
      lastMessageTime := map[];
    }

    /**
     The admission check reads the clock at `checkTime`; an admitted message
     overwrites the user's entry with the second reading, `stampTime`.
     */
    method RecordMessage(userId: UserId, checkTime: real, stampTime: real) returns (ok: bool)
      modifies this
      ensures ok == CanSendMessage(old(lastMessageTime), userId, checkTime, minInterval)
      ensures lastMessageTime == Recorded(old(lastMessageTime), userId, checkTime, stampTime, minInterval)
      ensures ok ==> lastMessageTime == old(lastMessageTime)[userId := stampTime]
      ensures !ok ==> lastMessageTime == old(lastMessageTime)
    {
      if CanSendMessage(lastMessageTime, userId, checkTime, minInterval) {
        lastMessageTime := lastMessageTime[userId := stampTime];
        return true;
      }
      return false;
    }
  }
}
