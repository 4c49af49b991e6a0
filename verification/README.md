# Per-user rate limiters in Dafny

This project models two in-memory rate limiters. Each decides, per user id,
whether a message may be sent now, records accepted messages, and reports how
long a user has to wait.

- **Sliding window** (`sliding_window.dfy`, module `SlidingWindow`). Per user,
  a FIFO queue holds the timestamps of accepted messages. Before every query the
  queue's front is popped while it is older than `now - windowSize`. A user with
  an emptied queue is removed. A message is admitted while fewer than
  `maxRequests` timestamps remain. The wait is `windowSize - (now - oldest)`,
  clipped at 0, once the user is at the limit.
- **Throttle** (`throttling.dfy`, module `Throttling`). Per user, the limiter
  keeps the time of the last accepted message. An unseen user counts as time 0.
  A message is admitted when at least `minInterval` seconds have passed since
  that time. The wait is `minInterval - (now - last)`, clipped at 0.

Each module first gives every operation as a function of the limiter's state
(a map from user id to queue, or to last time). It then proves properties of
those functions as lemmas. A class (`SlidingWindowRateLimiter`,
`ThrottlingRateLimiter`) holds the same map as a field and updates it in place.
Each method's postcondition ties its result and the new map to those functions.
The cleanup loop of the sliding window is a `while` loop over the user's queue
with its invariant.

Two further modules prove whole-run guarantees. They replay a sequence of calls
from a freshly built limiter:

- `SlidingWindowTrace.WindowGuarantee`: the clock must never go backwards. Then
  any `maxRequests + 1` consecutive accepted timestamps of one user span more
  than `windowSize` seconds.
- `ThrottlingTrace.IntervalGuarantee`: each call's stored reading must not be
  earlier than its check reading. Then consecutive accepted timestamps of one
  user are at least `minInterval` apart. The first is at least `minInterval`
  after time 0.

The system clock becomes explicit parameters. `record_message` reads the clock
twice in both limiters: once inside `can_send_message`, once for the stored
timestamp. The model therefore takes two readings, `checkTime` and `stampTime`.
Timestamps, `windowSize` and `minInterval` are reals. `maxRequests` is any
integer. The constructors accept any values, as the source does.

For the throttle, `time_until_next_allowed` is 0 exactly when
`can_send_message` is true at the same time (`Throttling.TimeUntilNextAllowed`).
The sliding window does not have this property:

- with `maxRequests <= 0`, the wait is 0 while every message is rejected;
- when the oldest kept timestamp lies exactly on the window boundary, the wait
  is 0 while the user is still at the limit.

`SlidingWindow.WaitTime` states the exact condition, and
`SlidingWindow.ZeroWaitWhileRejected` exhibits both cases.

A throttle whose clock reads 0 rejects a new user's first message, because
the default last time is 0.0 (`Throttling.TenSecondScenario`). With a clock
already past the interval, the user is admitted
(`Throttling.LaterClockScenario`).

## Model

| member | source | states |
|---|---|---|
| SlidingWindow.StaleCount | sliding_window_rate_limiter.py:28-29 | the number of timestamps popped by cleanup: every popped one is older than the cutoff, and the first survivor (if any) is not, so the survivors are the suffix from that point |
| SlidingWindow.Cleaned | sliding_window_rate_limiter.py:17-33 | after cleanup the user is absent or has a non-empty queue, and every other user's entry is unchanged |
| SlidingWindow.Recorded | sliding_window_rate_limiter.py:48-63 | after record_message the user is absent or has a non-empty queue, and every other user's entry is unchanged |
| SlidingWindow.WaitTime | sliding_window_rate_limiter.py:65-80 | the wait is never negative; it is zero exactly when the user is admitted, or has an empty pruned queue, or has an oldest timestamp exactly on the window boundary |
| SlidingWindow.CleanedEntries | sliding_window_rate_limiter.py:24-33 | the user's queue after cleanup is the pruned queue, and an absent user stays empty |
| SlidingWindow.RecordedEntries | sliding_window_rate_limiter.py:55-63 | an admitted record leaves the pruned queue with the stamp appended; a rejected one leaves exactly the cleaned state |
| SlidingWindow.StaleCountUnique | sliding_window_rate_limiter.py:28-29 | the cut point of the cleanup loop is the unique position where the timestamps stop being older than the cutoff |
| SlidingWindow.PruneKeepsWindow | sliding_window_rate_limiter.py:28-29 | pruning an ordered queue keeps it ordered, and every survivor is at or after the cutoff (a timestamp on the boundary is kept) |
| SlidingWindow.PruneTwice | sliding_window_rate_limiter.py:28-29 | pruning at an earlier cutoff and then at a later one is the same as pruning at the later one |
| SlidingWindow.CleanedIdempotent | sliding_window_rate_limiter.py:17-33 | a second cleanup at the same time changes nothing |
| SlidingWindow.CleanedWellFormed | sliding_window_rate_limiter.py:17-33 | cleanup preserves the invariant that every stored queue is non-empty and holds at most maxRequests timestamps |
| SlidingWindow.RecordedWellFormed | sliding_window_rate_limiter.py:46-61 | record_message preserves that invariant, because it appends only below the limit |
| SlidingWindow.ChronologicalLater | sliding_window_rate_limiter.py:28 | queues that are ordered and not later than one time stay so for any later time |
| SlidingWindow.CleanedChronological | sliding_window_rate_limiter.py:17-33 | cleanup keeps every queue ordered and not in the future, and the user's survivors all lie in the window [now - windowSize, now] |
| SlidingWindow.AppendInOrder | sliding_window_rate_limiter.py:61 | appending a stamp no earlier than the queue's timestamps keeps the queue ordered |
| SlidingWindow.RecordedChronological | sliding_window_rate_limiter.py:55-61 | with the stamp not earlier than the check, record_message keeps every queue ordered and not later than the stamp |
| SlidingWindow.NoCapacityRejectsAll | sliding_window_rate_limiter.py:46 | with maxRequests at most 0 no message is ever admitted |
| SlidingWindow.FreshUserAdmitted | sliding_window_rate_limiter.py:43-46 | a user without an entry is admitted with zero wait when maxRequests is positive |
| SlidingWindow.CapacityRegained | sliding_window_rate_limiter.py:28-46 | once the user's oldest timestamp has left the window, the user is admitted again |
| SlidingWindow.RecordIsolated | sliding_window_rate_limiter.py:55-62 | recording for one user leaves every other user's admission and wait time unchanged |
| SlidingWindow.AdmittedMeansNoWait | sliding_window_rate_limiter.py:75-76 | an admitted user has zero wait |
| SlidingWindow.ZeroWaitWhileRejected | sliding_window_rate_limiter.py:75-80 | the converse fails: an oldest timestamp exactly on the boundary, or maxRequests 0, gives zero wait while the message is rejected |
| SlidingWindow.WaitTimeAtMostWindow | sliding_window_rate_limiter.py:79-80 | with ordered queues not in the future and a non-negative window, the wait lies in [0, windowSize] |
| SlidingWindow.WaitTimeIsThreshold | sliding_window_rate_limiter.py:65-80 | in a well-formed state, for a rejected user and any delay d >= 0, a query d seconds later admits the user exactly when maxRequests is positive and d exceeds the wait time |
| SlidingWindow.SingleSlotFirstMessage | sliding_window_rate_limiter.py:55-61 | with windowSize 10 and maxRequests 1, a new user's message at time 0 is admitted and stored |
| SlidingWindow.SingleSlotLaterMessages | sliding_window_rate_limiter.py:35-80 | continuing that run, a message at 3 is rejected with 7 seconds to wait and stores nothing, and a message at 11 is admitted |
| SlidingWindow.SlidingWindowRateLimiter.constructor | sliding_window_rate_limiter.py:6-15 | the limiter starts with the given window and limit, defaults 10 and 1, and no users |
| SlidingWindow.SlidingWindowRateLimiter.CleanupWindow | sliding_window_rate_limiter.py:17-33 | the popping loop and key deletion leave exactly the cleaned state and keep the invariant |
| SlidingWindow.SlidingWindowRateLimiter.CanSendMessage | sliding_window_rate_limiter.py:35-46 | returns whether the pruned queue is below the limit, and leaves the cleaned state |
| SlidingWindow.SlidingWindowRateLimiter.RecordMessage | sliding_window_rate_limiter.py:48-63 | returns the admission decision at the check time and leaves the recorded state, creating the queue when absent |
| SlidingWindow.SlidingWindowRateLimiter.TimeUntilNextAllowed | sliding_window_rate_limiter.py:65-80 | returns the wait time and leaves the cleaned state |
| SlidingWindowTrace.MonotonePrefix | sliding_window_rate_limiter.py:42-72 | a clock that never goes backwards over a run also never does over its prefix |
| SlidingWindowTrace.TracksLater | sliding_window_rate_limiter.py:28 | the queue/log correspondence survives a later cutoff |
| SlidingWindowTrace.TracksPrune | sliding_window_rate_limiter.py:28-29 | cleanup keeps the queue equal to the newest accepted timestamps, with all older ones before the cutoff |
| SlidingWindowTrace.TracksAppend | sliding_window_rate_limiter.py:61 | appending an accepted stamp to both queue and log keeps the correspondence |
| SlidingWindowTrace.AppendSpread | sliding_window_rate_limiter.py:46-61 | appending a stamp more than windowSize after the one maxRequests places back keeps the spread of the log |
| SlidingWindowTrace.TracksBeforeLast | sliding_window_rate_limiter.py:17-63 | before the last call of a run, the stored queue is the newest part of the accepted log, the rest older than that call's cutoff |
| SlidingWindowTrace.CleanedTracks | sliding_window_rate_limiter.py:17-46 | a query keeps the queue/log correspondence |
| SlidingWindowTrace.RecordedTracks | sliding_window_rate_limiter.py:48-63 | a record keeps it, with the accepted stamp appended to the log |
| SlidingWindowTrace.StepTracks | sliding_window_rate_limiter.py:35-80 | any single call keeps it |
| SlidingWindowTrace.ReplayTracks | sliding_window_rate_limiter.py:15-80 | after any run with a non-decreasing clock, the user's queue holds the newest accepted timestamps and all others are outside the window |
| SlidingWindowTrace.WindowGuarantee | sliding_window_rate_limiter.py:35-63 | with a non-decreasing clock, any maxRequests + 1 consecutive accepted timestamps of a user span more than windowSize |
| Throttling.TimeUntilNextAllowed | throttling_rate_limiter.py:38-48 | the wait is never negative and is zero exactly when can_send_message is true at the same time |
| Throttling.Recorded | throttling_rate_limiter.py:26-36 | record_message never removes a user, and changes no other user's entry |
| Throttling.RecordResetsInterval | throttling_rate_limiter.py:22-36 | after an accepted message the user may send again exactly when minInterval has passed since its stamp; a rejected message leaves the map unchanged |
| Throttling.RecordIsolated | throttling_rate_limiter.py:33-35 | recording for one user leaves every other user's last time, admission and wait unchanged |
| Throttling.FreshUserAdmission | throttling_rate_limiter.py:22-48 | an unseen user counts as time 0.0: `Throttling.CanSendMessage` (the `can_send_message` test now - last >= minInterval) holds exactly when now >= minInterval, and otherwise the wait is minInterval - now |
| Throttling.WaitIsLeastDelay | throttling_rate_limiter.py:15-48 | after d >= 0 more seconds, `Throttling.CanSendMessage` (now + d - last >= minInterval, with last 0.0 for an unseen user) holds exactly when d reaches the wait time |
| Throttling.WaitAtMostInterval | throttling_rate_limiter.py:45-48 | with the last message not in the future and a non-negative interval, the wait is at most minInterval |
| Throttling.TenSecondScenario | throttling_rate_limiter.py:22-48 | with interval 10 and a clock starting at 0, a new user is rejected at 0 with 10 to wait, accepted at 10, rejected at 15 with 5 to wait, accepted at 20 |
| Throttling.LaterClockScenario | throttling_rate_limiter.py:22-48 | with interval 10, a new user is accepted at 100, rejected at 105 with 5 to wait and nothing stored, accepted at 110 |
| Throttling.ThrottlingRateLimiter.constructor | throttling_rate_limiter.py:6-13 | the limiter starts with the given interval, default 10, and no users |
| Throttling.ThrottlingRateLimiter.RecordMessage | throttling_rate_limiter.py:26-36 | returns the admission decision at the check time; on acceptance overwrites the user's entry with the stamp, on rejection leaves the map unchanged |
| ThrottlingTrace.ReplayHoldsLast | throttling_rate_limiter.py:13-35 | after any run the map holds, for a user, exactly the last accepted timestamp, and no entry when none was accepted |
| ThrottlingTrace.AppendSpaced | throttling_rate_limiter.py:24-34 | appending a stamp at least minInterval after the previous one (or after time 0) keeps the log spaced |
| ThrottlingTrace.IntervalGuarantee | throttling_rate_limiter.py:22-36 | with each stamp no earlier than its check, consecutive accepted timestamps of a user are at least minInterval apart, the first at least minInterval after time 0 |

## Left out

- The demonstration functions `test_rate_limiter` and `test_throttling_limiter`: console output, random delays and sleeping, with no limiter logic.
- The system clock: every reading of `time.time()` is a parameter. `record_message` takes two, `checkTime` and `stampTime`. The methods do not require the clock to move forward; the lemmas that need it state it in their `requires`.
- Floating-point rounding: timestamps and intervals are exact reals. The code only subtracts and compares them.
- Concurrency: the code takes no locks, and the model is sequential.
- Configuration validation: the constructors accept any values, and so does the model. Only the bound on the wait time assumes a non-negative window or interval.
- In-place mutation of the deque object: each user's queue is a sequence value in the map field, and the field is reassigned. No deque is shared between users, so no aliasing is lost.
- Class methods for the two throttle queries: `can_send_message` and `time_until_next_allowed` only read the map, so they are the functions `Throttling.CanSendMessage` and `Throttling.TimeUntilNextAllowed` of the class's field.
