/** The recorder's decisions, as a log: which `empty_all_buffers` calls it
    makes for each motion event and when, and what it keeps across events.
    Time is counted in tenths of a second; the motion flag is an input
    trace, the set of times at which it is set. */
module EventLog {

  // ---------------------------------------------------------------------------
  // Flushes and events
  // ---------------------------------------------------------------------------

  /** One call of `empty_all_buffers`: the event directory, the start flag
      and the time it happened. */
  datatype Flush = Flush(path: string, isStart: bool, at: nat)

  /** One recorded event: its directory, when motion was first seen, the
      times of its periodic flushes, how many 0.2 s polls its in-event loop
      made before it stopped, and the time of its final flush. */
  datatype EventRun = EventRun(path: string, start: nat, periodic: seq<nat>, polls: nat, final: nat)

  function PeriodicFlushes(path: string, times: seq<nat>): (r: seq<Flush>)
    ensures |r| == |times|
    ensures forall i :: 0 <= i < |r| ==> r[i] == Flush(path, false, times[i])
  {
    if times == [] then [] else PeriodicFlushes(path, times[..|times| - 1]) + [Flush(path, false, times[|times| - 1])]
  }

  /** The flushes of one event: one start flush, the periodic ones, the final one. */
  function EventFlushes(e: EventRun): (r: seq<Flush>)
    ensures |r| == |e.periodic| + 2
    ensures r[0] == Flush(e.path, true, e.start) && r[|r| - 1] == Flush(e.path, false, e.final)
    ensures forall i :: 1 <= i < |r| ==> r[i].path == e.path && !r[i].isStart
  {
    [Flush(e.path, true, e.start)] + PeriodicFlushes(e.path, e.periodic) + [Flush(e.path, false, e.final)]
  }

  function AllFlushes(events: seq<EventRun>): seq<Flush>
  {
    if events == [] then [] else AllFlushes(events[..|events| - 1]) + EventFlushes(events[|events| - 1])
  }

  function Paths(events: seq<EventRun>): (r: seq<string>)
    ensures |r| == |events|
    ensures forall i :: 0 <= i < |r| ==> r[i] == events[i].path
  {
    if events == [] then [] else Paths(events[..|events| - 1]) + [events[|events| - 1].path]
  }

  /** Time of the flush before periodic flush `i` of an event that started
      at `start`. */
  function PreviousFlush(start: nat, periodic: seq<nat>, i: nat): nat
    requires i < |periodic|
  {
    if i == 0 then start else periodic[i - 1]
  }

  /** Time of the latest flush of an event so far. */
  function LastFlush(start: nat, periodic: seq<nat>): nat
  {
    if periodic == [] then start else periodic[|periodic| - 1]
  }

  /** Three quarters of the buffer length, in tenths of a second. */
  const NEAR_FULL_DS: nat := 75
  /** `wait_recording(0.2)` inside an event. */
  const EVENT_POLL_DS: nat := 2
  /** `wait_recording(1)` between events. */
  const IDLE_POLL_DS: nat := 10
  /** `wait_recording(5)`: the camera warm-up. */
  const WARM_UP_DS: nat := 50

  /** The time between two periodic flushes: a flush is due once more than
      0.75 * BUFF_SZ_S (7.5 s) has passed since the previous one, and the
      in-event loop sees that at its first 0.2 s poll after 7.5 s, 7.6 s on. */
  const FLUSH_PERIOD_DS: nat := NEAR_FULL_DS + 1

  /** The time of poll `k` of the in-event loop of an event that began at
      `start`. */
  function PollTime(start: nat, k: nat): nat
  {
    start + k * EVENT_POLL_DS
  }

  /** The periodic flushes of an event that started at `start`: flush `i`
      came `i + 1` flush periods after the start, before the maximum event
      length was reached. */
  ghost predicate PeriodicTimes(start: nat, periodic: seq<nat>, maxDs: nat)
  {
    forall i :: 0 <= i < |periodic| ==>
      periodic[i] == start + (i + 1) * FLUSH_PERIOD_DS && periodic[i] < start + maxDs
  }

  /** The latest flush of an event so far came one flush period after the
      start for every periodic flush. */
  lemma LastFlushTime(start: nat, periodic: seq<nat>, maxDs: nat)
    requires PeriodicTimes(start, periodic, maxDs)
    ensures LastFlush(start, periodic) == start + |periodic| * FLUSH_PERIOD_DS
  {
    if periodic != [] {
      assert periodic[|periodic| - 1] == start + |periodic| * FLUSH_PERIOD_DS;
    }
  }

  /** The buffers are emptied again once more than 0.75 * BUFF_SZ_S has
      passed since the previous flush, at the first poll where that is so:
      each periodic flush comes one flush period after the flush before it,
      and the latest one less than the maximum event length after the
      start. */
  lemma PeriodicSpacing(start: nat, periodic: seq<nat>, maxDs: nat)
    requires PeriodicTimes(start, periodic, maxDs)
    ensures forall i :: 0 <= i < |periodic| ==>
              PreviousFlush(start, periodic, i) + NEAR_FULL_DS < periodic[i]
                <= PreviousFlush(start, periodic, i) + NEAR_FULL_DS + EVENT_POLL_DS
    ensures periodic != [] ==> LastFlush(start, periodic) < start + maxDs
  {
    forall i | 0 <= i < |periodic|
      ensures periodic[i] == PreviousFlush(start, periodic, i) + FLUSH_PERIOD_DS
    {
      if i > 0 {
        assert periodic[i - 1] == start + i * FLUSH_PERIOD_DS;
      }
    }
  }

  /** A flush one flush period after the latest one, before the maximum
      event length, extends the periodic flushes. */
  lemma PeriodicTimesSnoc(start: nat, periodic: seq<nat>, t: nat, maxDs: nat)
    requires PeriodicTimes(start, periodic, maxDs)
    requires t == LastFlush(start, periodic) + FLUSH_PERIOD_DS && t < start + maxDs
    ensures PeriodicTimes(start, periodic + [t], maxDs)
  {
    LastFlushTime(start, periodic, maxDs);
    var p := periodic + [t];
    forall i | 0 <= i < |p|
      ensures p[i] == start + (i + 1) * FLUSH_PERIOD_DS && p[i] < start + maxDs
    {
      if i < |periodic| {
        assert p[i] == periodic[i];
      }
    }
  }

  /** At each of the first `polls` polls of the in-event loop the motion
      flag was set and the event was under the maximum length. */
  ghost predicate MotionThroughout(start: nat, polls: nat, motion: set<nat>, maxDs: nat)
  {
    forall k :: 0 <= k < polls ==> PollTime(start, k) in motion && PollTime(start, k) < start + maxDs
  }

  /** Whether the in-event loop stops at time `t`: the motion flag is off
      or the maximum event length is reached. */
  predicate RunStops(t: nat, start: nat, motion: set<nat>, maxDs: nat)
  {
    t !in motion || t >= start + maxDs
  }

  /** Reference for the in-event loop: from poll `k` of an event that began
      at `start`, the first poll at which it stops. */
  function EndPoll(k: nat, start: nat, motion: set<nat>, maxDs: nat): (r: nat)
    ensures k <= r && RunStops(PollTime(start, r), start, motion, maxDs)
    ensures forall j :: k <= j < r ==> !RunStops(PollTime(start, j), start, motion, maxDs)
    decreases start + maxDs - PollTime(start, k)
  {
    if RunStops(PollTime(start, k), start, motion, maxDs) then k else EndPoll(k + 1, start, motion, maxDs)
  }

  /** How many polls the in-event loop of an event that began at `start`
      makes before it stops. */
  function RunPolls(start: nat, motion: set<nat>, maxDs: nat): nat
  {
    EndPoll(0, start, motion, maxDs)
  }

  /** When the in-event loop of an event that began at `start` ends. */
  function RunEnd(start: nat, motion: set<nat>, maxDs: nat): nat
  {
    PollTime(start, RunPolls(start, motion, maxDs))
  }

  /** A run with motion at each of its first `polls` polls, stopping at the
      next one, stops where the reference says, from any of its polls. */
  lemma {:induction false} EndPollUnique(k: nat, start: nat, polls: nat, motion: set<nat>, maxDs: nat)
    requires MotionThroughout(start, polls, motion, maxDs) && RunStops(PollTime(start, polls), start, motion, maxDs)
    requires k <= polls
    ensures EndPoll(k, start, motion, maxDs) == polls
    decreases polls - k
  {
    if k < polls {
      assert PollTime(start, k) in motion && PollTime(start, k) < start + maxDs;
      EndPollUnique(k + 1, start, polls, motion, maxDs);
    }
  }

  /** The in-event loop after `polls` polls, at time `clock`, with periodic
      flushes at `periodic`: the flushes keep to `PeriodicTimes`, the next
      one is not overdue, and, unless a flush failed (`ok` false, which ends
      the loop at the failing flush), every poll so far saw motion under the
      maximum length and came after the latest flush. */
  ghost predicate InEventState(start: nat, clock: nat, polls: nat, periodic: seq<nat>, ok: bool,
                               motion: set<nat>, maxDs: nat)
  {
    clock == PollTime(start, polls) &&
    PeriodicTimes(start, periodic, maxDs) &&
    LastFlush(start, periodic) <= clock <= LastFlush(start, periodic) + FLUSH_PERIOD_DS &&
    (ok ==> MotionThroughout(start, polls, motion, maxDs) && (periodic != [] ==> LastFlush(start, periodic) < clock)) &&
    (!ok ==> periodic != [] && clock == LastFlush(start, periodic))
  }

  /** The in-event loop starts at the start flush with no periodic flush. */
  lemma InEventInit(start: nat, motion: set<nat>, maxDs: nat)
    ensures InEventState(start, start, 0, [], true, motion, maxDs)
  {
  }

  /** A poll that sees motion under the maximum length, with no flush due,
      moves the loop on by 0.2 s. */
  lemma InEventPoll(start: nat, clock: nat, polls: nat, periodic: seq<nat>, motion: set<nat>, maxDs: nat)
    requires InEventState(start, clock, polls, periodic, true, motion, maxDs)
    requires clock in motion && clock < start + maxDs && clock - LastFlush(start, periodic) <= NEAR_FULL_DS
    ensures InEventState(start, clock + EVENT_POLL_DS, polls + 1, periodic, true, motion, maxDs)
  {
    LastFlushTime(start, periodic, maxDs);
    PollGap(start, polls, |periodic|);
    MotionThroughoutSnoc(start, polls, motion, maxDs);
  }

  /** A poll no more than 0.75 * BUFF_SZ_S after a flush made `n` flush
      periods after the start is followed by one no later than a flush
      period after that flush: polls and flushes both fall on even
      tenths of a second from the start. */
  lemma PollGap(start: nat, k: nat, n: nat)
    requires start + n * FLUSH_PERIOD_DS <= PollTime(start, k) <= start + n * FLUSH_PERIOD_DS + NEAR_FULL_DS
    ensures PollTime(start, k + 1) == PollTime(start, k) + EVENT_POLL_DS
    ensures PollTime(start, k + 1) <= start + n * FLUSH_PERIOD_DS + FLUSH_PERIOD_DS
  {
    assert k * EVENT_POLL_DS == 2 * k;
    assert n * FLUSH_PERIOD_DS == 76 * n;
    var m := k - 38 * n;
    assert 0 <= 2 * m <= NEAR_FULL_DS;
  }

  /** One more poll that sees motion under the maximum length extends the
      run. */
  lemma MotionThroughoutSnoc(start: nat, polls: nat, motion: set<nat>, maxDs: nat)
    requires MotionThroughout(start, polls, motion, maxDs)
    requires PollTime(start, polls) in motion && PollTime(start, polls) < start + maxDs
    ensures MotionThroughout(start, polls + 1, motion, maxDs)
  {
  }

  /** A poll that sees motion under the maximum length with a flush due
      flushes at that poll, exactly one flush period after the latest
      flush; if the flush succeeds the loop moves on by 0.2 s, otherwise it
      stops there. */
  lemma InEventFlush(start: nat, clock: nat, polls: nat, periodic: seq<nat>, motion: set<nat>, maxDs: nat)
    requires InEventState(start, clock, polls, periodic, true, motion, maxDs)
    requires clock in motion && clock < start + maxDs && clock - LastFlush(start, periodic) > NEAR_FULL_DS
    ensures clock == LastFlush(start, periodic) + FLUSH_PERIOD_DS
    ensures InEventState(start, clock + EVENT_POLL_DS, polls + 1, periodic + [clock], true, motion, maxDs)
    ensures InEventState(start, clock, polls, periodic + [clock], false, motion, maxDs)
  {
    MotionThroughoutSnoc(start, polls, motion, maxDs);
    LastFlushTime(start, periodic, maxDs);
    PeriodicTimesSnoc(start, periodic, clock, maxDs);
  }

  /** A loop that stopped without a failing flush, followed by the trail-off
      wait, makes a well formed event. */
  lemma InEventRun(path: string, start: nat, clock: nat, polls: nat, periodic: seq<nat>,
                   motion: set<nat>, contextDs: nat, maxDs: nat)
    requires start in motion && InEventState(start, clock, polls, periodic, true, motion, maxDs)
    requires RunStops(clock, start, motion, maxDs)
    ensures WellFormedRun(EventRun(path, start, periodic, polls, clock + contextDs), motion, contextDs, maxDs)
  {
  }

  /** Logging further flushes after those made so far. */
  lemma LogAppend(log0: seq<Flush>, made: seq<Flush>, more: seq<Flush>)
    ensures log0 + made + more == log0 + (made + more)
  {
  }

  /** Logging one more periodic flush. */
  lemma LogPeriodic(log0: seq<Flush>, path: string, periodic: seq<nat>, t: nat)
    ensures log0 + PeriodicFlushes(path, periodic) + [Flush(path, false, t)]
         == log0 + PeriodicFlushes(path, periodic + [t])
  {
    PeriodicFlushesSnoc(path, periodic, t);
  }

  /** The recorder's decisions for one event, against the motion trace:
      motion was seen at the start; the periodic flushes keep to
      `PeriodicTimes`; the in-event loop polled every 0.2 s while motion
      lasted and the event was under the maximum length, and stopped at the
      first poll where either failed, after the latest periodic flush and no
      later than one flush period after it (when the next one would be
      due); the final flush came one context length after that. */
  ghost predicate WellFormedRun(e: EventRun, motion: set<nat>, contextDs: nat, maxDs: nat)
  {
    e.start in motion &&
    PeriodicTimes(e.start, e.periodic, maxDs) &&
    MotionThroughout(e.start, e.polls, motion, maxDs) &&
    (var ended := PollTime(e.start, e.polls);
     RunStops(ended, e.start, motion, maxDs) &&
     LastFlush(e.start, e.periodic) <= ended <= LastFlush(e.start, e.periodic) + FLUSH_PERIOD_DS &&
     (e.periodic != [] ==> LastFlush(e.start, e.periodic) < ended) &&
     e.final == ended + contextDs)
  }

  /** The in-event loop of a well formed event made as many polls as the
      reference says, so its final flush is one context length after the
      reference end. */
  lemma FinalIsRunEnd(e: EventRun, motion: set<nat>, contextDs: nat, maxDs: nat)
    requires WellFormedRun(e, motion, contextDs, maxDs)
    ensures e.polls == RunPolls(e.start, motion, maxDs)
    ensures e.final == RunEnd(e.start, motion, maxDs) + contextDs
  {
    EndPollUnique(0, e.start, e.polls, motion, maxDs);
  }

  /** A well formed event is determined by its start and the motion trace:
      two of them that began together polled and flushed at the same
      times. */
  lemma RunDetermined(e1: EventRun, e2: EventRun, motion: set<nat>, contextDs: nat, maxDs: nat)
    requires WellFormedRun(e1, motion, contextDs, maxDs) && WellFormedRun(e2, motion, contextDs, maxDs)
    requires e1.start == e2.start
    ensures e1.polls == e2.polls && e1.final == e2.final && e1.periodic == e2.periodic
  {
    FinalIsRunEnd(e1, motion, contextDs, maxDs);
    FinalIsRunEnd(e2, motion, contextDs, maxDs);
    PeriodicCount(e1, e2, motion, contextDs, maxDs);
    PeriodicCount(e2, e1, motion, contextDs, maxDs);
    LastFlushTime(e1.start, e1.periodic, maxDs);
    LastFlushTime(e2.start, e2.periodic, maxDs);
  }

  /** Of two well formed events with the same polls, neither has more
      periodic flushes than the other. */
  lemma PeriodicCount(e1: EventRun, e2: EventRun, motion: set<nat>, contextDs: nat, maxDs: nat)
    requires WellFormedRun(e1, motion, contextDs, maxDs) && WellFormedRun(e2, motion, contextDs, maxDs)
    requires e1.start == e2.start && e1.polls == e2.polls
    ensures |e2.periodic| <= |e1.periodic|
  {
    LastFlushTime(e1.start, e1.periodic, maxDs);
    LastFlushTime(e2.start, e2.periodic, maxDs);
  }

  ghost predicate Distinct(s: seq<string>)
  {
    forall i, j :: 0 <= i < j < |s| ==> s[i] != s[j]
  }

  /** The queue holds the directories of the recorded events, each once, all
      of them created on disk; the current directory is a further one. */
  ghost predicate Bookkeeping(queue: seq<string>, events: seq<EventRun>, current: string, existing: set<string>)
  {
    queue == Paths(events) && Distinct(queue) &&
    (forall i :: 0 <= i < |queue| ==> queue[i] in existing) &&
    current in existing && current !in queue
  }

  lemma AllFlushesSnoc(events: seq<EventRun>, e: EventRun)
    ensures AllFlushes(events + [e]) == AllFlushes(events) + EventFlushes(e)
  {
    assert (events + [e])[..|events|] == events;
  }

  lemma PeriodicFlushesSnoc(path: string, times: seq<nat>, t: nat)
    ensures PeriodicFlushes(path, times + [t]) == PeriodicFlushes(path, times) + [Flush(path, false, t)]
  {
    assert (times + [t])[..|times|] == times;
  }

  /** When each event began. */
  function StartTimes(events: seq<EventRun>): (r: seq<nat>)
    ensures |r| == |events|
    ensures forall i :: 0 <= i < |r| ==> r[i] == events[i].start
  {
    if events == [] then [] else StartTimes(events[..|events| - 1]) + [events[|events| - 1].start]
  }

  lemma StartTimesSnoc(events: seq<EventRun>, e: EventRun)
    ensures StartTimes(events + [e]) == StartTimes(events) + [e.start]
  {
    assert (events + [e])[..|events|] == events;
  }

  /** Reference for `record`'s outer loop: with the clock at `clock`, the
      start times of the events the next `n` once-a-second polls begin. A
      poll that sees motion begins an event; the next poll comes one second
      after its final flush, which is one context length after its in-event
      loop ended. */
  function PollStarts(motion: set<nat>, clock: nat, n: nat, contextDs: nat, maxDs: nat): (r: seq<nat>)
    ensures forall i :: 0 <= i < |r| ==> r[i] in motion && clock < r[i]
    decreases n
  {
    if n == 0 then []
    else
      var t := clock + IDLE_POLL_DS;
      if t in motion then [t] + PollStarts(motion, RunEnd(t, motion, maxDs) + contextDs, n - 1, contextDs, maxDs)
      else PollStarts(motion, t, n - 1, contextDs, maxDs)
  }

  /** An event recorded at the next poll follows the reference schedule:
      the schedule from before that poll is its start followed by the
      schedule from its final flush on. */
  lemma ScheduleEvent(events: seq<EventRun>, e: EventRun, clock: nat, n: nat,
                      motion: set<nat>, contextDs: nat, maxDs: nat)
    requires n > 0 && e.start == clock + IDLE_POLL_DS && WellFormedRun(e, motion, contextDs, maxDs)
    ensures StartTimes(events + [e]) + PollStarts(motion, e.final, n - 1, contextDs, maxDs)
         == StartTimes(events) + PollStarts(motion, clock, n, contextDs, maxDs)
  {
    FinalIsRunEnd(e, motion, contextDs, maxDs);
    StartTimesSnoc(events, e);
  }

  /** When the next poll sees motion, the schedule begins with it. */
  lemma ScheduleNext(clock: nat, n: nat, motion: set<nat>, contextDs: nat, maxDs: nat)
    requires n > 0 && clock + IDLE_POLL_DS in motion
    ensures PollStarts(motion, clock, n, contextDs, maxDs) != []
    ensures PollStarts(motion, clock, n, contextDs, maxDs)[0] == clock + IDLE_POLL_DS
  {
  }

  /** `record`'s outer loop against the reference `schedule`, with `left`
      polls to go at time `clock`: while no flush failed, the events so far
      and the rest of the schedule make up the whole; once one failed, the
      cut-short event (`partial`, begun by a start flush) began at the next
      scheduled start. */
  ghost predicate OnSchedule(events: seq<EventRun>, partial: seq<Flush>, ok: bool, clock: nat, left: nat,
                             motion: set<nat>, contextDs: nat, maxDs: nat, schedule: seq<nat>)
  {
    (ok ==> partial == [] && StartTimes(events) + PollStarts(motion, clock, left, contextDs, maxDs) == schedule) &&
    (!ok ==> partial != [] && partial[0].isStart && StartTimes(events) + [partial[0].at] <= schedule)
  }

  /** One pass of the outer loop that follows the schedule keeps it. */
  lemma OnScheduleStep(events: seq<EventRun>, events': seq<EventRun>, partial': seq<Flush>, ok': bool,
                       clock: nat, clock': nat, left: nat, motion: set<nat>, contextDs: nat, maxDs: nat,
                       schedule: seq<nat>)
    requires left > 0 && OnSchedule(events, [], true, clock, left, motion, contextDs, maxDs, schedule)
    requires ok' ==> partial' == [] &&
                     StartTimes(events') + PollStarts(motion, clock', left - 1, contextDs, maxDs)
                     == StartTimes(events) + PollStarts(motion, clock, left, contextDs, maxDs)
    requires !ok' ==> events' == events && partial' != [] && partial'[0].isStart &&
                      PollStarts(motion, clock, left, contextDs, maxDs) != [] &&
                      PollStarts(motion, clock, left, contextDs, maxDs)[0] == partial'[0].at
    ensures OnSchedule(events', partial', ok', clock', left - 1, motion, contextDs, maxDs, schedule)
  {
    if !ok' {
      var done, rest := StartTimes(events), PollStarts(motion, clock, left, contextDs, maxDs);
      assert (done + rest)[..|done| + 1] == done + [rest[0]];
    }
  }

  lemma PathsSnoc(events: seq<EventRun>, e: EventRun)
    ensures Paths(events + [e]) == Paths(events) + [e.path]
  {
    assert (events + [e])[..|events|] == events;
  }

  /** Queuing the current directory as a finished event and moving on to a
      directory that did not exist keeps the bookkeeping. */
  lemma BookkeepingStep(queue: seq<string>, events: seq<EventRun>, current: string, existing: set<string>,
                        e: EventRun, next: string)
    requires Bookkeeping(queue, events, current, existing)
    requires e.path == current && next !in existing
    ensures Bookkeeping(queue + [current], events + [e], next, existing + {next})
  {
    PathsSnoc(events, e);
  }

  /** When the latest event ended; 0 before any event. */
  function LastEnd(events: seq<EventRun>): nat
  {
    if events == [] then 0 else events[|events| - 1].final
  }

  /** What `record` keeps across events: the bookkeeping holds, every
      directory it queued or holds was made during the recording (none is in
      `before`), every event is well formed, and each event begins after the
      previous one ended. */
  ghost predicate Recorded(queue: seq<string>, events: seq<EventRun>, current: string, existing: set<string>,
                           before: set<string>, motion: set<nat>, contextDs: nat, maxDs: nat)
  {
    Bookkeeping(queue, events, current, existing) &&
    before <= existing && current !in before &&
    (forall i :: 0 <= i < |queue| ==> queue[i] !in before) &&
    (forall i :: 0 <= i < |events| ==> WellFormedRun(events[i], motion, contextDs, maxDs)) &&
    (forall i :: 0 < i < |events| ==> events[i - 1].final < events[i].start)
  }

  /** A completed, well formed event that began after the previous one
      ended, followed by a fresh directory, keeps `Recorded`. */
  lemma RecordedStep(queue: seq<string>, events: seq<EventRun>, current: string, existing: set<string>,
                     before: set<string>, motion: set<nat>, contextDs: nat, maxDs: nat, e: EventRun, next: string,
                     queue': seq<string>, events': seq<EventRun>, existing': set<string>)
    requires Recorded(queue, events, current, existing, before, motion, contextDs, maxDs)
    requires e.path == current && WellFormedRun(e, motion, contextDs, maxDs)
    requires LastEnd(events) < e.start
    requires next !in existing
    requires queue' == queue + [current] && events' == events + [e] && existing' == existing + {next}
    ensures Recorded(queue', events', next, existing', before, motion, contextDs, maxDs)
  {
    BookkeepingStep(queue, events, current, existing, e, next);
  }
}
