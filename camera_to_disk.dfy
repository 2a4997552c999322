/** The event recorder: it allocates one directory per motion event and
    flushes the three ring buffers into it at the start of the event,
    periodically while motion lasts, and once more after a trail-off.

    Time is counted in tenths of a second. The motion flag is an input
    trace: the set of times at which the motion buffer's `is_motion` is set. */
module CameraToDisk {
  import opened Common
  import opened VideoBuffers
  import opened EventLog

  // ---------------------------------------------------------------------------
  // Event directory names
  // ---------------------------------------------------------------------------

  const EVENT_PREFIX: string := "event_"

  function EventName(n: nat): string
  {
    EVENT_PREFIX + ShowNat(n)
  }

  /** Different counters give different event names. */
  lemma EventNameInjective(a: nat, b: nat)
    requires EventName(a) == EventName(b)
    ensures a == b
  {
    assert ShowNat(a) == EventName(a)[|EVENT_PREFIX|..];
    assert ShowNat(b) == EventName(b)[|EVENT_PREFIX|..];
    ShowNatInjective(a, b);
  }

  /** The counter of an event directory path under `base`, if it is one. */
  function EventIndex(base: string, p: string): Option<nat>
  {
    var prefix := base + "/" + EVENT_PREFIX;
    if StartsWith(p, prefix) then ParseNat(p[|prefix|..]) else None
  }

  lemma EventIndexOfEventPath(base: string, n: nat)
    ensures EventIndex(base, JoinPath(base, EventName(n))) == Some(n)
  {
    var prefix := base + "/" + EVENT_PREFIX;
    var p := JoinPath(base, EventName(n));
    assert p == prefix + ShowNat(n);
    assert p[..|prefix|] == prefix;
    assert p[|prefix|..] == ShowNat(n);
    ParseShowNat(n);
  }

  /** Existing event paths numbered at least `from`: what `get_event` may
      still have to skip. */
  ghost function Pending(existing: set<string>, base: string, from: nat): set<string>
  {
    set p | p in existing && EventIndex(base, p).Some? && EventIndex(base, p).value >= from
  }

  lemma ProperSubsetSmaller<T>(a: set<T>, b: set<T>, x: T)
    requires a <= b && x in b && x !in a
    ensures |a| < |b|
  {
    assert a <= b - {x};
    SubsetNoLarger(a, b - {x});
  }

  lemma {:induction false} SubsetNoLarger<T>(a: set<T>, b: set<T>)
    requires a <= b
    ensures |a| <= |b|
    decreases |a|
  {
    if a != {} {
      var y :| y in a;
      SubsetNoLarger(a - {y}, b - {y});
    }
  }

  /** Hands out `event_<n>` directories under `base`, skipping names that
      already exist. `existing` is the set of directory paths on disk. */
  class DirectoryMaker {
    const base: string
    var counter: nat
    var existing: set<string>

    constructor (base: string, existing: set<string>)
      ensures this.base == base && counter == 0 && this.existing == existing
    {
      this.base := base;
      counter := 0;
      this.existing := existing;
    }

    /** The next candidate name and its path; the counter moves on by one. */
    method NewEvent() returns (path: string, name: string)
      modifies this`counter
      ensures name == EventName(old(counter)) && path == JoinPath(base, name)
      ensures counter == old(counter) + 1
    {
      name := EVENT_PREFIX + ShowNat(counter);
      counter := counter + 1;
      path := JoinPath(base, name);
    }

    /** A directory that did not exist before the call, created by it: the
        first free index from the counter on. */
    method GetEvent() returns (path: string, name: string)
      modifies this
      ensures path !in old(existing) && existing == old(existing) + {path}
      ensures old(counter) < counter && name == EventName(counter - 1) && path == JoinPath(base, name)
      ensures forall k :: old(counter) <= k < counter - 1 ==> JoinPath(base, EventName(k)) in old(existing)
    {
      path, name := NewEvent();
      while path in existing
        invariant counter >= 1 && old(counter) < counter
        invariant name == EventName(counter - 1) && path == JoinPath(base, name)
        invariant existing == old(existing)
        invariant forall k :: old(counter) <= k < counter - 1 ==> JoinPath(base, EventName(k)) in existing
        decreases |Pending(existing, base, counter - 1)|
      {
        ghost var before := counter - 1;
        EventIndexOfEventPath(base, before);
        assert path in Pending(existing, base, before);
        ProperSubsetSmaller(Pending(existing, base, before + 1), Pending(existing, base, before), path);
        path, name := NewEvent();
        forall k | old(counter) <= k < counter - 1
          ensures JoinPath(base, EventName(k)) in existing
        {
          if k == before {
            assert JoinPath(base, EventName(k)) == JoinPath(base, EventName(before));
          }
        }
      }
      existing := existing + {path};
    }
  }

  // ---------------------------------------------------------------------------
  // Raw frame dimensions
  // ---------------------------------------------------------------------------

  /** Network input sizes, (width, height). */
  const YOLO_V4_TINY: (nat, nat) := (416, 416)
  const SSDLITE_MOBILENET_V2: (nat, nat) := (300, 300)

  /** `int(32 * ceil(d / 32))`. */
  function RoundUp32(d: nat): (r: nat)
    ensures r % 32 == 0 && d <= r < d + 32
  {
    (d + 31) / 32 * 32
  }

  /** The resize dimensions of the raw stream: the small network's input when
      humans are detected or fast detection is on, otherwise the larger one,
      each side rounded up to a multiple of 32. */
  function RawFrameDims(detectHumans: bool, fastAnimalDetect: bool): (dims: (nat, nat))
  {
    var net := if detectHumans || fastAnimalDetect then SSDLITE_MOBILENET_V2 else YOLO_V4_TINY;
    (RoundUp32(net.0), RoundUp32(net.1))
  }

  /** The human detector and the fast animal detector take 300x300 input,
      rounded up to 320x320 frames; the default animal detector 416x416. */
  lemma RawFrameDimsValues(detectHumans: bool, fastAnimalDetect: bool)
    ensures RawFrameDims(detectHumans, fastAnimalDetect)
         == (if detectHumans || fastAnimalDetect then (320, 320) else (416, 416))
  {
  }

  // ---------------------------------------------------------------------------
  // The recorder
  // ---------------------------------------------------------------------------

  /** The three buffers `CameraToDisk.__init__` makes: H.264, raw frames at
      `dims`, and motion vectors; no two share a stream. */
  method NewBuffers(width: nat, height: nat, framerate: nat, contextDs: nat, thresholdSotv: real, dims: (nat, nat))
    returns (h: VideoRAMBuffer, rw: VideoRAMBuffer, m: MotionRAMBuffer)
    ensures h.Idle() && rw.Idle() && m.Idle() && h != rw
    ensures fresh(h) && fresh(rw) && fresh(m)
    ensures fresh(h.active) && fresh(h.inactive) && fresh(rw.active) && fresh(rw.inactive)
    ensures fresh(m.active) && fresh(m.inactive)
    ensures {h.active, h.inactive} !! {rw.active, rw.inactive}
    ensures {h.active, h.inactive} !! {m.active, m.inactive}
    ensures {rw.active, rw.inactive} !! {m.active, m.inactive}
    ensures rw.active.capacity == RawBufferSize(dims.0, dims.1, framerate)
  {
    h := new VideoRAMBuffer.H264(framerate, contextDs);
    rw := new VideoRAMBuffer.Raw(framerate, contextDs, dims.0, dims.1);
    m := new MotionRAMBuffer(width, height, framerate, contextDs, thresholdSotv);
  }

  class CameraToDisk {
    const h264: VideoRAMBuffer
    const raw: VideoRAMBuffer
    const motionBuffer: MotionRAMBuffer
    const maker: DirectoryMaker
    const contextDs: nat
    const maxEventDs: nat
    /** Files on disk with their contents. */
    var disk: Disk
    /** Event directories handed to the filtering stage, oldest first. */
    var queue: seq<string>
    /** Every `empty_all_buffers` call made so far, in order. */
    ghost var log: seq<Flush>
    /** The three buffers and their six streams. */
    ghost const Repr: set<object>

    ghost predicate Valid()
      reads Repr
    {
      Owned() && Buffers()
    }

    /** `Repr` holds the three buffers and their six streams, which are all
        distinct, and neither this object nor the directory maker. */
    ghost predicate Owned()
    {
      this !in Repr && maker !in Repr && {h264, raw, motionBuffer} <= Repr && h264 != raw
    }

    /** The three buffers are at rest, and no two share a stream. */
    ghost predicate Buffers()
      reads Repr
      requires Owned()
    {
      {h264.active, h264.inactive, raw.active, raw.inactive, motionBuffer.active, motionBuffer.inactive} <= Repr &&
      {h264.active, h264.inactive} !! {raw.active, raw.inactive} &&
      {h264.active, h264.inactive} !! {motionBuffer.active, motionBuffer.inactive} &&
      {raw.active, raw.inactive} !! {motionBuffer.active, motionBuffer.inactive} &&
      h264.Idle() && raw.Idle() && motionBuffer.Idle()
    }

    constructor (width: nat, height: nat, framerate: nat, contextDs: nat, maxEventDs: nat,
                 detectHumans: bool, fastAnimalDetect: bool, thresholdSotv: real,
                 base: string, existing: set<string>, disk: Disk)
      ensures Valid()
      ensures this.contextDs == contextDs && this.maxEventDs == maxEventDs
      ensures raw.active.capacity == RawBufferSize(RawFrameDims(detectHumans, fastAnimalDetect).0,
                                                   RawFrameDims(detectHumans, fastAnimalDetect).1, framerate)
      ensures this.disk == disk && queue == [] && log == []
      ensures maker.base == base && maker.existing == existing && maker.counter == 0
    {
      var dims := RawFrameDims(detectHumans, fastAnimalDetect);
      var h, rw, m := NewBuffers(width, height, framerate, contextDs, thresholdSotv, dims);
      this.contextDs := contextDs;
      this.maxEventDs := maxEventDs;
      h264, raw, motionBuffer := h, rw, m;
      maker := new DirectoryMaker(base, existing);
      this.disk := disk;
      queue := [];
      log := [];
      Repr := {h, rw, m, h.active, h.inactive, rw.active, rw.inactive, m.active, m.inactive};
    }

    /** The first half of `empty_all_buffers`: all three buffers are
        switched before any is drained. */
    method SwitchAll()
      requires Valid()
      modifies h264, raw, motionBuffer
      ensures Valid()
      ensures h264.active == old(h264.inactive) && h264.inactive == old(h264.active)
      ensures raw.active == old(raw.inactive) && raw.inactive == old(raw.active)
      ensures motionBuffer.active == old(motionBuffer.inactive) && motionBuffer.inactive == old(motionBuffer.active)
    {
      h264.SwitchStream();
      raw.SwitchStream();
      motionBuffer.SwitchStream();
    }

    /** `empty_all_buffers`: switch all three buffers, then append the H.264
        buffer to clip.h264, the raw buffer to clip.dat and the motion buffer
        to clip_vect.dat, all with the same start flag. A failing raw flush
        propagates, leaving the motion buffer undrained. The call, made at
        time `now`, is logged. */
    method EmptyAllBuffers(path: string, isStart: bool, ghost now: nat) returns (r: Result<(), string>)
      requires Valid()
      modifies this`disk, this`log, h264, raw, motionBuffer, h264.active, h264.inactive,
               raw.active, raw.inactive, motionBuffer.active, motionBuffer.inactive
      ensures Valid() && log == old(log) + [Flush(path, isStart, now)]
      ensures h264.active == old(h264.inactive) && raw.active == old(raw.inactive)
      ensures motionBuffer.active == old(motionBuffer.inactive)
      ensures unchanged(h264.active, raw.active, motionBuffer.active)
      ensures var h := H264Flush(old(h264.active.data), old(h264.active.frames), isStart, h264.contextSpan);
              var rw := RawFlush(old(raw.active.data), old(raw.active.frames), isStart, raw.contextSpan);
              var afterH264 := AppendSome(old(disk), JoinPath(path, "clip.h264"), h);
              if rw.None? then
                r.Err? && disk == afterH264 &&
                motionBuffer.inactive.data == old(motionBuffer.active.data)
              else
                r.Ok? &&
                disk == Append(Append(afterH264, JoinPath(path, "clip.dat"), rw.value),
                               JoinPath(path, "clip_vect.dat"),
                               MotionFlush(old(motionBuffer.active.data), isStart, motionBuffer.contextSpan)) &&
                h264.inactive.data == [] && raw.inactive.data == [] && motionBuffer.inactive.data == []
    {
      SwitchAll();
      r := DrainAll(path, isStart);
      log := log + [Flush(path, isStart, now)];
    }

    /** The second half of `empty_all_buffers`: drain the three inactive
        streams in turn, stopping at a failing raw flush. */
    method DrainAll(path: string, isStart: bool) returns (r: Result<(), string>)
      requires Valid()
      modifies this`disk, h264.inactive, raw.inactive, motionBuffer.inactive
      ensures Valid()
      ensures var h := H264Flush(old(h264.inactive.data), old(h264.inactive.frames), isStart, h264.contextSpan);
              var rw := RawFlush(old(raw.inactive.data), old(raw.inactive.frames), isStart, raw.contextSpan);
              var afterH264 := AppendSome(old(disk), JoinPath(path, "clip.h264"), h);
              if rw.None? then
                r.Err? && disk == afterH264 && unchanged(motionBuffer.inactive)
              else
                r.Ok? &&
                disk == Append(Append(afterH264, JoinPath(path, "clip.dat"), rw.value),
                               JoinPath(path, "clip_vect.dat"),
                               MotionFlush(old(motionBuffer.inactive.data), isStart, motionBuffer.contextSpan)) &&
                h264.inactive.data == [] && raw.inactive.data == [] && motionBuffer.inactive.data == []
    {
      DrainH264(JoinPath(path, "clip.h264"), isStart);
      r := DrainRaw(JoinPath(path, "clip.dat"), isStart);
      if r.Ok? {
        DrainMotion(JoinPath(path, "clip_vect.dat"), isStart);
      }
    }

    method DrainH264(file: string, isStart: bool)
      requires Valid()
      modifies h264.inactive, this`disk
      ensures Valid()
      ensures disk == AppendSome(old(disk), file,
                H264Flush(old(h264.inactive.data), old(h264.inactive.frames), isStart, h264.contextSpan))
      ensures h264.inactive.data == []
    {
      disk := h264.WriteInactiveH264(disk, file, isStart);
    }

    method DrainRaw(file: string, isStart: bool) returns (r: Result<(), string>)
      requires Valid()
      modifies raw.inactive, this`disk
      ensures Valid()
      ensures var b := RawFlush(old(raw.inactive.data), old(raw.inactive.frames), isStart, raw.contextSpan);
              if b.Some? then r.Ok? && disk == Append(old(disk), file, b.value) && raw.inactive.data == []
              else r.Err? && disk == old(disk) && unchanged(raw.inactive)
    {
      var result := raw.WriteInactiveRaw(disk, file, isStart);
      if result.Err? {
        return Err(result.error);
      }
      disk := result.value;
      r := Ok(());
    }

    method DrainMotion(file: string, isStart: bool)
      requires Valid()
      modifies motionBuffer.inactive, this`disk
      ensures Valid()
      ensures disk == Append(old(disk), file,
                MotionFlush(old(motionBuffer.inactive.data), isStart, motionBuffer.contextSpan))
      ensures motionBuffer.inactive.data == []
    {
      disk := motionBuffer.WriteInactiveStream(disk, file, isStart);
    }
    /** `empty_all_buffers` as the recorder's loop sees it: the call, made
        at time `now`, is logged and the buffers are left at rest, ready for
        the next call (what reaches the disk is stated by
        `EmptyAllBuffers`). */
    method FlushAll(path: string, isStart: bool, ghost now: nat) returns (r: Result<(), string>)
      requires Valid()
      modifies this`disk, this`log, Repr
      ensures Valid() && log == old(log) + [Flush(path, isStart, now)]
    {
      r := EmptyAllBuffers(path, isStart, now);
    }

    /** The in-event loop of `record`, entered at time `start` right after
        the start flush into `path`: poll every 0.2 s while motion lasts and
        the event is under the maximum length, flushing whenever more than
        0.75 * BUFF_SZ_S has passed since the latest flush. `periodic` are
        the times of the flushes made, `polls` how many polls passed and
        `clock` the time the loop ended; a failing flush ends it at once. */
    method InEvent(motion: set<nat>, path: string, start: nat)
      returns (r: Result<(), string>, clock: nat, ghost periodic: seq<nat>, ghost polls: nat)
      requires Valid()
      modifies this`disk, this`log, Repr
      ensures Valid() && log == old(log) + PeriodicFlushes(path, periodic)
      ensures InEventState(start, clock, polls, periodic, r.Ok?, motion, maxEventDs)
      ensures r.Ok? ==> RunStops(clock, start, motion, maxEventDs)
    {
      clock, polls := start, 0;
      var lastEmpty := start;
      r := Ok(());
      periodic := [];
      InEventInit(start, motion, maxEventDs);
      while r.Ok? && clock in motion && clock < start + maxEventDs
        invariant Valid() && log == old(log) + PeriodicFlushes(path, periodic)
        invariant InEventState(start, clock, polls, periodic, r.Ok?, motion, maxEventDs)
        invariant lastEmpty == LastFlush(start, periodic)
        decreases start + maxEventDs - clock, r.Ok?
      {
        if clock - lastEmpty > NEAR_FULL_DS {
          InEventFlush(start, clock, polls, periodic, motion, maxEventDs);
          LogPeriodic(old(log), path, periodic, clock);
          lastEmpty := clock;
          r := FlushAll(path, false, clock);
          periodic := periodic + [clock];
        } else {
          InEventPoll(start, clock, polls, periodic, motion, maxEventDs);
        }
        if r.Ok? {
          clock, polls := clock + EVENT_POLL_DS, polls + 1;
        }
      }
    }

    /** The end of an event, after the trail-off wait: the final flush into
        `path` at time `now`; then `path` is queued and a fresh directory
        `next` is made for the next event. */
    method EndEvent(path: string, ghost now: nat) returns (r: Result<(), string>, next: string)
      requires Valid()
      modifies this`disk, this`log, this`queue, Repr, maker
      ensures Valid() && log == old(log) + [Flush(path, false, now)]
      ensures r.Ok? ==> queue == old(queue) + [path] &&
                        next !in old(maker.existing) && maker.existing == old(maker.existing) + {next}
      ensures r.Err? ==> queue == old(queue) && maker.existing == old(maker.existing)
    {
      next := path;
      r := FlushAll(path, false, now);
      if r.Ok? {
        queue := queue + [path];
        var name;
        next, name := maker.GetEvent();
      }
    }

    /** The body of `record` once motion is seen at time `start`: a start
        flush into `path`, the in-event loop, the trail-off wait of one
        context length, the final flush; then `path` is queued and a fresh
        directory `next` is made for the next event. `flushes` are the
        `empty_all_buffers` calls made, the first of them the start flush;
        an error from one of them ends the recording. */
    method CaptureEvent(motion: set<nat>, path: string, start: nat)
      returns (r: Result<(), string>, next: string, clock: nat, ghost flushes: seq<Flush>, ghost e: EventRun)
      requires Valid() && start in motion
      modifies this`disk, this`log, this`queue, Repr, maker
      ensures Valid() && start <= clock
      ensures log == old(log) + flushes && flushes != [] && flushes[0] == Flush(path, true, start)
      ensures r.Ok? ==>
                e.path == path && e.start == start && e.final == clock &&
                WellFormedRun(e, motion, contextDs, maxEventDs) && flushes == EventFlushes(e) &&
                queue == old(queue) + [path] &&
                next !in old(maker.existing) && maker.existing == old(maker.existing) + {next}
      ensures r.Err? ==> queue == old(queue) && maker.existing == old(maker.existing)
    {
      ghost var log0 := log;
      next, clock, e := path, start, EventRun(path, start, [], 0, start);
      r := FlushAll(path, true, start);
      flushes := [Flush(path, true, start)];
      if r.Ok? {
        ghost var periodic, polls;
        r, clock, periodic, polls := InEvent(motion, path, start);
        LogAppend(log0, flushes, PeriodicFlushes(path, periodic));
        flushes := flushes + PeriodicFlushes(path, periodic);
        if r.Ok? {
          InEventRun(path, start, clock, polls, periodic, motion, contextDs, maxEventDs);
          clock := clock + contextDs;
          r, next := EndEvent(path, clock);
          LogAppend(log0, flushes, [Flush(path, false, clock)]);
          flushes := flushes + [Flush(path, false, clock)];
          if r.Ok? {
            e := EventRun(path, start, periodic, polls, clock);
          }
        }
      }
    }

    /** `record`: make the first event directory, let the camera warm up,
        then poll once a second, `polls` times, capturing an event whenever
        the motion flag is set. The log gains the flushes of the completed
        `events`, in order, then those of an event cut short by an error
        (none when there was no error). Each queued directory belongs to
        exactly one event, made during the recording, and the events follow
        one another in time. The events begin exactly at the polls the
        reference schedule `PollStarts` picks: every poll that sees motion
        and does not fall inside an earlier event starts one; an error cuts
        short the event the schedule starts next. */
    method Record(motion: set<nat>, polls: nat)
      returns (r: Result<(), string>, ghost events: seq<EventRun>, ghost partial: seq<Flush>)
      requires Valid() && queue == []
      modifies this`disk, this`log, this`queue, Repr, maker
      ensures Valid()
      ensures queue == Paths(events) && Distinct(queue)
      ensures forall i :: 0 <= i < |queue| ==> queue[i] in maker.existing && queue[i] !in old(maker.existing)
      ensures forall i :: 0 <= i < |events| ==> WellFormedRun(events[i], motion, contextDs, maxEventDs)
      ensures forall i :: 0 < i < |events| ==> events[i - 1].final < events[i].start
      ensures log == old(log) + AllFlushes(events) + partial
      ensures r.Ok? ==> partial == [] &&
                        StartTimes(events) == PollStarts(motion, WARM_UP_DS, polls, contextDs, maxEventDs)
      ensures r.Err? ==> partial != [] && partial[0].isStart &&
                         StartTimes(events) + [partial[0].at] <= PollStarts(motion, WARM_UP_DS, polls, contextDs, maxEventDs)
    {
      ghost var before := maker.existing;
      var current, name := maker.GetEvent();
      r, current, events, partial := RecordLoop(motion, current, polls, before);
    }

    /** The `while self._on` loop of `record`, after the warm-up, with the
        first event directory `current` made: `polls` passes, each of which
        may record an event, stopping early when a flush fails. */
    method RecordLoop(motion: set<nat>, current: string, polls: nat, ghost before: set<string>)
      returns (r: Result<(), string>, current': string, ghost events: seq<EventRun>, ghost partial: seq<Flush>)
      requires Valid() && Recorded(queue, [], current, maker.existing, before, motion, contextDs, maxEventDs)
      modifies this`disk, this`log, this`queue, Repr, maker
      ensures Valid() && Recorded(queue, events, current', maker.existing, before, motion, contextDs, maxEventDs)
      ensures log == old(log) + AllFlushes(events) + partial
      ensures OnSchedule(events, partial, r.Ok?, 0, 0, motion, contextDs, maxEventDs,
                         PollStarts(motion, WARM_UP_DS, polls, contextDs, maxEventDs))
    {
      ghost var log0 := log;
      ghost var schedule := PollStarts(motion, WARM_UP_DS, polls, contextDs, maxEventDs);
      var clock: nat := WARM_UP_DS;
      current', events, partial := current, [], [];
      r := Ok(());
      var left: nat := polls;
      while left > 0 && r.Ok?
        invariant Valid()
        invariant Recorded(queue, events, current', maker.existing, before, motion, contextDs, maxEventDs)
        invariant log == log0 + AllFlushes(events) + partial
        invariant OnSchedule(events, partial, r.Ok?, clock, left, motion, contextDs, maxEventDs, schedule)
        invariant LastEnd(events) < clock + IDLE_POLL_DS
      {
        r, current', clock, events, partial := Poll(motion, current', clock, before, events, left, log0, schedule);
        left := left - 1;
      }
    }

    /** One pass of `record`'s outer loop, with `n` polls left: wait a
        second and, when the motion flag is set, record an event. The event
        begun is the next one of the reference `schedule`, and the log gains
        its flushes; `partial` holds them when a flush failed. */
    method Poll(motion: set<nat>, current: string, clock: nat, ghost before: set<string>,
                ghost events: seq<EventRun>, ghost n: nat, ghost log0: seq<Flush>, ghost schedule: seq<nat>)
      returns (r: Result<(), string>, current': string, clock': nat, ghost events': seq<EventRun>,
               ghost partial: seq<Flush>)
      requires Valid() && n > 0
      requires Recorded(queue, events, current, maker.existing, before, motion, contextDs, maxEventDs)
      requires LastEnd(events) < clock + IDLE_POLL_DS
      requires log == log0 + AllFlushes(events)
      requires OnSchedule(events, [], true, clock, n, motion, contextDs, maxEventDs, schedule)
      modifies this`disk, this`log, this`queue, Repr, maker
      ensures Valid()
      ensures Recorded(queue, events', current', maker.existing, before, motion, contextDs, maxEventDs)
      ensures LastEnd(events') < clock' + IDLE_POLL_DS
      ensures log == log0 + AllFlushes(events') + partial
      ensures OnSchedule(events', partial, r.Ok?, clock', n - 1, motion, contextDs, maxEventDs, schedule)
    {
      current', clock', events', partial := current, clock + IDLE_POLL_DS, events, [];
      r := Ok(());
      if clock' in motion {
        ghost var flushes, e;
        r, current', clock', flushes, events', e := RecordEvent(motion, current, clock', before, events);
        LogAppend(log0, AllFlushes(events), flushes);
        if r.Ok? {
          ScheduleEvent(events, e, clock, n, motion, contextDs, maxEventDs);
        } else {
          partial := flushes;
          ScheduleNext(clock, n, motion, contextDs, maxEventDs);
        }
      }
      OnScheduleStep(events, events', partial, r.Ok?, clock, clock', n, motion, contextDs, maxEventDs, schedule);
    }

    /** One event seen by `record`'s outer loop at time `now`: capture it,
        and add it to the events when it completes. `flushes` are the
        `empty_all_buffers` calls made, the first of them the start flush. */
    method RecordEvent(motion: set<nat>, current: string, now: nat, ghost before: set<string>,
                       ghost events: seq<EventRun>)
      returns (r: Result<(), string>, current': string, clock: nat, ghost flushes: seq<Flush>,
               ghost events': seq<EventRun>, ghost e: EventRun)
      requires Valid() && now in motion
      requires Recorded(queue, events, current, maker.existing, before, motion, contextDs, maxEventDs)
      requires LastEnd(events) < now
      modifies this`disk, this`log, this`queue, Repr, maker
      ensures Valid() && now <= clock
      ensures Recorded(queue, events', current', maker.existing, before, motion, contextDs, maxEventDs)
      ensures log == old(log) + flushes && flushes != [] && flushes[0] == Flush(current, true, now)
      ensures r.Ok? ==> events' == events + [e] && e.start == now && e.final == clock &&
                        WellFormedRun(e, motion, contextDs, maxEventDs) &&
                        AllFlushes(events') == AllFlushes(events) + flushes
      ensures r.Err? ==> events' == events
      ensures LastEnd(events') <= clock
    {
      ghost var queue0, existing0 := queue, maker.existing;
      r, current', clock, flushes, e := CaptureEvent(motion, current, now);
      events' := events;
      if r.Ok? {
        AllFlushesSnoc(events, e);
        events' := events + [e];
        RecordedStep(queue0, events, current, existing0, before, motion, contextDs, maxEventDs, e, current',
                     queue, events', maker.existing);
      } else {
        current' := current;
      }
    }
  }
}
