/** The filter stage (`Filter`): it reads either frames from the camera
    (mode BY_FRAME), labelling each as MOTION or STILL for the motion-labelled
    queue, or recorded events (mode BY_EVENT), confirming each by the spiral
    walk and then forwarding it or deleting it from disk. The motion scorer
    (`MotionFilter.run_raw`) and the classifier are oracles. */
module Filtering {
  import opened Common
  import Camera
  import opened Event
  import opened RememberFromDisk

  datatype FilterMode = BY_FRAME | BY_EVENT

  /** What the filter reads from: the camera or the event rememberer. */
  datatype Source = FromCamera | FromRememberer

  /** The mode a source selects. */
  function ModeFor(source: Source): (m: FilterMode)
    ensures m == BY_FRAME <==> source.FromCamera?
    ensures m == BY_EVENT <==> source.FromRememberer?
  {
    if source.FromCamera? then BY_FRAME else BY_EVENT
  }

  datatype MotionStatus = MOTION | STILL

  /** One call the filter makes on the `MotionLabelledQueue`. */
  datatype LabelledCall = Put(frame: Camera.Frame, score: real, status: MotionStatus) | EndSequence

  /** What `Filter.get` hands out: an animal frame or an animal event. */
  datatype Item = AnimalFrame(frame: Camera.Frame) | AnimalEvent(event: EventData)

  // ---------------------------------------------------------------------------
  // BY_FRAME
  // ---------------------------------------------------------------------------

  /** The calls made on the labelled queue, and the motion vectors the
      motion filter has scored since its last reset. */
  datatype FrameState = FrameState(calls: seq<LabelledCall>, sinceReset: seq<seq<byte>>)

  /** One pass of the `_handle_input_frames` loop. `None` is an `Empty`
      raised by the input queue. `scorer` gives the motion score of the
      newest vectors after the ones the motion filter has seen since its
      last reset. */
  function FrameStep(s: FrameState, input: Option<Camera.Frame>, scorer: seq<seq<byte>> -> real, threshold: real): FrameState
  {
    match input
    case None => FrameState(s.calls + [EndSequence], [])
    case Some(frame) =>
      var seen := s.sinceReset + [frame.motion];
      var score := scorer(seen);
      var call := if score >= threshold then Put(frame, score, MOTION) else Put(frame, -1.0, STILL);
      FrameState(s.calls + [call], seen)
  }

  /** The loop over a run of inputs. */
  function HandleFrames(s: FrameState, inputs: seq<Option<Camera.Frame>>, scorer: seq<seq<byte>> -> real, threshold: real): FrameState
  {
    if |inputs| == 0 then s
    else FrameStep(HandleFrames(s, inputs[..|inputs| - 1], scorer, threshold), inputs[|inputs| - 1], scorer, threshold)
  }

  /** A frame is put as MOTION with its score iff the score reaches the
      threshold; otherwise it is put as STILL with score -1.0. An Empty ends
      the motion sequence, resets the motion filter and puts no frame. */
  lemma FrameDecision(s: FrameState, input: Option<Camera.Frame>, scorer: seq<seq<byte>> -> real, threshold: real)
    ensures var r := FrameStep(s, input, scorer, threshold);
      |r.calls| == |s.calls| + 1 && r.calls[..|s.calls|] == s.calls
    ensures var r := FrameStep(s, input, scorer, threshold);
      input.None? ==> r.calls[|s.calls|] == EndSequence && r.sinceReset == []
    ensures var r := FrameStep(s, input, scorer, threshold);
      input.Some? ==>
        var call := r.calls[|s.calls|];
        var score := scorer(s.sinceReset + [input.value.motion]);
        call.Put? && call.frame == input.value
        && (call.status == MOTION <==> score >= threshold)
        && (call.status == MOTION ==> call.score == score)
        && (call.status == STILL ==> call.score == -1.0)
  {
    var r := FrameStep(s, input, scorer, threshold);
    assert r.calls[..|s.calls|] == s.calls;
  }

  /** The frames put on the labelled queue, in order. */
  function PutFrames(calls: seq<LabelledCall>): seq<Camera.Frame>
  {
    if |calls| == 0 then []
    else
      var last := calls[|calls| - 1];
      PutFrames(calls[..|calls| - 1]) + (if last.Put? then [last.frame] else [])
  }

  /** The frames the input queue delivered, in order. */
  function Delivered(inputs: seq<Option<Camera.Frame>>): seq<Camera.Frame>
  {
    if |inputs| == 0 then []
    else
      var last := inputs[|inputs| - 1];
      Delivered(inputs[..|inputs| - 1]) + (if last.Some? then [last.value] else [])
  }

  /** The motion vectors of a run of frames. */
  function Motions(frames: seq<Camera.Frame>): (r: seq<seq<byte>>)
    ensures |r| == |frames|
  {
    if |frames| == 0 then [] else Motions(frames[..|frames| - 1]) + [frames[|frames| - 1].motion]
  }

  /** Every delivered frame is put on the labelled queue exactly once, in
      the order it arrived, and nothing else is. */
  lemma {:induction false} HandleFramesPutsEveryFrame(s: FrameState, inputs: seq<Option<Camera.Frame>>, scorer: seq<seq<byte>> -> real, threshold: real)
    ensures PutFrames(HandleFrames(s, inputs, scorer, threshold).calls) == PutFrames(s.calls) + Delivered(inputs)
  {
    if |inputs| > 0 {
      var init := inputs[..|inputs| - 1];
      var before := HandleFrames(s, init, scorer, threshold);
      HandleFramesPutsEveryFrame(s, init, scorer, threshold);
      var after := HandleFrames(s, inputs, scorer, threshold);
      assert after.calls[..|after.calls| - 1] == before.calls;
    }
  }

  /** Every call on the labelled queue is well labelled: MOTION carries a
      score that reached the threshold, STILL carries -1.0. */
  predicate Labelled(calls: seq<LabelledCall>, threshold: real)
  {
    forall i :: 0 <= i < |calls| && calls[i].Put? ==>
      (calls[i].status == MOTION ==> calls[i].score >= threshold)
      && (calls[i].status == STILL ==> calls[i].score == -1.0)
  }

  lemma {:induction false} HandleFramesLabelled(s: FrameState, inputs: seq<Option<Camera.Frame>>, scorer: seq<seq<byte>> -> real, threshold: real)
    requires Labelled(s.calls, threshold)
    ensures Labelled(HandleFrames(s, inputs, scorer, threshold).calls, threshold)
  {
    if |inputs| > 0 {
      var init := inputs[..|inputs| - 1];
      HandleFramesLabelled(s, init, scorer, threshold);
      var before := HandleFrames(s, init, scorer, threshold);
      FrameDecision(before, inputs[|inputs| - 1], scorer, threshold);
    }
  }

  /** After an Empty the motion filter starts afresh: what it has seen is
      exactly the frames delivered since the last Empty. */
  lemma {:induction false} EmptyResets(s: FrameState, a: seq<Option<Camera.Frame>>, b: seq<Option<Camera.Frame>>, scorer: seq<seq<byte>> -> real, threshold: real)
    requires forall i :: 0 <= i < |b| ==> b[i].Some?
    ensures HandleFrames(s, a + [None] + b, scorer, threshold).sinceReset == Motions(Delivered(b))
    decreases |b|
  {
    var w := a + [None] + b;
    if |b| == 0 {
      assert w[..|w| - 1] == a;
    } else {
      var b' := b[..|b| - 1];
      assert w[..|w| - 1] == a + [None] + b';
      EmptyResets(s, a, b', scorer, threshold);
    }
  }

  // ---------------------------------------------------------------------------
  // BY_EVENT
  // ---------------------------------------------------------------------------

  /** The output queue, the paths on disk, and whether the usher process
      has died from an exception. */
  datatype EventState = EventState(output: seq<EventData>, paths: set<string>, halted: bool)

  /** The classifier on the frames of the event in `dir`: `detect` is the
      classifier applied to the frame stored at an offset of that event's
      clip. */
  function DetectIn(detect: (string, nat) -> Detection, dir: string): nat -> Detection
  {
    (o: nat) => detect(dir, o)
  }

  /** Whether `_process_event` confirms the event: it returns normally with
      True. */
  predicate Confirmed(e: EventData, f: Fraction, detect: (string, nat) -> Detection)
    requires f.den > 0
  {
    var r := EventResult(e.rawRasterFileIndices, f, DetectIn(detect, e.dir));
    r.Ok? && r.value.0
  }

  /** Whether `_process_event` rejects the event: it returns normally with
      False. */
  predicate Rejected(e: EventData, f: Fraction, detect: (string, nat) -> Detection)
    requires f.den > 0
  {
    var r := EventResult(e.rawRasterFileIndices, f, DetectIn(detect, e.dir));
    r.Ok? && !r.value.0
  }

  /** One pass of the `_handle_input_events` loop. `None` is an `Empty`
      from the input queue, which is logged and skipped; an exception from
      `_process_event` ends the loop and the process. */
  function EventStep(s: EventState, input: Option<EventData>, f: Fraction, detect: (string, nat) -> Detection): EventState
    requires f.den > 0
  {
    if s.halted || input.None? then s
    else
      var e := input.value;
      var r := EventResult(e.rawRasterFileIndices, f, DetectIn(detect, e.dir));
      if r.Err? then s.(halted := true)
      else if r.value.0 then s.(output := s.output + [e])
      else s.(paths := DeleteEvent(s.paths, e.dir))
  }

  function HandleEvents(s: EventState, inputs: seq<Option<EventData>>, f: Fraction, detect: (string, nat) -> Detection): EventState
    requires f.den > 0
  {
    if |inputs| == 0 then s
    else EventStep(HandleEvents(s, inputs[..|inputs| - 1], f, detect), inputs[|inputs| - 1], f, detect)
  }

  /** A rejected event is deleted and not forwarded; a confirmed event is
      forwarded and nothing is deleted. */
  lemma KeepOrDelete(s: EventState, e: EventData, f: Fraction, detect: (string, nat) -> Detection)
    requires f.den > 0 && !s.halted
    ensures Rejected(e, f, detect) ==>
      EventStep(s, Some(e), f, detect) == s.(paths := DeleteEvent(s.paths, e.dir))
    ensures Confirmed(e, f, detect) ==>
      EventStep(s, Some(e), f, detect) == s.(output := s.output + [e])
  {
  }

  /** Everything forwarded was confirmed, and only events that were read
      are forwarded. */
  lemma {:induction false} ForwardedConfirmed(s: EventState, inputs: seq<Option<EventData>>, f: Fraction, detect: (string, nat) -> Detection)
    requires f.den > 0
    ensures var r := HandleEvents(s, inputs, f, detect);
      s.output <= r.output
      && forall j :: |s.output| <= j < |r.output| ==> Confirmed(r.output[j], f, detect) && Some(r.output[j]) in inputs
  {
    if |inputs| > 0 {
      var init := inputs[..|inputs| - 1];
      ForwardedConfirmed(s, init, f, detect);
      var before := HandleEvents(s, init, f, detect);
      var r := HandleEvents(s, inputs, f, detect);
      forall j | |s.output| <= j < |r.output|
        ensures Confirmed(r.output[j], f, detect) && Some(r.output[j]) in inputs
      {
        if j < |before.output| {
          assert r.output[j] == before.output[j];
          assert Some(r.output[j]) in init;
        } else {
          assert inputs[|inputs| - 1] == Some(r.output[j]);
        }
      }
    }
  }

  /** Nothing is ever created on disk, and a path disappears only when it
      lies in the `event_` directory of an event that was rejected. */
  lemma {:induction false} OnlyRejectedDeleted(s: EventState, inputs: seq<Option<EventData>>, f: Fraction, detect: (string, nat) -> Detection)
    requires f.den > 0
    ensures HandleEvents(s, inputs, f, detect).paths <= s.paths
    ensures forall p :: p in s.paths && p !in HandleEvents(s, inputs, f, detect).paths ==>
      exists i :: (0 <= i < |inputs| && inputs[i].Some? && Rejected(inputs[i].value, f, detect)
        && StartsWith(Basename(inputs[i].value.dir), "event_") && Within(p, inputs[i].value.dir))
  {
    if |inputs| > 0 {
      var n := |inputs|;
      var init := inputs[..n - 1];
      OnlyRejectedDeleted(s, init, f, detect);
      var before := HandleEvents(s, init, f, detect);
      var r := HandleEvents(s, inputs, f, detect);
      forall p | p in s.paths && p !in r.paths
        ensures exists i :: (0 <= i < n && inputs[i].Some? && Rejected(inputs[i].value, f, detect)
          && StartsWith(Basename(inputs[i].value.dir), "event_") && Within(p, inputs[i].value.dir))
      {
        if p in before.paths {
          var e := inputs[n - 1].value;
          assert Rejected(e, f, detect) && StartsWith(Basename(e.dir), "event_") && Within(p, e.dir);
        } else {
          var i :| 0 <= i < n - 1 && init[i].Some? && Rejected(init[i].value, f, detect)
            && StartsWith(Basename(init[i].value.dir), "event_") && Within(p, init[i].value.dir);
          assert inputs[i] == init[i];
        }
      }
    }
  }

  /** The per-inference time that is logged: the elapsed time divided by
      the number of inferences, or 0 when none ran. */
  function AvgTime(elapsed: real, nr: nat): (r: real)
    ensures nr == 0 ==> r == 0.0
    ensures nr > 0 ==> r * (nr as real) == elapsed
  {
    if nr > 0 then elapsed / nr as real else 0.0
  }

  // ---------------------------------------------------------------------------
  // The filter
  // ---------------------------------------------------------------------------

  class Filter {
    const mode: FilterMode
    /** `sotv_threshold` of the motion settings. */
    const threshold: real
    /** `detector_fraction` of the processing settings. */
    const fraction: Fraction
    /** The calls made on the motion-labelled queue. */
    var labelled: seq<LabelledCall>
    /** The motion vectors the motion filter has scored since its last
        reset. */
    var sinceReset: seq<seq<byte>>
    /** The animal frames the motion-labelled queue hands out; it fills
        them from `labelled` by code not modelled here. */
    var animalFrames: seq<Camera.Frame>
    /** The output queue of confirmed events. */
    var output: seq<EventData>
    /** The paths on disk. */
    var paths: set<string>
    /** Whether the BY_EVENT usher has died from an exception. */
    var halted: bool

    /** `Filter.__init__`: the source decides the mode. */
    constructor (source: Source, threshold: real, fraction: Fraction, paths: set<string>)
      requires fraction.den > 0
      ensures mode == ModeFor(source) && this.threshold == threshold && this.fraction == fraction
      ensures labelled == [] && sinceReset == [] && animalFrames == [] && output == []
      ensures this.paths == paths && !halted
    {
      mode := ModeFor(source);
      this.threshold := threshold;
      this.fraction := fraction;
      labelled := [];
      sinceReset := [];
      animalFrames := [];
      output := [];
      this.paths := paths;
      halted := false;
    }

    /** `Filter.get`: BY_FRAME reads the motion-labelled queue, BY_EVENT the
        output queue; None stands for an empty queue (where the source
        blocks). Items leave in the order they were queued. */
    method Get() returns (r: Option<Item>)
      modifies this`animalFrames, this`output
      ensures mode == BY_FRAME ==> (output == old(output)
        && (old(animalFrames) == [] ==> r.None? && animalFrames == [])
        && (old(animalFrames) != [] ==> r == Some(AnimalFrame(old(animalFrames)[0])) && animalFrames == old(animalFrames)[1..]))
      ensures mode == BY_EVENT ==> (animalFrames == old(animalFrames)
        && (old(output) == [] ==> r.None? && output == [])
        && (old(output) != [] ==> r == Some(AnimalEvent(old(output)[0])) && output == old(output)[1..]))
    {
      if mode == BY_FRAME {
        if animalFrames == [] {
          return None;
        }
        r := Some(AnimalFrame(animalFrames[0]));
        animalFrames := animalFrames[1..];
      } else {
        if output == [] {
          return None;
        }
        r := Some(AnimalEvent(output[0]));
        output := output[1..];
      }
    }

    /** `_handle_input_frames` over a run of inputs. */
    method HandleInputFrames(inputs: seq<Option<Camera.Frame>>, scorer: seq<seq<byte>> -> real)
      requires mode == BY_FRAME
      modifies this`labelled, this`sinceReset
      ensures FrameState(labelled, sinceReset)
        == HandleFrames(FrameState(old(labelled), old(sinceReset)), inputs, scorer, threshold)
    {
      ghost var s0 := FrameState(labelled, sinceReset);
      var i := 0;
      while i < |inputs|
        invariant i <= |inputs|
        invariant FrameState(labelled, sinceReset) == HandleFrames(s0, inputs[..i], scorer, threshold)
      {
        assert inputs[..i + 1][..i] == inputs[..i];
        match inputs[i] {
          case None =>
            labelled := labelled + [EndSequence];
            sinceReset := [];
          case Some(frame) =>
            sinceReset := sinceReset + [frame.motion];
            var score := scorer(sinceReset);
            if score >= threshold {
              labelled := labelled + [Put(frame, score, MOTION)];
            } else {
              labelled := labelled + [Put(frame, -1.0, STILL)];
            }
        }
        i := i + 1;
      }
      assert inputs[..i] == inputs;
    }

    /** `_handle_input_events` over a run of inputs; `detect` is the
        classifier on a stored frame of an event directory. */
    method HandleInputEvents(inputs: seq<Option<EventData>>, detect: (string, nat) -> Detection)
      requires mode == BY_EVENT && fraction.den > 0
      modifies this`output, this`paths, this`halted
      ensures EventState(output, paths, halted)
        == HandleEvents(EventState(old(output), old(paths), old(halted)), inputs, fraction, detect)
    {
      ghost var s0 := EventState(output, paths, halted);
      var i := 0;
      while i < |inputs|
        invariant i <= |inputs|
        invariant EventState(output, paths, halted) == HandleEvents(s0, inputs[..i], fraction, detect)
      {
        assert inputs[..i + 1][..i] == inputs[..i];
        if !halted && inputs[i].Some? {
          var event := inputs[i].value;
          var result := ProcessEvent(event.rawRasterFileIndices, fraction, DetectIn(detect, event.dir));
          if result.Err? {
            halted := true;
          } else if result.value.0 {
            output := output + [event];
          } else {
            paths := DeleteEvent(paths, event.dir);
          }
        }
        i := i + 1;
      }
      assert inputs[..i] == inputs;
    }
  }
}
