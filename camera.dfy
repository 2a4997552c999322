/** The camera front end: the `Synchroniser` pairs each motion-vector output
    of the H.264 encoder with the most recent JPEG image and queues the pair
    as a `Frame`; the `ImageReader` passes on only buffers that begin with the
    JPEG start-of-image marker 0xFF 0xD8 (ITU-T T.81, Table B.1). */
module Camera {
  import opened Common

  /** `Frame`: a JPEG image, the motion vectors that arrived after it and the
      capture time. */
  datatype Frame = Frame(image: seq<byte>, motion: seq<byte>, timestamp: int)

  /** One call into the synchroniser, in the order the camera makes them. */
  datatype Tick = MotionTick(vectors: seq<byte>, at: int) | ImageTick(jpeg: seq<byte>)

  /** The JPEG start-of-image marker. */
  const SOI: seq<byte> := [0xFF, 0xD8]

  /** The image of the last image tick, if there was one. */
  function LastImage(ticks: seq<Tick>): (r: Option<seq<byte>>)
    ensures r.None? <==> forall i :: 0 <= i < |ticks| ==> ticks[i].MotionTick?
  {
    if |ticks| == 0 then None
    else if ticks[|ticks| - 1].ImageTick? then Some(ticks[|ticks| - 1].jpeg)
    else LastImage(ticks[..|ticks| - 1])
  }

  /** The frames the synchroniser queues for a run of ticks: one per motion
      tick that has an image before it, carrying that image. */
  function FramesOf(ticks: seq<Tick>): (r: seq<Frame>)
  {
    if |ticks| == 0 then []
    else
      var before := ticks[..|ticks| - 1];
      var t := ticks[|ticks| - 1];
      if t.MotionTick? && LastImage(before).Some? then
        FramesOf(before) + [Frame(LastImage(before).value, t.vectors, t.at)]
      else FramesOf(before)
  }

  /** Before the first image tick nothing is queued. */
  lemma {:induction false} NoImageNoFrames(ticks: seq<Tick>)
    requires forall i :: 0 <= i < |ticks| ==> ticks[i].MotionTick?
    ensures FramesOf(ticks) == []
  {
    if |ticks| > 0 {
      var before := ticks[..|ticks| - 1];
      assert forall i :: 0 <= i < |before| ==> before[i] == ticks[i];
      NoImageNoFrames(before);
    }
  }

  /** Later ticks only append to the queue: frames leave it in the order of
      the motion ticks that made them. */
  lemma {:induction false} FramesOfPrefix(a: seq<Tick>, b: seq<Tick>)
    ensures FramesOf(a) <= FramesOf(a + b)
    decreases |b|
  {
    if |b| > 0 {
      var ab := a + b;
      var b' := b[..|b| - 1];
      assert ab[..|ab| - 1] == a + b';
      FramesOfPrefix(a, b');
    } else {
      assert a + b == a;
    }
  }

  /** How many of the ticks are motion ticks. */
  function MotionCount(ticks: seq<Tick>): (r: nat)
    ensures r <= |ticks|
    ensures r == |ticks| <==> forall i :: 0 <= i < |ticks| ==> ticks[i].MotionTick?
  {
    if |ticks| == 0 then 0
    else
      var before := ticks[..|ticks| - 1];
      assert forall i :: 0 <= i < |before| ==> before[i] == ticks[i];
      MotionCount(before) + (if ticks[|ticks| - 1].MotionTick? then 1 else 0)
  }

  /** There are never more frames than motion ticks, nor than ticks. */
  lemma {:induction false} FramesOfCount(ticks: seq<Tick>)
    ensures |FramesOf(ticks)| <= MotionCount(ticks) <= |ticks|
  {
    if |ticks| > 0 {
      FramesOfCount(ticks[..|ticks| - 1]);
    }
  }

  /** Once the first image has arrived, every motion tick queues exactly one
      frame: the frames are as many as the motion ticks after the first image
      tick. */
  lemma {:induction false} FramesAfterImage(pre: seq<Tick>, jpeg: seq<byte>, post: seq<Tick>)
    requires forall i :: 0 <= i < |pre| ==> pre[i].MotionTick?
    ensures |FramesOf(pre + [ImageTick(jpeg)] + post)| == MotionCount(post)
    decreases |post|
  {
    var ticks := pre + [ImageTick(jpeg)] + post;
    if |post| == 0 {
      assert ticks[..|ticks| - 1] == pre;
      NoImageNoFrames(pre);
    } else {
      var post' := post[..|post| - 1];
      var before := pre + [ImageTick(jpeg)] + post';
      assert ticks[..|ticks| - 1] == before;
      assert before[|pre|].ImageTick?;
      assert post[..|post| - 1] == post';
      FramesAfterImage(pre, jpeg, post');
    }
  }

  /** A multiprocessing queue of frames; `taken` records what consumers have
      removed so far. */
  class FrameQueue {
    var items: seq<Frame>
    ghost var taken: seq<Frame>

    constructor ()
      ensures items == [] && taken == []
    {
      items := [];
      taken := [];
    }

    /** `Queue.get` without blocking: None stands for an empty queue. */
    method Get() returns (r: Option<Frame>)
      modifies this
      ensures old(items) == [] ==> r.None? && items == [] && taken == old(taken)
      ensures old(items) != [] ==>
        (r == Some(old(items)[0]) && items == old(items)[1..] && taken == old(taken) + [old(items)[0]])
      ensures taken + items == old(taken) + old(items)
    {
      if items == [] {
        return None;
      }
      r := Some(items[0]);
      taken := taken + [items[0]];
      items := items[1..];
    }
  }

  class Synchroniser {
    var lastImage: Option<seq<byte>>
    const output: FrameQueue
    /** Every tick so far. */
    ghost var ticks: seq<Tick>

    /** The queue holds exactly the frames the ticks made, minus those
        already taken, and `_last_image` is the last image ticked. */
    ghost predicate Valid()
      reads this, output
    {
      output.taken + output.items == FramesOf(ticks) && lastImage == LastImage(ticks)
    }

    constructor (output: FrameQueue)
      requires output.items == [] && output.taken == []
      ensures this.output == output && lastImage.None? && ticks == []
      ensures Valid()
    {
      lastImage := None;
      this.output := output;
      ticks := [];
    }

    /** `tick_movement_frame` (called by `MovementAnalyser.analyse`): queue
        the vectors with the last image, or drop them when no image has
        arrived yet. `now` is the time `time()` returns. */
    method TickMovementFrame(motion: seq<byte>, now: int)
      requires Valid()
      modifies this`ticks, output
      ensures Valid()
      ensures ticks == old(ticks) + [MotionTick(motion, now)]
      ensures old(lastImage).None? ==> output.items == old(output.items)
      ensures old(lastImage).Some? ==>
        output.items == old(output.items) + [Frame(old(lastImage).value, motion, now)]
      ensures output.taken == old(output.taken)
    {
      ticks := ticks + [MotionTick(motion, now)];
      assert ticks[..|ticks| - 1] == old(ticks);
      if lastImage.None? {
        return;
      }
      output.items := output.items + [Frame(lastImage.value, motion, now)];
    }

    /** `tick_image_frame`: remember the image; nothing is queued. */
    method TickImageFrame(image: seq<byte>)
      requires Valid()
      modifies this`ticks, this`lastImage
      ensures Valid()
      ensures ticks == old(ticks) + [ImageTick(image)]
      ensures lastImage == Some(image)
    {
      ticks := ticks + [ImageTick(image)];
      assert ticks[..|ticks| - 1] == old(ticks);
      lastImage := Some(image);
    }
  }

  class ImageReader {
    const sync: Synchroniser

    constructor (sync: Synchroniser)
      ensures this.sync == sync
    {
      this.sync := sync;
    }

    /** `ImageReader.write`: a buffer is passed to the synchroniser iff it
        starts with the start-of-image marker. */
    method Write(buf: seq<byte>)
      requires sync.Valid()
      modifies sync`ticks, sync`lastImage
      ensures sync.Valid()
      ensures StartsWith(buf, SOI) ==> sync.ticks == old(sync.ticks) + [ImageTick(buf)] && sync.lastImage == Some(buf)
      ensures !StartsWith(buf, SOI) ==> sync.ticks == old(sync.ticks) && sync.lastImage == old(sync.lastImage)
    {
      if StartsWith(buf, SOI) {
        sync.TickImageFrame(buf);
      }
    }
  }

  /** `Camera` on the hardware path: the synchroniser and the camera share
      one output queue. */
  class Camera {
    const output: FrameQueue
    const sync: Synchroniser

    ghost predicate Valid()
      reads this, sync, output
    {
      sync.output == output && sync.Valid()
    }

    constructor ()
      ensures Valid() && fresh(output) && fresh(sync)
      ensures output.items == [] && sync.ticks == []
    {
      var queue := new FrameQueue();
      output := queue;
      sync := new Synchroniser(queue);
    }

    /** `Camera.get`: the oldest queued frame, None when the queue is empty
        (where the source blocks or raises Empty). Frames leave in the order
        the synchroniser made them. */
    method Get() returns (r: Option<Frame>)
      requires Valid()
      modifies output
      ensures Valid()
      ensures r.Some? ==> |old(output.taken)| < |FramesOf(sync.ticks)| && r.value == FramesOf(sync.ticks)[|old(output.taken)|]
      ensures r.None? <==> old(output.items) == []
      ensures r.Some? ==> output.taken == old(output.taken) + [r.value] && output.items == old(output.items)[1..]
      ensures r.None? ==> output.taken == old(output.taken) && output.items == old(output.items)
    {
      r := output.Get();
      if r.Some? {
        assert output.taken + output.items == old(output.taken) + old(output.items);
        assert FramesOf(sync.ticks)[|old(output.taken)|] == (output.taken + output.items)[|old(output.taken)|];
      }
    }
  }
}
