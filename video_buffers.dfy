/** The in-memory ring buffers of the capture pipeline.

    Each buffer owns two bounded circular byte streams, an active one that
    the camera (or the motion thread) appends to and an inactive one that is
    drained to a file on disk. Switching exchanges the two by reference.
    A start-of-event flush writes only a pre-roll tail of the inactive
    stream; where that tail begins differs per buffer kind. */
module VideoBuffers {
  import opened Common

  /** Seconds of history each ring buffer is sized for. */
  const BUFF_SZ_S: nat := 10
  /** Target H.264 bitrate in bits per second (buffer sizing only). */
  const BITRATE: nat := 17000000
  /** Bytes of one `struct.pack("d", x)`. */
  const DOUBLE_SIZE: nat := 8
  /** Bytes of one motion vector entry: x as int8, y as int8, sad as uint16. */
  const MOTION_ENTRY_SIZE: nat := 4

  // ---------------------------------------------------------------------------
  // Sizing
  // ---------------------------------------------------------------------------

  /** Motion vector grid dimensions (rows, cols) for a resolution: one
      macroblock per 16x16 pixels, with one extra column. */
  function CalcRowsCols(width: nat, height: nat): (rc: (nat, nat))
    ensures 16 * rc.0 - 16 < height <= 16 * rc.0
    ensures rc.1 >= 1 && 16 * (rc.1 - 1) - 16 < width <= 16 * (rc.1 - 1)
  {
    ((height + 15) / 16, (width + 15) / 16 + 1)
  }

  /** Bytes of one motion record: two packed doubles and the vector grid. */
  function CalcMotionElementSize(rows: nat, cols: nat): nat
  {
    2 * DOUBLE_SIZE + rows * cols * MOTION_ENTRY_SIZE
  }

  /** `int(w * h * YUV_BYTE_PER_PIX * BUFF_SZ_S * framerate)` with 1.5 bytes per pixel. */
  function RawBufferSize(width: nat, height: nat, framerate: nat): nat
  {
    width * height * 3 * BUFF_SZ_S * framerate / 2
  }

  /** `(BITRATE * BUFF_SZ_S) // 8`. */
  function H264BufferSize(): nat
  {
    BITRATE * BUFF_SZ_S / 8
  }

  // ---------------------------------------------------------------------------
  // Pre-roll positions
  // ---------------------------------------------------------------------------

  function CeilDiv(a: nat, b: nat): nat
    requires b > 0
  {
    (a + b - 1) / b
  }

  /** `max(0, int(pos - element_size * context_len_s * framerate))`, where
      `span` is ten times the subtracted byte count (the context length being
      given in tenths of a second). */
  function MotionContextPos(pos: nat, span: nat): (r: nat)
    ensures r <= pos
    ensures r == Max(0, pos - CeilDiv(span, 10))
  {
    if 10 * pos >= span then (10 * pos - span) / 10 else 0
  }

  /** `int(round(max(0, nframes - context_length_s * framerate)))`, where
      `span` is ten times the context frame count (the context length being
      given in tenths of a second); ties round to even. */
  function ContextIndex(nframes: nat, span: nat): (r: nat)
    ensures r <= nframes
    ensures 10 * nframes <= span ==> r == 0
    ensures 10 * nframes > span ==> -5 <= 10 * r - (10 * nframes - span) <= 5
    ensures 10 * nframes > span && (10 * r - (10 * nframes - span) == 5 || 10 * r - (10 * nframes - span) == -5) ==> r % 2 == 0
    ensures span == 0 ==> r == nframes
  {
    if 10 * nframes <= span then 0
    else
      RoundHalfEvenWithin(10 * nframes - span, 10, nframes);
      assert span == 0 ==> RoundHalfEven(10 * nframes - span, 10) == nframes by {
        if span == 0 { RoundHalfEvenExact(nframes, 10); }
      }
      RoundHalfEven(10 * nframes - span, 10)
  }

  // ---------------------------------------------------------------------------
  // Circular streams
  // ---------------------------------------------------------------------------

  /** Frame types the camera encoder reports for each write. */
  datatype FrameType = Frame | KeyFrame | SpsHeader | MotionData

  /** One entry of the frame side list: where a frame starts in the stream. */
  datatype FrameMeta = FrameMeta(position: nat, frameType: FrameType)

  /** The most recent `capacity` elements of `s`. */
  function Newest<T>(s: seq<T>, capacity: nat): seq<T>
  {
    if |s| <= capacity then s else s[|s| - capacity..]
  }

  /** What a bounded stream keeps: a suffix of what was written, as long as
      the capacity allows. */
  lemma NewestIsSuffix<T>(s: seq<T>, capacity: nat)
    ensures |Newest(s, capacity)| == Min(|s|, capacity)
    ensures Newest(s, capacity) == s[|s| - |Newest(s, capacity)|..]
  {
  }

  /** Keeping the newest bytes after every write is the same as keeping the
      newest bytes of everything written. */
  lemma NewestOfAppend<T>(s: seq<T>, b: seq<T>, capacity: nat)
    ensures Newest(Newest(s, capacity) + b, capacity) == Newest(s + b, capacity)
  {
    if |s| > capacity {
      var w := s + b;
      var k := w[|s| - capacity..];
      assert Newest(s, capacity) + b == k;
      assert |k| == capacity + |b|;
      assert k[|k| - capacity..] == w[|w| - capacity..];
    }
  }

  /** The frame entries that survive dropping the first `drop` bytes, with
      their positions rebased to the new start of the stream. */
  function Evict(frames: seq<FrameMeta>, drop: nat): (r: seq<FrameMeta>)
    ensures |r| <= |frames|
  {
    if frames == [] then []
    else
      var rest := Evict(frames[1..], drop);
      var f := frames[0];
      if f.position >= drop then [FrameMeta(f.position - drop, f.frameType)] + rest else rest
  }

  ghost predicate FramesWithin(frames: seq<FrameMeta>, size: nat)
  {
    forall k :: 0 <= k < |frames| ==> frames[k].position <= size
  }

  /** A bounded circular byte stream keeping the most recent `capacity`
      bytes written since it was last cleared, with a read/write position
      and a side list of where each written frame starts. */
  class CircularStream {
    const capacity: nat
    var data: seq<byte>
    var pos: nat
    var frames: seq<FrameMeta>

    ghost predicate Valid()
      reads this
    {
      |data| <= capacity &&
      pos <= |data| &&
      FramesWithin(frames, |data|)
    }

    ghost predicate AtEnd()
      reads this
    {
      pos == |data|
    }

    constructor (capacity: nat)
      ensures Valid() && AtEnd() && this.capacity == capacity
      ensures data == [] && frames == []
    {
      this.capacity := capacity;
      data, pos, frames := [], 0, [];
    }

    /** Appends `b` as one write; when a frame type is given (a stream fed by
        the camera encoder) the write is also recorded as a frame entry. The
        oldest bytes beyond the capacity are dropped. Returns the count written. */
    method Write(b: seq<byte>, frame: Option<FrameType>) returns (n: nat)
      requires Valid() && AtEnd()
      modifies this
      ensures Valid() && AtEnd() && n == |b|
      ensures data == Newest(old(data) + b, capacity)
      ensures var added := if frame.Some? then [FrameMeta(|old(data)|, frame.value)] else [];
              frames == Evict(old(frames) + added, |old(data)| + |b| - |data|)
    {
      var added := if frame.Some? then [FrameMeta(|data|, frame.value)] else [];
      var grown := data + b;
      var kept := Newest(grown, capacity);
      NewestIsSuffix(grown, capacity);
      var drop := |grown| - |kept|;
      FramesWithinAppend(frames, added, |data|, |grown|);
      EvictWithin(frames + added, drop, |grown|);
      frames := Evict(frames + added, drop);
      data := kept;
      pos := |data|;
      n := |b|;
    }

    method Seek(p: nat)
      requires Valid() && p <= |data|
      modifies this`pos
      ensures Valid() && pos == p
    {
      pos := p;
    }

    /** Reads some non-empty run of bytes from the position on, or nothing at
        the end of the stream. */
    method Read1() returns (chunk: seq<byte>)
      requires Valid()
      modifies this`pos
      ensures Valid()
      ensures old(pos) < |data| ==> |chunk| > 0
      ensures old(pos) <= pos && chunk == data[old(pos)..pos]
    {
      if pos == |data| {
        chunk := [];
      } else {
        var k :| pos < k <= |data|;
        chunk := data[pos..k];
        pos := k;
      }
    }

    /** Seek to 0 and truncate: the stream is empty again. */
    method Clear()
      modifies this
      ensures Valid() && AtEnd()
      ensures data == [] && frames == []
    {
      data, pos, frames := [], 0, [];
    }
  }

  lemma FramesWithinAppend(frames: seq<FrameMeta>, added: seq<FrameMeta>, size: nat, grown: nat)
    requires FramesWithin(frames, size) && size <= grown
    requires forall k :: 0 <= k < |added| ==> added[k].position <= grown
    ensures FramesWithin(frames + added, grown)
  {
    var all := frames + added;
    forall k | 0 <= k < |all|
      ensures all[k].position <= grown
    {
      if k < |frames| {
        assert all[k] == frames[k];
      } else {
        assert all[k] == added[k - |frames|];
      }
    }
  }

  lemma EvictWithin(frames: seq<FrameMeta>, drop: nat, size: nat)
    requires FramesWithin(frames, size) && drop <= size
    ensures FramesWithin(Evict(frames, drop), size - drop)
  {
    if frames != [] {
      assert FramesWithin(frames[1..], size) by {
        forall k | 0 <= k < |frames[1..]| ensures frames[1..][k].position <= size {
          assert frames[1..][k] == frames[k + 1];
        }
      }
      EvictWithin(frames[1..], drop, size);
    }
  }

  /** The read1 loop of `write_inactive_stream`: opens `file` for appending and
      copies the stream from its position to the end, run by run. */
  method DrainTo(s: CircularStream, disk: Disk, file: string) returns (disk': Disk)
    requires s.Valid()
    modifies s`pos
    ensures s.Valid() && s.AtEnd()
    ensures disk' == Append(disk, file, s.data[old(s.pos)..])
  {
    ghost var start := s.pos;
    ghost var data := s.data;
    disk' := Append(disk, file, []);
    ghost var copied: seq<byte> := [];
    var chunk := s.Read1();
    while chunk != []
      invariant s.Valid() && s.data == data && start <= s.pos
      invariant copied + chunk == data[start..s.pos]
      invariant chunk == [] ==> s.AtEnd()
      invariant disk' == Append(disk, file, copied)
      decreases |data| - s.pos + |chunk|
    {
      AppendTwice(disk, file, copied, chunk);
      disk' := Append(disk', file, chunk);
      copied := copied + chunk;
      ghost var before := s.pos;
      chunk := s.Read1();
      assert data[start..s.pos] == data[start..before] + data[before..s.pos];
    }
    assert s.pos == |data|;
    assert copied + [] == data[start..];
    assert copied == data[start..];
  }

  // ---------------------------------------------------------------------------
  // What each flush writes
  // ---------------------------------------------------------------------------

  /** Index (into `frames`) of the SPS-header frame nearest to `target` among
      `frames[from..]`; ties go to the lowest index, as `min` keeps the first
      of equal keys. */
  function ClosestSpsFrom(frames: seq<FrameMeta>, target: nat, from: nat): (r: Option<nat>)
    requires from <= |frames|
    ensures r.None? <==> forall i :: from <= i < |frames| ==> frames[i].frameType != SpsHeader
    ensures r.Some? ==> from <= r.value < |frames| && frames[r.value].frameType == SpsHeader
    ensures r.Some? ==> forall i :: from <= i < |frames| && frames[i].frameType == SpsHeader ==>
                          Dist(r.value, target) <= Dist(i, target)
    ensures r.Some? ==> forall i :: from <= i < r.value && frames[i].frameType == SpsHeader ==>
                          Dist(r.value, target) < Dist(i, target)
    decreases |frames| - from
  {
    if from == |frames| then None
    else
      var rest := ClosestSpsFrom(frames, target, from + 1);
      if frames[from].frameType == SpsHeader && (rest.None? || Dist(from, target) <= Dist(rest.value, target))
      then Some(from)
      else rest
  }

  function Dist(a: int, b: int): nat
  {
    if a <= b then b - a else a - b
  }

  function ClosestSps(frames: seq<FrameMeta>, target: nat): Option<nat>
  {
    ClosestSpsFrom(frames, target, 0)
  }

  /** Bytes a motion buffer flush appends for an inactive stream holding
      `data` (its position at the end). */
  function MotionFlush(data: seq<byte>, isStart: bool, span: nat): seq<byte>
  {
    if isStart then data[MotionContextPos(|data|, span)..] else data
  }

  /** Bytes an H.264 buffer flush appends, or None when it opens no file
      (a start flush with no SPS header frame buffered). */
  function H264Flush(data: seq<byte>, frames: seq<FrameMeta>, isStart: bool, span: nat): Option<seq<byte>>
    requires FramesWithin(frames, |data|)
  {
    if !isStart then Some(data)
    else
      match ClosestSps(frames, ContextIndex(|frames|, span))
      case None => None
      case Some(j) => Some(data[frames[j].position..])
  }

  /** Bytes a raw buffer flush appends, or None when the context frame index
      is out of range (the IndexError of `lst_frames[context_index]`). */
  function RawFlush(data: seq<byte>, frames: seq<FrameMeta>, isStart: bool, span: nat): Option<seq<byte>>
    requires FramesWithin(frames, |data|)
  {
    if !isStart then Some(data)
    else
      var ci := ContextIndex(|frames|, span);
      if ci < |frames| then Some(data[frames[ci].position..]) else None
  }

  function AppendSome(disk: Disk, file: string, b: Option<seq<byte>>): Disk
  {
    if b.Some? then Append(disk, file, b.value) else disk
  }

  /** The motion-vector record `_process_queue` writes: a packed timestamp,
      a packed score and the vector bytes. */
  function MotionRecord(stamp: seq<byte>, score: seq<byte>, vectors: seq<byte>): seq<byte>
  {
    stamp + score + vectors
  }

  lemma MotionRecordLayout(stamp: seq<byte>, score: seq<byte>, vectors: seq<byte>, rows: nat, cols: nat)
    requires |stamp| == DOUBLE_SIZE && |score| == DOUBLE_SIZE
    requires |vectors| == rows * cols * MOTION_ENTRY_SIZE
    ensures var r := MotionRecord(stamp, score, vectors);
            |r| == CalcMotionElementSize(rows, cols) &&
            r[..8] == stamp && r[8..16] == score && r[16..] == vectors
  {
  }

  // ---------------------------------------------------------------------------
  // The motion-vector buffer
  // ---------------------------------------------------------------------------

  class MotionRAMBuffer {
    var active: CircularStream
    var inactive: CircularStream
    const rows: nat
    const cols: nat
    const framerate: nat
    const contextDs: nat
    const thresholdSotv: real
    /** Bytes of the vector grid of one record. */
    const vectorBytes: nat
    /** Bytes of one record. */
    const elementSize: nat
    /** Size of each stream: ten seconds of records. */
    const capacity: nat
    /** Ten times the pre-roll byte count `element_size * context_len_s * framerate`. */
    const contextSpan: nat
    /** Every `motionDivisor`-th record is scored. */
    const motionDivisor: nat := 1
    var bytesWritten: nat
    var isMotion: bool
    var countFrames: nat

    ghost predicate Valid()
      reads this, active, inactive
    {
      active != inactive &&
      active.Valid() && inactive.Valid() && active.AtEnd() &&
      active.capacity == capacity && inactive.capacity == capacity &&
      elementSize == 2 * DOUBLE_SIZE + vectorBytes &&
      active.frames == [] && inactive.frames == []
    }

    /** Valid, with the inactive stream at rest (its position at its end). */
    ghost predicate Idle()
      reads this, active, inactive
    {
      Valid() && inactive.AtEnd()
    }

    constructor (width: nat, height: nat, framerate: nat, contextDs: nat, thresholdSotv: real)
      ensures Idle() && fresh(active) && fresh(inactive)
      ensures (rows, cols) == CalcRowsCols(width, height)
      ensures vectorBytes == rows * cols * MOTION_ENTRY_SIZE && elementSize == CalcMotionElementSize(rows, cols)
      ensures capacity == elementSize * BUFF_SZ_S * framerate
      ensures contextSpan == elementSize * contextDs * framerate
      ensures active.data == [] && inactive.data == []
      ensures !isMotion && countFrames == 0 && bytesWritten == 0
      ensures this.framerate == framerate && this.contextDs == contextDs
      ensures this.thresholdSotv == thresholdSotv
    {
      var rc := CalcRowsCols(width, height);
      rows, cols := rc.0, rc.1;
      vectorBytes := rc.0 * rc.1 * MOTION_ENTRY_SIZE;
      elementSize := CalcMotionElementSize(rc.0, rc.1);
      capacity := CalcMotionElementSize(rc.0, rc.1) * BUFF_SZ_S * framerate;
      contextSpan := CalcMotionElementSize(rc.0, rc.1) * contextDs * framerate;
      this.framerate := framerate;
      this.contextDs := contextDs;
      this.thresholdSotv := thresholdSotv;
      var size := CalcMotionElementSize(rc.0, rc.1) * BUFF_SZ_S * framerate;
      active := new CircularStream(size);
      inactive := new CircularStream(size);
      bytesWritten, isMotion, countFrames := 0, false, 0;
    }

    /** One record of `_process_queue`: score the vectors when this frame is
        due (`filtered` is the motion filter's output for it), update
        `isMotion` from the score, and append the record to the active stream.
        `pack` is `struct.pack("d", .)`; `now` is the clock reading. */
    method ProcessRecord(vectors: seq<byte>, now: real, filtered: real, pack: real -> seq<byte>)
      requires Valid()
      requires |vectors| == vectorBytes
      requires forall x :: |pack(x)| == DOUBLE_SIZE
      modifies this, active
      ensures Valid() && active == old(active) && inactive == old(inactive)
      ensures unchanged(inactive)
      ensures var computed := old(countFrames) % motionDivisor == 0;
              var score := if computed then filtered else -1.0;
              active.data == Newest(old(active.data) + MotionRecord(pack(now), pack(score), vectors), capacity) &&
              isMotion == (if computed then filtered > thresholdSotv else old(isMotion))
      ensures countFrames == old(countFrames) + 1
      ensures bytesWritten == old(bytesWritten) + elementSize
    {
      var score: real := -1.0;
      if countFrames % motionDivisor == 0 {
        score := filtered;
        isMotion := score > thresholdSotv;
      }
      countFrames := countFrames + 1;
      var record := MotionRecord(pack(now), pack(score), vectors);
      var n := active.Write(record, None);
      bytesWritten := bytesWritten + n;
    }

    method SwitchStream()
      requires Idle()
      modifies this
      ensures Idle()
      ensures active == old(inactive) && inactive == old(active)
      ensures unchanged(active, inactive)
    {
      active, inactive := inactive, active;
    }

    /** Appends the inactive stream to `file` (from the pre-roll position
        before the current one, `tell()`, when `isStart`, else from 0), then
        clears it. At rest the current position is the end of the data. */
    method WriteInactiveStream(disk: Disk, file: string, isStart: bool) returns (disk': Disk)
      requires Idle()
      modifies inactive
      ensures Idle() && unchanged(active)
      ensures disk' == Append(disk, file, MotionFlush(old(inactive.data), isStart, contextSpan))
      ensures inactive.data == []
    {
      if isStart {
        var currentPos := inactive.pos;
        var contextPos := MotionContextPos(currentPos, contextSpan);
        inactive.Seek(contextPos);
      } else {
        inactive.Seek(0);
      }
      disk' := DrainTo(inactive, disk, file);
      ClearInactiveStream();
    }

    method ClearInactiveStream()
      requires Valid()
      modifies inactive
      ensures Idle() && unchanged(active)
      ensures inactive.data == []
    {
      inactive.Clear();
    }
  }

  // ---------------------------------------------------------------------------
  // The encoded-video and raw-frame buffers
  // ---------------------------------------------------------------------------

  /** A camera-fed ring buffer pair. One class serves both specialisations:
      `WriteInactiveH264` is the H.264 buffer's flush and `WriteInactiveRaw`
      the raw buffer's. */
  class VideoRAMBuffer {
    var active: CircularStream
    var inactive: CircularStream
    const framerate: nat
    const contextDs: nat
    /** Ten times the context frame count `context_length_s * framerate`. */
    const contextSpan: nat
    var bytesWritten: nat

    ghost predicate Valid()
      reads this, active, inactive
    {
      active != inactive &&
      active.Valid() && inactive.Valid() && active.AtEnd() &&
      inactive.capacity == active.capacity
    }

    ghost predicate Idle()
      reads this, active, inactive
    {
      Valid() && inactive.AtEnd()
    }

    constructor (size: nat, framerate: nat, contextDs: nat)
      ensures Idle() && fresh(active) && fresh(inactive)
      ensures active.capacity == size && active.data == [] && inactive.data == []
      ensures this.framerate == framerate && this.contextDs == contextDs && bytesWritten == 0
      ensures contextSpan == contextDs * framerate
    {
      this.framerate := framerate;
      this.contextDs := contextDs;
      contextSpan := contextDs * framerate;
      active := new CircularStream(size);
      inactive := new CircularStream(size);
      bytesWritten := 0;
    }

    /** The H.264 buffer: ten seconds at the target bitrate. */
    constructor H264(framerate: nat, contextDs: nat)
      ensures Idle() && fresh(active) && fresh(inactive)
      ensures active.capacity == H264BufferSize() && active.data == [] && inactive.data == []
      ensures this.framerate == framerate && this.contextDs == contextDs && bytesWritten == 0
      ensures contextSpan == contextDs * framerate
    {
      this.framerate := framerate;
      this.contextDs := contextDs;
      contextSpan := contextDs * framerate;
      active := new CircularStream(H264BufferSize());
      inactive := new CircularStream(H264BufferSize());
      bytesWritten := 0;
    }

    /** The raw buffer: ten seconds of YUV420 frames of the given dimensions. */
    constructor Raw(framerate: nat, contextDs: nat, width: nat, height: nat)
      ensures Idle() && fresh(active) && fresh(inactive)
      ensures active.capacity == RawBufferSize(width, height, framerate)
      ensures active.data == [] && inactive.data == []
      ensures this.framerate == framerate && this.contextDs == contextDs && bytesWritten == 0
      ensures contextSpan == contextDs * framerate
    {
      this.framerate := framerate;
      this.contextDs := contextDs;
      contextSpan := contextDs * framerate;
      active := new CircularStream(RawBufferSize(width, height, framerate));
      inactive := new CircularStream(RawBufferSize(width, height, framerate));
      bytesWritten := 0;
    }

    /** The camera encoder's write of one frame of type `frameType`. */
    method Write(buf: seq<byte>, frameType: FrameType)
      requires Valid()
      modifies this, active
      ensures Valid() && active == old(active) && inactive == old(inactive)
      ensures unchanged(inactive)
      ensures active.data == Newest(old(active.data) + buf, active.capacity)
      ensures bytesWritten == old(bytesWritten) + |buf|
    {
      var n := active.Write(buf, Some(frameType));
      bytesWritten := bytesWritten + n;
    }

    method SwitchStream()
      requires Idle()
      modifies this
      ensures Idle()
      ensures active == old(inactive) && inactive == old(active)
      ensures unchanged(active, inactive)
    {
      active, inactive := inactive, active;
    }

    /** The shared drain: appends the inactive stream from its current
        position to `file`, then clears it. */
    method WriteInactiveStream(disk: Disk, file: string) returns (disk': Disk)
      requires Valid()
      modifies inactive
      ensures Idle() && unchanged(active)
      ensures disk' == Append(disk, file, old(inactive.data[inactive.pos..]))
      ensures inactive.data == [] && inactive.frames == []
    {
      disk' := DrainTo(inactive, disk, file);
      ClearInactiveStream();
    }

    method ClearInactiveStream()
      requires Valid()
      modifies inactive
      ensures Idle() && unchanged(active)
      ensures inactive.data == [] && inactive.frames == []
    {
      inactive.Clear();
    }

    /** The H.264 flush. A start flush begins at the SPS-header frame nearest
        to the context frame index and opens no file when there is none; any
        other flush writes everything. The inactive stream is cleared. */
    method WriteInactiveH264(disk: Disk, file: string, isStart: bool) returns (disk': Disk)
      requires Idle()
      modifies inactive
      ensures Idle() && unchanged(active)
      ensures disk' == AppendSome(disk, file,
                H264Flush(old(inactive.data), old(inactive.frames), isStart, contextSpan))
      ensures inactive.data == [] && inactive.frames == []
    {
      if isStart {
        var frames := inactive.frames;
        var contextIndex := ContextIndex(|frames|, contextSpan);
        var closest := ClosestSps(frames, contextIndex);
        if closest.Some? {
          inactive.Seek(frames[closest.value].position);
          disk' := WriteInactiveStream(disk, file);
        } else {
          disk' := disk;
          ClearInactiveStream();
        }
      } else {
        inactive.Seek(0);
        disk' := WriteInactiveStream(disk, file);
      }
    }

    /** The raw flush. A start flush begins at the frame at the context index;
        when that index is out of range the flush fails with nothing written
        and the stream left as it was. Any other flush writes everything. */
    method WriteInactiveRaw(disk: Disk, file: string, isStart: bool) returns (r: Result<Disk, string>)
      requires Idle()
      modifies inactive
      ensures Valid() && unchanged(active)
      ensures var b := RawFlush(old(inactive.data), old(inactive.frames), isStart, contextSpan);
              if b.Some? then
                r == Ok(Append(disk, file, b.value)) && Idle() &&
                inactive.data == [] && inactive.frames == []
              else
                r.Err? && unchanged(inactive)
    {
      if isStart {
        var frames := inactive.frames;
        var contextIndex := ContextIndex(|frames|, contextSpan);
        if contextIndex >= |frames| {
          return Err("IndexError: list index out of range");
        }
        inactive.Seek(frames[contextIndex].position);
        var d := WriteInactiveStream(disk, file);
        r := Ok(d);
      } else {
        inactive.Seek(0);
        var d := WriteInactiveStream(disk, file);
        r := Ok(d);
      }
    }
  }
}
