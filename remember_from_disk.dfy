/** Indexing a recorded event (`EventRememberer.dir_to_event`): the raw clip
    `clip.dat` of an event directory is a run of records, each a 4-byte header
    (two little-endian uint16 values, height then width) followed by a YUV420
    payload of `int(width * height * 1.5)` bytes. The indexer keeps the offset
    of every header it reads. */
module RememberFromDisk {
  import opened Common

  /** `EventData`: the header offsets of the raw frames, the event directory
      and the time the event was read. */
  datatype EventData = EventData(rawRasterFileIndices: seq<nat>, dir: string, startTimestamp: int)

  const HEADER_SIZE: nat := 4

  /** The uint16 stored little-endian at `b[i..i + 2]`. */
  function U16(b: seq<byte>, i: nat): (r: nat)
    requires i + 2 <= |b|
    ensures r < 65536
  {
    b[i] as nat + 256 * b[i + 1] as nat
  }

  /** `int(width * height * YUV_BYTE_PER_PIX)` with 1.5 bytes per pixel. */
  function PayloadSize(height: nat, width: nat): nat
  {
    width * height * 3 / 2
  }

  /** Where the record whose header is at `pos` ends: after its header and
      its declared payload, or at the end of the file when it is cut short. */
  function NextRecord(data: seq<byte>, pos: nat): (r: nat)
    requires pos + HEADER_SIZE <= |data|
    ensures pos < r <= |data|
  {
    Min(pos + HEADER_SIZE + PayloadSize(U16(data, pos), U16(data, pos + 2)), |data|)
  }

  /** What the read loop finds from `pos` on: the header offsets, and
      whether it stops at a header of one to three bytes (which numpy cannot
      split into two uint16 values). */
  datatype Scan = Scan(offsets: seq<nat>, badHeader: bool)

  function ScanFrom(data: seq<byte>, pos: nat): (r: Scan)
    requires pos <= |data|
    ensures forall k :: 0 <= k < |r.offsets| ==> pos <= r.offsets[k] && r.offsets[k] + HEADER_SIZE <= |data|
    ensures r.badHeader ==> |data| - pos > 0
    decreases |data| - pos
  {
    if pos == |data| then Scan([], false)
    else if |data| - pos < HEADER_SIZE then Scan([], true)
    else
      var rest := ScanFrom(data, NextRecord(data, pos));
      Scan([pos] + rest.offsets, rest.badHeader)
  }

  /** One step of the scan: a complete header at `pos` is indexed, and the
      scan goes on at the end of its record. */
  lemma ScanUnfold(data: seq<byte>, pos: nat)
    requires pos + HEADER_SIZE <= |data|
    ensures ScanFrom(data, pos).offsets == [pos] + ScanFrom(data, NextRecord(data, pos)).offsets
    ensures ScanFrom(data, pos).badHeader == ScanFrom(data, NextRecord(data, pos)).badHeader
  {
  }

  /** The whole file. */
  function Index(data: seq<byte>): Scan
  {
    ScanFrom(data, 0)
  }

  /** The first header sits at offset 0. */
  lemma IndexStartsAtZero(data: seq<byte>)
    requires |data| >= HEADER_SIZE
    ensures |Index(data).offsets| > 0 && Index(data).offsets[0] == 0
  {
  }

  /** An empty file has no records and is not malformed. */
  lemma IndexEmpty()
    ensures Index([]) == Scan([], false)
  {
  }

  /** Each header after the first follows the previous record's header and
      declared payload exactly. */
  lemma {:induction false} ScanStep(data: seq<byte>, pos: nat, i: nat)
    requires pos <= |data|
    requires i + 1 < |ScanFrom(data, pos).offsets|
    ensures var o := ScanFrom(data, pos).offsets;
      o[i + 1] == o[i] + HEADER_SIZE + PayloadSize(U16(data, o[i]), U16(data, o[i] + 2))
    decreases |data| - pos
  {
    var next := NextRecord(data, pos);
    var rest := ScanFrom(data, next);
    if i == 0 {
      assert ScanFrom(data, pos).offsets[1] == rest.offsets[0];
      assert rest.offsets[0] == next;
      assert next < |data|;
    } else {
      ScanStep(data, next, i - 1);
    }
  }

  /** Offsets are strictly increasing. */
  lemma IndexIncreasing(data: seq<byte>, i: nat, j: nat)
    requires i < j < |Index(data).offsets|
    ensures Index(data).offsets[i] < Index(data).offsets[j]
    decreases j - i
  {
    ScanStep(data, 0, j - 1);
    if i < j - 1 {
      IndexIncreasing(data, i, j - 1);
    }
  }

  /** A last record whose payload is shorter than its header declares is
      still indexed: only the header read is checked for emptiness. */
  lemma TruncatedRecordIndexed(data: seq<byte>)
    requires |data| >= HEADER_SIZE
    requires HEADER_SIZE + PayloadSize(U16(data, 0), U16(data, 2)) > |data|
    ensures Index(data) == Scan([0], false)
  {
    assert NextRecord(data, 0) == |data|;
    assert ScanFrom(data, |data|) == Scan([], false);
  }

  /** A file of one to three bytes ends in a header numpy cannot split. */
  lemma ShortFileMalformed(data: seq<byte>)
    requires 0 < |data| < HEADER_SIZE
    ensures Index(data).badHeader && Index(data).offsets == []
  {
  }

  /** The raw clip of an event directory. */
  function ClipPath(dir: string): string
  {
    JoinPath(dir, "clip.dat")
  }

  /** The offsets `dir_to_event` keeps for a clip, or the error that escapes
      it. The file is read by `f.read(4)` for each header and once for each
      payload; `failsAt` names the read call (counting from 0) that raises
      IOError, if any. An IOError is logged and the offsets gathered before it
      are kept; a header of one to three bytes makes numpy raise ValueError,
      which escapes. */
  function IndexUntil(data: seq<byte>, failsAt: Option<nat>): (r: Result<seq<nat>, string>)
    ensures r.Ok? ==> r.value <= Index(data).offsets
    ensures r.Err? ==> Index(data).badHeader
  {
    var s := Index(data);
    if failsAt.Some? && failsAt.value <= 2 * |s.offsets| then Ok(s.offsets[..(failsAt.value + 1) / 2])
    else if s.badHeader then Err("ValueError")
    else Ok(s.offsets)
  }

  /** Without a read error, a well-formed clip is indexed completely; an
      IOError at any read keeps a prefix of the complete index. */
  lemma IndexUntilComplete(data: seq<byte>)
    requires !Index(data).badHeader
    ensures IndexUntil(data, None) == Ok(Index(data).offsets)
    ensures forall k :: IndexUntil(data, Some(k)).Ok?
  {
  }

  /** A complete header at `at` adds `at` to the offsets read so far, and
      the scan goes on from the next record. */
  lemma ScanAdvance(data: seq<byte>, at: nat, whole: seq<nat>, offsets: seq<nat>)
    requires at + HEADER_SIZE <= |data|
    requires whole == offsets + ScanFrom(data, at).offsets
    ensures whole == (offsets + [at]) + ScanFrom(data, NextRecord(data, at)).offsets
    ensures whole[..|offsets| + 1] == offsets + [at]
    ensures ScanFrom(data, at).badHeader == ScanFrom(data, NextRecord(data, at)).badHeader
  {
    ScanUnfold(data, at);
    assert whole == (offsets + [at]) + ScanFrom(data, NextRecord(data, at)).offsets;
  }

  /** The read loop of `dir_to_event` over the contents of `clip.dat`. */
  method ReadOffsets(data: seq<byte>, failsAt: Option<nat>) returns (r: Result<seq<nat>, string>)
    ensures r == IndexUntil(data, failsAt)
  {
    ghost var whole := Index(data).offsets;
    var offsets: seq<nat> := [];
    var calls := 0;
    // b = f.read(4)
    if failsAt == Some(calls) {
      assert whole[..0] == [];
      return Ok(offsets);
    }
    var at := 0;
    var pos := Min(at + HEADER_SIZE, |data|);
    var b := data[at..pos];
    calls := calls + 1;
    while b != []
      invariant at <= pos <= |data| && pos == Min(at + HEADER_SIZE, |data|)
      invariant b == data[at..pos]
      invariant whole == offsets + ScanFrom(data, at).offsets
      invariant Index(data).badHeader == ScanFrom(data, at).badHeader
      invariant calls == 2 * |offsets| + 1
      invariant failsAt.Some? ==> failsAt.value >= calls
      decreases |data| - at
    {
      if |b| < HEADER_SIZE {
        assert ScanFrom(data, at) == Scan([], true);
        assert whole == offsets;
        return Err("ValueError");
      }
      var height, width := U16(b, 0), U16(b, 2);
      var next := Min(pos + PayloadSize(height, width), |data|);
      assert next == NextRecord(data, at);
      ScanAdvance(data, at, whole, offsets);
      offsets := offsets + [at];
      // f.read(payload)
      if failsAt == Some(calls) {
        assert (calls + 1) / 2 == |offsets|;
        return Ok(offsets);
      }
      calls := calls + 1;
      // b = f.read(4)
      if failsAt == Some(calls) {
        assert (calls + 1) / 2 == |offsets|;
        return Ok(offsets);
      }
      at := next;
      pos := Min(at + HEADER_SIZE, |data|);
      b := data[at..pos];
      calls := calls + 1;
    }
    assert at == |data|;
    assert ScanFrom(data, at) == Scan([], false);
    assert whole == offsets;
    r := Ok(offsets);
  }

  /** `dir_to_event`: the offsets of the records in the event's `clip.dat`
      together with the event directory itself. A missing clip is an IOError
      at `open`, which leaves the offsets empty. */
  method DirToEvent(disk: Disk, dir: string, now: int, failsAt: Option<nat>)
    returns (r: Result<EventData, string>)
    ensures r.Ok? ==> r.value.dir == dir && r.value.startTimestamp == now
    ensures ClipPath(dir) !in disk ==> r == Ok(EventData([], dir, now))
    ensures ClipPath(dir) in disk ==>
      (r.Ok? <==> IndexUntil(disk[ClipPath(dir)], failsAt).Ok?) &&
      (r.Ok? ==> r.value.rawRasterFileIndices == IndexUntil(disk[ClipPath(dir)], failsAt).value)
  {
    var path := ClipPath(dir);
    if path !in disk {
      return Ok(EventData([], dir, now));
    }
    var offsets := ReadOffsets(disk[path], failsAt);
    if offsets.Err? {
      return Err(offsets.error);
    }
    r := Ok(EventData(offsets.value, dir, now));
  }
}
