# DynAIkonTrap capture-and-confirm pipeline, modelled in Dafny

DynAIkonTrap is a camera trap for the Raspberry Pi. It runs two stages:

- **Capture.** The camera feeds three in-memory ring buffers: H.264 video, raw YUV420 frames and motion vectors. When the motion filter sees movement, the recorder flushes the buffers into a fresh `event_<n>` directory, including a pre-roll of context before the motion. It flushes again periodically while the motion lasts, and once more after a trail-off period. It then hands the directory on.
- **Confirm.** The event indexer reads the raw clip `clip.dat` of each directory and records where every frame header sits. The filter runs the animal/human classifier on a few of those frames. It starts at the middle frame and spirals outwards; a human is a veto and an animal accepts. Rejected events are deleted, and only directories named `event_*` may be deleted.

Smaller helpers are modelled as well:

- The camera synchroniser, which pairs each motion-vector output with the last JPEG image.
- The JPEG start-of-image gate.
- The sensor-caption bucketing behind the WebVTT and JSON captions.
- The web view's directory listing: which entries it shows, in what order, with which icon, and how `pretty_size` prints a file size.

The modules follow the program's files:

| module | file | form |
|---|---|---|
| `Common` | shared helpers | bytes, `Option`/`Result`, decimal printing and parsing, paths, the disk as a map from path to bytes, round-half-to-even |
| `VideoBuffers` | `video_buffers.py` | a `CircularStream` class (a bounded byte stream plus its frame side list), the `MotionRAMBuffer` and `VideoRAMBuffer` classes, and pure functions for what each flush writes |
| `EventLog` | the bookkeeping of `camera_to_disk.py`'s `record` | the log of `empty_all_buffers` calls, one run per event |
| `CameraToDisk` | `camera_to_disk.py` | `DirectoryMaker`, the raw frame size rounding, and the `CameraToDisk` class whose methods model `empty_all_buffers` and the `record` loop |
| `RememberFromDisk` | `filtering/remember_from_disk.py` | the record scan of `clip.dat` and the `dir_to_event` read loop |
| `Event` | `filtering/event.py` | candidate selection, the spiral order, the walk with its verdict, guarded deletion |
| `Filtering` | `filtering/filtering.py` | mode selection, the BY_FRAME and BY_EVENT loops as folds, and the `Filter` class whose methods run them |
| `Camera` | `camera.py` | the `Synchroniser`, `ImageReader`, `FrameQueue` and `Camera` classes |
| `Comms` | `comms.py` | caption bucketing, the JSON captions and the WebVTT cues |
| `HtmlGenerator` | `server/html_generator.py` | `pretty_size` and the entry rules of `process_dir` |

The model makes these representation choices:

- **Time** is counted in tenths of a second.
- **The motion flag** is an input trace: the set of times at which it is set.
- **The classifier** is a function from a stored frame offset to `(is_animal, is_human)`.
- **`detector_fraction`** is an exact ratio `num / den`.
- **Float rounding** (`round` and `numpy.round`) is integer arithmetic that rounds half to even.

Each record of `clip.dat` is a 4-byte header followed by the frame: height and width as little-endian uint16, read back at `filtering/remember_from_disk.py:140-145`. The index of a clip is built from these headers.

The code and its documentation disagree on the JSON sensor captions: the docstring of `generate_sensor_json` (`comms.py:178`) calls the `end` frame number inclusive, but the code writes the bucket's `stop` (`comms.py:194`), one past its last frame, so `end` is exclusive. The model follows the code (`Comms.LoggedExactly`: `end = stop`).

The recorder's time model: the outer loop of `record` polls the motion flag once a second; inside an event the loop polls every 0.2 s and empties the buffers once more than 0.75 * BUFF_SZ_S (7.5 s) has passed since the latest flush, which it first sees 7.6 s after that flush. Every `empty_all_buffers` call is kept in a ghost log of the recorder, so the contracts of `record` speak about the flushes made, in order.

Three views of the file system are kept apart on purpose, as in the source: the recorder's disk (a map from file path to bytes) receives the flushed clips; `DirectoryMaker` keeps the set of directories it has seen or made, as `os.path.exists` and `os.makedirs` do; the filter works on a set of paths, from which deletion removes an event directory and everything below it. No property here relates them.

`filtering/event.py` and `filtering/filtering.py` each contain `_process_event` and `_delete_event`, with the same logic (`filtering/filtering.py:168-219` and `filtering/filtering.py:231-245`). The model has one definition of each (`Event.ProcessEvent`, `Event.DeleteEvent`), used by both stages.

## Model

| member | source | states |
|---|---|---|
| VideoBuffers.CalcRowsCols | DynAIkonTrap/video_buffers.py:225-237 | rows is the height divided by 16, rounded up; cols is the width divided by 16, rounded up, plus one |
| VideoBuffers.MotionRecordLayout | DynAIkonTrap/video_buffers.py:239-251 | a record is an 8-byte timestamp, an 8-byte score and the vector bytes, and is exactly `calc_motion_element_size` bytes long |
| VideoBuffers.MotionContextPos | DynAIkonTrap/video_buffers.py:185-194 | the motion pre-roll position is at most the current position and equals `max(0, pos - element_size * context * framerate)`, with the product rounded up before subtracting (`int` truncates a positive difference; a negative one yields 0 through `max`) |
| VideoBuffers.ContextIndex | DynAIkonTrap/video_buffers.py:346-354 | the context frame index is at most the frame count; it is 0 when the context covers every frame; otherwise it is within half a frame of `nframes - context * framerate`, ties going to even; with no context it is the frame count |
| VideoBuffers.NewestIsSuffix | DynAIkonTrap/video_buffers.py:279-284 | a bounded stream keeps exactly the last `min(len, capacity)` bytes written |
| VideoBuffers.NewestOfAppend | DynAIkonTrap/video_buffers.py:289-295 | trimming to capacity after every write equals trimming once after all writes |
| VideoBuffers.CircularStream.constructor | DynAIkonTrap/video_buffers.py:279-284 | a new stream of the given capacity is empty, with no frames |
| VideoBuffers.CircularStream.Write | DynAIkonTrap/video_buffers.py:289-295 | a write keeps the newest `capacity` bytes of old data plus the buffer, records the frame at the old end, and drops frames whose bytes were evicted |
| VideoBuffers.CircularStream.Seek | DynAIkonTrap/video_buffers.py:374 | seeking within the data moves only the position |
| VideoBuffers.CircularStream.Read1 | DynAIkonTrap/video_buffers.py:311-316 | `read1` returns the bytes from the old position to the new one, and something whenever the position is not at the end |
| VideoBuffers.CircularStream.Clear | DynAIkonTrap/video_buffers.py:319-322 | seek to 0 and clear leave the stream empty with no frames |
| VideoBuffers.DrainTo | DynAIkonTrap/video_buffers.py:311-316 | the `read1` loop appends exactly the bytes from the position to the end to the file, and leaves the stream at its end |
| VideoBuffers.ClosestSpsFrom | DynAIkonTrap/video_buffers.py:356-373 | there is no result iff no SPS-header frame exists; otherwise the result is an SPS frame whose distance to the context index is minimal, and strictly smaller than that of every earlier SPS frame (ties go to the lowest index) |
| VideoBuffers.MotionRAMBuffer.constructor | DynAIkonTrap/video_buffers.py:84-121 | grid size and element size come from the resolution; each stream holds `BUFF_SZ_S` seconds of records; both streams start empty; `is_motion` starts false |
| VideoBuffers.MotionRAMBuffer.ProcessRecord | DynAIkonTrap/video_buffers.py:145-166 | the active stream gains timestamp, score (-1.0 when not computed) and vectors; `is_motion` becomes `score > threshold` only when the score is computed; the frame counter and byte count grow; the inactive stream is unchanged |
| VideoBuffers.MotionRAMBuffer.SwitchStream | DynAIkonTrap/video_buffers.py:218-223 | active and inactive are exchanged and no byte changes, so a second switch restores the first state |
| VideoBuffers.MotionRAMBuffer.WriteInactiveStream | DynAIkonTrap/video_buffers.py:178-211 | on a buffer at rest, the file gains the whole inactive stream, or on a start flush its tail from the pre-roll position before the current position; the inactive stream is then empty and the active one untouched |
| VideoBuffers.MotionRAMBuffer.ClearInactiveStream | DynAIkonTrap/video_buffers.py:213-216 | the inactive stream is emptied; the active one is untouched |
| VideoBuffers.VideoRAMBuffer.constructor | DynAIkonTrap/video_buffers.py:270-287 | both streams have the given size and start empty; the byte count is 0 |
| VideoBuffers.VideoRAMBuffer.H264 | DynAIkonTrap/video_buffers.py:328-331 | the H.264 buffer's streams hold `(BITRATE * BUFF_SZ_S) // 8` bytes |
| VideoBuffers.VideoRAMBuffer.Raw | DynAIkonTrap/video_buffers.py:393-396 | the raw buffer's streams hold `int(w * h * 1.5 * BUFF_SZ_S * framerate)` bytes |
| VideoBuffers.VideoRAMBuffer.Write | DynAIkonTrap/video_buffers.py:289-295 | a camera write appends to the active stream only and adds its length to the byte count |
| VideoBuffers.VideoRAMBuffer.SwitchStream | DynAIkonTrap/video_buffers.py:297-303 | active and inactive are exchanged and no byte changes |
| VideoBuffers.VideoRAMBuffer.WriteInactiveStream | DynAIkonTrap/video_buffers.py:305-317 | the file gains the inactive bytes from the current position on; the inactive stream is then empty and the active one untouched |
| VideoBuffers.VideoRAMBuffer.ClearInactiveStream | DynAIkonTrap/video_buffers.py:319-322 | the inactive stream is emptied; the active one is untouched |
| VideoBuffers.VideoRAMBuffer.WriteInactiveH264 | DynAIkonTrap/video_buffers.py:333-388 | a non-start flush writes everything; a start flush writes from the nearest SPS frame, or writes nothing and discards the buffer when there is none; the inactive stream always ends empty |
| VideoBuffers.VideoRAMBuffer.WriteInactiveRaw | DynAIkonTrap/video_buffers.py:398-424 | a non-start flush writes everything; a start flush writes from the frame at the context index, and fails with nothing written and the stream kept when that index does not exist |
| CameraToDisk.EventNameInjective | DynAIkonTrap/camera_to_disk.py:79-85 | different counters give different `event_<n>` names |
| CameraToDisk.EventIndexOfEventPath | DynAIkonTrap/camera_to_disk.py:79-85 | the counter can be read back from an event path |
| CameraToDisk.DirectoryMaker.constructor | DynAIkonTrap/camera_to_disk.py:56-63 | the counter starts at 0 under the given base directory |
| CameraToDisk.DirectoryMaker.NewEvent | DynAIkonTrap/camera_to_disk.py:79-85 | the name is `"event_" + counter`, the path is base joined with it, and the counter grows by exactly one |
| CameraToDisk.DirectoryMaker.GetEvent | DynAIkonTrap/camera_to_disk.py:65-77 | the returned path did not exist before and exists after; it is `event_<n>` for the first `n` from the old counter on whose path did not exist, and the counter moves just past it |
| CameraToDisk.RoundUp32 | DynAIkonTrap/camera_to_disk.py:115-116 | a rounded dimension is a multiple of 32, at least the dimension and less than 32 above it |
| CameraToDisk.RawFrameDimsValues | DynAIkonTrap/camera_to_disk.py:106-116 | human or fast detection gives 320x320 raw frames (from 300x300); otherwise 416x416 |
| CameraToDisk.NewBuffers | DynAIkonTrap/camera_to_disk.py:131-147 | three fresh buffers with six distinct fresh streams, the raw one sized for the rounded frame dimensions |
| CameraToDisk.CameraToDisk.constructor | DynAIkonTrap/camera_to_disk.py:91-155 | the recorder starts with an empty queue, the given disk, a fresh directory maker and raw buffers sized for `RawFrameDims` |
| CameraToDisk.CameraToDisk.SwitchAll | DynAIkonTrap/camera_to_disk.py:251-254 | all three buffers are switched before any is drained |
| CameraToDisk.CameraToDisk.EmptyAllBuffers | DynAIkonTrap/camera_to_disk.py:244-264 | after switching all three, the disk gains the H.264 flush in clip.h264, then the raw flush in clip.dat, then the motion flush in clip_vect.dat, all with the same start flag; a failing raw flush leaves the motion buffer undrained and returns an error |
| CameraToDisk.CameraToDisk.DrainAll | DynAIkonTrap/camera_to_disk.py:256-264 | the three inactive streams are drained into their three files in this order, stopping at a failing raw flush |
| CameraToDisk.CameraToDisk.DrainH264 | DynAIkonTrap/camera_to_disk.py:256-258 | clip.h264 gains the H.264 flush, and the stream ends empty |
| CameraToDisk.CameraToDisk.DrainRaw | DynAIkonTrap/camera_to_disk.py:259-261 | clip.dat gains the raw flush, or the call fails with the disk unchanged |
| CameraToDisk.CameraToDisk.DrainMotion | DynAIkonTrap/camera_to_disk.py:262-264 | clip_vect.dat gains the motion flush, and the stream ends empty |
| CameraToDisk.CameraToDisk.FlushAll | DynAIkonTrap/camera_to_disk.py:244-264 | each `empty_all_buffers` call is appended to the flush log with its directory, start flag and time, and leaves the buffers at rest for the next call |
| CameraToDisk.CameraToDisk.InEvent | DynAIkonTrap/camera_to_disk.py:193-202 | the loop polls every 0.2 s; it flushes only when more than 0.75 * BUFF_SZ_S has passed since the latest flush, at the first poll where that holds, so one flush period (7.6 s) after it, and before the maximum length; every poll before the end saw motion under the maximum length, and the loop stops at the first poll that did not; the log gains exactly the periodic flushes; a failing flush stops it at once |
| CameraToDisk.CameraToDisk.EndEvent | DynAIkonTrap/camera_to_disk.py:213-230 | the final flush is logged; after it succeeds the event directory is queued once and a fresh directory is made; on an error nothing is queued |
| CameraToDisk.CameraToDisk.CaptureEvent | DynAIkonTrap/camera_to_disk.py:186-230 | the log gains exactly this event's flushes, the first always the start flush at the time motion was seen; when all succeed they are one start flush, the periodic flushes and one final flush a context length after the in-event loop ended, the event is well formed against the motion trace, and the directory is queued exactly once |
| CameraToDisk.CameraToDisk.RecordEvent | DynAIkonTrap/camera_to_disk.py:184-230 | one captured event extends the recorder's bookkeeping: the log gains its flushes, starting with the start flush at the poll that saw motion; a completed event is appended to the events, begins at that poll and ends at its final flush |
| CameraToDisk.CameraToDisk.Record | DynAIkonTrap/camera_to_disk.py:157-231 | the queue holds each recorded event's directory once, each one newly made; every event is well formed against the motion trace; events follow one another in time; the log gains the events' flushes in order, then those of an event cut short; the events begin exactly at the polls of the reference schedule `PollStarts`, so every once-a-second poll that sees motion outside an earlier event begins one, and no other poll does |
| CameraToDisk.CameraToDisk.RecordLoop | DynAIkonTrap/camera_to_disk.py:182-231 | the outer loop keeps the recorder's bookkeeping, logs every flush, and begins events only at the scheduled polls, stopping at the first failing flush |
| CameraToDisk.CameraToDisk.Poll | DynAIkonTrap/camera_to_disk.py:183-231 | one pass waits one second and records an event exactly when the motion flag is set at that poll; the event it begins is the next one of the schedule |
| EventLog.PeriodicFlushes | DynAIkonTrap/camera_to_disk.py:198-200 | every periodic flush is a non-start flush into the event directory at its time |
| EventLog.EventFlushes | DynAIkonTrap/camera_to_disk.py:186-216 | an event's flushes are one start flush first, then only non-start flushes into the same directory, the last one the final flush |
| EventLog.Paths | DynAIkonTrap/camera_to_disk.py:218 | the queue of events lists each event's directory in order |
| EventLog.StartTimes | DynAIkonTrap/camera_to_disk.py:187 | lists each event's start time in order |
| EventLog.LastFlushTime | DynAIkonTrap/camera_to_disk.py:198-200 | after `k` periodic flushes the latest flush came `k` flush periods after the start |
| EventLog.PeriodicSpacing | DynAIkonTrap/camera_to_disk.py:196-202 | each periodic flush comes more than 0.75 * BUFF_SZ_S, and at most one 0.2 s poll more, after the flush before it, and before the maximum event length |
| EventLog.PeriodicTimesSnoc | DynAIkonTrap/camera_to_disk.py:198-200 | a flush one flush period after the latest one, within the maximum length, keeps the periodic schedule valid |
| EventLog.EndPoll | DynAIkonTrap/camera_to_disk.py:193-202 | the reference end of the in-event loop is a poll where motion is off or the maximum length is reached, and every poll before it continues the loop |
| EventLog.EndPollUnique | DynAIkonTrap/camera_to_disk.py:193-202 | a run that saw motion under the maximum length at every poll and stopped at the next one stops where the reference says |
| EventLog.InEventInit | DynAIkonTrap/camera_to_disk.py:187-189 | the in-event loop starts at the start flush, with no periodic flush |
| EventLog.InEventPoll | DynAIkonTrap/camera_to_disk.py:193-202 | a poll with motion under the maximum length and no flush due moves the loop on by 0.2 s and keeps its state |
| EventLog.InEventFlush | DynAIkonTrap/camera_to_disk.py:198-202 | a poll with a flush due flushes exactly one flush period after the latest flush; the loop then moves on, or stops at a failing flush |
| EventLog.InEventRun | DynAIkonTrap/camera_to_disk.py:193-216 | a loop that stopped without a failing flush, followed by the trail-off wait, makes a well formed event |
| EventLog.FinalIsRunEnd | DynAIkonTrap/camera_to_disk.py:193-216 | a well formed event made as many polls as the reference says, and its final flush is one context length after the reference end |
| EventLog.RunDetermined | DynAIkonTrap/camera_to_disk.py:186-216 | two well formed events that began together polled and flushed at the same times: an event is determined by its start and the motion trace |
| EventLog.PollStarts | DynAIkonTrap/camera_to_disk.py:182-231 | every scheduled start is a time the motion flag is set, after the current clock |
| EventLog.ScheduleEvent | DynAIkonTrap/camera_to_disk.py:183-231 | an event recorded at the next poll is the schedule's next start, and the schedule resumes one second after its final flush |
| EventLog.ScheduleNext | DynAIkonTrap/camera_to_disk.py:183-184 | when the next poll sees motion, the schedule begins with it |
| EventLog.OnScheduleStep | DynAIkonTrap/camera_to_disk.py:182-231 | one pass of the outer loop that follows the schedule keeps following it, and an event cut short began at the next scheduled start |
| EventLog.BookkeepingStep | DynAIkonTrap/camera_to_disk.py:218-230 | queuing the current directory and making a new one keeps the queue distinct and made of existing directories |
| EventLog.RecordedStep | DynAIkonTrap/camera_to_disk.py:184-231 | a well-formed event that starts after the previous one ends keeps the recorder's invariant |
| RememberFromDisk.U16 | DynAIkonTrap/filtering/remember_from_disk.py:143 | a little-endian uint16 is below 65536 |
| RememberFromDisk.NextRecord | DynAIkonTrap/filtering/remember_from_disk.py:143-145 | the next header lies past the current one and within the file |
| RememberFromDisk.ScanFrom | DynAIkonTrap/filtering/remember_from_disk.py:139-145 | every offset found lies at or after the start and has a whole header in the file; a bad header means bytes remain |
| RememberFromDisk.ScanUnfold | DynAIkonTrap/filtering/remember_from_disk.py:141-145 | a complete header is indexed and the scan continues after its record |
| RememberFromDisk.IndexStartsAtZero | DynAIkonTrap/filtering/remember_from_disk.py:140-142 | the first offset of a file holding a header is 0 |
| RememberFromDisk.IndexEmpty | DynAIkonTrap/filtering/remember_from_disk.py:140-141 | an empty clip yields no offsets and no error |
| RememberFromDisk.ScanStep | DynAIkonTrap/filtering/remember_from_disk.py:140-145 | each next offset is the previous one plus 4 plus `int(w * h * 1.5)` from the previous header |
| RememberFromDisk.IndexIncreasing | DynAIkonTrap/filtering/remember_from_disk.py:140-145 | the offsets are strictly increasing |
| RememberFromDisk.TruncatedRecordIndexed | DynAIkonTrap/filtering/remember_from_disk.py:141-145 | a record whose payload is shorter than declared is still indexed |
| RememberFromDisk.ShortFileMalformed | DynAIkonTrap/filtering/remember_from_disk.py:143 | a header of one to three bytes cannot be split into two uint16 values |
| RememberFromDisk.IndexUntil | DynAIkonTrap/filtering/remember_from_disk.py:138-148 | every result is a prefix of the full index (shorter when an IOError cuts the read short); an error escapes only for a malformed header |
| RememberFromDisk.IndexUntilComplete | DynAIkonTrap/filtering/remember_from_disk.py:138-148 | a well-formed clip read without error is indexed completely, and any IOError still gives a result |
| RememberFromDisk.ReadOffsets | DynAIkonTrap/filtering/remember_from_disk.py:139-148 | the read loop returns exactly `IndexUntil` |
| RememberFromDisk.DirToEvent | DynAIkonTrap/filtering/remember_from_disk.py:127-154 | the event carries the input directory and the read time; a missing clip gives no offsets; otherwise the offsets are those of the read loop, and it fails exactly when the loop does |
| Event.NrElements | DynAIkonTrap/filtering/event.py:80 | the candidate count is within half of `n * fraction`, and on an exact half it is even (Python's `round`) |
| Event.NrElementsBounds | DynAIkonTrap/filtering/event.py:80 | a fraction of at most one asks for at most n candidates, and none for an empty event |
| Event.Candidates | DynAIkonTrap/filtering/event.py:81-83 | there are as many candidates as requested |
| Event.CandidatesInRange | DynAIkonTrap/filtering/event.py:81-85 | every candidate is a valid frame number, and the candidates never decrease |
| Event.SpacedInRange | DynAIkonTrap/filtering/event.py:82-83 | each rounded `linspace` point lies in `[0, n)` |
| Event.SpacedMonotone | DynAIkonTrap/filtering/event.py:82-83 | rounded `linspace` points never decrease |
| Event.CandidatesEnds | DynAIkonTrap/filtering/event.py:82-83 | with at least two candidates, the first and last frames are candidates (a single candidate is frame 0 alone) |
| Event.Insert | DynAIkonTrap/filtering/event.py:87-88 | inserting keeps every candidate and adds one |
| Event.SpiralOrder | DynAIkonTrap/filtering/event.py:84-88 | the sorted candidates are a permutation of the candidates |
| Event.InsertSorted | DynAIkonTrap/filtering/event.py:87-88 | inserting the smallest index into a spiral-sorted list keeps it sorted by distance with ties by index |
| Event.SpiralOrderSorted | DynAIkonTrap/filtering/event.py:84-88 | the visit order is non-decreasing in distance from `n // 2`, and the stable sort puts the lower index first at equal distance |
| Event.SpiralSortedUnique | DynAIkonTrap/filtering/event.py:87-88 | only one ordering of the candidates is spiral-sorted, so the stable sort's result is determined |
| Event.Verdict | DynAIkonTrap/filtering/event.py:90-101 | the count never exceeds the frames visited, and is at least 1 when there is a frame |
| Event.VerdictFirstDecisive | DynAIkonTrap/filtering/event.py:90-100 | the walk stops at the first frame with a human or an animal; a human there vetoes even if an animal is also present; the count is the number of inferences so far |
| Event.VerdictExhausted | DynAIkonTrap/filtering/event.py:90-101 | with no decisive frame every candidate is visited and the result is `(False, count)` |
| Event.VerdictAcceptWitness | DynAIkonTrap/filtering/event.py:97-100 | an accepted event's last visited frame has an animal and no human |
| Event.Walk | DynAIkonTrap/filtering/event.py:90-101 | the loop with early returns computes `Verdict` |
| Event.SpiralFrames | DynAIkonTrap/filtering/event.py:80-88 | the frames to visit are `round(n * fraction)` stored offsets |
| Event.SpiralOrderInRange | DynAIkonTrap/filtering/event.py:84-85 | every index in visit order is a valid frame index |
| Event.ProcessEvent | DynAIkonTrap/filtering/event.py:60-101 | with a fraction of at most 0 exactly one inference runs, on the middle frame, giving `is_animal and not is_human`; an empty event then raises IndexError; otherwise the result is the spiral walk's verdict |
| Event.SpiralBound | DynAIkonTrap/filtering/event.py:80-101 | the spiral never runs more inferences than `round(n * fraction)`; with no candidates it returns `(False, 0)` |
| Event.SpiralFramesFromEvent | DynAIkonTrap/filtering/event.py:84-92 | every visited frame is a stored offset of the event |
| Event.SpiralStartsAtMiddle | DynAIkonTrap/filtering/event.py:63 | when every frame is a candidate, the walk starts at the middle frame `n // 2` |
| Event.DeleteEvent | DynAIkonTrap/filtering/event.py:128-135 | deletion removes the directory and everything below it only when its basename starts with `event_`; otherwise nothing changes; nothing outside it is touched |
| Event.DeleteEventIdempotent | DynAIkonTrap/filtering/event.py:128-135 | deleting an event twice is the same as deleting it once |
| Filtering.ModeFor | DynAIkonTrap/filtering/filtering.py:78-102 | a camera source gives BY_FRAME and an event rememberer BY_EVENT, and only they |
| Filtering.FrameDecision | DynAIkonTrap/filtering/filtering.py:131-140 | a frame is put as MOTION with its score iff the score is at least the threshold, otherwise as STILL with -1.0; an Empty ends the sequence, resets the filter and puts no frame |
| Filtering.HandleFramesPutsEveryFrame | DynAIkonTrap/filtering/filtering.py:119-140 | every delivered frame is put on the labelled queue exactly once, in order |
| Filtering.HandleFramesLabelled | DynAIkonTrap/filtering/filtering.py:131-140 | every put stays correctly labelled over any run of inputs |
| Filtering.EmptyResets | DynAIkonTrap/filtering/filtering.py:123-129 | after an Empty the motion filter has seen only the frames since |
| Filtering.KeepOrDelete | DynAIkonTrap/filtering/filtering.py:157-162 | a rejected event is deleted and not forwarded; a confirmed event is forwarded and not deleted |
| Filtering.ForwardedConfirmed | DynAIkonTrap/filtering/filtering.py:145-162 | everything forwarded was read from the input and confirmed |
| Filtering.OnlyRejectedDeleted | DynAIkonTrap/filtering/filtering.py:157-162 | nothing is created on disk, and a path disappears only inside a rejected event's directory |
| Filtering.AvgTime | DynAIkonTrap/filtering/filtering.py:151 | with no inference the time per inference is 0, so there is no division by zero; otherwise it times the count to the elapsed time |
| Filtering.Filter.constructor | DynAIkonTrap/filtering/filtering.py:62-102 | the source decides the mode; the queues start empty |
| Filtering.Filter.Get | DynAIkonTrap/filtering/filtering.py:104-113 | BY_FRAME takes the oldest animal frame and BY_EVENT the oldest confirmed event, leaving the other queue alone |
| Filtering.Filter.HandleInputFrames | DynAIkonTrap/filtering/filtering.py:119-140 | the loop leaves the state the BY_FRAME fold describes |
| Filtering.Filter.HandleInputEvents | DynAIkonTrap/filtering/filtering.py:142-166 | the loop leaves the state the BY_EVENT fold describes |
| Camera.LastImage | DynAIkonTrap/camera.py:69-70 | there is no last image iff no image tick happened |
| Camera.NoImageNoFrames | DynAIkonTrap/camera.py:62-66 | before the first image tick, motion ticks queue nothing |
| Camera.FramesOfPrefix | DynAIkonTrap/camera.py:62-70 | later ticks only append, so frames leave in the order of their motion ticks |
| Camera.MotionCount | DynAIkonTrap/camera.py:62-67 | counts the motion ticks: never more than the ticks, and all of them exactly when every tick is a motion tick |
| Camera.FramesOfCount | DynAIkonTrap/camera.py:62-67 | there are never more frames than motion ticks |
| Camera.FramesAfterImage | DynAIkonTrap/camera.py:62-70 | after the first image tick every motion tick queues exactly one frame: the frames are as many as the motion ticks that follow it |
| Camera.FrameQueue.constructor | DynAIkonTrap/camera.py:107 | the queue starts empty |
| Camera.FrameQueue.Get | DynAIkonTrap/camera.py:145-149 | a get takes the oldest item or reports an empty queue; taken and remaining items together stay the same |
| Camera.Synchroniser.constructor | DynAIkonTrap/camera.py:58-60 | there is no last image at the start |
| Camera.Synchroniser.TickMovementFrame | DynAIkonTrap/camera.py:62-67 | with a last image exactly one frame is queued, holding that image and the tick's vectors; without one nothing is queued |
| Camera.Synchroniser.TickImageFrame | DynAIkonTrap/camera.py:69-70 | an image tick only replaces the last image |
| Camera.ImageReader.constructor | DynAIkonTrap/camera.py:83-84 | the reader feeds the given synchroniser |
| Camera.ImageReader.Write | DynAIkonTrap/camera.py:86-88 | a buffer is forwarded iff it starts with 0xFF 0xD8 |
| Camera.Camera.constructor | DynAIkonTrap/camera.py:104-118 | camera and synchroniser share one empty queue |
| Camera.Camera.Get | DynAIkonTrap/camera.py:135-149 | the next frame is the next one the synchroniser made, and it leaves the queue and joins the frames taken; nothing is returned iff the queue was empty, and then the queue is unchanged; so successive gets return the frames in the order of their motion ticks |
| Comms.BucketStartIsProduct | DynAIkonTrap/comms.py:78-81 | bucket k starts at frame `k * d` |
| Comms.NumBucketsSpec | DynAIkonTrap/comms.py:78-81 | a bucket exists iff its first frame exists |
| Comms.NumBucketsStep | DynAIkonTrap/comms.py:78-81 | frame i goes to bucket `i // d`, which lies between that bucket's start and the next one; frame i opens it iff it is the bucket's first frame |
| Comms.BucketGrows | DynAIkonTrap/comms.py:82-94 | adding frame i leaves earlier buckets alone, extends its own bucket's stop by one, or opens it with start i and the log looked up for frame i |
| Comms.Captions | DynAIkonTrap/comms.py:70-95 | there is one caption per bucket |
| Comms.FrameInBucket | DynAIkonTrap/comms.py:73-89 | frame i lies in `[start, stop)` of bucket `i // d`, whose log is the one looked up for its first frame |
| Comms.CaptionsSpanAllFrames | DynAIkonTrap/comms.py:91-94 | the bucket lengths `stop - start` add up to the number of frames |
| Comms.GenerateCaptionsDict | DynAIkonTrap/comms.py:70-95 | the dict has keys 0 to the bucket count in insertion order, each mapped to its caption |
| Comms.Logged | DynAIkonTrap/comms.py:189-196 | there are never more JSON entries than captions |
| Comms.LoggedExactly | DynAIkonTrap/comms.py:189-196 | the JSON entries are exactly the captions with a log, with `end = stop` |
| Comms.GenerateSensorJson | DynAIkonTrap/comms.py:186-197 | the loop appends the captions with a log, in order |
| Comms.ReadingToStr | DynAIkonTrap/comms.py:103-106 | a missing reading prints as `?`, otherwise as value and units |
| Comms.Cues | DynAIkonTrap/comms.py:112-133 | there are never more cues than keys |
| Comms.SortKeysSorted | DynAIkonTrap/comms.py:112 | `sorted` gives ascending keys, a permutation of the keys |
| Comms.SortKeysSameKeys | DynAIkonTrap/comms.py:112 | sorting neither adds nor drops a key |
| Comms.SortKeysOfSorted | DynAIkonTrap/comms.py:112 | keys already ascending are left as they are |
| Comms.CaptionsToVtt | DynAIkonTrap/comms.py:108-134 | the cues follow the keys in ascending order and skip captions without a log |
| Comms.CuesMatchLogged | DynAIkonTrap/comms.py:112-115 | for keys paired one to one with captions, the cues of the keys are those of the captions' JSON entries |
| Comms.VttMatchesJson | DynAIkonTrap/comms.py:112-115 | for the dict the bucketing builds, the WebVTT cues correspond one for one, in order, to the JSON entries |
| Comms.GenerateVttFor | DynAIkonTrap/comms.py:136-146 | the WebVTT cues for a run of timestamps are those of its JSON captions |
| HtmlGenerator.UnitsDescending | DynAIkonTrap/server/html_generator.py:261-268 | the factors are powers of 1024 in strictly decreasing order, ending with 1 |
| HtmlGenerator.UnitIndex | DynAIkonTrap/server/html_generator.py:274-276 | the search stops at a table entry |
| HtmlGenerator.UnitIndexSkips | DynAIkonTrap/server/html_generator.py:274-276 | every factor skipped exceeds the size, and the one chosen (except the last) fits it |
| HtmlGenerator.ChosenUnit | DynAIkonTrap/server/html_generator.py:274-277 | for at least one byte the factor is the largest one that fits the size; the amount is at least 1, and below 1024 for every unit above bytes |
| HtmlGenerator.PrettySizeZero | DynAIkonTrap/server/html_generator.py:270-285 | `pretty_size(0)` is `0 bytes` |
| HtmlGenerator.SingularOnlyForOneByte | DynAIkonTrap/server/html_generator.py:279-285 | ` byte` is printed iff the size is exactly one byte; other units are never pluralised |
| HtmlGenerator.PrettySizeReadBack | DynAIkonTrap/server/html_generator.py:285 | the printed size splits back into the decimal amount and the suffix |
| HtmlGenerator.PrettySizeInjective | DynAIkonTrap/server/html_generator.py:285 | equal printouts mean equal amount and suffix |
| HtmlGenerator.NameExt | DynAIkonTrap/server/html_generator.py:227 | an extension is empty or a dot followed by no dot, and ends the name |
| HtmlGenerator.Ext | DynAIkonTrap/server/html_generator.py:196 | the extension of a path has no separator |
| HtmlGenerator.ExtOfEntry | DynAIkonTrap/server/html_generator.py:196-227 | `splitext` of a listed path and of its basename agree, and the basename is the entry's name |
| HtmlGenerator.ExtOfName | DynAIkonTrap/server/html_generator.py:227-230 | a name ending in a dot and a dot-free extension has that extension |
| HtmlGenerator.KindOfExt | DynAIkonTrap/server/html_generator.py:227-232 | an extension never makes a folder |
| HtmlGenerator.Classify | DynAIkonTrap/server/html_generator.py:224-232 | an entry is a folder iff it is a directory |
| HtmlGenerator.ClassifyByExtension | DynAIkonTrap/server/html_generator.py:227-232 | `.jpg` files are images, `.mp4` files videos and `.dat` files plain files |
| HtmlGenerator.KeyLeTotal | DynAIkonTrap/server/html_generator.py:191-192 | any two entries are comparable by the sort key |
| HtmlGenerator.KeyLeTrans | DynAIkonTrap/server/html_generator.py:192 | the sort key order is transitive |
| HtmlGenerator.SortEntries | DynAIkonTrap/server/html_generator.py:192 | sorting keeps every entry |
| HtmlGenerator.SortEntriesSorted | DynAIkonTrap/server/html_generator.py:192 | the listing is ordered by the key and is a permutation of what `glob` found |
| HtmlGenerator.SortedPairwise | DynAIkonTrap/server/html_generator.py:192 | in a sorted listing every entry's key is at most every later entry's |
| HtmlGenerator.FoldersFirst | DynAIkonTrap/server/html_generator.py:192 | in a sorted listing no file comes before a non-file |
| HtmlGenerator.Rows | DynAIkonTrap/server/html_generator.py:194-226 | there are never more rows than entries |
| HtmlGenerator.RowsListed | DynAIkonTrap/server/html_generator.py:194-226 | a row (name, with a trailing separator for folders, and pretty size for files) is listed for every entry that is not a dotfile, symlink or `.html` file, and for no other |
| Common.ParseShowNat | DynAIkonTrap/server/html_generator.py:285 | `str` of a natural number parses back to it |
| Common.ShowNatInjective | DynAIkonTrap/server/html_generator.py:285 | different amounts print differently |
| Common.Append | DynAIkonTrap/video_buffers.py:311-316 | appending to a file extends only that file, by exactly the bytes given |
| Common.AppendTwice | DynAIkonTrap/video_buffers.py:311-316 | two appends to one file equal one append of both |
| Common.JoinPathInjective | DynAIkonTrap/camera_to_disk.py:84 | joining different names to one directory gives different paths |
| Common.RoundHalfEven | DynAIkonTrap/filtering/event.py:80 | the result is within half of the quotient, with ties going to even |
| Common.RoundHalfEvenMonotone | DynAIkonTrap/filtering/event.py:82 | rounding preserves order |
| Common.RoundHalfEvenWithin | DynAIkonTrap/filtering/event.py:82 | rounding keeps a value within `[0, hi]` |
| Common.RoundHalfEvenExact | DynAIkonTrap/filtering/event.py:82 | whole numbers round to themselves |

## Left out

- Threads and processes: the motion thread, the recorder thread and the filter's usher process run one step at a time. Blocking `Queue.get` becomes an `Empty` (None) input. The queues are unbounded: the BY_EVENT output queue is `Queue(maxsize=1)` (`filtering/filtering.py:99`), whose `put` blocks the usher until the consumer takes the previous event; the model's output queue keeps growing instead, so that back-pressure is not modelled. `psutil`, `ionice` and `nice` are left out.
- The camera keeps writing into the active buffers during the recorder's waits. This is concurrent with the recorder and is not interleaved with its steps. A flush takes no time on the clock.
- `Filter.__init__` reads `raw_bpp`, `raw_dims` and `raw_image_format` from its source (`filtering/filtering.py:73-74` and `filtering/filtering.py:98`), which neither `Camera` nor `EventRememberer` defines; the model takes these as present and does not reproduce the `AttributeError`. The import of `asyncio.windows_events` (`filtering/filtering.py:25`), which fails off Windows, is not modelled either.
- CameraToDisk.CameraToDisk.Record: polls the motion trace a given number of times instead of forever; the loop is otherwise the source's.
- `record`'s `event_io_latencies` and its log messages are left out: they affect nothing else.
- Floating point:
  - `linspace`, `n * fraction`, the context products and `round` use exact rationals. A float tie that the exact value does not reach is not modelled.
  - The caption divisor `framerate * read_interval` is a positive integer.
  - `pretty_size`'s `int(bytes / factor)` is integer division. Floats agree with it below 2^53 bytes.
  - Motion scores are reals.
- The motion filter (`MotionFilter.run_raw`) and the classifier (`AnimalFilter.run`) are parameters: their outputs are inputs of the model. DynAIkonTrap/filtering/motion.py and DynAIkonTrap/filtering/motion_queue.py are not part of this model. `Filter.get`'s animal frames are handed over by the motion-labelled queue, whose filling is not modelled.
- picamera's `CircularIO` and `PiCameraCircularIO` are modelled as a byte sequence that keeps the newest `capacity` bytes, plus a frame side list with one entry per camera write. The library's own frame bookkeeping is not modelled.
- The `ValueError` of the motion buffer's seek cannot happen here, because the pre-roll position is never negative. The `IndexError`/`ValueError` handler of the H.264 start flush is unreachable for the same reason.
- The raw start flush's `IndexError` is not caught in the source. It escapes `empty_all_buffers` and ends `record`; the model returns it as an error.
- `dir_to_event`: an `IOError` is a fault at a chosen read call, counted from 0. A header of one to three bytes makes numpy raise `ValueError`, which escapes and is modelled as an error.
- `event.py` reads `self._raw_image_format`, which is never assigned, and `EventData` fields that `remember_from_disk.py` does not declare (`raw_raster_path`, `raw_x_dim`, `raw_y_dim`, `raw_bpp`, `raw_img_format`). The model does not reproduce the resulting `AttributeError`. Fetching a frame is the classifier applied to the stored offset.
- Event.ProcessEvent: the `IndexError` of an empty event is returned as an error; in the BY_EVENT loop it halts the usher, since only `Empty` is caught there.
- `_delete_event`'s `rm -r` is a removal of the directory and everything below it. Shell quoting and a failing `check_call` are not modelled.
- `EventSynthesisor` and `EventRememberer.proc_events` (reading directories from a queue) are left out.
- comms.py: the WebVTT header, `_video_time_to_str`, the datetime formatting of the sensor time and JSON serialisation are left out; a cue keeps the raw numbers. DynAIkonTrap/sensor.py is not part of this model, so a sensor log is a time plus a map of readings.
- html_generator.py: the HTML text, the `stat` error path, the modification times and `process_dir`'s recursion into subdirectories are left out. `stat(...).st_size` is a parameter.
- HtmlGenerator.SortEntries: the order is proved; stability among equal keys is not (equal keys mean equal names, so it cannot show).
