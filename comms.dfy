/** Sensor captions for an output video (`VideoCaption`): consecutive frames
    are grouped into buckets of `framerate * read_interval` frames, each bucket
    labelled with the sensor log found for its first frame; the buckets are
    then written as JSON entries or WebVTT cues, leaving out those without a
    log. The sensor log store is an oracle `lookup` from a timestamp to the
    log valid then, if any. */
module Comms {
  import opened Common

  /** One sensor reading: its value as printed and its units. */
  datatype Reading = Reading(value: string, units: string)

  /** `SensorLog`: when the readings were taken, and the readings by sensor
      name. */
  datatype SensorLog = SensorLog(systemTime: int, readings: map<string, Reading>)

  /** The caption dictionary entry `{"start", "stop", "log"}`: frames
      `start..stop` (stop exclusive) share `log`. */
  datatype Caption = Caption(start: nat, stop: nat, log: Option<SensorLog>)

  /** A Python dict of captions: the entries by key, and the keys in
      insertion order (the order `dict.values()` visits them). */
  datatype Dict = Dict(entries: map<nat, Caption>, keys: seq<nat>)

  /** Every dict lists each of its keys once, and only its keys. */
  ghost predicate WellFormed(dict: Dict)
  {
    (forall k :: k in dict.entries <==> k in dict.keys)
    && (forall i, j :: 0 <= i < j < |dict.keys| ==> dict.keys[i] != dict.keys[j])
  }

  // ---------------------------------------------------------------------------
  // Buckets
  // ---------------------------------------------------------------------------

  /** How many buckets `n` frames fill, `d` frames to a bucket. */
  function NumBuckets(n: nat, d: nat): nat
    requires d > 0
  {
    (n + d - 1) / d
  }

  /** The first frame of bucket `k`: each bucket starts `d` frames after
      the one before it. */
  function BucketStart(k: nat, d: nat): nat
  {
    if k == 0 then 0 else BucketStart(k - 1, d) + d
  }

  lemma {:induction false} BucketStartIsProduct(k: nat, d: nat)
    ensures BucketStart(k, d) == k * d
  {
    if k > 0 {
      BucketStartIsProduct(k - 1, d);
      assert (k - 1) * d + d == k * d;
    }
  }

  /** Later buckets start later. */
  lemma {:induction false} BucketStartMono(a: nat, b: nat, d: nat)
    requires a <= b
    ensures BucketStart(a, d) <= BucketStart(b, d)
  {
    if a < b {
      BucketStartMono(a, b - 1, d);
    }
  }

  /** Quotient and remainder are the only ones: a == q * d + r with
      0 <= r < d fixes q. */
  lemma DivUnique(a: nat, d: nat, q: nat, r: nat)
    requires d > 0 && r < d && a == q * d + r
    ensures a / d == q
  {
    var q' := a / d;
    assert a == q' * d + a % d;
    if q' < q {
      MulMono(q' + 1, q, d);
    } else if q' > q {
      MulMono(q + 1, q', d);
    }
  }

  /** Bucket `k` exists after `n` frames iff its first frame has been
      seen. */
  lemma NumBucketsSpec(n: nat, d: nat, k: nat)
    requires d > 0
    ensures k < NumBuckets(n, d) <==> BucketStart(k, d) < n
  {
    BucketStartIsProduct(k, d);
    var b := NumBuckets(n, d);
    assert b * d <= n + d - 1 < b * d + d;
    if k < b {
      MulMono(k + 1, b, d);
    } else {
      MulMono(b, k, d);
    }
  }

  /** Frame `i` lands in bucket `i / d`, which spans it: after it there are
      `i / d + 1` buckets, and it opens that bucket iff it is the bucket's
      first frame. */
  lemma NumBucketsStep(i: nat, d: nat)
    requires d > 0
    ensures BucketStart(i / d, d) <= i < BucketStart(i / d, d) + d
    ensures NumBuckets(i + 1, d) == i / d + 1
    ensures NumBuckets(i, d) == i / d || NumBuckets(i, d) == i / d + 1
    ensures NumBuckets(i, d) == i / d <==> BucketStart(i / d, d) == i
  {
    var q, r := i / d, i % d;
    BucketStartIsProduct(q, d);
    assert i == q * d + r;
    DivUnique(i + 1 + d - 1, d, q + 1, r);
    if r == 0 {
      DivUnique(i + d - 1, d, q, d - 1);
    } else {
      DivUnique(i + d - 1, d, q + 1, r - 1);
    }
  }

  /** Bucket `k` once `n` frames have been seen: it starts at its first
      frame, ends after its last frame, and carries the log found for its
      first frame. */
  function BucketCaption(stamps: seq<int>, lookup: int -> Option<SensorLog>, d: nat, n: nat, k: nat): Caption
    requires d > 0 && n <= |stamps| && k < NumBuckets(n, d)
  {
    NumBucketsSpec(n, d, k);
    var start := BucketStart(k, d);
    Caption(start, Min(start + d, n), lookup(stamps[start]))
  }

  /** How frame `i` changes bucket `k`: earlier buckets are full and stay
      as they are, the bucket of `i` grows by one frame or is opened by it. */
  lemma BucketGrows(stamps: seq<int>, lookup: int -> Option<SensorLog>, d: nat, i: nat, k: nat)
    requires d > 0 && i < |stamps| && k < NumBuckets(i + 1, d)
    ensures k < i / d ==> (k < NumBuckets(i, d)
      && BucketCaption(stamps, lookup, d, i + 1, k) == BucketCaption(stamps, lookup, d, i, k))
    ensures k == i / d && k < NumBuckets(i, d) ==>
      BucketCaption(stamps, lookup, d, i + 1, k)
      == BucketCaption(stamps, lookup, d, i, k).(stop := BucketCaption(stamps, lookup, d, i, k).stop + 1)
    ensures k == i / d && k == NumBuckets(i, d) ==>
      BucketCaption(stamps, lookup, d, i + 1, k) == Caption(i, i + 1, lookup(stamps[i]))
  {
    NumBucketsStep(i, d);
    if k < i / d {
      BucketStartMono(k + 1, i / d, d);
    }
  }

  /** The captions for all frames, bucket by bucket. */
  function Captions(stamps: seq<int>, lookup: int -> Option<SensorLog>, d: nat): (r: seq<Caption>)
    requires d > 0
    ensures |r| == NumBuckets(|stamps|, d)
  {
    seq(NumBuckets(|stamps|, d), k requires 0 <= k < NumBuckets(|stamps|, d) =>
      BucketCaption(stamps, lookup, d, |stamps|, k))
  }

  /** Frame `i` belongs to bucket `i / d`, which spans it and takes its log
      from its own first frame. */
  lemma FrameInBucket(stamps: seq<int>, lookup: int -> Option<SensorLog>, d: nat, i: nat)
    requires d > 0 && i < |stamps|
    ensures i / d < NumBuckets(|stamps|, d)
    ensures Captions(stamps, lookup, d)[i / d].start <= i < Captions(stamps, lookup, d)[i / d].stop
    ensures Captions(stamps, lookup, d)[i / d].log == lookup(stamps[Captions(stamps, lookup, d)[i / d].start])
  {
    NumBucketsStep(i, d);
    NumBucketsSpec(|stamps|, d, i / d);
  }

  /** The frames each bucket spans, added up. */
  function Spanned(cs: seq<Caption>): int
  {
    if |cs| == 0 then 0 else Spanned(cs[..|cs| - 1]) + cs[|cs| - 1].stop - cs[|cs| - 1].start
  }

  /** The buckets together span every frame exactly once. */
  lemma CaptionsSpanAllFrames(stamps: seq<int>, lookup: int -> Option<SensorLog>, d: nat)
    requires d > 0
    ensures Spanned(Captions(stamps, lookup, d)) == |stamps|
  {
    var cs := Captions(stamps, lookup, d);
    var n := |stamps|;
    SpannedPrefix(stamps, lookup, d, |cs|);
    NumBucketsSpec(n, d, |cs|);
    assert cs[..|cs|] == cs;
  }

  lemma {:induction false} SpannedPrefix(stamps: seq<int>, lookup: int -> Option<SensorLog>, d: nat, j: nat)
    requires d > 0 && j <= NumBuckets(|stamps|, d)
    ensures Spanned(Captions(stamps, lookup, d)[..j]) == Min(BucketStart(j, d), |stamps|)
  {
    if j > 0 {
      var cs := Captions(stamps, lookup, d);
      assert cs[..j][..j - 1] == cs[..j - 1];
      SpannedPrefix(stamps, lookup, d, j - 1);
      NumBucketsSpec(|stamps|, d, j - 1);
      assert cs[j - 1] == BucketCaption(stamps, lookup, d, |stamps|, j - 1);
    }
  }

  /** `_generate_captions_dict`. `d` is `framerate * read_interval`, taken
      as a positive whole number of frames. The keys are inserted in
      ascending order, one per bucket. */
  method GenerateCaptionsDict(stamps: seq<int>, lookup: int -> Option<SensorLog>, d: nat)
    returns (dict: Dict)
    requires d > 0
    ensures WellFormed(dict)
    ensures |dict.keys| == NumBuckets(|stamps|, d) && forall j :: 0 <= j < |dict.keys| ==> dict.keys[j] == j
    ensures forall k :: k in dict.entries ==> k < |dict.keys| && dict.entries[k] == Captions(stamps, lookup, d)[k]
  {
    var captions: map<nat, Caption> := map[];
    var order: seq<nat> := [];
    var i := 0;
    while i < |stamps|
      invariant i <= |stamps|
      invariant forall k: nat :: k in captions <==> k < |order|
      invariant forall j :: 0 <= j < |order| ==> order[j] == j
      invariant |order| == NumBuckets(i, d)
      invariant forall k: nat :: k in captions ==> captions[k] == BucketCaption(stamps, lookup, d, i, k)
    {
      var log := lookup(stamps[i]);
      var key := i / d;
      NumBucketsStep(i, d);
      var caption := if key in captions then captions[key] else Caption(i, i, log);
      caption := caption.(stop := caption.stop + 1);
      if key !in captions {
        order := order + [key];
      }
      captions := captions[key := caption];
      forall k: nat | k in captions
        ensures captions[k] == BucketCaption(stamps, lookup, d, i + 1, k)
      {
        BucketGrows(stamps, lookup, d, i, k);
      }
      i := i + 1;
    }
    forall k: nat
      ensures k in captions <==> k in order
    {
      if k < |order| {
        assert order[k] == k;
      }
    }
    dict := Dict(captions, order);
  }

  // ---------------------------------------------------------------------------
  // JSON and WebVTT
  // ---------------------------------------------------------------------------

  /** One entry of the JSON captions: `{"start", "end", "log"}`. */
  datatype JsonCaption = JsonCaption(start: nat, end: nat, log: SensorLog)

  /** The captions that have a log, as JSON entries, in order. */
  function Logged(cs: seq<Caption>): (r: seq<JsonCaption>)
    ensures |r| <= |cs|
  {
    if |cs| == 0 then []
    else
      var rest := Logged(cs[..|cs| - 1]);
      var c := cs[|cs| - 1];
      if c.log.Some? then rest + [JsonCaption(c.start, c.stop, c.log.value)] else rest
  }

  /** Every JSON entry is a caption with a log, with `end` its `stop`; the
      captions without a log are the ones left out. */
  lemma {:induction false} LoggedExactly(cs: seq<Caption>)
    ensures forall e :: e in Logged(cs) <==> Caption(e.start, e.end, Some(e.log)) in cs
  {
    if |cs| > 0 {
      var init := cs[..|cs| - 1];
      LoggedExactly(init);
      assert cs == init + [cs[|cs| - 1]];
    }
  }

  /** `generate_sensor_json`: the captions dict visited in insertion order,
      keeping the buckets whose log is not None. */
  method GenerateSensorJson(stamps: seq<int>, lookup: int -> Option<SensorLog>, d: nat)
    returns (json: seq<JsonCaption>)
    requires d > 0
    ensures json == Logged(Captions(stamps, lookup, d))
  {
    var dict := GenerateCaptionsDict(stamps, lookup, d);
    ghost var cs := Captions(stamps, lookup, d);
    json := [];
    var j := 0;
    while j < |dict.keys|
      invariant j <= |dict.keys|
      invariant json == Logged(cs[..j])
    {
      var c := dict.entries[dict.keys[j]];
      assert cs[..j + 1][..j] == cs[..j];
      if c.log.Some? {
        json := json + [JsonCaption(c.start, c.stop, c.log.value)];
      }
      j := j + 1;
    }
    assert cs[..j] == cs;
  }

  /** `_reading_to_str`: the value followed by its units, "?" for a missing
      reading. */
  function ReadingToStr(reading: Option<Reading>): (s: string)
    ensures reading.None? ==> s == "?"
    ensures reading.Some? ==> s == reading.value.value + reading.value.units
  {
    match reading
    case None => "?"
    case Some(x) => x.value + x.units
  }

  /** `log.readings.get(name)`. */
  function Lookup(readings: map<string, Reading>, name: string): Option<Reading>
  {
    if name in readings then Some(readings[name]) else None
  }

  /** A WebVTT cue: the frames it covers, the sensor time and the text line
      of readings. The rendering of times as `mm:ss.ttt` and of the sensor
      time as `%H:%M:%S` is left to the printer. */
  datatype Cue = Cue(start: nat, stop: nat, sensorTime: int, text: string)

  function CueText(log: SensorLog): string
  {
    "T: " + ReadingToStr(Lookup(log.readings, "SKEW_TEMPERATURE"))
    + " - RH: " + ReadingToStr(Lookup(log.readings, "HUMIDITY"))
    + " - L: " + ReadingToStr(Lookup(log.readings, "BRIGHTNESS"))
    + " - P: " + ReadingToStr(Lookup(log.readings, "ATMOSPHERIC_PRESSURE")) + "\n\n"
  }

  /** The cues for the captions under `keys`, in that order, leaving out the
      captions without a log (and keys without an entry, which a well-formed
      dict does not have). */
  function Cues(entries: map<nat, Caption>, keys: seq<nat>): (r: seq<Cue>)
    ensures |r| <= |keys|
  {
    if |keys| == 0 then []
    else
      var rest := Cues(entries, keys[..|keys| - 1]);
      var k := keys[|keys| - 1];
      if k in entries && entries[k].log.Some? then
        var c := entries[k];
        rest + [Cue(c.start, c.stop, c.log.value.systemTime, CueText(c.log.value))]
      else rest
  }

  // Sorting the keys (`sorted(captions.items())`; keys are unique, so the
  // items sort by key).

  predicate Sorted(s: seq<nat>)
  {
    forall i, j :: 0 <= i < j < |s| ==> s[i] <= s[j]
  }

  function InsertKey(x: nat, s: seq<nat>): (r: seq<nat>)
    ensures |r| == |s| + 1 && multiset(r) == multiset(s) + multiset{x}
  {
    if |s| == 0 || x <= s[0] then [x] + s
    else
      assert s == [s[0]] + s[1..];
      [s[0]] + InsertKey(x, s[1..])
  }

  function SortKeys(s: seq<nat>): (r: seq<nat>)
    ensures |r| == |s| && multiset(r) == multiset(s)
  {
    if |s| == 0 then []
    else
      assert s == [s[0]] + s[1..];
      InsertKey(s[0], SortKeys(s[1..]))
  }

  lemma {:induction false} InsertKeySorted(x: nat, s: seq<nat>)
    requires Sorted(s)
    ensures Sorted(InsertKey(x, s))
  {
    if |s| > 0 && x > s[0] {
      InsertKeySorted(x, s[1..]);
      var r := InsertKey(x, s);
      var tail := InsertKey(x, s[1..]);
      assert r == [s[0]] + tail;
      forall j | 0 < j < |r|
        ensures s[0] <= r[j]
      {
        assert r[j] in multiset(tail);
        assert r[j] == x || r[j] in multiset(s[1..]);
        if r[j] != x {
          var k :| 0 <= k < |s[1..]| && s[1..][k] == r[j];
          assert s[k + 1] == r[j];
        }
      }
    }
  }

  /** The sorted keys are in ascending order and are the same keys. */
  lemma {:induction false} SortKeysSorted(s: seq<nat>)
    ensures Sorted(SortKeys(s)) && multiset(SortKeys(s)) == multiset(s)
  {
    if |s| > 0 {
      SortKeysSorted(s[1..]);
      InsertKeySorted(s[0], SortKeys(s[1..]));
    }
  }

  /** Sorting neither adds nor drops a key. */
  lemma SortKeysSameKeys(s: seq<nat>)
    ensures forall x :: x in SortKeys(s) <==> x in s
  {
    var r := SortKeys(s);
    forall x
      ensures x in r <==> x in s
    {
      assert x in r <==> x in multiset(r);
      assert x in s <==> x in multiset(s);
    }
  }

  /** Keys inserted in ascending order are already sorted. */
  lemma {:induction false} SortKeysOfSorted(s: seq<nat>)
    requires Sorted(s)
    ensures SortKeys(s) == s
  {
    if |s| > 0 {
      SortKeysOfSorted(s[1..]);
      assert s == [s[0]] + s[1..];
    }
  }

  /** `_captions_dict_to_vtt`: the captions by ascending key, skipping those
      whose log is None. */
  method CaptionsToVtt(dict: Dict) returns (cues: seq<Cue>)
    requires WellFormed(dict)
    ensures cues == Cues(dict.entries, SortKeys(dict.keys))
  {
    var keys := SortKeys(dict.keys);
    SortKeysSameKeys(dict.keys);
    assert forall i :: 0 <= i < |keys| ==> keys[i] in dict.entries;
    cues := CuesLoop(dict.entries, keys);
  }

  /** The loop of `_captions_dict_to_vtt` over keys that all have entries. */
  method CuesLoop(entries: map<nat, Caption>, keys: seq<nat>) returns (cues: seq<Cue>)
    requires forall i :: 0 <= i < |keys| ==> keys[i] in entries
    ensures cues == Cues(entries, keys)
  {
    cues := [];
    var j := 0;
    while j < |keys|
      invariant j <= |keys|
      invariant cues == Cues(entries, keys[..j])
    {
      var c := entries[keys[j]];
      CuesStep(entries, keys, j);
      if c.log.Some? {
        cues := cues + [Cue(c.start, c.stop, c.log.value.systemTime, CueText(c.log.value))];
      }
      j := j + 1;
    }
    assert keys[..j] == keys;
  }

  /** One more key adds its caption's cue, if the caption has a log. */
  lemma CuesStep(entries: map<nat, Caption>, keys: seq<nat>, j: nat)
    requires j < |keys| && keys[j] in entries
    ensures var c := entries[keys[j]];
      Cues(entries, keys[..j + 1])
      == Cues(entries, keys[..j]) + (if c.log.Some? then [Cue(c.start, c.stop, c.log.value.systemTime, CueText(c.log.value))] else [])
  {
    assert keys[..j + 1][..j] == keys[..j];
  }

  /** The cue a JSON entry becomes. */
  function CueOf(e: JsonCaption): Cue
  {
    Cue(e.start, e.end, e.log.systemTime, CueText(e.log))
  }

  function CuesOfJson(json: seq<JsonCaption>): (r: seq<Cue>)
    ensures |r| == |json|
  {
    if |json| == 0 then [] else CuesOfJson(json[..|json| - 1]) + [CueOf(json[|json| - 1])]
  }

  /** For the dict `_generate_captions_dict` builds, the WebVTT cues are the
      JSON entries, entry by entry: the same buckets in the same order. */
  lemma VttMatchesJson(stamps: seq<int>, lookup: int -> Option<SensorLog>, d: nat, dict: Dict)
    requires d > 0
    requires |dict.keys| == NumBuckets(|stamps|, d) && forall j :: 0 <= j < |dict.keys| ==> dict.keys[j] == j
    requires forall k :: k in dict.entries ==> k < |dict.keys| && dict.entries[k] == Captions(stamps, lookup, d)[k]
    requires WellFormed(dict)
    ensures Cues(dict.entries, SortKeys(dict.keys)) == CuesOfJson(Logged(Captions(stamps, lookup, d)))
  {
    var keys := dict.keys;
    var cs := Captions(stamps, lookup, d);
    assert Sorted(keys);
    SortKeysOfSorted(keys);
    forall j | 0 <= j < |keys|
      ensures keys[j] in dict.entries && dict.entries[keys[j]] == cs[j]
    {
      assert keys[j] in keys;
    }
    CuesMatchLogged(dict.entries, keys, cs);
  }

  /** `generate_vtt_for`: the cues are the JSON entries `generate_sensor_json`
      writes for the same timestamps, one for one. */
  method GenerateVttFor(stamps: seq<int>, lookup: int -> Option<SensorLog>, d: nat)
    returns (cues: seq<Cue>)
    requires d > 0
    ensures cues == CuesOfJson(Logged(Captions(stamps, lookup, d)))
  {
    var dict := GenerateCaptionsDict(stamps, lookup, d);
    cues := CaptionsToVtt(dict);
    VttMatchesJson(stamps, lookup, d, dict);
  }

  lemma {:induction false} CuesMatchLogged(entries: map<nat, Caption>, keys: seq<nat>, cs: seq<Caption>)
    requires |keys| == |cs|
    requires forall j :: 0 <= j < |keys| ==> keys[j] in entries && entries[keys[j]] == cs[j]
    ensures Cues(entries, keys) == CuesOfJson(Logged(cs))
  {
    if |keys| > 0 {
      var n := |keys|;
      var keys', cs' := keys[..n - 1], cs[..n - 1];
      assert forall j :: 0 <= j < |keys'| ==> keys'[j] == keys[j] && cs'[j] == cs[j];
      CuesMatchLogged(entries, keys', cs');
      assert keys[n - 1] in entries && entries[keys[n - 1]] == cs[n - 1];
      CuesMatchLast(entries, keys, cs);
    }
  }

  /** The last key adds a cue exactly when the last caption adds a JSON
      entry, and it is the cue of that entry. */
  lemma CuesMatchLast(entries: map<nat, Caption>, keys: seq<nat>, cs: seq<Caption>)
    requires |keys| == |cs| > 0
    requires keys[|keys| - 1] in entries && entries[keys[|keys| - 1]] == cs[|cs| - 1]
    requires Cues(entries, keys[..|keys| - 1]) == CuesOfJson(Logged(cs[..|cs| - 1]))
    ensures Cues(entries, keys) == CuesOfJson(Logged(cs))
  {
    var c := cs[|cs| - 1];
    var ls := Logged(cs[..|cs| - 1]);
    if c.log.Some? {
      var e := JsonCaption(c.start, c.stop, c.log.value);
      assert Logged(cs) == ls + [e];
      assert (ls + [e])[..|ls|] == ls;
    }
  }
}
