/** Spiral-out confirmation of a recorded event (`EventProcessor._process_event`
    and its twin `Filter._process_event`): choose evenly spaced frames of the
    event, visit them from the middle outwards, and ask the classifier about
    each until one frame is decisive. Also the guarded deletion of an event
    directory. The classifier is an oracle `detect` of the byte offset at
    which a frame is stored in the event's raw clip. */
module Event {
  import opened Common

  /** `detector_fraction` as the exact ratio num / den. */
  datatype Fraction = Fraction(num: int, den: int)

  /** The classifier's answer for one frame: `(is_animal, is_human)`. */
  datatype Detection = Detection(isAnimal: bool, isHuman: bool)

  /** A frame that ends the walk: a human (veto) or an animal (accept). */
  predicate Decisive(d: Detection) { d.isHuman || d.isAnimal }

  /** A frame that makes the event an animal event. */
  predicate Accepts(d: Detection) { d.isAnimal && !d.isHuman }

  // ---------------------------------------------------------------------------
  // Candidate frames
  // ---------------------------------------------------------------------------

  /** `int(round(n * detector_fraction))`, numpy rounding half to even. */
  function NrElements(n: nat, f: Fraction): (r: nat)
    requires f.den > 0 && f.num > 0
    ensures -f.den <= 2 * (n * f.num - r * f.den) <= f.den
    ensures 2 * (n * f.num - r * f.den) == f.den ==> r % 2 == 0
    ensures 2 * (n * f.num - r * f.den) == -f.den ==> r % 2 == 0
  {
    var num := n * f.num;
    assert num >= 0 by { MulLe(n, 0, f.num); }
    RoundHalfEven(num, f.den)
  }

  /** A fraction of at most one never asks for more candidates than there
      are frames, and an event without frames has none. */
  lemma NrElementsBounds(n: nat, f: Fraction)
    requires f.den > 0 && f.num > 0
    ensures f.num <= f.den ==> NrElements(n, f) <= n
    ensures n == 0 ==> NrElements(n, f) == 0
  {
    if f.num <= f.den {
      MulLe(n, f.num, f.den);
      assert n * f.den == f.den * n;
      RoundHalfEvenWithin(n * f.num, f.den, n);
    }
    if n == 0 {
      assert n * f.num == 0 * f.den;
      RoundHalfEvenExact(0, f.den);
    }
  }

  lemma MulLe(n: nat, a: int, b: int)
    requires a <= b
    ensures n * a <= n * b
  {
  }

  /** Point k of `linspace(0, n - 1, count)`, rounded half to even. */
  function Spaced(n: nat, count: nat, k: nat): (r: int)
    requires count >= 2
  {
    RoundHalfEven(k * (n - 1), count - 1)
  }

  /** `[int(round(x)) for x in linspace(0, n - 1, count)]`. With a single
      point linspace yields its start. */
  function Candidates(n: nat, count: nat): (r: seq<int>)
    ensures |r| == count
  {
    if count == 0 then []
    else if count == 1 then [0]
    else seq(count, k requires 0 <= k < count => Spaced(n, count, k))
  }

  /** Every candidate is a valid frame number, and they never decrease. */
  lemma CandidatesInRange(n: nat, count: nat)
    requires n >= 1 || count == 0
    ensures forall k :: 0 <= k < count ==> 0 <= Candidates(n, count)[k] < n
    ensures Ascending(Candidates(n, count))
  {
    var c := Candidates(n, count);
    if count >= 2 {
      forall k | 0 <= k < count
        ensures 0 <= c[k] < n
      {
        SpacedInRange(n, count, k);
      }
      forall j, k | 0 <= j <= k < count
        ensures c[j] <= c[k]
      {
        SpacedMonotone(n, count, j, k);
      }
    }
  }

  lemma SpacedInRange(n: nat, count: nat, k: nat)
    requires n >= 1 && count >= 2 && k < count
    ensures 0 <= Spaced(n, count, k) < n
  {
    MulLe(n - 1, k, count - 1);
    assert (n - 1) * k == k * (n - 1);
    assert (n - 1) * (count - 1) == (count - 1) * (n - 1);
    RoundHalfEvenWithin(k * (n - 1), count - 1, n - 1);
  }

  lemma SpacedMonotone(n: nat, count: nat, j: nat, k: nat)
    requires n >= 1 && count >= 2 && j <= k
    ensures Spaced(n, count, j) <= Spaced(n, count, k)
  {
    MulLe(n - 1, j, k);
    assert (n - 1) * j == j * (n - 1) && (n - 1) * k == k * (n - 1);
    RoundHalfEvenMonotone(j * (n - 1), k * (n - 1), count - 1);
  }

  /** With at least two candidates the end points of the range are both
      candidates; a single candidate is frame 0 alone. */
  lemma CandidatesEnds(n: nat, count: nat)
    requires n >= 1 && count >= 2
    ensures Candidates(n, count)[0] == 0
    ensures Candidates(n, count)[count - 1] == n - 1
  {
    RoundHalfEvenExact(0, count - 1);
    assert (count - 1) * (n - 1) == (n - 1) * (count - 1);
    RoundHalfEvenExact(n - 1, count - 1);
  }

  // ---------------------------------------------------------------------------
  // Spiral order
  // ---------------------------------------------------------------------------

  /** `abs(middle_idx - index)`: the sort key. */
  function Distance(middle: int, i: int): nat
  {
    if middle >= i then middle - i else i - middle
  }

  /** Nearer to the middle first; at equal distance the lower index first. */
  predicate Before(middle: int, a: int, b: int)
  {
    Distance(middle, a) < Distance(middle, b) || (Distance(middle, a) == Distance(middle, b) && a <= b)
  }

  predicate SpiralSorted(s: seq<int>, middle: int)
  {
    forall i, j :: 0 <= i < j < |s| ==> Before(middle, s[i], s[j])
  }

  predicate Ascending(s: seq<int>)
  {
    forall i, j :: 0 <= i <= j < |s| ==> s[i] <= s[j]
  }

  /** Places `x` in front of the first element that is at least as far from
      the middle; `x` stands for an earlier element of the list, so ties keep
      their original order. */
  function Insert(x: int, s: seq<int>, middle: int): (r: seq<int>)
    ensures |r| == |s| + 1
    ensures multiset(r) == multiset(s) + multiset{x}
  {
    if |s| == 0 || Distance(middle, x) <= Distance(middle, s[0]) then [x] + s
    else
      assert s == [s[0]] + s[1..];
      [s[0]] + Insert(x, s[1..], middle)
  }

  /** The candidates after `list.sort(key=lambda x: abs(middle_idx - x[0]))`,
      a stable sort by distance from the middle. */
  function SpiralOrder(c: seq<int>, middle: int): (r: seq<int>)
    ensures |r| == |c|
    ensures multiset(r) == multiset(c)
  {
    if |c| == 0 then []
    else
      assert c == [c[0]] + c[1..];
      Insert(c[0], SpiralOrder(c[1..], middle), middle)
  }

  lemma {:induction false} InsertSorted(x: int, s: seq<int>, middle: int)
    requires SpiralSorted(s, middle)
    requires forall k :: 0 <= k < |s| ==> x <= s[k]
    ensures SpiralSorted(Insert(x, s, middle), middle)
  {
    var r := Insert(x, s, middle);
    if |s| == 0 || Distance(middle, x) <= Distance(middle, s[0]) {
      assert r == [x] + s;
      forall i, j | 0 <= i < j < |r|
        ensures Before(middle, r[i], r[j])
      {
        if i == 0 {
          assert r[j] == s[j - 1];
          if j > 1 {
            assert Before(middle, s[0], s[j - 1]);
          }
        } else {
          assert r[i] == s[i - 1] && r[j] == s[j - 1];
        }
      }
    } else {
      var tail := Insert(x, s[1..], middle);
      InsertSorted(x, s[1..], middle);
      assert r == [s[0]] + tail;
      forall i, j | 0 <= i < j < |r|
        ensures Before(middle, r[i], r[j])
      {
        if i == 0 {
          var y := r[j];
          assert y == tail[j - 1];
          assert y in multiset(tail);
          if y == x {
          } else {
            assert y in multiset(s[1..]);
            var k :| 0 <= k < |s[1..]| && s[1..][k] == y;
            assert Before(middle, s[0], s[k + 1]);
          }
        } else {
          assert r[i] == tail[i - 1] && r[j] == tail[j - 1];
        }
      }
    }
  }

  /** The visit order is non-decreasing in distance from the middle, and at
      equal distance lower indices come first (the input of the stable sort
      is ascending). */
  lemma {:induction false} SpiralOrderSorted(c: seq<int>, middle: int)
    requires Ascending(c)
    ensures SpiralSorted(SpiralOrder(c, middle), middle)
  {
    if |c| > 0 {
      var rest := SpiralOrder(c[1..], middle);
      SpiralOrderSorted(c[1..], middle);
      forall k | 0 <= k < |rest|
        ensures c[0] <= rest[k]
      {
        assert rest[k] in multiset(rest);
        assert rest[k] in multiset(c[1..]);
        var j :| 0 <= j < |c[1..]| && c[1..][j] == rest[k];
        assert c[0] <= c[j + 1];
      }
      InsertSorted(c[0], rest, middle);
    }
  }

  /** Two orderings of the same candidates that are both spiral-sorted are
      the same list: any stable sort of the ascending candidates yields the
      order modelled here. */
  lemma {:induction false} SpiralSortedUnique(a: seq<int>, b: seq<int>, middle: int)
    requires multiset(a) == multiset(b)
    requires SpiralSorted(a, middle) && SpiralSorted(b, middle)
    ensures a == b
    decreases |a|
  {
    assert |a| == |multiset(a)| == |b|;
    if |a| > 0 {
      SameHead(a, b, middle);
      SameTail(a, b);
      SpiralSortedUnique(a[1..], b[1..], middle);
      assert a == [a[0]] + a[1..];
      assert b == [b[0]] + b[1..];
    }
  }

  /** The first elements of two spiral-sorted orderings of the same
      candidates precede each other, so they are equal. */
  lemma SameHead(a: seq<int>, b: seq<int>, middle: int)
    requires |a| > 0 && multiset(a) == multiset(b)
    requires SpiralSorted(a, middle) && SpiralSorted(b, middle)
    ensures |b| > 0 && a[0] == b[0]
  {
    assert a[0] in multiset(b);
    var j :| 0 <= j < |b| && b[j] == a[0];
    assert b[0] in multiset(a);
    var i :| 0 <= i < |a| && a[i] == b[0];
    assert j > 0 ==> Before(middle, b[0], a[0]);
    assert i > 0 ==> Before(middle, a[0], b[0]);
  }

  lemma SameTail(a: seq<int>, b: seq<int>)
    requires |a| > 0 && |b| > 0 && a[0] == b[0] && multiset(a) == multiset(b)
    ensures multiset(a[1..]) == multiset(b[1..])
  {
    assert a == [a[0]] + a[1..];
    assert b == [b[0]] + b[1..];
    assert multiset(a[1..]) == multiset(a) - multiset{a[0]};
    assert multiset(b[1..]) == multiset(b) - multiset{a[0]};
  }

  // ---------------------------------------------------------------------------
  // The walk
  // ---------------------------------------------------------------------------

  /** What the walk over `frames` (stored offsets, in visit order) returns:
      the verdict and the number of classifier calls. */
  function Verdict(frames: seq<nat>, detect: nat -> Detection): (r: (bool, nat))
    ensures r.1 <= |frames|
    ensures |frames| > 0 ==> r.1 >= 1
  {
    if |frames| == 0 then (false, 0)
    else
      var d := detect(frames[0]);
      if d.isHuman then (false, 1)
      else if d.isAnimal then (true, 1)
      else
        var rest := Verdict(frames[1..], detect);
        (rest.0, rest.1 + 1)
  }

  /** The walk stops at the first decisive frame: a human there is a veto
      (even when an animal is seen too), an animal without a human accepts;
      the count is the number of frames visited. */
  lemma {:induction false} VerdictFirstDecisive(frames: seq<nat>, detect: nat -> Detection, i: nat)
    requires i < |frames| && Decisive(detect(frames[i]))
    requires forall k :: 0 <= k < i ==> !Decisive(detect(frames[k]))
    ensures Verdict(frames, detect) == (Accepts(detect(frames[i])), i + 1)
  {
    if i > 0 {
      assert !Decisive(detect(frames[0]));
      assert forall k :: 0 <= k < i - 1 ==> frames[1..][k] == frames[k + 1];
      VerdictFirstDecisive(frames[1..], detect, i - 1);
    }
  }

  /** Without a decisive frame every candidate is visited and the event is
      rejected. */
  lemma {:induction false} VerdictExhausted(frames: seq<nat>, detect: nat -> Detection)
    requires forall k :: 0 <= k < |frames| ==> !Decisive(detect(frames[k]))
    ensures Verdict(frames, detect) == (false, |frames|)
  {
    if |frames| > 0 {
      assert forall k :: 0 <= k < |frames| - 1 ==> frames[1..][k] == frames[k + 1];
      VerdictExhausted(frames[1..], detect);
    }
  }

  /** An accepted event has an accepting frame among the visited ones. */
  lemma {:induction false} VerdictAcceptWitness(frames: seq<nat>, detect: nat -> Detection)
    requires Verdict(frames, detect).0
    ensures 1 <= Verdict(frames, detect).1 && Accepts(detect(frames[Verdict(frames, detect).1 - 1]))
  {
    if !Decisive(detect(frames[0])) {
      VerdictAcceptWitness(frames[1..], detect);
    }
  }

  /** The for-loop of `_process_event` over the frames in visit order, with
      its early returns. */
  method Walk(frames: seq<nat>, detect: nat -> Detection) returns (animal: bool, count: nat)
    ensures (animal, count) == Verdict(frames, detect)
  {
    count := 0;
    while count < |frames|
      invariant count <= |frames|
      invariant forall k :: 0 <= k < count ==> !Decisive(detect(frames[k]))
    {
      var d := detect(frames[count]);
      count := count + 1;
      if d.isHuman {
        VerdictFirstDecisive(frames, detect, count - 1);
        return false, count;
      }
      if d.isAnimal {
        VerdictFirstDecisive(frames, detect, count - 1);
        return true, count;
      }
    }
    VerdictExhausted(frames, detect);
    animal := false;
  }

  /** The stored offsets of the candidates, in visit order
      (`lst_indx_frames_from_centre` after the sort). */
  function SpiralFrames(offsets: seq<nat>, f: Fraction): (r: seq<nat>)
    requires f.den > 0 && f.num > 0
    ensures |r| == NrElements(|offsets|, f)
  {
    var n := |offsets|;
    var order := SpiralOrder(Candidates(n, NrElements(n, f)), n / 2);
    SpiralOrderInRange(n, f);
    Pick(offsets, order)
  }

  /** `[offsets[i] for i in order]`. */
  function Pick(offsets: seq<nat>, order: seq<int>): (r: seq<nat>)
    requires forall k :: 0 <= k < |order| ==> 0 <= order[k] < |offsets|
    ensures |r| == |order|
  {
    seq(|order|, k requires 0 <= k < |order| => offsets[order[k]])
  }

  lemma SpiralOrderInRange(n: nat, f: Fraction)
    requires f.den > 0 && f.num > 0
    ensures forall k :: 0 <= k < |SpiralOrder(Candidates(n, NrElements(n, f)), n / 2)| ==>
      0 <= SpiralOrder(Candidates(n, NrElements(n, f)), n / 2)[k] < n
  {
    var count := NrElements(n, f);
    var c := Candidates(n, count);
    var order := SpiralOrder(c, n / 2);
    NrElementsBounds(n, f);
    CandidatesInRange(n, count);
    forall k | 0 <= k < |order|
      ensures 0 <= order[k] < n
    {
      assert order[k] in multiset(c);
    }
  }

  /** What `_process_event` returns for an event with header offsets
      `offsets`, or the exception that escapes it. */
  function EventResult(offsets: seq<nat>, f: Fraction, detect: nat -> Detection): Result<(bool, nat), string>
    requires f.den > 0
  {
    if f.num <= 0 then
      if |offsets| == 0 then Err("IndexError")
      else Ok((Accepts(detect(offsets[|offsets| / 2])), 1))
    else Ok(Verdict(SpiralFrames(offsets, f), detect))
  }

  /** `_process_event`. With `detector_fraction <= 0` only the middle frame
      is classified; `frame_indices[len // 2]` raises IndexError on an event
      without frames. Otherwise the spiral walk runs over the candidates. */
  method ProcessEvent(offsets: seq<nat>, f: Fraction, detect: nat -> Detection)
    returns (r: Result<(bool, nat), string>)
    requires f.den > 0
    ensures r == EventResult(offsets, f, detect)
    ensures r.Err? <==> f.num <= 0 && |offsets| == 0
    ensures f.num <= 0 && |offsets| > 0 ==>
      r == Ok((Accepts(detect(offsets[|offsets| / 2])), 1))
    ensures f.num > 0 ==> r == Ok(Verdict(SpiralFrames(offsets, f), detect))
  {
    var middle := |offsets| / 2;
    if f.num <= 0 {
      if middle >= |offsets| {
        return Err("IndexError");
      }
      var d := detect(offsets[middle]);
      return Ok((d.isAnimal && !d.isHuman, 1));
    }
    var frames := SpiralFrames(offsets, f);
    var animal, count := Walk(frames, detect);
    r := Ok((animal, count));
  }

  /** The spiral walk never runs more inferences than there are candidates,
      and with no candidates it runs none and rejects. */
  lemma SpiralBound(offsets: seq<nat>, f: Fraction, detect: nat -> Detection)
    requires f.den > 0 && f.num > 0
    ensures Verdict(SpiralFrames(offsets, f), detect).1 <= NrElements(|offsets|, f)
    ensures NrElements(|offsets|, f) == 0 ==> Verdict(SpiralFrames(offsets, f), detect) == (false, 0)
    ensures |offsets| == 0 ==> Verdict(SpiralFrames(offsets, f), detect) == (false, 0)
  {
  }

  /** The visited frames are stored offsets of the event, taken from the
      frames nearest the middle outwards. */
  lemma SpiralFramesFromEvent(offsets: seq<nat>, f: Fraction)
    requires f.den > 0 && f.num > 0
    ensures forall k :: 0 <= k < |SpiralFrames(offsets, f)| ==> SpiralFrames(offsets, f)[k] in offsets
  {
    var n := |offsets|;
    var count := NrElements(n, f);
    CandidatesInRange(n, count);
    var order := SpiralOrder(Candidates(n, count), n / 2);
    forall k | 0 <= k < |SpiralFrames(offsets, f)|
      ensures SpiralFrames(offsets, f)[k] in offsets
    {
      assert order[k] in multiset(Candidates(n, count));
    }
  }

  /** When every frame is a candidate (`detector_fraction` 1.0), the
      candidates are all frame numbers and the walk starts at the middle
      frame. */
  lemma SpiralStartsAtMiddle(offsets: seq<nat>, f: Fraction)
    requires f.den > 0 && f.num > 0
    requires |offsets| >= 1 && NrElements(|offsets|, f) == |offsets|
    ensures SpiralFrames(offsets, f)[0] == offsets[|offsets| / 2]
  {
    var n := |offsets|;
    var c := Candidates(n, n);
    var m := n / 2;
    forall k | 0 <= k < n
      ensures c[k] == k
    {
      if n >= 2 {
        assert c[k] == RoundHalfEven(k * (n - 1), n - 1);
        RoundHalfEvenExact(k, n - 1);
      }
    }
    assert c[m] == m;
    CandidatesInRange(n, n);
    var order := SpiralOrder(c, m);
    SpiralOrderSorted(c, m);
    assert m in multiset(order);
    var j :| 0 <= j < |order| && order[j] == m;
    if j > 0 {
      assert Before(m, order[0], order[j]);
    }
    assert order[0] == m;
  }

  // ---------------------------------------------------------------------------
  // Deletion
  // ---------------------------------------------------------------------------

  /** Whether `p` is `dir` itself or lies below it. */
  predicate Within(p: string, dir: string)
  {
    p == dir || StartsWith(p, dir + "/")
  }

  /** `_delete_event`: `rm -r dir`, but only when the directory's basename
      starts with "event_"; any other directory is left alone. The file
      system is the set of existing paths. */
  function DeleteEvent(paths: set<string>, dir: string): (r: set<string>)
    ensures r <= paths
    ensures StartsWith(Basename(dir), "event_") ==> forall p :: p in r ==> !Within(p, dir)
    ensures !StartsWith(Basename(dir), "event_") ==> r == paths
    ensures forall p :: p in paths && !Within(p, dir) ==> p in r
  {
    if StartsWith(Basename(dir), "event_") then set p | p in paths && !Within(p, dir)
    else paths
  }

  /** Deleting an event twice is the same as deleting it once. */
  lemma DeleteEventIdempotent(paths: set<string>, dir: string)
    ensures DeleteEvent(DeleteEvent(paths, dir), dir) == DeleteEvent(paths, dir)
  {
  }
}
