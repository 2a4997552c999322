/** Shared vocabulary of the model: bytes, optional values and results,
    decimal rendering of numbers, path and prefix helpers, and the
    round-half-to-even rule that both Python's `round` and numpy's `round`
    apply to floats. */
module Common {

  newtype byte = x: int | 0 <= x < 256

  datatype Option<+T> = None | Some(value: T)

  datatype Result<+T, +E> = Ok(value: T) | Err(error: E)

  function Min(a: int, b: int): int { if a <= b then a else b }

  function Max(a: int, b: int): int { if a <= b then b else a }

  predicate StartsWith<T(==)>(s: seq<T>, prefix: seq<T>)
  {
    |prefix| <= |s| && s[..|prefix|] == prefix
  }

  // ---------------------------------------------------------------------------
  // Decimal rendering (Python's str(int)) and its inverse
  // ---------------------------------------------------------------------------

  function DigitChar(d: nat): char
    requires d < 10
  {
    "0123456789"[d]
  }

  function DigitValue(c: char): Option<nat>
  {
    if '0' <= c <= '9' then Some((c as int - '0' as int) as nat) else None
  }

  /** The decimal digits of `n`, most significant first, without leading zeros. */
  function ShowNat(n: nat): (s: string)
    ensures |s| >= 1
    decreases n
  {
    if n < 10 then [DigitChar(n)] else ShowNat(n / 10) + [DigitChar(n % 10)]
  }

  /** Python's str() of a (possibly negative) integer. */
  function ShowInt(i: int): (s: string)
    ensures |s| >= 1
  {
    if i < 0 then "-" + ShowNat(-i) else ShowNat(i)
  }

  /** Reads a non-empty string of decimal digits; None for anything else. */
  function ParseNat(s: string): Option<nat>
    decreases |s|
  {
    if |s| == 0 then None
    else
      var last := DigitValue(s[|s| - 1]);
      if last.None? then None
      else if |s| == 1 then last
      else
        var front := ParseNat(s[..|s| - 1]);
        if front.None? then None else Some(front.value * 10 + last.value)
  }

  lemma DigitRoundTrip(d: nat)
    requires d < 10
    ensures DigitValue(DigitChar(d)) == Some(d)
  {
  }

  lemma {:induction false} ParseShowNat(n: nat)
    ensures ParseNat(ShowNat(n)) == Some(n)
    decreases n
  {
    var s := ShowNat(n);
    if n < 10 {
      DigitRoundTrip(n);
      assert s == [DigitChar(n)];
    } else {
      var q, d := n / 10, n % 10;
      ParseShowNat(q);
      DigitRoundTrip(d);
      assert s == ShowNat(q) + [DigitChar(d)];
      assert s[..|s| - 1] == ShowNat(q);
      assert s[|s| - 1] == DigitChar(d);
      assert q * 10 + d == n;
    }
  }

  /** Distinct numbers have distinct decimal renderings. */
  lemma ShowNatInjective(a: nat, b: nat)
    requires ShowNat(a) == ShowNat(b)
    ensures a == b
  {
    ParseShowNat(a);
    ParseShowNat(b);
  }

  // ---------------------------------------------------------------------------
  // Files on disk
  // ---------------------------------------------------------------------------

  /** The files on disk, by path, with their contents. */
  type Disk = map<string, seq<byte>>

  function FileContent(disk: Disk, path: string): seq<byte>
  {
    if path in disk then disk[path] else []
  }

  /** `open(path, "ab").write(b)`: creates the file when missing, then appends. */
  function Append(disk: Disk, path: string, b: seq<byte>): (d: Disk)
    ensures path in d && d[path] == FileContent(disk, path) + b
    ensures forall p :: p != path ==> FileContent(d, p) == FileContent(disk, p)
    ensures d.Keys == disk.Keys + {path}
  {
    disk[path := FileContent(disk, path) + b]
  }

  /** Two appends to one file are one append of both. */
  lemma AppendTwice(disk: Disk, path: string, a: seq<byte>, b: seq<byte>)
    ensures Append(Append(disk, path, a), path, b) == Append(disk, path, a + b)
  {
    assert FileContent(disk, path) + a + b == FileContent(disk, path) + (a + b);
  }

  // ---------------------------------------------------------------------------
  // Paths
  // ---------------------------------------------------------------------------

  /** `os.path.join(dir, name)` for a relative `name`. */
  function JoinPath(dir: string, name: string): string
  {
    dir + "/" + name
  }

  lemma JoinPathInjective(dir: string, a: string, b: string)
    requires JoinPath(dir, a) == JoinPath(dir, b)
    ensures a == b
  {
    var k := |dir| + 1;
    assert a == JoinPath(dir, a)[k..];
    assert b == JoinPath(dir, b)[k..];
  }

  /** `os.path.basename(p)`: everything after the last '/'. */
  function Basename(p: string): (r: string)
    ensures '/' !in r
    ensures |r| <= |p| && r == p[|p| - |r|..]
    ensures |r| < |p| ==> p[|p| - |r| - 1] == '/'
    decreases |p|
  {
    if |p| == 0 then ""
    else if p[|p| - 1] == '/' then ""
    else
      var init := p[..|p| - 1];
      var front := Basename(init);
      assert p == init + [p[|p| - 1]];
      assert init[|init| - |front|..] + [p[|p| - 1]] == p[|p| - |front| - 1..];
      front + [p[|p| - 1]]
  }

  // ---------------------------------------------------------------------------
  // Rounding
  // ---------------------------------------------------------------------------

  /** The integer nearest to num/den, ties going to the even neighbour
      (round-half-to-even, as Python's `round` and numpy's `round` do). */
  function RoundHalfEven(num: int, den: int): (r: int)
    requires den > 0
    ensures -den <= 2 * (num - r * den) <= den
    ensures 2 * (num - r * den) == den ==> r % 2 == 0
    ensures 2 * (num - r * den) == -den ==> r % 2 == 0
    ensures num >= 0 ==> r >= 0
  {
    var q := num / den;
    var rem := num % den;
    assert num - q * den == rem;
    if 2 * rem < den then q
    else if 2 * rem > den then q + 1
    else if q % 2 == 0 then q
    else q + 1
  }

  /** Multiplying by a natural number keeps the order. */
  lemma MulMono(a: nat, b: nat, d: nat)
    requires a <= b
    ensures a * d <= b * d
  {
  }

  /** x >= y + 1 scales to x*d >= y*d + d for positive d. */
  lemma MulGap(x: int, y: int, d: int)
    requires x >= y + 1 && d > 0
    ensures x * d >= y * d + d
  {
    var k := x - y - 1;
    assert k >= 0;
    assert k * d >= 0;
    assert x * d == y * d + d + k * d;
  }

  /** Rounding is monotone: a larger numerator never rounds lower. */
  lemma RoundHalfEvenMonotone(a: int, b: int, den: int)
    requires den > 0 && a <= b
    ensures RoundHalfEven(a, den) <= RoundHalfEven(b, den)
  {
    var ra, rb := RoundHalfEven(a, den), RoundHalfEven(b, den);
    if ra > rb {
      MulGap(ra, rb, den);
      assert false;
    }
  }

  /** A value in [0, hi] rounds to a value in [0, hi]. */
  lemma RoundHalfEvenWithin(num: int, den: int, hi: int)
    requires den > 0 && 0 <= num <= hi * den
    ensures 0 <= RoundHalfEven(num, den) <= hi
  {
    var r := RoundHalfEven(num, den);
    if r > hi {
      MulGap(r, hi, den);
      assert false;
    }
  }

  /** An exact multiple rounds to its quotient. */
  lemma RoundHalfEvenExact(q: int, den: int)
    requires den > 0
    ensures RoundHalfEven(q * den, den) == q
  {
    var r := RoundHalfEven(q * den, den);
    if r > q {
      MulGap(r, q, den);
    } else if r < q {
      MulGap(q, r, den);
    }
  }
}
