/** The directory listing of the web view (`process_dir`): which entries are
    listed, in which order, as which kind, and how file sizes are printed
    (`pretty_size`). */
module HtmlGenerator {
  import opened Common

  // ---------------------------------------------------------------------------
  // pretty_size
  // ---------------------------------------------------------------------------

  /** A unit suffix: one text for every amount, or a singular and a plural. */
  datatype Suffix = Fixed(text: string) | Plural(singular: string, multiple: string)

  /** `UNITS_MAPPING`: powers of 1024, largest first. */
  const UNITS: seq<(nat, Suffix)> := [
    (1125899906842624, Fixed(" PB")),
    (1099511627776, Fixed(" TB")),
    (1073741824, Fixed(" GB")),
    (1048576, Fixed(" MB")),
    (1024, Fixed(" KB")),
    (1, Plural(" byte", " bytes"))
  ]

  /** The factors strictly decrease down the table, and the last one is 1. */
  lemma UnitsDescending()
    ensures forall i, j :: 0 <= i < j < |UNITS| ==> UNITS[i].0 > UNITS[j].0
    ensures UNITS[|UNITS| - 1].0 == 1
    ensures forall i :: 0 <= i < |UNITS| - 1 ==> UNITS[i].0 == 1024 * UNITS[i + 1].0
  {
  }

  /** The entry the search loop of `pretty_size` stops at, looking from
      entry `i` on: the first factor `bytes` reaches, or the last entry when
      the loop runs out. */
  function UnitIndex(bytes: nat, i: nat): (r: nat)
    requires i < |UNITS|
    ensures i <= r < |UNITS|
    decreases |UNITS| - i
  {
    if bytes >= UNITS[i].0 || i == |UNITS| - 1 then i else UnitIndex(bytes, i + 1)
  }

  /** The unit `pretty_size` uses for `bytes`. */
  function Unit(bytes: nat): (r: nat)
    ensures r < |UNITS|
  {
    UnitIndex(bytes, 0)
  }

  /** `int(bytes / factor)`. */
  function Amount(bytes: nat): nat
  {
    bytes / UNITS[Unit(bytes)].0
  }

  /** The suffix text for `amount`: the singular only for an amount of 1. */
  function SuffixText(suffix: Suffix, amount: nat): string
  {
    match suffix
    case Fixed(text) => text
    case Plural(singular, multiple) => if amount == 1 then singular else multiple
  }

  function PrettySize(bytes: nat): (r: string)
  {
    var amount := Amount(bytes);
    ShowNat(amount) + SuffixText(UNITS[Unit(bytes)].1, amount)
  }

  lemma {:induction false} UnitIndexSkips(bytes: nat, i: nat)
    requires i < |UNITS|
    ensures forall j :: i <= j < UnitIndex(bytes, i) ==> UNITS[j].0 > bytes
    ensures UnitIndex(bytes, i) < |UNITS| - 1 ==> UNITS[UnitIndex(bytes, i)].0 <= bytes
    decreases |UNITS| - i
  {
    if !(bytes >= UNITS[i].0 || i == |UNITS| - 1) {
      UnitIndexSkips(bytes, i + 1);
    }
  }

  /** For a size of at least one byte the unit is the largest factor the
      size reaches, and the amount is at least 1 and, below petabytes, less
      than 1024. */
  lemma ChosenUnit(bytes: nat)
    requires bytes >= 1
    ensures UNITS[Unit(bytes)].0 <= bytes
    ensures forall j :: 0 <= j < |UNITS| && UNITS[j].0 <= bytes ==> UNITS[j].0 <= UNITS[Unit(bytes)].0
    ensures Amount(bytes) >= 1
    ensures Unit(bytes) > 0 ==> Amount(bytes) < 1024
  {
    var u := Unit(bytes);
    UnitIndexSkips(bytes, 0);
    UnitsDescending();
    var f := UNITS[u].0;
    assert f <= bytes;
    if u > 0 {
      assert UNITS[u - 1].0 > bytes;
      assert UNITS[u - 1].0 == 1024 * f;
      DivBelow(bytes, f, 1024);
    }
    DivAtLeastOne(bytes, f);
  }

  lemma DivBelow(a: nat, f: nat, k: nat)
    requires f > 0 && a < k * f
    ensures a / f < k
  {
    var q := a / f;
    assert q * f <= a;
    if k <= q {
      MulMono(k, q, f);
    }
  }

  lemma DivAtLeastOne(a: nat, f: nat)
    requires 0 < f <= a
    ensures a / f >= 1
  {
  }

  /** `pretty_size(0)` falls through to the byte unit and the plural. */
  lemma PrettySizeZero()
    ensures PrettySize(0) == "0 bytes"
  {
    UnitIndexSkips(0, 0);
    UnitsDescending();
    assert Unit(0) == 5;
  }

  /** The singular " byte" is printed exactly for a size of one byte, and
      every unit above bytes keeps its one suffix. */
  lemma SingularOnlyForOneByte(bytes: nat)
    ensures SuffixText(UNITS[Unit(bytes)].1, Amount(bytes)) == " byte" <==> bytes == 1
    ensures Unit(bytes) < |UNITS| - 1 ==> SuffixText(UNITS[Unit(bytes)].1, Amount(bytes)) == UNITS[Unit(bytes)].1.text
  {
    UnitIndexSkips(bytes, 0);
    UnitsDescending();
    if bytes == 1 {
      assert Unit(bytes) == 5;
    }
  }

  // Reading a printed size back.

  /** Splits a printed size at its first space: the digits and the unit. */
  function SplitAtSpace(s: string): (r: (string, string))
    ensures r.0 + r.1 == s
    ensures ' ' !in r.0
    ensures |r.1| > 0 ==> r.1[0] == ' '
  {
    if |s| == 0 then ("", "")
    else if s[0] == ' ' then ("", s)
    else
      var rest := SplitAtSpace(s[1..]);
      assert s == [s[0]] + s[1..];
      ([s[0]] + rest.0, rest.1)
  }

  lemma {:induction false} ShowNatDigits(n: nat)
    ensures forall i :: 0 <= i < |ShowNat(n)| ==> '0' <= ShowNat(n)[i] <= '9'
    decreases n
  {
    if n >= 10 {
      ShowNatDigits(n / 10);
    }
  }

  lemma {:induction false} SplitDigits(digits: string, rest: string)
    requires forall i :: 0 <= i < |digits| ==> digits[i] != ' '
    requires |rest| > 0 && rest[0] == ' '
    ensures SplitAtSpace(digits + rest) == (digits, rest)
  {
    var s := digits + rest;
    if |digits| > 0 {
      assert s[0] == digits[0] && s[1..] == digits[1..] + rest;
      SplitDigits(digits[1..], rest);
      assert [digits[0]] + digits[1..] == digits;
    } else {
      assert s == rest;
    }
  }

  /** A printed size reads back as its amount and its unit: the digits
      parse to `int(bytes / factor)`, and the rest is the suffix. */
  lemma PrettySizeReadBack(bytes: nat)
    ensures var r := SplitAtSpace(PrettySize(bytes));
      ParseNat(r.0) == Some(Amount(bytes)) && r.1 == SuffixText(UNITS[Unit(bytes)].1, Amount(bytes))
  {
    var amount := Amount(bytes);
    var suffix := SuffixText(UNITS[Unit(bytes)].1, amount);
    ShowNatDigits(amount);
    assert suffix[0] == ' ';
    SplitDigits(ShowNat(amount), suffix);
    ParseShowNat(amount);
  }

  /** Two sizes print the same iff they have the same amount in the same
      unit suffix. */
  lemma PrettySizeInjective(a: nat, b: nat)
    requires PrettySize(a) == PrettySize(b)
    ensures Amount(a) == Amount(b)
    ensures SuffixText(UNITS[Unit(a)].1, Amount(a)) == SuffixText(UNITS[Unit(b)].1, Amount(b))
  {
    PrettySizeReadBack(a);
    PrettySizeReadBack(b);
  }

  // ---------------------------------------------------------------------------
  // Entries
  // ---------------------------------------------------------------------------

  /** An entry `top/name` that `glob(path.join(top, '*'))` found in the
      directory `top`, with what `path.isfile`, `path.isdir` and
      `path.islink` say about it. `glob` does not descend, so `name` holds
      no '/'. */
  datatype Entry = Entry(name: string, isFile: bool, isDir: bool, isLink: bool)

  /** The path `glob` returns for an entry. */
  function PathOf(top: string, e: Entry): string
  {
    JoinPath(top, e.name)
  }

  /** Where the last '.' of `s` is, if there is one. */
  function LastDot(s: string): (r: Option<nat>)
    ensures r.Some? ==> r.value < |s| && s[r.value] == '.' && '.' !in s[r.value + 1..]
    ensures r.None? ==> '.' !in s
  {
    if |s| == 0 then None
    else if s[|s| - 1] == '.' then Some(|s| - 1)
    else
      var r := LastDot(s[..|s| - 1]);
      assert s == s[..|s| - 1] + [s[|s| - 1]];
      if r.Some? then
        assert s[r.value + 1..] == s[..|s| - 1][r.value + 1..] + [s[|s| - 1]];
        r
      else r
  }

  /** Whether `s` is made of dots only. */
  predicate AllDots(s: string)
  {
    forall i :: 0 <= i < |s| ==> s[i] == '.'
  }

  /** `path.splitext` on a name without '/': from the last '.' on, unless
      that dot is one of the name's leading dots; "" otherwise. */
  function NameExt(b: string): (r: string)
    ensures r == "" || (r[0] == '.' && '.' !in r[1..])
    ensures |r| <= |b| && r == b[|b| - |r|..]
  {
    var d := LastDot(b);
    if d.None? || AllDots(b[..d.value]) then ""
    else
      assert b[d.value..][1..] == b[d.value + 1..];
      b[d.value..]
  }

  /** `path.splitext(p)[1]`: the extension lies within the basename. */
  function Ext(p: string): (r: string)
    ensures r == "" || (r[0] == '.' && '.' !in r[1..] && '/' !in r)
  {
    var b := Basename(p);
    SuffixLacks(b, NameExt(b), '/');
    NameExt(b)
  }

  /** A character missing from `b` is missing from each suffix of it. */
  lemma SuffixLacks(b: string, r: string, c: char)
    requires c !in b && |r| <= |b| && r == b[|b| - |r|..]
    ensures c !in r
  {
  }

  /** The extension of a path `glob` returns is that of the entry's name:
      `splitext(entry)` and `splitext(entry_name)` agree. */
  lemma ExtOfEntry(top: string, e: Entry)
    requires '/' !in e.name
    ensures Ext(PathOf(top, e)) == NameExt(e.name)
    ensures Basename(PathOf(top, e)) == e.name
  {
    BasenameOf(top, e.name);
  }

  /** A name `stem` + `ext`, where `ext` is a dot and then no further dot,
      has extension `ext`, whatever dots the stem holds after its first
      character. */
  lemma ExtOfName(stem: string, ext: string)
    requires |stem| > 0 && stem[0] != '.'
    requires |ext| > 0 && ext[0] == '.' && '.' !in ext[1..]
    ensures NameExt(stem + ext) == ext
  {
    var name := stem + ext;
    LastDotOf(stem, ext);
    assert name[..|stem|] == stem;
    assert !AllDots(name[..|stem|]);
    assert name[|stem|..] == ext;
  }

  lemma {:induction false} LastDotOf(stem: string, ext: string)
    requires |ext| > 0 && ext[0] == '.' && '.' !in ext[1..]
    ensures LastDot(stem + ext) == Some(|stem|)
    decreases |ext|
  {
    var s := stem + ext;
    if |ext| > 1 {
      var init := ext[..|ext| - 1];
      assert s[..|s| - 1] == stem + init;
      assert s[|s| - 1] == ext[|ext| - 1] == ext[1..][|ext| - 2];
      assert '.' !in init[1..] by {
        assert forall i :: 0 <= i < |init| - 1 ==> init[1..][i] == ext[1..][i];
      }
      LastDotOf(stem, init);
    }
  }

  /** The basename of `dir/name` is `name` when `name` has no '/'. */
  lemma {:induction false} BasenameOf(dir: string, name: string)
    requires '/' !in name
    ensures Basename(dir + "/" + name) == name
    decreases |name|
  {
    var p := dir + "/" + name;
    if |name| == 0 {
      assert p[|p| - 1] == '/';
    } else {
      var init := name[..|name| - 1];
      assert p[..|p| - 1] == dir + "/" + init;
      assert p[|p| - 1] == name[|name| - 1];
      BasenameOf(dir, init);
      assert init + [name[|name| - 1]] == name;
    }
  }

  /** The entries `process_dir` leaves out: dotfiles, symlinks and HTML
      files. */
  predicate Skipped(e: Entry)
  {
    StartsWith(e.name, ".") || e.isLink || NameExt(e.name) == ".html"
  }

  datatype Kind = Folder | ImageFile | VideoFile | File

  /** The icon kind of a file by its extension. */
  function KindOfExt(ext: string): (k: Kind)
    ensures k != Folder
  {
    if ext in [".jpg", ".jpeg", ".png"] then ImageFile
    else if ext in [".mp4", ".mpeg", ".avi"] then VideoFile
    else File
  }

  /** The icon kind of an entry: directories first, then the extension of
      its name. */
  function Classify(e: Entry): (k: Kind)
    ensures k == Folder <==> e.isDir
  {
    if e.isDir then Folder else KindOfExt(NameExt(e.name))
  }

  /** A JPEG frame is an image, an MP4 clip a video, a raw clip a plain
      file, whatever their names before the extension. */
  lemma ClassifyByExtension(stem: string)
    requires |stem| > 0 && stem[0] != '.'
    ensures Classify(Entry(stem + ".jpg", true, false, false)) == ImageFile
    ensures Classify(Entry(stem + ".mp4", true, false, false)) == VideoFile
    ensures Classify(Entry(stem + ".dat", true, false, false)) == File
  {
    ExtOfName(stem, ".jpg");
    ExtOfName(stem, ".mp4");
    ExtOfName(stem, ".dat");
    KindsOfExts();
  }

  lemma KindsOfExts()
    ensures KindOfExt(".jpg") == ImageFile
    ensures KindOfExt(".mp4") == VideoFile
    ensures KindOfExt(".dat") == File
  {
  }

  // Ordering: `sorted(..., key=lambda p: (path.isfile(p), path.basename(p)))`.

  /** Python's `<` on strings: code point by code point, a proper prefix
      first. */
  predicate StrLess(a: string, b: string)
    decreases |a|
  {
    if |a| == 0 then |b| > 0
    else if |b| == 0 then false
    else if a[0] != b[0] then a[0] < b[0]
    else StrLess(a[1..], b[1..])
  }

  lemma {:induction false} StrLessTotal(a: string, b: string)
    ensures StrLess(a, b) || a == b || StrLess(b, a)
    decreases |a|
  {
    if |a| > 0 && |b| > 0 && a[0] == b[0] {
      StrLessTotal(a[1..], b[1..]);
      if a[1..] == b[1..] {
        assert a == [a[0]] + a[1..] && b == [b[0]] + b[1..];
      }
    }
  }

  lemma {:induction false} StrLessTrans(a: string, b: string, c: string)
    requires StrLess(a, b) && StrLess(b, c)
    ensures StrLess(a, c)
    decreases |a|
  {
    if |a| > 0 && a[0] == b[0] && b[0] == c[0] {
      StrLessTrans(a[1..], b[1..], c[1..]);
    }
  }

  lemma {:induction false} StrLessIrreflexive(a: string)
    ensures !StrLess(a, a)
    decreases |a|
  {
    if |a| > 0 {
      StrLessIrreflexive(a[1..]);
    }
  }

  /** The sort key order: non-files before files, then by basename. */
  predicate KeyLe(a: Entry, b: Entry)
  {
    (!a.isFile && b.isFile)
    || (a.isFile == b.isFile && !StrLess(b.name, a.name))
  }

  lemma StrLessAsym(a: string, b: string)
    requires StrLess(a, b)
    ensures !StrLess(b, a)
  {
    if StrLess(b, a) {
      StrLessTrans(a, b, a);
      StrLessIrreflexive(a);
    }
  }

  lemma KeyLeTotal(a: Entry, b: Entry)
    ensures KeyLe(a, b) || KeyLe(b, a)
  {
    var x, y := a.name, b.name;
    if StrLess(x, y) {
      StrLessAsym(x, y);
    }
  }

  lemma KeyLeTrans(a: Entry, b: Entry, c: Entry)
    requires KeyLe(a, b) && KeyLe(b, c)
    ensures KeyLe(a, c)
  {
    var x, y, z := a.name, b.name, c.name;
    if a.isFile == b.isFile == c.isFile && StrLess(z, x) {
      StrLessTotal(x, y);
      if StrLess(x, y) {
        StrLessTrans(z, x, y);
      }
    }
  }

  /** Each entry's key is at most the next one's. */
  predicate SortedByKey(s: seq<Entry>)
  {
    forall i :: 0 <= i < |s| - 1 ==> KeyLe(s[i], s[i + 1])
  }

  /** Inserts `x` before the first entry whose key is not below it: an
      entry keeps its place before later entries with an equal key. */
  function InsertEntry(x: Entry, s: seq<Entry>): (r: seq<Entry>)
    ensures |r| == |s| + 1 && multiset(r) == multiset(s) + multiset{x}
    ensures r[0] == x || (|s| > 0 && r[0] == s[0])
  {
    if |s| == 0 || KeyLe(x, s[0]) then [x] + s
    else
      assert s == [s[0]] + s[1..];
      [s[0]] + InsertEntry(x, s[1..])
  }

  /** Python's `sorted` with the listing key. */
  function SortEntries(s: seq<Entry>): (r: seq<Entry>)
    ensures |r| == |s| && multiset(r) == multiset(s)
  {
    if |s| == 0 then []
    else
      assert s == [s[0]] + s[1..];
      InsertEntry(s[0], SortEntries(s[1..]))
  }

  lemma {:induction false} InsertEntrySorted(x: Entry, s: seq<Entry>)
    requires SortedByKey(s)
    ensures SortedByKey(InsertEntry(x, s))
  {
    var r := InsertEntry(x, s);
    if |s| > 0 && !KeyLe(x, s[0]) {
      KeyLeTotal(x, s[0]);
      var tail := InsertEntry(x, s[1..]);
      InsertEntrySorted(x, s[1..]);
      assert r == [s[0]] + tail;
      assert KeyLe(s[0], tail[0]);
      forall i | 0 <= i < |r| - 1
        ensures KeyLe(r[i], r[i + 1])
      {
        if i > 0 {
          assert r[i] == tail[i - 1] && r[i + 1] == tail[i];
        }
      }
    }
  }

  /** The listing order: non-files (folders) before files, each group by
      basename, and the same entries as `glob` found. */
  lemma {:induction false} SortEntriesSorted(s: seq<Entry>)
    ensures SortedByKey(SortEntries(s)) && multiset(SortEntries(s)) == multiset(s)
  {
    if |s| > 0 {
      SortEntriesSorted(s[1..]);
      InsertEntrySorted(s[0], SortEntries(s[1..]));
    }
  }

  /** In a sorted listing every entry's key is at most every later one's. */
  lemma {:induction false} SortedPairwise(s: seq<Entry>, i: nat, j: nat)
    requires SortedByKey(s) && i < j < |s|
    ensures KeyLe(s[i], s[j])
    decreases j - i
  {
    if i + 1 < j {
      SortedPairwise(s, i + 1, j);
      KeyLeTrans(s[i], s[i + 1], s[j]);
    }
  }

  /** In a sorted listing no file comes before a non-file. */
  lemma FoldersFirst(s: seq<Entry>, i: nat, j: nat)
    requires SortedByKey(s) && i < j < |s|
    requires s[i].isFile
    ensures s[j].isFile
  {
    SortedPairwise(s, i, j);
  }

  // The rows of the index page.

  /** One row of the listing: the link name (directories end in '/'), the
      icon kind and the printed size ("&mdash;" for anything but a file). */
  datatype Row = Row(name: string, kind: Kind, size: string)

  function RowOf(top: string, e: Entry, sizeOf: string -> nat): Row
  {
    var name := if e.isDir then JoinPath(e.name, "") else e.name;
    var size := if e.isFile then PrettySize(sizeOf(PathOf(top, e))) else "&mdash;";
    Row(name, Classify(e), size)
  }

  /** The rows for the entries `glob` found, in sorted order, skipping the
      entries `process_dir` leaves out. `sizeOf` is `stat(...).st_size`. */
  function Rows(top: string, sorted: seq<Entry>, sizeOf: string -> nat): (r: seq<Row>)
    ensures |r| <= |sorted|
  {
    if |sorted| == 0 then []
    else
      var e := sorted[|sorted| - 1];
      Rows(top, sorted[..|sorted| - 1], sizeOf) + (if Skipped(e) then [] else [RowOf(top, e, sizeOf)])
  }

  /** A row is listed for every entry that is not skipped, and only for
      those. */
  lemma {:induction false} RowsListed(top: string, sorted: seq<Entry>, sizeOf: string -> nat)
    ensures forall row :: row in Rows(top, sorted, sizeOf) <==>
      exists e :: e in sorted && !Skipped(e) && row == RowOf(top, e, sizeOf)
  {
    if |sorted| > 0 {
      var init := sorted[..|sorted| - 1];
      RowsListed(top, init, sizeOf);
      assert sorted == init + [sorted[|sorted| - 1]];
    }
  }
}
