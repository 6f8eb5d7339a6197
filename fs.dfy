/**
 * Resolving a clash between an output path and what already exists on disk
 * (src/utils/fs.rs): the rename step `file.txt` to `file_1.txt` to
 * `file_2.txt`, the search for the first free name, the four answers to the
 * overwrite question, and removal. The disk is a set of files and a set of
 * directories held by a `FileSystem` object; the question's answer is a
 * parameter.
 */
module Fs {
  import opened Wrappers
  import opened Strings
  import opened Paths

  /** `is_path_stdin`: the path written as a lone `-`. */
  predicate IsPathStdin(p: Path)
  {
    p.parent == "" && p.fileName == "-"
  }

  /** The stem `base_n`. */
  function Numbered(base: string, n: nat): (r: string)
    ensures |r| > |base| && r[..|base|] == base && r[|base|] == '_'
  {
    base + "_" + ShowNat(n)
  }

  /** A text of digits holds no `_` and no `.`. */
  lemma DigitsHaveNoMarks(s: string)
    requires AllDigits(s)
    ensures '_' !in s && '.' !in s
  {
    forall k | 0 <= k < |s|
      ensures s[k] != '_' && s[k] != '.'
    {
      assert IsDigit(s[k]);
    }
  }

  /** `base_n` is split back at its last `_` into `base` and the digits of `n`. */
  lemma NumberedReadsBack(base: string, n: nat)
    ensures RSplitOnce(Numbered(base, n), '_') == Some((base, ShowNat(n)))
  {
    DigitsHaveNoMarks(ShowNat(n));
    RSplitOnceAt(base, '_', ShowNat(n));
    assert Numbered(base, n) == base + ['_'] + ShowNat(n);
  }

  /**
   * The new stem of `rename_or_increment_filename`: a stem ending in `_`
   * followed by digits (possibly none) gets the number after them, the empty
   * digit string counting as 0; any other stem gets `_1` appended.
   */
  function Incremented(stem: string): string
  {
    match RSplitOnce(stem, '_')
    case Some((base, number)) =>
      if AllDigits(number) then Numbered(base, ParseNat(number) + 1) else Numbered(stem, 1)
    case None => Numbered(stem, 1)
  }

  /** Every new stem is a `base_n` with `n` at least 1. */
  lemma IncrementedShape(stem: string) returns (base: string, n: nat)
    ensures Incremented(stem) == Numbered(base, n) && n >= 1
  {
    match RSplitOnce(stem, '_')
    case Some((b, number)) =>
      if AllDigits(number) {
        base, n := b, ParseNat(number) + 1;
      } else {
        base, n := stem, 1;
      }
    case None =>
      base, n := stem, 1;
  }

  /** `file_1` becomes `file_2`: a trailing number is counted up. */
  lemma IncrementedCounts(base: string, n: nat)
    ensures Incremented(Numbered(base, n)) == Numbered(base, n + 1)
  {
    NumberedReadsBack(base, n);
    ParseShowNat(n);
  }

  /** `file` becomes `file_1`: a stem without `_` gets `_1`. */
  lemma IncrementedFresh(stem: string)
    requires '_' !in stem
    ensures Incremented(stem) == stem + "_1"
  {
    assert RSplitOnce(stem, '_').None?;
    assert ShowNat(1) == "1";
  }

  /** `file_` becomes `file_1`: an empty number is read as 0. */
  lemma IncrementedEmptyNumber(base: string)
    ensures Incremented(base + "_") == base + "_1"
  {
    RSplitOnceAt(base, '_', "");
    assert base + "_" == base + ['_'] + "";
    assert ShowNat(1) == "1";
  }

  /** `file_v2` becomes `file_v2_1`: a suffix that is not all digits is kept. */
  lemma IncrementedNotANumber(base: string, tail: string)
    requires '_' !in tail && !AllDigits(tail)
    ensures Incremented(base + "_" + tail) == base + "_" + tail + "_1"
  {
    RSplitOnceAt(base, '_', tail);
    assert base + "_" + tail == base + ['_'] + tail;
    assert ShowNat(1) == "1";
  }

  /** A file name made of a stem and, unless it is empty, a dotted extension. */
  function WithExtension(stem: string, ext: string): string
  {
    if ext == "" then stem else stem + "." + ext
  }

  /**
   * `rename_or_increment_filename`, with the new name put together as the
   * new stem followed by the old extension (see the findings: the code as
   * written drops a dotted part of the stem). The directory is kept; when
   * there is an extension, the new name has the old extension and the
   * incremented stem.
   */
  function RenameOrIncrementFilename(p: Path): (r: Path)
    ensures r.parent == p.parent
    ensures FileExtension(p.fileName) != "" ==>
      FileStem(r.fileName) == Incremented(FileStem(p.fileName)) &&
      FileExtension(r.fileName) == FileExtension(p.fileName)
  {
    var stem := Incremented(FileStem(p.fileName));
    var ext := FileExtension(p.fileName);
    if ext != "" then StemAndExtensionOf(stem, ext); Path(p.parent, stem + "." + ext)
    else Path(p.parent, stem)
  }

  /** A name without an extension becomes the incremented name itself. */
  lemma RenameWithoutExtension(p: Path)
    requires FileExtension(p.fileName) == ""
    ensures RenameOrIncrementFilename(p) == Path(p.parent, Incremented(FileStem(p.fileName)))
  {
  }

  /** `file.txt` becomes `file_1.txt`. */
  lemma RenameAddsSuffix(dir: string, stem: string, ext: string)
    requires stem != [] && '_' !in stem && '.' !in ext && ext != ""
    ensures RenameOrIncrementFilename(Path(dir, stem + "." + ext)) == Path(dir, stem + "_1" + "." + ext)
  {
    StemAndExtensionOf(stem, ext);
    IncrementedFresh(stem);
  }

  /** `file_1.txt` becomes `file_2.txt`. */
  lemma RenameCountsUp(dir: string, base: string, n: nat, ext: string)
    requires '.' !in ext && ext != ""
    ensures RenameOrIncrementFilename(Path(dir, Numbered(base, n) + "." + ext)) ==
      Path(dir, Numbered(base, n + 1) + "." + ext)
  {
    StemAndExtensionOf(Numbered(base, n), ext);
    IncrementedCounts(base, n);
  }

  /**
   * `rename_or_increment_filename` as written: the new stem is joined to the
   * directory and `set_extension` then replaces what it takes for the
   * extension of that name, which is everything after its last dot.
   */
  function RenameOrIncrementFilenameAsWritten(p: Path): (r: Path)
    ensures r.parent == p.parent
    ensures FileExtension(p.fileName) != "" ==>
      FileExtension(r.fileName) == FileExtension(p.fileName) &&
      FileStem(r.fileName) == FileStem(Incremented(FileStem(p.fileName)))
  {
    var newName := Incremented(FileStem(p.fileName));
    var ext := FileExtension(p.fileName);
    if ext != "" then
      StemAndExtensionOf(FileStem(newName), ext); Path(p.parent, FileStem(newName) + "." + ext)
    else Path(p.parent, newName)
  }

  /** For a stem with no inner dot, the code as written and the corrected step agree. */
  lemma AsWrittenAgrees(p: Path)
    requires var stem := FileStem(p.fileName); forall k :: 0 < k < |stem| ==> stem[k] != '.'
    ensures RenameOrIncrementFilenameAsWritten(p) == RenameOrIncrementFilename(p)
  {
    IncrementedNoInnerDot(FileStem(p.fileName));
    AllStem(Incremented(FileStem(p.fileName)));
  }

  /** Incrementing a stem with no dot after its first character adds none. */
  lemma IncrementedNoInnerDot(stem: string)
    requires forall k :: 0 < k < |stem| ==> stem[k] != '.'
    ensures var r := Incremented(stem); forall k :: 0 < k < |r| ==> r[k] != '.'
  {
    var base, n := IncrementedShape(stem);
    var r := Incremented(stem);
    DigitsHaveNoMarks(ShowNat(n));
    forall k | 0 < k < |r|
      ensures r[k] != '.'
    {
      if k < |base| {
        assert r[k] == stem[k];
      } else if k > |base| {
        assert r[k] == ShowNat(n)[k - |base| - 1];
      }
    }
  }

  /**
   * With a dotted stem the code as written loses the inner part:
   * `archive.tar.gz` becomes `archive.gz` where `archive.tar_1.gz` was meant,
   * so the new stem is not the incremented old one.
   */
  lemma AsWrittenDropsInnerPart(dir: string, s: string, t: string, ext: string)
    requires s != [] && '.' !in s && '.' !in t && '_' !in s && '_' !in t && '.' !in ext && ext != ""
    ensures RenameOrIncrementFilenameAsWritten(Path(dir, s + "." + t + "." + ext)) == Path(dir, s + "." + ext)
    ensures RenameOrIncrementFilename(Path(dir, s + "." + t + "." + ext)) == Path(dir, s + "." + t + "_1" + "." + ext)
    ensures FileStem(s + "." + ext) != Incremented(FileStem(s + "." + t + "." + ext))
  {
    var stem := s + "." + t;
    assert s + "." + t + "." + ext == stem + "." + ext;
    StemAndExtensionOf(stem, ext);
    IncrementedFresh(stem);
    assert stem + "_1" == s + "." + (t + "_1");
    StemAndExtensionOf(s, t + "_1");
    StemAndExtensionOf(s, ext);
    assert |s| < |stem + "_1"|;
  }

  /** The path reached from `p` after `k` applications of `step`. */
  function Walk(step: Path -> Path, p: Path, k: nat): Path
  {
    if k == 0 then p else step(Walk(step, p, k - 1))
  }

  /** The path `parent/base_n.ext`. */
  function NumberedPath(parent: string, base: string, n: nat, ext: string): Path
  {
    Path(parent, WithExtension(Numbered(base, n), ext))
  }

  /**
   * A numbered name that the next step reads back as stem `base_n` and
   * extension `ext`: the extension is dot-free, and without one the stem has
   * no dot after its first character.
   */
  predicate Settles(base: string, n: nat, ext: string)
  {
    '.' !in ext && (ext != "" || forall k :: 0 < k < |Numbered(base, n)| ==> Numbered(base, n)[k] != '.')
  }

  /** Whether a numbered name settles does not depend on its number. */
  lemma SettlesAnyNumber(base: string, n: nat, j: nat, ext: string)
    requires Settles(base, n, ext)
    ensures Settles(base, j, ext)
  {
    if ext == "" {
      var a := Numbered(base, n);
      var b := Numbered(base, j);
      DigitsHaveNoMarks(ShowNat(j));
      forall k | 0 < k < |b|
        ensures b[k] != '.'
      {
        if k < |base| {
          assert b[k] == a[k];
        } else if k > |base| {
          assert b[k] == ShowNat(j)[k - |base| - 1];
        }
      }
    }
  }

  /** From a settled name every step counts the number up by one and stays settled. */
  lemma SettledStep(parent: string, base: string, n: nat, next: nat, ext: string)
    requires Settles(base, n, ext) && next == n + 1
    ensures RenameOrIncrementFilename(NumberedPath(parent, base, n, ext)) == NumberedPath(parent, base, next, ext)
    ensures Settles(base, next, ext)
  {
    IncrementedCounts(base, n);
    SettlesAnyNumber(base, n, next, ext);
    if ext != "" {
      StemAndExtensionOf(Numbered(base, n), ext);
    } else {
      AllStem(Numbered(base, n));
    }
  }

  /** One step from anywhere gives a numbered name with a dot-free extension. */
  lemma StepShape(q: Path) returns (base: string, n: nat, ext: string)
    ensures RenameOrIncrementFilename(q) == NumberedPath(q.parent, base, n, ext) && '.' !in ext
    ensures ext == FileExtension(q.fileName)
  {
    base, n := IncrementedShape(FileStem(q.fileName));
    ext := FileExtension(q.fileName);
  }

  /** A numbered name that does not settle does so after one more step. */
  lemma UnsettledStep(parent: string, base: string, n: nat) returns (base': string, n': nat, ext': string)
    requires !Settles(base, n, "")
    ensures RenameOrIncrementFilename(NumberedPath(parent, base, n, "")) == NumberedPath(parent, base', n', ext')
    ensures Settles(base', n', ext')
  {
    var name := Numbered(base, n);
    base', n', ext' := StepShape(NumberedPath(parent, base, n, ""));
    var i :| 0 < i < |name| && name[i] == '.';
    DigitsHaveNoMarks(ShowNat(n));
    assert name[|name| - 1] == ShowNat(n)[|ShowNat(n)| - 1];
    DottedNameHasExtension(name, i);
  }

  /** Different numbers give different paths. */
  lemma NumberedPathInjective(parent: string, base: string, ext: string, m: nat, n: nat)
    requires NumberedPath(parent, base, m, ext) == NumberedPath(parent, base, n, ext)
    ensures m == n
  {
    var a := Numbered(base, m);
    var b := Numbered(base, n);
    assert |a| == |b| by {
      if ext != "" {
        assert |a + "." + ext| == |b + "." + ext|;
      }
    }
    assert a == b by {
      if ext != "" {
        assert a == (a + "." + ext)[..|a|];
        assert b == (b + "." + ext)[..|b|];
      }
    }
    assert ShowNat(m) == a[|base| + 1..] && ShowNat(n) == b[|base| + 1..];
    ParseShowNat(m);
    ParseShowNat(n);
  }

  /** From a settled name on, every step counts the number up by one. */
  lemma SettledOnward(parent: string, base: string, n: nat, ext: string)
    requires Settles(base, n, ext)
    ensures forall j: nat :: n <= j ==>
      RenameOrIncrementFilename(NumberedPath(parent, base, j, ext)) == NumberedPath(parent, base, j + 1, ext)
  {
    forall j: nat | n <= j
      ensures RenameOrIncrementFilename(NumberedPath(parent, base, j, ext)) == NumberedPath(parent, base, j + 1, ext)
    {
      SettlesAnyNumber(base, n, j, ext);
      SettledStep(parent, base, j, j + 1, ext);
    }
  }

  /**
   * A step that counts numbered names up, applied `i` more times from a
   * numbered name at step `s`, gives at step `k = s + i` the number `m = n + i`.
   */
  lemma {:induction false} CountingWalk(step: Path -> Path, p: Path, s: nat, parent: string, base: string,
                                         n: nat, ext: string, i: nat, k: nat, m: nat)
    requires Walk(step, p, s) == NumberedPath(parent, base, n, ext)
    requires forall j: nat :: n <= j ==> step(NumberedPath(parent, base, j, ext)) == NumberedPath(parent, base, j + 1, ext)
    requires k == s + i && m == n + i
    ensures Walk(step, p, k) == NumberedPath(parent, base, m, ext)
    decreases i
  {
    if i > 0 {
      CountingWalk(step, p, s, parent, base, n, ext, i - 1, k - 1, m - 1);
    }
  }

  /** Some number from `n` on gives a path outside the finite set `taken`. */
  lemma {:induction false} FreeNumber(parent: string, base: string, ext: string, n: nat, taken: set<Path>)
    returns (m: nat)
    ensures m >= n && NumberedPath(parent, base, m, ext) !in taken
    decreases |taken|
  {
    var q := NumberedPath(parent, base, n, ext);
    if q !in taken {
      m := n;
    } else {
      m := FreeNumber(parent, base, ext, n + 1, taken - {q});
      if NumberedPath(parent, base, m, ext) == q {
        NumberedPathInjective(parent, base, ext, m, n);
      }
    }
  }

  /**
   * Whatever the finite set of taken paths, repeated renaming reaches a path
   * outside it: after at most two steps the names are `base_n`, `base_n+1`,
   * ... with one extension, all different.
   */
  lemma EventuallyAvailable(p: Path, taken: set<Path>) returns (k: nat)
    ensures k >= 1 && Walk(RenameOrIncrementFilename, p, k) !in taken
  {
    var base, n, ext := StepShape(p);
    var s: nat := 1;
    assert Walk(RenameOrIncrementFilename, p, 1) == NumberedPath(p.parent, base, n, ext);
    if !Settles(base, n, ext) {
      base, n, ext := UnsettledStep(p.parent, base, n);
      s := 2;
    }
    var m := FreeNumber(p.parent, base, ext, n, taken);
    k := s + (m - n);
    SettledOnward(p.parent, base, n, ext);
    CountingWalk(RenameOrIncrementFilename, p, s, p.parent, base, n, ext, m - n, k, m);
  }

  /** No dot after the first character. */
  predicate NoInnerDot(s: string)
  {
    forall k :: 0 < k < |s| ==> s[k] != '.'
  }

  /** Walking `a + b` steps is walking `a` steps and then `b` more. */
  lemma {:induction false} WalkShift(step: Path -> Path, p: Path, a: nat, b: nat)
    ensures Walk(step, p, a + b) == Walk(step, Walk(step, p, a), b)
    decreases b
  {
    if b > 0 {
      WalkShift(step, p, a, b - 1);
    }
  }

  /** `base_n` keeps a dot of `base` that has no dot after it, and adds none after it. */
  lemma NumberedKeepsLastDot(base: string, n: nat, i: nat)
    requires i < |base| && base[i] == '.' && forall k :: i < k < |base| ==> base[k] != '.'
    ensures var r := Numbered(base, n);
      i < |r| && r[..i] == base[..i] && r[i] == '.' && forall k :: i < k < |r| ==> r[k] != '.'
  {
    DigitsHaveNoMarks(ShowNat(n));
    var r := Numbered(base, n);
    forall k | i < k < |r|
      ensures r[k] != '.'
    {
      if k < |base| {
        assert r[k] == base[k];
      } else if k > |base| {
        assert r[k] == ShowNat(n)[k - |base| - 1];
      }
    }
  }

  /** Incrementing a stem keeps its last dot, the text before it, and adds no dot after it. */
  lemma IncrementedKeepsLastDot(s: string, i: nat)
    requires i < |s| && s[i] == '.' && forall k :: i < k < |s| ==> s[k] != '.'
    ensures var r := Incremented(s);
      i < |r| && r[..i] == s[..i] && r[i] == '.' && forall k :: i < k < |r| ==> r[k] != '.'
  {
    match RSplitOnce(s, '_')
    case Some((b, number)) =>
      if AllDigits(number) {
        DigitsHaveNoMarks(number);
        assert s == b + "_" + number;
        forall k | |b| <= k < |s|
          ensures s[k] != '.'
        {
          if k > |b| {
            assert s[k] == number[k - |b| - 1];
          }
        }
        assert s[..|b|] == b;
        NumberedKeepsLastDot(b, ParseNat(number) + 1, i);
      } else {
        NumberedKeepsLastDot(s, 1, i);
      }
    case None =>
      NumberedKeepsLastDot(s, 1, i);
  }

  /**
   * The step as written cuts a stem with an inner dot back to the part
   * before its last dot (`archive.tar` becomes `archive`).
   */
  lemma AsWrittenShortensStem(p: Path, i: nat)
    requires var s := FileStem(p.fileName); 0 < i < |s| && s[i] == '.' && forall k :: i < k < |s| ==> s[k] != '.'
    ensures FileStem(RenameOrIncrementFilenameAsWritten(p).fileName) == FileStem(p.fileName)[..i]
  {
    var s := FileStem(p.fileName);
    var r := Incremented(s);
    IncrementedKeepsLastDot(s, i);
    CutAtLastDot(r, i);
    var ext := FileExtension(p.fileName);
    if ext != "" {
      StemAndExtensionOf(s[..i], ext);
    }
  }

  /** A path whose stem has no inner dot, where the two steps agree. */
  predicate PlainStem(q: Path)
  {
    NoInnerDot(FileStem(q.fileName))
  }

  /** The last dot of a text with an inner dot. */
  lemma LastInnerDot(s: string) returns (i: nat)
    requires !NoInnerDot(s)
    ensures 0 < i < |s| && s[i] == '.' && forall k :: i < k < |s| ==> s[k] != '.'
  {
    i := LastIndexOf(s, '.').value;
  }

  /** The length of a path's stem, which the step as written shortens. */
  function StemLength(q: Path): nat
  {
    |FileStem(q.fileName)|
  }

  /**
   * A step that shortens `measure` wherever `good` fails reaches a path where
   * `good` holds.
   */
  lemma {:induction false} WalkReaches(step: Path -> Path, good: Path -> bool, measure: Path -> nat, p: Path)
    returns (n: nat)
    requires forall x :: !good(x) ==> measure(step(x)) < measure(x)
    ensures good(Walk(step, p, n))
    decreases measure(p)
  {
    if good(p) {
      n := 0;
    } else {
      var m := WalkReaches(step, good, measure, step(p));
      WalkShift(step, p, 1, m);
      n := 1 + m;
    }
  }

  /**
   * Two steps that agree on `good` paths, one of which keeps paths `good`,
   * walk alike from a `good` path.
   */
  lemma {:induction false} WalksAlike(f: Path -> Path, g: Path -> Path, good: Path -> bool, q: Path, j: nat)
    requires forall x :: good(x) ==> f(x) == g(x) && good(g(x))
    requires good(q)
    ensures Walk(f, q, j) == Walk(g, q, j) && good(Walk(g, q, j))
  {
    if j > 0 {
      WalksAlike(f, g, good, q, j - 1);
    }
  }

  /** Where a stem has an inner dot, the step as written shortens it. */
  lemma AsWrittenShortens(x: Path)
    requires !PlainStem(x)
    ensures StemLength(RenameOrIncrementFilenameAsWritten(x)) < StemLength(x)
  {
    var i := LastInnerDot(FileStem(x.fileName));
    AsWrittenShortensStem(x, i);
  }

  /** Some number of steps as written reaches a name whose stem has no inner dot. */
  lemma ReachesPlainStem(p: Path) returns (n: nat)
    ensures PlainStem(Walk(RenameOrIncrementFilenameAsWritten, p, n))
  {
    forall x | !PlainStem(x)
      ensures StemLength(RenameOrIncrementFilenameAsWritten(x)) < StemLength(x)
    {
      AsWrittenShortens(x);
    }
    n := WalkReaches(RenameOrIncrementFilenameAsWritten, PlainStem, StemLength, p);
  }

  /** From a stem without an inner dot, the corrected step keeps it so. */
  lemma StepKeepsPlainStem(q: Path)
    requires PlainStem(q)
    ensures PlainStem(RenameOrIncrementFilename(q))
  {
    IncrementedNoInnerDot(FileStem(q.fileName));
    if FileExtension(q.fileName) == "" {
      AllStem(Incremented(FileStem(q.fileName)));
    }
  }

  /** On stems without an inner dot the two steps agree, and stay on such stems. */
  lemma StepsAgreeOnPlainStems()
    ensures forall x :: PlainStem(x) ==>
      RenameOrIncrementFilenameAsWritten(x) == RenameOrIncrementFilename(x) && PlainStem(RenameOrIncrementFilename(x))
  {
    forall x | PlainStem(x)
      ensures RenameOrIncrementFilenameAsWritten(x) == RenameOrIncrementFilename(x)
      ensures PlainStem(RenameOrIncrementFilename(x))
    {
      AsWrittenAgrees(x);
      StepKeepsPlainStem(x);
    }
  }

  /** From a stem without an inner dot, the two walks are the same walk. */
  lemma WalksAgree(q: Path, j: nat)
    requires PlainStem(q)
    ensures Walk(RenameOrIncrementFilenameAsWritten, q, j) == Walk(RenameOrIncrementFilename, q, j)
    ensures PlainStem(Walk(RenameOrIncrementFilename, q, j))
  {
    StepsAgreeOnPlainStems();
    WalksAlike(RenameOrIncrementFilenameAsWritten, RenameOrIncrementFilename, PlainStem, q, j);
  }

  /**
   * Walking `n` steps of `f` to a `good` path and then `j` steps that leave
   * `taken`, of a step `g` that agrees with `f` on `good` paths, leaves it.
   */
  lemma WalkThenLeave(f: Path -> Path, g: Path -> Path, good: Path -> bool, p: Path, n: nat, j: nat, taken: set<Path>)
    returns (k: nat)
    requires forall x :: good(x) ==> f(x) == g(x) && good(g(x))
    requires good(Walk(f, p, n)) && Walk(g, Walk(f, p, n), j) !in taken
    ensures k == n + j && Walk(f, p, k) !in taken
  {
    k := n + j;
    WalksAlike(f, g, good, Walk(f, p, n), j);
    WalkShift(f, p, n, j);
  }

  /**
   * The loop as written ends too: whatever the finite set of taken paths,
   * repeated renaming with the step as written reaches a path outside it.
   */
  lemma EventuallyAvailableAsWritten(p: Path, taken: set<Path>) returns (k: nat)
    ensures k >= 1 && Walk(RenameOrIncrementFilenameAsWritten, p, k) !in taken
  {
    var n := ReachesPlainStem(p);
    var j := EventuallyAvailable(Walk(RenameOrIncrementFilenameAsWritten, p, n), taken);
    StepsAgreeOnPlainStems();
    k := WalkThenLeave(RenameOrIncrementFilenameAsWritten, RenameOrIncrementFilename, PlainStem, p, n, j, taken);
  }

  /** A walk whose steps so far all exist, and whose current path exists, extends by one. */
  lemma WalkExtends(step: Path -> Path, p: Path, k: nat, existing: set<Path>)
    requires k >= 1 && Walk(step, p, k) in existing
    requires forall j :: 1 <= j < k ==> Walk(step, p, j) in existing
    ensures forall j :: 1 <= j < k + 1 ==> Walk(step, p, j) in existing
  {
    forall j | 1 <= j < k + 1
      ensures Walk(step, p, j) in existing
    {
      if j == k {
        assert Walk(step, p, j) == Walk(step, p, k);
      }
    }
  }

  /** The answer to the overwrite question (`FileConflitOperation`). */
  datatype Decision = Cancel | Overwrite | Rename | Merge

  /** The disk: the paths that exist, each a file or a directory. */
  class FileSystem {
    var files: set<Path>
    var dirs: set<Path>

    /** Nothing is both a file and a directory. */
    predicate Valid()
      reads this
    {
      files !! dirs
    }

    /** `Path::exists`. */
    function Existing(): set<Path>
      reads this
    {
      files + dirs
    }

    constructor (files0: set<Path>, dirs0: set<Path>)
      requires files0 !! dirs0
      ensures Valid() && files == files0 && dirs == dirs0
    {
      files := files0;
      dirs := dirs0;
    }

    /**
     * `remove_file_or_dir`: a directory is removed as one, a file as a file,
     * and a path that is neither is left alone. Afterwards the path does not
     * exist and every other path is what it was.
     */
    method RemoveFileOrDir(p: Path)
      requires Valid()
      modifies this
      ensures Valid() && p !in Existing()
      ensures files == old(files) - {p} && dirs == old(dirs) - {p}
    {
      if p in dirs {
        dirs := dirs - {p};
      } else if p in files {
        files := files - {p};
      }
    }

    /**
     * The loop of `rename_for_available_filename`, for a rename step `step`
     * of which some walk from `p` leaves the disk within `bound` steps: step
     * from `p` until the name is free. The result does not exist, is reached
     * by one or more steps, and every path met before it exists.
     */
    method RenameUntilFree(p: Path, step: Path -> Path, ghost bound: nat) returns (r: Path, ghost k: nat)
      requires bound >= 1 && Walk(step, p, bound) !in Existing()
      ensures r !in Existing()
      ensures k >= 1 && r == Walk(step, p, k) && forall j :: 1 <= j < k ==> Walk(step, p, j) in Existing()
    {
      var existing := files + dirs;
      r := step(p);
      k := 1;
      while r in existing
        invariant 1 <= k <= bound && r == Walk(step, p, k)
        invariant forall j :: 1 <= j < k ==> Walk(step, p, j) in existing
        decreases bound - k
      {
        WalkExtends(step, p, k, existing);
        r := step(r);
        k := k + 1;
      }
    }

    /**
     * `rename_for_available_filename` as the program runs it, with the step
     * as written; the loop ends on every disk.
     */
    method RenameForAvailableFilenameAsWritten(p: Path) returns (r: Path)
      ensures r !in Existing()
      ensures exists k :: (k >= 1 && r == Walk(RenameOrIncrementFilenameAsWritten, p, k) &&
        forall j :: 1 <= j < k ==> Walk(RenameOrIncrementFilenameAsWritten, p, j) in Existing())
    {
      ghost var bound := EventuallyAvailableAsWritten(p, Existing());
      ghost var k;
      r, k := RenameUntilFree(p, RenameOrIncrementFilenameAsWritten, bound);
      assert k >= 1 && r == Walk(RenameOrIncrementFilenameAsWritten, p, k) && forall j :: 1 <= j < k ==> Walk(RenameOrIncrementFilenameAsWritten, p, j) in Existing();
    }

    /** `rename_for_available_filename` with the corrected step. */
    method RenameForAvailableFilename(p: Path) returns (r: Path)
      ensures r !in Existing()
      ensures exists k :: (k >= 1 && r == Walk(RenameOrIncrementFilename, p, k) &&
        forall j :: 1 <= j < k ==> Walk(RenameOrIncrementFilename, p, j) in Existing())
    {
      ghost var bound := EventuallyAvailable(p, Existing());
      ghost var k;
      r, k := RenameUntilFree(p, RenameOrIncrementFilename, bound);
      assert k >= 1 && r == Walk(RenameOrIncrementFilename, p, k) && forall j :: 1 <= j < k ==> Walk(RenameOrIncrementFilename, p, j) in Existing();
    }

    /**
     * `resolve_path_conflict`: a path that does not exist is used as it is.
     * Otherwise `answer` is the reply to the overwrite question, or its
     * failure. Cancel gives no path; Overwrite removes the old one and reuses
     * it; Rename keeps the disk and gives the first free path of the walk of
     * `step` (the program's step is `RenameOrIncrementFilenameAsWritten`; both
     * steps leave every disk, by `EventuallyAvailableAsWritten` and
     * `EventuallyAvailable`, which provide `bound`); Merge reuses the path
     * and keeps what is there.
     */
    method ResolvePathConflict(p: Path, answer: Result<Decision>, step: Path -> Path, ghost bound: nat)
      returns (r: Result<Option<Path>>, ghost k: nat)
      requires Valid() && bound >= 1 && Walk(step, p, bound) !in Existing()
      modifies this
      ensures Valid()
      ensures p !in old(Existing()) ==> r == Ok(Some(p)) && unchanged(this)
      ensures p in old(Existing()) && answer.Err? ==> r.Err? && unchanged(this)
      ensures p in old(Existing()) && answer == Ok(Cancel) ==> r == Ok(None) && unchanged(this)
      ensures p in old(Existing()) && answer == Ok(Overwrite) ==>
        r == Ok(Some(p)) && files == old(files) - {p} && dirs == old(dirs) - {p}
      ensures p in old(Existing()) && answer == Ok(Rename) ==>
        r.Ok? && r.value.Some? && r.value.value !in Existing() && unchanged(this) &&
        exists k :: (k >= 1 && r.value.value == Walk(step, p, k) &&
          forall j :: 1 <= j < k ==> Walk(step, p, j) in old(Existing()))
      ensures p in old(Existing()) && answer == Ok(Rename) ==>
        k >= 1 && r.value.value == Walk(step, p, k) && forall j :: 1 <= j < k ==> Walk(step, p, j) in old(Existing())
      ensures p in old(Existing()) && answer == Ok(Merge) ==> r == Ok(Some(p)) && unchanged(this)
      ensures r.Ok? && r.value.Some? && answer != Ok(Merge) ==> r.value.value !in Existing()
    {
      k := 0;
      if p in files + dirs {
        match answer
        case Err => r := Err;
        case Ok(Cancel) => r := Ok(None);
        case Ok(Overwrite) =>
          RemoveFileOrDir(p);
          r := Ok(Some(p));
        case Ok(Rename) =>
          var renamed;
          renamed, k := RenameUntilFree(p, step, bound);
          r := Ok(Some(renamed));
          assert k >= 1 && renamed == Walk(step, p, k) && forall j :: 1 <= j < k ==> Walk(step, p, j) in old(Existing());
        case Ok(Merge) => r := Ok(Some(p));
      } else {
        r := Ok(Some(p));
      }
    }

    /**
     * `resolve_path_conflict` as the program runs it: the rename answer uses
     * the step as written, whose walk leaves every disk.
     */
    method ResolvePathConflictAsWritten(p: Path, answer: Result<Decision>) returns (r: Result<Option<Path>>)
      requires Valid()
      modifies this
      ensures Valid()
      ensures p !in old(Existing()) ==> r == Ok(Some(p)) && unchanged(this)
      ensures p in old(Existing()) && answer.Err? ==> r.Err? && unchanged(this)
      ensures p in old(Existing()) && answer == Ok(Cancel) ==> r == Ok(None) && unchanged(this)
      ensures p in old(Existing()) && answer == Ok(Overwrite) ==>
        r == Ok(Some(p)) && files == old(files) - {p} && dirs == old(dirs) - {p}
      ensures p in old(Existing()) && answer == Ok(Rename) ==>
        r.Ok? && r.value.Some? && r.value.value !in Existing() && unchanged(this) &&
        exists k :: (k >= 1 && r.value.value == Walk(RenameOrIncrementFilenameAsWritten, p, k) &&
          forall j :: 1 <= j < k ==> Walk(RenameOrIncrementFilenameAsWritten, p, j) in old(Existing()))
      ensures p in old(Existing()) && answer == Ok(Merge) ==> r == Ok(Some(p)) && unchanged(this)
      ensures r.Ok? && r.value.Some? && answer != Ok(Merge) ==> r.value.value !in Existing()
    {
      ghost var bound := EventuallyAvailableAsWritten(p, Existing());
      ghost var k;
      r, k := ResolvePathConflict(p, answer, RenameOrIncrementFilenameAsWritten, bound);
      if p in old(Existing()) && answer == Ok(Rename) {
        assert k >= 1 && r.value.value == Walk(RenameOrIncrementFilenameAsWritten, p, k) &&
          forall j :: 1 <= j < k ==> Walk(RenameOrIncrementFilenameAsWritten, p, j) in old(Existing());
      }
    }
  }
}
