/**
  Path arithmetic used to build references: `ref_path` (POSIX `relpath` from
  the referring file's directory), joining a relative path back onto a
  directory with `..` normalisation, and the `/`-separated text of a path.
 */
module Paths {
  import opened Models

  /** A segment of a canonical path: non-empty, not `.` or `..`, no `/`. */
  predicate IsSegment(s: string)
  {
    |s| > 0 && s != "." && s != ".." && '/' !in s
  }

  /** What `Path.resolve()` produces: every segment is a proper name. */
  predicate Canonical(p: Path)
  {
    forall i :: 0 <= i < |p| ==> IsSegment(p[i])
  }

  /** `Path.parent`; the root is its own parent. */
  function Parent(p: Path): (r: Path)
    ensures p == [] ==> r == []
    ensures p != [] ==> |r| == |p| - 1 && p == r + [p[|p| - 1]]
  {
    if p == [] then [] else p[..|p| - 1]
  }

  /** `Path.name`: the last segment, or "" for the root. */
  function Name(p: Path): (r: string)
    ensures p != [] ==> r == p[|p| - 1]
    ensures p == [] ==> r == ""
  {
    if p == [] then "" else p[|p| - 1]
  }

  /** `p` lies strictly below `root` (what a recursive glob under `root` yields). */
  predicate IsDescendant(p: Path, root: Path)
  {
    |root| < |p| && p[..|root|] == root
  }

  /** Length of the longest common prefix of two segment sequences. */
  function CommonPrefixLength(a: seq<string>, b: seq<string>): (k: nat)
    ensures k <= |a| && k <= |b|
    ensures a[..k] == b[..k]
    ensures k < |a| && k < |b| ==> a[k] != b[k]
  {
    if a == [] || b == [] || a[0] != b[0] then 0
    else
      var k' := CommonPrefixLength(a[1..], b[1..]);
      assert a[..k' + 1] == [a[0]] + a[1..][..k'];
      assert b[..k' + 1] == [b[0]] + b[1..][..k'];
      k' + 1
  }

  /** `n` copies of `..`. */
  function Ups(n: nat): (r: seq<string>)
    ensures |r| == n
    ensures forall i :: 0 <= i < n ==> r[i] == ".."
  {
    if n == 0 then [] else [".."] + Ups(n - 1)
  }

  /** POSIX `os.path.relpath(dest, start)` as segments (the empty sequence
      is the path `.`): one `..` for every segment of `start` past the
      common prefix, then the rest of `dest`. */
  function RelPath(start: Path, dest: Path): (r: seq<string>)
    ensures start == dest ==> r == []
    ensures IsDescendant(dest, start) ==> r == dest[|start|..]
  {
    var k := CommonPrefixLength(start, dest);
    assert start == dest ==> k == |start|;
    assert IsDescendant(dest, start) ==> k == |start|;
    Ups(|start| - k) + dest[k..]
  }

  /** `ref_path(src, dest)`: the relative path to `dest` from the directory
      containing `src`. */
  function RefPath(src: Path, dest: Path): (r: seq<string>)
    ensures Canonical(dest) ==> Normalise(Parent(src), r) == dest
  {
    var r := RelPath(Parent(src), dest);
    RelPathRoundTrip(Parent(src), dest);
    r
  }

  /** One step of joining a relative segment onto a directory and normalising:
      `..` goes up (never above the root), `.` and empty segments stay put. */
  function Step(base: Path, seg: string): Path
  {
    if seg == ".." then Parent(base)
    else if seg == "." || seg == "" then base
    else base + [seg]
  }

  /** `n` climbs followed by `tail` are one climb followed by the rest. */
  lemma UpsStep(n: nat, tail: seq<string>)
    requires n > 0
    ensures Ups(n) + tail == [".."] + (Ups(n - 1) + tail)
  {
  }

  /** Dropping `n - 1` segments of the parent drops `n` of the path. */
  lemma ParentPrefix(base: Path, n: nat)
    requires 0 < n <= |base|
    ensures Parent(base)[..|Parent(base)| - (n - 1)] == base[..|base| - n]
  {
  }

  /** `(base / rel).resolve()` for a symlink-free tree. */
  function Normalise(base: Path, rel: seq<string>): Path
    decreases |rel|
  {
    if rel == [] then base else Normalise(Step(base, rel[0]), rel[1..])
  }

  lemma {:induction false} NormaliseUps(base: Path, n: nat, tail: seq<string>)
    requires n <= |base|
    ensures Normalise(base, Ups(n) + tail) == Normalise(base[..|base| - n], tail)
    decreases n
  {
    if n > 0 {
      UpsStep(n, tail);
      ParentPrefix(base, n);
      NormaliseUps(Parent(base), n - 1, tail);
    } else {
      assert Ups(n) + tail == tail;
      assert base[..|base| - n] == base;
    }
  }

  lemma {:induction false} NormaliseSegments(base: Path, tail: seq<string>)
    requires Canonical(tail)
    ensures Normalise(base, tail) == base + tail
    decreases |tail|
  {
    if tail != [] {
      assert Step(base, tail[0]) == base + [tail[0]];
      NormaliseSegments(base + [tail[0]], tail[1..]);
      assert base + [tail[0]] + tail[1..] == base + tail;
    }
  }

  /** Joining `relpath(dest, start)` back onto `start` gives `dest`. */
  lemma RelPathRoundTrip(start: Path, dest: Path)
    ensures Canonical(dest) ==> Normalise(start, RelPath(start, dest)) == dest
  {
    if !Canonical(dest) { return; }
    var k := CommonPrefixLength(start, dest);
    NormaliseUps(start, |start| - k, dest[k..]);
    assert start[..k] == dest[..k];
    NormaliseSegments(start[..k], dest[k..]);
    TakeDrop(dest, k);
  }

  lemma TakeDrop<T>(s: seq<T>, k: nat)
    requires k <= |s|
    ensures s[..k] + s[k..] == s
  {
  }

  /** `relpath` never climbs further than it must: its `..` segments all come
      first, and what follows them is a suffix of `dest`. */
  lemma RefPathShape(src: Path, dest: Path)
    ensures var r := RefPath(src, dest);
            var k := CommonPrefixLength(Parent(src), dest);
            && |r| == |Parent(src)| - k + |dest| - k
            && (forall i :: 0 <= i < |Parent(src)| - k ==> r[i] == "..")
            && r[|Parent(src)| - k..] == dest[k..]
  {
  }

  /** The segments joined by `/`. */
  function Join(segs: seq<string>): (r: string)
    ensures segs == [] ==> r == ""
    ensures |segs| == 1 ==> r == segs[0]
  {
    if segs == [] then ""
    else if |segs| == 1 then segs[0]
    else segs[0] + "/" + Join(segs[1..])
  }

  /** `str(Path(...))` of a relative path: `.` when there are no segments. */
  function RelText(rel: seq<string>): (r: string)
    ensures rel == [] ==> r == "."
  {
    if rel == [] then "." else Join(rel)
  }

  /** `str(path)` of an absolute path. */
  function AbsText(p: Path): (r: string)
    ensures |r| > 0 && r[0] == '/'
  {
    "/" + Join(p)
  }

  /** Index of the first `c` in `s`, or `|s|` when there is none. */
  function IndexOf(s: string, c: char): (i: nat)
    ensures i <= |s|
    ensures i < |s| ==> s[i] == c
    ensures forall j :: 0 <= j < i ==> s[j] != c
  {
    if s == [] then 0
    else if s[0] == c then 0
    else 1 + IndexOf(s[1..], c)
  }

  lemma {:induction false} IndexOfAfterPrefix(x: string, c: char, t: string)
    requires c !in x
    ensures IndexOf(x + [c] + t, c) == |x|
    decreases |x|
  {
    if x != [] {
      assert (x + [c] + t)[1..] == x[1..] + [c] + t;
      IndexOfAfterPrefix(x[1..], c, t);
    }
  }

  /** `s.split('/')`. */
  function Split(s: string): (r: seq<string>)
    ensures |r| > 0
    decreases |s|
  {
    var i := IndexOf(s, '/');
    if i == |s| then [s] else [s[..i]] + Split(s[i + 1..])
  }

  /** Splitting a `/`-joined text gives back its segments, when no segment
      contains `/` itself. */
  lemma {:induction false} SplitJoin(segs: seq<string>)
    requires |segs| > 0
    requires forall i :: 0 <= i < |segs| ==> '/' !in segs[i]
    ensures Split(Join(segs)) == segs
    decreases |segs|
  {
    if |segs| == 1 {
      assert IndexOf(segs[0], '/') == |segs[0]|;
    } else {
      var x := segs[0];
      var j := Join(segs[1..]);
      var s := x + "/" + j;
      assert s == Join(segs);
      IndexOfAfterPrefix(x, '/', j);
      assert IndexOf(s, '/') == |x|;
      assert s[..|x|] == x;
      assert s[|x| + 1..] == j;
      assert Split(s) == [x] + Split(j);
      forall i | 0 <= i < |segs[1..]| ensures '/' !in segs[1..][i] {
        assert segs[1..][i] == segs[i + 1];
      }
      SplitJoin(segs[1..]);
      assert segs == [x] + segs[1..];
    }
  }

  /** The docstring example of `ref_path`: from `/foo/bar/baz.md` to
      `/foo/meh/blah.png` is `../meh/blah.png`. */
  lemma RefPathExample()
    ensures RelText(RefPath(["foo", "bar", "baz.md"], ["foo", "meh", "blah.png"]))
            == "../meh/blah.png"
  {
    var r := RefPath(["foo", "bar", "baz.md"], ["foo", "meh", "blah.png"]);
    assert r == ["..", "meh", "blah.png"] by {
      assert Parent(["foo", "bar", "baz.md"]) == ["foo", "bar"];
      RelPathExample();
    }
    JoinExample();
  }

  /** The text of the example's relative path. */
  lemma JoinExample()
    ensures Join(["..", "meh", "blah.png"]) == "../meh/blah.png"
  {
    assert Join(["meh", "blah.png"]) == "meh/blah.png";
  }

  /** `relpath` of the example: one segment in common, so one `..` and the
      rest of the destination. */
  lemma RelPathExample()
    ensures RelPath(["foo", "bar"], ["foo", "meh", "blah.png"]) == ["..", "meh", "blah.png"]
  {
    var start: Path := ["foo", "bar"];
    var dest: Path := ["foo", "meh", "blah.png"];
    assert CommonPrefixLength(start, dest) == 1 by {
      assert CommonPrefixLength(start[1..], dest[1..]) == 0;
    }
    assert Ups(1) == [".."];
    assert dest[1..] == ["meh", "blah.png"];
  }
}
