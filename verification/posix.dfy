/**
  POSIX `rename(2)` on a directory tree: what `Path.rename` does when
  `DirectRepo.change` carries out a `MoveCmd`. A rename moves the whole
  subtree below its source, replaces an existing file or empty directory at
  its destination, and fails with the usual error numbers otherwise.

  The module connects the tree to the flat file map of `Sequencer`. For a
  mapping whose existing sources are regular files, the plan that
  `edits_for_raw_moves` builds (run after `mkstemp` has created its
  temporary files) does on the tree exactly what it does on the map of
  regular files, so the delivery and frame properties of `RawMovesSafe`
  carry over. A vacating directory, on the other hand, cannot be renamed
  onto the regular file `mkstemp` created. With temporaries that do not
  exist yet, the same plan moves every subtree where it belongs.
 */
module Posix {
  import opened Models
  import opened Paths
  import opened Sequencer

  /** What a path names: a regular file with its contents, or a directory. */
  datatype Node<C> = File(data: C) | Dir

  /** A file system: every path that exists and what it names. */
  type Tree<C> = map<Path, Node<C>>

  /** The failures of `rename(2)` this model distinguishes. */
  datatype Errno = ENOENT | ENOTDIR | EISDIR | ENOTEMPTY | EINVAL | EBUSY

  /** `p` is `a` or lies below it. */
  predicate Under(p: Path, a: Path)
  {
    |a| <= |p| && p[..|a|] == a
  }

  /** The path `rel` below `k`. */
  function Below(k: Path, rel: seq<string>): Path
  {
    k + rel
  }

  /** The root is a directory, and so is the parent of every other path. */
  predicate WellFormed<C>(t: Tree<C>)
  {
    && [] in t && t[[]].Dir?
    && forall p :: p in t && p != [] ==> Parent(p) in t && t[Parent(p)].Dir?
  }

  /** The regular files of a tree with their contents. */
  function Files<C>(t: Tree<C>): (r: map<Path, C>)
    ensures forall p :: p in r <==> p in t && t[p].File?
    ensures forall p :: p in r ==> t[p] == File(r[p])
  {
    map p | p in t && t[p].File? :: t[p].data
  }

  /** The directories of a tree. */
  function Dirs<C>(t: Tree<C>): (r: set<Path>)
    ensures forall p :: p in r <==> p in t && t[p].Dir?
  {
    set p | p in t && t[p].Dir?
  }

  // ---------------------------------------------------------------------
  // Paths below paths

  lemma UnderParent(p: Path, k: Path)
    requires p != [] && Under(Parent(p), k)
    ensures Under(p, k)
  {
  }

  /** Two paths that both lie at or above `p` lie one at or above the other. */
  lemma Comparable(p: Path, x: Path, y: Path)
    requires Under(p, x) && Under(p, y) && |x| <= |y|
    ensures Under(y, x)
  {
    assert y[..|x|] == p[..|y|][..|x|];
  }

  lemma UnderBelow(k: Path, rel: seq<string>)
    ensures Under(Below(k, rel), k) && Below(k, rel)[|k|..] == rel
  {
    assert (k + rel)[..|k|] == k;
  }

  lemma BelowSplit(p: Path, k: Path)
    requires Under(p, k)
    ensures p == Below(k, p[|k|..])
  {
    assert p == p[..|k|] + p[|k|..];
  }

  lemma ParentBelow(k: Path, rel: seq<string>)
    requires rel != []
    ensures Parent(Below(k, rel)) == Below(k, Parent(rel))
  {
    assert (k + rel)[..|k + rel| - 1] == k + rel[..|rel| - 1];
  }

  /** In a well-formed tree, everything at or above an existing path exists,
      and everything strictly above it is a directory. */
  lemma {:induction false} AncestorsExist<C>(t: Tree<C>, q: Path, k: Path)
    requires WellFormed(t) && q in t && Under(q, k)
    ensures k in t
    ensures q != k ==> t[k].Dir?
    decreases |q|
  {
    if q != k {
      assert Under(Parent(q), k);
      AncestorsExist(t, Parent(q), k);
    }
  }

  // ---------------------------------------------------------------------
  // rename(2)

  /** The paths the subtree at `a` occupies once it is moved to `b`. */
  function Moved<C>(t: Tree<C>, a: Path, b: Path): (r: set<Path>)
    ensures forall p :: p in r ==> Under(p, b) && Below(a, p[|b|..]) in t
    ensures forall rel :: Below(b, rel) in r <==> Below(a, rel) in t
  {
    assert forall q :: Under(q, a) ==> q == Below(a, q[|a|..]) && Below(b, q[|a|..])[|b|..] == q[|a|..];
    assert forall rel :: Below(a, rel)[|a|..] == rel && Under(Below(a, rel), a);
    set q | q in t && Under(q, a) :: Below(b, q[|a|..])
  }

  /** The tree after the subtree at `a` has moved to `b`: whatever was at or
      below `b` is replaced, nothing is left at or below `a` (unless it is
      also below `b`), and every other path is kept. */
  function MoveTree<C>(t: Tree<C>, a: Path, b: Path): (r: Tree<C>)
    ensures forall rel {:trigger Below(b, rel)} ::
              && (Below(b, rel) in r <==> Below(a, rel) in t)
              && (Below(b, rel) in r ==> r[Below(b, rel)] == t[Below(a, rel)])
    ensures forall p :: !Under(p, a) && !Under(p, b) ==> (p in r <==> p in t) && (p in r ==> r[p] == t[p])
    ensures forall p :: Under(p, a) && !Under(p, b) ==> p !in r
  {
    var moved := Moved(t, a, b);
    var kept := set p | p in t && !Under(p, a) && !Under(p, b);
    assert forall rel :: Under(Below(b, rel), b) && Below(b, rel)[|b|..] == rel;
    map p | p in kept + moved :: if Under(p, b) then t[Below(a, p[|b|..])] else t[p]
  }

  /** `os.rename(a, b)` as `rename(2)` does it: nothing happens when `a` and
      `b` are the same existing path; otherwise the parent of `b` must be a
      directory, a directory cannot move below itself (`EINVAL`), `b` cannot
      lie above `a` (`ENOTEMPTY`, tested before the kinds, as Linux does),
      and an existing `b` must be of the same kind as `a` and, if a
      directory, empty. */
  function PosixRename<C>(t: Tree<C>, a: Path, b: Path): (r: Result<Tree<C>, Errno>)
    ensures r.Success? ==> a in t
    ensures r.Success? && a == b ==> r.value == t
    ensures r.Success? && a != b ==>
              && a != [] && b != [] && Parent(b) in t && t[Parent(b)].Dir?
              && !(t[a].Dir? && Under(b, a)) && !Under(a, b)
              && (b in t ==> t[a].Dir? == t[b].Dir?)
              && (b in t && t[b].Dir? ==> forall q :: q in t && Under(q, b) ==> q == b)
              && r.value == MoveTree(t, a, b)
    ensures a !in t ==> r == Failure(ENOENT)
  {
    if a !in t then Failure(ENOENT)
    else if a == b then Success(t)
    else if a == [] || b == [] then Failure(EBUSY)
    else if Parent(b) !in t then Failure(ENOENT)
    else if t[Parent(b)].File? then Failure(ENOTDIR)
    else if t[a].Dir? && Under(b, a) then Failure(EINVAL)
    else if Under(a, b) then Failure(ENOTEMPTY)
    else if b !in t then Success(MoveTree(t, a, b))
    else if t[a].File? && t[b].Dir? then Failure(EISDIR)
    else if t[a].Dir? && t[b].File? then Failure(ENOTDIR)
    else if t[b].Dir? && exists q :: q in t && Under(q, b) && q != b then Failure(ENOTEMPTY)
    else Success(MoveTree(t, a, b))
  }

  /** What a successful rename between two different paths has checked. */
  predicate Renamable<C>(t: Tree<C>, a: Path, b: Path)
  {
    && a in t && a != b && a != [] && b != []
    && Parent(b) in t && t[Parent(b)].Dir?
    && !(t[a].Dir? && Under(b, a))
  }

  /** A successful rename keeps the tree well-formed: every path that
      arrives below `b` finds its parent, and the parent of `b` is neither
      moved nor removed. */
  lemma RenameKeepsWellFormed<C>(t: Tree<C>, a: Path, b: Path)
    requires WellFormed(t) && PosixRename(t, a, b).Success?
    ensures WellFormed(PosixRename(t, a, b).value)
  {
    if a != b {
      assert Renamable(t, a, b);
      var r := MoveTree(t, a, b);
      assert [] in r && r[[]].Dir? by {
        assert !Under([], a) && !Under([], b);
      }
      forall p | p in r && p != [] ensures Parent(p) in r && r[Parent(p)].Dir? {
        ParentSurvives(t, a, b, p);
      }
    }
  }

  lemma ParentSurvives<C>(t: Tree<C>, a: Path, b: Path, p: Path)
    requires WellFormed(t) && Renamable(t, a, b)
    requires p in MoveTree(t, a, b) && p != []
    ensures Parent(p) in MoveTree(t, a, b) && MoveTree(t, a, b)[Parent(p)].Dir?
  {
    if p == b {
      ParentOutsideMove(t, a, b);
    } else if Under(p, b) {
      BelowSplit(p, b);
      ParentOfMoved(t, a, b, p[|b|..]);
    } else {
      ParentOfKept(t, a, b, p);
    }
  }

  lemma ParentOfMoved<C>(t: Tree<C>, a: Path, b: Path, rel: seq<string>)
    requires WellFormed(t) && rel != [] && Below(b, rel) in MoveTree(t, a, b)
    ensures Parent(Below(b, rel)) in MoveTree(t, a, b)
    ensures MoveTree(t, a, b)[Parent(Below(b, rel))].Dir?
  {
    var r := MoveTree(t, a, b);
    assert Below(a, rel) in t;
    ParentBelow(b, rel);
    ParentBelow(a, rel);
    assert Below(a, Parent(rel)) in t && t[Below(a, Parent(rel))].Dir?;
    assert Below(b, Parent(rel)) in r && r[Below(b, Parent(rel))] == t[Below(a, Parent(rel))];
  }

  lemma ParentOfKept<C>(t: Tree<C>, a: Path, b: Path, p: Path)
    requires WellFormed(t) && p in MoveTree(t, a, b) && p != [] && !Under(p, b)
    ensures Parent(p) in MoveTree(t, a, b) && MoveTree(t, a, b)[Parent(p)].Dir?
  {
    assert !Under(p, a);
    assert p in t;
    if Under(Parent(p), a) {
      UnderParent(p, a);
    }
    if Under(Parent(p), b) {
      UnderParent(p, b);
    }
  }

  /** The parent of the destination of a rename lies neither at or below
      its source nor at or below itself. */
  lemma ParentOutsideMove<C>(t: Tree<C>, a: Path, b: Path)
    requires WellFormed(t) && Renamable(t, a, b)
    ensures !Under(Parent(b), a) && !Under(Parent(b), b)
  {
    if Under(Parent(b), a) {
      UnderParent(b, a);
      if Parent(b) != a {
        AncestorsExist(t, Parent(b), a);
      }
    }
  }

  /** Renaming to a path that did not exist and back restores the tree. */
  lemma RenameBack<C>(t: Tree<C>, a: Path, b: Path)
    requires WellFormed(t) && b !in t
    requires PosixRename(t, a, b).Success?
    ensures PosixRename(PosixRename(t, a, b).value, b, a) == Success(t)
  {
    BackSucceeds(t, a, b);
    var back := MoveTree(MoveTree(t, a, b), b, a);
    forall p ensures (p in back <==> p in t) && (p in back ==> back[p] == t[p]) {
      BackAt(t, a, b, p);
    }
    assert back == t;
  }

  lemma BackSucceeds<C>(t: Tree<C>, a: Path, b: Path)
    requires WellFormed(t) && b !in t
    requires PosixRename(t, a, b).Success?
    ensures PosixRename(t, a, b).value == MoveTree(t, a, b)
    ensures PosixRename(MoveTree(t, a, b), b, a) == Success(MoveTree(MoveTree(t, a, b), b, a))
  {
    var t1 := MoveTree(t, a, b);
    BackNotBelow(t, a, b);
    assert Below(b, []) == b && Below(a, []) == a;
    if Under(Parent(a), b) {
      AncestorsExist(t, Parent(a), b);
    }
    if Under(a, b) {
      AncestorsExist(t, a, b);
    }
    assert Parent(a) in t1 && t1[Parent(a)].Dir?;
    assert a !in t1;
  }

  /** A fresh destination of a successful rename does not lie below its
      source: below a regular file there is nothing, and below a directory
      the rename refuses. */
  lemma BackNotBelow<C>(t: Tree<C>, a: Path, b: Path)
    requires WellFormed(t) && b !in t
    requires PosixRename(t, a, b).Success?
    ensures !Under(b, a)
  {
    if Under(b, a) && a != b {
      assert Under(Parent(b), a);
      AncestorsExist(t, Parent(b), a);
    }
  }

  /** One path of the tree renamed there and back. */
  lemma BackAt<C>(t: Tree<C>, a: Path, b: Path, p: Path)
    requires WellFormed(t) && b !in t
    requires PosixRename(t, a, b).Success?
    ensures var back := MoveTree(MoveTree(t, a, b), b, a);
            (p in back <==> p in t) && (p in back ==> back[p] == t[p])
  {
    var t1 := MoveTree(t, a, b);
    if Under(a, b) {
      AncestorsExist(t, a, b);
    }
    if Under(p, a) {
      BelowSplit(p, a);
      assert Below(a, p[|a|..]) in MoveTree(t1, b, a) <==> Below(b, p[|a|..]) in t1;
    } else if Under(p, b) {
      if p in t {
        AncestorsExist(t, p, b);
      }
    }
  }

  /** Renaming a regular file onto a path whose parent is a directory and
      that is not itself a directory is the rename of the flat file map:
      the files change as `Sequencer.Rename` says and the directories stay. */
  lemma FileRenameAgrees<C>(t: Tree<C>, a: Path, b: Path)
    requires WellFormed(t) && a in t && t[a].File?
    requires b != [] && Parent(b) in t && t[Parent(b)].Dir? && !(b in t && t[b].Dir?)
    ensures PosixRename(t, a, b).Success?
    ensures Files(PosixRename(t, a, b).value) == Rename(Files(t), a, b)
    ensures Dirs(PosixRename(t, a, b).value) == Dirs(t)
    ensures WellFormed(PosixRename(t, a, b).value)
  {
    if a == b {
      assert Rename(Files(t), a, b) == Files(t);
    } else {
      FileRenameMoves(t, a, b);
    }
  }

  lemma FileRenameMoves<C>(t: Tree<C>, a: Path, b: Path)
    requires WellFormed(t) && a in t && t[a].File? && a != b
    requires b != [] && Parent(b) in t && t[Parent(b)].Dir? && !(b in t && t[b].Dir?)
    ensures PosixRename(t, a, b) == Success(MoveTree(t, a, b))
    ensures Files(MoveTree(t, a, b)) == Rename(Files(t), a, b)
    ensures Dirs(MoveTree(t, a, b)) == Dirs(t)
    ensures WellFormed(MoveTree(t, a, b))
  {
    assert a != [];
    FileRenameSucceeds(t, a, b);
    var r := MoveTree(t, a, b);
    assert Below(b, []) == b && Below(a, []) == a;
    forall p ensures (p in r <==> (p in t && p != a) || p == b) && (p in r && p != b ==> r[p] == t[p]) {
      FileMoveAt(t, a, b, p);
    }
    FileMoveFiles(t, r, a, b);
    RenameKeepsWellFormed(t, a, b);
  }

  /** Any tree that differs from `t` only by the file at `a` now being at
      `b` has the files of the flat rename and the same directories. */
  lemma FileMoveFiles<C>(t: Tree<C>, r: Tree<C>, a: Path, b: Path)
    requires a in t && t[a].File? && a != b && b in r && r[b] == t[a] && !(b in t && t[b].Dir?)
    requires forall p :: (p in r <==> (p in t && p != a) || p == b) && (p in r && p != b ==> r[p] == t[p])
    ensures Files(r) == Rename(Files(t), a, b)
    ensures Dirs(r) == Dirs(t)
  {
    var fs := Files(t);
    assert forall p :: p in Files(r) <==> p in Rename(fs, a, b);
    assert Files(r) == Rename(fs, a, b);
    assert forall p :: p in Dirs(r) <==> p in Dirs(t);
  }

  lemma FileRenameSucceeds<C>(t: Tree<C>, a: Path, b: Path)
    requires WellFormed(t) && a in t && t[a].File? && a != b && a != []
    requires b != [] && Parent(b) in t && t[Parent(b)].Dir? && !(b in t && t[b].Dir?)
    ensures PosixRename(t, a, b) == Success(MoveTree(t, a, b))
  {
    if Under(a, b) {
      AncestorsExist(t, a, b);
    }
  }

  /** One path of a file rename: only `a` goes and only `b` arrives. */
  lemma FileMoveAt<C>(t: Tree<C>, a: Path, b: Path, p: Path)
    requires WellFormed(t) && a in t && t[a].File? && a != b
    requires b != [] && Parent(b) in t && t[Parent(b)].Dir? && !(b in t && t[b].Dir?)
    ensures var r := MoveTree(t, a, b);
            (p in r <==> (p in t && p != a) || p == b) && (p in r && p != b ==> r[p] == t[p])
  {
    if Under(p, b) && p != b {
      FileMoveBelowDest(t, a, b, p);
    } else if p == b {
      assert Below(b, []) == b && Below(a, []) == a;
    } else if Under(p, a) && p != a {
      FileMoveBelowSource(t, a, b, p);
    }
  }

  /** Nothing lies strictly below the destination, before or after. */
  lemma FileMoveBelowDest<C>(t: Tree<C>, a: Path, b: Path, p: Path)
    requires WellFormed(t) && a in t && t[a].File? && !(b in t && t[b].Dir?)
    requires Under(p, b) && p != b
    ensures p !in MoveTree(t, a, b) && p !in t
  {
    BelowSplit(p, b);
    if Below(a, p[|b|..]) in t {
      UnderBelow(a, p[|b|..]);
      AncestorsExist(t, Below(a, p[|b|..]), a);
    }
    if p in t {
      AncestorsExist(t, p, b);
    }
  }

  /** Nothing lies strictly below the regular file that moves. */
  lemma FileMoveBelowSource<C>(t: Tree<C>, a: Path, b: Path, p: Path)
    requires WellFormed(t) && a in t && t[a].File?
    requires Under(p, a) && p != a && !Under(p, b)
    ensures p !in MoveTree(t, a, b) && p !in t
  {
    if p in t {
      AncestorsExist(t, p, a);
    }
  }

  // ---------------------------------------------------------------------
  // A list of renames

  /** The renames of a move group, carried out in list order; the first
      rename that fails raises, and the ones after it are not attempted. */
  function ApplyPosix<C>(t: Tree<C>, ms: seq<EditCmd>): (r: Result<Tree<C>, Errno>)
    requires AllMoves(ms)
    ensures WellFormed(t) && r.Success? ==> WellFormed(r.value)
    decreases |ms|
  {
    if ms == [] then Success(t)
    else
      match PosixRename(t, ms[0].path, ms[0].dest)
      case Failure(e) => Failure(e)
      case Success(t1) =>
        if WellFormed(t) then
          RenameKeepsWellFormed(t, ms[0].path, ms[0].dest);
          ApplyPosix(t1, ms[1..])
        else ApplyPosix(t1, ms[1..])
  }

  lemma {:induction false} ApplyPosixAppend<C>(t: Tree<C>, a: seq<EditCmd>, b: seq<EditCmd>)
    requires AllMoves(a) && AllMoves(b)
    ensures AllMoves(a + b)
    ensures ApplyPosix(t, a + b) ==
            (match ApplyPosix(t, a) case Failure(e) => Failure(e) case Success(mid) => ApplyPosix(mid, b))
    decreases |a|
  {
    if a != [] {
      assert (a + b)[0] == a[0] && (a + b)[1..] == a[1..] + b;
      match PosixRename(t, a[0].path, a[0].dest)
      case Failure(_) =>
      case Success(t1) => ApplyPosixAppend(t1, a[1..], b);
    } else {
      assert a + b == b;
    }
  }

  /** A list of renames of regular files onto paths whose parents are
      directories and that are not directories themselves: on the tree it
      does what `Sequencer.ApplyMoves` does on the map of regular files, and
      it leaves the directories alone. */
  lemma {:induction false} ApplyPosixFiles<C>(t: Tree<C>, ms: seq<EditCmd>)
    requires WellFormed(t) && AllMoves(ms)
    requires forall m :: m in ms ==> m.dest != [] && Parent(m.dest) in Dirs(t) && m.dest !in Dirs(t)
    requires ApplyMoves(Files(t), ms).Some?
    ensures ApplyPosix(t, ms).Success?
    ensures Files(ApplyPosix(t, ms).value) == ApplyMoves(Files(t), ms).value
    ensures Dirs(ApplyPosix(t, ms).value) == Dirs(t)
    decreases |ms|
  {
    if ms != [] {
      var a, b := ms[0].path, ms[0].dest;
      assert ms[0] in ms;
      FileRenameAgrees(t, a, b);
      var t1 := PosixRename(t, a, b).value;
      assert forall m :: m in ms[1..] ==> m in ms;
      ApplyPosixFiles(t1, ms[1..]);
    }
  }

  // ---------------------------------------------------------------------
  // The plan of `edits_for_raw_moves` on regular files

  /** Two notions of "exists" that agree on every source. */
  predicate SameSources(rs: Renames, e1: set<Path>, e2: set<Path>)
  {
    forall i :: 0 <= i < |rs| ==> (rs[i].0 in e1 <==> rs[i].0 in e2)
  }

  /** The plan only asks whether sources exist. */
  lemma {:induction false} PhasesAgree(rs: Renames, dests: set<Path>, e1: set<Path>, e2: set<Path>,
                                       temps: map<Path, Path>)
    requires SameSources(rs, e1, e2) && TempsDefined(rs, dests, e1, temps)
    ensures TempsDefined(rs, dests, e2, temps)
    ensures VacateMoves(rs, dests, e1, temps) == VacateMoves(rs, dests, e2, temps)
    ensures DirectMoves(rs, dests, e1) == DirectMoves(rs, dests, e2)
    ensures ReturnMoves(rs, dests, e1, temps) == ReturnMoves(rs, dests, e2, temps)
    decreases |rs|
  {
    if rs != [] {
      assert forall i :: 0 <= i < |rs[1..]| ==> rs[1..][i] == rs[i + 1];
      assert rs[0].0 in e1 <==> rs[0].0 in e2;
      PhasesAgree(rs[1..], dests, e1, e2, temps);
    }
  }

  /** The temporary files `mkstemp` creates for a mapping: one per
      vacating source. */
  function TempSet(rs: Renames, existing: set<Path>, temps: map<Path, Path>): (r: set<Path>)
    requires TempsDefined(rs, Dests(rs), existing, temps)
    ensures forall i :: 0 <= i < |rs| && Vacates(rs[i].0, Dests(rs), existing) ==> temps[rs[i].0] in r
    ensures forall p :: p in r ==> exists i :: 0 <= i < |rs| && Vacates(rs[i].0, Dests(rs), existing)
                                              && p == temps[rs[i].0]
  {
    set i | 0 <= i < |rs| && Vacates(rs[i].0, Dests(rs), existing) :: temps[rs[i].0]
  }

  /** The tree once `edits_for_raw_moves` has called `mkstemp` for every
      vacating source: each temporary is a new regular file with contents
      `blank`, and nothing else changes. */
  function Mkstemp<C>(t: Tree<C>, rs: Renames, temps: map<Path, Path>, blank: C): (r: Tree<C>)
    requires TempsDefined(rs, Dests(rs), t.Keys, temps)
    ensures forall i :: 0 <= i < |rs| && Vacates(rs[i].0, Dests(rs), t.Keys) ==>
              temps[rs[i].0] in r && r[temps[rs[i].0]] == File(blank)
    ensures forall p :: p in t && p !in TempSet(rs, t.Keys, temps) ==> p in r && r[p] == t[p]
    ensures forall p :: p in r ==> p in t || p in TempSet(rs, t.Keys, temps)
  {
    t + map p | p in TempSet(rs, t.Keys, temps) :: File(blank)
  }

  /** Renames that never read one of the `extra` paths do the same with or
      without them; whatever of `extra` is not overwritten stays. */
  lemma {:induction false} ApplyWithExtra<C>(fs: map<Path, C>, extra: map<Path, C>, ms: seq<EditCmd>)
    requires AllMoves(ms) && forall m :: m in ms ==> m.path !in extra
    ensures ApplyMoves(fs + extra, ms).Some? == ApplyMoves(fs, ms).Some?
    ensures ApplyMoves(fs, ms).Some? ==>
              ApplyMoves(fs + extra, ms).value == ApplyMoves(fs, ms).value + (extra - Dsts(ms))
    decreases |ms|
  {
    if ms != [] {
      var a, d := ms[0].path, ms[0].dest;
      assert ms[0] in ms;
      SrcsCons(ms);
      if a in fs {
        var e1 := extra - {d};
        RenameWithExtra(fs, extra, a, d);
        assert forall m :: m in ms[1..] ==> m in ms;
        ApplyWithExtra(Rename(fs, a, d), e1, ms[1..]);
        MinusBoth(extra, d, Dsts(ms[1..]));
      }
    } else {
      assert extra - Dsts(ms) == extra;
    }
  }

  /** Renaming a file of `fs` beside extra files drops the extra file at the
      destination, if any. */
  lemma RenameWithExtra<C>(fs: map<Path, C>, extra: map<Path, C>, a: Path, d: Path)
    requires a in fs && a !in extra
    ensures Rename(fs + extra, a, d) == Rename(fs, a, d) + (extra - {d})
  {
  }

  lemma MinusBoth<C>(m: map<Path, C>, d: Path, ds: set<Path>)
    ensures (m - {d}) - ds == m - ({d} + ds)
  {
  }

  /** The existing sources of a mapping are regular files. */
  predicate SourcesAreFiles<C>(t: Tree<C>, rs: Renames)
  {
    forall i :: 0 <= i < |rs| && rs[i].0 in t ==> t[rs[i].0].File?
  }

  /** Every destination can receive a regular file: it is not the root,
      its parent is a directory and it is not a directory itself. */
  predicate DestsTakeFiles<C>(t: Tree<C>, rs: Renames)
  {
    forall i :: 0 <= i < |rs| ==> rs[i].1 != [] && Parent(rs[i].1) in Dirs(t) && rs[i].1 !in Dirs(t)
  }

  /** What `mkstemp` adds to the map of regular files. */
  function Blanks<C>(paths: set<Path>, blank: C): map<Path, C>
  {
    map p | p in paths :: blank
  }

  lemma MkstempShape<C>(t: Tree<C>, rs: Renames, temps: map<Path, Path>, blank: C)
    requires WellFormed(t) && FreshTemps(rs, t.Keys, temps) && SourcesAreFiles(t, rs)
    ensures TempSet(rs, t.Keys, temps) !! t.Keys
    ensures Files(Mkstemp(t, rs, temps, blank)) == Files(t) + Blanks(TempSet(rs, t.Keys, temps), blank)
    ensures Dirs(Mkstemp(t, rs, temps, blank)) == Dirs(t)
    ensures WellFormed(Mkstemp(t, rs, temps, blank))
  {
    TempsBesideSources(t, rs, temps);
    var ts := TempSet(rs, t.Keys, temps);
    var t0 := Mkstemp(t, rs, temps, blank);
    assert forall p :: p in t0 <==> p in t || p in ts;
    assert forall p :: p in t0 ==> t0[p] == if p in ts then File(blank) else t[p];
    MkstempMaps(t, ts, t0, blank);
  }

  /** Each temporary is a new path beside its source, in a directory. */
  lemma TempsBesideSources<C>(t: Tree<C>, rs: Renames, temps: map<Path, Path>)
    requires WellFormed(t) && FreshTemps(rs, t.Keys, temps) && SourcesAreFiles(t, rs)
    ensures forall p :: p in TempSet(rs, t.Keys, temps) ==>
              p !in t && p != [] && Parent(p) in t && t[Parent(p)].Dir?
  {
    forall p | p in TempSet(rs, t.Keys, temps) ensures p !in t && p != [] && Parent(p) in t && t[Parent(p)].Dir? {
      var i :| 0 <= i < |rs| && Vacates(rs[i].0, Dests(rs), t.Keys) && p == temps[rs[i].0];
      assert t[rs[i].0].File?;
    }
  }

  lemma MkstempMaps<C>(t: Tree<C>, ts: set<Path>, t0: Tree<C>, blank: C)
    requires WellFormed(t)
    requires forall p :: p in ts ==> p !in t && p != [] && Parent(p) in t && t[Parent(p)].Dir?
    requires forall p :: p in t0 <==> p in t || p in ts
    requires forall p :: p in t0 ==> t0[p] == if p in ts then File(blank) else t[p]
    ensures ts !! t.Keys
    ensures Files(t0) == Files(t) + Blanks(ts, blank)
    ensures Dirs(t0) == Dirs(t)
    ensures WellFormed(t0)
  {
    forall p | p in t0 && p != [] ensures Parent(p) in t0 && t0[Parent(p)].Dir? {
      if p in ts {
        assert Parent(p) in t && Parent(p) !in ts;
      } else {
        assert p in t && Parent(p) in t && t[Parent(p)].Dir?;
        assert Parent(p) !in ts;
      }
    }
    assert [] !in ts && [] in t0;
    MkstempFiles(t, ts, t0, blank);
    assert forall p :: p in Dirs(t0) <==> p in Dirs(t);
  }

  lemma MkstempFiles<C>(t: Tree<C>, ts: set<Path>, t0: Tree<C>, blank: C)
    requires forall p :: p in ts ==> p !in t
    requires forall p :: p in t0 <==> p in t || p in ts
    requires forall p :: p in t0 ==> t0[p] == if p in ts then File(blank) else t[p]
    ensures Files(t0) == Files(t) + Blanks(ts, blank)
  {
    var f0, f := Files(t0), Files(t) + Blanks(ts, blank);
    assert forall p :: p in f0 <==> p in f;
    assert forall p :: p in f0 ==> f0[p] == f[p];
  }

  /** The vacating renames read only existing sources and overwrite every
      temporary file. */
  lemma VacateOverwritesTemps<C>(t: Tree<C>, rs: Renames, temps: map<Path, Path>)
    requires FreshTemps(rs, t.Keys, temps)
    ensures var vac := VacateMoves(rs, Dests(rs), t.Keys, temps);
            && (forall m :: m in vac ==> m.path !in TempSet(rs, t.Keys, temps))
            && TempSet(rs, t.Keys, temps) <= Dsts(vac)
  {
    var vac := VacateMoves(rs, Dests(rs), t.Keys, temps);
    var ts := TempSet(rs, t.Keys, temps);
    forall p | p in ts ensures p in Dsts(vac) && p !in t {
      var i :| 0 <= i < |rs| && Vacates(rs[i].0, Dests(rs), t.Keys) && p == temps[rs[i].0];
      assert MoveCmd(rs[i].0, p) in vac;
    }
  }

  /** The files `mkstemp` created make no difference to the renames on
      regular files: the vacating renames overwrite them before anything
      reads them. */
  lemma MkstempHarmless<C>(t: Tree<C>, fs: map<Path, C>, rs: Renames, temps: map<Path, Path>, blank: C)
    requires FreshTemps(rs, t.Keys, temps)
    ensures AllMoves(EditsForRawMoves(rs, t.Keys, temps))
    ensures ApplyMoves(fs + Blanks(TempSet(rs, t.Keys, temps), blank), EditsForRawMoves(rs, t.Keys, temps))
            == ApplyMoves(fs, EditsForRawMoves(rs, t.Keys, temps))
  {
    var dests := Dests(rs);
    var vac := VacateMoves(rs, dests, t.Keys, temps);
    var rest := DirectMoves(rs, dests, t.Keys) + ReturnMoves(rs, dests, t.Keys, temps);
    var extra := Blanks(TempSet(rs, t.Keys, temps), blank);
    assert EditsForRawMoves(rs, t.Keys, temps) == vac + rest;
    assert AllMoves(rest);
    VacateOverwritesTemps(t, rs, temps);
    ApplyWithExtra(fs, extra, vac);
    if ApplyMoves(fs, vac).Some? {
      assert extra - Dsts(vac) == map[];
      assert ApplyMoves(fs + extra, vac).value == ApplyMoves(fs, vac).value;
    }
    ApplyAppend(fs + extra, vac, rest);
    ApplyAppend(fs, vac, rest);
  }

  /** Every rename of the plan lands on a path that can receive a regular
      file once `mkstemp` has run. */
  lemma PlanDestsTakeFiles<C>(t: Tree<C>, rs: Renames, temps: map<Path, Path>)
    requires WellFormed(t) && FreshTemps(rs, t.Keys, temps) && SourcesAreFiles(t, rs)
    requires DestsTakeFiles(t, rs)
    ensures AllMoves(EditsForRawMoves(rs, t.Keys, temps))
    ensures forall m :: m in EditsForRawMoves(rs, t.Keys, temps) ==>
              m.dest != [] && Parent(m.dest) in Dirs(t) && m.dest !in Dirs(t)
  {
    var dests := Dests(rs);
    var vac := VacateMoves(rs, dests, t.Keys, temps);
    var dir := DirectMoves(rs, dests, t.Keys);
    var ret := ReturnMoves(rs, dests, t.Keys, temps);
    assert EditsForRawMoves(rs, t.Keys, temps) == vac + dir + ret;
    forall m: EditCmd | m in vac + dir + ret ensures m.dest != [] && Parent(m.dest) in Dirs(t) && m.dest !in Dirs(t) {
      if m in vac {
        var i :| 0 <= i < |rs| && rs[i].0 == m.path;
        assert t[rs[i].0].File?;
      } else if m in dir {
        var i :| 0 <= i < |rs| && m == MoveCmd(rs[i].0, rs[i].1);
      } else {
        var i :| 0 <= i < |rs| && Vacates(rs[i].0, dests, t.Keys) && m == MoveCmd(temps[rs[i].0], rs[i].1);
      }
    }
  }

  lemma FreshTempsNarrow(rs: Renames, e1: set<Path>, e2: set<Path>, temps: map<Path, Path>)
    requires SameSources(rs, e1, e2) && e2 <= e1 && FreshTemps(rs, e1, temps)
    ensures FreshTemps(rs, e2, temps)
  {
    assert forall i :: 0 <= i < |rs| ==> (Vacates(rs[i].0, Dests(rs), e1) <==> Vacates(rs[i].0, Dests(rs), e2));
  }

  /** `edits_for_raw_moves` as written, on a mapping whose existing sources
      are regular files and whose destinations can hold regular files: once
      `mkstemp` has created the temporaries, the plan runs on the tree
      without an error, leaves the directories alone, and keeps every
      promise of `Sequencer.RawMovesSafe`: each existing source arrives at
      its destination, paths the mapping does not name are unchanged, a
      source that is not also a destination is gone, and no other path
      appears (the temporaries included). */
  lemma RawMovesOnFiles<C>(t: Tree<C>, rs: Renames, temps: map<Path, Path>, blank: C)
    requires WellFormed(t) && DistinctSources(rs) && DistinctDests(rs)
    requires FreshTemps(rs, t.Keys, temps) && SourcesAreFiles(t, rs) && DestsTakeFiles(t, rs)
    ensures AllMoves(EditsForRawMoves(rs, t.Keys, temps))
    ensures ApplyPosix(Mkstemp(t, rs, temps, blank), EditsForRawMoves(rs, t.Keys, temps)).Success?
    ensures var out := ApplyPosix(Mkstemp(t, rs, temps, blank), EditsForRawMoves(rs, t.Keys, temps)).value;
            && WellFormed(out) && Dirs(out) == Dirs(t)
            && (forall i :: 0 <= i < |rs| && rs[i].0 in t ==> rs[i].1 in out && out[rs[i].1] == t[rs[i].0])
            && (forall p :: p in t && p !in Sources(rs) && p !in Dests(rs) ==> p in out && out[p] == t[p])
            && (forall p :: p in Sources(rs) && p !in Dests(rs) ==> p !in out)
            && (forall p :: p in out ==> p in t || p in Dests(rs))
  {
    var fs := Files(t);
    var plan := EditsForRawMoves(rs, t.Keys, temps);
    assert SameSources(rs, t.Keys, fs.Keys);
    PhasesAgree(rs, Dests(rs), t.Keys, fs.Keys, temps);
    assert plan == EditsForRawMoves(rs, fs.Keys, temps);
    FreshTempsNarrow(rs, t.Keys, fs.Keys, temps);
    RawMovesSafe(rs, fs, temps);
    MkstempShape(t, rs, temps, blank);
    var t0 := Mkstemp(t, rs, temps, blank);
    MkstempHarmless(t, fs, rs, temps, blank);
    PlanDestsTakeFiles(t, rs, temps);
    ApplyPosixFiles(t0, plan);
    var out := ApplyPosix(t0, plan).value;
    FilesToTree(t, rs, fs, out, ApplyMoves(fs, plan).value);
  }

  /** The flat delivery and frame properties, read back on the tree. */
  lemma FilesToTree<C>(t: Tree<C>, rs: Renames, fs: map<Path, C>, out: Tree<C>, flat: map<Path, C>)
    requires fs == Files(t) && Files(out) == flat && Dirs(out) == Dirs(t) && SourcesAreFiles(t, rs)
    requires forall i :: 0 <= i < |rs| && rs[i].0 in fs ==> rs[i].1 in flat && flat[rs[i].1] == fs[rs[i].0]
    requires forall p :: p in fs && p !in Sources(rs) && p !in Dests(rs) ==> p in flat && flat[p] == fs[p]
    requires forall p :: p in Sources(rs) && p !in Dests(rs) ==> p !in flat
    requires forall p :: p in flat ==> p in fs || p in Dests(rs)
    ensures forall i :: 0 <= i < |rs| && rs[i].0 in t ==> rs[i].1 in out && out[rs[i].1] == t[rs[i].0]
    ensures forall p :: p in t && p !in Sources(rs) && p !in Dests(rs) ==> p in out && out[p] == t[p]
    ensures forall p :: p in Sources(rs) && p !in Dests(rs) ==> p !in out
    ensures forall p :: p in out ==> p in t || p in Dests(rs)
  {
    forall p | p in Sources(rs) && p !in Dests(rs) ensures p !in out {
      var i :| 0 <= i < |rs| && rs[i].0 == p;
      assert p !in Dirs(t);
    }
    forall p | p in t && p !in Sources(rs) && p !in Dests(rs) ensures p in out && out[p] == t[p] {
      if t[p].Dir? {
        assert p in Dirs(t);
      }
    }
    forall p | p in out ensures p in t || p in Dests(rs) {
      if out[p].Dir? {
        assert p in Dirs(out);
      }
    }
  }

  // ---------------------------------------------------------------------
  // A vacating directory

  /** `/archive` moves onto the directory `/notes`, which moves on to
      `/old`; `/notes` vacates through a temporary beside it. */
  function CrashTree(): Tree<int>
  {
    map[[] := Dir, ["notes"] := Dir, ["archive"] := File(1)]
  }

  function CrashRenames(): Renames
  {
    [(["archive"], ["notes"]), (["notes"], ["old"])]
  }

  function CrashTemps(): map<Path, Path>
  {
    map[["notes"] := ["notes-tmp"]]
  }

  /** The example meets everything the plan asks of a mapping. */
  lemma CrashSetupValid()
    ensures WellFormed(CrashTree())
    ensures DistinctSources(CrashRenames()) && DistinctDests(CrashRenames())
    ensures FreshTemps(CrashRenames(), CrashTree().Keys, CrashTemps())
  {
    CrashNamesDistinct();
    assert Parent(["notes-tmp"]) == [] == Parent(["notes"]);
    ChainValid(CrashRenames(), CrashTree().Keys, CrashTemps(), ["archive"], ["notes"], ["old"], ["notes-tmp"]);
  }

  lemma CrashPlan()
    ensures TempsDefined(CrashRenames(), Dests(CrashRenames()), CrashTree().Keys, CrashTemps())
    ensures EditsForRawMoves(CrashRenames(), CrashTree().Keys, CrashTemps()) ==
            [MoveCmd(["notes"], ["notes-tmp"]), MoveCmd(["archive"], ["notes"]), MoveCmd(["notes-tmp"], ["old"])]
  {
    CrashNamesDistinct();
    assert Parent(["notes-tmp"]) == [] == Parent(["notes"]);
    ChainPlan(CrashRenames(), CrashTree().Keys, CrashTemps(), ["archive"], ["notes"], ["old"], ["notes-tmp"]);
  }

  lemma CrashNamesDistinct()
    ensures ["archive"] != ["notes"] && ["notes"] != ["old"] && ["archive"] != ["old"]
    ensures ["notes-tmp"] != ["archive"] && ["notes-tmp"] != ["notes"] && ["notes-tmp"] != ["old"]
    ensures ["notes-tmp"] !in CrashTree() && ["old"] !in CrashTree()
    ensures ["archive"] in CrashTree() && ["notes"] in CrashTree()
    ensures CrashRenames() == [(["archive"], ["notes"]), (["notes"], ["old"])]
    ensures CrashTemps() == map[["notes"] := ["notes-tmp"]]
  {
    DistinctNames("archive", "notes");
    DistinctNames("notes", "old");
    DistinctNames("archive", "old");
    DistinctNames("notes-tmp", "archive");
    DistinctNames("notes-tmp", "notes");
    DistinctNames("notes-tmp", "old");
    assert ["notes-tmp"] != [];
    assert ["old"] != [];
  }

  lemma DistinctNames(a: string, b: string)
    requires |a| != |b|
    ensures [a] != [b]
  {
    assert [a][0] == a;
  }

  /** A chain `x` to `y`, `y` to `z`, where only `y` vacates, through a
      fresh temporary beside it, is a valid mapping. */
  lemma ChainValid(rs: Renames, existing: set<Path>, temps: map<Path, Path>, x: Path, y: Path, z: Path, tmp: Path)
    requires rs == [(x, y), (y, z)] && temps == map[y := tmp]
    requires x != y && y != z && x != z && tmp != x && tmp != y && tmp != z
    requires tmp !in existing && Parent(tmp) == Parent(y)
    ensures DistinctSources(rs) && DistinctDests(rs) && FreshTemps(rs, existing, temps)
  {
    ChainSets(rs, x, y, z);
    ChainVacates(rs, existing, x, y, z);
  }

  lemma ChainSets(rs: Renames, x: Path, y: Path, z: Path)
    requires rs == [(x, y), (y, z)]
    ensures Sources(rs) == {x, y} && Dests(rs) == {y, z}
  {
    assert rs[0].0 == x && rs[1].0 == y && rs[0].1 == y && rs[1].1 == z;
  }

  /** Only the second rename of the chain vacates. */
  lemma ChainVacates(rs: Renames, existing: set<Path>, x: Path, y: Path, z: Path)
    requires rs == [(x, y), (y, z)] && x != y && x != z && Dests(rs) == {y, z}
    ensures forall i :: 0 <= i < |rs| && Vacates(rs[i].0, Dests(rs), existing) ==> i == 1
  {
  }

  /** The plan of such a chain when `x` and `y` exist: `y` vacates, `x`
      moves in, and the temporary moves on to `z`. */
  lemma ChainPlan(rs: Renames, existing: set<Path>, temps: map<Path, Path>, x: Path, y: Path, z: Path, tmp: Path)
    requires rs == [(x, y), (y, z)] && temps == map[y := tmp]
    requires x != y && y != z && x != z && tmp != x && tmp != y && tmp != z
    requires tmp !in existing && Parent(tmp) == Parent(y) && x in existing && y in existing
    ensures TempsDefined(rs, Dests(rs), existing, temps)
    ensures EditsForRawMoves(rs, existing, temps) == [MoveCmd(y, tmp), MoveCmd(x, y), MoveCmd(tmp, z)]
  {
    ChainValid(rs, existing, temps, x, y, z, tmp);
    ChainSets(rs, x, y, z);
    var dests := Dests(rs);
    ChainVacate(rs, dests, existing, temps, x, y, z, tmp);
    ChainDirect(rs, dests, existing, x, y, z);
    ChainReturn(rs, dests, existing, temps, x, y, z, tmp);
    Three(MoveCmd(y, tmp), MoveCmd(x, y), MoveCmd(tmp, z));
  }

  lemma Three<T>(a: T, b: T, c: T)
    ensures [a] + [b] + [c] == [a, b, c]
  {
  }

  lemma ChainVacate(rs: Renames, dests: set<Path>, existing: set<Path>, temps: map<Path, Path>,
                    x: Path, y: Path, z: Path, tmp: Path)
    requires rs == [(x, y), (y, z)] && temps == map[y := tmp] && dests == {y, z}
    requires x != y && x != z && y in existing
    requires TempsDefined(rs, dests, existing, temps)
    ensures VacateMoves(rs, dests, existing, temps) == [MoveCmd(y, tmp)]
  {
    assert rs[1..] == [(y, z)] && rs[1..][1..] == [];
    assert VacateMoves(rs[1..], dests, existing, temps) == [MoveCmd(y, tmp)];
  }

  lemma ChainDirect(rs: Renames, dests: set<Path>, existing: set<Path>, x: Path, y: Path, z: Path)
    requires rs == [(x, y), (y, z)] && dests == {y, z}
    requires x != y && x != z && x in existing
    ensures DirectMoves(rs, dests, existing) == [MoveCmd(x, y)]
  {
    assert rs[1..] == [(y, z)] && rs[1..][1..] == [];
    assert DirectMoves(rs[1..], dests, existing) == [];
  }

  lemma ChainReturn(rs: Renames, dests: set<Path>, existing: set<Path>, temps: map<Path, Path>,
                    x: Path, y: Path, z: Path, tmp: Path)
    requires rs == [(x, y), (y, z)] && temps == map[y := tmp] && dests == {y, z}
    requires x != y && x != z && y in existing
    requires TempsDefined(rs, dests, existing, temps)
    ensures ReturnMoves(rs, dests, existing, temps) == [MoveCmd(tmp, z)]
  {
    assert rs[1..] == [(y, z)] && rs[1..][1..] == [];
    assert ReturnMoves(rs[1..], dests, existing, temps) == [MoveCmd(tmp, z)];
  }

  /** `rename(2)` of a directory onto an existing regular file fails with
      ENOTDIR. */
  lemma DirOntoFile<C>(t: Tree<C>, a: Path, b: Path)
    requires a in t && t[a].Dir? && b in t && t[b].File? && a != [] && b != []
    requires Parent(b) in t && t[Parent(b)].Dir? && !Under(b, a) && !Under(a, b)
    ensures PosixRename(t, a, b) == Failure(ENOTDIR)
  {
  }

  /** The directory `/notes` and a regular file `/notes-tmp` beside it. */
  predicate NotesBesideTemporary<C>(t: Tree<C>)
  {
    && ["notes"] in t && t[["notes"]].Dir? && ["notes-tmp"] in t && t[["notes-tmp"]].File?
    && [] in t && t[[]].Dir?
  }

  lemma CrashTemporary()
    ensures NotesBesideTemporary(Mkstemp(CrashTree(), CrashRenames(), CrashTemps(), 0))
  {
    CrashSetupValid();
    var rs, t := CrashRenames(), CrashTree();
    assert Vacates(rs[1].0, Dests(rs), t.Keys) by {
      assert rs[1].0 == rs[0].1;
    }
    assert ["notes"] !in TempSet(rs, t.Keys, CrashTemps());
    assert [] !in TempSet(rs, t.Keys, CrashTemps());
  }

  /** The first rename of the plan puts the directory `/notes` onto the
      regular file `mkstemp` created, and `rename(2)` refuses with ENOTDIR:
      `rearrange` raises before anything has moved. */
  lemma DirVacateCrash()
    ensures AllMoves(EditsForRawMoves(CrashRenames(), CrashTree().Keys, CrashTemps()))
    ensures ApplyPosix(Mkstemp(CrashTree(), CrashRenames(), CrashTemps(), 0),
                       EditsForRawMoves(CrashRenames(), CrashTree().Keys, CrashTemps()))
            == Failure(ENOTDIR)
  {
    CrashPlan();
    CrashTemporary();
    VacateOntoTemporary(Mkstemp(CrashTree(), CrashRenames(), CrashTemps(), 0),
                        EditsForRawMoves(CrashRenames(), CrashTree().Keys, CrashTemps()));
  }

  /** A plan that starts by renaming `/notes` onto the regular file beside
      it fails at once with ENOTDIR. */
  lemma VacateOntoTemporary<C>(t: Tree<C>, plan: seq<EditCmd>)
    requires NotesBesideTemporary(t)
    requires plan != [] && plan[0] == MoveCmd(["notes"], ["notes-tmp"]) && AllMoves(plan)
    ensures ApplyPosix(t, plan) == Failure(ENOTDIR)
  {
    NotesOntoTemporary(t);
    FirstRenameFails(t, plan);
  }

  lemma NotesOntoTemporary<C>(t: Tree<C>)
    requires NotesBesideTemporary(t)
    ensures PosixRename(t, ["notes"], ["notes-tmp"]) == Failure(ENOTDIR)
  {
    assert Parent(["notes-tmp"]) == [];
    assert !Under(["notes-tmp"], ["notes"]) by {
      assert ["notes-tmp"][..1] == ["notes-tmp"];
      assert |"notes-tmp"| != |"notes"|;
    }
    assert !Under(["notes"], ["notes-tmp"]) by {
      assert ["notes"][..1] == ["notes"];
      assert |"notes-tmp"| != |"notes"|;
    }
    DirOntoFile(t, ["notes"], ["notes-tmp"]);
  }

  lemma FirstRenameFails<C>(t: Tree<C>, ms: seq<EditCmd>)
    requires AllMoves(ms) && ms != [] && PosixRename(t, ms[0].path, ms[0].dest).Failure?
    ensures ApplyPosix(t, ms) == Failure(PosixRename(t, ms[0].path, ms[0].dest).error)
  {
  }

  // ---------------------------------------------------------------------
  // Subtrees on the move

  /** No path of `K` lies strictly below another. */
  predicate Separated(K: set<Path>)
  {
    forall x, y :: x in K && y in K && x != y ==> !Under(x, y)
  }

  /** `p` lies at or below no path of `K`. */
  predicate Outside(p: Path, K: set<Path>)
  {
    forall k :: k in K ==> !Under(p, k)
  }

  /** Halfway through a list of renames between the slots `K`: the subtree
      now at slot `k` is the subtree that was at `O[k]` in the original tree
      `t0`, a slot missing from `O` is empty, and every path outside the
      slots is as it was. */
  ghost predicate Relocated<C>(t: Tree<C>, t0: Tree<C>, K: set<Path>, O: map<Path, Path>)
  {
    && O.Keys <= K
    && (forall k :: k in O ==> O[k] in t0)
    && (forall k, rel {:trigger Below(k, rel)} :: k in O ==>
          && (Below(k, rel) in t <==> O[k] + rel in t0)
          && (Below(k, rel) in t ==> t[Below(k, rel)] == t0[O[k] + rel]))
    && (forall k, rel {:trigger Below(k, rel)} :: k in K && k !in O ==> Below(k, rel) !in t)
    && (forall p :: Outside(p, K) ==> (p in t <==> p in t0) && (p in t ==> t[p] == t0[p]))
  }

  /** A path below one slot lies below no other. */
  lemma SlotsApart(K: set<Path>, k: Path, rel: seq<string>, a: Path)
    requires Separated(K) && k in K && a in K && k != a
    ensures !Under(Below(k, rel), a)
  {
    var p := Below(k, rel);
    UnderBelow(k, rel);
    if Under(p, a) {
      if |k| <= |a| {
        Comparable(p, k, a);
      } else {
        Comparable(p, a, k);
      }
    }
  }

  /** The parent of a slot lies outside every slot. */
  lemma ParentOutsideSlots(K: set<Path>, b: Path)
    requires Separated(K) && b in K && b != []
    ensures Outside(Parent(b), K)
  {
    forall k | k in K ensures !Under(Parent(b), k) {
      if Under(Parent(b), k) {
        UnderParent(b, k);
      }
    }
  }

  /** A rename from an occupied slot to an empty one, whose parent is an
      untouched directory, succeeds. */
  lemma SlotRenameSucceeds<C>(t: Tree<C>, t0: Tree<C>, K: set<Path>, O: map<Path, Path>, a: Path, b: Path)
    requires Relocated(t, t0, K, O) && Separated(K) && [] !in K
    requires a in O && b in K && b !in O && Parent(b) in t0 && t0[Parent(b)].Dir?
    ensures PosixRename(t, a, b) == Success(MoveTree(t, a, b))
  {
    assert Below(a, []) == a && Below(b, []) == b && O[a] + [] == O[a];
    ParentOutsideSlots(K, b);
  }

  /** After that rename the slot `b` holds what `a` held. */
  lemma SlotRenameMoves<C>(t: Tree<C>, t0: Tree<C>, K: set<Path>, O: map<Path, Path>, a: Path, b: Path)
    requires Relocated(t, t0, K, O) && Separated(K)
    requires a in O && b in K && b !in O
    ensures var r, O' := MoveTree(t, a, b), Rename(O, a, b);
            forall k, rel {:trigger Below(k, rel)} :: k in O' ==>
              && (Below(k, rel) in r <==> O'[k] + rel in t0)
              && (Below(k, rel) in r ==> r[Below(k, rel)] == t0[O'[k] + rel])
  {
    var r, O' := MoveTree(t, a, b), Rename(O, a, b);
    forall k, rel | k in O'
      ensures && (Below(k, rel) in r <==> O'[k] + rel in t0)
              && (Below(k, rel) in r ==> r[Below(k, rel)] == t0[O'[k] + rel])
    {
      if k != b {
        SlotsApart(K, k, rel, a);
        SlotsApart(K, k, rel, b);
      }
    }
  }

  /** After that rename the slot `a` is empty, and so is every slot that
      was. */
  lemma SlotRenameEmpties<C>(t: Tree<C>, t0: Tree<C>, K: set<Path>, O: map<Path, Path>, a: Path, b: Path)
    requires Relocated(t, t0, K, O) && Separated(K)
    requires a in O && b in K && b !in O
    ensures var r, O' := MoveTree(t, a, b), Rename(O, a, b);
            forall k, rel {:trigger Below(k, rel)} :: k in K && k !in O' ==> Below(k, rel) !in r
  {
    var r, O' := MoveTree(t, a, b), Rename(O, a, b);
    forall k, rel | k in K && k !in O' ensures Below(k, rel) !in r {
      SlotsApart(K, k, rel, b);
      if k != a {
        SlotsApart(K, k, rel, a);
      } else {
        UnderBelow(a, rel);
      }
    }
  }

  /** One rename from an occupied slot to an empty one keeps the tree
      relocated, with the flat rename of the origins. */
  lemma StepRelocated<C>(t: Tree<C>, t0: Tree<C>, K: set<Path>, O: map<Path, Path>, a: Path, b: Path)
    requires Relocated(t, t0, K, O) && Separated(K) && [] !in K
    requires a in O && b in K && b !in O && Parent(b) in t0 && t0[Parent(b)].Dir?
    ensures PosixRename(t, a, b) == Success(MoveTree(t, a, b))
    ensures Relocated(MoveTree(t, a, b), t0, K, Rename(O, a, b))
  {
    SlotRenameSucceeds(t, t0, K, O, a, b);
    SlotRenameMoves(t, t0, K, O, a, b);
    SlotRenameEmpties(t, t0, K, O, a, b);
    var r := MoveTree(t, a, b);
    forall p | Outside(p, K) ensures (p in r <==> p in t0) && (p in r ==> r[p] == t0[p]) {
      assert !Under(p, a) && !Under(p, b);
    }
  }

  /** Every rename of the list reads an occupied slot and writes an empty
      one, as the origins move along. */
  predicate FreeRun(O: map<Path, Path>, ms: seq<EditCmd>): (r: bool)
    requires AllMoves(ms)
    ensures r ==> ApplyMoves(O, ms).Some?
    decreases |ms|
  {
    if ms == [] then true
    else
      assert forall m :: m in ms[1..] ==> m in ms;
      && ms[0].path in O && ms[0].dest !in O
      && FreeRun(Rename(O, ms[0].path, ms[0].dest), ms[1..])
  }

  /** A free run of renames between separated slots, each landing beside an
      untouched directory, succeeds on the tree and moves whole subtrees
      exactly as the flat renames move their origins. */
  lemma {:induction false} TreeRun<C>(t: Tree<C>, t0: Tree<C>, K: set<Path>, O: map<Path, Path>,
                                      ms: seq<EditCmd>)
    requires Relocated(t, t0, K, O) && Separated(K) && [] !in K && AllMoves(ms)
    requires forall m :: m in ms ==> m.dest in K && Parent(m.dest) in Dirs(t0)
    requires FreeRun(O, ms)
    ensures ApplyPosix(t, ms).Success?
    ensures Relocated(ApplyPosix(t, ms).value, t0, K, ApplyMoves(O, ms).value)
    decreases |ms|
  {
    if ms != [] {
      var a, b := ms[0].path, ms[0].dest;
      assert ms[0] in ms;
      StepRelocated(t, t0, K, O, a, b);
      assert forall m :: m in ms[1..] ==> m in ms;
      TreeRun(MoveTree(t, a, b), t0, K, Rename(O, a, b), ms[1..]);
    }
  }

  lemma {:induction false} FreeRunAppend(O: map<Path, Path>, a: seq<EditCmd>, b: seq<EditCmd>)
    requires AllMoves(a) && AllMoves(b) && FreeRun(O, a) && FreeRun(ApplyMoves(O, a).value, b)
    ensures AllMoves(a + b) && FreeRun(O, a + b)
    decreases |a|
  {
    MovesAppend(a, b);
    if a == [] {
      assert a + b == b;
    } else {
      FreeRunStep(O, a);
      FreeRunAppend(Rename(O, a[0].path, a[0].dest), a[1..], b);
      FreeRunAppendStep(O, a, b);
    }
  }

  lemma FreeRunAppendStep(O: map<Path, Path>, a: seq<EditCmd>, b: seq<EditCmd>)
    requires AllMoves(a) && AllMoves(b) && a != [] && a[0].path in O && a[0].dest !in O
    requires AllMoves(a[1..] + b) && FreeRun(Rename(O, a[0].path, a[0].dest), a[1..] + b)
    ensures AllMoves(a + b) && FreeRun(O, a + b)
  {
    MovesAppend(a, b);
    AppendHead(a, b);
    FreeRunCons(O, a + b);
  }

  lemma AppendHead<T>(a: seq<T>, b: seq<T>)
    requires a != []
    ensures a + b != [] && (a + b)[0] == a[0] && (a + b)[1..] == a[1..] + b
  {
  }

  lemma MovesAppend(a: seq<EditCmd>, b: seq<EditCmd>)
    requires AllMoves(a) && AllMoves(b)
    ensures AllMoves(a + b)
  {
  }

  /** What a non-empty free run says about its first rename and the rest. */
  lemma FreeRunStep(O: map<Path, Path>, ms: seq<EditCmd>)
    requires AllMoves(ms) && ms != [] && FreeRun(O, ms)
    ensures AllMoves(ms[1..]) && ms[0].path in O && ms[0].dest !in O
    ensures FreeRun(Rename(O, ms[0].path, ms[0].dest), ms[1..])
    ensures ApplyMoves(O, ms) == ApplyMoves(Rename(O, ms[0].path, ms[0].dest), ms[1..])
  {
    assert forall m :: m in ms[1..] ==> m in ms;
  }

  lemma FreeRunCons(O: map<Path, Path>, ms: seq<EditCmd>)
    requires AllMoves(ms) && ms != [] && ms[0].path in O && ms[0].dest !in O
    requires AllMoves(ms[1..]) && FreeRun(Rename(O, ms[0].path, ms[0].dest), ms[1..])
    ensures FreeRun(O, ms)
  {
  }

  /** Renames with distinct sources and destinations, reading occupied
      slots, where a destination that is occupied at the start has been
      read by an earlier rename, run free. */
  lemma {:induction false} FreeParallel(O: map<Path, Path>, ms: seq<EditCmd>)
    requires AllMoves(ms) && SrcsDistinct(ms) && DstsDistinct(ms) && NoClobber(ms)
    requires Srcs(ms) <= O.Keys
    requires forall j :: 0 <= j < |ms| && ms[j].dest in O ==> exists i :: 0 <= i < j && ms[i].path == ms[j].dest
    ensures FreeRun(O, ms)
    decreases |ms|
  {
    if ms != [] {
      var a, b := ms[0].path, ms[0].dest;
      var tail := ms[1..];
      var O' := Rename(O, a, b);
      SrcsCons(ms);
      ParallelTail(ms);
      forall j | 0 <= j < |tail| && tail[j].dest in O'
        ensures exists i :: 0 <= i < j && tail[i].path == tail[j].dest
      {
        assert tail[j] == ms[j + 1];
        var i :| 0 <= i < j + 1 && ms[i].path == ms[j + 1].dest;
        assert i != 0;
        assert tail[i - 1] == ms[i];
      }
      FreeParallel(O', tail);
    }
  }

  // ---------------------------------------------------------------------
  // The plan of `edits_for_raw_moves` on directories

  /** The slots of a mapping: its sources, its destinations and the
      temporaries of its vacating sources. */
  function Tops(rs: Renames, existing: set<Path>, temps: map<Path, Path>): set<Path>
    requires TempsDefined(rs, Dests(rs), existing, temps)
  {
    Sources(rs) + Dests(rs) + TempSet(rs, existing, temps)
  }

  /** Before any rename, every occupied slot holds its own subtree. */
  function Origins<C>(t: Tree<C>, K: set<Path>): map<Path, Path>
  {
    map k | k in K && k in t :: k
  }

  /** A destination that exists is itself renamed away. */
  predicate ExistingDestsAreSources<C>(t: Tree<C>, rs: Renames)
  {
    forall i :: 0 <= i < |rs| && rs[i].1 in t ==> rs[i].1 in Sources(rs)
  }

  /** Every destination lies in a directory that exists. */
  predicate DestParentsAreDirs<C>(t: Tree<C>, rs: Renames)
  {
    forall i :: 0 <= i < |rs| ==> Parent(rs[i].1) in Dirs(t)
  }

  lemma InitialRelocated<C>(t: Tree<C>, K: set<Path>)
    requires WellFormed(t)
    ensures Relocated(t, t, K, Origins(t, K))
  {
    var O := Origins(t, K);
    forall k, rel | k in K && k !in O ensures Below(k, rel) !in t {
      if Below(k, rel) in t {
        UnderBelow(k, rel);
        AncestorsExist(t, Below(k, rel), k);
      }
    }
  }

  /** In phase 1 a destination that exists has been vacated by an earlier
      rename. */
  lemma PhaseOneDestsFree<C>(t: Tree<C>, rs: Renames, temps: map<Path, Path>)
    requires FreshTemps(rs, t.Keys, temps) && ExistingDestsAreSources(t, rs)
    ensures var p1 := VacateMoves(rs, Dests(rs), t.Keys, temps) + DirectMoves(rs, Dests(rs), t.Keys);
            forall j :: 0 <= j < |p1| && p1[j].dest in t ==> exists i :: 0 <= i < j && p1[i].path == p1[j].dest
  {
    var dests := Dests(rs);
    var vac := VacateMoves(rs, dests, t.Keys, temps);
    var dir := DirectMoves(rs, dests, t.Keys);
    var p1 := vac + dir;
    VacateFootprint(rs, t.Keys, temps);
    assert forall m :: m in vac ==> m.dest in Dsts(vac);
    forall m | m in dir && m.dest in t ensures exists i :: 0 <= i < |vac| && vac[i].path == m.dest {
      DirectDestVacated(t, rs, temps, m);
    }
    EarlierReader(vac, dir, t.Keys);
  }

  lemma EarlierReader(a: seq<EditCmd>, b: seq<EditCmd>, full: set<Path>)
    requires AllMoves(a) && AllMoves(b)
    requires forall m :: m in a ==> m.dest !in full
    requires forall m :: m in b && m.dest in full ==> exists i :: 0 <= i < |a| && a[i].path == m.dest
    ensures forall j :: 0 <= j < |a + b| && (a + b)[j].dest in full ==>
              exists i :: 0 <= i < j && (a + b)[i].path == (a + b)[j].dest
  {
    forall j | 0 <= j < |a| ensures (a + b)[j].dest !in full {
      assert (a + b)[j] == a[j] && a[j] in a;
    }
    forall j | |a| <= j < |a + b| && (a + b)[j].dest in full
      ensures exists i :: 0 <= i < j && (a + b)[i].path == (a + b)[j].dest
    {
      assert (a + b)[j] == b[j - |a|] && b[j - |a|] in b;
      var i :| 0 <= i < |a| && a[i].path == (a + b)[j].dest;
      assert (a + b)[i] == a[i];
    }
  }

  lemma DirectDestVacated<C>(t: Tree<C>, rs: Renames, temps: map<Path, Path>, m: EditCmd)
    requires FreshTemps(rs, t.Keys, temps) && ExistingDestsAreSources(t, rs)
    requires m in DirectMoves(rs, Dests(rs), t.Keys) && m.dest in t
    ensures m.dest in temps && MoveCmd(m.dest, temps[m.dest]) in VacateMoves(rs, Dests(rs), t.Keys, temps)
  {
    var k :| 0 <= k < |rs| && m == MoveCmd(rs[k].0, rs[k].1);
    assert rs[k].1 in Sources(rs);
    var i0 :| 0 <= i0 < |rs| && rs[i0].0 == rs[k].1;
    assert Vacates(rs[i0].0, Dests(rs), t.Keys);
  }

  /** A phase-2 destination is written by no phase-1 rename. */
  lemma ReturnDestUnwritten<C>(t: Tree<C>, rs: Renames, temps: map<Path, Path>, m: EditCmd)
    requires DistinctDests(rs) && FreshTemps(rs, t.Keys, temps)
    requires m in ReturnMoves(rs, Dests(rs), t.Keys, temps)
    ensures m.dest !in Dsts(VacateMoves(rs, Dests(rs), t.Keys, temps) + DirectMoves(rs, Dests(rs), t.Keys))
  {
    var dests := Dests(rs);
    var i :| 0 <= i < |rs| && Vacates(rs[i].0, dests, t.Keys) && m == MoveCmd(temps[rs[i].0], rs[i].1);
    ReturnDestUnwrittenAt(rs, dests, t.Keys, temps, i);
  }

  lemma ReturnDestUnwrittenAt(rs: Renames, dests: set<Path>, existing: set<Path>, temps: map<Path, Path>, i: int)
    requires DistinctDests(rs) && FreshTemps(rs, existing, temps) && dests == Dests(rs)
    requires 0 <= i < |rs| && Vacates(rs[i].0, dests, existing)
    ensures AllMoves(VacateMoves(rs, dests, existing, temps) + DirectMoves(rs, dests, existing))
    ensures rs[i].1 !in Dsts(VacateMoves(rs, dests, existing, temps) + DirectMoves(rs, dests, existing))
  {
    var vac := VacateMoves(rs, dests, existing, temps);
    var dir := DirectMoves(rs, dests, existing);
    assert rs[i].1 in dests;
    VacateFootprint(rs, existing, temps);
    assert rs[i].1 !in Dsts(vac);
    DirectDestsElsewhere(rs, dests, existing, i);
    SrcsAppend(vac, dir);
  }

  /** No direct move writes the destination of a rename whose source is a
      destination. */
  lemma DirectDestsElsewhere(rs: Renames, dests: set<Path>, existing: set<Path>, i: int)
    requires DistinctDests(rs) && 0 <= i < |rs| && rs[i].0 in dests
    ensures AllMoves(DirectMoves(rs, dests, existing))
    ensures rs[i].1 !in Dsts(DirectMoves(rs, dests, existing))
  {
    var dir := DirectMoves(rs, dests, existing);
    forall m' | m' in dir ensures m'.dest != rs[i].1 {
      var k :| 0 <= k < |rs| && m' == MoveCmd(rs[k].0, rs[k].1);
      assert k != i;
    }
  }

  /** A phase-2 destination is empty once phase 1 has run: if it existed,
      it was a vacating source. */
  lemma ReturnDestFree<C>(t: Tree<C>, rs: Renames, temps: map<Path, Path>, O0: map<Path, Path>,
                          O1: map<Path, Path>, m: EditCmd)
    requires DistinctDests(rs) && FreshTemps(rs, t.Keys, temps) && ExistingDestsAreSources(t, rs)
    requires O0.Keys <= t.Keys
    requires var p1 := VacateMoves(rs, Dests(rs), t.Keys, temps) + DirectMoves(rs, Dests(rs), t.Keys);
             && AllMoves(p1)
             && (forall p :: p !in Srcs(p1) && p !in Dsts(p1) ==> (p in O1 <==> p in O0))
             && (forall p :: p in Srcs(p1) && p !in Dsts(p1) ==> p !in O1)
    requires m in ReturnMoves(rs, Dests(rs), t.Keys, temps)
    ensures m.dest !in O1
  {
    var dests := Dests(rs);
    ReturnDestUnwritten(t, rs, temps, m);
    var i :| 0 <= i < |rs| && Vacates(rs[i].0, dests, t.Keys) && m == MoveCmd(temps[rs[i].0], rs[i].1);
    if m.dest in O0 {
      ExistingDestVacates(rs, dests, t.Keys, temps, i);
    }
  }

  /** A destination that exists, and so is a source, is read by phase 1. */
  lemma ExistingDestVacates(rs: Renames, dests: set<Path>, existing: set<Path>, temps: map<Path, Path>, i: int)
    requires FreshTemps(rs, existing, temps) && dests == Dests(rs)
    requires 0 <= i < |rs| && rs[i].1 in existing && rs[i].1 in Sources(rs)
    ensures AllMoves(VacateMoves(rs, dests, existing, temps) + DirectMoves(rs, dests, existing))
    ensures rs[i].1 in Srcs(VacateMoves(rs, dests, existing, temps) + DirectMoves(rs, dests, existing))
  {
    var vac := VacateMoves(rs, dests, existing, temps);
    var dir := DirectMoves(rs, dests, existing);
    var k :| 0 <= k < |rs| && rs[k].0 == rs[i].1;
    assert rs[i].1 in dests;
    assert MoveCmd(rs[k].0, temps[rs[k].0]) in vac;
    SrcsAppend(vac, dir);
  }

  /** The plan runs free from the original slots: phase 1 writes only
      empty or vacated slots, and phase 2 only slots phase 1 emptied. */
  lemma PlanRunsFree<C>(t: Tree<C>, rs: Renames, temps: map<Path, Path>)
    requires DistinctSources(rs) && DistinctDests(rs)
    requires FreshTemps(rs, t.Keys, temps) && ExistingDestsAreSources(t, rs)
    ensures AllMoves(EditsForRawMoves(rs, t.Keys, temps))
    ensures FreeRun(Origins(t, Tops(rs, t.Keys, temps)), EditsForRawMoves(rs, t.Keys, temps))
  {
    var O0 := Origins(t, Tops(rs, t.Keys, temps));
    var dests := Dests(rs);
    var p1 := VacateMoves(rs, dests, t.Keys, temps) + DirectMoves(rs, dests, t.Keys);
    var ret := ReturnMoves(rs, dests, t.Keys, temps);
    PhaseOneRunsFree(t, rs, temps);
    ReturnRunsFree(t, rs, temps);
    FreeRunAppend(O0, p1, ret);
  }

  /** Phase 1 reads only original slots, with the conditions of
      `Sequencer.ApplyParallel`. */
  lemma PhaseOneReads<C>(t: Tree<C>, rs: Renames, temps: map<Path, Path>)
    requires DistinctSources(rs) && DistinctDests(rs) && FreshTemps(rs, t.Keys, temps)
    ensures var p1 := VacateMoves(rs, Dests(rs), t.Keys, temps) + DirectMoves(rs, Dests(rs), t.Keys);
            && AllMoves(p1) && SrcsDistinct(p1) && DstsDistinct(p1) && NoClobber(p1)
            && Srcs(p1) <= Origins(t, Tops(rs, t.Keys, temps)).Keys
  {
    var dests := Dests(rs);
    var vac := VacateMoves(rs, dests, t.Keys, temps);
    var dir := DirectMoves(rs, dests, t.Keys);
    PhasesAreParallel(rs, t.Keys, temps);
    PhaseFootprints(rs, t.Keys, temps);
    SrcsAppend(vac, dir);
  }

  lemma PhaseOneRunsFree<C>(t: Tree<C>, rs: Renames, temps: map<Path, Path>)
    requires DistinctSources(rs) && DistinctDests(rs)
    requires FreshTemps(rs, t.Keys, temps) && ExistingDestsAreSources(t, rs)
    ensures var p1 := VacateMoves(rs, Dests(rs), t.Keys, temps) + DirectMoves(rs, Dests(rs), t.Keys);
            AllMoves(p1) && FreeRun(Origins(t, Tops(rs, t.Keys, temps)), p1)
  {
    var O0 := Origins(t, Tops(rs, t.Keys, temps));
    var p1 := VacateMoves(rs, Dests(rs), t.Keys, temps) + DirectMoves(rs, Dests(rs), t.Keys);
    PhaseOneReads(t, rs, temps);
    PhaseOneDestsFree(t, rs, temps);
    FreeParallel(O0, p1);
  }

  lemma ReturnRunsFree<C>(t: Tree<C>, rs: Renames, temps: map<Path, Path>)
    requires DistinctSources(rs) && DistinctDests(rs)
    requires FreshTemps(rs, t.Keys, temps) && ExistingDestsAreSources(t, rs)
    ensures var O0 := Origins(t, Tops(rs, t.Keys, temps));
            var p1 := VacateMoves(rs, Dests(rs), t.Keys, temps) + DirectMoves(rs, Dests(rs), t.Keys);
            var ret := ReturnMoves(rs, Dests(rs), t.Keys, temps);
            && AllMoves(p1) && ApplyMoves(O0, p1).Some? && AllMoves(ret)
            && FreeRun(ApplyMoves(O0, p1).value, ret)
  {
    var O0 := Origins(t, Tops(rs, t.Keys, temps));
    var p1 := VacateMoves(rs, Dests(rs), t.Keys, temps) + DirectMoves(rs, Dests(rs), t.Keys);
    var ret := ReturnMoves(rs, Dests(rs), t.Keys, temps);
    PhaseOneReads(t, rs, temps);
    PhasesAreParallel(rs, t.Keys, temps);
    ApplyParallel(O0, p1);
    var O1 := ApplyMoves(O0, p1).value;
    PhasesChain(rs, t.Keys, temps);
    forall m | m in ret ensures m.dest !in O1 {
      ReturnDestFree(t, rs, temps, O0, O1, m);
    }
    assert forall j :: 0 <= j < |ret| ==> ret[j] in ret;
    FreeParallel(O1, ret);
  }

  /** Every rename of the plan writes a slot whose parent is a directory. */
  lemma PlanDestsInSlots<C>(t: Tree<C>, rs: Renames, temps: map<Path, Path>)
    requires WellFormed(t) && FreshTemps(rs, t.Keys, temps) && DestParentsAreDirs(t, rs)
    ensures AllMoves(EditsForRawMoves(rs, t.Keys, temps))
    ensures forall m :: m in EditsForRawMoves(rs, t.Keys, temps) ==>
              m.dest in Tops(rs, t.Keys, temps) && Parent(m.dest) in Dirs(t)
  {
    var dests := Dests(rs);
    var vac := VacateMoves(rs, dests, t.Keys, temps);
    var dir := DirectMoves(rs, dests, t.Keys);
    var ret := ReturnMoves(rs, dests, t.Keys, temps);
    assert EditsForRawMoves(rs, t.Keys, temps) == vac + dir + ret;
    forall m: EditCmd | m in vac + dir + ret
      ensures m.dest in Tops(rs, t.Keys, temps) && Parent(m.dest) in Dirs(t)
    {
      if m in vac {
        var i :| 0 <= i < |rs| && rs[i].0 == m.path;
        assert m.dest in TempSet(rs, t.Keys, temps);
      } else if m in dir {
        var i :| 0 <= i < |rs| && m == MoveCmd(rs[i].0, rs[i].1);
      } else {
        var i :| 0 <= i < |rs| && Vacates(rs[i].0, dests, t.Keys) && m == MoveCmd(temps[rs[i].0], rs[i].1);
      }
    }
  }

  /** Each slot that ends up holding a source's subtree holds all of it. */
  lemma TreeDelivers<C>(t: Tree<C>, out: Tree<C>, K: set<Path>, O2: map<Path, Path>, rs: Renames)
    requires Relocated(out, t, K, O2) && Sources(rs) <= K
    requires forall i :: 0 <= i < |rs| && rs[i].0 in Origins(t, K) ==>
               rs[i].1 in O2 && O2[rs[i].1] == Origins(t, K)[rs[i].0]
    ensures forall i, rel :: 0 <= i < |rs| && rs[i].0 in t ==>
              && (Below(rs[i].1, rel) in out <==> Below(rs[i].0, rel) in t)
              && (Below(rs[i].1, rel) in out ==> out[Below(rs[i].1, rel)] == t[Below(rs[i].0, rel)])
  {
    forall i, rel | 0 <= i < |rs| && rs[i].0 in t
      ensures && (Below(rs[i].1, rel) in out <==> Below(rs[i].0, rel) in t)
              && (Below(rs[i].1, rel) in out ==> out[Below(rs[i].1, rel)] == t[Below(rs[i].0, rel)])
    {
      assert rs[i].0 in Sources(rs);
      assert O2[rs[i].1] == rs[i].0;
    }
  }

  /** Below a slot that ends up empty there is nothing. */
  lemma EmptySlot<C>(t: Tree<C>, out: Tree<C>, K: set<Path>, O2: map<Path, Path>, k: Path, q: Path)
    requires Relocated(out, t, K, O2) && k in K && k !in O2 && Under(q, k)
    ensures q !in out
  {
    BelowSplit(q, k);
  }

  /** What the mapping does not name is as it was: outside every slot by
      relocation, and below a temporary there was and is nothing. */
  lemma TreeFrame<C>(t: Tree<C>, out: Tree<C>, rs: Renames, ts: set<Path>, O2: map<Path, Path>)
    requires WellFormed(t) && Relocated(out, t, Sources(rs) + Dests(rs) + ts, O2)
    requires ts !! t.Keys && ts !! O2.Keys
    ensures forall p :: Outside(p, Sources(rs) + Dests(rs)) ==> (p in out <==> p in t) && (p in out ==> out[p] == t[p])
  {
    var K := Sources(rs) + Dests(rs) + ts;
    forall p | Outside(p, Sources(rs) + Dests(rs))
      ensures (p in out <==> p in t) && (p in out ==> out[p] == t[p])
    {
      if !Outside(p, K) {
        var k :| k in K && Under(p, k);
        EmptySlot(t, out, K, O2, k, p);
        if p in t {
          AncestorsExist(t, p, k);
        }
      }
    }
  }

  /** Every path of the result lies outside the slots or below a
      destination. */
  lemma TreeNothingElse<C>(t: Tree<C>, out: Tree<C>, rs: Renames, ts: set<Path>, O0: map<Path, Path>,
                           O2: map<Path, Path>)
    requires Relocated(out, t, Sources(rs) + Dests(rs) + ts, O2)
    requires O0.Keys <= t.Keys && ts !! t.Keys
    requires forall p :: p in Sources(rs) && p !in Dests(rs) ==> p !in O2
    requires forall p :: p in O2 ==> p in O0 || p in Dests(rs)
    ensures forall q :: q in out ==> q in t || exists d :: d in Dests(rs) && Under(q, d)
  {
    var K := Sources(rs) + Dests(rs) + ts;
    forall q | q in out && q !in t ensures exists d :: d in Dests(rs) && Under(q, d) {
      assert !Outside(q, K);
      var k :| k in K && Under(q, k);
      if k !in O2 {
        EmptySlot(t, out, K, O2, k, q);
      }
      assert k in Dests(rs);
    }
  }

  /** The temporaries are new names: no existing path, source or
      destination. */
  lemma TempsAreNew(rs: Renames, existing: set<Path>, temps: map<Path, Path>)
    requires FreshTemps(rs, existing, temps)
    ensures TempSet(rs, existing, temps) !! existing
    ensures TempSet(rs, existing, temps) !! Sources(rs) + Dests(rs)
  {
    forall p | p in TempSet(rs, existing, temps) ensures p !in existing && p !in Sources(rs) + Dests(rs) {
      var i :| 0 <= i < |rs| && Vacates(rs[i].0, Dests(rs), existing) && p == temps[rs[i].0];
    }
  }

  /** `edits_for_raw_moves` run on the tree when its temporaries are only
      names and not files `mkstemp` has created. If no source, destination
      or temporary lies inside another, every destination's directory
      exists, and a destination that exists is itself a source, then every
      rename succeeds; each existing source's whole subtree arrives at its
      destination; whatever lies outside the mapping's sources and
      destinations is unchanged; nothing is left at or below a source that
      is not also a destination; and every path of the result was there
      before or lies below a destination. */
  lemma RawMovesSafeTree<C>(t: Tree<C>, rs: Renames, temps: map<Path, Path>)
    requires WellFormed(t) && DistinctSources(rs) && DistinctDests(rs)
    requires FreshTemps(rs, t.Keys, temps)
    requires Separated(Tops(rs, t.Keys, temps)) && [] !in Tops(rs, t.Keys, temps)
    requires DestParentsAreDirs(t, rs) && ExistingDestsAreSources(t, rs)
    ensures AllMoves(EditsForRawMoves(rs, t.Keys, temps))
    ensures ApplyPosix(t, EditsForRawMoves(rs, t.Keys, temps)).Success?
    ensures var out := ApplyPosix(t, EditsForRawMoves(rs, t.Keys, temps)).value;
            && WellFormed(out)
            && (forall i, rel :: 0 <= i < |rs| && rs[i].0 in t ==>
                  && (Below(rs[i].1, rel) in out <==> Below(rs[i].0, rel) in t)
                  && (Below(rs[i].1, rel) in out ==> out[Below(rs[i].1, rel)] == t[Below(rs[i].0, rel)]))
            && (forall p :: Outside(p, Sources(rs) + Dests(rs)) ==>
                  (p in out <==> p in t) && (p in out ==> out[p] == t[p]))
            && (forall s, q :: s in Sources(rs) && s !in Dests(rs) && Under(q, s) ==> q !in out)
            && (forall q :: q in out ==> q in t || exists d :: d in Dests(rs) && Under(q, d))
  {
    var K := Tops(rs, t.Keys, temps);
    var ts := TempSet(rs, t.Keys, temps);
    var O0 := Origins(t, K);
    var plan := EditsForRawMoves(rs, t.Keys, temps);
    InitialRelocated(t, K);
    PlanRunsFree(t, rs, temps);
    PlanDestsInSlots(t, rs, temps);
    TreeRun(t, t, K, O0, plan);
    var out := ApplyPosix(t, plan).value;
    var O2 := ApplyMoves(O0, plan).value;
    assert SameSources(rs, t.Keys, O0.Keys);
    PhasesAgree(rs, Dests(rs), t.Keys, O0.Keys, temps);
    assert plan == EditsForRawMoves(rs, O0.Keys, temps);
    FreshTempsNarrow(rs, t.Keys, O0.Keys, temps);
    RawMovesSafe(rs, O0, temps);
    TempsAreNew(rs, t.Keys, temps);
    assert ts !! O2.Keys;
    TreeDelivers(t, out, K, O2, rs);
    TreeFrame(t, out, rs, ts, O2);
    forall s, q | s in Sources(rs) && s !in Dests(rs) && Under(q, s) ensures q !in out {
      EmptySlot(t, out, K, O2, s, q);
    }
    TreeNothingElse(t, out, rs, ts, O0, O2);
  }
}
