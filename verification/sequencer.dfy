/**
  `edits_for_raw_moves`: the two-phase plan of renames that realises a
  rename mapping even when sources and destinations overlap (swaps, chains,
  cycles). A destination that is also an existing source is first moved out
  of the way to a fresh temporary file beside it (phase 1) and moved on to
  its own destination afterwards (phase 2); every other existing source is
  renamed directly in phase 1.

  The second half of the module simulates renames on a file-system map and
  proves that the plan loses no data: every existing source ends up at its
  destination with its original contents, nothing else is touched, and no
  temporary file is left behind.
 */
module Sequencer {
  import opened Models
  import opened Paths

  /** A rename mapping as a Python dict: (source, destination) pairs in
      insertion order. */
  type Renames = seq<(Path, Path)>

  /** Dict keys are distinct. */
  predicate DistinctSources(rs: Renames)
  {
    forall i, j :: 0 <= i < j < |rs| ==> rs[i].0 != rs[j].0
  }

  /** No two sources are renamed to the same destination. */
  predicate DistinctDests(rs: Renames)
  {
    forall i, j :: 0 <= i < j < |rs| ==> rs[i].1 != rs[j].1
  }

  function Sources(rs: Renames): set<Path>
  {
    set i | 0 <= i < |rs| :: rs[i].0
  }

  function Dests(rs: Renames): set<Path>
  {
    set i | 0 <= i < |rs| :: rs[i].1
  }

  /** A source that must vacate through a temporary file: it is also a
      destination, and it exists. */
  predicate Vacates(s: Path, dests: set<Path>, existing: set<Path>)
  {
    s in dests && s in existing
  }

  /** The fresh-name oracle (`mkstemp`) has a name for every vacating source. */
  predicate TempsDefined(rs: Renames, dests: set<Path>, existing: set<Path>, temps: map<Path, Path>)
  {
    forall i :: 0 <= i < |rs| && Vacates(rs[i].0, dests, existing) ==> rs[i].0 in temps
  }

  /** Phase 1, first part: each vacating source moves to its temporary file. */
  function VacateMoves(rs: Renames, dests: set<Path>, existing: set<Path>, temps: map<Path, Path>)
    : (r: seq<EditCmd>)
    requires TempsDefined(rs, dests, existing, temps)
    ensures forall m :: m in r ==>
              m.MoveCmd? && m.path in Sources(rs) && Vacates(m.path, dests, existing)
              && m.path in temps && m.dest == temps[m.path]
    ensures forall i :: 0 <= i < |rs| && Vacates(rs[i].0, dests, existing) ==>
              MoveCmd(rs[i].0, temps[rs[i].0]) in r
    decreases |rs|
  {
    if rs == [] then []
    else
      var s := rs[0].0;
      var rest := VacateMoves(rs[1..], dests, existing, temps);
      assert forall m :: m in rest ==> m.path in Sources(rs) by {
        forall m | m in rest ensures m.path in Sources(rs) {
          var k :| 0 <= k < |rs[1..]| && rs[1..][k].0 == m.path;
          assert rs[k + 1].0 == m.path;
        }
      }
      (if Vacates(s, dests, existing) then [MoveCmd(s, temps[s])] else []) + rest
  }

  /** Phase 1, second part: each existing source that is not a destination
      moves straight to its destination. */
  function DirectMoves(rs: Renames, dests: set<Path>, existing: set<Path>): (r: seq<EditCmd>)
    ensures forall m :: m in r ==>
              m.MoveCmd? && m.path !in dests && m.path in existing
              && exists i :: 0 <= i < |rs| && m == MoveCmd(rs[i].0, rs[i].1)
    ensures forall i :: 0 <= i < |rs| && rs[i].0 !in dests && rs[i].0 in existing ==>
              MoveCmd(rs[i].0, rs[i].1) in r
    decreases |rs|
  {
    if rs == [] then []
    else
      var (s, d) := rs[0];
      var rest := DirectMoves(rs[1..], dests, existing);
      assert forall m :: m in rest ==> exists i :: 0 <= i < |rs| && m == MoveCmd(rs[i].0, rs[i].1) by {
        forall m | m in rest ensures exists i :: 0 <= i < |rs| && m == MoveCmd(rs[i].0, rs[i].1) {
          var k :| 0 <= k < |rs[1..]| && m == MoveCmd(rs[1..][k].0, rs[1..][k].1);
          assert m == MoveCmd(rs[k + 1].0, rs[k + 1].1);
        }
      }
      (if s !in dests && s in existing then [MoveCmd(s, d)] else []) + rest
  }

  /** Phase 2: each temporary file moves on to the destination of the source
      it holds. */
  function ReturnMoves(rs: Renames, dests: set<Path>, existing: set<Path>, temps: map<Path, Path>)
    : (r: seq<EditCmd>)
    requires TempsDefined(rs, dests, existing, temps)
    ensures forall m :: m in r ==>
              m.MoveCmd? && (exists i :: 0 <= i < |rs| && Vacates(rs[i].0, dests, existing)
                                         && m == MoveCmd(temps[rs[i].0], rs[i].1))
    ensures forall i :: 0 <= i < |rs| && Vacates(rs[i].0, dests, existing) ==>
              MoveCmd(temps[rs[i].0], rs[i].1) in r
    decreases |rs|
  {
    if rs == [] then []
    else
      var (s, d) := rs[0];
      var rest := ReturnMoves(rs[1..], dests, existing, temps);
      assert forall m :: m in rest ==> (exists i :: 0 <= i < |rs| && Vacates(rs[i].0, dests, existing)
                                         && m == MoveCmd(temps[rs[i].0], rs[i].1)) by {
        forall m | m in rest
          ensures exists i :: 0 <= i < |rs| && Vacates(rs[i].0, dests, existing)
                              && m == MoveCmd(temps[rs[i].0], rs[i].1)
        {
          var k :| 0 <= k < |rs[1..]| && Vacates(rs[1..][k].0, dests, existing)
                   && m == MoveCmd(temps[rs[1..][k].0], rs[1..][k].1);
          assert rs[1..][k] == rs[k + 1];
        }
      }
      (if Vacates(s, dests, existing) then [MoveCmd(temps[s], d)] else []) + rest
  }

  /** `edits_for_raw_moves(renames)`: all phase-1 moves (every vacate before
      every direct move) followed by all phase-2 moves. `existing` is the set
      of paths that exist and `temps` the names `mkstemp` hands out. Every
      existing source is renamed to its destination, through its temporary
      when it is itself a destination; every rename reads an existing source
      or a temporary. */
  function EditsForRawMoves(renames: Renames, existing: set<Path>, temps: map<Path, Path>)
    : (r: seq<EditCmd>)
    requires TempsDefined(renames, Dests(renames), existing, temps)
    ensures r == VacateMoves(renames, Dests(renames), existing, temps)
               + DirectMoves(renames, Dests(renames), existing)
               + ReturnMoves(renames, Dests(renames), existing, temps)
    ensures forall i :: 0 <= i < |renames| && renames[i].0 in existing ==>
              if renames[i].0 in Dests(renames)
              then MoveCmd(renames[i].0, temps[renames[i].0]) in r
                   && MoveCmd(temps[renames[i].0], renames[i].1) in r
              else MoveCmd(renames[i].0, renames[i].1) in r
    ensures forall m :: m in r ==>
              m.MoveCmd? && ((m.path in Sources(renames) && m.path in existing) || m.path in temps.Values)
  {
    var dests := Dests(renames);
    VacateMoves(renames, dests, existing, temps) + DirectMoves(renames, dests, existing)
      + ReturnMoves(renames, dests, existing, temps)
  }

  // ---------------------------------------------------------------------
  // Simulation of renames on a file system

  /** POSIX `rename(a, b)`: `b` takes the contents of `a`, replacing whatever
      was there, and `a` is gone. */
  function Rename<C>(fs: map<Path, C>, a: Path, b: Path): (r: map<Path, C>)
    requires a in fs
    ensures b in r && r[b] == fs[a]
    ensures a != b ==> a !in r
    ensures forall p :: p != a && p != b ==> (p in r <==> p in fs) && (p in r ==> r[p] == fs[p])
  {
    (fs - {a})[b := fs[a]]
  }

  predicate AllMoves(ms: seq<EditCmd>)
  {
    forall m :: m in ms ==> m.MoveCmd?
  }

  /** Applies the renames in order; None when a source is missing (the
      rename would raise). */
  function ApplyMoves<C>(fs: map<Path, C>, ms: seq<EditCmd>): Option<map<Path, C>>
    requires AllMoves(ms)
    decreases |ms|
  {
    if ms == [] then Some(fs)
    else if ms[0].path !in fs then None
    else ApplyMoves(Rename(fs, ms[0].path, ms[0].dest), ms[1..])
  }

  lemma {:induction false} ApplyAppend<C>(fs: map<Path, C>, a: seq<EditCmd>, b: seq<EditCmd>)
    requires AllMoves(a) && AllMoves(b)
    ensures AllMoves(a + b)
    ensures ApplyMoves(fs, a + b) ==
            (match ApplyMoves(fs, a) case None => None case Some(mid) => ApplyMoves(mid, b))
    decreases |a|
  {
    if a == [] {
      assert a + b == b;
    } else {
      assert (a + b)[0] == a[0];
      assert (a + b)[1..] == a[1..] + b;
      if a[0].path in fs {
        ApplyAppend(Rename(fs, a[0].path, a[0].dest), a[1..], b);
      }
    }
  }

  function Srcs(ms: seq<EditCmd>): set<Path>
  {
    set m | m in ms :: m.path
  }

  function Dsts(ms: seq<EditCmd>): set<Path>
    requires AllMoves(ms)
  {
    set m | m in ms :: m.dest
  }

  predicate SrcsDistinct(ms: seq<EditCmd>)
  {
    forall i, j :: 0 <= i < j < |ms| ==> ms[i].path != ms[j].path
  }

  predicate DstsDistinct(ms: seq<EditCmd>)
    requires AllMoves(ms)
  {
    forall i, j :: 0 <= i < j < |ms| ==> ms[i].dest != ms[j].dest
  }

  /** No rename writes a path that a later rename still has to read. */
  predicate NoClobber(ms: seq<EditCmd>)
    requires AllMoves(ms)
  {
    forall i, j :: 0 <= i < j < |ms| ==> ms[i].dest != ms[j].path
  }

  /** Splitting off the first rename splits its source and destination off
      the sets of sources and destinations. */
  lemma SrcsCons(ms: seq<EditCmd>)
    requires AllMoves(ms) && ms != []
    ensures AllMoves(ms[1..])
    ensures Srcs(ms) == {ms[0].path} + Srcs(ms[1..])
    ensures Dsts(ms) == {ms[0].dest} + Dsts(ms[1..])
  {
    assert ms == [ms[0]] + ms[1..];
  }

  lemma ParallelTail(ms: seq<EditCmd>)
    requires AllMoves(ms) && ms != []
    requires SrcsDistinct(ms) && DstsDistinct(ms) && NoClobber(ms)
    ensures AllMoves(ms[1..])
    ensures SrcsDistinct(ms[1..]) && DstsDistinct(ms[1..]) && NoClobber(ms[1..])
    ensures ms[0].path !in Srcs(ms[1..])
    ensures ms[0].dest !in Srcs(ms[1..]) && ms[0].dest !in Dsts(ms[1..])
  {
    var tail := ms[1..];
    forall i, j | 0 <= i < j < |tail|
      ensures tail[i].path != tail[j].path && tail[i].dest != tail[j].dest
      ensures tail[i].dest != tail[j].path
    {
      assert ms[i + 1] == tail[i] && ms[j + 1] == tail[j];
    }
    forall m | m in tail
      ensures m.path != ms[0].path && m.path != ms[0].dest && m.dest != ms[0].dest
    {
      var j :| 0 <= j < |tail| && tail[j] == m;
      assert ms[j + 1] == m;
    }
  }

  /** A list of renames with distinct sources, distinct destinations and no
      write before a read behaves like all renames happening at once. */
  lemma {:induction false} ApplyParallel<C>(fs: map<Path, C>, ms: seq<EditCmd>)
    requires AllMoves(ms)
    requires SrcsDistinct(ms) && DstsDistinct(ms) && NoClobber(ms)
    requires Srcs(ms) <= fs.Keys
    ensures ApplyMoves(fs, ms).Some?
    ensures var out := ApplyMoves(fs, ms).value;
            && (forall i :: 0 <= i < |ms| ==> ms[i].dest in out && out[ms[i].dest] == fs[ms[i].path])
            && (forall p :: p !in Srcs(ms) && p !in Dsts(ms) ==>
                  (p in out <==> p in fs) && (p in out ==> out[p] == fs[p]))
            && (forall p :: p in Srcs(ms) && p !in Dsts(ms) ==> p !in out)
            && Dsts(ms) <= out.Keys
    decreases |ms|
  {
    if ms != [] {
      var m0 := ms[0];
      var tail := ms[1..];
      var fs' := Rename(fs, m0.path, m0.dest);
      SrcsCons(ms);
      ParallelTail(ms);
      ApplyParallel(fs', tail);
      var out := ApplyMoves(fs', tail).value;
      forall i | 0 <= i < |ms| ensures ms[i].dest in out && out[ms[i].dest] == fs[ms[i].path] {
        if i > 0 {
          assert ms[i] == tail[i - 1];
          assert ms[i].path in Srcs(tail);
        }
      }
    }
  }

  lemma SrcsDistinctAppend(a: seq<EditCmd>, b: seq<EditCmd>)
    requires SrcsDistinct(a) && SrcsDistinct(b) && Srcs(a) !! Srcs(b)
    ensures SrcsDistinct(a + b)
  {
    forall i, j | 0 <= i < j < |a + b| ensures (a + b)[i].path != (a + b)[j].path {
      if i < |a| && j >= |a| {
        assert (a + b)[i] in a && (a + b)[j] in b;
        assert (a + b)[i].path in Srcs(a) && (a + b)[j].path in Srcs(b);
      } else if i >= |a| {
        assert (a + b)[i] == b[i - |a|] && (a + b)[j] == b[j - |a|];
      }
    }
  }

  lemma DstsDistinctAppend(a: seq<EditCmd>, b: seq<EditCmd>)
    requires AllMoves(a) && AllMoves(b)
    requires DstsDistinct(a) && DstsDistinct(b) && Dsts(a) !! Dsts(b)
    ensures AllMoves(a + b) && DstsDistinct(a + b)
  {
    forall i, j | 0 <= i < j < |a + b| ensures (a + b)[i].dest != (a + b)[j].dest {
      if i < |a| && j >= |a| {
        assert (a + b)[i] in a && (a + b)[j] in b;
        assert (a + b)[i].dest in Dsts(a) && (a + b)[j].dest in Dsts(b);
      } else if i >= |a| {
        assert (a + b)[i] == b[i - |a|] && (a + b)[j] == b[j - |a|];
      }
    }
  }

  lemma NoClobberAppend(a: seq<EditCmd>, b: seq<EditCmd>)
    requires AllMoves(a) && AllMoves(b)
    requires NoClobber(a) && NoClobber(b) && Dsts(a) !! Srcs(b)
    ensures AllMoves(a + b) && NoClobber(a + b)
  {
    forall i, j | 0 <= i < j < |a + b| ensures (a + b)[i].dest != (a + b)[j].path {
      if i < |a| && j >= |a| {
        assert (a + b)[i] in a && (a + b)[j] in b;
        assert (a + b)[i].dest in Dsts(a) && (a + b)[j].path in Srcs(b);
      } else if i >= |a| {
        assert (a + b)[i] == b[i - |a|] && (a + b)[j] == b[j - |a|];
      }
    }
  }

  lemma NoClobberDisjoint(ms: seq<EditCmd>)
    requires AllMoves(ms) && Dsts(ms) !! Srcs(ms)
    ensures NoClobber(ms)
  {
    forall i, j | 0 <= i < j < |ms| ensures ms[i].dest != ms[j].path {
      assert ms[i] in ms && ms[j] in ms;
      assert ms[i].dest in Dsts(ms) && ms[j].path in Srcs(ms);
    }
  }

  /** Distinct sources within `all` stay so in the tail, which does not
      contain the head's source. */
  lemma RenamesTail(rs: Renames, all: Renames)
    requires rs != [] && DistinctSources(rs) && Sources(rs) <= Sources(all)
    ensures DistinctSources(rs[1..]) && Sources(rs[1..]) <= Sources(all)
    ensures rs[0].0 !in Sources(rs[1..])
  {
    var tail := rs[1..];
    forall i, j | 0 <= i < j < |tail| ensures tail[i].0 != tail[j].0 {
      assert rs[i + 1] == tail[i] && rs[j + 1] == tail[j];
    }
    forall p | p in Sources(tail) ensures p in Sources(all) {
      var k :| 0 <= k < |tail| && tail[k].0 == p;
      assert rs[k + 1].0 == p;
    }
    forall k | 0 <= k < |tail| ensures tail[k].0 != rs[0].0 {
      assert rs[k + 1] == tail[k];
    }
  }

  /** The head's temporary name is the destination of no later vacating
      move. */
  lemma TempNotInRest(rs: Renames, all: Renames, existing: set<Path>, temps: map<Path, Path>)
    requires rs != [] && DistinctSources(rs)
    requires FreshTemps(all, existing, temps)
    requires forall i :: 0 <= i < |rs| ==> exists j :: 0 <= j < |all| && all[j] == rs[i]
    requires Vacates(rs[0].0, Dests(all), existing)
    requires TempsDefined(rs[1..], Dests(all), existing, temps)
    ensures forall m :: m in VacateMoves(rs[1..], Dests(all), existing, temps) ==> m.dest != temps[rs[0].0]
  {
    var tail := rs[1..];
    var j0 :| 0 <= j0 < |all| && all[j0] == rs[0];
    forall m | m in VacateMoves(tail, Dests(all), existing, temps) ensures m.dest != temps[rs[0].0] {
      var k :| 0 <= k < |tail| && tail[k].0 == m.path;
      var j :| 0 <= j < |all| && all[j] == tail[k];
      assert rs[k + 1] == tail[k];
      assert j != j0;
    }
  }

  /** `mkstemp` gives every vacating source a name in its own directory that
      no other path of the mapping or of the tree uses, and distinct sources
      get distinct names. */
  predicate FreshTemps(rs: Renames, existing: set<Path>, temps: map<Path, Path>)
  {
    && TempsDefined(rs, Dests(rs), existing, temps)
    && (forall i :: 0 <= i < |rs| && Vacates(rs[i].0, Dests(rs), existing) ==>
          var t := temps[rs[i].0];
          Parent(t) == Parent(rs[i].0) && t !in Sources(rs) && t !in Dests(rs) && t !in existing)
    && (forall i, j :: 0 <= i < |rs| && 0 <= j < |rs| && i != j
          && Vacates(rs[i].0, Dests(rs), existing) && Vacates(rs[j].0, Dests(rs), existing)
          ==> temps[rs[i].0] != temps[rs[j].0])
  }

  lemma {:induction false} VacateMovesShape(rs: Renames, all: Renames, existing: set<Path>,
                                            temps: map<Path, Path>)
    requires DistinctSources(rs)
    requires FreshTemps(all, existing, temps)
    requires Sources(rs) <= Sources(all)
    requires forall i :: 0 <= i < |rs| ==> exists j :: 0 <= j < |all| && all[j] == rs[i]
    ensures TempsDefined(rs, Dests(all), existing, temps)
    ensures var v := VacateMoves(rs, Dests(all), existing, temps);
            AllMoves(v) && SrcsDistinct(v) && DstsDistinct(v) && NoClobber(v)
    decreases |rs|
  {
    forall i | 0 <= i < |rs| && Vacates(rs[i].0, Dests(all), existing) ensures rs[i].0 in temps {
      var j :| 0 <= j < |all| && all[j] == rs[i];
    }
    if rs != [] {
      var dests := Dests(all);
      var s := rs[0].0;
      var tail := rs[1..];
      RenamesTail(rs, all);
      forall i | 0 <= i < |tail| ensures exists j :: 0 <= j < |all| && all[j] == tail[i] {
        assert tail[i] == rs[i + 1];
      }
      VacateMovesShape(tail, all, existing, temps);
      var rest := VacateMoves(tail, dests, existing, temps);
      var head: seq<EditCmd> := if Vacates(s, dests, existing) then [MoveCmd(s, temps[s])] else [];
      assert VacateMoves(rs, dests, existing, temps) == head + rest;
      assert Srcs(head) !! Srcs(rest);
      SrcsDistinctAppend(head, rest);
      if Vacates(s, dests, existing) {
        TempNotInRest(rs, all, existing, temps);
      }
      assert Dsts(head) !! Dsts(rest);
      DstsDistinctAppend(head, rest);
      var v := head + rest;
      assert Srcs(v) <= Sources(all);
      forall m | m in v ensures m.dest !in Sources(all) {
        assert m.path in Sources(all);
        var j :| 0 <= j < |all| && all[j].0 == m.path;
      }
      NoClobberDisjoint(v);
    }
  }

  lemma {:induction false} DirectMovesDistinct(rs: Renames, dests: set<Path>, existing: set<Path>)
    requires DistinctSources(rs) && DistinctDests(rs)
    ensures var d := DirectMoves(rs, dests, existing);
            AllMoves(d) && SrcsDistinct(d) && DstsDistinct(d)
    decreases |rs|
  {
    if rs != [] {
      var tail := rs[1..];
      assert DistinctSources(tail) && DistinctDests(tail) by {
        forall i, j | 0 <= i < j < |tail| ensures tail[i].0 != tail[j].0 && tail[i].1 != tail[j].1 {
          assert rs[i + 1] == tail[i] && rs[j + 1] == tail[j];
        }
      }
      DirectMovesDistinct(tail, dests, existing);
      var rest := DirectMoves(tail, dests, existing);
      var head: seq<EditCmd> := if rs[0].0 !in dests && rs[0].0 in existing then [MoveCmd(rs[0].0, rs[0].1)] else [];
      assert DirectMoves(rs, dests, existing) == head + rest;
      forall m | m in rest ensures m.path != rs[0].0 && m.dest != rs[0].1 {
        var k :| 0 <= k < |tail| && m == MoveCmd(tail[k].0, tail[k].1);
        assert tail[k] == rs[k + 1];
      }
      assert Srcs(head) !! Srcs(rest) && Dsts(head) !! Dsts(rest);
      SrcsDistinctAppend(head, rest);
      DstsDistinctAppend(head, rest);
    }
  }

  /** The returns of the later renames neither read the temporary of
      rename `k` nor write its destination. */
  lemma ReturnTailAvoids(all: Renames, k: nat, existing: set<Path>, temps: map<Path, Path>)
    requires k < |all|
    requires DistinctDests(all) && FreshTemps(all, existing, temps)
    ensures TempsDefined(all[k + 1..], Dests(all), existing, temps)
    ensures forall m :: m in ReturnMoves(all[k + 1..], Dests(all), existing, temps) ==>
              m.dest != all[k].1 && (Vacates(all[k].0, Dests(all), existing) ==> m.path != temps[all[k].0])
  {
    var dests := Dests(all);
    var tail := all[k + 1..];
    forall i | 0 <= i < |tail| && Vacates(tail[i].0, dests, existing) ensures tail[i].0 in temps {
      assert tail[i] == all[k + 1 + i];
    }
    var s := all[k].0;
    forall m | m in ReturnMoves(tail, dests, existing, temps)
      ensures m.dest != all[k].1 && (Vacates(s, dests, existing) ==> m.path != temps[s])
    {
      var j :| 0 <= j < |tail| && Vacates(tail[j].0, dests, existing)
               && m == MoveCmd(temps[tail[j].0], tail[j].1);
      assert tail[j] == all[k + 1 + j];
    }
  }

  /** A move put in front of a list of moves keeps sources and
      destinations distinct when the list neither reads its source nor
      writes its destination. */
  lemma HeadRestDistinct(head: seq<EditCmd>, rest: seq<EditCmd>, t: Path, d: Path)
    requires AllMoves(rest) && SrcsDistinct(rest) && DstsDistinct(rest)
    requires head == [] || head == [MoveCmd(t, d)]
    requires forall m :: m in rest ==> m.dest != d && (head != [] ==> m.path != t)
    ensures AllMoves(head + rest) && SrcsDistinct(head + rest) && DstsDistinct(head + rest)
  {
    if head == [] {
      assert head + rest == rest;
    } else {
      var all := head + rest;
      forall i, j | 0 <= i < j < |all| ensures all[i].path != all[j].path && all[i].dest != all[j].dest {
        assert all[j] == rest[j - 1];
        if i > 0 {
          assert all[i] == rest[i - 1];
        }
      }
    }
  }

  lemma {:induction false} ReturnMovesDistinct(all: Renames, k: nat, existing: set<Path>,
                                               temps: map<Path, Path>)
    requires k <= |all|
    requires DistinctDests(all) && FreshTemps(all, existing, temps)
    ensures TempsDefined(all[k..], Dests(all), existing, temps)
    ensures var r := ReturnMoves(all[k..], Dests(all), existing, temps);
            AllMoves(r) && SrcsDistinct(r) && DstsDistinct(r)
    decreases |all| - k
  {
    var dests := Dests(all);
    var rs := all[k..];
    forall i | 0 <= i < |rs| && Vacates(rs[i].0, dests, existing) ensures rs[i].0 in temps {
      assert rs[i] == all[k + i];
    }
    if k < |all| {
      ReturnMovesDistinct(all, k + 1, existing, temps);
      ReturnTailAvoids(all, k, existing, temps);
      var tail := all[k + 1..];
      assert rs[1..] == tail;
      var rest := ReturnMoves(tail, dests, existing, temps);
      var s := all[k].0;
      var head: seq<EditCmd> := if Vacates(s, dests, existing) then [MoveCmd(temps[s], all[k].1)] else [];
      assert ReturnMoves(rs, dests, existing, temps) == head + rest;
      var t := if Vacates(s, dests, existing) then temps[s] else s;
      HeadRestDistinct(head, rest, t, all[k].1);
    }
  }

  lemma SrcsAppend(a: seq<EditCmd>, b: seq<EditCmd>)
    requires AllMoves(a) && AllMoves(b)
    ensures AllMoves(a + b)
    ensures Srcs(a + b) == Srcs(a) + Srcs(b)
    ensures Dsts(a + b) == Dsts(a) + Dsts(b)
  {
  }

  /** Where each phase reads and writes: vacates read chained sources and write
      fresh temporaries, direct moves read unchained existing sources and
      write destinations, and returns read exactly the temporaries the
      vacates wrote and write destinations. */
  lemma PhaseFootprints(rs: Renames, existing: set<Path>, temps: map<Path, Path>)
    requires FreshTemps(rs, existing, temps)
    ensures var dests := Dests(rs);
            var vac := VacateMoves(rs, dests, existing, temps);
            var dir := DirectMoves(rs, dests, existing);
            var ret := ReturnMoves(rs, dests, existing, temps);
            && Srcs(vac) <= Sources(rs) * dests * existing
            && Dsts(vac) !! Sources(rs) + dests + existing
            && Srcs(dir) <= Sources(rs) * existing - dests
            && Dsts(dir) <= dests
            && Srcs(ret) !! Sources(rs) + dests + existing
            && Dsts(ret) <= dests
            && Dsts(vac) == Srcs(ret)
  {
    VacateFootprint(rs, existing, temps);
    DirectFootprint(rs, existing);
    ReturnFootprint(rs, existing, temps);
  }

  lemma VacateFootprint(rs: Renames, existing: set<Path>, temps: map<Path, Path>)
    requires FreshTemps(rs, existing, temps)
    ensures var dests := Dests(rs);
            var vac := VacateMoves(rs, dests, existing, temps);
            var ret := ReturnMoves(rs, dests, existing, temps);
            && Srcs(vac) <= Sources(rs) * dests * existing
            && Dsts(vac) !! Sources(rs) + dests + existing
            && Dsts(vac) <= Srcs(ret)
  {
    var dests := Dests(rs);
    var vac := VacateMoves(rs, dests, existing, temps);
    var ret := ReturnMoves(rs, dests, existing, temps);
    forall m | m in vac ensures m.dest !in Sources(rs) + dests + existing && m.dest in Srcs(ret) {
      var i :| 0 <= i < |rs| && rs[i].0 == m.path;
      assert MoveCmd(temps[rs[i].0], rs[i].1) in ret;
    }
  }

  lemma DirectFootprint(rs: Renames, existing: set<Path>)
    ensures var dests := Dests(rs);
            var dir := DirectMoves(rs, dests, existing);
            && Srcs(dir) <= Sources(rs) * existing - dests
            && Dsts(dir) <= dests
  {
    var dests := Dests(rs);
    var dir := DirectMoves(rs, dests, existing);
    forall m | m in dir ensures m.path in Sources(rs) && m.dest in dests {
      var i :| 0 <= i < |rs| && m == MoveCmd(rs[i].0, rs[i].1);
    }
  }

  lemma ReturnFootprint(rs: Renames, existing: set<Path>, temps: map<Path, Path>)
    requires FreshTemps(rs, existing, temps)
    ensures var dests := Dests(rs);
            var vac := VacateMoves(rs, dests, existing, temps);
            var ret := ReturnMoves(rs, dests, existing, temps);
            && Srcs(ret) !! Sources(rs) + dests + existing
            && Dsts(ret) <= dests
            && Srcs(ret) <= Dsts(vac)
  {
    ReturnReadsTemps(rs, existing, temps);
    ReturnWritesDests(rs, existing, temps);
  }

  lemma ReturnReadsTemps(rs: Renames, existing: set<Path>, temps: map<Path, Path>)
    requires FreshTemps(rs, existing, temps)
    ensures var dests := Dests(rs);
            var vac := VacateMoves(rs, dests, existing, temps);
            var ret := ReturnMoves(rs, dests, existing, temps);
            forall m :: m in ret ==> m.path !in Sources(rs) + dests + existing && m.path in Dsts(vac)
  {
    var dests := Dests(rs);
    var vac := VacateMoves(rs, dests, existing, temps);
    var ret := ReturnMoves(rs, dests, existing, temps);
    forall m | m in ret
      ensures m.path !in Sources(rs) + dests + existing && m.path in Dsts(vac)
    {
      var i :| 0 <= i < |rs| && Vacates(rs[i].0, dests, existing) && m == MoveCmd(temps[rs[i].0], rs[i].1);
      ReturnReadsTempAt(rs, dests, existing, temps, i);
    }
  }

  lemma ReturnReadsTempAt(rs: Renames, dests: set<Path>, existing: set<Path>, temps: map<Path, Path>, i: int)
    requires FreshTemps(rs, existing, temps) && dests == Dests(rs)
    requires 0 <= i < |rs| && Vacates(rs[i].0, dests, existing)
    ensures temps[rs[i].0] !in Sources(rs) + dests + existing
    ensures temps[rs[i].0] in Dsts(VacateMoves(rs, dests, existing, temps))
  {
    assert MoveCmd(rs[i].0, temps[rs[i].0]) in VacateMoves(rs, dests, existing, temps);
  }

  lemma ReturnWritesDests(rs: Renames, existing: set<Path>, temps: map<Path, Path>)
    requires FreshTemps(rs, existing, temps)
    ensures var ret := ReturnMoves(rs, Dests(rs), existing, temps);
            forall m :: m in ret ==> m.dest in Dests(rs)
  {
    var dests := Dests(rs);
    forall m | m in ReturnMoves(rs, dests, existing, temps) ensures m.dest in dests {
      var i :| 0 <= i < |rs| && Vacates(rs[i].0, dests, existing) && m == MoveCmd(temps[rs[i].0], rs[i].1);
    }
  }

  /** Phase 1 (vacates, then direct moves) and phase 2 (returns) each meet
      the conditions of `ApplyParallel`. */
  lemma PhasesAreParallel(rs: Renames, existing: set<Path>, temps: map<Path, Path>)
    requires DistinctSources(rs) && DistinctDests(rs)
    requires FreshTemps(rs, existing, temps)
    ensures var dests := Dests(rs);
            var p1 := VacateMoves(rs, dests, existing, temps) + DirectMoves(rs, dests, existing);
            var ret := ReturnMoves(rs, dests, existing, temps);
            && AllMoves(p1) && SrcsDistinct(p1) && DstsDistinct(p1) && NoClobber(p1)
            && Srcs(p1) <= existing
            && AllMoves(ret) && SrcsDistinct(ret) && DstsDistinct(ret) && NoClobber(ret)
  {
    var dests := Dests(rs);
    var vac := VacateMoves(rs, dests, existing, temps);
    var dir := DirectMoves(rs, dests, existing);
    var ret := ReturnMoves(rs, dests, existing, temps);
    forall i | 0 <= i < |rs| ensures exists j :: 0 <= j < |rs| && rs[j] == rs[i] { }
    VacateMovesShape(rs, rs, existing, temps);
    DirectMovesDistinct(rs, dests, existing);
    ReturnMovesDistinct(rs, 0, existing, temps);
    assert rs[0..] == rs;
    PhaseFootprints(rs, existing, temps);
    NoClobberDisjoint(dir);
    NoClobberDisjoint(ret);
    SrcsAppend(vac, dir);
    SrcsDistinctAppend(vac, dir);
    DstsDistinctAppend(vac, dir);
    NoClobberAppend(vac, dir);
  }

  /** Two parallel phases in a row, the second reading only what the first
      wrote. */
  lemma ApplyTwoPhases<C>(fs: map<Path, C>, a: seq<EditCmd>, b: seq<EditCmd>)
    returns (out1: map<Path, C>, out: map<Path, C>)
    requires AllMoves(a) && SrcsDistinct(a) && DstsDistinct(a) && NoClobber(a)
    requires AllMoves(b) && SrcsDistinct(b) && DstsDistinct(b) && NoClobber(b)
    requires Srcs(a) <= fs.Keys && Srcs(b) <= Dsts(a)
    ensures AllMoves(a + b) && ApplyMoves(fs, a + b) == Some(out)
    ensures forall i :: 0 <= i < |a| ==> a[i].dest in out1 && out1[a[i].dest] == fs[a[i].path]
    ensures forall p :: p !in Srcs(a) && p !in Dsts(a) ==>
              (p in out1 <==> p in fs) && (p in out1 ==> out1[p] == fs[p])
    ensures forall p :: p in Srcs(a) && p !in Dsts(a) ==> p !in out1
    ensures Srcs(b) <= out1.Keys
    ensures forall i :: 0 <= i < |b| ==> b[i].dest in out && out[b[i].dest] == out1[b[i].path]
    ensures forall p :: p !in Srcs(b) && p !in Dsts(b) ==>
              (p in out <==> p in out1) && (p in out ==> out[p] == out1[p])
    ensures forall p :: p in Srcs(b) && p !in Dsts(b) ==> p !in out
  {
    ApplyParallel(fs, a);
    out1 := ApplyMoves(fs, a).value;
    ApplyParallel(out1, b);
    out := ApplyMoves(out1, b).value;
    ApplyAppend(fs, a, b);
  }

  /** Phase 2 reads only what phase 1 wrote. */
  lemma PhasesChain(rs: Renames, existing: set<Path>, temps: map<Path, Path>)
    requires FreshTemps(rs, existing, temps)
    ensures var dests := Dests(rs);
            var vac := VacateMoves(rs, dests, existing, temps);
            var dir := DirectMoves(rs, dests, existing);
            var ret := ReturnMoves(rs, dests, existing, temps);
            AllMoves(vac + dir) && Srcs(ret) <= Dsts(vac + dir)
  {
    var dests := Dests(rs);
    var vac := VacateMoves(rs, dests, existing, temps);
    var dir := DirectMoves(rs, dests, existing);
    PhaseFootprints(rs, existing, temps);
    SrcsAppend(vac, dir);
  }

  /** Running the plan: phase 1 takes every source to its temporary or
      its destination, and phase 2 takes every temporary on. */
  lemma RawMovesRun<C>(rs: Renames, fs: map<Path, C>, temps: map<Path, Path>)
    returns (out1: map<Path, C>, out: map<Path, C>)
    requires DistinctSources(rs) && DistinctDests(rs)
    requires FreshTemps(rs, fs.Keys, temps)
    ensures AllMoves(EditsForRawMoves(rs, fs.Keys, temps))
    ensures ApplyMoves(fs, EditsForRawMoves(rs, fs.Keys, temps)) == Some(out)
    ensures forall m :: m in VacateMoves(rs, Dests(rs), fs.Keys, temps) + DirectMoves(rs, Dests(rs), fs.Keys) ==>
              m.path in fs && m.dest in out1 && out1[m.dest] == fs[m.path]
    ensures var ret := ReturnMoves(rs, Dests(rs), fs.Keys, temps);
            && AllMoves(ret)
            && (forall m :: m in ret ==> m.path in out1 && m.dest in out && out[m.dest] == out1[m.path])
            && (forall p :: p !in Srcs(ret) && p !in Dsts(ret) ==>
                  (p in out <==> p in out1) && (p in out ==> out[p] == out1[p]))
  {
    var ex := fs.Keys;
    var p1 := VacateMoves(rs, Dests(rs), ex, temps) + DirectMoves(rs, Dests(rs), ex);
    var ret := ReturnMoves(rs, Dests(rs), ex, temps);
    PhasesAreParallel(rs, ex, temps);
    PhasesChain(rs, ex, temps);
    out1, out := ApplyTwoPhases(fs, p1, ret);
    forall m | m in p1 ensures m.path in fs && m.dest in out1 && out1[m.dest] == fs[m.path] {
      var k :| 0 <= k < |p1| && p1[k] == m;
    }
    forall m | m in ret ensures m.path in out1 && m.dest in out && out[m.dest] == out1[m.path] {
      var k :| 0 <= k < |ret| && ret[k] == m;
    }
  }

  /** Every existing source's contents arrive at its destination. */
  lemma RawMovesDeliver<C>(rs: Renames, fs: map<Path, C>, temps: map<Path, Path>)
    requires DistinctSources(rs) && DistinctDests(rs)
    requires FreshTemps(rs, fs.Keys, temps)
    ensures AllMoves(EditsForRawMoves(rs, fs.Keys, temps))
    ensures ApplyMoves(fs, EditsForRawMoves(rs, fs.Keys, temps)).Some?
    ensures var out := ApplyMoves(fs, EditsForRawMoves(rs, fs.Keys, temps)).value;
            forall i :: 0 <= i < |rs| && rs[i].0 in fs ==>
              rs[i].1 in out && out[rs[i].1] == fs[rs[i].0]
  {
    forall i | 0 <= i < |rs| && rs[i].0 in fs
      ensures AllMoves(EditsForRawMoves(rs, fs.Keys, temps))
      ensures ApplyMoves(fs, EditsForRawMoves(rs, fs.Keys, temps)).Some?
      ensures var out := ApplyMoves(fs, EditsForRawMoves(rs, fs.Keys, temps)).value;
              rs[i].1 in out && out[rs[i].1] == fs[rs[i].0]
    {
      if rs[i].0 in Dests(rs) {
        DeliverVacated(rs, fs, temps, i);
      } else {
        DeliverDirect(rs, fs, temps, i);
      }
    }
    PlanApplies(rs, fs, temps);
  }

  /** Every rename of the plan finds its source. */
  lemma PlanApplies<C>(rs: Renames, fs: map<Path, C>, temps: map<Path, Path>)
    requires DistinctSources(rs) && DistinctDests(rs)
    requires FreshTemps(rs, fs.Keys, temps)
    ensures AllMoves(EditsForRawMoves(rs, fs.Keys, temps))
    ensures ApplyMoves(fs, EditsForRawMoves(rs, fs.Keys, temps)).Some?
  {
    var ex := fs.Keys;
    var vac := VacateMoves(rs, Dests(rs), ex, temps);
    var dir := DirectMoves(rs, Dests(rs), ex);
    var ret := ReturnMoves(rs, Dests(rs), ex, temps);
    PhasesAreParallel(rs, ex, temps);
    PhaseFootprints(rs, ex, temps);
    SrcsAppend(vac, dir);
    var out1, out := ApplyTwoPhases(fs, vac + dir, ret);
    assert EditsForRawMoves(rs, ex, temps) == vac + dir + ret;
  }

  /** A source that is also a destination travels through its temporary file. */
  lemma DeliverVacated<C>(rs: Renames, fs: map<Path, C>, temps: map<Path, Path>, i: nat)
    requires DistinctSources(rs) && DistinctDests(rs)
    requires FreshTemps(rs, fs.Keys, temps)
    requires i < |rs| && rs[i].0 in fs && rs[i].0 in Dests(rs)
    ensures AllMoves(EditsForRawMoves(rs, fs.Keys, temps))
    ensures ApplyMoves(fs, EditsForRawMoves(rs, fs.Keys, temps)).Some?
    ensures var out := ApplyMoves(fs, EditsForRawMoves(rs, fs.Keys, temps)).value;
            rs[i].1 in out && out[rs[i].1] == fs[rs[i].0]
  {
    var ex := fs.Keys;
    var vac := VacateMoves(rs, Dests(rs), ex, temps);
    var dir := DirectMoves(rs, Dests(rs), ex);
    var ret := ReturnMoves(rs, Dests(rs), ex, temps);
    var p1 := vac + dir;
    var out1, out := RawMovesRun(rs, fs, temps);
    var s := rs[i].0;
    var t := temps[s];
    assert MoveCmd(s, t) in p1;
    assert MoveCmd(t, rs[i].1) in ret;
  }

  /** A source that is no destination is renamed directly, and phase 2 does
      not write over its destination. */
  lemma DeliverDirect<C>(rs: Renames, fs: map<Path, C>, temps: map<Path, Path>, i: nat)
    requires DistinctSources(rs) && DistinctDests(rs)
    requires FreshTemps(rs, fs.Keys, temps)
    requires i < |rs| && rs[i].0 in fs && rs[i].0 !in Dests(rs)
    ensures AllMoves(EditsForRawMoves(rs, fs.Keys, temps))
    ensures ApplyMoves(fs, EditsForRawMoves(rs, fs.Keys, temps)).Some?
    ensures var out := ApplyMoves(fs, EditsForRawMoves(rs, fs.Keys, temps)).value;
            rs[i].1 in out && out[rs[i].1] == fs[rs[i].0]
  {
    var ex := fs.Keys;
    var dests := Dests(rs);
    var vac := VacateMoves(rs, dests, ex, temps);
    var dir := DirectMoves(rs, dests, ex);
    var ret := ReturnMoves(rs, dests, ex, temps);
    var p1 := vac + dir;
    var out1, out := RawMovesRun(rs, fs, temps);
    var s, d := rs[i].0, rs[i].1;
    assert MoveCmd(s, d) in p1;
    DirectDestUntouched(rs, ex, temps, i);
  }

  /** The destination of a direct move is neither read nor written by the
      return phase. */
  lemma DirectDestUntouched(rs: Renames, existing: set<Path>, temps: map<Path, Path>, i: nat)
    requires DistinctDests(rs)
    requires FreshTemps(rs, existing, temps)
    requires i < |rs| && rs[i].0 !in Dests(rs)
    ensures var ret := ReturnMoves(rs, Dests(rs), existing, temps);
            rs[i].1 !in Srcs(ret) && rs[i].1 !in Dsts(ret)
  {
    var dests := Dests(rs);
    var ret := ReturnMoves(rs, dests, existing, temps);
    var d := rs[i].1;
    assert d !in Srcs(ret) by {
      ReturnFootprint(rs, existing, temps);
      assert d in dests;
    }
    forall m | m in ret ensures m.dest != d {
      var j :| 0 <= j < |rs| && Vacates(rs[j].0, dests, existing) && m == MoveCmd(temps[rs[j].0], rs[j].1);
      assert rs[j].0 in dests;
      if j < i {
        assert rs[j].1 != rs[i].1;
      } else {
        assert rs[i].1 != rs[j].1;
      }
    }
  }

  /** Paths the mapping does not mention keep their contents, sources that
      are not destinations are gone, no temporary file is left, and no path
      appears that was neither there before nor a destination. */
  lemma RawMovesFrame<C>(rs: Renames, fs: map<Path, C>, temps: map<Path, Path>)
    requires DistinctSources(rs) && DistinctDests(rs)
    requires FreshTemps(rs, fs.Keys, temps)
    ensures AllMoves(EditsForRawMoves(rs, fs.Keys, temps))
    ensures ApplyMoves(fs, EditsForRawMoves(rs, fs.Keys, temps)).Some?
    ensures var out := ApplyMoves(fs, EditsForRawMoves(rs, fs.Keys, temps)).value;
            && (forall p :: p in fs && p !in Sources(rs) && p !in Dests(rs) ==>
                  p in out && out[p] == fs[p])
            && (forall p :: p in Sources(rs) && p !in Dests(rs) ==> p !in out)
            && (forall i :: 0 <= i < |rs| && Vacates(rs[i].0, Dests(rs), fs.Keys) ==>
                  temps[rs[i].0] !in out)
            && (forall p :: p in out ==> p in fs || p in Dests(rs))
  {
    var dests := Dests(rs);
    var ex := fs.Keys;
    var vac := VacateMoves(rs, dests, ex, temps);
    var dir := DirectMoves(rs, dests, ex);
    var ret := ReturnMoves(rs, dests, ex, temps);
    var p1 := vac + dir;
    PhasesAreParallel(rs, ex, temps);
    PhaseFootprints(rs, ex, temps);
    SrcsAppend(vac, dir);
    var out1, out := ApplyTwoPhases(fs, p1, ret);
    assert EditsForRawMoves(rs, ex, temps) == p1 + ret;
    forall p | p in Sources(rs) && p !in dests ensures p !in out {
      if p in fs {
        var i :| 0 <= i < |rs| && rs[i].0 == p;
        assert MoveCmd(p, rs[i].1) in dir;
        assert p in Srcs(p1);
      }
    }
    forall i | 0 <= i < |rs| && Vacates(rs[i].0, dests, ex) ensures temps[rs[i].0] !in out {
      assert MoveCmd(temps[rs[i].0], rs[i].1) in ret;
    }
  }

  /** `edits_for_raw_moves` realises the rename mapping on a map of regular
      files: each existing source's contents arrive at its destination, and
      nothing the mapping does not name changes. It needs distinct
      destinations, which nothing checks (`SharedDestinationLoses`), and a
      destination that exists and is not a source is overwritten
      (`OverwritesDestination`). */
  lemma RawMovesSafe<C>(rs: Renames, fs: map<Path, C>, temps: map<Path, Path>)
    requires DistinctSources(rs) && DistinctDests(rs)
    requires FreshTemps(rs, fs.Keys, temps)
    ensures AllMoves(EditsForRawMoves(rs, fs.Keys, temps))
    ensures ApplyMoves(fs, EditsForRawMoves(rs, fs.Keys, temps)).Some?
    ensures var out := ApplyMoves(fs, EditsForRawMoves(rs, fs.Keys, temps)).value;
            && (forall i :: 0 <= i < |rs| && rs[i].0 in fs ==>
                  rs[i].1 in out && out[rs[i].1] == fs[rs[i].0])
            && (forall p :: p in fs && p !in Sources(rs) && p !in Dests(rs) ==>
                  p in out && out[p] == fs[p])
            && (forall p :: p in Sources(rs) && p !in Dests(rs) ==> p !in out)
            && (forall p :: p in out ==> p in fs || p in Dests(rs))
  {
    RawMovesDeliver(rs, fs, temps);
    RawMovesFrame(rs, fs, temps);
  }

  /** Two sources renamed to one destination: both renames go ahead, and
      the first source's contents are lost. */
  lemma SharedDestinationLoses()
    ensures var rs: Renames := [(["a"], ["c"]), (["b"], ["c"])];
            && DistinctSources(rs) && !DistinctDests(rs)
            && FreshTemps(rs, {["a"], ["b"]}, map[])
            && EditsForRawMoves(rs, {["a"], ["b"]}, map[]) == [MoveCmd(["a"], ["c"]), MoveCmd(["b"], ["c"])]
            && ApplyMoves(map[["a"] := 1, ["b"] := 2], [MoveCmd(["a"], ["c"]), MoveCmd(["b"], ["c"])])
               == Some(map[["c"] := 2])
  {
    assert ["a"] != ["b"] && ["a"] != ["c"] && ["b"] != ["c"] by {
      assert ["a"][0] == "a" && ["b"][0] == "b" && ["c"][0] == "c";
    }
    SharedPlan([(["a"], ["c"]), (["b"], ["c"])], {["a"], ["b"]}, ["a"], ["b"], ["c"]);
    SharedApply(map[["a"] := 1, ["b"] := 2], ["a"], ["b"], ["c"], 1, 2);
  }

  /** Two sources renamed to one destination `c`, neither of which is `c`:
      nothing vacates, and the plan is the two direct moves. */
  lemma SharedPlan(rs: Renames, existing: set<Path>, x: Path, y: Path, c: Path)
    requires rs == [(x, c), (y, c)] && x != y && x != c && y != c && x in existing && y in existing
    ensures DistinctSources(rs) && !DistinctDests(rs) && FreshTemps(rs, existing, map[])
    ensures EditsForRawMoves(rs, existing, map[]) == [MoveCmd(x, c), MoveCmd(y, c)]
  {
    SharedSets(rs, x, y, c);
    SharedPhases(rs, {c}, existing, x, y, c);
    assert [] + [MoveCmd(x, c), MoveCmd(y, c)] + [] == [MoveCmd(x, c), MoveCmd(y, c)];
  }

  lemma SharedSets(rs: Renames, x: Path, y: Path, c: Path)
    requires rs == [(x, c), (y, c)] && x != y
    ensures Dests(rs) == {c} && DistinctSources(rs) && !DistinctDests(rs)
  {
    assert rs[0].1 == c && rs[1].1 == c;
    assert 0 < 1 < |rs| && rs[0].1 == rs[1].1;
  }

  lemma SharedPhases(rs: Renames, dests: set<Path>, existing: set<Path>, x: Path, y: Path, c: Path)
    requires rs == [(x, c), (y, c)] && dests == {c} && x != c && y != c && x in existing && y in existing
    ensures TempsDefined(rs, dests, existing, map[])
    ensures VacateMoves(rs, dests, existing, map[]) == []
    ensures DirectMoves(rs, dests, existing) == [MoveCmd(x, c), MoveCmd(y, c)]
    ensures ReturnMoves(rs, dests, existing, map[]) == []
  {
    assert rs[1..] == [(y, c)] && rs[1..][1..] == [];
    assert !Vacates(x, dests, existing) && !Vacates(y, dests, existing);
    assert VacateMoves(rs[1..], dests, existing, map[]) == [];
    assert ReturnMoves(rs[1..], dests, existing, map[]) == [];
    assert DirectMoves(rs[1..], dests, existing) == [MoveCmd(y, c)];
  }

  /** Renaming `x` and then `y` onto `c` keeps only `y`'s contents. */
  lemma SharedApply<C>(fs: map<Path, C>, x: Path, y: Path, c: Path, u: C, v: C)
    requires fs == map[x := u, y := v] && x != y && x != c && y != c
    ensures ApplyMoves(fs, [MoveCmd(x, c), MoveCmd(y, c)]) == Some(map[c := v])
  {
    var ms := [MoveCmd(x, c), MoveCmd(y, c)];
    var m1 := Rename(fs, x, c);
    assert m1 == map[y := v, c := u];
    var m2 := Rename(m1, y, c);
    assert m2 == map[c := v];
    assert ms[1..] == [MoveCmd(y, c)] && ms[1..][1..] == [];
    assert ApplyMoves(m2, ms[1..][1..]) == Some(m2);
    assert ApplyMoves(m1, ms[1..]) == Some(m2);
  }

  /** A destination that exists and is not a source is replaced: its
      contents are lost. */
  lemma OverwritesDestination()
    ensures var rs: Renames := [(["a"], ["c"])];
            && DistinctSources(rs) && DistinctDests(rs) && ["c"] !in Sources(rs)
            && FreshTemps(rs, {["a"], ["c"]}, map[])
            && EditsForRawMoves(rs, {["a"], ["c"]}, map[]) == [MoveCmd(["a"], ["c"])]
            && ApplyMoves(map[["a"] := 1, ["c"] := 3], [MoveCmd(["a"], ["c"])]) == Some(map[["c"] := 1])
  {
    var rs: Renames := [(["a"], ["c"])];
    assert Dests(rs) == {["c"]} by {
      assert rs[0].1 == ["c"];
    }
    assert Sources(rs) == {["a"]} by {
      assert rs[0].0 == ["a"];
    }
    assert Rename(map[["a"] := 1, ["c"] := 3], ["a"], ["c"]) == map[["c"] := 1];
  }
}
