/**
  `DirectRepo`: a notes repository read straight from the file system. The
  file system is an immutable snapshot; enumeration, back-reference search,
  tag queries and tag counts are filters over that snapshot, and `change`
  is the sequence of file-system and accessor actions it performs.
 */
module Repo {
  import opened Models
  import opened Paths

  /** What the repository sees of the file system and of the helpers it
      calls: every path in the order a recursive glob visits them, the
      regular files, what the accessor parses for a path (absent when it
      yields nothing), how a reference text in a file resolves
      (`LinkInfo.referent`), `urlparse`, and regular-expression search
      (`re.compile(pattern).search(text)` is not None), asked only of
      patterns that `New` has compiled. */
  datatype Snapshot = Snapshot(
    tree: seq<Path>,
    files: set<Path>,
    dirs: set<Path>,
    infos: map<Path, FileInfo>,
    referent: (Path, string) -> Option<Path>,
    urlparse: string -> Url,
    search: (string, string) -> bool)

  /** The `roots` and `filters` keys of the configuration dict; None when the
      key is missing. */
  datatype Config = Config(roots: Option<seq<Path>>, filters: Option<seq<string>>)

  /** `ValueError` for missing roots; `re.error` for the first filter
      pattern that does not compile. */
  datatype ConfigError = MissingRoots | BadPattern(pattern: string)

  /** The Python sets `roots` and `filters`, listed without repetition. */
  datatype DirectRepo = DirectRepo(roots: seq<Path>, filters: seq<string>)

  /** The index of the first pattern in `fs` that does not compile, or `|fs|`. */
  function FirstBad(compiles: string -> bool, fs: seq<string>): (i: nat)
    ensures i <= |fs|
    ensures forall j :: 0 <= j < i ==> compiles(fs[j])
    ensures i < |fs| ==> !compiles(fs[i])
    decreases |fs|
  {
    if fs == [] || !compiles(fs[0]) then 0 else 1 + FirstBad(compiles, fs[1..])
  }

  /** `DirectRepo(config)`: refuses a configuration without roots, then
      compiles the filters in list order and raises on the first that does
      not compile (`compiles(f)` is whether `re.compile(f)` succeeds); a
      missing filter list means no filters. */
  function New(config: Config, compiles: string -> bool): (r: Result<DirectRepo, ConfigError>)
    ensures r == Failure(MissingRoots) <==> config.roots.None?
    ensures r.Failure? <==>
              || config.roots.None?
              || (config.filters.Some? && exists f :: f in config.filters.value && !compiles(f))
    ensures r.Failure? && r.error.BadPattern? ==>
              && config.filters.Some?
              && exists i :: 0 <= i < |config.filters.value|
                   && config.filters.value[i] == r.error.pattern && !compiles(r.error.pattern)
                   && forall j :: 0 <= j < i ==> compiles(config.filters.value[j])
    ensures r.Success? ==>
              && NoDup(r.value.roots) && NoDup(r.value.filters)
              && (forall p :: p in r.value.roots <==> p in config.roots.value)
              && (forall f :: f in r.value.filters <==>
                    config.filters.Some? && f in config.filters.value)
              && (forall f :: f in r.value.filters ==> compiles(f))
  {
    match config.roots
    case None => Failure(MissingRoots)
    case Some(roots) =>
      var filters := match config.filters case None => [] case Some(fs) => fs;
      var i := FirstBad(compiles, filters);
      if i < |filters| then Failure(BadPattern(filters[i]))
      else Success(DirectRepo(Dedup(roots), Dedup(filters)))
  }

  /** Roots are checked before filters, and the first bad filter in list
      order is the one reported. */
  lemma NewExamples(compiles: string -> bool)
    requires compiles("a") && !compiles("(") && !compiles("[")
    ensures New(Config(Some([["n"]]), Some(["a", "(", "["])), compiles) == Failure(BadPattern("("))
    ensures New(Config(None, Some(["("])), compiles) == Failure(MissingRoots)
    ensures New(Config(Some([["n"]]), None), compiles).Success?
  {
  }

  /** No filter pattern matches anywhere in the path's text. */
  predicate Kept(snap: Snapshot, filters: seq<string>, p: Path)
  {
    forall f :: f in filters ==> !snap.search(f, AbsText(p))
  }

  /** `root.glob('**')` restricted to the paths no filter matches, in glob
      order, scanning `ps`. */
  function GlobKept(snap: Snapshot, filters: seq<string>, root: Path, ps: seq<Path>)
    : (r: seq<Path>)
    ensures forall p :: p in r <==> p in ps && IsDescendant(p, root) && Kept(snap, filters, p)
    ensures SubseqOf(r, ps)
    decreases |ps|
  {
    if ps == [] then []
    else
      var rest := GlobKept(snap, filters, root, ps[1..]);
      if IsDescendant(ps[0], root) && Kept(snap, filters, ps[0]) then [ps[0]] + rest
      else
        SubseqSkip(ps[0], rest, ps[1..]);
        rest
  }

  lemma SubseqSkip<T>(x: T, a: seq<T>, b: seq<T>)
    requires SubseqOf(a, b)
    ensures SubseqOf(a, [x] + b)
  {
    assert ([x] + b)[1..] == b;
  }

  /** `_paths()`: for each root in turn, its descendants that no filter
      matches. */
  function PathsFrom(snap: Snapshot, filters: seq<string>, roots: seq<Path>): (r: seq<Path>)
    ensures forall p :: p in r <==>
              && p in snap.tree
              && (exists root :: root in roots && IsDescendant(p, root))
              && Kept(snap, filters, p)
    decreases |roots|
  {
    if roots == [] then []
    else GlobKept(snap, filters, roots[0], snap.tree) + PathsFrom(snap, filters, roots[1..])
  }

  function RepoPaths(repo: DirectRepo, snap: Snapshot): seq<Path>
  {
    PathsFrom(snap, repo.filters, repo.roots)
  }

  /** `info.refs_to_path(target)`: the references of `info` that resolve to
      `target`, in the order listed. */
  function RefsTo(snap: Snapshot, info: FileInfo, target: Path): (r: seq<string>)
    ensures forall x :: x in r <==> x in info.refs && snap.referent(info.path, x) == Some(target)
    ensures NoDup(info.refs) ==> NoDup(r)
  {
    RefsToIn(snap, info.path, info.refs, target)
  }

  function RefsToIn(snap: Snapshot, from: Path, refs: seq<string>, target: Path): (r: seq<string>)
    ensures forall x :: x in r <==> x in refs && snap.referent(from, x) == Some(target)
    ensures SubseqOf(r, refs)
    ensures NoDup(refs) ==> NoDup(r)
    decreases |refs|
  {
    if refs == [] then []
    else
      var rest := RefsToIn(snap, from, refs[1..], target);
      if snap.referent(from, refs[0]) == Some(target) then [refs[0]] + rest
      else
        SubseqSkip(refs[0], rest, refs[1..]);
        rest
  }

  /** `p` is a regular file whose info has at least one reference to `target`. */
  predicate IsReferrer(snap: Snapshot, p: Path, target: Path)
  {
    p in snap.files && p in snap.infos && |RefsTo(snap, snap.infos[p], target)| > 0
  }

  /** The referrers among `ps`, each listed once, in order of first occurrence. */
  function ReferrersIn(snap: Snapshot, ps: seq<Path>, target: Path): (r: seq<Path>)
    ensures NoDup(r)
    ensures forall p :: p in r <==> p in ps && IsReferrer(snap, p, target)
    decreases |ps|
  {
    if ps == [] then []
    else
      var rest := ReferrersIn(snap, ps[..|ps| - 1], target);
      var p := ps[|ps| - 1];
      assert ps == ps[..|ps| - 1] + [p];
      if IsReferrer(snap, p, target) && p !in rest then rest + [p] else rest
  }

  /** `referrers(target)`: the set of enumerated regular files that refer to
      `target`; directories are never included. */
  function Referrers(repo: DirectRepo, snap: Snapshot, target: Path): (r: seq<Path>)
    ensures NoDup(r)
    ensures forall p :: p in r <==>
              p in RepoPaths(repo, snap) && p in snap.files && p in snap.infos
              && exists x :: x in snap.infos[p].refs
                             && snap.referent(snap.infos[p].path, x) == Some(target)
    ensures snap.files !! snap.dirs ==> forall p :: p in r ==> p !in snap.dirs
  {
    var r := ReferrersIn(snap, RepoPaths(repo, snap), target);
    forall p | p in RepoPaths(repo, snap) && p in snap.files && p in snap.infos
      ensures IsReferrer(snap, p, target) <==>
                exists x :: x in snap.infos[p].refs
                            && snap.referent(snap.infos[p].path, x) == Some(target)
    {
      var rs := RefsTo(snap, snap.infos[p], target);
      if |rs| > 0 {
        assert rs[0] in rs;
      }
      if exists x :: x in snap.infos[p].refs && snap.referent(snap.infos[p].path, x) == Some(target) {
        var x :| x in snap.infos[p].refs && snap.referent(snap.infos[p].path, x) == Some(target);
        assert x in rs;
      }
    }
    r
  }

  /** `FileQuery`'s tag constraints. */
  datatype FileQuery = FileQuery(includeTags: set<string>, excludeTags: set<string>)

  /** An empty tag set constrains nothing. */
  predicate Matches(q: FileQuery, info: FileInfo)
  {
    && (q.includeTags == {} || q.includeTags <= info.tags)
    && (q.excludeTags == {} || q.excludeTags !! info.tags)
  }

  /** What the enumeration offers as entries: the infos of regular files
      that have one, in enumeration order. */
  function Entries(snap: Snapshot, ps: seq<Path>): (r: seq<FileInfo>)
    ensures forall x :: x in r <==> exists p :: p in ps && p in snap.files && p in snap.infos
                                               && snap.infos[p] == x
    decreases |ps|
  {
    if ps == [] then []
    else
      var rest := Entries(snap, ps[1..]);
      if ps[0] in snap.files && ps[0] in snap.infos then [snap.infos[ps[0]]] + rest else rest
  }

  /** The loop of `query` over the paths `ps`. */
  function QueryIn(snap: Snapshot, q: FileQuery, ps: seq<Path>): (r: seq<FileInfo>)
    ensures SubseqOf(r, Entries(snap, ps))
    ensures forall x :: x in r <==> x in Entries(snap, ps) && Matches(q, x)
    ensures forall x :: multiset(r)[x] == if Matches(q, x) then multiset(Entries(snap, ps))[x] else 0
    decreases |ps|
  {
    if ps == [] then []
    else
      var rest := QueryIn(snap, q, ps[1..]);
      var es := Entries(snap, ps);
      if ps[0] in snap.files && ps[0] in snap.infos then
        var info := snap.infos[ps[0]];
        assert es == [info] + Entries(snap, ps[1..]);
        assert es[1..] == Entries(snap, ps[1..]);
        if Matches(q, info) then [info] + rest
        else
          SubseqSkip(info, rest, Entries(snap, ps[1..]));
          rest
      else rest
  }

  /** `query(q)`: the infos of the enumerated regular files whose tags meet
      the query, in enumeration order. */
  function Query(repo: DirectRepo, snap: Snapshot, q: FileQuery): (r: seq<FileInfo>)
    ensures SubseqOf(r, Entries(snap, RepoPaths(repo, snap)))
    ensures forall x :: x in r ==> q.includeTags <= x.tags && q.excludeTags !! x.tags
    ensures forall p :: p in RepoPaths(repo, snap) && p in snap.files && p in snap.infos
              && q.includeTags <= snap.infos[p].tags && q.excludeTags !! snap.infos[p].tags
              ==> snap.infos[p] in r
    ensures forall x :: multiset(r)[x] ==
              if Matches(q, x) then multiset(Entries(snap, RepoPaths(repo, snap)))[x] else 0
  {
    QueryIn(snap, q, RepoPaths(repo, snap))
  }

  /** How many of `infos` carry tag `t`. */
  function CountWith(infos: seq<FileInfo>, t: string): nat
    decreases |infos|
  {
    if infos == [] then 0
    else CountWith(infos[..|infos| - 1], t) + (if t in infos[|infos| - 1].tags then 1 else 0)
  }

  lemma CountWithStep(infos: seq<FileInfo>, i: nat, t: string)
    requires i < |infos|
    ensures CountWith(infos[..i + 1], t) == CountWith(infos[..i], t) + (if t in infos[i].tags then 1 else 0)
  {
    assert infos[..i + 1][..i] == infos[..i];
  }

  /** A `defaultdict(int)` lookup. */
  function Get(m: map<string, nat>, t: string): nat
  {
    if t in m then m[t] else 0
  }

  /** `tag_counts(q)`: for every tag, the number of query results carrying
      it; only tags that occur are keys. */
  method TagCounts(repo: DirectRepo, snap: Snapshot, q: FileQuery) returns (counts: map<string, nat>)
    ensures forall t :: Get(counts, t) == CountWith(Query(repo, snap, q), t)
    ensures forall t :: t in counts <==> CountWith(Query(repo, snap, q), t) > 0
  {
    var results := Query(repo, snap, q);
    counts := map[];
    var i := 0;
    while i < |results|
      invariant 0 <= i <= |results|
      invariant forall t :: Get(counts, t) == CountWith(results[..i], t)
      invariant forall t :: t in counts ==> counts[t] > 0
    {
      counts := CountTags(counts, results[i].tags);
      forall t ensures Get(counts, t) == CountWith(results[..i + 1], t) {
        CountWithStep(results, i, t);
      }
      i := i + 1;
    }
    assert results[..i] == results;
  }

  /** The inner loop of `tag_counts`: one more for every tag of one file. */
  method CountTags(counts: map<string, nat>, tags: set<string>) returns (r: map<string, nat>)
    requires forall t :: t in counts ==> counts[t] > 0
    ensures forall t :: Get(r, t) == Get(counts, t) + (if t in tags then 1 else 0)
    ensures forall t :: t in r ==> r[t] > 0
  {
    r := counts;
    var todo := tags;
    while todo != {}
      invariant todo <= tags
      invariant forall u :: u in r ==> r[u] > 0
      invariant forall u :: Get(r, u) == Get(counts, u) + (if u in tags && u !in todo then 1 else 0)
      decreases |todo|
    {
      var t :| t in todo;
      var r' := r[t := Get(r, t) + 1];
      assert forall u :: u != t ==> Get(r', u) == Get(r, u);
      r := r';
      todo := todo - {t};
    }
  }

  // ---------------------------------------------------------------------
  // change

  /** What `change` does, in order: a rename on the file system, one edit
      handed to the accessor of a file, or that accessor saving. */
  datatype Action = RenameAct(src: Path, dst: Path) | EditAct(file: Path, cmd: EditCmd) | SaveAct(file: Path)

  /** `group[0]` of an empty group raises IndexError; an edit without a
      destination in a rename group raises AttributeError. */
  datatype ChangeError = EmptyGroup | NotAMove(cmd: EditCmd)

  /** The actions performed and the exception that stopped `change`, if any. */
  datatype Outcome = Outcome(actions: seq<Action>, error: Option<ChangeError>)

  function Renames(group: seq<EditCmd>): Outcome
    decreases |group|
  {
    if group == [] then Outcome([], None)
    else if !group[0].MoveCmd? then Outcome([], Some(NotAMove(group[0])))
    else
      var rest := Renames(group[1..]);
      Outcome([RenameAct(group[0].path, group[0].dest)] + rest.actions, rest.error)
  }

  function Edits(file: Path, group: seq<EditCmd>): seq<Action>
    decreases |group|
  {
    if group == [] then [] else [EditAct(file, group[0])] + Edits(file, group[1..])
  }

  /** One group: renames in list order when it starts with a move, otherwise
      every edit to the accessor of the first edit's file and then one save. */
  function ChangeGroup(group: seq<EditCmd>): Outcome
  {
    if group == [] then Outcome([], Some(EmptyGroup))
    else if group[0].MoveCmd? then Renames(group)
    else Outcome(Edits(group[0].path, group) + [SaveAct(group[0].path)], None)
  }

  /** `change` over the groups `group_edits` formed, stopping at the first
      exception. */
  function Change(groups: seq<seq<EditCmd>>): (r: Outcome)
    ensures r.error.None? <==> forall i :: 0 <= i < |groups| ==> ChangeGroup(groups[i]).error.None?
    ensures r.error.Some? ==>
              exists i :: && 0 <= i < |groups| && r.error == ChangeGroup(groups[i]).error
                          && forall j :: 0 <= j < i ==> ChangeGroup(groups[j]).error.None?
    ensures groups != [] ==> ChangeGroup(groups[0]).actions <= r.actions
    decreases |groups|
  {
    if groups == [] then Outcome([], None)
    else
      var first := ChangeGroup(groups[0]);
      if first.error.Some? then first
      else
        var rest := Change(groups[1..]);
        assert forall j :: 0 < j < |groups| ==> groups[1..][j - 1] == groups[j];
        Outcome(first.actions + rest.actions, rest.error)
  }

  /** A group `change` cannot carry through. */
  predicate Malformed(group: seq<EditCmd>)
  {
    group == [] || (group[0].MoveCmd? && exists k :: 0 <= k < |group| && !group[k].MoveCmd?)
  }

  /** A rename group performs exactly its renames, in list order. */
  lemma {:induction false} RenamesInOrder(group: seq<EditCmd>)
    requires forall k :: 0 <= k < |group| ==> group[k].MoveCmd?
    ensures Renames(group).error.None?
    ensures |Renames(group).actions| == |group|
    ensures forall k :: 0 <= k < |group| ==>
              Renames(group).actions[k] == RenameAct(group[k].path, group[k].dest)
    decreases |group|
  {
    if group != [] {
      RenamesInOrder(group[1..]);
      var rest := Renames(group[1..]);
      forall k | 0 < k < |group|
        ensures Renames(group).actions[k] == RenameAct(group[k].path, group[k].dest)
      {
        assert group[1..][k - 1] == group[k];
      }
    }
  }

  lemma {:induction false} EditsShape(file: Path, group: seq<EditCmd>)
    ensures |Edits(file, group)| == |group|
    ensures forall k :: 0 <= k < |group| ==> Edits(file, group)[k] == EditAct(file, group[k])
    decreases |group|
  {
    if group != [] {
      EditsShape(file, group[1..]);
      forall k | 0 < k < |group| ensures Edits(file, group)[k] == EditAct(file, group[k]) {
        assert group[1..][k - 1] == group[k];
      }
    }
  }

  function SaveCount(actions: seq<Action>): nat
    decreases |actions|
  {
    if actions == [] then 0 else (if actions[0].SaveAct? then 1 else 0) + SaveCount(actions[1..])
  }

  lemma {:induction false} SaveCountAppend(a: seq<Action>, b: seq<Action>)
    ensures SaveCount(a + b) == SaveCount(a) + SaveCount(b)
    decreases |a|
  {
    if a == [] {
      assert a + b == b;
    } else {
      assert (a + b)[1..] == a[1..] + b;
      SaveCountAppend(a[1..], b);
    }
  }

  lemma {:induction false} EditsHaveNoSave(file: Path, group: seq<EditCmd>)
    ensures SaveCount(Edits(file, group)) == 0
    decreases |group|
  {
    if group != [] {
      EditsHaveNoSave(file, group[1..]);
    }
  }

  lemma {:induction false} RenamesHaveNoSave(group: seq<EditCmd>)
    ensures SaveCount(Renames(group).actions) == 0
    decreases |group|
  {
    if group != [] && group[0].MoveCmd? {
      RenamesHaveNoSave(group[1..]);
    }
  }

  /** Any other group hands every edit, in order, to the accessor of the
      first edit's file and then saves that file exactly once, last. */
  lemma EditGroupSavesOnce(group: seq<EditCmd>)
    requires group != [] && !group[0].MoveCmd?
    ensures ChangeGroup(group).error.None?
    ensures var acts := ChangeGroup(group).actions;
            && |acts| == |group| + 1
            && (forall k :: 0 <= k < |group| ==> acts[k] == EditAct(group[0].path, group[k]))
            && acts[|group|] == SaveAct(group[0].path)
            && SaveCount(acts) == 1
  {
    var e := Edits(group[0].path, group);
    EditsShape(group[0].path, group);
    EditsHaveNoSave(group[0].path, group);
    SaveCountAppend(e, [SaveAct(group[0].path)]);
  }

  /** A rename group never saves. */
  lemma MoveGroupNeverSaves(group: seq<EditCmd>)
    requires group != [] && group[0].MoveCmd?
    ensures SaveCount(ChangeGroup(group).actions) == 0
  {
    RenamesHaveNoSave(group);
  }

  /** `change` raises exactly when one of its groups is malformed. */
  lemma {:induction false} ChangeFailsIffMalformed(groups: seq<seq<EditCmd>>)
    ensures Change(groups).error.Some? <==> exists i :: 0 <= i < |groups| && Malformed(groups[i])
    decreases |groups|
  {
    if groups != [] {
      GroupFailsIffMalformed(groups[0]);
      ChangeFailsIffMalformed(groups[1..]);
      if exists i :: 0 <= i < |groups[1..]| && Malformed(groups[1..][i]) {
        var i :| 0 <= i < |groups[1..]| && Malformed(groups[1..][i]);
        assert groups[i + 1] == groups[1..][i];
      }
      if exists i :: 0 <= i < |groups| && Malformed(groups[i]) {
        var i :| 0 <= i < |groups| && Malformed(groups[i]);
        if i > 0 {
          assert groups[1..][i - 1] == groups[i];
        }
      }
    }
  }

  lemma GroupFailsIffMalformed(group: seq<EditCmd>)
    ensures ChangeGroup(group).error.Some? <==> Malformed(group)
  {
    if group != [] && group[0].MoveCmd? {
      RenamesFailIffNonMove(group);
    }
  }

  lemma {:induction false} RenamesFailIffNonMove(group: seq<EditCmd>)
    ensures Renames(group).error.Some? <==> exists k :: 0 <= k < |group| && !group[k].MoveCmd?
    decreases |group|
  {
    if group != [] && group[0].MoveCmd? {
      RenamesFailIffNonMove(group[1..]);
      if exists k :: 0 <= k < |group| && !group[k].MoveCmd? {
        var k :| 0 <= k < |group| && !group[k].MoveCmd?;
        assert group[1..][k - 1] == group[k];
      }
      if exists k :: 0 <= k < |group[1..]| && !group[1..][k].MoveCmd? {
        var k :| 0 <= k < |group[1..]| && !group[1..][k].MoveCmd?;
        assert group[k + 1] == group[1..][k];
      }
    }
  }

  function NonMoveGroups(groups: seq<seq<EditCmd>>): nat
    decreases |groups|
  {
    if groups == [] then 0
    else (if groups[0] != [] && !groups[0][0].MoveCmd? then 1 else 0) + NonMoveGroups(groups[1..])
  }

  /** A `change` that completes saves once per non-rename group. */
  lemma {:induction false} SavesOncePerGroup(groups: seq<seq<EditCmd>>)
    requires Change(groups).error.None?
    ensures SaveCount(Change(groups).actions) == NonMoveGroups(groups)
    decreases |groups|
  {
    if groups != [] {
      var g := groups[0];
      var first := ChangeGroup(g);
      SavesOncePerGroup(groups[1..]);
      SaveCountAppend(first.actions, Change(groups[1..]).actions);
      if g[0].MoveCmd? {
        MoveGroupNeverSaves(g);
      } else {
        EditGroupSavesOnce(g);
      }
    }
  }
}
