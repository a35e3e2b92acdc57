/**
  `edits_for_rearrange`: the plan that renames files and directories and
  rewrites every reference the renames break. Directory moves are expanded
  into moves of everything below them; each moved file's outbound
  references are recomputed from its new location to its targets' new
  locations; each unmoved referrer's references to a moved path are
  recomputed to the new location; the sequencer's renames come last.

  The plan is built in two steps: the rewrite sites (which reference of
  which file is recomputed, from where, to where) are enumerated first, and
  then the new reference texts are computed, which is where `path_as_ref`
  may raise.
 */
module Planner {
  import opened Models
  import opened Paths
  import opened Urls
  import opened Utf8
  import opened Repo
  import opened Sequencer

  // ---------------------------------------------------------------------
  // The ordered dict `all_moves`

  /** A Python dict from paths to paths: its keys in insertion order and
      the mapping itself. */
  datatype PathDict = PathDict(keys: seq<Path>, values: map<Path, Path>)
  {
    ghost predicate Valid()
    {
      NoDup(keys) && forall k :: k in keys <==> k in values
    }
  }

  /** `d[k] = v`: a new key goes last, an existing key keeps its place. */
  function Put(d: PathDict, k: Path, v: Path): (r: PathDict)
    requires d.Valid()
    ensures r.Valid()
    ensures r.values == d.values[k := v]
    ensures r.keys == if k in d.values then d.keys else d.keys + [k]
  {
    if k in d.values then PathDict(d.keys, d.values[k := v])
    else PathDict(d.keys + [k], d.values[k := v])
  }

  // ---------------------------------------------------------------------
  // Expanding directory moves

  /** `p` is mapped because of entry `i` of `toMove`: either it is that
      entry's source, or it lies below that entry's source directory and
      keeps its place relative to it under the destination. */
  predicate MovedBy(snap: Snapshot, toMove: Renames, i: int, p: Path, v: Path)
  {
    && 0 <= i < |toMove|
    && ((p == toMove[i].0 && v == toMove[i].1)
        || (toMove[i].0 in snap.dirs && p in snap.tree && IsDescendant(p, toMove[i].0)
            && v == toMove[i].1 + p[|toMove[i].0|..]))
  }

  /** The paths among `ps` below `src`, each put into `d` at its place
      relative to `src` under `dest`. */
  function PutUnder(d: PathDict, src: Path, dest: Path, ps: seq<Path>): (r: PathDict)
    requires d.Valid()
    ensures r.Valid()
    ensures forall p :: p in r.values <==> p in d.values || (p in ps && IsDescendant(p, src))
    ensures forall p :: p in r.values ==>
              if p in ps && IsDescendant(p, src) then r.values[p] == dest + p[|src|..]
              else r.values[p] == d.values[p]
    decreases |ps|
  {
    if ps == [] then d
    else
      var p := ps[0];
      var d' := if IsDescendant(p, src) then Put(d, p, dest + p[|src|..]) else d;
      PutUnder(d', src, dest, ps[1..])
  }

  /** One entry of the loop that builds `all_moves`: the entry itself and,
      for a directory, everything a recursive glob under it yields. */
  function ExpandOne(snap: Snapshot, d: PathDict, src: Path, dest: Path): (r: PathDict)
    requires d.Valid()
    ensures r.Valid()
    ensures forall p :: p in r.values <==>
              p in d.values || p == src || (src in snap.dirs && p in snap.tree && IsDescendant(p, src))
    ensures forall p :: p in r.values ==>
              if src in snap.dirs && p in snap.tree && IsDescendant(p, src) then r.values[p] == dest + p[|src|..]
              else if p == src then r.values[p] == dest
              else r.values[p] == d.values[p]
  {
    var d1 := Put(d, src, dest);
    if src in snap.dirs then PutUnder(d1, src, dest, snap.tree) else d1
  }

  /** `p` lies below the source of a directory move of `toMove`. */
  predicate UnderMovedDir(snap: Snapshot, toMove: Renames, p: Path)
  {
    exists i :: 0 <= i < |toMove| && toMove[i].0 in snap.dirs && p in snap.tree
                && IsDescendant(p, toMove[i].0)
  }

  /** `p` is a key of `all_moves`. */
  predicate Expanded(snap: Snapshot, toMove: Renames, p: Path)
  {
    p in Sources(toMove) || UnderMovedDir(snap, toMove, p)
  }

  lemma ExpandedSnoc(snap: Snapshot, toMove: Renames, p: Path)
    requires toMove != []
    ensures var n := |toMove| - 1;
            Expanded(snap, toMove, p) <==>
              || Expanded(snap, toMove[..n], p) || p == toMove[n].0
              || (toMove[n].0 in snap.dirs && p in snap.tree && IsDescendant(p, toMove[n].0))
  {
    var n := |toMove| - 1;
    var prefix := toMove[..n];
    if p in Sources(prefix) {
      var i :| 0 <= i < |prefix| && prefix[i].0 == p;
      assert toMove[i].0 == p;
    }
    if p in Sources(toMove) {
      var i :| 0 <= i < |toMove| && toMove[i].0 == p;
      if i < n {
        assert prefix[i].0 == p;
      }
    }
    if UnderMovedDir(snap, prefix, p) {
      var i :| 0 <= i < |prefix| && prefix[i].0 in snap.dirs && p in snap.tree
               && IsDescendant(p, prefix[i].0);
      assert toMove[i] == prefix[i];
    }
    if UnderMovedDir(snap, toMove, p) {
      var i :| 0 <= i < |toMove| && toMove[i].0 in snap.dirs && p in snap.tree
               && IsDescendant(p, toMove[i].0);
      if i < n {
        assert prefix[i] == toMove[i];
      }
    }
  }

  function ExpandFrom(snap: Snapshot, toMove: Renames): (r: PathDict)
    ensures r.Valid()
    ensures forall p :: p in r.values <==> Expanded(snap, toMove, p)
    ensures forall p :: p in r.values ==> exists i :: MovedBy(snap, toMove, i, p, r.values[p])
    decreases |toMove|
  {
    if toMove == [] then PathDict([], map[])
    else
      var n := |toMove| - 1;
      var prefix := toMove[..n];
      var d := ExpandFrom(snap, prefix);
      var (src, dest) := toMove[n];
      var r := ExpandOne(snap, d, src, dest);
      assert forall p :: p in r.values ==> exists i :: MovedBy(snap, toMove, i, p, r.values[p]) by {
        forall p | p in r.values ensures exists i :: MovedBy(snap, toMove, i, p, r.values[p]) {
          if src in snap.dirs && p in snap.tree && IsDescendant(p, src) {
            assert MovedBy(snap, toMove, n, p, r.values[p]);
          } else if p == src {
            assert MovedBy(snap, toMove, n, p, r.values[p]);
          } else {
            var i :| MovedBy(snap, prefix, i, p, d.values[p]);
            assert prefix[i] == toMove[i];
            assert MovedBy(snap, toMove, i, p, r.values[p]);
          }
        }
      }
      assert forall p :: p in r.values <==> Expanded(snap, toMove, p) by {
        forall p ensures p in r.values <==> Expanded(snap, toMove, p) {
          ExpandedSnoc(snap, toMove, p);
        }
      }
      r
  }

  /** `all_moves`: every top-level move, and for a directory every path
      below it; a later entry overrides an earlier one. */
  function ExpandMoves(snap: Snapshot, toMove: Renames): (r: PathDict)
    ensures r.Valid()
    ensures forall p :: p in r.values <==>
              p in Sources(toMove)
              || exists i :: 0 <= i < |toMove| && toMove[i].0 in snap.dirs && p in snap.tree
                             && IsDescendant(p, toMove[i].0)
    ensures forall p :: p in r.values ==> exists i :: MovedBy(snap, toMove, i, p, r.values[p])
  {
    ExpandFrom(snap, toMove)
  }

  /** No source lies at or below another source. */
  predicate NotNested(toMove: Renames)
  {
    forall i, j :: 0 <= i < |toMove| && 0 <= j < |toMove| && i != j ==>
      toMove[i].0 != toMove[j].0 && !IsDescendant(toMove[i].0, toMove[j].0)
  }

  lemma DescendantOfBoth(p: Path, a: Path, b: Path)
    requires IsDescendant(p, a) && IsDescendant(p, b) && |a| <= |b|
    ensures a == b || IsDescendant(b, a)
  {
    assert b[..|a|] == p[..|a|];
  }

  /** With no source nested in another, a top-level source goes to its own
      destination. */
  lemma ExpandSourceExact(snap: Snapshot, toMove: Renames, i: int)
    requires NotNested(toMove) && 0 <= i < |toMove|
    ensures toMove[i].0 in ExpandMoves(snap, toMove).values
    ensures ExpandMoves(snap, toMove).values[toMove[i].0] == toMove[i].1
  {
    var all := ExpandMoves(snap, toMove);
    var s := toMove[i].0;
    assert s in Sources(toMove);
    var j :| MovedBy(snap, toMove, j, s, all.values[s]);
    if j != i {
      assert false;
    }
  }

  /** With no source nested in another, a path below a moved directory
      keeps its place relative to it under the destination. */
  lemma ExpandDescendantExact(snap: Snapshot, toMove: Renames, i: int, p: Path)
    requires NotNested(toMove) && 0 <= i < |toMove|
    requires toMove[i].0 in snap.dirs && p in snap.tree && IsDescendant(p, toMove[i].0)
    ensures p in ExpandMoves(snap, toMove).values
    ensures ExpandMoves(snap, toMove).values[p] == toMove[i].1 + p[|toMove[i].0|..]
  {
    var all := ExpandMoves(snap, toMove);
    var j :| MovedBy(snap, toMove, j, p, all.values[p]);
    if j != i {
      var a, b := toMove[i].0, toMove[j].0;
      assert a != b && !IsDescendant(a, b) && !IsDescendant(b, a);
      if p == b {
        assert false;
      } else if |a| <= |b| {
        DescendantOfBoth(p, a, b);
        assert false;
      } else {
        DescendantOfBoth(p, b, a);
        assert false;
      }
    }
  }

  // ---------------------------------------------------------------------
  // Rewrite sites

  /** Where `p` is once the rearrangement is done. */
  function NewLoc(all: PathDict, p: Path): Path
  {
    if p in all.values then all.values[p] else p
  }

  /** A reference to recompute: the text `ref` in `file`, to be written
      from `base` to `target`. An outbound site (a reference of a moved
      file) is rewritten only when its text changes; an inbound site (a
      reference of a referrer that stays put) always is. */
  datatype Site = Site(file: Path, ref: string, base: Path, target: Path, outbound: bool)

  /** What reference `x` of the file `f` resolves to. */
  function Referent(snap: Snapshot, f: Path, x: string): Option<Path>
    requires f in snap.infos
  {
    snap.referent(snap.infos[f].path, x)
  }

  /** Every site recomputes a reference from the new location of its file
      to the new location of what the reference resolves to. */
  function CanonSite(snap: Snapshot, all: PathDict, f: Path, x: string): Site
    requires f in snap.infos && Referent(snap, f, x).Some?
  {
    Site(f, x, NewLoc(all, f), NewLoc(all, Referent(snap, f, x).value), f in all.values)
  }

  /** `s` is the site of one of its file's resolving references. */
  predicate Canon(snap: Snapshot, all: PathDict, s: Site)
  {
    && s.file in snap.infos && s.ref in snap.infos[s.file].refs
    && Referent(snap, s.file, s.ref).Some?
    && s == CanonSite(snap, all, s.file, s.ref)
  }

  /** The outbound pass for the moved file `src`: each of its references
      that resolves, from `dest` to the target's new location. */
  function OutSitesIn(snap: Snapshot, all: PathDict, src: Path, dest: Path, refs: seq<string>)
    : (r: seq<Site>)
    requires src in snap.infos
    ensures forall s :: s in r ==>
              && s.file == src && s.ref in refs && s.base == dest && s.outbound
              && Referent(snap, src, s.ref).Some?
              && s.target == NewLoc(all, Referent(snap, src, s.ref).value)
    decreases |refs|
  {
    if refs == [] then []
    else
      var rest := OutSitesIn(snap, all, src, dest, refs[1..]);
      match Referent(snap, src, refs[0])
      case None => rest
      case Some(t) => [Site(src, refs[0], dest, NewLoc(all, t), true)] + rest
  }

  /** The inbound sites of the referrer `f`: each of its references `xs`,
      from `f` itself to `dest`. */
  function RefSites(f: Path, dest: Path, xs: seq<string>): (r: seq<Site>)
    ensures forall s :: s in r ==> s.file == f && s.ref in xs && s.base == f && s.target == dest && !s.outbound
    decreases |xs|
  {
    if xs == [] then [] else [Site(f, xs[0], f, dest, false)] + RefSites(f, dest, xs[1..])
  }

  /** The inbound pass for `src` over the referrers `fs`, skipping the ones
      that move themselves. */
  function InSitesIn(snap: Snapshot, all: PathDict, src: Path, dest: Path, fs: seq<Path>)
    : (r: seq<Site>)
    requires forall f :: f in fs ==> f in snap.infos
    ensures forall s :: s in r ==>
              && s.file in fs && s.file !in all.values && s.base == s.file && s.target == dest
              && !s.outbound && s.ref in snap.infos[s.file].refs
              && Referent(snap, s.file, s.ref) == Some(src)
    decreases |fs|
  {
    if fs == [] then []
    else
      var rest := InSitesIn(snap, all, src, dest, fs[1..]);
      if fs[0] in all.values then rest
      else RefSites(fs[0], dest, RefsTo(snap, snap.infos[fs[0]], src)) + rest
  }

  /** Both passes for one entry of `all_moves`. */
  function SitesFor(repo: DirectRepo, snap: Snapshot, all: PathDict, src: Path): (r: seq<Site>)
    requires src in all.values
    ensures forall s :: s in r ==> Canon(snap, all, s)
  {
    var dest := all.values[src];
    var out := if src in snap.infos then OutSitesIn(snap, all, src, dest, snap.infos[src].refs) else [];
    var inb := InSitesIn(snap, all, src, dest, Referrers(repo, snap, src));
    assert forall s :: s in inb ==> Canon(snap, all, s) by {
      forall s | s in inb ensures Canon(snap, all, s) {
        assert s.file !in all.values;
        assert NewLoc(all, src) == dest;
      }
    }
    out + inb
  }

  /** The sites of the entries `ks`, in order. */
  function SitesFrom(repo: DirectRepo, snap: Snapshot, all: PathDict, ks: seq<Path>): (r: seq<Site>)
    requires forall k :: k in ks ==> k in all.values
    ensures forall s :: s in r ==> Canon(snap, all, s)
    decreases |ks|
  {
    if ks == [] then [] else SitesFor(repo, snap, all, ks[0]) + SitesFrom(repo, snap, all, ks[1..])
  }

  function Sites(repo: DirectRepo, snap: Snapshot, all: PathDict): (r: seq<Site>)
    requires all.Valid()
    ensures forall s :: s in r ==> Canon(snap, all, s)
  {
    SitesFrom(repo, snap, all, all.keys)
  }

  // ---------------------------------------------------------------------
  // Every affected reference has exactly one site

  /** How many of `ss` are sites of reference `x` of `f`. */
  function SitesAt(ss: seq<Site>, f: Path, x: string): nat
    decreases |ss|
  {
    if ss == [] then 0
    else (if ss[0].file == f && ss[0].ref == x then 1 else 0) + SitesAt(ss[1..], f, x)
  }

  lemma {:induction false} SitesAtAppend(a: seq<Site>, b: seq<Site>, f: Path, x: string)
    ensures SitesAt(a + b, f, x) == SitesAt(a, f, x) + SitesAt(b, f, x)
    decreases |a|
  {
    if a == [] {
      assert a + b == b;
    } else {
      assert (a + b)[1..] == a[1..] + b;
      SitesAtAppend(a[1..], b, f, x);
    }
  }

  /** What the accessor guarantees: a file's references are listed once
      (they come from a set). */
  predicate RefsListedOnce(snap: Snapshot)
  {
    forall p :: p in snap.infos ==> NoDup(snap.infos[p].refs)
  }

  /** Reference `x` of `f` resolves to some path. */
  predicate Resolves(snap: Snapshot, f: Path, x: string)
  {
    f in snap.infos && x in snap.infos[f].refs && Referent(snap, f, x).Some?
  }

  /** `f` stays put and is one of the repository's regular files whose
      reference `x` resolves. */
  predicate StaysAndResolves(repo: DirectRepo, snap: Snapshot, all: PathDict, f: Path, x: string)
  {
    f !in all.values && f in RepoPaths(repo, snap) && f in snap.files && Resolves(snap, f, x)
  }

  lemma {:induction false} OutSitesCount(snap: Snapshot, all: PathDict, src: Path, dest: Path,
                                          refs: seq<string>, f: Path, x: string)
    requires src in snap.infos && NoDup(refs)
    ensures SitesAt(OutSitesIn(snap, all, src, dest, refs), f, x)
            == if f == src && x in refs && Referent(snap, src, x).Some? then 1 else 0
    decreases |refs|
  {
    if refs != [] {
      NoDupTail(refs);
      OutSitesCount(snap, all, src, dest, refs[1..], f, x);
      assert x in refs <==> x == refs[0] || x in refs[1..];
      var rest := OutSitesIn(snap, all, src, dest, refs[1..]);
      match Referent(snap, src, refs[0])
      case None =>
      case Some(t) =>
        var s := Site(src, refs[0], dest, NewLoc(all, t), true);
        assert ([s] + rest)[1..] == rest;
    }
  }

  lemma {:induction false} RefSitesCount(g: Path, dest: Path, xs: seq<string>, f: Path, x: string)
    requires NoDup(xs)
    ensures SitesAt(RefSites(g, dest, xs), f, x) == if f == g && x in xs then 1 else 0
    decreases |xs|
  {
    if xs != [] {
      NoDupTail(xs);
      RefSitesCount(g, dest, xs[1..], f, x);
      assert x in xs <==> x == xs[0] || x in xs[1..];
      var s := Site(g, xs[0], g, dest, false);
      assert ([s] + RefSites(g, dest, xs[1..]))[1..] == RefSites(g, dest, xs[1..]);
    }
  }

  lemma {:induction false} InSitesCount(snap: Snapshot, all: PathDict, src: Path, dest: Path,
                                         fs: seq<Path>, f: Path, x: string)
    requires forall g :: g in fs ==> g in snap.infos
    requires NoDup(fs) && RefsListedOnce(snap)
    ensures SitesAt(InSitesIn(snap, all, src, dest, fs), f, x)
            == if f in fs && f !in all.values && x in snap.infos[f].refs
                  && Referent(snap, f, x) == Some(src) then 1 else 0
    decreases |fs|
  {
    if fs != [] {
      NoDupTail(fs);
      InSitesCount(snap, all, src, dest, fs[1..], f, x);
      assert f in fs <==> f == fs[0] || f in fs[1..];
      var rest := InSitesIn(snap, all, src, dest, fs[1..]);
      if fs[0] !in all.values {
        var xs := RefsTo(snap, snap.infos[fs[0]], src);
        RefSitesCount(fs[0], dest, xs, f, x);
        SitesAtAppend(RefSites(fs[0], dest, xs), rest, f, x);
      }
    }
  }

  lemma SitesForCount(repo: DirectRepo, snap: Snapshot, all: PathDict, src: Path, f: Path, x: string)
    requires src in all.values && RefsListedOnce(snap)
    ensures SitesAt(SitesFor(repo, snap, all, src), f, x)
            == (if f == src && Resolves(snap, f, x) then 1 else 0)
               + (if StaysAndResolves(repo, snap, all, f, x) && Referent(snap, f, x).value == src
                  then 1 else 0)
  {
    var dest := all.values[src];
    var out := if src in snap.infos then OutSitesIn(snap, all, src, dest, snap.infos[src].refs) else [];
    var fs := Referrers(repo, snap, src);
    if src in snap.infos {
      OutSitesCount(snap, all, src, dest, snap.infos[src].refs, f, x);
    }
    InSitesCount(snap, all, src, dest, fs, f, x);
    SitesAtAppend(out, InSitesIn(snap, all, src, dest, fs), f, x);
    if f in snap.infos && x in snap.infos[f].refs && Referent(snap, f, x) == Some(src) {
      assert f in fs <==> f in RepoPaths(repo, snap) && f in snap.files;
    }
  }

  lemma {:induction false} SitesFromCount(repo: DirectRepo, snap: Snapshot, all: PathDict,
                                           ks: seq<Path>, f: Path, x: string)
    requires forall k :: k in ks ==> k in all.values
    requires NoDup(ks) && RefsListedOnce(snap)
    ensures SitesAt(SitesFrom(repo, snap, all, ks), f, x)
            == (if f in ks && Resolves(snap, f, x) then 1 else 0)
               + (if StaysAndResolves(repo, snap, all, f, x) && Referent(snap, f, x).value in ks
                  then 1 else 0)
    decreases |ks|
  {
    if ks != [] {
      NoDupTail(ks);
      SitesForCount(repo, snap, all, ks[0], f, x);
      SitesFromCount(repo, snap, all, ks[1..], f, x);
      SitesAtAppend(SitesFor(repo, snap, all, ks[0]), SitesFrom(repo, snap, all, ks[1..]), f, x);
      assert forall p :: p in ks <==> p == ks[0] || p in ks[1..];
    }
  }

  /** A reference of a moved file that resolves (the outbound pass), or a
      reference to a moved path from a referrer that stays put (the
      inbound pass). */
  predicate Affected(repo: DirectRepo, snap: Snapshot, all: PathDict, f: Path, x: string)
  {
    || (f in all.values && Resolves(snap, f, x))
    || (StaysAndResolves(repo, snap, all, f, x) && Referent(snap, f, x).value in all.values)
  }

  /** Every affected reference has exactly one site, and no other reference
      has any: a referrer that moves itself is left to the outbound pass. */
  lemma ExactlyOneSite(repo: DirectRepo, snap: Snapshot, all: PathDict, f: Path, x: string)
    requires all.Valid() && RefsListedOnce(snap)
    ensures SitesAt(Sites(repo, snap, all), f, x) == if Affected(repo, snap, all, f, x) then 1 else 0
  {
    SitesFromCount(repo, snap, all, all.keys, f, x);
  }

  // ---------------------------------------------------------------------
  // New reference texts

  /** How a site's new text is written: as `edits_for_rearrange` does, with
      the relative `ref_path` whatever the URL, or with the absolute target
      path when the URL has a scheme or a network location. */
  datatype Mode = AsWritten | AbsoluteForAuthority

  predicate HasAuthority(u: Url)
  {
    u.scheme != "" || u.netloc != ""
  }

  /** `path_as_ref(ref_path(base, target), urlparse(ref))`. */
  function NewRef(snap: Snapshot, mode: Mode, s: Site): Result<string, RefError>
  {
    var u := snap.urlparse(s.ref);
    if mode == AbsoluteForAuthority && HasAuthority(u) then PathAsRef(Absolute(s.target), Some(u))
    else PathAsRef(Relative(RefPath(s.base, s.target)), Some(u))
  }

  /** An outbound site whose text would not change emits nothing. */
  predicate Skipped(snap: Snapshot, mode: Mode, s: Site)
  {
    s.outbound && NewRef(snap, mode, s) == Success(s.ref)
  }

  /** The `ReplaceRefCmd`s of the sites, in order; the first site whose text
      cannot be computed makes the whole plan fail. */
  function RefEdits(snap: Snapshot, mode: Mode, ss: seq<Site>): (r: Result<seq<EditCmd>, RefError>)
    ensures r.Failure? <==> exists s :: s in ss && NewRef(snap, mode, s).Failure?
    ensures r.Success? ==> forall c :: c in r.value ==> c.ReplaceRefCmd?
    decreases |ss|
  {
    if ss == [] then Success([])
    else
      match NewRef(snap, mode, ss[0])
      case Failure(e) => Failure(e)
      case Success(t) =>
        var rest := RefEdits(snap, mode, ss[1..]);
        assert forall s :: s in ss <==> s == ss[0] || s in ss[1..];
        match rest
        case Failure(e) => Failure(e)
        case Success(es) =>
          Success((if ss[0].outbound && t == ss[0].ref then [] else [ReplaceRefCmd(ss[0].file, ss[0].ref, t)]) + es)
  }

  /** Each edit is the new text of one of the sites. */
  lemma {:induction false} RefEditsFromSites(snap: Snapshot, mode: Mode, ss: seq<Site>, c: EditCmd)
    requires RefEdits(snap, mode, ss).Success? && c in RefEdits(snap, mode, ss).value
    ensures exists s :: s in ss && c == ReplaceRefCmd(s.file, s.ref, NewRef(snap, mode, s).value)
    decreases |ss|
  {
    var t := NewRef(snap, mode, ss[0]).value;
    var head := if ss[0].outbound && t == ss[0].ref then [] else [ReplaceRefCmd(ss[0].file, ss[0].ref, t)];
    var es := RefEdits(snap, mode, ss[1..]).value;
    assert RefEdits(snap, mode, ss).value == head + es;
    if c in head {
      assert ss[0] in ss;
    } else {
      RefEditsFromSites(snap, mode, ss[1..], c);
      var s :| s in ss[1..] && c == ReplaceRefCmd(s.file, s.ref, NewRef(snap, mode, s).value);
      assert s in ss;
    }
  }

  /** How many of `es` rewrite reference `x` of `f`. */
  function EditsAt(es: seq<EditCmd>, f: Path, x: string): nat
    decreases |es|
  {
    if es == [] then 0
    else (if es[0].ReplaceRefCmd? && es[0].path == f && es[0].original == x then 1 else 0)
         + EditsAt(es[1..], f, x)
  }

  lemma {:induction false} EditsAtAppend(a: seq<EditCmd>, b: seq<EditCmd>, f: Path, x: string)
    ensures EditsAt(a + b, f, x) == EditsAt(a, f, x) + EditsAt(b, f, x)
    decreases |a|
  {
    if a == [] {
      assert a + b == b;
    } else {
      assert (a + b)[1..] == a[1..] + b;
      EditsAtAppend(a[1..], b, f, x);
    }
  }

  lemma {:induction false} MovesEditNoRef(ms: seq<EditCmd>, f: Path, x: string)
    requires forall m :: m in ms ==> m.MoveCmd?
    ensures EditsAt(ms, f, x) == 0
    decreases |ms|
  {
    if ms != [] {
      assert ms[0] in ms;
      assert forall m :: m in ms[1..] ==> m in ms;
      MovesEditNoRef(ms[1..], f, x);
    }
  }

  /** How many of the sites of reference `x` of `f` are skipped. */
  function SkippedAt(snap: Snapshot, mode: Mode, ss: seq<Site>, f: Path, x: string): nat
    decreases |ss|
  {
    if ss == [] then 0
    else (if ss[0].file == f && ss[0].ref == x && Skipped(snap, mode, ss[0]) then 1 else 0)
         + SkippedAt(snap, mode, ss[1..], f, x)
  }

  /** Each site yields one edit unless it is skipped. */
  lemma {:induction false} RefEditsCount(snap: Snapshot, mode: Mode, ss: seq<Site>, f: Path, x: string)
    requires RefEdits(snap, mode, ss).Success?
    ensures EditsAt(RefEdits(snap, mode, ss).value, f, x) + SkippedAt(snap, mode, ss, f, x)
            == SitesAt(ss, f, x)
    decreases |ss|
  {
    if ss != [] {
      RefEditsCount(snap, mode, ss[1..], f, x);
      var t := NewRef(snap, mode, ss[0]).value;
      var head := if ss[0].outbound && t == ss[0].ref then [] else [ReplaceRefCmd(ss[0].file, ss[0].ref, t)];
      EditsAtAppend(head, RefEdits(snap, mode, ss[1..]).value, f, x);
    }
  }

  /** When every site of reference `x` of `f` is the site `c`, either all of
      them are skipped or none is. */
  lemma {:induction false} SkippedAtUniform(snap: Snapshot, mode: Mode, ss: seq<Site>, f: Path, x: string, c: Site)
    requires forall s :: s in ss && s.file == f && s.ref == x ==> s == c
    ensures SkippedAt(snap, mode, ss, f, x) == if Skipped(snap, mode, c) then SitesAt(ss, f, x) else 0
    decreases |ss|
  {
    if ss != [] {
      assert ss[0] in ss;
      assert forall s :: s in ss[1..] ==> s in ss;
      SkippedAtUniform(snap, mode, ss[1..], f, x, c);
    }
  }

  /** Some site of `x` of `f` exists when the count is positive. */
  lemma {:induction false} SiteAtWitness(ss: seq<Site>, f: Path, x: string) returns (s: Site)
    requires SitesAt(ss, f, x) > 0
    ensures s in ss && s.file == f && s.ref == x
    decreases |ss|
  {
    if ss[0].file == f && ss[0].ref == x {
      s := ss[0];
    } else {
      s := SiteAtWitness(ss[1..], f, x);
    }
  }

  /** Any site counts towards its own reference. */
  lemma {:induction false} SitesAtPositive(ss: seq<Site>, s: Site)
    requires s in ss
    ensures SitesAt(ss, s.file, s.ref) > 0
    decreases |ss|
  {
    if ss[0] != s {
      SitesAtPositive(ss[1..], s);
    }
  }

  /** Each site belongs to an affected reference. */
  lemma SiteIsAffected(repo: DirectRepo, snap: Snapshot, all: PathDict, s: Site)
    requires all.Valid() && RefsListedOnce(snap)
    requires s in Sites(repo, snap, all)
    ensures Affected(repo, snap, all, s.file, s.ref)
    ensures s == CanonSite(snap, all, s.file, s.ref)
  {
    SitesAtPositive(Sites(repo, snap, all), s);
    ExactlyOneSite(repo, snap, all, s.file, s.ref);
  }

  // ---------------------------------------------------------------------
  // The plan

  /** The paths that exist, for the sequencer. */
  function Existing(snap: Snapshot): set<Path>
  {
    snap.files + snap.dirs
  }

  /** The whole plan: every reference edit, then the sequencer's moves of
      the top-level renames (never of the expanded descendants: a moved
      directory carries them along). */
  function Plan(repo: DirectRepo, snap: Snapshot, mode: Mode, toMove: Renames, temps: map<Path, Path>)
    : (r: Result<seq<EditCmd>, RefError>)
    requires TempsDefined(toMove, Dests(toMove), Existing(snap), temps)
    ensures r.Success? ==>
              var moves := EditsForRawMoves(toMove, Existing(snap), temps);
              && |moves| <= |r.value| && r.value[|r.value| - |moves|..] == moves
              && forall i :: 0 <= i < |r.value| - |moves| ==> r.value[i].ReplaceRefCmd?
  {
    var all := ExpandMoves(snap, toMove);
    match RefEdits(snap, mode, Sites(repo, snap, all))
    case Failure(e) => Failure(e)
    case Success(es) =>
      var moves := EditsForRawMoves(toMove, Existing(snap), temps);
      EditsThenMoves(es, moves);
      Success(es + moves)
  }

  /** Reference edits followed by moves: the moves are the suffix, and
      everything before them is a reference edit. */
  lemma EditsThenMoves(es: seq<EditCmd>, moves: seq<EditCmd>)
    requires forall c :: c in es ==> c.ReplaceRefCmd?
    ensures (es + moves)[|es|..] == moves
    ensures forall i :: 0 <= i < |es| ==> (es + moves)[i].ReplaceRefCmd?
  {
    assert forall i :: 0 <= i < |es| ==> (es + moves)[i] == es[i] && es[i] in es;
  }

  /** `edits_for_rearrange(store, renames)`: it raises exactly when some
      reference it has to rewrite is a URL with a scheme or a network
      location, and otherwise returns reference edits followed by the moves
      of `edits_for_raw_moves`. */
  function EditsForRearrange(repo: DirectRepo, snap: Snapshot, toMove: Renames, temps: map<Path, Path>)
    : (r: Result<seq<EditCmd>, RefError>)
    requires TempsDefined(toMove, Dests(toMove), Existing(snap), temps)
    ensures r.Failure? <==>
              exists s :: s in Sites(repo, snap, ExpandMoves(snap, toMove)) && HasAuthority(snap.urlparse(s.ref))
    ensures r.Success? ==>
              var moves := EditsForRawMoves(toMove, Existing(snap), temps);
              && |moves| <= |r.value| && r.value[|r.value| - |moves|..] == moves
              && forall i :: 0 <= i < |r.value| - |moves| ==> r.value[i].ReplaceRefCmd?
  {
    AsWrittenFailsIffAuthority(snap, Sites(repo, snap, ExpandMoves(snap, toMove)));
    Plan(repo, snap, AsWritten, toMove, temps)
  }

  lemma AsWrittenFailsIffAuthority(snap: Snapshot, ss: seq<Site>)
    ensures RefEdits(snap, AsWritten, ss).Failure? <==>
              exists s :: s in ss && HasAuthority(snap.urlparse(s.ref))
  {
    forall s | s in ss ensures NewRef(snap, AsWritten, s).Failure? <==> HasAuthority(snap.urlparse(s.ref)) {
      NewRefFailsIffAuthority(snap, s);
    }
  }

  /** `edits_for_rearrange` with the absolute target path written into
      URLs that have a scheme or a network location: it never raises. */
  function EditsForRearrangeFixed(repo: DirectRepo, snap: Snapshot, toMove: Renames, temps: map<Path, Path>)
    : (r: Result<seq<EditCmd>, RefError>)
    requires TempsDefined(toMove, Dests(toMove), Existing(snap), temps)
    ensures r.Success?
    ensures var moves := EditsForRawMoves(toMove, Existing(snap), temps);
            && |moves| <= |r.value| && r.value[|r.value| - |moves|..] == moves
            && forall i :: 0 <= i < |r.value| - |moves| ==> r.value[i].ReplaceRefCmd?
  {
    FixedRefEditsSucceed(snap, Sites(repo, snap, ExpandMoves(snap, toMove)));
    Plan(repo, snap, AbsoluteForAuthority, toMove, temps)
  }

  lemma MovesOnly(toMove: Renames, existing: set<Path>, temps: map<Path, Path>)
    requires TempsDefined(toMove, Dests(toMove), existing, temps)
    ensures forall m :: m in EditsForRawMoves(toMove, existing, temps) ==> m.MoveCmd?
  {
  }

  /** The moves of a plan edit no reference, so a plan's edits of `x` in
      `f` are those of its reference edits. */
  lemma PlanEditsAt(repo: DirectRepo, snap: Snapshot, mode: Mode, toMove: Renames,
                    temps: map<Path, Path>, f: Path, x: string)
    requires TempsDefined(toMove, Dests(toMove), Existing(snap), temps)
    requires Plan(repo, snap, mode, toMove, temps).Success?
    ensures RefEdits(snap, mode, Sites(repo, snap, ExpandMoves(snap, toMove))).Success?
    ensures EditsAt(Plan(repo, snap, mode, toMove, temps).value, f, x)
            == EditsAt(RefEdits(snap, mode, Sites(repo, snap, ExpandMoves(snap, toMove))).value, f, x)
  {
    var es := RefEdits(snap, mode, Sites(repo, snap, ExpandMoves(snap, toMove))).value;
    var moves := EditsForRawMoves(toMove, Existing(snap), temps);
    EditsAtAppend(es, moves, f, x);
    MovesOnly(toMove, Existing(snap), temps);
    MovesEditNoRef(moves, f, x);
  }

  /** Each affected reference is rewritten exactly once, except a moved
      file's reference whose text comes out unchanged, which is not
      rewritten; no other reference is touched. */
  lemma EachRefRewrittenOnce(repo: DirectRepo, snap: Snapshot, mode: Mode, toMove: Renames,
                             temps: map<Path, Path>, f: Path, x: string)
    requires TempsDefined(toMove, Dests(toMove), Existing(snap), temps) && RefsListedOnce(snap)
    requires Plan(repo, snap, mode, toMove, temps).Success?
    ensures var all := ExpandMoves(snap, toMove);
            EditsAt(Plan(repo, snap, mode, toMove, temps).value, f, x)
            == if Affected(repo, snap, all, f, x) && !Skipped(snap, mode, CanonSite(snap, all, f, x))
               then 1 else 0
  {
    var all := ExpandMoves(snap, toMove);
    var ss := Sites(repo, snap, all);
    PlanEditsAt(repo, snap, mode, toMove, temps, f, x);
    RefEditsCount(snap, mode, ss, f, x);
    ExactlyOneSite(repo, snap, all, f, x);
    if Affected(repo, snap, all, f, x) {
      SkippedAtUniform(snap, mode, ss, f, x, CanonSite(snap, all, f, x));
    }
  }

  /** As written, a new text cannot be computed exactly when the URL has
      an authority. */
  lemma NewRefFailsIffAuthority(snap: Snapshot, s: Site)
    ensures NewRef(snap, AsWritten, s).Failure? <==> HasAuthority(snap.urlparse(s.ref))
  {
  }

  lemma FailureHasAuthority(repo: DirectRepo, snap: Snapshot, all: PathDict)
    requires all.Valid() && RefsListedOnce(snap)
    requires RefEdits(snap, AsWritten, Sites(repo, snap, all)).Failure?
    ensures exists f, x :: Affected(repo, snap, all, f, x) && HasAuthority(snap.urlparse(x))
  {
    var ss := Sites(repo, snap, all);
    var s :| s in ss && NewRef(snap, AsWritten, s).Failure?;
    NewRefFailsIffAuthority(snap, s);
    SiteIsAffected(repo, snap, all, s);
  }

  lemma AuthorityFails(repo: DirectRepo, snap: Snapshot, all: PathDict, f: Path, x: string)
    requires all.Valid() && RefsListedOnce(snap)
    requires Affected(repo, snap, all, f, x) && HasAuthority(snap.urlparse(x))
    ensures RefEdits(snap, AsWritten, Sites(repo, snap, all)).Failure?
  {
    var ss := Sites(repo, snap, all);
    ExactlyOneSite(repo, snap, all, f, x);
    var s := SiteAtWitness(ss, f, x);
    var i :| 0 <= i < |ss| && ss[i] == s;
    NewRefFailsIffAuthority(snap, s);
  }

  /** As written, the plan fails exactly when some affected reference is a
      URL with a scheme or a network location: `ref_path` is always
      relative, and `path_as_ref` refuses to put a relative path there. */
  lemma PlanFailsIffAuthority(repo: DirectRepo, snap: Snapshot, toMove: Renames, temps: map<Path, Path>)
    requires TempsDefined(toMove, Dests(toMove), Existing(snap), temps) && RefsListedOnce(snap)
    ensures var all := ExpandMoves(snap, toMove);
            EditsForRearrange(repo, snap, toMove, temps).Failure? <==>
              exists f, x :: Affected(repo, snap, all, f, x) && HasAuthority(snap.urlparse(x))
  {
    var all := ExpandMoves(snap, toMove);
    if RefEdits(snap, AsWritten, Sites(repo, snap, all)).Failure? {
      FailureHasAuthority(repo, snap, all);
    }
    if exists f, x :: Affected(repo, snap, all, f, x) && HasAuthority(snap.urlparse(x)) {
      var f, x :| Affected(repo, snap, all, f, x) && HasAuthority(snap.urlparse(x));
      AuthorityFails(repo, snap, all, f, x);
    }
  }

  /** With the absolute path for URLs that have an authority, the plan
      never fails. */
  lemma FixedPlanNeverFails(repo: DirectRepo, snap: Snapshot, toMove: Renames, temps: map<Path, Path>)
    requires TempsDefined(toMove, Dests(toMove), Existing(snap), temps)
    ensures EditsForRearrangeFixed(repo, snap, toMove, temps).Success?
  {
    FixedRefEditsSucceed(snap, Sites(repo, snap, ExpandMoves(snap, toMove)));
  }

  lemma FixedRefEditsSucceed(snap: Snapshot, ss: seq<Site>)
    ensures RefEdits(snap, AbsoluteForAuthority, ss).Success?
  {
    forall i | 0 <= i < |ss| ensures NewRef(snap, AbsoluteForAuthority, ss[i]).Success? {
      FixedNewRefSucceeds(snap, ss[i]);
    }
  }

  lemma FixedNewRefSucceeds(snap: Snapshot, s: Site)
    ensures NewRef(snap, AbsoluteForAuthority, s).Success?
  {
  }

  lemma {:induction false} RefEditsModesAgree(snap: Snapshot, ss: seq<Site>)
    requires forall s :: s in ss ==> !HasAuthority(snap.urlparse(s.ref))
    ensures RefEdits(snap, AbsoluteForAuthority, ss) == RefEdits(snap, AsWritten, ss)
    decreases |ss|
  {
    if ss != [] {
      assert ss[0] in ss;
      assert forall s :: s in ss[1..] ==> s in ss;
      RefEditsModesAgree(snap, ss[1..]);
    }
  }

  /** The corrected plan differs from the one as written only where that
      one fails. */
  lemma FixedAgreesWithoutAuthority(repo: DirectRepo, snap: Snapshot, toMove: Renames,
                                    temps: map<Path, Path>)
    requires TempsDefined(toMove, Dests(toMove), Existing(snap), temps) && RefsListedOnce(snap)
    requires EditsForRearrange(repo, snap, toMove, temps).Success?
    ensures EditsForRearrangeFixed(repo, snap, toMove, temps) == EditsForRearrange(repo, snap, toMove, temps)
  {
    var all := ExpandMoves(snap, toMove);
    var ss := Sites(repo, snap, all);
    PlanFailsIffAuthority(repo, snap, toMove, temps);
    forall s | s in ss ensures !HasAuthority(snap.urlparse(s.ref)) {
      SiteIsAffected(repo, snap, all, s);
    }
    RefEditsModesAgree(snap, ss);
  }

  // ---------------------------------------------------------------------
  // What a rewritten reference says

  /** Without an authority, the new text is the encoded relative path from
      the site's base to its target, followed by the original parameters,
      query and fragment: read back from the base it leads to the target. */
  lemma RewriteResolves(snap: Snapshot, mode: Mode, s: Site)
    requires !HasAuthority(snap.urlparse(s.ref)) && Canonical(s.target)
    ensures NewRef(snap, mode, s).Success?
    ensures ResolveRelativeRef(s.base, PathPartOf(NewRef(snap, mode, s).value)) == Some(s.target)
    ensures WellFormedUrl(snap.urlparse(s.ref)) ==>
              && FragmentOf(NewRef(snap, mode, s).value) == snap.urlparse(s.ref).fragment
              && QueryOf(NewRef(snap, mode, s).value) == snap.urlparse(s.ref).query
  {
    var u := snap.urlparse(s.ref);
    var path := Relative(RefPath(s.base, s.target));
    PathAsRefReplacesOnlyPath(path, u);
    RefRoundTrip(s.base, s.target);
    if WellFormedUrl(u) {
      PathAsRefKeepsFragmentAndQuery(path, u);
    }
  }

  /** With an authority, the corrected plan succeeds and writes the URL back
      with only its path replaced, by a text free of `;`, `?` and `#` that
      percent-decodes to the UTF-8 bytes of the absolute target path; a
      well-formed URL keeps its query and fragment. */
  lemma FixedRewriteIsAbsolute(snap: Snapshot, s: Site)
    requires HasAuthority(snap.urlparse(s.ref))
    ensures NewRef(snap, AbsoluteForAuthority, s).Success?
    ensures var u := snap.urlparse(s.ref);
            exists q :: && NewRef(snap, AbsoluteForAuthority, s).value == Unparse(u.(path := q))
                        && Unquote(q) == Some(Encode(AbsText(s.target)))
                        && ';' !in q && '?' !in q && '#' !in q
    ensures var u := snap.urlparse(s.ref);
            WellFormedUrl(u) ==>
              && FragmentOf(NewRef(snap, AbsoluteForAuthority, s).value) == u.fragment
              && QueryOf(NewRef(snap, AbsoluteForAuthority, s).value) == u.query
  {
    var u := snap.urlparse(s.ref);
    var q := Quote(AbsText(s.target));
    PathAsRefIsUnparse(Absolute(s.target), u);
    QuoteHasNoDelimiters(AbsText(s.target));
    assert NewRef(snap, AbsoluteForAuthority, s).value == Unparse(u.(path := q));
    if WellFormedUrl(u) {
      PathAsRefKeepsFragmentAndQuery(Absolute(s.target), u);
    }
  }

  /** Every reference edit of the plan, read back from where its file ends
      up, leads to where its referent ends up, and keeps its query and
      fragment (for a URL without an authority and a canonical target). */
  lemma EditLeadsToNewLocation(repo: DirectRepo, snap: Snapshot, mode: Mode, toMove: Renames,
                               temps: map<Path, Path>, c: EditCmd)
    requires TempsDefined(toMove, Dests(toMove), Existing(snap), temps) && RefsListedOnce(snap)
    requires Plan(repo, snap, mode, toMove, temps).Success?
    requires c in Plan(repo, snap, mode, toMove, temps).value && c.ReplaceRefCmd?
    requires !HasAuthority(snap.urlparse(c.original))
    ensures var all := ExpandMoves(snap, toMove);
            && Resolves(snap, c.path, c.original)
            && var target := NewLoc(all, Referent(snap, c.path, c.original).value);
               && (Canonical(target) ==>
                     ResolveRelativeRef(NewLoc(all, c.path), PathPartOf(c.replacement)) == Some(target))
               && (WellFormedUrl(snap.urlparse(c.original)) ==>
                     && FragmentOf(c.replacement) == snap.urlparse(c.original).fragment
                     && QueryOf(c.replacement) == snap.urlparse(c.original).query)
  {
    var all := ExpandMoves(snap, toMove);
    var ss := Sites(repo, snap, all);
    var es := RefEdits(snap, mode, ss).value;
    var moves := EditsForRawMoves(toMove, Existing(snap), temps);
    MovesOnly(toMove, Existing(snap), temps);
    assert c in es + moves;
    assert c in es;
    RefEditsFromSites(snap, mode, ss, c);
    var s :| s in ss && c == ReplaceRefCmd(s.file, s.ref, NewRef(snap, mode, s).value);
    SiteIsAffected(repo, snap, all, s);
    if Canonical(s.target) {
      RewriteResolves(snap, mode, s);
    }
    if WellFormedUrl(snap.urlparse(s.ref)) {
      PathAsRefKeepsFragmentAndQuery(Relative(RefPath(s.base, s.target)), snap.urlparse(s.ref));
    }
  }

  // ---------------------------------------------------------------------
  // A `file:` URL to a moved note

  /** Two notes under the root `/`: `/b.md` links to `/a.md` as
      `file:///a.md`, which `LinkInfo.referent` resolves to `/a.md`. */
  function FileUrlSnapshot(): Snapshot
  {
    Snapshot(
      [["a.md"], ["b.md"]],
      {["a.md"], ["b.md"]},
      {},
      map[["b.md"] := FileInfo(["b.md"], ["file:///a.md"], {}, None)],
      (p: Path, x: string) => if x == "file:///a.md" then Some(["a.md"]) else None,
      (x: string) => if x == "file:///a.md" then Url("file", "", "/a.md", "", "", "")
                     else Url("", "", x, "", "", ""),
      (pattern: string, text: string) => false)
  }

  /** Renaming `/a.md` to `/c.md` fails as written: the link in `/b.md` is
      affected, and its URL has the scheme `file`. The corrected plan
      rewrites it to `file:///c.md`. */
  lemma FileUrlRefBreaksRearrange()
    ensures EditsForRearrange(DirectRepo([[]], []), FileUrlSnapshot(), [(["a.md"], ["c.md"])], map[]).Failure?
  {
    FileUrlAffected();
    FileUrlAuthority();
    AffectedAuthorityFails(DirectRepo([[]], []), FileUrlSnapshot(), [(["a.md"], ["c.md"])], map[],
                           ["b.md"], "file:///a.md");
  }

  lemma FileUrlAuthority()
    ensures HasAuthority(FileUrlSnapshot().urlparse("file:///a.md"))
    ensures RefsListedOnce(FileUrlSnapshot())
    ensures TempsDefined([(["a.md"], ["c.md"])], Dests([(["a.md"], ["c.md"])]), Existing(FileUrlSnapshot()), map[])
  {
    var rs: Renames := [(["a.md"], ["c.md"])];
    assert Dests(rs) == {["c.md"]} by {
      assert rs[0].1 == ["c.md"];
    }
    assert ["a.md"] != ["c.md"] by {
      assert ["a.md"][0] == "a.md" && ["c.md"][0] == "c.md";
    }
  }

  /** One affected reference whose URL has an authority makes the plan as
      written fail. */
  lemma AffectedAuthorityFails(repo: DirectRepo, snap: Snapshot, toMove: Renames, temps: map<Path, Path>,
                               f: Path, x: string)
    requires TempsDefined(toMove, Dests(toMove), Existing(snap), temps) && RefsListedOnce(snap)
    requires Affected(repo, snap, ExpandMoves(snap, toMove), f, x) && HasAuthority(snap.urlparse(x))
    ensures EditsForRearrange(repo, snap, toMove, temps).Failure?
  {
    PlanFailsIffAuthority(repo, snap, toMove, temps);
  }

  lemma FileUrlAffected()
    ensures Affected(DirectRepo([[]], []), FileUrlSnapshot(), ExpandMoves(FileUrlSnapshot(), [(["a.md"], ["c.md"])]),
                     ["b.md"], "file:///a.md")
  {
    FileUrlExpansion();
    FileUrlRepoPaths();
  }

  lemma FileUrlRepoPaths()
    ensures RepoPaths(DirectRepo([[]], []), FileUrlSnapshot()) == [["a.md"], ["b.md"]]
  {
    var snap := FileUrlSnapshot();
    var a: Path, b: Path := ["a.md"], ["b.md"];
    assert IsDescendant(a, []) && IsDescendant(b, []);
    assert GlobKept(snap, [], [], [b]) == [b];
    assert GlobKept(snap, [], [], [a, b]) == [a, b];
  }

  lemma FileUrlExpansion()
    ensures ExpandMoves(FileUrlSnapshot(), [(["a.md"], ["c.md"])]) == PathDict([["a.md"]], map[["a.md"] := ["c.md"]])
  {
    var toMove: Renames := [(["a.md"], ["c.md"])];
    assert toMove[..0] == [];
    assert ExpandFrom(FileUrlSnapshot(), []) == PathDict([], map[]);
  }

  lemma FileUrlReferrers()
    ensures Referrers(DirectRepo([[]], []), FileUrlSnapshot(), ["a.md"]) == [["b.md"]]
  {
    var snap := FileUrlSnapshot();
    var a: Path, b: Path := ["a.md"], ["b.md"];
    FileUrlRepoPaths();
    assert RefsTo(snap, snap.infos[b], a) == ["file:///a.md"];
    assert !IsReferrer(snap, a, a) && IsReferrer(snap, b, a);
    assert [a, b][..1] == [a] && [a][..0] == [];
    assert ReferrersIn(snap, [a], a) == [];
  }

  lemma FileUrlSites()
    ensures Sites(DirectRepo([[]], []), FileUrlSnapshot(), PathDict([["a.md"]], map[["a.md"] := ["c.md"]]))
            == [Site(["b.md"], "file:///a.md", ["b.md"], ["c.md"], false)]
  {
    var all := PathDict([["a.md"]], map[["a.md"] := ["c.md"]]);
    FileUrlReferrers();
    FileUrlInSites();
    assert SitesFor(DirectRepo([[]], []), FileUrlSnapshot(), all, ["a.md"])
           == [Site(["b.md"], "file:///a.md", ["b.md"], ["c.md"], false)];
    assert all.keys[1..] == [];
  }

  lemma FileUrlInSites()
    ensures InSitesIn(FileUrlSnapshot(), PathDict([["a.md"]], map[["a.md"] := ["c.md"]]), ["a.md"], ["c.md"], [["b.md"]])
            == [Site(["b.md"], "file:///a.md", ["b.md"], ["c.md"], false)]
  {
    var snap := FileUrlSnapshot();
    var fs: seq<Path> := [["b.md"]];
    assert RefsTo(snap, snap.infos[["b.md"]], ["a.md"]) == ["file:///a.md"];
    assert fs[1..] == [];
    assert RefSites(["b.md"], ["c.md"], ["file:///a.md"]) == [Site(["b.md"], "file:///a.md", ["b.md"], ["c.md"], false)];
  }

  lemma FileUrlQuote()
    ensures Quote(AbsText(["c.md"])) == "/c.md"
  {
    assert AbsText(["c.md"]) == "/c.md";
    QuoteIdentity("/c.md");
  }

  lemma FileUrlUnparse()
    ensures Unparse(Url("file", "", "/c.md", "", "", "")) == "file:///c.md"
  {
    var v := Url("file", "", "/c.md", "", "", "");
    assert "file" == UsesNetloc[8];
    assert "/c.md"[..2] == "/c";
    UnparseBare(v);
    assert "file" + ":" + ("//" + "/c.md") == "file:///c.md";
  }

  lemma FileUrlNewText()
    ensures NewRef(FileUrlSnapshot(), AbsoluteForAuthority, Site(["b.md"], "file:///a.md", ["b.md"], ["c.md"], false))
            == Success("file:///c.md")
  {
    var site := Site(["b.md"], "file:///a.md", ["b.md"], ["c.md"], false);
    FixedRewriteIsAbsolute(FileUrlSnapshot(), site);
    FileUrlQuote();
    FileUrlUnparse();
  }

  lemma FileUrlMoves()
    ensures TempsDefined([(["a.md"], ["c.md"])], Dests([(["a.md"], ["c.md"])]), Existing(FileUrlSnapshot()), map[])
    ensures EditsForRawMoves([(["a.md"], ["c.md"])], Existing(FileUrlSnapshot()), map[])
            == [MoveCmd(["a.md"], ["c.md"])]
  {
    var toMove: Renames := [(["a.md"], ["c.md"])];
    assert Dests(toMove) == {["c.md"]} by {
      assert toMove[0].1 in Dests(toMove);
      forall y | y in Dests(toMove) ensures y == ["c.md"] {
        var i :| 0 <= i < |toMove| && toMove[i].1 == y;
      }
    }
    var ex := Existing(FileUrlSnapshot());
    assert VacateMoves(toMove, {["c.md"]}, ex, map[]) == [];
    assert DirectMoves(toMove, {["c.md"]}, ex) == [MoveCmd(["a.md"], ["c.md"])];
    assert ReturnMoves(toMove, {["c.md"]}, ex, map[]) == [];
  }

  lemma RefEditsSingle(snap: Snapshot, mode: Mode, s: Site, t: string)
    requires NewRef(snap, mode, s) == Success(t) && !s.outbound
    ensures RefEdits(snap, mode, [s]) == Success([ReplaceRefCmd(s.file, s.ref, t)])
  {
    var ss := [s];
    assert ss[1..] == [];
    assert RefEdits(snap, mode, ss[1..]) == Success([]);
    var c := ReplaceRefCmd(s.file, s.ref, t);
    assert [c] + [] == [c];
    assert RefEdits(snap, mode, ss) == Success([c] + []);
  }

  /** A corrected plan whose reference edits come out as `es` and whose
      moves come out as `ms` is `es` followed by `ms`. */
  lemma FixedPlanOf(repo: DirectRepo, snap: Snapshot, toMove: Renames, temps: map<Path, Path>,
                    es: seq<EditCmd>, ms: seq<EditCmd>)
    ensures TempsDefined(toMove, Dests(toMove), Existing(snap), temps) &&
            RefEdits(snap, AbsoluteForAuthority, Sites(repo, snap, ExpandMoves(snap, toMove))) == Success(es) &&
            EditsForRawMoves(toMove, Existing(snap), temps) == ms ==>
              EditsForRearrangeFixed(repo, snap, toMove, temps) == Success(es + ms)
  {
  }

  lemma FileUrlSitesOfMove()
    ensures Sites(DirectRepo([[]], []), FileUrlSnapshot(), ExpandMoves(FileUrlSnapshot(), [(["a.md"], ["c.md"])]))
            == [Site(["b.md"], "file:///a.md", ["b.md"], ["c.md"], false)]
  {
    FileUrlExpansion();
    FileUrlSites();
  }

  lemma FileUrlFixedEdits()
    ensures RefEdits(FileUrlSnapshot(), AbsoluteForAuthority,
                     Sites(DirectRepo([[]], []), FileUrlSnapshot(), ExpandMoves(FileUrlSnapshot(), [(["a.md"], ["c.md"])])))
            == Success([ReplaceRefCmd(["b.md"], "file:///a.md", "file:///c.md")])
  {
    var site := Site(["b.md"], "file:///a.md", ["b.md"], ["c.md"], false);
    FileUrlSitesOfMove();
    FileUrlNewText();
    RefEditsSingle(FileUrlSnapshot(), AbsoluteForAuthority, site, "file:///c.md");
  }

  /** On the same example the corrected plan rewrites the link to
      `file:///c.md` and then renames the note. */
  lemma FileUrlFixedRewrite()
    ensures EditsForRearrangeFixed(DirectRepo([[]], []), FileUrlSnapshot(), [(["a.md"], ["c.md"])], map[])
            == Success([ReplaceRefCmd(["b.md"], "file:///a.md", "file:///c.md"), MoveCmd(["a.md"], ["c.md"])])
  {
    var edit := ReplaceRefCmd(["b.md"], "file:///a.md", "file:///c.md");
    var move := MoveCmd(["a.md"], ["c.md"]);
    FileUrlMoves();
    FileUrlFixedEdits();
    FixedPlanOf(DirectRepo([[]], []), FileUrlSnapshot(), [(["a.md"], ["c.md"])], map[], [edit], [move]);
    assert [edit] + [move] == [edit, move];
  }

}
