/**
  The Markdown accessor's scanners: `TAG_RE` with `extract_tags`, and
  `INLINE_REF_RE` and `REFSTYLE_REF_RE` with `extract_refs`. Each regular
  expression is written out as a scanner over ASCII text that makes the
  choices Python's engine makes: the greedy repetitions take the longest
  run that still lets the rest of the pattern match, and `findall` resumes
  searching where the previous match ended. Each scanner comes with the
  pattern's own match condition and a lemma that the scanner picks the
  match the engine picks.
 */
module Markdown {
  import opened Models
  import opened Paths

  // ---------------------------------------------------------------------
  // Character classes

  /** `\s` restricted to ASCII: space, tab, line feed, vertical tab, form
      feed, carriage return and the separators 0x1C to 0x1F. */
  predicate IsSpace(c: char)
  {
    var n := c as int;
    n == 32 || (9 <= n <= 13) || (28 <= n <= 31)
  }

  predicate IsLetter(c: char)
  {
    ('a' <= c <= 'z') || ('A' <= c <= 'Z')
  }

  /** `\w` restricted to ASCII. */
  predicate IsWordChar(c: char)
  {
    IsLetter(c) || ('0' <= c <= '9') || c == '_'
  }

  /** `[a-zA-Z\-_0-9]`. */
  predicate IsTagChar(c: char)
  {
    IsWordChar(c) || c == '-'
  }

  // ---------------------------------------------------------------------
  // Tags

  /** The end of the run of tag characters that starts at `j`. */
  function RunEnd(doc: string, j: nat): (e: nat)
    requires j <= |doc|
    ensures j <= e <= |doc|
    ensures forall p :: j <= p < e ==> IsTagChar(doc[p])
    ensures e < |doc| ==> !IsTagChar(doc[e])
    decreases |doc| - j
  {
    if j < |doc| && IsTagChar(doc[j]) then RunEnd(doc, j + 1) else j
  }

  /** The end of `doc[j..e]` once its trailing `-`s are dropped. */
  function TrimDashes(doc: string, j: nat, e: nat): (k: nat)
    requires j <= e <= |doc|
    ensures j <= k <= e
    ensures forall p :: k <= p < e ==> doc[p] == '-'
    ensures k > j ==> doc[k - 1] != '-'
    decreases e
  {
    if e > j && doc[e - 1] == '-' then TrimDashes(doc, j, e - 1) else e
  }

  /** The group of the `TAG_RE` match that starts at `i`, if one does. */
  function TagAt(doc: string, i: nat): (r: Option<string>)
    ensures r.Some? ==>
              && i + 2 + |r.value| <= |doc| && doc[i + 2..i + 2 + |r.value|] == r.value
              && |r.value| > 0 && IsLetter(r.value[0]) && IsWordChar(r.value[|r.value| - 1])
              && forall p :: 0 <= p < |r.value| ==> IsTagChar(r.value[p])
  {
    if i + 2 < |doc| && (IsSpace(doc[i]) || doc[i] == '^') && doc[i + 1] == '#' && IsLetter(doc[i + 2])
    then
      var e := TrimDashes(doc, i + 2, RunEnd(doc, i + 2));
      Some(doc[i + 2..e])
    else None
  }

  /** `\b` at `e`: exactly one side of it is a word character. */
  predicate Boundary(doc: string, e: nat)
    requires 0 < e <= |doc|
  {
    IsWordChar(doc[e - 1]) != (e < |doc| && IsWordChar(doc[e]))
  }

  /** `TAG_RE` matches at `i` with its group ending at `e`: a whitespace or
      `^`, then `#`, a letter, tag characters up to `e`, and a word
      boundary at `e`. */
  predicate TagMatch(doc: string, i: nat, e: int)
  {
    && i + 2 < e <= |doc|
    && (IsSpace(doc[i]) || doc[i] == '^') && doc[i + 1] == '#' && IsLetter(doc[i + 2])
    && (forall p :: i + 3 <= p < e ==> IsTagChar(doc[p]))
    && Boundary(doc, e)
  }

  /** A match starts at `i` exactly when `TagAt` finds one there, and the
      group `TagAt` returns is the longest the pattern allows: the greedy
      star backs off only over trailing `-`s, where `\b` cannot hold. */
  lemma TagAtIsLongestMatch(doc: string, i: nat)
    ensures TagAt(doc, i).Some? <==> exists e :: TagMatch(doc, i, e)
    ensures TagAt(doc, i).Some? ==>
              var e := i + 2 + |TagAt(doc, i).value|;
              TagMatch(doc, i, e) && forall e' :: TagMatch(doc, i, e') ==> e' <= e
  {
    if TagAt(doc, i).Some? {
      var run := RunEnd(doc, i + 2);
      var e := TrimDashes(doc, i + 2, run);
      assert e == i + 2 + |TagAt(doc, i).value|;
      assert TagMatch(doc, i, e) by {
        assert doc[e - 1] != '-';
        if e < run {
          assert doc[e] == '-';
        }
      }
      forall e' | TagMatch(doc, i, e') ensures e' <= e {
        if e' > e {
          assert false;
        }
      }
    }
  }

  /** The tags `findall` returns scanning from `i`: a match is looked for
      at each position in turn, and the search resumes where a match ends. */
  function TagsFrom(doc: string, i: nat): (r: seq<string>)
    requires i <= |doc|
    ensures forall t :: t in r <==> exists j :: i <= j < |doc| && TagAt(doc, j) == Some(t)
    decreases |doc| - i
  {
    if i == |doc| then []
    else
      match TagAt(doc, i)
      case None => TagsFrom(doc, i + 1)
      case Some(t) =>
        var next := i + 2 + |t|;
        NoTagInsideTag(doc, i);
        [t] + TagsFrom(doc, next)
  }

  /** No tag starts inside another: the characters of a tag's name are
      neither white space nor `#`. */
  lemma NoTagInsideTag(doc: string, i: nat)
    requires TagAt(doc, i).Some?
    ensures forall j :: i < j < i + 2 + |TagAt(doc, i).value| ==> TagAt(doc, j).None?
  {
    var t := TagAt(doc, i).value;
    forall j | i < j < i + 2 + |t| ensures TagAt(doc, j).None? {
      if j > i + 1 {
        assert doc[j] == t[j - i - 2];
      }
    }
  }

  function LowerChar(c: char): char
  {
    if 'A' <= c <= 'Z' then (c as int + 32) as char else c
  }

  /** `str.lower` on ASCII text: capitals become the small letter 32 code
      points above, and every other character is kept. */
  function Lower(s: string): (r: string)
    ensures |r| == |s|
    ensures forall p :: 0 <= p < |r| ==> !('A' <= r[p] <= 'Z')
    ensures forall p :: 0 <= p < |s| && !('A' <= s[p] <= 'Z') ==> r[p] == s[p]
    ensures forall p :: 0 <= p < |s| && 'A' <= s[p] <= 'Z' ==>
              'a' <= r[p] <= 'z' && r[p] as int == s[p] as int + 32
  {
    seq(|s|, p requires 0 <= p < |s| => LowerChar(s[p]))
  }

  /** Lower-casing twice is lower-casing once. */
  lemma LowerIdempotent(s: string)
    ensures Lower(Lower(s)) == Lower(s)
  {
  }

  /** What `TAG_RE`'s group can hold, lower-cased or not. */
  predicate IsTag(t: string)
  {
    |t| > 0 && IsLetter(t[0]) && forall p :: 0 <= p < |t| ==> IsTagChar(t[p])
  }

  /** `t` is the lower-cased group of a match somewhere in `doc`. */
  predicate Found(doc: string, t: string)
  {
    exists i :: 0 <= i < |doc| && TagAt(doc, i).Some? && Lower(TagAt(doc, i).value) == t
  }

  lemma LowerTag(t: string)
    requires IsTag(t)
    ensures IsTag(Lower(t)) && forall p :: 0 <= p < |t| ==> !('A' <= Lower(t)[p] <= 'Z')
  {
  }

  /** `extract_tags(doc)`: every match's group, lower-cased; a `#` with no
      whitespace or `^` before it (such as one at the very start) starts
      no tag. */
  function ExtractTags(doc: string): (r: set<string>)
    ensures forall t :: t in r <==> Found(doc, t)
    ensures forall t :: t in r ==> IsTag(t) && forall p :: 0 <= p < |t| ==> !('A' <= t[p] <= 'Z')
  {
    var tags := TagsFrom(doc, 0);
    var r := set t | t in tags :: Lower(t);
    assert forall t :: t in r ==> Found(doc, t) && IsTag(t) && forall p :: 0 <= p < |t| ==> !('A' <= t[p] <= 'Z') by {
      forall t | t in r
        ensures Found(doc, t) && IsTag(t) && forall p :: 0 <= p < |t| ==> !('A' <= t[p] <= 'Z')
      {
        var u :| u in tags && Lower(u) == t;
        var i :| 0 <= i < |doc| && TagAt(doc, i) == Some(u);
        LowerTag(u);
      }
    }
    assert forall t :: Found(doc, t) ==> t in r by {
      forall t | Found(doc, t) ensures t in r {
        var i :| 0 <= i < |doc| && TagAt(doc, i).Some? && Lower(TagAt(doc, i).value) == t;
        assert TagAt(doc, i).value in tags;
      }
    }
    r
  }

  lemma TagExamples()
    ensures ExtractTags("#tag") == {}
    ensures ExtractTags("a #Tag-") == {"tag"}
  {
    assert TagAt("#tag", 0).None? && TagAt("#tag", 1).None?;
    assert TagAt("#tag", 2).None? && TagAt("#tag", 3).None?;
    var d := "a #Tag-";
    assert RunEnd(d, 3) == 7;
    assert TrimDashes(d, 3, 7) == 6;
    assert d[3..6] == "Tag";
    assert TagAt(d, 1) == Some("Tag");
    assert Lower("Tag") == "tag";
    forall i | 0 <= i < |d| && i != 1 ensures TagAt(d, i).None? {
    }
  }

  // ---------------------------------------------------------------------
  // Scanning helpers

  /** The first whitespace at or after `j`, or the end of `doc`. */
  function NextSpace(doc: string, j: nat): (e: nat)
    requires j <= |doc|
    ensures j <= e <= |doc|
    ensures forall p :: j <= p < e ==> !IsSpace(doc[p])
    ensures e < |doc| ==> IsSpace(doc[e])
    decreases |doc| - j
  {
    if j < |doc| && !IsSpace(doc[j]) then NextSpace(doc, j + 1) else j
  }

  /** The first non-whitespace at or after `j`, or the end of `doc`. */
  function NextNonSpace(doc: string, j: nat): (e: nat)
    requires j <= |doc|
    ensures j <= e <= |doc|
    ensures forall p :: j <= p < e ==> IsSpace(doc[p])
    ensures e < |doc| ==> !IsSpace(doc[e])
    decreases |doc| - j
  {
    if j < |doc| && IsSpace(doc[j]) then NextNonSpace(doc, j + 1) else j
  }

  /** The first line feed at or after `j`, or the end of `doc`: the
      furthest `.*` can reach from `j`. */
  function LineEnd(doc: string, j: nat): (e: nat)
    requires j <= |doc|
    ensures j <= e <= |doc|
    ensures forall p :: j <= p < e ==> doc[p] != '\n'
    ensures e < |doc| ==> doc[e] == '\n'
    decreases |doc| - j
  {
    if j < |doc| && doc[j] != '\n' then LineEnd(doc, j + 1) else j
  }

  /** The last `c` in `doc[lo..hi]`, if any. */
  function LastIn(doc: string, c: char, lo: nat, hi: nat): (r: Option<nat>)
    requires hi <= |doc|
    ensures r.Some? ==> lo <= r.value < hi && doc[r.value] == c
    ensures forall p :: lo <= p < hi && doc[p] == c ==> r.Some? && p <= r.value
    decreases hi
  {
    if hi <= lo then None
    else if doc[hi - 1] == c then Some(hi - 1)
    else LastIn(doc, c, lo, hi - 1)
  }

  // ---------------------------------------------------------------------
  // Inline references: `\[.*\]\((\S+)\)`

  /** With `](` at `k`, where `\((\S+)\)` closes: the last `)` in the run
      of non-whitespace after `(` that leaves the group non-empty. */
  function TargetClose(doc: string, k: nat): (r: Option<nat>)
    requires k + 2 <= |doc|
  {
    LastIn(doc, ')', k + 3, NextSpace(doc, k + 2))
  }

  /** `](` at `k` followed by a target the rest of the pattern accepts. */
  predicate InlineOk(doc: string, k: nat)
  {
    k + 2 <= |doc| && doc[k] == ']' && doc[k + 1] == '(' && TargetClose(doc, k).Some?
  }

  /** The last `k` in `[lo, hi)` where `InlineOk` holds. */
  function LastInlineOk(doc: string, lo: nat, hi: nat): (r: Option<nat>)
    requires hi <= |doc|
    ensures r.Some? ==> lo <= r.value < hi && InlineOk(doc, r.value)
    ensures forall k :: lo <= k < hi && InlineOk(doc, k) ==> r.Some? && k <= r.value
    decreases hi
  {
    if hi <= lo then None
    else if InlineOk(doc, hi - 1) then Some(hi - 1)
    else LastInlineOk(doc, lo, hi - 1)
  }

  /** Where the inline match that starts at `i` puts `\]` and the closing
      `)`: `.*` takes the last `](` on the line that is followed by a
      target, and `\S+` the last `)` before the next whitespace. */
  function InlineSpan(doc: string, i: nat): (r: Option<(nat, nat)>)
    ensures r.Some? ==> i < r.value.0 && r.value.0 + 2 < r.value.1 < |doc|
  {
    if i < |doc| && doc[i] == '[' then
      match LastInlineOk(doc, i + 1, LineEnd(doc, i + 1))
      case None => None
      case Some(k) => Some((k, TargetClose(doc, k).value))
    else None
  }

  /** The group of the inline match that starts at `i`, and where the match
      ends. */
  function InlineAt(doc: string, i: nat): (r: Option<(string, nat)>)
    ensures r.Some? ==>
              && i < r.value.1 <= |doc| && |r.value.0| > 0
              && forall p :: 0 <= p < |r.value.0| ==> !IsSpace(r.value.0[p])
  {
    match InlineSpan(doc, i)
    case None => None
    case Some((k, m)) => Some((doc[k + 2..m], m + 1))
  }

  /** `INLINE_REF_RE` matches at `i` with `\]` at `k` and the closing `)` at
      `m`. */
  predicate InlineMatch(doc: string, i: nat, k: int, m: int)
  {
    && i < k && k + 2 < m < |doc|
    && doc[i] == '['
    && (forall p :: i < p < k ==> doc[p] != '\n')
    && doc[k] == ']' && doc[k + 1] == '('
    && (forall p :: k + 2 <= p < m ==> !IsSpace(doc[p]))
    && doc[m] == ')'
  }

  /** The match at `i` with `\]` at `k` and `)` at `m` is the one the
      backtracking engine reaches first: every other match at `i` has a
      smaller `k`, or the same `k` and a smaller `m`. */
  ghost predicate InlineFirstTried(doc: string, i: nat, k: int, m: int)
  {
    && InlineMatch(doc, i, k, m)
    && forall k', m' :: InlineMatch(doc, i, k', m') ==> k' < k || (k' == k && m' <= m)
  }

  /** Any match at `i` is found by `InlineSpan` and is no later in the
      engine's order than the span it returns. */
  lemma InlineMatchBound(doc: string, i: nat, k: int, m: int)
    requires InlineMatch(doc, i, k, m)
    ensures InlineSpan(doc, i).Some?
    ensures k < InlineSpan(doc, i).value.0 || (k == InlineSpan(doc, i).value.0 && m <= InlineSpan(doc, i).value.1)
  {
    var ns := NextSpace(doc, k + 2);
    assert m < ns;
    assert InlineOk(doc, k);
  }

  /** The span `InlineSpan` returns is a match, and the first one tried. */
  lemma InlineSpanIsFirstTried(doc: string, i: nat)
    requires InlineSpan(doc, i).Some?
    ensures InlineFirstTried(doc, i, InlineSpan(doc, i).value.0, InlineSpan(doc, i).value.1)
  {
    var (k, m) := InlineSpan(doc, i).value;
    assert InlineMatch(doc, i, k, m);
    forall k', m' | InlineMatch(doc, i, k', m') ensures k' < k || (k' == k && m' <= m) {
      InlineMatchBound(doc, i, k', m');
    }
  }

  /** A match starts at `i` exactly when `InlineAt` finds one there, and
      `InlineAt` reports the group and end of the match the engine picks. */
  lemma InlineAtIsRegexMatch(doc: string, i: nat)
    ensures InlineAt(doc, i).Some? <==> exists k, m :: InlineMatch(doc, i, k, m)
    ensures InlineAt(doc, i).Some? ==>
              exists k, m ::
                && InlineFirstTried(doc, i, k, m)
                && InlineAt(doc, i).value == (doc[k + 2..m], m + 1)
  {
    if InlineSpan(doc, i).Some? {
      InlineSpanIsFirstTried(doc, i);
    }
    forall k, m | InlineMatch(doc, i, k, m) ensures InlineAt(doc, i).Some? {
      InlineMatchBound(doc, i, k, m);
    }
  }

  /** A match that starts inside another match, at a `[` of its `.*` part,
      captures the same group and ends at the same place; none starts in
      its target. */
  lemma InlineInside(doc: string, i: nat, j: nat)
    requires InlineAt(doc, i).Some? && i < j < InlineAt(doc, i).value.1
    requires InlineAt(doc, j).Some?
    ensures InlineAt(doc, j) == InlineAt(doc, i)
  {
    InlineSpanInside(doc, i, j);
  }

  /** The span form of `InlineInside`. */
  lemma InlineSpanInside(doc: string, i: nat, j: nat)
    requires InlineSpan(doc, i).Some? && i < j <= InlineSpan(doc, i).value.1
    requires InlineSpan(doc, j).Some?
    ensures InlineSpan(doc, j) == InlineSpan(doc, i)
  {
    var (k, m) := InlineSpan(doc, i).value;
    var (k', m') := InlineSpan(doc, j).value;
    InlineSpanIsFirstTried(doc, i);
    InlineSpanIsFirstTried(doc, j);
    InlineMatchWiden(doc, i, j, k, m, k', m');
    assert k' < k || (k' == k && m' <= m);
    if j < k {
      InlineMatchNarrow(doc, i, j, k, m);
      assert k < k' || (k == k' && m <= m');
    } else {
      assert false;
    }
  }

  /** A match from inside another match extends back to the outer start. */
  lemma InlineMatchWiden(doc: string, i: nat, j: nat, k: int, m: int, k': int, m': int)
    requires InlineMatch(doc, i, k, m) && InlineMatch(doc, j, k', m') && i < j <= m
    ensures InlineMatch(doc, i, k', m')
  {
    forall p | i < p < k' ensures doc[p] != '\n' {
      if k <= p <= j {
        assert p == k || p == k + 1 || !IsSpace(doc[p]);
      }
    }
  }

  /** A match seen from a `[` before its `](` is a match from there. */
  lemma InlineMatchNarrow(doc: string, i: nat, j: nat, k: int, m: int)
    requires InlineMatch(doc, i, k, m) && i < j < k && doc[j] == '['
    ensures InlineMatch(doc, j, k, m)
  {
  }
  /** After an inline match, no other match starts on the rest of its line:
      its `](target)` would have been a later choice for the first match's
      `.*`. With `InlineInside`, each line yields at most one group. */
  lemma OneInlinePerLine(doc: string, i: nat, j: nat)
    requires InlineAt(doc, i).Some?
    requires InlineAt(doc, i).value.1 <= j < LineEnd(doc, i + 1)
    ensures InlineAt(doc, j).None?
  {
    InlineSpanIsFirstTried(doc, i);
    if InlineSpan(doc, j).Some? {
      InlineSpanIsFirstTried(doc, j);
      assert false;
    }
  }

  /** `t` is the group of the inline match that starts at `j`. */
  predicate InlineCapture(doc: string, j: nat, t: string)
  {
    InlineAt(doc, j).Some? && InlineAt(doc, j).value.0 == t
  }

  /** The groups `findall` returns scanning from `i`: a match is looked for
      at each position in turn, and the search resumes where a match ends. */
  function InlineFrom(doc: string, i: nat): seq<string>
    requires i <= |doc|
    decreases |doc| - i
  {
    if i == |doc| then []
    else
      match InlineAt(doc, i)
      case None => InlineFrom(doc, i + 1)
      case Some((t, e)) => [t] + InlineFrom(doc, e)
  }

  /** Because no match starts inside another with a different group, the
      groups `findall` returns are exactly the groups of the matches that
      start at any position from `i` on. */
  lemma {:induction false} InlineFromCaptures(doc: string, i: nat)
    requires i <= |doc|
    ensures forall t :: t in InlineFrom(doc, i) <==> exists j :: i <= j < |doc| && InlineCapture(doc, j, t)
    decreases |doc| - i
  {
    if i < |doc| {
      match InlineAt(doc, i)
      case None =>
        InlineFromCaptures(doc, i + 1);
      case Some((t, e)) =>
        var rest := InlineFrom(doc, e);
        assert InlineFrom(doc, i) == [t] + rest;
        InlineFromCaptures(doc, e);
        forall u | u in InlineFrom(doc, i) ensures exists j :: i <= j < |doc| && InlineCapture(doc, j, u) {
          if u == t {
            assert InlineCapture(doc, i, u);
          }
        }
        forall u, j | i <= j < |doc| && InlineCapture(doc, j, u) ensures u in InlineFrom(doc, i) {
          if j == i {
            assert u == t;
          } else if j < e {
            InlineInside(doc, i, j);
            assert u == t;
          } else {
            assert u in rest;
          }
        }
    } else {
      assert InlineFrom(doc, i) == [];
    }
  }

  // ---------------------------------------------------------------------
  // Reference-style definitions: `(?m)^\[.*\]:\s*(\S+)`

  /** `^` under `(?m)`: the start of the text or just after a line feed. */
  predicate LineStart(doc: string, i: nat)
  {
    i == 0 || (0 < i <= |doc| && doc[i - 1] == '\n')
  }

  /** `]:` at `k` with some non-whitespace after it for `(\S+)`; `\s*` may
      cross line feeds to reach it. */
  predicate DefOk(doc: string, k: nat)
  {
    k + 2 <= |doc| && doc[k] == ']' && doc[k + 1] == ':' && NextNonSpace(doc, k + 2) < |doc|
  }

  /** The last `k` in `[lo, hi)` where `DefOk` holds. */
  function LastDefOk(doc: string, lo: nat, hi: nat): (r: Option<nat>)
    requires hi <= |doc|
    ensures r.Some? ==> lo <= r.value < hi && DefOk(doc, r.value)
    ensures forall k :: lo <= k < hi && DefOk(doc, k) ==> r.Some? && k <= r.value
    decreases hi
  {
    if hi <= lo then None
    else if DefOk(doc, hi - 1) then Some(hi - 1)
    else LastDefOk(doc, lo, hi - 1)
  }

  /** Where the definition match that starts at `i` puts `\]`, the start of
      the group and the end of the match: `.*` takes the last `]:` on the
      line with non-whitespace somewhere after it, `\s*` all the whitespace
      that follows, and `\S+` the whole run of non-whitespace after that. */
  function DefSpan(doc: string, i: nat): (r: Option<(nat, nat, nat)>)
    ensures r.Some? ==> i < r.value.0 && r.value.0 + 2 <= r.value.1 < r.value.2 <= |doc|
  {
    if i < |doc| && LineStart(doc, i) && doc[i] == '[' then
      match LastDefOk(doc, i + 1, LineEnd(doc, i + 1))
      case None => None
      case Some(k) =>
        var w := NextNonSpace(doc, k + 2);
        Some((k, w, NextSpace(doc, w)))
    else None
  }

  /** The group of the definition match that starts at `i`, and where the
      match ends. */
  function DefAt(doc: string, i: nat): (r: Option<(string, nat)>)
    ensures r.Some? ==>
              && i < r.value.1 <= |doc| && |r.value.0| > 0
              && forall p :: 0 <= p < |r.value.0| ==> !IsSpace(r.value.0[p])
  {
    match DefSpan(doc, i)
    case None => None
    case Some((k, w, e)) => Some((doc[w..e], e))
  }

  /** `REFSTYLE_REF_RE` matches at `i` with `\]` at `k` and the group
      spanning `[w, e)`. */
  predicate DefMatch(doc: string, i: nat, k: int, w: int, e: int)
  {
    && LineStart(doc, i) && i < k && k + 2 <= w < e <= |doc|
    && doc[i] == '['
    && (forall p :: i < p < k ==> doc[p] != '\n')
    && doc[k] == ']' && doc[k + 1] == ':'
    && (forall p :: k + 2 <= p < w ==> IsSpace(doc[p]))
    && (forall p :: w <= p < e ==> !IsSpace(doc[p]))
  }

  /** The match is the one the backtracking engine reaches first: every
      other match at `i` has a smaller `k`, or the same `k`, the same group
      start and an end no later. */
  ghost predicate DefFirstTried(doc: string, i: nat, k: int, w: int, e: int)
  {
    && DefMatch(doc, i, k, w, e)
    && forall k', w', e' :: DefMatch(doc, i, k', w', e') ==> k' < k || (k' == k && w' == w && e' <= e)
  }

  lemma DefMatchBound(doc: string, i: nat, k: int, w: int, e: int)
    requires DefMatch(doc, i, k, w, e)
    ensures DefSpan(doc, i).Some?
    ensures var (k0, w0, e0) := DefSpan(doc, i).value;
            k < k0 || (k == k0 && w == w0 && e <= e0)
  {
    assert !IsSpace(doc[w]);
    assert DefOk(doc, k);
  }

  lemma DefSpanIsFirstTried(doc: string, i: nat)
    requires DefSpan(doc, i).Some?
    ensures var (k, w, e) := DefSpan(doc, i).value;
            DefFirstTried(doc, i, k, w, e)
  {
    var (k, w, e) := DefSpan(doc, i).value;
    assert DefMatch(doc, i, k, w, e);
    forall k', w', e' | DefMatch(doc, i, k', w', e') ensures k' < k || (k' == k && w' == w && e' <= e) {
      DefMatchBound(doc, i, k', w', e');
    }
  }

  /** A match starts at `i` exactly when `DefAt` finds one there, and
      `DefAt` reports the group and end of the match the engine picks. */
  lemma DefAtIsRegexMatch(doc: string, i: nat)
    ensures DefAt(doc, i).Some? <==> exists k, w, e :: DefMatch(doc, i, k, w, e)
    ensures DefAt(doc, i).Some? ==>
              exists k, w, e ::
                && DefFirstTried(doc, i, k, w, e)
                && DefAt(doc, i).value == (doc[w..e], e)
  {
    if DefSpan(doc, i).Some? {
      DefSpanIsFirstTried(doc, i);
    }
    forall k, w, e | DefMatch(doc, i, k, w, e) ensures DefAt(doc, i).Some? {
      DefMatchBound(doc, i, k, w, e);
    }
  }

  /** `t` is the group of the definition match that starts at `j`. */
  predicate DefCapture(doc: string, j: nat, t: string)
  {
    DefAt(doc, j).Some? && DefAt(doc, j).value.0 == t
  }

  /** The groups `findall` returns scanning from `i`. Unlike inline
      references, a definition can swallow the next line through `\s*`, and
      the search then resumes past the start of that line. */
  function DefsFrom(doc: string, i: nat): seq<string>
    requires i <= |doc|
    decreases |doc| - i
  {
    if i == |doc| then []
    else
      match DefAt(doc, i)
      case None => DefsFrom(doc, i + 1)
      case Some((t, e)) => [t] + DefsFrom(doc, e)
  }

  /** Every group the scan returns is the group of a match starting at some
      position from `i` on. */
  lemma {:induction false} DefsFromCaptures(doc: string, i: nat)
    requires i <= |doc|
    ensures forall t :: t in DefsFrom(doc, i) ==> exists j :: i <= j < |doc| && DefCapture(doc, j, t)
    decreases |doc| - i
  {
    if i < |doc| {
      match DefAt(doc, i)
      case None =>
        DefsFromCaptures(doc, i + 1);
        assert DefsFrom(doc, i) == DefsFrom(doc, i + 1);
      case Some((t, e)) =>
        var rest := DefsFrom(doc, e);
        assert DefsFrom(doc, i) == [t] + rest;
        DefsFromCaptures(doc, e);
        forall u | u in DefsFrom(doc, i) ensures exists j :: i <= j < |doc| && DefCapture(doc, j, u) {
          if u == t {
            assert DefCapture(doc, i, u);
          }
        }
    }
  }

  /** The scan returns the group of the first match from `i` on first. */
  lemma {:induction false} DefsFromFirst(doc: string, i: nat, j: nat)
    requires i <= j < |doc| && DefAt(doc, j).Some?
    requires forall p :: i <= p < j ==> DefAt(doc, p).None?
    ensures DefsFrom(doc, i) != [] && DefsFrom(doc, i)[0] == DefAt(doc, j).value.0
    decreases j - i
  {
    if i < j {
      DefsFromFirst(doc, i + 1, j);
    }
  }

  /** Two links on one line give one match, whose group is the target of
      the last `](` on the line. */
  lemma InlineExample()
    ensures InlineFrom("[a](b) [c](d)", 0) == ["d"]
  {
    var d := "[a](b) [c](d)";
    assert InlineOk(d, 9);
    assert LineEnd(d, 1) == 13;
    assert LastInlineOk(d, 1, 13) == Some(9);
    assert InlineSpan(d, 0) == Some((9, 12));
    assert d[11..12] == "d";
  }

  /** The white space after a label's colon may cross a newline, so the
      scan from the first line captures the next line's label and skips
      past it. */
  lemma DefsExample()
    ensures DefsFrom("[a]:\n[b]: x", 0) == ["[b]:"]
  {
    var r := "[a]:\n[b]: x";
    assert LineEnd(r, 1) == 4;
    assert NextNonSpace(r, 4) == 5;
    assert LastDefOk(r, 1, 4) == Some(2);
    assert NextSpace(r, 5) == 9;
    assert r[5..9] == "[b]:";
    assert DefsFrom(r, 9) == [];
  }

  /** Matched on its own, the second line gives its target. */
  lemma DefAtExample()
    ensures DefAt("[a]:\n[b]: x", 5) == Some(("x", 11))
  {
    var r := "[a]:\n[b]: x";
    assert LineEnd(r, 6) == 11;
    assert DefOk(r, 7);
    assert LastDefOk(r, 6, 11) == Some(7);
    assert NextNonSpace(r, 9) == 10;
    assert r[10..11] == "x";
  }

  // ---------------------------------------------------------------------
  // The accessor

  /** What `(\S+)` can capture: non-empty text without whitespace. */
  predicate IsRefText(t: string)
  {
    |t| > 0 && forall p :: 0 <= p < |t| ==> !IsSpace(t[p])
  }

  /** `extract_refs(doc)`: the inline groups and then the definition groups,
      without repetition (a Python set). Every inline match anywhere in the
      text contributes its group; a definition match contributes when the
      scan reaches it. */
  function ExtractRefs(doc: string): (r: seq<string>)
    ensures NoDup(r)
    ensures forall t :: t in r ==> IsRefText(t)
    ensures forall t :: t in r ==>
              (exists j :: 0 <= j < |doc| && InlineCapture(doc, j, t))
              || (exists j :: 0 <= j < |doc| && DefCapture(doc, j, t))
    ensures forall t, j :: 0 <= j < |doc| && InlineCapture(doc, j, t) ==> t in r
    ensures forall t :: t in DefsFrom(doc, 0) ==> t in r
    ensures forall t :: t in r <==> t in InlineFrom(doc, 0) || t in DefsFrom(doc, 0)
  {
    var inline := InlineFrom(doc, 0);
    var defs := DefsFrom(doc, 0);
    InlineFromCaptures(doc, 0);
    DefsFromCaptures(doc, 0);
    Dedup(inline + defs)
  }

  /** `MarkdownAccessor.parse`: the title is what the YAML front matter
      gives, which is passed in. */
  function Parse(path: Path, text: string, title: Option<string>): (r: FileInfo)
    ensures r.path == path && r.title == title
    ensures forall t :: t in r.tags <==> Found(text, t)
    ensures NoDup(r.refs) && forall t :: t in r.refs ==> IsRefText(t)
    ensures forall t, j :: 0 <= j < |text| && InlineCapture(text, j, t) ==> t in r.refs
    ensures r.refs == ExtractRefs(text)
  {
    FileInfo(path, ExtractRefs(text), ExtractTags(text), title)
  }

  /** `MarkdownAccessor.change`: editing Markdown is not implemented. */
  function Change(path: Path, edit: EditCmd): (r: Result<bool, AccessError>)
    ensures r == Failure(NotImplementedError)
  {
    Failure(NotImplementedError)
  }
}
