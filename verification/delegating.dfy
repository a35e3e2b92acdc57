/**
  The delegating accessor: it picks the accessor for a file from the
  pathlib suffix of the file's name, with a case-sensitive comparison
  against `.md` and `.html`, and forwards `parse` and `_change` to it. The
  HTML and fallback accessors are not part of this model; their behaviour
  is passed in as functions.
 */
module Delegating {
  import opened Models
  import opened Paths
  import Markdown

  /** The accessor classes the dispatch can pick. */
  datatype Kind = MarkdownKind | HtmlKind | MiscKind

  /** Index of the last `c` in `s`, or -1 (`str.rfind`). */
  function RFind(s: string, c: char): (i: int)
    ensures -1 <= i < |s|
    ensures i >= 0 ==> s[i] == c
    ensures forall p :: i < p < |s| ==> s[p] != c
  {
    if s == [] then -1
    else if s[|s| - 1] == c then |s| - 1
    else RFind(s[..|s| - 1], c)
  }

  /** `PurePath.suffix` of a file name: from the last `.` on, provided that
      dot is neither the first nor the last character; otherwise empty. */
  function Suffix(name: string): (r: string)
    ensures r != "" ==>
              && 2 <= |r| < |name| && r[0] == '.' && r == name[|name| - |r|..]
              && forall p :: 0 < p < |r| ==> r[p] != '.'
  {
    var i := RFind(name, '.');
    if 0 < i < |name| - 1 then name[i..] else ""
  }

  /** What a suffix is, stated without `rfind`: it is non-empty exactly when
      some dot past the first character and before the last has no dot
      after it, and then it is the text from that dot on. */
  lemma SuffixCharacterised(name: string)
    ensures Suffix(name) != "" <==>
              exists i :: 0 < i < |name| - 1 && name[i] == '.' && forall p :: i < p < |name| ==> name[p] != '.'
    ensures Suffix(name) != "" ==>
              && |Suffix(name)| >= 2 && Suffix(name)[0] == '.'
              && Suffix(name) == name[|name| - |Suffix(name)|..]
              && forall p :: 0 < p < |Suffix(name)| ==> Suffix(name)[p] != '.'
  {
    var i := RFind(name, '.');
    forall j | 0 < j < |name| - 1 && name[j] == '.' && (forall p :: j < p < |name| ==> name[p] != '.')
      ensures j == i
    {
    }
  }

  /** `name` ends in `ext` with at least one character before it. */
  predicate EndsWithExt(name: string, ext: string)
  {
    |name| > |ext| && name[|name| - |ext|..] == ext
  }

  /** A dotted extension with no further dot in it is a file's suffix
      exactly when the name ends with it after a non-empty stem. */
  lemma SuffixIsExt(name: string, ext: string)
    requires |ext| >= 2 && ext[0] == '.' && forall p :: 0 < p < |ext| ==> ext[p] != '.'
    ensures Suffix(name) == ext <==> EndsWithExt(name, ext)
  {
    SuffixCharacterised(name);
    if EndsWithExt(name, ext) {
      var i := |name| - |ext|;
      assert name[i] == ext[0];
      forall p | i < p < |name| ensures name[p] != '.' {
        assert name[p] == ext[p - i];
      }
      assert RFind(name, '.') == i;
    }
  }

  /** `DelegatingAccessor.accessor`, stated on the name alone: Markdown for
      a name ending in `.md` after a non-empty stem, HTML likewise for
      `.html`, and the fallback accessor for everything else. */
  function Accessor(path: Path): (k: Kind)
    ensures k == MarkdownKind <==> EndsWithExt(Name(path), ".md")
    ensures k == HtmlKind <==> EndsWithExt(Name(path), ".html")
    ensures k == MiscKind <==> !EndsWithExt(Name(path), ".md") && !EndsWithExt(Name(path), ".html")
  {
    SuffixIsExt(Name(path), ".md");
    SuffixIsExt(Name(path), ".html");
    var s := Suffix(Name(path));
    if s == ".md" then MarkdownKind
    else if s == ".html" then HtmlKind
    else MiscKind
  }

  /** Dispatch depends on nothing but the suffix of the name. */
  lemma AccessorBySuffix(p: Path, q: Path)
    requires Suffix(Name(p)) == Suffix(Name(q))
    ensures Accessor(p) == Accessor(q)
  {
  }

  /** Names with a non-empty stem before `.md` or `.html`. */
  lemma AccessorExamples()
    ensures Accessor(["notes", "a.md"]) == MarkdownKind
    ensures Accessor(["notes", "a.b.md"]) == MarkdownKind
    ensures Accessor(["index.html"]) == HtmlKind
  {
  }

  /** Names the fallback accessor gets, although they look like Markdown: a
      dotfile named `.md`, an upper-case `.MD`, `.md` followed by another
      extension or by a bare dot, and the root, which has no name. */
  lemma FallbackExamples()
    ensures Accessor(["notes", ".md"]) == MiscKind
    ensures Accessor(["notes", "a.MD"]) == MiscKind
    ensures Accessor(["notes", "a.md.txt"]) == MiscKind
    ensures Accessor(["notes", "a.md."]) == MiscKind
    ensures Accessor([]) == MiscKind
  {
  }

  /** `DelegatingAccessor.parse`: the chosen accessor parses the same path.
      The file's text and its front-matter title are inputs; `other` stands
      for the HTML and fallback accessors. */
  function Parse(path: Path, text: string, title: Option<string>,
                 other: (Kind, Path) -> FileInfo): (r: FileInfo)
    ensures EndsWithExt(Name(path), ".md") ==> r == Markdown.Parse(path, text, title)
    ensures EndsWithExt(Name(path), ".html") ==> r == other(HtmlKind, path)
    ensures !EndsWithExt(Name(path), ".md") && !EndsWithExt(Name(path), ".html") ==>
              r == other(MiscKind, path)
  {
    match Accessor(path)
    case MarkdownKind => Markdown.Parse(path, text, title)
    case HtmlKind => other(HtmlKind, path)
    case MiscKind => other(MiscKind, path)
  }

  /** `DelegatingAccessor._change`: the accessor for the first edit's path
      receives the whole list. An empty list raises `IndexError`. The
      Markdown accessor's `change` takes a path and one edit, so handing it
      the list alone raises `TypeError`; `other` stands for the HTML and
      fallback accessors. */
  function Change(edits: seq<EditCmd>,
                  other: (Kind, seq<EditCmd>) -> Result<bool, AccessError>): (r: Result<bool, AccessError>)
    ensures edits == [] ==> r == Failure(IndexError)
    ensures edits != [] && EndsWithExt(Name(edits[0].path), ".md") ==> r == Failure(TypeError)
    ensures edits != [] && EndsWithExt(Name(edits[0].path), ".html") ==> r == other(HtmlKind, edits)
    ensures edits != [] && !EndsWithExt(Name(edits[0].path), ".md") && !EndsWithExt(Name(edits[0].path), ".html") ==>
              r == other(MiscKind, edits)
  {
    if edits == [] then Failure(IndexError)
    else
      match Accessor(edits[0].path)
      case MarkdownKind => Failure(TypeError)
      case HtmlKind => other(HtmlKind, edits)
      case MiscKind => other(MiscKind, edits)
  }
}
