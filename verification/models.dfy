/**
  Shared value types of the notes directory: optional values and results,
  parsed URLs, the parsed summary of one file, and the edit commands that a
  rearrangement plan is made of.
 */
module Models {

  /** An optional value, for Python's `Optional[...]` / `None`. */
  datatype Option<+T> = None | Some(value: T)

  /** Either a value or the exception the source raises instead. */
  datatype Result<+T, +E> = Success(value: T) | Failure(error: E)

  /** A canonical absolute path: the segments of `/a/b/c` are ["a", "b", "c"],
      and the root directory is the empty sequence. */
  type Path = seq<string>

  /** The six components `urllib.parse.urlparse` splits a URL into. */
  datatype Url = Url(scheme: string, netloc: string, path: string,
                     params: string, query: string, fragment: string)

  /** The parsed summary of one file: its outbound reference texts (a Python
      set, listed here without repetition), its lower-cased tags and the
      title taken from its metadata, if any. */
  datatype FileInfo = FileInfo(path: Path, refs: seq<string>, tags: set<string>,
                               title: Option<string>)

  /** One mutation of one file. */
  datatype EditCmd =
    | MoveCmd(path: Path, dest: Path)
    | ReplaceRefCmd(path: Path, original: string, replacement: string)
    | SetTitleCmd(path: Path, title: Option<string>)

  /** The exceptions an accessor raises instead of changing a file. */
  datatype AccessError =
    | NotImplementedError
    | TypeError      // a method called with the wrong number of arguments
    | IndexError     // indexing an empty list

  /** True when no element of `s` occurs twice. */
  predicate NoDup<T(==)>(s: seq<T>)
  {
    forall i, j :: 0 <= i < j < |s| ==> s[i] != s[j]
  }

  lemma NoDupTail<T>(s: seq<T>)
    requires NoDup(s) && s != []
    ensures NoDup(s[1..]) && s[0] !in s[1..]
  {
    forall i, j | 0 <= i < j < |s| - 1 ensures s[1..][i] != s[1..][j] {
      assert s[1..][i] == s[i + 1] && s[1..][j] == s[j + 1];
    }
  }

  /** `s` with later repetitions of an element dropped (first occurrences kept,
      in order). */
  function Dedup<T(==,!new)>(s: seq<T>): (r: seq<T>)
    ensures NoDup(r)
    ensures forall x :: x in r <==> x in s
    ensures |r| <= |s|
  {
    if s == [] then []
    else
      var rest := Dedup(s[..|s| - 1]);
      if s[|s| - 1] in rest then rest else rest + [s[|s| - 1]]
  }

  /** `a` is obtained from `b` by deleting elements (order is kept). */
  predicate SubseqOf<T(==)>(a: seq<T>, b: seq<T>)
    decreases |b|
  {
    if a == [] then true
    else if b == [] then false
    else (a[0] == b[0] && SubseqOf(a[1..], b[1..])) || SubseqOf(a, b[1..])
  }
}
