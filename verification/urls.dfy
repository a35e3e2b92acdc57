/**
  `path_as_ref`: the text written into a file to refer to a path. The path is
  percent-encoded the way Python's `urllib.parse.quote(text, safe='/')` does
  it (section 2.1 of RFC 3986: unreserved characters and `/` stay, every other
  character becomes the `%XX` escapes of its UTF-8 bytes, upper-case hex), and
  may be spliced into the path component of an existing parsed URL.
 */
module Urls {
  import opened Models
  import opened Paths
  import opened Utf8

  /** The unreserved characters of section 2.3 of RFC 3986, which `quote`
      never escapes. */
  predicate IsUnreserved(c: char)
  {
    ('A' <= c <= 'Z') || ('a' <= c <= 'z') || ('0' <= c <= '9')
    || c == '_' || c == '.' || c == '-' || c == '~'
  }

  /** Characters `quote(..., safe='/')` copies unchanged. */
  predicate IsSafe(c: char)
  {
    IsUnreserved(c) || c == '/'
  }

  const HexDigits: string := "0123456789ABCDEF"

  /** `%XX` for one byte. */
  function PctByte(b: Byte): (r: string)
    ensures |r| == 3 && r[0] == '%'
    ensures IsUnreserved(r[1]) && IsUnreserved(r[2])
  {
    ['%', HexDigits[b / 16], HexDigits[b % 16]]
  }

  function PctBytes(bs: seq<Byte>): (r: string)
    ensures |r| == 3 * |bs|
    ensures forall i :: 0 <= i < |r| ==> IsUnreserved(r[i]) || r[i] == '%'
  {
    if bs == [] then [] else PctByte(bs[0]) + PctBytes(bs[1..])
  }

  /** The encoding of one character. */
  function QuoteChar(c: char): (r: string)
    ensures |r| > 0
    ensures forall i :: 0 <= i < |r| ==> IsSafe(r[i]) || r[i] == '%'
  {
    if IsSafe(c) then [c] else PctBytes(EncodeChar(c))
  }

  /** Value of a hexadecimal digit (either case), as `unquote` reads it. */
  function HexValue(c: char): Option<int>
  {
    if '0' <= c <= '9' then Some(c as int - '0' as int)
    else if 'A' <= c <= 'F' then Some(c as int - 'A' as int + 10)
    else if 'a' <= c <= 'f' then Some(c as int - 'a' as int + 10)
    else None
  }

  function Prepend(bs: seq<Byte>, rest: Option<seq<Byte>>): Option<seq<Byte>>
  {
    match rest
    case None => None
    case Some(r) => Some(bs + r)
  }

  /** Strict percent-decoding to bytes: every `%` must start a two-digit hex
      escape and every other character must be ASCII. */
  function Unquote(s: string): Option<seq<Byte>>
    decreases |s|
  {
    if s == [] then Some([])
    else if s[0] == '%' then
      if |s| >= 3 && HexValue(s[1]).Some? && HexValue(s[2]).Some?
      then Prepend([HexValue(s[1]).value * 16 + HexValue(s[2]).value], Unquote(s[3..]))
      else None
    else if (s[0] as int) < 0x80 then Prepend([s[0] as int], Unquote(s[1..]))
    else None
  }

  lemma HexValueOfDigit(n: int)
    requires 0 <= n < 16
    ensures HexValue(HexDigits[n]) == Some(n)
  {
  }

  lemma UnquotePctByte(b: Byte, rest: string)
    ensures Unquote(PctByte(b) + rest) == Prepend([b], Unquote(rest))
  {
    var s := PctByte(b) + rest;
    HexValueOfDigit(b / 16);
    HexValueOfDigit(b % 16);
    assert s[1] == HexDigits[b / 16] && s[2] == HexDigits[b % 16];
    assert s[3..] == rest;
  }

  lemma PrependTwice(a: seq<Byte>, b: seq<Byte>, rest: Option<seq<Byte>>)
    ensures Prepend(a, Prepend(b, rest)) == Prepend(a + b, rest)
  {
    if rest.Some? {
      assert a + (b + rest.value) == (a + b) + rest.value;
    }
  }

  lemma {:induction false} UnquotePctBytes(bs: seq<Byte>, rest: string)
    ensures Unquote(PctBytes(bs) + rest) == Prepend(bs, Unquote(rest))
    decreases |bs|
  {
    if bs == [] {
      assert PctBytes(bs) + rest == rest;
      if Unquote(rest).Some? {
        assert bs + Unquote(rest).value == Unquote(rest).value;
      }
    } else {
      var b := bs[0];
      var tail := PctBytes(bs[1..]) + rest;
      assert PctBytes(bs) + rest == PctByte(b) + tail;
      UnquotePctByte(b, tail);
      UnquotePctBytes(bs[1..], rest);
      PrependTwice([b], bs[1..], Unquote(rest));
      assert [b] + bs[1..] == bs;
    }
  }

  lemma UnquoteQuoteChar(c: char, rest: string)
    ensures Unquote(QuoteChar(c) + rest) == Prepend(EncodeChar(c), Unquote(rest))
  {
    if IsSafe(c) {
      assert (QuoteChar(c) + rest)[1..] == rest;
    } else {
      UnquotePctBytes(EncodeChar(c), rest);
    }
  }

  /** `quote(s, safe='/')`: the result uses only unreserved characters, `/`
      and `%` escapes, and percent-decoding it gives back the UTF-8 bytes of
      `s`. */
  function Quote(s: string): (r: string)
    ensures forall i :: 0 <= i < |r| ==> IsSafe(r[i]) || r[i] == '%'
    ensures Unquote(r) == Some(Encode(s))
    decreases |s|
  {
    if s == [] then ""
    else
      var r := QuoteChar(s[0]) + Quote(s[1..]);
      UnquoteQuoteChar(s[0], Quote(s[1..]));
      r
  }

  lemma {:induction false} QuoteLength(s: string)
    ensures |Quote(s)| >= |s|
    decreases |s|
  {
    if s != [] {
      QuoteLength(s[1..]);
    }
  }

  /** A string whose first character is safe is all safe exactly when its
      tail is. */
  lemma AllSafeTail(s: string)
    requires s != [] && IsSafe(s[0])
    ensures (forall i :: 0 <= i < |s| ==> IsSafe(s[i]))
            <==> (forall i :: 0 <= i < |s[1..]| ==> IsSafe(s[1..][i]))
  {
    if forall i :: 0 <= i < |s[1..]| ==> IsSafe(s[1..][i]) {
      forall i | 0 < i < |s| ensures IsSafe(s[i]) { assert s[i] == s[1..][i - 1]; }
    }
  }

  /** Text made only of safe characters is copied unchanged, and only such
      text is. */
  lemma {:induction false} QuoteIdentity(s: string)
    ensures Quote(s) == s <==> forall i :: 0 <= i < |s| ==> IsSafe(s[i])
    decreases |s|
  {
    if s != [] {
      QuoteIdentity(s[1..]);
      var q := QuoteChar(s[0]) + Quote(s[1..]);
      if IsSafe(s[0]) {
        assert q == [s[0]] + Quote(s[1..]);
        assert Quote(s[1..]) == s[1..] <==> q == s by {
          if q == s { assert q[1..] == Quote(s[1..]); }
          if Quote(s[1..]) == s[1..] { assert s == [s[0]] + s[1..]; }
        }
        AllSafeTail(s);
      } else {
        QuoteLength(s[1..]);
        assert |QuoteChar(s[0])| >= 3;
      }
    }
  }

  /** A `pathlib.Path` handed to `path_as_ref`. */
  datatype PathArg = Absolute(path: Path) | Relative(segs: seq<string>)
  {
    predicate IsAbsolute() { Absolute? }

    /** `str(path)`. */
    function Text(): string
    {
      match this
      case Absolute(p) => AbsText(p)
      case Relative(s) => RelText(s)
    }
  }

  /** The schemes for which `urlunsplit` writes `//` even with an empty
      network location (`urllib.parse.uses_netloc`). */
  const UsesNetloc: seq<string> :=
    ["", "ftp", "http", "gopher", "nntp", "telnet", "imap", "wais", "file", "mms",
     "https", "shttp", "snews", "prospero", "rtsp", "rtspu", "rsync", "svn",
     "svn+ssh", "sftp", "nfs", "git", "git+ssh", "ws", "wss"]

  /** The path with its `;params`. */
  function PathWithParams(u: Url): string
  {
    if u.params != "" then u.path + ";" + u.params else u.path
  }

  /** Whether `urlunsplit` writes the `//` authority marker before `p`. */
  predicate WritesAuthority(u: Url, p: string)
  {
    u.netloc != "" || (u.scheme != "" && u.scheme in UsesNetloc && !(|p| >= 2 && p[..2] == "//"))
  }

  /** The scheme, network location and path part of `urlunsplit`. */
  function BeforeQuery(u: Url): string
  {
    var p := PathWithParams(u);
    var net :=
      if WritesAuthority(u, p)
      then "//" + u.netloc + (if p != "" && p[0] != '/' then "/" + p else p)
      else p;
    if u.scheme != "" then u.scheme + ":" + net else net
  }

  /** The text before the path: `scheme:` when there is a scheme, then
      `//netloc` when there is a network location. */
  function Lead(u: Url): string
  {
    (if u.scheme != "" then u.scheme + ":" else "") + (if u.netloc != "" then "//" + u.netloc else "")
  }

  lemma LeadBeforeQuery(u: Url)
    ensures Lead(u) <= BeforeQuery(u)
  {
    if u.netloc != "" {
      var p := PathWithParams(u);
      var tail := if p != "" && p[0] != '/' then "/" + p else p;
      LeadThenTail(u, tail);
      PrefixOfAppend(Lead(u), tail);
    } else {
      SchemeThenRest(u);
    }
  }

  lemma LeadThenTail(u: Url, tail: string)
    requires u.netloc != ""
    requires var p := PathWithParams(u); tail == if p != "" && p[0] != '/' then "/" + p else p
    ensures BeforeQuery(u) == Lead(u) + tail
  {
    var sch := if u.scheme != "" then u.scheme + ":" else "";
    assert BeforeQuery(u) == sch + ("//" + u.netloc + tail);
  }

  lemma SchemeThenRest(u: Url)
    requires u.netloc == ""
    ensures var sch := if u.scheme != "" then u.scheme + ":" else "";
            Lead(u) == sch && sch <= BeforeQuery(u)
  {
    var p := PathWithParams(u);
    var sch := if u.scheme != "" then u.scheme + ":" else "";
    var net := if WritesAuthority(u, p) then "//" + (if p != "" && p[0] != '/' then "/" + p else p) else p;
    assert BeforeQuery(u) == sch + net;
    PrefixOfAppend(sch, net);
  }

  lemma PrefixOfAppend<T>(a: seq<T>, b: seq<T>)
    ensures a <= a + b
  {
    assert (a + b)[..|a|] == a;
  }

  function BeforeFragment(u: Url): string
  {
    if u.query != "" then BeforeQuery(u) + "?" + u.query else BeforeQuery(u)
  }

  /** `urlunparse`: the six components put back together, each separator
      written only when its component is non-empty. */
  function Unparse(u: Url): (r: string)
    ensures Lead(u) <= r
    ensures u.fragment != "" ==>
              |r| > |u.fragment| && r[|r| - |u.fragment| - 1..] == "#" + u.fragment
  {
    LeadBeforeQuery(u);
    assert Lead(u) <= BeforeFragment(u);
    if u.fragment != "" then BeforeFragment(u) + "#" + u.fragment else BeforeFragment(u)
  }

  datatype RefError = RelativePathInUrl(path: PathArg, url: Url)

  /** `path_as_ref(path, into_url)`. */
  function PathAsRef(path: PathArg, intoUrl: Option<Url>): (r: Result<string, RefError>)
    ensures r.Failure? <==>
            intoUrl.Some? && (intoUrl.value.scheme != "" || intoUrl.value.netloc != "")
            && !path.IsAbsolute()
    ensures intoUrl.None? ==> r.Success? && Unquote(r.value) == Some(Encode(path.Text()))
  {
    var urlpath := Quote(path.Text());
    match intoUrl
    case Some(u) =>
      if (u.scheme != "" || u.netloc != "") && !path.IsAbsolute()
      then Failure(RelativePathInUrl(path, u))
      else Success(Unparse(u.(path := urlpath)))
    case None => Success(urlpath)
  }

  /** What `urlparse` guarantees of the components it returns: no component
      before the fragment holds `#`, and none before the query holds `?`. */
  predicate WellFormedUrl(u: Url)
  {
    && '#' !in u.scheme && '#' !in u.netloc && '#' !in u.params && '#' !in u.query
    && '?' !in u.scheme && '?' !in u.netloc && '?' !in u.params
    && ';' !in u.params
  }

  /** The fragment of a URL text: everything after its first `#`. */
  function FragmentOf(s: string): string
  {
    var i := IndexOf(s, '#');
    if i == |s| then "" else s[i + 1..]
  }

  /** The query of a URL text: between the first `?` and the first `#`. */
  function QueryOf(s: string): string
  {
    QueryIn(s[..IndexOf(s, '#')])
  }

  /** Everything after the first `?`. */
  function QueryIn(t: string): string
  {
    var i := IndexOf(t, '?');
    if i == |t| then "" else t[i + 1..]
  }

  /** The text before the first `;`, `?` or `#`: the path of a URL with no
      scheme and no network location. */
  function PathPartOf(s: string): string
    decreases |s|
  {
    if s == [] || s[0] == ';' || s[0] == '?' || s[0] == '#' then ""
    else [s[0]] + PathPartOf(s[1..])
  }

  lemma {:induction false} IndexOfAbsent(s: string, c: char)
    requires c !in s
    ensures IndexOf(s, c) == |s|
    decreases |s|
  {
    if s != [] {
      IndexOfAbsent(s[1..], c);
    }
  }

  lemma {:induction false} IndexOfAppend(a: string, b: string, c: char)
    requires c !in a
    ensures IndexOf(a + b, c) == |a| + IndexOf(b, c)
    decreases |a|
  {
    if a != [] {
      assert (a + b)[1..] == a[1..] + b;
      IndexOfAppend(a[1..], b, c);
    } else {
      assert a + b == b;
    }
  }

  lemma {:induction false} PathPartAppend(a: string, b: string)
    requires ';' !in a && '?' !in a && '#' !in a
    requires b == [] || b[0] == ';' || b[0] == '?' || b[0] == '#'
    ensures PathPartOf(a + b) == a
    decreases |a|
  {
    if a != [] {
      assert (a + b)[1..] == a[1..] + b;
      PathPartAppend(a[1..], b);
    } else {
      assert a + b == b;
    }
  }

  lemma QuoteHasNoDelimiters(s: string)
    ensures ';' !in Quote(s) && '?' !in Quote(s) && '#' !in Quote(s)
  {
    var q := Quote(s);
    forall i | 0 <= i < |q|
      ensures q[i] != ';' && q[i] != '?' && q[i] != '#'
    {
      assert IsSafe(q[i]) || q[i] == '%';
    }
  }

  lemma BeforeQueryHasNoDelimiters(u: Url)
    requires WellFormedUrl(u)
    requires '#' !in u.path && '?' !in u.path
    ensures '#' !in BeforeQuery(u) && '?' !in BeforeQuery(u)
  {
    var p := PathWithParams(u);
    assert '#' !in p && '?' !in p;
  }

  lemma PathAsRefIsUnparse(path: PathArg, u: Url)
    requires PathAsRef(path, Some(u)).Success?
    ensures PathAsRef(path, Some(u)).value == Unparse(u.(path := Quote(path.Text())))
  {
  }

  lemma SplitAtFragment(a: string, f: string)
    requires '#' !in a
    ensures var r := if f != "" then a + "#" + f else a;
            FragmentOf(r) == f && r[..IndexOf(r, '#')] == a
  {
    var r := if f != "" then a + "#" + f else a;
    if f != "" {
      assert r == a + ("#" + f);
      IndexOfAppend(a, "#" + f, '#');
      assert IndexOf("#" + f, '#') == 0;
    } else {
      IndexOfAbsent(r, '#');
    }
  }

  lemma SplitAtQuery(b: string, q: string)
    requires '?' !in b
    ensures QueryIn(if q != "" then b + "?" + q else b) == q
  {
    if q != "" {
      assert b + "?" + q == b + ("?" + q);
      IndexOfAppend(b, "?" + q, '?');
      assert IndexOf("?" + q, '?') == 0;
    } else {
      IndexOfAbsent(b, '?');
    }
  }

  lemma UnparseKeepsFragmentAndQuery(v: Url)
    requires WellFormedUrl(v)
    requires '#' !in v.path && '?' !in v.path
    ensures FragmentOf(Unparse(v)) == v.fragment
    ensures QueryOf(Unparse(v)) == v.query
  {
    BeforeQueryHasNoDelimiters(v);
    assert '#' !in BeforeFragment(v);
    SplitAtFragment(BeforeFragment(v), v.fragment);
    SplitAtQuery(BeforeQuery(v), v.query);
  }

  /** Splicing a path into a parsed URL keeps its fragment and its query:
      a rewritten reference keeps its `#fragment` and `?query`. */
  lemma PathAsRefKeepsFragmentAndQuery(path: PathArg, u: Url)
    requires WellFormedUrl(u)
    requires PathAsRef(path, Some(u)).Success?
    ensures FragmentOf(PathAsRef(path, Some(u)).value) == u.fragment
    ensures QueryOf(PathAsRef(path, Some(u)).value) == u.query
  {
    QuoteHasNoDelimiters(path.Text());
    PathAsRefIsUnparse(path, u);
    UnparseKeepsFragmentAndQuery(u.(path := Quote(path.Text())));
  }

  /** The text `urlunparse` writes after the path. */
  function AfterPath(u: Url): string
  {
    (if u.params != "" then ";" + u.params else "")
    + (if u.query != "" then "?" + u.query else "")
    + (if u.fragment != "" then "#" + u.fragment else "")
  }

  lemma UnparseWithoutAuthority(v: Url)
    requires v.scheme == "" && v.netloc == ""
    ensures Unparse(v) == v.path + AfterPath(v)
  {
    BareBeforeQuery(v);
    UnparseParts(v);
    Concat4(v.path, if v.params != "" then ";" + v.params else "",
            if v.query != "" then "?" + v.query else "",
            if v.fragment != "" then "#" + v.fragment else "");
  }

  /** `urlunparse` is the text before the query, then the query, then the
      fragment. */
  lemma UnparseParts(u: Url)
    ensures Unparse(u) == BeforeQuery(u) + (if u.query != "" then "?" + u.query else "")
                                         + (if u.fragment != "" then "#" + u.fragment else "")
  {
  }

  lemma Concat4<T>(a: seq<T>, b: seq<T>, c: seq<T>, d: seq<T>)
    ensures a + b + c + d == a + (b + c + d)
  {
  }

  lemma BareBeforeQuery(v: Url)
    requires v.scheme == "" && v.netloc == ""
    ensures BeforeQuery(v) == v.path + (if v.params != "" then ";" + v.params else "")
  {
    assert !WritesAuthority(v, PathWithParams(v));
  }

  /** A URL with only a scheme and a path that starts with `/`, for a scheme
      that always writes `//`, is unparsed as `scheme://path`. */
  lemma UnparseBare(u: Url)
    requires u.netloc == "" && u.params == "" && u.query == "" && u.fragment == ""
    requires u.scheme != "" && u.scheme in UsesNetloc && |u.path| >= 1 && u.path[0] == '/'
    requires !(|u.path| >= 2 && u.path[..2] == "//")
    ensures Unparse(u) == u.scheme + ":" + ("//" + u.path)
  {
    assert PathWithParams(u) == u.path;
    assert WritesAuthority(u, u.path);
    assert BeforeQuery(u) == u.scheme + ":" + ("//" + u.path);
  }

  /** With no scheme and no network location, only the path component is
      replaced: the text before the first `;`, `?` or `#` is the encoded path. */
  lemma PathAsRefReplacesOnlyPath(path: PathArg, u: Url)
    requires u.scheme == "" && u.netloc == ""
    ensures PathAsRef(path, Some(u)).Success?
    ensures PathPartOf(PathAsRef(path, Some(u)).value) == Quote(path.Text())
  {
    var q := Quote(path.Text());
    QuoteHasNoDelimiters(path.Text());
    PathAsRefIsUnparse(path, u);
    var v := u.(path := q);
    UnparseWithoutAuthority(v);
    PathPartAppend(q, AfterPath(v));
  }

  /** A URL that is only a path contributes nothing but the encoded path. */
  lemma PlainUrlAddsNothing(path: PathArg, u: Url)
    requires u.scheme == "" && u.netloc == "" && u.params == "" && u.query == "" && u.fragment == ""
    ensures PathAsRef(path, Some(u)) == PathAsRef(path, None)
  {
  }

  /** Reading a relative reference back: percent-decode, decode UTF-8, split
      at `/`, and join onto the referring file's directory. */
  function ResolveRelativeRef(referrer: Path, text: string): Option<Path>
  {
    match Unquote(text)
    case None => None
    case Some(bs) =>
      match Decode(bs)
      case None => None
      case Some(s) => Some(Normalise(Parent(referrer), Split(s)))
  }

  /** No segment of a relative path to a canonical path holds a `/`. */
  lemma RefPathNoSlash(f: Path, g: Path)
    requires Canonical(g)
    ensures forall i :: 0 <= i < |RefPath(f, g)| ==> '/' !in RefPath(f, g)[i]
  {
    var r := RefPath(f, g);
    RefPathShape(f, g);
    var k := CommonPrefixLength(Parent(f), g);
    forall i | 0 <= i < |r|
      ensures '/' !in r[i]
    {
      if i >= |Parent(f)| - k {
        assert r[i] == g[k..][i - (|Parent(f)| - k)];
      }
    }
  }

  /** The reference written for `ref_path(f, g)` leads back to `g` from `f`. */
  lemma RefRoundTrip(f: Path, g: Path)
    requires Canonical(g)
    ensures ResolveRelativeRef(f, PathAsRef(Relative(RefPath(f, g)), None).value) == Some(g)
  {
    var r := RefPath(f, g);
    var text := Relative(r).Text();
    DecodeEncode(text);
    if r == [] {
      assert text == ".";
      assert Split(".") == ["."] by {
        IndexOfAbsent(".", '/');
      }
      assert Normalise(Parent(f), ["."]) == Normalise(Parent(f), []);
    } else {
      RefPathNoSlash(f, g);
      SplitJoin(r);
    }
  }
}
