# notesdir rearrangement core, modelled in Dafny

notesdir manages a directory of notes: Markdown and HTML files that link to
each other and to attachments by relative paths. Its core is rearrangement.
You ask to rename or move notes and directories. notesdir builds a list of
edit commands: `ReplaceRefCmd`s that rewrite every link the move would
break, followed by `MoveCmd`s that perform the renames safely, even when
sources and destinations overlap. `DirectRepo` supplies the back-references
and carries the commands out. The Markdown and delegating accessors turn a
file into the tags and link texts the planner works from.

The model is a set of pure functions over immutable values:

- `Models`: the shared value types: `Option`, `Result`, canonical absolute
  `Path`s (sequences of segments), parsed `Url`s, `FileInfo` and the edit
  commands.
- `Paths`: `os.path.relpath` and `ref_path`, together with a
  POSIX-style normaliser that reads a relative path back.
- `Utf8` and `Urls`: `quote(text, safe='/')` over UTF-8 bytes, its inverse,
  `urlunparse`, and `path_as_ref`.
- `Sequencer`: `edits_for_raw_moves`, plus the renames on a map of regular
  files. There the plan is proved to deliver every existing source to its
  destination and to leave everything else alone, for a mapping with
  distinct destinations.
- `Posix`: `rename(2)` on a directory tree, which moves whole subtrees and
  fails with `ENOENT`, `ENOTDIR`, `EISDIR`, `ENOTEMPTY`, `EINVAL` or
  `EBUSY`. On regular files it agrees with the flat map. The plan of
  `edits_for_raw_moves`, run after `mkstemp` has created its temporary
  files, keeps every promise of the flat proof when the sources are
  regular files. It fails with `ENOTDIR` when a vacating source is a
  directory. Without the temporary files, the same plan moves directories
  correctly.
- `Repo`: `DirectRepo` over a file-system snapshot. It covers configuration,
  enumeration, referrers, query, tag counts and the action sequence
  `change` performs.
- `Planner`: `edits_for_rearrange`. The directory expansion is the ordered
  dict `all_moves`. The references to rewrite are enumerated as "sites",
  and then the new texts are computed.
- `Markdown`: `TAG_RE`, `INLINE_REF_RE` and `REFSTYLE_REF_RE` as scanners,
  each proved to pick the match Python's backtracking engine picks.
  `extract_tags`, `extract_refs` and the accessor's `parse`/`change` are
  built on them.
- `Delegating`: the choice of accessor by `pathlib` suffix, plus `parse`
  and `_change`.

Everything the code reads from outside becomes an input:

- The file system is a `Repo.Snapshot`: the glob order of all paths, the
  regular files, the directories, and the parsed info of each file.
- `LinkInfo.referent`, `urlparse` and `re.search` are function-valued
  fields of the snapshot.
- The temporary names `mkstemp` returns are a map from source to
  temporary path.
- The HTML and fallback accessors are function parameters.

## Model

| member | source | states |
|---|---|---|
| Models.Dedup | src/notesdir/repos/direct.py:19-20 | A Python set built from a list: no repetition, the same members as the list, never longer |
| Paths.RelPath | src/notesdir/rearrange.py:23 | `relpath` of a path to itself is empty (`.`), and to a descendant it is the remaining segments |
| Paths.RefPath | src/notesdir/rearrange.py:11-23 | The reference path, read from the directory containing `src`, leads back to `dest` (for a canonical destination) |
| Paths.RelPathRoundTrip | src/notesdir/rearrange.py:23 | Normalising `relpath(dest, start)` from `start` gives `dest` back |
| Paths.RefPathExample | src/notesdir/rearrange.py:16-17 | The docstring example: from `/foo/bar/baz.md` to `/foo/meh/blah.png` the reference is `../meh/blah.png` |
| Paths.SplitJoin | src/notesdir/rearrange.py:23 | Splitting the text of a joined relative path at `/` gives its segments back (the `Path(...)` round trip) |
| Utf8.EncodeChar | src/notesdir/rearrange.py:35 | A character encodes as 1 to 4 bytes: one byte exactly for ASCII, a valid lead byte, then continuation bytes |
| Utf8.DecodeEncode | src/notesdir/rearrange.py:35 | Strict UTF-8 decoding of the encoding of any string gives the string back |
| Utf8.EncodeAppend | src/notesdir/rearrange.py:35 | Encoding distributes over concatenation |
| Urls.Quote | src/notesdir/rearrange.py:35 | `quote` emits only unreserved characters, `/` and `%`, and unquoting the result gives the UTF-8 bytes of the input |
| Urls.QuoteIdentity | src/notesdir/rearrange.py:35 | `quote` leaves a text unchanged exactly when every character of it is unreserved or `/` |
| Urls.PathAsRef | src/notesdir/rearrange.py:26-41 | On paths whose text is Unicode scalar values, raises exactly when a URL with a scheme or network location is given and the path is relative; without a URL the result unquotes to the path's text |
| Urls.Unparse | src/notesdir/rearrange.py:40 | `urlunparse` starts with the scheme and `:`, then `//` and the network location when there is one, and ends with `#` and the fragment when there is one |
| Urls.UnparseKeepsFragmentAndQuery | src/notesdir/rearrange.py:40 | `urlunparse` of a well-formed URL splits back into the same query and fragment |
| Urls.PathAsRefKeepsFragmentAndQuery | src/notesdir/rearrange.py:36-40 | When `path_as_ref` succeeds, the new reference keeps the query and fragment of the URL it came from |
| Urls.PathAsRefReplacesOnlyPath | src/notesdir/rearrange.py:36-40 | With no scheme and no network location, `path_as_ref` succeeds and the result's path part is exactly the quoted path |
| Urls.RefRoundTrip | src/notesdir/rearrange.py:11-41 | The text `path_as_ref(ref_path(f, g))`, resolved relative to `f`, names `g` |
| Sequencer.VacateMoves | src/notesdir/rearrange.py:56-61 | Phase-1 vacating moves: a source that is also an existing destination goes to its temporary file, and each such source gets such a move |
| Sequencer.DirectMoves | src/notesdir/rearrange.py:62-64 | Direct moves: each existing source that is no destination goes to its destination, and nothing else |
| Sequencer.ReturnMoves | src/notesdir/rearrange.py:61 | Phase-2 moves: each temporary file goes to the destination of the source it holds, one move per vacated source |
| Sequencer.EditsForRawMoves | src/notesdir/rearrange.py:44-65 | `edits_for_raw_moves`: every vacating move, then every direct move, then every return. Each existing source is renamed to its destination, through its temporary when it is itself a destination. Every rename reads an existing source or a temporary |
| Sequencer.Rename | src/notesdir/repos/direct.py:54 | `rename` of a regular file on a map of regular files: the destination gets the source's contents, the source is gone, every other path is unchanged |
| Sequencer.ApplyParallel | src/notesdir/rearrange.py:65 | On a map of regular files, moves with distinct sources, distinct destinations, and no destination that a later move reads, apply without failing and act like one simultaneous renaming |
| Sequencer.PhaseFootprints | src/notesdir/rearrange.py:52-65 | Where each phase reads and writes. Vacates read chained existing sources and write fresh temporaries. Direct moves read unchained existing sources and write destinations. Returns read exactly the temporaries the vacates wrote and write destinations |
| Sequencer.DeliverVacated | src/notesdir/rearrange.py:57-61 | On a map of regular files, a source that is also a destination reaches its destination with its contents, through its temporary file |
| Sequencer.DeliverDirect | src/notesdir/rearrange.py:62-64 | On a map of regular files, a source that is no destination reaches its destination with its contents, and phase 2 does not overwrite it |
| Sequencer.RawMovesDeliver | src/notesdir/rearrange.py:44-65 | On a map of regular files with distinct destinations, the plan applies without failing, and every existing source's contents arrive at its destination |
| Sequencer.RawMovesFrame | src/notesdir/rearrange.py:44-65 | On a map of regular files with distinct destinations: paths the mapping does not mention keep their contents. Sources that are not destinations disappear. No temporary file is left. No path appears that was neither present nor a destination |
| Sequencer.RawMovesSafe | src/notesdir/rearrange.py:44-65 | On a map of regular files with distinct destinations, the rename mapping is realised: delivery and frame together |
| Sequencer.SharedDestinationLoses | src/notesdir/rearrange.py:54-64 | Nothing stops two sources sharing a destination: `/a` and `/b` both renamed to `/c` give two direct moves, and only `/b`'s contents survive |
| Sequencer.OverwritesDestination | src/notesdir/rearrange.py:62-64 | A destination that exists and is not a source is replaced: renaming `/a` to an existing `/c` leaves only `/a`'s contents at `/c` |
| Posix.MoveTree | src/notesdir/repos/direct.py:54 | The whole subtree at the source appears below the destination with the same nodes. Paths below neither are kept, and nothing is left below the source outside the destination |
| Posix.PosixRename | src/notesdir/repos/direct.py:54 | `Path.rename` as `rename(2)`: a missing source fails with `ENOENT`. A success between two paths means the parent of the destination is a directory, a directory is not moved below itself, the destination is not an ancestor of the source, an existing destination is of the same kind and, if a directory, empty, and the subtree is moved |
| Posix.RenameKeepsWellFormed | src/notesdir/repos/direct.py:54 | A successful rename keeps the root a directory and every other path's parent a directory |
| Posix.RenameBack | src/notesdir/repos/direct.py:54 | Renaming to a path that did not exist and back gives the tree back |
| Posix.FileRenameAgrees | src/notesdir/repos/direct.py:54 | A regular file renamed onto a non-directory in a directory succeeds. The regular files change as `Sequencer.Rename` says, and the directories stay |
| Posix.DirOntoFile | src/notesdir/repos/direct.py:54 | A directory renamed onto an existing regular file, neither lying below the other, fails with `ENOTDIR` |
| Posix.ApplyPosix | src/notesdir/repos/direct.py:52-54 | A rename group runs in list order and raises at the first failing rename. A run that succeeds keeps the tree well-formed |
| Posix.ApplyPosixAppend | src/notesdir/repos/direct.py:52-54 | Running two lists in a row is running their concatenation, stopping at the first failure |
| Posix.ApplyPosixFiles | src/notesdir/repos/direct.py:52-54 | Renames of regular files onto non-directories in directories succeed on the tree. They do what `Sequencer.ApplyMoves` does to the regular files and leave the directories alone |
| Posix.Mkstemp | src/notesdir/rearrange.py:56-58 | `mkstemp` creates a new regular file at the temporary of each vacating source, and nothing else changes |
| Posix.MkstempHarmless | src/notesdir/rearrange.py:58-61 | On regular files the files `mkstemp` created make no difference to the plan: the vacating renames overwrite them before anything reads them |
| Posix.RawMovesOnFiles | src/notesdir/rearrange.py:44-65 | After `mkstemp`, the plan runs on the tree without an error when the existing sources are regular files and each destination is a non-directory in a directory. Each source arrives at its destination, paths outside the mapping are unchanged, non-destination sources are gone, no other path appears, and the directories stay |
| Posix.DirVacateCrash | src/notesdir/rearrange.py:56-61 | With `/archive` renamed to the directory `/notes` and `/notes` to `/old`, the first rename puts `/notes` onto the file `mkstemp` created and fails with `ENOTDIR` |
| Posix.StepRelocated | src/notesdir/repos/direct.py:54 | A rename from an occupied slot to an empty one beside an untouched directory succeeds, and the subtrees keep their recorded origins |
| Posix.TreeRun | src/notesdir/repos/direct.py:52-54 | A list of renames that each read an occupied slot and write an empty one succeeds on the tree, and moves whole subtrees exactly as the flat renames move their origins |
| Posix.FreeParallel | src/notesdir/rearrange.py:65 | Renames with distinct sources and destinations whose occupied destinations were read earlier each write an empty slot |
| Posix.PlanRunsFree | src/notesdir/rearrange.py:52-65 | Every rename of the plan reads an occupied slot and writes an empty one when an existing destination is always a source |
| Posix.RawMovesSafeTree | src/notesdir/rearrange.py:44-65 | Without the files `mkstemp` creates, the plan succeeds on any tree whose mapping is separated and whose destination directories exist. Each existing source's whole subtree arrives at its destination, paths outside the mapping are unchanged, nothing is left below a non-destination source, and every path of the result was there before or lies below a destination |
| Repo.New | src/notesdir/repos/direct.py:15-20 | Construction fails with the missing-roots error exactly when `roots` is missing, and fails at all exactly when, in addition, some filter pattern does not compile. The reported pattern is the first bad one in list order. On success the roots and filters are the configured ones, without repetition, every filter compiles, and a missing filter list means no filters |
| Repo.NewExamples | src/notesdir/repos/direct.py:17-20 | Roots are checked before filters, the first of two bad patterns is reported, and no filter list is accepted |
| Repo.GlobKept | src/notesdir/repos/direct.py:29-32 | A root's enumeration is the paths below the root that no filter matches, in glob order |
| Repo.PathsFrom | src/notesdir/repos/direct.py:28-32 | `_paths` yields exactly the kept paths below some root |
| Repo.RefsTo | src/notesdir/repos/direct.py:45 | `refs_to_path`: exactly those references of the file that resolve to the target, without repetition |
| Repo.ReferrersIn | src/notesdir/repos/direct.py:36-46 | The referrer scan keeps exactly the scanned paths that refer to the target, once each |
| Repo.Referrers | src/notesdir/repos/direct.py:34-47 | `referrers`: exactly the enumerated regular files with some reference resolving to the target. When no path is both a file and a directory, no referrer is a directory |
| Repo.Entries | src/notesdir/repos/direct.py:63-70 | The infos of the enumerated regular files the accessor parses, and nothing else |
| Repo.QueryIn | src/notesdir/repos/direct.py:63-75 | The query scan is an order-preserving selection of exactly the entries whose tags match. Each matching entry comes back as many times as it is enumerated, and a non-matching one never does |
| Repo.Query | src/notesdir/repos/direct.py:61-76 | `query`: an order-preserving selection of entries. Each has all the included tags and none of the excluded ones, and every entry meeting that is returned, once per time overlapping roots enumerate it |
| Repo.TagCounts | src/notesdir/repos/direct.py:78-83 | `tag_counts`: each tag's count is the number of query results carrying it. A tag is present exactly when that count is positive |
| Repo.CountTags | src/notesdir/repos/direct.py:81-82 | Counting one file's tags adds one to each of its tags and leaves the others, keeping every count positive |
| Repo.RenamesInOrder | src/notesdir/repos/direct.py:52-54 | A group of moves is performed as renames, one per move, in list order |
| Repo.RenamesFailIffNonMove | src/notesdir/repos/direct.py:53-54 | Renaming a group stops with an error exactly when the group holds an edit that is not a move |
| Repo.EditGroupSavesOnce | src/notesdir/repos/direct.py:55-59 | Any other group hands every edit, in order, to the accessor of its first file, then saves that file exactly once, last |
| Repo.MoveGroupNeverSaves | src/notesdir/repos/direct.py:52-54 | A rename group never saves |
| Repo.GroupFailsIffMalformed | src/notesdir/repos/direct.py:50-59 | A group fails exactly when it is empty, or starts with a move and holds a non-move |
| Repo.ChangeFailsIffMalformed | src/notesdir/repos/direct.py:49-59 | `change` raises exactly when some group is malformed |
| Repo.Change | src/notesdir/repos/direct.py:49-59 | `change` succeeds exactly when every group does. A failure is the first failing group's error, after every earlier group ran. The first group's actions come first |
| Repo.SavesOncePerGroup | src/notesdir/repos/direct.py:49-59 | A `change` that completes saves once per non-move group |
| Planner.Put | src/notesdir/rearrange.py:87 | Dict assignment: the mapping is updated, and a new key goes last while an existing key keeps its place |
| Planner.PutUnder | src/notesdir/rearrange.py:89-90 | Adds exactly the scanned paths below the source, each mapped to the destination joined with its path relative to the source |
| Planner.ExpandOne | src/notesdir/rearrange.py:87-90 | One rename adds its source, and also everything below it when the source is a directory |
| Planner.ExpandFrom | src/notesdir/rearrange.py:86-90 | The expansion's keys are exactly the sources and the paths below directory sources, each mapped as some rename dictates |
| Planner.ExpandMoves | src/notesdir/rearrange.py:84-90 | `all_moves`: exactly the sources and the paths below directory sources, each mapped by some rename |
| Planner.ExpandSourceExact | src/notesdir/rearrange.py:87 | When no source lies below another, each source maps to its own destination |
| Planner.ExpandDescendantExact | src/notesdir/rearrange.py:89-90 | When no source lies below another, a path below a moved directory maps to the destination joined with its relative path |
| Planner.OutSitesIn | src/notesdir/rearrange.py:95-100 | A moved file's outbound rewrites: its resolving references, each recomputed from its new location to its target's new location |
| Planner.InSitesIn | src/notesdir/rearrange.py:103-110 | Inbound rewrites: each reference of an unmoved referrer that resolves to the moved path, recomputed towards the new location |
| Planner.Sites | src/notesdir/rearrange.py:92-110 | Every site is a resolving reference of its file, recomputed from the file's new location to its referent's new location |
| Planner.ExactlyOneSite | src/notesdir/rearrange.py:92-110 | Each reference is enumerated once if a move affects it, and otherwise not at all |
| Planner.RefEdits | src/notesdir/rearrange.py:99-110 | Computing the texts fails exactly when some site's `path_as_ref` raises, and otherwise yields only reference edits |
| Planner.RefEditsFromSites | src/notesdir/rearrange.py:101-110 | Every reference edit rewrites some site's reference to that site's new text |
| Planner.EditsForRearrange | src/notesdir/rearrange.py:68-113 | On file names that are valid UTF-8, `edits_for_rearrange` raises exactly when some affected reference is a URL with a scheme or network location. Otherwise the plan ends with exactly the moves of `edits_for_raw_moves`, and everything before them is a reference edit |
| Planner.EditsForRearrangeFixed | src/notesdir/rearrange.py:68-113 | On file names that are valid UTF-8, the corrected planner always succeeds, and its plan has the same shape |
| Planner.Plan | src/notesdir/rearrange.py:83-113 | A plan is reference edits followed by exactly the sequencer's moves of the top-level renames |
| Planner.EachRefRewrittenOnce | src/notesdir/rearrange.py:92-113 | In a plan, each affected reference is rewritten exactly once, unless it is an outbound reference whose text comes out unchanged. No other reference is rewritten |
| Planner.EditLeadsToNewLocation | src/notesdir/rearrange.py:92-110 | Each rewritten reference, read from its file's new location, names its referent's new location and keeps its query and fragment |
| Planner.RewriteResolves | src/notesdir/rearrange.py:99-100 | For a URL without authority, the new text exists, resolves from the site's base to its target, and keeps query and fragment |
| Planner.PlanFailsIffAuthority | src/notesdir/rearrange.py:99-110 | On file names that are valid UTF-8, `edits_for_rearrange` raises exactly when some affected reference is a URL with a scheme or network location |
| Planner.FileUrlRefBreaksRearrange | src/notesdir/rearrange.py:108-110 | Moving `/a.md`, when `/b.md` links to it as `file:///a.md`, makes `edits_for_rearrange` raise |
| Planner.FixedPlanNeverFails | src/notesdir/rearrange.py:37-40 | Writing the absolute target into URLs with an authority, planning never fails on file names that are valid UTF-8 |
| Planner.FixedRewriteIsAbsolute | src/notesdir/rearrange.py:37-40 | For a URL with an authority the corrected rewrite succeeds. Its text is the URL with a new path that holds no `;`, `?` or `#` and unquotes to the UTF-8 bytes of the absolute target. A well-formed URL keeps its query and fragment |
| Planner.FixedAgreesWithoutAuthority | src/notesdir/rearrange.py:92-113 | Wherever the original planner succeeds, the corrected one returns the same plan |
| Planner.FileUrlFixedRewrite | src/notesdir/rearrange.py:108-110 | The corrected planner rewrites `file:///a.md` in `/b.md` to `file:///c.md`, then moves `/a.md` to `/c.md` |
| Markdown.TagAtIsLongestMatch | src/notesdir/accessors/markdown.py:9 | `TAG_RE` matches at a position exactly when the scanner finds a tag there, and the tag is the longest group the pattern allows |
| Markdown.TagsFrom | src/notesdir/accessors/markdown.py:22 | The `findall` scan returns exactly the groups of the matches starting from the position on |
| Markdown.NoTagInsideTag | src/notesdir/accessors/markdown.py:22 | No match starts inside another match's group, so resuming after a match skips nothing |
| Markdown.Lower | src/notesdir/accessors/markdown.py:22 | `str.lower` on ASCII: same length and no upper-case letter left. `A` to `Z` become `a` to `z`, and every other character is kept |
| Markdown.LowerIdempotent | src/notesdir/accessors/markdown.py:22 | Lower-casing twice is lower-casing once |
| Markdown.ExtractTags | src/notesdir/accessors/markdown.py:21-22 | `extract_tags`: exactly the lower-cased groups of the matches, each a well-formed tag with no upper-case letter |
| Markdown.TagExamples | src/notesdir/accessors/markdown.py:9 | A `#` at the very start begins no tag, and a trailing `-` is not part of a tag |
| Markdown.InlineAtIsRegexMatch | src/notesdir/accessors/markdown.py:10 | `INLINE_REF_RE` matches at a position exactly when the scanner finds a match there, and the scanner reports the group and end of the match the backtracking engine tries first |
| Markdown.InlineInside | src/notesdir/accessors/markdown.py:10 | A match that starts inside another one captures the same group and ends at the same place |
| Markdown.OneInlinePerLine | src/notesdir/accessors/markdown.py:10 | After an inline match, no further match starts on the same line |
| Markdown.InlineFromCaptures | src/notesdir/accessors/markdown.py:26 | The inline `findall` returns exactly the groups of the inline matches, wherever they start |
| Markdown.InlineExample | src/notesdir/accessors/markdown.py:10 | With two links on one line, the greedy `.*` leaves only the last target |
| Markdown.DefAtIsRegexMatch | src/notesdir/accessors/markdown.py:11 | `REFSTYLE_REF_RE` matches at a position exactly when the scanner finds a match there, and the scanner reports the group and end of the match the engine tries first |
| Markdown.DefsFromCaptures | src/notesdir/accessors/markdown.py:26 | Every definition group returned is the group of some match |
| Markdown.DefsFromFirst | src/notesdir/accessors/markdown.py:26 | The first definition match the scan reaches contributes the first group |
| Markdown.DefsExample | src/notesdir/accessors/markdown.py:11 | `\s*` crosses a line feed: after `[a]:` the group is the next line's `[b]:`, and that line's own definition is skipped |
| Markdown.DefAtExample | src/notesdir/accessors/markdown.py:11 | On its own, the second line's definition captures `x` |
| Markdown.ExtractRefs | src/notesdir/accessors/markdown.py:25-26 | `extract_refs`: reference texts without repetition, exactly the groups the inline and the definition scans return |
| Markdown.Parse | src/notesdir/accessors/markdown.py:30-38 | The info has the path, the metadata title, exactly the found tags, and exactly the references `extract_refs` gives for the text |
| Markdown.Change | src/notesdir/accessors/markdown.py:40-41 | Changing a Markdown file always raises `NotImplementedError` |
| Delegating.RFind | src/notesdir/accessors/delegating.py:11 | `str.rfind`: the last position of the character, or -1 when it is absent |
| Delegating.SuffixCharacterised | src/notesdir/accessors/delegating.py:11 | `path.suffix` is non-empty exactly when some dot is past the first character, before the last, and followed by no other dot. The suffix is then the tail from that dot |
| Delegating.Suffix | src/notesdir/accessors/delegating.py:11 | A non-empty `path.suffix` is a tail of the name: at least a dot and one character, shorter than the name, starting with its only dot |
| Delegating.SuffixIsExt | src/notesdir/accessors/delegating.py:11-13 | A dotted extension is a name's suffix exactly when the name ends with it after a non-empty stem |
| Delegating.Accessor | src/notesdir/accessors/delegating.py:10-15 | Markdown exactly for names ending in `.md` after a non-empty stem, HTML exactly likewise for `.html`, and the fallback exactly otherwise |
| Delegating.AccessorExamples | src/notesdir/accessors/delegating.py:11-14 | `a.md` and `a.b.md` go to Markdown, and `index.html` goes to HTML |
| Delegating.FallbackExamples | src/notesdir/accessors/delegating.py:15 | `.md`, `a.MD`, `a.md.txt`, `a.md.` and the root go to the fallback accessor |
| Delegating.Parse | src/notesdir/accessors/delegating.py:17-18 | `parse` is the chosen accessor's parse of the same path |
| Delegating.Change | src/notesdir/accessors/delegating.py:20-21 | An empty list raises `IndexError`. The Markdown accessor, called with the list alone, raises `TypeError`. Other lists go to the chosen accessor |

## Left out

- File-system I/O is not modelled. Reading files, `is_file`, `is_dir`, `exists` and `glob` are replaced by the immutable snapshot. The rename system call is the pure `Posix.PosixRename` on a tree, without symbolic links, permissions, mount points (`EXDEV`) or other processes. Where several errors apply it follows the order of Linux's `renameat2`, which tests whether one path lies above the other before comparing kinds.
- `Path.resolve` (symlinks, `..` in inputs) is left out. Every path is already canonical and absolute.
- `mkstemp`'s choice of name is not modelled. The temporary names are an input map, required to be fresh and beside their sources (`Sequencer.FreshTemps`). The empty file it creates is `Posix.Mkstemp`. A vacating regular file's rename replaces it. A vacating directory's rename fails on it (see Findings). The open file descriptor `mkstemp` returns, which the source never closes, is not modelled.
- Sequencer.Rename: the map holds regular files only. It does not move a directory's subtree and never fails with `ENOTDIR`, `ENOENT`, `EISDIR` or `ENOTEMPTY`. `Posix.PosixRename` is the tree version, and `Posix.FileRenameAgrees` shows the two agree on regular files.
- Sequencer.ApplyParallel: "applies without failing" holds on the map of regular files only. On the tree it also needs each destination's parent to be a directory (`Posix.ApplyPosixFiles`, `Posix.TreeRun`).
- Sequencer.DeliverVacated: regular files only. A vacating directory fails with `ENOTDIR` onto the file `mkstemp` created (`Posix.DirVacateCrash`).
- Sequencer.DeliverDirect: regular files only. On the tree a destination whose parent directory is missing fails with `ENOENT` (`Posix.PosixRename`), so `Posix.RawMovesOnFiles` requires the parents.
- Sequencer.RawMovesDeliver: the same restrictions as `Sequencer.RawMovesSafe`.
- Sequencer.RawMovesFrame: the same restrictions as `Sequencer.RawMovesSafe`.
- Sequencer.RawMovesSafe: stated on a map of regular files, and only for distinct destinations, which the source never checks. Two sources renamed to one destination lose the first one's contents (`Sequencer.SharedDestinationLoses`). An existing destination that is not a source is overwritten (`Sequencer.OverwritesDestination`). `Posix.RawMovesOnFiles` carries the result to trees whose existing sources are regular files. `Posix.RawMovesSafeTree` covers directories, but only without the files `mkstemp` creates.
- Posix.RawMovesSafeTree: requires that no source, destination or temporary lies inside another, that every destination's parent is a directory, and that an existing destination is itself a source. Nested mappings such as moving both `/a` and `/a/b` are not covered.
- `DirectRepo.info`, `LinkInfo.referent`, `FileInfo.path_refs`, `refs_to_path` beyond its filter, and `group_edits` are not part of this model. The referent and URL parsing come in as snapshot functions, and `change` takes the groups already formed.
- Python's regular-expression syntax is not modelled. Whether `re.compile` accepts a filter pattern is the parameter `compiles` of `Repo.New`, and pattern search is the snapshot's `search`.
- `urlparse` is not modelled. It is an input, and only `urlunparse` is written out.
- `Urls.Unparse` follows the `urlunsplit` of Python 3.8 to 3.11. Other versions differ in when they write the `//` before an empty network location.
- `extract_meta` (`YAML_META_RE` and YAML parsing) is left out. The title is an input of `Markdown.Parse`.
- The HTML accessor, the fallback accessor and `BaseAccessor` are not part of this model. They are function parameters of `Delegating.Parse` and `Delegating.Change`.
- `_log_edits` (clock, JSON, appending to a log file) and the `cli` module are left out: they are I/O.
- Urls.PathAsRef: text is a sequence of Unicode scalar values. A POSIX file name that is not valid UTF-8 reaches Python as a string with lone surrogates (U+DC80 to U+DCFF, by `surrogateescape`). Such a name cannot be represented, and the `UnicodeEncodeError` that `quote` raises on it is not modelled.
- Planner.EditsForRearrange: file names that are not valid UTF-8 cannot be represented. The `UnicodeEncodeError` that `path_as_ref` raises when a rewritten reference names such a file is not among its failures.
- Planner.PlanFailsIffAuthority: the iff covers file names that are valid UTF-8 only. A reference rewritten to a name that is not valid UTF-8 raises `UnicodeEncodeError` in `quote`, which is not modelled.
- Planner.EditsForRearrangeFixed: "always succeeds" covers file names that are valid UTF-8 only. The corrected planner still calls `quote`, which raises on the others.
- Planner.FixedPlanNeverFails: the same restriction as `Planner.EditsForRearrangeFixed`.
- Regular-expression classes are ASCII-only: `\s`, `\w` and `\b` over Unicode letters and spaces are not modelled. `str.lower` likewise lower-cases only A to Z.
- Python set and dict iteration orders are a fixed choice. Sets are listed without repetition. `for dest in dests` is taken in rename order, which yields the same moves in an order that does not matter (`Sequencer.ApplyParallel`). `extract_refs` lists inline groups first.
- Repo.Referrers: the result is a set in Python. The model returns it in enumeration order, without repetition.
- Markdown.DefsFromCaptures: definition groups are characterised in one direction only. A definition match the scan jumps over (one starting on a line that an earlier match's `\s*` swallowed) is not returned, so the converse does not hold.
- `DirectRepo.query` and `change` call `accessor_factory(path).info()`, `acc.edit` and `acc.save`, which `DelegatingAccessor` as written does not define. The model takes `info` from the snapshot and `change` as the sequence of actions. It does not model the `AttributeError` those calls raise.
- `FileQuery.parse`, sorting and the later query fields are not part of this model.
- Planner.ExpandSourceExact: stated only when no source lies below another source. With nesting, a later dict assignment may override an earlier one, and `ExpandMoves` then guarantees only that some rename dictates the mapping.

## Findings

| source | as written | input that shows it | evidently intended | confidence | as-written member | corrected member |
|---|---|---|---|---|---|---|
| src/notesdir/rearrange.py:108-110 | `path_as_ref(ref_path(referrer, dest), url)`: `ref_path` always returns a relative path, and `path_as_ref` raises `ValueError` for a relative path in a URL with a scheme or network location | Notes `/a.md` and `/b.md`. `/b.md` links to `/a.md` as `file:///a.md`. Rename `/a.md` to `/c.md` | Rewrite the link to `file:///c.md`, using the absolute target where the URL has an authority, as the docstring of `path_as_ref` requires | medium, not executed | Planner.FileUrlRefBreaksRearrange | Planner.FileUrlFixedRewrite |
| src/notesdir/rearrange.py:56-61 | `mkstemp(prefix=dest.name, dir=dest.parent)` creates a regular file at the temporary path, and phase 1 then renames the vacating source onto it. When that source is a directory, `rename` fails with `ENOTDIR` | A directory `/notes` and a file `/archive`. Rename `/archive` to `/notes` and `/notes` to `/old` | Directories move as a whole, as the docstring of `edits_for_rearrange` allows directory sources: the temporary is only a free name, so the directory lands on it and then reaches `/old` | high, not executed | Posix.DirVacateCrash | Posix.RawMovesSafeTree |
