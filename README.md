# wish: relative paths and file stems, modelled in Dafny

`wish.py` is a small helper called from a build system. Its first
argument selects one of two operations on POSIX path strings:

* mode `1` prints the path of a C++ source file relative to a source-tree
  root, using `PurePosixPath(file).relative_to(root)`;
* mode `2` prints the stem of a path, `splitext(basename(path))[0]`.

Both are purely lexical, so the model is a set of functions over
`string` (`seq<char>`) and lemmas about them:

* `outcomes.dfy` (module `Outcomes`): the two exceptions the script can end
  in (`ValueError` from `relative_to` as `NotRelative`, `IndexError` from
  reading `argv` as `MissingArgument`) and a `Result` type.
* `pure_posix_path.dfy` (module `PurePosixPath`): the lexical rules of
  `PurePosixPath` that the script relies on. A string splits on `/`;
  empty and `.` pieces are dropped; `..` stays a segment; the anchor is
  none, `/`, or `//` (exactly two leading slashes, which POSIX lets name a
  root of their own; one or three or more slashes mean `/`). `str` joins
  the segments behind the anchor, or gives `.` for the empty relative
  path. `relative_to` succeeds when the other path has the same anchor and
  its segments are a prefix, and returns the remaining segments.
* `os_path.dfy` (module `OsPath`): `rfind`, `basename` (everything after the
  last `/`) and `splitext` (split at the last `.` of the final component,
  unless every character before it in that component is a `.`).
* `wish.dfy` (module `Wish`): `RelPath`, `Stem` and `Run`, the dispatch on
  `argv`, with the lemmas that state what the script promises.
* `wish_examples.dfy` (module `WishExamples`): the two operations on
  concrete paths.

Printing is modelled by returning the printed line (without its trailing
newline); `sys.argv` is the parameter `argv`, with the script name at
index 0.

## Model

| member | source | states |
|---|---|---|
| `PurePosixPath.Split` | wish.py:12 | the pieces of `s.split("/")` contain no `/`, there is at least one, and joining them with `/` gives back `s` |
| `PurePosixPath.Segments` | wish.py:12 | every parsed segment is non-empty, not `.`, and free of `/` |
| `PurePosixPath.AnchorOf` | wish.py:12 | the anchor of `PurePosixPath(s)` is a prefix of `s`; there is none exactly when `s` is empty or does not start with `/`; the anchor is `//` exactly when `s` starts with precisely two slashes |
| `PurePosixPath.Parse` | wish.py:12 | `PurePosixPath(s)` is always a well-formed path |
| `PurePosixPath.RelativeTo` | wish.py:12 | `relative_to` succeeds exactly when the other path has the same anchor and its segments are a prefix; the result is relative and the other path's segments followed by it are the original segments; otherwise `ValueError` |
| `PurePosixPath.Str` | wish.py:13 | `str(p)` starts with the path's anchor, and is never empty for a parsed path |
| `PurePosixPath.SegmentsAtSlash` | wish.py:12 | the segments of `a/b` are those of `a` followed by those of `b` |
| `PurePosixPath.SplitJoin` | wish.py:12 | splitting on `/` undoes joining with `/` for slash-free pieces |
| `PurePosixPath.ParseStr` | wish.py:12-13 | a well-formed path parses back from its own `str` (anchor and segments) |
| `PurePosixPath.StrOfRelative` | wish.py:13 | the `str` of a relative path is non-empty and starts with neither `/` nor `./` |
| `PurePosixPath.ParseIgnoresRedundantSeparators` | wish.py:10-12 | `//`, `/./` and a trailing `/` after a non-slash prefix do not change the parsed path |
| `PurePosixPath.ParseIgnoresLeadingDot` | wish.py:10-12 | a leading `./` before a relative path does not change the parsed path |
| `PurePosixPath.ParseIgnoresTrailingDot` | wish.py:10-12 | a trailing `/.` after a non-slash prefix does not change the parsed path |
| `PurePosixPath.SegmentsKeepInnerSegment` | wish.py:10-12 | a segment between two slashes is kept as it is in the parsed segment list |
| `PurePosixPath.SegmentsKeepParentSegment` | wish.py:10-12 | `..` is kept as a literal segment, not resolved against the segment before it |
| `OsPath.RFind` | wish.py:19 | the result is -1 or an index holding the character, with no later occurrence |
| `OsPath.Basename` | wish.py:19 | the base name has no `/`, is a suffix of the path, and is preceded by `/` when shorter than the path |
| `OsPath.SplitExt` | wish.py:19 | the two halves concatenate back to the input; the extension is empty or one `.` followed by no `.` and no `/` |
| `OsPath.SplitExtFindsExtension` | wish.py:19 | the extension is non-empty exactly when the final component has a `.` with a non-`.` character before it |
| `OsPath.BasenameOfName` | wish.py:19 | a name without `/` is its own base name |
| `OsPath.BasenameAfterSlash` | wish.py:19 | the base name of `dir/name` is `name` |
| `OsPath.SplitExtOfName` | wish.py:19 | `stem.e` with a non-dot in `stem` and no dot in `e` splits into `stem` and `.e` |
| `Wish.RelPath` | wish.py:4-13 | succeeds exactly when the root's anchor and segments are a prefix of the file's; a failure is `ValueError`; a success is never empty and starts with neither `/` nor `./` |
| `Wish.RelPathWithinRoot` | wish.py:12-13 | inside the root the output is exactly the file's remaining segments joined by `/`, or `.` when none is left; it parses to those segments, and joining it onto the root gives the file back |
| `Wish.RelPathOutsideRoot` | wish.py:12 | when the root's anchor and segments are not a prefix of the file's (outside the root, or different anchors such as an absolute root against a relative file), the result is `ValueError` |
| `Wish.RelPathOfRootItself` | wish.py:12-13 | the same anchor and segments give `.` |
| `Wish.RelPathRoundTrip` | wish.py:12-13 | any relative path appended to a root is returned unchanged by `RelPath` against that root |
| `Wish.RelPathIgnoresRedundantSeparators` | wish.py:10-12 | after a non-slash character, `//`, `/./` and a trailing `/` in either argument do not change the result |
| `Wish.RelPathIgnoresLeadingDot` | wish.py:10-12 | a leading `./` before a relative path, in either argument, does not change the result |
| `Wish.RelPathIgnoresTrailingDot` | wish.py:10-12 | a trailing `/.` after a non-slash character, in either argument, does not change the result |
| `WishExamples.RelPathExampleInside` | wish.py:12-13 | `/src/pkg/mod/file.cpp` against `/src` gives `pkg/mod/file.cpp` |
| `WishExamples.RelPathExampleOutside` | wish.py:12 | `/other/file.cpp` against `/src` raises `ValueError` |
| `WishExamples.RelPathExampleRelativeFile` | wish.py:12 | the relative `src/file.cpp` against the absolute `/src` raises `ValueError` |
| `WishExamples.RelPathExampleParentInside` | wish.py:10-12 | `/src/../lib/x.cpp` against `/src` gives `../lib/x.cpp`: `..` is not resolved |
| `WishExamples.RelPathExampleParentOutside` | wish.py:10-12 | `/lib/../src/x.cpp` against `/src` raises `ValueError` |
| `Wish.Stem` | wish.py:16-19 | the stem contains no `/` and is a prefix of the base name |
| `Wish.StemDropsFinalExtension` | wish.py:19 | the stem plus the removed part is the base name; the removed part is empty or one `.` with no other `.`, and it is non-empty exactly when the base name has a non-leading dot |
| `Wish.StemKeepsLeadingDotName` | wish.py:19 | a base name whose only dots are leading dots is returned unchanged |
| `Wish.StemIdempotentWithoutExtension` | wish.py:19 | applying `Stem` twice equals applying it once exactly when the first stem has no extension left |
| `WishExamples.StemExampleSingleExtension` | wish.py:19 | `/a/b/c/file.cpp` gives `file` |
| `WishExamples.StemExampleDoubleExtension` | wish.py:19 | `/a/b/c/file.tar.gz` gives `file.tar` |
| `WishExamples.StemExampleHidden` | wish.py:19 | `/a/b/.hidden` gives `.hidden` |
| `Wish.Run` | wish.py:22-25 | a line is printed only in mode `1` or `2` with `argv[2]` present; nothing happens only for another mode token; `ValueError` only in mode `1` with both arguments present |
| `Wish.RunRelPath` | wish.py:22-23 | mode `1` prints exactly when `argv[3]` is a lexical ancestor of `argv[2]`, the printed line is `RelPath(argv[2], argv[3])`, the printed path joined onto `argv[3]` gives `argv[2]`, and otherwise `ValueError` propagates |
| `Wish.RunStem` | wish.py:24-25 | mode `2` always prints the stem of `argv[2]`, which has no `/` and is a prefix of its base name |
| `Wish.RunOtherMode` | wish.py:22-25 | any other mode token prints nothing and raises nothing |
| `Wish.RunMissingArgument` | wish.py:22-25 | `IndexError` is raised exactly when the mode token, or an argument its mode reads, is missing |

## Left out

- Writing to standard output and reading `sys.argv`: the printed line is the return value and `argv` a parameter.
- The process exit status and the traceback printed for an uncaught exception: an exception is the `Raised` outcome.
- `PurePosixPath` and `os.path` beyond the lexical rules above (Windows flavour, drive letters, bytes paths, `walk_up`, case folding), which the script never uses.
- Symlinks and the file system: nothing in the script touches them.

## Notes

- The comment on `print` shows `./path/to/file.cpp`; `relative_to` never produces a leading `./`, and the model follows the code (`StrOfRelative`, `RelPath`).
- An unrecognised mode token: the code falls through silently, so the model returns `NoOutput` rather than a usage error.
