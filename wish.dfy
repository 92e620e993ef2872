/** The tool itself: `relpath`, `remove_ext`, and the dispatch on the
    first command-line argument. Printing is modelled by returning the line
    that would be printed (without its newline). */
module Wish {
  import opened Outcomes
  import opened PurePosixPath
  import opened OsPath

  // ---------------------------------------------------------------------
  // relpath

  /** `str(PurePosixPath(file).relative_to(root))`. Succeeds exactly when
      `root` is lexically `file` or one of its ancestors, and then yields a
      relative path: never empty, never starting with `/` or `./`. */
  function RelPath(file: string, root: string): (r: Result<string>)
    ensures r.Ok? <==> IsPrefix(Parse(root), Parse(file))
    ensures r.Err? ==> r.error == NotRelative
    ensures r.Ok? ==> r.value != "" && r.value[0] != '/'
    ensures r.Ok? && |r.value| >= 2 ==> r.value[..2] != "./"
  {
    match RelativeTo(Parse(file), Parse(root))
    case Ok(rel) =>
      StrOfRelative(rel);
      Ok(Str(rel))
    case Err(e) => Err(e)
  }

  /** Inside the root, the result is exactly the segments of `file` that
      follow those of `root`, joined by `/` (or `.` when none is left), and
      joining it back onto `root` gives `file` again. */
  lemma RelPathWithinRoot(file: string, root: string)
    requires IsPrefix(Parse(root), Parse(file))
    ensures var rest := Parse(file).tail[|Parse(root).tail|..];
      RelPath(file, root) == Ok(if rest == [] then "." else JoinSegments(rest))
    ensures Parse(RelPath(file, root).value)
         == Path(NoRoot, Parse(file).tail[|Parse(root).tail|..])
    ensures JoinPath(Parse(root), Parse(RelPath(file, root).value)) == Parse(file)
  {
    var rest := Parse(file).tail[|Parse(root).tail|..];
    assert RelativeTo(Parse(file), Parse(root)) == Ok(Path(NoRoot, rest));
    assert AnchorString(NoRoot) + JoinSegments(rest) == JoinSegments(rest);
    var rel := Path(NoRoot, rest);
    ParseStr(rel);
    assert Parse(file).tail == Parse(root).tail + rel.tail;
  }

  /** Outside the root, including an anchored root against a relative file
      or the other way round, `relative_to` raises `ValueError`. */
  lemma RelPathOutsideRoot(file: string, root: string)
    requires !IsPrefix(Parse(root), Parse(file))
    ensures RelPath(file, root) == Err(NotRelative)
  {
  }

  /** The same segments under the same anchor give `.`. */
  lemma RelPathOfRootItself(file: string, root: string)
    requires AnchorOf(file) == AnchorOf(root) && Segments(file) == Segments(root)
    ensures RelPath(file, root) == Ok(".")
  {
  }

  /** Any relative path appended to a root comes back out unchanged. */
  lemma RelPathRoundTrip(root: string, q: Path)
    requires WellFormed(q) && q.anchor == NoRoot
    ensures RelPath(Str(JoinPath(Parse(root), q)), root) == Ok(Str(q))
  {
    var joined := JoinPath(Parse(root), q);
    assert WellFormed(joined);
    ParseStr(joined);
    assert RelativeTo(joined, Parse(root)) == Ok(q);
  }

  /** The comparison is lexical: after a non-slash character, `//`, `/./`
      and a trailing `/` change nothing, on either argument. Leading slashes
      are not covered: they decide the anchor. */
  lemma RelPathIgnoresRedundantSeparators(a: string, b: string, other: string)
    requires HasNonSlash(a)
    ensures RelPath(a + "//" + b, other) == RelPath(a + "/" + b, other)
    ensures RelPath(a + "/./" + b, other) == RelPath(a + "/" + b, other)
    ensures RelPath(a + "/", other) == RelPath(a, other)
    ensures RelPath(other, a + "//" + b) == RelPath(other, a + "/" + b)
    ensures RelPath(other, a + "/./" + b) == RelPath(other, a + "/" + b)
    ensures RelPath(other, a + "/") == RelPath(other, a)
  {
    ParseIgnoresRedundantSeparators(a, b);
  }

  /** A leading `./`, as in `./src/x.cpp` against `./src`, changes
      nothing, on either argument. */
  lemma RelPathIgnoresLeadingDot(b: string, other: string)
    requires b == [] || b[0] != '/'
    ensures RelPath("./" + b, other) == RelPath(b, other)
    ensures RelPath(other, "./" + b) == RelPath(other, b)
  {
    ParseIgnoresLeadingDot(b);
  }

  /** A trailing `/.` after a non-slash character changes nothing, on
      either argument. */
  lemma RelPathIgnoresTrailingDot(a: string, other: string)
    requires HasNonSlash(a)
    ensures RelPath(a + "/.", other) == RelPath(a, other)
    ensures RelPath(other, a + "/.") == RelPath(other, a)
  {
    ParseIgnoresTrailingDot(a);
  }

  // ---------------------------------------------------------------------
  // remove_ext

  /** `os.path.splitext(os.path.basename(p))[0]`: the base name without
      its final extension. */
  function Stem(p: string): (r: string)
    ensures '/' !in r
    ensures r <= Basename(p)
  {
    SplitExt(Basename(p)).0
  }

  /** What `Stem` removes is empty or a single `.` followed by no other
      `.`, and it is removed exactly when the base name has a dot that is
      not a leading dot. */
  lemma StemDropsFinalExtension(p: string)
    ensures var ext := Basename(p)[|Stem(p)|..];
      && Stem(p) + ext == Basename(p)
      && (ext == "" || (ext[0] == '.' && '.' !in ext[1..]))
      && (ext != "" <==> HasExtension(Basename(p)))
  {
    SplitExtFindsExtension(Basename(p));
  }

  /** A base name whose only dots are leading dots (`.hidden`, `..foo`,
      `...`) is returned unchanged. */
  lemma StemKeepsLeadingDotName(p: string)
    requires forall i, j :: 0 <= j < i < |Basename(p)| && Basename(p)[i] == '.' ==> Basename(p)[j] == '.'
    ensures Stem(p) == Basename(p)
  {
    SplitExtFindsExtension(Basename(p));
  }

  /** Applying `Stem` again changes nothing exactly when the first stem
      has no extension left. */
  lemma StemIdempotentWithoutExtension(p: string)
    ensures Stem(Stem(p)) == Stem(p) <==> !HasExtension(Stem(p))
  {
    BasenameOfName(Stem(p));
    SplitExtFindsExtension(Stem(p));
  }

  // ---------------------------------------------------------------------
  // Dispatch on argv[1]

  /** What one run of the script does: print a line, print nothing, or
      end with an uncaught exception. */
  datatype Outcome = Printed(line: string) | NoOutput | Raised(error: Error)

  /** The module-level `if`/`elif` on `argv`, where `argv[0]` is the
      script name. */
  function Run(argv: seq<string>): (o: Outcome)
    ensures o.Printed? ==> |argv| >= 3 && (argv[1] == "1" || argv[1] == "2")
    ensures o == NoOutput ==> |argv| >= 2 && argv[1] != "1" && argv[1] != "2"
    ensures o == Raised(NotRelative) ==> |argv| >= 4 && argv[1] == "1"
  {
    if |argv| < 2 then Raised(MissingArgument)
    else if argv[1] == "1" then
      if |argv| < 4 then Raised(MissingArgument)
      else
        match RelPath(argv[2], argv[3])
        case Ok(line) => Printed(line)
        case Err(e) => Raised(e)
    else if argv[1] == "2" then
      if |argv| < 3 then Raised(MissingArgument)
      else Printed(Stem(argv[2]))
    else NoOutput
  }

  /** Mode `1` prints `RelPath(argv[2], argv[3])` when `argv[3]` is an
      ancestor of `argv[2]`, and raises `ValueError` otherwise. */
  lemma RunRelPath(argv: seq<string>)
    requires |argv| >= 4 && argv[1] == "1"
    ensures Run(argv).Printed? <==> IsPrefix(Parse(argv[3]), Parse(argv[2]))
    ensures Run(argv).Printed? ==> Run(argv).line == RelPath(argv[2], argv[3]).value
    ensures Run(argv).Printed? ==>
      JoinPath(Parse(argv[3]), Parse(Run(argv).line)) == Parse(argv[2])
    ensures !Run(argv).Printed? ==> Run(argv) == Raised(NotRelative)
  {
    if IsPrefix(Parse(argv[3]), Parse(argv[2])) {
      RelPathWithinRoot(argv[2], argv[3]);
    }
  }

  /** Mode `2` always prints the stem of `argv[2]`, a prefix of its base
      name without `/`. */
  lemma RunStem(argv: seq<string>)
    requires |argv| >= 3 && argv[1] == "2"
    ensures Run(argv).Printed?
    ensures '/' !in Run(argv).line && Run(argv).line <= Basename(argv[2])
    ensures Run(argv).line == Stem(argv[2])
  {
  }

  /** Any other mode token falls through both branches: nothing happens. */
  lemma RunOtherMode(argv: seq<string>)
    requires |argv| >= 2 && argv[1] != "1" && argv[1] != "2"
    ensures Run(argv) == NoOutput
  {
  }

  /** `IndexError` is raised exactly when the mode token, or an argument
      its mode reads, is missing. */
  lemma RunMissingArgument(argv: seq<string>)
    ensures Run(argv) == Raised(MissingArgument) <==>
      |argv| < 2 || (argv[1] == "1" && |argv| < 4) || (argv[1] == "2" && |argv| < 3)
  {
  }
}
