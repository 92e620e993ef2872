/** The purely lexical part of Python's `PurePosixPath` that the tool uses:
    parsing a string into an anchor and a list of segments, turning a path
    back into a string, and `relative_to`. Nothing here looks at a file
    system. */
module PurePosixPath {
  import opened Outcomes

  /** The root of a POSIX path: none, `/`, or `//`. POSIX lets exactly two
      leading slashes name a root of their own; three or more count as one. */
  datatype Anchor = NoRoot | Root | DoubleRoot

  /** A parsed path: its anchor and its segments (`tail` in pathlib). */
  datatype Path = Path(anchor: Anchor, tail: seq<string>)

  /** What a parsed segment always is: non-empty, not `.`, without `/`. */
  predicate IsSegment(s: string) {
    s != "" && s != "." && '/' !in s
  }

  predicate WellFormed(p: Path) {
    forall i :: 0 <= i < |p.tail| ==> IsSegment(p.tail[i])
  }

  /** `s` holds at least one character that is not a slash. */
  predicate HasNonSlash(s: string) {
    exists i :: 0 <= i < |s| && s[i] != '/'
  }

  /** `"/".join(segs)` */
  function JoinSegments(segs: seq<string>): string {
    if |segs| == 0 then ""
    else if |segs| == 1 then segs[0]
    else segs[0] + "/" + JoinSegments(segs[1..])
  }

  /** `s.split("/")`: the pieces between slashes, empty ones included. */
  function Split(s: string): (pieces: seq<string>)
    ensures |pieces| >= 1
    ensures forall i :: 0 <= i < |pieces| ==> '/' !in pieces[i]
    ensures JoinSegments(pieces) == s
    decreases |s|
  {
    if s == [] then [[]]
    else
      var rest := Split(s[1..]);
      assert s == [s[0]] + s[1..];
      if s[0] == '/' then
        [""] + rest
      else
        assert |rest| > 1 ==> JoinSegments(rest) == rest[0] + "/" + JoinSegments(rest[1..]);
        [[s[0]] + rest[0]] + rest[1..]
  }

  /** Drops the empty and `.` pieces, as pathlib does when it parses. */
  function DropEmptyAndDot(pieces: seq<string>): (segs: seq<string>)
    ensures |segs| <= |pieces|
    ensures forall i :: 0 <= i < |segs| ==> segs[i] in pieces && segs[i] != "" && segs[i] != "."
  {
    if pieces == [] then []
    else if pieces[0] == "" || pieces[0] == "." then DropEmptyAndDot(pieces[1..])
    else [pieces[0]] + DropEmptyAndDot(pieces[1..])
  }

  /** The segments of a path string. */
  function Segments(s: string): (segs: seq<string>)
    ensures forall i :: 0 <= i < |segs| ==> IsSegment(segs[i])
  {
    DropEmptyAndDot(Split(s))
  }

  /** The anchor, after `posixpath.splitroot`: a first character other
      than `/` means no root; exactly two leading slashes mean `//`; one or
      three or more mean `/`. */
  function AnchorOf(s: string): (a: Anchor)
    ensures AnchorString(a) <= s
    ensures a == NoRoot <==> s == [] || s[0] != '/'
    ensures a == DoubleRoot <==> |s| >= 2 && s[..2] == "//" && (|s| == 2 || s[2] != '/')
  {
    if |s| == 0 || s[0] != '/' then NoRoot
    else if |s| < 2 || s[1] != '/' || (|s| >= 3 && s[2] == '/') then Root
    else DoubleRoot
  }

  /** `PurePosixPath(s)` */
  function Parse(s: string): (p: Path)
    ensures WellFormed(p)
  {
    Path(AnchorOf(s), Segments(s))
  }

  function AnchorString(a: Anchor): string {
    match a
    case NoRoot => ""
    case Root => "/"
    case DoubleRoot => "//"
  }

  /** `str(p)`: the anchor followed by the segments joined by `/`, or `.`
      when both are empty. */
  function Str(p: Path): (s: string)
    ensures p.anchor != NoRoot ==> s != [] && AnchorString(p.anchor) <= s
    ensures WellFormed(p) ==> s != []
  {
    if p.anchor == NoRoot && p.tail == [] then "."
    else AnchorString(p.anchor) + JoinSegments(p.tail)
  }

  /** `other` is `p` itself or one of its lexical parents. */
  predicate IsPrefix(other: Path, p: Path) {
    other.anchor == p.anchor && other.tail <= p.tail
  }

  /** `p.relative_to(other)`: the segments left once `other`'s are removed
      from the front, or `ValueError` when `other` is not an ancestor. */
  function RelativeTo(p: Path, other: Path): (r: Result<Path>)
    ensures r.Ok? <==> IsPrefix(other, p)
    ensures r.Ok? ==> r.value.anchor == NoRoot && other.tail + r.value.tail == p.tail
    ensures r.Err? ==> r.error == NotRelative
    ensures r.Ok? && WellFormed(p) ==> WellFormed(r.value)
  {
    if IsPrefix(other, p) then
      assert p.tail == other.tail + p.tail[|other.tail|..];
      Ok(Path(NoRoot, p.tail[|other.tail|..]))
    else
      Err(NotRelative)
  }

  /** `p / q`: an anchored `q` replaces `p`, a relative one is appended. */
  function JoinPath(p: Path, q: Path): Path {
    if q.anchor != NoRoot then q else Path(p.anchor, p.tail + q.tail)
  }

  // ---------------------------------------------------------------------
  // Lemmas about splitting and parsing

  lemma {:induction false} SplitAtSlash(a: string, b: string)
    ensures Split(a + "/" + b) == Split(a) + Split(b)
    decreases |a|
  {
    if a == [] {
      assert a + "/" + b == "/" + b;
      assert ("/" + b)[1..] == b;
    } else {
      assert (a + "/" + b)[0] == a[0];
      assert (a + "/" + b)[1..] == a[1..] + "/" + b;
      SplitAtSlash(a[1..], b);
    }
  }

  lemma {:induction false} SplitWithoutSlash(s: string)
    requires '/' !in s
    ensures Split(s) == [s]
    decreases |s|
  {
    if s != [] {
      assert '/' !in s[1..];
      SplitWithoutSlash(s[1..]);
      assert s == [s[0]] + s[1..];
    }
  }

  /** Splitting undoes joining when no piece holds a slash. */
  lemma {:induction false} SplitJoin(segs: seq<string>)
    requires |segs| >= 1
    requires forall i :: 0 <= i < |segs| ==> '/' !in segs[i]
    ensures Split(JoinSegments(segs)) == segs
    decreases |segs|
  {
    if |segs| == 1 {
      SplitWithoutSlash(segs[0]);
    } else {
      SplitWithoutSlash(segs[0]);
      SplitJoin(segs[1..]);
      SplitAtSlash(segs[0], JoinSegments(segs[1..]));
      assert segs == [segs[0]] + segs[1..];
    }
  }

  lemma {:induction false} DropDistributes(x: seq<string>, y: seq<string>)
    ensures DropEmptyAndDot(x + y) == DropEmptyAndDot(x) + DropEmptyAndDot(y)
    decreases |x|
  {
    if x == [] {
      assert x + y == y;
    } else {
      assert (x + y)[0] == x[0];
      assert (x + y)[1..] == x[1..] + y;
      DropDistributes(x[1..], y);
    }
  }

  lemma {:induction false} DropKeepsSegments(segs: seq<string>)
    requires forall i :: 0 <= i < |segs| ==> IsSegment(segs[i])
    ensures DropEmptyAndDot(segs) == segs
    decreases |segs|
  {
    if segs != [] {
      DropKeepsSegments(segs[1..]);
      assert segs == [segs[0]] + segs[1..];
    }
  }

  /** Parsing is compositional: the segments of `a/b` are those of `a`
      followed by those of `b`. Repeated slashes and `.` pieces vanish,
      `..` stays a segment of its own. */
  lemma SegmentsAtSlash(a: string, b: string)
    ensures Segments(a + "/" + b) == Segments(a) + Segments(b)
  {
    SplitAtSlash(a, b);
    DropDistributes(Split(a), Split(b));
  }

  lemma SegmentsOfWellFormed(segs: seq<string>)
    requires forall i :: 0 <= i < |segs| ==> IsSegment(segs[i])
    ensures Segments(JoinSegments(segs)) == segs
  {
    if segs == [] {
      assert Split("") == [""];
    } else {
      SplitJoin(segs);
      DropKeepsSegments(segs);
    }
  }

  /** The joined string starts with the first segment. */
  lemma {:induction false} JoinStartsWithFirst(segs: seq<string>)
    requires |segs| >= 1
    ensures |JoinSegments(segs)| >= |segs[0]|
    ensures JoinSegments(segs)[..|segs[0]|] == segs[0]
  {
    if |segs| > 1 {
      assert (segs[0] + "/" + JoinSegments(segs[1..]))[..|segs[0]|] == segs[0];
    }
  }

  /** The anchor depends only on the leading slashes, so text appended
      after a non-slash character does not change it. */
  lemma AnchorOfExtension(a: string, x: string)
    requires HasNonSlash(a)
    ensures AnchorOf(a + x) == AnchorOf(a)
  {
    var i :| 0 <= i < |a| && a[i] != '/';
    assert forall k :: 0 <= k < |a| ==> (a + x)[k] == a[k];
  }

  /** The segments of a string that starts with one or two slashes are
      those of the rest. */
  lemma SegmentsAfterSlashes(j: string)
    ensures Segments("/" + j) == Segments(j)
    ensures Segments("//" + j) == Segments(j)
  {
    assert Split("") == [""];
    assert "/" + j == "" + "/" + j;
    assert "//" + j == "" + "/" + ("/" + j);
    SegmentsAtSlash("", j);
    SegmentsAtSlash("", "/" + j);
  }

  /** The anchor of `str(p)` is `p`'s anchor. */
  lemma AnchorOfStr(p: Path)
    requires WellFormed(p)
    ensures AnchorOf(Str(p)) == p.anchor
  {
    var j := JoinSegments(p.tail);
    if p.tail != [] {
      JoinStartsWithFirst(p.tail);
      assert j[..|p.tail[0]|] == p.tail[0];
      assert j[0] == p.tail[0][0];
    }
    assert p.tail != [] ==> j != "" && j[0] != '/';
    match p.anchor
    case NoRoot =>
    case Root =>
      assert Str(p) == "/" + j;
    case DoubleRoot =>
      assert Str(p) == "//" + j;
  }

  /** A path string parses back from its own `str`. */
  lemma ParseStr(p: Path)
    requires WellFormed(p)
    ensures Parse(Str(p)) == p
  {
    AnchorOfStr(p);
    if p.anchor == NoRoot && p.tail == [] {
      assert Split(".") == ["."];
    } else {
      var j := JoinSegments(p.tail);
      SegmentsOfWellFormed(p.tail);
      SegmentsAfterSlashes(j);
      match p.anchor
      case NoRoot =>
        assert Str(p) == j;
      case Root =>
        assert Str(p) == "/" + j;
      case DoubleRoot =>
        assert Str(p) == "//" + j;
    }
  }

  /** The `str` of a relative path never starts with `/` nor with `./`. */
  lemma StrOfRelative(p: Path)
    requires WellFormed(p) && p.anchor == NoRoot
    ensures Str(p) != ""
    ensures Str(p)[0] != '/'
    ensures |Str(p)| >= 2 ==> Str(p)[..2] != "./"
  {
    if p.tail != [] {
      JoinStartsWithFirst(p.tail);
      var s := p.tail[0];
      assert IsSegment(s);
      assert Str(p)[..|s|] == s;
      assert Str(p)[0] == s[0];
      if |s| >= 2 {
        assert Str(p)[1] == s[1];
        assert s[1] in s;
      } else {
        assert s == [s[0]];
      }
    }
  }

  lemma SegmentsOfDot()
    ensures Segments("") == []
    ensures Segments(".") == []
  {
    assert Split("") == [""];
    assert Split(".") == ["."];
  }

  /** A repeated slash adds no segment. */
  lemma SegmentsIgnoreDoubleSlash(a: string, b: string)
    ensures Segments(a + "//" + b) == Segments(a + "/" + b)
  {
    assert a + "//" + b == a + "/" + ("/" + b);
    SegmentsAfterSlashes(b);
    SegmentsAtSlash(a, "/" + b);
    SegmentsAtSlash(a, b);
  }

  /** A `.` piece adds no segment. */
  lemma SegmentsIgnoreDotSegment(a: string, b: string)
    ensures Segments(a + "/./" + b) == Segments(a + "/" + b)
  {
    assert a + "/./" + b == a + "/" + ("." + "/" + b);
    SegmentsOfDot();
    SegmentsAtSlash(a, "." + "/" + b);
    SegmentsAtSlash(".", b);
    SegmentsAtSlash(a, b);
  }

  /** A trailing slash adds no segment. */
  lemma SegmentsIgnoreTrailingSlash(a: string)
    ensures Segments(a + "/") == Segments(a)
  {
    assert a + "/" == a + "/" + "";
    SegmentsOfDot();
    SegmentsAtSlash(a, "");
  }

  /** Repeated slashes, `.` pieces and a trailing slash are lexical noise:
      they add no segment and, after a non-slash character, they leave the
      anchor alone. */
  lemma ParseIgnoresRedundantSeparators(a: string, b: string)
    requires HasNonSlash(a)
    ensures Parse(a + "//" + b) == Parse(a + "/" + b)
    ensures Parse(a + "/./" + b) == Parse(a + "/" + b)
    ensures Parse(a + "/") == Parse(a)
  {
    AnchorOfExtension(a, "//" + b);
    AnchorOfExtension(a, "/./" + b);
    AnchorOfExtension(a, "/" + b);
    AnchorOfExtension(a, "/");
    SegmentsIgnoreDoubleSlash(a, b);
    SegmentsIgnoreDotSegment(a, b);
    SegmentsIgnoreTrailingSlash(a);
  }

  /** A leading `./` before a relative path changes nothing. */
  lemma ParseIgnoresLeadingDot(b: string)
    requires b == [] || b[0] != '/'
    ensures Parse("./" + b) == Parse(b)
  {
    assert "./" + b == "." + "/" + b;
    SegmentsAtSlash(".", b);
    SegmentsOfDot();
  }

  /** A trailing `/.` after a non-slash character changes nothing. */
  lemma ParseIgnoresTrailingDot(a: string)
    requires HasNonSlash(a)
    ensures Parse(a + "/.") == Parse(a)
  {
    assert a + "/." == a + "/" + ".";
    SegmentsAtSlash(a, ".");
    SegmentsOfDot();
    AnchorOfExtension(a, "/.");
  }

  /** A single segment parses to itself. */
  lemma SegmentsOfSegment(s: string)
    requires IsSegment(s)
    ensures Segments(s) == [s]
  {
    SplitWithoutSlash(s);
  }

  /** A segment between two slashes is kept as it is; this holds for `..`
      too, which is never resolved against the segment before it. */
  lemma SegmentsKeepInnerSegment(a: string, s: string, b: string)
    requires IsSegment(s)
    ensures Segments(a + "/" + s + "/" + b) == Segments(a) + [s] + Segments(b)
  {
    assert a + "/" + s + "/" + b == a + "/" + (s + "/" + b);
    var rest := s + "/" + b;
    SegmentsAtSlash(s, b);
    SegmentsOfSegment(s);
    assert Segments(rest) == [s] + Segments(b);
    SegmentsAtSlash(a, rest);
    assert Segments(a) + ([s] + Segments(b)) == Segments(a) + [s] + Segments(b);
  }

  lemma SegmentsKeepParentSegment(a: string, b: string)
    ensures Segments(a + "/" + ".." + "/" + b) == Segments(a) + [".."] + Segments(b)
  {
    SegmentsKeepInnerSegment(a, "..", b);
  }
}
