/** Worked examples of `relpath` and `remove_ext` on concrete strings.
    Each fact about a string literal is kept in a lemma of its own, so that
    every proof stays small. */
module WishExamples {
  import opened Outcomes
  import opened PurePosixPath
  import opened OsPath
  import opened Wish

  /** One step of joining: the first segment in front of the joined rest. */
  lemma JoinStep(segs: seq<string>, joinedRest: string, joined: string)
    requires |segs| >= 2 && JoinSegments(segs[1..]) == joinedRest
    requires joined == segs[0] + "/" + joinedRest
    ensures JoinSegments(segs) == joined
  {
  }

  /** The `str` of a rooted path is `/` followed by its joined segments. */
  lemma StrRooted(segs: seq<string>, joined: string, s: string)
    requires JoinSegments(segs) == joined && s == "/" + joined
    ensures Str(Path(Root, segs)) == s
  {
  }

  /** A string that is the `str` of a well-formed path parses to it. */
  lemma ParseStrAt(p: Path, s: string)
    requires WellFormed(p) && Str(p) == s
    ensures Parse(s) == p
  {
    ParseStr(p);
  }

  lemma ParseSrc()
    ensures Parse("/src") == Path(Root, ["src"])
  {
    StrRooted(["src"], "src", "/src");
    ParseStrAt(Path(Root, ["src"]), "/src");
  }

  lemma JoinPkgModFile()
    ensures JoinSegments(["pkg", "mod", "file.cpp"]) == "pkg/mod/file.cpp"
  {
    JoinStep(["mod", "file.cpp"], "file.cpp", "mod/file.cpp");
    JoinStep(["pkg", "mod", "file.cpp"], "mod/file.cpp", "pkg/mod/file.cpp");
  }

  lemma StrPkgModFile()
    ensures Str(Path(NoRoot, ["pkg", "mod", "file.cpp"])) == "pkg/mod/file.cpp"
  {
    JoinPkgModFile();
  }

  lemma JoinSrcPkgModFile()
    ensures JoinSegments(["src", "pkg", "mod", "file.cpp"]) == "src/pkg/mod/file.cpp"
  {
    JoinPkgModFile();
    JoinStep(["src", "pkg", "mod", "file.cpp"], "pkg/mod/file.cpp", "src/pkg/mod/file.cpp");
  }

  lemma StrInsideFile()
    ensures Str(Path(Root, ["src", "pkg", "mod", "file.cpp"])) == "/src/pkg/mod/file.cpp"
  {
    JoinSrcPkgModFile();
    StrRooted(["src", "pkg", "mod", "file.cpp"], "src/pkg/mod/file.cpp", "/src/pkg/mod/file.cpp");
  }

  /** `relpath /src/pkg/mod/file.cpp /src` prints `pkg/mod/file.cpp`. */
  lemma RelPathExampleInside()
    ensures RelPath("/src/pkg/mod/file.cpp", "/src") == Ok("pkg/mod/file.cpp")
  {
    StrInsideFile();
    ParseStrAt(Path(Root, ["src", "pkg", "mod", "file.cpp"]), "/src/pkg/mod/file.cpp");
    ParseSrc();
    StrPkgModFile();
    assert RelativeTo(Path(Root, ["src", "pkg", "mod", "file.cpp"]), Path(Root, ["src"]))
        == Ok(Path(NoRoot, ["pkg", "mod", "file.cpp"]));
  }

  /** `/other/file.cpp` is not under `/src`. */
  lemma RelPathExampleOutside()
    ensures RelPath("/other/file.cpp", "/src") == Err(NotRelative)
  {
    JoinStep(["other", "file.cpp"], "file.cpp", "other/file.cpp");
    StrRooted(["other", "file.cpp"], "other/file.cpp", "/other/file.cpp");
    ParseStrAt(Path(Root, ["other", "file.cpp"]), "/other/file.cpp");
    ParseSrc();
    assert !(["src"] <= ["other", "file.cpp"]);
  }

  /** A relative `src/file.cpp` is not under the absolute `/src`. */
  lemma RelPathExampleRelativeFile()
    ensures RelPath("src/file.cpp", "/src") == Err(NotRelative)
  {
    assert AnchorOf("src/file.cpp") == NoRoot;
    assert AnchorOf("/src") == Root;
    RelPathOutsideRoot("src/file.cpp", "/src");
  }

  lemma JoinParentLibFile()
    ensures JoinSegments(["..", "lib", "x.cpp"]) == "../lib/x.cpp"
  {
    JoinStep(["lib", "x.cpp"], "x.cpp", "lib/x.cpp");
    JoinStep(["..", "lib", "x.cpp"], "lib/x.cpp", "../lib/x.cpp");
  }

  lemma StrParentLibFile()
    ensures Str(Path(NoRoot, ["..", "lib", "x.cpp"])) == "../lib/x.cpp"
  {
    JoinParentLibFile();
  }

  lemma JoinSrcParentLibFile()
    ensures JoinSegments(["src", "..", "lib", "x.cpp"]) == "src/../lib/x.cpp"
  {
    JoinParentLibFile();
    JoinStep(["src", "..", "lib", "x.cpp"], "../lib/x.cpp", "src/../lib/x.cpp");
  }

  lemma StrParentInside()
    ensures Str(Path(Root, ["src", "..", "lib", "x.cpp"])) == "/src/../lib/x.cpp"
  {
    JoinSrcParentLibFile();
    StrRooted(["src", "..", "lib", "x.cpp"], "src/../lib/x.cpp", "/src/../lib/x.cpp");
  }

  /** `..` is compared as an ordinary segment: `/src/../lib/x.cpp` lies
      inside `/src` (giving `../lib/x.cpp`), although it names a file
      outside it once `..` is resolved. */
  lemma RelPathExampleParentInside()
    ensures RelPath("/src/../lib/x.cpp", "/src") == Ok("../lib/x.cpp")
  {
    StrParentInside();
    ParseStrAt(Path(Root, ["src", "..", "lib", "x.cpp"]), "/src/../lib/x.cpp");
    ParseSrc();
    StrParentLibFile();
    assert RelativeTo(Path(Root, ["src", "..", "lib", "x.cpp"]), Path(Root, ["src"]))
        == Ok(Path(NoRoot, ["..", "lib", "x.cpp"]));
  }

  lemma JoinParentSrcFile()
    ensures JoinSegments(["..", "src", "x.cpp"]) == "../src/x.cpp"
  {
    JoinStep(["src", "x.cpp"], "x.cpp", "src/x.cpp");
    JoinStep(["..", "src", "x.cpp"], "src/x.cpp", "../src/x.cpp");
  }

  lemma JoinLibParentSrcFile()
    ensures JoinSegments(["lib", "..", "src", "x.cpp"]) == "lib/../src/x.cpp"
  {
    JoinParentSrcFile();
    JoinStep(["lib", "..", "src", "x.cpp"], "../src/x.cpp", "lib/../src/x.cpp");
  }

  lemma StrParentOutside()
    ensures Str(Path(Root, ["lib", "..", "src", "x.cpp"])) == "/lib/../src/x.cpp"
  {
    JoinLibParentSrcFile();
    StrRooted(["lib", "..", "src", "x.cpp"], "lib/../src/x.cpp", "/lib/../src/x.cpp");
  }

  /** Conversely `/lib/../src/x.cpp`, which resolves to a file under
      `/src`, is not inside it lexically. */
  lemma RelPathExampleParentOutside()
    ensures RelPath("/lib/../src/x.cpp", "/src") == Err(NotRelative)
  {
    StrParentOutside();
    ParseStrAt(Path(Root, ["lib", "..", "src", "x.cpp"]), "/lib/../src/x.cpp");
    ParseSrc();
    assert !(["src"] <= ["lib", "..", "src", "x.cpp"]);
  }

  lemma StemExampleSingleExtension()
    ensures Stem("/a/b/c/file.cpp") == "file"
  {
    assert "/a/b/c/file.cpp" == "/a/b/c" + "/" + "file.cpp";
    BasenameAfterSlash("/a/b/c", "file.cpp");
    assert "file.cpp" == "file" + "." + "cpp";
    assert "file"[0] != '.';
    SplitExtOfName("file", "cpp");
  }

  /** Only the final extension goes. */
  lemma StemExampleDoubleExtension()
    ensures Stem("/a/b/c/file.tar.gz") == "file.tar"
  {
    assert "/a/b/c/file.tar.gz" == "/a/b/c" + "/" + "file.tar.gz";
    BasenameAfterSlash("/a/b/c", "file.tar.gz");
    assert "file.tar.gz" == "file.tar" + "." + "gz";
    assert "file.tar"[0] != '.';
    SplitExtOfName("file.tar", "gz");
  }

  lemma StemExampleHidden()
    ensures Stem("/a/b/.hidden") == ".hidden"
  {
    assert "/a/b/.hidden" == "/a/b" + "/" + ".hidden";
    BasenameAfterSlash("/a/b", ".hidden");
    StemKeepsLeadingDotName("/a/b/.hidden");
  }
}
