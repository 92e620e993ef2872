/** The two `posixpath` functions the tool uses, `basename` and `splitext`,
    both plain string operations. */
module OsPath {

  /** `s.rfind(c)`: the index of the last `c` in `s`, or -1. */
  function RFind(s: string, c: char): (i: int)
    ensures -1 <= i < |s|
    ensures 0 <= i ==> s[i] == c
    ensures forall k :: i < k < |s| ==> s[k] != c
    decreases |s|
  {
    if s == [] then -1
    else if s[|s| - 1] == c then |s| - 1
    else
      RFind(s[..|s| - 1], c)
  }

  /** `os.path.basename(p)`: everything after the last `/`. */
  function Basename(p: string): (b: string)
    ensures '/' !in b
    ensures |b| <= |p| && p[|p| - |b|..] == b
    ensures |b| < |p| ==> p[|p| - |b| - 1] == '/'
  {
    p[RFind(p, '/') + 1..]
  }

  /** The final component of `p` holds a `.` with some character other
      than `.` before it; leading dots alone never start an extension. */
  predicate HasExtension(p: string) {
    exists j, i :: 0 <= j < i < |p| && p[j] != '.' && p[i] == '.' && '/' !in p[j..]
  }

  /** Some character of `p[lo..hi]` is not a `.`. */
  predicate NonDotBetween(p: string, lo: int, hi: int) {
    exists k :: lo <= k < hi && 0 <= k < |p| && p[k] != '.'
  }

  /** `os.path.splitext(p)`: splits at the last `.` of the final component
      unless every character before it in that component is a `.`. */
  function SplitExt(p: string): (r: (string, string))
    ensures r.0 + r.1 == p
    ensures r.1 == [] || (r.1[0] == '.' && '.' !in r.1[1..] && '/' !in r.1)
  {
    var sepIndex := RFind(p, '/');
    var dotIndex := RFind(p, '.');
    if sepIndex < dotIndex && NonDotBetween(p, sepIndex + 1, dotIndex) then
      (p[..dotIndex], p[dotIndex..])
    else
      (p, [])
  }

  /** `splitext` finds an extension exactly when the final component has a
      dot that is not one of its leading dots. */
  lemma SplitExtFindsExtension(p: string)
    ensures SplitExt(p).1 != [] <==> HasExtension(p)
  {
    var sepIndex := RFind(p, '/');
    var dotIndex := RFind(p, '.');
    if SplitExt(p).1 != [] {
      var k :| sepIndex + 1 <= k < dotIndex && 0 <= k < |p| && p[k] != '.';
      assert p[k..] == p[sepIndex + 1..][k - sepIndex - 1..];
      assert 0 <= k < dotIndex < |p| && p[k] != '.' && p[dotIndex] == '.' && '/' !in p[k..];
    }
    if HasExtension(p) {
      var j, i :| 0 <= j < i < |p| && p[j] != '.' && p[i] == '.' && '/' !in p[j..];
      assert sepIndex < j < dotIndex && p[j] != '.';
    }
  }

  /** A name without `/` is its own base name. */
  lemma BasenameOfName(s: string)
    requires '/' !in s
    ensures Basename(s) == s
  {
  }

  /** The base name of `dir/name` is `name`. */
  lemma BasenameAfterSlash(dir: string, name: string)
    requires '/' !in name
    ensures Basename(dir + "/" + name) == name
  {
    var p := dir + "/" + name;
    var i := RFind(p, '/');
    assert p[|dir|] == '/';
    assert i == |dir|;
    assert p[|dir| + 1..] == name;
  }

  /** A name made of a stem that holds a non-dot character and an
      extension `.e`, with no `.` or `/` in `e`, splits into the two. */
  lemma SplitExtOfName(stem: string, e: string)
    requires '/' !in stem && '/' !in e && '.' !in e
    requires exists k :: 0 <= k < |stem| && stem[k] != '.'
    ensures SplitExt(stem + "." + e) == (stem, "." + e)
  {
    var p := stem + "." + e;
    var sepIndex := RFind(p, '/');
    var dotIndex := RFind(p, '.');
    assert sepIndex == -1;
    assert p[|stem|] == '.';
    assert dotIndex == |stem|;
    var k :| 0 <= k < |stem| && stem[k] != '.';
    assert p[k] == stem[k];
    assert NonDotBetween(p, sepIndex + 1, dotIndex);
    assert p[..dotIndex] == stem;
    assert p[dotIndex..] == "." + e;
  }
}
