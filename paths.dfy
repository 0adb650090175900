/**
 * The part of `os.path` (POSIX flavour) and of the file system that request
 * handling depends on: `join`, `splitext`, `exists`, `isdir` and reading a
 * whole file, over an abstract file system keyed by path strings.
 */
module Paths {
  import opened Wrappers
  import opened Text

  /** What a path names in the file system. */
  datatype Entry =
    | File(content: seq<byte>)  // a regular file; `open(p, 'rb').read()` returns `content`
    | Directory
    | Unreadable                // exists and is not a directory, but opening or reading it raises

  /** Every path that exists, with what it names; a path not in the map does not exist. */
  type FileSystem = map<string, Entry>

  /** `os.path.exists(p)`. */
  predicate Exists(fs: FileSystem, p: string) {
    p in fs
  }

  /** `os.path.isdir(p)`. */
  predicate IsDir(fs: FileSystem, p: string) {
    p in fs && fs[p].Directory?
  }

  /**
   * `os.path.join(a, b)`: an absolute `b` replaces `a`; otherwise `b` is
   * appended to `a` with one '/' between, unless `a` is empty or ends in '/'.
   */
  function PathJoin(a: string, b: string): (r: string)
    ensures |r| >= |b| && r[|r| - |b|..] == b
    ensures b != [] && b[0] == '/' ==> r == b
    ensures b == [] || b[0] != '/' ==> |a| <= |r| && r[..|a|] == a
  {
    if b != [] && b[0] == '/' then b
    else if a == [] || a[|a| - 1] == '/' then a + b
    else a + "/" + b
  }

  /** The last component of `p`: everything after its last '/'. */
  function Basename(p: string): (r: string)
    ensures |r| <= |p| && r == p[|p| - |r|..]
    ensures Lacks(r, '/')
    ensures |r| < |p| ==> p[|p| - |r| - 1] == '/'
  {
    if p == [] || p[|p| - 1] == '/' then []
    else
      var r := Basename(p[..|p| - 1]) + [p[|p| - 1]];
      assert p == p[..|p| - 1] + [p[|p| - 1]];
      r
  }

  /** The index of the last `c` in `s`. */
  function LastIndexOf(s: string, c: char): (r: Option<nat>)
    ensures r.Some? ==> r.value < |s| && s[r.value] == c && Lacks(s[r.value + 1..], c)
    ensures r.None? ==> Lacks(s, c)
  {
    if s == [] then None
    else if s[|s| - 1] == c then Some(|s| - 1)
    else
      var r := LastIndexOf(s[..|s| - 1], c);
      assert r.Some? ==> s[r.value + 1..] == s[..|s| - 1][r.value + 1..] + [s[|s| - 1]];
      r
  }

  predicate AllDots(s: string) {
    forall k :: 0 <= k < |s| ==> s[k] == '.'
  }

  /**
   * `os.path.splitext(p)[1]`: the last component's suffix from its last '.',
   * unless only dots precede that '.' in the component (a dot-file has no
   * extension); otherwise "".
   */
  function Ext(p: string): (e: string)
    ensures |e| <= |p| && e == p[|p| - |e|..]
    ensures e != [] ==> e[0] == '.' && Lacks(e[1..], '.') && Lacks(e, '/')
  {
    var base := Basename(p);
    match LastIndexOf(base, '.')
    case None => ""
    case Some(d) => if AllDots(base[..d]) then "" else base[d..]
  }

  lemma {:induction false} BasenameAfterSlash(dir: string, name: string)
    requires Lacks(name, '/')
    ensures Basename(dir + "/" + name) == name
    decreases |name|
  {
    var p := dir + "/" + name;
    if name == [] {
      assert p[|p| - 1] == '/';
    } else {
      var init := name[..|name| - 1];
      assert p[..|p| - 1] == dir + "/" + init;
      BasenameAfterSlash(dir, init);
      assert name == init + [name[|name| - 1]];
    }
  }

  lemma {:induction false} LastDot(stem: string, x: string)
    requires Lacks(x, '.')
    ensures LastIndexOf(stem + "." + x, '.') == Some(|stem|)
    decreases |x|
  {
    var s := stem + "." + x;
    if x != [] {
      var init := x[..|x| - 1];
      assert s[..|s| - 1] == stem + "." + init;
      LastDot(stem, init);
    }
  }

  /**
   * The extension of `dir/stem.x` is `.x` whenever the stem does not start
   * with a dot and `x` holds no '.' or '/': only the name's suffix from its
   * last dot matters, whatever the directory.
   */
  lemma ExtOfName(dir: string, stem: string, x: string)
    requires stem != [] && stem[0] != '.' && Lacks(stem, '/')
    requires Lacks(x, '.') && Lacks(x, '/')
    ensures Ext(dir + "/" + stem + "." + x) == "." + x
  {
    var name := stem + "." + x;
    LacksConcat(".", x, '/');
    assert name == stem + ("." + x);
    LacksConcat(stem, "." + x, '/');
    assert dir + "/" + stem + "." + x == dir + "/" + name;
    BasenameAfterSlash(dir, name);
    LastDot(stem, x);
    assert name[..|stem|] == stem;
    assert !AllDots(stem);
    assert name[|stem|..] == "." + x;
  }

  /** A dot-file such as `dir/.html` has no extension. */
  lemma DotFileHasNoExt(dir: string, x: string)
    requires Lacks(x, '.') && Lacks(x, '/')
    ensures Ext(dir + "/." + x) == ""
  {
    assert dir + "/." + x == dir + "/" + ("." + x);
    LacksConcat(".", x, '/');
    BasenameAfterSlash(dir, "." + x);
    LastDot([], x);
    assert [] + "." + x == "." + x;
  }
}
