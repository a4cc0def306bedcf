/**
 * `pathlib` on POSIX path strings: joining, the last component, its
 * suffix and stem.  Paths are taken as already normal (no `//`, no
 * trailing `/`).
 */
module Paths {
  import opened Wrappers
  import opened Strings

  /** `dir / name` */
  function Child(dir: string, name: string): string {
    dir + "/" + name
  }

  predicate IsAbsolute(p: string) {
    p != [] && p[0] == '/'
  }

  /** `Path(a) / b`: an absolute `b` replaces `a`, an empty `b` adds nothing. */
  function Join(a: string, b: string): (r: string)
    ensures IsAbsolute(a) ==> IsAbsolute(r)
  {
    if IsAbsolute(b) then b else if b == [] then a else Child(a, b)
  }

  /** `Path(p).relative_to(root)`: the rest of `p` below `root`; `None` where Python raises ValueError. */
  function RelativeTo(p: string, root: string): Option<string> {
    if StartsWith(p, root + "/") then Some(p[|root| + 1..]) else None
  }

  /** `Path(p).with_suffix(ext)`: the name's suffix replaced, or `ext` added when it has none. */
  function WithSuffix(p: string, ext: string): string {
    p[..NameStart(p)] + Stem(p) + ext
  }

  /** Index just after the last '/', or 0. */
  function NameStart(p: string): (k: nat)
    ensures k <= |p|
    ensures forall i :: k <= i < |p| ==> p[i] != '/'
    ensures k > 0 ==> p[k - 1] == '/'
  {
    if p == [] then 0
    else if p[|p| - 1] == '/' then |p|
    else NameStart(p[..|p| - 1])
  }

  /** `Path(p).name` */
  function Name(p: string): string {
    p[NameStart(p)..]
  }

  /** Index of the last '.' in `s`, or -1. */
  function LastDot(s: string): (i: int)
    ensures -1 <= i < |s|
    ensures i >= 0 ==> s[i] == '.'
    ensures forall j :: i < j < |s| ==> s[j] != '.'
  {
    if s == [] then -1
    else if s[|s| - 1] == '.' then |s| - 1
    else LastDot(s[..|s| - 1])
  }

  /** The last dot of a name splits off a suffix only when neither side is empty. */
  predicate HasSuffix(name: string) {
    0 < LastDot(name) < |name| - 1
  }

  /** `Path(p).suffix` */
  function Suffix(p: string): string {
    var name := Name(p);
    if HasSuffix(name) then name[LastDot(name)..] else ""
  }

  /** `Path(p).stem` */
  function Stem(p: string): string {
    var name := Name(p);
    if HasSuffix(name) then name[..LastDot(name)] else name
  }

  /** The stem and suffix of a name put back together give the name. */
  lemma StemSuffix(p: string)
    ensures Stem(p) + Suffix(p) == Name(p)
  {
  }

  /** A file `stem + ext` in a directory has that stem and suffix back. */
  lemma {:induction false} ChildStemSuffix(dir: string, stem: string, ext: string)
    requires stem != [] && '/' !in stem
    requires |ext| >= 2 && ext[0] == '.' && '.' !in ext[1..] && '/' !in ext
    ensures Name(Child(dir, stem + ext)) == stem + ext
    ensures Stem(Child(dir, stem + ext)) == stem
    ensures Suffix(Child(dir, stem + ext)) == ext
  {
    var p := Child(dir, stem + ext);
    var name := stem + ext;
    NameOfChild(dir, name);
    var k := |stem|;
    assert name[k] == '.';
    forall j | k < j < |name| ensures name[j] != '.' {
      assert name[j] == ext[1..][j - k - 1];
    }
    LastDotIs(name, k);
  }

  lemma NameOfChild(dir: string, name: string)
    requires '/' !in name
    ensures Name(Child(dir, name)) == name
  {
    NameStartAfterSlash(dir + "/", name);
    assert Child(dir, name) == (dir + "/") + name;
  }

  lemma {:induction false} NameStartAfterSlash(x: string, name: string)
    requires x != [] && x[|x| - 1] == '/' && '/' !in name
    ensures NameStart(x + name) == |x|
    decreases |name|
  {
    var s := x + name;
    if name == [] {
      assert s == x;
    } else {
      assert s[|s| - 1] == name[|name| - 1];
      assert s[..|s| - 1] == x + name[..|name| - 1];
      NameStartAfterSlash(x, name[..|name| - 1]);
    }
  }

  lemma {:induction false} LastDotIs(s: string, k: nat)
    requires k < |s| && s[k] == '.'
    requires forall j :: k < j < |s| ==> s[j] != '.'
    ensures LastDot(s) == k
    decreases |s|
  {
    if k < |s| - 1 {
      var t := s[..|s| - 1];
      assert forall j :: k < j < |t| ==> t[j] == s[j];
      LastDotIs(t, k);
    }
  }

  /** A path in a directory keeps that directory after its suffix changes. */
  lemma WithSuffixInDir(dir: string, rel: string, ext: string)
    ensures StartsWith(WithSuffix(Child(dir, rel), ext), dir + "/")
    ensures EndsWith(WithSuffix(Child(dir, rel), ext), ext)
  {
    var p := Child(dir, rel);
    var k := NameStart(p);
    assert p[|dir|] == '/';
    assert k >= |dir| + 1;
    assert p[..k][..|dir| + 1] == dir + "/";
  }

  /** A path below `root` is found relative to it, and joining it back gives the path. */
  lemma RelativeToChild(root: string, rel: string)
    ensures RelativeTo(Child(root, rel), root) == Some(rel)
  {
    assert Child(root, rel)[..|root + "/"|] == root + "/";
  }
}
