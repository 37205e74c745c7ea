/**
 * The POSIX `os.path` operations the cache uses, on paths as strings:
 * `join` builds the entry's path (parbake.py:141), `dirname` names the
 * directory `mkstemp` creates its temporary file in (parbake.py:117), and
 * `basename` is the component the system calls check against `NAME_MAX`.
 */
module PosixPath {

  /** Every character of `p` is '/'. */
  predicate AllSlashes(p: string) {
    forall k :: 0 <= k < |p| ==> p[k] == '/'
  }

  /** `p.rstrip('/')` */
  function RStripSlashes(p: string): (r: string)
    ensures |r| <= |p| && r == p[..|r|]
    ensures forall k :: |r| <= k < |p| ==> p[k] == '/'
    ensures r == [] || r[|r| - 1] != '/'
  {
    if p != [] && p[|p| - 1] == '/' then RStripSlashes(p[..|p| - 1]) else p
  }

  /** `p.rfind('/')`: the index of the last '/', or -1 when there is none. */
  function LastSlash(p: string): (i: int)
    ensures -1 <= i < |p|
    ensures i >= 0 ==> p[i] == '/'
    ensures forall k :: i < k < |p| ==> p[k] != '/'
  {
    if p == [] then -1
    else if p[|p| - 1] == '/' then |p| - 1
    else LastSlash(p[..|p| - 1])
  }

  /**
   * `os.path.join(dir, name)`: an absolute `name` replaces `dir`; otherwise
   * the result is `dir`, one separating '/' unless `dir` is empty or already
   * ends with one, then `name`.
   */
  function Join(dir: string, name: string): (r: string)
    ensures name != [] && name[0] == '/' ==> r == name
    ensures (name == [] || name[0] != '/') ==>
      && |dir| + |name| <= |r| <= |dir| + 1 + |name|
      && r[..|dir|] == dir && r[|r| - |name|..] == name
      && (|r| == |dir| + |name| <==> dir == [] || dir[|dir| - 1] == '/')
      && (|r| > |dir| + |name| ==> r[|dir|] == '/')
  {
    if name != [] && name[0] == '/' then name
    else if dir == [] || dir[|dir| - 1] == '/' then dir + name
    else dir + "/" + name
  }

  /**
   * `os.path.dirname(p)`: everything before the last '/', with trailing
   * slashes removed unless it consists of slashes only.
   */
  function Dirname(p: string): (r: string)
    ensures |r| <= |p| && r == p[..|r|]
    ensures '/' !in p ==> r == []
    ensures '/' in p ==> r != []
    ensures !AllSlashes(r) ==> r[|r| - 1] != '/'
  {
    var head := p[..LastSlash(p) + 1];
    if head != [] && !AllSlashes(head) then RStripSlashes(head) else head
  }

  /** `os.path.basename(p)`: everything after the last '/'. */
  function BaseName(p: string): (r: string)
    ensures |r| <= |p| && r == p[|p| - |r|..]
    ensures '/' !in r
    ensures |r| == |p| || p[|p| - |r| - 1] == '/'
    ensures '/' !in p ==> r == p
  {
    p[LastSlash(p) + 1..]
  }

  /**
   * The name a directory reached through `p` is known by: `p` without
   * trailing slashes, or "/" when `p` consists of slashes only.
   */
  function Canonical(p: string): string {
    if p != [] && AllSlashes(p) then "/" else RStripSlashes(p)
  }

  /** Joining onto one directory is injective on relative names. */
  lemma JoinInjective(dir: string, a: string, b: string)
    requires a != [] && a[0] != '/' && b != [] && b[0] != '/'
    ensures Join(dir, a) == Join(dir, b) <==> a == b
  {
    var sep := if dir == [] || dir[|dir| - 1] == '/' then dir else dir + "/";
    assert Join(dir, a) == sep + a && Join(dir, b) == sep + b;
    if sep + a == sep + b {
      assert a == (sep + a)[|sep|..];
      assert b == (sep + b)[|sep|..];
    }
  }

  /** A name without '/' joined onto a directory lands in that very directory. */
  lemma DirnameOfJoin(dir: string, name: string)
    requires dir != [] && dir[|dir| - 1] != '/'
    requires name != [] && '/' !in name
    ensures Dirname(Join(dir, name)) == dir
  {
    var p := Join(dir, name);
    assert p == dir + "/" + name;
    assert p[|dir|] == '/';
    assert forall k :: |dir| < k < |p| ==> p[k] == name[k - |dir| - 1];
    var i := LastSlash(p);
    assert i == |dir|;
    var head := p[..i + 1];
    assert head == dir + "/";
    assert head[|dir| - 1] != '/';
    assert RStripSlashes(head) == RStripSlashes(dir);
  }

  /** A name without '/' joined onto any directory is the last component of the result. */
  lemma BaseNameOfJoin(dir: string, name: string)
    requires name != [] && '/' !in name
    ensures BaseName(Join(dir, name)) == name
  {
    var p := Join(dir, name);
    var start := |p| - |name|;
    assert p[start..] == name;
    assert forall k :: start <= k < |p| ==> p[k] == name[k - start];
    var i := LastSlash(p);
    if start == 0 {
      assert i == -1;
    } else {
      assert p[start - 1] == '/';
      assert i == start - 1;
    }
  }

  /** Such a join does not end in '/', so its last component is the name even after `rstrip('/')`. */
  lemma LastComponentOfJoin(dir: string, name: string)
    requires name != [] && '/' !in name
    ensures BaseName(RStripSlashes(Join(dir, name))) == name
  {
    var p := Join(dir, name);
    assert p[|p| - |name|..] == name;
    assert p[|p| - 1] == name[|name| - 1];
    assert RStripSlashes(p) == p;
    BaseNameOfJoin(dir, name);
  }

  /** For a path ending in '/', the dirname is the path itself without its trailing slashes. */
  lemma DirnameOfTrailingSlash(p: string)
    requires p != [] && p[|p| - 1] == '/' && !AllSlashes(p)
    ensures Dirname(p) == Canonical(p) == RStripSlashes(p)
  {
    var head := p[..LastSlash(p) + 1];
    assert head == p;
    assert Dirname(p) == RStripSlashes(p);
  }
}
