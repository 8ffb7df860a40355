/** The two `os.path` operations the analyzer applies to path strings, for
    POSIX paths: `join` of a directory and an entry name, and `basename`. */
module Paths {

  /** `os.path.join(a, b)`: an absolute `b` replaces `a`; otherwise a
      separator is inserted unless `a` is empty or already ends with one. */
  function Join(a: string, b: string): string {
    if |b| > 0 && b[0] == '/' then b
    else if a == [] || a[|a| - 1] == '/' then a + b
    else a + "/" + b
  }

  /** `os.path.basename(p)`: everything after the last separator. */
  function Basename(p: string): string {
    if p == [] || p[|p| - 1] == '/' then []
    else Basename(p[..|p| - 1]) + [p[|p| - 1]]
  }

  /** A joined path ends with the entry name and, unless the name is
      absolute, starts with the directory. */
  lemma JoinParts(a: string, b: string)
    ensures var r := Join(a, b);
      && |b| <= |r| && r[|r| - |b|..] == b
      && (b == [] || b[0] != '/' ==> |a| <= |r| && r[..|a|] == a)
  {
  }

  /** The file name of a joined path is the entry name that was joined. */
  lemma BasenameOfJoin(dir: string, name: string)
    requires name != [] && '/' !in name
    ensures Basename(Join(dir, name)) == name
  {
    assert name[0] in name;
    if dir == [] || dir[|dir| - 1] == '/' {
      BasenameAfterSeparator(dir, name);
    } else {
      assert dir + "/" + name == (dir + "/") + name;
      BasenameAfterSeparator(dir + "/", name);
    }
  }

  /** Whatever follows the last separator is the file name. */
  lemma {:induction false} BasenameAfterSeparator(prefix: string, name: string)
    requires prefix == [] || prefix[|prefix| - 1] == '/'
    requires '/' !in name
    ensures Basename(prefix + name) == name
  {
    if name == [] {
      assert prefix + name == prefix;
    } else {
      var p := prefix + name;
      var init := name[..|name| - 1];
      var last := name[|name| - 1];
      assert p[..|p| - 1] == prefix + init;
      assert last in name && p[|p| - 1] == last;
      assert '/' !in init by {
        forall c | c in init ensures c in name { }
      }
      BasenameAfterSeparator(prefix, init);
      assert init + [last] == name;
    }
  }

  /** The file name is the part of the path after its last separator: a
      suffix without a separator, preceded by one unless it is the whole path. */
  lemma {:induction false} BasenameIsLastPart(p: string)
    ensures |Basename(p)| <= |p|
    ensures forall k :: 0 <= k < |Basename(p)| ==>
      Basename(p)[k] == p[|p| - |Basename(p)| + k] && Basename(p)[k] != '/'
    ensures |Basename(p)| < |p| ==> p[|p| - |Basename(p)| - 1] == '/'
  {
    if p != [] && p[|p| - 1] != '/' {
      var init := p[..|p| - 1];
      BasenameIsLastPart(init);
      var r := Basename(init);
      assert Basename(p) == r + [p[|p| - 1]];
      forall k | 0 <= k < |r|
        ensures Basename(p)[k] == p[|p| - |r| - 1 + k]
      {
        assert init[|init| - |r| + k] == p[|p| - |r| - 1 + k];
      }
    }
  }
}
