/**
 * The POSIX `path` functions of Node.js that the output-path allocator uses:
 * `basename`, `dirname`, `extname` and `join`. Paths are strings with '/' as
 * the separator.
 */
module Paths {

  /** String.prototype.lastIndexOf for one character: the last index of `c` in `s`, or -1. */
  function LastIndexOf(s: string, c: char): (k: int)
    ensures -1 <= k < |s|
    ensures k >= 0 ==> s[k] == c
    ensures forall i :: k < i < |s| ==> s[i] != c
  {
    if s == [] then -1
    else if s[|s| - 1] == c then |s| - 1
    else LastIndexOf(s[..|s| - 1], c)
  }

  /** The three properties of LastIndexOf determine it. */
  lemma LastIndexOfIs(s: string, c: char, k: int)
    requires -1 <= k < |s|
    requires k >= 0 ==> s[k] == c
    requires forall i :: k < i < |s| ==> s[i] != c
    ensures LastIndexOf(s, c) == k
  {
  }

  /** path.basename(p): what follows the last separator. */
  function Basename(p: string): (base: string)
    ensures '/' !in base
    ensures |base| <= |p| && base == p[|p| - |base|..]
    ensures |base| == |p| || p[|p| - |base| - 1] == '/'
  {
    p[LastIndexOf(p, '/') + 1..]
  }

  /** path.dirname(p): what precedes the last separator; "." without one, "/" for a name under the root. */
  function Dirname(p: string): (dir: string)
    ensures dir != []
    ensures '/' !in p ==> dir == "."
    ensures '/' in p ==> p == dir + "/" + Basename(p) || (dir == "/" && p == dir + Basename(p))
  {
    var k := LastIndexOf(p, '/');
    if k < 0 then "." else if k == 0 then "/" else p[..k]
  }

  /**
   * path.extname(p): the last name's suffix from its last '.', when that dot
   * is not the name's first character; empty otherwise (and for "..").
   */
  function Extname(p: string): (ext: string)
    ensures ext == [] || (ext[0] == '.' && '.' !in ext[1..])
    ensures |ext| < |Basename(p)| || ext == []
    ensures ext == Basename(p)[|Basename(p)| - |ext|..]
  {
    var base := Basename(p);
    var dot := LastIndexOf(base, '.');
    if dot <= 0 || base == ".." then "" else base[dot..]
  }

  /** The extension is a property of the last name alone. */
  lemma SameBasenameSameExtname(p: string, q: string)
    requires Basename(p) == Basename(q)
    ensures Extname(p) == Extname(q)
  {
  }

  /** path.basename(p, path.extname(p)): the last name without its extension. */
  function Stem(p: string): (stem: string)
    ensures stem + Extname(p) == Basename(p)
  {
    var base := Basename(p);
    base[..|base| - |Extname(p)|]
  }

  /** path.join(dir, name) for a name without separators. */
  function Join(dir: string, name: string): (p: string)
    ensures |name| <= |p| && p[|p| - |name|..] == name
    ensures dir != "" && dir != "." ==> |dir| <= |p| && p[..|dir|] == dir
  {
    if dir == "" || dir == "." then name
    else if dir[|dir| - 1] == '/' then dir + name
    else dir + "/" + name
  }

  /** A joined path ends in the name it was given. */
  lemma BasenameOfJoin(dir: string, name: string)
    requires '/' !in name
    ensures Basename(Join(dir, name)) == name
  {
    if dir == "" || dir == "." {
      LastIndexOfIs(name, '/', -1);
    } else {
      var sep := if dir[|dir| - 1] == '/' then dir else dir + "/";
      assert Join(dir, name) == sep + name;
      SeparatorBeforeName(sep, name);
    }
  }

  lemma SeparatorBeforeName(sep: string, name: string)
    requires sep != [] && sep[|sep| - 1] == '/' && '/' !in name
    ensures Basename(sep + name) == name
  {
    var p := sep + name;
    forall i | |sep| - 1 < i < |p|
      ensures p[i] != '/'
    {
      assert p[i] == name[i - |sep|];
    }
    LastIndexOfIs(p, '/', |sep| - 1);
    assert p[|sep|..] == name;
  }

  /** Joining onto the same directory keeps different names apart. */
  lemma JoinInjective(dir: string, a: string, b: string)
    requires Join(dir, a) == Join(dir, b)
    ensures a == b
  {
    var p := Join(dir, a);
    var k := |p| - |a|;
    assert a == p[k..] && b == p[k..];
  }

  /** The extension of a name is the part after its last dot, when a non-empty part precedes that dot. */
  lemma ExtnameOfName(prefix: string, ext: string)
    requires '/' !in prefix && '/' !in ext
    requires prefix != [] && prefix != "."
    requires ext != [] && ext[0] == '.' && '.' !in ext[1..]
    ensures Extname(prefix + ext) == ext
  {
    var name := prefix + ext;
    LastIndexOfIs(name, '/', -1);
    assert Basename(name) == name;
    forall i | |prefix| < i < |name|
      ensures name[i] != '.'
    {
      assert name[i] == ext[1..][i - |prefix| - 1];
    }
    LastIndexOfIs(name, '.', |prefix|);
    assert name[|prefix|..] == ext;
  }

  /** The directory of a joined path is the directory it was joined onto, when that has no trailing separator. */
  lemma DirnameOfJoin(dir: string, name: string)
    requires '/' !in name
    requires dir != ""
    requires dir == "/" || dir[|dir| - 1] != '/'
    ensures Dirname(Join(dir, name)) == dir
  {
    if dir == "." {
      LastIndexOfIs(name, '/', -1);
    } else if dir == "/" {
      var p := "/" + name;
      forall i | 0 < i < |p| ensures p[i] != '/' {
        assert p[i] == name[i - 1];
      }
      LastIndexOfIs(p, '/', 0);
    } else {
      var p := dir + "/" + name;
      forall i | |dir| < i < |p| ensures p[i] != '/' {
        assert p[i] == name[i - |dir| - 1];
      }
      LastIndexOfIs(p, '/', |dir|);
      assert p[..|dir|] == dir;
    }
  }

  /** A directory written with a trailing separator: the directory of the joined path drops that separator. */
  lemma DirnameOfJoinTrailing(dir: string, name: string)
    requires '/' !in name
    requires |dir| >= 2 && dir[|dir| - 1] == '/'
    ensures Dirname(Join(dir, name)) == dir[..|dir| - 1]
  {
    var p := dir + name;
    assert Join(dir, name) == p;
    forall i | |dir| - 1 < i < |p| ensures p[i] != '/' {
      assert p[i] == name[i - |dir|];
    }
    LastIndexOfIs(p, '/', |dir| - 1);
    assert p[..|dir| - 1] == dir[..|dir| - 1];
  }
}
