/**
 * Path helpers of pipeline/pdf2txt.py: `reextension`, built on
 * `os.path.splitext` (the POSIX flavour, separator '/', extension separator
 * '.'), and `os.path.basename`.
 */
module Paths {
  import opened Text

  /** `str.rfind` for one character: the last index of `c` in `s`, or -1. */
  function RFind(s: string, c: char): (k: int)
    ensures -1 <= k < |s|
    ensures k >= 0 ==> s[k] == c
    ensures forall j :: k < j < |s| ==> s[j] != c
  {
    if s == [] then -1
    else if s[|s| - 1] == c then |s| - 1
    else RFind(s[..|s| - 1], c)
  }

  /** Some character of `p` strictly between indices `lo` and `hi` is not a dot. */
  predicate HasNonDot(p: string, lo: int, hi: int)
    requires -1 <= lo && hi <= |p|
  {
    exists j :: lo < j < hi && p[j] != '.'
  }

  /**
   * The root that `os.path.splitext` returns: the path without its final
   * extension. An extension starts at the last dot of the last path
   * component, provided that some character before that dot in the component
   * is not a dot (so ".bashrc" and ".." have no extension).
   */
  function Root(p: string): (root: string)
    ensures |root| <= |p| && root == p[..|root|]
    ensures root != p ==> p[|root|] == '.'
    ensures root != p ==> forall j :: |root| < j < |p| ==> p[j] != '.' && p[j] != '/'
    ensures root != p ==> HasNonDot(p, RFind(p, '/'), |root|)
  {
    var sep := RFind(p, '/');
    var dot := RFind(p, '.');
    if dot > sep && HasNonDot(p, sep, dot) then p[..dot] else p
  }

  /** The extension part of `os.path.splitext`: empty, or a dot and what follows it. */
  function Ext(p: string): (ext: string)
    ensures Root(p) + ext == p
    ensures ext == [] || (ext[0] == '.' && '.' !in ext[1..] && '/' !in ext[1..])
  {
    var ext := p[|Root(p)|..];
    assert forall j :: 1 <= j < |ext| ==> ext[j] == p[|Root(p)| + j];
    ext
  }

  /** `reextension(filename, extension)`: `'{}.{}'.format(root, extension)`. */
  function Reextension(filename: string, extension: string): string
  {
    Root(filename) + "." + extension
  }

  /** `os.path.basename`: what follows the last '/'. */
  function Basename(p: string): (b: string)
    ensures '/' !in b
    ensures EndsWith(p, b)
  {
    var k := RFind(p, '/') + 1;
    var b := p[k..];
    assert |p| - |b| == k;
    assert forall j :: 0 <= j < |b| ==> b[j] == p[k + j] != '/';
    b
  }

  /** `os.path.join(dir, name)` for two parts. */
  function PathJoin(dir: string, name: string): (p: string)
    ensures '/' !in name && name != [] ==> Basename(p) == name
  {
    if StartsWith(name, "/") then name
    else if dir == [] || dir[|dir| - 1] == '/' then
      BasenameOfJoin(dir, name);
      dir + name
    else
      BasenameOfJoin(dir + "/", name);
      dir + "/" + name
  }

  lemma BasenameOfJoin(dir: string, name: string)
    requires dir == [] || dir[|dir| - 1] == '/'
    ensures '/' !in name && name != [] ==> Basename(dir + name) == name
  {
    if '/' in name || name == [] {
      return;
    }
    var p := dir + name;
    RFindAppend(dir, name, '/');
    assert RFind(dir, '/') == |dir| - 1;
    assert p[|dir|..] == name;
  }

  /** The last component of `p` holds a character other than a dot. */
  predicate HasStem(p: string) {
    HasNonDot(p, RFind(p, '/'), |p|)
  }

  /** Appending text that has no '/' leaves the last '/' where it was. */
  lemma {:induction false} RFindAppend(s: string, t: string, c: char)
    requires c !in t
    ensures RFind(s + t, c) == RFind(s, c)
  {
    if t == [] {
      assert s + t == s;
    } else {
      assert (s + t)[|s + t| - 1] == t[|t| - 1] != c;
      assert (s + t)[..|s + t| - 1] == s + t[..|t| - 1];
      RFindAppend(s, t[..|t| - 1], c);
    }
  }

  /** A path with a stem, followed by a dot and an extension, splits back into that path and extension. */
  lemma RootOfExtended(r: string, e: string)
    requires HasStem(r)
    requires '.' !in e && '/' !in e
    ensures Root(r + "." + e) == r
  {
    var g := r + "." + e;
    assert g == r + ("." + e);
    RFindAppend(r, "." + e, '/');
    assert RFind(g, '.') == |r| by {
      assert g[|r|] == '.';
      assert forall j :: |r| < j < |g| ==> g[j] == e[j - |r| - 1];
    }
    var sep := RFind(r, '/');
    var j :| sep < j < |r| && r[j] != '.';
    assert g[j] == r[j];
    assert HasNonDot(g, sep, |r|);
    assert g[..|r|] == r;
  }

  /** Re-extending with a new extension keeps the root of the path: the extension is all that changes. */
  lemma RootOfReextension(f: string, e: string)
    requires HasStem(f)
    requires '.' !in e && '/' !in e
    ensures Root(Reextension(f, e)) == Root(f)
  {
    var root := Root(f);
    var sep := RFind(root, '/');
    assert sep == RFind(f, '/') by {
      if root != f {
        assert f == root + f[|root|..];
        RFindAppend(root, f[|root|..], '/');
      }
    }
    assert HasStem(root) by {
      if root == f {
        var j :| sep < j < |f| && f[j] != '.';
      } else {
        var j :| sep < j < |root| && f[j] != '.';
        assert root[j] == f[j];
      }
    }
    RootOfExtended(root, e);
  }

  /**
   * Re-extending twice is re-extending once with the second extension, when
   * the last path component has a stem and the first extension has no dot or
   * slash.
   */
  lemma ReextensionTwice(f: string, e1: string, e2: string)
    requires HasStem(f)
    requires '.' !in e1 && '/' !in e1
    ensures Reextension(Reextension(f, e1), e2) == Reextension(f, e2)
  {
    RootOfReextension(f, e1);
  }

  /** Different extensions give different paths. */
  lemma ReextensionInjective(f: string, e1: string, e2: string)
    requires e1 != e2
    ensures Reextension(f, e1) != Reextension(f, e2)
  {
    var root := Root(f);
    if |e1| == |e2| {
      var j :| 0 <= j < |e1| && e1[j] != e2[j];
      assert Reextension(f, e1)[|root| + 1 + j] == e1[j];
      assert Reextension(f, e2)[|root| + 1 + j] == e2[j];
    }
  }
}
