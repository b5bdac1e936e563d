/** File paths as strings with `/` separators, and the file system as a map
    from path to content. */
module Paths {
  import opened Strings

  type Path = string

  newtype byte = x: int | 0 <= x < 256

  type Bytes = seq<byte>

  /** The files that exist, with their contents. */
  type Disk = map<Path, Bytes>

  /** Index of the last `c` in `s`, or -1. */
  function LastIndexOf(s: string, c: char): (i: int)
    ensures -1 <= i < |s|
    ensures i >= 0 ==> s[i] == c
    ensures forall k :: i < k < |s| ==> s[k] != c
  {
    if |s| == 0 then -1
    else if s[|s| - 1] == c then |s| - 1
    else LastIndexOf(s[..|s| - 1], c)
  }

  /** `FileInfo::getName()`: the part after the last `/`. */
  function FileName(p: Path): (r: string)
    ensures '/' !in r && IsSuffix(r, p)
  {
    p[LastIndexOf(p, '/') + 1..]
  }

  /** `FileInfo::getFolder()`: the part before the last `/` ("" for a bare name). */
  function Dir(p: Path): (r: Path)
    ensures IsPrefix(r, p) && |r| < |p| + 1
  {
    var i := LastIndexOf(p, '/');
    if i < 0 then "" else p[..i]
  }

  /** The name of the folder a file sits in. */
  function FolderName(p: Path): string
  {
    FileName(Dir(p))
  }

  /** Building a path from a folder and a name, then taking it apart again,
      gives the folder and the name back. */
  lemma DirFileName(d: Path, n: string)
    requires '/' !in n
    ensures Dir(d + "/" + n) == d
    ensures FileName(d + "/" + n) == n
  {
    var p := d + "/" + n;
    assert p[|d|] == '/';
    var i := LastIndexOf(p, '/');
    assert i == |d| by {
      assert forall k :: |d| < k < |p| ==> p[k] == n[k - |d| - 1];
    }
    assert p[..i] == d;
    assert p[i + 1..] == n;
  }

  /** A path with a separator is its folder, `/` and its name. */
  lemma PathSplit(p: Path)
    requires '/' in p
    ensures p == Dir(p) + "/" + FileName(p)
  {
    var i := LastIndexOf(p, '/');
    assert i >= 0 by {
      var k :| 0 <= k < |p| && p[k] == '/';
    }
    assert p == p[..i] + [p[i]] + p[i + 1..];
  }

  /** `pathinfo($path, PATHINFO_FILENAME)`: the file name without its last
      extension. */
  function BaseName(p: Path): (r: string)
    ensures IsPrefix(r, FileName(p))
  {
    var n := FileName(p);
    var i := LastIndexOf(n, '.');
    if i < 0 then n else n[..i]
  }

  /** The base name of `folder/name.ext` is `name`. */
  lemma BaseNameOf(d: Path, n: string, ext: string)
    requires '/' !in n && '/' !in ext && '.' !in ext
    ensures BaseName(d + "/" + n + "." + ext) == n
  {
    var f := n + "." + ext;
    assert d + "/" + n + "." + ext == d + "/" + f;
    DirFileName(d, f);
    assert f[|n|] == '.';
    var i := LastIndexOf(f, '.');
    assert i == |n| by {
      assert forall k :: |n| < k < |f| ==> f[k] == ext[k - |n| - 1];
    }
    assert f[..i] == n;
  }
}
