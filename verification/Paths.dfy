/** The parts of `System.IO.Path` the core relies on, on a platform whose
    directory separator is '/'. Path normalisation depends on the current
    directory and the original machine's disk is not visible, so those come
    in as the fields of a `Host`. */
module Paths {
  import opened Text

  /** What the model cannot see: `Path.GetFullPath`, `File.Exists` and
      `Directory.Exists` on the machine that recorded the build. */
  datatype Host = Host(
    getFullPath: string -> string,
    fileExists: string -> bool,
    directoryExists: string -> bool)

  const Separator: char := '/'

  /** `Path.IsPathRooted(p)`: `p` starts with a separator. */
  predicate IsPathRooted(p: string)
  {
    |p| > 0 && p[0] == Separator
  }

  /** `Path.Combine(a, b)`: an empty `b` yields `a`; an empty `a` or a
      rooted `b` yields `b`; otherwise the two are joined by exactly one
      separator. */
  function Combine(a: string, b: string): (r: string)
    ensures |b| == 0 ==> r == a
    ensures |b| > 0 && (|a| == 0 || IsPathRooted(b)) ==> r == b
    ensures |a| > 0 && |b| > 0 && !IsPathRooted(b) ==>
              r == if a[|a| - 1] == Separator then a + b else a + [Separator] + b
  {
    if |b| == 0 then a
    else if |a| == 0 || IsPathRooted(b) then b
    else if a[|a| - 1] == Separator then a + b
    else a + [Separator] + b
  }

  /** `Path.GetFileName(p)`: what follows the last separator. */
  function GetFileName(p: string): (r: string)
    ensures Separator !in r
    ensures |r| <= |p| && r == p[|p| - |r|..]
    ensures |r| < |p| ==> p[|p| - |r| - 1] == Separator
    ensures Separator !in p ==> r == p
  {
    var k := LastIndexOf(p, Separator);
    var r := p[k + 1..];
    assert Separator !in r by {
      forall j | 0 <= j < |r| ensures r[j] != Separator {
        assert r[j] == p[k + 1 + j];
      }
    }
    assert |r| == |p| - k - 1;
    r
  }

  /** `Path.GetExtension(p)`: the file name's suffix from its last '.', or
      empty when the name has no '.' or ends with it. */
  function GetExtension(p: string): string
  {
    ExtensionOf(GetFileName(p))
  }

  /** `Path.GetFileNameWithoutExtension(p)`: the file name up to its last '.'. */
  function GetFileNameWithoutExtension(p: string): string
  {
    StemOf(GetFileName(p))
  }

  /** The extension of a bare file name. */
  function ExtensionOf(name: string): string
  {
    var dot := LastIndexOf(name, '.');
    if dot < 0 || dot == |name| - 1 then "" else name[dot..]
  }

  /** A bare file name without its extension. */
  function StemOf(name: string): string
  {
    var dot := LastIndexOf(name, '.');
    if dot < 0 then name else name[..dot]
  }

  /** `Path.TrimEndingDirectorySeparator(p)`: drops one trailing separator
      unless `p` is the root itself. */
  function TrimEndingDirectorySeparator(p: string): (r: string)
    ensures |p| > 1 && p[|p| - 1] == Separator ==> p == r + [Separator]
    ensures !(|p| > 1 && p[|p| - 1] == Separator) ==> r == p
  {
    if |p| > 1 && p[|p| - 1] == Separator then p[..|p| - 1] else p
  }

  /** A file name is its stem followed by its extension, except that a name
      ending in '.' loses that '.' from both; neither part holds a separator,
      a non-empty extension starts with '.', and a name holding a '.' is cut
      at its last one. */
  lemma StemAndExtension(p: string)
    ensures var name, stem, ext := GetFileName(p), GetFileNameWithoutExtension(p), GetExtension(p);
      (name == stem + ext || (ext == "" && name == stem + ".")) &&
      Separator !in stem && Separator !in ext &&
      (ext != "" ==> ext[0] == '.' && '.' !in ext[1..]) &&
      ('.' !in name ==> stem == name && ext == "") &&
      ('.' in name ==> |stem| < |name| && name[|stem|] == '.' && '.' !in name[|stem| + 1..])
  {
    var name := GetFileName(p);
    NameParts(name);
    LastDotSplit(name);
    PlainNameParts(name);
  }

  /** How a bare name splits at its last '.'. */
  lemma NameParts(name: string)
    ensures var stem, ext := StemOf(name), ExtensionOf(name);
      (name == stem + ext || (ext == "" && name == stem + ".")) &&
      (ext != "" ==> ext[0] == '.')
  {
    var dot := LastIndexOf(name, '.');
    if dot >= 0 {
      assert name == name[..dot] + name[dot..];
      assert name[dot] == '.';
    }
  }

  /** The split is at the last '.': the extension has no other, and a name
      without any is all stem. */
  lemma LastDotSplit(name: string)
    ensures var stem, ext := StemOf(name), ExtensionOf(name);
      (ext != "" ==> '.' !in ext[1..]) &&
      ('.' !in name ==> stem == name && ext == "") &&
      ('.' in name ==> |stem| < |name| && name[|stem|] == '.' && '.' !in name[|stem| + 1..])
  {
    var dot := LastIndexOf(name, '.');
    if '.' in name {
      var i :| 0 <= i < |name| && name[i] == '.';
      assert dot >= i;
      var rest := name[dot + 1..];
      forall j | 0 <= j < |rest|
        ensures rest[j] != '.'
      {
        assert rest[j] == name[dot + 1 + j];
      }
    }
    if dot >= 0 && dot < |name| - 1 {
      var tail := name[dot..][1..];
      forall j | 0 <= j < |tail|
        ensures tail[j] != '.'
      {
        assert tail[j] == name[dot + 1 + j];
      }
    }
  }

  /** The parts of a name without separators have none either. */
  lemma PlainNameParts(name: string)
    requires Separator !in name
    ensures Separator !in StemOf(name) && Separator !in ExtensionOf(name)
  {
    var dot := LastIndexOf(name, '.');
    if dot >= 0 {
      NotInSlice(name, 0, dot, Separator);
      assert name[0..dot] == name[..dot];
      NotInSlice(name, dot, |name|, Separator);
      assert name[dot..|name|] == name[dot..];
    }
  }

  /** Below a directory whose name is non-empty and does not end with a
      separator, distinct non-empty plain names give distinct paths. */
  lemma CombineInjective(dir: string, a: string, b: string)
    requires |dir| > 0 && dir[|dir| - 1] != Separator
    requires |a| > 0 && |b| > 0 && Separator !in a && Separator !in b
    requires Combine(dir, a) == Combine(dir, b)
    ensures a == b
  {
    var prefix := dir + [Separator];
    assert a[0] in a && b[0] in b;
    assert a == (prefix + a)[|prefix|..];
    assert b == (prefix + b)[|prefix|..];
  }

  /** A file name is never rooted: it holds no separator at all. */
  lemma FileNameNotRooted(p: string)
    ensures !IsPathRooted(GetFileName(p))
  {
    var f := GetFileName(p);
    assert |f| > 0 ==> f[0] in f;
  }

  /** A plain name put below a directory is the file name of the result;
      below a non-empty directory not ending in a separator, exactly one
      separator joins the two. */
  lemma CombinePlainName(dir: string, name: string)
    requires |name| > 0 && Separator !in name
    ensures GetFileName(Combine(dir, name)) == name
    ensures |dir| > 0 && dir[|dir| - 1] != Separator ==> Combine(dir, name) == dir + [Separator] + name
  {
    assert name[0] in name;
    var p := Combine(dir, name);
    var prefix := p[..|p| - |name|];
    assert p == prefix + name;
    FileNameAfterSeparator(prefix, name);
  }

  /** A plain name after a separator (or alone) is the file name. */
  lemma FileNameAfterSeparator(prefix: string, name: string)
    requires |name| > 0 && Separator !in name
    requires |prefix| > 0 ==> prefix[|prefix| - 1] == Separator
    ensures GetFileName(prefix + name) == name
  {
    var p := prefix + name;
    forall j | |prefix| <= j < |p|
      ensures p[j] != Separator
    {
      assert p[j] == name[j - |prefix|];
    }
    var r := GetFileName(p);
    assert |r| < |name| ==> p[|p| - |r| - 1] != Separator;
    assert p[|prefix|..] == name;
  }

  /** A directory path whose last segment is non-empty is named by that
      segment, whether or not one trailing separator follows it. */
  lemma TrimmedDirectoryName(p: string)
    requires |GetFileName(p)| > 0
    ensures GetFileName(TrimEndingDirectorySeparator(p + [Separator])) == GetFileName(p)
    ensures GetFileName(TrimEndingDirectorySeparator(p)) == GetFileName(p)
  {
    var q := p + [Separator];
    assert q[..|q| - 1] == p;
    var r := GetFileName(p);
    assert p[|p| - 1] == r[|r| - 1];
    assert r[|r| - 1] in r;
  }
}
