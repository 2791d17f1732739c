/**
 * Node's path.extname on POSIX paths: the extension of the last path component,
 * from its last '.' to its end, with trailing '/' ignored; "" when the component
 * has no '.', when its only '.' is its first character, or when it is "..".
 */
module PosixPath {
  import opened Wrappers
  import opened Text

  predicate NoSlash(s: string)
  {
    forall j :: 0 <= j < |s| ==> s[j] != '/'
  }

  /** No '.' after the first character. */
  predicate NoInnerDot(s: string)
  {
    forall j :: 0 < j < |s| ==> s[j] != '.'
  }

  /** The path with every trailing '/' removed. */
  function TrimTrailingSlashes(p: string): (r: string)
    ensures r == [] || r[|r| - 1] != '/'
  {
    if p != [] && p[|p| - 1] == '/' then TrimTrailingSlashes(p[..|p| - 1]) else p
  }

  /** The last path component: what follows the last '/' once trailing '/' are gone. */
  function LastComponent(p: string): (name: string)
    ensures NoSlash(name)
  {
    var t := TrimTrailingSlashes(p);
    match LastIndexOf(t, '/')
    case None => t
    case Some(k) => t[k + 1..]
  }

  /** The extension of a single path component. */
  function ComponentExt(name: string): (ext: string)
    ensures ext == [] || (ext[0] == '.' && NoInnerDot(ext))
    ensures NoSlash(name) ==> NoSlash(ext)
  {
    match LastIndexOf(name, '.')
    case None => ""
    case Some(d) =>
      if d == 0 || name == ".." then ""
      else
        assert forall j :: 0 <= j < |name| - d ==> name[d..][j] == name[d + j];
        name[d..]
  }

  function ExtName(p: string): (ext: string)
    ensures ext == [] || (ext[0] == '.' && NoInnerDot(ext))
    ensures NoSlash(ext)
  {
    ComponentExt(LastComponent(p))
  }

  /** A component that ends in a '.'-led suffix with no further '.' has that suffix as its extension. */
  lemma ComponentExtOfSuffix(stem: string, ext: string)
    requires stem != []
    requires ext != [] && ext[0] == '.' && NoInnerDot(ext)
    requires stem + ext != ".."
    ensures ComponentExt(stem + ext) == ext
  {
    var name := stem + ext;
    assert forall j :: |stem| < j < |name| ==> name[j] == ext[j - |stem|];
    LastIndexOfUnique(name, '.', |stem|);
    assert name[|stem|..] == ext;
  }

  /** The last component of a path that ends in a slash-free, non-empty name is that name. */
  lemma {:induction false} LastComponentOf(prefix: string, name: string)
    requires prefix == [] || prefix[|prefix| - 1] == '/'
    requires name != [] && NoSlash(name)
    ensures LastComponent(prefix + name) == name
  {
    var p := prefix + name;
    assert p[|p| - 1] == name[|name| - 1];
    assert TrimTrailingSlashes(p) == p;
    if prefix == [] {
      assert p == name;
    } else {
      assert forall j :: |prefix| <= j < |p| ==> p[j] == name[j - |prefix|];
      LastIndexOfUnique(p, '/', |prefix| - 1);
      assert p[|prefix|..] == name;
    }
  }

  /** When the last component has a '.' that is not its first character, the extension is its final suffix from that '.'. */
  lemma ExtNameOfComponent(prefix: string, stem: string, ext: string)
    requires prefix == [] || prefix[|prefix| - 1] == '/'
    requires stem != [] && NoSlash(stem)
    requires ext != [] && ext[0] == '.' && NoSlash(ext) && NoInnerDot(ext)
    requires stem + ext != ".."
    ensures ExtName(prefix + stem + ext) == ext
  {
    assert prefix + stem + ext == prefix + (stem + ext);
    LastComponentOf(prefix, stem + ext);
    ComponentExtOfSuffix(stem, ext);
  }

  /** The same, for a bare file name. */
  lemma ExtNameOfFileName(stem: string, ext: string)
    requires stem != [] && NoSlash(stem)
    requires ext != [] && ext[0] == '.' && NoSlash(ext) && NoInnerDot(ext)
    requires stem + ext != ".."
    ensures ExtName(stem + ext) == ext
  {
    var name := stem + ext;
    assert NoSlash(name) by {
      assert forall j :: |stem| <= j < |name| ==> name[j] == ext[j - |stem|];
    }
    NoSlashComponent(name);
    ComponentExtOfSuffix(stem, ext);
  }

  /** A non-empty name without '/' is its own last component. */
  lemma NoSlashComponent(name: string)
    requires name != [] && NoSlash(name)
    ensures LastComponent(name) == name
  {
    assert TrimTrailingSlashes(name) == name;
  }

  /** Trailing '/' do not change the extension. */
  lemma TrailingSlashIgnored(p: string)
    ensures ExtName(p + ['/']) == ExtName(p)
  {
    var q := p + ['/'];
    assert q[..|q| - 1] == p;
    assert TrimTrailingSlashes(q) == TrimTrailingSlashes(p);
    assert LastComponent(q) == LastComponent(p);
  }

  /** A component with no '.' at all, or whose only '.' leads it, has no extension. */
  lemma NoExtension(name: string)
    requires NoSlash(name) && NoInnerDot(name)
    ensures ExtName(name) == ""
  {
    assert TrimTrailingSlashes(name) == name;
    assert LastComponent(name) == name;
  }

  /** The extension keeps its case. */
  lemma ExtNameKeepsCase()
    ensures ExtName("A.PNG") == ".PNG"
  {
    ExtNameOfComponent("", "A", ".PNG");
    assert "" + "A" + ".PNG" == "A.PNG";
  }

  /** A leading '.' does not start an extension. */
  lemma ExtNameDotfile()
    ensures ExtName(".png") == ""
  {
    var p := ".png";
    assert forall j :: 0 < j < |p| ==> p[j] in "png";
    NoExtension(p);
  }
}
