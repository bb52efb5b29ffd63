/**
 * Where downloaded images go: the choice of destination kind from the
 * destination path (newDst), and the name a cached file receives inside
 * the destination (the naming branch of copyFileToDst).
 */
module Sink {
  import opened Wrappers
  import opened GoStrings
  import opened FilePath
  import CacheStore

  /** A destination: a directory tree, or a zip archive written in one go. */
  datatype Destination = DirDst(dir: string) | ZipDst(archive: string)

  /** A downloaded file: its path in the cache and the URL it came from. */
  datatype File = File(path: string, url: string)

  const Unsupported: string := "unsupported destination"

  /**
   * newDst after filepath.Abs, which returns a clean absolute path: no
   * extension selects a directory, ".zip" an archive, and every other
   * extension is refused.
   */
  function NewDst(dst: string): (r: Result<Destination>)
    requires IsAbsClean(dst)
    ensures r == Ok(DirDst(dst)) <==> '.' !in LastElement(dst)
    ensures r == Ok(ZipDst(dst)) <==> HasSuffix(dst, ".zip")
    ensures r.Err? <==> '.' in LastElement(dst) && !HasSuffix(dst, ".zip")
    ensures r.Err? ==> r.msg == Unsupported
  {
    ZipExtension(dst);
    var ext := Ext(dst);
    if ext == "" then Ok(DirDst(dst))
    else if ext == ".zip" then Ok(ZipDst(dst))
    else Err(Unsupported)
  }

  /** A path has the extension ".zip" exactly when it ends in ".zip". */
  lemma ZipExtension(p: string)
    ensures Ext(p) == ".zip" <==> HasSuffix(p, ".zip")
  {
    var l := LastElement(p);
    if HasSuffix(p, ".zip") {
      ExtOfSuffix(p, ".zip");
    }
    if Ext(p) == ".zip" {
      assert p[|p| - 4..] == l[|l| - 4..];
    }
  }

  /** Archive formats other than zip, such as ".tar" and ".tar.gz", are refused. */
  lemma TarIsUnsupported(dst: string)
    requires IsAbsClean(dst)
    requires HasSuffix(dst, ".tar") || HasSuffix(dst, ".gz")
    ensures NewDst(dst) == Err(Unsupported)
  {
    if HasSuffix(dst, ".tar") {
      ExtOfSuffix(dst, ".tar");
    } else {
      ExtOfSuffix(dst, ".gz");
    }
  }

  /** A dot in a parent directory does not make the destination an archive. */
  lemma DottedParentIsDirectory(parent: string, name: string)
    requires '.' !in name && Separator !in name
    requires IsAbsClean(parent + [Separator] + name)
    ensures NewDst(parent + [Separator] + name) == Ok(DirDst(parent + [Separator] + name))
  {
    LastElementAfterSeparator(parent, name);
  }

  /** The hierarchical name: the URL without a leading "http://", then without a leading "https://". */
  function HierarchicalName(url: string): (r: string)
    ensures |r| <= |url| && url[|url| - |r|..] == r
    ensures r == url <==> !HasPrefix(url, "http://") && !HasPrefix(url, "https://")
    ensures HasPrefix(url, "https://") ==> "https://" + r == url
    ensures HasPrefix(url, "http://") && !HasPrefix(url[7..], "https://") ==> "http://" + r == url
  {
    HttpsIsNotHttp(url);
    TrimPrefix(TrimPrefix(url, "http://"), "https://")
  }

  lemma HttpsIsNotHttp(url: string)
    ensures HasPrefix(url, "https://") ==> !HasPrefix(url, "http://")
  {
    if HasPrefix(url, "https://") {
      assert url[4] == "https://"[4] != "http://"[4];
    }
  }

  lemma HierarchicalNameOfHttps()
    ensures HierarchicalName("https://a.test/img/x.png") == "a.test/img/x.png"
  {
    assert HasPrefix("https://a.test/img/x.png", "https://");
  }

  /** Both prefixes are removed, in this order, when the URL carries both. */
  lemma HierarchicalNameStripsBoth()
    ensures HierarchicalName("http://https://a/x.png") == "a/x.png"
  {
    var u := "http://https://a/x.png";
    assert HasPrefix(u, "http://");
    assert u[7..] == "https://a/x.png";
    assert HasPrefix(u[7..], "https://");
  }

  /**
   * The name of a file inside the destination as copyFileToDst computes it:
   * the base of the cached path when flat, else the hierarchical name.
   */
  function DstFileName(flat: bool, f: File): (r: string)
    ensures flat ==> r != [] && (r == [Separator] || Separator !in r)
    ensures !flat ==> |r| <= |f.url| && f.url[|f.url| - |r|..] == r
  {
    if flat then Base(f.path) else HierarchicalName(f.url)
  }

  /** The flat name of a file cached by the downloader is the encoded name of its URL. */
  lemma FlatNameIsCacheName(root: string, url: string)
    requires IsClean(root) && url != []
    ensures DstFileName(true, File(CacheStore.CachePath(root, url), url)) == CacheStore.Base64Filename(url)
  {
  }

  /**
   * A name that stays inside any directory it is joined onto: its clean
   * form does not start with ".." and is not empty.
   */
  predicate IsLocal(name: string) {
    var c := CleanName(name);
    c.ups == 0 && c.rest != []
  }

  /**
   * A local name, joined onto any destination directory, designates an
   * entry strictly inside that directory.
   */
  lemma LocalNameStaysBelow(dst: string, name: string)
    requires IsLocal(name)
    ensures Below(dst, name)
  {
    JoinedRelative(dst, name);
    var d := Resolve([], Split(dst));
    assert Drop(d, 0) == d;
  }

  /**
   * A name that is not local leaves some destination directory: one whose
   * last elements differ from what the name climbs back into.
   */
  lemma EscapingNameLeaves(name: string) returns (dst: string)
    requires !IsLocal(name)
    ensures IsAbsClean(dst) && !Below(dst, name)
  {
    var c := CleanName(name);
    var w := if c.rest == [] then "x" else c.rest[0] + "x";
    if c.rest != [] {
      assert c.rest[0] in c.rest;
      assert w[|w| - 1] == 'x' && |w| == |c.rest[0]| + 1;
    }
    var n := if c.ups == 0 then 1 else c.ups;
    dst := Nested(w, n);
    NestedIsAbsClean(w, n);
    ResolveNested(w, n);
    JoinedRelative(dst, name);
    var d := Repeat(w, n);
    if c.ups == 0 {
      assert Drop(d, 0) + c.rest == d;
    } else {
      assert Drop(d, c.ups) + c.rest == c.rest;
      assert d[0] in d;
    }
  }

  /**
   * A name is local exactly when it stays below every destination directory
   * newDst can select.
   */
  lemma LocalExactly(name: string)
    ensures IsLocal(name) <==> forall dst :: IsAbsClean(dst) ==> Below(dst, name)
    ensures IsLocal(name) ==> forall dst :: Below(dst, name)
  {
    if IsLocal(name) {
      forall dst ensures Below(dst, name) {
        LocalNameStaysBelow(dst, name);
      }
    } else {
      var dst := EscapingNameLeaves(name);
    }
  }

  /**
   * The destination name with the check the copy evidently intends: a name
   * is refused exactly when it would leave some destination directory.
   */
  function LocalDstFileName(flat: bool, f: File): (r: Option<string>)
    ensures r.Some? <==> forall dst :: IsAbsClean(dst) ==> Below(dst, DstFileName(flat, f))
    ensures r.Some? ==> r.value == DstFileName(flat, f) && forall dst :: Below(dst, r.value)
  {
    var name := DstFileName(flat, f);
    LocalExactly(name);
    if IsLocal(name) then Some(name) else None
  }

  /** In flat mode every file the downloader caches passes the check unchanged. */
  lemma FlatCacheNamesAreLocal(root: string, url: string)
    requires IsClean(root) && url != []
    ensures LocalDstFileName(true, File(CacheStore.CachePath(root, url), url)) == Some(CacheStore.Base64Filename(url))
  {
    FlatNameIsCacheName(root, url);
    NamedElementIsLocal(CacheStore.Base64Filename(url));
    LocalExactly(CacheStore.Base64Filename(url));
  }

  /** A single named element is a local name. */
  lemma NamedElementIsLocal(name: string)
    requires IsNamedElement(name)
    ensures IsLocal(name)
  {
    SplitNoSeparator(name);
    assert [name] == [name] + [];
    CleanNamed(Relative(0, []), name, []);
  }

  /**
   * A ".." that only undoes an element of the name itself keeps the name
   * inside: "a/b/../x" is local.
   */
  lemma InnerParentIsLocal(a: string, b: string, x: string)
    requires IsNamedElement(a) && IsNamedElement(b) && IsNamedElement(x)
    ensures IsLocal(a + "/" + b + "/../" + x)
  {
    SplitInnerParent(a, b, x);
    CleanNamed(Relative(0, []), a, [b] + ([".."] + [x]));
    CleanNamed(Relative(0, [a]), b, [".."] + [x]);
    assert [] + [a] == [a] && [a] + [b] == [a, b];
    CleanParent(Relative(0, [a, b]), [x]);
    assert [a, b][..1] == [a];
    assert [x] == [x] + [];
    CleanNamed(Relative(0, [a]), x, []);
    assert CleanName(a + "/" + b + "/../" + x) == Relative(0, [a] + [x]);
  }

  lemma CleanNamed(st: Relative, e: string, rest: seq<string>)
    requires forall z :: z in st.rest ==> IsNamedElement(z)
    requires IsNamedElement(e)
    ensures CleanRelative(st, [e] + rest) == CleanRelative(Relative(st.ups, st.rest + [e]), rest)
  {
    assert ([e] + rest)[1..] == rest;
  }

  lemma CleanParent(st: Relative, rest: seq<string>)
    requires forall z :: z in st.rest ==> IsNamedElement(z)
    requires st.rest != []
    ensures CleanRelative(st, [".."] + rest) == CleanRelative(Relative(st.ups, st.rest[..|st.rest| - 1]), rest)
  {
    assert ([".."] + rest)[1..] == rest;
  }

  lemma SplitInnerParent(a: string, b: string, x: string)
    requires IsNamedElement(a) && IsNamedElement(b) && IsNamedElement(x)
    ensures Split(a + "/" + b + "/../" + x) == [a] + ([b] + ([".."] + [x]))
  {
    var up := "..";
    SplitTwo(a, b);
    SplitTwo(up, x);
    SplitAtSeparator(a + [Separator] + b, up + [Separator] + x);
    InnerParentLiteral();
    ConcatInnerParent(a, b, up, x);
  }

  lemma InnerParentLiteral()
    ensures "/" == [Separator] && "/../" == [Separator] + ".." + [Separator]
  {
  }

  lemma ConcatInnerParent(a: string, b: string, up: string, x: string)
    ensures a + [Separator] + b + ([Separator] + up + [Separator]) + x
         == (a + [Separator] + b) + [Separator] + (up + [Separator] + x)
  {
  }

  /**
   * As written, a name of the form "a/../../x" climbs out of every
   * destination directory other than the root: joined onto it, it lands
   * beside the destination instead of inside it.
   */
  lemma ParentElementsEscape(dst: string, a: string, x: string)
    requires IsNamedElement(a) && IsNamedElement(x)
    requires Resolve([], Split(dst)) != []
    ensures var d := Resolve([], Split(dst));
      JoinedElements(dst, a + "/../../" + x) == d[..|d| - 1] + [x]
    ensures !Below(dst, a + "/../../" + x)
    ensures !IsLocal(a + "/../../" + x)
  {
    var name := a + "/../../" + x;
    var d := Resolve([], Split(dst));
    SplitClimb(a, x);
    ResolveAppend([], Split(dst), Split(name));
    ResolveClimb(d, a, x);
    if IsLocal(name) {
      LocalNameStaysBelow(dst, name);
    }
  }

  lemma SplitClimb(a: string, x: string)
    requires IsNamedElement(a) && IsNamedElement(x)
    ensures Split(a + "/../../" + x) == [a] + ([".."] + ([".."] + [x]))
  {
    var up := "..";
    SplitTwo(up, x);
    SplitTwo(a, up);
    SplitAtSeparator(a + [Separator] + up, up + [Separator] + x);
    ClimbLiteral();
    ConcatClimb(a, up, x);
  }

  lemma SplitTwo(a: string, b: string)
    requires Separator !in a && Separator !in b
    ensures Split(a + [Separator] + b) == [a, b]
  {
    SplitAtSeparator(a, b);
    SplitNoSeparator(a);
    SplitNoSeparator(b);
  }

  lemma ClimbLiteral()
    ensures "/../../" == [Separator] + ".." + [Separator] + ".." + [Separator]
  {
  }

  lemma ConcatClimb(a: string, up: string, x: string)
    ensures a + ([Separator] + up + [Separator] + up + [Separator]) + x
         == (a + [Separator] + up) + [Separator] + (up + [Separator] + x)
  {
  }

  lemma ResolveClimb(d: seq<string>, a: string, x: string)
    requires forall e :: e in d ==> IsNamedElement(e)
    requires IsNamedElement(a) && IsNamedElement(x) && d != []
    ensures Resolve(d, [a] + ([".."] + ([".."] + [x]))) == d[..|d| - 1] + [x]
  {
    ResolveNamed(d, a, [".."] + ([".."] + [x]));
    assert (d + [a])[..|d|] == d;
    ResolveParent(d + [a], [".."] + [x]);
    ClimbTail(d, x);
  }

  lemma ClimbTail(d: seq<string>, x: string)
    requires forall e :: e in d ==> IsNamedElement(e)
    requires IsNamedElement(x) && d != []
    ensures Resolve(d, [".."] + [x]) == d[..|d| - 1] + [x]
  {
    var d' := d[..|d| - 1];
    assert forall e :: e in d' ==> e in d;
    ResolveParent(d, [x]);
    ResolveNamed(d', x, []);
    assert [x] + [] == [x];
  }

  lemma ResolveNamed(acc: seq<string>, e: string, rest: seq<string>)
    requires forall z :: z in acc ==> IsNamedElement(z)
    requires IsNamedElement(e)
    ensures Resolve(acc, [e] + rest) == Resolve(acc + [e], rest)
  {
    assert ([e] + rest)[1..] == rest;
  }

  lemma ResolveParent(acc: seq<string>, rest: seq<string>)
    requires forall z :: z in acc ==> IsNamedElement(z)
    requires acc != []
    ensures Resolve(acc, [".."] + rest) == Resolve(acc[..|acc| - 1], rest)
  {
    assert ([".."] + rest)[1..] == rest;
  }


  /** The name "a/../../x.png" is not local. */
  lemma DotDotNameIsNotLocal()
    ensures !IsLocal("a" + "/../../" + "x.png")
  {
    ResolveNested("d", 1);
    ParentElementsEscape(Nested("d", 1), "a", "x.png");
  }

  /** The page URL "http://a/../../x.png" yields exactly such a name. */
  lemma DotDotUrlName()
    ensures DstFileName(false, File("/tmp/imaget/cached.png", "http://a/../../x.png")) == "a" + "/../../" + "x.png"
  {
    var u := "http://a/../../x.png";
    DotDotUrlParts();
    assert HierarchicalName(u) == u[7..];
  }

  lemma DotDotUrlParts()
    ensures var u := "http://a/../../x.png";
      HasPrefix(u, "http://") && u[7..] == "a" + "/../../" + "x.png" && !HasPrefix(u[7..], "https://")
  {
    var u := "http://a/../../x.png";
    assert u[7..][0] == 'a';
  }
}
