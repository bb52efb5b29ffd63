/**
 * Where a download is cached: a file directly under the cache root whose
 * name is derived from the image URL alone (imaget.go, base64Filename and
 * the request built in downloadImage).
 */
module CacheStore {
  import opened FilePath
  import Utf8
  import Base64
  import opened Wrappers

  /**
   * base64Filename: the URL-safe base64 text of the URL's UTF-8 bytes
   * followed by the URL's extension. It is one file-name element.
   */
  function Base64Filename(url: string): (r: string)
    ensures Separator !in r
    ensures r == [] <==> url == []
    ensures url != [] ==> IsNamedElement(r)
  {
    var b := Utf8.Encode(url);
    var e := Base64.Encode(b);
    Base64.EncodeHasNoDotOrSeparator(b);
    var r := e + Ext(url);
    NoDotStart(e, Ext(url));
    r
  }

  lemma NoDotStart(e: string, x: string)
    requires '.' !in e
    ensures e != [] ==> (e + x)[0] == e[0] && (e + x)[0] != '.'
  {
    if e != [] {
      assert e[0] in e;
    }
  }

  lemma Base64FilenameParts(url: string)
    ensures Base64Filename(url) == Base64.Encode(Utf8.Encode(url)) + Ext(url)
  {
  }

  /**
   * The cache file of `url`: filepath.Join(tmpDir, base64Filename(url)).
   * The cache root tmpDir is itself built by filepath.Join, so it is clean.
   */
  function CachePath(root: string, url: string): (r: string)
    requires IsClean(root)
    ensures url != [] ==> |r| > |root| + 1 && r[..|root|] == root && r[|root|] == Separator
    ensures url != [] ==> Separator !in r[|root| + 1..] && Base(r) == Base64Filename(url)
  {
    JoinElement(root, Base64Filename(url))
  }

  /**
   * The name starts with the base64 text of the URL's bytes, 4 characters
   * per started group of 3 bytes, which decodes back to the URL; the rest
   * of the name is the URL's extension.
   */
  lemma Base64FilenameDecodes(url: string)
    ensures var r := Base64Filename(url);
            var k := 4 * ((|Utf8.Encode(url)| + 2) / 3);
            && k <= |r|
            && (forall i :: 0 <= i < k ==> Base64.IsAlphabetChar(r[i]) || r[i] == Base64.Pad)
            && Base64.Decode(r[..k]) == Some(Utf8.Encode(url))
            && Utf8.Decode(Base64.Decode(r[..k]).value) == Some(url)
            && r[k..] == Ext(url)
  {
    var r := Base64Filename(url);
    var e := Base64.Encode(Utf8.Encode(url));
    Base64FilenameParts(url);
    Base64.EncodeHasNoDotOrSeparator(Utf8.Encode(url));
    assert r[..|e|] == e;
    assert r[|e|..] == Ext(url);
    Base64.DecodeEncode(Utf8.Encode(url));
    Utf8.DecodeEncode(url);
  }

  /** For an ASCII URL (every URL the image pattern matches) the encoded part has 4 * ceil(|url| / 3) characters. */
  lemma Base64FilenameAsciiLength(url: string)
    requires forall i :: 0 <= i < |url| ==> (url[i] as int) < 0x80
    ensures |Base64Filename(url)| == 4 * ((|url| + 2) / 3) + |Ext(url)|
  {
    Base64FilenameParts(url);
    Utf8.EncodeAscii(url);
  }

  /** The index of the first dot of `w`, or its length when it has none. */
  function FirstDot(w: string): (k: nat)
    ensures k <= |w| && '.' !in w[..k]
    ensures k < |w| ==> w[k] == '.'
  {
    if w == [] || w[0] == '.' then 0 else 1 + FirstDot(w[1..])
  }

  /** A text without dots, followed by nothing or by a suffix starting with a dot, ends at the first dot. */
  lemma {:induction false} FirstDotAfter(e: string, x: string)
    requires '.' !in e
    requires x == [] || x[0] == '.'
    ensures FirstDot(e + x) == |e|
  {
    if e != [] {
      assert (e + x)[1..] == e[1..] + x;
      FirstDotAfter(e[1..], x);
    }
  }

  /** Distinct URLs get distinct names: the cache never mixes two URLs' bytes. */
  lemma Base64FilenameInjective(u1: string, u2: string)
    requires Base64Filename(u1) == Base64Filename(u2)
    ensures u1 == u2
  {
    var e1, e2 := Base64.Encode(Utf8.Encode(u1)), Base64.Encode(Utf8.Encode(u2));
    Base64.EncodeHasNoDotOrSeparator(Utf8.Encode(u1));
    Base64.EncodeHasNoDotOrSeparator(Utf8.Encode(u2));
    Base64FilenameParts(u1);
    Base64FilenameParts(u2);
    FirstDotAfter(e1, Ext(u1));
    FirstDotAfter(e2, Ext(u2));
    assert e1 == Base64Filename(u1)[..|e1|];
    Base64.EncodeInjective(Utf8.Encode(u1), Utf8.Encode(u2));
    Utf8.EncodeInjective(u1, u2);
  }

  /**
   * The cache path is a function of the root and the URL alone, so a later
   * run finds the partial file again; and distinct URLs never share a path.
   */
  lemma CachePathInjective(root: string, u1: string, u2: string)
    requires IsClean(root)
    requires CachePath(root, u1) == CachePath(root, u2)
    ensures u1 == u2
  {
    var n1, n2 := Base64Filename(u1), Base64Filename(u2);
    if n1 != [] && n2 != [] {
      assert n1 == CachePath(root, u1)[|root| + 1..];
      Base64FilenameInjective(u1, u2);
    }
  }
}
