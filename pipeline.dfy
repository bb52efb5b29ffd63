/**
 * The download pipeline of Download.Start: a producer that fetches the
 * image URLs into the cache one after the other (downloadImages) and a
 * consumer that copies every received file into the destination
 * (copyFilesToDst). The channel between them is modelled by the order in
 * which files are produced and received; blocking and its capacity are not
 * modelled.
 */
module Pipeline {
  import opened Wrappers
  import opened Sink
  import CacheStore
  import opened FilePath

  /** What fetching one URL into the cache ended with. */
  datatype FetchOutcome =
    | Fetched(path: string)  // the download finished; `path` is the cached file
    | Failed                 // any other error: reported, the URL is skipped
    | Cancelled              // context.Canceled or context.DeadlineExceeded

  /** The position of the first cancellation, or the length when there is none. */
  function FirstCancel(outcomes: seq<FetchOutcome>): (k: nat)
    ensures k <= |outcomes|
    ensures k < |outcomes| ==> outcomes[k].Cancelled?
    ensures forall j :: 0 <= j < k ==> !outcomes[j].Cancelled?
  {
    if outcomes == [] || outcomes[0].Cancelled? then 0
    else 1 + FirstCancel(outcomes[1..])
  }

  /** How many fetches the producer starts: up to and including the first cancelled one. */
  function Attempted(outcomes: seq<FetchOutcome>): nat {
    var k := FirstCancel(outcomes);
    if k < |outcomes| then k + 1 else k
  }

  /**
   * The files the producer sends, in order: one per fetched URL, none for a
   * failed one, and nothing from the first cancellation on.
   */
  function Produced(urls: seq<string>, outcomes: seq<FetchOutcome>): (r: seq<File>)
    requires |outcomes| == |urls|
    ensures |r| <= FirstCancel(outcomes) <= |urls|
  {
    if urls == [] then []
    else match outcomes[0]
      case Fetched(p) => [File(p, urls[0])] + Produced(urls[1..], outcomes[1..])
      case Failed => Produced(urls[1..], outcomes[1..])
      case Cancelled => []
  }

  /**
   * downloadImages: walks the URLs in order, sends each fetched file, skips
   * failed URLs and stops at the first cancellation.
   */
  method DownloadImages(urls: seq<string>, outcomes: seq<FetchOutcome>) returns (files: seq<File>, attempted: nat)
    requires |outcomes| == |urls|
    ensures files == Produced(urls, outcomes)
    ensures attempted == Attempted(outcomes)
  {
    files, attempted := [], 0;
    if |urls| == 0 {
      return;
    }
    var i := 0;
    while i < |urls|
      invariant 0 <= i <= |urls| && attempted == i
      invariant forall j :: 0 <= j < i ==> !outcomes[j].Cancelled?
      invariant files + Produced(urls[i..], outcomes[i..]) == Produced(urls, outcomes)
    {
      attempted := attempted + 1;
      assert urls[i..][1..] == urls[i + 1..] && outcomes[i..][1..] == outcomes[i + 1..];
      match outcomes[i]
      case Cancelled =>
        assert FirstCancel(outcomes) == i;
        assert files == Produced(urls, outcomes);
        return;
      case Failed =>
        i := i + 1;
        continue;
      case Fetched(p) =>
        files := files + [File(p, urls[i])];
        i := i + 1;
    }
  }

  /** Without a cancellation in the first part, the producer handles the two parts independently. */
  lemma {:induction false} ProducedAppend(u1: seq<string>, o1: seq<FetchOutcome>, u2: seq<string>, o2: seq<FetchOutcome>)
    requires |o1| == |u1| && |o2| == |u2|
    requires forall j :: 0 <= j < |o1| ==> !o1[j].Cancelled?
    ensures Produced(u1 + u2, o1 + o2) == Produced(u1, o1) + Produced(u2, o2)
    decreases |u1|
  {
    if u1 != [] {
      assert (u1 + u2)[1..] == u1[1..] + u2 && (o1 + o2)[1..] == o1[1..] + o2;
      assert (o1 + o2)[0] == o1[0];
      ProducedAppend(u1[1..], o1[1..], u2, o2);
    } else {
      assert u1 + u2 == u2 && o1 + o2 == o2;
    }
  }

  /** A failed fetch affects no other URL: the result is as if that URL had not been listed. */
  lemma {:induction false} FailureSkipsOnlyThatURL(urls: seq<string>, outcomes: seq<FetchOutcome>, i: nat)
    requires |outcomes| == |urls| && i < |urls|
    requires outcomes[i] == Failed
    ensures Produced(urls, outcomes) == Produced(urls[..i] + urls[i + 1..], outcomes[..i] + outcomes[i + 1..])
  {
    if i == 0 {
      assert urls[..0] + urls[1..] == urls[1..] && outcomes[..0] + outcomes[1..] == outcomes[1..];
    } else {
      var u', o' := urls[..i] + urls[i + 1..], outcomes[..i] + outcomes[i + 1..];
      assert u'[0] == urls[0] && o'[0] == outcomes[0];
      assert u'[1..] == urls[1..][..i - 1] + urls[1..][i..];
      assert o'[1..] == outcomes[1..][..i - 1] + outcomes[1..][i..];
      FailureSkipsOnlyThatURL(urls[1..], outcomes[1..], i - 1);
    }
  }

  /** Nothing after a cancellation is fetched or sent, whatever it would have returned. */
  lemma {:induction false} CancelStops(urls: seq<string>, outcomes: seq<FetchOutcome>, i: nat)
    requires |outcomes| == |urls| && i < |urls|
    requires outcomes[i] == Cancelled
    ensures Produced(urls, outcomes) == Produced(urls[..i], outcomes[..i])
  {
    if i > 0 && !outcomes[0].Cancelled? {
      assert urls[..i][1..] == urls[1..][..i - 1] && outcomes[..i][1..] == outcomes[1..][..i - 1];
      assert outcomes[..i][0] == outcomes[0];
      CancelStops(urls[1..], outcomes[1..], i - 1);
    }
  }

  /**
   * A file is sent exactly when some URL before the first cancellation was
   * fetched to that path.
   */
  lemma {:induction false} ProducedMembers(urls: seq<string>, outcomes: seq<FetchOutcome>, f: File)
    requires |outcomes| == |urls|
    ensures f in Produced(urls, outcomes) <==>
      exists i :: 0 <= i < FirstCancel(outcomes) && outcomes[i] == Fetched(f.path) && urls[i] == f.url
  {
    if urls != [] && !outcomes[0].Cancelled? {
      var us, os := urls[1..], outcomes[1..];
      ProducedMembers(us, os, f);
      if f in Produced(urls, outcomes) {
        if outcomes[0] == Fetched(f.path) && urls[0] == f.url {
          assert 0 < FirstCancel(outcomes);
        } else {
          assert f in Produced(us, os);
          var i :| 0 <= i < FirstCancel(os) && os[i] == Fetched(f.path) && us[i] == f.url;
          assert outcomes[i + 1] == os[i] && urls[i + 1] == us[i];
        }
      }
      if exists i :: 0 <= i < FirstCancel(outcomes) && outcomes[i] == Fetched(f.path) && urls[i] == f.url {
        var i :| 0 <= i < FirstCancel(outcomes) && outcomes[i] == Fetched(f.path) && urls[i] == f.url;
        if i > 0 {
          assert os[i - 1] == outcomes[i] && us[i - 1] == urls[i];
        }
      }
    }
  }

  /**
   * When every fetch lands at the cache path of its URL, every file sent is
   * named, in flat mode, by the encoded name of its URL, and passes the
   * destination-name check.
   */
  lemma FlatNamesOfProduced(root: string, urls: seq<string>, outcomes: seq<FetchOutcome>, f: File)
    requires IsClean(root) && |outcomes| == |urls|
    requires forall i :: 0 <= i < |urls| ==> urls[i] != [] && (outcomes[i].Fetched? ==> outcomes[i].path == CacheStore.CachePath(root, urls[i]))
    requires f in Produced(urls, outcomes)
    ensures DstFileName(true, f) == CacheStore.Base64Filename(f.url)
    ensures LocalDstFileName(true, f) == Some(CacheStore.Base64Filename(f.url))
  {
    ProducedMembers(urls, outcomes, f);
    var i :| 0 <= i < FirstCancel(outcomes) && outcomes[i] == Fetched(f.path) && urls[i] == f.url;
    assert f == File(CacheStore.CachePath(root, f.url), f.url);
    FlatNameIsCacheName(root, f.url);
    FlatCacheNamesAreLocal(root, f.url);
  }

  /** The file system operations a copy depends on, as seen by the model. */
  datatype FileSystem = FileSystem(
    opens: File -> bool,   // os.Open of the cached file succeeds
    writes: File -> bool)  // creating the destination entry and copying into it succeed

  /** What copying one received file ended with. */
  datatype CopyResult =
    | Copied(file: File, name: string)  // written into the destination under `name`
    | CopyFailed(file: File)            // reported; the consumer goes on
    | Refused(file: File)               // its name would leave the destination (checked copy only)

  /**
   * copyFileToDst as written: the cached file is opened first, then named,
   * then written under that name, whatever the name is.
   */
  function CopyOne(flat: bool, f: File, fs: FileSystem): (r: CopyResult)
    ensures r.file == f && !r.Refused?
    ensures r.Copied? <==> fs.opens(f) && fs.writes(f)
    ensures r.Copied? ==> r.name == DstFileName(flat, f)
  {
    if !fs.opens(f) then CopyFailed(f)
    else
      var name := DstFileName(flat, f);
      if fs.writes(f) then Copied(f, name) else CopyFailed(f)
  }

  /**
   * As written, the image of the page URL "http://a/../../x.png" is copied,
   * in hierarchical mode, to beside any destination directory other than
   * the root, not into it.
   */
  lemma CopyEscapes(dst: string, path: string, fs: FileSystem)
    requires var f := File(path, "http://a/../../x.png"); fs.opens(f) && fs.writes(f)
    requires Resolve([], Split(dst)) != []
    ensures var f := File(path, "http://a/../../x.png");
      var r := CopyOne(false, f, fs);
      var d := Resolve([], Split(dst));
      r == Copied(f, "a" + "/../../" + "x.png") &&
      JoinedElements(dst, r.name) == d[..|d| - 1] + ["x.png"] &&
      !Below(dst, r.name)
  {
    DotDotUrlName();
    assert DstFileName(false, File(path, "http://a/../../x.png")) == DstFileName(false, File("/tmp/imaget/cached.png", "http://a/../../x.png"));
    ParentElementsEscape(dst, "a", "x.png");
  }

  /**
   * The copy with the destination-name check: a file whose name would
   * leave some destination directory is refused, and every other file is
   * copied as written.
   */
  function CheckedCopyOne(flat: bool, f: File, fs: FileSystem): (r: CopyResult)
    ensures r.Refused? <==> fs.opens(f) && !forall dst :: IsAbsClean(dst) ==> Below(dst, DstFileName(flat, f))
    ensures !r.Refused? ==> r == CopyOne(flat, f, fs)
    ensures r.Copied? ==> forall dst :: Below(dst, r.name)
  {
    if !fs.opens(f) then CopyFailed(f)
    else match LocalDstFileName(flat, f)
      case None => Refused(f)
      case Some(name) => if fs.writes(f) then Copied(f, name) else CopyFailed(f)
  }

  /** The checked copy refuses the image of "http://a/../../x.png". */
  lemma CheckedCopyRefusesEscape(path: string, fs: FileSystem)
    requires fs.opens(File(path, "http://a/../../x.png"))
    ensures CheckedCopyOne(false, File(path, "http://a/../../x.png"), fs) == Refused(File(path, "http://a/../../x.png"))
  {
    var f := File(path, "http://a/../../x.png");
    DotDotUrlName();
    assert DstFileName(false, f) == DstFileName(false, File("/tmp/imaget/cached.png", "http://a/../../x.png"));
    DotDotNameIsNotLocal();
    assert LocalDstFileName(false, f) == None;
  }

  /**
   * How many files the consumer takes before it stops: all of them, or
   * the first `n` when the context is done once `n` files were received.
   */
  function Received(count: nat, done: Option<nat>): nat {
    match done
    case None => count
    case Some(d) => if d < count then d else count
  }

  /**
   * copyFilesToDst: copies the received files in order, going on after a
   * failed copy, until the channel is closed or the context is done.
   * Files still queued when the context is done are left unprocessed.
   */
  method CopyFilesToDst(flat: bool, files: seq<File>, fs: FileSystem, done: Option<nat>) returns (results: seq<CopyResult>)
    ensures |results| == Received(|files|, done)
    ensures |results| <= |files|
    ensures done.None? ==> |results| == |files|
    ensures done.Some? ==> |results| <= done.value
    ensures forall i :: 0 <= i < |results| ==> results[i] == CopyOne(flat, files[i], fs)
  {
    results := [];
    var i := 0;
    while true
      invariant 0 <= i <= |files| && |results| == i
      invariant done.Some? ==> i <= done.value
      invariant forall j :: 0 <= j < i ==> results[j] == CopyOne(flat, files[j], fs)
      decreases |files| - i
    {
      if done == Some(i) {
        return;
      }
      if i == |files| {
        return;
      }
      results := results + [CopyOne(flat, files[i], fs)];
      i := i + 1;
    }
  }

  /**
   * The transfer of Download.Start: the producer's files, in order, go to
   * the consumer.
   */
  method Transfer(flat: bool, urls: seq<string>, outcomes: seq<FetchOutcome>, fs: FileSystem, done: Option<nat>)
    returns (results: seq<CopyResult>)
    requires |outcomes| == |urls|
    ensures var files := Produced(urls, outcomes);
      |results| == Received(|files|, done) &&
      forall i :: 0 <= i < |results| ==> results[i] == CopyOne(flat, files[i], fs)
  {
    var files, _ := DownloadImages(urls, outcomes);
    results := CopyFilesToDst(flat, files, fs, done);
  }

  /**
   * Without cancellation and with a working file system, a flat transfer
   * writes one entry per URL, named by the encoded URL.
   */
  lemma FlatTransferNames(root: string, urls: seq<string>, outcomes: seq<FetchOutcome>, fs: FileSystem, results: seq<CopyResult>)
    requires IsClean(root) && |outcomes| == |urls|
    requires forall i :: 0 <= i < |urls| ==> urls[i] != [] && outcomes[i] == Fetched(CacheStore.CachePath(root, urls[i]))
    requires forall f :: fs.opens(f) && fs.writes(f)
    requires var files := Produced(urls, outcomes);
      |results| == |files| && forall i :: 0 <= i < |results| ==> results[i] == CopyOne(true, files[i], fs)
    ensures |results| == |urls|
    ensures forall i :: 0 <= i < |results| ==> results[i] == Copied(File(CacheStore.CachePath(root, urls[i]), urls[i]), CacheStore.Base64Filename(urls[i]))
  {
    AllFetchedProduced(urls, outcomes);
    var files := Produced(urls, outcomes);
    forall i | 0 <= i < |results|
      ensures results[i] == Copied(File(CacheStore.CachePath(root, urls[i]), urls[i]), CacheStore.Base64Filename(urls[i]))
    {
      assert files[i] == File(CacheStore.CachePath(root, urls[i]), urls[i]);
      FlatCopyOfCached(root, urls[i], fs);
    }
  }

  lemma FlatCopyOfCached(root: string, url: string, fs: FileSystem)
    requires IsClean(root) && url != []
    requires var f := File(CacheStore.CachePath(root, url), url); fs.opens(f) && fs.writes(f)
    ensures var f := File(CacheStore.CachePath(root, url), url);
      CopyOne(true, f, fs) == Copied(f, CacheStore.Base64Filename(url))
  {
    FlatNameIsCacheName(root, url);
  }

  /** When every fetch succeeds, one file is sent per URL, in URL order. */
  lemma {:induction false} AllFetchedProduced(urls: seq<string>, outcomes: seq<FetchOutcome>)
    requires |outcomes| == |urls|
    requires forall i :: 0 <= i < |urls| ==> outcomes[i].Fetched?
    ensures |Produced(urls, outcomes)| == |urls|
    ensures forall i :: 0 <= i < |urls| ==> Produced(urls, outcomes)[i] == File(outcomes[i].path, urls[i])
  {
    if urls != [] {
      var us, os := urls[1..], outcomes[1..];
      assert forall i :: 0 <= i < |us| ==> os[i] == outcomes[i + 1] && us[i] == urls[i + 1];
      AllFetchedProduced(us, os);
      assert Produced(urls, outcomes) == [File(outcomes[0].path, urls[0])] + Produced(us, os);
    }
  }
}
