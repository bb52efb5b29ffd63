/**
 * What Download.Start tells the user: the plural helper and the number of
 * images the closing "Saved" line reports.
 */
module Report {
  import opened Wrappers
  import opened Pipeline

  /** pluralize: `s` for a count of 1 or -1, and `s` followed by "s" for every other count. */
  function Pluralize(s: string, count: int): (r: string)
    ensures r == s <==> count == 1 || count == -1
    ensures r != s ==> r == s + "s"
  {
    if count > 1 || count == 0 || count < -1 then s + "s" else s
  }

  /** The number the "Saved" line prints, as written: the number of URLs found on the page. */
  function ReportedSaved(urls: seq<string>): nat {
    |urls|
  }

  /** The number of images the transfer actually wrote into the destination. */
  function SavedCount(results: seq<CopyResult>): (n: nat)
    ensures n <= |results|
    ensures n == |results| <==> forall i :: 0 <= i < |results| ==> results[i].Copied?
  {
    if results == [] then 0
    else SavedCount(results[..|results| - 1]) + (if results[|results| - 1].Copied? then 1 else 0)
  }

  /**
   * The images written never outnumber the URLs found, and they match them
   * only when every URL was fetched and copied.
   */
  lemma SavedCountBound(urls: seq<string>, outcomes: seq<FetchOutcome>, flat: bool, fs: FileSystem, done: Option<nat>, results: seq<CopyResult>)
    requires |outcomes| == |urls|
    requires var files := Produced(urls, outcomes);
      |results| == Received(|files|, done) &&
      forall i :: 0 <= i < |results| ==> results[i] == CopyOne(flat, files[i], fs)
    ensures SavedCount(results) <= |urls|
    ensures SavedCount(results) == |urls| ==> forall i :: 0 <= i < |urls| ==> outcomes[i].Fetched?
  {
    if SavedCount(results) == |urls| {
      ProducedAllFetched(urls, outcomes);
    }
  }

  lemma {:induction false} ProducedAllFetched(urls: seq<string>, outcomes: seq<FetchOutcome>)
    requires |outcomes| == |urls| && |Produced(urls, outcomes)| == |urls|
    ensures forall i :: 0 <= i < |urls| ==> outcomes[i].Fetched?
  {
    if urls != [] {
      ProducedAllFetched(urls[1..], outcomes[1..]);
      assert forall i :: 1 <= i < |urls| ==> outcomes[i] == outcomes[1..][i - 1];
    }
  }

  /**
   * As written, the "Saved" line overstates: with one URL found whose
   * download fails, it reports one saved image while none was written.
   */
  lemma ReportedSavedOvercounts(done: Option<nat>, results: seq<CopyResult>)
    requires |results| == Received(|Produced(["http://a.test/x.png"], [Failed])|, done)
    ensures ReportedSaved(["http://a.test/x.png"]) == 1
    ensures SavedCount(results) == 0
  {
    assert Produced(["http://a.test/x.png"], [Failed]) == [];
  }
}
