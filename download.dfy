/**
  The download loop shared by text search and reverse search: every URL is
  numbered from 1 in list order, given its destination name, and transferred
  once; a failed transfer is counted as such and the loop goes on.
  The transfer itself (HTTP GET streamed to the file) is replaced by its
  outcome: `outcomes[i]` is what the transfer of the `(i+1)`-th URL returns.
*/
module Download {
  import opened Naming

  /** One attempted transfer: position, source URL, destination name, outcome. */
  datatype Transfer = Transfer(index: nat, url: string, fileName: string, succeeded: bool)

  /** The source URLs of `transfers`, in order. */
  function UrlsOf(transfers: seq<Transfer>): (urls: seq<string>)
    ensures |urls| == |transfers|
    ensures forall i :: 0 <= i < |transfers| ==> urls[i] == transfers[i].url
  {
    seq(|transfers|, i requires 0 <= i < |transfers| => transfers[i].url)
  }

  /** The number of successful outcomes. */
  function CountSucceeded(outcomes: seq<bool>): (n: nat)
    ensures n <= |outcomes|
    decreases |outcomes|
  {
    if outcomes == [] then 0
    else CountSucceeded(outcomes[..|outcomes| - 1]) + if outcomes[|outcomes| - 1] then 1 else 0
  }

  /** Every transfer succeeded exactly when the count is the number of transfers, none when it is zero. */
  lemma {:induction false} CountSucceededExtremes(outcomes: seq<bool>)
    ensures CountSucceeded(outcomes) == |outcomes| <==> forall i :: 0 <= i < |outcomes| ==> outcomes[i]
    ensures CountSucceeded(outcomes) == 0 <==> forall i :: 0 <= i < |outcomes| ==> !outcomes[i]
    decreases |outcomes|
  {
    if outcomes != [] {
      var init := outcomes[..|outcomes| - 1];
      assert forall i :: 0 <= i < |init| ==> init[i] == outcomes[i];
      CountSucceededExtremes(init);
    }
  }

  /** The transfers the loop attempts for `urls`, in order, with their outcomes. */
  function Planned(urls: seq<string>, prefix: string, outcomes: seq<bool>): (plan: seq<Transfer>)
    requires |outcomes| == |urls|
    ensures |plan| == |urls|
    decreases |urls|
  {
    if urls == [] then []
    else
      var n := |urls|;
      Planned(urls[..n - 1], prefix, outcomes[..n - 1])
        + [Transfer(n, urls[n - 1], FileName(prefix, n, urls[n - 1]), outcomes[n - 1])]
  }

  /** The `i`-th planned transfer: position `i + 1`, the `i`-th URL, its file name and outcome. */
  lemma {:induction false} PlannedAt(urls: seq<string>, prefix: string, outcomes: seq<bool>, i: nat)
    requires |outcomes| == |urls| && i < |urls|
    ensures Planned(urls, prefix, outcomes)[i] == Transfer(i + 1, urls[i], FileName(prefix, i + 1, urls[i]), outcomes[i])
    decreases |urls|
  {
    var n := |urls|;
    if i < n - 1 {
      PlannedAt(urls[..n - 1], prefix, outcomes[..n - 1], i);
    }
  }

  /** The plan for `urls` transfers exactly `urls`. */
  lemma {:induction false} UrlsOfPlanned(urls: seq<string>, prefix: string, outcomes: seq<bool>)
    requires |outcomes| == |urls|
    ensures UrlsOf(Planned(urls, prefix, outcomes)) == urls
  {
    forall i | 0 <= i < |urls|
      ensures UrlsOf(Planned(urls, prefix, outcomes))[i] == urls[i]
    {
      PlannedAt(urls, prefix, outcomes, i);
    }
  }

  /** The position can be read back from the name of the `i`-th planned file. */
  lemma PlannedNameIndex(urls: seq<string>, prefix: string, outcomes: seq<bool>, i: nat)
    requires |outcomes| == |urls| && i < |urls|
    ensures IndexInName(prefix, Planned(urls, prefix, outcomes)[i].fileName) == i + 1
  {
    PlannedAt(urls, prefix, outcomes, i);
    IndexInFileName(prefix, i + 1, urls[i]);
  }

  /** Different positions in the plan write to different files, whatever the URLs. */
  lemma PlannedNamesDistinct(urls: seq<string>, prefix: string, outcomes: seq<bool>)
    requires |outcomes| == |urls|
    ensures forall i, j :: 0 <= i < j < |urls| ==>
              Planned(urls, prefix, outcomes)[i].fileName != Planned(urls, prefix, outcomes)[j].fileName
  {
    forall i, j | 0 <= i < j < |urls|
      ensures Planned(urls, prefix, outcomes)[i].fileName != Planned(urls, prefix, outcomes)[j].fileName
    {
      PlannedNameIndex(urls, prefix, outcomes, i);
      PlannedNameIndex(urls, prefix, outcomes, j);
    }
  }

  /**
    The loop `for i, url in enumerate(image_urls, 1)`: names each file,
    attempts each transfer once, in order, and counts the successes; a failed
    transfer does not stop the ones after it.
  */
  method DownloadAll(urls: seq<string>, prefix: string, outcomes: seq<bool>) returns (downloaded: nat, transfers: seq<Transfer>)
    requires |outcomes| == |urls|
    ensures transfers == Planned(urls, prefix, outcomes)
    ensures downloaded == CountSucceeded(outcomes) <= |urls|
  {
    downloaded := 0;
    transfers := [];
    for i := 0 to |urls|
      invariant transfers == Planned(urls[..i], prefix, outcomes[..i])
      invariant downloaded == CountSucceeded(outcomes[..i])
    {
      var index := i + 1;
      var filePath := FileName(prefix, index, urls[i]);
      var ok := outcomes[i];
      transfers := transfers + [Transfer(index, urls[i], filePath, ok)];
      assert urls[..i + 1][..i] == urls[..i] && urls[..i + 1][i] == urls[i];
      assert outcomes[..i + 1][..i] == outcomes[..i] && outcomes[..i + 1][i] == ok;
      if ok {
        downloaded := downloaded + 1;
      }
    }
    assert urls[..|urls|] == urls;
    assert outcomes[..|urls|] == outcomes;
  }
}
