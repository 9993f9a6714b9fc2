/**
  The two public entry points of the scraper, `search_and_download` and
  `reverse_image_search`, with the browser and the network replaced by
  their answers:
  - `resultsShown` / `uploaded`: whether the results view appeared within
    its wait (for reverse search: whether the camera button, the file input
    and the results all appeared);
  - `pages`: what each pass of the extraction loop sees;
  - `outcomes`: the result of the first, second, ... transfer attempted.
  Both return the folder they create and the transfers they attempted
  beside the count of successful downloads.
*/
module Scraper {
  import opened Wrappers
  import opened Folders
  import opened Extraction
  import opened Download

  /**
    Extraction followed by the download loop: what both entry points do once
    the results are on screen. Nothing is transferred when no URL is found;
    otherwise every URL found is transferred once, in list order.
  */
  method FetchAll(prefix: string, numImages: int, pages: seq<Page>, outcomes: seq<bool>)
    returns (downloaded: nat, transfers: seq<Transfer>)
    requires |pages| == MaxScrollAttempts
    requires numImages <= |outcomes|
    ensures |transfers| == |Found(numImages, pages)|
    ensures |transfers| <= if numImages > 0 then numImages else 0
    ensures Distinct(UrlsOf(transfers))
    ensures forall u :: u in UrlsOf(transfers) ==> u in Found(numImages, pages)
    ensures transfers == Planned(UrlsOf(transfers), prefix, outcomes[..|transfers|])
    ensures downloaded == CountSucceeded(outcomes[..|transfers|]) <= |transfers|
  {
    var imageUrls := ExtractImageUrls(numImages, pages);
    if imageUrls == [] {
      return 0, [];
    }
    downloaded, transfers := DownloadAll(imageUrls, prefix, outcomes[..|imageUrls|]);
    UrlsOfPlanned(imageUrls, prefix, outcomes[..|imageUrls|]);
  }

  /**
    The folder a text search writes to: the given name, or else the search
    term, sanitised. It holds no reserved character, and a clean search term
    with no folder name given is used as it is.
  */
  function SearchFolder(searchTerm: string, folderName: Option<string>): (folder: string)
    ensures |folder| == |folderName.GetOr(searchTerm)|
    ensures forall c :: c in folder ==> c !in Reserved
    ensures folderName.None? && (forall c :: c in searchTerm ==> c !in Reserved) ==> folder == searchTerm
    ensures forall i :: 0 <= i < |folder| ==>
              folder[i] == if folderName.GetOr(searchTerm)[i] in Reserved then '_' else folderName.GetOr(searchTerm)[i]
  {
    Sanitize(folderName.GetOr(searchTerm))
  }

  /**
    The folder a reverse search writes to: the given name, or else
    `reverse_search_<stem>`, sanitised: the prefix is kept and the stem is
    sanitised after it.
  */
  function ReverseFolder(imageStem: string, folderName: Option<string>): (folder: string)
    ensures |folder| == |folderName.GetOr("reverse_search_" + imageStem)|
    ensures forall c :: c in folder ==> c !in Reserved
    ensures folderName.None? ==> folder[..15] == "reverse_search_" && folder[15..] == Sanitize(imageStem)
    ensures folderName.Some? ==> forall i :: 0 <= i < |folder| ==>
              folder[i] == if folderName.value[i] in Reserved then '_' else folderName.value[i]
  {
    var name := folderName.GetOr("reverse_search_" + imageStem);
    assert folderName.None? ==> forall i :: 0 <= i < 15 ==> name[i] == "reverse_search_"[i] && name[i] !in Reserved;
    assert folderName.None? ==> forall i :: 0 <= i < |imageStem| ==> name[15 + i] == imageStem[i];
    Sanitize(name)
  }

  /**
    `search_and_download`: the folder is created first; a results view that
    never appears ends the run with nothing downloaded; otherwise the URLs
    found are downloaded as `image_NNN<ext>`.
  */
  method SearchAndDownload(searchTerm: string, numImages: int, folderName: Option<string>,
                           resultsShown: bool, pages: seq<Page>, outcomes: seq<bool>)
    returns (downloaded: nat, folder: string, transfers: seq<Transfer>)
    requires |pages| == MaxScrollAttempts
    requires numImages <= |outcomes|
    ensures folder == SearchFolder(searchTerm, folderName)
    ensures |transfers| <= if numImages > 0 then numImages else 0
    ensures !resultsShown ==> transfers == [] && downloaded == 0
    ensures resultsShown ==> |transfers| == |Found(numImages, pages)|
    ensures Distinct(UrlsOf(transfers))
    ensures forall u :: u in UrlsOf(transfers) ==> u in Found(numImages, pages)
    ensures transfers == Planned(UrlsOf(transfers), "image", outcomes[..|transfers|])
    ensures downloaded == CountSucceeded(outcomes[..|transfers|]) <= |transfers|
  {
    folder := Sanitize(if folderName.Some? then folderName.value else searchTerm);
    if !resultsShown {
      return 0, folder, [];
    }
    downloaded, transfers := FetchAll("image", numImages, pages, outcomes);
  }

  /**
    `reverse_image_search`: a missing image ends the run before any folder
    is created; a failed upload or results wait ends it after; otherwise the
    URLs found are downloaded as `similar_NNN<ext>`.
  */
  method ReverseImageSearch(imageStem: string, imageExists: bool, numImages: int, folderName: Option<string>,
                            uploaded: bool, pages: seq<Page>, outcomes: seq<bool>)
    returns (downloaded: nat, folder: Option<string>, transfers: seq<Transfer>)
    requires |pages| == MaxScrollAttempts
    requires numImages <= |outcomes|
    ensures folder == if imageExists then Some(ReverseFolder(imageStem, folderName)) else None
    ensures |transfers| <= if numImages > 0 then numImages else 0
    ensures !(imageExists && uploaded) ==> transfers == [] && downloaded == 0
    ensures imageExists && uploaded ==> |transfers| == |Found(numImages, pages)|
    ensures Distinct(UrlsOf(transfers))
    ensures forall u :: u in UrlsOf(transfers) ==> u in Found(numImages, pages)
    ensures transfers == Planned(UrlsOf(transfers), "similar", outcomes[..|transfers|])
    ensures downloaded == CountSucceeded(outcomes[..|transfers|]) <= |transfers|
  {
    if !imageExists {
      return 0, None, [];
    }
    var name := if folderName.Some? then folderName.value else "reverse_search_" + imageStem;
    folder := Some(Sanitize(name));
    if !uploaded {
      return 0, folder, [];
    }
    downloaded, transfers := FetchAll("similar", numImages, pages, outcomes);
  }
}
