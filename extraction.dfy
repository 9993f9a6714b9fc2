/**
  The URL accumulation loop: up to ten passes over successive snapshots of the
  results page, each scanning the image elements for usable `src`/`data-src`
  values and, when nothing has been found yet, falling back to the full-size
  image that opening the first result shows.

  The browser is replaced by its answers: `pages[k]` is what pass `k` sees
  after its scroll. The accumulated set is specified by the functions `Scan`,
  `Pass` and `Crawl`; the method `ExtractImageUrls` is proved against them.
*/
module Extraction {
  import opened Wrappers
  import opened Strings

  /** The loop gives up after this many passes. */
  const MaxScrollAttempts: nat := 10

  /** One image element as the scan reads it. */
  datatype Element =
    | Image(src: Option<string>, dataSrc: Option<string>)  // the two attributes; None when absent
    | Unreadable                                           // reading an attribute raised: skipped

  /** What one pass sees: the matching image elements, then what the recovery click would show. */
  datatype Page = Page(elements: seq<Element>, fullSize: Option<string>)

  /** The state in which the loop stops. */
  datatype CrawlEnd = CrawlEnd(found: set<string>, attempts: nat)

  /** `src`, or `data-src` when `src` is absent or empty. */
  function Source(e: Element): (r: Option<string>)
    ensures e.Unreadable? ==> r == None
    ensures e.Image? && e.src.Some? && e.src.value != "" ==> r == e.src
    ensures e.Image? && (e.src == None || e.src == Some("")) ==> r == e.dataSrc
  {
    match e
    case Unreadable => None
    case Image(src, dataSrc) => if src.Some? && src.value != "" then src else dataSrc
  }

  /** A URL the main scan keeps: non-empty, `http` first, no `avatar` in any case. */
  predicate IsCandidate(u: string)
    ensures IsCandidate(u) ==> 4 <= |u| && u[..4] == "http"
  {
    u != "" && IsPrefix("http", u) && !Contains(Lower(u), "avatar")
  }

  /** `avatar` written in any mix of cases anywhere in a URL keeps it out of the scan. */
  lemma AvatarInAnyCase(u: string, written: string)
    requires Contains(u, written) && Lower(written) == "avatar"
    ensures !IsCandidate(u)
  {
    ContainsLower(u, written);
  }

  /** `found` after looking at one element. */
  function Admit(found: set<string>, e: Element): (r: set<string>)
    ensures found <= r && |r| <= |found| + 1
    ensures forall u :: u in r && u !in found ==> IsCandidate(u) && Source(e) == Some(u)
    ensures Source(e).Some? && IsCandidate(Source(e).value) ==> Source(e).value in r
  {
    match Source(e)
    case Some(u) => if IsCandidate(u) then found + {u} else found
    case None => found
  }

  /**
    The inner scan over one snapshot's elements: each readable element may add
    its URL, and the scan stops as soon as the set holds `quota` URLs.
  */
  function Scan(found: set<string>, elements: seq<Element>, quota: int): (r: set<string>)
    ensures found <= r
    ensures forall u :: u in r && u !in found ==>
              IsCandidate(u) && exists k :: 0 <= k < |elements| && Source(elements[k]) == Some(u)
    ensures |found| < quota ==> |r| <= quota
    decreases |elements|
  {
    if elements == [] then found
    else
      match elements[0]
      case Unreadable => ScanRest(found, elements, quota)
      case Image(_, _) =>
        var next := Admit(found, elements[0]);
        if |next| >= quota then next else ScanRest(next, elements, quota)
  }

  /** `Scan` of everything after the first element, with its witnesses shifted by one. */
  function ScanRest(found: set<string>, elements: seq<Element>, quota: int): (r: set<string>)
    requires elements != []
    ensures r == Scan(found, elements[1..], quota)
    ensures forall u :: u in r && u !in found ==>
              IsCandidate(u) && exists k :: 1 <= k < |elements| && Source(elements[k]) == Some(u)
    decreases |elements|, 0
  {
    var r := Scan(found, elements[1..], quota);
    assert forall k :: 0 <= k < |elements| - 1 ==> elements[1..][k] == elements[k + 1];
    r
  }

  /** The candidate URLs carried by the elements of one snapshot, whatever the quota. */
  function Candidates(elements: seq<Element>): (c: set<string>)
    ensures forall u :: u in c <==>
              IsCandidate(u) && exists k :: 0 <= k < |elements| && Source(elements[k]) == Some(u)
    decreases |elements|
  {
    if elements == [] then {}
    else
      assert forall k :: 0 <= k < |elements| - 1 ==> elements[1..][k] == elements[k + 1];
      Admit(Candidates(elements[1..]), elements[0])
  }

  /**
    One pass of the loop body: the scan, then, if the set is still empty, the
    recovery that adds the full-size image's `src` when it is non-empty.
  */
  function Pass(found: set<string>, page: Page, quota: int): (r: set<string>)
    ensures found <= Scan(found, page.elements, quota) <= r
    ensures r != Scan(found, page.elements, quota) ==>
              Scan(found, page.elements, quota) == {} && page.fullSize.Some? &&
              page.fullSize.value != "" && r == {page.fullSize.value}
    ensures Scan(found, page.elements, quota) == {} && page.fullSize.Some? && page.fullSize.value != "" ==>
              r == {page.fullSize.value}
  {
    var scanned := Scan(found, page.elements, quota);
    if |scanned| == 0 then
      match page.fullSize
      case Some(u) => if u != "" then scanned + {u} else scanned
      case None => scanned
    else scanned
  }

  /**
    The outer loop from a set `found` after `attempts` passes: it runs while
    the set is below `quota` and fewer than `MaxScrollAttempts` passes are done.
  */
  function Crawl(found: set<string>, attempts: nat, pages: seq<Page>, quota: int): (end: CrawlEnd)
    requires attempts <= MaxScrollAttempts == |pages|
    ensures attempts <= end.attempts <= MaxScrollAttempts
    ensures found <= end.found
    ensures end.attempts == MaxScrollAttempts || |end.found| >= quota
    ensures end.attempts == attempts <==> (|found| >= quota || attempts == MaxScrollAttempts)
    decreases MaxScrollAttempts - attempts
  {
    if |found| < quota && attempts < MaxScrollAttempts then
      Crawl(Pass(found, pages[attempts], quota), attempts + 1, pages, quota)
    else
      CrawlEnd(found, attempts)
  }

  /**
    The set the loop ends with, starting from nothing: empty when the quota is
    not positive, and never more than `quota` URLs otherwise, because the
    per-element early exit keeps the set from growing past the quota.
  */
  function Found(quota: int, pages: seq<Page>): (f: set<string>)
    requires |pages| == MaxScrollAttempts
    ensures quota <= 0 ==> f == {}
    ensures quota > 0 ==> |f| <= quota
  {
    if quota > 0 then
      CrawlWithinQuota({}, 0, pages, quota);
      Crawl({}, 0, pages, quota).found
    else
      Crawl({}, 0, pages, quota).found
  }

  /** The URL is the `src` the recovery click would read on some pass. */
  ghost predicate Recovered(u: string, pages: seq<Page>) {
    exists k :: 0 <= k < |pages| && pages[k].fullSize == Some(u)
  }

  /**
    What the loop may keep: candidates from the main scan, and at most one
    other, non-empty URL that came from the recovery click.
  */
  ghost predicate Admissible(found: set<string>, pages: seq<Page>) {
    && (forall u :: u in found ==> IsCandidate(u) || (u != "" && Recovered(u, pages)))
    && (forall u, v :: u in found && v in found && !IsCandidate(u) && !IsCandidate(v) ==> u == v)
  }

  /** A set below the quota never grows past it in a pass. */
  lemma PassWithinQuota(found: set<string>, page: Page, quota: int)
    requires |found| < quota
    ensures |Pass(found, page, quota)| <= quota
  {
  }

  /** A pass keeps what the loop may keep: it adds candidates, or the one recovery URL to an empty set. */
  lemma PassAdmissible(found: set<string>, k: nat, pages: seq<Page>, quota: int)
    requires k < |pages|
    requires Admissible(found, pages)
    ensures Admissible(Pass(found, pages[k], quota), pages)
  {
  }

  /** The loop keeps what it may keep, pass after pass. */
  lemma {:induction false} CrawlAdmissible(found: set<string>, attempts: nat, pages: seq<Page>, quota: int)
    requires attempts <= MaxScrollAttempts == |pages|
    requires Admissible(found, pages)
    ensures Admissible(Crawl(found, attempts, pages, quota).found, pages)
    decreases MaxScrollAttempts - attempts
  {
    if |found| < quota && attempts < MaxScrollAttempts {
      PassAdmissible(found, attempts, pages, quota);
      CrawlAdmissible(Pass(found, pages[attempts], quota), attempts + 1, pages, quota);
    }
  }

  /** A loop started at or below the quota ends at or below it. */
  lemma {:induction false} CrawlWithinQuota(found: set<string>, attempts: nat, pages: seq<Page>, quota: int)
    requires attempts <= MaxScrollAttempts == |pages|
    requires |found| <= quota
    ensures |Crawl(found, attempts, pages, quota).found| <= quota
    decreases MaxScrollAttempts - attempts
  {
    if |found| < quota && attempts < MaxScrollAttempts {
      PassWithinQuota(found, pages[attempts], quota);
      CrawlWithinQuota(Pass(found, pages[attempts], quota), attempts + 1, pages, quota);
    }
  }

  /**
    Every URL the loop ends with is a candidate of the main scan, except at
    most one non-empty URL taken from the recovery click.
  */
  lemma FoundAdmissible(quota: int, pages: seq<Page>)
    requires |pages| == MaxScrollAttempts
    ensures Admissible(Found(quota, pages), pages)
  {
    CrawlAdmissible({}, 0, pages, quota);
  }

  /**
    Once the set reaches the quota, the rest of the snapshot is not looked
    at: elements after that point do not change the result.
  */
  lemma {:induction false} ScanStopsAtQuota(found: set<string>, elements: seq<Element>, more: seq<Element>, quota: int)
    requires |found| < quota
    requires |Scan(found, elements, quota)| >= quota
    ensures Scan(found, elements + more, quota) == Scan(found, elements, quota)
    decreases |elements|
  {
    if elements != [] {
      assert (elements + more)[0] == elements[0];
      assert (elements + more)[1..] == elements[1..] + more;
      var next := Admit(found, elements[0]);
      if elements[0].Unreadable? {
        ScanStopsAtQuota(found, elements[1..], more, quota);
      } else if |next| < quota {
        ScanStopsAtQuota(next, elements[1..], more, quota);
      }
    }
  }

  /**
    A scan that ends below the quota has looked at every element: it holds
    exactly what it started with and every candidate of the snapshot.
  */
  lemma {:induction false} ScanBelowQuota(found: set<string>, elements: seq<Element>, quota: int)
    requires |Scan(found, elements, quota)| < quota
    ensures Scan(found, elements, quota) == found + Candidates(elements)
    decreases |elements|
  {
    if elements != [] {
      var next := Admit(found, elements[0]);
      assert Candidates(elements) == Admit(Candidates(elements[1..]), elements[0]);
      if elements[0].Unreadable? {
        ScanBelowQuota(found, elements[1..], quota);
      } else if |next| < quota {
        ScanBelowQuota(next, elements[1..], quota);
      }
    }
  }

  /**
    A scan started below the quota whose snapshot carries enough candidates
    to reach it stops with exactly `quota` URLs.
  */
  lemma {:induction false} ScanReachesQuota(found: set<string>, elements: seq<Element>, quota: int)
    requires |found| < quota <= |found + Candidates(elements)|
    ensures |Scan(found, elements, quota)| == quota
    decreases |elements|
  {
    if elements != [] {
      var next := Admit(found, elements[0]);
      assert Candidates(elements) == Admit(Candidates(elements[1..]), elements[0]);
      assert found + Candidates(elements) == next + Candidates(elements[1..]);
      if elements[0].Unreadable? {
        ScanReachesQuota(found, elements[1..], quota);
      } else if |next| < quota {
        ScanReachesQuota(next, elements[1..], quota);
      }
    }
  }

  /** A subset is no larger than the set holding it. */
  lemma {:induction false} SubsetSize(a: set<string>, b: set<string>)
    requires a <= b
    ensures |a| <= |b|
    decreases a
  {
    if a != {} {
      var x :| x in a;
      SubsetSize(a - {x}, b - {x});
    }
  }

  /**
    A pass over a snapshot whose candidates are fewer than the quota, starting
    from some of those candidates, ends with all of them.
  */
  lemma PassKeepsCandidates(found: set<string>, page: Page, quota: int)
    requires found <= Candidates(page.elements) != {}
    requires |Candidates(page.elements)| < quota
    ensures Pass(found, page, quota) == Candidates(page.elements)
  {
    var c := Candidates(page.elements);
    SubsetSize(Scan(found, page.elements, quota), c);
    ScanBelowQuota(found, page.elements, quota);
  }

  /** The loop over a snapshot that stays the same keeps all its candidates and nothing else. */
  lemma {:induction false} CrawlStaticPage(found: set<string>, attempts: nat, page: Page, pages: seq<Page>, quota: int)
    requires attempts <= MaxScrollAttempts == |pages|
    requires forall k :: 0 <= k < |pages| ==> pages[k] == page
    requires found <= Candidates(page.elements) != {}
    requires |Candidates(page.elements)| < quota
    requires attempts > 0 ==> found == Candidates(page.elements)
    ensures Crawl(found, attempts, pages, quota).found == Candidates(page.elements)
    decreases MaxScrollAttempts - attempts
  {
    var c := Candidates(page.elements);
    if attempts < MaxScrollAttempts {
      SubsetSize(found, c);
      assert pages[attempts] == page;
      PassKeepsCandidates(found, page, quota);
      CrawlStaticPage(c, attempts + 1, page, pages, quota);
    }
  }

  /**
    When scrolling shows nothing new and the page carries some but fewer
    candidates than asked for, the loop ends with exactly those candidates:
    three usable images and an avatar, with ten asked for, give the three.
  */
  lemma FoundOnStaticPage(quota: int, pages: seq<Page>)
    requires |pages| == MaxScrollAttempts
    requires forall k :: 0 <= k < |pages| ==> pages[k] == pages[0]
    requires Candidates(pages[0].elements) != {}
    requires |Candidates(pages[0].elements)| < quota
    ensures Found(quota, pages) == Candidates(pages[0].elements)
  {
    CrawlStaticPage({}, 0, pages[0], pages, quota);
  }

  /** One step of the scan at element `k`, as the loop in `ExtractImageUrls` takes it. */
  lemma ScanStep(found: set<string>, elements: seq<Element>, k: nat, quota: int)
    requires k < |elements|
    ensures elements[k].Unreadable? ==>
              Scan(found, elements[k..], quota) == Scan(found, elements[k + 1..], quota)
    ensures elements[k].Image? && |Admit(found, elements[k])| >= quota ==>
              Scan(found, elements[k..], quota) == Admit(found, elements[k])
    ensures elements[k].Image? && |Admit(found, elements[k])| < quota ==>
              Scan(found, elements[k..], quota) == Scan(Admit(found, elements[k]), elements[k + 1..], quota)
  {
  }

  /** Elements of a sequence are pairwise different. */
  predicate Distinct(s: seq<string>) {
    forall i, j :: 0 <= i < j < |s| ==> s[i] != s[j]
  }

  /** The length of `l[:n]` for a list of length `len`, following Python's slicing. */
  function SliceLength(len: nat, n: int): (r: nat)
    ensures r <= len
    ensures n >= len ==> r == len
    ensures 0 <= n ==> r <= n && (r == n || r == len)
    ensures n < 0 ==> len - r <= -n && (r == 0 || len - r == -n)
  {
    if n >= 0 then (if n < len then n else len)
    else if len + n > 0 then len + n else 0
  }

  /** `list(s)`: the elements of `s` once each, in an order the model does not fix. */
  method ListOf(s: set<string>) returns (l: seq<string>)
    ensures Distinct(l) && |l| == |s|
    ensures forall u :: u in l <==> u in s
  {
    l := [];
    var rest := s;
    while rest != {}
      invariant rest <= s
      invariant forall u :: u in l <==> u in s && u !in rest
      invariant Distinct(l)
      invariant |l| + |rest| == |s|
      decreases rest
    {
      var u :| u in rest;
      l := l + [u];
      rest := rest - {u};
    }
  }

  /**
    `list(s)[:n]`: distinct elements of `s`, as many as Python's slice keeps;
    a cut at least as long as the set keeps all of it.
  */
  method FirstOf(s: set<string>, n: int) returns (l: seq<string>)
    ensures Distinct(l) && |l| == SliceLength(|s|, n)
    ensures forall u :: u in l ==> u in s
    ensures |s| <= n ==> forall u :: u in s ==> u in l
  {
    var all := ListOf(s);
    l := all[..SliceLength(|all|, n)];
    if |s| <= n {
      assert l == all;
    }
  }

  /**
    The `for img in images` loop of one pass: reads each element's URL, adds
    it when it is a candidate, and breaks once the set holds `quota` URLs.
  */
  method ScanElements(found: set<string>, elements: seq<Element>, quota: int) returns (imageUrls: set<string>)
    ensures imageUrls == Scan(found, elements, quota)
  {
    imageUrls := found;
    var k := 0;
    assert elements[k..] == elements;
    while k < |elements|
      invariant 0 <= k <= |elements|
      invariant Scan(imageUrls, elements[k..], quota) == Scan(found, elements, quota)
    {
      var element := elements[k];
      ScanStep(imageUrls, elements, k, quota);
      ghost var seen := imageUrls;
      if element.Image? {
        var src := Source(element);
        if src.Some? && IsCandidate(src.value) {
          imageUrls := imageUrls + {src.value};
        }
        assert imageUrls == Admit(seen, element);
        if |imageUrls| >= quota {
          break;
        }
      }
      k := k + 1;
    }
  }

  /**
    `_extract_image_urls(num_images)` against the snapshots `pages`: the
    nested loops, the per-element early exit, the recovery after a pass that
    leaves the set empty, and `list(image_urls)[:num_images]`.
  */
  method ExtractImageUrls(numImages: int, pages: seq<Page>) returns (urls: seq<string>)
    requires |pages| == MaxScrollAttempts
    ensures Distinct(urls)
    ensures forall u :: u in urls ==> u in Found(numImages, pages)
    ensures |urls| == SliceLength(|Found(numImages, pages)|, numImages)
    ensures forall u :: u in Found(numImages, pages) ==> u in urls
  {
    var imageUrls: set<string> := {};
    var scrollAttempts := 0;
    while |imageUrls| < numImages && scrollAttempts < MaxScrollAttempts
      invariant 0 <= scrollAttempts <= MaxScrollAttempts
      invariant Crawl(imageUrls, scrollAttempts, pages, numImages) == Crawl({}, 0, pages, numImages)
      decreases MaxScrollAttempts - scrollAttempts
    {
      var page := pages[scrollAttempts];
      ghost var before := imageUrls;
      imageUrls := ScanElements(imageUrls, page.elements, numImages);
      scrollAttempts := scrollAttempts + 1;
      if |imageUrls| == 0 {
        match page.fullSize {
          case Some(src) =>
            if src != "" {
              imageUrls := imageUrls + {src};
            }
          case None =>
        }
      }
      assert imageUrls == Pass(before, page, numImages);
    }
    assert imageUrls == Found(numImages, pages);
    urls := FirstOf(imageUrls, numImages);
  }
}
