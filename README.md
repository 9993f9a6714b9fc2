# Yandex image scraper: a verified model of its core

The scraper collects image URLs from a Yandex Images results page and
downloads them into a folder. It has two entry points: a text search
(`search_and_download`) and a reverse image search (`reverse_image_search`).
This project models what is left of `YandexImageScraper` in
`yandex_image_scraper.py` once the browser, the network and the filesystem
are replaced by their answers:

- **URL accumulation** (`_extract_image_urls`). The loop makes at most ten
  passes. Each pass scans the image elements of the current page. It reads
  `src`, and `data-src` when `src` is absent or empty. It keeps a URL only if
  it starts with `http` and has no `avatar` in any case, and it stops
  scanning once the quota is met. After any pass that leaves the set empty,
  a recovery step adds the full-size image's `src`. The result is
  `list(set)[:num_images]`. The method `Extraction.ExtractImageUrls` runs
  these loops in the imperative form of the source. It is proved against
  the functions `Scan`, `Pass`, `Crawl` and `Found`, and the lemmas about
  those functions state the properties.
- **Extension inference and file names**. The first of `.png`, `.gif` and
  `.webp` found in the lower-cased URL is used, and `.jpg` otherwise. Files
  are named `<prefix>_<NNN><ext>`, where NNN is the 1-based position
  zero-padded to at least three digits (module `Naming`).
- **Download tally** (the `for i, url in enumerate(image_urls, 1)` loops).
  Each URL is named, transferred once and counted when it succeeds. A
  failure does not stop the batch (module `Download`).
- **Folder-name sanitisation** (`_create_folder`). Each of `<>:"/\|?*`
  becomes `_` (module `Folders`).
- **The two entry points**, with their early exits: results that never
  appear, an image file that does not exist, and no URL found (module
  `Scraper`).

Abstract inputs stand in for the browser and the network:
- `pages[k]` is the snapshot seen by pass `k` after its scroll. A snapshot
  holds the image elements as `(src, data-src)` options, or `Unreadable`
  when reading an attribute raised. It also holds the `src` that the
  recovery click would read.
- `resultsShown` and `uploaded` say whether the page waits succeeded.
- `imageExists` and `imageStem` stand for the reference image's path.
- `outcomes[i]` is the result of the `(i+1)`-th transfer attempted.

What the code does in detail, and the model with it:
- Extraction reads only the `src` and `data-src` attributes. The only
  filters are the `http` prefix and the absence of `avatar` in any case.
- The recovery click is tried again after every pass that leaves the set
  empty. The URL it reads is checked only for being non-empty.
- Scrolling (`_scroll_page`) repeats until the page height stops changing.

Proved facts beyond the source's own promises:
- The accumulated set never grows past the quota (`Found`), so the final
  `[:num_images]` cut never removes anything: every URL found is returned
  (`ExtractImageUrls`).
- A scan that ends below the quota keeps every candidate of its snapshot
  (`ScanBelowQuota`); one whose snapshot has enough candidates stops at
  exactly the quota (`ScanReachesQuota`).
- When scrolling shows nothing new, the loop ends with exactly the page's
  candidates if there are some but fewer than asked for (`FoundOnStaticPage`):
  three usable images and an avatar, with ten asked for, give the three.
- Apart from at most one recovery URL, every kept URL passes the
  `http`/`avatar` filter (`FoundAdmissible`).

## Model

| member | source | states |
|---|---|---|
| `Strings.LowerIsLower` | yandex_image_scraper.py:146 | lower-casing leaves no upper-case letter and is idempotent |
| `Strings.IsPrefix` | yandex_image_scraper.py:146 | `s.startswith(prefix)` holds exactly when `s` is `prefix` followed by the rest of `s` |
| `Strings.ContainsOccurs` | yandex_image_scraper.py:146 | `part in s` holds exactly when `part` occurs in `s` at some index |
| `Strings.Lower` | yandex_image_scraper.py:225-229 | lower-casing keeps the length, leaves no upper-case letter, keeps every other character, and moves each upper-case letter by the fixed distance from `A` to `a` |
| `Strings.ContainsLower` | yandex_image_scraper.py:225-229 | if `part` occurs in `s`, the lower-cased `part` occurs in the lower-cased `s` |
| `Naming.Extension` | yandex_image_scraper.py:224-230 | the extension is `.jpg` or one of `.png`, `.gif`, `.webp` |
| `Naming.FirstMarker` | yandex_image_scraper.py:225-230 | the result is the default or one of the markers tried |
| `Naming.ExtensionFirstMatch` | yandex_image_scraper.py:224-230 | `.jpg` exactly when no marker occurs in the lower-cased URL; a marker is chosen only if it occurs and no earlier marker in the order `.png`, `.gif`, `.webp` does |
| `Naming.PngInAnyCase` | yandex_image_scraper.py:225-226 | a URL containing `.png` in any case gets `.png`, whatever other markers it contains |
| `Naming.ExtensionIgnoresCase` | yandex_image_scraper.py:308-314 | the extension of a URL equals the extension of its lower-cased form |
| `Naming.Decimal` | yandex_image_scraper.py:232 | the decimal form of `n` is non-empty, all digits, and starts with `0` only for `0` |
| `Naming.ValueOfDecimal` | yandex_image_scraper.py:232 | reading the decimal form of `n` back gives `n` |
| `Naming.PadZerosReadsBack` | yandex_image_scraper.py:232 | zero-padding to a width gives length max(width, original) and keeps the value read |
| `Naming.Pad3` | yandex_image_scraper.py:232 | `{i:03d}` is all digits and at least three characters long |
| `Naming.Pad3ReadsBack` | yandex_image_scraper.py:232 | `{i:03d}` has length max(3, digits of i), is all digits and reads back as i |
| `Naming.IndexInFileName` | yandex_image_scraper.py:316 | the position can be read back from `<prefix>_<NNN><ext>` for any URL |
| `Naming.FileName` | yandex_image_scraper.py:232 | the name is the prefix and `_`, then at least three digits, then the URL's extension |
| `Naming.FileNamesDistinct` | yandex_image_scraper.py:232 | different positions give different file names, whatever the URLs |
| `Folders.Sanitize` | yandex_image_scraper.py:68 | the length is kept; each character of `<>:"/\|?*` becomes `_`, every other character is unchanged |
| `Folders.SanitizeRemovesReserved` | yandex_image_scraper.py:68 | a sanitised name holds no reserved character |
| `Folders.SanitizeIdempotent` | yandex_image_scraper.py:68 | sanitising twice equals sanitising once |
| `Folders.SanitizeKeepsClean` | yandex_image_scraper.py:68 | a name without reserved characters is left as it is |
| `Extraction.Source` | yandex_image_scraper.py:142-144 | `src` when present and non-empty, else `data-src`; nothing for an unreadable element |
| `Extraction.IsCandidate` | yandex_image_scraper.py:146 | a URL the scan keeps starts with `http` |
| `Extraction.AvatarInAnyCase` | yandex_image_scraper.py:146 | a URL holding `avatar` written in any mix of cases is never kept by the scan |
| `Extraction.Admit` | yandex_image_scraper.py:146-147 | an element adds at most one URL: its source exactly when that source is a candidate (non-empty, `http` first, no `avatar` in lower case), and nothing otherwise |
| `Extraction.Scan` | yandex_image_scraper.py:139-152 | the scan only grows the set; every URL it adds is a candidate read from some element; from below the quota it never passes the quota |
| `Extraction.Candidates` | yandex_image_scraper.py:139-147 | the URLs of a snapshot that pass the filter: exactly the candidates read from some element |
| `Extraction.ScanBelowQuota` | yandex_image_scraper.py:139-152 | a scan that ends below the quota holds exactly its starting set plus every candidate of the snapshot |
| `Extraction.ScanReachesQuota` | yandex_image_scraper.py:146-150 | a scan from below the quota over a snapshot with enough candidates stops with exactly `quota` URLs |
| `Extraction.ScanStopsAtQuota` | yandex_image_scraper.py:149-150 | once the set reaches the quota, the snapshot's remaining elements do not affect the result |
| `Extraction.ScanElements` | yandex_image_scraper.py:139-152 | the per-element loop with its `break` computes `Scan` |
| `Extraction.Pass` | yandex_image_scraper.py:139-172 | a pass contains its scan; it differs from it exactly when the scan left the set empty and the recovery `src` is non-empty, and then it is that single URL |
| `Extraction.PassWithinQuota` | yandex_image_scraper.py:159-170 | a pass started below the quota ends at most at the quota, recovery included |
| `Extraction.PassAdmissible` | yandex_image_scraper.py:159-172 | a pass keeps the invariant "candidates, plus at most one non-empty recovery URL" |
| `Extraction.PassKeepsCandidates` | yandex_image_scraper.py:139-172 | a pass over a snapshot with some but fewer candidates than the quota, from a subset of them, ends with all of them |
| `Extraction.Crawl` | yandex_image_scraper.py:126-172 | the loop makes at most 10 passes; it makes none when the quota is already met; it ends with the quota met or 10 passes done; the set only grows |
| `Extraction.CrawlWithinQuota` | yandex_image_scraper.py:129-172 | a loop started at or below the quota ends at or below it |
| `Extraction.CrawlAdmissible` | yandex_image_scraper.py:129-172 | the loop preserves the invariant "candidates, plus at most one non-empty recovery URL" |
| `Extraction.CrawlStaticPage` | yandex_image_scraper.py:129-172 | when every pass sees the same snapshot with some but fewer candidates than the quota, the loop ends with exactly those candidates |
| `Extraction.Found` | yandex_image_scraper.py:125-174 | for `num_images <= 0` the set is empty; otherwise it holds at most `num_images` URLs |
| `Extraction.FoundAdmissible` | yandex_image_scraper.py:125-174 | every URL found is a candidate or, at most one of them, a non-empty recovery URL seen on some pass |
| `Extraction.FoundOnStaticPage` | yandex_image_scraper.py:125-174 | from nothing, on an unchanging page with some but fewer candidates than asked for, the set found is exactly those candidates |
| `Extraction.SliceLength` | yandex_image_scraper.py:174 | `l[:n]` keeps the whole list when `n` reaches its length, otherwise exactly `n` items for `n >= 0`; a negative `n` drops `-n` items from the end, or everything |
| `Extraction.ListOf` | yandex_image_scraper.py:174 | `list(s)` holds each element of the set exactly once |
| `Extraction.FirstOf` | yandex_image_scraper.py:174 | `list(s)[:n]` is distinct, drawn from `s`, has the slice's length, and holds all of `s` when `n` is at least its size |
| `Extraction.ExtractImageUrls` | yandex_image_scraper.py:115-174 | the returned list has no duplicates, has the length of `list(set)[:num_images]`, and holds exactly the set the loop ends with: nothing outside it, and the cut removes nothing |
| `Download.CountSucceeded` | yandex_image_scraper.py:235-236 | the number of successful transfers is at most the number attempted |
| `Download.CountSucceededExtremes` | yandex_image_scraper.py:235-236 | the count equals the number attempted exactly when every transfer succeeded, and is zero exactly when none did |
| `Download.Planned` | yandex_image_scraper.py:221-236 | one transfer is planned per URL |
| `Download.PlannedAt` | yandex_image_scraper.py:222-236 | the i-th transfer has position i+1, the i-th URL, the name `<prefix>_<NNN><ext>` for that URL, and the i-th outcome |
| `Download.UrlsOfPlanned` | yandex_image_scraper.py:222 | the plan transfers exactly the given URLs, in order |
| `Download.PlannedNameIndex` | yandex_image_scraper.py:232 | the position can be read back from each planned file name |
| `Download.PlannedNamesDistinct` | yandex_image_scraper.py:316 | no two planned transfers write to the same file |
| `Download.DownloadAll` | yandex_image_scraper.py:221-236 | every URL is transferred once, in order, as planned; a failure does not stop later ones; the count is the number of successes |
| `Scraper.FetchAll` | yandex_image_scraper.py:212-236 | nothing is transferred for `num_images <= 0` or when no URL is found; otherwise each URL found is transferred once as planned; at most `num_images` transfers; count = successes |
| `Scraper.SearchFolder` | yandex_image_scraper.py:191-193 | the text-search folder is the given folder name, or else the search term, with each reserved character replaced by `_` and every other character kept; no reserved character remains |
| `Scraper.ReverseFolder` | yandex_image_scraper.py:262-264 | the reverse-search folder is the given folder name sanitised character by character, or else `reverse_search_` followed by the sanitised stem; no reserved character remains |
| `Scraper.SearchAndDownload` | yandex_image_scraper.py:176-239 | the folder is the sanitised folder name or search term; no results view means no transfer and 0; otherwise the found URLs are downloaded as `image_NNN<ext>` |
| `Scraper.ReverseImageSearch` | yandex_image_scraper.py:241-323 | a missing image means no folder, no transfer and 0; a failed upload means 0 after the folder is made; otherwise the found URLs are downloaded as `similar_NNN<ext>` |

## Left out

- `_scroll_page` (yandex_image_scraper.py:99-113) is not modelled. It loops until the page height stops changing, so its termination depends on the site. Each pass's scroll is folded into the snapshot `pages[k]`.
- `_init_driver`, `close`, the search-URL construction with `quote`, navigation, `WebDriverWait`, the camera-button click and the file upload are browser I/O. When they return normally, their success is the input `resultsShown` or `uploaded`.
- Exceptions that escape to the caller are not modelled. These are: the `sys.exit(1)` when the driver cannot start (yandex_image_scraper.py:52-55); a failing `driver.get` (lines 199 and 269, outside any `try`); a wait that fails with anything other than `TimeoutException` in the text search (line 206); and an `execute_script` error in `_scroll_page`, which runs before the `try` at line 134. The model always returns a count; the program would raise instead.
- `_download_image` (yandex_image_scraper.py:73-97) performs an HTTP GET streamed to a file. Its result is the input `outcomes[i]`. The folder path joined to each file name is not modelled: the folder is returned on its own.
- `Path.mkdir`, `Path.exists`, `Path.stem`, `time.sleep` and every `print` are left out. The existence check and the stem are inputs.
- A `find_elements` call that raises is the same as a snapshot with no elements. A failed recovery click is a snapshot whose `fullSize` is `None`.
- The order of `list(image_urls)` depends on Python's set iteration and is left unspecified: `ListOf` picks elements with `:|`.
- `Strings.Lower`: does not model Unicode case mapping beyond ASCII letters. The markers and `avatar` are ASCII.
- `main`, argparse and `example_usage.py` are command-line plumbing with no logic of their own.
