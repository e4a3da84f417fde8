# A verified model of `crawl_site.py`

`scripts/crawl_site.py` is a depth-limited, breadth-first web crawler. It starts
at one URL. It fetches pages, saves each HTML page under a file name derived
from its URL, downloads the page's images, and follows links level by level up
to a maximum depth. It can be limited to the start URL's domain and capped at
a number of saved pages.

This project models the core of that crawler in Dafny and proves properties of
the model. It has five modules, one file each:

- `text.dfy` (`Text`): the Python string operations the crawler uses. These
  are `strip`, ASCII `lower`, `find`/`rfind`, `startswith`/`endswith`, `in`,
  and the sanitiser `re.sub(r"[^A-Za-z0-9._-]", "_", s)`.
- `urlparse.dfy` (`UrlParse`): `urlparse` and `urldefrag`, as CPython's
  `urlsplit` splits a URL into scheme, netloc, path, params, query and
  fragment (section 3 of RFC 3986). Also POSIX `os.path.basename` and
  `os.path.splitext`.
- `urls.dfy` (`Urls`): `normalize_url` and `same_domain`. `urljoin`
  (reference resolution, section 5.2 of RFC 3986) is a function-typed
  parameter `join`, and nothing is assumed about it.
- `filenames.dfy` (`Filenames`): `html_filename_for_url`,
  `image_filename_for_url`, and the rule in `download_image` that swaps a
  `.bin` extension for the subtype of an `image/...` `Content-Type`. SHA-1 is
  a parameter `sha` of type `Digest`. Its results are `Hex8`: exactly eight
  lower-case hex digits, which is all `hexdigest()[:8]` promises.
- `crawler.dfy` (`Crawler`): the `crawl` loop, as an imperative method with
  the source's own state: a FIFO queue of `(url, depth)`, the `visited` set
  and `pages_crawled`. The network is a map `web` from URL to `Failed` or a
  response (its `Content-Type` and its normalised links). A URL missing from
  the map fails to fetch. The method also returns the log of fetches and the
  list of saved pages, so that its postcondition can talk about them.

The main results:

- `Crawl` terminates over any finite `web`, because each fetch grows
  `visited` inside the finite set of URLs the web mentions.
- No URL is fetched twice.
- The saved pages are exactly the HTML fetches. So a failed or non-HTML fetch
  neither counts nor enqueues anything.
- `pages_crawled` never exceeds `max_pages`, and a cap of 0 fetches nothing.
- Every fetched entry has depth at most `max_depth` and is on the start
  URL's domain when that is required. Apart from the seed, each was linked
  from a page fetched before it, one level up.
- Depths never decrease along the fetch order.
- Once `pages_crawled` reaches `max_pages`, nothing more is fetched.
- Unless the budget ran out, the crawl is complete and breadth first. Every
  allowed link of every page saved above the depth limit was fetched, at
  most one level below that page. So each page is logged at its link
  distance from the start.
- Even when the budget cuts the crawl short, it goes level by level: an
  allowed link of a saved page above the depth limit is either fetched at
  most one level below that page, or nothing deeper than that level was
  fetched at all.
- `normalize_url` is `None` exactly for an empty link, for the blocked
  prefixes, and for non-`http(s)` results. Otherwise it is the joined URL cut
  at its first `#`. Where a `#` is present, `urldefrag` rebuilds the URL
  and so can spell it differently; "Left out" lists how.
- The file names are built only from safe characters, and have the
  structure the code gives them.

## Model

| member | source | states |
|---|---|---|
| Crawler.Crawl | scripts/crawl_site.py:194-250 | Its postcondition is `Outcome`. The loop terminates. The fetch log has no repeated URL, and everything fetched was marked visited. The saved pages are exactly the fetches whose response was HTML, and `pages_crawled` is their number. The count never exceeds `max_pages`, and a cap of 0 (or less) fetches nothing. Every fetch is within the depth cap, at depth 0 only for the start URL, and otherwise an allowed (same-domain when configured) link of a page fetched earlier one level up. Depths never decrease. Unless the cap is 0 or less, the start URL is fetched first. Before each fetch, fewer than `max_pages` pages had been saved. If the budget was not spent, every allowed link of every saved page above the depth limit was fetched, at most one level below that page. Even when it was spent, such a link is fetched at most one level below its page unless no fetch is deeper than that level (`LinksReachedBefore`). |
| Crawler.Visit | scripts/crawl_site.py:209-246 | One pass of the loop body for an unvisited front entry within budget. The entry is marked visited before its fetch and logged. A successful HTML fetch is saved and counted. Above the depth limit, exactly the allowed unvisited links of the page are appended at depth+1, each once. A failed or non-HTML fetch only drops the entry. The loop invariant is preserved. |
| Crawler.EnqueueChildren | scripts/crawl_site.py:240-246 | The queue keeps its old entries as a prefix. What is appended is exactly the links of the page that pass the domain filter and are not visited, each once and at the given depth, in any order. |
| Crawler.Allowed | scripts/crawl_site.py:243 | A link passes the filter exactly when the domain restriction is off or it is on the start URL's domain. |
| Crawler.BudgetSpent | scripts/crawl_site.py:214 | The budget is spent exactly when `max_pages` is set and the count has reached it. |
| Crawler.FetchHtml | scripts/crawl_site.py:180-191 | A page and its links are returned exactly when the request succeeds and the lower-cased `Content-Type` contains `text/html`; `None` otherwise. |
| Crawler.SavedOf | scripts/crawl_site.py:234-238 | Its body defines the saved pages: the URLs of the fetches whose response is HTML, in fetch order. Its contract adds that there are never more of them than fetches. |
| Crawler.SkipStep | scripts/crawl_site.py:209-211 | Dropping a front entry that is already visited preserves the whole loop invariant. |
| Crawler.FetchStep | scripts/crawl_site.py:209-246 | Any state that `Fetched` relates to a valid state, for an unvisited front entry within budget, is valid again. |
| Crawler.LogStep | scripts/crawl_site.py:212-219 | Adding a new URL to `visited` and to the log keeps the log free of repeats and equal to `visited`. Saving and counting only an HTML page keeps the saved pages equal to the HTML fetches and the count within the cap. Each fetch in the log was made while fewer than `max_pages` pages had been saved. |
| Crawler.PlacedStep | scripts/crawl_site.py:241-246 | Children enqueued at depth+1 from a fetched HTML page stay within the depth cap and the domain filter. Each has a parent in the log. |
| Crawler.PlacedDrop | scripts/crawl_site.py:209 | Popping the front entry keeps every remaining entry placed and linked. |
| Crawler.QueueOrderStep | scripts/crawl_site.py:208-246 | Popping the front and appending entries one level deeper keeps queue depths non-decreasing front to back, and within two consecutive levels. None is shallower than the popped entry. |
| Crawler.OrderStep | scripts/crawl_site.py:208-246 | The same step keeps the whole FIFO order: log depths are non-decreasing, and none exceeds any queued depth. |
| Crawler.FrontierStep | scripts/crawl_site.py:212-246 | After a fetch, every allowed link of every saved page above the depth limit is visited or queued. |
| Crawler.SkipNear | scripts/crawl_site.py:209-211 | Skipping a visited front entry keeps every allowed link of a saved page logged or queued at most one level below that page. The skipped URL is already logged, no deeper. |
| Crawler.FetchNearOld | scripts/crawl_site.py:209-246 | After a fetch, links that were logged or queued near a saved page still are. The entry taken from the front is now logged at its own depth. |
| Crawler.FetchNearNew | scripts/crawl_site.py:240-246 | The links of a page just fetched above the depth limit are logged no deeper than it, or queued one level below it. |
| Crawler.DrainedOutcome | scripts/crawl_site.py:208 | When the queue is empty, the loop invariant gives the crawl's full postcondition. |
| Crawler.BudgetOutcome | scripts/crawl_site.py:212-215 | Stopping at the budget check, after marking the front entry visited, still gives the crawl's postcondition. |
| Crawler.UrlsOfAppend | scripts/crawl_site.py:212 | Logging an entry adds exactly its URL to the set of logged URLs. |
| Urls.IsBlocked | scripts/crawl_site.py:60 | A link is rejected exactly when it starts with `javascript:`, `mailto:`, `tel:` or `data:`. |
| Urls.NormalizeUrl | scripts/crawl_site.py:54-72 | A result exists if and only if the link is non-empty, its stripped form has none of the prefixes `javascript:`, `mailto:`, `tel:`, `data:`, and the joined URL has scheme `http` or `https`. A result has a web scheme and no `#`. It is the joined URL cut at its first `#`, and `urlparse` finds the same components in it but an empty fragment. |
| Urls.BlockedIsNotWeb | scripts/crawl_site.py:60-61 | Each blocked prefix parses as a scheme other than `http`/`https`. |
| Urls.NormalizeIdempotent | scripts/crawl_site.py:54-72 | Normalising a normalised URL again gives the same result, when `join` resolves it to itself and it has no trailing whitespace. |
| Urls.NormalizeFixedPoint | scripts/crawl_site.py:54-72 | A web URL with no fragment and no surrounding whitespace, that `join` leaves alone, normalises to itself. |
| Urls.SameDomain | scripts/crawl_site.py:75-77 | True if and only if the two netlocs have the same length and agree position by position after ASCII lower-casing. |
| Urls.SameDomainEquivalence | scripts/crawl_site.py:75-77 | `same_domain` is reflexive, symmetric and transitive. |
| Urls.SameDomainIgnoresFragment | scripts/crawl_site.py:75-77 | Cutting the fragment from one URL never changes the answer. |
| UrlParse.Parse | scripts/crawl_site.py:69 | The components are the scheme, netloc, query and fragment slices. The path is the path slice, with `;params` split off it only for the schemes that use them; the params hold no `/`. |
| UrlParse.Defrag | scripts/crawl_site.py:67 | The result is a prefix of the URL with no `#`. A URL without `#` is unchanged. |
| UrlParse.ParseDefrag | scripts/crawl_site.py:67-69 | Cutting the fragment leaves every other `urlparse` component unchanged, and empties the fragment. |
| UrlParse.SchemeDefrag | scripts/crawl_site.py:67-70 | Cutting the fragment keeps the scheme. |
| UrlParse.NetlocDefrag | scripts/crawl_site.py:67-69 | Cutting the fragment keeps the netloc. |
| UrlParse.PathDefrag | scripts/crawl_site.py:67-69 | Cutting the fragment keeps the path and params. |
| UrlParse.QueryDefrag | scripts/crawl_site.py:67-69 | Cutting the fragment keeps the query. |
| UrlParse.Basename | scripts/crawl_site.py:107 | The result has no `/` and ends the path, just after its last `/`. |
| UrlParse.SplitExt | scripts/crawl_site.py:112 | The two parts concatenate back to the name. The extension is empty, or a single `.` followed by no further `.` or `/`, preceded by some non-dot character. |
| UrlParse.SplitExtNoDot | scripts/crawl_site.py:112-113 | A name without `.` has no extension. |
| UrlParse.SplitExtAppend | scripts/crawl_site.py:112-114 | A stem with a non-dot character followed by a one-dot extension splits back into that stem and that extension. |
| Text.Strip | scripts/crawl_site.py:58 | The result is the slice between leading and trailing whitespace, and neither starts nor ends with whitespace. |
| Text.StripNoSpace | scripts/crawl_site.py:58 | A string without surrounding whitespace strips to itself. |
| Text.Lower | scripts/crawl_site.py:77 | Same length; each character is lower-cased, and only ASCII capitals change. |
| Text.Sanitize | scripts/crawl_site.py:91 | Same length, only safe characters. Safe characters are kept and every other character becomes `_`. |
| Text.SanitizeAppend | scripts/crawl_site.py:91 | Sanitising distributes over concatenation. |
| Text.SanitizeSafe | scripts/crawl_site.py:108 | A safe string is its own sanitised form, so sanitising is idempotent. |
| Filenames.RawBase | scripts/crawl_site.py:82-88 | The base starts with the netloc followed by the path (`/` when the path is empty), and never ends in `/`. An empty or `/`-terminated path gives a base ending in `index`. Any other path gives exactly netloc plus path, with no `index` appended. |
| Filenames.CapBase | scripts/crawl_site.py:99-100 | The base is at most 160 characters. One of up to 160 is kept. A longer one becomes its first 120 characters, `-` and the 8-digit hash of the whole base (129 characters). Safe characters stay safe. |
| Filenames.HtmlBase | scripts/crawl_site.py:82-100 | The base of a page file name is safe and at most 160 characters. |
| Filenames.PageName | scripts/crawl_site.py:93-102 | The name is safe, starts with the base and ends in `.html`. It is exactly 5 characters longer than the base if and only if the query is empty. Otherwise `-<8 hex of the query>.html` follows the base. |
| Filenames.HtmlFilename | scripts/crawl_site.py:80-102 | `html_filename_for_url`: only safe characters, ends in `.html`, starts with the capped base. The query hash is present if and only if the query is non-empty. |
| Filenames.SanitizeIndex | scripts/crawl_site.py:87-91 | Sanitising keeps an `index` ending. |
| Filenames.HtmlIndex | scripts/crawl_site.py:83-91 | An empty or `/`-terminated path gives a base ending in `index`, whenever the length cap does not cut it. |
| Filenames.HtmlIgnoresFragment | scripts/crawl_site.py:80-102 | The fragment plays no part in a page's file name. |
| Filenames.ImageName | scripts/crawl_site.py:106-108 | The name is non-empty and safe. It is `image` when the basename of the path is empty, and the sanitised basename otherwise. |
| Filenames.HashedName | scripts/crawl_site.py:110-114 | `root-<hash>ext` is safe and splits back into `root-<hash>` and the extension, where a missing extension becomes `.bin`. |
| Filenames.HashedNameSplits | scripts/crawl_site.py:112-114 | Re-splitting `root-<hash>` plus the (defaulted) extension gives exactly those two parts. |
| Filenames.OrBin | scripts/crawl_site.py:113 | A missing extension becomes `.bin`; any other extension is kept. |
| Filenames.ImageFilename | scripts/crawl_site.py:105-114 | `image_filename_for_url`: only safe characters. It splits into `root-<8 hex of the URL>` and the name's own extension, or `.bin`. |
| Filenames.ImageDefault | scripts/crawl_site.py:107-113 | A URL whose path names no file gives `image-<hash>.bin`. |
| Filenames.SubtypeStart | scripts/crawl_site.py:166 | The subtype starts just after the first `/`, or at 0 when there is none. |
| Filenames.Subtype | scripts/crawl_site.py:166 | The subtype is the slice from there up to the first `;` or the end, and holds no `;`. |
| Filenames.ImageSubtypeStart | scripts/crawl_site.py:166 | For an `image/...` type, the subtype starts at index 6. |
| Filenames.SubtypeMatches | scripts/crawl_site.py:168 | `re.match(r"^[A-Za-z0-9.+-]+$", subtype)`: one or more letters, digits, `.`, `+` or `-`, optionally followed by one final newline, since `$` also matches before it. |
| Filenames.SavedImageName | scripts/crawl_site.py:154-169 | `None` if and only if the lower-cased `Content-Type` does not start with `image/`. A name whose extension is not `.bin` is kept. So is a name whose subtype fails `^[A-Za-z0-9.+-]+$`. Otherwise `.bin` is replaced by `.<subtype>`. |
| Filenames.SavedExtensionIsSubtype | scripts/crawl_site.py:163-169 | After a replacement by a dot-free subtype, the file splits into the old root and `.<subtype>`. |
| Filenames.AppendExtension | scripts/crawl_site.py:169 | `root + "." + subtype` splits back into `root` and `.<subtype>`. |
| Filenames.ImageFromContentType | scripts/crawl_site.py:163-169 | An image URL with no extension, served with a valid `image/<subtype>`, is saved as `<name>-<hash>.<subtype>`. |
| Filenames.ImageKeepsExtension | scripts/crawl_site.py:163-165 | An image URL with an extension other than `.bin` keeps its file name, whatever the content type. |

## Left out

- The HTTP session, headers, timeouts and `raise_for_status` are not modelled. A request is the map `web`: a missing entry or `Failed` stands for any exception or error status. A missing `Content-Type` header is the empty string.
- BeautifulSoup parsing in `extract_links_and_images` is not modelled, because it is a foreign library. A page's links are given as an already-normalised set.
- The image work inside the loop (lines 221-232) is not modelled: downloading each image, `rewrite_image_sources`, and the relative paths it writes. It does not affect the queue, `visited` or `pages_crawled`. The naming rules it relies on are modelled in `Filenames`.
- File system effects are not modelled: `ensure_dir`, the writes of pages and images, `os.path.relpath` and `os.getcwd`. The saved pages are returned as a list of URLs instead.
- `time.sleep` and the float clamps on the delay and the timeout are not modelled, because they only affect timing.
- `parse_args` and `main` are not modelled. `max_depth` is taken as any integer. A negative one behaves like 0, which `max(0, depth)` would have produced anyway.
- SHA-1 and `urljoin` are parameters, not implementations. Only the shape of `hexdigest()[:8]` is kept.
- Some details of `urlsplit` are not modelled: stripping leading C0 controls and spaces, removing tabs and newlines, and the `ValueError` on malformed IPv6 brackets. Nothing in the crawler catches that error, so one link such as `http://[bad` on a page ends the whole crawl; the model treats every link as parseable. `urldefrag` is modelled as cutting the URL at its first `#`. When there is a `#`, CPython rebuilds the URL with `urlunparse(urlparse(url))`, which can respell it. It lower-cases the scheme, so `HTTPS://y/p#f` becomes `https://y/p` where the model gives `HTTPS://y/p`. It drops an empty `?` query, so `http://x/a?#f` becomes `http://x/a` where the model gives `http://x/a?`. It drops an empty `;` params wherever it stands in front of the query, so `http://x/a;?q#f` becomes `http://x/a?q`. It inserts `//` after a scheme that uses a netloc when the netloc is empty, so `http:/foo#x` becomes `http:///foo` and `http:#x` becomes `http://`. Other `urlunparse` normalisations may differ too; the model does not rebuild the URL at all. In those cases the model's normalised URL, and so the key it puts in `visited` and the file name it derives, is spelled differently from the source's.
- `str.lower()` is modelled on ASCII letters only. Characters outside ASCII are left unchanged.
- SavedImageName: splits the bare file name rather than `os.path.join(images_dir, filename)`. The file name never holds a `/`, so this gives the same extension and the same root after the directory.
- Crawl: does not fix one fetch order, because links within a page follow Python's set iteration order. `EnqueueChildren` may take them in any order, and the contract holds for every order.
- Crawl: does not state completeness when the budget stops the crawl, because the source then leaves queued links unfetched on purpose. It states only `LinksReachedBefore`, so it does not fix which entries of the deepest fetched level come first; in the source, the FIFO order of their parents decides that.
- NormalizeIdempotent: needs `join` to resolve the normalised URL to itself and the URL to have no trailing whitespace. Nothing is known about `urljoin`, and the source does not claim idempotence.
- HtmlIndex: needs the unsanitised base to be at most 160 characters. A longer base is cut to 120 characters plus a hash, which can drop the `index` ending, as the source does.
