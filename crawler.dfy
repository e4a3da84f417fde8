/** The crawl loop of `scripts/crawl_site.py`: a breadth-first walk from a
    start URL over a FIFO queue of `(url, depth)` entries, a `visited` set
    and a count of saved pages.

    The network is the parameter `web`: for each URL, whether fetching it
    fails or what it answers, with the links already extracted from the
    page and normalised. A URL missing from `web` fails to fetch. */
module Crawler {
  import opened Text
  import opened Urls

  type Url = string

  /** What one request answers: a failure (network error, error status), or
      a response with its `Content-Type` and the normalised links of its
      `<a href>` elements. */
  datatype Response = Failed | Response(contentType: string, links: set<Url>)

  type Web = map<Url, Response>

  /** The fields of `CrawlConfig` the loop reads; `maxPages` is `None` when
      there is no cap. */
  datatype Config = Config(startUrl: Url, maxDepth: int, sameDomainOnly: bool, maxPages: Option<int>)

  datatype Entry = Entry(url: Url, depth: nat)

  /** `fetch_html` followed by `extract_links_and_images`: the links of the
      page, when the request succeeds and the lower-cased `Content-Type`
      contains `text/html`; `None` otherwise. */
  function FetchHtml(web: Web, url: Url): (r: Option<set<Url>>)
    ensures r.Some? <==> url in web && web[url].Response? && Contains(Lower(web[url].contentType), "text/html")
    ensures r.Some? ==> r.value == web[url].links
  {
    if url in web && web[url].Response? && Contains(Lower(web[url].contentType), "text/html") then
      Some(web[url].links)
    else None
  }

  /** A link may be followed: the domain filter is off, or the link is on
      the start URL's domain. */
  predicate Allowed(cfg: Config, url: Url) {
    !cfg.sameDomainOnly || SameDomain(cfg.startUrl, url)
  }

  /** The page budget is used up: `max_pages` is set and reached. */
  predicate BudgetSpent(cfg: Config, pages: nat) {
    cfg.maxPages.Some? && pages >= cfg.maxPages.value
  }

  /** The deepest any entry can be: `max_depth`, or 0 when it is negative. */
  function DepthCap(cfg: Config): nat {
    if cfg.maxDepth < 0 then 0 else cfg.maxDepth
  }

  /** The most pages a cap of `m` lets the crawler save. */
  function PageCap(m: int): nat {
    if m < 0 then 0 else m
  }

  /** Every URL the crawl could ever meet: the start and every link of every
      page in `web`. It is finite, which is why the crawl ends. */
  function Universe(cfg: Config, web: Web): set<Url> {
    {cfg.startUrl} + set u, l | u in web && web[u].Response? && l in web[u].links :: l
  }

  function UrlsOf(s: seq<Entry>): set<Url> {
    set i | 0 <= i < |s| :: s[i].url
  }

  lemma UrlsOfAppend(s: seq<Entry>, e: Entry)
    ensures UrlsOf(s + [e]) == UrlsOf(s) + {e.url}
  {
    var t := s + [e];
    assert forall i | 0 <= i < |s| :: t[i] == s[i];
    assert t[|s|] == e;
  }

  /** The URLs of `log` whose fetch gave an HTML page, in order: the pages
      the crawler saves. */
  function SavedOf(web: Web, log: seq<Entry>): (r: seq<Url>)
    ensures |r| <= |log|
  {
    if log == [] then []
    else
      var last := log[|log| - 1];
      SavedOf(web, log[..|log| - 1]) + (if FetchHtml(web, last.url).Some? then [last.url] else [])
  }

  /** Where an entry may be: within the depth cap; at depth 0 only the start
      URL; deeper, only allowed links. */
  predicate WellPlaced(cfg: Config, e: Entry) {
    e.depth <= DepthCap(cfg)
    && (e.depth == 0 ==> e.url == cfg.startUrl)
    && (e.depth > 0 ==> Allowed(cfg, e.url))
  }

  /** `p` is an HTML page that links to `c`, one level above it. */
  predicate IsParent(web: Web, p: Entry, c: Entry) {
    p.depth + 1 == c.depth && FetchHtml(web, p.url).Some? && c.url in FetchHtml(web, p.url).value
  }

  /** The entry at `i` of `log` is at depth 0, or is a link of a page fetched
      earlier in `log`, one level up. */
  predicate Linked(web: Web, log: seq<Entry>, i: nat)
    requires i < |log|
  {
    log[i].depth > 0 ==> exists k | 0 <= k < i :: IsParent(web, log[k], log[i])
  }

  predicate NoRepeats(log: seq<Entry>) {
    forall i, j | 0 <= i < j < |log| :: log[i].url != log[j].url
  }

  predicate DepthsSorted(s: seq<Entry>) {
    forall i, j | 0 <= i <= j < |s| :: s[i].depth <= s[j].depth
  }

  /** Every allowed link of every page saved above the depth limit is in
      `seen`. */
  predicate LinksReached(cfg: Config, web: Web, log: seq<Entry>, seen: set<Url>) {
    forall k, l | 0 <= k < |log| && log[k].depth < cfg.maxDepth && FetchHtml(web, log[k].url).Some?
      && l in FetchHtml(web, log[k].url).value && Allowed(cfg, l) :: l in seen
  }

  /** `url` appears in `s` at depth `d` or less. */
  predicate WithinDepth(s: seq<Entry>, url: Url, d: nat) {
    exists j | 0 <= j < |s| :: s[j].url == url && s[j].depth <= d
  }

  /** Breadth first: every allowed link of every page saved above the depth
      limit was fetched at most one level below that page. With `Linked`,
      this makes each logged depth the link distance from the start. */
  predicate LinksReachedAt(cfg: Config, web: Web, log: seq<Entry>) {
    forall k, l | 0 <= k < |log| && log[k].depth < cfg.maxDepth && FetchHtml(web, log[k].url).Some?
      && l in FetchHtml(web, log[k].url).value && Allowed(cfg, l) :: WithinDepth(log, l, log[k].depth + 1)
  }

  /** Level by level, even when the budget cuts the crawl short: an allowed
      link of a page saved above the depth limit is fetched at most one level
      below that page, unless nothing deeper than that level was fetched. */
  predicate LinksReachedBefore(cfg: Config, web: Web, log: seq<Entry>) {
    forall k, l | 0 <= k < |log| && log[k].depth < cfg.maxDepth && FetchHtml(web, log[k].url).Some?
      && l in FetchHtml(web, log[k].url).value && Allowed(cfg, l) ::
      WithinDepth(log, l, log[k].depth + 1) || forall j | 0 <= j < |log| :: log[j].depth <= log[k].depth + 1
  }

  /** Fetches stop at the budget: before each fetch in `log`, fewer pages
      than `max_pages` had been saved. */
  predicate FetchedWithinBudget(cfg: Config, web: Web, log: seq<Entry>) {
    cfg.maxPages.Some? ==> forall i | 0 <= i < |log| :: |SavedOf(web, log[..i])| < cfg.maxPages.value
  }

  // The loop invariant, in pieces.

  /** What was fetched and saved: each URL once, each one visited, the saved
      pages the HTML ones among them, within the budget. */
  predicate LogOk(cfg: Config, web: Web, visited: set<Url>, fetched: seq<Entry>, saved: seq<Url>, pages: nat) {
    NoRepeats(fetched) && visited == UrlsOf(fetched)
    && saved == SavedOf(web, fetched) && pages == |saved|
    && (cfg.maxPages.Some? ==> pages <= PageCap(cfg.maxPages.value))
    && (cfg.maxPages.Some? && cfg.maxPages.value <= 0 ==> fetched == [])
    && FetchedWithinBudget(cfg, web, fetched)
  }

  /** Where the entries are: placed, inside the universe, and (but for the
      seed) linked from a page fetched earlier. */
  predicate PlacedOk(cfg: Config, web: Web, queue: seq<Entry>, fetched: seq<Entry>) {
    (forall i | 0 <= i < |queue| :: WellPlaced(cfg, queue[i]) && queue[i].url in Universe(cfg, web))
    && (forall i | 0 <= i < |fetched| :: WellPlaced(cfg, fetched[i]))
    && (forall i | 0 <= i < |queue| :: queue[i].depth > 0 ==>
          exists k | 0 <= k < |fetched| :: IsParent(web, fetched[k], queue[i]))
    && (forall i | 0 <= i < |fetched| :: Linked(web, fetched, i))
  }

  /** FIFO order: depths never decrease along the fetch log and then the
      queue, and the queue spans at most two consecutive depths. */
  predicate OrderOk(queue: seq<Entry>, fetched: seq<Entry>) {
    DepthsSorted(queue) && DepthsSorted(fetched) && Spread(queue)
    && (forall k, i | 0 <= k < |fetched| && 0 <= i < |queue| :: fetched[k].depth <= queue[i].depth)
  }

  /** The queue spans at most two consecutive depths. */
  predicate Spread(queue: seq<Entry>) {
    forall i | 0 <= i < |queue| :: queue[i].depth <= queue[0].depth + 1
  }

  /** Nothing is lost: every allowed link of a page saved above the depth
      limit has been visited or is waiting in the queue; and before the first
      fetch the queue holds just the seed. */
  predicate FrontierOk(cfg: Config, web: Web, queue: seq<Entry>, visited: set<Url>, fetched: seq<Entry>) {
    LinksReached(cfg, web, fetched, visited + UrlsOf(queue))
    && (fetched == [] ==> queue == [Entry(cfg.startUrl, 0)])
    && (fetched != [] ==> fetched[0] == Entry(cfg.startUrl, 0))
  }

  /** `added` holds exactly the allowed links of `links` not in `visited`,
      each once, at `depth`. */
  predicate NewEntries(cfg: Config, links: set<Url>, visited: set<Url>, depth: nat, added: seq<Entry>) {
    NoRepeats(added)
    && (forall i | 0 <= i < |added| ::
      added[i].depth == depth && added[i].url in links && added[i].url !in visited && Allowed(cfg, added[i].url))
    && forall l | l in links && l !in visited && Allowed(cfg, l) :: l in UrlsOf(added)
  }

  /** The inner loop of `crawl`: the allowed, unvisited links of a page are
      appended to the queue at `depth`, in the order the loop over the set
      takes them. Links already waiting in the queue are appended again, as
      in the source. */
  method EnqueueChildren(cfg: Config, queue: seq<Entry>, links: set<Url>, visited: set<Url>, depth: nat)
    returns (q: seq<Entry>)
    ensures |queue| <= |q| && q == queue + q[|queue|..]
    ensures NewEntries(cfg, links, visited, depth, q[|queue|..])
  {
    q := queue;
    var rest := links;
    while rest != {}
      invariant rest <= links
      invariant |queue| <= |q| && q == queue + q[|queue|..]
      invariant NewEntries(cfg, links - rest, visited, depth, q[|queue|..])
      decreases rest
    {
      var link :| link in rest;
      rest := rest - {link};
      if Allowed(cfg, link) && link !in visited {
        var e := Entry(link, depth);
        assert link !in UrlsOf(q[|queue|..]);
        assert (q + [e])[|queue|..] == q[|queue|..] + [e];
        UrlsOfAppend(q[|queue|..], e);
        q := q + [e];
      }
    }
  }

  /** The loop form of `LinksReachedAt`: every allowed link of a page saved
      above the depth limit is logged or queued at most one level below it. */
  predicate NearOk(cfg: Config, web: Web, queue: seq<Entry>, fetched: seq<Entry>) {
    forall k, l | 0 <= k < |fetched| && fetched[k].depth < cfg.maxDepth && FetchHtml(web, fetched[k].url).Some?
      && l in FetchHtml(web, fetched[k].url).value && Allowed(cfg, l) ::
      WithinDepth(fetched, l, fetched[k].depth + 1) || WithinDepth(queue, l, fetched[k].depth + 1)
  }

  /** The whole loop invariant. */
  predicate Inv(cfg: Config, web: Web, queue: seq<Entry>, visited: set<Url>, fetched: seq<Entry>, saved: seq<Url>, pages: nat) {
    LogOk(cfg, web, visited, fetched, saved, pages) && PlacedOk(cfg, web, queue, fetched)
    && OrderOk(queue, fetched) && FrontierOk(cfg, web, queue, visited, fetched)
    && NearOk(cfg, web, queue, fetched) && visited <= Universe(cfg, web)
  }

  /** The children a fetched entry `e` puts in the queue: allowed links of
      its page, one level deeper, enqueued only above the depth limit. */
  predicate ChildrenOf(cfg: Config, web: Web, e: Entry, kids: seq<Entry>) {
    forall i | 0 <= i < |kids| ::
      kids[i].depth == e.depth + 1 && e.depth < cfg.maxDepth && FetchHtml(web, e.url).Some?
      && kids[i].url in FetchHtml(web, e.url).value && Allowed(cfg, kids[i].url)
  }

  /** Dropping an already visited entry from the front keeps the invariant. */
  lemma SkipStep(cfg: Config, web: Web, queue: seq<Entry>,
                 visited: set<Url>, fetched: seq<Entry>, saved: seq<Url>, pages: nat)
    requires Inv(cfg, web, queue, visited, fetched, saved, pages)
    requires queue != [] && queue[0].url in visited
    ensures Inv(cfg, web, queue[1..], visited, fetched, saved, pages)
  {
    var rest := queue[1..];
    PlacedDrop(cfg, web, queue, fetched);
    OrderStep(queue, [], fetched, rest, fetched + [queue[0]]);
    assert visited + UrlsOf(queue) <= visited + UrlsOf(rest) by {
      forall u | u in UrlsOf(queue) ensures u in visited + UrlsOf(rest) {
        var i :| 0 <= i < |queue| && queue[i].url == u;
        if i > 0 { assert rest[i - 1].url == u; }
      }
    }
    LinksReachedMono(cfg, web, fetched, visited + UrlsOf(queue), visited + UrlsOf(rest));
    SkipNear(cfg, web, queue, fetched);
    assert fetched != [];
  }

  /** A skipped front entry is already logged, no deeper than itself. */
  lemma SkipNear(cfg: Config, web: Web, queue: seq<Entry>, fetched: seq<Entry>)
    requires NearOk(cfg, web, queue, fetched) && OrderOk(queue, fetched)
    requires queue != [] && queue[0].url in UrlsOf(fetched)
    ensures NearOk(cfg, web, queue[1..], fetched)
  {
    var e, rest := queue[0], queue[1..];
    var j :| 0 <= j < |fetched| && fetched[j].url == e.url;
    forall k, l | 0 <= k < |fetched| && fetched[k].depth < cfg.maxDepth && FetchHtml(web, fetched[k].url).Some?
      && l in FetchHtml(web, fetched[k].url).value && Allowed(cfg, l)
      ensures WithinDepth(fetched, l, fetched[k].depth + 1) || WithinDepth(rest, l, fetched[k].depth + 1)
    {
      var d := fetched[k].depth + 1;
      if WithinDepth(queue, l, d) {
        var i :| 0 <= i < |queue| && queue[i].url == l && queue[i].depth <= d;
        if i == 0 {
          assert fetched[j].url == l && fetched[j].depth <= d;
        } else {
          assert rest[i - 1] == queue[i];
        }
      }
    }
  }

  lemma LinksReachedMono(cfg: Config, web: Web, log: seq<Entry>, seen: set<Url>, seen': set<Url>)
    requires LinksReached(cfg, web, log, seen) && seen <= seen'
    ensures LinksReached(cfg, web, log, seen')
  {
  }

  lemma PlacedDrop(cfg: Config, web: Web, queue: seq<Entry>, fetched: seq<Entry>)
    requires PlacedOk(cfg, web, queue, fetched) && queue != []
    ensures PlacedOk(cfg, web, queue[1..], fetched)
  {
    var rest := queue[1..];
    forall i | 0 <= i < |rest|
      ensures WellPlaced(cfg, rest[i]) && rest[i].url in Universe(cfg, web)
      ensures rest[i].depth > 0 ==> exists k | 0 <= k < |fetched| :: IsParent(web, fetched[k], rest[i])
    {
      assert rest[i] == queue[i + 1];
    }
  }

  /** Fetching a new URL records it once, in `visited` as in the log, and
      saves it only when it is an HTML page, within the budget. */
  lemma LogStep(cfg: Config, web: Web, e: Entry, visited: set<Url>, fetched: seq<Entry>, saved: seq<Url>, pages: nat,
                visited': set<Url>, fetched': seq<Entry>, saved': seq<Url>, pages': nat)
    requires LogOk(cfg, web, visited, fetched, saved, pages)
    requires e.url !in visited && !BudgetSpent(cfg, pages)
    requires visited' == visited + {e.url} && fetched' == fetched + [e]
    requires var ok := FetchHtml(web, e.url).Some?;
      saved' == (if ok then saved + [e.url] else saved) && pages' == (if ok then pages + 1 else pages)
    ensures LogOk(cfg, web, visited', fetched', saved', pages')
  {
    assert fetched'[..|fetched'| - 1] == fetched;
    assert SavedOf(web, fetched') == SavedOf(web, fetched) + (if FetchHtml(web, e.url).Some? then [e.url] else []);
    UrlsOfAppend(fetched, e);
    forall i | 0 <= i < |fetched'| ensures fetched'[..i] == if i < |fetched| then fetched[..i] else fetched {
    }
    forall i, j | 0 <= i < j < |fetched'| ensures fetched'[i].url != fetched'[j].url {
      if j < |fetched| {
        assert fetched'[i] == fetched[i] && fetched'[j] == fetched[j];
      } else {
        assert fetched'[i].url in UrlsOf(fetched);
      }
    }
  }

  /** The fetched entry and its children are placed where they may be. */
  lemma PlacedStep(cfg: Config, web: Web, queue: seq<Entry>, kids: seq<Entry>, fetched: seq<Entry>,
                   queue': seq<Entry>, fetched': seq<Entry>)
    requires PlacedOk(cfg, web, queue, fetched)
    requires queue != [] && ChildrenOf(cfg, web, queue[0], kids)
    requires queue' == queue[1..] + kids && fetched' == fetched + [queue[0]]
    ensures PlacedOk(cfg, web, queue', fetched')
  {
    var e, rest := queue[0], queue[1..];
    forall i | 0 <= i < |queue'|
      ensures WellPlaced(cfg, queue'[i]) && queue'[i].url in Universe(cfg, web)
      ensures queue'[i].depth > 0 ==> exists k | 0 <= k < |fetched'| :: IsParent(web, fetched'[k], queue'[i])
    {
      if i < |rest| {
        assert queue'[i] == queue[i + 1];
        if queue'[i].depth > 0 {
          var k :| 0 <= k < |fetched| && IsParent(web, fetched[k], queue'[i]);
          assert fetched'[k] == fetched[k];
        }
      } else {
        var c := kids[i - |rest|];
        assert queue'[i] == c;
        assert e.url in web && web[e.url].Response? && c.url in web[e.url].links;
        assert IsParent(web, fetched'[|fetched|], c);
      }
    }
    forall i | 0 <= i < |fetched'| ensures Linked(web, fetched', i) {
      if i < |fetched| {
        assert Linked(web, fetched, i);
        if fetched'[i].depth > 0 {
          var k :| 0 <= k < i && IsParent(web, fetched[k], fetched[i]);
          assert fetched'[k] == fetched[k] && fetched'[i] == fetched[i];
        }
      } else if fetched'[i].depth > 0 {
        var k :| 0 <= k < |fetched| && IsParent(web, fetched[k], queue[0]);
        assert fetched'[k] == fetched[k];
      }
    }
  }

  /** Taking the front entry and appending entries one level deeper keeps
      the queue sorted and within two depths, none shallower than the taken
      entry. */
  lemma QueueOrderStep(queue: seq<Entry>, kids: seq<Entry>, queue': seq<Entry>)
    requires DepthsSorted(queue) && Spread(queue)
    requires queue != [] && forall i | 0 <= i < |kids| :: kids[i].depth == queue[0].depth + 1
    requires queue' == queue[1..] + kids
    ensures DepthsSorted(queue') && Spread(queue')
    ensures forall i | 0 <= i < |queue'| :: queue[0].depth <= queue'[i].depth
  {
    var e, rest := queue[0], queue[1..];
    forall i | 0 <= i < |queue'|
      ensures e.depth <= queue'[i].depth <= e.depth + 1
      ensures i < |rest| ==> queue'[i] == queue[i + 1]
    {
      if i < |rest| {
        assert queue'[i] == queue[i + 1];
      } else {
        assert queue'[i] == kids[i - |rest|];
      }
    }
    forall i, j | 0 <= i <= j < |queue'| ensures queue'[i].depth <= queue'[j].depth {
      if j < |rest| {
        assert queue[i + 1].depth <= queue[j + 1].depth;
      }
    }
  }

  /** The same step keeps the whole order, with or without the taken entry
      added to the log. */
  lemma OrderStep(queue: seq<Entry>, kids: seq<Entry>, fetched: seq<Entry>, queue': seq<Entry>, fetched': seq<Entry>)
    requires OrderOk(queue, fetched)
    requires queue != [] && forall i | 0 <= i < |kids| :: kids[i].depth == queue[0].depth + 1
    requires queue' == queue[1..] + kids && fetched' == fetched + [queue[0]]
    ensures OrderOk(queue', fetched)
    ensures OrderOk(queue', fetched')
  {
    QueueOrderStep(queue, kids, queue');
    forall i, j | 0 <= i <= j < |fetched'| ensures fetched'[i].depth <= fetched'[j].depth {
      if j == |fetched| {
        if i < j { assert fetched'[i] == fetched[i] && fetched[i].depth <= queue[0].depth; }
      } else {
        assert fetched'[i] == fetched[i] && fetched'[j] == fetched[j];
      }
    }
    forall k, i | 0 <= k < |fetched'| && 0 <= i < |queue'| ensures fetched'[k].depth <= queue'[i].depth {
      if k < |fetched| { assert fetched'[k] == fetched[k] && fetched[k].depth <= queue[0].depth; }
    }
  }

  /** The links of the new page are visited or queued, so nothing is lost. */
  lemma FrontierStep(cfg: Config, web: Web, queue: seq<Entry>, kids: seq<Entry>, visited: set<Url>, fetched: seq<Entry>,
                     queue': seq<Entry>, visited': set<Url>, fetched': seq<Entry>)
    requires FrontierOk(cfg, web, queue, visited, fetched)
    requires queue != [] && queue[0].url !in visited
    requires queue' == queue[1..] + kids && visited' == visited + {queue[0].url} && fetched' == fetched + [queue[0]]
    requires var e := queue[0];
      FetchHtml(web, e.url).Some? && e.depth < cfg.maxDepth ==>
      forall l | l in FetchHtml(web, e.url).value && Allowed(cfg, l) && l !in visited' :: l in UrlsOf(kids)
    ensures FrontierOk(cfg, web, queue', visited', fetched')
  {
    var e, rest := queue[0], queue[1..];
    var seen, seen' := visited + UrlsOf(queue), visited' + UrlsOf(queue');
    assert seen <= seen' by {
      forall u | u in UrlsOf(queue) ensures u in seen' {
        var i :| 0 <= i < |queue| && queue[i].url == u;
        if i > 0 { assert queue'[i - 1] == queue[i]; }
      }
    }
    assert UrlsOf(kids) <= UrlsOf(queue') by {
      forall u | u in UrlsOf(kids) ensures u in UrlsOf(queue') {
        var i :| 0 <= i < |kids| && kids[i].url == u;
        assert queue'[|rest| + i] == kids[i];
      }
    }
    forall k, l | 0 <= k < |fetched'| && fetched'[k].depth < cfg.maxDepth && FetchHtml(web, fetched'[k].url).Some?
      && l in FetchHtml(web, fetched'[k].url).value && Allowed(cfg, l)
      ensures l in seen'
    {
      if k < |fetched| { assert fetched'[k] == fetched[k]; }
    }
    if fetched != [] {
      assert fetched'[0] == fetched[0];
    }
  }

  /** After a fetch, what was logged or queued near a saved page still is:
      the entry taken from the front is now logged at its own depth. */
  lemma FetchNearOld(cfg: Config, web: Web, queue: seq<Entry>, kids: seq<Entry>, fetched: seq<Entry>,
                     queue': seq<Entry>, fetched': seq<Entry>)
    requires NearOk(cfg, web, queue, fetched)
    requires queue != [] && queue' == queue[1..] + kids && fetched' == fetched + [queue[0]]
    ensures forall k, l | 0 <= k < |fetched| && fetched'[k].depth < cfg.maxDepth && FetchHtml(web, fetched'[k].url).Some?
      && l in FetchHtml(web, fetched'[k].url).value && Allowed(cfg, l) ::
      WithinDepth(fetched', l, fetched'[k].depth + 1) || WithinDepth(queue', l, fetched'[k].depth + 1)
  {
    forall k, l | 0 <= k < |fetched| && fetched'[k].depth < cfg.maxDepth && FetchHtml(web, fetched'[k].url).Some?
      && l in FetchHtml(web, fetched'[k].url).value && Allowed(cfg, l)
      ensures WithinDepth(fetched', l, fetched'[k].depth + 1) || WithinDepth(queue', l, fetched'[k].depth + 1)
    {
      assert fetched'[k] == fetched[k];
      var d := fetched[k].depth + 1;
      if WithinDepth(fetched, l, d) {
        var j :| 0 <= j < |fetched| && fetched[j].url == l && fetched[j].depth <= d;
        assert fetched'[j] == fetched[j];
      } else {
        var i :| 0 <= i < |queue| && queue[i].url == l && queue[i].depth <= d;
        if i == 0 {
          assert fetched'[|fetched|] == queue[0];
        } else {
          assert queue'[i - 1] == queue[i];
        }
      }
    }
  }

  /** The links of the page just fetched are logged no deeper than it, or
      queued one level below it. */
  lemma FetchNearNew(cfg: Config, web: Web, queue: seq<Entry>, kids: seq<Entry>, fetched: seq<Entry>,
                     queue': seq<Entry>, fetched': seq<Entry>)
    requires OrderOk(queue, fetched)
    requires queue != [] && ChildrenOf(cfg, web, queue[0], kids)
    requires queue' == queue[1..] + kids && fetched' == fetched + [queue[0]]
    requires var e := queue[0];
      FetchHtml(web, e.url).Some? && e.depth < cfg.maxDepth ==>
      forall l | l in FetchHtml(web, e.url).value && Allowed(cfg, l) && l !in UrlsOf(fetched) + {e.url} :: l in UrlsOf(kids)
    ensures var e := queue[0];
      FetchHtml(web, e.url).Some? && e.depth < cfg.maxDepth ==>
      forall l | l in FetchHtml(web, e.url).value && Allowed(cfg, l) ::
        WithinDepth(fetched', l, e.depth + 1) || WithinDepth(queue', l, e.depth + 1)
  {
    var e, rest := queue[0], queue[1..];
    if FetchHtml(web, e.url).Some? && e.depth < cfg.maxDepth {
      forall l | l in FetchHtml(web, e.url).value && Allowed(cfg, l)
        ensures WithinDepth(fetched', l, e.depth + 1) || WithinDepth(queue', l, e.depth + 1)
      {
        if l in UrlsOf(fetched) {
          var j :| 0 <= j < |fetched| && fetched[j].url == l;
          assert fetched'[j] == fetched[j] && fetched[j].depth <= e.depth;
        } else if l == e.url {
          assert fetched'[|fetched|] == e;
        } else {
          var i :| 0 <= i < |kids| && kids[i].url == l;
          assert queue'[|rest| + i] == kids[i];
        }
      }
    }
  }

  /** One fetch keeps the invariant: the front entry, not yet visited, is
      marked visited and logged, within the budget; it is saved and counted
      if it is an HTML page; and the queue loses it and gains `kids`, which
      are the allowed unvisited links of the page one level deeper when the
      page is HTML and above the depth limit, and nothing otherwise. */
  lemma FetchStep(cfg: Config, web: Web, queue: seq<Entry>, visited: set<Url>, fetched: seq<Entry>, saved: seq<Url>, pages: nat,
                  queue': seq<Entry>, visited': set<Url>, fetched': seq<Entry>, saved': seq<Url>, pages': nat)
    requires Inv(cfg, web, queue, visited, fetched, saved, pages)
    requires queue != [] && queue[0].url !in visited && !BudgetSpent(cfg, pages)
    requires Fetched(cfg, web, queue, visited, fetched, saved, pages, queue', visited', fetched', saved', pages')
    ensures Inv(cfg, web, queue', visited', fetched', saved', pages')
  {
    var e, kids := queue[0], queue'[|queue| - 1..];
    assert ChildrenOf(cfg, web, e, kids);
    LogStep(cfg, web, e, visited, fetched, saved, pages, visited', fetched', saved', pages');
    PlacedStep(cfg, web, queue, kids, fetched, queue', fetched');
    OrderStep(queue, kids, fetched, queue', fetched');
    FrontierStep(cfg, web, queue, kids, visited, fetched, queue', visited', fetched');
    FetchNearOld(cfg, web, queue, kids, fetched, queue', fetched');
    FetchNearNew(cfg, web, queue, kids, fetched, queue', fetched');
    assert NearOk(cfg, web, queue', fetched') by {
      forall k, l | 0 <= k < |fetched'| && fetched'[k].depth < cfg.maxDepth && FetchHtml(web, fetched'[k].url).Some?
        && l in FetchHtml(web, fetched'[k].url).value && Allowed(cfg, l)
        ensures WithinDepth(fetched', l, fetched'[k].depth + 1) || WithinDepth(queue', l, fetched'[k].depth + 1)
      {
        if k == |fetched| { assert fetched'[k] == e; }
      }
    }
  }

  /** The state after fetching the front entry of `queue`: it is marked
      visited and logged; saved and counted if it is an HTML page; and the
      queue loses it and gains, when the page is HTML and above the depth
      limit, the allowed unvisited links of the page one level deeper. */
  predicate Fetched(cfg: Config, web: Web, queue: seq<Entry>, visited: set<Url>, fetched: seq<Entry>, saved: seq<Url>, pages: nat,
                    queue': seq<Entry>, visited': set<Url>, fetched': seq<Entry>, saved': seq<Url>, pages': nat)
    requires queue != []
  {
    var e, page := queue[0], FetchHtml(web, queue[0].url);
    && visited' == visited + {e.url} && fetched' == fetched + [e]
    && saved' == (if page.Some? then saved + [e.url] else saved)
    && pages' == (if page.Some? then pages + 1 else pages)
    && |queue| - 1 <= |queue'| && queue' == queue[1..] + queue'[|queue| - 1..]
    && (if page.Some? && e.depth < cfg.maxDepth
        then NewEntries(cfg, page.value, visited', e.depth + 1, queue'[|queue| - 1..])
        else queue' == queue[1..])
  }

  /** One pass of the loop body past the budget check: the front entry,
      not yet visited, is marked visited and fetched; an HTML page is saved
      and counted, and above the depth limit the allowed unvisited links of
      the page are appended to the queue one level deeper. A failed or
      non-HTML fetch only drops the entry from the queue. */
  method Visit(cfg: Config, web: Web, queue: seq<Entry>,
               visited: set<Url>, fetched: seq<Entry>, saved: seq<Url>, pages: nat)
    returns (queue': seq<Entry>, visited': set<Url>, fetched': seq<Entry>, saved': seq<Url>, pages': nat)
    requires Inv(cfg, web, queue, visited, fetched, saved, pages)
    requires queue != [] && queue[0].url !in visited && !BudgetSpent(cfg, pages)
    ensures Fetched(cfg, web, queue, visited, fetched, saved, pages, queue', visited', fetched', saved', pages')
    ensures Inv(cfg, web, queue', visited', fetched', saved', pages')
  {
    var e := queue[0];
    var page := FetchHtml(web, e.url);
    visited' := visited + {e.url};
    queue' := queue[1..];
    if page.Some? && e.depth < cfg.maxDepth {
      queue' := EnqueueChildren(cfg, queue', page.value, visited', e.depth + 1);
    } else {
      assert queue' == queue[1..] + [];
    }
    saved', pages' := saved, pages;
    if page.Some? {
      saved' := saved + [e.url];
      pages' := pages + 1;
    }
    fetched' := fetched + [e];
    FetchStep(cfg, web, queue, visited, fetched, saved, pages, queue', visited', fetched', saved', pages');
  }

  /** What the crawl guarantees when it stops: the postcondition of `Crawl`,
      whose comment reads it clause by clause. */
  predicate Outcome(cfg: Config, web: Web, fetched: seq<Entry>, saved: seq<Url>, pages: nat, visited: set<Url>) {
    NoRepeats(fetched) && UrlsOf(fetched) <= visited <= Universe(cfg, web)
    && saved == SavedOf(web, fetched) && pages == |saved|
    && (cfg.maxPages.Some? ==> pages <= PageCap(cfg.maxPages.value))
    && (cfg.maxPages.Some? && cfg.maxPages.value <= 0 ==> fetched == [])
    && (forall i | 0 <= i < |fetched| :: WellPlaced(cfg, fetched[i]))
    && (forall i | 0 <= i < |fetched| :: Linked(web, fetched, i))
    && DepthsSorted(fetched)
    && (!(cfg.maxPages.Some? && cfg.maxPages.value <= 0) ==> fetched != [] && fetched[0] == Entry(cfg.startUrl, 0))
    && FetchedWithinBudget(cfg, web, fetched)
    && (!BudgetSpent(cfg, pages) ==>
          visited == UrlsOf(fetched) && LinksReachedAt(cfg, web, fetched))
    && LinksReachedBefore(cfg, web, fetched)
  }

  /** Stopping because the queue ran dry. */
  lemma DrainedOutcome(cfg: Config, web: Web, visited: set<Url>, fetched: seq<Entry>, saved: seq<Url>, pages: nat)
    requires Inv(cfg, web, [], visited, fetched, saved, pages)
    ensures Outcome(cfg, web, fetched, saved, pages, visited)
  {
    assert UrlsOf([]) == {};
    assert forall l, d :: !WithinDepth([], l, d);
  }

  /** Stopping because the budget ran out, after marking `e` visited. */
  lemma BudgetOutcome(cfg: Config, web: Web, queue: seq<Entry>, visited: set<Url>, fetched: seq<Entry>,
                      saved: seq<Url>, pages: nat, e: Entry)
    requires Inv(cfg, web, queue, visited, fetched, saved, pages)
    requires queue != [] && e == queue[0] && BudgetSpent(cfg, pages)
    ensures Outcome(cfg, web, fetched, saved, pages, visited + {e.url})
  {
    assert e.url in Universe(cfg, web);
    if fetched == [] {
      assert saved == [];
    }
    forall k, l | 0 <= k < |fetched| && fetched[k].depth < cfg.maxDepth && FetchHtml(web, fetched[k].url).Some?
      && l in FetchHtml(web, fetched[k].url).value && Allowed(cfg, l)
      ensures WithinDepth(fetched, l, fetched[k].depth + 1)
        || forall j | 0 <= j < |fetched| :: fetched[j].depth <= fetched[k].depth + 1
    {
      if !WithinDepth(fetched, l, fetched[k].depth + 1) {
        var i :| 0 <= i < |queue| && queue[i].url == l && queue[i].depth <= fetched[k].depth + 1;
      }
    }
  }

  /** `crawl(config)`, with the network replaced by `web`. It returns the
      log of fetches `(url, depth)` in order, the saved pages in order, the
      final `pages_crawled` and `visited`.

      - Each URL is fetched at most once, and only after it was marked visited.
      - The saved pages are exactly the fetches that gave HTML, so a failed or
        non-HTML fetch neither counts nor enqueues anything.
      - `pages_crawled` never exceeds `max_pages`, a cap of 0 or less
        fetches nothing, and once the cap is reached nothing more is fetched.
      - Every fetch is within the depth cap, on the start's domain when so
        configured, at depth 0 only for the start, otherwise linked from a
        page fetched before it one level up; depths never decrease.
      - Unless the budget ran out, the crawl is complete and breadth first:
        every allowed link of every page saved above the depth limit was
        fetched, at most one level below that page.
      - Even when it ran out, the crawl goes level by level: such a link is
        fetched at most one level below its page, or no fetch is deeper
        than that level. */
  method Crawl(cfg: Config, web: Web) returns (fetched: seq<Entry>, saved: seq<Url>, pagesCrawled: nat, visited: set<Url>)
    ensures Outcome(cfg, web, fetched, saved, pagesCrawled, visited)
  {
    visited := {};
    var queue := [Entry(cfg.startUrl, 0)];
    pagesCrawled := 0;
    fetched, saved := [], [];
    assert UrlsOf([]) == {};
    while queue != []
      invariant Inv(cfg, web, queue, visited, fetched, saved, pagesCrawled)
      decreases Universe(cfg, web) - visited, |queue|
    {
      var e := queue[0];
      if e.url in visited {
        SkipStep(cfg, web, queue, visited, fetched, saved, pagesCrawled);
        queue := queue[1..];
        continue;
      }
      if BudgetSpent(cfg, pagesCrawled) {
        BudgetOutcome(cfg, web, queue, visited, fetched, saved, pagesCrawled, e);
        visited := visited + {e.url};
        break;
      }
      queue, visited, fetched, saved, pagesCrawled := Visit(cfg, web, queue, visited, fetched, saved, pagesCrawled);
    }
    if queue == [] {
      DrainedOutcome(cfg, web, visited, fetched, saved, pagesCrawled);
    }
  }
}
