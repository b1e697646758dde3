/** The crawl orchestration of `main.py`: choosing the site domain, the
    daily `[MM-DD]` filter, the bounded per-forum page loop with its stop
    conditions, the per-mode topic and saved counters, and the `all` mode
    that runs picture mode and then novel mode. Fetching a URL, parsing
    HTML, downloading an image, writing a file and `urljoin` are oracles. */
module Crawler {
  import opened Strings
  import opened Html
  import opened Parser
  import opened Saver

  /** The domain used when the configuration names none. */
  const DefaultDomain := "wm.wmhuu.com"

  // ---------------------------------------------------------------------
  // Configuration
  // ---------------------------------------------------------------------

  /** `get_fastest_domain`: no domain for an empty list, else the first. */
  function FastestDomain(domains: seq<string>): (d: Option<string>)
    ensures d.None? <==> domains == []
    ensures d.Some? ==> d.value in domains && d.value == domains[0]
  {
    if domains == [] then None else Some(domains[0])
  }

  /** What `site_domain.yaml` yields: nothing usable (missing, unreadable or
      empty), or a document with an optional `site_domains` list and an
      optional single `site_domain`. */
  datatype DomainFile =
    | Unavailable
    | Loaded(domains: Option<seq<string>>, single: Option<string>)

  /** The `site_domain` that `load_config` settles on, from the value in the
      main configuration (`None` when missing or null) and the domain file. */
  function SiteDomain(configured: Option<string>, file: DomainFile): string
  {
    var base := if configured.Some? then configured.value else DefaultDomain;
    match file
    case Unavailable => base
    case Loaded(domains, single) =>
      if domains.Some? then
        (match FastestDomain(domains.value)
         case Some(d) => if d != "" then d else base
         case None => base)
      else if single.Some? then single.value
      else base
  }

  /** The domain rule: the list's first entry wins when it is non-empty;
      otherwise the configured domain is kept, or `wm.wmhuu.com` when none
      is configured. Without a list a single `site_domain` wins. */
  lemma SiteDomainChoice(configured: Option<string>, file: DomainFile)
    ensures file.Loaded? && file.domains.Some? && file.domains.value != [] && file.domains.value[0] != "" ==>
      SiteDomain(configured, file) == file.domains.value[0]
    ensures file.Loaded? && file.domains.None? && file.single.Some? ==>
      SiteDomain(configured, file) == file.single.value
    ensures SiteDomain(configured, file) == DefaultDomain || SiteDomain(configured, file) in
      (if configured.Some? then {configured.value} else {}) +
      (if file.Loaded? && file.domains.Some? && file.domains.value != [] then {file.domains.value[0]} else {}) +
      (if file.Loaded? && file.single.Some? then {file.single.value} else {})
    ensures configured.None? && (file.Unavailable? || (file.domains.None? && file.single.None?)) ==>
      SiteDomain(configured, file) == DefaultDomain
    ensures configured.Some? && (file.Unavailable? || (file.domains.Some? && file.domains.value == [])) ==>
      SiteDomain(configured, file) == configured.value
  {
  }

  /** A forum of the configuration; `id` is its printed form. */
  datatype Forum = Forum(id: string, name: string)

  /** The parts of the configuration the crawl reads. */
  datatype Config = Config(
    siteDomain: string,
    maxPages: int,
    pictureForums: seq<Forum>,
    novelForums: seq<Forum>,
    savePaths: SavePaths)

  /** The two crawl modes, and the `--mode` choice (`all` is both). */
  datatype Mode = Picture | Novel
  datatype CrawlMode = Single(mode: Mode) | All

  /** The mode's name as the parser receives it. */
  function ModeName(mode: Mode): string
  {
    if mode == Picture then "picture" else "novel"
  }

  /** The clock, read twice by the crawler: `date` as `YYYY-MM-DD` for the
      daily directories and `monthDay` as `MM-DD` for the daily filter. */
  datatype Clock = Clock(date: string, monthDay: string)

  /** The outside world: page fetches (`""` on failure), HTML parsing, image
      downloads and file writes (success or not) and `urljoin`. */
  datatype Site = Site(
    fetch: string -> string,
    parse: string -> Document,
    download: (string, string) -> bool,
    write: (string, string) -> bool,
    urljoin: (string, string) -> string)

  /** One crawl's fixed context. */
  datatype Session = Session(site: Site, config: Config, paths: SavePaths, daily: bool, today: string)

  /** The save roots of a daily crawl: `daily_<date>` under each root. */
  function DailyPaths(paths: SavePaths, date: string): SavePaths
  {
    SavePaths(PathJoin(paths.picture, "daily_" + date), PathJoin(paths.novel, "daily_" + date))
  }

  lemma DailyPathsUnderRoots(paths: SavePaths, date: string)
    ensures EndsWith(DailyPaths(paths, date).picture, "daily_" + date)
    ensures EndsWith(DailyPaths(paths, date).novel, "daily_" + date)
    ensures StartsWith(DailyPaths(paths, date).picture, paths.picture)
    ensures StartsWith(DailyPaths(paths, date).novel, paths.novel)
  {
    var dir := "daily_" + date;
    assert dir[0] == 'd';
    PathJoinInjective(paths.picture, dir, dir);
    PathJoinInjective(paths.novel, dir, dir);
    PathJoinExtends(paths.picture, dir);
    PathJoinExtends(paths.novel, dir);
  }

  // ---------------------------------------------------------------------
  // The daily filter
  // ---------------------------------------------------------------------

  predicate IsDigit(c: char)
  {
    '0' <= c <= '9'
  }

  /** A `[dd-dd]` tag starts at position `p` of `s`. */
  predicate TagAt(s: string, p: nat)
  {
    p + 7 <= |s| && s[p] == '[' && IsDigit(s[p + 1]) && IsDigit(s[p + 2]) && s[p + 3] == '-'
    && IsDigit(s[p + 4]) && IsDigit(s[p + 5]) && s[p + 6] == ']'
  }

  /** The leftmost tag at or after `from`, as `re.search` finds it. */
  function FirstTag(s: string, from: nat): (r: Option<nat>)
    ensures r.Some? ==> from <= r.value && TagAt(s, r.value)
    ensures r.Some? ==> forall q: nat :: from <= q < r.value ==> !TagAt(s, q)
    ensures r.None? ==> forall q: nat :: from <= q ==> !TagAt(s, q)
    decreases |s| - from
  {
    if from + 7 > |s| then None
    else if TagAt(s, from) then Some(from)
    else FirstTag(s, from + 1)
  }

  /** `is_today_post`: the first `[dd-dd]` tag of the title is today's
      `MM-DD`; a title without a tag is never today's. */
  function IsTodayPost(title: string, today: string): bool
  {
    match FirstTag(title, 0)
    case None => false
    case Some(p) => title[p + 1..p + 6] == today
  }

  lemma IsTodayPostIff(title: string, today: string)
    ensures IsTodayPost(title, today) <==>
      exists p: nat :: TagAt(title, p) && (forall q: nat :: q < p ==> !TagAt(title, q))
        && title[p + 1..p + 6] == today
  {
    match FirstTag(title, 0)
    case None =>
    case Some(p) =>
      forall p': nat | TagAt(title, p') && (forall q: nat :: q < p' ==> !TagAt(title, q))
        ensures p' == p
      {
      }
  }

  /** Only a `dd-dd` date can match. */
  lemma TodayHasDateShape(title: string, today: string)
    requires IsTodayPost(title, today)
    ensures |today| == 5 && today[2] == '-'
    ensures IsDigit(today[0]) && IsDigit(today[1]) && IsDigit(today[3]) && IsDigit(today[4])
  {
  }

  /** The daily list comprehension. */
  function FilterToday(topics: seq<Topic>, today: string): (r: seq<Topic>)
    ensures |r| <= |topics|
  {
    if topics == [] then []
    else (if IsTodayPost(topics[0].title, today) then [topics[0]] else []) + FilterToday(topics[1..], today)
  }

  /** The filter keeps exactly today's topics ... */
  lemma {:induction false} FilterTodayExact(topics: seq<Topic>, today: string, t: Topic)
    ensures t in FilterToday(topics, today) <==> t in topics && IsTodayPost(t.title, today)
  {
    if topics != [] {
      FilterTodayExact(topics[1..], today, t);
      assert topics == [topics[0]] + topics[1..];
    }
  }

  /** ... and keeps their order: it works piecewise. */
  lemma {:induction false} FilterTodayAppend(a: seq<Topic>, b: seq<Topic>, today: string)
    ensures FilterToday(a + b, today) == FilterToday(a, today) + FilterToday(b, today)
  {
    if a != [] {
      assert (a + b)[1..] == a[1..] + b;
      FilterTodayAppend(a[1..], b, today);
    } else {
      assert a + b == b;
    }
  }

  // ---------------------------------------------------------------------
  // Topics
  // ---------------------------------------------------------------------

  /** What one retained topic adds to the saved counter: nothing when its
      page cannot be fetched; in picture mode the saver's count when images
      were found; in novel mode one when text was found and written. */
  function TopicSaved(s: Session, mode: Mode, t: Topic): nat
  {
    var html := s.site.fetch(t.url);
    if html == "" then 0
    else
      var content := TopicPage(s.site.parse(html), ModeName(mode), s.config.siteDomain);
      if mode == Picture then
        if content.images == [] then 0
        else SavedPictures(s.paths, t.title, content.images, s.site.download)
      else if content.content != "" && s.site.write(NovelPath(s.paths, t.title), content.content) then 1
      else 0
  }

  /** The saved counter over a page's retained topics, in order. */
  function TopicsSaved(s: Session, mode: Mode, topics: seq<Topic>): nat
  {
    if topics == [] then 0
    else TopicsSaved(s, mode, topics[..|topics| - 1]) + TopicSaved(s, mode, topics[|topics| - 1])
  }

  /** A novel topic saves at most one item; a picture topic at most as many
      images as its page shows. */
  lemma TopicSavedBound(s: Session, mode: Mode, t: Topic)
    ensures mode == Novel ==> TopicSaved(s, mode, t) <= 1
    ensures s.site.fetch(t.url) == "" ==> TopicSaved(s, mode, t) == 0
    ensures mode == Picture && s.site.fetch(t.url) != "" ==>
      TopicSaved(s, mode, t) <= |ImageUrls(ImageTags(s.site.parse(s.site.fetch(t.url))), s.config.siteDomain)|
  {
    var html := s.site.fetch(t.url);
    if mode == Picture && html != "" {
      var content := TopicPage(s.site.parse(html), ModeName(mode), s.config.siteDomain);
      CountTrueIsSuccesses(Attempts(s.paths, t.title, content.images, s.site.download));
    }
  }

  lemma {:induction false} NovelTopicsSavedBound(s: Session, topics: seq<Topic>)
    ensures TopicsSaved(s, Novel, topics) <= |topics|
  {
    if topics != [] {
      NovelTopicsSavedBound(s, topics[..|topics| - 1]);
      TopicSavedBound(s, Novel, topics[|topics| - 1]);
    }
  }

  /** One topic: fetch its page, parse it in the mode, save what was found. */
  method CrawlTopic(s: Session, mode: Mode, t: Topic) returns (saved: nat)
    ensures saved == TopicSaved(s, mode, t)
  {
    saved := 0;
    var topicHtml := s.site.fetch(t.url);
    if topicHtml == "" {
      return;
    }
    var content := ParseTopicPage(s.site.parse(topicHtml), ModeName(mode), s.config.siteDomain);
    if mode == Picture {
      if content.images != [] {
        saved := SavePictures(s.paths, t.title, content.images, s.site.download);
      }
    } else if content.content != "" {
      var ok := SaveNovel(s.paths, t.title, content.content, s.site.write);
      if ok {
        saved := 1;
      }
    }
  }

  /** The topic loop of one listing page: the topic counter grows by one per
      topic before its fetch, so failed fetches are counted too. */
  method CrawlTopics(s: Session, mode: Mode, topics: seq<Topic>) returns (count: nat, saved: nat)
    ensures count == |topics|
    ensures saved == TopicsSaved(s, mode, topics)
  {
    count, saved := 0, 0;
    for i := 0 to |topics|
      invariant count == i
      invariant saved == TopicsSaved(s, mode, topics[..i])
    {
      assert topics[..i + 1][..i] == topics[..i];
      count := count + 1;
      var k := CrawlTopic(s, mode, topics[i]);
      saved := saved + k;
    }
    assert topics[..|topics|] == topics;
  }

  // ---------------------------------------------------------------------
  // The page loop of one forum
  // ---------------------------------------------------------------------

  /** What a crawl did: the topics it retained (and counted), the number of
      items saved and the listing pages it fetched, all in order. */
  datatype Run = Run(retained: seq<Topic>, saved: nat, listings: seq<string>)

  const NoRun := Run([], 0, [])

  /** One crawl followed by another. */
  function Plus(a: Run, b: Run): Run
  {
    Run(a.retained + b.retained, a.saved + b.saved, a.listings + b.listings)
  }

  /** The first listing page of a forum. */
  function ForumUrl(domain: string, id: string): string
  {
    "https://" + domain + "/viewforum/" + id
  }

  /** The topics a listing page yields after the daily filter. */
  function Retained(s: Session, doc: Document): seq<Topic>
  {
    var found := ForumTopics(doc, s.config.siteDomain);
    if s.daily then FilterToday(found, s.today) else found
  }

  /** What one listing page yields: the topics kept after the daily filter
      and the URL of the next listing page, `""` when the loop stops here. */
  datatype Listing = Listing(topics: seq<Topic>, next: string)

  /** A failed fetch or an empty (daily) topic list stops at this page with
      nothing to crawl; otherwise the page's topics are crawled and the next
      URL counts only when the page has a next page. */
  function ListingPage(s: Session, url: string): Listing
  {
    var html := s.site.fetch(url);
    if html == "" then Listing([], "")
    else
      var doc := s.site.parse(html);
      var topics := Retained(s, doc);
      if topics == [] then Listing([], "")
      else if HasNext(doc) then Listing(topics, NextPageUrl(url, doc, s.config.siteDomain, s.site.urljoin))
      else Listing(topics, "")
  }

  /** The crawl of a forum from listing page number `page` at `url`: it
      fetches the page unless it lies beyond `max_pages`, crawls the page's
      topics and goes on to the next page while there is one. */
  function ForumRun(s: Session, mode: Mode, url: string, page: int): Run
    decreases s.config.maxPages + 1 - page
  {
    if page > s.config.maxPages then NoRun
    else
      var p := ListingPage(s, url);
      var here := Run(p.topics, TopicsSaved(s, mode, p.topics), [url]);
      if p.next == "" then here else Plus(here, ForumRun(s, mode, p.next, page + 1))
  }

  /** At most `max_pages` listing pages are fetched, counting from `page`,
      and the first one fetched is the one at `url`. */
  lemma {:induction false} ForumRunPages(s: Session, mode: Mode, url: string, page: int)
    ensures |ForumRun(s, mode, url, page).listings| <=
      if page > s.config.maxPages then 0 else s.config.maxPages + 1 - page
    ensures page <= s.config.maxPages ==>
      ForumRun(s, mode, url, page).listings != [] && ForumRun(s, mode, url, page).listings[0] == url
    decreases s.config.maxPages + 1 - page
  {
    if page <= s.config.maxPages {
      var p := ListingPage(s, url);
      var here := Run(p.topics, TopicsSaved(s, mode, p.topics), [url]);
      if p.next != "" {
        var rest := ForumRun(s, mode, p.next, page + 1);
        ForumRunPages(s, mode, p.next, page + 1);
        assert ForumRun(s, mode, url, page) == Plus(here, rest);
        assert |Plus(here, rest).listings| == 1 + |rest.listings|;
      } else {
        assert ForumRun(s, mode, url, page) == here;
      }
    }
  }

  /** The stop conditions: the forum ends at this page when its fetch fails,
      it yields no topics (or none of today's in a daily crawl), or it has
      no next page or no next URL. */
  lemma ListingPageStops(s: Session, url: string)
    ensures s.site.fetch(url) == "" ==> ListingPage(s, url) == Listing([], "")
    ensures (s.site.fetch(url) != "" &&
      ForumTopics(s.site.parse(s.site.fetch(url)), s.config.siteDomain) == []) ==>
      ListingPage(s, url) == Listing([], "")
    ensures (s.site.fetch(url) != "" && s.daily &&
      FilterToday(ForumTopics(s.site.parse(s.site.fetch(url)), s.config.siteDomain), s.today) == []) ==>
      ListingPage(s, url) == Listing([], "")
    ensures (s.site.fetch(url) != "" &&
      var doc := s.site.parse(s.site.fetch(url));
      !HasNext(doc) || NextPageUrl(url, doc, s.config.siteDomain, s.site.urljoin) == "") ==>
      ListingPage(s, url).next == ""
    ensures ListingPage(s, url).next != "" ==>
      var doc := s.site.parse(s.site.fetch(url));
      ListingPage(s, url).topics != [] && HasNext(doc) &&
      ListingPage(s, url).next == NextPageUrl(url, doc, s.config.siteDomain, s.site.urljoin)
  {
  }

  /** A page that stops the loop is the forum's last listing. */
  lemma ForumRunStops(s: Session, mode: Mode, url: string, page: int)
    requires page <= s.config.maxPages && ListingPage(s, url).next == ""
    ensures ForumRun(s, mode, url, page).listings == [url]
    ensures ForumRun(s, mode, url, page).retained == ListingPage(s, url).topics
  {
  }

  /** Every retained topic is a `/viewtopic/` link with an absolute URL,
      and in a daily crawl every one carries today's tag. */
  lemma ListingPageTopics(s: Session, url: string)
    ensures forall t :: t in ListingPage(s, url).topics ==> ValidTopic(t, s.config.siteDomain)
    ensures s.daily ==>
      forall t :: t in ListingPage(s, url).topics ==> IsTodayPost(t.title, s.today)
  {
    var html := s.site.fetch(url);
    if html != "" {
      var doc := s.site.parse(html);
      var found := ForumTopics(doc, s.config.siteDomain);
      ForumTopicsValid(doc, s.config.siteDomain);
      forall t | t in Retained(s, doc)
        ensures t in found
        ensures s.daily ==> IsTodayPost(t.title, s.today)
      {
        if s.daily {
          FilterTodayExact(found, s.today, t);
        }
      }
    }
  }

  lemma {:induction false} ForumRunTopics(s: Session, mode: Mode, url: string, page: int)
    ensures forall t :: t in ForumRun(s, mode, url, page).retained ==> ValidTopic(t, s.config.siteDomain)
    ensures s.daily ==>
      forall t :: t in ForumRun(s, mode, url, page).retained ==> IsTodayPost(t.title, s.today)
    decreases s.config.maxPages + 1 - page
  {
    if page <= s.config.maxPages {
      var p := ListingPage(s, url);
      ListingPageTopics(s, url);
      if p.next != "" {
        ForumRunTopics(s, mode, p.next, page + 1);
      }
    }
  }

  /** In novel mode no more items are saved than topics are counted. */
  lemma {:induction false} NovelForumRunBound(s: Session, url: string, page: int)
    ensures ForumRun(s, Novel, url, page).saved <= |ForumRun(s, Novel, url, page).retained|
    decreases s.config.maxPages + 1 - page
  {
    if page <= s.config.maxPages {
      var p := ListingPage(s, url);
      NovelTopicsSavedBound(s, p.topics);
      if p.next != "" {
        NovelForumRunBound(s, p.next, page + 1);
      }
    }
  }

  /** The topics a fetched listing page yields after the daily filter. */
  method ListingTopics(s: Session, doc: Document) returns (topics: seq<Topic>)
    ensures topics == Retained(s, doc)
  {
    topics := ParseForumPage(doc, s.config.siteDomain);
    if s.daily {
      topics := FilterToday(topics, s.today);
    }
  }

  /** The next listing URL, or `""` when the page has no next page. */
  method NextListing(s: Session, url: string, doc: Document) returns (next: string)
    ensures next == (if HasNext(doc) then NextPageUrl(url, doc, s.config.siteDomain, s.site.urljoin) else "")
  {
    next := "";
    var hasNext := HasNextPage(doc);
    if hasNext {
      next := GetNextPageUrl(url, doc, s.config.siteDomain, s.site.urljoin);
    }
  }

  /** One page of the forum crawl, and the rest after it. */
  lemma ForumRunStep(s: Session, mode: Mode, url: string, page: int)
    requires page <= s.config.maxPages
    ensures var p := ListingPage(s, url);
      var rest := if p.next == "" then NoRun else ForumRun(s, mode, p.next, page + 1);
      |ForumRun(s, mode, url, page).retained| == |p.topics| + |rest.retained| &&
      ForumRun(s, mode, url, page).saved == TopicsSaved(s, mode, p.topics) + rest.saved
  {
  }

  /** One pass of the page loop's body: fetch and parse the listing page,
      filter its topics, crawl them, and find the next page. A failed fetch
      or an empty (daily) list ends the pass with nothing crawled and no
      next URL. */
  method CrawlListing(s: Session, mode: Mode, url: string)
    returns (pageTopics: seq<Topic>, count: nat, saved: nat, nextUrl: string)
    ensures ListingPage(s, url) == Listing(pageTopics, nextUrl)
    ensures count == |pageTopics| && saved == TopicsSaved(s, mode, pageTopics)
  {
    pageTopics, count, saved, nextUrl := [], 0, 0, "";
    var pageHtml := s.site.fetch(url);
    if pageHtml == "" {
      return;
    }
    var doc := s.site.parse(pageHtml);
    pageTopics := ListingTopics(s, doc);
    if pageTopics == [] {
      return;
    }
    count, saved := CrawlTopics(s, mode, pageTopics);
    nextUrl := NextListing(s, url, doc);
  }

  /** The page loop of one forum, from its first listing page: at most
      `max_pages` passes, each advancing to the next listing page by one. */
  method CrawlForum(s: Session, mode: Mode, forum: Forum) returns (topics: nat, saved: nat)
    ensures var r := ForumRun(s, mode, ForumUrl(s.config.siteDomain, forum.id), 1);
      topics == |r.retained| && saved == r.saved
  {
    var forumUrl := ForumUrl(s.config.siteDomain, forum.id);
    ghost var total := ForumRun(s, mode, forumUrl, 1);
    var currentPage := 1;
    topics, saved := 0, 0;
    while currentPage <= s.config.maxPages
      invariant topics + |ForumRun(s, mode, forumUrl, currentPage).retained| == |total.retained|
      invariant saved + ForumRun(s, mode, forumUrl, currentPage).saved == total.saved
      decreases s.config.maxPages - currentPage
    {
      var pageTopics, n, k, nextUrl := CrawlListing(s, mode, forumUrl);
      ForumRunStep(s, mode, forumUrl, currentPage);
      topics, saved := topics + n, saved + k;
      if nextUrl == "" {
        break;
      }
      forumUrl := nextUrl;
      currentPage := currentPage + 1;
    }
  }

  // ---------------------------------------------------------------------
  // One mode, and the whole crawl
  // ---------------------------------------------------------------------

  /** The forums a mode crawls. */
  function ModeForums(c: Config, mode: Mode): seq<Forum>
  {
    if mode == Picture then c.pictureForums else c.novelForums
  }

  /** The crawl of a list of forums, one after another. */
  function ForumsRun(s: Session, mode: Mode, forums: seq<Forum>): Run
  {
    if forums == [] then NoRun
    else Plus(ForumsRun(s, mode, forums[..|forums| - 1]),
              ForumRun(s, mode, ForumUrl(s.config.siteDomain, forums[|forums| - 1].id), 1))
  }

  /** `crawl_single_mode` */
  function ModeRun(s: Session, mode: Mode): Run
  {
    ForumsRun(s, mode, ModeForums(s.config, mode))
  }

  /** Each forum fetches at most `max_pages` listing pages. */
  lemma {:induction false} ForumsRunPages(s: Session, mode: Mode, forums: seq<Forum>)
    ensures |ForumsRun(s, mode, forums).listings| <= |forums| * (if s.config.maxPages < 0 then 0 else s.config.maxPages)
  {
    if forums != [] {
      var init := forums[..|forums| - 1];
      var pages := if s.config.maxPages < 0 then 0 else s.config.maxPages;
      var a, b := ForumsRun(s, mode, init), ForumRun(s, mode, ForumUrl(s.config.siteDomain, forums[|forums| - 1].id), 1);
      ForumsRunPages(s, mode, init);
      ForumRunPages(s, mode, ForumUrl(s.config.siteDomain, forums[|forums| - 1].id), 1);
      assert ForumsRun(s, mode, forums) == Plus(a, b);
      assert |Plus(a, b).listings| == |a.listings| + |b.listings|;
      assert |b.listings| <= pages;
      MulSucc(|init|, pages);
    }
  }

  lemma MulSucc(n: nat, k: nat)
    ensures n * k + k == (n + 1) * k
  {
  }

  /** In novel mode no more items are saved than topics counted. */
  lemma {:induction false} NovelForumsRunBound(s: Session, forums: seq<Forum>)
    ensures ForumsRun(s, Novel, forums).saved <= |ForumsRun(s, Novel, forums).retained|
  {
    if forums != [] {
      NovelForumsRunBound(s, forums[..|forums| - 1]);
      NovelForumRunBound(s, ForumUrl(s.config.siteDomain, forums[|forums| - 1].id), 1);
    }
  }

  /** Every topic a mode counts is a valid topic link, and in a daily crawl
      one tagged with today's date. */
  lemma {:induction false} ForumsRunTopics(s: Session, mode: Mode, forums: seq<Forum>)
    ensures forall t :: t in ForumsRun(s, mode, forums).retained ==> ValidTopic(t, s.config.siteDomain)
    ensures s.daily ==> forall t :: t in ForumsRun(s, mode, forums).retained ==> IsTodayPost(t.title, s.today)
  {
    if forums != [] {
      ForumsRunTopics(s, mode, forums[..|forums| - 1]);
      ForumRunTopics(s, mode, ForumUrl(s.config.siteDomain, forums[|forums| - 1].id), 1);
    }
  }

  /** The forum loop of `crawl_single_mode`. */
  method CrawlSingleMode(s: Session, mode: Mode) returns (modeTopics: nat, modeSaved: nat)
    ensures modeTopics == |ModeRun(s, mode).retained| && modeSaved == ModeRun(s, mode).saved
  {
    var forums := if mode == Picture then s.config.pictureForums else s.config.novelForums;
    modeTopics, modeSaved := 0, 0;
    for i := 0 to |forums|
      invariant modeTopics == |ForumsRun(s, mode, forums[..i]).retained|
      invariant modeSaved == ForumsRun(s, mode, forums[..i]).saved
    {
      assert forums[..i + 1][..i] == forums[..i];
      var t, k := CrawlForum(s, mode, forums[i]);
      modeTopics, modeSaved := modeTopics + t, modeSaved + k;
    }
    assert forums[..|forums|] == forums;
  }

  /** The session `main` sets up: daily crawls save under `daily_<date>`
      and filter by today's `MM-DD`. */
  function MakeSession(site: Site, c: Config, daily: bool, clock: Clock): Session
  {
    Session(site, c, if daily then DailyPaths(c.savePaths, clock.date) else c.savePaths, daily, clock.monthDay)
  }

  /** The whole crawl: `all` is picture mode followed by novel mode. */
  function CrawlRun(s: Session, crawlMode: CrawlMode): Run
  {
    match crawlMode
    case All => Plus(ModeRun(s, Picture), ModeRun(s, Novel))
    case Single(m) => ModeRun(s, m)
  }

  /** The mode dispatch of `main` and its totals. */
  method RunCrawl(site: Site, c: Config, crawlMode: CrawlMode, daily: bool, clock: Clock)
    returns (totalTopics: nat, totalSaved: nat)
    ensures var r := CrawlRun(MakeSession(site, c, daily, clock), crawlMode);
      totalTopics == |r.retained| && totalSaved == r.saved
    ensures crawlMode == All ==>
      var s := MakeSession(site, c, daily, clock);
      totalTopics == |ModeRun(s, Picture).retained| + |ModeRun(s, Novel).retained| &&
      totalSaved == ModeRun(s, Picture).saved + ModeRun(s, Novel).saved
  {
    var paths := c.savePaths;
    if daily {
      var dailyPrefix := "daily_" + clock.date;
      paths := SavePaths(PathJoin(paths.picture, dailyPrefix), PathJoin(paths.novel, dailyPrefix));
    }
    var s := Session(site, c, paths, daily, clock.monthDay);
    totalTopics, totalSaved := 0, 0;
    if crawlMode == All {
      var picTopics, picSaved := CrawlSingleMode(s, Picture);
      totalTopics, totalSaved := totalTopics + picTopics, totalSaved + picSaved;
      var novelTopics, novelSaved := CrawlSingleMode(s, Novel);
      totalTopics, totalSaved := totalTopics + novelTopics, totalSaved + novelSaved;
    } else {
      var t, k := CrawlSingleMode(s, crawlMode.mode);
      totalTopics, totalSaved := totalTopics + t, totalSaved + k;
    }
  }

  /** What a whole crawl promises: the listing pages of `all` are those of
      picture mode followed by those of novel mode; every counted topic is a
      valid topic link, tagged today in a daily crawl; at most `max_pages`
      listings per configured forum. */
  lemma CrawlRunProperties(site: Site, c: Config, crawlMode: CrawlMode, daily: bool, clock: Clock)
    ensures var s := MakeSession(site, c, daily, clock);
      crawlMode == All ==>
        CrawlRun(s, crawlMode).listings == ModeRun(s, Picture).listings + ModeRun(s, Novel).listings
    ensures var s := MakeSession(site, c, daily, clock);
      forall t :: t in CrawlRun(s, crawlMode).retained ==> ValidTopic(t, c.siteDomain)
    ensures var s := MakeSession(site, c, daily, clock);
      daily ==> forall t :: t in CrawlRun(s, crawlMode).retained ==> IsTodayPost(t.title, clock.monthDay)
    ensures var s := MakeSession(site, c, daily, clock);
      crawlMode.Single? ==>
        |CrawlRun(s, crawlMode).listings| <=
          |ModeForums(c, crawlMode.mode)| * (if c.maxPages < 0 then 0 else c.maxPages)
  {
    var s := MakeSession(site, c, daily, clock);
    ForumsRunTopics(s, Picture, c.pictureForums);
    ForumsRunTopics(s, Novel, c.novelForums);
    if crawlMode.Single? {
      ForumsRunPages(s, crawlMode.mode, ModeForums(c, crawlMode.mode));
    }
  }
}
