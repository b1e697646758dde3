# Forum crawler core, modelled in Dafny

This project models the decision-making core of a forum crawler. The crawler fetches listing pages of a forum site and finds the topic links on them. It then fetches each topic page and extracts either its images (picture mode) or its text (novel mode), saves what it found under sanitised file names, and follows the forum's pagination up to a page limit.

The project has five modules:

- `Strings` (`strings.dfy`) holds the string operations the crawler relies on, written over `seq<char>`. They are Python's `in`, `startswith`, `endswith`, `lower`, `strip`, `isprintable`, `join` and `str(n)`.
- `Html` (`html.dfy`) is the parsed-page interface. A page is a sequence of elements in document order. Each element records:
  - its tag;
  - which of the crawler's CSS selectors match it (each selector is a named constant, and `CssText` gives its CSS text);
  - its `href`, `src` and `.string`;
  - the text strings of its subtree;
  - its descendants.

  `select`, `select_one`, `find_all` and `get_text(strip=True)` are defined over this sequence. A page is well formed when the selectors `a[href*="start="]` and `a[href*="page="]` match exactly the anchors whose href contains `start=` or `page=`, as their CSS meaning demands. `Parser.PaginationLinkIsSelected` and `Parser.NextPageUrlImpliesHasNext` assume this.
- `Parser` (`parser.dfy`) models `HtmlParser` from `utils/parser.py`. It covers forum-page topic discovery, topic-page image and text extraction, `has_next_page` and `get_next_page_url`.
- `Saver` (`saver.dfy`) models `ContentSaver` from `utils/saver.py`. It covers file-name sanitising, the image extension and name rule, the picture and novel path rules, and the saved-image counter.
- `Crawler` (`crawler.dfy`) models `main.py`. It covers the domain choice of `load_config`, the daily `[MM-DD]` filter, the bounded page loop of `crawl_single_mode` with its counters, and the mode dispatch of `main`.

Every `for` and `while` statement of the core is a Dafny method with a `while` or `for` loop. Each method is proved equal to a specification function. The two list comprehensions are recursive functions instead: the printable-character filter of `_sanitize_filename` is `Saver.KeepPrintable`, and the daily filter of `crawl_single_mode` is `Crawler.FilterToday`. The lemmas then prove what the source promises about that function.

The outside world enters as function-typed parameters: page fetches, HTML parsing, image downloads, file writes and `urljoin`. The crawler sees only their results: `""` for a failed fetch, and true or false for a download or a write. Both readings of the clock are also parameters.

## Model

| member | source | states |
|---|---|---|
| Parser.FirstNonEmptySplit | utils/parser.py:14-28 | The forum-list chain returns the elements of the first container selector that matches anything; later selectors are consulted only when every earlier one matched nothing, and the chain is empty exactly when no selector matches |
| Parser.FirstNonEmptyOf | utils/parser.py:24-28 | The container loop with its `break` yields the chain's result |
| Parser.FirstSelectedSplit | utils/parser.py:59-64 | A `select_one` chain returns the first hit of the earliest selector that hits; it finds nothing exactly when no selector finds anything |
| Parser.SelectFirstOf | utils/parser.py:59-64 | The title-selector loop with its `break` yields the chain's result |
| Parser.ScanTopicLinks | utils/parser.py:31-44 | The fallback loop over all links returns the fallback topic list |
| Parser.FallbackTopicsExact | utils/parser.py:34-43 | The fallback keeps exactly the anchors with an href containing `/viewtopic/` and a stripped text longer than 5, each as (text, absolute URL) |
| Parser.FallbackTopicsAppend | utils/parser.py:35-43 | The fallback works link by link, so topics keep document order |
| Parser.ItemTopicOf | utils/parser.py:59-80 | One list item yields a topic exactly when its first matching title anchor has a non-empty title and an href containing `/viewtopic/`; otherwise the item is skipped |
| Parser.ScanListItems | utils/parser.py:46-85 | The item loop returns the per-item topics in item order, skipping items without one |
| Parser.ItemTopicsAppend | utils/parser.py:46-83 | Items are processed one at a time: a skipped item does not affect the others, and output order follows item order |
| Parser.ParseForumPage | utils/parser.py:5-85 | `parse_forum_page` runs the fallback only when no container selector matched, and otherwise runs the per-item branch only |
| Parser.AbsoluteOfTopicLink | utils/parser.py:72-75 | A topic href made absolute is the href itself when it starts with `http`, else `https://<domain>` + href; the result starts with `http` and still contains `/viewtopic/` |
| Parser.FallbackTopicsValid | utils/parser.py:34-43 | Every fallback topic has a title longer than 5 characters and an `http` URL containing `/viewtopic/`, and is built from one qualifying anchor of the page: its text is the title and its own href, made absolute, is the URL |
| Parser.ItemTopicsValid | utils/parser.py:66-80 | The per-item branch yields at most one topic per item, each with a non-empty title and an absolute `/viewtopic/` URL |
| Parser.ForumTopicsValid | utils/parser.py:31-85 | Every returned topic has a non-empty title and an `http` URL containing `/viewtopic/`; fallback titles are longer than 5; the per-item branch yields at most one topic per matched item |
| Parser.ItemTopicsExact | utils/parser.py:46-80 | The per-item branch returns exactly the topics of the items that have one |
| Parser.ItemTopicLinks | utils/parser.py:59-80 | Every per-item topic is built from the first title anchor of one item: its text is the title, and its own href, which holds `/viewtopic/`, made absolute is the URL |
| Parser.ForumTopicLinks | utils/parser.py:31-80 | Every topic `parse_forum_page` returns comes from one element's own href made absolute with `https://<domain>` unless it starts with `http`: a qualifying page anchor in the fallback branch, the first title anchor of a matched item otherwise |
| Parser.ImageUrlOf | utils/parser.py:122-134 | An image source is kept if it starts with `http`, or starts with `/` and gets `https://<domain>` prepended; it is dropped when its lower-case form contains `avatar`, `smiley` or `icon` |
| Parser.CollectImages | utils/parser.py:122-134 | The image loop appends the kept URLs in element order |
| Parser.ImageUrlsExact | utils/parser.py:122-134 | A URL is in the image list exactly when some image element's source resolves to it and it escapes the denylist; every kept URL starts with `http` |
| Parser.ImageUrlsAppend | utils/parser.py:122-134 | Image URLs keep document order |
| Parser.PictureImages | utils/parser.py:110-134 | Picture mode takes images from the first matching content container, and from the whole page only when none matches; every URL is absolute and not denylisted |
| Parser.LongestIndexIsFirstMaximum | utils/parser.py:162-171 | The running maximum with `>` picks the first element of strictly greatest length, and only if that length exceeds 100; it picks none exactly when no length exceeds 100 |
| Parser.LongestText | utils/parser.py:165-171 | The candidate loop with `max_text_len` returns the element that the running-maximum rule selects |
| Parser.NovelFallbackChoice | utils/parser.py:162-171 | Without a content container, novel mode picks a `div`/`p` with more than 100 characters and no shorter than any other, or nothing (content stays empty) when none exceeds 100 |
| Parser.ExtractText | utils/parser.py:173-185 | The cleanup drops the strings inside decomposed elements, then the text is the stripped non-empty strings joined by newlines |
| Parser.CleanedTextEmpty | utils/parser.py:184-185 | Extracted novel text is empty exactly when every string left after the cleanup is blank |
| Parser.CleanedTextTrimmed | utils/parser.py:184 | Non-empty extracted text begins and ends with a non-whitespace character |
| Parser.ParseTopicPage | utils/parser.py:87-187 | `parse_topic_page` dispatches on the mode; outside picture mode the image list is empty, outside novel mode the content is `''`, so any other mode returns both unchanged |
| Parser.FirstFoundSplit | utils/parser.py:193-202 | A pagination rule list is its first part, with the rest consulted only when the first part found nothing; the list finds nothing exactly when none of its rules finds an element |
| Parser.FindFirstOf | utils/parser.py:204-218 | The rule loop, with `:contains` rules matching anchors whose non-empty `.string` contains the label, yields the first rule's hit |
| Parser.HasNextPage | utils/parser.py:189-220 | `has_next_page` is true exactly when one of its eight rules finds an element |
| Parser.ScanPaginationLinks | utils/parser.py:254-260 | The fallback scan returns the first anchor whose href contains `/viewforum/` and `start=` or `page=` |
| Parser.GetNextPageUrl | utils/parser.py:222-275 | `get_next_page_url` scans links only when no rule matched; a found element without an href gives `''`; otherwise its href is absolute, `/`-rooted (prefixed with `https://<domain>`) or resolved by `urljoin` |
| Parser.PaginationLinkIsSelected | utils/parser.py:254-260 | A link the fallback scan accepts is matched by `a[href*="start="]` or `a[href*="page="]` |
| Parser.NextPageUrlImpliesHasNext | utils/parser.py:193-202 | A non-empty next-page URL implies `has_next_page`, because its rule list is a prefix of `has_next_page`'s and the two extra selectors cover the fallback links |
| Parser.HasNextWithoutNextPageUrl | utils/parser.py:262-275 | The converse fails: a `rel="next"` anchor without an href gives `has_next_page` true and next URL `''` |
| Parser.RelNextRootRelative | utils/parser.py:262-268 | A `rel="next"` link with a `/`-rooted href resolves to `https://<domain>` + href |
| Saver.Replace | utils/saver.py:64-65 | `replace(c, '_')` keeps the length, turns every `c` into `_` and leaves other characters alone |
| Saver.MapInvalid | utils/saver.py:62-65 | After the replace loop, each character of `<>:"/\|?*` has become `_` and every other character is unchanged |
| Saver.KeepPrintable | utils/saver.py:67 | The printable filter keeps only printable characters of the input |
| Saver.KeepPrintableAppend | utils/saver.py:67 | The filter works piecewise, so kept characters stay in order |
| Saver.SanitizedName | utils/saver.py:58-69 | A sanitised name has at most 255 characters, none of them invalid and all of them printable |
| Saver.SanitizeFilename | utils/saver.py:58-69 | The replace loop over the invalid characters, the filter and the cut compute the sanitised name |
| Saver.MapInvalidKeepsValid | utils/saver.py:62-65 | A name without invalid characters passes the replace loop unchanged |
| Saver.KeepPrintableKeepsPrintable | utils/saver.py:67 | An all-printable name passes the filter unchanged |
| Saver.SanitizedNameFixedPoints | utils/saver.py:58-69 | Sanitising leaves a name unchanged exactly when it is already safe (no invalid character, all printable, at most 255 long); sanitising twice equals sanitising once |
| Saver.SanitizedNameHasNoSlash | utils/saver.py:62-65 | A sanitised name contains no `/`, so it never escapes its directory |
| Saver.LastSegment | utils/saver.py:24 | `split('.')[-1]` contains no `.` and is no longer than the URL |
| Saver.LastSegmentIsTail | utils/saver.py:24 | `split('.')[-1]` is a tail of the URL: either the whole URL or the part after a `.` |
| Saver.LastSegmentOfSuffix | utils/saver.py:24 | A URL ending in `.e`, where `e` has no `.`, has `e` as its last segment |
| Saver.ImageExtension | utils/saver.py:24-26 | The chosen extension is always one of jpg, jpeg, png, gif, bmp |
| Saver.ImageExtensionOfUrl | utils/saver.py:24-26 | For a URL ending in `.e`, the extension is `e` lower-cased when that is in the allow-list, else `jpg` |
| Saver.ImageNameIsRelative | utils/saver.py:29-30 | An image name starts with `image_`, never with `/`, so joining it never replaces the topic directory |
| Saver.ImageNamesDistinct | utils/saver.py:29 | `image_<i+1>.<ext>` names differ for different positions, whatever the extensions |
| Saver.PathJoinInjective | utils/saver.py:30 | `os.path.join` of one directory with different relative names gives different paths ending in those names |
| Saver.PathJoinExtends | utils/saver.py:17 | A relative name is joined below its directory |
| Saver.ImagePathsDistinct | utils/saver.py:17-30 | The i-th image goes to `<picture root>/<sanitised title>/image_<i+1>.<ext>`, so images at different positions never share a path |
| Saver.ImagePathOf | utils/saver.py:23-30 | Given the topic directory, the extension and file-name rule of the image at position `i` yields that image's path `<topic dir>/image_<i+1>.<ext>` |
| Saver.CountTrueIsSuccesses | utils/saver.py:20-40 | The counter equals the number of positions whose download succeeded, so it is at most the number of images, and equal to it only when every download succeeded |
| Saver.SavePictures | utils/saver.py:12-40 | Every image is tried under its own path whatever happened before; the result is the number of successful downloads and at most `len(images)` |
| Saver.NovelFileName | utils/saver.py:45-47 | The novel file name is the sanitised title plus `.txt` and is never absolute |
| Saver.NovelPath | utils/saver.py:47 | A novel is written to a path ending in `<sanitised title>.txt` under the novel root |
| Saver.NovelPathsCollide | utils/saver.py:45-47 | Two titles share a novel file exactly when they sanitise to the same name |
| Saver.SaveNovel | utils/saver.py:42-56 | `save_novel` writes the content to the novel path; the result is True on success and False when the write fails |
| Strings.DecimalStringInjective | utils/saver.py:29 | Different numbers are written as different digit strings |
| Crawler.FastestDomain | main.py:12-21 | `get_fastest_domain` gives None exactly for an empty list and otherwise the first domain |
| Crawler.SiteDomainChoice | main.py:29-66 | The first entry of `site_domains` wins when it is non-empty; otherwise the configured domain is kept, or `wm.wmhuu.com` when none is configured. Without a list a single `site_domain` wins. The result is always the default or one of the configured domain, the list's first entry and the single domain |
| Crawler.DailyPathsUnderRoots | main.py:96-104 | In a daily crawl both save roots become `<root>/daily_<YYYY-MM-DD>` |
| Crawler.FirstTag | main.py:128 | The regex search finds the leftmost `[dd-dd]` tag, or none when the title has no tag |
| Crawler.IsTodayPostIff | main.py:124-132 | `is_today_post` is true exactly when the title's first `[dd-dd]` tag holds the current `MM-DD`; a title without a tag is false |
| Crawler.TodayHasDateShape | main.py:128-131 | Only a `dd-dd` shaped date can ever match |
| Crawler.FilterToday | main.py:178 | The daily filter never lengthens the topic list |
| Crawler.FilterTodayExact | main.py:177-180 | The daily list holds exactly the topics that pass `is_today_post` |
| Crawler.FilterTodayAppend | main.py:178 | The daily filter works piecewise, so it keeps the topics' order |
| Crawler.TopicSavedBound | main.py:192-219 | A failed topic fetch saves nothing; a novel topic saves at most one item; a picture topic saves at most as many images as its page shows |
| Crawler.NovelTopicsSavedBound | main.py:210-219 | In novel mode a page saves at most one item per topic |
| Crawler.CrawlTopic | main.py:192-219 | One topic: a failed fetch skips only that topic; picture mode adds the saver's count when images were found; novel mode adds 1 when content is non-empty and the save succeeds |
| Crawler.CrawlTopics | main.py:187-219 | The topic counter grows by exactly one per retained topic, failed fetches included, and the saved counter sums the topics' contributions |
| Crawler.ListingTopics | main.py:170-185 | The listing's topics are the parsed topics, reduced to today's in a daily crawl |
| Crawler.NextListing | main.py:221-230 | A next URL is taken only when `has_next_page` is true |
| Crawler.CrawlListing | main.py:163-230 | One pass of the page loop: a failed fetch or an empty (daily) list crawls nothing and stops; otherwise the page's topics are crawled and the next URL found |
| Crawler.ListingPageStops | main.py:164-183 | A failed listing fetch, an empty topic list, an empty daily list, or no next page or next URL ends the forum at this page |
| Crawler.ForumRunStops | main.py:221-230 | A page that stops the loop is the forum's last listing fetched |
| Crawler.ForumRunPages | main.py:155-230 | Starting at page `p`, at most `max_pages - p + 1` listing pages are fetched, and the first one fetched is the forum URL |
| Crawler.ListingPageTopics | main.py:170-180 | Every topic taken from a listing is a `/viewtopic/` link with an absolute URL, and in a daily crawl one tagged with today's date |
| Crawler.ForumRunTopics | main.py:160-230 | Every topic counted in a forum is a valid topic link, and in a daily crawl one tagged with today's date |
| Crawler.NovelForumRunBound | main.py:160-230 | In novel mode a forum saves no more items than topics it counts |
| Crawler.CrawlForum | main.py:150-230 | The page loop starts at `https://<domain>/viewforum/<id>` with page 1, advances one page at a time while `page <= max_pages`, and returns the forum's topic and saved counts |
| Crawler.ForumsRunPages | main.py:150-230 | A mode fetches at most `max_pages` listing pages per forum |
| Crawler.NovelForumsRunBound | main.py:146-236 | In novel mode `mode_saved <= mode_topics` |
| Crawler.ForumsRunTopics | main.py:150-230 | Every topic a mode counts is a valid topic link, and in a daily crawl one tagged with today's date |
| Crawler.CrawlSingleMode | main.py:135-236 | `crawl_single_mode` sums the forums' counters over the mode's forum list |
| Crawler.RunCrawl | main.py:238-262 | `main` runs the chosen mode, or for `all` picture mode then novel mode, and its totals are the sums of the modes' counters |
| Crawler.CrawlRunProperties | main.py:238-262 | Under `all`, novel mode's listings follow picture mode's; every counted topic is a valid link (today's in a daily crawl); a single mode fetches at most `max_pages` listings per forum |

## Left out

- Network I/O is not modelled: HTTP requests, TLS settings, proxy handling, retries and delays. A page fetch is a function from URL to page text, with `""` for failure. Downloads and writes are functions returning success or failure, so each answers the same way for the same arguments.
- HTML parsing, the CSS selector engine and `decompose` are not modelled. Which selectors match an element is recorded on the element. The cleanup is modelled as dropping the text strings that lie inside decomposed elements.
- `urljoin` is a parameter and is not modelled. Relative-URL resolution is section 5.2 of RFC 3986.
- `os.path.join` follows POSIX rules; Windows path rules are not modelled.
- Directory creation is not modelled. `ContentSaver`'s constructor and `save_pictures` create directories, and the model assumes this succeeds.
- The configuration is not read from or written to disk: YAML loading, writing back `config.yaml`, command-line parsing and logging are left out. The `site_domain.yaml` contents enter as a value.
- The clock is not modelled. It is read twice, once as `YYYY-MM-DD` for the daily directories and once as `MM-DD` for the filter, and both readings are parameters.
- The git push after the crawl (`utils/git.py`) is not part of this model.
- Strings.Lower: folds only A-Z, not the rest of Unicode.
- Strings.IsPrintable: exact on U+0000..U+00FF only. Above that it treats separators, common format characters and the private-use block as non-printable and everything else as printable.
- Crawler.IsDigit: `\d` is read as ASCII digits only, not all Unicode decimal digits.
- Crawler.SiteDomain: a null single `site_domain` and a `site_domains` value that is not a list are not modelled.
- Crawler.Mode: a crawl mode other than `picture`, `novel` or `all` is not modelled, because the command line rejects it. `parse_topic_page` still handles any mode string.
- Crawler.Config: `max_pages` is an integer, and the forum lists and save roots are present.
