/** `HtmlParser` (utils/parser.py): topic-list discovery on a forum page,
    content extraction on a topic page, and next-page discovery. Every
    extraction step is a ranked selector chain (the first selector that finds
    something wins) followed by filtering. Each operation is a method whose
    loops follow the source, proved equal to a specification function; the
    lemmas state what the specifications promise. */
module Parser {
  import opened Strings
  import opened Html

  datatype Topic = Topic(title: string, url: string)

  /** The result of `parse_topic_page`: `content` is used in novel mode,
      `images` in picture mode. */
  datatype TopicContent = TopicContent(content: string, images: seq<string>)

  /** The URL marker of a topic page. */
  const TopicMarker := "/viewtopic/"

  const ForumListSelectors: seq<Selector> := [
    ForumbgRowItem, ThreadListItem, TopicListItem, ThreadsListItem,
    ListThreadItem, TopicsListItem, ForumTableRow]

  const TitleSelectors: seq<Selector> := [
    TopicTitleLink, ThreadTitleLink, ViewTopicHrefLink, TopicTitleChildLink, ThreadTitleChildLink, H3Link, H2Link]

  const PictureContentSelectors: seq<Selector> := [
    ContentClass, PostbodyClass, TopicContentClass, PostContentClass, ThreadContentClass,
    PostContentId, MessageContentClass]

  const NovelContentSelectors: seq<Selector> := [
    PostbodyClass, ContentClass, TopicContentClass, PostContentClass, ThreadContentClass,
    PostContentId, MessageContentClass, EntryContentClass, PostTextClass, TextClass, MessageClass]

  /** The minimum (exclusive) length of a fallback link's title. */
  const MinFallbackTitle := 5
  /** The minimum (exclusive) text length of a novel-mode fallback element. */
  const MinNovelText := 100

  // ---------------------------------------------------------------------
  // Ranked selector chains

  /** The elements of the first selector that matches anything, or none. */
  function FirstNonEmpty(nodes: seq<Node>, sels: seq<Selector>): seq<Node>
  {
    if sels == [] then []
    else if SelectAll(nodes, sels[0]) != [] then SelectAll(nodes, sels[0])
    else FirstNonEmpty(nodes, sels[1..])
  }

  /** `select_one` with each selector in turn; the first hit wins. */
  function FirstSelected(nodes: seq<Node>, sels: seq<Selector>): Option<Node>
  {
    if sels == [] then None
    else if SelectOne(nodes, sels[0]).Some? then SelectOne(nodes, sels[0])
    else FirstSelected(nodes, sels[1..])
  }

  /** A chain is its first part, and its remainder is consulted only when the
      first part found nothing; a chain that finds nothing had no selector
      matching anything. */
  lemma {:induction false} FirstNonEmptySplit(nodes: seq<Node>, sels: seq<Selector>, more: seq<Selector>)
    ensures FirstNonEmpty(nodes, sels + more) ==
      if FirstNonEmpty(nodes, sels) != [] then FirstNonEmpty(nodes, sels) else FirstNonEmpty(nodes, more)
    ensures FirstNonEmpty(nodes, sels) == [] <==> forall k :: 0 <= k < |sels| ==> SelectAll(nodes, sels[k]) == []
  {
    if sels != [] {
      assert (sels + more)[1..] == sels[1..] + more;
      FirstNonEmptySplit(nodes, sels[1..], more);
      assert forall k :: 1 <= k < |sels| ==> sels[k] == sels[1..][k - 1];
    } else {
      assert sels + more == more;
    }
  }

  lemma {:induction false} FirstSelectedSplit(nodes: seq<Node>, sels: seq<Selector>, more: seq<Selector>)
    ensures FirstSelected(nodes, sels + more) ==
      if FirstSelected(nodes, sels).Some? then FirstSelected(nodes, sels) else FirstSelected(nodes, more)
    ensures FirstSelected(nodes, sels).None? <==> forall k :: 0 <= k < |sels| ==> SelectOne(nodes, sels[k]).None?
  {
    if sels != [] {
      assert (sels + more)[1..] == sels[1..] + more;
      FirstSelectedSplit(nodes, sels[1..], more);
      assert forall k :: 1 <= k < |sels| ==> sels[k] == sels[1..][k - 1];
    } else {
      assert sels + more == more;
    }
  }

  /** The selector loop `for selector in selectors: elem = select_one(...); if elem: break`. */
  method SelectFirstOf(nodes: seq<Node>, sels: seq<Selector>) returns (r: Option<Node>)
    ensures r == FirstSelected(nodes, sels)
  {
    r := None;
    var k := 0;
    while k < |sels|
      invariant 0 <= k <= |sels|
      invariant FirstSelected(nodes, sels) == FirstSelected(nodes, sels[k..])
    {
      assert sels[k..][1..] == sels[k + 1..];
      var elem := SelectOne(nodes, sels[k]);
      if elem.Some? {
        r := elem;
        return;
      }
      k := k + 1;
    }
  }

  // ---------------------------------------------------------------------
  // parse_forum_page

  /** Makes a link absolute: kept when it starts with `http`, otherwise
      prefixed with `https://<domain>`. */
  function Absolute(href: string, domain: string): string
  {
    if StartsWith(href, "http") then href else "https://" + domain + href
  }

  /** `url` is `href` made absolute against `domain`. */
  predicate AbsoluteOf(url: string, href: string, domain: string)
  {
    (StartsWith(href, "http") && url == href) || url == "https://" + domain + href
  }

  /** A link the fallback scan accepts as a topic. */
  predicate IsFallbackLink(n: Node)
  {
    n.tag == "a" && n.href.Some? && Contains(n.href.value, TopicMarker) && |Text(n)| > MinFallbackTitle
  }

  /** The fallback scan over all links of the page. */
  function FallbackTopics(doc: Document, domain: string): seq<Topic>
  {
    if doc == [] then []
    else
      (if IsFallbackLink(doc[0]) then [Topic(Text(doc[0]), Absolute(doc[0].href.value, domain))] else [])
      + FallbackTopics(doc[1..], domain)
  }

  /** The topic of one list item: its first matching title anchor, if that
      has a title and an href holding the topic marker; otherwise none. */
  function ItemTopic(item: Node, domain: string): Option<Topic>
  {
    match FirstSelected(item.descendants, TitleSelectors)
    case None => None
    case Some(a) =>
      if a.href.Some? && a.href.value != "" && Text(a) != "" && Contains(a.href.value, TopicMarker)
      then Some(Topic(Text(a), Absolute(a.href.value, domain)))
      else None
  }

  function Listed<T>(o: Option<T>): seq<T>
  {
    if o.Some? then [o.value] else []
  }

  function ItemTopics(items: seq<Node>, domain: string): seq<Topic>
  {
    if items == [] then []
    else
      Listed(ItemTopic(items[0], domain)) + ItemTopics(items[1..], domain)
  }

  /** What `parse_forum_page` returns. */
  function ForumTopics(doc: Document, domain: string): seq<Topic>
  {
    var items := FirstNonEmpty(doc, ForumListSelectors);
    if items == [] then FallbackTopics(doc, domain) else ItemTopics(items, domain)
  }

  /** The loop `for selector in selectors: items = soup.select(...); if items: break`. */
  method FirstNonEmptyOf(nodes: seq<Node>, sels: seq<Selector>) returns (items: seq<Node>)
    ensures items == FirstNonEmpty(nodes, sels)
  {
    var k := 0;
    while k < |sels|
      invariant 0 <= k <= |sels|
      invariant FirstNonEmpty(nodes, sels) == FirstNonEmpty(nodes, sels[k..])
    {
      assert sels[k..][1..] == sels[k + 1..];
      items := SelectAll(nodes, sels[k]);
      if items != [] {
        return;
      }
      k := k + 1;
    }
    items := [];
  }

  /** One link of the fallback scan. */
  lemma FallbackTopicsStep(doc: Document, i: nat, domain: string)
    requires i < |doc|
    ensures FallbackTopics(doc[i..], domain) ==
      (if IsFallbackLink(doc[i]) then [Topic(Text(doc[i]), Absolute(doc[i].href.value, domain))] else []) +
      FallbackTopics(doc[i + 1..], domain)
  {
    assert doc[i..][1..] == doc[i + 1..];
  }

  /** The fallback loop over all links of the page. */
  method ScanTopicLinks(doc: Document, domain: string) returns (posts: seq<Topic>)
    ensures posts == FallbackTopics(doc, domain)
  {
    posts := [];
    var i := 0;
    while i < |doc|
      invariant 0 <= i <= |doc|
      invariant posts + FallbackTopics(doc[i..], domain) == FallbackTopics(doc, domain)
    {
      FallbackTopicsStep(doc, i, domain);
      ghost var rest := FallbackTopics(doc[i + 1..], domain);
      var link := doc[i];
      if link.tag == "a" && link.href.Some? {
        var href := link.href.value;
        if Contains(href, TopicMarker) {
          var title := Text(link);
          if title != "" && |title| > MinFallbackTitle {
            assert posts + ([Topic(title, Absolute(href, domain))] + rest) ==
              (posts + [Topic(title, Absolute(href, domain))]) + rest;
            posts := posts + [Topic(title, Absolute(href, domain))];
          }
        }
      }
      i := i + 1;
    }
  }

  /** The body of the item loop: the item's topic, if it has one. */
  method ItemTopicOf(item: Node, domain: string) returns (found: Option<Topic>)
    ensures found == ItemTopic(item, domain)
  {
    found := None;
    var titleElem := SelectFirstOf(item.descendants, TitleSelectors);
    if titleElem.Some? {
      var title := Text(titleElem.value);
      var url := titleElem.value.href;
      if url.Some? && url.value != "" && title != "" && Contains(url.value, TopicMarker) {
        found := Some(Topic(title, Absolute(url.value, domain)));
      }
    }
  }

  /** One list item of the item loop. */
  lemma ItemTopicsStep(items: seq<Node>, i: nat, domain: string)
    requires i < |items|
    ensures ItemTopics(items[i..], domain) == Listed(ItemTopic(items[i], domain)) + ItemTopics(items[i + 1..], domain)
  {
    assert items[i..][1..] == items[i + 1..];
  }

  /** The loop over the matched list items; an item without a topic is skipped. */
  method ScanListItems(items: seq<Node>, domain: string) returns (posts: seq<Topic>)
    ensures posts == ItemTopics(items, domain)
  {
    posts := [];
    var i := 0;
    while i < |items|
      invariant 0 <= i <= |items|
      invariant posts + ItemTopics(items[i..], domain) == ItemTopics(items, domain)
    {
      var found := ItemTopicOf(items[i], domain);
      ItemTopicsStep(items, i, domain);
      ghost var rest := ItemTopics(items[i + 1..], domain);
      assert posts + (Listed(found) + rest) == (posts + Listed(found)) + rest;
      posts := posts + Listed(found);
      i := i + 1;
    }
  }

  method ParseForumPage(doc: Document, domain: string) returns (posts: seq<Topic>)
    ensures posts == ForumTopics(doc, domain)
  {
    var postItems := FirstNonEmptyOf(doc, ForumListSelectors);
    if postItems == [] {
      // No list layout matched: scan every link of the page instead.
      posts := ScanTopicLinks(doc, domain);
      return;
    }
    posts := ScanListItems(postItems, domain);
  }

  /** The fallback keeps exactly the qualifying links, each made absolute. */
  lemma {:induction false} FallbackTopicsExact(doc: Document, domain: string, t: Topic)
    ensures t in FallbackTopics(doc, domain) <==>
      exists i :: 0 <= i < |doc| && IsFallbackLink(doc[i]) && t == Topic(Text(doc[i]), Absolute(doc[i].href.value, domain))
  {
    if doc != [] {
      FallbackTopicsExact(doc[1..], domain, t);
      forall i | 1 <= i < |doc| ensures doc[i] == doc[1..][i - 1] { }
      if exists i :: 0 <= i < |doc| && IsFallbackLink(doc[i]) && t == Topic(Text(doc[i]), Absolute(doc[i].href.value, domain)) {
        var i :| 0 <= i < |doc| && IsFallbackLink(doc[i]) && t == Topic(Text(doc[i]), Absolute(doc[i].href.value, domain));
        if i > 0 {
          assert doc[1..][i - 1] == doc[i];
        }
      }
    }
  }

  /** The fallback scan is link by link, so topics keep document order. */
  lemma {:induction false} FallbackTopicsAppend(a: Document, b: Document, domain: string)
    ensures FallbackTopics(a + b, domain) == FallbackTopics(a, domain) + FallbackTopics(b, domain)
  {
    if a == [] {
      assert a + b == b;
    } else {
      var x := a[0];
      var head := if IsFallbackLink(x) then [Topic(Text(x), Absolute(x.href.value, domain))] else [];
      assert (a + b)[0] == a[0] && (a + b)[1..] == a[1..] + b;
      assert FallbackTopics(a + b, domain) == head + FallbackTopics(a[1..] + b, domain);
      assert FallbackTopics(a, domain) == head + FallbackTopics(a[1..], domain);
      FallbackTopicsAppend(a[1..], b, domain);
    }
  }

  /** Processing the list items is item by item: a skipped item does not
      abort the page, and topics come out in item order. */
  lemma {:induction false} ItemTopicsAppend(a: seq<Node>, b: seq<Node>, domain: string)
    ensures ItemTopics(a + b, domain) == ItemTopics(a, domain) + ItemTopics(b, domain)
  {
    if a == [] {
      assert a + b == b;
    } else {
      assert (a + b)[1..] == a[1..] + b;
      ItemTopicsAppend(a[1..], b, domain);
    }
  }

  lemma AbsoluteOfTopicLink(href: string, domain: string)
    requires Contains(href, TopicMarker)
    ensures AbsoluteOf(Absolute(href, domain), href, domain)
    ensures StartsWith(Absolute(href, domain), "http")
    ensures Contains(Absolute(href, domain), TopicMarker)
  {
    if !StartsWith(href, "http") {
      assert StartsWith("https://", "http");
      StartsWithExtended("https://", domain, "http");
      StartsWithExtended("https://" + domain, href, "http");
      ContainsInSuffix("https://" + domain, href, TopicMarker);
    }
  }

  /** A topic as `parse_forum_page` returns it: a title and an absolute
      `/viewtopic/` URL. */
  predicate ValidTopic(t: Topic, domain: string)
  {
    t.title != "" && StartsWith(t.url, "http") && Contains(t.url, TopicMarker)
  }

  /** `t` is built from anchor `a`: its text is the title and its own href,
      which holds the topic marker, made absolute is the URL. */
  predicate TopicOfLink(t: Topic, a: Node, domain: string)
  {
    a.href.Some? && Contains(a.href.value, TopicMarker) &&
    t == Topic(Text(a), Absolute(a.href.value, domain))
  }

  lemma {:induction false} FallbackTopicsValid(doc: Document, domain: string)
    ensures forall t :: t in FallbackTopics(doc, domain) ==> ValidTopic(t, domain) && |t.title| > MinFallbackTitle
    ensures forall t :: t in FallbackTopics(doc, domain) ==>
      exists n :: n in doc && IsFallbackLink(n) && TopicOfLink(t, n, domain)
  {
    if doc != [] {
      FallbackTopicsValid(doc[1..], domain);
      if IsFallbackLink(doc[0]) {
        AbsoluteOfTopicLink(doc[0].href.value, domain);
        assert TopicOfLink(Topic(Text(doc[0]), Absolute(doc[0].href.value, domain)), doc[0], domain);
      }
      forall n | n in doc[1..] ensures n in doc { }
    }
  }

  /** The per-item branch keeps exactly the topics of the items that have one. */
  lemma {:induction false} ItemTopicsExact(items: seq<Node>, domain: string, t: Topic)
    ensures t in ItemTopics(items, domain) <==>
      exists i :: 0 <= i < |items| && ItemTopic(items[i], domain) == Some(t)
  {
    if items != [] {
      ItemTopicsExact(items[1..], domain, t);
      forall i | 1 <= i < |items| ensures items[i] == items[1..][i - 1] { }
      if exists i :: 0 <= i < |items| && ItemTopic(items[i], domain) == Some(t) {
        var i :| 0 <= i < |items| && ItemTopic(items[i], domain) == Some(t);
        if i > 0 {
          assert items[1..][i - 1] == items[i];
        }
      }
    }
  }

  lemma {:induction false} ItemTopicsValid(items: seq<Node>, domain: string)
    ensures |ItemTopics(items, domain)| <= |items|
    ensures forall t :: t in ItemTopics(items, domain) ==> ValidTopic(t, domain)
  {
    if items != [] {
      ItemTopicsValid(items[1..], domain);
      match FirstSelected(items[0].descendants, TitleSelectors)
      case None =>
      case Some(a) =>
        if a.href.Some? && Contains(a.href.value, TopicMarker) {
          AbsoluteOfTopicLink(a.href.value, domain);
        }
    }
  }

  /** Every topic found has a non-empty title and an absolute URL holding the
      topic marker (`ForumTopicLinks` says which href it comes from). Fallback
      titles are longer than five characters; the per-item branch yields at
      most one topic per item. */
  lemma ForumTopicsValid(doc: Document, domain: string)
    ensures forall t :: t in ForumTopics(doc, domain) ==> ValidTopic(t, domain)
    ensures FirstNonEmpty(doc, ForumListSelectors) == [] ==>
      forall t :: t in ForumTopics(doc, domain) ==> |t.title| > MinFallbackTitle
    ensures FirstNonEmpty(doc, ForumListSelectors) != [] ==>
      |ForumTopics(doc, domain)| <= |FirstNonEmpty(doc, ForumListSelectors)|
  {
    FallbackTopicsValid(doc, domain);
    ItemTopicsValid(FirstNonEmpty(doc, ForumListSelectors), domain);
  }

  /** `t` is built from the first title anchor of `item`. */
  predicate FromTitleLink(t: Topic, item: Node, domain: string)
  {
    var a := FirstSelected(item.descendants, TitleSelectors);
    a.Some? && TopicOfLink(t, a.value, domain)
  }

  /** Every per-item topic is built from the first title anchor of one item. */
  lemma ItemTopicLinks(items: seq<Node>, domain: string)
    ensures forall t :: t in ItemTopics(items, domain) ==>
      exists i :: 0 <= i < |items| && FromTitleLink(t, items[i], domain)
  {
    forall t | t in ItemTopics(items, domain)
      ensures exists i :: 0 <= i < |items| && FromTitleLink(t, items[i], domain)
    {
      ItemTopicsExact(items, domain, t);
      var i :| 0 <= i < |items| && ItemTopic(items[i], domain) == Some(t);
      assert FromTitleLink(t, items[i], domain);
    }
  }

  /** Every topic `parse_forum_page` returns comes from one element's own
      href: in the fallback branch a qualifying anchor of the page, in the
      per-item branch the first title anchor of one matched item. */
  lemma ForumTopicLinks(doc: Document, domain: string)
    ensures FirstNonEmpty(doc, ForumListSelectors) == [] ==>
      forall t :: t in ForumTopics(doc, domain) ==> exists n :: n in doc && IsFallbackLink(n) && TopicOfLink(t, n, domain)
    ensures var items := FirstNonEmpty(doc, ForumListSelectors);
      items != [] ==>
      forall t :: t in ForumTopics(doc, domain) ==> exists i :: 0 <= i < |items| && FromTitleLink(t, items[i], domain)
  {
    FallbackTopicsValid(doc, domain);
    ItemTopicLinks(FirstNonEmpty(doc, ForumListSelectors), domain);
  }

  // ---------------------------------------------------------------------
  // parse_topic_page, picture mode

  /** The image elements searched: those of the first content container, or
      of the whole page when no container matches. */
  function ImageTags(doc: Document): seq<Node>
  {
    match FirstSelected(doc, PictureContentSelectors)
    case Some(c) => FindAll(c.descendants, "img")
    case None => FindAll(doc, "img")
  }

  /** An image source made absolute; a relative path not starting with `/`
      and an empty or missing source are skipped. */
  function ResolveImage(src: Option<string>, domain: string): Option<string>
  {
    if src.None? || src.value == "" then None
    else if StartsWith(src.value, "http") then Some(src.value)
    else if StartsWith(src.value, "/") then Some("https://" + domain + src.value)
    else None
  }

  /** The denylist of interface images. */
  predicate Denied(url: string)
  {
    var u := Lower(url);
    Contains(u, "avatar") || Contains(u, "smiley") || Contains(u, "icon")
  }

  /** The URL an image element contributes, if any. */
  function KeptImage(img: Node, domain: string): Option<string>
  {
    match ResolveImage(img.src, domain)
    case Some(u) => if Denied(u) then None else Some(u)
    case None => None
  }

  function ImageUrls(imgs: seq<Node>, domain: string): seq<string>
  {
    if imgs == [] then [] else Listed(KeptImage(imgs[0], domain)) + ImageUrls(imgs[1..], domain)
  }

  /** Image URLs keep document order. */
  lemma {:induction false} ImageUrlsAppend(a: seq<Node>, b: seq<Node>, domain: string)
    ensures ImageUrls(a + b, domain) == ImageUrls(a, domain) + ImageUrls(b, domain)
  {
    if a == [] {
      assert a + b == b;
    } else {
      assert (a + b)[1..] == a[1..] + b;
      ImageUrlsAppend(a[1..], b, domain);
    }
  }

  /** The images kept are exactly the resolvable sources that escape the
      denylist; each is absolute. */
  lemma {:induction false} ImageUrlsExact(imgs: seq<Node>, domain: string, u: string)
    ensures u in ImageUrls(imgs, domain) <==>
      exists i :: 0 <= i < |imgs| && ResolveImage(imgs[i].src, domain) == Some(u) && !Denied(u)
    ensures u in ImageUrls(imgs, domain) ==> StartsWith(u, "http")
  {
    if imgs != [] {
      ImageUrlsExact(imgs[1..], domain, u);
      forall i | 1 <= i < |imgs| ensures imgs[i] == imgs[1..][i - 1] { }
      if exists i :: 0 <= i < |imgs| && ResolveImage(imgs[i].src, domain) == Some(u) && !Denied(u) {
        var i :| 0 <= i < |imgs| && ResolveImage(imgs[i].src, domain) == Some(u) && !Denied(u);
        if i > 0 {
          assert imgs[1..][i - 1] == imgs[i];
        }
      }
      var src := imgs[0].src;
      if src.Some? && src.value != "" && !StartsWith(src.value, "http") && StartsWith(src.value, "/") {
        assert StartsWith("https://", "http");
        StartsWithExtended("https://", domain, "http");
        StartsWithExtended("https://" + domain, src.value, "http");
      }
    }
  }

  // ---------------------------------------------------------------------
  // parse_topic_page, novel mode

  /** The `div` and `p` elements scanned when no content container matches. */
  function Candidates(doc: Document): seq<Node>
  {
    if doc == [] then []
    else (if doc[0].tag == "div" || doc[0].tag == "p" then [doc[0]] else []) + Candidates(doc[1..])
  }

  /** The stripped text length of each candidate. */
  function TextLengths(cs: seq<Node>): (lens: seq<nat>)
    ensures |lens| == |cs|
    ensures forall i :: 0 <= i < |cs| ==> lens[i] == |Text(cs[i])|
  {
    seq(|cs|, i requires 0 <= i < |cs| => |Text(cs[i])|)
  }

  /** The index the running-maximum scan settles on (-1 for none): a new
      candidate replaces the current one only when its length is strictly
      greater than both the current maximum and the minimum. */
  function LongestIndex(lens: seq<nat>): (k: int)
    ensures -1 <= k < |lens|
  {
    if lens == [] then -1
    else
      var k := LongestIndex(lens[..|lens| - 1]);
      var n := lens[|lens| - 1];
      if n > MinNovelText && n > (if k < 0 then 0 else lens[k]) then |lens| - 1 else k
  }

  /** The scan picks the first candidate of strictly greatest length, and
      only when that length exceeds the minimum. */
  lemma {:induction false} LongestIndexIsFirstMaximum(lens: seq<nat>)
    ensures LongestIndex(lens) == -1 <==> forall j :: 0 <= j < |lens| ==> lens[j] <= MinNovelText
    ensures LongestIndex(lens) >= 0 ==>
      var k := LongestIndex(lens);
      lens[k] > MinNovelText &&
      (forall j :: 0 <= j < k ==> lens[j] < lens[k]) &&
      (forall j :: 0 <= j < |lens| ==> lens[j] <= lens[k])
  {
    if lens != [] {
      var n := |lens|;
      var init := lens[..n - 1];
      LongestIndexIsFirstMaximum(init);
      assert forall j :: 0 <= j < n - 1 ==> init[j] == lens[j];
      var k0 := LongestIndex(init);
      var last := lens[n - 1];
      var current := if k0 < 0 then 0 else lens[k0];
      if last > MinNovelText && last > current {
        assert LongestIndex(lens) == n - 1;
        assert forall j :: 0 <= j < n - 1 ==> lens[j] < last;
      } else {
        assert LongestIndex(lens) == k0;
        assert k0 < 0 ==> last <= MinNovelText;
        assert k0 >= 0 ==> last <= current;
      }
    }
  }

  /** The running-maximum loop over the candidates. */
  method LongestText(cs: seq<Node>) returns (best: Option<Node>)
    ensures var k := LongestIndex(TextLengths(cs)); best == (if k < 0 then None else Some(cs[k]))
  {
    ghost var lens := TextLengths(cs);
    best := None;
    var bestIndex := -1;
    var maxTextLen := 0;
    for i := 0 to |cs|
      invariant bestIndex == LongestIndex(lens[..i])
      invariant best == (if bestIndex < 0 then None else Some(cs[bestIndex]))
      invariant maxTextLen == (if bestIndex < 0 then 0 else lens[bestIndex])
    {
      assert lens[..i + 1][..i] == lens[..i];
      var text := Text(cs[i]);
      if |text| > maxTextLen && |text| > MinNovelText {
        maxTextLen := |text|;
        best := Some(cs[i]);
        bestIndex := i;
      }
    }
    assert lens[..|cs|] == lens;
  }

  /** The element novel mode extracts text from. */
  function NovelElement(doc: Document): Option<Node>
  {
    match FirstSelected(doc, NovelContentSelectors)
    case Some(e) => Some(e)
    case None =>
      var cs := Candidates(doc);
      var k := LongestIndex(TextLengths(cs));
      if k < 0 then None else Some(cs[k])
  }

  /** The strings left once the cleanup has decomposed images, scripts,
      styles and advertisement blocks. */
  function Kept(fs: seq<Fragment>): seq<Fragment>
  {
    if fs == [] then []
    else (if fs[0].removedByCleanup then [] else [fs[0]]) + Kept(fs[1..])
  }

  /** `get_text(separator='\n', strip=True)` of the cleaned element. */
  function CleanedText(e: Node): string
  {
    Join(Pieces(Kept(e.fragments)), "\n")
  }

  /** The cleanup and text extraction of the chosen element. */
  method ExtractText(e: Node) returns (content: string)
    ensures content == CleanedText(e)
  {
    var kept: seq<Fragment> := [];
    var i := 0;
    while i < |e.fragments|
      invariant 0 <= i <= |e.fragments|
      invariant kept + Kept(e.fragments[i..]) == Kept(e.fragments)
    {
      assert e.fragments[i..][1..] == e.fragments[i + 1..];
      ghost var before := kept;
      var piece := if e.fragments[i].removedByCleanup then [] else [e.fragments[i]];
      kept := kept + piece;
      assert kept + Kept(e.fragments[i + 1..]) == before + (piece + Kept(e.fragments[i + 1..]));
      i := i + 1;
    }
    assert e.fragments[|e.fragments|..] == [];
    assert kept == Kept(e.fragments);
    content := Join(Pieces(kept), "\n");
  }

  /** A string with no whitespace at either end. */
  predicate NonBlank(p: string)
  {
    p != "" && !IsSpace(p[0]) && !IsSpace(p[|p| - 1])
  }

  lemma {:induction false} PiecesNonBlank(fs: seq<Fragment>)
    ensures forall i :: 0 <= i < |Pieces(fs)| ==> NonBlank(Pieces(fs)[i])
  {
    if fs != [] {
      PiecesNonBlank(fs[1..]);
      var rest := Pieces(fs[1..]);
      var t := Strip(fs[0].text);
      if t == "" {
        assert Pieces(fs) == rest;
      } else {
        assert NonBlank(t);
        assert Pieces(fs) == [t] + rest;
      }
    }
  }

  lemma {:induction false} PiecesEmpty(fs: seq<Fragment>)
    ensures Pieces(fs) == [] <==> forall k :: 0 <= k < |fs| ==> Strip(fs[k].text) == ""
  {
    if fs != [] {
      PiecesEmpty(fs[1..]);
      assert forall k :: 1 <= k < |fs| ==> fs[k] == fs[1..][k - 1];
    }
  }

  lemma {:induction false} JoinNonBlank(parts: seq<string>, sep: string)
    requires forall i :: 0 <= i < |parts| ==> NonBlank(parts[i])
    ensures Join(parts, sep) == "" <==> parts == []
    ensures parts != [] ==> NonBlank(Join(parts, sep))
  {
    if |parts| > 1 {
      assert forall i :: 0 <= i < |parts| - 1 ==> parts[1..][i] == parts[i + 1];
      JoinNonBlank(parts[1..], sep);
      var rest := Join(parts[1..], sep);
      var whole := parts[0] + sep + rest;
      assert Join(parts, sep) == whole;
      assert whole[0] == parts[0][0];
      assert whole[|whole| - 1] == rest[|rest| - 1];
    } else if |parts| == 1 {
      assert NonBlank(parts[0]);
    }
  }

  /** The extracted text is empty exactly when every string left after the
      cleanup is blank. */
  lemma CleanedTextEmpty(e: Node)
    ensures CleanedText(e) == "" <==>
      forall k :: 0 <= k < |Kept(e.fragments)| ==> Strip(Kept(e.fragments)[k].text) == ""
  {
    var kept := Kept(e.fragments);
    var parts := Pieces(kept);
    PiecesNonBlank(kept);
    JoinNonBlank(parts, "\n");
    assert CleanedText(e) == "" <==> parts == [];
    PiecesEmpty(kept);
  }

  /** Non-empty extracted text begins and ends with a non-space. */
  lemma CleanedTextTrimmed(e: Node)
    ensures CleanedText(e) != "" ==> NonBlank(CleanedText(e))
  {
    var kept := Kept(e.fragments);
    PiecesNonBlank(kept);
    JoinNonBlank(Pieces(kept), "\n");
  }

  /** What `parse_topic_page` returns for a crawl mode. */
  function TopicPage(doc: Document, mode: string, domain: string): TopicContent
  {
    if mode == "picture" then TopicContent("", ImageUrls(ImageTags(doc), domain))
    else if mode == "novel" then
      TopicContent(match NovelElement(doc) case Some(e) => CleanedText(e) case None => "", [])
    else TopicContent("", [])
  }

  /** The body of the image loop. */
  method ImageUrlOf(img: Node, domain: string) returns (kept: Option<string>)
    ensures kept == KeptImage(img, domain)
  {
    kept := None;
    var src := img.src;
    if src.Some? && src.value != "" {
      var imgUrl := src.value;
      if StartsWith(imgUrl, "http") || StartsWith(imgUrl, "/") {
        if !StartsWith(imgUrl, "http") {
          imgUrl := "https://" + domain + imgUrl;
        }
        if !Denied(imgUrl) {
          kept := Some(imgUrl);
        }
      }
    }
  }

  /** One image element of the image loop. */
  lemma ImageUrlsStep(imgs: seq<Node>, i: nat, domain: string)
    requires i < |imgs|
    ensures ImageUrls(imgs[i..], domain) == Listed(KeptImage(imgs[i], domain)) + ImageUrls(imgs[i + 1..], domain)
  {
    assert imgs[i..][1..] == imgs[i + 1..];
  }

  /** The loop over the image elements. */
  method CollectImages(imgTags: seq<Node>, domain: string) returns (images: seq<string>)
    ensures images == ImageUrls(imgTags, domain)
  {
    images := [];
    var i := 0;
    while i < |imgTags|
      invariant 0 <= i <= |imgTags|
      invariant images + ImageUrls(imgTags[i..], domain) == ImageUrls(imgTags, domain)
    {
      var kept := ImageUrlOf(imgTags[i], domain);
      ImageUrlsStep(imgTags, i, domain);
      ghost var rest := ImageUrls(imgTags[i + 1..], domain);
      assert images + (Listed(kept) + rest) == (images + Listed(kept)) + rest;
      images := images + Listed(kept);
      i := i + 1;
    }
  }

  method ParseTopicPage(doc: Document, mode: string, domain: string) returns (result: TopicContent)
    ensures result == TopicPage(doc, mode, domain)
    ensures mode != "picture" ==> result.images == []
    ensures mode != "novel" ==> result.content == ""
  {
    result := TopicContent("", []);
    if mode == "picture" {
      var contentElem := SelectFirstOf(doc, PictureContentSelectors);
      var imgTags := if contentElem.Some? then FindAll(contentElem.value.descendants, "img") else FindAll(doc, "img");
      var images := CollectImages(imgTags, domain);
      result := result.(images := images);
    } else if mode == "novel" {
      var contentElem := SelectFirstOf(doc, NovelContentSelectors);
      if contentElem.None? {
        contentElem := LongestText(Candidates(doc));
      }
      if contentElem.Some? {
        var content := ExtractText(contentElem.value);
        result := result.(content := content);
      }
    }
  }

  /** Novel mode without a content container: no element (and so empty
      content) when no `div` or `p` has more than 100 characters of text;
      otherwise the first candidate of greatest text length. */
  lemma NovelFallbackChoice(doc: Document)
    requires FirstSelected(doc, NovelContentSelectors).None?
    ensures NovelElement(doc).None? <==>
      forall c :: c in Candidates(doc) ==> |Text(c)| <= MinNovelText
    ensures NovelElement(doc).None? ==> TopicPage(doc, "novel", "").content == ""
    ensures NovelElement(doc).Some? ==>
      var e := NovelElement(doc).value;
      e in Candidates(doc) && |Text(e)| > MinNovelText &&
      forall c :: c in Candidates(doc) ==> |Text(c)| <= |Text(e)|
  {
    var cs := Candidates(doc);
    var lens := TextLengths(cs);
    LongestIndexIsFirstMaximum(lens);
    forall c | c in cs
      ensures exists j :: 0 <= j < |lens| && lens[j] == |Text(c)|
    {
      var j :| 0 <= j < |cs| && cs[j] == c;
      assert lens[j] == |Text(c)|;
    }
    if LongestIndex(lens) < 0 {
      forall c | c in cs
        ensures |Text(c)| <= MinNovelText
      {
        var j :| 0 <= j < |cs| && cs[j] == c;
        assert lens[j] == |Text(c)|;
      }
    } else {
      var k := LongestIndex(lens);
      assert cs[k] in cs;
      assert lens[k] > MinNovelText;
    }
  }

  /** Picture mode returns absolute URLs, none on the denylist, taken from the
      first content container when one matches and from the whole page
      otherwise. */
  lemma PictureImages(doc: Document, domain: string)
    ensures forall u :: u in TopicPage(doc, "picture", domain).images ==>
      StartsWith(u, "http") && !Denied(u)
    ensures FirstSelected(doc, PictureContentSelectors).None? ==>
      TopicPage(doc, "picture", domain).images == ImageUrls(FindAll(doc, "img"), domain)
    ensures FirstSelected(doc, PictureContentSelectors).Some? ==>
      var c := FirstSelected(doc, PictureContentSelectors).value;
      TopicPage(doc, "picture", domain).images == ImageUrls(FindAll(c.descendants, "img"), domain)
  {
    forall u | u in TopicPage(doc, "picture", domain).images
      ensures StartsWith(u, "http") && !Denied(u)
    {
      ImageUrlsExact(ImageTags(doc), domain, u);
    }
  }

  // ---------------------------------------------------------------------
  // has_next_page and get_next_page_url

  /** A pagination rule: a CSS selector, or an anchor whose `.string`
      contains a label (the source's `a:contains(...)` selectors). */
  datatype Rule = Css(selector: Selector) | LinkText(caption: string)

  /** The label "下一页" ("next page"). */
  const NextPageLabel := "\U{4e0b}\U{4e00}\U{9875}"

  /** The rules `get_next_page_url` tries. */
  const NextPageRules: seq<Rule> := [
    Css(RelNextLink), Css(NextClassLink), Css(PaginationNextLink), Css(PagingNextLink),
    LinkText(NextPageLabel), LinkText("Next")]

  /** The rules `has_next_page` tries: the same list followed by two more. */
  const HasNextPageRules: seq<Rule> := NextPageRules + [Css(StartParamLink), Css(PageParamLink)]

  /** The first anchor whose non-empty `.string` contains the label. */
  function FirstLinkWithString(doc: Document, caption: string): Option<Node>
  {
    if doc == [] then None
    else if doc[0].tag == "a" && doc[0].str.Some? && doc[0].str.value != "" && Contains(doc[0].str.value, caption)
    then Some(doc[0])
    else FirstLinkWithString(doc[1..], caption)
  }

  function Find(doc: Document, rule: Rule): Option<Node>
  {
    match rule
    case Css(sel) => SelectOne(doc, sel)
    case LinkText(caption) => FirstLinkWithString(doc, caption)
  }

  /** The element found by the first rule that finds one. */
  function FirstFound(doc: Document, rules: seq<Rule>): Option<Node>
  {
    if rules == [] then None
    else if Find(doc, rules[0]).Some? then Find(doc, rules[0])
    else FirstFound(doc, rules[1..])
  }

  lemma {:induction false} FirstFoundSplit(doc: Document, rules: seq<Rule>, more: seq<Rule>)
    ensures FirstFound(doc, rules + more) ==
      if FirstFound(doc, rules).Some? then FirstFound(doc, rules) else FirstFound(doc, more)
    ensures FirstFound(doc, rules).None? <==> forall k :: 0 <= k < |rules| ==> Find(doc, rules[k]).None?
  {
    if rules != [] {
      assert (rules + more)[1..] == rules[1..] + more;
      FirstFoundSplit(doc, rules[1..], more);
      assert forall k :: 1 <= k < |rules| ==> rules[k] == rules[1..][k - 1];
    } else {
      assert rules + more == more;
    }
  }

  /** What `has_next_page` returns. */
  predicate HasNext(doc: Document)
  {
    FirstFound(doc, HasNextPageRules).Some?
  }

  /** The rule loop: the first rule that finds an element wins. */
  method FindFirstOf(doc: Document, rules: seq<Rule>) returns (r: Option<Node>)
    ensures r == FirstFound(doc, rules)
  {
    var k := 0;
    while k < |rules|
      invariant 0 <= k <= |rules|
      invariant FirstFound(doc, rules) == FirstFound(doc, rules[k..])
    {
      assert rules[k..][1..] == rules[k + 1..];
      r := Find(doc, rules[k]);
      if r.Some? {
        return;
      }
      k := k + 1;
    }
    r := None;
  }

  method HasNextPage(doc: Document) returns (b: bool)
    ensures b == HasNext(doc)
    ensures b <==> exists k :: 0 <= k < |HasNextPageRules| && Find(doc, HasNextPageRules[k]).Some?
  {
    FirstFoundSplit(doc, HasNextPageRules, []);
    var found := FindFirstOf(doc, HasNextPageRules);
    b := found.Some?;
  }

  /** An href of the generic fallback: a forum listing with a paging parameter. */
  predicate IsPaginationHref(href: string)
  {
    Contains(href, "/viewforum/") && (Contains(href, "start=") || Contains(href, "page="))
  }

  function FirstPaginationLink(doc: Document): Option<Node>
  {
    if doc == [] then None
    else if doc[0].tag == "a" && doc[0].href.Some? && IsPaginationHref(doc[0].href.value) then Some(doc[0])
    else FirstPaginationLink(doc[1..])
  }

  /** The element `get_next_page_url` settles on; the fallback scan runs only
      when no rule found anything. */
  function NextPageElement(doc: Document): Option<Node>
  {
    match FirstFound(doc, NextPageRules)
    case Some(n) => Some(n)
    case None => FirstPaginationLink(doc)
  }

  /** An href made absolute: kept when it starts with `http`, prefixed with
      `https://<domain>` when it starts with `/`, and otherwise resolved
      against the current page by `urljoin`. */
  function ResolveNext(href: string, currentUrl: string, domain: string, urljoin: (string, string) -> string): string
  {
    if StartsWith(href, "http") then href
    else if StartsWith(href, "/") then "https://" + domain + href
    else urljoin(currentUrl, href)
  }

  /** What `get_next_page_url` returns; `""` stands for "no next page". */
  function NextPageUrl(currentUrl: string, doc: Document, domain: string, urljoin: (string, string) -> string): string
  {
    match NextPageElement(doc)
    case None => ""
    case Some(n) =>
      if n.href.None? || n.href.value == "" then ""
      else ResolveNext(n.href.value, currentUrl, domain, urljoin)
  }

  /** The fallback loop over all links of the page. */
  method ScanPaginationLinks(doc: Document) returns (r: Option<Node>)
    ensures r == FirstPaginationLink(doc)
  {
    var i := 0;
    while i < |doc|
      invariant 0 <= i <= |doc|
      invariant FirstPaginationLink(doc) == FirstPaginationLink(doc[i..])
    {
      assert doc[i..][1..] == doc[i + 1..];
      var link := doc[i];
      if link.tag == "a" && link.href.Some? && IsPaginationHref(link.href.value) {
        return Some(link);
      }
      i := i + 1;
    }
    return None;
  }

  method GetNextPageUrl(currentUrl: string, doc: Document, domain: string, urljoin: (string, string) -> string)
    returns (nextUrl: string)
    ensures nextUrl == NextPageUrl(currentUrl, doc, domain, urljoin)
  {
    var nextPage := FindFirstOf(doc, NextPageRules);
    if nextPage.None? {
      nextPage := ScanPaginationLinks(doc);
    }
    nextUrl := "";
    if nextPage.Some? {
      var href := nextPage.value.href;
      if href.Some? && href.value != "" {
        nextUrl := href.value;
        if !StartsWith(nextUrl, "http") {
          if StartsWith(nextUrl, "/") {
            nextUrl := "https://" + domain + nextUrl;
          } else {
            nextUrl := urljoin(currentUrl, nextUrl);
          }
        }
      }
    }
  }

  /** The selector engine agrees with the two attribute selectors whose
      meaning the crawler relies on: `a[href*="start="]` and `a[href*="page="]`
      match exactly the anchors whose href contains that text. */
  predicate HrefSelectorsAgree(n: Node)
  {
    (StartParamLink in n.selectors <==> n.tag == "a" && n.href.Some? && Contains(n.href.value, "start=")) &&
    (PageParamLink in n.selectors <==> n.tag == "a" && n.href.Some? && Contains(n.href.value, "page="))
  }

  predicate WellFormed(doc: Document)
  {
    forall n :: n in doc ==> HrefSelectorsAgree(n)
  }

  lemma {:induction false} PaginationLinkIsSelected(doc: Document)
    requires WellFormed(doc)
    requires FirstPaginationLink(doc).Some?
    ensures SelectOne(doc, StartParamLink).Some? || SelectOne(doc, PageParamLink).Some?
  {
    assert doc[0] in doc;
    if !(doc[0].tag == "a" && doc[0].href.Some? && IsPaginationHref(doc[0].href.value)) {
      assert forall n :: n in doc[1..] ==> n in doc;
      PaginationLinkIsSelected(doc[1..]);
    }
  }

  /** Whenever `get_next_page_url` yields a URL, `has_next_page` is true:
      its rule list begins with `get_next_page_url`'s, and its two extra
      selectors match every link the fallback scan accepts. */
  lemma NextPageUrlImpliesHasNext(currentUrl: string, doc: Document, domain: string, urljoin: (string, string) -> string)
    requires WellFormed(doc)
    ensures NextPageUrl(currentUrl, doc, domain, urljoin) != "" ==> HasNext(doc)
  {
    FirstFoundSplit(doc, NextPageRules, [Css(StartParamLink), Css(PageParamLink)]);
    if NextPageUrl(currentUrl, doc, domain, urljoin) != "" && FirstFound(doc, NextPageRules).None? {
      PaginationLinkIsSelected(doc);
      FirstFoundSplit(doc, [Css(StartParamLink)], [Css(PageParamLink)]);
    }
  }

  /** The converse fails: a `rel="next"` anchor without an href makes
      `has_next_page` true while `get_next_page_url` yields nothing. */
  lemma HasNextWithoutNextPageUrl(currentUrl: string, domain: string, urljoin: (string, string) -> string)
    ensures var doc := [Node("a", {RelNextLink}, None, None, None, [], [])];
      WellFormed(doc) && HasNext(doc) && NextPageUrl(currentUrl, doc, domain, urljoin) == ""
  {
    var doc := [Node("a", {RelNextLink}, None, None, None, [], [])];
    assert Find(doc, NextPageRules[0]).Some?;
    assert HasNextPageRules[0] == NextPageRules[0];
  }

  /** A `rel="next"` link whose href is a root-relative path resolves to
      `https://<domain>` followed by that path, and `has_next_page` agrees. */
  lemma RelNextRootRelative(currentUrl: string, doc: Document, domain: string, urljoin: (string, string) -> string, href: string)
    requires SelectOne(doc, RelNextLink).Some? && SelectOne(doc, RelNextLink).value.href == Some(href)
    requires StartsWith(href, "/")
    ensures NextPageUrl(currentUrl, doc, domain, urljoin) == "https://" + domain + href
    ensures HasNext(doc)
  {
    assert Find(doc, NextPageRules[0]).Some?;
    assert HasNextPageRules[0] == NextPageRules[0];
  }
}
