/** The parsed-HTML interface the crawler's parser reads: BeautifulSoup's tree,
    its CSS selector engine and `get_text`, abstracted to elements in document
    order. Which of the crawler's selectors an element matches is decided by
    the selector engine and is recorded on the element; everything the parser
    does after a match is modelled exactly. */
module Html {
  import opened Strings

  /** The CSS selectors the crawler queries. Which elements a selector
      matches is decided by the selector engine, so here a selector is an
      identity only; `CssText` gives the selector text the crawler passes. */
  datatype Selector =
    | ForumbgRowItem | ThreadListItem | TopicListItem | ThreadsListItem | ListThreadItem | TopicsListItem | ForumTableRow
    | TopicTitleLink | ThreadTitleLink | ViewTopicHrefLink | TopicTitleChildLink | ThreadTitleChildLink | H3Link | H2Link
    | ContentClass | PostbodyClass | TopicContentClass | PostContentClass | ThreadContentClass | PostContentId
    | MessageContentClass | EntryContentClass | PostTextClass | TextClass | MessageClass
    | RelNextLink | NextClassLink | PaginationNextLink | PagingNextLink | StartParamLink | PageParamLink

  function CssText(sel: Selector): string
  {
    match sel
    case ForumbgRowItem => ".forumbg li.row"
    case ThreadListItem => ".thread_list li"
    case TopicListItem => ".topiclist.topics li"
    case ThreadsListItem => "#threadslist li"
    case ListThreadItem => ".list_thread li"
    case TopicsListItem => "ul.topics li"
    case ForumTableRow => "table.forum-table tr"
    case TopicTitleLink => "a.topictitle"
    case ThreadTitleLink => "a.threadtitle"
    case ViewTopicHrefLink => "a[href*=\"viewtopic\"]"
    case TopicTitleChildLink => ".topic-title a"
    case ThreadTitleChildLink => ".thread-title a"
    case H3Link => "h3 a"
    case H2Link => "h2 a"
    case ContentClass => ".content"
    case PostbodyClass => ".postbody"
    case TopicContentClass => ".topic-content"
    case PostContentClass => ".post-content"
    case ThreadContentClass => ".thread-content"
    case PostContentId => "#post_content"
    case MessageContentClass => ".message-content"
    case EntryContentClass => ".entry-content"
    case PostTextClass => ".post-text"
    case TextClass => ".text"
    case MessageClass => ".message"
    case RelNextLink => "a[rel=\"next\"]"
    case NextClassLink => ".next a"
    case PaginationNextLink => ".pagination a.next"
    case PagingNextLink => ".paging a.next"
    case StartParamLink => "a[href*=\"start=\"]"
    case PageParamLink => "a[href*=\"page=\"]"
  }

  /** One text string of an element's subtree, as `get_text` visits it.
      `removedByCleanup` says whether the string lies inside an element that
      the novel-mode cleanup decomposes (an `img`, `script` or `style`, or a
      `div`/`span` of class `ad`, `advertisement` or `ads`). */
  datatype Fragment = Fragment(text: string, removedByCleanup: bool)

  /** An element: its tag name, the crawler's CSS selectors that match it in
      its document, its `href`, `src` and `.string` (absent is `None`), the
      strings of its subtree and its descendants, both in document order. */
  datatype Node = Node(
    tag: string,
    selectors: set<Selector>,
    href: Option<string>,
    src: Option<string>,
    str: Option<string>,
    fragments: seq<Fragment>,
    descendants: seq<Node>)

  /** All elements of a parsed page, in document order. */
  type Document = seq<Node>

  /** `select(sel)`: the matching elements, in document order. */
  function SelectAll(nodes: seq<Node>, sel: Selector): (r: seq<Node>)
    ensures |r| <= |nodes|
    ensures forall n :: n in r ==> n in nodes && sel in n.selectors
  {
    if nodes == [] then []
    else (if sel in nodes[0].selectors then [nodes[0]] else []) + SelectAll(nodes[1..], sel)
  }

  /** `select_one(sel)`: the first matching element in document order. */
  function SelectOne(nodes: seq<Node>, sel: Selector): Option<Node>
  {
    if nodes == [] then None
    else if sel in nodes[0].selectors then Some(nodes[0])
    else SelectOne(nodes[1..], sel)
  }

  /** `find_all(tag)`: the elements with that tag name, in document order. */
  function FindAll(nodes: seq<Node>, tag: string): seq<Node>
  {
    if nodes == [] then []
    else (if nodes[0].tag == tag then [nodes[0]] else []) + FindAll(nodes[1..], tag)
  }

  /** The strings `get_text(strip=True)` keeps: each one stripped, empty ones dropped. */
  function Pieces(fs: seq<Fragment>): seq<string>
  {
    if fs == [] then []
    else
      var t := Strip(fs[0].text);
      (if t == "" then [] else [t]) + Pieces(fs[1..])
  }

  /** `get_text(strip=True)` */
  function Text(n: Node): string
  {
    Join(Pieces(n.fragments), "")
  }
}
