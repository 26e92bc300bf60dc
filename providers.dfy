/** The provider adapters of package `feed` that the ingestion engine polls
    (app/feed/releases.go and app/feed/blog.go): each takes the first item
    of the fetched channel, or hands back Go's zero `Item`, and assembles the
    item's content, asking the AI step for a rewrite and falling back to the
    upstream text when it fails. The HTTP fetch and the XML decoding are
    inputs (`Payload`); the AI call `ai.TransformText(pattern, text)` is the
    function `ai`. */
module Providers {
  import opened Wrappers
  import opened Text

  /** `feed.Item`: the normalized record a provider hands to the engine. */
  datatype Item = Item(title: string, link: string, pubDate: string, content: string, categories: seq<string>)

  /** Go's zero value `Item{}`. */
  const ZeroItem: Item := Item("", "", "", "", [])

  /** A provider's `(Item, error)` result. */
  datatype Fetched = Fetched(item: Item, err: Option<string>)

  /** The fetched feed as the adapter sees it: the transport failed, the XML
      did not decode, or the decoded channel's items in document order. */
  datatype Payload<T> = FetchFailed(reason: string) | Undecodable(reason: string) | Decoded(items: seq<T>)

  /** `ai.TransformText(pattern, text)` as a function of its two arguments. */
  type Transform = (string, string) -> Result<string, string>

  const ReleasesPattern: string := "Extract key highlights from the text below. Output RAW HTML only. Do NOT escape HTML characters. Do NOT output JSON. Use literal < > characters, not unicode (e.g. < not \\u003c). Output must be a single line with no line breaks. Format EXACTLY: <p><strong>WordPress ###VERSION### is here!</strong></p><p>###Description###</p><ul><li><strong>###TITLE_HIGHLIGHT_1:###</strong> TEXT_HIGHLIGHT_1</li><li><strong>###TITLE_HIGHLIGHT_2:###</strong> TEXT_HIGHLIGHT_2</li><li><strong>###TITLE_HIGHLIGHT_n:###</strong> TEXT_HIGHLIGHT_n</li></ul> Description must be one short sentence (max 60 characters), high-level, and must not repeat the headline. Text:\n\n%s"

  const BlogPattern: string := "Write a very brief summary in 1-2 sentences. Respond without HTML or Markdown. Text:\n\n%s"

  // ---------------------------------------------------------------------------
  // app/feed/releases.go

  /** A `<item>` of the WordPress releases feed. */
  datatype ReleaseItem = ReleaseItem(title: string, link: string, pubDate: string, description: string, categories: seq<string>)

  /** `buildReleasesContent`: a blank description gives no content; otherwise
      the AI's rewrite of the trimmed description, or, when the AI fails, the
      trimmed description itself. */
  function BuildReleasesContent(description: string, ai: Transform): (r: string)
    ensures IsBlank(description) ==> r == ""
    ensures !IsBlank(description) && ai(ReleasesPattern, TrimSpace(description)).Ok? ==>
      r == ai(ReleasesPattern, TrimSpace(description)).value
    ensures !IsBlank(description) && ai(ReleasesPattern, TrimSpace(description)).Err? ==>
      r == TrimSpace(description)
  {
    var content := TrimSpace(description);
    if content == "" then ""
    else
      match ai(ReleasesPattern, content)
      case Ok(rendered) => rendered
      case Err(_) => content
  }

  /** The AI is asked once, with the release pattern and the trimmed
      description, and with nothing else: two AI steps that answer that one
      question alike give the same content, and a blank description never
      reaches the AI at all. */
  lemma ReleasesContentAsksOnlyTrimmedDescription(description: string, ai1: Transform, ai2: Transform)
    requires IsBlank(description) || ai1(ReleasesPattern, TrimSpace(description)) == ai2(ReleasesPattern, TrimSpace(description))
    ensures BuildReleasesContent(description, ai1) == BuildReleasesContent(description, ai2)
  {
  }

  /** `LatestReleases`: a failed fetch or decode is passed on with the zero
      item, an empty channel gives the zero item and no error, and otherwise
      the first item's title, link, pubDate and categories are copied
      verbatim beside the content built from its description. */
  function LatestReleases(payload: Payload<ReleaseItem>, ai: Transform): (r: Fetched)
    ensures payload.FetchFailed? ==> r == Fetched(ZeroItem, Some(payload.reason))
    ensures payload.Undecodable? ==> r == Fetched(ZeroItem, Some(payload.reason))
    ensures payload.Decoded? && payload.items == [] ==> r == Fetched(ZeroItem, None)
    ensures payload.Decoded? && payload.items != [] ==>
      var first := payload.items[0];
      && r.err == None
      && r.item.title == first.title && r.item.link == first.link
      && r.item.pubDate == first.pubDate && r.item.categories == first.categories
      && r.item.content == BuildReleasesContent(first.description, ai)
    ensures r.err.Some? ==> r.item == ZeroItem
  {
    match payload
    case FetchFailed(reason) => Fetched(ZeroItem, Some(reason))
    case Undecodable(reason) => Fetched(ZeroItem, Some(reason))
    case Decoded(items) =>
      if |items| == 0 then Fetched(ZeroItem, None)
      else
        var first := items[0];
        Fetched(Item(first.title, first.link, first.pubDate,
                     BuildReleasesContent(first.description, ai), first.categories), None)
  }

  // ---------------------------------------------------------------------------
  // app/feed/blog.go

  /** A `<item>` of the WordPress.com blog feed; `contentEncoded` is its
      `content:encoded` body. */
  datatype BlogItem = BlogItem(title: string, link: string, pubDate: string, contentEncoded: string, categories: seq<string>)

  /** The summary `buildBlogContent` asks the AI for: empty for a blank body
      (the AI is not asked) and when the AI fails, else its trimmed answer. */
  function BlogSummary(encoded: string, ai: Transform): string {
    var body := TrimSpace(encoded);
    if body == "" then ""
    else
      match ai(BlogPattern, body)
      case Ok(result) => TrimSpace(result)
      case Err(_) => ""
  }

  /** `buildBlogContent`: empty exactly when both the trimmed title and the
      summary are empty; a title paragraph alone when there is no summary;
      otherwise the title paragraph followed by the summary paragraph. */
  function BuildBlogContent(title: string, encoded: string, ai: Transform): (r: string)
    ensures r == "" <==> TrimSpace(title) == "" && BlogSummary(encoded, ai) == ""
    ensures BlogSummary(encoded, ai) == "" && TrimSpace(title) != "" ==>
      r == "<p><strong>" + TrimSpace(title) + "</strong></p>"
    ensures BlogSummary(encoded, ai) != "" ==>
      r == "<p><strong>" + TrimSpace(title) + "</strong></p><p>" + BlogSummary(encoded, ai) + "</p>"
  {
    var t := TrimSpace(title);
    var summary := BlogSummary(encoded, ai);
    if t == "" && summary == "" then ""
    else if summary == "" then "<p><strong>" + t + "</strong></p>"
    else "<p><strong>" + t + "</strong></p><p>" + summary + "</p>"
  }

  /** A blank body leaves the AI out: the content is the same for every AI
      step, and it is the title paragraph alone (or nothing). */
  lemma BlogContentWithBlankBody(title: string, encoded: string, ai1: Transform, ai2: Transform)
    requires IsBlank(encoded)
    ensures BuildBlogContent(title, encoded, ai1) == BuildBlogContent(title, encoded, ai2)
    ensures BuildBlogContent(title, encoded, ai1) ==
      if TrimSpace(title) == "" then "" else "<p><strong>" + TrimSpace(title) + "</strong></p>"
  {
  }

  /** The summary is always trimmed, so the summary paragraph never starts or
      ends with white space. */
  lemma BlogSummaryIsTrimmed(encoded: string, ai: Transform)
    ensures TrimSpace(BlogSummary(encoded, ai)) == BlogSummary(encoded, ai)
  {
    var body := TrimSpace(encoded);
    if body != "" {
      match ai(BlogPattern, body)
      case Ok(result) => TrimSpaceIdempotent(result);
      case Err(_) =>
    }
  }

  /** `LatestWordPressComBlog`: the same first-item selection as the releases
      adapter, with the content built from the item's title and body. */
  function LatestWordPressComBlog(payload: Payload<BlogItem>, ai: Transform): (r: Fetched)
    ensures payload.FetchFailed? ==> r == Fetched(ZeroItem, Some(payload.reason))
    ensures payload.Undecodable? ==> r == Fetched(ZeroItem, Some(payload.reason))
    ensures payload.Decoded? && payload.items == [] ==> r == Fetched(ZeroItem, None)
    ensures payload.Decoded? && payload.items != [] ==>
      var first := payload.items[0];
      && r.err == None
      && r.item.title == first.title && r.item.link == first.link
      && r.item.pubDate == first.pubDate && r.item.categories == first.categories
      && r.item.content == BuildBlogContent(first.title, first.contentEncoded, ai)
    ensures r.err.Some? ==> r.item == ZeroItem
  {
    match payload
    case FetchFailed(reason) => Fetched(ZeroItem, Some(reason))
    case Undecodable(reason) => Fetched(ZeroItem, Some(reason))
    case Decoded(items) =>
      if |items| == 0 then Fetched(ZeroItem, None)
      else
        var first := items[0];
        Fetched(Item(first.title, first.link, first.pubDate,
                     BuildBlogContent(first.title, first.contentEncoded, ai), first.categories), None)
  }
}
