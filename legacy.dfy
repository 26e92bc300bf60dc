/** The older single-purpose updater, cmd/feed-update/main.go: it keeps the
    last WordPress version it has seen in `data/state.json`, appends an entry
    to `data/entries.json` when the WordPress API announces a different one,
    and renders `feed.xml`. The JSON files are modelled by their decoded
    contents (None for a file that is missing or does not decode); the HTTP
    request is replaced by its outcome. */
module LegacyFeed {
  import opened Wrappers
  import opened Text
  import opened Sorting
  import opened Platform

  datatype Site = Site(title: string, link: string, description: string)

  datatype Entry = Entry(id: string, title: string, link: string, content: string, createdAt: string)

  datatype State = State(wordPressLatest: string)

  datatype Guid = Guid(isPermaLink: string, value: string)

  datatype Item = Item(title: string, link: string, guid: Guid, pubDate: string, description: string)

  /** `lastBuildDate` is a plain string, left out of the XML when empty. */
  datatype Channel = Channel(title: string, link: string, description: string,
                             lastBuildDate: string, items: seq<Item>)

  datatype Rss = Rss(version: string, channel: Channel)

  const DefaultSite := Site("Wapuugotchi RSS", "", "")
  const DefaultState := State("")

  // ---------------------------------------------------------------------------
  // readJSON

  /** `readJSON`: the decoded contents of the file, or the fallback when it
      cannot be read or decoded. */
  function ReadJSON<T>(file: Option<T>, fallback: T): (r: T)
    ensures file.None? ==> r == fallback
    ensures file.Some? ==> r == file.value
  {
    match file
    case Some(v) => v
    case None => fallback
  }

  // ---------------------------------------------------------------------------
  // fetchLatestWordPress

  /** What the version-check request came back with: a transport failure,
      or a response with its status and its body decoded into the versions
      of its `offers` (or the read/decode error). */
  datatype Response =
    | TransportError(message: string)
    | Response(statusCode: int, status: string, offers: Result<seq<string>, string>)

  /** `fetchLatestWordPress` after the request: a status outside 200-299 is
      an error naming it, an empty offer list is the empty version, and
      otherwise the first offer's version is the latest. */
  function LatestWordPress(resp: Response): Result<string, string> {
    match resp
    case TransportError(m) => Err(m)
    case Response(code, status, offers) =>
      if code < 200 || code >= 300 then Err("wordpress api status: " + status)
      else
        match offers
        case Err(e) => Err(e)
        case Ok(versions) => if |versions| == 0 then Ok("") else Ok(versions[0])
  }

  /** The offer selection, stated against the response. */
  lemma LatestWordPressSelectsFirstOffer(resp: Response)
    ensures resp.Response? && 200 <= resp.statusCode < 300 && resp.offers.Ok? ==>
      LatestWordPress(resp) == Ok(if resp.offers.value == [] then "" else resp.offers.value[0])
    ensures resp.Response? && !(200 <= resp.statusCode < 300) ==>
      LatestWordPress(resp) == Err("wordpress api status: " + resp.status)
    ensures LatestWordPress(resp).Ok? ==>
      resp.Response? && resp.offers.Ok? && (LatestWordPress(resp).value == "" <==> resp.offers.value == [] || resp.offers.value[0] == "")
  {
  }

  // ---------------------------------------------------------------------------
  // parseTime

  /** `parseTime`: the trimmed value parsed as RFC 3339. The two branches
      on a trailing `Z` are written out as the source has them. */
  function ParseTime(value: string, lib: Library): Option<Instant> {
    var v := TrimSpace(value);
    if HasSuffix(v, "Z") then lib.parseRFC3339(v) else lib.parseRFC3339(v)
  }

  /** Both branches parse the same way, so a trailing `Z` is not special:
      the result is the RFC 3339 parse of the trimmed value. */
  lemma ParseTimeIgnoresZulu(value: string, lib: Library)
    ensures ParseTime(value, lib) == lib.parseRFC3339(TrimSpace(value))
    ensures ParseTime(value, lib) == ParseTime(TrimSpace(value), lib)
  {
    TrimSpaceIdempotent(value);
  }

  /** The instant an entry's `CreatedAt` stands for: what `parseTime`
      returns for it, by `ParseTimeIgnoresZulu`. */
  function CreatedInstant(createdAt: string, lib: Library): Option<Instant> {
    lib.parseRFC3339(TrimSpace(createdAt))
  }

  // ---------------------------------------------------------------------------
  // The version check in `main`

  /** The entry announcing version `latest`. */
  function VersionEntry(latest: string, site: Site, createdAt: string): Entry {
    Entry("wordpress-" + latest, "WordPress " + latest + " verfuegbar", site.link,
          "Neue WordPress Version " + latest + " wurde entdeckt.", createdAt)
  }

  /** Whether `latest` is news for the stored state. */
  predicate IsNewVersion(state: State, latest: string) {
    latest != "" && latest != state.wordPressLatest
  }

  /** The state and the entries `main` writes back, `createdAt` being the
      current time in RFC 3339. */
  function Update(state: State, entries: seq<Entry>, site: Site, latest: string, createdAt: string): (State, seq<Entry>) {
    if IsNewVersion(state, latest) then
      (state.(wordPressLatest := latest), entries + [VersionEntry(latest, site, createdAt)])
    else (state, entries)
  }

  /** An entry is appended, and the version recorded, exactly when `latest`
      is non-empty and differs from the stored one; the earlier entries are
      kept, and the new one announces `latest` with the site's link. */
  lemma UpdateAppendsOnlyNewVersions(state: State, entries: seq<Entry>, site: Site, latest: string, createdAt: string)
    ensures var (s, es) := Update(state, entries, site, latest, createdAt);
      && (|es| == |entries| + 1 <==> IsNewVersion(state, latest))
      && (IsNewVersion(state, latest) <==> s != state)
      && es[..|entries|] == entries
      && (IsNewVersion(state, latest) ==>
            && s.wordPressLatest == latest
            && es[|entries|].id == "wordpress-" + latest
            && es[|entries|].title == "WordPress " + latest + " verfuegbar"
            && es[|entries|].link == site.link
            && es[|entries|].createdAt == createdAt)
      && (!IsNewVersion(state, latest) ==> s == state && es == entries)
  {
    var (s, es) := Update(state, entries, site, latest, createdAt);
    if IsNewVersion(state, latest) {
      assert s.wordPressLatest != state.wordPressLatest;
    }
  }

  /** A second run announcing the same version, at any later time, changes
      neither the state nor the entries. */
  lemma UpdateIdempotent(state: State, entries: seq<Entry>, site: Site, latest: string, t1: string, t2: string)
    ensures var (s, es) := Update(state, entries, site, latest, t1);
      Update(s, es, site, latest, t2) == (s, es)
  {
  }

  // ---------------------------------------------------------------------------
  // buildFeed

  function CreatedAtOf(e: Entry): string {
    e.createdAt
  }

  function Renderable(lib: Library): Entry -> bool {
    (e: Entry) => CreatedInstant(e.createdAt, lib).Some?
  }

  /** The `<item>` of an entry whose `CreatedAt` parses. */
  function ItemOf(e: Entry, lib: Library): Item
    requires CreatedInstant(e.createdAt, lib).Some?
  {
    Item(e.title, e.link, Guid("false", e.id), lib.formatRFC1123Z(CreatedInstant(e.createdAt, lib).value), e.content)
  }

  function ItemFor(e: Entry, lib: Library): (r: seq<Item>)
    ensures |r| <= 1
  {
    match CreatedInstant(e.createdAt, lib)
    case Some(_) => [ItemOf(e, lib)]
    case None => []
  }

  /** `ItemFor` in the terms of the loop, which calls `parseTime`. */
  lemma ItemForParsed(e: Entry, lib: Library)
    ensures ItemFor(e, lib) == match ParseTime(e.createdAt, lib)
      case Some(t) => [Item(e.title, e.link, Guid("false", e.id), lib.formatRFC1123Z(t), e.content)]
      case None => []
  {
    ParseTimeIgnoresZulu(e.createdAt, lib);
  }

  function RenderItems(sorted: seq<Entry>, lib: Library): (r: seq<Item>)
    ensures |r| <= |sorted|
  {
    if sorted == [] then []
    else RenderItems(sorted[..|sorted| - 1], lib) + ItemFor(sorted[|sorted| - 1], lib)
  }

  lemma RenderItemsSnoc(sorted: seq<Entry>, e: Entry, lib: Library)
    ensures RenderItems(sorted + [e], lib) == RenderItems(sorted, lib) + ItemFor(e, lib)
  {
    assert (sorted + [e])[..|sorted|] == sorted;
  }

  lemma RenderItemsNext(sorted: seq<Entry>, i: nat, lib: Library)
    requires i < |sorted|
    ensures RenderItems(sorted[..i + 1], lib) == RenderItems(sorted[..i], lib) + ItemFor(sorted[i], lib)
  {
    assert sorted[..i + 1] == sorted[..i] + [sorted[i]];
    RenderItemsSnoc(sorted[..i], sorted[i], lib);
  }

  /** The items are, one for one, those of the entries that parse, in order. */
  lemma {:induction false} RenderItemsMatchFilter(sorted: seq<Entry>, lib: Library)
    ensures var kept := Filter(sorted, Renderable(lib));
      var items := RenderItems(sorted, lib);
      && |items| == |kept|
      && forall i :: 0 <= i < |kept| ==> CreatedInstant(kept[i].createdAt, lib).Some? && items[i] == ItemOf(kept[i], lib)
    decreases |sorted|
  {
    if sorted != [] {
      var n := |sorted| - 1;
      var front := sorted[..n];
      var e := sorted[n];
      RenderItemsMatchFilter(front, lib);
      assert sorted == front + [e];
      FilterSnoc(front, e, Renderable(lib));
      RenderItemsSnoc(front, e, lib);
      var kept0 := Filter(front, Renderable(lib));
      var items0 := RenderItems(front, lib);
      if CreatedInstant(e.createdAt, lib).Some? {
        RendersKeptSnoc(items0, kept0, e, lib);
        assert Filter(sorted, Renderable(lib)) == kept0 + [e];
        assert RenderItems(sorted, lib) == items0 + [ItemOf(e, lib)];
      } else {
        assert Filter(sorted, Renderable(lib)) == kept0 && RenderItems(sorted, lib) == items0;
      }
    }
  }

  /** Items rendered one for one from entries whose time parses. */
  ghost predicate RendersKept(items: seq<Item>, kept: seq<Entry>, lib: Library) {
    && |items| == |kept|
    && forall i :: 0 <= i < |kept| ==> CreatedInstant(kept[i].createdAt, lib).Some? && items[i] == ItemOf(kept[i], lib)
  }

  lemma RendersKeptSnoc(items: seq<Item>, kept: seq<Entry>, e: Entry, lib: Library)
    requires RendersKept(items, kept, lib) && CreatedInstant(e.createdAt, lib).Some?
    ensures RendersKept(items + [ItemOf(e, lib)], kept + [e], lib)
  {
    var items', kept' := items + [ItemOf(e, lib)], kept + [e];
    forall i | 0 <= i < |kept'|
      ensures CreatedInstant(kept'[i].createdAt, lib).Some? && items'[i] == ItemOf(kept'[i], lib)
    {
      if i < |kept| {
        assert kept'[i] == kept[i] && items'[i] == items[i];
      }
    }
  }

  /** `LastBuildDate` from the first sorted entry, or "" (omitted). */
  function LastBuildDate(sorted: seq<Entry>, lib: Library): string {
    if sorted == [] then ""
    else
      match CreatedInstant(sorted[0].createdAt, lib)
      case Some(t) => lib.formatRFC1123Z(t)
      case None => ""
  }

  function RenderFeed(site: Site, entries: seq<Entry>, lib: Library): Rss {
    var sorted := SortDesc(entries, CreatedAtOf);
    Rss("2.0", Channel(site.title, site.link, site.description,
                       LastBuildDate(sorted, lib), RenderItems(sorted, lib)))
  }

  /** `buildFeed`, up to the XML encoding and the file write. */
  method BuildFeed(site: Site, entries: seq<Entry>, lib: Library) returns (rss: Rss)
    ensures rss == RenderFeed(site, entries, lib)
  {
    var sorted := SortDesc(entries, CreatedAtOf);
    var channel := Channel(site.title, site.link, site.description, "", []);
    if |sorted| > 0 {
      var last := ParseTime(sorted[0].createdAt, lib);
      ParseTimeIgnoresZulu(sorted[0].createdAt, lib);
      if last.Some? {
        channel := channel.(lastBuildDate := lib.formatRFC1123Z(last.value));
      }
    }
    var items := AppendItems(sorted, lib);
    channel := channel.(items := items);
    rss := Rss("2.0", channel);
  }

  /** The loop of `buildFeed` that appends the items: an entry whose
      `CreatedAt` does not parse is skipped. */
  method AppendItems(sorted: seq<Entry>, lib: Library) returns (items: seq<Item>)
    ensures items == RenderItems(sorted, lib)
  {
    items := [];
    for i := 0 to |sorted|
      invariant items == RenderItems(sorted[..i], lib)
    {
      RenderItemsNext(sorted, i, lib);
      var e := sorted[i];
      var createdAt := ParseTime(e.createdAt, lib);
      ItemForParsed(e, lib);
      if createdAt.None? {
        continue;
      }
      items := items + [Item(e.title, e.link, Guid("false", e.id),
        lib.formatRFC1123Z(createdAt.value), e.content)];
    }
    assert sorted[..|sorted|] == sorted;
  }

  /** The feed lists the entries whose `CreatedAt` parses, newest first by
      string comparison, each as often as it is stored; every item's GUID
      is the entry ID, marked as not a permalink. */
  lemma RenderedItemsAreSortedParsableEntries(site: Site, entries: seq<Entry>, lib: Library)
    ensures var kept := Filter(SortDesc(entries, CreatedAtOf), Renderable(lib));
      var items := RenderFeed(site, entries, lib).channel.items;
      && SortedDesc(kept, CreatedAtOf)
      && (forall e :: multiset(kept)[e] == if CreatedInstant(e.createdAt, lib).Some? then multiset(entries)[e] else 0)
      && |items| == |kept|
      && (forall i :: 0 <= i < |kept| ==>
            && items[i].guid == Guid("false", kept[i].id)
            && items[i].title == kept[i].title && items[i].link == kept[i].link
            && items[i].description == kept[i].content
            && items[i].pubDate == lib.formatRFC1123Z(CreatedInstant(kept[i].createdAt, lib).value))
  {
    var sorted := SortDesc(entries, CreatedAtOf);
    RenderItemsMatchFilter(sorted, lib);
    SortDescSorted(entries, CreatedAtOf);
    FilterSorted(sorted, Renderable(lib), CreatedAtOf);
    forall e ensures multiset(Filter(sorted, Renderable(lib)))[e]
                  == if CreatedInstant(e.createdAt, lib).Some? then multiset(entries)[e] else 0 {
      FilterCount(sorted, Renderable(lib), e);
    }
  }

  /** The channel copies the site, and has a build date exactly when some
      entry exists and the greatest `CreatedAt` parses. */
  lemma LastBuildDateIsNewestEntry(site: Site, entries: seq<Entry>, lib: Library)
    ensures var ch := RenderFeed(site, entries, lib).channel;
      && ch.title == site.title && ch.link == site.link && ch.description == site.description
      && (entries != [] && CreatedInstant(MaxKey(entries, CreatedAtOf), lib).Some? ==>
            ch.lastBuildDate == lib.formatRFC1123Z(CreatedInstant(MaxKey(entries, CreatedAtOf), lib).value))
      && (entries == [] || CreatedInstant(MaxKey(entries, CreatedAtOf), lib).None? ==> ch.lastBuildDate == "")
  {
    if entries != [] {
      SortDescHeadIsMax(entries, CreatedAtOf);
    }
  }

  // ---------------------------------------------------------------------------
  // main

  /** The files `main` reads and writes, by their decoded contents. */
  class DataDir {
    var siteFile: Option<Site>
    var stateFile: Option<State>
    var entriesFile: Option<seq<Entry>>
    var feedFile: Option<Rss>

    constructor (siteFile: Option<Site>, stateFile: Option<State>, entriesFile: Option<seq<Entry>>, feedFile: Option<Rss>)
      ensures this.siteFile == siteFile && this.stateFile == stateFile
      ensures this.entriesFile == entriesFile && this.feedFile == feedFile
    {
      this.siteFile, this.stateFile, this.entriesFile, this.feedFile := siteFile, stateFile, entriesFile, feedFile;
    }

    /** `main`: a failing `os.Getwd` or version check is fatal before any
        file is written; otherwise the state and entries are written (even
        when nothing changed) and the feed rendered from them. `now` is the
        clock reading for a new entry's `CreatedAt`. */
    method Run(getwdError: Option<string>, resp: Response, lib: Library, now: Instant)
      returns (fatal: Option<string>)
      modifies this
      ensures siteFile == old(siteFile)
      ensures getwdError.Some? ==> fatal == getwdError && unchanged(this)
      ensures getwdError.None? && LatestWordPress(resp).Err? ==>
        fatal == Some(LatestWordPress(resp).error) && unchanged(this)
      ensures getwdError.None? && LatestWordPress(resp).Ok? ==>
        var site := ReadJSON(old(siteFile), DefaultSite);
        var (state, entries) := Update(ReadJSON(old(stateFile), DefaultState), ReadJSON(old(entriesFile), []),
                                       site, LatestWordPress(resp).value, lib.formatRFC3339(now));
        && fatal == None
        && stateFile == Some(state) && entriesFile == Some(entries)
        && feedFile == Some(RenderFeed(site, entries, lib))
    {
      if getwdError.Some? {
        return getwdError;
      }
      var site := ReadJSON(siteFile, DefaultSite);
      var state := ReadJSON(stateFile, DefaultState);
      var entries := ReadJSON(entriesFile, []);
      var latest := LatestWordPress(resp);
      if latest.Err? {
        return Some(latest.error);
      }
      if latest.value != "" && latest.value != state.wordPressLatest {
        state := state.(wordPressLatest := latest.value);
        entries := entries + [VersionEntry(latest.value, site, lib.formatRFC3339(now))];
      }
      stateFile := Some(state);
      entriesFile := Some(entries);
      var rss := BuildFeed(site, entries, lib);
      feedFile := Some(rss);
      return None;
    }
  }

  /** Running `main` twice with the same announced version: the second run
      writes back the state and entries the first one wrote. */
  lemma RunIdempotent(siteFile: Option<Site>, stateFile: Option<State>, entriesFile: Option<seq<Entry>>,
                      latest: string, t1: string, t2: string)
    ensures var site := ReadJSON(siteFile, DefaultSite);
      var (s1, es1) := Update(ReadJSON(stateFile, DefaultState), ReadJSON(entriesFile, []), site, latest, t1);
      Update(ReadJSON(Some(s1), DefaultState), ReadJSON(Some(es1), []), site, latest, t2) == (s1, es1)
  {
    var site := ReadJSON(siteFile, DefaultSite);
    UpdateIdempotent(ReadJSON(stateFile, DefaultState), ReadJSON(entriesFile, []), site, latest, t1, t2);
  }
}
