/** scripts/build_feed.py: the Python renderer of `feed.xml`. Unlike the Go
    renderers it lists every entry, takes the build date from the latest
    parsed `created_at` over all entries, and fails outright (an exception,
    no file written) when some entry has no `created_at` or one that
    `datetime.fromisoformat` rejects. JSON objects are records whose fields
    are None where the key is absent. */
module BuildFeedScript {
  import opened Wrappers
  import opened Text
  import opened Sorting

  type Instant = int

  /** The library calls: `datetime.fromisoformat` and
      `email.utils.format_datetime` (after `rfc2822` has made a naive
      datetime UTC). */
  datatype PyLib = PyLib(fromIsoFormat: string -> Option<Instant>, formatDatetime: Instant -> string)

  datatype Site = Site(title: Option<string>, link: Option<string>, description: Option<string>)

  datatype Entry = Entry(id: Option<string>, title: Option<string>, link: Option<string>,
                         content: Option<string>, createdAt: Option<string>)

  datatype Guid = Guid(isPermaLink: string, value: string)

  datatype Item = Item(title: string, link: string, guid: Guid, pubDate: string, description: string)

  datatype Channel = Channel(title: string, link: string, description: string,
                             lastBuildDate: Option<string>, items: seq<Item>)

  datatype Rss = Rss(version: string, channel: Channel)

  /** `load_json(SITE_PATH, {})` of a missing file. */
  const EmptySite := Site(None, None, None)

  // ---------------------------------------------------------------------------
  // Dates

  /** `parse_iso8601`: a value ending in `Z` has every `Z` replaced by
      `+00:00` before `fromisoformat`. */
  function ParseIso(value: string, lib: PyLib): Option<Instant> {
    if HasSuffix(value, "Z") then lib.fromIsoFormat(ReplaceChar(value, 'Z', "+00:00"))
    else lib.fromIsoFormat(value)
  }

  /** `parse_iso8601(e["created_at"])`, None where it raises. */
  function CreatedInstant(e: Entry, lib: PyLib): Option<Instant> {
    match e.createdAt
    case Some(v) => ParseIso(v, lib)
    case None => None
  }

  /** No entry makes the script raise. */
  predicate AllParse(entries: seq<Entry>, lib: PyLib) {
    forall i :: 0 <= i < |entries| ==> CreatedInstant(entries[i], lib).Some?
  }

  lemma AllParsePermutation(a: seq<Entry>, b: seq<Entry>, lib: PyLib)
    requires multiset(a) == multiset(b) && AllParse(a, lib)
    ensures AllParse(b, lib)
  {
    forall i | 0 <= i < |b| ensures CreatedInstant(b[i], lib).Some? {
      assert b[i] in multiset(a);
      var j :| 0 <= j < |a| && a[j] == b[i];
    }
  }

  function Instants(entries: seq<Entry>, lib: PyLib): (r: seq<Instant>)
    requires AllParse(entries, lib)
    ensures |r| == |entries|
    ensures forall i :: 0 <= i < |entries| ==> r[i] == CreatedInstant(entries[i], lib).value
  {
    seq(|entries|, i requires 0 <= i < |entries| => CreatedInstant(entries[i], lib).value)
  }

  /** Python's `max` over a non-empty sequence. */
  function Max(xs: seq<Instant>): (r: Instant)
    requires xs != []
    ensures r in xs
    ensures forall x :: x in xs ==> x <= r
  {
    if |xs| == 1 then xs[0]
    else
      var m := Max(xs[1..]);
      assert forall x :: x in xs ==> x == xs[0] || x in xs[1..];
      if xs[0] > m then xs[0] else m
  }

  // ---------------------------------------------------------------------------
  // The document

  /** The sort key `e["created_at"]`; every entry has one once `AllParse`
      holds. */
  function CreatedAtOf(e: Entry): string {
    e.createdAt.GetOr("")
  }

  /** The `<item>` of an entry: missing fields become "", the link falls
      back to the site's link, and the GUID is the entry's ID, marked as not
      a permalink. */
  function ItemOf(e: Entry, site: Site, lib: PyLib): Item
    requires CreatedInstant(e, lib).Some?
  {
    Item(e.title.GetOr(""), e.link.GetOr(site.link.GetOr("")), Guid("false", e.id.GetOr("")),
         lib.formatDatetime(CreatedInstant(e, lib).value), e.content.GetOr(""))
  }

  function Items(sorted: seq<Entry>, site: Site, lib: PyLib): (r: seq<Item>)
    requires AllParse(sorted, lib)
    ensures |r| == |sorted|
  {
    if sorted == [] then []
    else Items(sorted[..|sorted| - 1], site, lib) + [ItemOf(sorted[|sorted| - 1], site, lib)]
  }

  lemma ItemsSnoc(sorted: seq<Entry>, e: Entry, site: Site, lib: PyLib)
    requires AllParse(sorted + [e], lib)
    ensures AllParse(sorted, lib) && CreatedInstant(e, lib).Some?
    ensures Items(sorted + [e], site, lib) == Items(sorted, site, lib) + [ItemOf(e, site, lib)]
  {
    assert (sorted + [e])[..|sorted|] == sorted;
    assert forall i :: 0 <= i < |sorted| ==> (sorted + [e])[i] == sorted[i];
    assert (sorted + [e])[|sorted|] == e;
  }

  /** One item per entry, in order. */
  lemma {:induction false} ItemsAreOnePerEntry(sorted: seq<Entry>, site: Site, lib: PyLib)
    requires AllParse(sorted, lib)
    ensures forall i :: 0 <= i < |sorted| ==> Items(sorted, site, lib)[i] == ItemOf(sorted[i], site, lib)
    decreases |sorted|
  {
    if sorted != [] {
      var n := |sorted| - 1;
      assert sorted == sorted[..n] + [sorted[n]];
      ItemsSnoc(sorted[..n], sorted[n], site, lib);
      ItemsAreOnePerEntry(sorted[..n], site, lib);
    }
  }

  function SortedEntries(entries: seq<Entry>): (r: seq<Entry>)
    ensures multiset(r) == multiset(entries) && |r| == |entries|
  {
    SortDesc(entries, CreatedAtOf)
  }

  /** `sorted(..., reverse=True)` is stable: entries with the same
      `created_at` string keep their input order. */
  lemma SortedEntriesKeepTies(entries: seq<Entry>, createdAt: string)
    ensures WithKey(SortedEntries(entries), CreatedAtOf, createdAt) == WithKey(entries, CreatedAtOf, createdAt)
  {
    SortDescStable(entries, CreatedAtOf, createdAt);
  }

  /** The document the script writes, or None when it raises first. */
  function Render(site: Site, entries: seq<Entry>, lib: PyLib): Option<Rss> {
    if !AllParse(entries, lib) then None
    else
      var sorted := SortedEntries(entries);
      AllParsePermutation(entries, sorted, lib);
      var last := if entries == [] then None else Some(lib.formatDatetime(Max(Instants(entries, lib))));
      Some(Rss("2.0", Channel(site.title.GetOr("Wapuugotchi RSS"), site.link.GetOr(""),
                              site.description.GetOr(""), last, Items(sorted, site, lib))))
  }

  /** `main`, up to the XML encoding and the file write: the files are
      given by their decoded contents (None when missing). */
  method Run(siteFile: Option<Site>, entriesFile: Option<seq<Entry>>, lib: PyLib) returns (doc: Option<Rss>)
    ensures doc == Render(siteFile.GetOr(EmptySite), entriesFile.GetOr([]), lib)
  {
    var site := siteFile.GetOr(EmptySite);
    var entries := entriesFile.GetOr([]);
    var channel := Channel(site.title.GetOr("Wapuugotchi RSS"), site.link.GetOr(""),
                           site.description.GetOr(""), None, []);
    if entries != [] {
      if !AllParse(entries, lib) {
        return None;
      }
      var latest := Max(Instants(entries, lib));
      channel := channel.(lastBuildDate := Some(lib.formatDatetime(latest)));
    }
    var sorted := SortedEntries(entries);
    AllParsePermutation(entries, sorted, lib);
    var items := AppendItems(sorted, site, lib);
    channel := channel.(items := items);
    return Some(Rss("2.0", channel));
  }

  /** The loop of `main` that adds one `<item>` per sorted entry. */
  method AppendItems(sorted: seq<Entry>, site: Site, lib: PyLib) returns (items: seq<Item>)
    requires AllParse(sorted, lib)
    ensures items == Items(sorted, site, lib)
  {
    items := [];
    for i := 0 to |sorted|
      invariant AllParse(sorted[..i], lib)
      invariant items == Items(sorted[..i], site, lib)
    {
      assert sorted[..i + 1] == sorted[..i] + [sorted[i]];
      ItemsSnoc(sorted[..i], sorted[i], site, lib);
      var entry := sorted[i];
      var createdAt := CreatedInstant(entry, lib).value;
      items := items + [Item(entry.title.GetOr(""), entry.link.GetOr(site.link.GetOr("")),
                             Guid("false", entry.id.GetOr("")), lib.formatDatetime(createdAt), entry.content.GetOr(""))];
    }
    assert sorted[..|sorted|] == sorted;
  }

  // ---------------------------------------------------------------------------
  // Properties

  /** The script raises exactly when some entry lacks a parsable
      `created_at`. */
  lemma RenderFailsOnUnparsableEntry(site: Site, entries: seq<Entry>, lib: PyLib)
    ensures Render(site, entries, lib).None? <==> exists e :: e in entries && CreatedInstant(e, lib).None?
  {
  }

  /** Every entry becomes exactly one item, newest `created_at` string
      first, carrying the entry's fields with the defaults, the site link as
      fallback and the ID as a non-permalink GUID. */
  lemma RenderListsEveryEntry(site: Site, entries: seq<Entry>, lib: PyLib)
    requires Render(site, entries, lib).Some?
    ensures var items := Render(site, entries, lib).value.channel.items;
      var sorted := SortedEntries(entries);
      && |items| == |entries|
      && SortedDesc(sorted, CreatedAtOf)
      && multiset(sorted) == multiset(entries)
      && forall i :: 0 <= i < |items| ==>
           && CreatedInstant(sorted[i], lib).Some?
           && items[i].title == sorted[i].title.GetOr("")
           && items[i].link == sorted[i].link.GetOr(site.link.GetOr(""))
           && items[i].guid == Guid("false", sorted[i].id.GetOr(""))
           && items[i].pubDate == lib.formatDatetime(CreatedInstant(sorted[i], lib).value)
           && items[i].description == sorted[i].content.GetOr("")
  {
    var sorted := SortedEntries(entries);
    AllParsePermutation(entries, sorted, lib);
    ItemsAreOnePerEntry(sorted, site, lib);
    SortDescSorted(entries, CreatedAtOf);
  }

  /** The channel's title defaults to "Wapuugotchi RSS", its link and
      description to ""; the build date is present exactly when there are
      entries, and it is the latest parsed `created_at` of them all. */
  lemma RenderChannelHeader(site: Site, entries: seq<Entry>, lib: PyLib)
    requires Render(site, entries, lib).Some?
    ensures var ch := Render(site, entries, lib).value.channel;
      && ch.title == site.title.GetOr("Wapuugotchi RSS")
      && (site.title.None? ==> ch.title == "Wapuugotchi RSS")
      && ch.link == site.link.GetOr("") && ch.description == site.description.GetOr("")
      && (ch.lastBuildDate.Some? <==> entries != [])
      && (entries != [] ==>
            exists i :: 0 <= i < |entries| &&
              ch.lastBuildDate.value == lib.formatDatetime(CreatedInstant(entries[i], lib).value) &&
              forall j :: 0 <= j < |entries| ==> CreatedInstant(entries[j], lib).value <= CreatedInstant(entries[i], lib).value)
  {
    if entries != [] {
      var xs := Instants(entries, lib);
      var m := Max(xs);
      var i :| 0 <= i < |xs| && xs[i] == m;
      assert forall j :: 0 <= j < |entries| ==> xs[j] in xs;
    }
  }
}
