/** The ingestion engine and feed builder of app/cmd/feed.go: each provider
    is polled once per run, in a fixed order; a provider's item becomes a
    new entry when its title is not blank and its identity (a digest of the
    provider name and the item's publication date or link) is not yet in
    the store; the store is saved and the feed rebuilt only when something
    was added. The feed lists the entries newest first, leaving out those
    whose `CreatedAt` does not parse. */
module Feed {
  import opened Wrappers
  import opened Text
  import opened Sorting
  import opened Platform
  import Providers

  // ---------------------------------------------------------------------------
  // Data model

  /** The site description of data/site.json. */
  datatype Site = Site(title: string, link: string, description: string)

  /** A stored record of data/entries.json. */
  datatype Entry = Entry(id: string, title: string, link: string, content: string,
                         createdAt: string, categories: seq<string>)

  /** An `<item>` of the rendered feed. */
  datatype Item = Item(id: string, title: string, link: string, pubDate: string,
                       description: string, categories: seq<string>)

  /** The `<channel>`; `lastBuildDate` is None where the XML omits it. */
  datatype Channel = Channel(title: string, link: string, description: string,
                             lastBuildDate: Option<string>, items: seq<Item>)

  /** The `<rss>` document. */
  datatype Rss = Rss(version: string, channel: Channel)

  /** A line the command prints, and where to. */
  datatype Output = Stdout(line: string) | Stderr(line: string)

  /** The providers, in the order `providers()` lists them. */
  const ProviderNames: seq<string> := ["wordpress-releases", "wordpress-tv", "wordpress-com"]

  // ---------------------------------------------------------------------------
  // cleanCategories

  /** A category as `cleanCategories` emits it: non-empty and trimmed. */
  predicate CleanCategory(v: string) {
    v != "" && TrimSpace(v) == v
  }

  /** What `cleanCategories` makes of one value. */
  function CleanOne(v: string): (r: seq<string>)
    ensures |r| <= 1
  {
    if TrimSpace(v) == "" then [] else [TrimSpace(v)]
  }

  /** The categories `cleanCategories` keeps: each value trimmed, blank ones
      dropped, in input order. */
  function Cleaned(values: seq<string>): (r: seq<string>)
    ensures |r| <= |values|
  {
    if values == [] then []
    else Cleaned(values[..|values| - 1]) + CleanOne(values[|values| - 1])
  }

  /** Every category kept is non-empty and trimmed. */
  lemma {:induction false} CleanedAreClean(values: seq<string>)
    ensures forall i :: 0 <= i < |Cleaned(values)| ==> CleanCategory(Cleaned(values)[i])
    decreases |values|
  {
    if values != [] {
      var v := values[|values| - 1];
      CleanedAreClean(values[..|values| - 1]);
      TrimSpaceIdempotent(v);
    }
  }

  lemma CleanedSnoc(s: seq<string>, v: string)
    ensures Cleaned(s + [v]) == Cleaned(s) + CleanOne(v)
  {
    assert (s + [v])[..|s|] == s;
  }

  /** Cleaning works value by value: the cleaned values of a concatenation
      are the concatenation of the cleaned parts, so the order is kept. */
  lemma {:induction false} CleanedConcat(a: seq<string>, b: seq<string>)
    ensures Cleaned(a + b) == Cleaned(a) + Cleaned(b)
    decreases |b|
  {
    if b == [] {
      assert a + b == a;
    } else {
      var n := |b| - 1;
      var front := b[..n];
      assert b == front + [b[n]];
      assert a + b == (a + front) + [b[n]];
      CleanedSnoc(a + front, b[n]);
      CleanedSnoc(front, b[n]);
      CleanedConcat(a, front);
    }
  }

  /** Values that are already trimmed and non-empty are kept as they are. */
  lemma {:induction false} CleanedKeepsClean(values: seq<string>)
    requires forall i :: 0 <= i < |values| ==> CleanCategory(values[i])
    ensures Cleaned(values) == values
    decreases |values|
  {
    if values != [] {
      CleanedKeepsClean(values[..|values| - 1]);
      assert values == values[..|values| - 1] + [values[|values| - 1]];
    }
  }

  /** Cleaning twice is cleaning once. */
  lemma CleanedIdempotent(values: seq<string>)
    ensures Cleaned(Cleaned(values)) == Cleaned(values)
  {
    CleanedAreClean(values);
    CleanedKeepsClean(Cleaned(values));
  }

  /** `cleanCategories`. */
  method CleanCategories(values: seq<string>) returns (result: seq<string>)
    ensures result == Cleaned(values)
  {
    result := [];
    for i := 0 to |values|
      invariant result == Cleaned(values[..i])
    {
      assert values[..i + 1][..i] == values[..i];
      var value := TrimSpace(values[i]);
      if value == "" {
        continue;
      }
      result := result + [value];
    }
    assert values[..|values|] == values;
  }

  // ---------------------------------------------------------------------------
  // idExists

  /** The identities of the entries, in store order. */
  function Ids(entries: seq<Entry>): (r: seq<string>)
    ensures |r| == |entries|
    ensures forall i :: 0 <= i < |r| ==> r[i] == entries[i].id
  {
    seq(|entries|, i requires 0 <= i < |entries| => entries[i].id)
  }

  /** No two entries share an identity. */
  ghost predicate UniqueIds(entries: seq<Entry>) {
    forall i, j :: 0 <= i < j < |entries| ==> entries[i].id != entries[j].id
  }

  /** `idExists`: a linear scan for an entry with identity `id`. */
  method IdExists(entries: seq<Entry>, id: string) returns (found: bool)
    ensures found <==> id in Ids(entries)
  {
    for i := 0 to |entries|
      invariant forall k :: 0 <= k < i ==> entries[k].id != id
    {
      if entries[i].id == id {
        assert Ids(entries)[i] == id;
        return true;
      }
    }
    return false;
  }

  // ---------------------------------------------------------------------------
  // Identity and time

  /** The basis `pickEntryID` hashes after the provider name: the trimmed
      publication date, else the trimmed link, else the provider name and
      the current time in nanoseconds. */
  function IdBase(provider: string, item: Providers.Item, nowNanos: int): string {
    var pub := TrimSpace(item.pubDate);
    if pub != "" then pub
    else
      var link := TrimSpace(item.link);
      if link != "" then link else provider + "-" + Decimal(nowNanos)
  }

  /** The part of the basis that does not depend on the clock. */
  function StableBase(item: Providers.Item): Option<string> {
    if TrimSpace(item.pubDate) != "" then Some(TrimSpace(item.pubDate))
    else if TrimSpace(item.link) != "" then Some(TrimSpace(item.link))
    else None
  }

  /** `hashString`: the MD5 hex digest of the trimmed value, or a
      clock-derived name for a blank one. */
  function HashString(value: string, lib: Library, nowNanos: int): string {
    var v := TrimSpace(value);
    if v == "" then "hash-" + Decimal(nowNanos) else lib.md5Hex(v)
  }

  /** `pickEntryID`. */
  function PickEntryID(provider: string, item: Providers.Item, lib: Library, nowNanos: int): string {
    HashString(provider + "|" + IdBase(provider, item, nowNanos), lib, nowNanos)
  }

  /** The value `pickEntryID` hashes always contains `|`, so it is never
      blank and `hashString`'s clock branch is unreachable from it: the
      identity is always a digest. */
  lemma PickEntryIDIsDigest(provider: string, item: Providers.Item, lib: Library, nowNanos: int)
    ensures PickEntryID(provider, item, lib, nowNanos)
         == lib.md5Hex(TrimSpace(provider + "|" + IdBase(provider, item, nowNanos)))
  {
    var v := provider + "|" + IdBase(provider, item, nowNanos);
    assert v[|provider|] == '|' && !IsSpace('|');
    TrimSpaceSpec(v);
  }

  /** The identity depends only on the provider and the stable basis: two
      items with the same trimmed publication date (or, both dates blank,
      the same trimmed link) get the same identity at any two instants. */
  lemma PickEntryIDStable(provider: string, item1: Providers.Item, item2: Providers.Item,
                          lib: Library, nanos1: int, nanos2: int)
    requires StableBase(item1).Some? && StableBase(item1) == StableBase(item2)
    ensures PickEntryID(provider, item1, lib, nanos1) == PickEntryID(provider, item2, lib, nanos2)
  {
    var base := StableBase(item1).value;
    assert IdBase(provider, item1, nanos1) == base == IdBase(provider, item2, nanos2);
    PickEntryIDIsDigest(provider, item1, lib, nanos1);
    PickEntryIDIsDigest(provider, item2, lib, nanos2);
  }

  /** `parsePubDate`: the trimmed value read as an RFC 1123 date with a
      numeric zone, else with a named zone; blank is an error. */
  function ParsePubDate(value: string, lib: Library): Option<Instant> {
    var v := TrimSpace(value);
    if v == "" then None
    else
      match lib.parseRFC1123Z(v)
      case Some(t) => Some(t)
      case None => lib.parseRFC1123(v)
  }

  /** `pickEntryTime`: the publication date in RFC 3339, or the current
      time when the date does not parse. */
  function PickEntryTime(item: Providers.Item, lib: Library, now: Instant): string {
    lib.formatRFC3339(ParsePubDate(item.pubDate, lib).GetOr(now))
  }

  /** `parseTime` of app/cmd/feed.go: the trimmed value read as RFC 3339. */
  function ParseTime(value: string, lib: Library): Option<Instant> {
    lib.parseRFC3339(TrimSpace(value))
  }

  /** The RFC 3339 layout keeps whole seconds only, and reads back the
      four-digit years it writes. When the parser reads back, to the second,
      what the formatter writes for those years, a new entry's `CreatedAt`
      parses to its publication date, or to the current time when the date
      does not parse, truncated to the second. */
  lemma PickEntryTimeIsCanonical(item: Providers.Item, lib: Library, now: Instant)
    requires forall t :: FirstFourDigitYear <= t < FirstFiveDigitYear ==>
      ParseTime(lib.formatRFC3339(t), lib) == Some(Sec(t))
    requires FirstFourDigitYear <= ParsePubDate(item.pubDate, lib).GetOr(now) < FirstFiveDigitYear
    ensures ParseTime(PickEntryTime(item, lib, now), lib) == Some(Sec(ParsePubDate(item.pubDate, lib).GetOr(now)))
  {
    var t := ParsePubDate(item.pubDate, lib).GetOr(now);
    assert PickEntryTime(item, lib, now) == lib.formatRFC3339(t);
  }

  /** Under the same conditions a newly ingested entry is never left out of
      the feed: it renders to exactly one item. */
  lemma NewEntryIsRendered(provider: string, item: Providers.Item, lib: Library, now: Instant, nowNanos: int)
    requires forall t :: FirstFourDigitYear <= t < FirstFiveDigitYear ==>
      ParseTime(lib.formatRFC3339(t), lib) == Some(Sec(t))
    requires FirstFourDigitYear <= ParsePubDate(item.pubDate, lib).GetOr(now) < FirstFiveDigitYear
    ensures |ItemFor(NewEntry(provider, item, lib, now, nowNanos), lib)| == 1
  {
    PickEntryTimeIsCanonical(item, lib, now);
  }

  // ---------------------------------------------------------------------------
  // addLatest

  /** The entry `addLatest` appends for an item. */
  function NewEntry(provider: string, item: Providers.Item, lib: Library, now: Instant, nowNanos: int): Entry {
    Entry(PickEntryID(provider, item, lib, nowNanos), item.title, item.link, item.content,
          PickEntryTime(item, lib, now), Cleaned(item.categories))
  }

  /** The outcome of `addLatest`: the new entry list and its `(bool, error)`. */
  datatype Ingested = Ingested(entries: seq<Entry>, added: bool, err: Option<string>)

  /** What `addLatest` does with one provider result. The list only ever
      grows at its end, by at most one entry whose identity was not there. */
  function Ingest(entries: seq<Entry>, provider: string, fetched: Providers.Fetched,
                  lib: Library, now: Instant, nowNanos: int): (r: Ingested)
    ensures |r.entries| >= |entries| && r.entries[..|entries|] == entries
    ensures r.added <==> |r.entries| == |entries| + 1
    ensures !r.added ==> r.entries == entries
    ensures r.err.Some? ==> !r.added
    ensures r.added ==> r.entries[|entries|].id !in Ids(entries)
  {
    if fetched.err.Some? then Ingested(entries, false, fetched.err)
    else if TrimSpace(fetched.item.title) == "" then Ingested(entries, false, None)
    else
      var e := NewEntry(provider, fetched.item, lib, now, nowNanos);
      if e.id in Ids(entries) then Ingested(entries, false, None)
      else
        assert (entries + [e])[..|entries|] == entries;
        Ingested(entries + [e], true, None)
  }

  /** The three cases of `addLatest`: a fetch error is passed on and nothing
      changes; a blank title is no error and changes nothing; otherwise the
      entry with the computed identity is appended exactly when that identity
      is new. */
  lemma IngestCases(entries: seq<Entry>, provider: string, fetched: Providers.Fetched,
                    lib: Library, now: Instant, nowNanos: int)
    ensures var r := Ingest(entries, provider, fetched, lib, now, nowNanos);
      && (fetched.err.Some? ==> r == Ingested(entries, false, fetched.err))
      && (fetched.err.None? && IsBlank(fetched.item.title) ==> r == Ingested(entries, false, None))
      && (fetched.err.None? && !IsBlank(fetched.item.title) ==>
            var e := NewEntry(provider, fetched.item, lib, now, nowNanos);
            && r.err == None
            && (r.added <==> e.id !in Ids(entries))
            && (r.added ==> r.entries == entries + [e]))
  {
  }

  /** An empty channel hands over the zero item, whose blank title makes the
      engine change nothing. */
  lemma EmptyChannelChangesNothing(entries: seq<Entry>, provider: string,
                                   lib: Library, now: Instant, nowNanos: int)
    ensures Ingest(entries, provider, Providers.Fetched(Providers.ZeroItem, None), lib, now, nowNanos)
         == Ingested(entries, false, None)
  {
    assert TrimSpace(Providers.ZeroItem.title) == "";
  }

  /** `addLatest` keeps identities unique. */
  lemma IngestPreservesUniqueIds(entries: seq<Entry>, provider: string, fetched: Providers.Fetched,
                                 lib: Library, now: Instant, nowNanos: int)
    requires UniqueIds(entries)
    ensures UniqueIds(Ingest(entries, provider, fetched, lib, now, nowNanos).entries)
  {
    var r := Ingest(entries, provider, fetched, lib, now, nowNanos);
    if r.added {
      var n := |entries|;
      forall i, j | 0 <= i < j < |r.entries| ensures r.entries[i].id != r.entries[j].id {
        if j == n {
          assert r.entries[i] == entries[i];
          assert Ids(entries)[i] == entries[i].id;
        } else {
          assert r.entries[i] == entries[i] && r.entries[j] == entries[j];
        }
      }
    }
  }

  /** An identity stays in the list once it is there. */
  lemma IdsOfPrefix(entries: seq<Entry>, longer: seq<Entry>, id: string)
    requires |longer| >= |entries| && longer[..|entries|] == entries
    requires id in Ids(entries)
    ensures id in Ids(longer)
  {
    var k :| 0 <= k < |entries| && Ids(entries)[k] == id;
    assert longer[k] == entries[k];
    assert Ids(longer)[k] == id;
  }

  /** The item of a provider result leaves nothing to add once its identity
      is stored (or it is an error or has a blank title). */
  ghost predicate Settled(entries: seq<Entry>, provider: string, fetched: Providers.Fetched,
                          lib: Library, nowNanos: int) {
    || fetched.err.Some?
    || IsBlank(fetched.item.title)
    || PickEntryID(provider, fetched.item, lib, nowNanos) in Ids(entries)
  }

  /** Ingesting a provider result settles it, and settled stays settled as
      the list grows. */
  lemma IngestSettles(entries: seq<Entry>, provider: string, fetched: Providers.Fetched,
                      lib: Library, now: Instant, nowNanos: int)
    ensures Settled(Ingest(entries, provider, fetched, lib, now, nowNanos).entries, provider, fetched, lib, nowNanos)
  {
    var r := Ingest(entries, provider, fetched, lib, now, nowNanos);
    if r.added {
      assert Ids(r.entries)[|entries|] == PickEntryID(provider, fetched.item, lib, nowNanos);
    }
  }

  lemma SettledGrows(entries: seq<Entry>, longer: seq<Entry>, provider: string, fetched: Providers.Fetched,
                     lib: Library, nowNanos: int)
    requires |longer| >= |entries| && longer[..|entries|] == entries
    requires Settled(entries, provider, fetched, lib, nowNanos)
    ensures Settled(longer, provider, fetched, lib, nowNanos)
  {
    if fetched.err.None? && !IsBlank(fetched.item.title) {
      IdsOfPrefix(entries, longer, PickEntryID(provider, fetched.item, lib, nowNanos));
    }
  }

  /** Settled is independent of the clock when the item has a stable basis. */
  lemma SettledAnyClock(entries: seq<Entry>, provider: string, fetched: Providers.Fetched,
                        lib: Library, nanos1: int, nanos2: int)
    requires Settled(entries, provider, fetched, lib, nanos1)
    requires fetched.err.Some? || IsBlank(fetched.item.title) || StableBase(fetched.item).Some?
    ensures Settled(entries, provider, fetched, lib, nanos2)
  {
    if fetched.err.None? && !IsBlank(fetched.item.title) {
      PickEntryIDStable(provider, fetched.item, fetched.item, lib, nanos1, nanos2);
    }
  }

  /** Re-ingesting the same provider result changes nothing, at any later
      instant, provided the item's identity does not come from the clock. */
  lemma IngestIdempotent(entries: seq<Entry>, provider: string, fetched: Providers.Fetched,
                         lib: Library, now1: Instant, nanos1: int, now2: Instant, nanos2: int)
    requires fetched.err.Some? || IsBlank(fetched.item.title) || StableBase(fetched.item).Some?
    ensures var once := Ingest(entries, provider, fetched, lib, now1, nanos1).entries;
      var again := Ingest(once, provider, fetched, lib, now2, nanos2);
      !again.added && again.entries == once
  {
    var once := Ingest(entries, provider, fetched, lib, now1, nanos1).entries;
    IngestSettles(entries, provider, fetched, lib, now1, nanos1);
    SettledAnyClock(once, provider, fetched, lib, nanos1, nanos2);
  }

  /** The entry list one run works on (`entries` in `RunFeedUpdate`, which
      `addLatest` updates through a pointer). */
  class Store {
    var entries: seq<Entry>

    constructor (entries: seq<Entry>)
      ensures this.entries == entries
    {
      this.entries := entries;
    }

    /** `addLatest`. */
    method AddLatest(provider: string, fetched: Providers.Fetched, lib: Library, now: Instant, nowNanos: int)
      returns (added: bool, err: Option<string>)
      modifies this
      ensures Ingested(entries, added, err) == Ingest(old(entries), provider, fetched, lib, now, nowNanos)
      ensures UniqueIds(old(entries)) ==> UniqueIds(entries)
    {
      if UniqueIds(entries) {
        IngestPreservesUniqueIds(entries, provider, fetched, lib, now, nowNanos);
      }
      if fetched.err.Some? {
        return false, fetched.err;
      }
      var item := fetched.item;
      if TrimSpace(item.title) == "" {
        return false, None;
      }
      var categories := CleanCategories(item.categories);
      item := item.(categories := categories);
      var id := PickEntryID(provider, item, lib, nowNanos);
      ghost var e := NewEntry(provider, fetched.item, lib, now, nowNanos);
      assert IdBase(provider, item, nowNanos) == IdBase(provider, fetched.item, nowNanos);
      assert id == e.id;
      var seen := IdExists(entries, id);
      if seen {
        return false, None;
      }
      var createdAt := PickEntryTime(item, lib, now);
      assert createdAt == e.createdAt;
      entries := entries + [Entry(id, item.title, item.link, item.content, createdAt, item.categories)];
      return true, None;
    }
  }

  // ---------------------------------------------------------------------------
  // The provider loop of RunFeedUpdate

  /** The result of polling a list of providers: the entries, whether any
      `addLatest` returned true, and the errors reported, in order. */
  datatype Run = Run(entries: seq<Entry>, updated: bool, errors: seq<string>)

  /** Polling `names[k]` with result `fetched[k]`, in order; an error is
      recorded and the loop goes on with the next provider. */
  function IngestAll(entries: seq<Entry>, names: seq<string>, fetched: seq<Providers.Fetched>,
                     lib: Library, now: Instant, nowNanos: int): (r: Run)
    requires |names| == |fetched|
    decreases |names|
  {
    if names == [] then Run(entries, false, [])
    else
      var n := |names| - 1;
      var prev := IngestAll(entries, names[..n], fetched[..n], lib, now, nowNanos);
      var step := Ingest(prev.entries, names[n], fetched[n], lib, now, nowNanos);
      Run(step.entries, prev.updated || step.added,
          prev.errors + (if step.err.Some? then [step.err.value] else []))
  }

  /** A run only appends to the entry list, and reports an update exactly
      when it appended something. */
  lemma {:induction false} IngestAllGrows(entries: seq<Entry>, names: seq<string>, fetched: seq<Providers.Fetched>,
                                          lib: Library, now: Instant, nowNanos: int)
    requires |names| == |fetched|
    ensures var r := IngestAll(entries, names, fetched, lib, now, nowNanos);
      && |r.entries| >= |entries| && r.entries[..|entries|] == entries
      && (r.updated <==> |r.entries| > |entries|)
    decreases |names|
  {
    if names != [] {
      var n := |names| - 1;
      IngestAllGrows(entries, names[..n], fetched[..n], lib, now, nowNanos);
      var prev := IngestAll(entries, names[..n], fetched[..n], lib, now, nowNanos);
      var step := Ingest(prev.entries, names[n], fetched[n], lib, now, nowNanos);
      assert step.entries[..|entries|] == step.entries[..|prev.entries|][..|entries|];
    }
  }

  /** One more provider: the run over the first `i + 1` providers is the
      run over the first `i` followed by one `addLatest`. */
  lemma IngestAllStep(entries: seq<Entry>, names: seq<string>, fetched: seq<Providers.Fetched>,
                      lib: Library, now: Instant, nowNanos: int, i: nat)
    requires |names| == |fetched| && i < |names|
    ensures var prev := IngestAll(entries, names[..i], fetched[..i], lib, now, nowNanos);
      var step := Ingest(prev.entries, names[i], fetched[i], lib, now, nowNanos);
      IngestAll(entries, names[..i + 1], fetched[..i + 1], lib, now, nowNanos)
        == Run(step.entries, prev.updated || step.added,
               prev.errors + (if step.err.Some? then [step.err.value] else []))
  {
    assert names[..i + 1][..i] == names[..i] && fetched[..i + 1][..i] == fetched[..i];
  }

  /** A run keeps identities unique. */
  lemma {:induction false} IngestAllPreservesUniqueIds(entries: seq<Entry>, names: seq<string>,
      fetched: seq<Providers.Fetched>, lib: Library, now: Instant, nowNanos: int)
    requires |names| == |fetched| && UniqueIds(entries)
    ensures UniqueIds(IngestAll(entries, names, fetched, lib, now, nowNanos).entries)
    decreases |names|
  {
    if names != [] {
      var n := |names| - 1;
      IngestAllPreservesUniqueIds(entries, names[..n], fetched[..n], lib, now, nowNanos);
      var prev := IngestAll(entries, names[..n], fetched[..n], lib, now, nowNanos);
      IngestPreservesUniqueIds(prev.entries, names[n], fetched[n], lib, now, nowNanos);
    }
  }

  /** Failure isolation: a provider whose fetch failed contributes nothing;
      the run's entries and its update flag are those of the run without
      that provider. */
  lemma {:induction false} FailedProviderIsSkipped(entries: seq<Entry>, names: seq<string>,
      fetched: seq<Providers.Fetched>, lib: Library, now: Instant, nowNanos: int, i: nat)
    requires |names| == |fetched| && i < |names| && fetched[i].err.Some?
    ensures var all := IngestAll(entries, names, fetched, lib, now, nowNanos);
      var rest := IngestAll(entries, Without(names, i), Without(fetched, i), lib, now, nowNanos);
      all.entries == rest.entries && all.updated == rest.updated
    decreases |names|
  {
    var n := |names| - 1;
    if i == n {
      FailedLastProviderIsSkipped(entries, names, fetched, lib, now, nowNanos);
    } else {
      assert fetched[..n][i] == fetched[i];
      FailedProviderIsSkipped(entries, names[..n], fetched[..n], lib, now, nowNanos, i);
      FailedEarlierProviderIsSkipped(entries, names, fetched, lib, now, nowNanos, i);
    }
  }

  /** The base case of `FailedProviderIsSkipped`: the failed provider is the last one. */
  lemma FailedLastProviderIsSkipped(entries: seq<Entry>, names: seq<string>,
      fetched: seq<Providers.Fetched>, lib: Library, now: Instant, nowNanos: int)
    requires |names| == |fetched| && names != [] && fetched[|names| - 1].err.Some?
    ensures var i := |names| - 1;
      var all := IngestAll(entries, names, fetched, lib, now, nowNanos);
      var rest := IngestAll(entries, Without(names, i), Without(fetched, i), lib, now, nowNanos);
      all.entries == rest.entries && all.updated == rest.updated
  {
    WithoutLast(names);
    WithoutLast(fetched);
    IngestAllFailedLast(entries, names, fetched, lib, now, nowNanos);
  }

  /** The step of `FailedProviderIsSkipped`: a failed provider before the
      last one is skipped when it is skipped in the run without the last. */
  lemma FailedEarlierProviderIsSkipped(entries: seq<Entry>, names: seq<string>,
      fetched: seq<Providers.Fetched>, lib: Library, now: Instant, nowNanos: int, i: nat)
    requires |names| == |fetched| && i < |names| - 1
    requires var n := |names| - 1;
      var all := IngestAll(entries, names[..n], fetched[..n], lib, now, nowNanos);
      var rest := IngestAll(entries, Without(names[..n], i), Without(fetched[..n], i), lib, now, nowNanos);
      all.entries == rest.entries && all.updated == rest.updated
    ensures var all := IngestAll(entries, names, fetched, lib, now, nowNanos);
      var rest := IngestAll(entries, Without(names, i), Without(fetched, i), lib, now, nowNanos);
      all.entries == rest.entries && all.updated == rest.updated
  {
    WithoutBeforeLast(names, i);
    WithoutBeforeLast(fetched, i);
    IngestAllSameLast(entries, names, fetched, Without(names, i), Without(fetched, i), lib, now, nowNanos);
  }

  /** A last provider that failed adds nothing to a run. */
  lemma IngestAllFailedLast(entries: seq<Entry>, names: seq<string>,
      fetched: seq<Providers.Fetched>, lib: Library, now: Instant, nowNanos: int)
    requires |names| == |fetched| && names != [] && fetched[|names| - 1].err.Some?
    ensures var all := IngestAll(entries, names, fetched, lib, now, nowNanos);
      var prev := IngestAll(entries, names[..|names| - 1], fetched[..|names| - 1], lib, now, nowNanos);
      all.entries == prev.entries && all.updated == prev.updated
  {
  }

  /** Two runs that agree after all but their last provider, whose last
      providers agree, agree. */
  lemma IngestAllSameLast(entries: seq<Entry>, names: seq<string>, fetched: seq<Providers.Fetched>,
      names': seq<string>, fetched': seq<Providers.Fetched>, lib: Library, now: Instant, nowNanos: int)
    requires |names| == |fetched| && |names'| == |fetched'| && names != [] && names' != []
    requires names[|names| - 1] == names'[|names'| - 1] && fetched[|names| - 1] == fetched'[|names'| - 1]
    requires var prev := IngestAll(entries, names[..|names| - 1], fetched[..|names| - 1], lib, now, nowNanos);
      var prev' := IngestAll(entries, names'[..|names'| - 1], fetched'[..|names'| - 1], lib, now, nowNanos);
      prev.entries == prev'.entries && prev.updated == prev'.updated
    ensures var all := IngestAll(entries, names, fetched, lib, now, nowNanos);
      var all' := IngestAll(entries, names', fetched', lib, now, nowNanos);
      all.entries == all'.entries && all.updated == all'.updated
  {
  }

  /** After a run every provider result is settled in the new entry list. */
  lemma {:induction false} IngestAllSettles(entries: seq<Entry>, names: seq<string>,
      fetched: seq<Providers.Fetched>, lib: Library, now: Instant, nowNanos: int)
    requires |names| == |fetched|
    ensures var r := IngestAll(entries, names, fetched, lib, now, nowNanos);
      forall k :: 0 <= k < |names| ==> Settled(r.entries, names[k], fetched[k], lib, nowNanos)
    decreases |names|
  {
    if names != [] {
      var n := |names| - 1;
      IngestAllSettles(entries, names[..n], fetched[..n], lib, now, nowNanos);
      var prev := IngestAll(entries, names[..n], fetched[..n], lib, now, nowNanos);
      var r := IngestAll(entries, names, fetched, lib, now, nowNanos);
      forall k | 0 <= k < |names| ensures Settled(r.entries, names[k], fetched[k], lib, nowNanos) {
        if k == n {
          IngestSettles(prev.entries, names[n], fetched[n], lib, now, nowNanos);
        } else {
          assert names[..n][k] == names[k] && fetched[..n][k] == fetched[k];
          SettledGrows(prev.entries, r.entries, names[k], fetched[k], lib, nowNanos);
        }
      }
    }
  }

  /** A run over settled provider results changes nothing. */
  lemma {:induction false} IngestAllOfSettled(entries: seq<Entry>, names: seq<string>,
      fetched: seq<Providers.Fetched>, lib: Library, now: Instant, nowNanos: int)
    requires |names| == |fetched|
    requires forall k :: 0 <= k < |names| ==> Settled(entries, names[k], fetched[k], lib, nowNanos)
    ensures var r := IngestAll(entries, names, fetched, lib, now, nowNanos);
      !r.updated && r.entries == entries
    decreases |names|
  {
    if names != [] {
      var n := |names| - 1;
      forall k | 0 <= k < n ensures Settled(entries, names[..n][k], fetched[..n][k], lib, nowNanos) {
        assert names[..n][k] == names[k] && fetched[..n][k] == fetched[k];
      }
      IngestAllOfSettled(entries, names[..n], fetched[..n], lib, now, nowNanos);
      assert Settled(entries, names[n], fetched[n], lib, nowNanos);
    }
  }

  /** Idempotence of a whole run: polling again with the same provider
      results, at any later instant, adds nothing, provided no item's
      identity comes from the clock. */
  lemma RunIsIdempotent(entries: seq<Entry>, names: seq<string>, fetched: seq<Providers.Fetched>,
                        lib: Library, now1: Instant, nanos1: int, now2: Instant, nanos2: int)
    requires |names| == |fetched|
    requires forall k :: 0 <= k < |fetched| ==>
      fetched[k].err.Some? || IsBlank(fetched[k].item.title) || StableBase(fetched[k].item).Some?
    ensures var once := IngestAll(entries, names, fetched, lib, now1, nanos1).entries;
      var again := IngestAll(once, names, fetched, lib, now2, nanos2);
      !again.updated && again.entries == once
  {
    var once := IngestAll(entries, names, fetched, lib, now1, nanos1).entries;
    IngestAllSettles(entries, names, fetched, lib, now1, nanos1);
    forall k | 0 <= k < |names| ensures Settled(once, names[k], fetched[k], lib, nanos2) {
      SettledAnyClock(once, names[k], fetched[k], lib, nanos1, nanos2);
    }
    IngestAllOfSettled(once, names, fetched, lib, now2, nanos2);
  }

  // ---------------------------------------------------------------------------
  // buildFeed

  function CreatedAtOf(e: Entry): string {
    e.createdAt
  }

  /** An entry is rendered when its trimmed `CreatedAt` parses as RFC 3339. */
  function Renderable(lib: Library): Entry -> bool {
    (e: Entry) => ParseTime(e.createdAt, lib).Some?
  }

  /** The `<item>` of a renderable entry. */
  function ItemOf(e: Entry, lib: Library): Item
    requires ParseTime(e.createdAt, lib).Some?
  {
    Item(e.id, e.title, e.link, lib.formatRFC1123Z(ParseTime(e.createdAt, lib).value), e.content, e.categories)
  }

  /** The item an entry contributes: one when its `CreatedAt` parses, none
      otherwise. */
  function ItemFor(e: Entry, lib: Library): (r: seq<Item>)
    ensures |r| <= 1
  {
    match ParseTime(e.createdAt, lib)
    case Some(_) => [ItemOf(e, lib)]
    case None => []
  }

  /** The items rendered from entries already in feed order. */
  function RenderItems(sorted: seq<Entry>, lib: Library): (r: seq<Item>)
    ensures |r| <= |sorted|
  {
    if sorted == [] then []
    else RenderItems(sorted[..|sorted| - 1], lib) + ItemFor(sorted[|sorted| - 1], lib)
  }

  lemma RenderItemsSnoc(sorted: seq<Entry>, e: Entry, lib: Library)
    ensures RenderItems(sorted + [e], lib) == RenderItems(sorted, lib) + ItemFor(e, lib)
  {
    assert (sorted + [e])[..|sorted|] == sorted;
  }

  lemma RenderItemsNext(sorted: seq<Entry>, i: nat, lib: Library)
    requires i < |sorted|
    ensures RenderItems(sorted[..i + 1], lib) == RenderItems(sorted[..i], lib) + ItemFor(sorted[i], lib)
  {
    assert sorted[..i + 1] == sorted[..i] + [sorted[i]];
    RenderItemsSnoc(sorted[..i], sorted[i], lib);
  }

  /** Rendering is filtering then converting: the items are, one for one,
      those of the entries `Renderable` keeps, in their order. */
  lemma {:induction false} RenderItemsMatchFilter(sorted: seq<Entry>, lib: Library)
    ensures var kept := Filter(sorted, Renderable(lib));
      var items := RenderItems(sorted, lib);
      && |items| == |kept|
      && forall i :: 0 <= i < |kept| ==> ParseTime(kept[i].createdAt, lib).Some? && items[i] == ItemOf(kept[i], lib)
    decreases |sorted|
  {
    if sorted != [] {
      var n := |sorted| - 1;
      var front := sorted[..n];
      var e := sorted[n];
      RenderItemsMatchFilter(front, lib);
      assert sorted == front + [e];
      FilterSnoc(front, e, Renderable(lib));
      RenderItemsSnoc(front, e, lib);
      var kept0 := Filter(front, Renderable(lib));
      var items0 := RenderItems(front, lib);
      if ParseTime(e.createdAt, lib).Some? {
        RendersKeptSnoc(items0, kept0, e, lib);
        assert Filter(sorted, Renderable(lib)) == kept0 + [e];
        assert RenderItems(sorted, lib) == items0 + [ItemOf(e, lib)];
      } else {
        assert Filter(sorted, Renderable(lib)) == kept0 && RenderItems(sorted, lib) == items0;
      }
    }
  }

  /** Items rendered one for one from entries whose time parses. */
  ghost predicate RendersKept(items: seq<Item>, kept: seq<Entry>, lib: Library) {
    && |items| == |kept|
    && forall i :: 0 <= i < |kept| ==> ParseTime(kept[i].createdAt, lib).Some? && items[i] == ItemOf(kept[i], lib)
  }

  lemma RendersKeptSnoc(items: seq<Item>, kept: seq<Entry>, e: Entry, lib: Library)
    requires RendersKept(items, kept, lib) && ParseTime(e.createdAt, lib).Some?
    ensures RendersKept(items + [ItemOf(e, lib)], kept + [e], lib)
  {
    var items', kept' := items + [ItemOf(e, lib)], kept + [e];
    forall i | 0 <= i < |kept'|
      ensures ParseTime(kept'[i].createdAt, lib).Some? && items'[i] == ItemOf(kept'[i], lib)
    {
      if i < |kept| {
        assert kept'[i] == kept[i] && items'[i] == items[i];
      }
    }
  }

  /** The entries `buildFeed` renders, in the order it renders them. */
  function RenderedEntries(entries: seq<Entry>, lib: Library): (r: seq<Entry>)
    ensures forall e :: e in r ==> ParseTime(e.createdAt, lib).Some?
  {
    Filter(SortDesc(entries, CreatedAtOf), Renderable(lib))
  }

  /** The channel's build date: that of the first entry after sorting, when
      it parses; the entries after it are not consulted. */
  function LastBuildDate(sorted: seq<Entry>, lib: Library): Option<string> {
    if sorted == [] then None
    else
      match ParseTime(sorted[0].createdAt, lib)
      case Some(t) => Some(lib.formatRFC1123Z(t))
      case None => None
  }

  /** The document `buildFeed` writes. */
  function RenderFeed(site: Site, entries: seq<Entry>, lib: Library): Rss {
    var sorted := SortDesc(entries, CreatedAtOf);
    Rss("2.0", Channel(site.title, site.link, site.description,
                       LastBuildDate(sorted, lib), RenderItems(sorted, lib)))
  }

  /** `buildFeed`, up to the XML encoding. */
  method BuildFeed(site: Site, entries: seq<Entry>, lib: Library) returns (rss: Rss)
    ensures rss == RenderFeed(site, entries, lib)
    ensures rss.channel.title == site.title && rss.channel.link == site.link
         && rss.channel.description == site.description
  {
    var sorted := SortDesc(entries, CreatedAtOf);
    var channel := Channel(site.title, site.link, site.description, None, []);
    if |sorted| > 0 {
      var last := ParseTime(sorted[0].createdAt, lib);
      if last.Some? {
        channel := channel.(lastBuildDate := Some(lib.formatRFC1123Z(last.value)));
      }
    }
    var items := AppendItems(sorted, lib);
    channel := channel.(items := items);
    rss := Rss("2.0", channel);
  }

  /** The loop of `buildFeed` that appends the items: an entry whose
      `CreatedAt` does not parse is skipped. */
  method AppendItems(sorted: seq<Entry>, lib: Library) returns (items: seq<Item>)
    ensures items == RenderItems(sorted, lib)
  {
    items := [];
    for i := 0 to |sorted|
      invariant items == RenderItems(sorted[..i], lib)
    {
      RenderItemsNext(sorted, i, lib);
      var e := sorted[i];
      var createdAt := ParseTime(e.createdAt, lib);
      if createdAt.None? {
        continue;
      }
      items := items + [Item(e.id, e.title, e.link,
        lib.formatRFC1123Z(createdAt.value), e.content, e.categories)];
    }
    assert sorted[..|sorted|] == sorted;
  }

  /** What the feed lists: the renderable entries, newest first by plain
      string comparison of `CreatedAt`, each exactly as often as it is
      stored, and nothing else; each item copies its entry's identity,
      title, link, content and categories. */
  lemma RenderedItemsAreSortedRenderableEntries(site: Site, entries: seq<Entry>, lib: Library)
    ensures var kept := RenderedEntries(entries, lib);
      && SortedDesc(kept, CreatedAtOf)
      && (forall e :: multiset(kept)[e] == if ParseTime(e.createdAt, lib).Some? then multiset(entries)[e] else 0)
      && |RenderFeed(site, entries, lib).channel.items| == |kept|
      && (forall i :: 0 <= i < |kept| ==>
            var item := RenderFeed(site, entries, lib).channel.items[i];
            && item.id == kept[i].id && item.title == kept[i].title && item.link == kept[i].link
            && item.description == kept[i].content && item.categories == kept[i].categories
            && item.pubDate == lib.formatRFC1123Z(ParseTime(kept[i].createdAt, lib).value))
  {
    var sorted := SortDesc(entries, CreatedAtOf);
    RenderItemsMatchFilter(sorted, lib);
    SortDescSorted(entries, CreatedAtOf);
    FilterSorted(sorted, Renderable(lib), CreatedAtOf);
    forall e ensures multiset(RenderedEntries(entries, lib))[e]
                  == if ParseTime(e.createdAt, lib).Some? then multiset(entries)[e] else 0 {
      FilterCount(sorted, Renderable(lib), e);
    }
  }

  /** The channel copies the site's title, link and description, and has a
      build date exactly when there are entries and the one with the
      greatest `CreatedAt` string parses; the date is that entry's. */
  lemma LastBuildDateIsNewestEntry(site: Site, entries: seq<Entry>, lib: Library)
    ensures var ch := RenderFeed(site, entries, lib).channel;
      && ch.title == site.title && ch.link == site.link && ch.description == site.description
      && (ch.lastBuildDate.Some? <==> entries != [] && ParseTime(MaxKey(entries, CreatedAtOf), lib).Some?)
      && (ch.lastBuildDate.Some? ==>
            ch.lastBuildDate.value == lib.formatRFC1123Z(ParseTime(MaxKey(entries, CreatedAtOf), lib).value))
  {
    if entries != [] {
      SortDescHeadIsMax(entries, CreatedAtOf);
    }
  }

  /** The build date is taken before the unparsable entries are left out:
      an unparsable `CreatedAt` that sorts first leaves the channel without
      a build date although later entries are listed. */
  lemma CorruptNewestEntryHidesBuildDate(good: Entry, bad: Entry, site: Site, lib: Library)
    requires bad.createdAt == "not-a-date" && good.createdAt == "2024-01-01T00:00:00Z"
    requires ParseTime(bad.createdAt, lib).None? && ParseTime(good.createdAt, lib).Some?
    ensures RenderFeed(site, [good, bad], lib).channel.lastBuildDate.None?
    ensures |RenderFeed(site, [good, bad], lib).channel.items| == 1
  {
    assert StrLess(good.createdAt, bad.createdAt);
    SortDescPair(good, bad, CreatedAtOf);
    RenderTwoItems(bad, good, lib);
  }

  /** Two entries render as the items of each, in order. */
  lemma RenderTwoItems(a: Entry, b: Entry, lib: Library)
    ensures RenderItems([a, b], lib) == ItemFor(a, lib) + ItemFor(b, lib)
  {
    RenderItemsSnoc([], a, lib);
    assert [] + [a] == [a] && [a] + [b] == [a, b];
    RenderItemsSnoc([a], b, lib);
  }

  // ---------------------------------------------------------------------------
  // RunFeedUpdate

  /** The error lines printed, one per error, in order. */
  function ErrorLines(errors: seq<string>): (r: seq<Output>)
    ensures |r| == |errors|
    ensures forall i :: 0 <= i < |errors| ==> r[i] == Stderr(errors[i])
  {
    if errors == [] then []
    else ErrorLines(errors[..|errors| - 1]) + [Stderr(errors[|errors| - 1])]
  }

  lemma ErrorLinesSnoc(errors: seq<string>, e: string)
    ensures ErrorLines(errors + [e]) == ErrorLines(errors) + [Stderr(e)]
  {
    assert (errors + [e])[..|errors|] == errors;
  }

  /** The provider loop of `RunFeedUpdate`: each provider's result goes
      through `addLatest` in turn; an error is printed and the loop moves
      on; the flag records whether any provider added an entry. */
  method PollProviders(store: Store, names: seq<string>, fetched: seq<Providers.Fetched>,
                       lib: Library, now: Instant, nowNanos: int)
    returns (updated: bool, output: seq<Output>)
    requires |names| == |fetched|
    modifies store
    ensures var run := IngestAll(old(store.entries), names, fetched, lib, now, nowNanos);
      store.entries == run.entries && updated == run.updated && output == ErrorLines(run.errors)
  {
    ghost var start := store.entries;
    updated := false;
    output := [];
    for i := 0 to |names|
      invariant var run := IngestAll(start, names[..i], fetched[..i], lib, now, nowNanos);
        store.entries == run.entries && updated == run.updated && output == ErrorLines(run.errors)
    {
      ghost var prev := IngestAll(start, names[..i], fetched[..i], lib, now, nowNanos);
      ghost var step := Ingest(prev.entries, names[i], fetched[i], lib, now, nowNanos);
      IngestAllStep(start, names, fetched, lib, now, nowNanos, i);
      var added, e := store.AddLatest(names[i], fetched[i], lib, now, nowNanos);
      assert Ingested(store.entries, added, e) == step;
      if e.Some? {
        ErrorLinesSnoc(prev.errors, e.value);
        output := output + [Stderr(e.value)];
        continue;
      }
      if added {
        updated := true;
      }
    }
    assert names[..|names|] == names && fetched[..|fetched|] == fetched;
  }

  /** The working directory's files: the site (as `loadSite` read it), the
      stored entries and the rendered feed (None before the first write). */
  class Workspace {
    var site: Site
    var entriesFile: seq<Entry>
    var feedFile: Option<Rss>

    constructor (site: Site, entriesFile: seq<Entry>, feedFile: Option<Rss>)
      ensures this.site == site && this.entriesFile == entriesFile && this.feedFile == feedFile
    {
      this.site, this.entriesFile, this.feedFile := site, entriesFile, feedFile;
    }

    /** `RunFeedUpdate`: `fetched[k]` is what provider `ProviderNames[k]`
        returns; `getwdError` is the failure of `os.Getwd`, if any. */
    method RunFeedUpdate(getwdError: Option<string>, fetched: seq<Providers.Fetched>,
                         lib: Library, now: Instant, nowNanos: int)
      returns (err: Option<string>, output: seq<Output>)
      requires |fetched| == |ProviderNames|
      modifies this
      ensures site == old(site)
      ensures getwdError.Some? ==>
        err == getwdError && output == [] && entriesFile == old(entriesFile) && feedFile == old(feedFile)
      ensures getwdError.None? ==>
        var run := IngestAll(old(entriesFile), ProviderNames, fetched, lib, now, nowNanos);
        && err == None
        && (run.updated ==>
              && entriesFile == run.entries
              && feedFile == Some(RenderFeed(site, run.entries, lib))
              && output == ErrorLines(run.errors) + [Stdout("update detected")])
        && (!run.updated ==>
              && entriesFile == old(entriesFile) && feedFile == old(feedFile)
              && output == ErrorLines(run.errors) + [Stdout("no update detected")])
    {
      if getwdError.Some? {
        return getwdError, [];
      }
      var store := new Store(entriesFile);
      var updated;
      updated, output := PollProviders(store, ProviderNames, fetched, lib, now, nowNanos);
      if !updated {
        output := output + [Stdout("no update detected")];
        return None, output;
      }
      entriesFile := store.entries;
      var rss := BuildFeed(site, store.entries, lib);
      feedFile := Some(rss);
      output := output + [Stdout("update detected")];
      return None, output;
    }
  }
}
