# wapuugotchi feed, modelled in Dafny

This project models the feed pipeline of the wapuugotchi repository and proves properties of it. The pipeline has these parts:

- **The ingestion engine** (app/cmd/feed.go). It polls three providers in a fixed order. Each provider's latest item becomes an entry when its title is not blank and its identity is new. The identity is an MD5 digest of the provider name and the item's publication date, or its link when the date is blank.
- **The feed builder.** It sorts the entries newest first by plain string comparison of `CreatedAt` and leaves out those whose time does not parse. It writes an RSS 2.0 document.
- **The provider adapters** (app/feed/releases.go, blog.go, wordpresstv.go). These pick the first channel item and assemble its content, with or without an AI summary.
- **The environment helpers** (app/env/env.go, app/ai/ai.go):
  - the first non-blank variable of a list;
  - a `.env` loader that never overwrites a variable;
  - the upward search for `go.mod`;
  - prompt building and AI provider dispatch.
- **The delete command** (app/cmd/delete.go).
- **The older version-check pipeline.** It exists twice:
  - in Go (cmd/feed-update/main.go);
  - in Python (scripts/check_wordpress.py and scripts/build_feed.py).

  It announces a new WordPress version once and renders its own feed with different rules.

One Dafny module per source file:

| module | file | models |
|---|---|---|
| `Feed` | feed.dfy | app/cmd/feed.go |
| `LegacyFeed` | legacy.dfy | cmd/feed-update/main.go |
| `Providers` | providers.dfy | app/feed/releases.go and app/feed/blog.go |
| `WordPressTV` | wordpresstv.dfy | the iframe helpers of app/feed/wordpresstv.go |
| `Ai` | ai.dfy | app/ai/ai.go |
| `Env` | env.dfy | app/env/env.go |
| `Delete` | delete.dfy | app/cmd/delete.go |
| `BuildFeedScript` | build_feed_py.dfy | scripts/build_feed.py |
| `CheckWordPressScript` | check_wordpress_py.dfy | scripts/check_wordpress.py |

`Text` (Go's and Python's string functions), `Sorting` (newest-first sort, filter, removal at an index), `Wrappers` (Option, Result) and `Platform` (the time and hash library as a record of functions) are shared.

Code that updates state in place becomes classes with `modifies` clauses. Loops become methods proved against specification functions:

- `Feed.Store` owns the entry list that `addLatest` appends to.
- `Feed.Workspace` holds the data files of `RunFeedUpdate`.
- `Env.Environment` owns the process environment.
- `Delete.FeedFile` holds `feed.xml`.
- The scripts' and `main`'s data directories are `DataDir` classes.

Expression-level code becomes functions and lemmas.

Things outside the program are parameters:

- the clock: `now`, and `nowNanos` for `UnixNano`;
- time parsing and formatting, and MD5: the `Platform.Library` record;
- provider results: `Providers.Fetched`;
- the Hugging Face back end: a function;
- the file system: `Env.FileSystem`;
- `os.Getwd` failures: an optional error.

Every lemma holds for every choice of these.

The regular expressions of wordpresstv.go are modelled concretely: the iframe pattern, and the width and height attribute patterns. The model gives leftmost-first, non-greedy RE2 semantics for these shapes. Characters are Unicode code points and case folding covers ASCII letters only.

## Model

| member | source | states |
|---|---|---|
| Feed.Cleaned | app/cmd/feed.go:210-220 | cleaning never yields more categories than it was given |
| Feed.CleanedAreClean | app/cmd/feed.go:210-220 | every category kept is non-empty and has no surrounding white space |
| Feed.CleanedSnoc | app/cmd/feed.go:212-218 | one more value adds its trimmed form at the end, or nothing when it is blank |
| Feed.CleanedConcat | app/cmd/feed.go:210-220 | cleaning works value by value, so the input order is kept |
| Feed.CleanedKeepsClean | app/cmd/feed.go:210-220 | values that are already trimmed and non-empty come back unchanged |
| Feed.CleanedIdempotent | app/cmd/feed.go:210-220 | cleaning twice is cleaning once |
| Feed.CleanCategories | app/cmd/feed.go:210-220 | the loop returns exactly the cleaned categories |
| Feed.IdExists | app/cmd/feed.go:298-305 | the scan answers true exactly when some stored entry has the identity |
| Feed.PickEntryIDIsDigest | app/cmd/feed.go:318-325 | the value `pickEntryID` hashes always contains the separator character between provider and basis, so the identity is always the MD5 digest and never the clock-named fallback |
| Feed.PickEntryIDStable | app/cmd/feed.go:279-288 | the identity depends only on the provider and the trimmed date (or trimmed link when the date is blank), not on the clock |
| Feed.PickEntryTimeIsCanonical | app/cmd/feed.go:290-296 | the RFC 3339 layout keeps whole seconds and reads back four-digit years. When the parser reads back, to the second, what the formatter writes for those years, a new entry's `CreatedAt` parses to the publication date, or to `now` when the date does not parse, truncated to the second |
| Feed.NewEntryIsRendered | app/cmd/feed.go:290-296 | under the same conditions a newly ingested entry renders to exactly one feed item and is never skipped |
| Feed.Ingest | app/cmd/feed.go:144-168 | the list only grows at its end, by at most one entry, and only with an identity not yet stored; an error means nothing was added |
| Feed.IngestCases | app/cmd/feed.go:144-168 | a fetch error is returned and changes nothing; a blank title changes nothing; otherwise exactly the new entry is appended when its identity is new |
| Feed.EmptyChannelChangesNothing | app/cmd/feed.go:149-151 | the zero item that an empty channel yields leaves the store unchanged, with no error |
| Feed.IngestPreservesUniqueIds | app/cmd/feed.go:153-167 | `addLatest` keeps identities unique |
| Feed.IngestSettles | app/cmd/feed.go:154-157 | after `addLatest`, the same provider result finds its identity stored |
| Feed.SettledGrows | app/cmd/feed.go:159-167 | a settled result stays settled as the list grows at its end |
| Feed.SettledAnyClock | app/cmd/feed.go:279-288 | settledness does not depend on the clock when the item has a date or a link |
| Feed.IngestIdempotent | app/cmd/feed.go:144-168 | ingesting the same provider result again, at any later time, adds nothing |
| Feed.Store.AddLatest | app/cmd/feed.go:144-168 | the method's new list, flag and error are those of `Ingest`, and unique identities stay unique |
| Feed.IngestAllGrows | app/cmd/feed.go:71-81 | a run only appends, and reports an update exactly when it appended something |
| Feed.IngestAllStep | app/cmd/feed.go:72-80 | each further provider is one `addLatest` on the list so far; its error is recorded and the loop continues |
| Feed.IngestAllPreservesUniqueIds | app/cmd/feed.go:71-81 | a whole run keeps identities unique |
| Feed.FailedProviderIsSkipped | app/cmd/feed.go:73-77 | a provider that fails changes the run's entries and update flag exactly as if it were not polled at all |
| Feed.IngestAllFailedLast | app/cmd/feed.go:73-77 | a failing last provider adds nothing to the run |
| Feed.IngestAllSameLast | app/cmd/feed.go:72-80 | runs that agree before their last provider and share that provider's result agree |
| Feed.IngestAllSettles | app/cmd/feed.go:71-81 | after a run, every provider's result is settled in the new list |
| Feed.IngestAllOfSettled | app/cmd/feed.go:71-85 | a run over settled results changes nothing and reports no update |
| Feed.RunIsIdempotent | app/cmd/feed.go:71-85 | re-running with the same provider results at any later time adds nothing, when no identity comes from the clock |
| Feed.ItemFor | app/cmd/feed.go:240-253 | an entry contributes at most one item |
| Feed.RenderItems | app/cmd/feed.go:240-253 | there are never more items than entries |
| Feed.RenderItemsSnoc | app/cmd/feed.go:240-253 | one more entry appends its item, or nothing when its time does not parse |
| Feed.RenderItemsNext | app/cmd/feed.go:240-253 | the loop's `i`-th step appends the item of entry `i` |
| Feed.RenderItemsMatchFilter | app/cmd/feed.go:240-253 | rendering is filtering then converting: the items are, one for one and in order, those of the entries whose time parses |
| Feed.RendersKeptSnoc | app/cmd/feed.go:245-252 | appending a parsable entry and its item keeps the one-for-one correspondence |
| Feed.RenderedEntries | app/cmd/feed.go:222-253 | every entry the feed renders has a `CreatedAt` that parses |
| Feed.BuildFeed | app/cmd/feed.go:222-258 | the method builds the document `RenderFeed` describes; the channel copies the site's title, link and description |
| Feed.AppendItems | app/cmd/feed.go:240-253 | the loop yields exactly the rendered items, skipping unparsable entries |
| Feed.RenderedItemsAreSortedRenderableEntries | app/cmd/feed.go:222-253 | the rendered entries are in non-increasing `CreatedAt` order; each parsable entry appears as often as it is stored and no unparsable one appears; each item copies identity, title, link, content and categories, with the date reformatted |
| Feed.LastBuildDateIsNewestEntry | app/cmd/feed.go:227-238 | the channel copies the site; it has a build date exactly when there are entries and the greatest `CreatedAt` parses, and the date is that entry's |
| Feed.CorruptNewestEntryHidesBuildDate | app/cmd/feed.go:233-238 | the build date is taken before filtering: an unparsable newest entry leaves the channel without one while a later entry is still listed |
| Feed.ErrorLines | app/cmd/feed.go:74-76 | one standard-error line per provider error, in order |
| Feed.ErrorLinesSnoc | app/cmd/feed.go:74-76 | one more error adds its line at the end |
| Feed.PollProviders | app/cmd/feed.go:71-81 | the loop leaves the store, the update flag and the printed errors as `IngestAll` describes |
| Feed.Workspace.RunFeedUpdate | app/cmd/feed.go:62-94 | a `Getwd` failure is returned with nothing changed; otherwise the errors are printed, and the entries are saved and the feed rebuilt exactly when something was added; it prints "update detected" or "no update detected" |
| LegacyFeed.ReadJSON | cmd/feed-update/main.go:206-216 | a missing or undecodable file gives the fallback, otherwise its contents |
| LegacyFeed.LatestWordPressSelectsFirstOffer | cmd/feed-update/main.go:127-143 | a non-2xx status is an error naming the status; a decoded answer gives "" for no offers, else the first offer's version |
| LegacyFeed.ParseTimeIgnoresZulu | cmd/feed-update/main.go:198-204 | both branches parse the same way: a trailing `Z` makes no difference, and the result is the RFC 3339 parse of the trimmed value |
| LegacyFeed.UpdateAppendsOnlyNewVersions | cmd/feed-update/main.go:93-102 | an entry is appended and the state records `latest` exactly when `latest` is non-empty and differs from the stored version; the entry has the fixed ID and title templates and the site's link; the earlier entries are kept |
| LegacyFeed.UpdateIdempotent | cmd/feed-update/main.go:93-102 | a second run with the same version, at any time, changes neither state nor entries |
| LegacyFeed.ItemFor | cmd/feed-update/main.go:164-176 | an entry contributes at most one item |
| LegacyFeed.ItemForParsed | cmd/feed-update/main.go:165-175 | an entry whose `parseTime` succeeds gives the item with a non-permalink GUID holding its ID and the date reformatted; otherwise it gives none |
| LegacyFeed.RenderItems | cmd/feed-update/main.go:164-176 | there are never more items than entries |
| LegacyFeed.RenderItemsSnoc | cmd/feed-update/main.go:164-176 | one more entry appends its item, or nothing |
| LegacyFeed.RenderItemsNext | cmd/feed-update/main.go:164-176 | the loop's `i`-th step appends the item of entry `i` |
| LegacyFeed.RenderItemsMatchFilter | cmd/feed-update/main.go:164-176 | the items are, one for one and in order, those of the entries whose time parses |
| LegacyFeed.RendersKeptSnoc | cmd/feed-update/main.go:169-175 | appending a parsable entry and its item keeps the correspondence |
| LegacyFeed.BuildFeed | cmd/feed-update/main.go:146-181 | the method builds the document `RenderFeed` describes |
| LegacyFeed.AppendItems | cmd/feed-update/main.go:164-176 | the loop yields exactly the rendered items, skipping unparsable entries |
| LegacyFeed.RenderedItemsAreSortedParsableEntries | cmd/feed-update/main.go:146-176 | the items follow the parsable entries in non-increasing `CreatedAt` order, each as often as stored, with the ID as a non-permalink GUID and title, link, content and reformatted date copied |
| LegacyFeed.LastBuildDateIsNewestEntry | cmd/feed-update/main.go:151-162 | the channel copies the site; the build date is the greatest `CreatedAt`, reformatted, when it parses, and "" (omitted) otherwise |
| LegacyFeed.DataDir.Run | cmd/feed-update/main.go:68-110 | a `Getwd` or fetch failure is fatal with no file written; otherwise state and entries are written back as `Update` computes them and the feed is rebuilt from them |
| LegacyFeed.RunIdempotent | cmd/feed-update/main.go:80-102 | a second `main` with the same version writes back exactly what the first wrote |
| Providers.BuildReleasesContent | app/feed/releases.go:62-72 | a blank description gives ""; otherwise the AI's answer for the trimmed description, or that trimmed description when the AI fails |
| Providers.ReleasesContentAsksOnlyTrimmedDescription | app/feed/releases.go:63-67 | the content depends on the AI only through its answer for the trimmed description, and not at all when the description is blank |
| Providers.LatestReleases | app/feed/releases.go:37-60 | a fetch or decode error is returned with the zero item; an empty channel gives the zero item and no error; otherwise the first item's title, link, date and categories are copied verbatim beside the built content |
| Providers.BuildBlogContent | app/feed/blog.go:55-71 | "" exactly when title and summary are both empty; the title paragraph alone without a summary; else the title paragraph followed by the summary paragraph |
| Providers.BlogContentWithBlankBody | app/feed/blog.go:57-69 | a blank body never reaches the AI: the content is the same for every AI and is the title paragraph or "" |
| Providers.BlogSummaryIsTrimmed | app/feed/blog.go:58-62 | the summary never starts or ends with white space |
| Providers.LatestWordPressComBlog | app/feed/blog.go:30-53 | the same error and empty-channel handling as the releases adapter, and the first item's fields copied beside the blog content |
| WordPressTV.IndexFoldFrom | app/feed/wordpresstv.go:55 | the result is the first position at or after the start where the literal occurs ignoring case, or -1 when it occurs nowhere there |
| WordPressTV.TagCloseFrom | app/feed/wordpresstv.go:55 | `[^>]*>` stops at the first `>` after the name; -1 exactly when there is none |
| WordPressTV.IframeAtShape | app/feed/wordpresstv.go:55 | a match at a position starts with `<iframe` followed by a non-word character or the end of the text (`\b`), runs through the first `>` after the name, and ends with the first `</iframe>` after that `>`, ignoring case (the lazy `.*?`); when one of these parts is missing there is no match |
| WordPressTV.IframeMatchShape | app/feed/wordpresstv.go:55 | a match starts with `<iframe`, contains `>` and ends with `</iframe>`, ignoring case |
| WordPressTV.FoundIframeShape | app/feed/wordpresstv.go:62 | what `FindString` returns is a piece of the input with that shape |
| WordPressTV.FindIframeIsLeftmost | app/feed/wordpresstv.go:62 | `FindString` returns "" exactly when the pattern matches at no position; otherwise it returns the match at the leftmost matching position |
| WordPressTV.FindIframeLeftmostAt | app/feed/wordpresstv.go:62 | a non-empty result is the match at a position where the pattern matches and before which it matches nowhere |
| WordPressTV.FindIframePresent | app/feed/wordpresstv.go:62 | a match at any position makes `FindString` return something |
| WordPressTV.SkipSpaces | app/feed/wordpresstv.go:67-68 | the `\s*` run ends at the first non-space character |
| WordPressTV.BareEnd | app/feed/wordpresstv.go:67-68 | `[^'"\s>]+` takes the longest run of characters other than quotes, white space and `>` |
| WordPressTV.ValueEndShape | app/feed/wordpresstv.go:67-68 | a quoted value runs to the first closing quote of the same kind, a bare value is the longest bare run; there is no value at the end of the text, at an unclosed quote or at a character that can neither open a quote nor start a bare run |
| WordPressTV.AttrAtShape | app/feed/wordpresstv.go:67-68 | a match is a white-space character, the name ignoring case, the white-space run after it, `=`, the white-space run after that and a value |
| WordPressTV.AttrAtMissingPart | app/feed/wordpresstv.go:67-68 | when the white-space character and the name are there but no match is, the `=` or the value is missing |
| WordPressTV.ReplaceAttrContainsRepl | app/feed/wordpresstv.go:92-93 | when the pattern matches anywhere, the replacement appears in the result of `ReplaceAllString` |
| WordPressTV.ReplaceAttrNoMatch | app/feed/wordpresstv.go:93 | with no match left, `ReplaceAllString` copies the rest of the text |
| WordPressTV.ReplaceAttrCopies | app/feed/wordpresstv.go:93 | positions where no match starts are copied unchanged, one by one |
| WordPressTV.ReplaceAttrFirstMatch | app/feed/wordpresstv.go:93 | the leftmost match is replaced, the text before it copied, and the search resumed at the end of the match |
| WordPressTV.SetAttrReplacesOnlyMatch | app/feed/wordpresstv.go:90-96 | a tag with exactly one matching attribute has exactly that attribute replaced by `name="value"` and everything else kept |
| WordPressTV.SetAttrAddsAttr | app/feed/wordpresstv.go:90-96 | on either branch the tag comes out carrying `name="value"` |
| WordPressTV.SetAttrAppendsWithoutMatch | app/feed/wordpresstv.go:94-95 | without a match the tag is trimmed and the attribute appended |
| WordPressTV.NormalizeWithoutTagEnd | app/feed/wordpresstv.go:72-78 | a value without `>`, the empty one included, is returned unchanged |
| WordPressTV.NormalizeOnlyIframeTags | app/feed/wordpresstv.go:81-84 | an open tag that does not contain `<iframe` leaves the value unchanged; the `HasSuffix` test adds nothing to the `Contains` test (`NormalizeKeepsRest` and `UpperCaseIframeIsKept` go through this lemma) |
| WordPressTV.NormalizeSizesTag | app/feed/wordpresstv.go:84-86 | an open tag that mentions `<iframe` gets the width and then the height set, and the rest from the first `>` on follows unchanged |
| WordPressTV.NormalizeKeepsRest | app/feed/wordpresstv.go:79-87 | everything from the first `>` on is kept verbatim at the end |
| WordPressTV.NormalizeSetsHeight | app/feed/wordpresstv.go:85-87 | an iframe open tag comes out carrying `height="auto"`, in front of the kept rest |
| WordPressTV.NormalizeSetsWidthFirst | app/feed/wordpresstv.go:85 | the width step gives the tag `width="100%"` |
| WordPressTV.ExtractWithoutIframe | app/feed/wordpresstv.go:57-64 | blank HTML, or HTML where the pattern matches at no position of the trimmed text, gives "" |
| WordPressTV.ExtractedIsNormalizedMatch | app/feed/wordpresstv.go:57-64 | otherwise the result is the normalized leftmost match: the pattern matches at some position `i` of the trimmed input and at no earlier one, the match is the piece from `i`, and it has the iframe shape |
| WordPressTV.ExtractedWhenPresent | app/feed/wordpresstv.go:57-64 | if the pattern matches anywhere in the trimmed HTML, `FindString` finds something and the result is that match, normalized |
| WordPressTV.UpperCaseIframeIsNotNormalized | app/feed/wordpresstv.go:62-63 | an upper-case `<IFRAME>` element is found by the case-insensitive pattern but comes back without the forced size |
| WordPressTV.UpperCaseIframeIsTrimmed | app/feed/wordpresstv.go:58 | the example element has no surrounding white space |
| WordPressTV.UpperCaseIframeIsFound | app/feed/wordpresstv.go:55 | the pattern matches the whole upper-case element |
| WordPressTV.UpperCaseIframeIsKept | app/feed/wordpresstv.go:82-84 | the case-sensitive `<iframe` test returns it unchanged |
| Ai.BuildPromptBlankPattern | app/ai/ai.go:22-25 | a blank pattern returns the text unchanged |
| Ai.BuildPromptSubstitutes | app/ai/ai.go:26-27 | a pattern with one `%s` and no other `%` gets the text in place of the `%s` |
| Ai.BuildPromptAppends | app/ai/ai.go:26-29 | a pattern without `%s` is trimmed and the text appended |
| Ai.DispatchIgnoresCaseAndSpace | app/ai/ai.go:12-13 | the provider name is compared trimmed and lower-cased |
| Ai.DispatchHuggingFace | app/ai/ai.go:12-15 | `HuggingFace`, in any case and with surrounding space, reaches the Hugging Face back end with the prompt |
| Ai.DispatchUnknownProvider | app/ai/ai.go:16-17 | any other non-empty provider is the error "unknown ai provider: " plus the name, and the back end is not consulted |
| Ai.BlankProviderShadowsDotEnv | app/ai/ai.go:32-38 | a set but blank `AI_PROVIDER` makes the provider "" (Hugging Face) whatever `.env` says, because the loader does not overwrite it |
| Ai.DotEnvProviderIsUsed | app/ai/ai.go:32-38 | with `AI_PROVIDER` unset, the first `.env` definition of it decides, trimmed, when the lines up to and including that definition load without error; a later `Setenv` failure does not matter, because the value is already set and `getProvider` ignores the error |
| Ai.DotEnvErrorBeforeProvider | app/ai/ai.go:32-38 | a `Setenv` failure before any line defines `AI_PROVIDER` leaves it unset, and `getProvider` returns "" |
| Ai.GetProvider | app/ai/ai.go:32-38 | the method's environment and provider are those of `ProviderSetting` |
| Ai.TransformText | app/ai/ai.go:10-19 | the result is the dispatch of the built prompt on the provider setting |
| Env.Parent | app/env/env.go:64-65 | the parent of an absolute path drops its last part, and equals the path only at the root |
| Env.NearestGoModIsNearest | app/env/env.go:59-69 | the search finds an ancestor holding `go.mod` with no closer one holding it, or reports that none does |
| Env.FindRepoRoot | app/env/env.go:54-70 | the loop returns `.` when the working directory is unknown, else the nearest ancestor with `go.mod`, else the working directory |
| Env.ParseLineSpec | app/env/env.go:30-43 | a line yields a pair exactly when, once trimmed, it is not blank, not a comment, contains `=` and has a non-empty key and unquoted value; the pair splits at the first `=` |
| Env.ParsedPairIsClean | app/env/env.go:39-43 | a parsed key has no `=` and no surrounding space; a parsed value does not start or end with a quote |
| Env.LoadLinesStep | app/env/env.go:30-49 | the loop over `i + 1` lines is the loop over `i` followed by line `i` |
| Env.LoadLinesNeverOverwrites | app/env/env.go:44-48 | a variable that is already set keeps its value |
| Env.LoadLinesFirstOccurrenceWins | app/env/env.go:44-48 | a newly set variable has the value of the first line defining it, and, without an error, every defined variable gets set |
| Env.LoadLinesErrorStops | app/env/env.go:45-47 | once a `Setenv` fails, the remaining lines change nothing |
| Env.LoadLinesPrefixKept | app/env/env.go:30-50 | what the first lines set stays set with the same value, whatever the later lines do, an error included |
| Env.LoadLinesAgain | app/env/env.go:44-48 | loading lines whose every key is already set changes nothing |
| Env.DotEnvIdempotent | app/env/env.go:18-52 | loading `.env` twice is loading it once |
| Env.FirstSet | app/env/env.go:9-16 | the result is "" exactly when every key is unset or blank |
| Env.FirstSetIsFirst | app/env/env.go:9-16 | a non-empty result is the trimmed value of the first key that is set and not blank |
| Env.Environment.ReadEnv | app/env/env.go:9-16 | the loop returns the first set, non-blank value, trimmed |
| Env.Environment.LoadDotEnv | app/env/env.go:18-52 | a missing file is success and changes nothing; another read error is returned; otherwise the lines are loaded as `LoadLines` describes |
| Env.Environment.SetLines | app/env/env.go:30-49 | the line loop leaves the environment and error as `LoadLines` describes |
| Env.Environment.SetLine | app/env/env.go:31-48 | one line sets its pair only when the key is unset, failing on a NUL in key or value |
| Delete.FeedFile.RunDeleteItem | app/cmd/delete.go:9-44 | an unreadable feed panics; an item number outside 1..len prints "Invalid item number" and writes nothing; otherwise exactly item `itemNumber-1` is removed, its title reported, and the rest of the document kept |
| Delete.DeletionKeepsTheRest | app/cmd/delete.go:28-30 | the splice shrinks the items by one, keeps the ones before in place and moves the ones after up by one, and leaves version and channel metadata untouched |
| BuildFeedScript.Instants | scripts/build_feed.py:46 | one parsed `created_at` per entry, in order |
| BuildFeedScript.Max | scripts/build_feed.py:46 | Python's `max` returns an element that no other element exceeds |
| BuildFeedScript.Items | scripts/build_feed.py:50-59 | one item per entry |
| BuildFeedScript.ItemsSnoc | scripts/build_feed.py:50-59 | one more entry appends its item |
| BuildFeedScript.ItemsAreOnePerEntry | scripts/build_feed.py:50-59 | item `i` is the item of entry `i` |
| BuildFeedScript.SortedEntries | scripts/build_feed.py:49 | sorting keeps every entry exactly as often as it occurs |
| BuildFeedScript.SortedEntriesKeepTies | scripts/build_feed.py:49 | `sorted(..., reverse=True)` is stable: entries with the same `created_at` string keep their input order |
| BuildFeedScript.AllParsePermutation | scripts/build_feed.py:49-57 | reordering the entries keeps them all parsable, so the loop cannot raise once `max` did not |
| BuildFeedScript.Run | scripts/build_feed.py:34-62 | the script writes the document `Render` describes, or nothing when it raises |
| BuildFeedScript.AppendItems | scripts/build_feed.py:50-59 | the loop yields one item per sorted entry |
| BuildFeedScript.RenderFailsOnUnparsableEntry | scripts/build_feed.py:45-57 | the script raises exactly when some entry lacks a parsable `created_at` |
| BuildFeedScript.RenderListsEveryEntry | scripts/build_feed.py:49-59 | every entry gives exactly one item, newest `created_at` string first, with the defaults, the site link as fallback link, and the ID as a non-permalink GUID |
| BuildFeedScript.RenderChannelHeader | scripts/build_feed.py:41-47 | the title defaults to "Wapuugotchi RSS"; the build date is present exactly when there are entries, and it is the latest parsed `created_at` |
| CheckWordPressScript.CheckWritesOnlyNews | scripts/check_wordpress.py:46-62 | the files are written exactly when `latest` is a non-empty version other than the stored one; then the state records it with its other keys untouched, and exactly one entry is appended with the fixed templates and the site's link |
| CheckWordPressScript.CheckIdempotent | scripts/check_wordpress.py:50-51 | a second run with the same answer writes nothing |
| CheckWordPressScript.DataDir.Run | scripts/check_wordpress.py:41-65 | the method saves state and entries only on the change path, and then exactly as `Check` computes them |
| Sorting.SortDesc | app/cmd/feed.go:223-225 | sorting is a permutation of the entries |
| Sorting.SortDescSorted | app/cmd/feed.go:223-225 | the result is in non-increasing key order |
| Sorting.InsertDescWithKey | scripts/build_feed.py:49 | insertion passes only elements with a strictly larger key, so the inserted element precedes the others with its key, whose order is kept |
| Sorting.SortDescStable | scripts/build_feed.py:49 | the elements with any one key come out in their input order |
| Sorting.SortDescHeadIsMax | app/cmd/feed.go:233-234 | the first entry after sorting carries the greatest key |
| Sorting.MaxKey | app/cmd/feed.go:233-234 | the greatest key is the key of some entry, and no entry's key exceeds it |
| Sorting.FilterCount | app/cmd/feed.go:240-244 | skipping keeps each kept element as often as before and drops the others entirely |
| Sorting.FilterSorted | app/cmd/feed.go:240-244 | skipping elements keeps the order sorted |
| Sorting.WithoutRemovesOne | app/cmd/delete.go:30 | removal at an index keeps the elements before it, moves the later ones up by one and removes exactly that element |
| Text.Split | app/env/env.go:30 | the parts contain no separator and joined with it give the text back |
| Text.SplitJoin | app/env/env.go:30 | splitting a join of separator-free parts gives the parts back |
| Text.CutFirst | app/env/env.go:35-38 | `SplitN(line, "=", 2)` has two parts exactly when `=` occurs, and they are the text before and after its first occurrence |
| Text.IndexOf | app/feed/wordpresstv.go:75 | `strings.Index` gives -1 exactly when the character is absent, else its first position |
| Text.FormatVerb | app/ai/ai.go:27 | `%s` and `%v` print a string argument; any other verb except `%T` reports a bad verb with the argument |
| Text.SprintfFirstDirective | app/ai/ai.go:27 | the first directive other than `%%` takes the argument, whatever its verb, and the text before it is copied |
| Text.SprintfSingleDirective | app/ai/ai.go:27 | `Sprintf` puts the argument in place of a single `%s` |
| Text.SprintfSecondDirectiveMissing | app/ai/ai.go:27 | a second directive finds no argument left and reports it missing (`Sprintf("%d %s", "x")` is `%!d(string=x) %!s(MISSING)`) |
| Text.ToLower | app/ai/ai.go:12 | lower-casing keeps the length and maps each character |
| Text.ReplaceChar | scripts/build_feed.py:23-24 | replacing a character that does not occur changes nothing; the character alone becomes the replacement |
| Text.ReplaceCharAppend | scripts/build_feed.py:24 | replacing works piece by piece over a concatenation |
| Text.ReplaceCharIsSplitJoin | scripts/build_feed.py:24 | `s.replace(c, repl)` is `repl.join(s.split(c))`: every `c` becomes `repl` and the text between is kept |

## Left out

- HTTP transport is not modelled: `fetchFeed` and its 429 retry, the network call of `fetchLatestWordPress`, app/ai/huggingface.go and `fetch_latest_version`. Provider answers, the version API's response and the back end's result are inputs.
- XML and JSON encoding and decoding, and file reads and writes, are not modelled. This covers `loadSite`, `loadEntries`, `saveEntries`, `writeJSON`, `getPaths`, the `xml.Header` line and the error of creating `feed.xml` in `buildFeed`. Files are given by their decoded contents. For the Go commands, `None` stands for a file that `readJSON` could not read or decode.
- Python's JSON `null` is not told apart from an absent key: both are `None`, so `entry.get("title", "")` of a `null` title is modelled as "" and not as `None`.
- `time.Parse`, `Time.Format` (RFC 3339, RFC 1123 and RFC 1123Z), `datetime.fromisoformat`, `email.utils.format_datetime` and MD5 are uninterpreted functions in `Platform.Library` and `BuildFeedScript.PyLib`. Instants are integers.
- BuildFeedScript.Run, CheckWordPressScript.DataDir.Run: `None` stands for a missing file only. Python's `load_json` (scripts/build_feed.py:15-19, scripts/check_wordpress.py:16-20) raises on a file that exists but is not valid JSON, and the script then stops without writing anything; that failure is not modelled.
- BuildFeedScript.Render, BuildFeedScript.ItemOf: `format_datetime` writes a datetime in its own UTC offset, but instants are zone-less integers, so the offset of `pubDate` and `lastBuildDate` is not modelled. The Go writers of `created_at` all write UTC with a `Z`, which the script reads as `+00:00`.
- BuildFeedScript.Max: Python's `TypeError` when naive and aware datetimes are compared is not modelled, because instants are plain integers.
- Feed.PickEntryTimeIsCanonical, Feed.NewEntryIsRendered: the formatter and parser are parameters. The lemmas assume that RFC 3339 text reads back to the second for years 0000 to 9999, and that the chosen instant lies in that range. Go's formatter writes a five-digit year after 9999, which its parser rejects, so such an entry would be skipped by the feed.
- `time.Now`, `UnixNano` and `iso_now` are parameters.
- `os.Exit`, `fatal` and `panic` messages are not modelled: a fatal run is an error value with no file written.
- `sort.Slice` is unstable. The model sorts with a stable insertion sort (`Sorting.SortDescStable`). The lemmas about the Go feeds state only "sorted and a permutation", which holds for every order of ties. For scripts/build_feed.py, stability is Python's own promise, and `BuildFeedScript.SortedEntriesKeepTies` states it.
- In app/feed/wordpresstv.go, `LatestWordPressTV` (lines 30-53) builds an `Item` with `GUID` and `Description` fields. The `Item` of app/feed/releases.go:13-19 has no such fields, so the file does not compile as shown. Only `extractFirstIframe`, `normalizeIframe` and `setAttr` are modelled.
- WordPressTV.ReplaceAttrFrom: `$` expansion in the replacement (`$name`, `${1}`) is not modelled. The replacement is copied as it is, which is what `ReplaceAllString` does for a replacement without `$`, and the two the program passes, ` width="100%"` and ` height="auto"`, contain none.
- WordPressTV.SetAttrAddsAttr, WordPressTV.ReplaceAttrContainsRepl: state only that the attribute ends up in the tag. What replacing does to the rest of the tag is stated by `ReplaceAttrFirstMatch`, `ReplaceAttrNoMatch` and `SetAttrReplacesOnlyMatch`. Not every match in the result is the new attribute: a match can start inside the replaced text, as in ` width="  width=5`.
- WordPressTV.NormalizeSetsHeight: states that `height="auto"` ends up in the tag, but not that `width="100%"` survives the height step. A tag such as `<iframe height= width=10>` has its new width attribute taken into the height pattern's bare value and lost.
- Text.FormatVerb, Text.Sprintf1: flags, width, precision and argument indexes of `fmt` directives are not modelled, and neither are `%q`, `%x` and `%X`, which Go formats specially for strings (quoted, hexadecimal); the model reports them as bad verbs. Ai.BuildPrompt inherits this for patterns that hold such directives.
- Text.ToLower: case folding covers ASCII letters only, both for `strings.ToLower` and for the `(?i)` flag, which `WordPressTV.FoldsAt` builds on.
- Paths are sequences of components, and `filepath.Join` and `filepath.Dir` are modelled for absolute, cleaned paths only.
- `os.Setenv` is modelled as failing only on a NUL in the key or value, with one fixed message.
- app/cmd/info.go (XML token streaming), app/main.go (command-line dispatch) and app/cmd/ai.go (a one-line wrapper) are not part of this model.
- `readEnv`, `loadDotEnv` and `findRepoRoot` of app/ai/ai.go are copies of env.go's functions. They are modelled once, in `Env`, and `Ai` uses them.

## Where the code and the design description differ

The model follows the code in each case.

- The design describes a singleton-replacement policy for the releases provider, a `Source` tag on entries and a merge layer for manual articles. None of these exists in the code. `Entry` has no source field (app/cmd/feed.go:25-32), and every provider goes through the same accumulate-and-skip-known-identity path (app/cmd/feed.go:107-113 and 144-168).
- The design takes the build date from the newest entry that survives the filter. The code takes it from the first sorted entry before filtering (app/cmd/feed.go:233-238). `Feed.CorruptNewestEntryHidesBuildDate` shows the difference.
- The iframe pattern is case-insensitive, but the `<iframe` test of `normalizeIframe` is case-sensitive. An upper-case `<IFRAME>` is therefore extracted without the forced width and height, as `WordPressTV.UpperCaseIframeIsNotNormalized` shows.
