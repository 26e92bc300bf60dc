/** scripts/check_wordpress.py: the Python version check. It records the
    latest WordPress version in `data/state.json` and appends an announcing
    entry to `data/entries.json`, writing both files only when the version
    is news. The HTTP request is replaced by its answer `latest` (None for
    a missing offer or version); the clock by the `iso_now()` string. */
module CheckWordPressScript {
  import opened Wrappers
  import opened BuildFeedScript

  const LatestKey := "wordpress_latest"

  /** The state object; a key mapped to None holds JSON `null`. */
  type State = map<string, Option<string>>

  /** `load_json(STATE_PATH, {"wordpress_latest": None})` of a missing file. */
  const DefaultState: State := map[LatestKey := None]

  /** `state.get("wordpress_latest")`: None for an absent key or `null`. */
  function StoredVersion(state: State): Option<string> {
    if LatestKey in state then state[LatestKey] else None
  }

  /** `not latest`: no version, or the empty string. */
  predicate Falsy(latest: Option<string>) {
    latest == None || latest == Some("")
  }

  /** The entry announcing `version`. */
  function VersionEntry(version: string, site: Site, createdAt: string): Entry {
    Entry(Some("wordpress-" + version), Some("WordPress " + version + " verfuegbar"),
          Some(site.link.GetOr("")), Some("Neue WordPress Version " + version + " wurde entdeckt."),
          Some(createdAt))
  }

  /** What `main` saves: nothing (None) when `latest` is falsy or already
      stored; otherwise the state recording it and the entries with the new
      one appended. */
  function Check(state: State, entries: seq<Entry>, site: Site, latest: Option<string>, now: string)
    : Option<(State, seq<Entry>)>
  {
    if Falsy(latest) then None
    else if StoredVersion(state) == latest then None
    else Some((state[LatestKey := latest], entries + [VersionEntry(latest.value, site, now)]))
  }

  /** The files are written exactly when `latest` is a non-empty version
      other than the stored one; then the state records it, its other keys
      are untouched, and exactly one entry is appended after the stored
      ones, with the fixed ID, title and content templates and the site's
      link. */
  lemma CheckWritesOnlyNews(state: State, entries: seq<Entry>, site: Site, latest: Option<string>, now: string)
    ensures Check(state, entries, site, latest, now).Some? <==> !Falsy(latest) && StoredVersion(state) != latest
    ensures Check(state, entries, site, latest, now).Some? ==>
      var (s, es) := Check(state, entries, site, latest, now).value;
      && StoredVersion(s) == latest
      && (forall k :: k != LatestKey ==> (k in s <==> k in state) && (k in s ==> s[k] == state[k]))
      && |es| == |entries| + 1 && es[..|entries|] == entries
      && es[|entries|].id == Some("wordpress-" + latest.value)
      && es[|entries|].title == Some("WordPress " + latest.value + " verfuegbar")
      && es[|entries|].content == Some("Neue WordPress Version " + latest.value + " wurde entdeckt.")
      && es[|entries|].link == Some(site.link.GetOr(""))
      && es[|entries|].createdAt == Some(now)
  {
    if Check(state, entries, site, latest, now).Some? {
      var (s, es) := Check(state, entries, site, latest, now).value;
      assert es[..|entries|] == entries;
    }
  }

  /** A second run with the same answer, at any later time, writes nothing. */
  lemma CheckIdempotent(state: State, entries: seq<Entry>, site: Site, latest: Option<string>, t1: string, t2: string)
    requires Check(state, entries, site, latest, t1).Some?
    ensures var (s, es) := Check(state, entries, site, latest, t1).value;
      Check(s, es, site, latest, t2).None?
  {
  }

  /** The files the script reads and writes, by their decoded contents (None
      when missing). */
  class DataDir {
    var stateFile: Option<State>
    var entriesFile: Option<seq<Entry>>
    var siteFile: Option<Site>

    constructor (stateFile: Option<State>, entriesFile: Option<seq<Entry>>, siteFile: Option<Site>)
      ensures this.stateFile == stateFile && this.entriesFile == entriesFile && this.siteFile == siteFile
    {
      this.stateFile, this.entriesFile, this.siteFile := stateFile, entriesFile, siteFile;
    }

    /** `main`. */
    method Run(latest: Option<string>, now: string)
      modifies this
      ensures siteFile == old(siteFile)
      ensures match Check(old(stateFile).GetOr(DefaultState), old(entriesFile).GetOr([]),
                          old(siteFile).GetOr(EmptySite), latest, now)
              case None => stateFile == old(stateFile) && entriesFile == old(entriesFile)
              case Some((s, es)) => stateFile == Some(s) && entriesFile == Some(es)
    {
      var state := stateFile.GetOr(DefaultState);
      var entries := entriesFile.GetOr([]);
      var site := siteFile.GetOr(EmptySite);
      if latest == None || latest == Some("") {
        return;
      }
      if StoredVersion(state) == latest {
        return;
      }
      state := state[LatestKey := latest];
      var entry := Entry(Some("wordpress-" + latest.value), Some("WordPress " + latest.value + " verfuegbar"),
                         Some(site.link.GetOr("")), Some("Neue WordPress Version " + latest.value + " wurde entdeckt."),
                         Some(now));
      entries := entries + [entry];
      stateFile := Some(state);
      entriesFile := Some(entries);
    }
  }
}
