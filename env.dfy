/** The environment helpers of app/env/env.go (copied verbatim as `readEnv`,
    `loadDotEnv` and `findRepoRoot` into app/ai/ai.go): the first non-blank
    variable of a list, the `.env` loader that never overwrites a variable,
    and the upward search for the directory holding `go.mod`. The process
    environment is a map owned by an `Environment` object; the file system
    is a value passed in. */
module Env {
  import opened Wrappers
  import opened Text

  // ---------------------------------------------------------------------------
  // Paths and the file system

  /** A cleaned path: `Absolute(["a", "b"])` is `/a/b`, `Absolute([])` is
      `/`, `Relative([])` is `.`. */
  datatype Path = Absolute(parts: seq<string>) | Relative(parts: seq<string>)

  /** `filepath.Join(dir, name)` for a single plain name. */
  function JoinPath(dir: Path, name: string): Path {
    dir.(parts := dir.parts + [name])
  }

  /** `filepath.Dir` of an absolute path: the parent, and `/` for `/`. */
  function Parent(dir: Path): (r: Path)
    requires dir.Absolute?
    ensures r.Absolute? && (r == dir <==> dir.parts == [])
    ensures dir.parts != [] ==> r.parts == dir.parts[..|dir.parts| - 1]
  {
    if dir.parts == [] then dir else Absolute(dir.parts[..|dir.parts| - 1])
  }

  /** The outcome of `os.ReadFile`. */
  datatype FileRead = NotExist | ReadError(message: string) | Data(content: string)

  /** What the helpers see of the file system: the working directory (None
      when `os.Getwd` fails; it is always absolute), whether `os.Stat` of a
      path succeeds, and the result of reading a file. */
  datatype FileSystem = FileSystem(cwd: Option<seq<string>>, statOk: Path -> bool,
                                   readFile: Path -> FileRead)

  /** `os.Stat(filepath.Join(dir, "go.mod"))` succeeds. */
  predicate HasGoMod(statOk: Path -> bool, dir: Path) {
    statOk(JoinPath(dir, "go.mod"))
  }

  // ---------------------------------------------------------------------------
  // FindRepoRoot

  /** The nearest directory from `dir` upwards that holds `go.mod`. */
  function NearestGoMod(dir: Path, statOk: Path -> bool): (r: Option<Path>)
    requires dir.Absolute?
    decreases |dir.parts|
  {
    if HasGoMod(statOk, dir) then Some(dir)
    else if Parent(dir) == dir then None
    else NearestGoMod(Parent(dir), statOk)
  }

  /** The result is an ancestor of `dir` (or `dir` itself) that holds
      `go.mod`, and no nearer ancestor holds one; None means no ancestor
      holds one. */
  lemma {:induction false} NearestGoModIsNearest(dir: Path, statOk: Path -> bool)
    requires dir.Absolute?
    ensures var r := NearestGoMod(dir, statOk);
      && (r.Some? ==>
            && r.value.Absolute? && HasGoMod(statOk, r.value)
            && |r.value.parts| <= |dir.parts| && dir.parts[..|r.value.parts|] == r.value.parts
            && forall n :: |r.value.parts| < n <= |dir.parts| ==> !HasGoMod(statOk, Absolute(dir.parts[..n])))
      && (r.None? ==> forall n :: 0 <= n <= |dir.parts| ==> !HasGoMod(statOk, Absolute(dir.parts[..n])))
    decreases |dir.parts|
  {
    assert dir == Absolute(dir.parts[..|dir.parts|]);
    if !HasGoMod(statOk, dir) && Parent(dir) != dir {
      var p := Parent(dir);
      NearestGoModIsNearest(p, statOk);
      forall n | 0 <= n <= |p.parts| ensures dir.parts[..n] == p.parts[..n] { }
    }
  }

  /** The directory `FindRepoRoot` returns: `.` when the working directory
      is unknown, else the nearest ancestor with `go.mod`, else the working
      directory itself. */
  function RepoRoot(fs: FileSystem): Path {
    match fs.cwd
    case None => Relative([])
    case Some(wd) =>
      match NearestGoMod(Absolute(wd), fs.statOk)
      case Some(root) => root
      case None => Absolute(wd)
  }

  /** `FindRepoRoot`. */
  method FindRepoRoot(fs: FileSystem) returns (root: Path)
    ensures root == RepoRoot(fs)
  {
    if fs.cwd.None? {
      return Relative([]);
    }
    var wd := Absolute(fs.cwd.value);
    var dir := wd;
    while true
      invariant dir.Absolute?
      invariant NearestGoMod(wd, fs.statOk) == NearestGoMod(dir, fs.statOk)
      decreases |dir.parts|
    {
      if fs.statOk(JoinPath(dir, "go.mod")) {
        return dir;
      }
      var parent := Parent(dir);
      if parent == dir {
        return wd;
      }
      dir := parent;
    }
  }

  // ---------------------------------------------------------------------------
  // The `.env` line parser

  /** One line of a `.env` file read as `KEY=VALUE`: the line is trimmed;
      blank lines, `#` comments and lines without `=` are skipped; the line
      is split at its first `=`; the key is trimmed, the value trimmed and
      stripped of `'` and `"` at both ends; an empty key or value skips the
      line. */
  function ParseLine(line: string): Option<(string, string)> {
    var l := TrimSpace(line);
    if l == "" || HasPrefix(l, "#") then None
    else
      match CutFirst(l, '=')
      case None => None
      case Some((before, after)) =>
        var key := TrimSpace(before);
        var val := TrimBy(TrimSpace(after), IsQuote);
        if key == "" || val == "" then None else Some((key, val))
  }

  /** The parser's rule stated by position: a line yields a pair exactly
      when its trimmed text is neither empty nor a comment, has an `=`, and
      both sides are non-empty after trimming; the pair is the text before
      the first `=` and the text after it. */
  lemma ParseLineSpec(line: string)
    ensures var l := TrimSpace(line);
      var i := IndexOf(l, '=');
      && (ParseLine(line).Some? <==>
            && l != "" && !HasPrefix(l, "#") && i >= 0
            && TrimSpace(l[..i]) != "" && TrimBy(TrimSpace(l[i + 1..]), IsQuote) != "")
      && (ParseLine(line).Some? ==>
            ParseLine(line).value == (TrimSpace(l[..i]), TrimBy(TrimSpace(l[i + 1..]), IsQuote)))
  {
    var l := TrimSpace(line);
    var i := IndexOf(l, '=');
    if i >= 0 {
      var (before, after) := CutFirst(l, '=').value;
      assert before == l[..i] && after == l[i + 1..] by {
        assert l == before + ['='] + after;
        assert l[|before|] == '=';
        assert i <= |before| && i >= |before|;
      }
    }
  }

  /** A parsed key never contains `=`, and neither key nor value starts or
      ends with white space (the value does not start or end with a quote). */
  lemma ParsedPairIsClean(line: string)
    requires ParseLine(line).Some?
    ensures var (key, val) := ParseLine(line).value;
      && '=' !in key
      && !IsSpace(key[0]) && !IsSpace(key[|key| - 1])
      && !IsQuote(val[0]) && !IsQuote(val[|val| - 1])
  {
    var l := TrimSpace(line);
    var i := IndexOf(l, '=');
    ParseLineSpec(line);
    var (key, val) := ParseLine(line).value;
    TrimSpaceSpec(l[..i]);
    TrimBySpec(TrimSpace(l[i + 1..]), IsQuote);
  }

  // ---------------------------------------------------------------------------
  // LoadDotEnv over a sequence of lines

  /** `os.Setenv` on Unix rejects a NUL in the key or the value (a key with
      `=` cannot come out of the parser). */
  predicate SetenvRejects(key: string, val: string) {
    '\0' in key || '\0' in val
  }

  const SetenvError: string := "setenv: invalid argument"

  /** The environment after some lines, and the error that stopped the loop. */
  datatype Loaded = Loaded(vars: map<string, string>, err: Option<string>)

  /** What the parser made of one line: a key-value pair, or None for a
      skipped line. */
  type Parsed = Option<(string, string)>

  /** The parser applied to every line of the file. */
  function ParseLines(lines: seq<string>): (r: seq<Parsed>) {
    seq(|lines|, i requires 0 <= i < |lines| => ParseLine(lines[i]))
  }

  /** One line of the loop: a parsed pair is set only when its key is not
      yet in the environment. */
  function LoadLine(vars: map<string, string>, parsed: Parsed): Loaded {
    match parsed
    case None => Loaded(vars, None)
    case Some((key, val)) =>
      if key in vars then Loaded(vars, None)
      else if SetenvRejects(key, val) then Loaded(vars, Some(SetenvError))
      else Loaded(vars[key := val], None)
  }

  /** The loop of `LoadDotEnv` over the parsed lines, stopping at the first
      error. */
  function LoadLines(vars: map<string, string>, lines: seq<Parsed>): Loaded
    decreases |lines|
  {
    if lines == [] then Loaded(vars, None)
    else
      var prev := LoadLines(vars, lines[..|lines| - 1]);
      if prev.err.Some? then prev else LoadLine(prev.vars, lines[|lines| - 1])
  }

  lemma LoadLinesStep(vars: map<string, string>, lines: seq<Parsed>, i: nat)
    requires i < |lines| && LoadLines(vars, lines[..i]).err.None?
    ensures LoadLines(vars, lines[..i + 1]) == LoadLine(LoadLines(vars, lines[..i]).vars, lines[i])
  {
    assert lines[..i + 1][..i] == lines[..i];
  }

  /** A variable that is already set is never overwritten. */
  lemma {:induction false} LoadLinesNeverOverwrites(vars: map<string, string>, lines: seq<Parsed>)
    ensures var r := LoadLines(vars, lines).vars;
      forall k :: k in vars ==> k in r && r[k] == vars[k]
    decreases |lines|
  {
    if lines != [] {
      LoadLinesNeverOverwrites(vars, lines[..|lines| - 1]);
    }
  }

  /** The value the first line defining `key` gives it. */
  function FirstValue(lines: seq<Parsed>, key: string): Option<string>
    decreases |lines|
  {
    if lines == [] then None
    else
      match FirstValue(lines[..|lines| - 1], key)
      case Some(v) => Some(v)
      case None =>
        match lines[|lines| - 1]
        case Some((k, v)) => if k == key then Some(v) else None
        case None => None
  }

  /** A variable that was not set is set only to the value of the first
      line defining it, and when the file loads without error every variable
      some line defines is set: the first occurrence wins. */
  lemma {:induction false} LoadLinesFirstOccurrenceWins(vars: map<string, string>, lines: seq<Parsed>, key: string)
    requires key !in vars
    ensures var r := LoadLines(vars, lines);
      && (key in r.vars ==> FirstValue(lines, key) == Some(r.vars[key]))
      && (r.err.None? && FirstValue(lines, key).Some? ==> key in r.vars)
    decreases |lines|
  {
    if lines != [] {
      var n := |lines| - 1;
      LoadLinesFirstOccurrenceWins(vars, lines[..n], key);
    }
  }

  /** What the first `n` lines set stays set, with the same value, whatever
      the later lines do: they never overwrite, and an error only stops the
      loop. */
  lemma {:induction false} LoadLinesPrefixKept(vars: map<string, string>, lines: seq<Parsed>, n: nat, key: string)
    requires n <= |lines| && key in LoadLines(vars, lines[..n]).vars
    ensures var r := LoadLines(vars, lines).vars;
      key in r && r[key] == LoadLines(vars, lines[..n]).vars[key]
    decreases |lines|
  {
    if n == |lines| {
      assert lines[..n] == lines;
    } else {
      var m := |lines| - 1;
      assert lines[..m][..n] == lines[..n];
      LoadLinesPrefixKept(vars, lines[..m], n, key);
    }
  }

  /** An error ends the loop: once the first `i` lines have failed, the
      remaining lines change nothing. */
  lemma LoadLinesErrorStops(vars: map<string, string>, lines: seq<Parsed>, i: nat)
    requires i <= |lines| && LoadLines(vars, lines[..i]).err.Some?
    ensures LoadLines(vars, lines) == LoadLines(vars, lines[..i])
  {
    var j := i;
    while j < |lines|
      invariant i <= j <= |lines|
      invariant LoadLines(vars, lines[..j]) == LoadLines(vars, lines[..i])
    {
      assert lines[..j + 1][..j] == lines[..j];
      j := j + 1;
    }
    assert lines[..j] == lines;
  }

  /** What `LoadDotEnv` does: a missing `.env` in the repository root is
      success and changes nothing; another read error is returned and
      changes nothing; otherwise the file's lines are loaded. */
  function DotEnv(vars: map<string, string>, fs: FileSystem): Loaded {
    match fs.readFile(JoinPath(RepoRoot(fs), ".env"))
    case NotExist => Loaded(vars, None)
    case ReadError(message) => Loaded(vars, Some(message))
    case Data(content) => LoadLines(vars, ParseLines(Split(content, '\n')))
  }

  /** Loading lines into an environment that already holds every key the
      lines define changes nothing. */
  lemma {:induction false} LoadLinesAgain(loaded: map<string, string>, lines: seq<Parsed>)
    requires forall k :: FirstValue(lines, k).Some? ==> k in loaded
    ensures LoadLines(loaded, lines) == Loaded(loaded, None)
    decreases |lines|
  {
    if lines != [] {
      var n := |lines| - 1;
      forall k | FirstValue(lines[..n], k).Some? ensures k in loaded {
        assert FirstValue(lines, k).Some?;
      }
      LoadLinesAgain(loaded, lines[..n]);
      match lines[n]
      case None =>
      case Some((k, v)) => assert FirstValue(lines, k).Some?;
    }
  }

  /** Loading `.env` twice is loading it once: the second pass finds every
      key it could set already set. */
  lemma DotEnvIdempotent(vars: map<string, string>, fs: FileSystem)
    requires DotEnv(vars, fs).err.None?
    ensures DotEnv(DotEnv(vars, fs).vars, fs) == DotEnv(vars, fs)
  {
    match fs.readFile(JoinPath(RepoRoot(fs), ".env"))
    case NotExist =>
    case ReadError(_) =>
    case Data(content) =>
      var lines := ParseLines(Split(content, '\n'));
      var loaded := LoadLines(vars, lines).vars;
      LoadLinesNeverOverwrites(vars, lines);
      forall k | FirstValue(lines, k).Some? ensures k in loaded {
        if k !in vars {
          LoadLinesFirstOccurrenceWins(vars, lines, k);
        }
      }
      LoadLinesAgain(loaded, lines);
  }

  // ---------------------------------------------------------------------------
  // The process environment

  /** A key counts as unset for `ReadEnv` when it is absent or blank. */
  predicate Unset(vars: map<string, string>, key: string) {
    key !in vars || IsBlank(vars[key])
  }

  /** The value `ReadEnv` returns. */
  function FirstSet(vars: map<string, string>, keys: seq<string>): (r: string)
    ensures r == "" <==> forall i :: 0 <= i < |keys| ==> Unset(vars, keys[i])
    decreases |keys|
  {
    if keys == [] then ""
    else if !Unset(vars, keys[0]) then TrimSpace(vars[keys[0]])
    else
      assert forall i :: 1 <= i < |keys| ==> keys[i] == keys[1..][i - 1];
      FirstSet(vars, keys[1..])
  }

  /** A non-empty result is the trimmed value of the first key that is set
      and not blank. */
  lemma {:induction false} FirstSetIsFirst(vars: map<string, string>, keys: seq<string>)
    requires FirstSet(vars, keys) != ""
    ensures exists i :: (0 <= i < |keys| && !Unset(vars, keys[i])
      && FirstSet(vars, keys) == TrimSpace(vars[keys[i]])
      && forall j :: 0 <= j < i ==> Unset(vars, keys[j]))
    decreases |keys|
  {
    if Unset(vars, keys[0]) {
      FirstSetIsFirst(vars, keys[1..]);
      var i :| 0 <= i < |keys[1..]| && !Unset(vars, keys[1..][i])
        && FirstSet(vars, keys[1..]) == TrimSpace(vars[keys[1..][i]])
        && forall j :: 0 <= j < i ==> Unset(vars, keys[1..][j]);
      assert keys[i + 1] == keys[1..][i];
      forall j | 0 <= j < i + 1 ensures Unset(vars, keys[j]) {
        if j > 0 { assert keys[j] == keys[1..][j - 1]; }
      }
    } else {
      assert !Unset(vars, keys[0]);
    }
  }

  /** The process environment (`os.LookupEnv` / `os.Setenv`). */
  class Environment {
    var vars: map<string, string>

    constructor (vars: map<string, string>)
      ensures this.vars == vars
    {
      this.vars := vars;
    }

    /** `ReadEnv`: the trimmed value of the first key that is set and not
        blank, else "". */
    method ReadEnv(keys: seq<string>) returns (r: string)
      ensures r == FirstSet(vars, keys)
    {
      for i := 0 to |keys|
        invariant FirstSet(vars, keys) == FirstSet(vars, keys[i..])
      {
        assert keys[i..][1..] == keys[i + 1..];
        if keys[i] in vars && TrimSpace(vars[keys[i]]) != "" {
          return TrimSpace(vars[keys[i]]);
        }
      }
      return "";
    }

    /** `LoadDotEnv`. */
    method LoadDotEnv(fs: FileSystem) returns (err: Option<string>)
      modifies this
      ensures Loaded(vars, err) == DotEnv(old(vars), fs)
    {
      var root := FindRepoRoot(fs);
      var envPath := JoinPath(root, ".env");
      var data := fs.readFile(envPath);
      if data.NotExist? {
        return None;
      }
      if data.ReadError? {
        return Some(data.message);
      }
      err := SetLines(Split(data.content, '\n'));
    }

    /** The line loop of `LoadDotEnv`: each parsed pair whose key is unset
        is passed to `os.Setenv`; the first failure ends the loop. */
    method SetLines(lines: seq<string>) returns (err: Option<string>)
      modifies this
      ensures Loaded(vars, err) == LoadLines(old(vars), ParseLines(lines))
    {
      ghost var parsed := ParseLines(lines);
      for i := 0 to |lines|
        invariant LoadLines(old(vars), parsed[..i]) == Loaded(vars, None)
      {
        LoadLinesStep(old(vars), parsed, i);
        err := SetLine(lines[i]);
        if err.Some? {
          LoadLinesErrorStops(old(vars), parsed, i + 1);
          return;
        }
      }
      assert parsed[..|lines|] == parsed;
      return None;
    }

    /** One pass of the line loop: a parsed pair whose key is unset is
        passed to `os.Setenv`. */
    method SetLine(line: string) returns (err: Option<string>)
      modifies this
      ensures Loaded(vars, err) == LoadLine(old(vars), ParseLine(line))
    {
      var parsed := ParseLine(line);
      if parsed.None? {
        return None;
      }
      var (key, val) := parsed.value;
      if key !in vars {
        if SetenvRejects(key, val) {
          return Some(SetenvError);
        }
        vars := vars[key := val];
      }
      return None;
    }
  }
}
