/** The AI front door of app/ai/ai.go: how the prompt is built from a
    pattern and a text, and how `AI_PROVIDER` selects the back end. The
    Hugging Face client (app/ai/huggingface.go) is not part of this model; a
    call to it is the parameter `hf`. The file's `readEnv`, `loadDotEnv` and
    `findRepoRoot` are the same code as app/env/env.go and are modelled once,
    by `Env.Environment.ReadEnv`, `Env.Environment.LoadDotEnv` and
    `Env.FindRepoRoot`. */
module Ai {
  import opened Wrappers
  import opened Text
  import opened Env

  /** `buildPrompt`: the text alone for a blank pattern; the pattern with
      the text substituted when it contains `%s`; otherwise the trimmed
      pattern followed by the text. */
  function BuildPrompt(pattern: string, text: string): string {
    var p := TrimSpace(pattern);
    if p == "" then text
    else if Contains(p, "%s") then Sprintf1(p, text)
    else p + text
  }

  /** A blank pattern leaves the text as it is. */
  lemma BuildPromptBlankPattern(pattern: string, text: string)
    requires IsBlank(pattern)
    ensures BuildPrompt(pattern, text) == text
  {
  }

  /** A pattern with one `%s` and no other `%` gets the text in place of the
      `%s`. */
  lemma BuildPromptSubstitutes(pattern: string, before: string, after: string, text: string)
    requires TrimSpace(pattern) == before + "%s" + after
    requires '%' !in before && '%' !in after
    ensures BuildPrompt(pattern, text) == before + text + after
  {
    var p := TrimSpace(pattern);
    assert p[|before|..|before| + 2] == "%s";
    assert OccursAt(p, "%s", |before|);
    SprintfSingleDirective(before, after, text);
  }

  /** A pattern without `%s` is trimmed and the text appended. */
  lemma BuildPromptAppends(pattern: string, text: string)
    requires !IsBlank(pattern) && !Contains(TrimSpace(pattern), "%s")
    ensures BuildPrompt(pattern, text) == TrimSpace(pattern) + text
    ensures HasPrefix(BuildPrompt(pattern, text), TrimSpace(pattern))
  {
    var p := TrimSpace(pattern);
    assert (p + text)[..|p|] == p;
  }

  /** The provider name as `TransformText` compares it. */
  function NormalizedProvider(provider: string): string {
    ToLower(TrimSpace(provider))
  }

  /** The `switch` of `TransformText`: the Hugging Face back end for `""` and
      `huggingface`, an error naming the provider otherwise. */
  function Dispatch(provider: string, prompt: string, hf: string -> Result<string, string>): Result<string, string> {
    var p := NormalizedProvider(provider);
    if p == "" || p == "huggingface" then hf(prompt)
    else Err("unknown ai provider: " + p)
  }

  /** Upper case and surrounding white space in the provider name make no
      difference. */
  lemma DispatchIgnoresCaseAndSpace(provider1: string, provider2: string, prompt: string,
                                    hf: string -> Result<string, string>)
    requires NormalizedProvider(provider1) == NormalizedProvider(provider2)
    ensures Dispatch(provider1, prompt, hf) == Dispatch(provider2, prompt, hf)
  {
  }

  /** `HuggingFace` in any case, with any surrounding white space, reaches
      the Hugging Face back end with the prompt. */
  lemma DispatchHuggingFace(prompt: string, hf: string -> Result<string, string>)
    ensures Dispatch(" HuggingFace\n", prompt, hf) == hf(prompt)
  {
    var t := TrimSpace(" HuggingFace\n");
    assert t == "HuggingFace" by {
      assert IsSpace(' ') && IsSpace('\n') && !IsSpace('H') && !IsSpace('e');
      assert TrimLeftBy(" HuggingFace\n", IsSpace) == "HuggingFace\n" by {
        assert " HuggingFace\n"[1..] == "HuggingFace\n";
      }
      assert TrimRightBy("HuggingFace\n", IsSpace) == "HuggingFace" by {
        assert "HuggingFace\n"[..|"HuggingFace\n"| - 1] == "HuggingFace";
      }
    }
    assert ToLower(t) == "huggingface";
  }

  /** Any other provider is an error, whatever the back end would answer,
      so the back end is not consulted. */
  lemma DispatchUnknownProvider(provider: string, prompt: string,
                                hf1: string -> Result<string, string>, hf2: string -> Result<string, string>)
    requires NormalizedProvider(provider) != "" && NormalizedProvider(provider) != "huggingface"
    ensures Dispatch(provider, prompt, hf1) == Dispatch(provider, prompt, hf2)
         == Err("unknown ai provider: " + NormalizedProvider(provider))
  {
  }

  /** The environment after `getProvider` and the value it returns: the
      process variable when it is set and not blank, else the variable
      after loading `.env` (whose error is ignored). */
  function ProviderSetting(vars: map<string, string>, fs: FileSystem): (map<string, string>, string) {
    var direct := FirstSet(vars, ["AI_PROVIDER"]);
    if direct != "" then (vars, direct)
    else
      var loaded := DotEnv(vars, fs).vars;
      (loaded, FirstSet(loaded, ["AI_PROVIDER"]))
  }

  /** A blank `AI_PROVIDER` in the process environment counts as set for
      `loadDotEnv`, so `.env` cannot replace it and the default back end is
      chosen. */
  lemma BlankProviderShadowsDotEnv(vars: map<string, string>, fs: FileSystem)
    requires "AI_PROVIDER" in vars && IsBlank(vars["AI_PROVIDER"])
    ensures ProviderSetting(vars, fs).1 == ""
  {
    var loaded := DotEnv(vars, fs).vars;
    match fs.readFile(JoinPath(RepoRoot(fs), ".env"))
    case NotExist =>
    case ReadError(_) =>
    case Data(content) => LoadLinesNeverOverwrites(vars, ParseLines(Split(content, '\n')));
    assert loaded["AI_PROVIDER"] == vars["AI_PROVIDER"];
  }

  /** With `AI_PROVIDER` unset, the first `.env` line defining it decides,
      provided the lines up to and including that one load without error: a
      `Setenv` failure on a later line stops the loop only after the value
      is set, and `getProvider` ignores the error. */
  lemma DotEnvProviderIsUsed(vars: map<string, string>, fs: FileSystem, content: string, n: nat, value: string)
    requires "AI_PROVIDER" !in vars
    requires fs.readFile(JoinPath(RepoRoot(fs), ".env")) == Data(content)
    requires var lines := ParseLines(Split(content, '\n'));
      && n <= |lines|
      && FirstValue(lines[..n], "AI_PROVIDER") == Some(value)
      && LoadLines(vars, lines[..n]).err.None?
    ensures ProviderSetting(vars, fs).1 == TrimSpace(value)
  {
    var lines := ParseLines(Split(content, '\n'));
    LoadLinesFirstOccurrenceWins(vars, lines[..n], "AI_PROVIDER");
    LoadLinesPrefixKept(vars, lines, n, "AI_PROVIDER");
    var loaded := DotEnv(vars, fs).vars;
    assert loaded["AI_PROVIDER"] == value;
    assert FirstSet(vars, ["AI_PROVIDER"]) == "";
    if TrimSpace(value) == "" {
      assert FirstSet(loaded, ["AI_PROVIDER"]) == "";
    } else {
      assert FirstSet(loaded, ["AI_PROVIDER"]) == TrimSpace(value);
    }
  }

  /** A `.env` line that fails before any line defines `AI_PROVIDER` stops
      the loop with the variable unset, and the default back end is chosen. */
  lemma DotEnvErrorBeforeProvider(vars: map<string, string>, fs: FileSystem, content: string, n: nat)
    requires "AI_PROVIDER" !in vars
    requires fs.readFile(JoinPath(RepoRoot(fs), ".env")) == Data(content)
    requires var lines := ParseLines(Split(content, '\n'));
      && n <= |lines|
      && FirstValue(lines[..n], "AI_PROVIDER").None?
      && LoadLines(vars, lines[..n]).err.Some?
    ensures ProviderSetting(vars, fs).1 == ""
  {
    var lines := ParseLines(Split(content, '\n'));
    LoadLinesErrorStops(vars, lines, n);
    LoadLinesFirstOccurrenceWins(vars, lines[..n], "AI_PROVIDER");
    assert "AI_PROVIDER" !in DotEnv(vars, fs).vars;
  }

  /** `getProvider`. */
  method GetProvider(env: Environment, fs: FileSystem) returns (provider: string)
    modifies env
    ensures (env.vars, provider) == ProviderSetting(old(env.vars), fs)
  {
    var val := env.ReadEnv(["AI_PROVIDER"]);
    if val != "" {
      return val;
    }
    var _ := env.LoadDotEnv(fs);
    provider := env.ReadEnv(["AI_PROVIDER"]);
  }

  /** `TransformText`. */
  method TransformText(env: Environment, fs: FileSystem, hf: string -> Result<string, string>,
                       pattern: string, text: string)
    returns (r: Result<string, string>)
    modifies env
    ensures var (vars, provider) := ProviderSetting(old(env.vars), fs);
      env.vars == vars && r == Dispatch(provider, BuildPrompt(pattern, text), hf)
  {
    var prompt := BuildPrompt(pattern, text);
    var provider := GetProvider(env, fs);
    r := Dispatch(provider, prompt, hf);
  }
}
