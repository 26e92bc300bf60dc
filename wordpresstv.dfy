/** The iframe helpers of app/feed/wordpresstv.go: `extractFirstIframe`
    picks the first `<iframe …>…</iframe>` of an item's HTML and
    `normalizeIframe` forces `width="100%"` and `height="auto"` on its open
    tag through `setAttr`. The three regular expressions are written out as
    the matchers they denote under Go's RE2 semantics (leftmost match,
    `(?i)` folding ASCII letters, `\s` being `[\t\n\f\r ]`, `\b` a word
    boundary). */
module WordPressTV {
  import opened Wrappers
  import opened Text

  // ---------------------------------------------------------------------------
  // Character classes and case-insensitive literals

  /** RE2's `\s`. */
  predicate IsRegexSpace(c: char) {
    c == '\t' || c == '\n' || c == '\U{C}' || c == '\r' || c == ' '
  }

  /** RE2's `\w`, whose edges `\b` detects. */
  predicate IsWordChar(c: char) {
    ('0' <= c <= '9') || ('A' <= c <= 'Z') || ('a' <= c <= 'z') || c == '_'
  }

  /** The lower-case literal `lit` occurs at `i`, ignoring the case of letters. */
  predicate FoldsAt(s: string, i: int, lit: string) {
    0 <= i && i + |lit| <= |s| && ToLower(s[i..i + |lit|]) == lit
  }

  /** The first position at or after `from` where `lit` occurs ignoring case,
      or -1. */
  function IndexFoldFrom(s: string, lit: string, from: nat): (r: int)
    requires lit != []
    ensures r == -1 || (from <= r && FoldsAt(s, r, lit))
    ensures forall k :: from <= k && (r == -1 || k < r) ==> !FoldsAt(s, k, lit)
    decreases |s| - from
  {
    if from + |lit| > |s| then -1
    else if FoldsAt(s, from, lit) then from
    else IndexFoldFrom(s, lit, from + 1)
  }

  // ---------------------------------------------------------------------------
  // `(?is)<iframe\b[^>]*>.*?</iframe>`

  /** The position of the first `>` at or after `j`, or -1: where the
      `[^>]*>` of the pattern stops. */
  function TagCloseFrom(s: string, j: nat): (r: int)
    requires j <= |s|
    ensures r == -1 <==> '>' !in s[j..]
    ensures r >= 0 ==> j <= r < |s| && s[r] == '>' && '>' !in s[j..r]
  {
    var k := IndexOf(s[j..], '>');
    if k < 0 then -1
    else
      assert s[j..j + k] == s[j..][..k];
      j + k
  }

  /** The end of the iframe match starting at `i`, if one starts there. */
  function IframeAt(s: string, i: nat): (r: Option<nat>)
    ensures r.Some? ==> i < r.value <= |s|
  {
    if !FoldsAt(s, i, "<iframe") || (i + 7 < |s| && IsWordChar(s[i + 7])) then None
    else
      var g := TagCloseFrom(s, i + 7);
      if g < 0 then None
      else
        var k := IndexFoldFrom(s, "</iframe>", g + 1);
        if k < 0 then None else Some(k + 9)
  }

  /** A match at `i` is the name `<iframe` at a word boundary, the rest of
      the open tag up to its first `>`, then everything up to the first
      `</iframe>` after it (the lazy `.*?`), ignoring case; without a match
      one of these parts is missing. */
  lemma IframeAtShape(s: string, i: nat)
    ensures var r := IframeAt(s, i);
      r.Some? ==> FoldsAt(s, i, "<iframe") && (i + 7 < |s| ==> !IsWordChar(s[i + 7]))
    ensures var r := IframeAt(s, i);
      r.Some? ==> var g := TagCloseFrom(s, i + 7);
        i + 7 <= g && g + 10 <= r.value && FoldsAt(s, r.value - 9, "</iframe>")
        && forall k :: g < k < r.value - 9 ==> !FoldsAt(s, k, "</iframe>")
    ensures IframeAt(s, i).None? ==>
      || !FoldsAt(s, i, "<iframe")
      || (i + 7 < |s| && IsWordChar(s[i + 7]))
      || TagCloseFrom(s, i + 7) < 0
      || forall k :: TagCloseFrom(s, i + 7) < k ==> !FoldsAt(s, k, "</iframe>")
  {
  }

  /** The leftmost iframe match at or after `from`, or "" (`FindString`). */
  function FindIframeFrom(s: string, from: nat): (r: string)
    decreases |s| - from
  {
    if from >= |s| then ""
    else
      match IframeAt(s, from)
      case Some(e) => s[from..e]
      case None => FindIframeFrom(s, from + 1)
  }

  function FindIframe(s: string): string {
    FindIframeFrom(s, 0)
  }

  /** `r` starts with `<iframe`, holds a `>` and ends with `</iframe>`,
      ignoring case. */
  predicate IframeShaped(r: string) {
    FoldsAt(r, 0, "<iframe") && FoldsAt(r, |r| - 9, "</iframe>") && '>' in r
  }

  /** The piece matched at `i` has the shape of an iframe element. */
  lemma IframeMatchShape(s: string, i: nat)
    requires IframeAt(s, i).Some?
    ensures IframeShaped(s[i..IframeAt(s, i).value])
  {
    var e := IframeAt(s, i).value;
    var r := s[i..e];
    var g := TagCloseFrom(s, i + 7);
    IframeAtShape(s, i);
    assert r[..7] == s[i..i + 7];
    assert r[|r| - 9..] == s[e - 9..e];
    assert r[g - i] == s[g];
  }

  /** A match is an element from its open tag to its closing tag: it starts
      with `<iframe` and ends with `</iframe>`, ignoring case, and it is a
      piece of the input. */
  lemma {:induction false} FoundIframeShape(s: string, from: nat)
    requires FindIframeFrom(s, from) != ""
    ensures IframeShaped(FindIframeFrom(s, from)) && Contains(s, FindIframeFrom(s, from))
    decreases |s| - from
  {
    if IframeAt(s, from).Some? {
      var e := IframeAt(s, from).value;
      assert FindIframeFrom(s, from) == s[from..e];
      IframeMatchShape(s, from);
      SliceIsContained(s, from, e);
    } else {
      assert FindIframeFrom(s, from) == FindIframeFrom(s, from + 1);
      FoundIframeShape(s, from + 1);
    }
  }

  /** `FindString` returns "" exactly when no position at or after `from`
      matches, and otherwise the match at the leftmost such position. */
  lemma FindIframeIsLeftmost(s: string, from: nat)
    ensures FindIframeFrom(s, from) == "" <==> forall i :: from <= i < |s| ==> IframeAt(s, i).None?
    ensures FindIframeFrom(s, from) != "" ==>
      exists i :: from <= i < |s| && IframeAt(s, i).Some?
        && (forall k :: from <= k < i ==> IframeAt(s, k).None?)
        && FindIframeFrom(s, from) == s[i..IframeAt(s, i).value]
  {
    if FindIframeFrom(s, from) != "" {
      var i := FindIframeLeftmostAt(s, from);
    } else if exists j :: from <= j < |s| && IframeAt(s, j).Some? {
      var j :| from <= j < |s| && IframeAt(s, j).Some?;
      FindIframePresent(s, from, j);
    }
  }

  /** The leftmost match at or after `from`, as a position. */
  lemma FindIframeLeftmostAt(s: string, from: nat) returns (i: nat)
    requires FindIframeFrom(s, from) != ""
    ensures from <= i < |s| && IframeAt(s, i).Some?
    ensures forall k :: from <= k < i ==> IframeAt(s, k).None?
    ensures FindIframeFrom(s, from) == s[i..IframeAt(s, i).value]
  {
    forall k: nat | from <= k < |s| && IframeAt(s, k).None?
      ensures FindIframeFrom(s, k) == FindIframeFrom(s, k + 1)
    {
    }
    assert FindIframeFrom(s, |s|) == "";
    var hit := (k: nat) => IframeAt(s, k).Some?;
    i := FirstHit(|s|, (k: nat) => FindIframeFrom(s, k), hit, from);
    forall k: nat | from <= k < i
      ensures IframeAt(s, k).None?
    {
      assert !hit(k);
    }
    assert FindIframeFrom(s, i) == s[i..IframeAt(s, i).value];
  }

  /** A search that moves on from every position that is not a hit, and
      finds nothing at `n`, found something at `from` only through a first
      hit before `n`, and what it found there. */
  lemma {:induction false} FirstHit(n: nat, find: nat -> string, hit: nat -> bool, from: nat) returns (i: nat)
    requires from <= n && find(n) == "" && find(from) != ""
    requires forall k: nat :: from <= k < n && !hit(k) ==> find(k) == find(k + 1)
    ensures from <= i < n && hit(i) && find(i) == find(from)
    ensures forall k: nat :: from <= k < i ==> !hit(k)
    decreases n - from
  {
    if hit(from) {
      i := from;
    } else {
      i := FirstHit(n, find, hit, from + 1);
    }
  }

  /** A match at `j` makes the search from any earlier position find something. */
  lemma FindIframePresent(s: string, from: nat, j: nat)
    requires from <= j < |s| && IframeAt(s, j).Some?
    ensures FindIframeFrom(s, from) != ""
  {
    forall k: nat | from <= k < |s|
      ensures FindIframeFrom(s, k) == (if IframeAt(s, k).Some? then s[k..IframeAt(s, k).value] else FindIframeFrom(s, k + 1))
    {
    }
    forall k: nat | from <= k < |s| && IframeAt(s, k).Some?
      ensures FindIframeFrom(s, k) != ""
    {
      assert |s[k..IframeAt(s, k).value]| > 0;
    }
    var hit := (k: nat) => IframeAt(s, k).Some?;
    assert hit(j);
    HitIsFound(|s|, (k: nat) => FindIframeFrom(s, k), hit, from, j);
  }

  /** A search that moves on from every position that is not a hit, and
      finds something at every hit, finds something before a hit. */
  lemma {:induction false} HitIsFound(n: nat, find: nat -> string, hit: nat -> bool, from: nat, j: nat)
    requires from <= j < n && hit(j)
    requires forall k: nat :: from <= k < n && !hit(k) ==> find(k) == find(k + 1)
    requires forall k: nat :: from <= k < n && hit(k) ==> find(k) != ""
    ensures find(from) != ""
    decreases j - from
  {
    if !hit(from) {
      HitIsFound(n, find, hit, from + 1, j);
    }
  }

  // ---------------------------------------------------------------------------
  // `(?i)\sNAME\s*=\s*(?:"[^"]*"|'[^']*'|[^'"\s>]+)`

  /** The first position at or after `j` that is not white space. */
  function SkipSpaces(s: string, j: nat): (r: nat)
    ensures j <= r && (r <= |s| || r == j)
    ensures forall k :: j <= k < r ==> IsRegexSpace(s[k])
    ensures r < |s| ==> !IsRegexSpace(s[r])
    decreases |s| - j
  {
    if j < |s| && IsRegexSpace(s[j]) then SkipSpaces(s, j + 1) else j
  }

  /** A character of an unquoted value: `[^'"\s>]`. */
  predicate IsBare(c: char) {
    c != '\'' && c != '"' && !IsRegexSpace(c) && c != '>'
  }

  /** The end of the longest run of bare characters starting at `j`. */
  function BareEnd(s: string, j: nat): (r: nat)
    ensures j <= r && (r <= |s| || r == j)
    ensures forall k :: j <= k < r ==> IsBare(s[k])
    ensures r < |s| ==> !IsBare(s[r])
    decreases |s| - j
  {
    if j < |s| && IsBare(s[j]) then BareEnd(s, j + 1) else j
  }

  /** The end of an attribute value starting at `j`: a double-quoted or
      single-quoted string up to its first closing quote, or a non-empty
      run of bare characters. */
  function ValueEnd(s: string, j: nat): (r: Option<nat>)
    ensures r.Some? ==> j < r.value <= |s|
    ensures r.Some? && s[j] != '"' && s[j] != '\'' ==> r.value == BareEnd(s, j)
  {
    if j >= |s| then None
    else if s[j] == '"' || s[j] == '\'' then
      var k := IndexOf(s[j + 1..], s[j]);
      if k < 0 then None else Some(j + 1 + k + 1)
    else if BareEnd(s, j) == j then None
    else Some(BareEnd(s, j))
  }

  /** A quoted value runs to the first closing quote of its kind; there is
      no value at the end of the text, at an unclosed quote, or at a
      character that neither opens a quote nor starts a bare run. */
  lemma ValueEndShape(s: string, j: nat)
    ensures var r := ValueEnd(s, j);
      r.Some? && (s[j] == '"' || s[j] == '\'') ==>
        j + 2 <= r.value && s[r.value - 1] == s[j] && s[j] !in s[j + 1..r.value - 1]
    ensures ValueEnd(s, j).None? <==>
      || j >= |s|
      || ((s[j] == '"' || s[j] == '\'') && s[j] !in s[j + 1..])
      || (s[j] != '"' && s[j] != '\'' && !IsBare(s[j]))
  {
    if j < |s| && (s[j] == '"' || s[j] == '\'') {
      var k := IndexOf(s[j + 1..], s[j]);
      if k >= 0 {
        assert s[j + 1..j + 1 + k] == s[j + 1..][..k];
      }
    }
  }

  /** The end of the attribute match starting at `i`, if one starts there:
      a white-space character, the name ignoring case, optional white space,
      `=`, optional white space and a value. Because each `\s*` is followed
      by a character white space cannot be, the match at a position is
      unique. */
  function AttrAt(s: string, i: nat, name: string): (r: Option<nat>)
    ensures r.Some? ==> i < r.value <= |s|
  {
    if i < |s| && IsRegexSpace(s[i]) && FoldsAt(s, i + 1, name) then
      var a := SkipSpaces(s, i + 1 + |name|);
      if a < |s| && s[a] == '=' then ValueEnd(s, SkipSpaces(s, a + 1)) else None
    else None
  }

  /** A match is a white-space character, the name ignoring case, `=` after
      optional white space, and a value after optional white space. */
  lemma AttrAtShape(s: string, i: nat, name: string)
    requires AttrAt(s, i, name).Some?
    ensures i < |s| && IsRegexSpace(s[i]) && FoldsAt(s, i + 1, name)
    ensures var a := SkipSpaces(s, i + 1 + |name|);
      a < |s| && s[a] == '=' && AttrAt(s, i, name) == ValueEnd(s, SkipSpaces(s, a + 1))
  {
  }

  /** When the white space and the name are there but no match is, the `=`
      or the value is missing. */
  lemma AttrAtMissingPart(s: string, i: nat, name: string)
    requires i < |s| && IsRegexSpace(s[i]) && FoldsAt(s, i + 1, name)
    ensures AttrAt(s, i, name).None? ==>
      var a := SkipSpaces(s, i + 1 + |name|);
      a >= |s| || s[a] != '=' || ValueEnd(s, SkipSpaces(s, a + 1)).None?
  {
  }

  /** `pattern.MatchString(s)`. */
  predicate MatchesAttr(s: string, name: string) {
    exists i | 0 <= i < |s| :: AttrAt(s, i, name).Some?
  }

  /** `pattern.ReplaceAllString(s, repl)` from position `from`, for a
      replacement without `$`: each leftmost match is replaced and the
      search goes on after it. */
  function ReplaceAttrFrom(s: string, name: string, repl: string, from: nat): string
    decreases |s| - from
  {
    if from >= |s| then ""
    else
      match AttrAt(s, from, name)
      case Some(e) => repl + ReplaceAttrFrom(s, name, repl, e)
      case None => [s[from]] + ReplaceAttrFrom(s, name, repl, from + 1)
  }

  /** Where the pattern matches at or after `from`, the replacement shows up
      in the result: a match the scan skips lies inside one it replaced. */
  lemma {:induction false} ReplaceAttrContainsRepl(s: string, name: string, repl: string, from: nat, j: nat)
    requires from <= j < |s| && AttrAt(s, j, name).Some?
    ensures Contains(ReplaceAttrFrom(s, name, repl, from), repl)
    decreases |s| - from
  {
    match AttrAt(s, from, name)
    case Some(e) =>
      PrefixIsContained(repl, ReplaceAttrFrom(s, name, repl, e));
    case None =>
      ReplaceAttrContainsRepl(s, name, repl, from + 1, j);
      ContainedAfterPrepend([s[from]], ReplaceAttrFrom(s, name, repl, from + 1), repl);
  }

  /** With no match at or after `from`, the rest of the text is copied. */
  lemma {:induction false} ReplaceAttrNoMatch(s: string, name: string, repl: string, from: nat)
    requires from <= |s|
    requires forall k :: from <= k < |s| ==> AttrAt(s, k, name).None?
    ensures ReplaceAttrFrom(s, name, repl, from) == s[from..]
    decreases |s| - from
  {
    if from < |s| {
      ReplaceAttrNoMatch(s, name, repl, from + 1);
      assert s[from..] == [s[from]] + s[from + 1..];
    }
  }

  lemma ReplaceAttrSkip(s: string, name: string, repl: string, from: nat)
    requires from < |s| && AttrAt(s, from, name).None?
    ensures ReplaceAttrFrom(s, name, repl, from) == [s[from]] + ReplaceAttrFrom(s, name, repl, from + 1)
  {
  }

  lemma ReplaceAttrReplaces(s: string, name: string, repl: string, from: nat)
    requires from < |s| && AttrAt(s, from, name).Some?
    ensures ReplaceAttrFrom(s, name, repl, from) == repl + ReplaceAttrFrom(s, name, repl, AttrAt(s, from, name).value)
  {
  }

  /** A scan that copies position `k` and goes on at `k + 1`, for every `k`
      from `from` to `i`, copies the whole slice between them. */
  lemma {:induction false} CopyingScan(s: string, scan: nat -> string, from: nat, i: nat)
    requires from <= i <= |s|
    requires forall k: nat :: from <= k < i ==> scan(k) == [s[k]] + scan(k + 1)
    ensures scan(from) == s[from..i] + scan(i)
    decreases i - from
  {
    if from < i {
      CopyingScan(s, scan, from + 1, i);
      SliceFirstThen(s, from, i, scan(i));
    }
  }

  /** Each position where no match starts is copied on its own. */
  lemma ReplaceAttrSkipsEach(s: string, name: string, repl: string, from: nat, i: nat)
    requires i <= |s|
    requires forall k :: from <= k < i ==> AttrAt(s, k, name).None?
    ensures forall k: nat :: from <= k < i ==>
      ReplaceAttrFrom(s, name, repl, k) == [s[k]] + ReplaceAttrFrom(s, name, repl, k + 1)
  {
    forall k: nat | from <= k < i
      ensures ReplaceAttrFrom(s, name, repl, k) == [s[k]] + ReplaceAttrFrom(s, name, repl, k + 1)
    {
      ReplaceAttrSkip(s, name, repl, k);
    }
  }

  /** Positions where no match starts are copied one by one. */
  lemma ReplaceAttrCopies(s: string, name: string, repl: string, from: nat, i: nat)
    requires from <= i <= |s|
    requires forall k :: from <= k < i ==> AttrAt(s, k, name).None?
    ensures ReplaceAttrFrom(s, name, repl, from) == s[from..i] + ReplaceAttrFrom(s, name, repl, i)
  {
    ReplaceAttrSkipsEach(s, name, repl, from, i);
    CopyingScan(s, (k: nat) => ReplaceAttrFrom(s, name, repl, k), from, i);
  }

  /** The leftmost match at or after `from`, from `i` to `e`, is replaced by
      `repl`; the text before it is copied and the scan resumes at `e`. */
  lemma ReplaceAttrFirstMatch(s: string, name: string, repl: string, from: nat, i: nat)
    requires from <= i < |s| && AttrAt(s, i, name).Some?
    requires forall k :: from <= k < i ==> AttrAt(s, k, name).None?
    ensures ReplaceAttrFrom(s, name, repl, from)
      == s[from..i] + repl + ReplaceAttrFrom(s, name, repl, AttrAt(s, i, name).value)
  {
    ReplaceAttrCopies(s, name, repl, from, i);
    ReplaceAttrReplaces(s, name, repl, i);
  }

  // ---------------------------------------------------------------------------
  // setAttr, normalizeIframe, extractFirstIframe

  /** `fmt.Sprintf(" %s=\"%s\"", name, value)`. */
  function Attr(name: string, value: string): string {
    " " + name + "=\"" + value + "\""
  }

  /** `setAttr`: every matching attribute is replaced by `Attr(name, value)`;
      with no match the attribute is appended to the trimmed tag. */
  function SetAttr(openTag: string, name: string, value: string): string {
    var attr := Attr(name, value);
    if MatchesAttr(openTag, name) then ReplaceAttrFrom(openTag, name, attr, 0)
    else TrimSpace(openTag) + attr
  }

  /** Whichever branch is taken, the tag comes out carrying the attribute
      with the requested value. */
  lemma SetAttrAddsAttr(openTag: string, name: string, value: string)
    ensures Contains(SetAttr(openTag, name, value), Attr(name, value))
  {
    var attr := Attr(name, value);
    if MatchesAttr(openTag, name) {
      var i :| 0 <= i < |openTag| && AttrAt(openTag, i, name).Some?;
      ReplaceAttrContainsRepl(openTag, name, attr, 0, i);
    } else {
      var r := TrimSpace(openTag) + attr;
      assert r[|r| - |attr|..] == attr;
      SuffixIsContained(r, attr);
    }
  }

  /** A tag with one matching attribute, from `i` to its end, has exactly
      that attribute replaced and everything else kept. */
  lemma SetAttrReplacesOnlyMatch(openTag: string, name: string, value: string, i: nat)
    requires i < |openTag| && AttrAt(openTag, i, name).Some?
    requires forall k :: 0 <= k < |openTag| && k != i ==> AttrAt(openTag, k, name).None?
    ensures var e := AttrAt(openTag, i, name).value;
      SetAttr(openTag, name, value) == openTag[..i] + Attr(name, value) + openTag[e..]
  {
    var attr := Attr(name, value);
    var e := AttrAt(openTag, i, name).value;
    ReplaceAttrFirstMatch(openTag, name, attr, 0, i);
    ReplaceAttrNoMatch(openTag, name, attr, e);
  }

  /** Without a match the tag is trimmed and the attribute appended. */
  lemma SetAttrAppendsWithoutMatch(openTag: string, name: string, value: string)
    requires !MatchesAttr(openTag, name)
    ensures HasSuffix(SetAttr(openTag, name, value), Attr(name, value))
    ensures HasPrefix(SetAttr(openTag, name, value), TrimSpace(openTag))
  {
    var t := TrimSpace(openTag);
    var attr := Attr(name, value);
    assert (t + attr)[|t + attr| - |attr|..] == attr;
    assert (t + attr)[..|t|] == t;
  }

  /** `normalizeIframe`. */
  function NormalizeIframe(value: string): string {
    if value == "" then ""
    else
      var tagEnd := IndexOf(value, '>');
      if tagEnd == -1 then value
      else
        var openTag := value[..tagEnd];
        var rest := value[tagEnd..];
        if !HasSuffix(openTag, "<iframe") && !Contains(openTag, "<iframe") then value
        else SizedOpenTag(openTag) + rest
  }

  /** The open tag with `width="100%"` set first and `height="auto"` second. */
  function SizedOpenTag(openTag: string): string {
    var withWidth := SetAttr(openTag, "width", "100%");
    SetAttr(withWidth, "height", "auto")
  }

  /** A value without `>` is returned as it is (the empty value included). */
  lemma NormalizeWithoutTagEnd(value: string)
    requires '>' !in value
    ensures NormalizeIframe(value) == value
  {
  }

  /** The `HasSuffix` test of `normalizeIframe` adds nothing to its
      `Contains` test: an open tag is rewritten exactly when `<iframe`
      occurs in it, in lower case. Any other tag is returned as it is. */
  lemma NormalizeOnlyIframeTags(value: string)
    requires '>' in value
    ensures var openTag := value[..IndexOf(value, '>')];
      !Contains(openTag, "<iframe") ==> NormalizeIframe(value) == value
    ensures var openTag := value[..IndexOf(value, '>')];
      (!HasSuffix(openTag, "<iframe") && !Contains(openTag, "<iframe")) <==> !Contains(openTag, "<iframe")
  {
    var openTag := value[..IndexOf(value, '>')];
    if HasSuffix(openTag, "<iframe") {
      SuffixIsContained(openTag, "<iframe");
    }
  }

  /** Everything from the first `>` on is kept verbatim. */
  lemma NormalizeKeepsRest(value: string)
    requires '>' in value
    ensures var tagEnd := IndexOf(value, '>');
      HasSuffix(NormalizeIframe(value), value[tagEnd..])
  {
    var tagEnd := IndexOf(value, '>');
    var openTag, rest := value[..tagEnd], value[tagEnd..];
    if HasSuffix(openTag, "<iframe") || Contains(openTag, "<iframe") {
      NormalizeSizesTag(value);
      ConcatParts(SizedOpenTag(openTag), rest);
    } else {
      NormalizeOnlyIframeTags(value);
      SplitAt(value, tagEnd);
      ConcatParts(openTag, rest);
    }
  }

  /** An open tag that mentions `<iframe` is sized; the rest is kept. */
  lemma NormalizeSizesTag(value: string)
    requires '>' in value
    requires var openTag := value[..IndexOf(value, '>')];
      HasSuffix(openTag, "<iframe") || Contains(openTag, "<iframe")
    ensures var tagEnd := IndexOf(value, '>');
      NormalizeIframe(value) == SizedOpenTag(value[..tagEnd]) + value[tagEnd..]
  {
    assert value != "";
  }

  /** An open tag that mentions `<iframe` comes out carrying
      `height="auto"`, in front of the kept rest. */
  lemma NormalizeSetsHeight(value: string)
    requires '>' in value
    requires Contains(value[..IndexOf(value, '>')], "<iframe")
    ensures var tagEnd := IndexOf(value, '>');
      var r := NormalizeIframe(value);
      |value| - tagEnd <= |r| && Contains(r[..|r| - (|value| - tagEnd)], Attr("height", "auto"))
  {
    var tagEnd := IndexOf(value, '>');
    var tag := SizedOpenTag(value[..tagEnd]);
    NormalizeSizesTag(value);
    ConcatParts(tag, value[tagEnd..]);
    SetAttrAddsAttr(SetAttr(value[..tagEnd], "width", "100%"), "height", "auto");
  }

  /** The width is set before the height: the tag that the height step
      starts from carries `width="100%"`. */
  lemma NormalizeSetsWidthFirst(openTag: string)
    ensures Contains(SetAttr(openTag, "width", "100%"), Attr("width", "100%"))
  {
    SetAttrAddsAttr(openTag, "width", "100%");
  }

  /** `extractFirstIframe`. */
  function ExtractFirstIframe(value: string): string {
    var v := TrimSpace(value);
    if v == "" then "" else NormalizeIframe(TrimSpace(FindIframe(v)))
  }

  /** Blank HTML, or HTML where the pattern matches at no position, gives "". */
  lemma ExtractWithoutIframe(value: string)
    requires IsBlank(value) || forall i :: 0 <= i < |TrimSpace(value)| ==> IframeAt(TrimSpace(value), i).None?
    ensures ExtractFirstIframe(value) == ""
  {
    if !IsBlank(value) {
      FindIframeIsLeftmost(TrimSpace(value), 0);
      assert TrimSpace("") == "";
    }
  }

  /** An extracted element is the normalised form of a piece of the trimmed
      input that starts with `<iframe` and ends with `</iframe>`, ignoring
      case. */
  lemma ExtractedIsNormalizedMatch(value: string)
    requires FindIframe(TrimSpace(value)) != ""
    ensures var m := FindIframe(TrimSpace(value));
      && Contains(TrimSpace(value), m)
      && FoldsAt(m, 0, "<iframe") && FoldsAt(m, |m| - 9, "</iframe>")
      && ExtractFirstIframe(value) == NormalizeIframe(TrimSpace(m))
    ensures var t := FindIframe(TrimSpace(value)); var v := TrimSpace(value);
      exists i :: 0 <= i < |v| && IframeAt(v, i).Some?
        && (forall k :: 0 <= k < i ==> IframeAt(v, k).None?)
        && t == v[i..IframeAt(v, i).value]
  {
    FoundIframeShape(TrimSpace(value), 0);
    FindIframeIsLeftmost(TrimSpace(value), 0);
  }

  /** When the pattern matches somewhere in the trimmed HTML, something is
      extracted: the normalized leftmost match is never dropped. */
  lemma ExtractedWhenPresent(value: string, j: nat)
    requires j < |TrimSpace(value)| && IframeAt(TrimSpace(value), j).Some?
    ensures FindIframe(TrimSpace(value)) != ""
    ensures ExtractFirstIframe(value) == NormalizeIframe(TrimSpace(FindIframe(TrimSpace(value))))
  {
    FindIframeIsLeftmost(TrimSpace(value), 0);
  }

  /** The element is found whatever the case of its name, but the open tag
      is only rewritten when it spells `<iframe` in lower case: an upper-case
      element comes back without the forced size. */
  lemma UpperCaseIframeIsNotNormalized(s: string)
    requires s == "<IFRAME></IFRAME>"
    ensures FindIframe(s) == s
    ensures ExtractFirstIframe(s) == s
  {
    UpperCaseIframeIsTrimmed(s);
    UpperCaseIframeIsFound(s);
    UpperCaseIframeIsKept(s);
  }

  lemma UpperCaseIframeIsTrimmed(s: string)
    requires s == "<IFRAME></IFRAME>"
    ensures TrimSpace(s) == s
  {
    assert TrimLeftBy(s, IsSpace) == s;
    assert TrimRightBy(s, IsSpace) == s;
  }

  lemma UpperCaseIframeIsFound(s: string)
    requires s == "<IFRAME></IFRAME>"
    ensures FindIframe(s) == s
  {
    assert FoldsAt(s, 0, "<iframe") by {
      assert s[..7] == "<IFRAME";
      assert ToLower("<IFRAME") == "<iframe";
    }
    assert IndexOf(s[7..], '>') == 0 by {
      assert s[7..][0] == '>';
    }
    assert IndexFoldFrom(s, "</iframe>", 8) == 8 by {
      assert s[8..17] == "</IFRAME>";
      assert ToLower("</IFRAME>") == "</iframe>";
    }
  }

  lemma UpperCaseIframeIsKept(s: string)
    requires s == "<IFRAME></IFRAME>"
    ensures NormalizeIframe(s) == s
  {
    IndexOfIs(s, '>', 7);
    var t := s[..7];
    assert t == "<IFRAME";
    assert t[0..7] == t && t[1] == 'I' && "<iframe"[1] == 'i';
    assert !OccursAt(t, "<iframe", 0);
    NormalizeOnlyIframeTags(s);
  }

  lemma IndexOfIs(s: string, c: char, k: nat)
    requires k < |s| && s[k] == c && forall j | 0 <= j < k :: s[j] != c
    ensures IndexOf(s, c) == k
  {
  }
}
