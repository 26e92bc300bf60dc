/** The string primitives the Go code and the Python scripts call
    (`strings.TrimSpace`, `strings.Trim`, `strings.Index`, `strings.Split`,
    `strings.SplitN(_, _, 2)`, `strings.HasPrefix`/`HasSuffix`/`Contains`,
    the `>` operator on strings, `fmt.Sprintf` with one `%s` argument,
    Python's `str.replace`). Strings are sequences of Unicode scalar values. */
module Text {
  import opened Wrappers

  // ---------------------------------------------------------------------------
  // Trimming

  /** Go's `unicode.IsSpace`: the characters `strings.TrimSpace` removes. */
  predicate IsSpace(c: char) {
    || c == ' ' || c == '\t' || c == '\n' || c == '\U{B}' || c == '\U{C}' || c == '\r'
    || c == '\U{85}' || c == '\U{A0}' || c == '\U{1680}'
    || ('\U{2000}' <= c <= '\U{200A}')
    || c == '\U{2028}' || c == '\U{2029}' || c == '\U{202F}' || c == '\U{205F}' || c == '\U{3000}'
  }

  /** Drops the longest prefix whose characters all satisfy `drop`. */
  function TrimLeftBy(s: string, drop: char -> bool): (r: string)
    ensures |r| <= |s|
    decreases |s|
  {
    if s != [] && drop(s[0]) then TrimLeftBy(s[1..], drop) else s
  }

  /** The result is a suffix of the input that does not start with a
      dropped character, and everything cut off is dropped. */
  lemma {:induction false} TrimLeftBySpec(s: string, drop: char -> bool)
    ensures var r := TrimLeftBy(s, drop);
      && r == s[|s| - |r|..]
      && (r == [] || !drop(r[0]))
      && (forall k :: 0 <= k < |s| - |r| ==> drop(s[k]))
    decreases |s|
  {
    if s != [] && drop(s[0]) {
      TrimLeftBySpec(s[1..], drop);
    }
  }

  /** Drops the longest suffix whose characters all satisfy `drop`. */
  function TrimRightBy(s: string, drop: char -> bool): (r: string)
    ensures |r| <= |s|
    decreases |s|
  {
    if s != [] && drop(s[|s| - 1]) then TrimRightBy(s[..|s| - 1], drop) else s
  }

  /** The result is a prefix of the input that does not end with a
      dropped character, and everything cut off is dropped. */
  lemma {:induction false} TrimRightBySpec(s: string, drop: char -> bool)
    ensures var r := TrimRightBy(s, drop);
      && r == s[..|r|]
      && (r == [] || !drop(r[|r| - 1]))
      && (forall k :: |r| <= k < |s| ==> drop(s[k]))
    decreases |s|
  {
    if s != [] && drop(s[|s| - 1]) {
      TrimRightBySpec(s[..|s| - 1], drop);
    }
  }

  /** Go's `strings.Trim` / `strings.TrimFunc`: strips both ends. */
  function TrimBy(s: string, drop: char -> bool): (r: string)
    ensures |r| <= |s|
  {
    TrimRightBy(TrimLeftBy(s, drop), drop)
  }

  /** The trimmed string is a piece of the input with no dropped character
      at either end, and it is empty exactly when every character is
      dropped. */
  lemma TrimBySpec(s: string, drop: char -> bool)
    ensures var r := TrimBy(s, drop);
      && Contains(s, r)
      && (r == [] || (!drop(r[0]) && !drop(r[|r| - 1])))
      && (r == [] <==> forall k :: 0 <= k < |s| ==> drop(s[k]))
  {
    var l := TrimLeftBy(s, drop);
    TrimLeftBySpec(s, drop);
    TrimRightBySpec(l, drop);
    var r := TrimBy(s, drop);
    var i := |s| - |l|;
    assert s[i..i + |r|] == l[..|r|] == r;
    assert OccursAt(s, r, i);
    assert r != [] ==> r[0] == l[0];
    if r == [] {
      assert l == [];
      forall k | 0 <= k < |s| ensures drop(s[k]) { }
    }
  }

  /** Trimming twice is trimming once. */
  lemma TrimByIdempotent(s: string, drop: char -> bool)
    ensures TrimBy(TrimBy(s, drop), drop) == TrimBy(s, drop)
  {
    var r := TrimBy(s, drop);
    TrimBySpec(s, drop);
    if r != [] {
      assert TrimLeftBy(r, drop) == r;
      assert TrimRightBy(r, drop) == r;
    }
  }

  /** Go's `strings.TrimSpace`. */
  function TrimSpace(s: string): (r: string)
    ensures |r| <= |s|
  {
    TrimBy(s, IsSpace)
  }

  /** What `strings.TrimSpace` promises: a piece of the input with no white
      space at either end, empty exactly when the input is all white space. */
  lemma TrimSpaceSpec(s: string)
    ensures var r := TrimSpace(s);
      && Contains(s, r)
      && (r == [] || (!IsSpace(r[0]) && !IsSpace(r[|r| - 1])))
      && (r == [] <==> forall k :: 0 <= k < |s| ==> IsSpace(s[k]))
  {
    TrimBySpec(s, IsSpace);
  }

  /** A string is blank when nothing is left after trimming. */
  predicate IsBlank(s: string) {
    TrimSpace(s) == []
  }

  lemma TrimSpaceIdempotent(s: string)
    ensures TrimSpace(TrimSpace(s)) == TrimSpace(s)
  {
    TrimByIdempotent(s, IsSpace);
  }

  /** The quote characters `strings.Trim(_, "\"'")` removes. */
  predicate IsQuote(c: char) {
    c == '"' || c == '\''
  }

  // ---------------------------------------------------------------------------
  // Searching

  predicate HasPrefix(s: string, p: string) {
    |p| <= |s| && s[..|p|] == p
  }

  predicate HasSuffix(s: string, p: string) {
    |p| <= |s| && s[|s| - |p|..] == p
  }

  /** Go's `strings.Contains`. */
  predicate Contains(s: string, sub: string) {
    exists i | 0 <= i <= |s| - |sub| :: OccursAt(s, sub, i)
  }

  predicate OccursAt(s: string, sub: string, i: int) {
    0 <= i <= |s| - |sub| && s[i..i + |sub|] == sub
  }

  lemma SuffixIsContained(s: string, p: string)
    requires HasSuffix(s, p)
    ensures Contains(s, p)
  {
    var i := |s| - |p|;
    assert s[i..i + |p|] == s[i..] == p;
    assert OccursAt(s, p, i);
  }

  /** Concatenation is associative. */
  lemma ConcatAssoc(a: string, b: string, c: string)
    ensures a + (b + c) == (a + b) + c
  {
  }

  /** A string is its part before `k` followed by its part from `k` on. */
  lemma SplitAt(s: string, k: nat)
    requires k <= |s|
    ensures s == s[..k] + s[k..]
  {
  }

  /** A concatenation ends with its second part and starts with its first. */
  lemma ConcatParts(a: string, b: string)
    ensures HasSuffix(a + b, b) && (a + b)[..|a|] == a
  {
    assert (a + b)[|a|..] == b;
  }

  /** A string contains what it starts with. */
  lemma PrefixIsContained(sub: string, rest: string)
    ensures Contains(sub + rest, sub)
  {
    assert (sub + rest)[..|sub|] == sub;
    assert OccursAt(sub + rest, sub, 0);
  }

  /** A non-empty slice is its first character followed by the rest. */
  lemma SliceFirstThen(s: string, i: nat, j: nat, tail: string)
    requires i < j <= |s|
    ensures [s[i]] + (s[i + 1..j] + tail) == s[i..j] + tail
  {
    assert s[i..j] == [s[i]] + s[i + 1..j];
  }

  /** A string contains each of its slices. */
  lemma SliceIsContained(s: string, i: nat, j: nat)
    requires i <= j <= |s|
    ensures Contains(s, s[i..j])
  {
    assert OccursAt(s, s[i..j], i);
  }

  /** Putting text in front keeps an occurrence. */
  lemma ContainedAfterPrepend(front: string, s: string, sub: string)
    requires Contains(s, sub)
    ensures Contains(front + s, sub)
  {
    var p :| 0 <= p <= |s| - |sub| && OccursAt(s, sub, p);
    assert (front + s)[|front| + p..|front| + p + |sub|] == s[p..p + |sub|];
    assert OccursAt(front + s, sub, |front| + p);
  }

  /** Go's `strings.Index` for a one-character needle: -1 when absent. */
  function IndexOf(s: string, c: char): (r: int)
    ensures -1 <= r < |s|
    ensures r == -1 <==> c !in s
    ensures r >= 0 ==> s[r] == c && c !in s[..r]
  {
    if s == [] then -1
    else if s[0] == c then 0
    else
      var k := IndexOf(s[1..], c);
      assert s[1..] == s[1..|s|];
      if k == -1 then -1
      else
        assert s[..k + 1] == [s[0]] + s[1..][..k];
        k + 1
  }

  // ---------------------------------------------------------------------------
  // Splitting

  /** The inverse of Split: the parts with `c` between consecutive ones. */
  function Join(parts: seq<string>, c: char): string {
    if |parts| == 0 then []
    else if |parts| == 1 then parts[0]
    else parts[0] + [c] + Join(parts[1..], c)
  }

  /** Go's `strings.Split(s, sep)` for a one-character separator: one part
      more than there are separators, the empty string giving `[""]`. */
  function Split(s: string, c: char): (r: seq<string>)
    ensures |r| >= 1
    ensures forall i :: 0 <= i < |r| ==> c !in r[i]
    ensures Join(r, c) == s
    decreases |s|
  {
    var k := IndexOf(s, c);
    if k == -1 then [s]
    else
      var rest := Split(s[k + 1..], c);
      var r := [s[..k]] + rest;
      assert r[1..] == rest && c !in r[0];
      assert forall i :: 1 <= i < |r| ==> r[i] == rest[i - 1];
      assert s == s[..k] + [c] + s[k + 1..];
      r
  }

  /** Splitting a join of separator-free parts gives the parts back. */
  lemma {:induction false} SplitJoin(parts: seq<string>, c: char)
    requires |parts| >= 1
    requires forall i :: 0 <= i < |parts| ==> c !in parts[i]
    ensures Split(Join(parts, c), c) == parts
    decreases |parts|
  {
    if |parts| == 1 {
      assert IndexOf(parts[0], c) == -1;
    } else {
      var s := Join(parts, c);
      var tail := Join(parts[1..], c);
      assert s == parts[0] + [c] + tail;
      var k := |parts[0]|;
      assert s[..k] == parts[0];
      assert s[k] == c;
      assert c !in s[..k];
      assert IndexOf(s, c) == k;
      assert s[k + 1..] == tail;
      SplitJoin(parts[1..], c);
    }
  }

  /** Go's `strings.SplitN(s, sep, 2)` read as "two parts or none": the text
      before and after the first `c`, or None when `c` does not occur. */
  function CutFirst(s: string, c: char): (r: Option<(string, string)>)
    ensures r.None? <==> c !in s
    ensures r.Some? ==> s == r.value.0 + [c] + r.value.1 && c !in r.value.0
  {
    var k := IndexOf(s, c);
    if k == -1 then None
    else
      assert s == s[..k] + [c] + s[k + 1..];
      Some((s[..k], s[k + 1..]))
  }

  // ---------------------------------------------------------------------------
  // Ordering

  /** Lexicographic order by code point: Go's `<` on strings (which compares
      UTF-8 bytes, an order-preserving encoding of code points) and Python's
      `<` on `str`. Dafny's own `<` on sequences is the proper-prefix order. */
  predicate StrLess(a: string, b: string)
    decreases |a|
  {
    if a == [] then b != []
    else if b == [] then false
    else if a[0] != b[0] then a[0] < b[0]
    else StrLess(a[1..], b[1..])
  }

  lemma {:induction false} StrLessIrreflexive(a: string)
    ensures !StrLess(a, a)
    decreases |a|
  {
    if a != [] { StrLessIrreflexive(a[1..]); }
  }

  lemma {:induction false} StrLessTransitive(a: string, b: string, c: string)
    requires StrLess(a, b) && StrLess(b, c)
    ensures StrLess(a, c)
    decreases |a|
  {
    if a != [] && b != [] && c != [] && a[0] == b[0] && b[0] == c[0] {
      StrLessTransitive(a[1..], b[1..], c[1..]);
    }
  }

  lemma {:induction false} StrLessTotal(a: string, b: string)
    ensures a == b || StrLess(a, b) || StrLess(b, a)
    decreases |a|
  {
    if a != [] && b != [] && a[0] == b[0] {
      StrLessTotal(a[1..], b[1..]);
      if a[1..] == b[1..] {
        assert a == [a[0]] + a[1..] && b == [b[0]] + b[1..];
      }
    }
  }

  lemma {:induction false} StrLessAsymmetric(a: string, b: string)
    requires StrLess(a, b)
    ensures !StrLess(b, a)
    decreases |a|
  {
    if a != [] && b != [] && a[0] == b[0] {
      StrLessAsymmetric(a[1..], b[1..]);
    }
  }

  // ---------------------------------------------------------------------------
  // Case mapping and number formatting

  function LowerChar(c: char): char {
    if 'A' <= c <= 'Z' then (c as int + 32) as char else c
  }

  /** Go's `strings.ToLower`, restricted to the ASCII letters. */
  function ToLower(s: string): (r: string)
    ensures |r| == |s|
    ensures forall i :: 0 <= i < |s| ==> r[i] == LowerChar(s[i])
  {
    seq(|s|, i requires 0 <= i < |s| => LowerChar(s[i]))
  }

  function DigitsOf(n: nat): (r: string)
    ensures r != []
    ensures forall i :: 0 <= i < |r| ==> '0' <= r[i] <= '9'
  {
    if n < 10 then [('0' as int + n) as char]
    else DigitsOf(n / 10) + [('0' as int + n % 10) as char]
  }

  /** Go's `%d` of an integer. */
  function Decimal(n: int): (r: string)
    ensures r != []
    ensures (r[0] == '-') <==> n < 0
  {
    if n < 0 then "-" + DigitsOf(-n) else DigitsOf(n)
  }

  // ---------------------------------------------------------------------------
  // Formatting and replacing

  /** Go's `fmt.Sprintf(format, arg)` for one string argument and directives
      without flags, width or precision: `%%` is a percent sign and a
      trailing lone `%` reports a missing verb; the first other directive
      takes the argument, whatever its verb, and later ones report it
      missing; an argument that no directive took is reported as extra. */
  function Sprintf1(format: string, arg: string): string {
    FormatFrom(format, arg, false)
  }

  /** One directive applied to a string argument: `%s` and `%v` print it,
      `%T` prints its type, and any other verb reports a bad verb together
      with the argument. */
  function FormatVerb(verb: char, arg: string): (r: string)
    ensures verb == 's' || verb == 'v' ==> r == arg
    ensures verb != 's' && verb != 'v' && verb != 'T' ==> HasPrefix(r, "%!" + [verb]) && HasSuffix(r, arg + ")")
  {
    if verb == 's' || verb == 'v' then arg
    else if verb == 'T' then "string"
    else
      var r := "%!" + [verb] + "(string=" + arg + ")";
      assert r[..3] == "%!" + [verb];
      assert r[|r| - |arg + ")"|..] == arg + ")";
      r
  }

  function FormatFrom(f: string, arg: string, used: bool): string
    decreases |f|
  {
    if f == [] then (if used then [] else "%!(EXTRA string=" + arg + ")")
    else if f[0] != '%' then [f[0]] + FormatFrom(f[1..], arg, used)
    else if |f| == 1 then "%!(NOVERB)" + FormatFrom([], arg, used)
    else if f[1] == '%' then "%" + FormatFrom(f[2..], arg, used)
    else if used then "%!" + [f[1]] + "(MISSING)" + FormatFrom(f[2..], arg, true)
    else FormatVerb(f[1], arg) + FormatFrom(f[2..], arg, true)
  }

  /** With no `%` in `f` the format is copied, and the argument, once used,
      adds nothing more. */
  lemma {:induction false} FormatFromPlain(f: string, arg: string)
    requires '%' !in f
    ensures FormatFrom(f, arg, true) == f
    decreases |f|
  {
    if f != [] {
      assert '%' !in f[1..];
      FormatFromPlain(f[1..], arg);
    }
  }

  lemma {:induction false} FormatFromPrefix(p: string, f: string, arg: string, used: bool)
    requires '%' !in p
    ensures FormatFrom(p + f, arg, used) == p + FormatFrom(f, arg, used)
    decreases |p|
  {
    if p != [] {
      assert (p + f)[0] == p[0] != '%' && (p + f)[1..] == p[1..] + f;
      assert '%' !in p[1..];
      calc {
        FormatFrom(p + f, arg, used);
        [p[0]] + FormatFrom(p[1..] + f, arg, used);
        { FormatFromPrefix(p[1..], f, arg, used); }
        [p[0]] + (p[1..] + FormatFrom(f, arg, used));
        { assert p == [p[0]] + p[1..]; }
        p + FormatFrom(f, arg, used);
      }
    } else {
      assert p + f == f;
    }
  }

  /** The first directive of the format takes the argument, whatever its
      verb, and the text before it is copied. */
  lemma SprintfFirstDirective(before: string, verb: char, after: string, arg: string)
    requires '%' !in before && verb != '%'
    ensures Sprintf1(before + ['%', verb] + after, arg)
      == before + FormatVerb(verb, arg) + FormatFrom(after, arg, true)
  {
    assert before + ['%', verb] + after == before + (['%', verb] + after);
    FormatFromPrefix(before, ['%', verb] + after, arg, false);
    assert (['%', verb] + after)[2..] == after;
  }

  /** A format whose only `%` opens one `%s` has the argument put in place of
      that directive. */
  lemma SprintfSingleDirective(before: string, after: string, arg: string)
    requires '%' !in before && '%' !in after
    ensures Sprintf1(before + "%s" + after, arg) == before + arg + after
  {
    SprintfFirstDirective(before, 's', after, arg);
    FormatFromPlain(after, arg);
  }

  /** A second directive finds no argument left: Go prints
      `%!d(string=x) %!s(MISSING)` for `Sprintf("%d %s", "x")`. */
  lemma SprintfSecondDirectiveMissing(first: char, between: string, second: char, arg: string)
    requires first != '%' && second != '%' && '%' !in between
    ensures Sprintf1(['%', first] + between + ['%', second], arg)
      == FormatVerb(first, arg) + between + "%!" + [second] + "(MISSING)"
  {
    var format := ['%', first] + between + ['%', second];
    assert [] + ['%', first] + (between + ['%', second]) == format;
    SprintfFirstDirective([], first, between + ['%', second], arg);
    var missing := "%!" + [second] + "(MISSING)";
    FormatFromMissing(between, second, arg);
    assert FormatVerb(first, arg) + (between + missing)
      == FormatVerb(first, arg) + between + "%!" + [second] + "(MISSING)";
  }

  /** A directive met after the argument was used reports it missing. */
  lemma FormatFromMissing(between: string, verb: char, arg: string)
    requires verb != '%' && '%' !in between
    ensures FormatFrom(between + ['%', verb], arg, true) == between + ("%!" + [verb] + "(MISSING)")
  {
    FormatFromPrefix(between, ['%', verb], arg, true);
    assert ['%', verb][2..] == [];
  }

  /** Python's `s.replace(c, repl)` for a one-character pattern: every `c`
      becomes `repl` and every other character is kept, in order. */
  function ReplaceChar(s: string, c: char, repl: string): (r: string)
    ensures c !in s ==> r == s
    ensures |s| == 1 && s[0] == c ==> r == repl
    decreases |s|
  {
    if s == [] then []
    else (if s[0] == c then repl else [s[0]]) + ReplaceChar(s[1..], c, repl)
  }

  /** The parts with the string `sep` between consecutive ones: Python's
      `sep.join(parts)`. */
  function JoinWith(parts: seq<string>, sep: string): (r: string)
    ensures |parts| == 1 ==> r == parts[0]
  {
    if |parts| == 0 then []
    else if |parts| == 1 then parts[0]
    else parts[0] + sep + JoinWith(parts[1..], sep)
  }

  /** Replacing works piece by piece. */
  lemma {:induction false} ReplaceCharAppend(a: string, b: string, c: char, repl: string)
    ensures ReplaceChar(a + b, c, repl) == ReplaceChar(a, c, repl) + ReplaceChar(b, c, repl)
    decreases |a|
  {
    if a != [] {
      var head := if a[0] == c then repl else [a[0]];
      assert (a + b)[0] == a[0] && (a + b)[1..] == a[1..] + b;
      assert ReplaceChar(a + b, c, repl) == head + ReplaceChar(a[1..] + b, c, repl);
      ReplaceCharAppend(a[1..], b, c, repl);
      assert ReplaceChar(a, c, repl) == head + ReplaceChar(a[1..], c, repl);
      ConcatAssoc(head, ReplaceChar(a[1..], c, repl), ReplaceChar(b, c, repl));
    } else {
      assert a + b == b;
    }
  }

  /** `s.replace(c, repl)` is `repl.join(s.split(c))`: the text between the
      occurrences of `c` is kept and each occurrence becomes `repl`. */
  lemma {:induction false} ReplaceCharIsSplitJoin(s: string, c: char, repl: string)
    ensures ReplaceChar(s, c, repl) == JoinWith(Split(s, c), repl)
    decreases |s|
  {
    var k := IndexOf(s, c);
    if k != -1 {
      var rest := Split(s[k + 1..], c);
      assert Split(s, c) == [s[..k]] + rest;
      assert s == s[..k] + [c] + s[k + 1..];
      ReplaceCharAppend(s[..k] + [c], s[k + 1..], c, repl);
      ReplaceCharAppend(s[..k], [c], c, repl);
      ReplaceCharIsSplitJoin(s[k + 1..], c, repl);
      assert ([s[..k]] + rest)[1..] == rest;
    }
  }
}
