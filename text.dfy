/** The Python `str` operations the agents rely on: `isspace`, `strip`,
    `startswith`, `in`, `split`, `splitlines` and `join`. */
module Text {

  /** `str.isspace()` for one character. It is also the class `\s` matches
      in a `re` pattern over `str`. */
  predicate IsSpace(c: char) {
    || c == ' '
    || ('\t' <= c <= '\r')
    || ('\U{1c}' <= c <= '\U{1f}')
    || c == '\U{85}' || c == '\U{a0}' || c == '\U{1680}'
    || ('\U{2000}' <= c <= '\U{200a}')
    || c == '\U{2028}' || c == '\U{2029}' || c == '\U{202f}'
    || c == '\U{205f}' || c == '\U{3000}'
  }

  /** The characters at which `str.splitlines()` ends a line
      (`\r\n` counts as one boundary). */
  predicate IsLineBreak(c: char) {
    || ('\n' <= c <= '\r')
    || ('\U{1c}' <= c <= '\U{1e}')
    || c == '\U{85}' || c == '\U{2028}' || c == '\U{2029}'
  }

  predicate NotLineBreak(c: char) { !IsLineBreak(c) }

  /** True when `not s.strip()` holds in Python. */
  predicate IsBlank(s: string) {
    forall k | 0 <= k < |s| :: IsSpace(s[k])
  }

  predicate StartsWith(s: string, prefix: string) {
    |prefix| <= |s| && s[..|prefix|] == prefix
  }

  predicate EndsWith(s: string, suffix: string) {
    |suffix| <= |s| && s[|s| - |suffix|..] == suffix
  }

  predicate OccursAt(s: string, sub: string, i: int) {
    0 <= i <= |s| - |sub| && s[i..i + |sub|] == sub
  }

  /** Python's `sub in s`. */
  predicate Contains(s: string, sub: string) {
    exists i | 0 <= i <= |s| - |sub| :: OccursAt(s, sub, i)
  }

  lemma ContainsTransitive(a: string, b: string, c: string)
    requires Contains(a, b) && Contains(b, c)
    ensures Contains(a, c)
  {
    var i :| 0 <= i <= |a| - |b| && OccursAt(a, b, i);
    var j :| 0 <= j <= |b| - |c| && OccursAt(b, c, j);
    assert a[i..i + |b|] == b && b[j..j + |c|] == c;
    forall k | 0 <= k < |c| ensures a[i + j + k] == c[k] {
      assert c[k] == b[j + k] == a[i + j + k];
    }
    assert OccursAt(a, c, i + j);
  }

  lemma ContainsSlice(s: string, i: nat, j: nat)
    requires i <= j <= |s|
    ensures Contains(s, s[i..j])
  {
    assert OccursAt(s, s[i..j], i);
  }

  /** A piece of `t` is the same piece of anything `t` starts. */
  lemma PrefixSlice(t: string, r: string, a: nat, b: nat)
    requires a <= b <= |t|
    ensures (t + r)[a..b] == t[a..b]
  {
    assert (t + r)[..|t|] == t;
    assert (t + r)[a..b] == (t + r)[..|t|][a..b];
  }

  /** The end of the line that starts at `i`: the first line boundary at
      or after `i`, or the end of `s`. */
  function LineEnd(s: string, i: nat): (j: nat)
    requires i <= |s|
    ensures i <= j <= |s|
    decreases |s| - i
  {
    if i < |s| && NotLineBreak(s[i]) then LineEnd(s, i + 1) else i
  }

  /** Where the whitespace that starts at `i` ends. */
  function SkipSpace(s: string, i: nat): (j: nat)
    requires i <= |s|
    ensures i <= j <= |s|
    decreases |s| - i
  {
    if i < |s| && IsSpace(s[i]) then SkipSpace(s, i + 1) else i
  }

  /** Where the whitespace that ends at `j` starts, going back no further
      than `lo`. */
  function BackSpace(s: string, lo: nat, j: nat): (k: nat)
    requires lo <= j <= |s|
    ensures lo <= k <= j
    decreases j
  {
    if lo < j && IsSpace(s[j - 1]) then BackSpace(s, lo, j - 1) else j
  }

  lemma {:induction false} SkipSpaceSound(s: string, i: nat)
    requires i <= |s|
    ensures forall k | i <= k < SkipSpace(s, i) :: IsSpace(s[k])
    ensures SkipSpace(s, i) < |s| ==> !IsSpace(s[SkipSpace(s, i)])
    decreases |s| - i
  {
    if i < |s| && IsSpace(s[i]) {
      SkipSpaceSound(s, i + 1);
    }
  }

  lemma {:induction false} BackSpaceSound(s: string, lo: nat, j: nat)
    requires lo <= j <= |s|
    ensures forall k | BackSpace(s, lo, j) <= k < j :: IsSpace(s[k])
    ensures lo < BackSpace(s, lo, j) ==> !IsSpace(s[BackSpace(s, lo, j) - 1])
    decreases j
  {
    if lo < j && IsSpace(s[j - 1]) {
      BackSpaceSound(s, lo, j - 1);
    }
  }

  /** `str.strip()` with no argument: the text between the leading and the
      trailing whitespace. */
  function Strip(s: string): string {
    var a := SkipSpace(s, 0);
    s[a..BackSpace(s, a, |s|)]
  }

  /** The stripped text is a piece of the text with only whitespace cut
      from either end; it is empty exactly when the text is blank, and
      otherwise neither starts nor ends with whitespace. */
  lemma StripShape(s: string)
    ensures Contains(s, Strip(s))
    ensures exists a, b | 0 <= a <= b <= |s| :: Strip(s) == s[a..b] && IsBlank(s[..a]) && IsBlank(s[b..])
    ensures Strip(s) == [] <==> IsBlank(s)
    ensures Strip(s) != [] ==> !IsSpace(Strip(s)[0]) && !IsSpace(Strip(s)[|Strip(s)| - 1])
  {
    var a := SkipSpace(s, 0);
    var b := BackSpace(s, a, |s|);
    SkipSpaceSound(s, 0);
    BackSpaceSound(s, a, |s|);
    assert OccursAt(s, Strip(s), a);
    StripCuts(s);
    if a == b {
      assert IsBlank(s);
    }
  }

  /** What `Strip` cuts from either end is whitespace. */
  lemma StripCuts(s: string)
    ensures var a := SkipSpace(s, 0);
      IsBlank(s[..a]) && IsBlank(s[BackSpace(s, a, |s|)..])
  {
    var a := SkipSpace(s, 0);
    var b := BackSpace(s, a, |s|);
    SkipSpaceSound(s, 0);
    BackSpaceSound(s, a, |s|);
    forall k | 0 <= k < a ensures IsSpace(s[..a][k]) {
      assert s[..a][k] == s[k];
    }
    forall k | 0 <= k < |s| - b ensures IsSpace(s[b..][k]) {
      assert s[b..][k] == s[b + k];
    }
  }

  /** Stripping twice is stripping once. */
  lemma StripIdempotent(s: string)
    ensures Strip(Strip(s)) == Strip(s)
  {
    var r := Strip(s);
    StripShape(s);
    if r != [] {
      assert SkipSpace(r, 0) == 0;
      assert BackSpace(r, 0, |r|) == |r|;
      assert r[0..|r|] == r;
    }
  }

  /** `sep.join(parts)` for a one-character separator. */
  function Join(parts: seq<string>, sep: char): string
  {
    if parts == [] then ""
    else if |parts| == 1 then parts[0]
    else parts[0] + [sep] + Join(parts[1..], sep)
  }

  /** `"".join(parts)` */
  function Concat(parts: seq<string>): string
  {
    if parts == [] then "" else parts[0] + Concat(parts[1..])
  }

  lemma {:induction false} ConcatAppend(a: seq<string>, b: seq<string>)
    ensures Concat(a + b) == Concat(a) + Concat(b)
    decreases |a|
  {
    if a == [] {
      assert a + b == b;
    } else {
      assert (a + b)[1..] == a[1..] + b;
      ConcatAppend(a[1..], b);
    }
  }

  /** `"\n".join(lines)` */
  function JoinLines(lines: seq<string>): string
  {
    Join(lines, '\n')
  }

  /** `s.split(sep)` for a one-character separator. The first piece is the
      text before the first separator, or all of `s` when there is none. */
  function Split(s: string, sep: char): (parts: seq<string>)
    ensures |parts| >= 1
    decreases |s|
  {
    if s == [] then [""]
    else
      var rest := Split(s[1..], sep);
      if s[0] == sep then [""] + rest
      else [[s[0]] + rest[0]] + rest[1..]
  }

  /** The first piece of a split is the text before the first separator,
      which ends there or at the end of `s`. */
  lemma {:induction false} SplitHead(s: string, sep: char)
    ensures var head := Split(s, sep)[0];
      && |head| <= |s| && head == s[..|head|] && sep !in head
      && (|head| < |s| ==> s[|head|] == sep)
    decreases |s|
  {
    if s != [] && s[0] != sep {
      var rest := Split(s[1..], sep);
      SplitHead(s[1..], sep);
      assert rest[0] == s[1..][..|rest[0]|];
      assert Split(s, sep)[0] == [s[0]] + rest[0];
    }
  }

  /** `s.split(c)[0]` */
  function BeforeFirst(s: string, c: char): string
  {
    Split(s, c)[0]
  }

  lemma {:induction false} SplitAppend(a: string, t: string, sep: char)
    requires sep !in a
    ensures Split(a + t, sep) == [a + Split(t, sep)[0]] + Split(t, sep)[1..]
    decreases |a|
  {
    if a == [] {
      assert a + t == t;
      var parts := Split(t, sep);
      assert a + parts[0] == parts[0];
      assert parts == [parts[0]] + parts[1..];
    } else {
      assert (a + t)[1..] == a[1..] + t;
      SplitAppend(a[1..], t, sep);
      assert [a[0]] + (a[1..] + Split(t, sep)[0]) == a + Split(t, sep)[0];
    }
  }

  /** Splitting on `sep` undoes joining with `sep` when no part holds it. */
  lemma {:induction false} SplitJoin(parts: seq<string>, sep: char)
    requires parts != []
    requires forall k | 0 <= k < |parts| :: sep !in parts[k]
    ensures Split(Join(parts, sep), sep) == parts
    decreases |parts|
  {
    if |parts| == 1 {
      SplitAppend(parts[0], "", sep);
      assert Split("", sep) == [""];
      assert parts[0] + "" == parts[0];
    } else {
      var rest := Join(parts[1..], sep);
      SplitJoin(parts[1..], sep);
      assert Join(parts, sep) == parts[0] + ([sep] + rest);
      SplitAppend(parts[0], [sep] + rest, sep);
      assert ([sep] + rest)[1..] == rest;
      assert Split([sep] + rest, sep) == [""] + parts[1..];
      assert parts[0] + "" == parts[0] && parts == [parts[0]] + parts[1..];
    }
  }

  /** Joining undoes splitting. */
  lemma {:induction false} JoinSplit(s: string, sep: char)
    ensures Join(Split(s, sep), sep) == s
    decreases |s|
  {
    if s != [] {
      var rest := Split(s[1..], sep);
      JoinSplit(s[1..], sep);
      if s[0] == sep {
        assert Split(s, sep) == [""] + rest;
        assert ([""] + rest)[1..] == rest;
      } else {
        if |rest| == 1 {
          assert s == [s[0]] + rest[0];
        } else {
          assert rest == [rest[0]] + rest[1..];
          assert Join(rest, sep) == rest[0] + [sep] + Join(rest[1..], sep);
          assert s == [s[0]] + s[1..];
        }
      }
    }
  }

  /** `str.splitlines()`: the lines of `s` without their line boundaries;
      a final boundary does not start an extra, empty line. */
  function SplitLines(s: string): seq<string>
  {
    LinesFrom(s, 0)
  }

  /** The lines of `s` that start at or after position `i`, a line start. */
  function LinesFrom(s: string, i: nat): seq<string>
    requires i <= |s|
    decreases |s| - i
  {
    if i == |s| then []
    else
      var k := LineEnd(s, i);
      if k == |s| then [s[i..]]
      else
        var next := if s[k] == '\r' && k + 1 < |s| && s[k + 1] == '\n' then k + 2 else k + 1;
        [s[i..k]] + LinesFrom(s, next)
  }

  /** Every line `splitlines` returns is a piece of the text. */
  lemma {:induction false} LineInText(s: string, i: nat, j: nat)
    requires i <= |s| && j < |LinesFrom(s, i)|
    ensures Contains(s, LinesFrom(s, i)[j])
    decreases |s| - i
  {
    var k := LineEnd(s, i);
    if k == |s| {
      assert LinesFrom(s, i) == [s[i..]] && j == 0;
      assert s[i..] == s[i..|s|];
      ContainsSlice(s, i, |s|);
    } else {
      var next := if s[k] == '\r' && k + 1 < |s| && s[k + 1] == '\n' then k + 2 else k + 1;
      assert LinesFrom(s, i) == [s[i..k]] + LinesFrom(s, next);
      if j == 0 {
        ContainsSlice(s, i, k);
      } else {
        LineInText(s, next, j - 1);
      }
    }
  }
}
