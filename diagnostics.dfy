/** The diagnostic extractor of the validation agent: the pattern
    `(?P<file>[^:\s]+\.java):\d+:\s+error` run over the build output with
    `finditer`, and the `file` groups collected into a set. */
module Diagnostics {
  import opened Text
  import opened Wrappers

  /** `[^:\s]` */
  predicate IsIdChar(c: char) {
    c != ':' && !IsSpace(c)
  }

  /** `\d`, for ASCII digits. */
  predicate IsDigit(c: char) {
    '0' <= c <= '9'
  }

  /** What the `file` group can hold: `[^:\s]+\.java`. */
  predicate IsJavaFileId(file: string) {
    |file| >= 6 && EndsWith(file, ".java") && forall k | 0 <= k < |file| :: IsIdChar(file[k])
  }

  /** The three character classes of the pattern: `[^:\s]`, `\d` and `\s`. */
  datatype Class = IdChar | Digit | Blank

  predicate In(c: char, cl: Class) {
    match cl
    case IdChar => IsIdChar(c)
    case Digit => IsDigit(c)
    case Blank => IsSpace(c)
  }

  /** Every character from `a` up to `b` is in `cl`. */
  predicate Runs(s: string, a: int, b: int, cl: Class) {
    0 <= a <= b <= |s| && forall k | a <= k < b :: In(s[k], cl)
  }

  /** The end of the longest run of `cl` characters that starts at `i`: a
      greedy `+` or `*` over the class. */
  function RunEnd(s: string, i: nat, cl: Class): (j: nat)
    requires i <= |s|
    ensures i <= j <= |s|
    decreases |s| - i
  {
    if i < |s| && In(s[i], cl) then RunEnd(s, i + 1, cl) else i
  }

  /** The run is made of `cl` characters, and the one after it is not. */
  lemma {:induction false} RunEndSound(s: string, i: nat, cl: Class)
    requires i <= |s|
    ensures Runs(s, i, RunEnd(s, i, cl), cl)
    ensures RunEnd(s, i, cl) < |s| ==> !In(s[RunEnd(s, i, cl)], cl)
    decreases |s| - i
  {
    if i < |s| && In(s[i], cl) {
      RunEndSound(s, i + 1, cl);
    }
  }

  /** A run that ends where the class first fails is the run `RunEnd` finds. */
  lemma {:induction false} RunEndUnique(s: string, i: nat, cl: Class, j: nat)
    requires Runs(s, i, j, cl) && (j < |s| ==> !In(s[j], cl))
    ensures RunEnd(s, i, cl) == j
    decreases j - i
  {
    if i < j {
      RunEndUnique(s, i + 1, cl, j);
    }
  }

  /** `.java` ends at `m`. */
  predicate JavaEndsAt(s: string, m: int) {
    5 <= m <= |s| && s[m - 5] == '.' && s[m - 4] == 'j' && s[m - 3] == 'a' && s[m - 2] == 'v' && s[m - 1] == 'a'
  }

  /** `error` starts at `w`. */
  predicate ErrorAt(s: string, w: int) {
    0 <= w && w + 5 <= |s| && s[w] == 'e' && s[w + 1] == 'r' && s[w + 2] == 'r' && s[w + 3] == 'o' && s[w + 4] == 'r'
  }

  /** Where a match ends its group, where its second colon is, and where
      `error` starts; the match ends right after `error`. */
  datatype Hit = Hit(fileEnd: nat, lastColon: nat, errorAt: nat) {
    function End(): nat { errorAt + 5 }

    /** The same match, `n` characters further on. */
    function Shift(n: nat): Hit { Hit(fileEnd + n, lastColon + n, errorAt + n) }
  }

  /** The pattern matches `s` at `i` the way `h` says: the group from `i`
      to `h.fileEnd`, a colon, digits, a colon at `h.lastColon`, whitespace,
      then `error` at `h.errorAt`. */
  predicate Shape(s: string, i: int, h: Hit) {
    && 0 <= i && i + 6 <= h.fileEnd && h.fileEnd + 1 < h.lastColon && h.lastColon + 1 < h.errorAt && h.End() <= |s|
    && Runs(s, i, h.fileEnd, IdChar) && JavaEndsAt(s, h.fileEnd) && s[h.fileEnd] == ':'
    && Runs(s, h.fileEnd + 1, h.lastColon, Digit) && s[h.lastColon] == ':'
    && Runs(s, h.lastColon + 1, h.errorAt, Blank) && ErrorAt(s, h.errorAt)
  }

  /** The match of the pattern that starts exactly at `i`, if any. Greedy
      runs leave no choice here: the group runs up to the first `:` or
      whitespace, the digits up to the next non-digit and the blank up to
      the next non-blank. */
  function MatchAt(s: string, i: nat): (h: Option<Hit>)
    requires i <= |s|
    ensures h.Some? ==> i + 6 <= h.value.fileEnd && h.value.fileEnd + 1 < h.value.lastColon && h.value.lastColon + 1 < h.value.errorAt && h.value.End() <= |s|
  {
    var m := RunEnd(s, i, IdChar);
    if m >= i + 6 && JavaEndsAt(s, m) && m < |s| && s[m] == ':' then
      var d := RunEnd(s, m + 1, Digit);
      if d > m + 1 && d < |s| && s[d] == ':' then
        var w := RunEnd(s, d + 1, Blank);
        if w > d + 1 && ErrorAt(s, w) then Some(Hit(m, d, w)) else None
      else None
    else None
  }

  /** What `MatchAt` finds is a match of the pattern ... */
  lemma MatchAtSound(s: string, i: nat, h: Hit)
    requires i <= |s| && MatchAt(s, i) == Some(h)
    ensures Shape(s, i, h)
  {
    var m := RunEnd(s, i, IdChar);
    var d := RunEnd(s, m + 1, Digit);
    assert h == Hit(m, d, RunEnd(s, d + 1, Blank));
    RunEndSound(s, i, IdChar);
    RunEndSound(s, m + 1, Digit);
    RunEndSound(s, d + 1, Blank);
  }

  /** ... and wherever the pattern matches, `MatchAt` finds that match. */
  lemma MatchAtComplete(s: string, i: nat, h: Hit)
    requires Shape(s, i, h)
    ensures MatchAt(s, i) == Some(h)
  {
    RunEndUnique(s, i, IdChar, h.fileEnd);
    RunEndUnique(s, h.fileEnd + 1, Digit, h.lastColon);
    RunEndUnique(s, h.lastColon + 1, Blank, h.errorAt);
  }

  /** The group of a match is a Java file identifier. */
  lemma ShapeFile(s: string, i: nat, h: Hit)
    requires Shape(s, i, h)
    ensures IsJavaFileId(s[i..h.fileEnd])
  {
    var file := s[i..h.fileEnd];
    assert file[|file| - 5..] == s[h.fileEnd - 5..h.fileEnd];
  }

  /** `finditer` from position `i`: try the pattern at each position; after
      a match, go on from where it ended. The result lists the `file`
      group of each match, in order. */
  function FindFrom(s: string, i: nat): seq<string>
    requires i <= |s|
    decreases |s| - i
  {
    if i == |s| then []
    else
      match MatchAt(s, i)
      case Some(h) => [s[i..h.fileEnd]] + FindFrom(s, h.End())
      case None => FindFrom(s, i + 1)
  }

  function Elements(q: seq<string>): set<string> {
    set f | f in q
  }

  /** The set `extract_failed_java_files` returns. */
  function FailedJavaFiles(output: string): set<string> {
    Elements(FindFrom(output, 0))
  }

  /** `extract_failed_java_files`: scan the output as `finditer` does and
      add each match's file group to the set. */
  method ExtractFailedJavaFiles(output: string) returns (files: set<string>)
    ensures files == FailedJavaFiles(output)
  {
    files := {};
    var pos := 0;
    while pos < |output|
      invariant pos <= |output|
      invariant files + Elements(FindFrom(output, pos)) == FailedJavaFiles(output)
      decreases |output| - pos
    {
      var h := MatchAt(output, pos);
      if h.Some? {
        files := files + {output[pos..h.value.fileEnd]};
        pos := h.value.End();
      } else {
        pos := pos + 1;
      }
    }
  }

  /** The build output names `file` in a diagnostic somewhere. */
  ghost predicate Reports(s: string, file: string) {
    exists i: nat, h: Hit | i <= h.fileEnd <= |s| :: Shape(s, i, h) && s[i..h.fileEnd] == file
  }

  /** Every extracted file ends in `.java`, holds no `:` and no whitespace,
      and is followed in the output by `:<digits>:<whitespace>error`. */
  lemma {:induction false} ExtractedFilesAreReported(s: string, i: nat, file: string)
    requires i <= |s| && file in FindFrom(s, i)
    ensures IsJavaFileId(file) && Reports(s, file)
    decreases |s| - i
  {
    match MatchAt(s, i)
    case Some(h) =>
      if file == s[i..h.fileEnd] {
        MatchAtSound(s, i, h);
        ShapeFile(s, i, h);
      } else {
        ExtractedFilesAreReported(s, h.End(), file);
      }
    case None =>
      ExtractedFilesAreReported(s, i + 1, file);
  }

  /** Whether the pattern matches depends only on the text the match
      covers: the same text elsewhere matches the same way. */
  lemma ShapeWindow(s: string, i: nat, h: Hit, s2: string, i2: nat, h2: Hit)
    requires Shape(s, i, h)
    requires h2.fileEnd - i2 == h.fileEnd - i && h2.lastColon - i2 == h.lastColon - i && h2.errorAt - i2 == h.errorAt - i
    requires h2.End() <= |s2| && s2[i2..h2.End()] == s[i..h.End()]
    ensures Shape(s2, i2, h2)
  {
    forall k | i2 <= k < h2.End() ensures s2[k] == s[k - i2 + i] {
      assert s2[k] == s2[i2..h2.End()][k - i2];
    }
  }

  /** No colon right after a digit is followed by nothing but whitespace
      on the line, so no diagnostic can begin on this line and end on the
      next: only the colon closing `<id>.java:<digits>:` lets the gap run
      on. */
  predicate NoDanglingColon(t: string) {
    forall d {:trigger ColonFollowed(t, d)} | 0 < d < |t| && t[d] == ':' && IsDigit(t[d - 1]) :: ColonFollowed(t, d)
  }

  /** Something other than whitespace follows position `d` on the line. */
  predicate ColonFollowed(t: string, d: nat)
    requires d < |t|
  {
    !IsBlank(t[d + 1..])
  }

  /** `t` is one line, and no diagnostic starting on it runs past its end. */
  predicate Unsplit(t: string) {
    '\n' !in t && NoDanglingColon(t)
  }

  /** `s` holds the line `t` at `a`, and the line ends there: at the end of
      `s` or at a line break. */
  predicate LineAt(s: string, a: nat, t: string) {
    a + |t| <= |s| && s[a..a + |t|] == t && (a + |t| == |s| || s[a + |t|] == '\n')
  }

  /** A piece of the line is the same piece of the text holding it. */
  lemma LineSlice(s: string, a: nat, t: string, b: nat, c: nat)
    requires LineAt(s, a, t) && b <= c <= |t|
    ensures s[a + b..a + c] == t[b..c]
  {
    forall k | a + b <= k < a + c ensures s[k] == t[k - a] {
      assert s[k] == s[a..a + |t|][k - a];
    }
  }

  /** A match that starts on an unsplit line ends on it. */
  lemma ShapeStaysInLine(s: string, a: nat, t: string, i: nat, h: Hit)
    requires LineAt(s, a, t) && Unsplit(t) && a <= i < a + |t|
    requires Shape(s, i, h)
    ensures h.End() <= a + |t|
  {
    if a + |t| < |s| {
      var d := h.lastColon;
      assert s[a + |t|] == '\n';
      assert t[d - a] == s[a..a + |t|][d - a] == ':';
      assert In(s[d - 1], Digit);
      assert t[d - a - 1] == s[a..a + |t|][d - a - 1] == s[d - 1];
      assert ColonFollowed(t, d - a);
      var k :| 0 <= k < |t| - (d - a + 1) && !IsSpace(t[d - a + 1..][k]);
      assert s[d + 1 + k] == t[d - a + 1..][k];
    }
  }

  /** The start of a line is the same text as the start of its place in
      the text holding it. */
  lemma LineHeadAt(s: string, a: nat, t: string, c: nat, e: nat)
    requires LineAt(s, a, t) && c <= |t| && e == a + c
    ensures s[a..e] == t[..c]
  {
    LineSlice(s, a, t, 0, c);
  }

  /** A match at the start of the line is the same match, shifted, at the
      start of its place in the text ... */
  lemma LineStartMatch(s: string, a: nat, t: string, h: Hit)
    requires LineAt(s, a, t) && 0 < |t| && MatchAt(t, 0) == Some(h)
    ensures MatchAt(s, a) == Some(h.Shift(a))
  {
    MatchAtSound(t, 0, h);
    ShapeOutOfLine(s, a, t, h);
    MatchAtComplete(s, a, h.Shift(a));
  }

  lemma ShapeOutOfLine(s: string, a: nat, t: string, h: Hit)
    requires LineAt(s, a, t) && Shape(t, 0, h)
    ensures Shape(s, a, h.Shift(a))
  {
    var g := h.Shift(a);
    assert g.fileEnd == a + h.fileEnd && g.lastColon == a + h.lastColon && g.errorAt == a + h.errorAt;
    LineSlice(s, a, t, 0, h.End());
    ShapeWindow(t, 0, h, s, a, g);
  }

  /** ... and where the line has no match, the text has none either. */
  lemma LineMatchNone(s: string, a: nat, t: string, p: nat)
    requires LineAt(s, a, t) && (a + |t| == |s| || Unsplit(t)) && a <= p < a + |t|
    requires MatchAt(t, p - a).None?
    ensures MatchAt(s, p).None?
  {
    match MatchAt(s, p)
    case None =>
    case Some(g) =>
      MatchAtSound(s, p, g);
      var h := ShapeIntoLine(s, a, t, p, g);
      MatchAtComplete(t, p - a, h);
  }

  /** A match in the text that starts on a line it cannot leave is a match
      in the line. */
  lemma ShapeIntoLine(s: string, a: nat, t: string, p: nat, g: Hit) returns (h: Hit)
    requires LineAt(s, a, t) && (a + |t| == |s| || Unsplit(t)) && a <= p < a + |t|
    requires Shape(s, p, g)
    ensures Shape(t, p - a, h)
  {
    if a + |t| < |s| {
      ShapeStaysInLine(s, a, t, p, g);
    }
    h := Hit(g.fileEnd - a, g.lastColon - a, g.errorAt - a);
    LineSlice(s, a, t, p - a, h.End());
    ShapeWindow(s, p, g, t, p - a, h);
  }

  /** The pattern matches nowhere in `t`. */
  predicate Quiet(t: string) {
    forall j | 0 <= j < |t| :: MatchAt(t, j).None?
  }

  /** `finditer` finds nothing in exactly the texts where the pattern
      matches nowhere. */
  lemma QuietIffNothingFound(t: string)
    ensures Quiet(t) <==> FindFrom(t, 0) == []
  {
    if FindFrom(t, 0) == [] {
      NothingFound(t, 0);
    }
    if Quiet(t) {
      QuietFindsNothing(t, 0);
    }
  }

  lemma {:induction false} NothingFound(t: string, i: nat)
    requires i <= |t| && FindFrom(t, i) == []
    ensures forall j | i <= j < |t| :: MatchAt(t, j).None?
    decreases |t| - i
  {
    if i < |t| {
      NothingFound(t, i + 1);
    }
  }

  lemma {:induction false} QuietFindsNothing(t: string, i: nat)
    requires i <= |t| && forall j | i <= j < |t| :: MatchAt(t, j).None?
    ensures FindFrom(t, i) == []
    decreases |t| - i
  {
    if i < |t| {
      QuietFindsNothing(t, i + 1);
    }
  }

  /** A quiet text at the end of a longer one adds no match to it. */
  lemma QuietSuffix(t: string, n: nat, u: string)
    requires n + |u| == |t| && t[n..] == u && Quiet(u)
    ensures forall j | n <= j < |t| :: MatchAt(t, j).None?
  {
    assert LineAt(t, n, u);
    forall j | n <= j < |t| ensures MatchAt(t, j).None? {
      LineMatchNone(t, n, u, j);
    }
  }

  /** On an unsplit line that ends at `e` and has no match from `p` on,
      the scan from `p` skips to the end of the line. */
  lemma {:induction false} QuietTail(s: string, a: nat, t: string, p: nat, e: nat)
    requires LineAt(s, a, t) && Unsplit(t) && e == a + |t| && a <= p <= e
    requires forall j | p - a <= j < |t| :: MatchAt(t, j).None?
    ensures FindFrom(s, p) == FindFrom(s, e)
    decreases e - p
  {
    if p < e {
      LineMatchNone(s, a, t, p);
      QuietTail(s, a, t, p + 1, e);
    }
  }

  /** A line of build output, as the extractor sees it: a diagnostic
      `<file>:<line>:<gap>error<message>`, or any other line. */
  datatype OutputLine =
    | Diagnostic(file: string, lineNo: string, gap: string, message: string)
    | Other(text: string)
  {
    function HeadParts(): seq<string>
      requires Diagnostic?
    {
      [file, ":", lineNo, ":", gap, "error"]
    }

    function Head(): string
      requires Diagnostic?
    {
      Concat(HeadParts())
    }

    function Text(): string {
      if Diagnostic? then Concat(HeadParts() + [message]) else text
    }

    /** The parts of a diagnostic's head have the shapes the pattern
        expects. */
    predicate HeadShaped()
      requires Diagnostic?
    {
      && IsJavaFileId(file)
      && |lineNo| > 0 && (forall k | 0 <= k < |lineNo| :: IsDigit(lineNo[k]))
      && |gap| > 0 && (forall k | 0 <= k < |gap| :: IsSpace(gap[k]))
    }

    /** A diagnostic line is well-formed when its head has the expected
        shape and its message names no file; any other line must name no
        file. Either way the line is unsplit. */
    predicate WellFormed() {
      && Unsplit(Text())
      && if Diagnostic? then HeadShaped() && Quiet(message) else Quiet(text)
    }
  }

  /** Where the pattern matches a well-formed diagnostic line. */
  function HeadHit(l: OutputLine): Hit
    requires l.Diagnostic?
  {
    Hit(|l.file|, |l.file| + 1 + |l.lineNo|, |l.file| + 1 + |l.lineNo| + 1 + |l.gap|)
  }

  /** The text of a diagnostic line, spelled out. */
  lemma TextParts(l: OutputLine)
    requires l.Diagnostic?
    ensures l.Text() == l.Head() + l.message
    ensures l.Head() == l.file + (":" + (l.lineNo + (":" + (l.gap + "error"))))
  {
    var p := l.HeadParts();
    ConcatAppend(p, [l.message]);
    assert Concat([l.message]) == l.message + Concat([]);
    assert Concat(p[5..]) == "error" + Concat([]);
    assert Concat(p[4..]) == l.gap + Concat(p[5..]);
    assert Concat(p[3..]) == ":" + Concat(p[4..]);
    assert Concat(p[2..]) == l.lineNo + Concat(p[3..]);
    assert Concat(p[1..]) == ":" + Concat(p[2..]);
  }

  /** The pattern matches the head of a diagnostic whose parts have the
      expected shapes ... */
  lemma HeadShape(l: OutputLine)
    requires l.Diagnostic? && l.HeadShaped()
    ensures HeadHit(l).End() == |l.Head()| && Shape(l.Head(), 0, HeadHit(l))
  {
    var f, n, g := l.file, l.lineNo, l.gap;
    var m, d, w := |f|, |f| + 1 + |n|, |f| + 1 + |n| + 1 + |g|;
    var r3 := ":" + (g + "error");
    var r1 := ":" + (n + r3);
    var t := f + r1;
    TextParts(l);
    forall k | 0 <= k < m ensures In(t[k], IdChar) {
      assert t[k] == f[k];
    }
    assert f[m - 5..] == ".java";
    assert t[m - 5] == f[m - 5..][0];
    assert t[m - 4] == f[m - 5..][1];
    assert t[m - 3] == f[m - 5..][2];
    assert t[m - 2] == f[m - 5..][3];
    assert t[m - 1] == f[m - 5..][4];
    assert t[m] == r1[0];
    forall k | m + 1 <= k < d ensures In(t[k], Digit) {
      assert t[k] == r1[k - m] == n[k - m - 1];
    }
    assert t[d] == r1[d - m] == r3[0];
    forall k | d + 1 <= k < w ensures In(t[k], Blank) {
      assert t[k] == r3[k - d] == g[k - d - 1];
    }
    assert t[w..] == "error";
  }

  /** ... and so matches the start of the whole line. */
  lemma TextShape(l: OutputLine)
    requires l.Diagnostic? && l.HeadShaped()
    ensures HeadHit(l).End() == |l.Head()| && Shape(l.Text(), 0, HeadHit(l))
  {
    var h := HeadHit(l);
    HeadShape(l);
    TextParts(l);
    PrefixSlice(l.Head(), l.message, 0, h.End());
    ShapeWindow(l.Head(), 0, h, l.Text(), 0, h);
  }

  /** On a well-formed line that ends at `e`, the scan finds exactly the
      line's groups and then goes on after the line. */
  lemma LineGroups(s: string, a: nat, l: OutputLine, e: nat)
    requires l.WellFormed() && LineAt(s, a, l.Text()) && e == a + |l.Text()|
    ensures l.Diagnostic? ==> FindFrom(s, a) == [l.file] + FindFrom(s, e)
    ensures l.Other? ==> FindFrom(s, a) == FindFrom(s, e)
  {
    if l.Diagnostic? {
      DiagnosticLineGroups(s, a, l, e);
    } else {
      QuietTail(s, a, l.text, a, e);
    }
  }

  lemma DiagnosticLineGroups(s: string, a: nat, l: OutputLine, e: nat)
    requires l.Diagnostic? && l.WellFormed() && LineAt(s, a, l.Text()) && e == a + |l.Text()|
    ensures FindFrom(s, a) == [l.file] + FindFrom(s, e)
  {
    HeadMatch(l);
    HitLine(s, a, l.Text(), HeadHit(l), l.file, e);
  }

  /** The pattern matches `t` at its start with group `file`, and nowhere
      after that match. */
  predicate LeadingHit(t: string, h: Hit, file: string) {
    && 0 < |t| && MatchAt(t, 0) == Some(h) && t[..h.fileEnd] == file
    && forall j | h.End() <= j < |t| :: MatchAt(t, j).None?
  }

  /** A well-formed diagnostic line matches at its start, the match's group
      is the line's file, and nothing matches after it. */
  lemma HeadMatch(l: OutputLine)
    requires l.Diagnostic? && l.HeadShaped() && Quiet(l.message)
    ensures LeadingHit(l.Text(), HeadHit(l), l.file)
  {
    TextShape(l);
    MatchAtComplete(l.Text(), 0, HeadHit(l));
    HeadFile(l);
    MessageQuiet(l);
  }

  /** A line that matches at its start and nowhere after that match adds
      the match's file to the scan and nothing else. */
  lemma HitLine(s: string, a: nat, t: string, h: Hit, file: string, e: nat)
    requires LineAt(s, a, t) && Unsplit(t) && LeadingHit(t, h, file) && e == a + |t|
    ensures FindFrom(s, a) == [file] + FindFrom(s, e)
  {
    var g := h.Shift(a);
    LineStartMatch(s, a, t, h);
    assert g.fileEnd == a + h.fileEnd && g.End() == a + h.End() && g.End() <= e;
    LineHeadAt(s, a, t, h.fileEnd, g.fileEnd);
    QuietTail(s, a, t, g.End(), e);
    FindHit(s, a, g);
  }

  /** Where a match starts, the scan reports its file and resumes after it. */
  lemma FindHit(s: string, i: nat, h: Hit)
    requires i < |s| && MatchAt(s, i) == Some(h)
    ensures FindFrom(s, i) == [s[i..h.fileEnd]] + FindFrom(s, h.End())
  {
  }

  lemma HeadFile(l: OutputLine)
    requires l.Diagnostic?
    ensures l.Text()[..|l.file|] == l.file
  {
    TextParts(l);
    assert l.Text() == l.file + ((":" + (l.lineNo + (":" + (l.gap + "error")))) + l.message);
  }

  /** Nothing matches in the message of a well-formed diagnostic line. */
  lemma MessageQuiet(l: OutputLine)
    requires l.Diagnostic? && Quiet(l.message)
    ensures forall j | HeadHit(l).End() <= j < |l.Text()| :: MatchAt(l.Text(), j).None?
  {
    TextParts(l);
    assert HeadHit(l).End() == |l.Head()|;
    assert l.Text()[|l.Head()|..] == l.message;
    QuietSuffix(l.Text(), |l.Head()|, l.message);
  }

  /** `s` holds, from `a` to its end, `lines` joined with line breaks. */
  predicate LinesAt(s: string, a: nat, lines: seq<OutputLine>)
    decreases |lines|
  {
    if lines == [] then a == |s|
    else
      var t := lines[0].Text();
      && LineAt(s, a, t)
      && if |lines| == 1 then a + |t| == |s| else a + |t| < |s| && LinesAt(s, a + |t| + 1, lines[1..])
  }

  function Texts(lines: seq<OutputLine>): seq<string> {
    seq(|lines|, k requires 0 <= k < |lines| => lines[k].Text())
  }

  /** The build output made of `lines`. */
  function Output(lines: seq<OutputLine>): string {
    JoinLines(Texts(lines))
  }

  /** The files the diagnostic lines name, in order. */
  function DiagnosedFiles(lines: seq<OutputLine>): seq<string> {
    if lines == [] then []
    else if lines[0].Diagnostic? then [lines[0].file] + DiagnosedFiles(lines[1..])
    else DiagnosedFiles(lines[1..])
  }

  lemma {:induction false} JoinedLinesAt(s: string, a: nat, lines: seq<OutputLine>)
    requires a <= |s| && s[a..] == Output(lines)
    ensures LinesAt(s, a, lines)
    decreases |lines|
  {
    if lines != [] {
      var t := lines[0].Text();
      assert Texts(lines)[0] == t;
      if |lines| == 1 {
        assert s[a..a + |t|] == s[a..];
      } else {
        assert Texts(lines)[1..] == Texts(lines[1..]);
        var rest := Output(lines[1..]);
        assert s[a..] == t + "\n" + rest;
        assert s[a..a + |t|] == s[a..][..|t|];
        assert s[a + |t|] == s[a..][|t|];
        assert s[a + |t| + 1..] == s[a..][|t| + 1..];
        JoinedLinesAt(s, a + |t| + 1, lines[1..]);
      }
    }
  }

  /** Over well-formed lines, the scan finds exactly the diagnosed files,
      line by line. */
  lemma {:induction false} ScanLines(s: string, a: nat, lines: seq<OutputLine>)
    requires LinesAt(s, a, lines)
    requires forall k | 0 <= k < |lines| :: lines[k].WellFormed()
    ensures FindFrom(s, a) == DiagnosedFiles(lines)
    decreases |lines|
  {
    if lines != [] {
      var l, rest := lines[0], lines[1..];
      var b := a + |l.Text()|;
      assert l.WellFormed() && LineAt(s, a, l.Text());
      if rest == [] {
        assert b == |s|;
        LineGroups(s, a, l, b);
      } else {
        assert b < |s| && s[b] == '\n' && LinesAt(s, b + 1, rest);
        assert forall k | 0 <= k < |rest| :: rest[k].WellFormed() by {
          forall k | 0 <= k < |rest| ensures rest[k].WellFormed() {
            assert rest[k] == lines[k + 1];
          }
        }
        ScanLines(s, b + 1, rest);
        BreakSkipped(s, b);
        LineGroups(s, a, l, b);
      }
    }
  }

  /** No match starts at a line break. */
  lemma BreakSkipped(s: string, i: nat)
    requires i < |s| && s[i] == '\n'
    ensures FindFrom(s, i) == FindFrom(s, i + 1)
  {
    assert RunEnd(s, i, IdChar) == i;
  }

  /** When no diagnostic is split over two lines and the only matches are
      diagnostics that start their lines, `finditer` finds exactly the
      files of the diagnostic lines, in order, and the extractor returns
      the set of them. */
  lemma BuildOutputFiles(lines: seq<OutputLine>)
    requires forall k | 0 <= k < |lines| :: lines[k].WellFormed()
    ensures FindFrom(Output(lines), 0) == DiagnosedFiles(lines)
    ensures FailedJavaFiles(Output(lines)) == set l | l in lines && l.Diagnostic? :: l.file
  {
    var s := Output(lines);
    JoinedLinesAt(s, 0, lines);
    ScanLines(s, 0, lines);
    DiagnosedElements(lines);
  }

  /** A line without a `.` names no file. */
  lemma DotlessQuiet(t: string)
    requires '.' !in t
    ensures Quiet(t)
  {
    forall j | 0 <= j < |t| ensures MatchAt(t, j).None? {
      if MatchAt(t, j).Some? {
        var h := MatchAt(t, j).value;
        MatchAtSound(t, j, h);
      }
    }
  }

  /** A line without a digit has no colon that could close a line number. */
  lemma DigitlessUnsplit(t: string)
    requires '\n' !in t && forall k | 0 <= k < |t| :: !IsDigit(t[k])
    ensures Unsplit(t)
  {
  }

  /** The headings Gradle prints in every failure summary are well-formed
      lines, so the lemmas above cover the output of a failing build. */
  lemma SummaryHeadingsWellFormed()
    ensures Other("* What went wrong:").WellFormed()
    ensures Other("* Try:").WellFormed()
  {
    var wrong, try := "* What went wrong:", "* Try:";
    DotlessQuiet(wrong);
    DotlessQuiet(try);
    DigitlessUnsplit(wrong);
    DigitlessUnsplit(try);
  }

  lemma {:induction false} DiagnosedElements(lines: seq<OutputLine>)
    ensures Elements(DiagnosedFiles(lines)) == set l | l in lines && l.Diagnostic? :: l.file
    decreases |lines|
  {
    if lines != [] {
      DiagnosedElements(lines[1..]);
      var q := DiagnosedFiles(lines);
      if lines[0].Diagnostic? {
        assert Elements(q) == {lines[0].file} + Elements(DiagnosedFiles(lines[1..]));
      }
      assert lines == [lines[0]] + lines[1..];
    }
  }

  /** The order of the lines does not change the extracted set. */
  lemma LineOrderIrrelevant(lines: seq<OutputLine>, shuffled: seq<OutputLine>)
    requires multiset(lines) == multiset(shuffled)
    requires forall k | 0 <= k < |lines| :: lines[k].WellFormed()
    ensures FailedJavaFiles(Output(lines)) == FailedJavaFiles(Output(shuffled))
  {
    forall k | 0 <= k < |shuffled| ensures shuffled[k].WellFormed() {
      assert shuffled[k] in multiset(lines);
    }
    BuildOutputFiles(lines);
    BuildOutputFiles(shuffled);
    assert forall l :: l in lines <==> l in shuffled by {
      forall l ensures l in lines <==> l in shuffled {
        assert l in lines <==> l in multiset(lines);
        assert l in shuffled <==> l in multiset(shuffled);
      }
    }
  }
}
