/** The build migration agent: point the Gradle wrapper at a new Gradle
    distribution with one regular-expression substitution, then have the
    model regenerate `build.gradle` from the migration plan. */
module BuildMigration {
  import opened Text
  import opened Wrappers
  import opened Paths
  import opened Oracle

  const DefaultGradleVersion: string := "8.6"

  /** The text the pattern `distributionUrl=.*` starts with. */
  const UrlKey: string := "distributionUrl="

  /** The replacement for a match; the backslash before `:` is kept, as a
      `.properties` file escapes the colon. */
  function DistributionUrl(version: string): string {
    UrlKey + UrlTail(version)
  }

  /** What follows the key in the replacement. */
  function UrlTail(version: string): string {
    DistributionHost + DistributionDir + version + "-bin.zip"
  }

  const DistributionHost: string := "https\\://services.gradle.org"
  const DistributionDir: string := "/distributions/gradle-"

  /** How many characters come before the first `\n` of `s` (all of them
      when there is none): how far `.*` reaches. */
  function LineLen(s: string): (n: nat)
    ensures n <= |s|
    ensures forall k | 0 <= k < n :: s[k] != '\n'
    ensures n < |s| ==> s[n] == '\n'
  {
    if s == [] || s[0] == '\n' then 0 else 1 + LineLen(s[1..])
  }

  /** `re.sub(key + ".*", url, s)` for a literal `key`: scanning from the
      left, each `key` and the rest of its line become `url`; the scan
      resumes at the `\n` that ended the match. */
  function Substitute(s: string, key: string, url: string): string
    requires key != []
    decreases |s|
  {
    if s == [] then ""
    else if StartsWith(s, key) then
      var matched := |key| + LineLen(s[|key|..]);
      url + Substitute(s[matched..], key, url)
    else [s[0]] + Substitute(s[1..], key, url)
  }

  /** The substitution on one line (no `\n` in it). */
  function SubLine(line: string, key: string, url: string): string
    requires key != []
    decreases |line|
  {
    if line == [] then ""
    else if StartsWith(line, key) then url
    else [line[0]] + SubLine(line[1..], key, url)
  }

  /** The substitution line by line. */
  function SubLines(lines: seq<string>, key: string, url: string): (r: seq<string>)
    requires key != []
    ensures |r| == |lines| && forall k | 0 <= k < |lines| :: r[k] == SubLine(lines[k], key, url)
  {
    seq(|lines|, k requires 0 <= k < |lines| => SubLine(lines[k], key, url))
  }

  /** A pattern that `.*` extends to the end of its line: not empty, and
      no line break in it. */
  predicate LineKey(key: string) {
    key != [] && '\n' !in key
  }

  /** A line without `key` is left as it is ... */
  lemma {:induction false} SubLineNone(line: string, key: string, url: string)
    requires key != []
    requires forall p | 0 <= p <= |line| :: !OccursAt(line, key, p)
    ensures SubLine(line, key, url) == line
    decreases |line|
  {
    if line != [] {
      assert !OccursAt(line, key, 0);
      forall p | 0 <= p <= |line[1..]| ensures !OccursAt(line[1..], key, p) {
        OccursShift(line, key, p);
      }
      SubLineNone(line[1..], key, url);
    }
  }

  /** ... and in a line with one, everything before the first is kept and
      the rest of the line becomes `url`. */
  lemma {:induction false} SubLineAt(line: string, key: string, url: string, j: nat)
    requires key != []
    requires OccursAt(line, key, j)
    requires forall p | 0 <= p < j :: !OccursAt(line, key, p)
    ensures SubLine(line, key, url) == line[..j] + url
    decreases j
  {
    if j == 0 {
      assert line[..0] + url == url;
    } else {
      assert !OccursAt(line, key, 0);
      OccursShift(line, key, j - 1);
      forall p | 0 <= p < j - 1 ensures !OccursAt(line[1..], key, p) {
        OccursShift(line, key, p);
      }
      SubLineAt(line[1..], key, url, j - 1);
      assert !StartsWith(line, key) by {
        if |key| <= |line| { assert line[..|key|] == line[0..|key|]; }
      }
      calc {
        SubLine(line, key, url);
        [line[0]] + (line[1..][..j - 1] + url);
        ([line[0]] + line[1..][..j - 1]) + url;
        { assert [line[0]] + line[1..][..j - 1] == line[..j]; }
        line[..j] + url;
      }
    }
  }

  lemma OccursShift(s: string, key: string, p: nat)
    requires s != []
    ensures OccursAt(s[1..], key, p) <==> OccursAt(s, key, p + 1)
  {
    if p + 1 + |key| <= |s| {
      assert s[1..][p..p + |key|] == s[p + 1..p + 1 + |key|];
    }
  }

  lemma {:induction false} LineLenAppend(a: string, b: string)
    requires '\n' !in a
    ensures LineLen(a + b) == |a| + LineLen(b)
    decreases |a|
  {
    if a == [] {
      assert a + b == b;
    } else {
      assert (a + b)[1..] == a[1..] + b;
      LineLenAppend(a[1..], b);
    }
  }

  /** The first piece of `split("\n")` is the first line, and the rest are
      the pieces of what follows its `\n`. */
  lemma {:induction false} SplitFirstLine(s: string)
    ensures var e := LineLen(s);
      Split(s, '\n') == if e == |s| then [s] else [s[..e]] + Split(s[e + 1..], '\n')
    decreases |s|
  {
    if s != [] && s[0] != '\n' {
      var t := s[1..];
      var l := LineLen(t);
      SplitFirstLine(t);
      var rest := Split(t, '\n');
      assert Split(s, '\n') == [[s[0]] + rest[0]] + rest[1..];
      if l == |t| {
        assert [s[0]] + t == s;
      } else {
        assert [s[0]] + t[..l] == s[..l + 1];
        assert t[l + 1..] == s[l + 2..];
      }
    }
  }

  /** The scan after a match: the `\n` that ended it, if any, is copied. */
  lemma ScanBreak(s: string, key: string, url: string)
    requires LineKey(key) && s != [] && s[0] == '\n'
    ensures Substitute(s, key, url) == "\n" + Substitute(s[1..], key, url)
  {
    assert key[0] != s[0];
  }

  /** The scan over one line: the line's substitution, then the `\n` that
      ends it and the scan of what follows. */
  ghost predicate ScansLine(s: string, key: string, url: string)
    requires key != []
  {
    var e := LineLen(s);
    Substitute(s, key, url) == SubLine(s[..e], key, url) + if e < |s| then "\n" + Substitute(s[e + 1..], key, url) else ""
  }

  lemma ScanMatch(s: string, key: string, url: string)
    requires LineKey(key) && StartsWith(s, key)
    ensures ScansLine(s, key, url)
  {
    var e := LineLen(s);
    var rest := s[|key|..];
    assert s == key + rest;
    LineLenAppend(key, rest);
    assert StartsWith(s[..e], key) by {
      assert s[..e][..|key|] == s[..|key|];
    }
    assert Substitute(s, key, url) == url + Substitute(s[e..], key, url);
    if e < |s| {
      ScanBreak(s[e..], key, url);
      assert s[e..][1..] == s[e + 1..];
    } else {
      assert s[e..] == [];
    }
  }

  lemma ScanOther(s: string, key: string, url: string)
    requires LineKey(key) && s != [] && s[0] != '\n' && !StartsWith(s, key)
    requires ScansLine(s[1..], key, url)
    ensures ScansLine(s, key, url)
  {
    var t := s[1..];
    var e := LineLen(s);
    var e' := LineLen(t);
    assert e == e' + 1;
    var tail := if e' < |t| then "\n" + Substitute(t[e' + 1..], key, url) else "";
    if e' < |t| {
      assert t[e' + 1..] == s[e + 1..];
    }
    assert !StartsWith(s[..e], key) by {
      if |key| <= e { assert s[..e][..|key|] == s[..|key|]; }
    }
    assert s[..e][1..] == t[..e'];
    calc {
      Substitute(s, key, url);
      [s[0]] + Substitute(t, key, url);
      [s[0]] + (SubLine(t[..e'], key, url) + tail);
      ([s[0]] + SubLine(t[..e'], key, url)) + tail;
      SubLine(s[..e], key, url) + tail;
    }
  }

  lemma {:induction false} ScanLine(s: string, key: string, url: string)
    requires LineKey(key)
    ensures ScansLine(s, key, url)
    decreases |s|
  {
    if s == [] {
    } else if StartsWith(s, key) {
      ScanMatch(s, key, url);
    } else if s[0] == '\n' {
      ScanBreak(s, key, url);
      assert s[..LineLen(s)] == [];
    } else {
      ScanLine(s[1..], key, url);
      ScanOther(s, key, url);
    }
  }

  /** `re.sub` with such a pattern works line by line: the result is the
      substitution of each line, joined again with `\n`. With `SubLineNone`
      and `SubLineAt`: every line without the key is unchanged, and on the
      others the text before the first occurrence is kept. */
  lemma {:induction false} SubstituteLines(s: string, key: string, url: string)
    requires LineKey(key)
    ensures Substitute(s, key, url) == Join(SubLines(Split(s, '\n'), key, url), '\n')
    decreases |s|
  {
    ScanLine(s, key, url);
    SplitFirstLine(s);
    if LineLen(s) == |s| {
      SubstituteOneLine(s, key, url);
    } else {
      SubstituteLines(s[LineLen(s) + 1..], key, url);
      SubstituteMoreLines(s, key, url);
    }
  }

  lemma SubstituteOneLine(s: string, key: string, url: string)
    requires LineKey(key) && LineLen(s) == |s|
    requires ScansLine(s, key, url) && Split(s, '\n') == [s]
    ensures Substitute(s, key, url) == Join(SubLines(Split(s, '\n'), key, url), '\n')
  {
    assert s[..LineLen(s)] == s;
    var only := SubLine(s, key, url);
    var lines := SubLines([s], key, url);
    assert lines == [only] by {
      assert |lines| == 1 && lines[0] == only;
    }
    calc {
      Substitute(s, key, url);
      only + "";
      only;
      Join(lines, '\n');
    }
  }

  lemma SubstituteMoreLines(s: string, key: string, url: string)
    requires LineKey(key) && LineLen(s) < |s|
    requires var e := LineLen(s);
      && ScansLine(s, key, url)
      && Split(s, '\n') == [s[..e]] + Split(s[e + 1..], '\n')
      && Substitute(s[e + 1..], key, url) == Join(SubLines(Split(s[e + 1..], '\n'), key, url), '\n')
    ensures Substitute(s, key, url) == Join(SubLines(Split(s, '\n'), key, url), '\n')
  {
    var e := LineLen(s);
    var rest := s[e + 1..];
    var first := SubLine(s[..e], key, url);
    var later := SubLines(Split(rest, '\n'), key, url);
    SubLinesCons(s[..e], Split(rest, '\n'), key, url);
    var lines := [first] + later;
    assert lines[0] == first && lines[1..] == later && |lines| > 1;
    calc {
      Substitute(s, key, url);
      first + ("\n" + Substitute(rest, key, url));
      first + ("\n" + Join(later, '\n'));
      first + ['\n'] + Join(later, '\n');
      Join(lines, '\n');
    }
  }

  lemma SubLinesCons(line: string, lines: seq<string>, key: string, url: string)
    requires key != []
    ensures SubLines([line] + lines, key, url) == [SubLine(line, key, url)] + SubLines(lines, key, url)
  {
    var all := [line] + lines;
    var l, r := SubLines(all, key, url), [SubLine(line, key, url)] + SubLines(lines, key, url);
    forall k | 0 <= k < |l| ensures l[k] == r[k] {
      if k > 0 {
        assert all[k] == lines[k - 1];
      }
    }
  }

  /** Every piece of a split lacks the separator. */
  lemma {:induction false} SplitPiecesLackSep(s: string, sep: char)
    ensures forall k | 0 <= k < |Split(s, sep)| :: sep !in Split(s, sep)[k]
    decreases |s|
  {
    if s != [] {
      var rest := Split(s[1..], sep);
      SplitPiecesLackSep(s[1..], sep);
      SplitHead(s, sep);
      if s[0] != sep {
        forall k | 1 <= k < |Split(s, sep)| ensures sep !in Split(s, sep)[k] {
          assert Split(s, sep)[k] == rest[k];
        }
      } else {
        forall k | 1 <= k < |Split(s, sep)| ensures sep !in Split(s, sep)[k] {
          assert Split(s, sep)[k] == rest[k - 1];
        }
      }
    }
  }

  /** `r` is the text of `line` up to some point, followed by `url`. */
  predicate CutThenUrl(line: string, r: string, url: string) {
    exists j | 0 <= j <= |line| :: r == line[..j] + url
  }

  /** The substitution of a line is the line itself, or its text up to
      some point followed by `url`. */
  lemma {:induction false} SubLineForm(line: string, key: string, url: string)
    requires key != []
    ensures SubLine(line, key, url) == line || CutThenUrl(line, SubLine(line, key, url), url)
    decreases |line|
  {
    if line != [] {
      if StartsWith(line, key) {
        assert SubLine(line, key, url) == line[..0] + url;
      } else {
        SubLineForm(line[1..], key, url);
        SubLineFormStep(line, key, url);
      }
    }
  }

  /** The step of `SubLineForm` past a first character that does not start
      the key. */
  lemma SubLineFormStep(line: string, key: string, url: string)
    requires key != [] && line != [] && !StartsWith(line, key)
    requires var r := SubLine(line[1..], key, url); r == line[1..] || CutThenUrl(line[1..], r, url)
    ensures SubLine(line, key, url) == line || CutThenUrl(line, SubLine(line, key, url), url)
  {
    var t := line[1..];
    var r := SubLine(t, key, url);
    assert SubLine(line, key, url) == [line[0]] + r;
    if r == t {
      assert [line[0]] + t == line;
    } else {
      var j :| 0 <= j <= |t| && r == t[..j] + url;
      ConsCut(line, j, url);
    }
  }

  /** Putting back the first character of a line in front of a cut of the
      rest of it and `url`. */
  lemma ConsCut(line: string, j: nat, url: string)
    requires j < |line|
    ensures [line[0]] + (line[1..][..j] + url) == line[..j + 1] + url
  {
    assert [line[0]] + line[1..][..j] == line[..j + 1];
  }

  /** No proper prefix of `key` is also a suffix of it: no occurrence can
      start in kept text and run on into a replacement. */
  predicate BorderFree(key: string) {
    forall d | 0 < d < |key| :: key[d..] != key[..|key| - d]
  }

  /** `distributionUrl=` is border free: its one `=` is its last character. */
  lemma UrlKeyBorderFree()
    ensures LineKey(UrlKey) && BorderFree(UrlKey)
  {
    var key := UrlKey;
    assert |key| == 16 && key[15] == '=';
    assert forall k | 0 <= k < 15 :: key[k] != '=';
    forall d | 0 < d < |key| ensures key[d..] != key[..|key| - d] {
      assert key[d..][15 - d] == '=' && key[..|key| - d][15 - d] == key[15 - d];
    }
  }

  /** Kept text that does not start with the key, followed by `url`: no
      occurrence of a border-free key starts at its beginning. */
  lemma KeptThenUrl(line: string, key: string, url: string, j: nat)
    requires key != [] && BorderFree(key) && StartsWith(url, key)
    requires !StartsWith(line, key) && 1 <= j <= |line|
    ensures !StartsWith(line[..j] + url, key)
  {
    var w := line[..j] + url;
    var k := |key|;
    if j >= k {
      assert w[..k] == line[..k];
    } else {
      assert w[j..k] == url[..k - j] == key[..k - j];
      assert key[j..] != key[..k - j];
    }
  }

  /** A line that does not start with the key still does not once the rest
      of it is substituted. */
  lemma HeadStaysKept(line: string, key: string, url: string)
    requires key != [] && BorderFree(key) && StartsWith(url, key)
    requires line != [] && !StartsWith(line, key)
    ensures !StartsWith(SubLine(line, key, url), key)
  {
    var t := line[1..];
    var r := SubLine(t, key, url);
    var whole := [line[0]] + r;
    assert SubLine(line, key, url) == whole;
    SubLineForm(t, key, url);
    if r == t {
      assert whole == line;
    } else {
      var j :| 0 <= j <= |t| && r == t[..j] + url;
      ConsCut(line, j, url);
      KeptThenUrl(line, key, url, j + 1);
    }
  }

  /** A replaced line is replaced again to itself when `url` itself starts
      with the key. */
  lemma {:induction false} SubLineIdempotent(line: string, key: string, url: string)
    requires key != [] && BorderFree(key) && StartsWith(url, key)
    ensures SubLine(SubLine(line, key, url), key, url) == SubLine(line, key, url)
    decreases |line|
  {
    if line != [] && !StartsWith(line, key) {
      var r := SubLine(line[1..], key, url);
      SubLineIdempotent(line[1..], key, url);
      var whole := SubLine(line, key, url);
      assert whole == [line[0]] + r;
      HeadStaysKept(line, key, url);
      assert whole[0] == line[0] && whole[1..] == r;
    }
  }

  /** For a replacement that starts with the key and has no line break,
      substituting twice is substituting once. */
  lemma SubstituteTwice(s: string, key: string, url: string)
    requires LineKey(key) && BorderFree(key) && StartsWith(url, key) && '\n' !in url
    ensures Substitute(Substitute(s, key, url), key, url) == Substitute(s, key, url)
  {
    var lines := Split(s, '\n');
    var once := SubLines(lines, key, url);
    SubstituteLines(s, key, url);
    SplitPiecesLackSep(s, '\n');
    forall k | 0 <= k < |once| ensures '\n' !in once[k] {
      SubLineForm(lines[k], key, url);
      if once[k] != lines[k] {
        var j :| 0 <= j <= |lines[k]| && once[k] == lines[k][..j] + url;
        assert '\n' !in lines[k][..j];
      }
    }
    SplitJoin(once, '\n');
    SubstituteLines(Join(once, '\n'), key, url);
    forall k | 0 <= k < |once| ensures SubLine(once[k], key, url) == once[k] {
      SubLineIdempotent(lines[k], key, url);
    }
    assert SubLines(once, key, url) == once;
  }

  /** The fixed parts of the replacement hold no line break. */
  lemma UrlTailNoBreak(version: string)
    requires '\n' !in version
    ensures '\n' !in UrlTail(version)
  {
    assert '\n' !in DistributionHost;
    assert '\n' !in DistributionDir;
  }

  /** The replacement starts with the key, and has no line break when the
      version has none. */
  lemma DistributionUrlShape(version: string)
    requires '\n' !in version
    ensures StartsWith(DistributionUrl(version), UrlKey) && '\n' !in DistributionUrl(version)
  {
    UrlTailNoBreak(version);
    UrlKeyBorderFree();
    assert DistributionUrl(version)[..|UrlKey|] == UrlKey;
  }

  /** The wrapper rewrite, for a version with no newline, is idempotent. */
  lemma WrapperRewriteIdempotent(s: string, version: string)
    requires '\n' !in version
    ensures var url := DistributionUrl(version);
      Substitute(Substitute(s, UrlKey, url), UrlKey, url) == Substitute(s, UrlKey, url)
  {
    var url := DistributionUrl(version);
    DistributionUrlShape(version);
    UrlKeyBorderFree();
    SubstituteTwice(s, UrlKey, url);
  }

  /** What can stop a step: a file it reads is missing, or the model fails. */
  datatype StepError = FileNotFound(file: Path) | ModelUnavailable

  /** `project_root / "gradle/wrapper/gradle-wrapper.properties"`, with the
      string already split into parts. */
  function WrapperFile(root: Path): Path {
    JoinPath(root, Path(false, ["gradle", "wrapper", "gradle-wrapper.properties"]))
  }

  /** `project_root / "build.gradle"` */
  function BuildFile(root: Path): Path {
    JoinPath(root, Path(false, ["build.gradle"]))
  }

  /** `upgrade_gradle_wrapper` */
  function UpgradeWrapper(fs: FileSystem, root: Path, version: string): Result<FileSystem, StepError> {
    var wrapper := WrapperFile(root);
    if wrapper !in fs then Failure(FileNotFound(wrapper))
    else Success(fs[wrapper := Substitute(fs[wrapper], UrlKey, DistributionUrl(version))])
  }

  /** `upgrade_build_gradle_llm`: `n` requests were made before. */
  function UpgradeBuild(fs: FileSystem, root: Path, model: Model, n: nat, plan: MigrationPlan): Result<FileSystem, StepError> {
    var build := BuildFile(root);
    if build !in fs then Failure(FileNotFound(build))
    else
      match model(n, RegenerateBuildFile(fs[build], plan))
      case Unavailable => Failure(ModelUnavailable)
      case Answer(text) => Success(fs[build := text])
  }

  /** `run_build_migration_agent` once the plan is loaded: the file system
      as the run leaves it, and the error that ended it. A failure of the
      second step leaves the upgraded wrapper in place. */
  function BuildMigration(fs: FileSystem, root: Path, model: Model, plan: MigrationPlan): (FileSystem, Option<StepError>) {
    match UpgradeWrapper(fs, root, DefaultGradleVersion)
    case Failure(e) => (fs, Some(e))
    case Success(upgraded) =>
      match UpgradeBuild(upgraded, root, model, 0, plan)
      case Failure(e) => (upgraded, Some(e))
      case Success(regenerated) => (regenerated, None)
  }

  method UpgradeGradleWrapper(fs: FileSystem, root: Path, version: string) returns (fs': FileSystem, error: Option<StepError>)
    ensures error.None? ==> UpgradeWrapper(fs, root, version) == Success(fs')
    ensures error.Some? ==> UpgradeWrapper(fs, root, version) == Failure(error.value) && fs' == fs
  {
    var wrapperFile := WrapperFile(root);
    if wrapperFile !in fs {
      return fs, Some(FileNotFound(wrapperFile));
    }
    var content := fs[wrapperFile];
    content := Substitute(content, UrlKey, DistributionUrl(version));
    return fs[wrapperFile := content], None;
  }

  method UpgradeBuildGradleLlm(fs: FileSystem, root: Path, model: Model, n: nat, plan: MigrationPlan)
    returns (fs': FileSystem, error: Option<StepError>)
    ensures error.None? ==> UpgradeBuild(fs, root, model, n, plan) == Success(fs')
    ensures error.Some? ==> UpgradeBuild(fs, root, model, n, plan) == Failure(error.value) && fs' == fs
  {
    var buildFile := BuildFile(root);
    if buildFile !in fs {
      return fs, Some(FileNotFound(buildFile));
    }
    var oldBuild := fs[buildFile];
    var reply := model(n, RegenerateBuildFile(oldBuild, plan));
    if reply.Unavailable? {
      return fs, Some(ModelUnavailable);
    }
    var newBuild := reply.text;
    return fs[buildFile := newBuild], None;
  }

  /** `run_build_migration_agent`: upgrade the wrapper, then regenerate
      `build.gradle`; the first error ends the run. */
  method RunBuildMigrationAgent(fs: FileSystem, root: Path, model: Model, plan: MigrationPlan)
    returns (fs': FileSystem, error: Option<StepError>)
    ensures (fs', error) == BuildMigration(fs, root, model, plan)
  {
    fs', error := UpgradeGradleWrapper(fs, root, DefaultGradleVersion);
    if error.Some? {
      return;
    }
    fs', error := UpgradeBuildGradleLlm(fs', root, model, 0, plan);
  }

  /** The wrapper goes first. A missing wrapper ends the run with nothing
      written and the model not asked; otherwise the wrapper holds the
      text substituted for Gradle 8.6, whatever happens next. When the run
      succeeds, `build.gradle` holds the model's reply exactly; when it
      fails after the wrapper, the upgraded wrapper is the only change. */
  lemma MigrationWrites(fs: FileSystem, root: Path, model: Model, plan: MigrationPlan)
    ensures var (fs', error) := BuildMigration(fs, root, model, plan);
      var wrapper, build := WrapperFile(root), BuildFile(root);
      && (wrapper !in fs ==> fs' == fs && error == Some(FileNotFound(wrapper)))
      && (wrapper in fs ==>
            var upgraded := fs[wrapper := Substitute(fs[wrapper], UrlKey, DistributionUrl(DefaultGradleVersion))];
            && (error.Some? ==> fs' == upgraded)
            && (error.None? ==>
                  && build in fs && model(0, RegenerateBuildFile(fs[build], plan)) == Answer(fs'[build])
                  && fs' == upgraded[build := fs'[build]]))
  {
    var wrapper, build := WrapperFile(root), BuildFile(root);
    assert |wrapper.parts| != |build.parts|;
  }
}
