/** The rewrite agent: `extract_package_and_class`, the structural guard and
    conditional write of `rewrite_file`, and the pass of `run_rewrite_agent`
    over the classification. */
module Rewrite {
  import opened Text
  import opened Wrappers
  import opened Paths
  import opened Oracle
  import opened Classifier

  /** A line whose stripped text starts with `package `. */
  predicate IsPackageLine(line: string) {
    StartsWith(Strip(line), "package ")
  }

  /** A line whose raw text holds ` class `. */
  predicate IsClassLine(line: string) {
    Contains(line, " class ")
  }

  /** What `extract_package_and_class` returns: the package line and the
      class line, both stripped, where they are found. */
  datatype Header = Header(package: Option<string>, cls: Option<string>)

  /** Which of the lines are class lines. */
  function ClassFlags(lines: seq<string>): (f: seq<bool>)
    ensures |f| == |lines| && forall k | 0 <= k < |lines| :: f[k] == IsClassLine(lines[k])
  {
    seq(|lines|, k requires 0 <= k < |lines| => IsClassLine(lines[k]))
  }

  /** The first index that is set. */
  function FirstSet(flags: seq<bool>): (c: Option<nat>)
    ensures c.Some? ==> c.value < |flags| && flags[c.value]
    ensures c.Some? ==> forall k | 0 <= k < c.value :: !flags[k]
    ensures c.None? ==> forall k | 0 <= k < |flags| :: !flags[k]
  {
    if flags == [] then None
    else if flags[0] then Some(0)
    else
      match FirstSet(flags[1..])
      case Some(k) => Some(k + 1)
      case None => None
  }

  /** The last of the first `n` lines that `keep` accepts. */
  function LastWhere(lines: seq<string>, n: nat, keep: string -> bool): (r: Option<nat>)
    requires n <= |lines|
    ensures r.Some? ==> r.value < n
  {
    if n == 0 then None
    else if keep(lines[n - 1]) then Some(n - 1)
    else LastWhere(lines, n - 1, keep)
  }

  /** `LastWhere` finds the last accepted line before `n`, and finds
      nothing only when there is none. */
  lemma {:induction false} LastWhereLast(lines: seq<string>, n: nat, keep: string -> bool)
    requires n <= |lines|
    ensures var r := LastWhere(lines, n, keep);
      && (r.Some? ==> keep(lines[r.value]) && forall m | r.value < m < n :: !keep(lines[m]))
      && (r.None? ==> forall k | 0 <= k < n :: !keep(lines[k]))
  {
    if n > 0 && !keep(lines[n - 1]) {
      LastWhereLast(lines, n - 1, keep);
    }
  }

  /** The last package line among the first `n` lines, stripped. */
  function PackageUpTo(lines: seq<string>, n: nat): Option<string>
    requires n <= |lines|
  {
    match LastWhere(lines, n, IsPackageLine)
    case Some(k) => Some(Strip(lines[k]))
    case None => None
  }

  /** Only the first `n` lines have a say. */
  lemma {:induction false} LastWherePrefix(a: seq<string>, b: seq<string>, n: nat, keep: string -> bool)
    requires n <= |a| && n <= |b| && forall k | 0 <= k < n :: a[k] == b[k]
    ensures LastWhere(a, n, keep) == LastWhere(b, n, keep)
  {
    if n > 0 {
      LastWherePrefix(a, b, n - 1, keep);
    }
  }

  /** The header of a file made of `lines`: the first class line, and the
      last package line at or before it. */
  function HeaderOfLines(lines: seq<string>): Header {
    match FirstSet(ClassFlags(lines))
    case Some(c) => Header(PackageUpTo(lines, c + 1), Some(Strip(lines[c])))
    case None => Header(PackageUpTo(lines, |lines|), None)
  }

  /** The header of a Java source, over the lines `splitlines` gives. */
  function PackageAndClass(code: string): Header {
    HeaderOfLines(SplitLines(code))
  }

  /** `extract_package_and_class`: walk the lines, remember the latest
      package line, stop at the first class line. */
  method ExtractPackageAndClass(javaCode: string) returns (packageLine: Option<string>, className: Option<string>)
    ensures Header(packageLine, className) == PackageAndClass(javaCode)
  {
    var lines := SplitLines(javaCode);
    packageLine, className := None, None;
    var i := 0;
    while i < |lines|
      invariant i <= |lines|
      invariant forall k | 0 <= k < i :: !IsClassLine(lines[k])
      invariant packageLine == PackageUpTo(lines, i)
    {
      var line := lines[i];
      if IsPackageLine(line) {
        packageLine := Some(Strip(line));
      }
      if IsClassLine(line) {
        className := Some(Strip(line));
        FirstClassAt(lines, i);
        return;
      }
      i := i + 1;
    }
    NoClassLine(lines);
  }

  /** The first class line found by the scan is the one `HeaderOfLines`
      reports ... */
  lemma FirstClassAt(lines: seq<string>, i: nat)
    requires i < |lines| && IsClassLine(lines[i]) && forall k | 0 <= k < i :: !IsClassLine(lines[k])
    ensures HeaderOfLines(lines) == Header(PackageUpTo(lines, i + 1), Some(Strip(lines[i])))
  {
    FirstSetAt(ClassFlags(lines), i);
  }

  lemma FirstSetAt(flags: seq<bool>, i: nat)
    requires i < |flags| && flags[i] && forall k | 0 <= k < i :: !flags[k]
    ensures FirstSet(flags) == Some(i)
  {
  }

  /** ... and a scan that finds none reports the last package line. */
  lemma NoClassLine(lines: seq<string>)
    requires forall k | 0 <= k < |lines| :: !IsClassLine(lines[k])
    ensures HeaderOfLines(lines) == Header(PackageUpTo(lines, |lines|), None)
  {
    var flags := ClassFlags(lines);
    assert forall k | 0 <= k < |flags| :: !flags[k];
  }

  /** Lines after the first class line have no say in the header. */
  lemma LaterLinesIgnored(lines: seq<string>, more: seq<string>)
    requires FirstSet(ClassFlags(lines)).Some?
    ensures HeaderOfLines(lines + more) == HeaderOfLines(lines)
  {
    var c := FirstSet(ClassFlags(lines)).value;
    var all := lines + more;
    assert forall k | 0 <= k <= c :: all[k] == lines[k];
    assert FirstSet(ClassFlags(all)) == Some(c);
    LastWherePrefix(all, lines, c + 1, IsPackageLine);
  }

  /** A class line is never blank, so its stripped form is never empty. */
  lemma ClassLineNotBlank(line: string)
    requires IsClassLine(line)
    ensures Strip(line) != ""
  {
    var i :| 0 <= i <= |line| - 7 && OccursAt(line, " class ", i);
    assert line[i + 1] == " class "[1];
    assert !IsSpace(line[i + 1]);
    StripShape(line);
  }

  /** What the header holds is never the empty string, so the source's
      truthiness tests on it are tests for presence. */
  lemma HeaderNotEmpty(code: string)
    ensures PackageAndClass(code).package.Some? ==> PackageAndClass(code).package.value != ""
    ensures PackageAndClass(code).cls.Some? ==> PackageAndClass(code).cls.value != ""
  {
    var lines := SplitLines(code);
    var c := FirstSet(ClassFlags(lines));
    if c.Some? {
      ClassLineNotBlank(lines[c.value]);
    }
    LastWhereLast(lines, if c.Some? then c.value + 1 else |lines|, IsPackageLine);
  }

  /** Why the guard turns a candidate down. */
  datatype Rejection = EmptyOutput | PackageMismatch | ClassMismatch

  /** Python truthiness of an optional string. */
  predicate Truthy(o: Option<string>) {
    o.Some? && o.value != ""
  }

  /** The guard of `rewrite_file`: the candidate must not be blank, must
      contain the original's package line and the part of its class line
      before the first `{`. Only the original's header is consulted, and
      the blank test comes first. */
  function Vet(original: string, candidate: string): (r: Option<Rejection>)
    ensures r == Some(EmptyOutput) <==> IsBlank(candidate)
    ensures r.None? <==>
      && !IsBlank(candidate)
      && (PackageAndClass(original).package.Some? ==> Contains(candidate, PackageAndClass(original).package.value))
      && (PackageAndClass(original).cls.Some? ==> Contains(candidate, BeforeFirst(PackageAndClass(original).cls.value, '{')))
  {
    HeaderNotEmpty(original);
    var h := PackageAndClass(original);
    if IsBlank(candidate) then Some(EmptyOutput)
    else if Truthy(h.package) && !Contains(candidate, h.package.value) then Some(PackageMismatch)
    else if Truthy(h.cls) && !Contains(candidate, BeforeFirst(h.cls.value, '{')) then Some(ClassMismatch)
    else None
  }

  /** The part of a string before its first `c` is a piece of it. */
  lemma BeforeFirstContained(s: string, c: char)
    ensures Contains(s, BeforeFirst(s, c))
  {
    var b := BeforeFirst(s, c);
    SplitHead(s, c);
    assert OccursAt(s, b, 0);
  }

  /** A stripped line of a text is a piece of the text. */
  lemma StrippedLineContained(code: string, k: nat)
    requires k < |SplitLines(code)|
    ensures Contains(code, Strip(SplitLines(code)[k]))
  {
    LineInText(code, 0, k);
    StripShape(SplitLines(code)[k]);
    ContainsTransitive(code, SplitLines(code)[k], Strip(SplitLines(code)[k]));
  }

  /** A source holds its own package line ... */
  lemma PackageInSource(code: string)
    ensures PackageAndClass(code).package.Some? ==> Contains(code, PackageAndClass(code).package.value)
  {
    var lines := SplitLines(code);
    var c := FirstSet(ClassFlags(lines));
    var n := if c.Some? then c.value + 1 else |lines|;
    var k := LastWhere(lines, n, IsPackageLine);
    assert PackageAndClass(code).package == PackageUpTo(lines, n);
    if k.Some? {
      StrippedLineContained(code, k.value);
    }
  }

  /** ... and the part of its class line before the first `{`. */
  lemma ClassInSource(code: string)
    ensures PackageAndClass(code).cls.Some? ==> Contains(code, BeforeFirst(PackageAndClass(code).cls.value, '{'))
  {
    var lines := SplitLines(code);
    var c := FirstSet(ClassFlags(lines));
    if c.Some? {
      var line := Strip(lines[c.value]);
      assert PackageAndClass(code).cls == Some(line);
      StrippedLineContained(code, c.value);
      BeforeFirstContained(line, '{');
      ContainsTransitive(code, line, BeforeFirst(line, '{'));
    }
  }

  /** A rewrite that returns the original unchanged passes the guard,
      unless the original is blank. */
  lemma IdentityAccepted(code: string)
    requires !IsBlank(code)
    ensures Vet(code, code).None?
  {
    PackageInSource(code);
    ClassInSource(code);
  }

  /** Why a rewrite does not happen. Each of these is an exception in the
      source that ends the run. */
  datatype Failure =
    | SourceMissing(file: Path)
    | OracleUnavailable
    | Rejected(file: Path, why: Rejection)
    | NotUnderRoot(file: Path)

  /** The outcome of `rewrite_file(oldFile, newFile)` as the `n`-th request
      to the model: the new file system, or the failure. */
  function RewriteOutcome(fs: FileSystem, model: Model, n: nat, oldFile: Path, newFile: Path): Result<FileSystem, Failure> {
    if oldFile !in fs then Failure(SourceMissing(oldFile))
    else
      match model(n, RewriteSource(fs[oldFile]))
      case Unavailable => Failure(OracleUnavailable)
      case Answer(code) =>
        match Vet(fs[oldFile], code)
        case Some(why) => Failure(Rejected(oldFile, why))
        case None => Success(fs[newFile := code])
  }

  /** `rewrite_file`: read the old file, ask the model for a rewrite, check
      the rewrite against the old file's header, and write it only when it
      passes. */
  method RewriteFile(fs: FileSystem, model: Model, n: nat, oldFile: Path, newFile: Path)
    returns (fs': FileSystem, failure: Option<Failure>)
    ensures failure.None? ==> RewriteOutcome(fs, model, n, oldFile, newFile) == Success(fs')
    ensures failure.Some? ==> RewriteOutcome(fs, model, n, oldFile, newFile) == Failure(failure.value) && fs' == fs
  {
    fs' := fs;
    if oldFile !in fs {
      return fs, Some(SourceMissing(oldFile));
    }
    var oldCode := fs[oldFile];
    var reply := model(n, RewriteSource(oldCode));
    if reply.Unavailable? {
      return fs, Some(OracleUnavailable);
    }
    var newCode := reply.text;
    var oldPkg, oldClass := ExtractPackageAndClass(oldCode);
    var newPkg, newClass := ExtractPackageAndClass(newCode);
    HeaderNotEmpty(oldCode);
    StripShape(newCode);
    if Strip(newCode) == "" {
      return fs, Some(Rejected(oldFile, EmptyOutput));
    }
    if Truthy(oldPkg) && !Contains(newCode, oldPkg.value) {
      return fs, Some(Rejected(oldFile, PackageMismatch));
    }
    if Truthy(oldClass) && !Contains(newCode, BeforeFirst(oldClass.value, '{')) {
      return fs, Some(Rejected(oldFile, ClassMismatch));
    }
    fs' := fs[newFile := newCode];
    failure := None;
  }

  /** A rewrite changes at most the destination, which then holds exactly
      the model's reply, and only when that reply passes the guard. */
  lemma RewriteWritesOnlyDestination(fs: FileSystem, model: Model, n: nat, oldFile: Path, newFile: Path)
    requires RewriteOutcome(fs, model, n, oldFile, newFile).Success?
    ensures oldFile in fs && model(n, RewriteSource(fs[oldFile])).Answer?
    ensures Vet(fs[oldFile], model(n, RewriteSource(fs[oldFile])).text).None?
    ensures RewriteOutcome(fs, model, n, oldFile, newFile).value == fs[newFile := model(n, RewriteSource(fs[oldFile])).text]
  {
  }

  /** A reply that is empty or only whitespace is always turned down as
      empty output, whatever the original. */
  lemma BlankReplyRejected(fs: FileSystem, model: Model, n: nat, oldFile: Path, newFile: Path)
    requires oldFile in fs
    requires var reply := model(n, RewriteSource(fs[oldFile])); reply.Answer? && IsBlank(reply.text)
    ensures RewriteOutcome(fs, model, n, oldFile, newFile) == Failure(Rejected(oldFile, EmptyOutput))
  {
  }

  /** A model that hands the source back unchanged gets it written at the
      destination, unless the source is blank. */
  lemma EchoWritten(fs: FileSystem, model: Model, n: nat, oldFile: Path, newFile: Path)
    requires oldFile in fs && !IsBlank(fs[oldFile]) && model(n, RewriteSource(fs[oldFile])) == Answer(fs[oldFile])
    ensures RewriteOutcome(fs, model, n, oldFile, newFile) == Success(fs[newFile := fs[oldFile]])
  {
    IdentityAccepted(fs[oldFile]);
  }

  /** The one category the rewrite pass acts on. */
  const MajorRewrite: string := "MAJOR_REWRITE"

  /** Where an entry is rewritten to: its path relative to the old root,
      under the new root; None when the path is not under the old root. */
  function Destination(oldRoot: Path, newRoot: Path, path: string): Option<Path> {
    match RelativeTo(Parse(path), oldRoot)
    case Some(rel) => Some(JoinPath(newRoot, rel))
    case None => None
  }

  /** The state of a pass: the file system and the number of requests made
      to the model so far. */
  datatype Pass = Pass(fs: FileSystem, requests: nat)

  /** `run_rewrite_agent` over the entries in order: skip every entry that
      is not `MAJOR_REWRITE`, rewrite the others, stop at the first failure
      with the file system as it then is. */
  function RewritePass(p: Pass, model: Model, oldRoot: Path, newRoot: Path, entries: seq<Entry>): (Pass, Option<Failure>)
    decreases |entries|
  {
    if entries == [] then (p, None)
    else
      var e := entries[0];
      if e.decision != MajorRewrite then RewritePass(p, model, oldRoot, newRoot, entries[1..])
      else
        match Destination(oldRoot, newRoot, e.path)
        case None => (p, Some(NotUnderRoot(Parse(e.path))))
        case Some(dest) =>
          var oldFile := Parse(e.path);
          var asked := if oldFile in p.fs then p.requests + 1 else p.requests;
          match RewriteOutcome(p.fs, model, p.requests, oldFile, dest)
          case Failure(f) => (Pass(p.fs, asked), Some(f))
          case Success(fs') => RewritePass(Pass(fs', asked), model, oldRoot, newRoot, entries[1..])
  }

  /** One `MAJOR_REWRITE` entry under the old root: rewrite it, then go on
      unless that failed. */
  lemma PassStep(p: Pass, model: Model, oldRoot: Path, newRoot: Path, entries: seq<Entry>, dest: Path)
    requires entries != [] && entries[0].decision == MajorRewrite
    requires Destination(oldRoot, newRoot, entries[0].path) == Some(dest)
    ensures var oldFile := Parse(entries[0].path);
      var asked := if oldFile in p.fs then p.requests + 1 else p.requests;
      RewritePass(p, model, oldRoot, newRoot, entries)
      == match RewriteOutcome(p.fs, model, p.requests, oldFile, dest)
         case Failure(f) => (Pass(p.fs, asked), Some(f))
         case Success(fs') => RewritePass(Pass(fs', asked), model, oldRoot, newRoot, entries[1..])
  {
  }

  /** `run_rewrite_agent` as a loop over the classification. */
  method RunRewriteAgent(fs: FileSystem, model: Model, oldRoot: Path, newRoot: Path, entries: seq<Entry>)
    returns (fs': FileSystem, requests: nat, failure: Option<Failure>)
    ensures RewritePass(Pass(fs, 0), model, oldRoot, newRoot, entries) == (Pass(fs', requests), failure)
  {
    fs', requests, failure := fs, 0, None;
    var i := 0;
    while i < |entries|
      invariant i <= |entries|
      invariant RewritePass(Pass(fs, 0), model, oldRoot, newRoot, entries)
             == RewritePass(Pass(fs', requests), model, oldRoot, newRoot, entries[i..])
    {
      var e := entries[i];
      assert entries[i..][1..] == entries[i + 1..];
      if e.decision != MajorRewrite {
        i := i + 1;
        continue;
      }
      var oldFile := Parse(e.path);
      var rel := RelativeTo(oldFile, oldRoot);
      if rel.None? {
        return fs', requests, Some(NotUnderRoot(oldFile));
      }
      var newFile := JoinPath(newRoot, rel.value);
      PassStep(Pass(fs', requests), model, oldRoot, newRoot, entries[i..], newFile);
      var next, f := RewriteFile(fs', model, requests, oldFile, newFile);
      if oldFile in fs' {
        requests := requests + 1;
      }
      if f.Some? {
        return fs', requests, f;
      }
      fs' := next;
      i := i + 1;
    }
  }

  /** The entries the pass acts on: exactly the `MAJOR_REWRITE` ones. */
  function Majors(entries: seq<Entry>): (m: seq<Entry>)
    ensures forall k | 0 <= k < |m| :: m[k].decision == MajorRewrite
    ensures forall e :: e in m <==> e in entries && e.decision == MajorRewrite
  {
    if entries == [] then []
    else if entries[0].decision == MajorRewrite then [entries[0]] + Majors(entries[1..])
    else Majors(entries[1..])
  }

  /** The filter keeps the classification's order: the kept entries of two
      stretches in a row are those of the first, then those of the second. */
  lemma {:induction false} MajorsAppend(a: seq<Entry>, b: seq<Entry>)
    ensures Majors(a + b) == Majors(a) + Majors(b)
    decreases |a|
  {
    if a == [] {
      assert a + b == b;
    } else {
      assert (a + b)[0] == a[0] && (a + b)[1..] == a[1..] + b;
      MajorsAppend(a[1..], b);
    }
  }

  /** Entries of any other category play no part: the pass over the whole
      classification is the pass over its `MAJOR_REWRITE` entries. */
  lemma {:induction false} OnlyMajorRewritesMatter(p: Pass, model: Model, oldRoot: Path, newRoot: Path, entries: seq<Entry>)
    ensures RewritePass(p, model, oldRoot, newRoot, entries) == RewritePass(p, model, oldRoot, newRoot, Majors(entries))
    decreases |entries|
  {
    if entries != [] {
      var e := entries[0];
      if e.decision != MajorRewrite {
        OnlyMajorRewritesMatter(p, model, oldRoot, newRoot, entries[1..]);
      } else {
        var m := Majors(entries);
        assert m[0] == e && m[1..] == Majors(entries[1..]);
        forall q: Pass ensures RewritePass(q, model, oldRoot, newRoot, entries[1..]) == RewritePass(q, model, oldRoot, newRoot, m[1..]) {
          OnlyMajorRewritesMatter(q, model, oldRoot, newRoot, entries[1..]);
        }
      }
    }
  }

  /** Passing over `a + b` is passing over `a`, then, if that went through,
      over `b` from where `a` left off; a failure in `a` leaves `b`
      untouched. */
  lemma {:induction false} PassComposes(p: Pass, model: Model, oldRoot: Path, newRoot: Path, a: seq<Entry>, b: seq<Entry>)
    ensures var (q, f) := RewritePass(p, model, oldRoot, newRoot, a);
      RewritePass(p, model, oldRoot, newRoot, a + b) == if f.Some? then (q, f) else RewritePass(q, model, oldRoot, newRoot, b)
    decreases |a|
  {
    if a == [] {
      assert a + b == b;
    } else {
      assert (a + b)[0] == a[0] && (a + b)[1..] == a[1..] + b;
      forall q: Pass ensures
        var (q', f) := RewritePass(q, model, oldRoot, newRoot, a[1..]);
        RewritePass(q, model, oldRoot, newRoot, a[1..] + b) == if f.Some? then (q', f) else RewritePass(q', model, oldRoot, newRoot, b)
      {
        PassComposes(q, model, oldRoot, newRoot, a[1..], b);
      }
    }
  }

  /** Every file the pass changes or creates is the destination of a
      `MAJOR_REWRITE` entry; every other file keeps its text. */
  lemma {:induction false} PassWritesOnlyDestinations(p: Pass, model: Model, oldRoot: Path, newRoot: Path, entries: seq<Entry>, file: Path)
    requires Changed(p.fs, RewritePass(p, model, oldRoot, newRoot, entries).0.fs, file)
    ensures exists k | 0 <= k < |entries| :: entries[k].decision == MajorRewrite && Destination(oldRoot, newRoot, entries[k].path) == Some(file)
    decreases |entries|
  {
    var e, rest := entries[0], entries[1..];
    if e.decision != MajorRewrite {
      PassWritesOnlyDestinations(p, model, oldRoot, newRoot, rest, file);
      Later(entries, oldRoot, newRoot, file);
    } else {
      match Destination(oldRoot, newRoot, e.path)
      case Some(dest) =>
        if file != dest {
          var oldFile := Parse(e.path);
          var asked := if oldFile in p.fs then p.requests + 1 else p.requests;
          var r := RewriteOutcome(p.fs, model, p.requests, oldFile, dest);
          if r.Success? {
            assert Changed(r.value, RewritePass(Pass(r.value, asked), model, oldRoot, newRoot, rest).0.fs, file);
            PassWritesOnlyDestinations(Pass(r.value, asked), model, oldRoot, newRoot, rest, file);
            Later(entries, oldRoot, newRoot, file);
          }
        }
    }
  }

  /** `file` is new or different in `after`. */
  predicate Changed(before: FileSystem, after: FileSystem, file: Path) {
    file in after && (file !in before || after[file] != before[file])
  }

  lemma Later(entries: seq<Entry>, oldRoot: Path, newRoot: Path, file: Path)
    requires entries != []
    requires exists k | 0 <= k < |entries[1..]| :: entries[1..][k].decision == MajorRewrite && Destination(oldRoot, newRoot, entries[1..][k].path) == Some(file)
    ensures exists k | 0 <= k < |entries| :: entries[k].decision == MajorRewrite && Destination(oldRoot, newRoot, entries[k].path) == Some(file)
  {
    var k :| 0 <= k < |entries[1..]| && entries[1..][k].decision == MajorRewrite && Destination(oldRoot, newRoot, entries[1..][k].path) == Some(file);
    assert entries[k + 1] == entries[1..][k];
  }
}
