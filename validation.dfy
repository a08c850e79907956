/** The validation agent: build the new project, and while the build fails
    with diagnostics naming Java files, rewrite those files again from the
    old project, for at most `max_iterations` builds. */
module Validation {
  import opened Wrappers
  import opened Paths
  import opened Oracle
  import opened Diagnostics
  import opened Rewrite

  /** What `run_gradle_build` reports: whether the build succeeded, and its
      combined output. */
  datatype BuildOutcome = BuildOutcome(success: bool, output: string)

  /** The build tool: the outcome of the `n`-th build (counting from 0) of
      the new project as the file system then holds it. */
  type Build = (nat, FileSystem) -> BuildOutcome

  /** What stays fixed during a run: the model, the build tool, the set
      iteration order and the two project roots. The order in which the
      set of failing files is visited may differ from one iteration to the
      next, even for equal sets, so it also takes the iteration (counting
      from 0). */
  datatype Setup = Setup(
    model: Model,
    build: Build,
    order: (nat, set<string>) -> seq<string>,
    oldRoot: Path,
    newRoot: Path)

  const DefaultMaxIterations: int := 5

  /** How a run ends. */
  datatype End =
    | Succeeded
    | Unattributable(output: string)
    | Exhausted
    | Aborted(failure: Failure)

  /** Counters of a run: requests to the model, builds, repair rounds and
      files rewritten. */
  datatype Tally = Tally(requests: nat, builds: nat, rounds: nat, rewrites: nat)

  datatype Run = Run(fs: FileSystem, tally: Tally, end: End)

  /** The outcome of one repair round. */
  datatype Round = Round(fs: FileSystem, requests: nat, rewrites: nat, failure: Option<Failure>)

  /** One round of repairs over the failing ids in iteration order: an id
      whose old file is missing is skipped, the others are rewritten from
      `oldRoot / id` to `newRoot / id`; a failed rewrite ends the round. */
  function RepairRound(fs: FileSystem, setup: Setup, requests: nat, ids: seq<string>): Round
    decreases |ids|
  {
    if ids == [] then Round(fs, requests, 0, None)
    else
      var oldFile, newFile := Child(setup.oldRoot, ids[0]), Child(setup.newRoot, ids[0]);
      if oldFile !in fs then RepairRound(fs, setup, requests, ids[1..])
      else
        match RewriteOutcome(fs, setup.model, requests, oldFile, newFile)
        case Failure(f) => Round(fs, requests + 1, 0, Some(f))
        case Success(fs') =>
          var r := RepairRound(fs', setup, requests + 1, ids[1..]);
          r.(rewrites := r.rewrites + 1)
  }

  /** `run_validation_agent` from a point where `t.builds` builds are done. */
  function Validate(fs: FileSystem, setup: Setup, maxIterations: int, t: Tally): Run
    decreases maxIterations - t.builds, 1
  {
    if t.builds >= maxIterations then Run(fs, t, Exhausted)
    else Iterate(fs, setup, maxIterations, t)
  }

  /** One iteration of the loop: build; stop on success or on a failure
      naming no Java file; otherwise repair and go on. */
  function Iterate(fs: FileSystem, setup: Setup, maxIterations: int, t: Tally): Run
    requires t.builds < maxIterations
    decreases maxIterations - t.builds, 0
  {
    var out := setup.build(t.builds, fs);
    var built := t.(builds := t.builds + 1);
    if out.success then Run(fs, built, Succeeded)
    else
      var failed := FailedJavaFiles(out.output);
      if failed == {} then Run(fs, built, Unattributable(out.output))
      else
        var r := RepairRound(fs, setup, t.requests, setup.order(t.builds, failed));
        var repaired := Tally(r.requests, t.builds + 1, t.rounds + 1, t.rewrites + r.rewrites);
        if r.failure.Some? then Run(r.fs, repaired, Aborted(r.failure.value))
        else Validate(r.fs, setup, maxIterations, repaired)
  }

  /** The whole run, from nothing done. */
  function Validation(fs: FileSystem, setup: Setup, maxIterations: int): Run {
    Validate(fs, setup, maxIterations, Tally(0, 0, 0, 0))
  }

  /** The inner loop of `run_validation_agent`: rewrite each failing id
      in turn, skipping an id whose old file is missing, until one rewrite
      fails. */
  method RepairFiles(fs: FileSystem, setup: Setup, requests: nat, ids: seq<string>) returns (round: Round)
    ensures round == RepairRound(fs, setup, requests, ids)
  {
    var files, n, rewrites := fs, requests, 0;
    var rest := ids;
    while rest != []
      invariant var r := RepairRound(files, setup, n, rest);
        RepairRound(fs, setup, requests, ids) == r.(rewrites := rewrites + r.rewrites)
    {
      var id := rest[0];
      var newFile := Child(setup.newRoot, id);
      var oldFile := Child(setup.oldRoot, id);
      if oldFile !in files {
        rest := rest[1..];
        continue;
      }
      var next, failure := RewriteFile(files, setup.model, n, oldFile, newFile);
      if failure.Some? {
        return Round(files, n + 1, rewrites, failure);
      }
      files, n, rewrites := next, n + 1, rewrites + 1;
      rest := rest[1..];
    }
    return Round(files, n, rewrites, None);
  }

  /** `run_validation_agent`: build; stop on success or on a failure that
      names no Java file; otherwise rewrite each named file whose old
      version exists, and build again, up to `maxIterations` builds. */
  method RunValidationAgent(fs: FileSystem, setup: Setup, maxIterations: int) returns (run: Run)
    ensures run == Validation(fs, setup, maxIterations)
  {
    ghost var goal := Validation(fs, setup, maxIterations);
    var files := fs;
    var t := Tally(0, 0, 0, 0);
    var iteration := 1;
    while iteration <= maxIterations
      invariant t.builds == iteration - 1
      invariant goal == Validate(files, setup, maxIterations, t)
      decreases maxIterations - iteration
    {
      var attempt := t.builds;
      var out := setup.build(attempt, files);
      t := t.(builds := t.builds + 1);
      if out.success {
        return Run(files, t, Succeeded);
      }
      var failed := ExtractFailedJavaFiles(out.output);
      if failed == {} {
        return Run(files, t, Unattributable(out.output));
      }
      var round := RepairFiles(files, setup, t.requests, setup.order(attempt, failed));
      t := Tally(round.requests, t.builds, t.rounds + 1, t.rewrites + round.rewrites);
      files := round.fs;
      if round.failure.Some? {
        return Run(files, t, Aborted(round.failure.value));
      }
      iteration := iteration + 1;
    }
    return Run(files, t, Exhausted);
  }

  /** One iteration that builds, fails on some Java files and repairs them
      all leads to the next iteration. */
  lemma RepairedStep(fs: FileSystem, setup: Setup, maxIterations: int, t: Tally)
    requires t.builds < maxIterations
    requires var out := setup.build(t.builds, fs);
      && !out.success && FailedJavaFiles(out.output) != {}
      && RepairRound(fs, setup, t.requests, setup.order(t.builds, FailedJavaFiles(out.output))).failure.None?
    ensures var r := RepairRound(fs, setup, t.requests, setup.order(t.builds, FailedJavaFiles(setup.build(t.builds, fs).output)));
      Validate(fs, setup, maxIterations, t)
      == Validate(r.fs, setup, maxIterations, Tally(r.requests, t.builds + 1, t.rounds + 1, t.rewrites + r.rewrites))
  {
  }

  /** The build runs at most `maxIterations` times, and not at all when
      that is not positive; then the run ends exhausted with nothing
      changed. */
  lemma {:induction false} BuildBudget(fs: FileSystem, setup: Setup, maxIterations: int, t: Tally)
    ensures var run := Validate(fs, setup, maxIterations, t);
      && run.tally.builds <= (if maxIterations < t.builds then t.builds else maxIterations)
      && (maxIterations <= t.builds ==> run == Run(fs, t, Exhausted))
    decreases maxIterations - t.builds
  {
    if t.builds < maxIterations {
      var out := setup.build(t.builds, fs);
      var failed := FailedJavaFiles(out.output);
      if !out.success && failed != {} {
        var r := RepairRound(fs, setup, t.requests, setup.order(t.builds, failed));
        var repaired := Tally(r.requests, t.builds + 1, t.rounds + 1, t.rewrites + r.rewrites);
        if r.failure.None? {
          assert Validate(fs, setup, maxIterations, t) == Validate(r.fs, setup, maxIterations, repaired);
          BuildBudget(r.fs, setup, maxIterations, repaired);
        }
      }
    }
  }

  /** The whole run builds at most `max(0, maxIterations)` times. */
  lemma RunBudget(fs: FileSystem, setup: Setup, maxIterations: int)
    ensures Validation(fs, setup, maxIterations).tally.builds <= (if maxIterations < 0 then 0 else maxIterations)
    ensures maxIterations <= 0 ==> Validation(fs, setup, maxIterations) == Run(fs, Tally(0, 0, 0, 0), Exhausted)
  {
    BuildBudget(fs, setup, maxIterations, Tally(0, 0, 0, 0));
  }

  /** Called with its default budget, the agent builds at most five times. */
  lemma DefaultBudget(fs: FileSystem, setup: Setup)
    ensures Validation(fs, setup, DefaultMaxIterations).tally.builds <= 5
  {
    RunBudget(fs, setup, DefaultMaxIterations);
  }

  /** Every request a round makes is a rewrite that was written, except
      the one whose rejection ends the round; a round rewrites each id at
      most once. */
  lemma {:induction false} RoundRewrites(fs: FileSystem, setup: Setup, requests: nat, ids: seq<string>)
    ensures var r := RepairRound(fs, setup, requests, ids);
      && r.rewrites <= |ids|
      && r.requests == requests + r.rewrites + (if r.failure.Some? then 1 else 0)
    decreases |ids|
  {
    if ids != [] {
      var oldFile, newFile := Child(setup.oldRoot, ids[0]), Child(setup.newRoot, ids[0]);
      if oldFile !in fs {
        RoundRewrites(fs, setup, requests, ids[1..]);
      } else {
        match RewriteOutcome(fs, setup.model, requests, oldFile, newFile)
        case Failure(_) =>
        case Success(fs') =>
          RoundRewrites(fs', setup, requests + 1, ids[1..]);
      }
    }
  }

  /** From any point of the loop, the requests made from then on are the
      files rewritten from then on, plus one when a rejected rewrite aborts
      the run. */
  lemma {:induction false} RunRewrites(fs: FileSystem, setup: Setup, maxIterations: int, t: Tally)
    ensures var run := Validate(fs, setup, maxIterations, t);
      && t.rewrites <= run.tally.rewrites
      && run.tally.requests - t.requests == run.tally.rewrites - t.rewrites + (if run.end.Aborted? then 1 else 0)
    decreases maxIterations - t.builds
  {
    if t.builds < maxIterations {
      var out := setup.build(t.builds, fs);
      var failed := FailedJavaFiles(out.output);
      if !out.success && failed != {} {
        var r := RepairRound(fs, setup, t.requests, setup.order(t.builds, failed));
        var repaired := Tally(r.requests, t.builds + 1, t.rounds + 1, t.rewrites + r.rewrites);
        RoundRewrites(fs, setup, t.requests, setup.order(t.builds, failed));
        if r.failure.None? {
          assert Validate(fs, setup, maxIterations, t) == Validate(r.fs, setup, maxIterations, repaired);
          RunRewrites(r.fs, setup, maxIterations, repaired);
        }
      }
    }
  }

  /** Over a whole run, the model is asked once per file rewritten, and
      once more when the run aborts on a rejected rewrite. */
  lemma RequestsAreRewrites(fs: FileSystem, setup: Setup, maxIterations: int)
    ensures var run := Validation(fs, setup, maxIterations);
      run.tally.requests == run.tally.rewrites + (if run.end.Aborted? then 1 else 0)
  {
    RunRewrites(fs, setup, maxIterations, Tally(0, 0, 0, 0));
  }

  /** A build that fails on one Java file, whose rewrite passes, and then
      succeeds: two builds, one repair round and exactly one rewrite. */
  lemma FailOnceThenSucceed(fs: FileSystem, setup: Setup, maxIterations: int, id: string)
    requires 2 <= maxIterations
    requires var out := setup.build(0, fs); !out.success && FailedJavaFiles(out.output) == {id}
    requires setup.order(0, {id}) == [id]
    requires var oldFile := Child(setup.oldRoot, id);
      oldFile in fs && RewriteOutcome(fs, setup.model, 0, oldFile, Child(setup.newRoot, id)).Success?
    requires var fs' := RewriteOutcome(fs, setup.model, 0, Child(setup.oldRoot, id), Child(setup.newRoot, id)).value;
      setup.build(1, fs').success
    ensures var fs' := RewriteOutcome(fs, setup.model, 0, Child(setup.oldRoot, id), Child(setup.newRoot, id)).value;
      Validation(fs, setup, maxIterations) == Run(fs', Tally(1, 2, 1, 1), Succeeded)
  {
    var oldFile, newFile := Child(setup.oldRoot, id), Child(setup.newRoot, id);
    var fs' := RewriteOutcome(fs, setup.model, 0, oldFile, newFile).value;
    assert RewriteOutcome(fs, setup.model, 0, oldFile, newFile) == Success(fs');
    var r := RepairRound(fs, setup, 0, [id]);
    assert r == Round(fs', 1, 1, None) by {
      assert [id][0] == id && [id][1..] == [];
      assert RepairRound(fs', setup, 1, []) == Round(fs', 1, 0, None);
    }
    var out := setup.build(0, fs);
    assert Validation(fs, setup, maxIterations) == Iterate(fs, setup, maxIterations, Tally(0, 0, 0, 0));
    assert Iterate(fs, setup, maxIterations, Tally(0, 0, 0, 0)) == Validate(fs', setup, maxIterations, Tally(1, 1, 1, 1));
    assert Validate(fs', setup, maxIterations, Tally(1, 1, 1, 1)) == Run(fs', Tally(1, 2, 1, 1), Succeeded);
  }

  /** How a run's end is tied to its last build. A success or an
      unattributable failure ends the run right after the build that saw
      the final file system, with no repair round after it; an abort ends
      the round that follows the last build; an exhausted run repaired
      after every build it made. */
  ghost predicate EndsAtLastBuild(run: Run, setup: Setup) {
    var n := run.tally.builds;
    match run.end
    case Succeeded =>
      n >= 1 && run.tally.rounds == n - 1 && setup.build(n - 1, run.fs).success
    case Unattributable(output) =>
      n >= 1 && run.tally.rounds == n - 1
      && var out := setup.build(n - 1, run.fs);
         !out.success && out.output == output && FailedJavaFiles(output) == {}
    case Aborted(_) => run.tally.rounds == n
    case Exhausted => run.tally.rounds == n
  }

  /** Every run, from a point where each build so far was followed by a
      repair round, ends as `EndsAtLastBuild` says. */
  lemma {:induction false} RunEnds(fs: FileSystem, setup: Setup, maxIterations: int, t: Tally)
    requires t.rounds == t.builds
    ensures EndsAtLastBuild(Validate(fs, setup, maxIterations, t), setup)
    decreases maxIterations - t.builds
  {
    if t.builds < maxIterations {
      var out := setup.build(t.builds, fs);
      var failed := FailedJavaFiles(out.output);
      var run := Validate(fs, setup, maxIterations, t);
      assert run == Iterate(fs, setup, maxIterations, t);
      if out.success {
        assert run == Run(fs, t.(builds := t.builds + 1), Succeeded);
      } else if failed == {} {
        assert run == Run(fs, t.(builds := t.builds + 1), Unattributable(out.output));
      } else {
        var r := RepairRound(fs, setup, t.requests, setup.order(t.builds, failed));
        var repaired := Tally(r.requests, t.builds + 1, t.rounds + 1, t.rewrites + r.rewrites);
        if r.failure.Some? {
          assert run == Run(r.fs, repaired, Aborted(r.failure.value));
        } else {
          assert run == Validate(r.fs, setup, maxIterations, repaired);
          RunEnds(r.fs, setup, maxIterations, repaired);
        }
      }
    }
  }

  /** The model's rewrites always pass the guard. */
  ghost predicate AlwaysAccepted(model: Model) {
    forall fs: FileSystem, n: nat, oldFile: Path, newFile: Path | oldFile in fs ::
      RewriteOutcome(fs, model, n, oldFile, newFile).Success?
  }

  /** Every build fails with output that names some Java file. */
  ghost predicate AlwaysAttributable(build: Build) {
    forall n: nat, fs: FileSystem ::
      !build(n, fs).success && FailedJavaFiles(build(n, fs).output) != {}
  }

  lemma {:induction false} RoundCompletes(fs: FileSystem, setup: Setup, requests: nat, ids: seq<string>)
    requires AlwaysAccepted(setup.model)
    ensures RepairRound(fs, setup, requests, ids).failure.None?
    decreases |ids|
  {
    if ids != [] {
      var oldFile, newFile := Child(setup.oldRoot, ids[0]), Child(setup.newRoot, ids[0]);
      if oldFile !in fs {
        RoundCompletes(fs, setup, requests, ids[1..]);
      } else {
        var fs' := RewriteOutcome(fs, setup.model, requests, oldFile, newFile).value;
        RoundCompletes(fs', setup, requests + 1, ids[1..]);
      }
    }
  }

  /** With a build that always fails on some Java file and repairs that
      always go through, the run makes exactly `maxIterations` builds and as
      many repair rounds, so the last round is never built. */
  lemma {:induction false} AlwaysFailing(fs: FileSystem, setup: Setup, maxIterations: int, t: Tally)
    requires AlwaysAttributable(setup.build) && AlwaysAccepted(setup.model)
    requires t.builds <= maxIterations && t.rounds == t.builds
    ensures UsesWholeBudget(Validate(fs, setup, maxIterations, t), maxIterations)
    decreases maxIterations - t.builds
  {
    if t.builds < maxIterations {
      var out := setup.build(t.builds, fs);
      var failed := FailedJavaFiles(out.output);
      assert !out.success && failed != {};
      var r := RepairRound(fs, setup, t.requests, setup.order(t.builds, failed));
      RoundCompletes(fs, setup, t.requests, setup.order(t.builds, failed));
      RepairedStep(fs, setup, maxIterations, t);
      AlwaysFailing(r.fs, setup, maxIterations, Tally(r.requests, t.builds + 1, t.rounds + 1, t.rewrites + r.rewrites));
    }
  }

  /** A run that ends exhausted after `maxIterations` builds and as many
      repair rounds. */
  predicate UsesWholeBudget(run: Run, maxIterations: int) {
    run.end == Exhausted && run.tally.builds == maxIterations && run.tally.rounds == maxIterations
  }

  /** An id whose old file is missing, and which no earlier rewrite of the
      round creates, is skipped: the round goes as if it were not in the
      list, and the ids after it are still repaired. An absolute id, whose
      old and new files are the same path, is one of them. */
  lemma {:induction false} MissingSkipped(fs: FileSystem, setup: Setup, requests: nat, ids: seq<string>, k: nat)
    requires k < |ids| && Child(setup.oldRoot, ids[k]) !in fs
    requires forall j | 0 <= j < k :: Child(setup.newRoot, ids[j]) != Child(setup.oldRoot, ids[k])
    ensures RepairRound(fs, setup, requests, ids) == RepairRound(fs, setup, requests, ids[..k] + ids[k + 1..])
    decreases k
  {
    var rest := ids[..k] + ids[k + 1..];
    if k == 0 {
      assert rest == ids[1..];
    } else {
      assert rest[0] == ids[0] && rest[1..] == ids[1..][..k - 1] + ids[1..][k..];
      var oldFile, newFile := Child(setup.oldRoot, ids[0]), Child(setup.newRoot, ids[0]);
      if oldFile in fs {
        match RewriteOutcome(fs, setup.model, requests, oldFile, newFile)
        case Failure(_) =>
        case Success(fs') =>
          assert fs' == fs[newFile := fs'[newFile]];
          MissingSkipped(fs', setup, requests + 1, ids[1..], k - 1);
      } else {
        MissingSkipped(fs, setup, requests, ids[1..], k - 1);
      }
    }
  }

  /** A round changes only files `newRoot / id` of the ids it is given;
      every other file keeps its text. */
  lemma {:induction false} RoundWritesOnlyRepairs(fs: FileSystem, setup: Setup, requests: nat, ids: seq<string>, file: Path)
    requires Changed(fs, RepairRound(fs, setup, requests, ids).fs, file)
    ensures exists j | 0 <= j < |ids| :: Child(setup.newRoot, ids[j]) == file
    decreases |ids|
  {
    var oldFile, newFile := Child(setup.oldRoot, ids[0]), Child(setup.newRoot, ids[0]);
    if oldFile !in fs {
      RoundWritesOnlyRepairs(fs, setup, requests, ids[1..], file);
      RepairedLater(ids, setup.newRoot, file);
    } else if file != newFile {
      var r := RewriteOutcome(fs, setup.model, requests, oldFile, newFile);
      if r.Success? {
        assert Changed(r.value, RepairRound(r.value, setup, requests + 1, ids[1..]).fs, file);
        RoundWritesOnlyRepairs(r.value, setup, requests + 1, ids[1..], file);
        RepairedLater(ids, setup.newRoot, file);
      }
    }
  }

  lemma RepairedLater(ids: seq<string>, newRoot: Path, file: Path)
    requires ids != [] && exists j | 0 <= j < |ids[1..]| :: Child(newRoot, ids[1..][j]) == file
    ensures exists j | 0 <= j < |ids| :: Child(newRoot, ids[j]) == file
  {
    var j :| 0 <= j < |ids[1..]| && Child(newRoot, ids[1..][j]) == file;
    assert ids[j + 1] == ids[1..][j];
  }
}
