/** The planner agent: read the two Gradle build scripts (missing ones read
    as empty), render the project tree, ask the model for a migration plan
    and store the plan once it parses as JSON. */
module Planner {
  import opened Text
  import opened Wrappers
  import opened Paths
  import opened Oracle
  import BuildMigration

  /** How deep `generate_project_tree` descends by default. */
  const DefaultMaxDepth: int := 4

  /** `read_file_safe`: the file's text, or "" for a path that does not
      exist. */
  function ReadFileSafe(fs: FileSystem, p: Path): (text: string)
    ensures p in fs ==> text == fs[p]
    ensures p !in fs ==> text == ""
  {
    if p in fs then fs[p] else ""
  }

  /** `"  " * depth` */
  function Indent(depth: nat): (s: string)
    ensures |s| == 2 * depth
    ensures forall k | 0 <= k < |s| :: s[k] == ' '
  {
    if depth == 0 then "" else "  " + Indent(depth - 1)
  }

  /** The line one entry of the listing contributes: none when it is not
      under `root` (`relative_to` raises and the entry is skipped) or lies
      deeper than `maxDepth`; otherwise its name indented two spaces per
      level. */
  function TreeLine(root: Path, maxDepth: int, p: Path): Option<string> {
    match RelativeTo(p, root)
    case None => None
    case Some(rel) =>
      var depth := |rel.parts|;
      if depth > maxDepth then None else Some(Indent(depth) + Name(p))
  }

  /** The lines for a listing, in listing order. */
  function TreeLines(root: Path, maxDepth: int, listing: seq<Path>): seq<string>
    decreases |listing|
  {
    if listing == [] then []
    else
      var last := listing[|listing| - 1];
      TreeLines(root, maxDepth, listing[..|listing| - 1])
        + match TreeLine(root, maxDepth, last) case None => [] case Some(line) => [line]
  }

  /** `generate_project_tree(root, max_depth)` over `listing`, the entries
      `root.rglob("*")` yields, in the order it yields them. */
  method GenerateProjectTree(root: Path, listing: seq<Path>, maxDepth: int) returns (tree: string)
    ensures tree == Join(TreeLines(root, maxDepth, listing), '\n')
  {
    var lines: seq<string> := [];
    var i := 0;
    while i < |listing|
      invariant 0 <= i <= |listing|
      invariant lines == TreeLines(root, maxDepth, listing[..i])
    {
      var path := listing[i];
      assert listing[..i + 1][..i] == listing[..i];
      var relative := RelativeTo(path, root);
      if relative.None? {
        i := i + 1;
        continue;
      }
      var depth := |relative.value.parts|;
      if depth > maxDepth {
        i := i + 1;
        continue;
      }
      var prefix := Indent(depth);
      lines := lines + [prefix + Name(path)];
      i := i + 1;
    }
    assert listing[..i] == listing;
    tree := Join(lines, '\n');
  }

  /** The lines of two listings one after the other are the lines of the
      first, then those of the second: entries keep their order and do
      not affect each other. */
  lemma {:induction false} TreeLinesAppend(root: Path, maxDepth: int, a: seq<Path>, b: seq<Path>)
    ensures TreeLines(root, maxDepth, a + b) == TreeLines(root, maxDepth, a) + TreeLines(root, maxDepth, b)
    decreases |b|
  {
    if b == [] {
      assert a + b == a;
    } else {
      var front := b[..|b| - 1];
      assert (a + b)[..|a + b| - 1] == a + front;
      assert (a + b)[|a + b| - 1] == b[|b| - 1];
      TreeLinesAppend(root, maxDepth, a, front);
    }
  }

  /** Every line is an entry of the listing under `root`, no deeper than
      `maxDepth`, drawn as two spaces per level and its name; there are
      never more lines than entries, and as many when every entry is
      under `root` and shallow enough. */
  lemma {:induction false} TreeLinesShape(root: Path, maxDepth: int, listing: seq<Path>)
    ensures var lines := TreeLines(root, maxDepth, listing);
      && |lines| <= |listing|
      && (forall j | 0 <= j < |lines| :: exists k | 0 <= k < |listing| ::
            && RelativeTo(listing[k], root).Some?
            && |RelativeTo(listing[k], root).value.parts| <= maxDepth
            && lines[j] == Indent(|RelativeTo(listing[k], root).value.parts|) + Name(listing[k]))
      && ((forall k | 0 <= k < |listing| :: TreeLine(root, maxDepth, listing[k]).Some?) ==> |lines| == |listing|)
    decreases |listing|
  {
    if listing != [] {
      var front := listing[..|listing| - 1];
      var last := listing[|listing| - 1];
      TreeLinesShape(root, maxDepth, front);
      var before := TreeLines(root, maxDepth, front);
      var lines := TreeLines(root, maxDepth, listing);
      forall j | 0 <= j < |lines| ensures exists k | 0 <= k < |listing| ::
          && RelativeTo(listing[k], root).Some?
          && |RelativeTo(listing[k], root).value.parts| <= maxDepth
          && lines[j] == Indent(|RelativeTo(listing[k], root).value.parts|) + Name(listing[k])
      {
        if j < |before| {
          var k :| 0 <= k < |front|
            && RelativeTo(front[k], root).Some?
            && |RelativeTo(front[k], root).value.parts| <= maxDepth
            && before[j] == Indent(|RelativeTo(front[k], root).value.parts|) + Name(front[k]);
          assert listing[k] == front[k];
        } else {
          assert listing[|listing| - 1] == last;
        }
      }
      if forall k | 0 <= k < |listing| :: TreeLine(root, maxDepth, listing[k]).Some? {
        assert forall k | 0 <= k < |front| :: front[k] == listing[k];
        assert TreeLine(root, maxDepth, listing[|listing| - 1]).Some?;
      }
    }
  }

  /** An entry `root / rel` for a relative `rel` with at least one part
      lies `|rel.parts|` levels down and is drawn with its own last part,
      when that is within `maxDepth`. */
  lemma EntryLine(root: Path, maxDepth: int, rel: Path)
    requires !rel.absolute && rel.parts != []
    ensures TreeLine(root, maxDepth, JoinPath(root, rel))
      == if |rel.parts| <= maxDepth then Some(Indent(|rel.parts|) + rel.parts[|rel.parts| - 1]) else None
  {
    RelativeToJoin(root, rel);
    var p := JoinPath(root, rel);
    assert p.parts[|p.parts| - 1] == rel.parts[|rel.parts| - 1];
  }

  /** The tree text splits back into its lines at `\n`, so it has no
      trailing newline, when no entry name holds a line break; an empty
      listing draws "". */
  lemma TreeTextLines(root: Path, maxDepth: int, listing: seq<Path>)
    requires forall k | 0 <= k < |listing| :: '\n' !in Name(listing[k])
    ensures listing == [] ==> Join(TreeLines(root, maxDepth, listing), '\n') == ""
    ensures var lines := TreeLines(root, maxDepth, listing);
      lines != [] ==> Split(Join(lines, '\n'), '\n') == lines
  {
    var lines := TreeLines(root, maxDepth, listing);
    TreeLinesShape(root, maxDepth, listing);
    forall j | 0 <= j < |lines| ensures '\n' !in lines[j] {
      var k :| 0 <= k < |listing|
        && RelativeTo(listing[k], root).Some?
        && |RelativeTo(listing[k], root).value.parts| <= maxDepth
        && lines[j] == Indent(|RelativeTo(listing[k], root).value.parts|) + Name(listing[k]);
    }
    if lines != [] {
      SplitJoin(lines, '\n');
    }
  }

  /** `project_root / "settings.gradle"` */
  function SettingsFile(root: Path): Path {
    JoinPath(root, Path(false, ["settings.gradle"]))
  }

  /** What ends a planner run early. */
  datatype PlanError = NoReply | NotJson

  /** The one request the planner makes. */
  function PlanRequest(fs: FileSystem, root: Path, listing: seq<Path>): Request {
    PlanMigration(
      ReadFileSafe(fs, BuildMigration.BuildFile(root)),
      ReadFileSafe(fs, SettingsFile(root)),
      Join(TreeLines(root, DefaultMaxDepth, listing), '\n'))
  }

  /** `run_planner_agent`. `reformat` stands for `json.loads` followed by
      `json.dump(..., indent=2)`: None when the reply is not JSON. */
  function Plan(fs: FileSystem, root: Path, listing: seq<Path>, model: Model,
                reformat: string -> Option<string>, outputFile: Path): Result<FileSystem, PlanError>
  {
    match model(0, PlanRequest(fs, root, listing))
    case Unavailable => Failure(NoReply)
    case Answer(reply) =>
      match reformat(reply)
      case None => Failure(NotJson)
      case Some(json) => Success(fs[outputFile := json])
  }

  method RunPlannerAgent(fs: FileSystem, root: Path, listing: seq<Path>, model: Model,
                         reformat: string -> Option<string>, outputFile: Path)
    returns (fs': FileSystem, error: Option<PlanError>)
    ensures error.None? ==> Plan(fs, root, listing, model, reformat, outputFile) == Success(fs')
    ensures error.Some? ==> Plan(fs, root, listing, model, reformat, outputFile) == Failure(error.value) && fs' == fs
  {
    var buildGradle := ReadFileSafe(fs, BuildMigration.BuildFile(root));
    var settingsGradle := ReadFileSafe(fs, SettingsFile(root));
    var tree := GenerateProjectTree(root, listing, DefaultMaxDepth);
    var reply := model(0, PlanMigration(buildGradle, settingsGradle, tree));
    if reply.Unavailable? {
      return fs, Some(NoReply);
    }
    var plan := reformat(reply.text);
    if plan.None? {
      return fs, Some(NotJson);
    }
    return fs[outputFile := plan.value], None;
  }

  /** The planner writes the plan file and nothing else, and only when the
      model replies with JSON: a reply that does not parse leaves every
      file as it was. The build scripts reach the model as they are on
      disk, a missing one as "". */
  lemma PlanWrites(fs: FileSystem, root: Path, listing: seq<Path>, model: Model,
                   reformat: string -> Option<string>, outputFile: Path)
    ensures var request := PlanRequest(fs, root, listing);
      && (BuildMigration.BuildFile(root) !in fs ==> request.buildGradle == "")
      && (SettingsFile(root) !in fs ==> request.settingsGradle == "")
      && (var ok := model(0, request).Answer? && reformat(model(0, request).text).Some?;
          Plan(fs, root, listing, model, reformat, outputFile).Success? <==> ok)
      && (Plan(fs, root, listing, model, reformat, outputFile).Success? ==>
            var fs' := Plan(fs, root, listing, model, reformat, outputFile).value;
            && outputFile in fs' && fs'[outputFile] == reformat(model(0, request).text).value
            && (forall p | p != outputFile :: (p in fs' <==> p in fs) && (p in fs ==> fs'[p] == fs[p])))
  {
  }
}
