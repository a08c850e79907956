# Java-Migration pipeline, modelled in Dafny

Java-Migration moves a Gradle/Spring Java project to a newer Java and Spring
Boot with the help of a language model. It runs in five agents:

- the **planner** reads `build.gradle` and `settings.gradle`, draws the
  project tree and asks the model for a migration plan in JSON;
- the **build migration** rewrites the `distributionUrl=` line of the Gradle
  wrapper properties and has the model regenerate `build.gradle`;
- the **source classifier** asks the model for a category for every Java
  file and stores the answers as a path → category map;
- the **rewrite agent** has the model rewrite every `MAJOR_REWRITE` file into
  the new project. A rewrite is written only when it passes a structural
  guard: it is not blank, and it keeps the original's package line and
  class declaration;
- the **validation agent** builds the new project. While the build fails
  with diagnostics that name Java files, it rewrites those files again from
  the old project, for at most `max_iterations` builds.

This project models those agents. The language model and the build tool are
parameters:

- the model is a function `(n, request) -> reply`, where `n` counts the
  requests made earlier in the same run;
- the build tool is a function `(n, file system) -> (success, output)`;
- the file system is a map from path to text.

Each agent that changes things step by step is a `method` with loops. It is
proved equal to a specification function, and the properties are lemmas
about those functions.

Files:

- `wrappers.dfy`: `Option` and `Result`.
- `text.dfy`: the Python `str` operations used (`isspace`, `strip`, `in`,
  `split`, `join`, `splitlines`) and their laws.
- `paths.dfy`: the part of `pathlib` used (`Path(s)`, `/`, `relative_to`,
  `name`, `str()`) and the file system.
- `oracle.dfy`: the requests the agents make and the replies.
- `diagnostics.dfy`: `JAVA_ERROR_PATTERN` and `extract_failed_java_files`,
  as a scanner for exactly that pattern.
- `rewrite.dfy`: `extract_package_and_class`, `rewrite_file` and
  `run_rewrite_agent`.
- `validation.dfy`: `run_validation_agent`.
- `classifier.dfy`: `classify_sources`.
- `build_migration.dfy`: `upgrade_gradle_wrapper`,
  `upgrade_build_gradle_llm` and `run_build_migration_agent`.
- `planner.dfy`: `read_file_safe`, `generate_project_tree` and
  `run_planner_agent`.

An exception that the source does not catch ends the run. Such an exception
is a failure value in the model, and the model's result shows the file
system as the exception leaves it.

## Model

| member | source | states |
|---|---|---|
| Diagnostics.ExtractFailedJavaFiles | Java-Migration/agents/validation_agent.py:24-28 | the loop over the output, resuming after each match, collects exactly the set of file groups `finditer` finds (`FailedJavaFiles`) |
| Diagnostics.MatchAtSound | Java-Migration/agents/validation_agent.py:7-9 | a match found at a position has the shape of the pattern: id characters, `.java`, `:`, digits, `:`, whitespace, `error` |
| Diagnostics.MatchAtComplete | Java-Migration/agents/validation_agent.py:7-9 | any text of the pattern's shape at a position is the match found there, so greedy runs leave no other choice |
| Diagnostics.RunEndSound | Java-Migration/agents/validation_agent.py:8 | a greedy run covers only characters of its class and stops before one outside it |
| Diagnostics.RunEndUnique | Java-Migration/agents/validation_agent.py:8 | a run of a class that stops before a character outside it is the greedy run |
| Diagnostics.ShapeFile | Java-Migration/agents/validation_agent.py:7-9 | the file group of a match ends in `.java` and holds no `:` and no whitespace |
| Diagnostics.ExtractedFilesAreReported | Java-Migration/agents/validation_agent.py:7-9 | every extracted id ends in `.java`, has no `:` or whitespace, and in the text is followed by `:`, digits, `:`, whitespace and `error` |
| Diagnostics.QuietIffNothingFound | Java-Migration/agents/validation_agent.py:24-28 | a text yields no id exactly when the pattern matches at none of its positions |
| Diagnostics.BuildOutputFiles | Java-Migration/agents/validation_agent.py:7-9 | for output where no line has a digit, a colon and then only whitespace to its end, and each diagnostic starts a line, the result is exactly the set of ids those diagnostic lines name |
| Diagnostics.SummaryHeadingsWellFormed | Java-Migration/agents/validation_agent.py:7-9 | Gradle's summary headings `* What went wrong:` and `* Try:` are well-formed lines: with no `.` they name no file, and with no digit no colon in them can close a line number |
| Diagnostics.DiagnosedElements | Java-Migration/agents/validation_agent.py:25-27 | the result is a set: an id named by several diagnostics appears once |
| Diagnostics.LineOrderIrrelevant | Java-Migration/agents/validation_agent.py:24-28 | reordering the lines of such an output does not change the result |
| Rewrite.ExtractPackageAndClass | Java-Migration/agents/rewrite_agent.py:12-23 | the loop with `break` returns exactly the header `PackageAndClass` defines |
| Rewrite.FirstSet | Java-Migration/agents/rewrite_agent.py:19-21 | the class line is the first line containing ` class `, or none when no line does |
| Rewrite.LastWhereLast | Java-Migration/agents/rewrite_agent.py:17-18 | the package line is the last package line before the limit, or none when there is none |
| Rewrite.LaterLinesIgnored | Java-Migration/agents/rewrite_agent.py:19-21 | once a class line exists, lines appended after it change neither result |
| Rewrite.HeaderNotEmpty | Java-Migration/agents/rewrite_agent.py:17-20 | a found package or class line is never empty, so Python's truthiness test equals "was found" |
| Rewrite.ClassLineNotBlank | Java-Migration/agents/rewrite_agent.py:19-20 | a class line stripped is not empty |
| Rewrite.Vet | Java-Migration/agents/rewrite_agent.py:33-43 | the guard rejects as empty exactly the blank candidates; it accepts exactly when the candidate is not blank, contains the original's package line, and contains the original's class line up to its first `{`; only the original's header is consulted |
| Rewrite.IdentityAccepted | Java-Migration/agents/rewrite_agent.py:36-43 | a candidate identical to a non-blank original always passes the guard |
| Rewrite.PackageInSource | Java-Migration/agents/rewrite_agent.py:17-18 | the package line found is a piece of the source |
| Rewrite.ClassInSource | Java-Migration/agents/rewrite_agent.py:19-20 | the class-line prefix before the first `{` is a piece of the source |
| Rewrite.RewriteFile | Java-Migration/agents/rewrite_agent.py:26-49 | the method's outcome is `RewriteOutcome`; on failure the file system is unchanged |
| Rewrite.RewriteWritesOnlyDestination | Java-Migration/agents/rewrite_agent.py:36-47 | a successful rewrite happened only after the source existed, the model answered and the guard passed, and then exactly the destination is set to the reply |
| Rewrite.BlankReplyRejected | Java-Migration/agents/rewrite_agent.py:36-37 | a reply that is empty or only whitespace is rejected as empty output, whatever the original, before the package and class checks |
| Rewrite.EchoWritten | Java-Migration/agents/rewrite_agent.py:36-47 | a reply repeating a non-blank original is written to the destination verbatim |
| Rewrite.RunRewriteAgent | Java-Migration/agents/rewrite_agent.py:52-74 | the loop over the classification ends with the file system, request count and failure of `RewritePass` |
| Rewrite.Majors | Java-Migration/agents/rewrite_agent.py:62-64 | the entries kept by the filter all carry exactly `MAJOR_REWRITE`, and every `MAJOR_REWRITE` entry of the classification is kept |
| Rewrite.MajorsAppend | Java-Migration/agents/rewrite_agent.py:62-64 | the filter keeps the classification's order: filtering two stretches in a row gives the first's kept entries, then the second's |
| Rewrite.OnlyMajorRewritesMatter | Java-Migration/agents/rewrite_agent.py:62-64 | the pass over all entries equals the pass over the `MAJOR_REWRITE` entries alone |
| Rewrite.PassComposes | Java-Migration/agents/rewrite_agent.py:62-72 | a pass over two lists is the pass over the first, then, unless it failed, the pass over the second: the first failure stops the pass |
| Rewrite.PassWritesOnlyDestinations | Java-Migration/agents/rewrite_agent.py:66-72 | a file the pass changes is the re-rooted destination (`new_root / relative_to(old_root)`) of some `MAJOR_REWRITE` entry |
| Paths.RelativeToJoin | Java-Migration/agents/rewrite_agent.py:69-70 | `relative_to(root)` recovers `rel` from `root / rel` for a relative `rel` |
| Paths.JoinRelativeTo | Java-Migration/agents/rewrite_agent.py:69-70 | `root / p.relative_to(root)` is `p` |
| Paths.ParseRender | Java-Migration/agents/rewrite_agent.py:66 | `Path(str(p))` is `p` for a normalised path, so the classification's path strings name the files classified |
| Validation.RepairFiles | Java-Migration/agents/validation_agent.py:59-68 | the inner loop (skip a missing old file, rewrite `old_root / id` to `new_root / id`, stop at a failed rewrite) computes `RepairRound` |
| Validation.RunValidationAgent | Java-Migration/agents/validation_agent.py:31-70 | the loop with its early returns ends in the run `Validation` defines |
| Validation.RepairedStep | Java-Migration/agents/validation_agent.py:41-68 | a failing, attributable build followed by a clean repair round continues with one more build, one more round and the round's rewrites counted |
| Validation.BuildBudget | Java-Migration/agents/validation_agent.py:41-44 | from any point, the builds never exceed the budget, and with no budget left the run ends exhausted with nothing done |
| Validation.RunBudget | Java-Migration/agents/validation_agent.py:41-70 | the build is invoked at most `max_iterations` times; a non-positive budget gives zero builds and an exhausted run |
| Validation.DefaultBudget | Java-Migration/agents/validation_agent.py:34-44 | with the default `max_iterations` of 5 the build runs at most five times |
| Validation.RoundRewrites | Java-Migration/agents/validation_agent.py:59-68 | a repair round asks the model once per file it rewrites, plus once for the rewrite whose rejection ends it, and rewrites at most one file per failing id |
| Validation.RunRewrites | Java-Migration/agents/validation_agent.py:41-68 | from any point of the loop, the rewrites counted from then on never decrease and equal the model requests made from then on, less one when the run aborts |
| Validation.RequestsAreRewrites | Java-Migration/agents/validation_agent.py:41-68 | over a whole run, the model requests are the files rewritten, plus one when a rejected rewrite aborts the run |
| Validation.FailOnceThenSucceed | Java-Migration/agents/validation_agent.py:41-68 | a build that fails naming one file, whose old version exists and whose rewrite passes, then succeeds, gives two builds, one repair round and exactly one rewrite |
| Validation.RunEnds | Java-Migration/agents/validation_agent.py:44-57 | a success or an unattributable failure ends the run right after its last build, with no repair round after it; an unattributable end carries that build's output and its empty id set |
| Validation.RoundCompletes | Java-Migration/agents/validation_agent.py:59-68 | when every rewrite passes, a repair round never aborts |
| Validation.AlwaysFailing | Java-Migration/agents/validation_agent.py:41-70 | with a build that always fails attributably and rewrites that always pass, budget N gives exactly N builds and N repair rounds and ends exhausted, so the last repairs are never rebuilt |
| Validation.MissingSkipped | Java-Migration/agents/validation_agent.py:63-65 | an id whose old file is missing, and which no earlier rewrite of the round has created, is skipped without error: the round equals the round without that id; an absolute id, whose old and new files coincide, is covered |
| Validation.RoundWritesOnlyRepairs | Java-Migration/agents/validation_agent.py:60-68 | a repair round changes only files `new_root / id` for failing ids |
| Classifier.Snippet | Java-Migration/agents/source_classifier.py:14 | the text sent is a prefix of the file, at most 8000 characters, and the whole file when it is shorter |
| Classifier.PutSpec | Java-Migration/agents/source_classifier.py:18 | a dict store maps the key to the new value, keeps every other key's value, and adds the key to the keys |
| Classifier.ClassifySources | Java-Migration/agents/source_classifier.py:6-24 | the loop's results are `Classification`; the output file is written once, after the loop, and not at all when a request fails |
| Classifier.ClassificationEntries | Java-Migration/agents/source_classifier.py:9-18 | every listed `.java` file has exactly one entry, keyed by its path string, and no other file has one; the value under a path string is the model's reply to the request for the last Java file with that path string, with its surrounding whitespace removed |
| Classifier.ClassifiedEntries | Java-Migration/agents/source_classifier.py:9-18 | the same, from any point of the loop with the entries so far, the `n`-th request next |
| Classifier.ClassifiedKeys | Java-Migration/agents/source_classifier.py:9-18 | from any point of the loop, the keys are the earlier ones plus one per Java file, each once, and every value is stripped |
| Classifier.ClassifiedValues | Java-Migration/agents/source_classifier.py:10-18 | from any point of the loop, the last Java file with a given path string holds the stripped reply to its own request, the one made after one request per earlier Java file |
| Classifier.ClassifiedUntouched | Java-Migration/agents/source_classifier.py:18 | a key that no listed Java file has keeps the value it had before the loop |
| Classifier.ClassifiedFails | Java-Migration/agents/source_classifier.py:9-18 | the classification fails exactly when the model refuses one of the requests made for the Java files, in order |
| Classifier.RequestsShape | Java-Migration/agents/source_classifier.py:9-16 | every request made is for a Java file of the listing, with its snippet |
| Text.StripShape | Java-Migration/agents/source_classifier.py:17 | a stripped reply is the reply with only whitespace cut from its two ends, empty exactly when the reply is blank, and otherwise has no whitespace at either end |
| Text.StripIdempotent | Java-Migration/agents/source_classifier.py:17 | a stored value is already stripped: stripping it again changes nothing |
| BuildMigration.LineLen | Java-Migration/agents/build_migration_agent.py:21 | what `.*` covers after the key: no `\n` among the characters it takes, and the character after them is a `\n` unless the text ends there |
| BuildMigration.SubLineNone | Java-Migration/agents/build_migration_agent.py:21-25 | a line without `distributionUrl=` is unchanged |
| BuildMigration.SubLineAt | Java-Migration/agents/build_migration_agent.py:21-25 | a line whose first `distributionUrl=` is at `j` becomes its text before `j` followed by the new URL line, so text before the key is kept |
| BuildMigration.SubstituteLines | Java-Migration/agents/build_migration_agent.py:21-25 | the substitution over the whole file acts line by line: other lines are unchanged and the newlines stay |
| BuildMigration.SubLineForm | Java-Migration/agents/build_migration_agent.py:21-25 | each line is either unchanged or a prefix of it followed by the new URL line |
| BuildMigration.SubstituteTwice | Java-Migration/agents/build_migration_agent.py:21-25 | substituting twice equals substituting once, for a one-line key with no self-overlap and a replacement that starts with the key |
| BuildMigration.WrapperRewriteIdempotent | Java-Migration/agents/build_migration_agent.py:21-25 | for a version with no newline, rewriting the wrapper text twice gives the same text as once |
| BuildMigration.UrlKeyBorderFree | Java-Migration/agents/build_migration_agent.py:22 | `distributionUrl=` has no newline and no proper prefix that is also a suffix |
| BuildMigration.UpgradeGradleWrapper | Java-Migration/agents/build_migration_agent.py:13-27 | the method's outcome is `UpgradeWrapper`: a missing wrapper file is an error that writes nothing |
| BuildMigration.UpgradeBuildGradleLlm | Java-Migration/agents/build_migration_agent.py:31-38 | the method's outcome is `UpgradeBuild`: `build.gradle` is replaced by the reply verbatim |
| BuildMigration.RunBuildMigrationAgent | Java-Migration/agents/build_migration_agent.py:42-56 | the two steps in order give `BuildMigration` |
| BuildMigration.MigrationWrites | Java-Migration/agents/build_migration_agent.py:13-54 | a missing wrapper leaves every file, `build.gradle` included, untouched; otherwise the wrapper is upgraded to the default version 8.6 first, and on success `build.gradle` holds the model's reply with no guard and nothing else changed |
| Planner.ReadFileSafe | Java-Migration/agents/planner_agent.py:8-11 | the file's text for an existing path, "" otherwise |
| Planner.Indent | Java-Migration/agents/planner_agent.py:22 | the prefix is two spaces per depth level |
| Planner.GenerateProjectTree | Java-Migration/agents/planner_agent.py:14-27 | the loop with `continue` returns the listing's tree lines joined with `\n` |
| Planner.TreeLinesShape | Java-Migration/agents/planner_agent.py:17-25 | each line is an entry under the root, no deeper than `max_depth`, drawn as its indent and final name; no more lines than entries, and one per entry when every entry is kept |
| Planner.TreeLinesAppend | Java-Migration/agents/planner_agent.py:17-23 | lines keep the listing order: the lines of two listings in a row are the first's lines, then the second's |
| Planner.EntryLine | Java-Migration/agents/planner_agent.py:19-23 | the entry `root / rel` gives a line at depth `len(rel.parts)` with its last part, and no line when that exceeds `max_depth` |
| Planner.TreeTextLines | Java-Migration/agents/planner_agent.py:27 | an empty listing gives ""; the tree splits back at `\n` into its lines, so there is no trailing newline |
| Planner.RunPlannerAgent | Java-Migration/agents/planner_agent.py:30-76 | the method's outcome is `Plan`; on an error nothing is written |
| Planner.PlanWrites | Java-Migration/agents/planner_agent.py:38-72 | missing build scripts reach the model as ""; the plan is written exactly when the model answers with JSON; only the output file changes |

## Left out

- The language model (`llm/llm_factory.py`) and the prompt templates (`llm/prompts.py`) are not part of this model. A request records the inputs its prompt is built from, and the model is a function parameter that may fail.
- `run_gradle_build` is not part of this model. It is a subprocess call, replaced by the build function parameter.
- Printing, timing and `mkdir` are not modelled. Directories are implicit in the file-system map.
- `rglob` traversal is a listing supplied by the caller, in the order it would be visited. `classify_sources` takes the files of the listing as readable; a file that vanishes mid-run is not modelled.
- JSON is not modelled. This covers `load_plan` and `load_json`, the dump of the classification (an `encode` parameter), and the planner's `json.loads`/`json.dump` (a `reformat` parameter that fails on text that is not JSON).
- BuildMigration.MigrationWrites: the plan lookups at Java-Migration/agents/build_migration_agent.py:46-47 are not modelled. `int(plan["target_java"])` raises when the key is missing or its value is not convertible by `int` (`int` accepts `"17"` and `17.0` alike), and `plan["target_spring_boot"]` raises when its key is missing; either ends the stage before the wrapper is read. The model takes a plan with both keys and `target_java` already converted to an integer (the `MigrationPlan` record), so its statements hold for such plans only. `run_build_migration_agent` is modelled from the loaded plan onward, and `run_rewrite_agent` from the loaded classification onward.
- Decoding is not modelled: text is a sequence of characters. This leaves out reading with `errors="ignore"`, newline translation on read and write, and the `UnicodeDecodeError` that `read_text()` without `errors=` raises on a badly encoded wrapper or `build.gradle` (Java-Migration/agents/build_migration_agent.py:18 and :32), which ends the stage.
- Validation.RunValidationAgent: CPython's set iteration order is not modelled. The order in which the failing-file set is visited is any function `order` of the iteration number and the set, so equal sets may be visited in different orders in different iterations. The properties hold for every such function, and the model does not require the order to list each member exactly once.
- Diagnostics.IsDigit: `\d` is modelled as the ASCII digits; Python's `\d` also matches other Unicode decimal digits.
- Diagnostics.BuildOutputFiles: it assumes that no line, diagnostic or not, has a colon right after a digit followed only by whitespace to the end of the line (only there could `\s+` carry a match onto the next line), and that no other line and no message names a file. Gradle's summary headings such as `* What went wrong:` meet this (SummaryHeadingsWellFormed). Outputs outside that form are covered only by ExtractFailedJavaFiles and ExtractedFilesAreReported.
- BuildMigration.Substitute inserts the replacement literally. `re.sub` expands backslash escapes in its template, which leaves `\:` as written but would change a version containing a backslash or a group reference.
- BuildMigration.WrapperRewriteIdempotent requires a version with no newline, since the claim is false for such a version.
- Paths.Parse: a path string that starts with exactly two slashes is parsed like one that starts with one. pathlib keeps `//` as a distinct root (`str(PurePosixPath("//a"))` is `//a`), so roots of that form are not modelled.
