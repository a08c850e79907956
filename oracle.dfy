/** The language model as the agents see it. Each agent builds a prompt
    from a few inputs; the prompt text itself is not modelled, so a request
    records those inputs. The reply may fail (no provider configured, the
    service unreachable): the agents do not catch that, so it ends the run. */
module Oracle {
  import opened Wrappers

  /** The migration plan record the planner asks for. */
  datatype MigrationPlan = MigrationPlan(
    currentJava: int,
    targetJava: int,
    currentSpringBoot: Option<string>,
    targetSpringBoot: string,
    projectType: string,
    modules: seq<string>,
    usesWeb: bool,
    usesSecurity: bool,
    usesJpa: bool,
    riskLevel: string)

  datatype Request =
    | PlanMigration(buildGradle: string, settingsGradle: string, tree: string)
    | RegenerateBuildFile(oldBuild: string, plan: MigrationPlan)
    | ClassifySource(path: string, snippet: string)
    | RewriteSource(code: string)

  datatype Reply = Answer(text: string) | Unavailable

  /** The model, asked for the n-th time in a run (counting from 0): the
      count lets it answer the same request differently on a retry. */
  type Model = (nat, Request) -> Reply
}
