/** Steps with `onError: continue` in runs of a pipeline: they do not fail, so they do not stop anything. */
module IgnoredErrors {
  import opened Basics
  import opened Llb
  import opened Tekton
  import opened TaskRun
  import opened PipelineRun
  import opened FinalWiring
  import opened Ordering
  import opened Precedence
  import opened Execution
  import opened Executor
  import opened Failures
  import opened HereDocs
  import opened ShellRun
  import opened ScriptRun
  import opened StepContent
  import opened Asked
  import Script

  /** The processes of the machine come to what the shell makes of them: one crashes only where, from some state of the
      world, its exit status is not zero or not known. */
  ghost predicate EndsAsStarted<W(!new)>(m: Machine, c: Commands<W>, g: Graph) {
    forall b, memory, caches ::
      0 <= b < |g| && g[b].Exec? && m.turn(g[b], memory, caches).action.Crash? ==> !AlwaysZero(c, g, b)
  }

  /** The process of `b` returns zero, whatever state of the world it is started in. */
  ghost predicate AlwaysZero<W(!new)>(c: Commands<W>, g: Graph, b: OpId)
    requires b < |g| && g[b].Exec?
  {
    forall world :: ReturnsZero(c, world, g, b)
  }

  ghost predicate ReturnsZero<W>(c: Commands<W>, world: W, g: Graph, b: OpId)
    requires b < |g| && g[b].Exec?
  {
    Start(c, world, g, b).Some? && Start(c, world, g, b).value.status == 0
  }

  ghost predicate NeverCrashes(m: Machine, op: Op) {
    forall memory, caches :: !m.turn(op, memory, caches).action.Crash?
  }

  lemma {:induction false} NeverFails(j: Job, d: Config, s: seq<OpId>, b: OpId)
    requires j.Valid() && |d.status| == |j.graph| && j.Schedule(d, s) && b < |j.graph|
        && NeverCrashes(j.machine, j.graph[b])
    requires !d.status[b].Failed?
    ensures |j.Run(d, s).status| == |j.graph| && !j.Run(d, s).status[b].Failed?
    decreases |s|
  {
    if s != [] {
      NeverFails(j, j.Next(d, s[0]), s[1..], b);
    }
  }

  /** A process that always returns zero has not failed in any configuration that any schedule reaches. */
  lemma ZeroNeverFails<W(!new)>(c: Commands<W>, j: Job, d: Config, b: OpId)
    requires Reachable(j, d) && EndsAsStarted(j.machine, c, j.graph)
    requires b < |j.graph| && j.graph[b].Exec? && AlwaysZero(c, j.graph, b)
    ensures b < |d.status| && !d.status[b].Failed?
  {
    var start, s :| j.Initial(start) && j.Schedule(start, s) && d == j.Run(start, s);
    NeverFails(j, start, s, b);
  }

  // ---------------------------------------------------------------- which steps always return zero

  /** A command that the shell carries out itself and that does not get out of the wrapper. */
  ghost predicate StaysInside<W>(c: Commands<W>, world: W, argv: seq<string>)
    requires argv != []
  {
    Understood(c, world, Stripped(argv)) && !Escapes(c, world, Stripped(argv))
  }

  /** Where errors are ignored, a command returns zero in every world if and only if it has a timeout, or is one that
      the shell does not carry out itself, or stays inside the wrapper in every world. */
  lemma CommandsReturnZeroExactly<W(!new)>(c: Commands<W>, step: Step, timeout: Option<int>, g: Graph, b: OpId)
    requires forall world :: Honoured(c, world, step, timeout, g, b)
    requires step.script == "" && step.command != [] && step.onError == "continue"
    requires b < |g| && g[b].Exec?
    ensures AlwaysZero(c, g, b) <==>
            timeout.Some? || Outside(step.command + step.args)
            || forall world :: StaysInside(c, world, step.command + step.args)
  {
    hide StaysInside, Outside, Stripped, Start, Body, ReturnsZero;
    var argv := step.command + step.args;
    forall world
      ensures ReturnsZero(c, world, g, b) <==>
              timeout.Some? || Outside(argv) || StaysInside(c, world, argv)
    {
      assert Honoured(c, world, step, timeout, g, b);
      CommandReturnsZero(c, world, step, timeout, g, b);
    }
  }

  lemma CommandReturnsZero<W(!new)>(c: Commands<W>, world: W, step: Step, timeout: Option<int>, g: Graph, b: OpId)
    requires Honoured(c, world, step, timeout, g, b)
    requires step.script == "" && step.command != [] && step.onError == "continue"
    requires b < |g| && g[b].Exec?
    ensures ReturnsZero(c, world, g, b) <==>
            timeout.Some? || Outside(step.command + step.args) || StaysInside(c, world, step.command + step.args)
  {
    hide Understood, Escapes, Outside, Stripped, Start, Body;
  }

  /** And a script, without a delimiter line and with paths from `mktemp`, if and only if the wrapper's own commands
      return zero in every world. */
  lemma ScriptsReturnZeroExactly<W(!new)>(c: Commands<W>, step: Step, timeout: Option<int>, g: Graph, b: OpId,
                                          whole: string)
    requires forall world :: Honoured(c, world, step, timeout, g, b)
    requires step.script != "" && step.onError == "continue" && !HasDelimiterLine(step.script)
    requires whole == if Script.Shebanged(step.script) then step.script else "#!/bin/sh\nset -e\n" + step.script
    requires forall world :: Made(c, world).status == 0 ==> IsPath(Path(c, world))
    requires b < |g| && g[b].Exec?
    ensures AlwaysZero(c, g, b) <==> forall world :: HelpedThroughout(c, world, whole, timeout)
  {
    hide HelpedThroughout, Start, HasDelimiterLine, Made, Path, IsPath, Script.WithPreamble, Script.Shebanged, Limited;
    Script.PreambleExactly(step.script);
    PreambleHasNoDelimiter(step.script);
    forall world
      ensures ReturnsZero(c, world, g, b) <==> HelpedThroughout(c, world, whole, timeout)
    {
      assert Honoured(c, world, step, timeout, g, b);
      ScriptWrapperStatus(c, world, whole, true, timeout);
      IgnoredScriptExactly(c, world, whole, timeout);
    }
  }

  /** A step whose command the shell does not carry out itself, with errors ignored. */
  ghost predicate IgnoresErrors(step: Step, timeout: Option<int>) {
    && step.script == "" && step.command != [] && step.onError == "continue"
    && (timeout.Some? || Outside(step.command + step.args))
  }

  /** Such a step of a compiled pipeline has failed in no configuration that any schedule reaches. */
  lemma IgnoredCommandNeverFails<W(!new)>(c: Commands<W>, m: Machine, ctx: Context, run: string,
                                          bindings: seq<WorkspaceBinding>, spec: PipelineSpec, compiled: Compiled,
                                          t: nat, j: nat, task: TaskSpec, step: Step, d: Config)
    requires CompileSpec(ctx, run, bindings, spec) == Done(compiled)
    requires t < |spec.tasks| && StepAt(compiled.steps, t, j)
    requires TaskAsked(ctx, spec.tasks[t], task) && StepAsked(ctx, task, j, step)
    requires IgnoresErrors(step, if step.timeout.Some? then step.timeout else spec.tasks[t].timeout)
    requires EndsAsStarted(m, c, compiled.graph) && Reachable(JobOf(compiled, m), d)
    ensures compiled.steps[t][j] < |d.status| && !d.status[compiled.steps[t][j]].Failed?
  {
    hide CompileSpec, EndsAsStarted, Reachable, Honoured, AlwaysZero;
    var b, timeout := compiled.steps[t][j], if step.timeout.Some? then step.timeout else spec.tasks[t].timeout;
    forall world
      ensures Honoured(c, world, step, timeout, compiled.graph, b)
    {
      var task', step' := RegularStepsHonoured(c, world, ctx, run, bindings, spec, compiled, t, j);
      assert task' == task && step' == step;
    }
    StepsAreProcesses(ctx, run, bindings, spec, t, j);
    CommandsReturnZeroExactly(c, step, timeout, compiled.graph, b);
    ZeroNeverFails(c, JobOf(compiled, m), d, b);
  }

  lemma StepsAreProcesses(ctx: Context, run: string, bindings: seq<WorkspaceBinding>, spec: PipelineSpec, t: nat,
                          j: nat)
    requires CompileSpec(ctx, run, bindings, spec).Done? && t < |spec.tasks|
    requires StepAt(CompileSpec(ctx, run, bindings, spec).value.steps, t, j)
    ensures var c := CompileSpec(ctx, run, bindings, spec).value;
            c.steps[t][j] < |c.graph| && c.graph[c.steps[t][j]].Exec?
  {
    hide CompileSpec, BindWorkspaces, TranslatedTask, HasFile, Mounted;
    StepsRunAsAsked(ctx, run, bindings, spec);
    var c, ws := CompileSpec(ctx, run, bindings, spec).value,
      BindWorkspaces(ctx, run, Bound([], map[]), bindings).value.workspaces;
    assert RunsTask(c.graph, c.steps[t], TranslatedTask(ctx, ws, spec.tasks[t]));
    assert Runs(c.graph, c.steps[t][j], TranslatedTask(ctx, ws, spec.tasks[t]).value[j]);
  }

  // ---------------------------------------------------------------- what that means for a run

  /** A step that ignores its errors stops nothing: whatever a complete run leaves unfinished is behind a failed
      operation other than that step. */
  lemma IgnoredStepStopsNothing<W(!new)>(c: Commands<W>, m: Machine, ws: map<string, WorkspaceSource>,
                                         spec: PipelineSpec, compiled: Compiled, d: Config, b: OpId, k: OpId)
    returns (f: OpId)
    requires Wired(ws, spec, compiled) && UniqueNames(spec) && EndsAsStarted(m, c, compiled.graph)
    requires Reachable(JobOf(compiled, m), d) && JobOf(compiled, m).Stuck(d)
    requires b < |compiled.graph| && compiled.graph[b].Exec? && AlwaysZero(c, compiled.graph, b)
    requires k < |compiled.graph| && compiled.graph[k].Exec? && !Finished(d, k)
    ensures f < |d.status| && d.status[f].Failed? && f != b && Before(compiled.graph, f, k)
    ensures compiled.graph[f].Exec? ==> Precedes(spec, compiled, f, k)
  {
    hide Wired, UniqueNames, EndsAsStarted, AlwaysZero;
    f := OnlyDependentsAreStopped(m, ws, spec, compiled, d, k);
    ZeroNeverFails(c, JobOf(compiled, m), d, b);
  }

  /** When every step ignores its errors and the images and files are there, every complete run finishes every process,
      finally steps and the collecting step included. */
  lemma IgnoringRunsFinish<W(!new)>(c: Commands<W>, m: Machine, ws: map<string, WorkspaceSource>, spec: PipelineSpec,
                                    compiled: Compiled, d: Config, k: OpId)
    requires Wired(ws, spec, compiled) && UniqueNames(spec) && EndsAsStarted(m, c, compiled.graph)
    requires Reachable(JobOf(compiled, m), d) && JobOf(compiled, m).Stuck(d)
    requires forall b :: 0 <= b < |compiled.graph| && compiled.graph[b].Exec? && b != compiled.root ==>
          AlwaysZero(c, compiled.graph, b)
    requires k < |compiled.graph| && compiled.graph[k].Exec? && Provided(compiled, d, k)
    ensures Finished(d, k)
  {
    if !Finished(d, k) {
      var f := OnlyDependentsAreStopped(m, ws, spec, compiled, d, k);
      if compiled.graph[f].Exec? {
        NothingComesAfterRoot(ws, spec, compiled, f, k);
        ZeroNeverFails(c, JobOf(compiled, m), d, f);
      }
    }
  }

  lemma NothingComesAfterRoot(ws: map<string, WorkspaceSource>, spec: PipelineSpec, c: Compiled, f: OpId, k: OpId)
    requires Wired(ws, spec, c) && UniqueNames(spec) && Before(c.graph, f, k) && c.graph[k].Exec?
    ensures f != c.root
  {
    AncestorIsEarlier(c.graph, f, k);
    RootReachesEveryStep(ws, spec, c, k);
    if k != c.root {
      AncestorIsEarlier(c.graph, k, c.root);
    }
  }
}
