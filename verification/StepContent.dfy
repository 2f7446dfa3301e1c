/** What the operation of a step runs: its image, its process, its files and its directories. */
module StepContent {
  import opened Basics
  import opened Llb
  import opened Tekton
  import opened TaskRun
  import opened PipelineRun
  import opened Script
  import opened HereDocs
  import opened ShellRun
  import opened ScriptRun
  import opened Asked
  import Duration
  import Text

  /** Everything asked of a step is mounted. */
  ghost predicate Mounted(fns: seq<MountFn>, mounts: seq<Mount>) {
    forall f :: f in fns ==> f.Apply(Scratch) in mounts
  }

  ghost predicate HasFile(g: Graph, mounts: seq<Mount>, file: ScriptFile) {
    && mounts != [] && mounts[0].source.Output?
    && mounts[0] == Mount("/tekton/scripts", mounts[0].source, "/", None, true)
    && mounts[0].source.op < |g| && g[mounts[0].source.op] == File(Scratch, file.name, file.data)
  }

  /** Operation `b` runs step `p`: its process, on its image, with its script file where the process expects it. */
  ghost predicate Runs(g: Graph, b: OpId, p: PStep) {
    && b < |g| && g[b].Exec?
    && g[b].process == p.process
    && g[b].rootfs < |g| && g[g[b].rootfs] == Image(p.image)
    && (p.script.Some? ==> HasFile(g, g[b].mounts, p.script.value))
    && (p.script.None? && p.results != [] ==> g[b].mounts != [] && g[b].mounts[0] == p.results[0].Apply(Scratch))
    && Mounted(p.results + p.workspaces + p.volumeMounts, g[b].mounts)
  }

  /** The step before is mounted under its index. */
  ghost predicate SeesPrevious(g: Graph, ids: seq<OpId>, j: nat)
    requires 0 < j < |ids|
  {
    && ids[j] < |g| && g[ids[j]].Exec?
    && Mount("/previous/" + Text.Decimal(j - 1), Output(ids[j - 1]), "/", None, true) in g[ids[j]].mounts
  }

  ghost predicate RunsAll(g: Graph, ids: seq<OpId>, steps: seq<PStep>) {
    && |ids| == |steps|
    && (forall j :: 0 <= j < |ids| ==> Runs(g, ids[j], steps[j]))
    && (forall j :: 0 < j < |ids| ==> SeesPrevious(g, ids, j))
  }

  lemma AppliedIsMounted(fns: seq<MountFn>, before: seq<Mount>, after: seq<Mount>)
    ensures Mounted(fns, before + ApplyAll(fns, Scratch) + after)
  {
    forall f | f in fns
      ensures f.Apply(Scratch) in before + ApplyAll(fns, Scratch) + after
    {
      var i :| 0 <= i < |fns| && fns[i] == f;
      assert ApplyAll(fns, Scratch)[i] == f.Apply(Scratch);
      assert (before + ApplyAll(fns, Scratch) + after)[|before| + i] == f.Apply(Scratch);
    }
  }

  lemma MountedTogether(a: seq<MountFn>, b: seq<MountFn>, mounts: seq<Mount>)
    requires Mounted(a, mounts) && Mounted(b, mounts)
    ensures Mounted(a + b, mounts)
  {
  }

  lemma AllMounted(g: Graph, step: PStep, i: nat, previous: State, additional: seq<Mount>)
    ensures Mounted(step.results + step.workspaces + step.volumeMounts, StepMounts(g, step, i, previous, additional))
  {
    var s, r, p, w, v := ScriptMount(g, step), ApplyAll(step.results, Scratch), PreviousMount(i, previous),
      ApplyAll(step.workspaces, Scratch), ApplyAll(step.volumeMounts, Scratch);
    var all := StepMounts(g, step, i, previous, additional);
    AppliedIsMounted(step.results, s, p + w + v + additional);
    AppliedIsMounted(step.workspaces, s + r + p, v + additional);
    AppliedIsMounted(step.volumeMounts, s + r + p + w, additional);
    hide Mounted, ApplyAll, ScriptMount, PreviousMount;
    assert all == s + r + (p + w + v + additional);
    assert all == s + r + p + w + (v + additional);
    assert all == s + r + p + w + v + additional;
    MountedTogether(step.results, step.workspaces, all);
    MountedTogether(step.results + step.workspaces, step.volumeMounts, all);
  }

  lemma FirstMount(g: Graph, step: PStep, i: nat, previous: State, additional: seq<Mount>)
    ensures var all := StepMounts(g, step, i, previous, additional);
            && (step.script.Some? ==> all != [] && all[0] == Mount(SCRIPTS_DIR, Output(|g| + 1), "/", None, true))
            && (step.script.None? && step.results != [] ==> all != [] && all[0] == step.results[0].Apply(Scratch))
  {
    var rest := PreviousMount(i, previous) + ApplyAll(step.workspaces, Scratch) + ApplyAll(step.volumeMounts, Scratch);
    var r, s := ApplyAll(step.results, Scratch), ScriptMount(g, step);
    assert StepMounts(g, step, i, previous, additional) == s + r + rest + additional by {
      hide ApplyAll, ScriptMount, PreviousMount;
    }
  }

  lemma EmittedRuns(g: Graph, step: PStep, i: nat, previous: State, additional: seq<Mount>)
    ensures var h := EmitStep(g, step, i, previous, additional); Runs(h, |h| - 1, step)
  {
    var h := EmitStep(g, step, i, previous, additional);
    AllMounted(g, step, i, previous, additional);
    FirstMount(g, step, i, previous, additional);
    hide Mounted, StepMounts;
    assert h[|g|] == Image(step.image);
    assert step.script.Some? ==> h[|g| + 1] == File(Scratch, step.script.value.name, step.script.value.data);
  }

  lemma StillRuns(g: Graph, h: Graph, ids: seq<OpId>, steps: seq<PStep>)
    requires RunsAll(g, ids, steps) && g <= h
    ensures RunsAll(h, ids, steps)
  {
    forall j | 0 <= j < |ids|
      ensures Runs(h, ids[j], steps[j])
    {
      assert Runs(g, ids[j], steps[j]);
    }
    forall j | 0 < j < |ids|
      ensures SeesPrevious(h, ids, j)
    {
      assert SeesPrevious(g, ids, j);
    }
  }

  lemma EmittedSeesPrevious(g: Graph, step: PStep, i: nat, previous: State, additional: seq<Mount>)
    requires i > 0
    ensures var h := EmitStep(g, step, i, previous, additional);
            h[|h| - 1].Exec?
            && Mount("/previous/" + Text.Decimal(i - 1), previous, "/", None, true) in h[|h| - 1].mounts
  {
    var m := Mount("/previous/" + Text.Decimal(i - 1), previous, "/", None, true);
    assert m == PreviousMount(i, previous)[0];
    assert m in PreviousMount(i, previous);
    hide ApplyAll, ScriptMount, PreviousMount;
    assert m in StepMounts(g, step, i, previous, additional);
  }

  lemma LastSeesPrevious(g: Graph, ids: seq<OpId>, b: OpId)
    requires ids != [] && b < |g| && g[b].Exec?
    requires Mount("/previous/" + Text.Decimal(|ids| - 1), Output(ids[|ids| - 1]), "/", None, true) in g[b].mounts
    ensures SeesPrevious(g, ids + [b], |ids|)
  {
  }

  lemma OneMoreRuns(g: Graph, ids: seq<OpId>, b: OpId, steps: seq<PStep>, step: PStep)
    requires RunsAll(g, ids, steps) && Runs(g, b, step)
    requires ids != [] ==> SeesPrevious(g, ids + [b], |ids|)
    ensures RunsAll(g, ids + [b], steps + [step])
  {
    forall j | 0 < j < |ids|
      ensures SeesPrevious(g, ids + [b], j)
    {
      assert SeesPrevious(g, ids, j);
    }
  }

  lemma {:induction false} EmittedRunAll(g: Graph, steps: seq<PStep>, additional: seq<Mount>, n: nat)
    requires n <= |steps|
    ensures var (h, ids) := EmitSteps(g, steps, additional, n); g <= h && RunsAll(h, ids, steps[..n])
  {
    hide EmitStep, Runs, SeesPrevious;
    if n > 0 {
      EmittedRunAll(g, steps, additional, n - 1);
      var (h, ids) := EmitSteps(g, steps, additional, n - 1);
      var previous := if n > 1 then Output(ids[n - 2]) else Scratch;
      EmittedRuns(h, steps[n - 1], n - 1, previous, additional);
      var h' := EmitStep(h, steps[n - 1], n - 1, previous, additional);
      StillRuns(h, h', ids, steps[..n - 1]);
      if n > 1 {
        EmittedSeesPrevious(h, steps[n - 1], n - 1, previous, additional);
        LastSeesPrevious(h', ids, |h'| - 1);
      }
      assert steps[..n] == steps[..n - 1] + [steps[n - 1]];
      OneMoreRuns(h', ids, |h'| - 1, steps[..n - 1], steps[n - 1]);
    }
  }

  // ---------------------------------------------------------------- every task of a pipeline

  /** The steps of regular task `t` as translated, none if the task is skipped. */
  ghost function TranslatedTask(ctx: Context, workspaces: map<string, WorkspaceSource>,
                                t: PipelineTask): Outcome<seq<PStep>>
  {
    if Skipped(t) then Done([])
    else
      var spec :- ResolveTask(ctx, t, "Taskref");
      var fns :- TaskWorkspaces(workspaces, [], t.workspaces);
      Translate(ctx, spec, TaskArgs(t.name, fns, t.timeout)).Outcome()
  }

  ghost function TranslatedFinal(ctx: Context, workspaces: map<string, WorkspaceSource>,
                                 t: PipelineTask): Outcome<seq<PStep>>
  {
    var spec :- ResolveTask(ctx, t, "Finally Taskref");
    Translate(ctx, spec,
      TaskArgs("finally/" + t.name, FinalWorkspaces(workspaces, [], t.workspaces), t.timeout)).Outcome()
  }

  ghost predicate RunsTask(g: Graph, ids: seq<OpId>, r: Outcome<seq<PStep>>) {
    r.Done? && RunsAll(g, ids, r.value)
  }

  ghost predicate RunsTasks(ctx: Context, workspaces: map<string, WorkspaceSource>, ts: seq<PipelineTask>, g: Graph,
                            steps: seq<seq<OpId>>)
  {
    |steps| <= |ts| && forall t :: 0 <= t < |steps| ==> RunsTask(g, steps[t], TranslatedTask(ctx, workspaces, ts[t]))
  }

  ghost predicate RunsFinals(ctx: Context, workspaces: map<string, WorkspaceSource>, fs: seq<PipelineTask>, g: Graph,
                             steps: seq<seq<OpId>>)
  {
    |steps| <= |fs| && forall f :: 0 <= f < |steps| ==> RunsTask(g, steps[f], TranslatedFinal(ctx, workspaces, fs[f]))
  }

  lemma RunsTasksStill(ctx: Context, workspaces: map<string, WorkspaceSource>, ts: seq<PipelineTask>, g: Graph,
                       h: Graph, steps: seq<seq<OpId>>)
    requires RunsTasks(ctx, workspaces, ts, g, steps) && g <= h
    ensures RunsTasks(ctx, workspaces, ts, h, steps)
  {
    hide TranslatedTask, RunsAll;
    forall t | 0 <= t < |steps|
      ensures RunsTask(h, steps[t], TranslatedTask(ctx, workspaces, ts[t]))
    {
      StillRuns(g, h, steps[t], TranslatedTask(ctx, workspaces, ts[t]).value);
    }
  }

  lemma {:induction false} TasksRun(ctx: Context, workspaces: map<string, WorkspaceSource>, p: Progress,
                                    ts: seq<PipelineTask>)
    requires RunsTasks(ctx, workspaces, ts, p.graph, p.steps)
    requires CompileTasks(ctx, workspaces, p, ts[|p.steps|..]).Done?
    ensures var q := CompileTasks(ctx, workspaces, p, ts[|p.steps|..]).value;
            RunsTasks(ctx, workspaces, ts, q.graph, q.steps) && |q.steps| == |ts| && p.graph <= q.graph
    decreases |ts| - |p.steps|
  {
    hide CompileTask, TranslatedTask, RunsTask;
    var k := |p.steps|;
    if k < |ts| {
      assert ts[k..][0] == ts[k] && ts[k..][1..] == ts[k + 1..];
      var next := CompileTask(ctx, workspaces, p, ts[k]).value;
      TaskRuns(ctx, workspaces, p, ts[k]);
      RunsTasksStill(ctx, workspaces, ts, p.graph, next.graph, p.steps);
      TasksRun(ctx, workspaces, next, ts);
    }
  }

  lemma TaskRuns(ctx: Context, workspaces: map<string, WorkspaceSource>, p: Progress, t: PipelineTask)
    requires CompileTask(ctx, workspaces, p, t).Done?
    ensures var q := CompileTask(ctx, workspaces, p, t).value;
            && p.graph <= q.graph
            && |q.steps| == |p.steps| + 1 && p.steps <= q.steps
            && RunsTask(q.graph, q.steps[|p.steps|], TranslatedTask(ctx, workspaces, t))
  {
    hide Translate, EmitSteps, Runs;
    if !Skipped(t) {
      var steps := TranslatedTask(ctx, workspaces, t).value;
      EmittedRunAll(p.graph, steps, RunAfterMounts(p.tasks, [], t.runAfter).value, |steps|);
      assert steps[..|steps|] == steps;
    }
  }

  lemma RunsFinalsStill(ctx: Context, workspaces: map<string, WorkspaceSource>, fs: seq<PipelineTask>, g: Graph,
                        h: Graph, steps: seq<seq<OpId>>)
    requires RunsFinals(ctx, workspaces, fs, g, steps) && g <= h
    ensures RunsFinals(ctx, workspaces, fs, h, steps)
  {
    hide TranslatedFinal, RunsAll;
    forall f | 0 <= f < |steps|
      ensures RunsTask(h, steps[f], TranslatedFinal(ctx, workspaces, fs[f]))
    {
      StillRuns(g, h, steps[f], TranslatedFinal(ctx, workspaces, fs[f]).value);
    }
  }

  lemma {:induction false} FinalsRun(ctx: Context, workspaces: map<string, WorkspaceSource>, mounts: seq<Mount>,
                                     f: Finals, fs: seq<PipelineTask>)
    requires RunsFinals(ctx, workspaces, fs, f.graph, f.steps)
    requires CompileFinals(ctx, workspaces, mounts, f, fs[|f.steps|..]).Done?
    ensures var q := CompileFinals(ctx, workspaces, mounts, f, fs[|f.steps|..]).value;
            RunsFinals(ctx, workspaces, fs, q.graph, q.steps) && |q.steps| == |fs| && f.graph <= q.graph
    decreases |fs| - |f.steps|
  {
    hide CompileFinal, TranslatedFinal, RunsTask;
    var k := |f.steps|;
    if k < |fs| {
      assert fs[k..][0] == fs[k] && fs[k..][1..] == fs[k + 1..];
      var next := CompileFinal(ctx, workspaces, mounts, f, fs[k]).value;
      FinalRuns(ctx, workspaces, mounts, f, fs[k]);
      RunsFinalsStill(ctx, workspaces, fs, f.graph, next.graph, f.steps);
      FinalsRun(ctx, workspaces, mounts, next, fs);
    }
  }

  lemma FinalRuns(ctx: Context, workspaces: map<string, WorkspaceSource>, mounts: seq<Mount>, f: Finals,
                  t: PipelineTask)
    requires CompileFinal(ctx, workspaces, mounts, f, t).Done?
    ensures var q := CompileFinal(ctx, workspaces, mounts, f, t).value;
            && f.graph <= q.graph
            && |q.steps| == |f.steps| + 1 && f.steps <= q.steps
            && RunsTask(q.graph, q.steps[|f.steps|], TranslatedFinal(ctx, workspaces, t))
  {
    hide Translate, EmitSteps, Runs;
    var steps := TranslatedFinal(ctx, workspaces, t).value;
    EmittedRunAll(f.graph, steps, mounts, |steps|);
    assert steps[..|steps|] == steps;
  }

  /** Every operation of a compiled pipeline runs the step it stands for: the j-th operation of a task the j-th step
      of its resolved, substituted and merged specification; a skipped task has none. */
  lemma StepsRunAsAsked(ctx: Context, run: string, bindings: seq<WorkspaceBinding>, spec: PipelineSpec)
    requires CompileSpec(ctx, run, bindings, spec).Done?
    ensures BindWorkspaces(ctx, run, Bound([], map[]), bindings).Done?
    ensures BindWorkspaces(ctx, run, Bound([], map[]), bindings).value.graph <=
            CompileSpec(ctx, run, bindings, spec).value.graph
    ensures var ws := BindWorkspaces(ctx, run, Bound([], map[]), bindings).value.workspaces;
            var c := CompileSpec(ctx, run, bindings, spec).value;
            && |c.steps| == |spec.tasks| && RunsTasks(ctx, ws, spec.tasks, c.graph, c.steps)
            && |c.finals| == |spec.finals| && RunsFinals(ctx, ws, spec.finals, c.graph, c.finals)
  {
    hide RunsTasks, RunsFinals, CompileTasks, CompileFinals;
    var b := BindWorkspaces(ctx, run, Bound([], map[]), bindings).value;
    var start := Progress(b.graph, map[], map[], []);
    assert spec.tasks[0..] == spec.tasks && spec.finals[0..] == spec.finals;
    var p := CompileTasks(ctx, b.workspaces, start, spec.tasks).value;
    NothingRuns(ctx, b.workspaces, spec, b.graph);
    TasksRun(ctx, b.workspaces, start, spec.tasks);
    var mounts := if spec.finals != [] then FinalMounts(p.tasks, [], ctx.lib.range("finally", p.tasks.Keys)) else [];
    var finals := Finals(p.graph, map[], []);
    var f := CompileFinals(ctx, b.workspaces, mounts, finals, spec.finals).value;
    NothingRuns(ctx, b.workspaces, spec, p.graph);
    FinalsRun(ctx, b.workspaces, mounts, finals, spec.finals);
    var h := EmitRoot(f.graph, CollectAll(ctx.lib, p.tasks, f.tasks));
    RunsTasksStill(ctx, b.workspaces, spec.tasks, p.graph, h, p.steps);
    RunsFinalsStill(ctx, b.workspaces, spec.finals, f.graph, h, f.steps);
  }

  lemma NothingRuns(ctx: Context, workspaces: map<string, WorkspaceSource>, spec: PipelineSpec, g: Graph)
    ensures RunsTasks(ctx, workspaces, spec.tasks, g, []) && RunsFinals(ctx, workspaces, spec.finals, g, [])
  {
  }

  /** The i-th workspace a regular task uses is the i-th mounted, under the task's own name for it. */
  lemma {:induction false} WorkspacesInOrder(workspaces: map<string, WorkspaceSource>, fns: seq<MountFn>,
                                             uses: seq<WorkspaceUse>)
    requires TaskWorkspaces(workspaces, fns, uses).Done?
    ensures var r := TaskWorkspaces(workspaces, fns, uses).value;
            && fns <= r && |r| == |fns| + |uses|
            && forall i :: 0 <= i < |uses| ==>
                 uses[i].workspace in workspaces
                   && r[|fns| + i] == workspaces[uses[i].workspace].At("/workspace/" + uses[i].name)
    decreases |uses|
  {
    if uses != [] {
      var more := fns + [workspaces[uses[0].workspace].At("/workspace/" + uses[0].name)];
      WorkspacesInOrder(workspaces, more, uses[1..]);
      assert TaskWorkspaces(workspaces, more, uses[1..]).value[|fns|] == more[|fns|];
    }
  }

  /** A finally task has exactly those of its workspaces that are bound. */
  lemma {:induction false} FinalWorkspacesBound(workspaces: map<string, WorkspaceSource>, fns: seq<MountFn>,
                                                uses: seq<WorkspaceUse>, fn: MountFn)
    ensures fn in FinalWorkspaces(workspaces, fns, uses) <==>
            fn in fns || exists u ::
              u in uses && u.workspace in workspaces && fn == workspaces[u.workspace].At("/workspace/" + u.name)
    decreases |uses|
  {
    if uses != [] {
      var more := if uses[0].workspace in workspaces then
        fns + [workspaces[uses[0].workspace].At("/workspace/" + uses[0].name)] else fns;
      FinalWorkspacesBound(workspaces, more, uses[1..], fn);
      assert forall u :: u in uses <==> u == uses[0] || u in uses[1..];
    }
  }

  // ---------------------------------------------------------------- exit statuses

  ghost function MountedFile(g: Graph, mounts: seq<Mount>): Option<ScriptFile> {
    if mounts != [] && mounts[0].target == SCRIPTS_DIR && mounts[0].source.Output? && mounts[0].source.op < |g|
      && g[mounts[0].source.op].File? then
      Some(ScriptFile(g[mounts[0].source.op].path, g[mounts[0].source.op].data))
    else None
  }

  /** The process of an operation: a generated file with the shell's shebang is run by the shell, anything else is
      run as it is. */
  ghost function Start<W>(c: Commands<W>, world: W, g: Graph, b: OpId): Option<Exited<W>>
    requires b < |g| && g[b].Exec?
  {
    var file, args := MountedFile(g, g[b].mounts), g[b].process.args;
    if file.Some? && args == [SCRIPTS_DIR + "/" + file.value.name] && SHEBANG <= file.value.data then
      RunText(c, world, file.value.data)
    else
      var r := c.run(world, args, "");
      Some(Exited(r.world, r.status))
  }

  lemma GeneratedFilesAreScripts(command: seq<string>, args: seq<string>, script: string, continueOnError: bool,
                                 timeout: Option<int>)
    ensures SHEBANG <= CommandText(command, args, continueOnError, timeout)
    ensures SHEBANG <= WrapScript(script, timeout, continueOnError)
  {
    var line := TimeoutPrefix(timeout) + ShellQuoteJoin(command + args);
    hide TimeoutPrefix, ShellQuoteJoin, WrapTail, TrapExit, MakeFile, ReadScript;
    assert CommandText(command, args, continueOnError, timeout) == SHEBANG + if continueOnError then
      line + OR_TRUE + "\n" else SET_E + line + "\n";
    assert WrapHead() == SHEBANG + (SET_E + MakeFile() + TrapExit() + ReadScript());
    assert WrapScript(script, timeout, continueOnError) ==
      WrapHead() + (script + "\n" + DELIMITER + "\n" + WrapTail(timeout, continueOnError));
  }

  lemma DifferentDirectories()
    ensures SCRIPTS_DIR != "/tekton/results"
  {
    assert |SCRIPTS_DIR| == |"/tekton/results"|;
    assert SCRIPTS_DIR[8] == 's' && "/tekton/results"[8] == 'r';
  }

  /** A call of `timeout` for this many nanoseconds, as `timeout` reads its argument: one second for anything shorter,
      otherwise the whole seconds, or one more where binary64 rounds up. */
  ghost predicate Limited(prefix: seq<string>, timeout: Option<int>) {
    if timeout.None? then prefix == []
    else
      && |prefix| == 2 && prefix[0] == "timeout"
      && (-Duration.MAX_DURATION - 1 <= timeout.value <= Duration.MAX_DURATION ==>
            var d := timeout.value;
            var whole := if d < Duration.SECOND then 1 else d / Duration.SECOND + if Duration.RoundsUp(d) then 1 else 0;
              Duration.Nanoseconds(prefix[1]) == Some(Duration.SECOND * whole))
  }

  lemma TimeoutLimits(timeout: Option<int>)
    ensures Limited(TimeoutArgs(timeout), timeout)
  {
    hide Duration.RoundsUp, Duration.Nanoseconds, Duration.FormatDuration;
    if timeout.Some? && -Duration.MAX_DURATION - 1 <= timeout.value <= Duration.MAX_DURATION {
      Duration.PrintedSeconds(timeout.value);
    }
  }

  /** onError and timeout of a step with a command, wrapped or not: the exit status of the operation is zero when
      errors are ignored and otherwise that of the command run under the timeout. Where errors are ignored without
      a timeout, the shell itself carries out `true`, `command` and the special built-in utilities; of those it
      understands, exactly the commands that get out of the wrapper have another status. */
  ghost predicate CommandHonoured<W(!new)>(c: Commands<W>, world: W, step: Step, timeout: Option<int>, g: Graph,
                                    b: OpId)
    requires b < |g| && g[b].Exec? && step.command != []
  {
    var ignored, argv := step.onError == "continue", step.command + step.args;
    if timeout.Some? || !ignored || Outside(argv) then
      var body := Body(c, world, TimeoutArgs(timeout) + argv, ignored || timeout.Some?);
      Start(c, world, g, b) == Some(Exited(body.world, if ignored then 0 else body.status))
    else
      var ended, bare := Start(c, world, g, b), Stripped(argv);
      && (ended.Some? <==> Understood(c, world, bare))
      && (ended.Some? ==> (ended.value.status != 0 <==> Escapes(c, world, bare)))
  }

  /** The same of a step with a script. Wrapped, it is copied to a temporary file and run from there; otherwise the
      generated file is itself the script, with a shebang and `set -e` in front if it has none: the shell reads it, or
      whatever interpreter it names runs it as a process. */
  ghost predicate ScriptHonoured<W(!new)>(c: Commands<W>, world: W, step: Step, timeout: Option<int>, g: Graph, b: OpId)
    requires b < |g| && g[b].Exec?
  {
    var ignored := step.onError == "continue";
    var whole := if Shebanged(step.script) then step.script else "#!/bin/sh\nset -e\n" + step.script;
    if ignored || timeout.Some? then
      !HasDelimiterLine(step.script) && (Made(c, world).status == 0 ==> IsPath(Path(c, world))) ==>
        Start(c, world, g, b) == Some(ScriptOutcome(c, world, whole, ignored, timeout))
    else
      var file := MountedFile(g, g[b].mounts);
      && file.Some? && file.value.data == whole && g[b].process.args == ["/tekton/scripts/" + file.value.name]
      && (SHEBANG <= whole ==> Start(c, world, g, b) == RunText(c, world, whole))
      && (!(SHEBANG <= whole) ==>
            var run := c.run(world, g[b].process.args, "");
              Start(c, world, g, b) == Some(Exited(run.world, run.status)))
  }

  /** onError and timeout as the specification of a step promises them, for the operation `b`. A step with neither
      script nor command leaves its arguments to the image, and then neither has any effect. */
  ghost predicate Honoured<W(!new)>(c: Commands<W>, world: W, step: Step, timeout: Option<int>, g: Graph, b: OpId) {
    && b < |g| && g[b].Exec? && Limited(TimeoutArgs(timeout), timeout)
    && (step.script != "" ==> ScriptHonoured(c, world, step, timeout, g, b))
    && (step.script == "" && step.command != [] ==> CommandHonoured(c, world, step, timeout, g, b))
    && (step.script == "" && step.command == [] ==>
          var body := c.run(world, step.args, "");
          Start(c, world, g, b) == Some(Exited(body.world, body.status)))
  }

  lemma CommandStepHonoured<W(!new)>(c: Commands<W>, world: W, ctx: Context, spec: TaskSpec, task: TaskArgs, step: Step,
                              i: nat, g: Graph, b: OpId)
    requires TranslateStep(ctx, spec, task, step, i).Ok? && Runs(g, b, TranslateStep(ctx, spec, task, step, i).value)
    requires step.script == ""
    ensures Honoured(c, world, step, StepTimeout(step, task.timeout), g, b)
  {
    var continueOnError, timeout := step.onError == CONTINUE, StepTimeout(step, task.timeout);
    hide RunText, StepEnv, VolumeFns, CommandText, CarriedOut, Stripped, Understood, Escapes, Limited;
    TimeoutLimits(timeout);
    DifferentDirectories();
    if step.command == [] {
      assert MountedFile(g, g[b].mounts).None?;
      assert [] + step.args == step.args;
    } else if continueOnError || timeout.Some? {
      GeneratedFilesAreScripts(step.command, step.args, "", continueOnError, timeout);
      if timeout.Some? || Outside(step.command + step.args) {
        CommandWrapperStatus(c, world, step.command, step.args, continueOnError, timeout);
      } else {
        IgnoredStatusExactly(c, world, step.command, step.args);
      }
    } else {
      assert MountedFile(g, g[b].mounts).None?;
      assert TimeoutArgs(timeout) + (step.command + step.args) == step.command + step.args;
    }
  }

  lemma ScriptStepHonoured<W(!new)>(c: Commands<W>, world: W, ctx: Context, spec: TaskSpec, task: TaskArgs, step: Step,
                             i: nat, g: Graph, b: OpId)
    requires TranslateStep(ctx, spec, task, step, i).Ok? && Runs(g, b, TranslateStep(ctx, spec, task, step, i).value)
    requires step.script != ""
    ensures Honoured(c, world, step, StepTimeout(step, task.timeout), g, b)
  {
    var continueOnError, timeout, whole := step.onError == CONTINUE, StepTimeout(step, task.timeout),
      WithPreamble(step.script);
    hide RunText, StepEnv, VolumeFns, WrapScript, WithPreamble, HasDelimiterLine, ScriptOutcome, Made, Path, Limited,
      Shebanged;
    TimeoutLimits(timeout);
    PreambleExactly(step.script);
    assert SCRIPTS_DIR + "/" == "/tekton/scripts/";
    GeneratedFilesAreScripts([], [], whole, continueOnError, timeout);
    if (continueOnError || timeout.Some?) && !HasDelimiterLine(step.script)
      && (Made(c, world).status == 0 ==> IsPath(Path(c, world))) {
      PreambleHasNoDelimiter(step.script);
      ScriptWrapperStatus(c, world, whole, continueOnError, timeout);
    }
  }

  lemma {:induction false} EachStepTranslated(ctx: Context, spec: TaskSpec, task: TaskArgs, merged: seq<Step>, n: nat)
    requires n <= |merged| && TranslateSteps(ctx, spec, task, merged, n).Ok?
    ensures |TranslateSteps(ctx, spec, task, merged, n).value| == n
    ensures forall j :: 0 <= j < n ==>
          TranslateStep(ctx, spec, task, merged[j], j) == Ok(TranslateSteps(ctx, spec, task, merged, n).value[j])
  {
    hide TranslateStep;
    if n > 0 {
      EachStepTranslated(ctx, spec, task, merged, n - 1);
    }
  }

  /** Operations that run the steps of a task honour each step, after merging with the step template. */
  lemma TaskHonoured<W(!new)>(c: Commands<W>, world: W, ctx: Context, spec: TaskSpec, task: TaskArgs, g: Graph,
                       ids: seq<OpId>, j: nat) returns (step: Step)
    requires Translate(ctx, spec, task).Ok? && RunsAll(g, ids, Translate(ctx, spec, task).value) && j < |ids|
    ensures StepAsked(ctx, spec, j, step)
    ensures Honoured(c, world, step, StepTimeout(step, task.timeout), g, ids[j])
  {
    hide TranslateStep, Honoured, Runs, StepAsked;
    var merged := MergeSteps(ctx.lib, spec, |spec.steps|).value;
    MergedSteps(ctx, spec, |spec.steps|);
    EachStepTranslated(ctx, spec, task, merged, |merged|);
    assert Runs(g, ids[j], Translate(ctx, spec, task).value[j]);
    step := merged[j];
    if step.script == "" {
      CommandStepHonoured(c, world, ctx, spec, task, step, j, g, ids[j]);
    } else {
      ScriptStepHonoured(c, world, ctx, spec, task, step, j, g, ids[j]);
    }
  }

  /** onError and timeout survive compilation: every operation of every regular task honours its step, under the
      step's timeout if it has one, and else the task's, if that has one. */
  lemma RegularStepsHonoured<W(!new)>(c: Commands<W>, world: W, ctx: Context, run: string,
                               bindings: seq<WorkspaceBinding>, spec: PipelineSpec, compiled: Compiled, t: nat, j: nat)
    returns (task: TaskSpec, step: Step)
    requires CompileSpec(ctx, run, bindings, spec) == Done(compiled) && t < |spec.tasks|
    requires t < |compiled.steps| && j < |compiled.steps[t]|
    ensures TaskAsked(ctx, spec.tasks[t], task) && StepAsked(ctx, task, j, step)
    ensures step.timeout.Some? ==>
          Honoured(c, world, step, step.timeout, compiled.graph, compiled.steps[t][j])
    ensures step.timeout.None? ==>
          Honoured(c, world, step, spec.tasks[t].timeout, compiled.graph, compiled.steps[t][j])
  {
    hide CompileSpec, Translate, Honoured, Runs, StepAsked, TaskAsked;
    StepsRunAsAsked(ctx, run, bindings, spec);
    var ws := BindWorkspaces(ctx, run, Bound([], map[]), bindings).value.workspaces;
    var u := spec.tasks[t];
    assert RunsTask(compiled.graph, compiled.steps[t], TranslatedTask(ctx, ws, u));
    var fns := TaskWorkspaces(ws, [], u.workspaces).value;
    task := ResolveTask(ctx, u, "Taskref").value;
    ResolvedTask(ctx, u, "Taskref", task);
    step := TaskHonoured(c, world, ctx, task, TaskArgs(u.name, fns, u.timeout), compiled.graph, compiled.steps[t], j);
  }

  /** The same for finally tasks. */
  lemma FinalStepsHonoured<W(!new)>(c: Commands<W>, world: W, ctx: Context, run: string,
                             bindings: seq<WorkspaceBinding>, spec: PipelineSpec, compiled: Compiled, f: nat, j: nat)
    returns (task: TaskSpec, step: Step)
    requires CompileSpec(ctx, run, bindings, spec) == Done(compiled) && f < |spec.finals|
    requires f < |compiled.finals| && j < |compiled.finals[f]|
    ensures TaskAsked(ctx, spec.finals[f], task) && StepAsked(ctx, task, j, step)
    ensures step.timeout.Some? ==>
          Honoured(c, world, step, step.timeout, compiled.graph, compiled.finals[f][j])
    ensures step.timeout.None? ==>
          Honoured(c, world, step, spec.finals[f].timeout, compiled.graph, compiled.finals[f][j])
  {
    hide CompileSpec, Translate, Honoured, Runs, StepAsked, TaskAsked;
    StepsRunAsAsked(ctx, run, bindings, spec);
    var ws := BindWorkspaces(ctx, run, Bound([], map[]), bindings).value.workspaces;
    var u := spec.finals[f];
    assert RunsTask(compiled.graph, compiled.finals[f], TranslatedFinal(ctx, ws, u));
    var args := TaskArgs("finally/" + u.name, FinalWorkspaces(ws, [], u.workspaces), u.timeout);
    task := ResolveTask(ctx, u, "Finally Taskref").value;
    ResolvedTask(ctx, u, "Finally Taskref", task);
    step := TaskHonoured(c, world, ctx, task, args, compiled.graph, compiled.finals[f], j);
  }

  /** And for a TaskRun, whose steps have no timeout but their own. */
  lemma TaskRunStepsHonoured<W(!new)>(c: Commands<W>, world: W, ctx: Context, run: TaskRunObject,
                                      compiled: CompiledTask, j: nat) returns (task: TaskSpec, step: Step)
    requires CompileTaskRun(ctx, run) == Done(compiled) && j < |compiled.steps|
    ensures RunAsked(ctx, run, task) && |compiled.steps| == |task.steps| && StepAsked(ctx, task, j, step)
    ensures Honoured(c, world, step, step.timeout, compiled.graph, compiled.steps[j])
  {
    hide TranslateSteps, Honoured, Runs, EmitSteps, StepAsked, RunAsked;
    var args := TaskArgs(run.name, RunWorkspaces(run), None);
    task := ResolveTaskRun(ctx, run).value;
    ResolvedRun(ctx, run, task);
    var steps := Translate(ctx, task, args).value;
    EmittedRunAll([], steps, [], |steps|);
    assert steps[..|steps|] == steps;
    MergedSteps(ctx, task, |task.steps|);
    EachStepTranslated(ctx, task, args, MergeSteps(ctx.lib, task, |task.steps|).value, |task.steps|);
    step := TaskHonoured(c, world, ctx, task, args, compiled.graph, compiled.steps, j);
  }
}
