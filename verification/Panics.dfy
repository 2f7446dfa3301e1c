/** When compilation panics, exactly. */
module Panics {
  import opened Llb
  import opened Tekton
  import opened TaskRun
  import opened PipelineRun
  import opened Wiring
  import opened PipelineWiring

  /** The task resolves, and its steps translate. */
  ghost predicate Translates(ctx: Context, t: PipelineTask, kind: string, name: string) {
    && ResolveTask(ctx, t, kind).Done?
    && Translate(ctx, ResolveTask(ctx, t, kind).value, TaskArgs(name, [], t.timeout)).Ok?
  }

  ghost predicate AllTranslate(ctx: Context, spec: PipelineSpec) {
    && (forall t :: t in spec.tasks && !Skipped(t) ==> Translates(ctx, t, "Taskref", t.name))
    && (forall f :: f in spec.finals ==> Translates(ctx, f, "Finally Taskref", "finally/" + f.name))
  }

  /** How many steps a regular task contributes: none when its `when` list does not pass. */
  ghost function StepCount(ctx: Context, t: PipelineTask): nat {
    if Skipped(t) || !ResolveTask(ctx, t, "Taskref").Done? then 0 else |ResolveTask(ctx, t, "Taskref").value.steps|
  }

  ghost function FinalStepCount(ctx: Context, f: PipelineTask): nat {
    if ResolveTask(ctx, f, "Finally Taskref").Done? then |ResolveTask(ctx, f, "Finally Taskref").value.steps| else 0
  }

  /** The condition on task `k`: its workspaces are bound, and each name in `runAfter` is that of a task listed
      earlier, not skipped, and with at least one step. */
  ghost predicate CompilesAt(ctx: Context, workspaces: set<string>, ts: seq<PipelineTask>, k: nat)
    requires k < |ts|
  {
    !Skipped(ts[k]) ==>
      && (forall u :: u in ts[k].workspaces ==> u.workspace in workspaces)
      && (forall a :: a in ts[k].runAfter ==>
        Resolve(ts, k, a).Some? && StepCount(ctx, ts[Resolve(ts, k, a).value]) > 0)
  }

  ghost function BoundNames(bindings: seq<WorkspaceBinding>): set<string> {
    set w | w in bindings && !w.kind.OtherWorkspace? :: w.name
  }

  // ---------------------------------------------------------------- phase by phase

  lemma {:induction false} BoundWorkspaceNames(ctx: Context, run: string, b: Bound, ws: seq<WorkspaceBinding>)
    requires BindWorkspaces(ctx, run, b, ws).Done?
    ensures BindWorkspaces(ctx, run, b, ws).value.workspaces.Keys == b.workspaces.Keys + BoundNames(ws)
    decreases |ws|
  {
    if ws != [] {
      var next := BindWorkspace(ctx, run, b, ws[0]).value;
      BoundWorkspaceNames(ctx, run, next, ws[1..]);
      assert ws == [ws[0]] + ws[1..];
      assert BoundNames(ws) == (if ws[0].kind.OtherWorkspace? then {} else {ws[0].name}) + BoundNames(ws[1..]);
      assert next.workspaces.Keys == b.workspaces.Keys + if ws[0].kind.OtherWorkspace? then {} else {ws[0].name};
    }
  }

  lemma {:induction false} WorkspacesOutcome(workspaces: map<string, WorkspaceSource>, fns: seq<MountFn>,
                                             uses: seq<WorkspaceUse>)
    ensures var r := TaskWorkspaces(workspaces, fns, uses);
            && (r.Done? <==> forall u :: u in uses ==> u.workspace in workspaces)
            && (r.Done? || r.Panicked?)
    decreases |uses|
  {
    if uses != [] {
      assert uses == [uses[0]] + uses[1..];
      if uses[0].workspace in workspaces {
        WorkspacesOutcome(workspaces, fns + [workspaces[uses[0].workspace].At("/workspace/" + uses[0].name)],
          uses[1..]);
      }
    }
  }

  lemma {:induction false} RunAfterOutcome(tasks: map<string, seq<State>>, mounts: seq<Mount>, runAfter: seq<string>)
    ensures var r := RunAfterMounts(tasks, mounts, runAfter);
            && (r.Done? <==> forall a :: a in runAfter ==> a in tasks && tasks[a] != [])
            && (r.Done? || r.Panicked?)
    decreases |runAfter|
  {
    if runAfter != [] {
      assert runAfter == [runAfter[0]] + runAfter[1..];
      if runAfter[0] in tasks && tasks[runAfter[0]] != [] {
        RunAfterOutcome(tasks, mounts + AfterTask(runAfter[0], tasks[runAfter[0]]), runAfter[1..]);
      }
    }
  }

  lemma {:induction false} StepsTranslateAlike(ctx: Context, spec: TaskSpec, task: TaskArgs, other: TaskArgs,
                                               merged: seq<Step>, n: nat)
    requires n <= |merged|
    ensures TranslateSteps(ctx, spec, task, merged, n).Ok? == TranslateSteps(ctx, spec, other, merged, n).Ok?
  {
    hide StepEnv, StepFile;
    if n > 0 {
      StepsTranslateAlike(ctx, spec, task, other, merged, n - 1);
      var step := merged[n - 1];
      assert TranslateStep(ctx, spec, task, step, n - 1).Ok? == ctx.lib.normalizeImage(step.image).Ok? ==
        TranslateStep(ctx, spec, other, step, n - 1).Ok?;
      hide TranslateStep;
    }
  }

  /** Whether a task translates does not depend on its workspaces. */
  lemma TranslatesAnyway(ctx: Context, spec: TaskSpec, task: TaskArgs, other: TaskArgs)
    ensures Translate(ctx, spec, task).Ok? == Translate(ctx, spec, other).Ok?
  {
    var merged := MergeSteps(ctx.lib, spec, |spec.steps|);
    if merged.Ok? {
      StepsTranslateAlike(ctx, spec, task, other, merged.value, |merged.value|);
    }
  }

  /** The steps emitted so far are as many as the tasks have. */
  ghost predicate Counted(ctx: Context, ts: seq<PipelineTask>, steps: seq<seq<OpId>>)
    requires |steps| <= |ts|
  {
    forall t :: 0 <= t < |steps| ==> |steps[t]| == StepCount(ctx, ts[t])
  }

  /** The states kept by name are there for the tasks that have steps. */
  lemma NamesWithSteps(ctx: Context, p: Progress, ts: seq<PipelineTask>, a: string)
    requires |p.steps| < |ts| && NamesResolve(ts, |p.steps|, p.tasks, p.steps) && Counted(ctx, ts, p.steps)
    ensures a in p.tasks && p.tasks[a] != [] <==>
            Resolve(ts, |p.steps|, a).Some? && StepCount(ctx, ts[Resolve(ts, |p.steps|, a).value]) > 0
  {
    hide StepCount;
    if a in p.tasks {
      var d := Resolve(ts, |p.steps|, a).value;
      assert p.tasks[a] == Outputs(p.steps[d]);
      assert |p.tasks[a]| == StepCount(ctx, ts[d]);
    }
  }

  lemma TaskOutcome(ctx: Context, workspaces: map<string, WorkspaceSource>, p: Progress, ts: seq<PipelineTask>)
    requires |p.steps| < |ts| && NamesResolve(ts, |p.steps|, p.tasks, p.steps) && Counted(ctx, ts, p.steps)
    requires !Skipped(ts[|p.steps|]) ==> Translates(ctx, ts[|p.steps|], "Taskref", ts[|p.steps|].name)
    ensures var r := CompileTask(ctx, workspaces, p, ts[|p.steps|]);
            && (r.Done? <==> CompilesAt(ctx, workspaces.Keys, ts, |p.steps|))
            && (r.Done? || r.Panicked?)
            && (r.Done? ==> |r.value.steps| == |p.steps| + 1 && Counted(ctx, ts, r.value.steps))
  {
    hide Translate, EmitSteps, RunAfterMounts, TaskWorkspaces, NamesResolve;
    var k := |p.steps|;
    var t := ts[k];
    if !Skipped(t) {
      var spec := ResolveTask(ctx, t, "Taskref").value;
      WorkspacesOutcome(workspaces, [], t.workspaces);
      RunAfterOutcome(p.tasks, [], t.runAfter);
      forall a
        ensures a in p.tasks && p.tasks[a] != [] <==>
              Resolve(ts, k, a).Some? && StepCount(ctx, ts[Resolve(ts, k, a).value]) > 0
      {
        NamesWithSteps(ctx, p, ts, a);
      }
      var fns := TaskWorkspaces(workspaces, [], t.workspaces);
      if fns.Done? {
        var task := TaskArgs(t.name, fns.value, t.timeout);
        TranslatesAnyway(ctx, spec, task, TaskArgs(t.name, [], t.timeout));
        TranslationIsWired(ctx, spec, task);
      }
    }
  }

  lemma {:induction false} TasksOutcome(ctx: Context, workspaces: map<string, WorkspaceSource>, p: Progress,
                                        ts: seq<PipelineTask>)
    requires |p.steps| <= |ts| && RegularWired(ts, workspaces, p) && Counted(ctx, ts, p.steps)
    requires forall t :: t in ts && !Skipped(t) ==> Translates(ctx, t, "Taskref", t.name)
    ensures var r := CompileTasks(ctx, workspaces, p, ts[|p.steps|..]);
            && (r.Done? <==> forall k :: |p.steps| <= k < |ts| ==> CompilesAt(ctx, workspaces.Keys, ts, k))
            && (r.Done? || r.Panicked?)
            && (r.Done? ==> |r.value.steps| == |ts| && Counted(ctx, ts, r.value.steps))
    decreases |ts| - |p.steps|
  {
    hide CompileTask, Translates, CompilesAt, StepCount;
    var k := |p.steps|;
    if k < |ts| {
      assert ts[k..][0] == ts[k] && ts[k..][1..] == ts[k + 1..];
      assert ts[k] in ts;
      TaskOutcome(ctx, workspaces, p, ts);
      var r := CompileTask(ctx, workspaces, p, ts[k]);
      if r.Done? {
        TaskCompiled(ctx, workspaces, p, ts);
        TasksOutcome(ctx, workspaces, r.value, ts);
      }
    }
  }

  ghost predicate FinalsCounted(ctx: Context, done: seq<seq<OpId>>, fs: seq<PipelineTask>, steps: seq<seq<OpId>>) {
    && |steps| == |done| + |fs|
    && (forall k :: 0 <= k < |done| ==> steps[k] == done[k])
    && (forall k :: 0 <= k < |fs| ==> |steps[|done| + k]| == FinalStepCount(ctx, fs[k]))
  }

  lemma FinalOutcome(ctx: Context, workspaces: map<string, WorkspaceSource>, mounts: seq<Mount>, f: Finals,
                     t: PipelineTask)
    requires Translates(ctx, t, "Finally Taskref", "finally/" + t.name)
    ensures var next := CompileFinal(ctx, workspaces, mounts, f, t);
            next.Done? && FinalsCounted(ctx, f.steps, [t], next.value.steps)
  {
    hide Translate, EmitSteps, ResolveTask;
    var spec := ResolveTask(ctx, t, "Finally Taskref").value;
    var task := TaskArgs("finally/" + t.name, FinalWorkspaces(workspaces, [], t.workspaces), t.timeout);
    TranslatesAnyway(ctx, spec, task, TaskArgs("finally/" + t.name, [], t.timeout));
    TranslationIsWired(ctx, spec, task);
  }

  lemma {:induction false} FinalsOutcome(ctx: Context, workspaces: map<string, WorkspaceSource>, mounts: seq<Mount>,
                                         f: Finals, fs: seq<PipelineTask>)
    requires forall t :: t in fs ==> Translates(ctx, t, "Finally Taskref", "finally/" + t.name)
    ensures var r := CompileFinals(ctx, workspaces, mounts, f, fs);
            r.Done? && FinalsCounted(ctx, f.steps, fs, r.value.steps)
    decreases |fs|
  {
    hide CompileFinal, FinalStepCount, Translates;
    if fs != [] {
      assert fs[0] in fs;
      FinalOutcome(ctx, workspaces, mounts, f, fs[0]);
      var next := CompileFinal(ctx, workspaces, mounts, f, fs[0]).value;
      FinalsOutcome(ctx, workspaces, mounts, next, fs[1..]);
      var steps := CompileFinals(ctx, workspaces, mounts, f, fs).value.steps;
      forall k | 0 <= k < |fs|
        ensures |steps[|f.steps| + k]| == FinalStepCount(ctx, fs[k])
      {
        assert |next.steps[|f.steps| + 0]| == FinalStepCount(ctx, [fs[0]][0]);
        assert k > 0 ==> steps[|f.steps| + k] == steps[|next.steps| + (k - 1)] && fs[k] == fs[1..][k - 1];
      }
    }
  }

  /** Exact no-panic condition: given that the workspaces bind and all tasks resolve and translate, compilation
      either completes or panics, and it completes if and only if every regular task meets its condition; finally
      tasks have none. What completes has exactly the steps of the tasks whose `when` list passes. */
  lemma CompletesExactly(ctx: Context, run: string, bindings: seq<WorkspaceBinding>, spec: PipelineSpec)
    requires BindWorkspaces(ctx, run, Bound([], map[]), bindings).Done? && AllTranslate(ctx, spec)
    ensures var r := CompileSpec(ctx, run, bindings, spec);
            && (r.Done? <==> forall k :: 0 <= k < |spec.tasks| ==> CompilesAt(ctx, BoundNames(bindings), spec.tasks, k))
            && (r.Done? || r.Panicked?)
            && (r.Done? ==> |r.value.steps| == |spec.tasks| && |r.value.finals| == |spec.finals|)
            && (r.Done? ==> forall t :: 0 <= t < |spec.tasks| ==> |r.value.steps[t]| == StepCount(ctx, spec.tasks[t]))
            && (r.Done? ==> forall f :: 0 <= f < |spec.finals| ==>
              |r.value.finals[f]| == FinalStepCount(ctx, spec.finals[f]))
  {
    hide CompileTasks, CompileFinals, BindWorkspaces, Translates, CompilesAt, StepCount, ResolveTask, EmitRoot,
      CollectAll, FinalMounts;
    var b := BindWorkspaces(ctx, run, Bound([], map[]), bindings).value;
    WorkspacesBound(ctx, run, Bound([], map[]), bindings);
    BoundWorkspaceNames(ctx, run, Bound([], map[]), bindings);
    assert b.workspaces.Keys == BoundNames(bindings);
    var start := Progress(b.graph, map[], map[], []);
    assert RegularWired(spec.tasks, b.workspaces, start);
    assert spec.tasks[0..] == spec.tasks;
    hide RegularWired, BoundNames;
    TasksOutcome(ctx, b.workspaces, start, spec.tasks);
    var p := CompileTasks(ctx, b.workspaces, start, spec.tasks);
    if p.Done? {
      var mounts := if spec.finals != [] then
        FinalMounts(p.value.tasks, [], ctx.lib.range("finally", p.value.tasks.Keys)) else [];
      FinalsOutcome(ctx, b.workspaces, mounts, Finals(p.value.graph, map[], []), spec.finals);
    }
  }

  /** So a pipeline that Tekton accepts can still panic: it is enough that a name in `runAfter` belongs to tasks
      that are skipped by `when` or listed later only. */
  lemma LateOrSkippedDependencyPanics(ctx: Context, run: string, bindings: seq<WorkspaceBinding>, spec: PipelineSpec,
                                      k: nat, a: string)
    requires BindWorkspaces(ctx, run, Bound([], map[]), bindings).Done? && AllTranslate(ctx, spec)
    requires k < |spec.tasks| && !Skipped(spec.tasks[k]) && a in spec.tasks[k].runAfter
    requires forall j :: 0 <= j < |spec.tasks| && spec.tasks[j].name == a ==> Skipped(spec.tasks[j]) || k <= j
    ensures CompileSpec(ctx, run, bindings, spec).Panicked?
  {
    CompletesExactly(ctx, run, bindings, spec);
    assert Resolve(spec.tasks, k, a).None?;
    assert !CompilesAt(ctx, BoundNames(bindings), spec.tasks, k);
  }
}
