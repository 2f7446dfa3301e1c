/** Where results are mounted: each task writes its own at `/tekton/results`, and readers find them by name. */
module ResultMounts {
  import opened Basics
  import opened Llb
  import opened Tekton
  import opened TaskRun
  import opened PipelineRun
  import opened Wiring
  import opened PipelineWiring
  import opened FinalWiring
  import opened Ordering
  import opened StepContent
  import MapOrder
  import Text

  ghost predicate Has(g: Graph, b: OpId, m: Mount) {
    b < |g| && g[b].Exec? && m in g[b].mounts
  }

  ghost predicate AllHave(g: Graph, ids: seq<OpId>, m: Mount) {
    forall j :: 0 <= j < |ids| ==> Has(g, ids[j], m)
  }

  /** The results of task `owner`, as its own steps see them. */
  function OwnResults(owner: string): Mount {
    Mount("/tekton/results", Scratch, "", Some(owner + "/results"), false)
  }

  /** And as another task sees them. */
  function FromTask(owner: string): Mount {
    Mount("/tekton/from-task/" + owner, Scratch, "", Some(owner + "/results"), true)
  }

  /** And as the collector sees them. */
  function Collectable(owner: string): Mount {
    Mount("/task/" + owner, Scratch, "", Some(owner + "/results"), true)
  }

  /** What makes a step wait for a task: the end of the task, as a directory that nobody reads. */
  function Awaited(task: string, end: State): Mount {
    Mount("/tekton/.deps/" + task, end, "/", None, true)
  }

  lemma AllStillHave(g: Graph, h: Graph, ids: seq<OpId>, m: Mount)
    requires AllHave(g, ids, m) && g <= h
    ensures AllHave(h, ids, m)
  {
    forall j | 0 <= j < |ids|
      ensures Has(h, ids[j], m)
    {
      assert Has(g, ids[j], m);
    }
  }

  lemma {:induction false} AdditionalMounted(g: Graph, steps: seq<PStep>, additional: seq<Mount>, n: nat, m: Mount)
    requires n <= |steps| && m in additional
    ensures var (h, ids) := EmitSteps(g, steps, additional, n); g <= h && AllHave(h, ids, m)
  {
    if n > 0 {
      AdditionalMounted(g, steps, additional, n - 1, m);
      var (h, ids) := EmitSteps(g, steps, additional, n - 1);
      var previous := if n > 1 then Output(ids[n - 2]) else Scratch;
      var h' := EmitStep(h, steps[n - 1], n - 1, previous, additional);
      assert Has(h', |h'| - 1, m);
      hide EmitStep, Has;
      AllStillHave(h, h', ids, m);
    }
  }

  // ---------------------------------------------------------------- a task's own results

  lemma OwnResultsMounted(ctx: Context, spec: TaskSpec, task: TaskArgs, g: Graph, ids: seq<OpId>)
    requires Translate(ctx, spec, task).Ok? && RunsAll(g, ids, Translate(ctx, spec, task).value)
    ensures AllHave(g, ids, OwnResults(task.name))
  {
    TranslationIsWired(ctx, spec, task);
    hide Translate;
    var steps := Translate(ctx, spec, task).value;
    forall j | 0 <= j < |ids|
      ensures Has(g, ids[j], OwnResults(task.name))
    {
      assert Runs(g, ids[j], steps[j]) && steps[j] in steps;
      assert ResultsFn(task.name) in steps[j].results + steps[j].workspaces + steps[j].volumeMounts;
    }
  }

  lemma RegularOwnResults(ctx: Context, workspaces: map<string, WorkspaceSource>, t: PipelineTask, g: Graph,
                          ids: seq<OpId>)
    requires RunsTask(g, ids, StepContent.TranslatedTask(ctx, workspaces, t))
    ensures AllHave(g, ids, OwnResults(t.name))
  {
    hide Translate, Runs;
    if !Skipped(t) {
      var fns := TaskWorkspaces(workspaces, [], t.workspaces).value;
      OwnResultsMounted(ctx, ResolveTask(ctx, t, "Taskref").value, TaskArgs(t.name, fns, t.timeout), g, ids);
    }
  }

  lemma FinalOwnResults(ctx: Context, workspaces: map<string, WorkspaceSource>, t: PipelineTask, g: Graph,
                        ids: seq<OpId>)
    requires RunsTask(g, ids, TranslatedFinal(ctx, workspaces, t))
    ensures AllHave(g, ids, OwnResults("finally/" + t.name))
  {
    hide Translate, Runs;
    var fns := FinalWorkspaces(workspaces, [], t.workspaces);
    OwnResultsMounted(ctx, ResolveTask(ctx, t, "Finally Taskref").value, TaskArgs("finally/" + t.name, fns, t.timeout),
      g, ids);
  }

  // ---------------------------------------------------------------- the results of dependencies

  ghost predicate ShowsDependencies(t: PipelineTask, g: Graph, ids: seq<OpId>) {
    forall a :: a in t.runAfter ==> AllHave(g, ids, FromTask(a)) && exists end :: AllHave(g, ids, Awaited(a, end))
  }

  lemma {:induction false} InRunAfter(tasks: map<string, seq<State>>, mounts: seq<Mount>, runAfter: seq<string>)
    requires RunAfterMounts(tasks, mounts, runAfter).Done?
    ensures var all := RunAfterMounts(tasks, mounts, runAfter).value;
            mounts <= all && forall a :: a in runAfter ==>
              FromTask(a) in all && a in tasks && tasks[a] != [] && Awaited(a, Last(tasks[a])) in all
    decreases |runAfter|
  {
    if runAfter != [] {
      var more := mounts + AfterTask(runAfter[0], tasks[runAfter[0]]);
      InRunAfter(tasks, more, runAfter[1..]);
      assert more[|more| - 1] == FromTask(runAfter[0]);
      assert more[|more| - 1] in RunAfterMounts(tasks, more, runAfter[1..]).value;
      assert more[|more| - 2] == Awaited(runAfter[0], Last(tasks[runAfter[0]]));
      assert more[|more| - 2] in RunAfterMounts(tasks, more, runAfter[1..]).value;
    }
  }

  lemma NothingToShow(t: PipelineTask, g: Graph)
    ensures ShowsDependencies(t, g, [])
  {
    forall a | a in t.runAfter
      ensures exists end :: AllHave(g, [], Awaited(a, end))
    {
      assert AllHave(g, [], Awaited(a, Scratch));
    }
  }

  lemma TaskShows(ctx: Context, workspaces: map<string, WorkspaceSource>, p: Progress, t: PipelineTask)
    requires CompileTask(ctx, workspaces, p, t).Done?
    ensures var q := CompileTask(ctx, workspaces, p, t).value;
            && p.graph <= q.graph && |q.steps| == |p.steps| + 1 && p.steps <= q.steps
            && ShowsDependencies(t, q.graph, q.steps[|p.steps|])
  {
    hide Translate, EmitSteps, Has;
    if !Skipped(t) {
      var mounts := RunAfterMounts(p.tasks, [], t.runAfter).value;
      InRunAfter(p.tasks, [], t.runAfter);
      var steps := StepContent.TranslatedTask(ctx, workspaces, t).value;
      EmittedRunAll(p.graph, steps, mounts, |steps|);
      var (h, ids) := EmitSteps(p.graph, steps, mounts, |steps|);
      forall a | a in t.runAfter
        ensures AllHave(h, ids, FromTask(a)) && exists end :: AllHave(h, ids, Awaited(a, end))
      {
        AdditionalMounted(p.graph, steps, mounts, |steps|, FromTask(a));
        AdditionalMounted(p.graph, steps, mounts, |steps|, Awaited(a, Last(p.tasks[a])));
      }
    } else {
      NothingToShow(t, p.graph);
    }
  }

  ghost predicate AllShow(ts: seq<PipelineTask>, g: Graph, steps: seq<seq<OpId>>) {
    |steps| <= |ts| && forall t :: 0 <= t < |steps| ==> ShowsDependencies(ts[t], g, steps[t])
  }

  lemma AllStillShow(ts: seq<PipelineTask>, g: Graph, h: Graph, steps: seq<seq<OpId>>)
    requires AllShow(ts, g, steps) && g <= h
    ensures AllShow(ts, h, steps)
  {
    hide AllHave;
    forall t, a | 0 <= t < |steps| && a in ts[t].runAfter
      ensures AllHave(h, steps[t], FromTask(a)) && exists end :: AllHave(h, steps[t], Awaited(a, end))
    {
      assert ShowsDependencies(ts[t], g, steps[t]);
      AllStillHave(g, h, steps[t], FromTask(a));
      var end :| AllHave(g, steps[t], Awaited(a, end));
      AllStillHave(g, h, steps[t], Awaited(a, end));
    }
  }

  lemma {:induction false} TasksShow(ctx: Context, workspaces: map<string, WorkspaceSource>, p: Progress,
                                     ts: seq<PipelineTask>)
    requires AllShow(ts, p.graph, p.steps) && CompileTasks(ctx, workspaces, p, ts[|p.steps|..]).Done?
    ensures var q := CompileTasks(ctx, workspaces, p, ts[|p.steps|..]).value;
            AllShow(ts, q.graph, q.steps) && |q.steps| == |ts|
    decreases |ts| - |p.steps|
  {
    hide CompileTask, ShowsDependencies;
    var k := |p.steps|;
    if k < |ts| {
      assert ts[k..][0] == ts[k] && ts[k..][1..] == ts[k + 1..];
      var next := CompileTask(ctx, workspaces, p, ts[k]).value;
      TaskShows(ctx, workspaces, p, ts[k]);
      AllStillShow(ts, p.graph, next.graph, p.steps);
      TasksShow(ctx, workspaces, next, ts);
    }
  }

  // ---------------------------------------------------------------- finally tasks

  ghost predicate FinalsHave(g: Graph, steps: seq<seq<OpId>>, m: Mount) {
    forall f :: 0 <= f < |steps| ==> AllHave(g, steps[f], m)
  }

  lemma FinalHas(ctx: Context, workspaces: map<string, WorkspaceSource>, mounts: seq<Mount>, f: Finals, t: PipelineTask,
                 m: Mount)
    requires CompileFinal(ctx, workspaces, mounts, f, t).Done? && FinalsHave(f.graph, f.steps, m) && m in mounts
    ensures FinalsHave(CompileFinal(ctx, workspaces, mounts, f, t).value.graph,
        CompileFinal(ctx, workspaces, mounts, f, t).value.steps, m)
  {
    hide Translate, EmitSteps, AllHave;
    var steps := TranslatedFinal(ctx, workspaces, t).value;
    AdditionalMounted(f.graph, steps, mounts, |steps|, m);
    var h := EmitSteps(f.graph, steps, mounts, |steps|).0;
    forall e | 0 <= e < |f.steps|
      ensures AllHave(h, f.steps[e], m)
    {
      AllStillHave(f.graph, h, f.steps[e], m);
    }
  }

  lemma {:induction false} AllFinalsHave(ctx: Context, workspaces: map<string, WorkspaceSource>, mounts: seq<Mount>,
                                         f: Finals, fs: seq<PipelineTask>, m: Mount)
    requires CompileFinals(ctx, workspaces, mounts, f, fs).Done? && FinalsHave(f.graph, f.steps, m) && m in mounts
    ensures FinalsHave(CompileFinals(ctx, workspaces, mounts, f, fs).value.graph,
        CompileFinals(ctx, workspaces, mounts, f, fs).value.steps, m)
    decreases |fs|
  {
    hide CompileFinal, FinalsHave;
    if fs != [] {
      FinalHas(ctx, workspaces, mounts, f, fs[0], m);
      AllFinalsHave(ctx, workspaces, mounts, CompileFinal(ctx, workspaces, mounts, f, fs[0]).value, fs[1..], m);
    }
  }

  /** With unique names a regular task with steps is in the map when the finally tasks are compiled. */
  lemma KnownByName(ts: seq<PipelineTask>, tasks: map<string, seq<State>>, steps: seq<seq<OpId>>, t: nat)
    requires |steps| == |ts| && NamesResolve(ts, |ts|, tasks, steps) && t < |ts| && !Skipped(ts[t]) && steps[t] != []
    requires forall i, j :: 0 <= i < j < |ts| ==> ts[i].name != ts[j].name
    ensures ts[t].name in tasks && tasks[ts[t].name] != []
  {
    NamesStay(ts, |ts|, t);
    assert |Outputs(steps[t])| == |steps[t]|;
  }

  lemma FinalKnownByName(fs: seq<PipelineTask>, tasks: map<string, seq<State>>, steps: seq<seq<OpId>>, f: nat)
    requires |steps| == |fs| && FinalNamesResolve(fs, |fs|, tasks, steps) && f < |fs| && steps[f] != []
    requires forall i, j :: 0 <= i < j < |fs| ==> fs[i].name != fs[j].name
    ensures fs[f].name in tasks && tasks[fs[f].name] != []
  {
    FinalNamesStay(fs, |fs|, f);
    assert |Outputs(steps[f])| == |steps[f]|;
  }

  lemma InBarrier(lib: Library, tasks: map<string, seq<State>>, n: string)
    requires Ranges(lib) && n in tasks && tasks[n] != []
    ensures FromTask(n) in FinalMounts(tasks, [], lib.range("finally", tasks.Keys))
    ensures Awaited(n, Last(tasks[n])) in FinalMounts(tasks, [], lib.range("finally", tasks.Keys))
  {
    var order := lib.range("finally", tasks.Keys);
    assert Enumerates(order, tasks.Keys);
    MapOrder.InFinalMounts(tasks, [], order, FromTask(n));
    MapOrder.InFinalMounts(tasks, [], order, Awaited(n, Last(tasks[n])));
    assert TaskMounts(tasks, n)[1] == FromTask(n) && TaskMounts(tasks, n)[0] == Awaited(n, Last(tasks[n]));
    assert n in order;
  }

  // ---------------------------------------------------------------- the collector

  lemma InRoot(lib: Library, g: Graph, tasks: map<string, seq<State>>, finals: map<string, seq<State>>)
    requires Ranges(lib)
    ensures var h := EmitRoot(g, CollectAll(lib, tasks, finals));
            && (forall n :: n in tasks && tasks[n] != [] ==> Has(h, |h| - 1, Collectable(n)))
            && (forall n :: n in finals && finals[n] != [] ==> Has(h, |h| - 1, Collectable("finally/" + n)))
  {
    var order, order' := lib.range("collect", tasks.Keys), lib.range("collect finally", finals.Keys);
    assert Enumerates(order, tasks.Keys) && Enumerates(order', finals.Keys);
    var regular := Collect(Collected([], []), tasks, "", order);
    var c := Collect(regular, finals, "finally/", order');
    var h := EmitRoot(g, c);
    hide Collect, Ranges;
    forall n | n in tasks && tasks[n] != []
      ensures Has(h, |h| - 1, Collectable(n))
    {
      var m := Collectable(n);
      assert "" + n == n && "/task/" + "" + n == "/task/" + n;
      assert n in order;
      assert MapOrder.CollectedFrom(tasks, "", order, m);
      MapOrder.InCollected(Collected([], []), tasks, "", order, m, Scratch);
      MapOrder.InCollected(regular, finals, "finally/", order', m, Scratch);
      assert m in c.caches;
    }
    forall n | n in finals && finals[n] != []
      ensures Has(h, |h| - 1, Collectable("finally/" + n))
    {
      var m := Collectable("finally/" + n);
      assert "/task/" + "finally/" + n == "/task/" + ("finally/" + n);
      assert n in order';
      assert MapOrder.CollectedFrom(finals, "finally/", order', m);
      MapOrder.InCollected(regular, finals, "finally/", order', m, Scratch);
      assert m in c.caches;
    }
  }

  // ---------------------------------------------------------------- the whole pipeline

  /** What the phases of a compilation that completes leave behind. */
  lemma Phases(ctx: Context, run: string, bindings: seq<WorkspaceBinding>, spec: PipelineSpec)
    returns (ws: map<string, WorkspaceSource>, start: Progress, p: Progress, mounts: seq<Mount>, f: Finals)
    requires Ranges(ctx.lib) && CompileSpec(ctx, run, bindings, spec).Done?
    ensures BindWorkspaces(ctx, run, Bound([], map[]), bindings).Done?
    ensures ws == BindWorkspaces(ctx, run, Bound([], map[]), bindings).value.workspaces
    ensures start.steps == [] && CompileTasks(ctx, ws, start, spec.tasks) == Done(p)
    ensures |p.steps| == |spec.tasks| && NamesResolve(spec.tasks, |spec.tasks|, p.tasks, p.steps)
    ensures forall t :: 0 <= t < |p.steps| && Skipped(spec.tasks[t]) ==> p.steps[t] == []
    ensures spec.finals != [] ==> mounts == FinalMounts(p.tasks, [], ctx.lib.range("finally", p.tasks.Keys))
    ensures CompileFinals(ctx, ws, mounts, Finals(p.graph, map[], []), spec.finals) == Done(f)
    ensures |f.steps| == |spec.finals| && FinalNamesResolve(spec.finals, |spec.finals|, f.tasks, f.steps)
        && p.graph <= f.graph
    ensures var h := EmitRoot(f.graph, CollectAll(ctx.lib, p.tasks, f.tasks));
            f.graph <= h && CompileSpec(ctx, run, bindings, spec).value == Compiled(h, |h| - 1, p.steps, f.steps)
  {
    hide CompileTasks, CompileFinals, NamesResolve, FinalNamesResolve;
    var b := BindWorkspaces(ctx, run, Bound([], map[]), bindings).value;
    WorkspacesBound(ctx, run, Bound([], map[]), bindings);
    ws, start := b.workspaces, Progress(b.graph, map[], map[], []);
    StartWired(spec, b);
    assert spec.tasks[0..] == spec.tasks && spec.finals[0..] == spec.finals;
    p := CompileTasks(ctx, ws, start, spec.tasks).value;
    TasksCompiled(ctx, ws, start, spec.tasks);
    SkippedHaveNone(spec.tasks, ws, p);
    mounts := FinalMountsWired(ctx.lib, ws, spec, p);
    var none := Finals(p.graph, map[], []);
    f := CompileFinals(ctx, ws, mounts, none, spec.finals).value;
    FinalsCompiled(ctx, ws, p.graph, p.steps, mounts, none, spec.finals);
  }

  lemma StartWired(spec: PipelineSpec, b: Bound)
    requires WellFormed(b.graph) && FromFiles(b.graph, b.workspaces) && NoProcesses(b.graph)
    ensures RegularWired(spec.tasks, b.workspaces, Progress(b.graph, map[], map[], []))
  {
  }

  lemma SkippedHaveNone(ts: seq<PipelineTask>, workspaces: map<string, WorkspaceSource>, p: Progress)
    requires RegularWired(ts, workspaces, p)
    ensures forall t :: 0 <= t < |p.steps| && Skipped(ts[t]) ==> p.steps[t] == []
  {
    forall t | 0 <= t < |p.steps| && Skipped(ts[t])
      ensures p.steps[t] == []
    {
      assert RegularTask(ts, p.graph, workspaces, p.steps, t);
    }
  }

  ghost predicate RegularShown(spec: PipelineSpec, c: Compiled) {
    |c.steps| == |spec.tasks| && forall t :: 0 <= t < |c.steps| ==>
      AllHave(c.graph, c.steps[t], OwnResults(spec.tasks[t].name))
        && ShowsDependencies(spec.tasks[t], c.graph, c.steps[t])
  }

  ghost predicate FinalsShown(spec: PipelineSpec, c: Compiled) {
    && |c.steps| == |spec.tasks| && |c.finals| == |spec.finals|
    && (forall f :: 0 <= f < |c.finals| ==> AllHave(c.graph, c.finals[f], OwnResults("finally/" + spec.finals[f].name)))
    && (forall t :: 0 <= t < |c.steps| && c.steps[t] != [] ==>
      FinalsHave(c.graph, c.finals, FromTask(spec.tasks[t].name))
        && exists end :: FinalsHave(c.graph, c.finals, Awaited(spec.tasks[t].name, end)))
  }

  ghost predicate RootShown(spec: PipelineSpec, c: Compiled) {
    && |c.steps| == |spec.tasks| && |c.finals| == |spec.finals|
    && (forall t :: 0 <= t < |c.steps| && c.steps[t] != [] ==>
          Has(c.graph, c.root, Collectable(spec.tasks[t].name)))
    && (forall f :: 0 <= f < |c.finals| && c.finals[f] != [] ==>
          Has(c.graph, c.root, Collectable("finally/" + spec.finals[f].name)))
  }

  /** Results arrive where they are looked for: every step writes its task's results at `/tekton/results`, every
      step of a dependent finds that very cache read-only under the task's name in `/tekton/from-task`, every
      finally step finds those of all regular tasks there, and the collector finds all of them in `/task`. */
  lemma ResultsAreShown(ctx: Context, run: string, bindings: seq<WorkspaceBinding>, spec: PipelineSpec)
    requires Ranges(ctx.lib) && CompileSpec(ctx, run, bindings, spec).Done? && UniqueNames(spec)
    ensures var c := CompileSpec(ctx, run, bindings, spec).value;
            RegularShown(spec, c) && FinalsShown(spec, c) && RootShown(spec, c)
  {
    hide CompileSpec, CompileTasks, CompileFinals, RunsTasks, RunsFinals, EmitRoot, CollectAll, NamesResolve,
      FinalNamesResolve, UniqueNames, AllShow, RegularShown, FinalsShown, RootShown;
    StepsRunAsAsked(ctx, run, bindings, spec);
    var w := BindWorkspaces(ctx, run, Bound([], map[]), bindings).value.workspaces;
    hide BindWorkspaces;
    var ws, start, p, mounts, f := Phases(ctx, run, bindings, spec);
    var c := CompileSpec(ctx, run, bindings, spec).value;
    NamesSeparate(spec);
    NothingShownYet(spec.tasks, start);
    assert spec.tasks[0..] == spec.tasks;
    TasksShow(ctx, ws, start, spec.tasks);
    AllStillShow(spec.tasks, p.graph, c.graph, p.steps);
    OwnResultsShown(ctx, w, spec, c);
    RegularShownOf(spec, c);
    FinalsSeeAll(ctx, ws, spec, p, mounts, f, c);
    RootSeesAll(ctx.lib, spec, p, f, c);
  }

  lemma NothingShownYet(ts: seq<PipelineTask>, p: Progress)
    requires p.steps == []
    ensures AllShow(ts, p.graph, p.steps)
  {
  }

  ghost predicate OwnShown(spec: PipelineSpec, c: Compiled) {
    && |c.steps| == |spec.tasks| && |c.finals| == |spec.finals|
    && (forall t :: 0 <= t < |c.steps| ==> AllHave(c.graph, c.steps[t], OwnResults(spec.tasks[t].name)))
    && (forall f :: 0 <= f < |c.finals| ==> AllHave(c.graph, c.finals[f], OwnResults("finally/" + spec.finals[f].name)))
  }

  lemma OwnResultsShown(ctx: Context, ws: map<string, WorkspaceSource>, spec: PipelineSpec, c: Compiled)
    requires |c.steps| == |spec.tasks| && RunsTasks(ctx, ws, spec.tasks, c.graph, c.steps)
    requires |c.finals| == |spec.finals| && RunsFinals(ctx, ws, spec.finals, c.graph, c.finals)
    ensures OwnShown(spec, c)
  {
    hide RunsTask, AllHave;
    forall t | 0 <= t < |c.steps|
      ensures AllHave(c.graph, c.steps[t], OwnResults(spec.tasks[t].name))
    {
      RegularOwnResults(ctx, ws, spec.tasks[t], c.graph, c.steps[t]);
    }
    forall f | 0 <= f < |c.finals|
      ensures AllHave(c.graph, c.finals[f], OwnResults("finally/" + spec.finals[f].name))
    {
      FinalOwnResults(ctx, ws, spec.finals[f], c.graph, c.finals[f]);
    }
  }

  lemma RegularShownOf(spec: PipelineSpec, c: Compiled)
    requires OwnShown(spec, c) && AllShow(spec.tasks, c.graph, c.steps)
    ensures RegularShown(spec, c)
  {
  }

  lemma FinalsSee(ctx: Context, ws: map<string, WorkspaceSource>, spec: PipelineSpec, p: Progress, mounts: seq<Mount>,
                  f: Finals, c: Compiled, m: Mount)
    requires CompileFinals(ctx, ws, mounts, Finals(p.graph, map[], []), spec.finals) == Done(f) && m in mounts
    requires c.finals == f.steps && f.graph <= c.graph
    ensures FinalsHave(c.graph, c.finals, m)
  {
    hide AllHave, CompileFinals;
    AllFinalsHave(ctx, ws, mounts, Finals(p.graph, map[], []), spec.finals, m);
    FinalsStillHave(f.graph, c.graph, f.steps, m);
  }

  lemma FinalsSeeAll(ctx: Context, ws: map<string, WorkspaceSource>, spec: PipelineSpec, p: Progress,
                     mounts: seq<Mount>, f: Finals, c: Compiled)
    requires Ranges(ctx.lib) && OwnShown(spec, c) && c.steps == p.steps && c.finals == f.steps && f.graph <= c.graph
    requires NamesResolve(spec.tasks, |spec.tasks|, p.tasks, p.steps)
    requires forall i, j :: 0 <= i < j < |spec.tasks| ==> spec.tasks[i].name != spec.tasks[j].name
    requires forall t :: 0 <= t < |p.steps| && Skipped(spec.tasks[t]) ==> p.steps[t] == []
    requires spec.finals != [] ==> mounts == FinalMounts(p.tasks, [], ctx.lib.range("finally", p.tasks.Keys))
    requires CompileFinals(ctx, ws, mounts, Finals(p.graph, map[], []), spec.finals) == Done(f)
    ensures FinalsShown(spec, c)
  {
    hide AllHave, NamesResolve, CompileFinals, Ranges, FinalMounts, FromTask, Awaited, OwnResults;
    forall t | 0 <= t < |c.steps| && c.steps[t] != []
      ensures FinalsHave(c.graph, c.finals, FromTask(spec.tasks[t].name))
      ensures exists end :: FinalsHave(c.graph, c.finals, Awaited(spec.tasks[t].name, end))
    {
      var n := spec.tasks[t].name;
      if spec.finals == [] {
        assert FinalsHave(c.graph, c.finals, Awaited(n, Scratch));
      } else {
        KnownByName(spec.tasks, p.tasks, p.steps, t);
        InBarrier(ctx.lib, p.tasks, n);
        FinalsSee(ctx, ws, spec, p, mounts, f, c, FromTask(n));
        FinalsSee(ctx, ws, spec, p, mounts, f, c, Awaited(n, Last(p.tasks[n])));
      }
    }
  }

  lemma FinalsStillHave(g: Graph, h: Graph, steps: seq<seq<OpId>>, m: Mount)
    requires FinalsHave(g, steps, m) && g <= h
    ensures FinalsHave(h, steps, m)
  {
    hide AllHave;
    forall f | 0 <= f < |steps|
      ensures AllHave(h, steps[f], m)
    {
      AllStillHave(g, h, steps[f], m);
    }
  }

  lemma RootSeesAll(lib: Library, spec: PipelineSpec, p: Progress, f: Finals, c: Compiled)
    requires Ranges(lib) && |p.steps| == |spec.tasks| && |f.steps| == |spec.finals|
    requires NamesResolve(spec.tasks, |spec.tasks|, p.tasks, p.steps)
        && FinalNamesResolve(spec.finals, |spec.finals|, f.tasks, f.steps)
    requires forall i, j :: 0 <= i < j < |spec.tasks| ==> spec.tasks[i].name != spec.tasks[j].name
    requires forall i, j :: 0 <= i < j < |spec.finals| ==> spec.finals[i].name != spec.finals[j].name
    requires forall t :: 0 <= t < |p.steps| && Skipped(spec.tasks[t]) ==> p.steps[t] == []
    requires var h := EmitRoot(f.graph, CollectAll(lib, p.tasks, f.tasks)); c == Compiled(h, |h| - 1, p.steps, f.steps)
    ensures RootShown(spec, c)
  {
    hide NamesResolve, FinalNamesResolve, Ranges, EmitRoot, CollectAll, Has, Collectable;
    InRoot(lib, f.graph, p.tasks, f.tasks);
    forall t | 0 <= t < |c.steps| && c.steps[t] != []
      ensures Has(c.graph, c.root, Collectable(spec.tasks[t].name))
    {
      KnownByName(spec.tasks, p.tasks, p.steps, t);
    }
    forall e | 0 <= e < |c.finals| && c.finals[e] != []
      ensures Has(c.graph, c.root, Collectable("finally/" + spec.finals[e].name))
    {
      FinalKnownByName(spec.finals, f.tasks, f.steps, e);
    }
  }

  /** A state that is waited for, in a directory of its own. */
  ghost predicate IsDependency(m: Mount) {
    exists k: nat :: m == Mount("/.dep/" + Text.Decimal(k), m.source, "/", None, true)
  }

  /** The collecting process, whatever was compiled: it lists `/task` on a fixed image, and besides the caches it mounts
      the states it waits for. */
  lemma RootCollects(ctx: Context, run: string, bindings: seq<WorkspaceBinding>, spec: PipelineSpec, c: Compiled)
    requires CompileSpec(ctx, run, bindings, spec) == Done(c)
    ensures c.root < |c.graph| && c.graph[c.root].Exec? && c.graph[c.root].rootfs < |c.graph|
    ensures c.graph[c.graph[c.root].rootfs] == Image("alpine:latest")
    ensures c.graph[c.root].process == Process(["/bin/sh", "-c", "ls -la /task 2>/dev/null || true"], map[], "", None)
    ensures forall m :: m in c.graph[c.root].mounts && m.cacheId.None? ==> IsDependency(m)
  {
    hide BindWorkspaces, CompileTasks, CompileFinals, CollectAll, FinalMounts, EmitRoot, IsDependency;
    var b := BindWorkspaces(ctx, run, Bound([], map[]), bindings).value;
    var p := CompileTasks(ctx, b.workspaces, Progress(b.graph, map[], map[], []), spec.tasks).value;
    var mounts := if spec.finals != [] then FinalMounts(p.tasks, [], ctx.lib.range("finally", p.tasks.Keys)) else [];
    var f := CompileFinals(ctx, b.workspaces, mounts, Finals(p.graph, map[], []), spec.finals).value;
    AllCachesOnly(ctx.lib, p.tasks, f.tasks);
    RootOperation(f.graph, CollectAll(ctx.lib, p.tasks, f.tasks));
  }

  lemma AllCachesOnly(lib: Library, tasks: map<string, seq<State>>, finals: map<string, seq<State>>)
    ensures forall m :: m in CollectAll(lib, tasks, finals).caches ==> m.cacheId.Some?
  {
    hide Collect;
    var order, order' := lib.range("collect", tasks.Keys), lib.range("collect finally", finals.Keys);
    CachesOnly(Collected([], []), tasks, "", order);
    CachesOnly(Collect(Collected([], []), tasks, "", order), finals, "finally/", order');
  }

  lemma {:induction false} CachesOnly(c: Collected, tasks: map<string, seq<State>>, prefix: string, order: seq<string>)
    requires forall m :: m in c.caches ==> m.cacheId.Some?
    ensures forall m :: m in Collect(c, tasks, prefix, order).caches ==> m.cacheId.Some?
    decreases |order|
  {
    if order != [] {
      CachesOnly(CollectTask(c, tasks, prefix, order[0]), tasks, prefix, order[1..]);
    }
  }

  lemma DependenciesOnly(states: seq<State>, m: Mount)
    requires m in DependencyMounts(states)
    ensures IsDependency(m)
  {
    var k: nat :| k < |DependencyMounts(states)| && DependencyMounts(states)[k] == m;
    assert m == Mount("/.dep/" + Text.Decimal(k), m.source, "/", None, true);
  }

  lemma RootOperation(g: Graph, c: Collected)
    requires forall m :: m in c.caches ==> m.cacheId.Some?
    ensures var h := EmitRoot(g, c);
            && h[|h| - 1].Exec? && h[|h| - 1].rootfs == |g| && h[|g|] == Image("alpine:latest")
            && h[|h| - 1].process == Process(["/bin/sh", "-c", "ls -la /task 2>/dev/null || true"], map[], "", None)
            && forall m :: m in h[|h| - 1].mounts && m.cacheId.None? ==> IsDependency(m)
  {
    hide DependencyMounts, IsDependency;
    var h := EmitRoot(g, c);
    forall m | m in h[|h| - 1].mounts && m.cacheId.None?
      ensures IsDependency(m)
    {
      DependenciesOnly(c.states, m);
    }
  }
}
