/** How a whole compiled pipeline is wired. */
module PipelineWiring {
  import opened Basics
  import opened Llb
  import opened Tekton
  import opened TaskRun
  import opened PipelineRun
  import opened Files
  import opened Wiring

  /** The task that the name `a` stands for when the first `k` tasks have been compiled. */
  ghost function Resolve(ts: seq<PipelineTask>, k: nat, a: string): (r: Option<nat>)
    requires k <= |ts|
    ensures r.Some? ==> r.value < k && ts[r.value].name == a && !Skipped(ts[r.value])
  {
    if k == 0 then None
    else if ts[k - 1].name == a && !Skipped(ts[k - 1]) then Some(k - 1)
    else Resolve(ts, k - 1, a)
  }

  ghost function LastOf(ids: seq<OpId>): set<OpId> {
    if ids == [] then {} else {ids[|ids| - 1]}
  }

  ghost function LastOfTask(ts: seq<PipelineTask>, steps: seq<seq<OpId>>, k: nat, a: string): set<OpId>
    requires k <= |steps| && k <= |ts|
  {
    var r := Resolve(ts, k, a);
    if r.Some? then LastOf(steps[r.value]) else {}
  }

  /** The last steps of the tasks `names` stand for when the first `k` have been compiled. */
  ghost function LastOfTasks(ts: seq<PipelineTask>, steps: seq<seq<OpId>>, k: nat, names: seq<string>): set<OpId>
    requires k <= |steps| && k <= |ts|
  {
    set a, e | a in names && e in LastOfTask(ts, steps, k, a) :: e
  }

  /** The processes the steps of task `t` wait for because of `runAfter`. */
  ghost function Behind(ts: seq<PipelineTask>, steps: seq<seq<OpId>>, t: nat): set<OpId>
    requires t < |steps| <= |ts|
  {
    LastOfTasks(ts, steps, t, ts[t].runAfter)
  }

  /** Persistent workspaces that `uses` mount, as cache identifiers. */
  ghost function SharedBy(workspaces: map<string, WorkspaceSource>, uses: seq<WorkspaceUse>): set<string> {
    set u | u in uses && u.workspace in workspaces && workspaces[u.workspace].CacheSource? ::
      workspaces[u.workspace].cacheId
  }

  ghost function ResultsOf(names: seq<string>): set<string> {
    set a | a in names :: a + "/results"
  }

  ghost predicate FromFiles(g: Graph, workspaces: map<string, WorkspaceSource>) {
    forall w :: w in workspaces && workspaces[w].ContentSource? ==> IsFile(g, workspaces[w].content)
  }

  ghost predicate NoProcesses(g: Graph) {
    forall k :: 0 <= k < |g| ==> !g[k].Exec?
  }

  // ---------------------------------------------------------------- workspaces

  lemma {:induction false} LayeredFiles(g: Graph, files: seq<ProjectedFile>, base: State)
    requires WellFormed(g) && IsFile(g, base)
    ensures var (h, s) := LayerFiles(g, files, base);
            && WellFormed(h) && g <= h && IsFile(h, s)
            && (NoProcesses(g) ==> NoProcesses(h))
    decreases |files|
  {
    if files != [] {
      var g' := g + [File(base, files[0].path, files[0].data)];
      forall k | 0 <= k < |g'|
        ensures WellFormedOp(g', k)
      {
        if k < |g| {
          StaysWellFormed(g, g', k);
        }
      }
      LayeredFiles(g', files[1..], Output(|g|));
    }
  }

  ghost predicate BoundWell(b: Bound) {
    WellFormed(b.graph) && NoProcesses(b.graph) && FromFiles(b.graph, b.workspaces)
  }

  /** Where persistent workspaces live: one cache per workspace of the run. */
  ghost predicate CachesNamed(run: string, workspaces: map<string, WorkspaceSource>) {
    forall w :: w in workspaces && workspaces[w].CacheSource? ==> workspaces[w].cacheId == run + "/" + w
  }

  lemma ContentBound(lib: Library, run: string, b: Bound, name: string, data: Data, items: seq<KeyToPath>)
    requires BoundWell(b) && CachesNamed(run, b.workspaces)
    ensures var r := BindContent(lib, b, name, data, items);
            r.Done? ==> BoundWell(r.value) && CachesNamed(run, r.value.workspaces)
  {
    var files := ProjectFiles(lib, data, items);
    if files.Ok? {
      LayeredFiles(b.graph, files.value, Scratch);
    }
  }

  lemma {:induction false} WorkspacesBound(ctx: Context, run: string, b: Bound, ws: seq<WorkspaceBinding>)
    requires BoundWell(b) && CachesNamed(run, b.workspaces)
    ensures var r := BindWorkspaces(ctx, run, b, ws);
            r.Done? ==> BoundWell(r.value) && CachesNamed(run, r.value.workspaces)
    decreases |ws|
  {
    if ws != [] {
      match ws[0].kind {
        case ConfigMapWorkspace(name, items) =>
          if name in ctx.configs {
            ContentBound(ctx.lib, run, b, ws[0].name, ctx.configs[name], items);
          }
        case SecretWorkspace(name, items) =>
          if name in ctx.secrets {
            ContentBound(ctx.lib, run, b, ws[0].name, ctx.secrets[name], items);
          }
        case _ =>
      }
      hide BoundWell, CachesNamed;
      var next := BindWorkspace(ctx, run, b, ws[0]);
      if next.Done? {
        WorkspacesBound(ctx, run, next.value, ws[1..]);
      }
    }
  }

  /** Mount functions of bound workspaces: content from files, and writable caches `shared`. */
  ghost predicate WorkspaceFns(g: Graph, fns: seq<MountFn>, shared: set<string>) {
    && FilesOnly(g, fns)
    && (forall f :: f in fns && f.CacheFn? ==> !f.readonly)
    && (set f | f in fns && f.CacheFn? :: f.cacheId) == shared
  }

  lemma AddWorkspaceFn(g: Graph, workspaces: map<string, WorkspaceSource>, fns: seq<MountFn>, shared: set<string>,
                       u: WorkspaceUse)
    requires FromFiles(g, workspaces) && WorkspaceFns(g, fns, shared) && u.workspace in workspaces
    ensures WorkspaceFns(g, fns + [workspaces[u.workspace].At("/workspace/" + u.name)],
        shared + SharedBy(workspaces, [u]))
  {
    var f := workspaces[u.workspace].At("/workspace/" + u.name);
    var more := fns + [f];
    assert f in more && u in [u];
    assert forall x :: x in more <==> x in fns || x == f;
  }

  lemma {:induction false} TaskWorkspacesAre(g: Graph, workspaces: map<string, WorkspaceSource>, fns: seq<MountFn>,
                                             shared: set<string>, uses: seq<WorkspaceUse>)
    requires FromFiles(g, workspaces) && WorkspaceFns(g, fns, shared)
    ensures var r := TaskWorkspaces(workspaces, fns, uses);
            r.Done? ==> WorkspaceFns(g, r.value, shared + SharedBy(workspaces, uses))
    decreases |uses|
  {
    if uses == [] {
      assert shared + SharedBy(workspaces, uses) == shared;
    } else if uses[0].workspace in workspaces {
      AddWorkspaceFn(g, workspaces, fns, shared, uses[0]);
      TaskWorkspacesAre(g, workspaces, fns + [workspaces[uses[0].workspace].At("/workspace/" + uses[0].name)],
        shared + SharedBy(workspaces, [uses[0]]), uses[1..]);
      SharedSplits(workspaces, uses);
      assert shared + SharedBy(workspaces, [uses[0]]) + SharedBy(workspaces, uses[1..]) ==
        shared + SharedBy(workspaces, uses);
    }
  }

  lemma SharedSplits(workspaces: map<string, WorkspaceSource>, uses: seq<WorkspaceUse>)
    requires uses != []
    ensures SharedBy(workspaces, uses) == SharedBy(workspaces, [uses[0]]) + SharedBy(workspaces, uses[1..])
  {
    assert uses == [uses[0]] + uses[1..];
    assert forall u :: u in uses <==> u in [uses[0]] || u in uses[1..];
  }

  lemma {:induction false} FinalWorkspacesAre(g: Graph, workspaces: map<string, WorkspaceSource>, fns: seq<MountFn>,
                                              shared: set<string>, uses: seq<WorkspaceUse>)
    requires FromFiles(g, workspaces) && WorkspaceFns(g, fns, shared)
    ensures WorkspaceFns(g, FinalWorkspaces(workspaces, fns, uses), shared + SharedBy(workspaces, uses))
    decreases |uses|
  {
    if uses == [] {
      assert shared + SharedBy(workspaces, uses) == shared;
    } else {
      SharedSplits(workspaces, uses);
      assert shared + SharedBy(workspaces, [uses[0]]) + SharedBy(workspaces, uses[1..]) ==
        shared + SharedBy(workspaces, uses);
      if uses[0].workspace in workspaces {
        AddWorkspaceFn(g, workspaces, fns, shared, uses[0]);
        FinalWorkspacesAre(g, workspaces, fns + [workspaces[uses[0].workspace].At("/workspace/" + uses[0].name)],
          shared + SharedBy(workspaces, [uses[0]]), uses[1..]);
      } else {
        assert SharedBy(workspaces, [uses[0]]) == {};
        FinalWorkspacesAre(g, workspaces, fns, shared, uses[1..]);
      }
    }
  }

  // ---------------------------------------------------------------- regular tasks

  /** The source's map by name, in terms of positions. */
  ghost predicate NamesResolve(ts: seq<PipelineTask>, k: nat, tasks: map<string, seq<State>>, steps: seq<seq<OpId>>)
    requires k <= |steps| && k <= |ts|
  {
    && (forall a :: a in tasks <==> Resolve(ts, k, a).Some?)
    && (forall a :: a in tasks ==> tasks[a] == Outputs(steps[Resolve(ts, k, a).value]))
  }

  /** Every dependency of task `t` names an earlier task that was compiled and has steps. */
  ghost predicate Ready(ts: seq<PipelineTask>, steps: seq<seq<OpId>>, t: nat)
    requires t < |ts| && t <= |steps|
  {
    forall a :: a in ts[t].runAfter ==> Resolve(ts, t, a).Some? && steps[Resolve(ts, t, a).value] != []
  }

  ghost predicate RegularTask(ts: seq<PipelineTask>, g: Graph, workspaces: map<string, WorkspaceSource>,
                              steps: seq<seq<OpId>>, t: nat)
    requires t < |steps| <= |ts|
  {
    && (Skipped(ts[t]) ==> steps[t] == [])
    && (!Skipped(ts[t]) ==> Ready(ts, steps, t))
    && Increasing(steps[t])
    && Chain(g, steps[t], Behind(ts, steps, t))
    && CacheUses(g, steps[t], ts[t].name, SharedBy(workspaces, ts[t].workspaces), ResultsOf(ts[t].runAfter))
  }

  ghost predicate RegularTasks(ts: seq<PipelineTask>, g: Graph, workspaces: map<string, WorkspaceSource>,
                               steps: seq<seq<OpId>>)
    requires |steps| <= |ts|
  {
    forall t :: 0 <= t < |steps| ==> RegularTask(ts, g, workspaces, steps, t)
  }

  /** Tasks occupy the arena one after the other. */
  ghost predicate Consecutive(steps: seq<seq<OpId>>) {
    forall t, u, x, y :: 0 <= t < u < |steps| && x in steps[t] && y in steps[u] ==> x < y
  }

  ghost predicate Owned(steps: seq<seq<OpId>>, b: OpId) {
    exists t :: 0 <= t < |steps| && b in steps[t]
  }

  ghost predicate Processes(g: Graph, ids: seq<OpId>) {
    forall x :: x in ids ==> x < |g| && g[x].Exec?
  }

  ghost predicate AllOwned(g: Graph, steps: seq<seq<OpId>>) {
    && (forall t :: 0 <= t < |steps| ==> Processes(g, steps[t]))
    && (forall b :: 0 <= b < |g| && g[b].Exec? ==> Owned(steps, b))
  }

  ghost predicate RegularWired(ts: seq<PipelineTask>, workspaces: map<string, WorkspaceSource>, p: Progress) {
    && |p.steps| <= |ts|
    && WellFormed(p.graph)
    && FromFiles(p.graph, workspaces)
    && NamesResolve(ts, |p.steps|, p.tasks, p.steps)
    && RegularTasks(ts, p.graph, workspaces, p.steps)
    && Consecutive(p.steps)
    && AllOwned(p.graph, p.steps)
  }

  lemma NamesSplit(ts: seq<PipelineTask>, steps: seq<seq<OpId>>, k: nat, names: seq<string>)
    requires k <= |steps| && k <= |ts| && names != []
    ensures LastOfTasks(ts, steps, k, names) == LastOfTask(ts, steps, k, names[0])
        + LastOfTasks(ts, steps, k, names[1..])
    ensures ResultsOf(names) == {names[0] + "/results"} + ResultsOf(names[1..])
  {
    assert forall x :: x in names <==> x == names[0] || x in names[1..];
  }

  lemma NoNames(ts: seq<PipelineTask>, steps: seq<seq<OpId>>, k: nat)
    requires k <= |steps| && k <= |ts|
    ensures LastOfTasks(ts, steps, k, []) == {} && ResultsOf([]) == {}
  {
  }

  lemma {:induction false} RunAfterResolves(ts: seq<PipelineTask>, p: Progress, mounts: seq<Mount>,
                                            runAfter: seq<string>)
    requires |p.steps| <= |ts| && NamesResolve(ts, |p.steps|, p.tasks, p.steps)
    requires RunAfterMounts(p.tasks, mounts, runAfter).Done?
    ensures forall a :: a in runAfter ==>
          Resolve(ts, |p.steps|, a).Some? && p.steps[Resolve(ts, |p.steps|, a).value] != []
    decreases |runAfter|
  {
    if runAfter != [] {
      var a := runAfter[0];
      RunAfterResolves(ts, p, mounts + AfterTask(a, p.tasks[a]), runAfter[1..]);
      assert a in p.tasks && p.tasks[a] == Outputs(p.steps[Resolve(ts, |p.steps|, a).value]);
      assert forall x :: x in runAfter <==> x == a || x in runAfter[1..];
    }
  }

  /** What the mounts made from `runAfter` wait for and read. */
  lemma {:induction false} RunAfterMountsAre(ts: seq<PipelineTask>, p: Progress, mounts: seq<Mount>,
                                             runAfter: seq<string>)
    requires |p.steps| <= |ts| && NamesResolve(ts, |p.steps|, p.tasks, p.steps)
    requires RunAfterMounts(p.tasks, mounts, runAfter).Done?
    ensures var r := RunAfterMounts(p.tasks, mounts, runAfter).value;
            && MountInputs(r) == MountInputs(mounts) + LastOfTasks(ts, p.steps, |p.steps|, runAfter)
            && MountAccesses(r) == MountAccesses(mounts) + ResultsOf(runAfter)
            && MountWrites(r) == MountWrites(mounts)
    decreases |runAfter|
  {
    var k := |p.steps|;
    if runAfter == [] {
      NoNames(ts, p.steps, k);
    } else {
      var a := runAfter[0];
      KnownTaskMounts(ts, p, mounts, a);
      NamesSplit(ts, p.steps, k, runAfter);
      hide MountInputs, MountAccesses, MountWrites, AfterTask, Outputs, NamesResolve, LastOfTask, LastOfTasks,
        ResultsOf, Resolve;
      RunAfterMountsAre(ts, p, mounts + AfterTask(a, p.tasks[a]), runAfter[1..]);
      UnionAssociates(MountInputs(mounts), LastOfTask(ts, p.steps, k, a), LastOfTasks(ts, p.steps, k, runAfter[1..]));
      UnionAssociates(MountAccesses(mounts), {a + "/results"}, ResultsOf(runAfter[1..]));
    }
  }

  lemma UnionAssociates<T>(a: set<T>, b: set<T>, c: set<T>)
    ensures a + b + c == a + (b + c)
  {
  }

  /** The two mounts for one compiled task. */
  lemma KnownTaskMounts(ts: seq<PipelineTask>, p: Progress, mounts: seq<Mount>, a: string)
    requires |p.steps| <= |ts| && NamesResolve(ts, |p.steps|, p.tasks, p.steps) && a in p.tasks && p.tasks[a] != []
    ensures var more := mounts + AfterTask(a, p.tasks[a]);
            && MountInputs(more) == MountInputs(mounts) + LastOfTask(ts, p.steps, |p.steps|, a)
            && MountAccesses(more) == MountAccesses(mounts) + {a + "/results"}
            && MountWrites(more) == MountWrites(mounts)
  {
    var ids := p.steps[Resolve(ts, |p.steps|, a).value];
    assert p.tasks[a] == Outputs(ids);
    assert |Outputs(ids)| == |ids|;
    AfterTaskMounts(a, ids);
    MountsConcat(mounts, AfterTask(a, p.tasks[a]));
    hide MountInputs, MountAccesses, MountWrites, AfterTask, Outputs, NamesResolve;
    assert MountWrites(mounts) + {} == MountWrites(mounts);
  }

  lemma AfterTaskMounts(a: string, ids: seq<OpId>)
    requires ids != []
    ensures MountInputs(AfterTask(a, Outputs(ids))) == LastOf(ids)
    ensures MountAccesses(AfterTask(a, Outputs(ids))) == {a + "/results"}
    ensures MountWrites(AfterTask(a, Outputs(ids))) == {}
  {
    var ms := AfterTask(a, Outputs(ids));
    assert ms[0] in ms && ms[1] in ms;
  }

  lemma BehindStays(ts: seq<PipelineTask>, steps: seq<seq<OpId>>, more: seq<seq<OpId>>, t: nat)
    requires t < |steps| <= |more| <= |ts| && steps <= more
    ensures Behind(ts, more, t) == Behind(ts, steps, t)
    ensures Ready(ts, more, t) == Ready(ts, steps, t)
  {
    forall a | a in ts[t].runAfter
      ensures LastOfTask(ts, more, t, a) == LastOfTask(ts, steps, t, a)
    {
    }
  }

  lemma RegularTaskStays(ts: seq<PipelineTask>, g: Graph, h: Graph, workspaces: map<string, WorkspaceSource>,
                         steps: seq<seq<OpId>>, more: seq<seq<OpId>>, t: nat)
    requires t < |steps| <= |more| <= |ts| && steps <= more && WellFormed(g) && g <= h
    requires RegularTask(ts, g, workspaces, steps, t)
    ensures RegularTask(ts, h, workspaces, more, t)
  {
    BehindStays(ts, steps, more, t);
    ChainStays(g, h, steps[t], Behind(ts, steps, t));
    assert more[t] == steps[t];
    assert CacheUses(h, more[t], ts[t].name, SharedBy(workspaces, ts[t].workspaces), ResultsOf(ts[t].runAfter));
  }

  lemma NamesStillResolve(ts: seq<PipelineTask>, k: nat, tasks: map<string, seq<State>>, steps: seq<seq<OpId>>,
                          ids: seq<OpId>)
    requires k == |steps| < |ts| && NamesResolve(ts, k, tasks, steps)
    ensures NamesResolve(ts, k + 1, if Skipped(ts[k]) then tasks else tasks[ts[k].name := Outputs(ids)], steps + [ids])
  {
    var more := steps + [ids];
    var tasks' := if Skipped(ts[k]) then tasks else tasks[ts[k].name := Outputs(ids)];
    forall a
      ensures a in tasks' <==> Resolve(ts, k + 1, a).Some?
      ensures a in tasks' ==> tasks'[a] == Outputs(more[Resolve(ts, k + 1, a).value])
    {
      if ts[k].name == a && !Skipped(ts[k]) {
        assert Resolve(ts, k + 1, a) == Some(k);
      } else {
        assert Resolve(ts, k + 1, a) == Resolve(ts, k, a);
      }
    }
  }

  lemma OwnedGrows(g: Graph, h: Graph, steps: seq<seq<OpId>>, ids: seq<OpId>)
    requires Consecutive(steps) && AllOwned(g, steps) && OnlyAdds(g, h, ids) && forall j :: 0 <= j < |ids| ==>
        h[ids[j]].Exec?
    ensures Consecutive(steps + [ids]) && AllOwned(h, steps + [ids])
  {
    var more := steps + [ids];
    forall t, u, x, y | 0 <= t < u < |more| && x in more[t] && y in more[u]
      ensures x < y
    {
      assert Processes(g, steps[t]) && x in steps[t];
      assert u == |steps| ==> y in ids;
    }
    forall t | 0 <= t < |more|
      ensures Processes(h, more[t])
    {
      assert t < |steps| ==> Processes(g, steps[t]);
    }
    forall b | 0 <= b < |h| && h[b].Exec?
      ensures Owned(more, b)
    {
      if b < |g| {
        assert g[b].Exec?;
        var t :| 0 <= t < |steps| && b in steps[t];
        assert b in more[t];
      } else {
        assert b in more[|steps|];
      }
    }
  }

  /** Bundled facts about one emitted task. */
  lemma TaskEmitted(ctx: Context, g: Graph, spec: TaskSpec, task: TaskArgs, shared: set<string>, mounts: seq<Mount>)
    requires WellFormed(g) && Translate(ctx, spec, task).Ok? && WorkspaceFns(g, task.workspaces, shared)
    requires WaitsFor(g, mounts) && MountWrites(mounts) == {}
    ensures var steps := Translate(ctx, spec, task).value;
            var (h, ids) := EmitSteps(g, steps, mounts, |steps|);
            && |ids| == |spec.steps|
            && TaskWired(g, h, ids, MountInputs(mounts))
            && CacheUses(h, ids, task.name, shared, MountAccesses(mounts))
  {
    hide Translate, EmitSteps, TaskWired, CacheUses, WaitsFor, StepOf, MountInputs;
    TranslationIsWired(ctx, spec, task);
    var steps := Translate(ctx, spec, task).value;
    StepsWired(g, steps, mounts, |steps|, task.name, task.workspaces);
    AppliedCaches(task.workspaces);
    assert MountWrites(ApplyAll(task.workspaces, Scratch)) == shared ==
      MountAccesses(ApplyAll(task.workspaces, Scratch));
    StepsCaches(g, steps, mounts, |steps|, task.name, task.workspaces);
  }

  lemma LastOpsAreProcesses(ts: seq<PipelineTask>, p: Progress, workspaces: map<string, WorkspaceSource>,
                            names: seq<string>, mounts: seq<Mount>)
    requires RegularWired(ts, workspaces, p) && MountInputs(mounts) == LastOfTasks(ts, p.steps, |p.steps|, names)
    ensures WaitsFor(p.graph, mounts)
  {
    forall e | e in MountInputs(mounts)
      ensures e < |p.graph| && p.graph[e].Exec?
    {
      var a :| a in names && e in LastOfTask(ts, p.steps, |p.steps|, a);
      var ids := p.steps[Resolve(ts, |p.steps|, a).value];
      assert Processes(p.graph, ids);
      assert e in ids;
    }
  }

  lemma RegularTasksStay(ts: seq<PipelineTask>, g: Graph, h: Graph, workspaces: map<string, WorkspaceSource>,
                         steps: seq<seq<OpId>>, more: seq<seq<OpId>>)
    requires |steps| <= |more| <= |ts| && steps <= more && WellFormed(g) && g <= h
    requires RegularTasks(ts, g, workspaces, steps)
    ensures forall t :: 0 <= t < |steps| ==> RegularTask(ts, h, workspaces, more, t)
  {
    forall t | 0 <= t < |steps|
      ensures RegularTask(ts, h, workspaces, more, t)
    {
      RegularTaskStays(ts, g, h, workspaces, steps, more, t);
    }
  }

  lemma SkippedTaskWired(ts: seq<PipelineTask>, workspaces: map<string, WorkspaceSource>, p: Progress)
    requires |p.steps| < |ts| && RegularWired(ts, workspaces, p) && Skipped(ts[|p.steps|])
    ensures RegularWired(ts, workspaces, p.(skipped := p.skipped[ts[|p.steps|].name := true], steps := p.steps + [[]]))
  {
    var k, more := |p.steps|, p.steps + [[]];
    RegularTasksStay(ts, p.graph, p.graph, workspaces, p.steps, more);
    NamesStillResolve(ts, k, p.tasks, p.steps, []);
    OwnedGrows(p.graph, p.graph, p.steps, []);
    assert RegularTask(ts, p.graph, workspaces, more, k);
  }

  lemma FilesStay(g: Graph, h: Graph, workspaces: map<string, WorkspaceSource>)
    requires FromFiles(g, workspaces) && g <= h
    ensures FromFiles(h, workspaces)
  {
  }

  /** A task that is compiled keeps everything wired. */
  lemma EmittedTaskWired(ts: seq<PipelineTask>, workspaces: map<string, WorkspaceSource>, p: Progress, h: Graph,
                         ids: seq<OpId>, waits: set<OpId>)
    requires |p.steps| < |ts| && RegularWired(ts, workspaces, p) && !Skipped(ts[|p.steps|])
    requires TaskWired(p.graph, h, ids, waits)
    requires waits == LastOfTasks(ts, p.steps, |p.steps|, ts[|p.steps|].runAfter)
    requires Ready(ts, p.steps, |p.steps|)
    requires CacheUses(h, ids, ts[|p.steps|].name, SharedBy(workspaces, ts[|p.steps|].workspaces),
        ResultsOf(ts[|p.steps|].runAfter))
    ensures RegularWired(ts, workspaces,
        Progress(h, p.tasks[ts[|p.steps|].name := Outputs(ids)], p.skipped, p.steps + [ids]))
  {
    TaskIsThere(p.graph, h, ids, waits);
    hide Chain, CacheUses, Increasing, NamesResolve, FromFiles;
    var k, more := |p.steps|, p.steps + [ids];
    RegularTasksStay(ts, p.graph, h, workspaces, p.steps, more);
    NamesStillResolve(ts, k, p.tasks, p.steps, ids);
    OwnedGrows(p.graph, h, p.steps, ids);
    FilesStay(p.graph, h, workspaces);
    assert RegularTask(ts, h, workspaces, more, k) by {
      assert more[k] == ids;
      assert forall a :: a in ts[k].runAfter ==> LastOfTask(ts, more, k, a) == LastOfTask(ts, p.steps, k, a);
      assert Behind(ts, more, k) == waits;
      assert Ready(ts, more, k);
    }
  }

  lemma TaskCompiled(ctx: Context, workspaces: map<string, WorkspaceSource>, p: Progress, ts: seq<PipelineTask>)
    requires |p.steps| < |ts| && RegularWired(ts, workspaces, p)
    requires CompileTask(ctx, workspaces, p, ts[|p.steps|]).Done?
    ensures var q := CompileTask(ctx, workspaces, p, ts[|p.steps|]).value;
            RegularWired(ts, workspaces, q) && |q.steps| == |p.steps| + 1 && p.graph <= q.graph
  {
    hide Translate, EmitSteps, RegularTasks, Chain, CacheUses, WorkspaceFns, NamesResolve, MountInputs, MountAccesses,
      MountWrites, SharedBy, ResultsOf;
    var t := ts[|p.steps|];
    if Skipped(t) {
      SkippedTaskWired(ts, workspaces, p);
    } else {
      var spec := ResolveTask(ctx, t, "Taskref").value;
      var fns := TaskWorkspaces(workspaces, [], t.workspaces).value;
      var task := TaskArgs(t.name, fns, t.timeout);
      var steps := Translate(ctx, spec, task).value;
      var mounts := RunAfterMounts(p.tasks, [], t.runAfter).value;
      NoWorkspaceFns(p.graph);
      TaskWorkspacesAre(p.graph, workspaces, [], {}, t.workspaces);
      assert {} + SharedBy(workspaces, t.workspaces) == SharedBy(workspaces, t.workspaces);
      RunAfterMountsAre(ts, p, [], t.runAfter);
      RunAfterResolves(ts, p, [], t.runAfter);
      NoMounts();
      assert {} + LastOfTasks(ts, p.steps, |p.steps|, t.runAfter) == LastOfTasks(ts, p.steps, |p.steps|, t.runAfter);
      assert {} + ResultsOf(t.runAfter) == ResultsOf(t.runAfter);
      LastOpsAreProcesses(ts, p, workspaces, t.runAfter, mounts);
      TaskEmitted(ctx, p.graph, spec, task, SharedBy(workspaces, t.workspaces), mounts);
      var (h, ids) := EmitSteps(p.graph, steps, mounts, |steps|);
      EmittedTaskWired(ts, workspaces, p, h, ids, MountInputs(mounts));
    }
  }

  lemma NoWorkspaceFns(g: Graph)
    ensures WorkspaceFns(g, [], {})
  {
  }

  lemma NoMounts()
    ensures MountInputs([]) == {} && MountAccesses([]) == {} && MountWrites([]) == {}
  {
  }

  lemma {:induction false} TasksCompiled(ctx: Context, workspaces: map<string, WorkspaceSource>, p: Progress,
                                         ts: seq<PipelineTask>)
    requires |p.steps| <= |ts| && RegularWired(ts, workspaces, p)
    requires CompileTasks(ctx, workspaces, p, ts[|p.steps|..]).Done?
    ensures var q := CompileTasks(ctx, workspaces, p, ts[|p.steps|..]).value;
            RegularWired(ts, workspaces, q) && |q.steps| == |ts| && p.graph <= q.graph
    decreases |ts| - |p.steps|
  {
    hide CompileTask, RegularWired;
    var k := |p.steps|;
    if k < |ts| {
      assert ts[k..][0] == ts[k] && ts[k..][1..] == ts[k + 1..];
      TaskCompiled(ctx, workspaces, p, ts);
      TasksCompiled(ctx, workspaces, CompileTask(ctx, workspaces, p, ts[k]).value, ts);
    }
  }
}
