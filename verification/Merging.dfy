/** BuildKit keeps operations by their content and runs those of equal content once. No two processes of a compiled
    graph are merged in this way. */
module Merging {
  import opened Basics
  import opened Llb
  import opened Tekton
  import opened TaskRun
  import opened PipelineRun
  import opened Wiring
  import opened PipelineWiring
  import opened FinalWiring
  import opened Ordering
  import opened CacheIds
  import opened RaceFreedom
  import opened CacheOwners
  import opened StepContent
  import Executor

  // ---------------------------------------------------------------- content

  /** Operations of equal content: like processes on like inputs with the same set of mounts, in whatever order. */
  ghost predicate Same(g: Graph, a: OpId, b: OpId)
    requires WellFormed(g) && a < |g| && b < |g|
    decreases a, 2
  {
    assert WellFormedOp(g, a) && WellFormedOp(g, b);
    match g[a]
    case Image(reference) => g[b] == Image(reference)
    case File(base, path, data) =>
      g[b].File? && g[b].path == path && g[b].data == data && SameState(g, a, base, b, g[b].base)
    case Exec(rootfs, process, mounts) =>
      && g[b].Exec? && g[b].process == process
      && SameState(g, a, Output(rootfs), b, Output(g[b].rootfs))
      && (forall m :: m in mounts ==> exists n :: n in g[b].mounts && SameMount(g, a, m, b, n))
      && (forall n :: n in g[b].mounts ==> exists m :: m in mounts && SameMount(g, a, m, b, n))
  }

  /** The mount `m` of `a` is the mount `n` of `b`. */
  ghost predicate SameMount(g: Graph, a: OpId, m: Mount, b: OpId, n: Mount)
    requires WellFormed(g) && a < |g| && b < |g|
    decreases a, 1
  {
    m.(source := n.source) == n && SameState(g, a, m.source, b, n.source)
  }

  ghost predicate SameState(g: Graph, a: OpId, s: State, b: OpId, t: State)
    requires WellFormed(g) && a < |g| && b < |g|
    decreases a, 0
  {
    s == t == Scratch || (s.Output? && t.Output? && s.op < a && t.op < b && Same(g, s.op, t.op))
  }

  lemma SameParts(g: Graph, a: OpId, b: OpId)
    requires WellFormed(g) && a < |g| && b < |g| && g[a].Exec? && Same(g, a, b)
    ensures g[b].Exec? && SameState(g, a, Output(g[a].rootfs), b, Output(g[b].rootfs))
    ensures forall m :: m in g[a].mounts ==> exists n :: n in g[b].mounts && SameMount(g, a, m, b, n)
    ensures forall n :: n in g[b].mounts ==> exists m :: m in g[a].mounts && SameMount(g, a, m, b, n)
  {
    hide SameState, SameMount;
  }

  lemma SameSource(g: Graph, a: OpId, m: Mount, b: OpId, n: Mount)
    requires WellFormed(g) && a < |g| && b < |g| && SameMount(g, a, m, b, n)
    ensures m.(source := n.source) == n && SameState(g, a, m.source, b, n.source)
  {
    hide SameState;
  }

  lemma SameOutput(g: Graph, a: OpId, s: State, b: OpId, t: State)
    requires WellFormed(g) && a < |g| && b < |g| && SameState(g, a, s, b, t)
    ensures s.Output? <==> t.Output?
    ensures s.Output? ==> s.op < a && t.op < b && Same(g, s.op, t.op)
  {
    hide Same;
  }

  lemma MountedInput(op: Op, x: OpId) returns (n: Mount)
    requires op.Exec? && x in Inputs(op) && x != op.rootfs
    ensures n in op.mounts && n.source == Output(x)
  {
    n :| n in op.mounts && n.source.Output? && n.source.op == x;
  }

  /** Like processes wait for like operations. */
  lemma SameInput(g: Graph, a: OpId, b: OpId, x: OpId) returns (y: OpId)
    requires WellFormed(g) && a < |g| && b < |g| && g[a].Exec? && Same(g, a, b) && x in Inputs(g[b])
    ensures y < a && x < b && Same(g, y, x)
  {
    hide Same, SameMount, SameState, WellFormed, Inputs;
    SameParts(g, a, b);
    if x == g[b].rootfs {
      y := g[a].rootfs;
      SameOutput(g, a, Output(y), b, Output(x));
    } else {
      var n := MountedInput(g[b], x);
      var m :| m in g[a].mounts && SameMount(g, a, m, b, n);
      SameSource(g, a, m, b, n);
      SameOutput(g, a, m.source, b, n.source);
      y := m.source.op;
    }
  }

  lemma SameInputBack(g: Graph, a: OpId, b: OpId, y: OpId) returns (x: OpId)
    requires WellFormed(g) && a < |g| && b < |g| && g[a].Exec? && Same(g, a, b) && y in Inputs(g[a])
    ensures y < a && x < b && Same(g, y, x)
  {
    hide Same, SameMount, SameState, WellFormed, Inputs;
    SameParts(g, a, b);
    if y == g[a].rootfs {
      x := g[b].rootfs;
      SameOutput(g, a, Output(y), b, Output(x));
    } else {
      var m := MountedInput(g[a], y);
      var n :| n in g[b].mounts && SameMount(g, a, m, b, n);
      SameSource(g, a, m, b, n);
      SameOutput(g, a, m.source, b, n.source);
      x := n.source.op;
    }
  }

  lemma SameKind(g: Graph, a: OpId, b: OpId)
    requires WellFormed(g) && a < |g| && b < |g| && Same(g, a, b)
    ensures g[a].Exec? <==> g[b].Exec?
  {
    hide SameState, SameMount;
  }

  /** Copies of one operation have the same content: images and files that several steps ask for are merged. */
  lemma {:induction false} CopiesAreSame(g: Graph, a: OpId, b: OpId)
    requires WellFormed(g) && a < |g| && b < |g| && g[a] == g[b]
    ensures Same(g, a, b)
    decreases a, 1
  {
    if g[a].File? {
      SourcesAreSame(g, a, b, g[a].base);
    } else if g[a].Exec? {
      SourcesAreSame(g, a, b, Output(g[a].rootfs));
      forall m | m in g[a].mounts
        ensures SameMount(g, a, m, b, m)
      {
        SourcesAreSame(g, a, b, m.source);
      }
    }
  }

  lemma {:induction false} SourcesAreSame(g: Graph, a: OpId, b: OpId, s: State)
    requires WellFormed(g) && a < |g| && b < |g| && g[a] == g[b] && (s.Output? ==> s.op in Inputs(g[a]))
    ensures SameState(g, a, s, b, s)
    decreases a, 0
  {
    assert WellFormedOp(g, a) && WellFormedOp(g, b);
    if s.Output? {
      CopiesAreSame(g, s.op, s.op);
    }
  }

  /** A cache that `a` mounts over nothing and `b` does not mount like that. */
  ghost predicate Tells(g: Graph, a: OpId, b: OpId)
    requires a < |g| && b < |g| && g[a].Exec? && g[b].Exec?
  {
    exists m :: m in g[a].mounts && m.source.Scratch? && m !in g[b].mounts
  }

  ghost predicate Distinguished(g: Graph)
    requires WellFormed(g)
  {
    forall a, b :: 0 <= a < |g| && 0 <= b < |g| && g[a].Exec? && g[b].Exec? && Executor.Unordered(g, a, b) ==>
      Tells(g, a, b)
  }

  /** Processes that are ordered differ by what they wait for, if unordered ones differ by their mounts. */
  lemma {:induction false} NoTwoAlike(g: Graph, a: OpId, b: OpId)
    requires WellFormed(g) && Distinguished(g) && a < |g| && b < |g| && a != b && g[a].Exec? && g[b].Exec?
    ensures !Same(g, a, b)
    decreases a + b
  {
    hide Same, Distinguished, Tells;
    if Same(g, a, b) {
      if Ancestor(g, a, b) {
        AncestorThroughProcesses(g, a, b);
        var x :| x in ExecInputs(g, b) && (x == a || Ancestor(g, a, x));
        LaterInput(g, a, b, x);
      } else if Ancestor(g, b, a) {
        AncestorThroughProcesses(g, b, a);
        var y :| y in ExecInputs(g, a) && (y == b || Ancestor(g, b, y));
        if y != b {
          AncestorIsEarlier(g, b, y);
        }
        var x := SameInputBack(g, a, b, y);
        SameKind(g, y, x);
        NoTwoAlike(g, y, x);
      } else {
        UnorderedDiffer(g, a, b);
      }
    }
  }

  lemma {:induction false} LaterInput(g: Graph, a: OpId, b: OpId, x: OpId)
    requires WellFormed(g) && Distinguished(g) && a < |g| && b < |g| && g[a].Exec? && g[b].Exec?
    requires x in ExecInputs(g, b) && (x == a || Ancestor(g, a, x))
    ensures !Same(g, a, b)
    decreases a + b, 0
  {
    hide Same, Distinguished;
    if Same(g, a, b) {
      if x != a {
        AncestorIsEarlier(g, a, x);
      }
      var y := SameInput(g, a, b, x);
      SameKind(g, y, x);
      NoTwoAlike(g, y, x);
    }
  }

  lemma UnorderedDiffer(g: Graph, a: OpId, b: OpId)
    requires WellFormed(g) && Distinguished(g) && a < |g| && b < |g| && g[a].Exec? && g[b].Exec?
    requires Executor.Unordered(g, a, b)
    ensures !Same(g, a, b)
  {
    hide Same, SameMount, SameState, WellFormed;
    assert Tells(g, a, b);
    var m :| m in g[a].mounts && m.source.Scratch? && m !in g[b].mounts;
    if Same(g, a, b) {
      SameParts(g, a, b);
      var n :| n in g[b].mounts && SameMount(g, a, m, b, n);
      SameSource(g, a, m, b, n);
      SameOutput(g, a, m.source, b, n.source);
    }
  }

  // ---------------------------------------------------------------- whose results a step mounts as its own

  /** The results of a task as its own steps mount them. */
  ghost function OwnResults(task: string): Mount {
    ResultsFn(task).Apply(Scratch)
  }

  ghost predicate ApartFromResults(fns: seq<MountFn>) {
    forall f :: f in fns ==> f.target != ResultsFn("").target
  }

  lemma WorkspaceTarget(name: string)
    ensures "/workspace/" + name != ResultsFn("").target
  {
    assert ("/workspace/" + name)[1] == 'w';
  }

  lemma {:induction false} VolumeIds(mounts: seq<VolumeMount>, dirs: set<string>, task: string, n: nat, f: MountFn)
    requires n <= |mounts| && f in VolumeFns(mounts, dirs, task, n)
    ensures f.CacheFn? && IsVolume(task, f.cacheId)
  {
    if n > 0 && f in VolumeFns(mounts, dirs, task, n - 1) {
      VolumeIds(mounts, dirs, task, n - 1, f);
    } else {
      assert f == VolumeFn(task, mounts[n - 1]);
    }
  }

  /** Where a step has a directory as its own results, that is its task's, but for the caches in `read` and a volume of
      the task mounted there. */
  lemma OwnResultsOnly(ctx: Context, spec: TaskSpec, task: TaskArgs, g: Graph, ids: seq<OpId>, read: set<string>,
                       j: nat,
                       x: string)
    requires Translate(ctx, spec, task).Ok? && AllAskOnly(g, ids, Translate(ctx, spec, task).value, read)
    requires ApartFromResults(task.workspaces)
    requires j < |ids| && ids[j] < |g| && g[ids[j]].Exec? && OwnResults(x) in g[ids[j]].mounts
    ensures x + "/results" == task.name + "/results" || IsVolume(task.name, x + "/results") || x + "/results" in read
  {
    hide VolumeFns, StepEnv, StepFile, EmptyDirs, IsVolume;
    var merged := MergeSteps(ctx.lib, spec, |spec.steps|).value;
    EachStepTranslated(ctx, spec, task, merged, |merged|);
    var p := Translate(ctx, spec, task).value[j];
    assert AsksOnly(g, ids[j], p, read);
    if x + "/results" !in read {
      assert AskedFor(p, OwnResults(x));
      var f :| f in p.results + p.workspaces + p.volumeMounts && f.Apply(Scratch) == OwnResults(x);
      if f in p.volumeMounts {
        VolumeIds(merged[j].volumeMounts, EmptyDirs(spec), task.name, |merged[j].volumeMounts|, f);
      }
    }
  }

  lemma OwnResultsMounted(ctx: Context, spec: TaskSpec, task: TaskArgs, g: Graph, ids: seq<OpId>, j: nat)
    requires Translate(ctx, spec, task).Ok? && RunsAll(g, ids, Translate(ctx, spec, task).value) && j < |ids|
    ensures ids[j] < |g| && g[ids[j]].Exec? && OwnResults(task.name) in g[ids[j]].mounts
  {
    hide VolumeFns, StepEnv, StepFile, EmptyDirs, HasFile;
    var merged := MergeSteps(ctx.lib, spec, |spec.steps|).value;
    EachStepTranslated(ctx, spec, task, merged, |merged|);
    var p := Translate(ctx, spec, task).value[j];
    assert Runs(g, ids[j], p);
    assert p.results == [ResultsFn(task.name)];
    assert ResultsFn(task.name) in p.results + p.workspaces + p.volumeMounts;
  }

  // ---------------------------------------------------------------- compiled pipelines

  lemma RegularResultsMounted(ctx: Context, ws: map<string, WorkspaceSource>, ts: seq<PipelineTask>, g: Graph,
                              steps: seq<seq<OpId>>, t: nat, i: nat)
    requires RunsTasks(ctx, ws, ts, g, steps) && StepAt(steps, t, i)
    ensures steps[t][i] < |g| && g[steps[t][i]].Exec? && OwnResults(ts[t].name) in g[steps[t][i]].mounts
  {
    hide Translate, RunsAll, OwnResults;
    assert RunsTask(g, steps[t], TranslatedTask(ctx, ws, ts[t]));
    assert Skipped(ts[t]) ==> RunsAll(g, steps[t], []);
    NoSteps(g, steps[t]);
    var fns := TaskWorkspaces(ws, [], ts[t].workspaces).value;
    OwnResultsMounted(ctx, ResolveTask(ctx, ts[t], "Taskref").value, TaskArgs(ts[t].name, fns, ts[t].timeout), g,
      steps[t],
      i);
  }

  lemma NoSteps(g: Graph, ids: seq<OpId>)
    ensures RunsAll(g, ids, []) ==> ids == []
  {
  }

  lemma FinalResultsMounted(ctx: Context, ws: map<string, WorkspaceSource>, fs: seq<PipelineTask>, g: Graph,
                            steps: seq<seq<OpId>>, f: nat, j: nat)
    requires RunsFinals(ctx, ws, fs, g, steps) && StepAt(steps, f, j)
    ensures steps[f][j] < |g| && g[steps[f][j]].Exec? && OwnResults("finally/" + fs[f].name) in g[steps[f][j]].mounts
  {
    hide Translate, RunsAll, OwnResults;
    assert RunsTask(g, steps[f], TranslatedFinal(ctx, ws, fs[f]));
    OwnResultsMounted(ctx, ResolveTask(ctx, fs[f], "Finally Taskref").value,
      TaskArgs("finally/" + fs[f].name, FinalWorkspaces(ws, [], fs[f].workspaces), fs[f].timeout), g, steps[f], j);
  }

  lemma TaskWorkspacesApart(ws: map<string, WorkspaceSource>, uses: seq<WorkspaceUse>)
    requires TaskWorkspaces(ws, [], uses).Done?
    ensures ApartFromResults(TaskWorkspaces(ws, [], uses).value)
  {
    var fns := TaskWorkspaces(ws, [], uses).value;
    WorkspacesInOrder(ws, [], uses);
    forall f | f in fns
      ensures f.target != ResultsFn("").target
    {
      var i :| 0 <= i < |fns| && fns[i] == f;
      WorkspaceTarget(uses[i].name);
    }
  }

  lemma FinalWorkspacesApart(ws: map<string, WorkspaceSource>, uses: seq<WorkspaceUse>)
    ensures ApartFromResults(FinalWorkspaces(ws, [], uses))
  {
    forall f | f in FinalWorkspaces(ws, [], uses)
      ensures f.target != ResultsFn("").target
    {
      FinalWorkspacesBound(ws, [], uses, f);
      var u :| u in uses && u.workspace in ws && f == ws[u.workspace].At("/workspace/" + u.name);
      WorkspaceTarget(u.name);
    }
  }

  /** A step of a regular task does not have the results of an unordered task for its own. */
  lemma RegularOwnResults(ctx: Context, ws: map<string, WorkspaceSource>, t: PipelineTask, u: PipelineTask, g: Graph,
                          ids: seq<OpId>, j: nat)
    requires TaskAsksOnly(g, ids, TranslatedTask(ctx, ws, u), ResultsOf(u.runAfter)) && !Skipped(u)
    requires IsName(t.name) && IsName(u.name) && t.name != u.name && t.name !in u.runAfter
        && forall n :: n in u.runAfter ==> IsName(n)
    requires j < |ids| && ids[j] < |g| && g[ids[j]].Exec?
    ensures OwnResults(t.name) !in g[ids[j]].mounts
  {
    hide Translate, OwnResults, AllAskOnly, ResultsOf, IsVolume;
    var fns := TaskWorkspaces(ws, [], u.workspaces).value;
    TaskWorkspacesApart(ws, u.workspaces);
    if OwnResults(t.name) in g[ids[j]].mounts {
      OwnResultsOnly(ctx, ResolveTask(ctx, u, "Taskref").value, TaskArgs(u.name, fns, u.timeout), g, ids,
        ResultsOf(u.runAfter), j, t.name);
      OwnIdIsPrivate(t, u, t.name + "/results");
    }
  }

  lemma FinalOwnResults(ctx: Context, ws: map<string, WorkspaceSource>, e: PipelineTask, f: PipelineTask, g: Graph,
                        ids: seq<OpId>, read: set<string>, j: nat)
    requires TaskAsksOnly(g, ids, TranslatedFinal(ctx, ws, f), read)
    requires IsName(e.name) && IsName(f.name) && e.name != f.name
    requires forall id :: id in read ==> exists n :: IsName(n) && id == n + "/results"
    requires j < |ids| && ids[j] < |g| && g[ids[j]].Exec?
    ensures OwnResults("finally/" + e.name) !in g[ids[j]].mounts
  {
    hide Translate, OwnResults, AllAskOnly, IsVolume;
    FinalWorkspacesApart(ws, f.workspaces);
    if OwnResults("finally/" + e.name) in g[ids[j]].mounts {
      var id := "finally/" + e.name + "/results";
      OwnResultsOnly(ctx, ResolveTask(ctx, f, "Finally Taskref").value,
        TaskArgs("finally/" + f.name, FinalWorkspaces(ws, [], f.workspaces), f.timeout), g, ids, read, j,
        "finally/" + e.name);
      FinalIdsDiffer(e.name, f.name, id);
      if id in read {
        var n :| IsName(n) && id == n + "/results";
        FinalIsNoResult(e.name, n, id);
      }
    }
  }

  lemma RegularTells(ctx: Context, ws: map<string, WorkspaceSource>, spec: PipelineSpec, c: Compiled, t: nat, i: nat,
                     u: nat, j: nat)
    requires Wired(ws, spec, c) && ProperNames(spec)
    requires RunsTasks(ctx, ws, spec.tasks, c.graph, c.steps) && RegularAsk(ctx, ws, spec.tasks, c.graph, c.steps)
    requires StepAt(c.steps, t, i) && StepAt(c.steps, u, j) && c.steps[t][i] < |c.graph| && c.steps[u][j] < |c.graph|
    requires c.graph[c.steps[t][i]].Exec? && c.graph[c.steps[u][j]].Exec?
    requires Executor.Unordered(c.graph, c.steps[t][i], c.steps[u][j])
    ensures Tells(c.graph, c.steps[t][i], c.steps[u][j])
  {
    hide RunsTasks, TaskAsksOnly, TaskBefore, UniqueNames, TranslatedTask, ResultsOf;
    OrderingIsExact(ws, spec, c, t, i, u, j);
    OrderingIsExact(ws, spec, c, u, j, t, i);
    UnorderedIsNotNamed(ws, spec, c, t, u, j);
    DifferentTasks(spec, t, u);
    NamedTasksAreTasks(ws, spec, c, u, j);
    RegularResultsMounted(ctx, ws, spec.tasks, c.graph, c.steps, t, i);
    RegularFacts(ws, spec, c, u, j);
    assert spec.tasks[t] in spec.tasks && spec.tasks[u] in spec.tasks;
    assert TaskAsksOnly(c.graph, c.steps[u], TranslatedTask(ctx, ws, spec.tasks[u]), ResultsOf(spec.tasks[u].runAfter));
    RegularOwnResults(ctx, ws, spec.tasks[t], spec.tasks[u], c.graph, c.steps[u], j);
    assert OwnResults(spec.tasks[t].name).source.Scratch?;
  }

  lemma FinalTells(ctx: Context, ws: map<string, WorkspaceSource>, spec: PipelineSpec, c: Compiled, read: set<string>,
                   e: nat, i: nat, f: nat, j: nat)
    requires Wired(ws, spec, c) && ProperNames(spec)
    requires RunsFinals(ctx, ws, spec.finals, c.graph, c.finals)
        && FinalsAsk(ctx, ws, spec.finals, c.graph, c.finals, read)
    requires forall id :: id in read ==> exists n :: IsName(n) && id == n + "/results"
    requires StepAt(c.finals, e, i) && StepAt(c.finals, f, j)
    requires c.finals[e][i] < |c.graph| && c.finals[f][j] < |c.graph|
    requires c.graph[c.finals[e][i]].Exec? && c.graph[c.finals[f][j]].Exec?
    requires Executor.Unordered(c.graph, c.finals[e][i], c.finals[f][j])
    ensures Tells(c.graph, c.finals[e][i], c.finals[f][j])
  {
    hide RunsFinals, TaskAsksOnly, UniqueNames, TranslatedFinal;
    FinalsAreParallel(ws, spec, c, e, i, f, j);
    FinalsAreParallel(ws, spec, c, f, j, e, i);
    DifferentTasks(spec, e, f);
    FinalResultsMounted(ctx, ws, spec.finals, c.graph, c.finals, e, i);
    assert spec.finals[e] in spec.finals && spec.finals[f] in spec.finals;
    assert TaskAsksOnly(c.graph, c.finals[f], TranslatedFinal(ctx, ws, spec.finals[f]), read);
    FinalOwnResults(ctx, ws, spec.finals[e], spec.finals[f], c.graph, c.finals[f], read, j);
    assert OwnResults("finally/" + spec.finals[e].name).source.Scratch?;
  }

  lemma PairTells(ctx: Context, ws: map<string, WorkspaceSource>, spec: PipelineSpec, c: Compiled, read: set<string>,
                  a: OpId, b: OpId)
    requires Wired(ws, spec, c) && ProperNames(spec)
    requires RunsTasks(ctx, ws, spec.tasks, c.graph, c.steps) && RegularAsk(ctx, ws, spec.tasks, c.graph, c.steps)
    requires RunsFinals(ctx, ws, spec.finals, c.graph, c.finals)
        && FinalsAsk(ctx, ws, spec.finals, c.graph, c.finals, read)
    requires spec.finals != [] ==> forall id :: id in read ==> exists n :: IsName(n) && id == n + "/results"
    requires a < |c.graph| && b < |c.graph| && c.graph[a].Exec? && c.graph[b].Exec? && Executor.Unordered(c.graph, a, b)
    ensures Tells(c.graph, a, b)
  {
    hide RunsTasks, RunsFinals, RegularAsk, FinalsAsk, UniqueNames, Tells;
    RootReachesEveryStep(ws, spec, c, a);
    RootReachesEveryStep(ws, spec, c, b);
    if IsStep(c.steps, a) {
      var t, i :| StepAt(c.steps, t, i) && c.steps[t][i] == a;
      if IsStep(c.steps, b) {
        var u, j :| StepAt(c.steps, u, j) && c.steps[u][j] == b;
        RegularTells(ctx, ws, spec, c, t, i, u, j);
      } else {
        var f, j :| StepAt(c.finals, f, j) && c.finals[f][j] == b;
        FinalAfterRegular(ws, spec, c, t, i, f, j);
      }
    } else {
      var e, i :| StepAt(c.finals, e, i) && c.finals[e][i] == a;
      if IsStep(c.steps, b) {
        var u, j :| StepAt(c.steps, u, j) && c.steps[u][j] == b;
        FinalAfterRegular(ws, spec, c, u, j, e, i);
      } else {
        var f, j :| StepAt(c.finals, f, j) && c.finals[f][j] == b;
        FinalTells(ctx, ws, spec, c, read, e, i, f, j);
      }
    }
  }

  lemma FinalAfterRegular(ws: map<string, WorkspaceSource>, spec: PipelineSpec, c: Compiled, t: nat, i: nat, f: nat,
                          j: nat)
    requires Wired(ws, spec, c) && ProperNames(spec) && StepAt(c.steps, t, i) && StepAt(c.finals, f, j)
    ensures Before(c.graph, c.steps[t][i], c.finals[f][j])
  {
    FinallyBarrier(ws, spec, c, t, i, f, j);
  }

  /** No two processes of a compiled pipeline have the same content: unordered ones differ in the results they mount,
      ordered ones in what they wait for. Keeping operations by content changes nothing about the graph of processes. */
  lemma ProcessesAreNotMerged(ctx: Context, run: string, bindings: seq<WorkspaceBinding>, spec: PipelineSpec, a: OpId,
                              b: OpId)
    requires Ranges(ctx.lib) && CompileSpec(ctx, run, bindings, spec).Done? && ProperNames(spec)
    requires var g := CompileSpec(ctx, run, bindings, spec).value.graph;
          a < |g| && b < |g| && a != b && g[a].Exec? && g[b].Exec?
    ensures WellFormed(CompileSpec(ctx, run, bindings, spec).value.graph)
    ensures !Same(CompileSpec(ctx, run, bindings, spec).value.graph, a, b)
  {
    hide CompileSpec, BindWorkspaces, RunsTasks, RunsFinals, RegularAsk, FinalsAsk, Same, ProperNames;
    CompiledIsWired(ctx, run, bindings, spec);
    StepsRunAsAsked(ctx, run, bindings, spec);
    var ws, read := WholeAsks(ctx, run, bindings, spec);
    var c := CompileSpec(ctx, run, bindings, spec).value;
    ReadAreResults(spec, read);
    forall x, y | 0 <= x < |c.graph| && 0 <= y < |c.graph| && c.graph[x].Exec? && c.graph[y].Exec?
        && Executor.Unordered(c.graph, x, y)
      ensures Tells(c.graph, x, y)
    {
      PairTells(ctx, ws, spec, c, read, x, y);
    }
    NoTwoAlike(c.graph, a, b);
  }

  lemma ReadAreResults(spec: PipelineSpec, read: set<string>)
    requires ProperNames(spec)
    requires spec.finals != [] ==> forall x :: x in read ==> exists t :: t in spec.tasks && x == t.name + "/results"
    ensures spec.finals != [] ==> forall id :: id in read ==> exists n :: IsName(n) && id == n + "/results"
  {
    if spec.finals != [] {
      forall id | id in read
        ensures exists n :: IsName(n) && id == n + "/results"
      {
        var t :| t in spec.tasks && id == t.name + "/results";
        assert IsName(t.name);
      }
    }
  }

  /** The same of a TaskRun, whose steps are all ordered. */
  lemma StepsAreNotMerged(ctx: Context, run: TaskRunObject, a: OpId, b: OpId)
    requires CompileTaskRun(ctx, run).Done?
    requires var g := CompileTaskRun(ctx, run).value.graph;
          a < |g| && b < |g| && a != b && g[a].Exec? && g[b].Exec?
    ensures WellFormed(CompileTaskRun(ctx, run).value.graph)
    ensures !Same(CompileTaskRun(ctx, run).value.graph, a, b)
  {
    hide CompileTaskRun, Same, Tells;
    var c := CompileTaskRun(ctx, run).value;
    TaskRunIsAChain(ctx, run, 0, 0);
    forall x, y | 0 <= x < |c.graph| && 0 <= y < |c.graph| && c.graph[x].Exec? && c.graph[y].Exec? && x != y
      ensures !Executor.Unordered(c.graph, x, y)
    {
      TaskRunOrdersProcesses(ctx, run, x, y);
    }
    NoTwoAlike(c.graph, a, b);
  }
}
