/** Whose the caches of a compiled pipeline are: every identifier in the graph belongs to an owner of the pipeline. */
module CacheOwners {
  import opened Basics
  import opened Llb
  import opened Tekton
  import opened TaskRun
  import opened PipelineRun
  import opened Wiring
  import opened PipelineWiring
  import opened FinalWiring
  import opened Ordering
  import opened CacheIds
  import opened RaceFreedom
  import StepContent
  import ResultMounts

  // ---------------------------------------------------------------- what the compiler writes

  /** The identifiers the compiler writes are those of the owners they are meant for. */
  lemma IdsAreWritten(t: string, f: string, m: VolumeMount, target: string)
    ensures ResultsFn(t).cacheId == Id(Results(t)) && SharedResults(target, t).cacheId == Some(Id(Results(t)))
    ensures ResultsFn("finally/" + f).cacheId == Id(Owner.FinalResults(f))
    ensures SharedResults(target, "finally/" + f).cacheId == Some(Id(Owner.FinalResults(f)))
    ensures VolumeFn(t, m).cacheId == Id(Owner.Volume(t, m.name))
    ensures VolumeFn("finally/" + f, m).cacheId == Id(FinalVolume(f, m.name))
  {
  }

  /** Persistent workspaces of a run have the identifiers of the run's workspaces. */
  lemma WorkspacesAreWritten(ctx: Context, run: string, b: Bound, w: WorkspaceBinding)
    requires w.kind.PersistentWorkspace?
    ensures BindWorkspace(ctx, run, b, w) ==
        Done(b.(workspaces := b.workspaces[w.name := CacheSource(Id(Workspace(run, w.name)))]))
  {
  }

  // ---------------------------------------------------------------- what an operation mounts

  ghost function Asked(fns: seq<MountFn>): set<string> {
    set f | f in fns && f.CacheFn? :: f.cacheId
  }

  ghost function AskedBy(p: PStep): set<string> {
    Asked(p.results) + Asked(p.workspaces) + Asked(p.volumeMounts)
  }

  /** A mount that the step asks for. */
  ghost predicate AskedFor(p: PStep, m: Mount) {
    exists f :: f in p.results + p.workspaces + p.volumeMounts && f.Apply(Scratch) == m
  }

  /** The operation mounts the caches its step asks for, as it asks for them, and those in `read`, and no others. */
  ghost predicate AsksOnly(g: Graph, b: OpId, p: PStep, read: set<string>) {
    && b < |g| && g[b].Exec?
    && forall m :: m in g[b].mounts && m.cacheId.Some? ==> AskedFor(p, m) || m.cacheId.value in read
  }

  lemma AccessesAreAsked(g: Graph, b: OpId, p: PStep, read: set<string>)
    requires AsksOnly(g, b, p, read)
    ensures Accesses(g[b]) <= AskedBy(p) + read
  {
    forall id | id in Accesses(g[b]) && id !in read
      ensures id in AskedBy(p)
    {
      var m :| m in g[b].mounts && m.cacheId == Some(id);
      var f :| f in p.results + p.workspaces + p.volumeMounts && f.Apply(Scratch) == m;
      assert f.CacheFn? && f.cacheId == id;
    }
  }

  ghost predicate AllAskOnly(g: Graph, ids: seq<OpId>, steps: seq<PStep>, read: set<string>) {
    |ids| == |steps| && forall j :: 0 <= j < |ids| ==> AsksOnly(g, ids[j], steps[j], read)
  }

  lemma EmittedAsks(g: Graph, step: PStep, i: nat, previous: State, additional: seq<Mount>)
    ensures var h := EmitStep(g, step, i, previous, additional); AsksOnly(h, |h| - 1, step, MountAccesses(additional))
  {
    var h := EmitStep(g, step, i, previous, additional);
    assert h[|h| - 1] == Exec(|g|, step.process, StepMounts(g, step, i, previous, additional));
    forall m | m in StepMounts(g, step, i, previous, additional) && m.cacheId.Some?
      ensures AskedFor(step, m) || m.cacheId.value in MountAccesses(additional)
    {
      MountIsAsked(g, step, i, previous, additional, m);
    }
  }

  lemma MountIsAsked(g: Graph, step: PStep, i: nat, previous: State, additional: seq<Mount>, m: Mount)
    requires m in StepMounts(g, step, i, previous, additional) && m.cacheId.Some?
    ensures AskedFor(step, m) || m.cacheId.value in MountAccesses(additional)
  {
    assert m !in ScriptMount(g, step) && m !in PreviousMount(i, previous);
    if m in ApplyAll(step.results, Scratch) {
      AppliedIsAsked(step.results, m);
    } else if m in ApplyAll(step.workspaces, Scratch) {
      AppliedIsAsked(step.workspaces, m);
    } else if m in ApplyAll(step.volumeMounts, Scratch) {
      AppliedIsAsked(step.volumeMounts, m);
    }
  }

  lemma AppliedIsAsked(fns: seq<MountFn>, m: Mount)
    requires m in ApplyAll(fns, Scratch)
    ensures exists f :: f in fns && f.Apply(Scratch) == m
  {
    var k :| 0 <= k < |ApplyAll(fns, Scratch)| && ApplyAll(fns, Scratch)[k] == m;
    assert fns[k] in fns;
  }

  lemma StillAsk(g: Graph, h: Graph, ids: seq<OpId>, steps: seq<PStep>, read: set<string>)
    requires AllAskOnly(g, ids, steps, read) && g <= h
    ensures AllAskOnly(h, ids, steps, read)
  {
    forall j | 0 <= j < |ids|
      ensures AsksOnly(h, ids[j], steps[j], read)
    {
      assert AsksOnly(g, ids[j], steps[j], read);
    }
  }

  lemma {:induction false} EmittedAskOnly(g: Graph, steps: seq<PStep>, additional: seq<Mount>, n: nat)
    requires n <= |steps|
    ensures var (h, ids) := EmitSteps(g, steps, additional, n);
          g <= h && AllAskOnly(h, ids, steps[..n], MountAccesses(additional))
  {
    hide EmitStep, AsksOnly, MountAccesses;
    if n > 0 {
      EmittedAskOnly(g, steps, additional, n - 1);
      var (h, ids) := EmitSteps(g, steps, additional, n - 1);
      var previous := if n > 1 then Output(ids[n - 2]) else Scratch;
      EmittedAsks(h, steps[n - 1], n - 1, previous, additional);
      StillAsk(h, EmitStep(h, steps[n - 1], n - 1, previous, additional), ids, steps[..n - 1],
        MountAccesses(additional));
      assert steps[..n] == steps[..n - 1] + [steps[n - 1]];
    }
  }

  // ---------------------------------------------------------------- what a step asks for

  lemma {:induction false} VolumesAsked(mounts: seq<VolumeMount>, dirs: set<string>, task: string, n: nat, id: string)
    requires n <= |mounts| && id in Asked(VolumeFns(mounts, dirs, task, n))
    ensures exists v :: v in dirs && id == task + "/volume/" + v
    decreases n
  {
    if n > 0 {
      var f :| f in VolumeFns(mounts, dirs, task, n) && f.CacheFn? && f.cacheId == id;
      if f in VolumeFns(mounts, dirs, task, n - 1) {
        VolumesAsked(mounts, dirs, task, n - 1, id);
      } else {
        assert mounts[n - 1].name in dirs && id == task + "/volume/" + mounts[n - 1].name;
      }
    }
  }

  /** A translated step asks for its task's results, the task's workspaces and emptyDir volumes of the task. */
  lemma TranslatedAsks(ctx: Context, spec: TaskSpec, task: TaskArgs, step: Step, i: nat, id: string)
    requires TranslateStep(ctx, spec, task, step, i).Ok? && id in AskedBy(TranslateStep(ctx, spec, task, step, i).value)
    ensures id == task.name + "/results" || id in Asked(task.workspaces) || exists v ::
          v in EmptyDirs(spec) && id == task.name + "/volume/" + v
  {
    hide StepEnv, StepFile, VolumeFns, EmptyDirs;
    var p := TranslateStep(ctx, spec, task, step, i).value;
    assert p.results == [ResultsFn(task.name)];
    if id in Asked(p.volumeMounts) {
      VolumesAsked(step.volumeMounts, EmptyDirs(spec), task.name, |step.volumeMounts|, id);
    }
  }

  lemma TaskAsks(ctx: Context, spec: TaskSpec, task: TaskArgs, g: Graph, ids: seq<OpId>, read: set<string>, j: nat,
                 id: string)
    requires Translate(ctx, spec, task).Ok? && AllAskOnly(g, ids, Translate(ctx, spec, task).value, read)
    requires j < |ids| && ids[j] < |g| && id in Accesses(g[ids[j]])
    ensures id == task.name + "/results" || id in Asked(task.workspaces) || id in read
            || exists v :: v in EmptyDirs(spec) && id == task.name + "/volume/" + v
  {
    hide TranslateStep, EmptyDirs, Asked;
    var merged := MergeSteps(ctx.lib, spec, |spec.steps|).value;
    StepContent.EachStepTranslated(ctx, spec, task, merged, |merged|);
    AccessesAreAsked(g, ids[j], Translate(ctx, spec, task).value[j], read);
    if id !in read {
      TranslatedAsks(ctx, spec, task, merged[j], j, id);
    }
  }

  // ---------------------------------------------------------------- through the phases

  ghost predicate TaskAsksOnly(g: Graph, ids: seq<OpId>, r: Outcome<seq<PStep>>, read: set<string>) {
    r.Done? && AllAskOnly(g, ids, r.value, read)
  }

  ghost predicate RegularAsk(ctx: Context, ws: map<string, WorkspaceSource>, ts: seq<PipelineTask>, g: Graph,
                             steps: seq<seq<OpId>>)
  {
    && |steps| <= |ts|
    && forall t :: 0 <= t < |steps| ==>
      TaskAsksOnly(g, steps[t], StepContent.TranslatedTask(ctx, ws, ts[t]), ResultsOf(ts[t].runAfter))
  }

  ghost predicate FinalsAsk(ctx: Context, ws: map<string, WorkspaceSource>, fs: seq<PipelineTask>, g: Graph,
                            steps: seq<seq<OpId>>, read: set<string>)
  {
    && |steps| <= |fs|
    && forall f :: 0 <= f < |steps| ==> TaskAsksOnly(g, steps[f], StepContent.TranslatedFinal(ctx, ws, fs[f]), read)
  }

  lemma {:induction false} RunAfterReads(tasks: map<string, seq<State>>, mounts: seq<Mount>, runAfter: seq<string>)
    requires RunAfterMounts(tasks, mounts, runAfter).Done?
    ensures MountAccesses(RunAfterMounts(tasks, mounts, runAfter).value) <= MountAccesses(mounts) + ResultsOf(runAfter)
    decreases |runAfter|
  {
    if runAfter != [] {
      var after := AfterTask(runAfter[0], tasks[runAfter[0]]);
      RunAfterReads(tasks, mounts + after, runAfter[1..]);
      AfterTaskReads(runAfter[0], tasks[runAfter[0]]);
      MountsConcat(mounts, after);
      assert ResultsOf(runAfter[1..]) <= ResultsOf(runAfter) && runAfter[0] + "/results" in ResultsOf(runAfter);
    }
  }

  lemma AfterTaskReads(name: string, states: seq<State>)
    requires states != []
    ensures MountAccesses(AfterTask(name, states)) == {name + "/results"}
  {
    var ms := AfterTask(name, states);
    assert ms[1] in ms;
  }

  lemma RegularAskStill(ctx: Context, ws: map<string, WorkspaceSource>, ts: seq<PipelineTask>, g: Graph, h: Graph,
                        steps: seq<seq<OpId>>)
    requires RegularAsk(ctx, ws, ts, g, steps) && g <= h
    ensures RegularAsk(ctx, ws, ts, h, steps)
  {
    hide StepContent.TranslatedTask, AllAskOnly, ResultsOf;
    forall t | 0 <= t < |steps|
      ensures TaskAsksOnly(h, steps[t], StepContent.TranslatedTask(ctx, ws, ts[t]), ResultsOf(ts[t].runAfter))
    {
      StillAsk(g, h, steps[t], StepContent.TranslatedTask(ctx, ws, ts[t]).value, ResultsOf(ts[t].runAfter));
    }
  }

  lemma FinalsAskStill(ctx: Context, ws: map<string, WorkspaceSource>, fs: seq<PipelineTask>, g: Graph, h: Graph,
                       steps: seq<seq<OpId>>, read: set<string>)
    requires FinalsAsk(ctx, ws, fs, g, steps, read) && g <= h
    ensures FinalsAsk(ctx, ws, fs, h, steps, read)
  {
    hide StepContent.TranslatedFinal, AllAskOnly;
    forall f | 0 <= f < |steps|
      ensures TaskAsksOnly(h, steps[f], StepContent.TranslatedFinal(ctx, ws, fs[f]), read)
    {
      StillAsk(g, h, steps[f], StepContent.TranslatedFinal(ctx, ws, fs[f]).value, read);
    }
  }

  lemma WiderAsk(g: Graph, ids: seq<OpId>, steps: seq<PStep>, read: set<string>, wider: set<string>)
    requires AllAskOnly(g, ids, steps, read) && read <= wider
    ensures AllAskOnly(g, ids, steps, wider)
  {
    forall j | 0 <= j < |ids|
      ensures AsksOnly(g, ids[j], steps[j], wider)
    {
      assert AsksOnly(g, ids[j], steps[j], read);
    }
  }

  lemma TaskCompiledAsks(ctx: Context, ws: map<string, WorkspaceSource>, p: Progress, t: PipelineTask)
    requires CompileTask(ctx, ws, p, t).Done?
    ensures var q := CompileTask(ctx, ws, p, t).value;
            && p.graph <= q.graph && |q.steps| == |p.steps| + 1 && p.steps <= q.steps
            && TaskAsksOnly(q.graph, q.steps[|p.steps|], StepContent.TranslatedTask(ctx, ws, t), ResultsOf(t.runAfter))
  {
    hide Translate, EmitSteps, AsksOnly, ResultsOf, MountAccesses;
    if !Skipped(t) {
      var steps := StepContent.TranslatedTask(ctx, ws, t).value;
      var mounts := RunAfterMounts(p.tasks, [], t.runAfter).value;
      EmittedAskOnly(p.graph, steps, mounts, |steps|);
      assert steps[..|steps|] == steps;
      RunAfterReads(p.tasks, [], t.runAfter);
      NoMounts();
      var (h, ids) := EmitSteps(p.graph, steps, mounts, |steps|);
      WiderAsk(h, ids, steps, MountAccesses(mounts), ResultsOf(t.runAfter));
    }
  }

  lemma {:induction false} TasksAsk(ctx: Context, ws: map<string, WorkspaceSource>, p: Progress, ts: seq<PipelineTask>)
    requires RegularAsk(ctx, ws, ts, p.graph, p.steps) && CompileTasks(ctx, ws, p, ts[|p.steps|..]).Done?
    ensures var q := CompileTasks(ctx, ws, p, ts[|p.steps|..]).value;
            RegularAsk(ctx, ws, ts, q.graph, q.steps) && |q.steps| == |ts|
    decreases |ts| - |p.steps|
  {
    hide CompileTask, StepContent.TranslatedTask, TaskAsksOnly, ResultsOf;
    var k := |p.steps|;
    if k < |ts| {
      assert ts[k..][0] == ts[k] && ts[k..][1..] == ts[k + 1..];
      var next := CompileTask(ctx, ws, p, ts[k]).value;
      TaskCompiledAsks(ctx, ws, p, ts[k]);
      RegularAskStill(ctx, ws, ts, p.graph, next.graph, p.steps);
      TasksAsk(ctx, ws, next, ts);
    }
  }

  lemma FinalCompiledAsks(ctx: Context, ws: map<string, WorkspaceSource>, mounts: seq<Mount>, f: Finals,
                          t: PipelineTask)
    requires CompileFinal(ctx, ws, mounts, f, t).Done?
    ensures var q := CompileFinal(ctx, ws, mounts, f, t).value;
            && f.graph <= q.graph && |q.steps| == |f.steps| + 1 && f.steps <= q.steps
            && TaskAsksOnly(q.graph, q.steps[|f.steps|], StepContent.TranslatedFinal(ctx, ws, t), MountAccesses(mounts))
  {
    hide Translate, EmitSteps, AsksOnly, MountAccesses;
    var steps := StepContent.TranslatedFinal(ctx, ws, t).value;
    EmittedAskOnly(f.graph, steps, mounts, |steps|);
    assert steps[..|steps|] == steps;
  }

  lemma {:induction false} AllFinalsAsk(ctx: Context, ws: map<string, WorkspaceSource>, mounts: seq<Mount>, f: Finals,
                                        fs: seq<PipelineTask>)
    requires FinalsAsk(ctx, ws, fs, f.graph, f.steps, MountAccesses(mounts))
        && CompileFinals(ctx, ws, mounts, f, fs[|f.steps|..]).Done?
    ensures var q := CompileFinals(ctx, ws, mounts, f, fs[|f.steps|..]).value;
            FinalsAsk(ctx, ws, fs, q.graph, q.steps, MountAccesses(mounts)) && |q.steps| == |fs|
    decreases |fs| - |f.steps|
  {
    hide CompileFinal, StepContent.TranslatedFinal, TaskAsksOnly, MountAccesses;
    var k := |f.steps|;
    if k < |fs| {
      assert fs[k..][0] == fs[k] && fs[k..][1..] == fs[k + 1..];
      var next := CompileFinal(ctx, ws, mounts, f, fs[k]).value;
      FinalCompiledAsks(ctx, ws, mounts, f, fs[k]);
      FinalsAskStill(ctx, ws, fs, f.graph, next.graph, f.steps, MountAccesses(mounts));
      AllFinalsAsk(ctx, ws, mounts, next, fs);
    }
  }

  // ---------------------------------------------------------------- owners

  /** A volume that the resolved task declares as an emptyDir. */
  ghost predicate Declares(ctx: Context, t: PipelineTask, kind: string, v: string) {
    ResolveTask(ctx, t, kind).Done? && v in EmptyDirs(ResolveTask(ctx, t, kind).value)
  }

  ghost predicate Uses(ws: map<string, WorkspaceSource>, t: PipelineTask, w: string) {
    w in ws && ws[w].CacheSource? && exists u :: u in t.workspaces && u.workspace == w
  }

  ghost predicate HasTask(ts: seq<PipelineTask>, n: string) {
    exists t :: t in ts && t.name == n
  }

  /** What a step of regular task `t` has to do with: its own results and those of tasks it runs after, its volumes,
      its workspaces. */
  ghost predicate OwnerForTask(ctx: Context, run: string, ws: map<string, WorkspaceSource>, t: PipelineTask, o: Owner) {
    match o
    case Results(n) => n == t.name || n in t.runAfter
    case Volume(n, v) => n == t.name && Declares(ctx, t, "Taskref", v)
    case Workspace(r, w) => r == run && Uses(ws, t, w)
    case _ => false
  }

  /** The same for finally tasks, which see the results of all regular tasks. */
  ghost predicate OwnerForFinal(ctx: Context, run: string, ws: map<string, WorkspaceSource>, spec: PipelineSpec,
                                f: PipelineTask, o: Owner)
  {
    match o
    case Results(n) => HasTask(spec.tasks, n)
    case FinalResults(n) => n == f.name
    case FinalVolume(n, v) => n == f.name && Declares(ctx, f, "Finally Taskref", v)
    case Workspace(r, w) => r == run && Uses(ws, f, w)
    case _ => false
  }

  ghost predicate OwnerForRoot(spec: PipelineSpec, o: Owner) {
    match o
    case Results(n) => HasTask(spec.tasks, n)
    case FinalResults(n) => HasTask(spec.finals, n)
    case _ => false
  }

  /** Owners that process `b` of the pipeline has to do with. */
  ghost predicate OwnerFor(ctx: Context, run: string, ws: map<string, WorkspaceSource>, spec: PipelineSpec, c: Compiled,
                           b: OpId, o: Owner)
  {
    || (exists t, i ::
      StepAt(c.steps, t, i) && t < |spec.tasks| && c.steps[t][i] == b && OwnerForTask(ctx, run, ws, spec.tasks[t], o))
    || (exists f, j ::
      StepAt(c.finals, f, j) && f < |spec.finals| && c.finals[f][j] == b
      && OwnerForFinal(ctx, run, ws, spec, spec.finals[f], o))
    || (b == c.root && OwnerForRoot(spec, o))
  }

  lemma WorkspacesAsked(ws: map<string, WorkspaceSource>, uses: seq<WorkspaceUse>, id: string)
    requires TaskWorkspaces(ws, [], uses).Done? && id in Asked(TaskWorkspaces(ws, [], uses).value)
    ensures id in SharedBy(ws, uses)
  {
    StepContent.WorkspacesInOrder(ws, [], uses);
    var fns := TaskWorkspaces(ws, [], uses).value;
    var f :| f in fns && f.CacheFn? && f.cacheId == id;
    var i :| 0 <= i < |fns| && fns[i] == f;
    assert f == ws[uses[i].workspace].At("/workspace/" + uses[i].name);
    assert uses[i] in uses;
  }

  lemma FinalWorkspacesAsked(ws: map<string, WorkspaceSource>, uses: seq<WorkspaceUse>, id: string)
    requires id in Asked(FinalWorkspaces(ws, [], uses))
    ensures id in SharedBy(ws, uses)
  {
    var f :| f in FinalWorkspaces(ws, [], uses) && f.CacheFn? && f.cacheId == id;
    StepContent.FinalWorkspacesBound(ws, [], uses, f);
  }

  lemma SharedOwner(run: string, ws: map<string, WorkspaceSource>, t: PipelineTask, id: string) returns (o: Owner)
    requires IsName(run) && CachesNamed(run, ws) && id in SharedBy(ws, t.workspaces)
    ensures o.Workspace? && o.run == run && Uses(ws, t, o.workspace) && ProperOwner(o) && Id(o) == id
  {
    var u :| u in t.workspaces && u.workspace in ws && ws[u.workspace].CacheSource? && id == ws[u.workspace].cacheId;
    o := Workspace(run, u.workspace);
  }

  lemma RegularOwner(ctx: Context, run: string, ws: map<string, WorkspaceSource>, t: PipelineTask, g: Graph,
                     ids: seq<OpId>, j: nat, id: string) returns (o: Owner)
    requires IsName(run) && CachesNamed(run, ws) && IsName(t.name) && forall a :: a in t.runAfter ==> IsName(a)
    requires TaskAsksOnly(g, ids, StepContent.TranslatedTask(ctx, ws, t), ResultsOf(t.runAfter))
    requires j < |ids| && ids[j] < |g| && id in Accesses(g[ids[j]])
    ensures OwnerForTask(ctx, run, ws, t, o) && ProperOwner(o) && Id(o) == id
  {
    hide Translate, EmptyDirs, Asked, AsksOnly, UniqueNames;
    var spec' := ResolveTask(ctx, t, "Taskref").value;
    var fns := TaskWorkspaces(ws, [], t.workspaces).value;
    TaskAsks(ctx, spec', TaskArgs(t.name, fns, t.timeout), g, ids, ResultsOf(t.runAfter), j, id);
    if id == t.name + "/results" {
      o := Results(t.name);
    } else if id in ResultsOf(t.runAfter) {
      var a :| a in t.runAfter && id == a + "/results";
      o := Results(a);
    } else if id in Asked(fns) {
      WorkspacesAsked(ws, t.workspaces, id);
      o := SharedOwner(run, ws, t, id);
    } else {
      var v :| v in EmptyDirs(spec') && id == t.name + "/volume/" + v;
      assert Declares(ctx, t, "Taskref", v);
      o := Owner.Volume(t.name, v);
    }
  }

  lemma FinalOwner(ctx: Context, run: string, ws: map<string, WorkspaceSource>, spec: PipelineSpec, f: PipelineTask,
                   g: Graph, ids: seq<OpId>, read: set<string>, j: nat, id: string) returns (o: Owner)
    requires IsName(run) && CachesNamed(run, ws) && ProperNames(spec) && f in spec.finals
    requires TaskAsksOnly(g, ids, StepContent.TranslatedFinal(ctx, ws, f), read)
    requires forall x :: x in read ==> exists t :: t in spec.tasks && x == t.name + "/results"
    requires j < |ids| && ids[j] < |g| && id in Accesses(g[ids[j]])
    ensures OwnerForFinal(ctx, run, ws, spec, f, o) && ProperOwner(o) && Id(o) == id
  {
    hide Translate, EmptyDirs, Asked, AsksOnly, UniqueNames;
    var spec' := ResolveTask(ctx, f, "Finally Taskref").value;
    var fns := FinalWorkspaces(ws, [], f.workspaces);
    TaskAsks(ctx, spec', TaskArgs("finally/" + f.name, fns, f.timeout), g, ids, read, j, id);
    if id == "finally/" + f.name + "/results" {
      o := Owner.FinalResults(f.name);
    } else if id in read {
      var t :| t in spec.tasks && id == t.name + "/results";
      o := Results(t.name);
    } else if id in Asked(fns) {
      FinalWorkspacesAsked(ws, f.workspaces, id);
      o := SharedOwner(run, ws, f, id);
    } else {
      var v :| v in EmptyDirs(spec') && id == "finally/" + f.name + "/volume/" + v;
      assert Declares(ctx, f, "Finally Taskref", v);
      o := FinalVolume(f.name, v);
    }
  }

  // ---------------------------------------------------------------- the theorems

  /** Everything that is known of a compiled pipeline's mounts, phase by phase. */
  lemma WholeAsks(ctx: Context, run: string, bindings: seq<WorkspaceBinding>, spec: PipelineSpec)
    returns (ws: map<string, WorkspaceSource>, read: set<string>)
    requires Ranges(ctx.lib) && CompileSpec(ctx, run, bindings, spec).Done?
    ensures BindWorkspaces(ctx, run, Bound([], map[]), bindings).Done?
    ensures ws == BindWorkspaces(ctx, run, Bound([], map[]), bindings).value.workspaces
    ensures var c := CompileSpec(ctx, run, bindings, spec).value;
            && |c.steps| == |spec.tasks| && RegularAsk(ctx, ws, spec.tasks, c.graph, c.steps)
            && |c.finals| == |spec.finals| && FinalsAsk(ctx, ws, spec.finals, c.graph, c.finals, read)
    ensures spec.finals != [] ==> forall x :: x in read ==> exists t :: t in spec.tasks && x == t.name + "/results"
  {
    hide CompileSpec, CompileTasks, CompileFinals, BindWorkspaces, RegularAsk, FinalsAsk, EmitRoot, CollectAll,
      NamesResolve, FinalNamesResolve, MountAccesses;
    var w, start, p, mounts, f := ResultMounts.Phases(ctx, run, bindings, spec);
    ws, read := w, MountAccesses(mounts);
    var c := CompileSpec(ctx, run, bindings, spec).value;
    assert spec.tasks[0..] == spec.tasks && spec.finals[0..] == spec.finals;
    NothingAsks(ctx, ws, spec, start);
    TasksAsk(ctx, ws, start, spec.tasks);
    RegularAskStill(ctx, ws, spec.tasks, p.graph, c.graph, p.steps);
    var none := Finals(p.graph, map[], []);
    NothingAsksLast(ctx, ws, spec, none, read);
    AllFinalsAsk(ctx, ws, mounts, none, spec.finals);
    FinalsAskStill(ctx, ws, spec.finals, f.graph, c.graph, f.steps, read);
    if spec.finals != [] {
      BarrierReads(ctx.lib, spec, p, mounts);
    }
  }

  lemma NothingAsks(ctx: Context, ws: map<string, WorkspaceSource>, spec: PipelineSpec, p: Progress)
    requires p.steps == []
    ensures RegularAsk(ctx, ws, spec.tasks, p.graph, p.steps)
  {
  }

  lemma NothingAsksLast(ctx: Context, ws: map<string, WorkspaceSource>, spec: PipelineSpec, f: Finals,
                        read: set<string>)
    requires f.steps == []
    ensures FinalsAsk(ctx, ws, spec.finals, f.graph, f.steps, read)
  {
  }

  lemma BarrierReads(lib: Library, spec: PipelineSpec, p: Progress, mounts: seq<Mount>)
    requires Ranges(lib) && |p.steps| == |spec.tasks| && NamesResolve(spec.tasks, |spec.tasks|, p.tasks, p.steps)
    requires mounts == FinalMounts(p.tasks, [], lib.range("finally", p.tasks.Keys))
    ensures forall x :: x in MountAccesses(mounts) ==> exists t :: t in spec.tasks && x == t.name + "/results"
  {
    var order := lib.range("finally", p.tasks.Keys);
    assert Enumerates(order, p.tasks.Keys);
    FinalMountsAre(p.tasks, [], order);
    NoMounts();
    RegularByName(spec.tasks, p.steps, p.tasks, order);
    forall x | x in RegularResults(spec.tasks, p.steps)
      ensures exists t :: t in spec.tasks && x == t.name + "/results"
    {
      var t :| 0 <= t < |spec.tasks| && x == spec.tasks[t].name + "/results";
      assert spec.tasks[t] in spec.tasks;
    }
  }

  /** Every cache identifier in a compiled graph is that of an owner the operation has to do with. */
  lemma EveryCacheHasAnOwner(ctx: Context, run: string, bindings: seq<WorkspaceBinding>, spec: PipelineSpec, b: OpId,
                             id: string) returns (o: Owner)
    requires Ranges(ctx.lib) && CompileSpec(ctx, run, bindings, spec).Done?
        && BindWorkspaces(ctx, run, Bound([], map[]), bindings).Done?
    requires IsName(run) && ProperNames(spec)
    requires b < |CompileSpec(ctx, run, bindings, spec).value.graph|
        && id in Accesses(CompileSpec(ctx, run, bindings, spec).value.graph[b])
    ensures OwnerFor(ctx, run, BindWorkspaces(ctx, run, Bound([], map[]), bindings).value.workspaces, spec,
        CompileSpec(ctx, run, bindings, spec).value, b, o)
    ensures ProperOwner(o) && Id(o) == id
  {
    hide CompileSpec, BindWorkspaces, OwnerForTask, OwnerForFinal, TaskAsksOnly, UniqueNames;
    CompiledIsWired(ctx, run, bindings, spec);
    var ws, read := WholeAsks(ctx, run, bindings, spec);
    var c := CompileSpec(ctx, run, bindings, spec).value;
    RootReachesEveryStep(ws, spec, c, b);
    if IsStep(c.steps, b) {
      var t, i :| StepAt(c.steps, t, i) && c.steps[t][i] == b;
      NamedTasksAreTasks(ws, spec, c, t, i);
      assert spec.tasks[t] in spec.tasks;
      o := RegularOwner(ctx, run, ws, spec.tasks[t], c.graph, c.steps[t], i, id);
    } else if IsStep(c.finals, b) {
      var f, j :| StepAt(c.finals, f, j) && c.finals[f][j] == b;
      o := FinalOwner(ctx, run, ws, spec, spec.finals[f], c.graph, c.finals[f], read, j, id);
    } else {
      o := RootOwner(ws, spec, c, id);
    }
  }

  lemma RootOwner(ws: map<string, WorkspaceSource>, spec: PipelineSpec, c: Compiled, id: string) returns (o: Owner)
    requires Wired(ws, spec, c) && ProperNames(spec) && id in Accesses(c.graph[c.root])
    ensures OwnerForRoot(spec, o) && ProperOwner(o) && Id(o) == id
  {
    if id in RegularResults(spec.tasks, c.steps) {
      var t :| 0 <= t < |spec.tasks| && id == spec.tasks[t].name + "/results";
      assert spec.tasks[t] in spec.tasks;
      o := Results(spec.tasks[t].name);
    } else {
      var f :| 0 <= f < |spec.finals| && id == "finally/" + spec.finals[f].name + "/results";
      assert spec.finals[f] in spec.finals;
      o := Owner.FinalResults(spec.finals[f].name);
    }
  }

  /** Operations of a compiled graph mount the same cache only where they have to do with the same owner, or with two
      owners in one of the collisions. */
  lemma SharedCachesHaveOneOwner(ctx: Context, run: string, bindings: seq<WorkspaceBinding>, spec: PipelineSpec,
                                 a: OpId, b: OpId, id: string)
    returns (o: Owner, p: Owner)
    requires Ranges(ctx.lib) && CompileSpec(ctx, run, bindings, spec).Done?
        && BindWorkspaces(ctx, run, Bound([], map[]), bindings).Done?
    requires IsName(run) && ProperNames(spec)
    requires var g := CompileSpec(ctx, run, bindings, spec).value.graph;
          a < |g| && b < |g| && id in Accesses(g[a]) && id in Accesses(g[b])
    ensures var ws, c := BindWorkspaces(ctx, run, Bound([], map[]), bindings).value.workspaces,
        CompileSpec(ctx, run, bindings, spec).value;
            OwnerFor(ctx, run, ws, spec, c, a, o) && OwnerFor(ctx, run, ws, spec, c, b, p)
    ensures Id(o) == id == Id(p) && (o == p || Collide(o, p) || Collide(p, o))
  {
    hide CompileSpec, BindWorkspaces, ProperNames, OwnerFor;
    o := EveryCacheHasAnOwner(ctx, run, bindings, spec, a, id);
    p := EveryCacheHasAnOwner(ctx, run, bindings, spec, b, id);
    OwnersAreSeparate(o, p);
  }
}
