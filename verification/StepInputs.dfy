/** What the operation of each step is made of, told from the step, its task and the run alone. */
module StepInputs {
  import opened Basics
  import opened Llb
  import opened Tekton
  import opened TaskRun
  import opened PipelineRun
  import opened Files
  import opened PipelineWiring
  import opened Ordering
  import opened CacheOwners
  import opened StepContent
  import opened Asked
  import Duration
  import Text

  // ---------------------------------------------------------------- image and process

  /** A user id in decimal, without leading zeros. */
  ghost predicate UserIs(user: Option<string>, id: Option<int>) {
    && (user.Some? <==> id.Some?)
    && (id.Some? && id.value >= 0 ==> ReadsAs(user.value, id.value))
    && (id.Some? && id.value < 0 ==> user.value != "" && user.value[0] == '-' && ReadsAs(user.value[1..], -id.value))
  }

  ghost predicate ReadsAs(s: string, n: int) {
    Duration.AllDigits(s) && Text.ReadDecimal(s) == n && (|s| > 1 ==> s[0] != '0')
  }

  /** The operation runs on the step's image, in its directory, as its user, with the environment it declares. */
  ghost predicate MadeOf(ctx: Context, step: Step, g: Graph, b: OpId) {
    && b < |g| && g[b].Exec? && g[b].rootfs < |g| && g[g[b].rootfs].Image?
    && ctx.lib.normalizeImage(step.image) == Ok(g[g[b].rootfs].reference)
    && g[b].process.dir == step.workingDir
    && UserIs(g[b].process.user, step.runAsUser)
    && AsDeclared(ctx, step, g[b].process.env)
  }

  lemma {:induction false} DecimalReads(n: int)
    requires n >= 0
    ensures ReadsAs(Text.Decimal(n), n) && (n > 0 ==> Text.Decimal(n)[0] != '0')
    decreases n
  {
    Text.DecimalReadsBack(n);
    if n >= 10 {
      DecimalReads(n / 10);
      assert Text.Decimal(n)[0] == Text.Decimal(n / 10)[0];
    }
  }

  lemma UserIsDecimal(id: int)
    ensures UserIs(Some(Text.Decimal(id)), Some(id))
  {
    if id >= 0 {
      DecimalReads(id);
    } else {
      DecimalReads(-id);
      assert Text.Decimal(id)[1..] == Text.Decimal(-id);
    }
  }

  lemma TranslatedMadeOf(ctx: Context, spec: TaskSpec, task: TaskArgs, step: Step, i: nat, g: Graph, b: OpId)
    requires TranslateStep(ctx, spec, task, step, i).Ok? && Runs(g, b, TranslateStep(ctx, spec, task, step, i).value)
    ensures MadeOf(ctx, step, g, b)
  {
    hide StepFile, StepArgs, StepEnv, VolumeFns, EmptyDirs, HasFile, Mounted, AsDeclared, UserIs, Text.Decimal;
    EnvIsAsDeclared(ctx, step);
    if step.runAsUser.Some? {
      UserIsDecimal(step.runAsUser.value);
    } else {
      NoUser();
    }
  }

  lemma NoUser()
    ensures UserIs(None, None)
  {
  }

  // ---------------------------------------------------------------- caches

  ghost predicate EmptyDir(task: TaskSpec, name: string) {
    exists v :: v in task.volumes && v.name == name && v.emptyDir
  }

  /** A volume of the task, where and how the step wants it. */
  ghost predicate IsVolumeOf(task: TaskSpec, owner: string, step: Step, x: Mount) {
    exists m :: m in step.volumeMounts && EmptyDir(task, m.name)
      && x == Mount(m.mountPath, Scratch, m.subPath, Some(owner + "/volume/" + m.name), m.readOnly)
  }

  /** The operation mounts the results of its task, the volumes the step wants of those that are emptyDir volumes, and
      no other caches but in `targets`, and those in `read`. */
  ghost predicate CachesOf(task: TaskSpec, owner: string, step: Step, targets: set<string>, read: set<string>,
                           mounts: seq<Mount>)
  {
    && Mount("/tekton/results", Scratch, "", Some(owner + "/results"), false) in mounts
    && (forall m :: m in step.volumeMounts && EmptyDir(task, m.name) ==>
          Mount(m.mountPath, Scratch, m.subPath, Some(owner + "/volume/" + m.name), m.readOnly) in mounts)
    && (forall x :: x in mounts && x.cacheId.Some? ==>
          || x == Mount("/tekton/results", Scratch, "", Some(owner + "/results"), false)
          || IsVolumeOf(task, owner, step, x) || x.target in targets || x.cacheId.value in read)
  }

  lemma {:induction false} VolumesWanted(mounts: seq<VolumeMount>, dirs: set<string>, owner: string, n: nat, f: MountFn)
    requires n <= |mounts|
    ensures f in VolumeFns(mounts, dirs, owner, n) <==>
            exists k :: 0 <= k < n && mounts[k].name in dirs
              && f == CacheFn(mounts[k].mountPath, owner + "/volume/" + mounts[k].name, mounts[k].subPath,
                mounts[k].readOnly)
    decreases n
  {
    if n > 0 {
      VolumesWanted(mounts, dirs, owner, n - 1, f);
    }
  }

  lemma DirsAreEmptyDirs(task: TaskSpec, name: string)
    ensures name in EmptyDirs(task) <==> EmptyDir(task, name)
  {
  }

  lemma VolumeIsMounted(spec: TaskSpec, owner: string, step: Step, m: VolumeMount, mounts: seq<Mount>)
    requires m in step.volumeMounts && EmptyDir(spec, m.name)
    requires Mounted(VolumeFns(step.volumeMounts, EmptyDirs(spec), owner, |step.volumeMounts|), mounts)
    ensures Mount(m.mountPath, Scratch, m.subPath, Some(owner + "/volume/" + m.name), m.readOnly) in mounts
  {
    var f := CacheFn(m.mountPath, owner + "/volume/" + m.name, m.subPath, m.readOnly);
    DirsAreEmptyDirs(spec, m.name);
    VolumesWanted(step.volumeMounts, EmptyDirs(spec), owner, |step.volumeMounts|, f);
  }

  lemma WantedVolume(spec: TaskSpec, owner: string, step: Step, f: MountFn)
    requires f in VolumeFns(step.volumeMounts, EmptyDirs(spec), owner, |step.volumeMounts|)
    ensures IsVolumeOf(spec, owner, step, f.Apply(Scratch))
  {
    VolumesWanted(step.volumeMounts, EmptyDirs(spec), owner, |step.volumeMounts|, f);
    var k :| 0 <= k < |step.volumeMounts| && step.volumeMounts[k].name in EmptyDirs(spec)
      && f == CacheFn(step.volumeMounts[k].mountPath, owner + "/volume/" + step.volumeMounts[k].name,
                      step.volumeMounts[k].subPath, step.volumeMounts[k].readOnly);
    DirsAreEmptyDirs(spec, step.volumeMounts[k].name);
    assert step.volumeMounts[k] in step.volumeMounts;
  }

  lemma TranslatedCaches(ctx: Context, spec: TaskSpec, task: TaskArgs, step: Step, i: nat, g: Graph, b: OpId,
                         targets: set<string>, read: set<string>)
    requires TranslateStep(ctx, spec, task, step, i).Ok? && Runs(g, b, TranslateStep(ctx, spec, task, step, i).value)
    requires AsksOnly(g, b, TranslateStep(ctx, spec, task, step, i).value, read)
    requires forall f :: f in task.workspaces ==> f.target in targets
    ensures CachesOf(spec, task.name, step, targets, read, g[b].mounts)
  {
    hide StepFile, StepArgs, StepEnv, VolumeFns, EmptyDirs, HasFile, EmptyDir, IsVolumeOf;
    var p, mounts := TranslateStep(ctx, spec, task, step, i).value, g[b].mounts;
    assert p.results == [ResultsFn(task.name)];
    assert ResultsFn(task.name) in p.results + p.workspaces + p.volumeMounts;
    forall m | m in step.volumeMounts && EmptyDir(spec, m.name)
      ensures Mount(m.mountPath, Scratch, m.subPath, Some(task.name + "/volume/" + m.name), m.readOnly) in mounts
    {
      assert Mounted(p.volumeMounts, mounts);
      VolumeIsMounted(spec, task.name, step, m, mounts);
    }
    forall x | x in mounts && x.cacheId.Some? && x.cacheId.value !in read
      ensures x == ResultsFn(task.name).Apply(Scratch) || IsVolumeOf(spec, task.name, step, x) || x.target in targets
    {
      var f :| f in p.results + p.workspaces + p.volumeMounts && f.Apply(Scratch) == x;
      if f in p.volumeMounts {
        WantedVolume(spec, task.name, step, f);
      }
    }
  }

  // ---------------------------------------------------------------- every step of a task

  lemma StepOfTask(ctx: Context, spec: TaskSpec, task: TaskArgs, g: Graph, ids: seq<OpId>, read: set<string>, j: nat,
                   targets: set<string>) returns (step: Step)
    requires Translate(ctx, spec, task).Ok? && RunsAll(g, ids, Translate(ctx, spec, task).value) && j < |ids|
    requires AllAskOnly(g, ids, Translate(ctx, spec, task).value, read)
    requires forall f :: f in task.workspaces ==> f.target in targets
    ensures |ids| == |spec.steps| && StepAsked(ctx, spec, j, step)
    ensures MadeOf(ctx, step, g, ids[j]) && CachesOf(spec, task.name, step, targets, read, g[ids[j]].mounts)
    ensures j > 0 ==>
              Mount("/previous/" + Text.Decimal(j - 1), Output(ids[j - 1]), "/", None, true) in g[ids[j]].mounts
  {
    hide TranslateStep, Runs, AsksOnly, MadeOf, CachesOf;
    var merged := MergeSteps(ctx.lib, spec, |spec.steps|).value;
    MergedSteps(ctx, spec, |spec.steps|);
    EachStepTranslated(ctx, spec, task, merged, |merged|);
    step := merged[j];
    var p := Translate(ctx, spec, task).value[j];
    assert Runs(g, ids[j], p) && AsksOnly(g, ids[j], p, read);
    assert j > 0 ==> SeesPrevious(g, ids, j);
    TranslatedMadeOf(ctx, spec, task, step, j, g, ids[j]);
    IsProcess(ctx, step, g, ids[j]);
    TranslatedCaches(ctx, spec, task, step, j, g, ids[j], targets, read);
  }

  lemma IsProcess(ctx: Context, step: Step, g: Graph, b: OpId)
    requires MadeOf(ctx, step, g, b)
    ensures b < |g| && g[b].Exec?
  {
    hide AsDeclared, UserIs;
  }

  ghost function WorkspaceTargets(uses: seq<WorkspaceUse>): set<string> {
    set u | u in uses :: "/workspace/" + u.name
  }

  lemma RegularTargets(ws: map<string, WorkspaceSource>, uses: seq<WorkspaceUse>)
    requires TaskWorkspaces(ws, [], uses).Done?
    ensures forall f :: f in TaskWorkspaces(ws, [], uses).value ==> f.target in WorkspaceTargets(uses)
  {
    var fns := TaskWorkspaces(ws, [], uses).value;
    WorkspacesInOrder(ws, [], uses);
    forall f | f in fns
      ensures f.target in WorkspaceTargets(uses)
    {
      var i :| 0 <= i < |fns| && fns[i] == f;
      assert uses[i] in uses && f.target == "/workspace/" + uses[i].name;
    }
  }

  lemma FinalTargets(ws: map<string, WorkspaceSource>, uses: seq<WorkspaceUse>)
    ensures forall f :: f in FinalWorkspaces(ws, [], uses) ==> f.target in WorkspaceTargets(uses)
  {
    forall f | f in FinalWorkspaces(ws, [], uses)
      ensures f.target in WorkspaceTargets(uses)
    {
      FinalWorkspacesBound(ws, [], uses, f);
    }
  }

  /** A regular task that no `when` expression refuses has one operation for each step of the task asked for; any other
      has none. Each operation is made of its step, and mounts its caches and no others but those of the task's
      workspaces and the results of the tasks it runs after. */
  lemma RegularStepsAreMade(ctx: Context, run: string, bindings: seq<WorkspaceBinding>, spec: PipelineSpec,
                            compiled: Compiled, t: nat, j: nat) returns (task: TaskSpec, step: Step)
    requires Ranges(ctx.lib) && CompileSpec(ctx, run, bindings, spec) == Done(compiled)
    requires t < |spec.tasks| && t < |compiled.steps| && j < |compiled.steps[t]|
    ensures TaskAsked(ctx, spec.tasks[t], task) && StepAsked(ctx, task, j, step)
    ensures MadeOf(ctx, step, compiled.graph, compiled.steps[t][j])
    ensures compiled.steps[t][j] < |compiled.graph| && compiled.graph[compiled.steps[t][j]].Exec?
    ensures CachesOf(task, spec.tasks[t].name, step, WorkspaceTargets(spec.tasks[t].workspaces),
        ResultsOf(spec.tasks[t].runAfter), compiled.graph[compiled.steps[t][j]].mounts)
    ensures j > 0 ==>
              Mount("/previous/" + Text.Decimal(j - 1), Output(compiled.steps[t][j - 1]), "/", None, true) in
              compiled.graph[compiled.steps[t][j]].mounts
  {
    hide CompileSpec, Translate, MadeOf, CachesOf, StepAsked, TaskAsked, RunsAll, AllAskOnly, ResultsOf, BindWorkspaces;
    StepsRunAsAsked(ctx, run, bindings, spec);
    var ws, read := WholeAsks(ctx, run, bindings, spec);
    var u := spec.tasks[t];
    assert RunsTask(compiled.graph, compiled.steps[t], TranslatedTask(ctx, ws, u));
    assert TaskAsksOnly(compiled.graph, compiled.steps[t], TranslatedTask(ctx, ws, u), ResultsOf(u.runAfter));
    NoneRun(compiled.graph, compiled.steps[t]);
    task := ResolveTask(ctx, u, "Taskref").value;
    ResolvedTask(ctx, u, "Taskref", task);
    var fns := TaskWorkspaces(ws, [], u.workspaces).value;
    RegularTargets(ws, u.workspaces);
    step := StepOfTask(ctx, task, TaskArgs(u.name, fns, u.timeout), compiled.graph, compiled.steps[t],
      ResultsOf(u.runAfter), j, WorkspaceTargets(u.workspaces));
    IsProcess(ctx, step, compiled.graph, compiled.steps[t][j]);
  }

  lemma NoneRun(g: Graph, ids: seq<OpId>)
    ensures RunsAll(g, ids, []) ==> ids == []
  {
  }

  /** How many operations a regular task has: none if an expression of its `when` refuses, otherwise one for each step
      of the task asked for. */
  lemma RegularOperations(ctx: Context, run: string, bindings: seq<WorkspaceBinding>, spec: PipelineSpec,
                          compiled: Compiled, t: nat)
    requires CompileSpec(ctx, run, bindings, spec) == Done(compiled) && t < |spec.tasks|
    ensures t < |compiled.steps|
    ensures (exists i :: 0 <= i < |spec.tasks[t].when| && Refuses(spec.tasks[t].when[i])) ==> compiled.steps[t] == []
    ensures (forall i :: 0 <= i < |spec.tasks[t].when| ==> !Refuses(spec.tasks[t].when[i])) ==>
              exists task :: TaskAsked(ctx, spec.tasks[t], task) && |compiled.steps[t]| == |task.steps|
  {
    hide CompileSpec, Refuses, TaskAsked, Runs, SeesPrevious, TranslateSteps;
    StepsRunAsAsked(ctx, run, bindings, spec);
    var ws := BindWorkspaces(ctx, run, Bound([], map[]), bindings).value.workspaces;
    var u := spec.tasks[t];
    assert RunsTask(compiled.graph, compiled.steps[t], TranslatedTask(ctx, ws, u));
    SkippedExactly(u);
    if !Skipped(u) {
      var task := ResolveTask(ctx, u, "Taskref").value;
      ResolvedTask(ctx, u, "Taskref", task);
      TranslatedLength(ctx, task, TaskArgs(u.name, TaskWorkspaces(ws, [], u.workspaces).value, u.timeout));
    }
  }

  lemma TranslatedLength(ctx: Context, spec: TaskSpec, task: TaskArgs)
    requires Translate(ctx, spec, task).Ok?
    ensures |Translate(ctx, spec, task).value| == |spec.steps|
  {
    hide TranslateStep;
    MergedSteps(ctx, spec, |spec.steps|);
    EachStepTranslated(ctx, spec, task, MergeSteps(ctx.lib, spec, |spec.steps|).value, |spec.steps|);
  }

  /** Finally tasks: one operation for each step, with the caches of the task's own name under `finally/`, and the
      results of regular tasks to read. */
  lemma FinalStepsAreMade(ctx: Context, run: string, bindings: seq<WorkspaceBinding>, spec: PipelineSpec,
                          compiled: Compiled, f: nat, j: nat)
    returns (task: TaskSpec, step: Step, read: set<string>)
    requires Ranges(ctx.lib) && CompileSpec(ctx, run, bindings, spec) == Done(compiled)
    requires f < |spec.finals| && f < |compiled.finals| && j < |compiled.finals[f]|
    ensures TaskAsked(ctx, spec.finals[f], task) && StepAsked(ctx, task, j, step)
    ensures |compiled.finals[f]| == |task.steps|
    ensures MadeOf(ctx, step, compiled.graph, compiled.finals[f][j])
    ensures compiled.finals[f][j] < |compiled.graph| && compiled.graph[compiled.finals[f][j]].Exec?
    ensures CachesOf(task, "finally/" + spec.finals[f].name, step, WorkspaceTargets(spec.finals[f].workspaces), read,
        compiled.graph[compiled.finals[f][j]].mounts)
    ensures forall x :: x in read ==> exists t :: t in spec.tasks && x == t.name + "/results"
    ensures j > 0 ==>
              Mount("/previous/" + Text.Decimal(j - 1), Output(compiled.finals[f][j - 1]), "/", None, true) in
              compiled.graph[compiled.finals[f][j]].mounts
  {
    hide CompileSpec, Translate, MadeOf, CachesOf, StepAsked, TaskAsked, RunsAll, AllAskOnly, BindWorkspaces;
    StepsRunAsAsked(ctx, run, bindings, spec);
    var ws, seen := WholeAsks(ctx, run, bindings, spec);
    read := seen;
    var u := spec.finals[f];
    assert RunsTask(compiled.graph, compiled.finals[f], TranslatedFinal(ctx, ws, u));
    assert TaskAsksOnly(compiled.graph, compiled.finals[f], TranslatedFinal(ctx, ws, u), read);
    task := ResolveTask(ctx, u, "Finally Taskref").value;
    ResolvedTask(ctx, u, "Finally Taskref", task);
    FinalTargets(ws, u.workspaces);
    step := StepOfTask(ctx, task, TaskArgs("finally/" + u.name, FinalWorkspaces(ws, [], u.workspaces), u.timeout),
      compiled.graph, compiled.finals[f], read, j, WorkspaceTargets(u.workspaces));
    IsProcess(ctx, step, compiled.graph, compiled.finals[f][j]);
  }

  /** A TaskRun: one operation for each step of the task asked for, with the caches of the run's own name; its
      workspaces are caches too, mounted at their names. */
  lemma TaskRunStepsAreMade(ctx: Context, run: TaskRunObject, compiled: CompiledTask, j: nat)
    returns (task: TaskSpec, step: Step)
    requires CompileTaskRun(ctx, run) == Done(compiled) && j < |compiled.steps|
    ensures RunAsked(ctx, run, task) && StepAsked(ctx, task, j, step) && |compiled.steps| == |task.steps|
    ensures MadeOf(ctx, step, compiled.graph, compiled.steps[j])
    ensures compiled.steps[j] < |compiled.graph| && compiled.graph[compiled.steps[j]].Exec?
    ensures CachesOf(task, run.name, step, set w | w in run.workspaces, {}, compiled.graph[compiled.steps[j]].mounts)
    ensures forall w :: w in run.workspaces ==>
              Mount(w, Scratch, "", Some(run.name + "/" + w), false) in compiled.graph[compiled.steps[j]].mounts
    ensures j > 0 ==>
              Mount("/previous/" + Text.Decimal(j - 1), Output(compiled.steps[j - 1]), "/", None, true) in
              compiled.graph[compiled.steps[j]].mounts
  {
    hide Translate, MadeOf, CachesOf, StepAsked, RunAsked, RunsAll, AllAskOnly, EmitSteps;
    task := ResolveTaskRun(ctx, run).value;
    ResolvedRun(ctx, run, task);
    var args := TaskArgs(run.name, RunWorkspaces(run), None);
    var steps := Translate(ctx, task, args).value;
    EmittedRunAll([], steps, [], |steps|);
    EmittedAskOnly([], steps, [], |steps|);
    assert steps[..|steps|] == steps;
    NoCaches();
    step := StepOfTask(ctx, task, args, compiled.graph, compiled.steps, {}, j, set w | w in run.workspaces);
    IsProcess(ctx, step, compiled.graph, compiled.steps[j]);
    forall w | w in run.workspaces
      ensures Mount(w, Scratch, "", Some(run.name + "/" + w), false) in compiled.graph[compiled.steps[j]].mounts
    {
      var i :| 0 <= i < |run.workspaces| && run.workspaces[i] == w;
      WorkspaceIsMounted(ctx, task, args, compiled.graph, compiled.steps, j, RunWorkspaces(run)[i]);
    }
  }

  lemma NoCaches()
    ensures MountAccesses([]) == {}
  {
  }

  lemma WorkspaceIsMounted(ctx: Context, spec: TaskSpec, task: TaskArgs, g: Graph, ids: seq<OpId>, j: nat, f: MountFn)
    requires Translate(ctx, spec, task).Ok? && RunsAll(g, ids, Translate(ctx, spec, task).value) && j < |ids|
    requires f in task.workspaces
    ensures ids[j] < |g| && g[ids[j]].Exec? && f.Apply(Scratch) in g[ids[j]].mounts
  {
    hide VolumeFns, StepEnv, StepFile, EmptyDirs, HasFile;
    var merged := MergeSteps(ctx.lib, spec, |spec.steps|).value;
    EachStepTranslated(ctx, spec, task, merged, |merged|);
    var p := Translate(ctx, spec, task).value[j];
    assert Runs(g, ids[j], p) && p.workspaces == task.workspaces;
    assert f in p.results + p.workspaces + p.volumeMounts;
  }

  // ---------------------------------------------------------------- workspaces of a pipeline

  /** The binding `w` at `target`: a cache of the run's, or, read-only, exactly the files of a ConfigMap or Secret. */
  ghost predicate WorkspaceShown(ctx: Context, run: string, w: WorkspaceBinding, target: string, g: Graph,
                                 mounts: seq<Mount>)
  {
    match w.kind
    case ConfigMapWorkspace(name, items) =>
      name in ctx.configs && FilesShown(ctx.configs[name], items, target, g, mounts)
    case SecretWorkspace(name, items) =>
      name in ctx.secrets && FilesShown(ctx.secrets[name], items, target, g, mounts)
    case PersistentWorkspace => Mount(target, Scratch, "", Some(run + "/" + w.name), false) in mounts
    case OtherWorkspace => true
  }

  ghost predicate FilesShown(data: Data, items: seq<KeyToPath>, target: string, g: Graph,
                             mounts: seq<Mount>)
  {
    exists content :: Mount(target, content, "/", None, true) in mounts
      && ShowsData(data, items, FilesAt(g, content))
  }

  lemma BoundIsShown(ctx: Context, run: string, w: WorkspaceBinding, b: Bound, target: string, g: Graph,
                     mounts: seq<Mount>)
    requires BindingShown(ctx, run, w, b) && !w.kind.OtherWorkspace? && w.name in b.workspaces && b.graph <= g
    requires b.workspaces[w.name].At(target).Apply(Scratch) in mounts
    ensures WorkspaceShown(ctx, run, w, target, g, mounts)
  {
    if b.workspaces[w.name].ContentSource? && Within(b.graph, b.workspaces[w.name].content) {
      var content := b.workspaces[w.name].content;
      FilesReadAlike(b.graph, g, content);
      assert Mount(target, content, "/", None, true) in mounts;
    }
  }

  /** The workspaces of a pipeline run, end to end: each step of a regular task finds under `/workspace`, by the name
      the task has for it, what the last binding of that workspace says. */
  lemma RegularWorkspacesShown(ctx: Context, run: string, bindings: seq<WorkspaceBinding>, spec: PipelineSpec,
                               compiled: Compiled, t: nat, j: nat, k: nat, i: nat)
    requires Ranges(ctx.lib) && CompileSpec(ctx, run, bindings, spec) == Done(compiled)
    requires t < |spec.tasks| && t < |compiled.steps| && j < |compiled.steps[t]|
    requires k < |spec.tasks[t].workspaces| && i < |bindings| && LastBinding(bindings, i)
    requires bindings[i].name == spec.tasks[t].workspaces[k].workspace
    ensures compiled.steps[t][j] < |compiled.graph| && compiled.graph[compiled.steps[t][j]].Exec?
    ensures WorkspaceShown(ctx, run, bindings[i], "/workspace/" + spec.tasks[t].workspaces[k].name, compiled.graph,
        compiled.graph[compiled.steps[t][j]].mounts)
  {
    hide CompileSpec, Translate, RunsAll, BindWorkspaces, BindingShown, WorkspaceShown, LastBinding;
    StepsRunAsAsked(ctx, run, bindings, spec);
    BindingsShown(ctx, run, Bound([], map[]), bindings);
    var b := BindWorkspaces(ctx, run, Bound([], map[]), bindings).value;
    var u := spec.tasks[t];
    assert RunsTask(compiled.graph, compiled.steps[t], TranslatedTask(ctx, b.workspaces, u));
    NoneRun(compiled.graph, compiled.steps[t]);
    var fns := TaskWorkspaces(b.workspaces, [], u.workspaces).value;
    WorkspacesInOrder(b.workspaces, [], u.workspaces);
    var use := u.workspaces[k];
    assert fns[k] == b.workspaces[use.workspace].At("/workspace/" + use.name);
    WorkspaceIsMounted(ctx, ResolveTask(ctx, u, "Taskref").value, TaskArgs(u.name, fns, u.timeout), compiled.graph,
      compiled.steps[t], j, fns[k]);
    NotOther(bindings, i);
    BoundIsShown(ctx, run, bindings[i], b, "/workspace/" + use.name, compiled.graph,
      compiled.graph[compiled.steps[t][j]].mounts);
  }

  lemma NotOther(bindings: seq<WorkspaceBinding>, i: nat)
    requires i < |bindings| && LastBinding(bindings, i)
    ensures !bindings[i].kind.OtherWorkspace?
  {
  }

  /** The same for finally tasks, for the workspaces that are bound. */
  lemma FinalWorkspacesShown(ctx: Context, run: string, bindings: seq<WorkspaceBinding>, spec: PipelineSpec,
                             compiled: Compiled, f: nat, j: nat, k: nat, i: nat)
    requires Ranges(ctx.lib) && CompileSpec(ctx, run, bindings, spec) == Done(compiled)
    requires f < |spec.finals| && f < |compiled.finals| && j < |compiled.finals[f]|
    requires k < |spec.finals[f].workspaces| && i < |bindings| && LastBinding(bindings, i)
    requires bindings[i].name == spec.finals[f].workspaces[k].workspace
    ensures compiled.finals[f][j] < |compiled.graph| && compiled.graph[compiled.finals[f][j]].Exec?
    ensures WorkspaceShown(ctx, run, bindings[i], "/workspace/" + spec.finals[f].workspaces[k].name, compiled.graph,
        compiled.graph[compiled.finals[f][j]].mounts)
  {
    hide CompileSpec, Translate, RunsAll, BindWorkspaces, WorkspaceShown, LastBinding;
    StepsRunAsAsked(ctx, run, bindings, spec);
    BindingsShown(ctx, run, Bound([], map[]), bindings);
    var b := BindWorkspaces(ctx, run, Bound([], map[]), bindings).value;
    var u := spec.finals[f];
    assert RunsTask(compiled.graph, compiled.finals[f], TranslatedFinal(ctx, b.workspaces, u));
    NotOther(bindings, i);
    var use := u.workspaces[k];
    assert BindingShown(ctx, run, bindings[i], b);
    assert use.workspace in b.workspaces;
    var fn := b.workspaces[use.workspace].At("/workspace/" + use.name);
    var fns := FinalWorkspaces(b.workspaces, [], u.workspaces);
    assert use in u.workspaces;
    FinalWorkspacesBound(b.workspaces, [], u.workspaces, fn);
    WorkspaceIsMounted(ctx, ResolveTask(ctx, u, "Finally Taskref").value,
      TaskArgs("finally/" + u.name, fns, u.timeout), compiled.graph, compiled.finals[f], j, fn);
    BoundIsShown(ctx, run, bindings[i], b, "/workspace/" + use.name, compiled.graph,
      compiled.graph[compiled.finals[f][j]].mounts);
  }
}
