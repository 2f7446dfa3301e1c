/** Go enumerates maps in any order; the compiled graph does not show it. */
module MapOrder {
  import opened Basics
  import opened Llb
  import opened Tekton
  import opened TaskRun
  import opened PipelineRun
  import opened FinalWiring

  /** The same mounts, perhaps in another order. */
  ghost predicate AlikeMounts(a: seq<Mount>, b: seq<Mount>) {
    forall m :: m in a <==> m in b
  }

  ghost predicate AlikeOp(a: Op, b: Op) {
    a == b || (a.Exec? && b.Exec? && a.rootfs == b.rootfs && a.process == b.process && AlikeMounts(a.mounts, b.mounts))
  }

  ghost predicate Alike(g: Graph, h: Graph) {
    |g| == |h| && forall k :: 0 <= k < |g| ==> AlikeOp(g[k], h[k])
  }

  /** The same process, waiting for the same operations and using the same caches in the same way. */
  ghost predicate SameEffect(a: Op, b: Op) {
    && Inputs(a) == Inputs(b) && Accesses(a) == Accesses(b) && Writes(a) == Writes(b)
    && a.Exec? == b.Exec?
    && (a.Exec? ==> a.process == b.process && a.rootfs == b.rootfs)
  }

  lemma AlikeMountsUse(a: seq<Mount>, b: seq<Mount>)
    requires AlikeMounts(a, b)
    ensures MountInputs(a) == MountInputs(b) && MountAccesses(a) == MountAccesses(b) && MountWrites(a) == MountWrites(b)
  {
  }

  lemma AlikeMeansSameEffect(a: Op, b: Op)
    requires AlikeOp(a, b)
    ensures SameEffect(a, b)
  {
    if a != b {
      AlikeMountsUse(a.mounts, b.mounts);
    }
  }

  /** Operations with the same effect are ordered the same way. */
  lemma {:induction false} SameOrder(g: Graph, h: Graph, a: OpId, b: OpId)
    requires WellFormed(g) && WellFormed(h) && |g| == |h| && b < |g|
    requires forall k :: 0 <= k < |g| ==> SameEffect(g[k], h[k])
    ensures Ancestor(g, a, b) <==> Ancestor(h, a, b)
    decreases b
  {
    assert SameEffect(g[b], h[b]) && WellFormedOp(g, b) && WellFormedOp(h, b);
    forall m | m in Inputs(g[b])
      ensures Ancestor(g, a, m) <==> Ancestor(h, a, m)
    {
      SameOrder(g, h, a, m);
    }
  }

  lemma AlikeConcat(x: seq<Mount>, a: seq<Mount>, b: seq<Mount>)
    requires AlikeMounts(a, b)
    ensures AlikeMounts(x + a, x + b)
  {
  }

  lemma StepAlike(g: Graph, h: Graph, step: PStep, i: nat, previous: State, m: seq<Mount>, n: seq<Mount>)
    requires Alike(g, h) && AlikeMounts(m, n)
    ensures Alike(EmitStep(g, step, i, previous, m), EmitStep(h, step, i, previous, n))
  {
    assert ScriptMount(g, step) == ScriptMount(h, step);
    var own := ScriptMount(g, step) + (ApplyAll(step.results, Scratch) + PreviousMount(i, previous)
               + ApplyAll(step.workspaces, Scratch) + ApplyAll(step.volumeMounts, Scratch));
    AlikeConcat(own, m, n);
    hide AlikeMounts, ScriptMount, ApplyAll, PreviousMount;
    assert StepMounts(g, step, i, previous, m) == own + m && StepMounts(h, step, i, previous, n) == own + n;
  }

  lemma {:induction false} StepsAlike(g: Graph, h: Graph, steps: seq<PStep>, m: seq<Mount>, n: seq<Mount>, k: nat)
    requires k <= |steps| && Alike(g, h) && AlikeMounts(m, n)
    ensures Alike(EmitSteps(g, steps, m, k).0, EmitSteps(h, steps, n, k).0)
    ensures EmitSteps(g, steps, m, k).1 == EmitSteps(h, steps, n, k).1
  {
    hide EmitStep, AlikeMounts, AlikeOp;
    if k > 0 {
      StepsAlike(g, h, steps, m, n, k - 1);
      var (g', ids) := EmitSteps(g, steps, m, k - 1);
      var (h', _) := EmitSteps(h, steps, n, k - 1);
      StepAlike(g', h', steps[k - 1], k - 1, if k > 1 then Output(ids[k - 2]) else Scratch, m, n);
    }
  }

  // ---------------------------------------------------------------- two contexts that differ in `range` only

  ghost function WithRange(ctx: Context, range: (string, set<string>) -> seq<string>): Context {
    ctx.(lib := ctx.lib.(range := range))
  }

  lemma {:induction false} SameEnv(ctx: Context, range: (string, set<string>) -> seq<string>, step: Step, n: nat)
    requires n <= |step.envFrom|
    ensures StepEnv(WithRange(ctx, range), step, n) == StepEnv(ctx, step, n)
  {
    hide Prefixed, Source;
    if n > 0 {
      SameEnv(ctx, range, step, n - 1);
    }
  }

  lemma {:induction false} SameMerge(ctx: Context, range: (string, set<string>) -> seq<string>, spec: TaskSpec, n: nat)
    requires n <= |spec.steps|
    ensures MergeSteps(WithRange(ctx, range).lib, spec, n) == MergeSteps(ctx.lib, spec, n)
  {
    if n > 0 {
      SameMerge(ctx, range, spec, n - 1);
    }
  }

  lemma SameStep(ctx: Context, range: (string, set<string>) -> seq<string>, spec: TaskSpec, task: TaskArgs, step: Step,
                 i: nat)
    ensures TranslateStep(WithRange(ctx, range), spec, task, step, i) == TranslateStep(ctx, spec, task, step, i)
  {
    SameEnv(ctx, range, step, |step.envFrom|);
    hide StepEnv;
    assert StepFile(WithRange(ctx, range).lib, step, task, i) == StepFile(ctx.lib, step, task, i);
  }

  lemma {:induction false} SameSteps(ctx: Context, range: (string, set<string>) -> seq<string>, spec: TaskSpec,
                                     task: TaskArgs, merged: seq<Step>, n: nat)
    requires n <= |merged|
    ensures TranslateSteps(WithRange(ctx, range), spec, task, merged, n) == TranslateSteps(ctx, spec, task, merged, n)
  {
    hide TranslateStep;
    if n > 0 {
      SameSteps(ctx, range, spec, task, merged, n - 1);
      SameStep(ctx, range, spec, task, merged[n - 1], n - 1);
    }
  }

  lemma SameTranslation(ctx: Context, range: (string, set<string>) -> seq<string>, spec: TaskSpec, task: TaskArgs)
    ensures Translate(WithRange(ctx, range), spec, task) == Translate(ctx, spec, task)
  {
    SameMerge(ctx, range, spec, |spec.steps|);
    var merged := MergeSteps(ctx.lib, spec, |spec.steps|);
    if merged.Ok? {
      SameSteps(ctx, range, spec, task, merged.value, |merged.value|);
    }
  }

  lemma {:induction false} SameWorkspaces(ctx: Context, range: (string, set<string>) -> seq<string>, run: string,
                                          b: Bound, ws: seq<WorkspaceBinding>)
    ensures BindWorkspaces(WithRange(ctx, range), run, b, ws) == BindWorkspaces(ctx, run, b, ws)
    decreases |ws|
  {
    if ws != [] {
      assert BindWorkspace(WithRange(ctx, range), run, b, ws[0]) == BindWorkspace(ctx, run, b, ws[0]);
      var next := BindWorkspace(ctx, run, b, ws[0]);
      hide BindWorkspace;
      if next.Done? {
        SameWorkspaces(ctx, range, run, next.value, ws[1..]);
      }
    }
  }

  lemma SameTask(ctx: Context, range: (string, set<string>) -> seq<string>, workspaces: map<string, WorkspaceSource>,
                 p: Progress, t: PipelineTask)
    ensures CompileTask(WithRange(ctx, range), workspaces, p, t) == CompileTask(ctx, workspaces, p, t)
  {
    hide Translate, EmitSteps;
    assert ResolveTask(WithRange(ctx, range), t, "Taskref") == ResolveTask(ctx, t, "Taskref");
    var spec, fns := ResolveTask(ctx, t, "Taskref"), TaskWorkspaces(workspaces, [], t.workspaces);
    if spec.Done? && fns.Done? {
      SameTranslation(ctx, range, spec.value, TaskArgs(t.name, fns.value, t.timeout));
    }
  }

  lemma {:induction false} SameTasks(ctx: Context, range: (string, set<string>) -> seq<string>, workspaces: map<string,
                                     WorkspaceSource>, p: Progress, ts: seq<PipelineTask>)
    ensures CompileTasks(WithRange(ctx, range), workspaces, p, ts) == CompileTasks(ctx, workspaces, p, ts)
    decreases |ts|
  {
    hide CompileTask;
    if ts != [] {
      SameTask(ctx, range, workspaces, p, ts[0]);
      var next := CompileTask(ctx, workspaces, p, ts[0]);
      if next.Done? {
        SameTasks(ctx, range, workspaces, next.value, ts[1..]);
      }
    }
  }

  /** Finally tasks compiled from alike graphs, behind alike mounts. */
  ghost predicate AlikeFinals(a: Outcome<Finals>, b: Outcome<Finals>) {
    if a.Done? && b.Done? then Alike(a.value.graph, b.value.graph) && a.value.tasks == b.value.tasks
      && a.value.steps == b.value.steps
    else a == b
  }

  lemma FinalAlike(ctx: Context, range: (string, set<string>) -> seq<string>, workspaces: map<string, WorkspaceSource>,
                   m: seq<Mount>, n: seq<Mount>, f: Finals, h: Graph, t: PipelineTask)
    requires AlikeMounts(m, n) && Alike(f.graph, h)
    ensures AlikeFinals(CompileFinal(ctx, workspaces, m, f, t),
        CompileFinal(WithRange(ctx, range), workspaces, n, f.(graph := h), t))
  {
    hide Translate, EmitSteps, AlikeMounts, AlikeOp;
    assert ResolveTask(WithRange(ctx, range), t, "Finally Taskref") == ResolveTask(ctx, t, "Finally Taskref");
    var spec := ResolveTask(ctx, t, "Finally Taskref");
    if spec.Done? {
      var task := TaskArgs("finally/" + t.name, FinalWorkspaces(workspaces, [], t.workspaces), t.timeout);
      SameTranslation(ctx, range, spec.value, task);
      var steps := Translate(ctx, spec.value, task);
      if steps.Ok? {
        StepsAlike(f.graph, h, steps.value, m, n, |steps.value|);
      }
    }
  }

  lemma {:induction false} FinalsAlike(ctx: Context, range: (string, set<string>) -> seq<string>,
                                       workspaces: map<string, WorkspaceSource>, m: seq<Mount>, n: seq<Mount>,
                                       f: Finals, h: Graph, ts: seq<PipelineTask>)
    requires AlikeMounts(m, n) && Alike(f.graph, h)
    ensures AlikeFinals(CompileFinals(ctx, workspaces, m, f, ts),
        CompileFinals(WithRange(ctx, range), workspaces, n, f.(graph := h), ts))
    decreases |ts|
  {
    hide CompileFinal, AlikeMounts, AlikeOp;
    if ts != [] {
      FinalAlike(ctx, range, workspaces, m, n, f, h, ts[0]);
      var a := CompileFinal(ctx, workspaces, m, f, ts[0]);
      var b := CompileFinal(WithRange(ctx, range), workspaces, n, f.(graph := h), ts[0]);
      if a.Done? && b.Done? {
        assert b.value == a.value.(graph := b.value.graph);
        FinalsAlike(ctx, range, workspaces, m, n, a.value, b.value.graph, ts[1..]);
      }
    }
  }

  // ---------------------------------------------------------------- the enumerations themselves

  lemma {:induction false} InFinalMounts(tasks: map<string, seq<State>>, mounts: seq<Mount>, order: seq<string>,
                                         m: Mount)
    ensures m in FinalMounts(tasks, mounts, order) <==> m in mounts || exists a ::
          a in order && m in TaskMounts(tasks, a)
    decreases |order|
  {
    if order != [] {
      InFinalMounts(tasks, mounts + TaskMounts(tasks, order[0]), order[1..], m);
      assert forall a :: a in order <==> a == order[0] || a in order[1..];
    }
  }

  lemma FinalMountsAlike(tasks: map<string, seq<State>>, order: seq<string>, order': seq<string>)
    requires Enumerates(order, tasks.Keys) && Enumerates(order', tasks.Keys)
    ensures AlikeMounts(FinalMounts(tasks, [], order), FinalMounts(tasks, [], order'))
  {
    forall m
      ensures m in FinalMounts(tasks, [], order) <==> m in FinalMounts(tasks, [], order')
    {
      InFinalMounts(tasks, [], order, m);
      InFinalMounts(tasks, [], order', m);
      assert forall a :: a in order <==> a in order';
    }
  }

  ghost predicate CollectedFrom(tasks: map<string, seq<State>>, prefix: string, order: seq<string>, m: Mount) {
    exists a :: a in order && a in tasks && tasks[a] != [] && m == SharedResults("/task/" + prefix + a, prefix + a)
  }

  ghost predicate EndsIn(tasks: map<string, seq<State>>, order: seq<string>, s: State) {
    exists a :: a in order && a in tasks && tasks[a] != [] && s == Last(tasks[a])
  }

  lemma {:induction false} InCollected(c: Collected, tasks: map<string, seq<State>>, prefix: string, order: seq<string>,
                                       m: Mount, s: State)
    ensures m in Collect(c, tasks, prefix, order).caches <==> m in c.caches || CollectedFrom(tasks, prefix, order, m)
    ensures s in Collect(c, tasks, prefix, order).states <==> s in c.states || EndsIn(tasks, order, s)
    decreases |order|
  {
    if order != [] {
      InCollected(CollectTask(c, tasks, prefix, order[0]), tasks, prefix, order[1..], m, s);
      assert forall a :: a in order <==> a == order[0] || a in order[1..];
    }
  }

  ghost predicate AlikeCollected(a: Collected, b: Collected) {
    AlikeMounts(a.caches, b.caches) && forall s :: s in a.states <==> s in b.states
  }

  lemma CollectAlike(a: Collected, b: Collected, tasks: map<string, seq<State>>, prefix: string, order: seq<string>,
                     order': seq<string>)
    requires AlikeCollected(a, b) && Enumerates(order, tasks.Keys) && Enumerates(order', tasks.Keys)
    ensures AlikeCollected(Collect(a, tasks, prefix, order), Collect(b, tasks, prefix, order'))
  {
    assert forall x :: x in order <==> x in order';
    var x, y := Collect(a, tasks, prefix, order), Collect(b, tasks, prefix, order');
    forall m
      ensures m in x.caches <==> m in y.caches
    {
      InCollected(a, tasks, prefix, order, m, Scratch);
      InCollected(b, tasks, prefix, order', m, Scratch);
    }
    forall s
      ensures s in x.states <==> s in y.states
    {
      InCollected(a, tasks, prefix, order, Mount("", Scratch, "", None, false), s);
      InCollected(b, tasks, prefix, order', Mount("", Scratch, "", None, false), s);
    }
  }

  lemma CollectAllAlike(lib: Library, range: (string, set<string>) -> seq<string>, tasks: map<string, seq<State>>,
                        finals: map<string, seq<State>>)
    requires Ranges(lib) && Ranges(lib.(range := range))
    ensures AlikeCollected(CollectAll(lib, tasks, finals), CollectAll(lib.(range := range), tasks, finals))
  {
    var other := lib.(range := range);
    assert other.range == range;
    var o1, o2 := lib.range("collect", tasks.Keys), other.range("collect", tasks.Keys);
    var p1, p2 := lib.range("collect finally", finals.Keys), other.range("collect finally", finals.Keys);
    assert Enumerates(o1, tasks.Keys) && Enumerates(o2, tasks.Keys) && Enumerates(p1, finals.Keys)
      && Enumerates(p2, finals.Keys);
    hide Enumerates, Collect;
    CollectAlike(Collected([], []), Collected([], []), tasks, "", o1, o2);
    CollectAlike(Collect(Collected([], []), tasks, "", o1), Collect(Collected([], []), tasks, "", o2), finals,
      "finally/", p1, p2);
  }

  /** The same cache mounts: target, cache identifier and all. */
  ghost predicate SameCacheMounts(a: Op, b: Op) {
    a.Exec? && b.Exec? && forall m :: IsCacheMount(m) ==> (m in a.mounts <==> m in b.mounts)
  }

  predicate IsCacheMount(m: Mount) {
    m.cacheId.Some?
  }

  lemma CachesOfRoot(g: Graph, c: Collected)
    ensures var h := EmitRoot(g, c);
            h[|h| - 1].Exec? && forall m :: IsCacheMount(m) ==> (m in h[|h| - 1].mounts <==> m in c.caches)
  {
  }

  lemma RootMountsAlike(g: Graph, h: Graph, a: Collected, b: Collected)
    requires AlikeCollected(a, b)
    ensures var x, y := EmitRoot(g, a), EmitRoot(h, b); SameCacheMounts(x[|x| - 1], y[|y| - 1])
  {
    CachesOfRoot(g, a);
    CachesOfRoot(h, b);
    hide EmitRoot;
  }

  lemma SameStates(s: seq<State>, t: seq<State>)
    requires forall x :: x in s <==> x in t
    ensures StateInputs(s) == StateInputs(t)
  {
  }

  lemma RootsAlike(g: Graph, h: Graph, a: Collected, b: Collected)
    requires Alike(g, h) && AlikeCollected(a, b)
    ensures var x, y := EmitRoot(g, a), EmitRoot(h, b);
            && |x| == |y| && (forall k :: 0 <= k < |x| - 1 ==> AlikeOp(x[k], y[k]))
            && SameEffect(x[|x| - 1], y[|x| - 1]) && SameCacheMounts(x[|x| - 1], y[|x| - 1])
  {
    hide SameCacheMounts;
    RootMountsAlike(g, h, a, b);
    DependencyMountsAre(a.states);
    DependencyMountsAre(b.states);
    MountsConcat(DependencyMounts(a.states), a.caches);
    MountsConcat(DependencyMounts(b.states), b.caches);
    AlikeMountsUse(a.caches, b.caches);
    SameStates(a.states, b.states);
    hide DependencyMounts, StateInputs, MountInputs, MountAccesses, MountWrites, AlikeMounts;
  }

  // ---------------------------------------------------------------- the theorem

  /** The outcomes of two compilations agree up to the order of mounts. */
  ghost predicate AlikeCompiled(a: Outcome<Compiled>, b: Outcome<Compiled>) {
    if a.Done? && b.Done? then
      var c, d := a.value, b.value;
      && c.root == d.root && c.steps == d.steps && c.finals == d.finals
      && |c.graph| == |d.graph| == c.root + 1
      && (forall k :: 0 <= k < c.root ==> AlikeOp(c.graph[k], d.graph[k]))
      && SameEffect(c.graph[c.root], d.graph[c.root]) && SameCacheMounts(c.graph[c.root], d.graph[c.root])
    else a == b
  }

  /** Map-iteration independence: whatever order each `range` takes, compilation has the same outcome; if it
      completes, every operation has the same process and environment, the same set of mounts (the collecting step: the
      same inputs and the same cache mounts, its dependencies being numbered as they come), and the same ancestors. */
  lemma RangeOrderDoesNotMatter(ctx: Context, range: (string, set<string>) -> seq<string>, run: string,
                                bindings: seq<WorkspaceBinding>, spec: PipelineSpec)
    requires Ranges(ctx.lib) && Ranges(WithRange(ctx, range).lib)
    ensures AlikeCompiled(CompileSpec(ctx, run, bindings, spec),
        CompileSpec(WithRange(ctx, range), run, bindings, spec))
  {
    hide CompileTasks, CompileFinals, EmitRoot, CollectAll, FinalMounts, BindWorkspaces, AlikeOp, SameEffect,
      SameCacheMounts, Enumerates;
    var other := WithRange(ctx, range);
    SameWorkspaces(ctx, range, run, Bound([], map[]), bindings);
    var b := BindWorkspaces(ctx, run, Bound([], map[]), bindings);
    if b.Done? {
      var start := Progress(b.value.graph, map[], map[], []);
      SameTasks(ctx, range, b.value.workspaces, start, spec.tasks);
      var p := CompileTasks(ctx, b.value.workspaces, start, spec.tasks);
      if p.Done? {
        var tasks := p.value.tasks;
        var order, order' := ctx.lib.range("finally", tasks.Keys), other.lib.range("finally", tasks.Keys);
        assert Enumerates(order, tasks.Keys) && Enumerates(order', tasks.Keys);
        FinalMountsAlike(tasks, order, order');
        FinalPartAlike(ctx, range, b.value.workspaces, spec, p.value,
                       if spec.finals != [] then FinalMounts(tasks, [], order) else [],
                       if spec.finals != [] then FinalMounts(tasks, [], order') else []);
      }
    }
  }

  lemma FinalPartAlike(ctx: Context, range: (string, set<string>) -> seq<string>, workspaces: map<string,
                       WorkspaceSource>, spec: PipelineSpec, p: Progress, m: seq<Mount>, n: seq<Mount>)
    requires Ranges(ctx.lib) && Ranges(WithRange(ctx, range).lib) && AlikeMounts(m, n)
    ensures var f, h := CompileFinals(ctx, workspaces, m, Finals(p.graph, map[], []), spec.finals),
        CompileFinals(WithRange(ctx, range), workspaces, n, Finals(p.graph, map[], []), spec.finals);
            if f.Done? && h.Done? then
              var x, y := EmitRoot(f.value.graph, CollectAll(ctx.lib, p.tasks, f.value.tasks)),
                EmitRoot(h.value.graph, CollectAll(WithRange(ctx, range).lib, p.tasks, h.value.tasks));
              AlikeCompiled(Done(Compiled(x, |x| - 1, p.steps, f.value.steps)),
                Done(Compiled(y, |y| - 1, p.steps, h.value.steps)))
            else !f.Done? && !h.Done? && f == h
  {
    var start := Finals(p.graph, map[], []);
    FinalsAlike(ctx, range, workspaces, m, n, start, p.graph, spec.finals);
    var f := CompileFinals(ctx, workspaces, m, start, spec.finals);
    var h := CompileFinals(WithRange(ctx, range), workspaces, n, start, spec.finals);
    if f.Done? && h.Done? {
      var tasks := f.value.tasks;
      CollectAllAlike(ctx.lib, range, p.tasks, tasks);
      RootsAlike(f.value.graph, h.value.graph, CollectAll(ctx.lib, p.tasks, tasks),
        CollectAll(WithRange(ctx, range).lib, p.tasks, tasks));
    }
  }

  /** In particular the ancestor relation is the same. */
  lemma RangeOrderDoesNotReorder(ctx: Context, range: (string, set<string>) -> seq<string>, run: string,
                                 bindings: seq<WorkspaceBinding>, spec: PipelineSpec, a: OpId, b: OpId)
    requires Ranges(ctx.lib) && Ranges(WithRange(ctx, range).lib)
    requires CompileSpec(ctx, run, bindings, spec).Done?
    ensures CompileSpec(WithRange(ctx, range), run, bindings, spec).Done?
    ensures Before(CompileSpec(ctx, run, bindings, spec).value.graph, a, b) <==>
        Before(CompileSpec(WithRange(ctx, range), run, bindings, spec).value.graph, a, b)
  {
    hide CompileSpec, AlikeOp, SameEffect;
    RangeOrderDoesNotMatter(ctx, range, run, bindings, spec);
    CompiledIsWired(ctx, run, bindings, spec);
    CompiledIsWired(WithRange(ctx, range), run, bindings, spec);
    var g, h := CompileSpec(ctx, run, bindings, spec).value.graph,
      CompileSpec(WithRange(ctx, range), run, bindings, spec).value.graph;
    forall k | 0 <= k < |g|
      ensures SameEffect(g[k], h[k])
    {
      if k < |g| - 1 {
        AlikeMeansSameEffect(g[k], h[k]);
      }
    }
    if a < |g| && b < |g| {
      SameOrder(g, h, a, b);
    }
  }
}
