/** The finally tasks and the collecting root, and with them the wiring of the whole graph. */
module FinalWiring {
  import opened Basics
  import opened Llb
  import opened Tekton
  import opened TaskRun
  import opened PipelineRun
  import opened Wiring
  import opened PipelineWiring

  // ---------------------------------------------------------------- what the maps by name end in

  ghost function EndOf(tasks: map<string, seq<State>>, a: string): set<OpId> {
    if a in tasks && tasks[a] != [] then StateInput(Last(tasks[a])) else {}
  }

  ghost function EndsOf(tasks: map<string, seq<State>>, names: seq<string>): set<OpId> {
    set a, e | a in names && e in EndOf(tasks, a) :: e
  }

  ghost function EndResultsOf(tasks: map<string, seq<State>>, prefix: string, names: seq<string>): set<string> {
    set a | a in names && a in tasks && tasks[a] != [] :: prefix + a + "/results"
  }

  ghost function EndResult(tasks: map<string, seq<State>>, prefix: string, a: string): set<string> {
    if a in tasks && tasks[a] != [] then {prefix + a + "/results"} else {}
  }

  lemma EndsSplit(tasks: map<string, seq<State>>, prefix: string, names: seq<string>)
    requires names != []
    ensures EndsOf(tasks, names) == EndOf(tasks, names[0]) + EndsOf(tasks, names[1..])
    ensures EndResultsOf(tasks, prefix, names) == EndResult(tasks, prefix, names[0])
        + EndResultsOf(tasks, prefix, names[1..])
  {
    assert forall x :: x in names <==> x == names[0] || x in names[1..];
  }

  lemma TaskMountsAre(tasks: map<string, seq<State>>, mounts: seq<Mount>, a: string)
    ensures var more := mounts + TaskMounts(tasks, a);
            && MountInputs(more) == MountInputs(mounts) + EndOf(tasks, a)
            && MountAccesses(more) == MountAccesses(mounts) + EndResult(tasks, "", a)
            && MountWrites(more) == MountWrites(mounts)
  {
    var ms := TaskMounts(tasks, a);
    assert ms != [] ==> ms[0] in ms && ms[1] in ms;
    assert "" + a == a;
    MountsConcat(mounts, ms);
    assert MountInputs(ms) == EndOf(tasks, a);
    assert MountAccesses(ms) == EndResult(tasks, "", a);
    assert MountWrites(ms) == {};
  }

  lemma {:induction false} FinalMountsAre(tasks: map<string, seq<State>>, mounts: seq<Mount>, order: seq<string>)
    ensures var r := FinalMounts(tasks, mounts, order);
            && MountInputs(r) == MountInputs(mounts) + EndsOf(tasks, order)
            && MountAccesses(r) == MountAccesses(mounts) + EndResultsOf(tasks, "", order)
            && MountWrites(r) == MountWrites(mounts)
    decreases |order|
  {
    if order != [] {
      var a := order[0];
      TaskMountsAre(tasks, mounts, a);
      EndsSplit(tasks, "", order);
      hide MountInputs, MountAccesses, MountWrites, TaskMounts, EndOf, EndsOf, EndResult, EndResultsOf;
      FinalMountsAre(tasks, mounts + TaskMounts(tasks, a), order[1..]);
      UnionAssociates(MountInputs(mounts), EndOf(tasks, a), EndsOf(tasks, order[1..]));
      UnionAssociates(MountAccesses(mounts), EndResult(tasks, "", a), EndResultsOf(tasks, "", order[1..]));
    }
  }

  ghost function StateInputs(states: seq<State>): set<OpId> {
    set s | s in states && s.Output? :: s.op
  }

  lemma CollectedTask(c: Collected, tasks: map<string, seq<State>>, prefix: string, a: string)
    ensures var d := CollectTask(c, tasks, prefix, a);
            && StateInputs(d.states) == StateInputs(c.states) + EndOf(tasks, a)
            && MountInputs(d.caches) == MountInputs(c.caches)
            && MountAccesses(d.caches) == MountAccesses(c.caches) + EndResult(tasks, prefix, a)
            && MountWrites(d.caches) == MountWrites(c.caches)
  {
    if a in tasks && tasks[a] != [] {
      var m := SharedResults("/task/" + prefix + a, prefix + a);
      MountsConcat(c.caches, [m]);
      assert m in [m];
      assert MountAccesses([m]) == {prefix + a + "/results"} && MountInputs([m]) == {} && MountWrites([m]) == {};
      assert forall s :: s in c.states + [Last(tasks[a])] <==> s in c.states || s == Last(tasks[a]);
    }
  }

  lemma {:induction false} CollectedAre(c: Collected, tasks: map<string, seq<State>>, prefix: string,
                                        order: seq<string>)
    ensures var d := Collect(c, tasks, prefix, order);
            && StateInputs(d.states) == StateInputs(c.states) + EndsOf(tasks, order)
            && MountInputs(d.caches) == MountInputs(c.caches)
            && MountAccesses(d.caches) == MountAccesses(c.caches) + EndResultsOf(tasks, prefix, order)
            && MountWrites(d.caches) == MountWrites(c.caches)
    decreases |order|
  {
    if order != [] {
      var a := order[0];
      CollectedTask(c, tasks, prefix, a);
      EndsSplit(tasks, prefix, order);
      hide MountInputs, MountAccesses, MountWrites, StateInputs, CollectTask, EndOf, EndsOf, EndResult, EndResultsOf;
      CollectedAre(CollectTask(c, tasks, prefix, a), tasks, prefix, order[1..]);
      UnionAssociates(StateInputs(c.states), EndOf(tasks, a), EndsOf(tasks, order[1..]));
      UnionAssociates(MountAccesses(c.caches), EndResult(tasks, prefix, a), EndResultsOf(tasks, prefix, order[1..]));
    }
  }

  // ---------------------------------------------------------------- the same by position

  /** Task `t` is still what its name stands for after `k` tasks, and it has steps. */
  ghost predicate Current(ts: seq<PipelineTask>, steps: seq<seq<OpId>>, k: nat, t: nat)
    requires k <= |steps| && k <= |ts|
  {
    t < k && Resolve(ts, k, ts[t].name) == Some(t) && steps[t] != []
  }

  /** The last steps of all compiled regular tasks, and their results caches. */
  ghost function RegularEnds(ts: seq<PipelineTask>, steps: seq<seq<OpId>>): set<OpId>
    requires |steps| == |ts|
  {
    set t, e | 0 <= t < |ts| && Current(ts, steps, |ts|, t) && e in LastOf(steps[t]) :: e
  }

  ghost function RegularResults(ts: seq<PipelineTask>, steps: seq<seq<OpId>>): set<string>
    requires |steps| == |ts|
  {
    set t | 0 <= t < |ts| && Current(ts, steps, |ts|, t) :: ts[t].name + "/results"
  }

  lemma RegularByName(ts: seq<PipelineTask>, steps: seq<seq<OpId>>, tasks: map<string, seq<State>>, order: seq<string>)
    requires |steps| == |ts| && NamesResolve(ts, |ts|, tasks, steps) && Enumerates(order, tasks.Keys)
    ensures EndsOf(tasks, order) == RegularEnds(ts, steps)
    ensures EndResultsOf(tasks, "", order) == RegularResults(ts, steps)
  {
    var n := |ts|;
    forall a | a in tasks
      ensures EndOf(tasks, a) == LastOf(steps[Resolve(ts, n, a).value])
      ensures tasks[a] != [] <==> Current(ts, steps, n, Resolve(ts, n, a).value)
      ensures "" + a == a
    {
      var ids := steps[Resolve(ts, n, a).value];
      assert tasks[a] == Outputs(ids) && |Outputs(ids)| == |ids|;
    }
    forall t | 0 <= t < n && Current(ts, steps, n, t)
      ensures ts[t].name in order && ts[t].name in tasks
    {
    }
    EqualSets(EndsOf(tasks, order), RegularEnds(ts, steps));
    EqualSets(EndResultsOf(tasks, "", order), RegularResults(ts, steps));
  }

  lemma EqualSets<T>(a: set<T>, b: set<T>)
    requires forall x :: x in a <==> x in b
    ensures a == b
  {
  }

  /** The finally task a name stands for after the first `k`. */
  ghost function ResolveFinal(fs: seq<PipelineTask>, k: nat, a: string): (r: Option<nat>)
    requires k <= |fs|
    ensures r.Some? ==> r.value < k && fs[r.value].name == a
  {
    if k == 0 then None else if fs[k - 1].name == a then Some(k - 1) else ResolveFinal(fs, k - 1, a)
  }

  ghost predicate CurrentFinal(fs: seq<PipelineTask>, steps: seq<seq<OpId>>, k: nat, t: nat)
    requires k <= |steps| && k <= |fs|
  {
    t < k && ResolveFinal(fs, k, fs[t].name) == Some(t) && steps[t] != []
  }

  ghost predicate FinalNamesResolve(fs: seq<PipelineTask>, k: nat, tasks: map<string, seq<State>>,
                                    steps: seq<seq<OpId>>)
    requires k <= |steps| && k <= |fs|
  {
    && (forall a :: a in tasks <==> ResolveFinal(fs, k, a).Some?)
    && (forall a :: a in tasks ==> tasks[a] == Outputs(steps[ResolveFinal(fs, k, a).value]))
  }

  ghost function FinalEnds(fs: seq<PipelineTask>, steps: seq<seq<OpId>>): set<OpId>
    requires |steps| == |fs|
  {
    set t, e | 0 <= t < |fs| && CurrentFinal(fs, steps, |fs|, t) && e in LastOf(steps[t]) :: e
  }

  ghost function FinalResults(fs: seq<PipelineTask>, steps: seq<seq<OpId>>): set<string>
    requires |steps| == |fs|
  {
    set t | 0 <= t < |fs| && CurrentFinal(fs, steps, |fs|, t) :: "finally/" + fs[t].name + "/results"
  }

  lemma FinalByName(fs: seq<PipelineTask>, steps: seq<seq<OpId>>, tasks: map<string, seq<State>>, order: seq<string>)
    requires |steps| == |fs| && FinalNamesResolve(fs, |fs|, tasks, steps) && Enumerates(order, tasks.Keys)
    ensures EndsOf(tasks, order) == FinalEnds(fs, steps)
    ensures EndResultsOf(tasks, "finally/", order) == FinalResults(fs, steps)
  {
    var n := |fs|;
    forall a | a in tasks
      ensures EndOf(tasks, a) == LastOf(steps[ResolveFinal(fs, n, a).value])
      ensures tasks[a] != [] <==> CurrentFinal(fs, steps, n, ResolveFinal(fs, n, a).value)
    {
      var ids := steps[ResolveFinal(fs, n, a).value];
      assert tasks[a] == Outputs(ids) && |Outputs(ids)| == |ids|;
    }
    forall t | 0 <= t < n && CurrentFinal(fs, steps, n, t)
      ensures fs[t].name in order && fs[t].name in tasks
    {
    }
    EqualSets(EndsOf(tasks, order), FinalEnds(fs, steps));
    EqualSets(EndResultsOf(tasks, "finally/", order), FinalResults(fs, steps));
  }

  lemma FinalNamesStillResolve(fs: seq<PipelineTask>, k: nat, tasks: map<string, seq<State>>, steps: seq<seq<OpId>>,
                               ids: seq<OpId>)
    requires k == |steps| < |fs| && FinalNamesResolve(fs, k, tasks, steps)
    ensures FinalNamesResolve(fs, k + 1, tasks[fs[k].name := Outputs(ids)], steps + [ids])
  {
    var more, tasks' := steps + [ids], tasks[fs[k].name := Outputs(ids)];
    forall a
      ensures a in tasks' <==> ResolveFinal(fs, k + 1, a).Some?
      ensures a in tasks' ==> tasks'[a] == Outputs(more[ResolveFinal(fs, k + 1, a).value])
    {
      if fs[k].name == a {
        assert ResolveFinal(fs, k + 1, a) == Some(k);
      } else {
        assert ResolveFinal(fs, k + 1, a) == ResolveFinal(fs, k, a);
      }
    }
  }

  // ---------------------------------------------------------------- finally tasks

  ghost predicate FinalTask(fs: seq<PipelineTask>, g: Graph, workspaces: map<string, WorkspaceSource>,
                            steps: seq<seq<OpId>>, t: nat, barrier: set<OpId>, read: set<string>)
    requires t < |steps| <= |fs|
  {
    && Increasing(steps[t])
    && Chain(g, steps[t], barrier)
    && CacheUses(g, steps[t], "finally/" + fs[t].name, SharedBy(workspaces, fs[t].workspaces), read)
  }

  ghost predicate FinalTasks(fs: seq<PipelineTask>, g: Graph, workspaces: map<string, WorkspaceSource>,
                             steps: seq<seq<OpId>>, barrier: set<OpId>, read: set<string>)
    requires |steps| <= |fs|
  {
    forall t :: 0 <= t < |steps| ==> FinalTask(fs, g, workspaces, steps, t, barrier, read)
  }

  /** `regular` are the operations of the regular tasks, compiled into `base`. */
  ghost predicate FinalsWired(fs: seq<PipelineTask>, workspaces: map<string, WorkspaceSource>, base: Graph,
                              regular: seq<seq<OpId>>, mounts: seq<Mount>, f: Finals)
  {
    && |f.steps| <= |fs|
    && WellFormed(f.graph) && base <= f.graph
    && FromFiles(f.graph, workspaces)
    && WaitsFor(f.graph, mounts)
    && FinalNamesResolve(fs, |f.steps|, f.tasks, f.steps)
    && FinalTasks(fs, f.graph, workspaces, f.steps, MountInputs(mounts), MountAccesses(mounts))
    && Consecutive(regular + f.steps)
    && AllOwned(f.graph, regular + f.steps)
  }

  lemma FinalTasksStay(fs: seq<PipelineTask>, g: Graph, h: Graph, workspaces: map<string, WorkspaceSource>,
                       steps: seq<seq<OpId>>, more: seq<seq<OpId>>, barrier: set<OpId>, read: set<string>)
    requires |steps| <= |more| <= |fs| && steps <= more && WellFormed(g) && g <= h
    requires FinalTasks(fs, g, workspaces, steps, barrier, read)
    ensures forall t :: 0 <= t < |steps| ==> FinalTask(fs, h, workspaces, more, t, barrier, read)
  {
    forall t | 0 <= t < |steps|
      ensures FinalTask(fs, h, workspaces, more, t, barrier, read)
    {
      assert FinalTask(fs, g, workspaces, steps, t, barrier, read);
      ChainStays(g, h, steps[t], barrier);
    }
  }

  lemma EmittedFinalWired(fs: seq<PipelineTask>, workspaces: map<string, WorkspaceSource>, base: Graph,
                          regular: seq<seq<OpId>>, mounts: seq<Mount>, f: Finals, h: Graph, ids: seq<OpId>)
    requires |f.steps| < |fs| && FinalsWired(fs, workspaces, base, regular, mounts, f)
    requires TaskWired(f.graph, h, ids, MountInputs(mounts))
    requires CacheUses(h, ids, "finally/" + fs[|f.steps|].name, SharedBy(workspaces, fs[|f.steps|].workspaces),
        MountAccesses(mounts))
    ensures FinalsWired(fs, workspaces, base, regular, mounts,
        Finals(h, f.tasks[fs[|f.steps|].name := Outputs(ids)], f.steps + [ids]))
  {
    hide MountInputs, MountAccesses, Chain, CacheUses;
    var k, more := |f.steps|, f.steps + [ids];
    FinalTasksStay(fs, f.graph, h, workspaces, f.steps, more, MountInputs(mounts), MountAccesses(mounts));
    FinalNamesStillResolve(fs, k, f.tasks, f.steps, ids);
    ChainProcesses(h, ids, MountInputs(mounts));
    OwnedGrows(f.graph, h, regular + f.steps, ids);
    assert (regular + f.steps) + [ids] == regular + more;
    assert FinalTask(fs, h, workspaces, more, k, MountInputs(mounts), MountAccesses(mounts));
  }

  lemma ChainProcesses(g: Graph, ids: seq<OpId>, extra: set<OpId>)
    requires Chain(g, ids, extra)
    ensures forall j :: 0 <= j < |ids| ==> ids[j] < |g| && g[ids[j]].Exec?
  {
  }

  lemma FinalCompiled(ctx: Context, workspaces: map<string, WorkspaceSource>, base: Graph, regular: seq<seq<OpId>>,
                      mounts: seq<Mount>, f: Finals, fs: seq<PipelineTask>)
    requires |f.steps| < |fs| && FinalsWired(fs, workspaces, base, regular, mounts, f) && MountWrites(mounts) == {}
    requires CompileFinal(ctx, workspaces, mounts, f, fs[|f.steps|]).Done?
    ensures var q := CompileFinal(ctx, workspaces, mounts, f, fs[|f.steps|]).value;
            FinalsWired(fs, workspaces, base, regular, mounts, q) && |q.steps| == |f.steps| + 1
  {
    hide Translate, EmitSteps, FinalTasks, Chain, CacheUses, WorkspaceFns, FinalNamesResolve, MountInputs,
      MountAccesses, MountWrites, SharedBy;
    var t := fs[|f.steps|];
    var spec := ResolveTask(ctx, t, "Finally Taskref").value;
    var fns := FinalWorkspaces(workspaces, [], t.workspaces);
    var task := TaskArgs("finally/" + t.name, fns, t.timeout);
    var steps := Translate(ctx, spec, task).value;
    NoWorkspaceFns(f.graph);
    FinalWorkspacesAre(f.graph, workspaces, [], {}, t.workspaces);
    assert {} + SharedBy(workspaces, t.workspaces) == SharedBy(workspaces, t.workspaces);
    TaskEmitted(ctx, f.graph, spec, task, SharedBy(workspaces, t.workspaces), mounts);
    var (h, ids) := EmitSteps(f.graph, steps, mounts, |steps|);
    EmittedFinalWired(fs, workspaces, base, regular, mounts, f, h, ids);
  }

  lemma {:induction false} FinalsCompiled(ctx: Context, workspaces: map<string, WorkspaceSource>, base: Graph,
                                          regular: seq<seq<OpId>>, mounts: seq<Mount>, f: Finals, fs: seq<PipelineTask>)
    requires |f.steps| <= |fs| && FinalsWired(fs, workspaces, base, regular, mounts, f) && MountWrites(mounts) == {}
    requires CompileFinals(ctx, workspaces, mounts, f, fs[|f.steps|..]).Done?
    ensures var q := CompileFinals(ctx, workspaces, mounts, f, fs[|f.steps|..]).value;
            FinalsWired(fs, workspaces, base, regular, mounts, q) && |q.steps| == |fs|
    decreases |fs| - |f.steps|
  {
    hide CompileFinal, FinalsWired, MountWrites;
    var k := |f.steps|;
    if k < |fs| {
      assert fs[k..][0] == fs[k] && fs[k..][1..] == fs[k + 1..];
      FinalCompiled(ctx, workspaces, base, regular, mounts, f, fs);
      FinalsCompiled(ctx, workspaces, base, regular, mounts, CompileFinal(ctx, workspaces, mounts, f, fs[k]).value, fs);
    }
  }

  // ---------------------------------------------------------------- the whole graph

  /** All operations of the compiled pipeline, task by task, the collecting step last. */
  ghost function AllSteps(c: Compiled): seq<seq<OpId>> {
    c.steps + c.finals + [[c.root]]
  }

  ghost predicate RootWired(spec: PipelineSpec, c: Compiled)
    requires |c.steps| == |spec.tasks| && |c.finals| == |spec.finals|
  {
    && c.root < |c.graph| && c.graph[c.root].Exec?
    && ExecInputs(c.graph, c.root) == RegularEnds(spec.tasks, c.steps) + FinalEnds(spec.finals, c.finals)
    && Writes(c.graph[c.root]) == {}
    && Accesses(c.graph[c.root]) == RegularResults(spec.tasks, c.steps) + FinalResults(spec.finals, c.finals)
  }

  ghost predicate Wired(workspaces: map<string, WorkspaceSource>, spec: PipelineSpec, c: Compiled) {
    && |c.steps| == |spec.tasks| && |c.finals| == |spec.finals|
    && WellFormed(c.graph)
    && RegularTasks(spec.tasks, c.graph, workspaces, c.steps)
    && FinalTasks(spec.finals, c.graph, workspaces, c.finals, RegularEnds(spec.tasks, c.steps),
      RegularResults(spec.tasks, c.steps))
    && RootWired(spec, c)
    && Consecutive(AllSteps(c))
    && AllOwned(c.graph, AllSteps(c))
  }

  lemma DependencyMountsAre(states: seq<State>)
    ensures MountInputs(DependencyMounts(states)) == StateInputs(states)
    ensures MountAccesses(DependencyMounts(states)) == {} && MountWrites(DependencyMounts(states)) == {}
  {
    var ms := DependencyMounts(states);
    forall s | s in states
      ensures exists m :: m in ms && m.source == s
    {
      var i :| 0 <= i < |states| && states[i] == s;
      assert ms[i] in ms && ms[i].source == s;
    }
  }

  lemma RootEmitted(g: Graph, c: Collected, steps: seq<seq<OpId>>)
    requires WellFormed(g) && (forall e :: e in StateInputs(c.states) ==> e < |g| && g[e].Exec?)
        && MountInputs(c.caches) == {}
    requires Consecutive(steps) && AllOwned(g, steps)
    ensures var h := EmitRoot(g, c);
            && WellFormed(h) && g <= h && h[|h| - 1].Exec?
            && ExecInputs(h, |h| - 1) == StateInputs(c.states)
            && Accesses(h[|h| - 1]) == MountAccesses(c.caches)
            && Writes(h[|h| - 1]) == MountWrites(c.caches)
            && Consecutive(steps + [[|h| - 1]])
            && AllOwned(h, steps + [[|h| - 1]])
  {
    DependencyMountsAre(c.states);
    MountsConcat(DependencyMounts(c.states), c.caches);
    hide MountInputs, MountAccesses, MountWrites, DependencyMounts, StateInputs;
    var h := EmitRoot(g, c);
    var e := |h| - 1;
    assert Inputs(h[e]) == {|g|} + StateInputs(c.states);
    forall k | 0 <= k < |h|
      ensures WellFormedOp(h, k)
    {
      if k < |g| {
        StaysWellFormed(g, h, k);
      }
    }
    assert [e][0] == e;
    OwnedGrows(g, h, steps, [e]);
  }

  lemma LastIsIn(ids: seq<OpId>)
    ensures forall e :: e in LastOf(ids) ==> e in ids
  {
    if ids != [] {
      assert ids[|ids| - 1] in ids;
    }
  }

  lemma EndsAreProcesses(ts: seq<PipelineTask>, fs: seq<PipelineTask>, g: Graph, steps: seq<seq<OpId>>,
                         finals: seq<seq<OpId>>)
    requires |steps| == |ts| && |finals| == |fs| && AllOwned(g, steps + finals)
    ensures forall e :: e in RegularEnds(ts, steps) + FinalEnds(fs, finals) ==> e < |g| && g[e].Exec?
  {
    var all := steps + finals;
    forall e | e in RegularEnds(ts, steps)
      ensures e < |g| && g[e].Exec?
    {
      var t :| 0 <= t < |ts| && e in LastOf(steps[t]);
      LastIsIn(steps[t]);
      assert Processes(g, all[t]) && all[t] == steps[t];
    }
    forall e | e in FinalEnds(fs, finals)
      ensures e < |g| && g[e].Exec?
    {
      var t :| 0 <= t < |fs| && e in LastOf(finals[t]);
      LastIsIn(finals[t]);
      assert Processes(g, all[|steps| + t]) && all[|steps| + t] == finals[t];
    }
  }

  lemma CollectedTwice(tasks: map<string, seq<State>>, finallyTasks: map<string, seq<State>>, order: seq<string>,
                       order': seq<string>)
    ensures var c := Collect(Collect(Collected([], []), tasks, "", order), finallyTasks, "finally/", order');
            && StateInputs(c.states) == EndsOf(tasks, order) + EndsOf(finallyTasks, order')
            && MountInputs(c.caches) == {}
            && MountWrites(c.caches) == {}
            && MountAccesses(c.caches) == EndResultsOf(tasks, "", order)
              + EndResultsOf(finallyTasks, "finally/", order')
  {
    var none := Collected([], []);
    assert StateInputs([]) == {};
    NoMounts();
    hide StateInputs, MountInputs, MountAccesses, MountWrites, EndsOf, EndResultsOf;
    CollectedAre(none, tasks, "", order);
    CollectedAre(Collect(none, tasks, "", order), finallyTasks, "finally/", order');
  }

  /** What the collecting step mounts, whatever the order of enumeration. */
  lemma AllCollected(lib: Library, ts: seq<PipelineTask>, fs: seq<PipelineTask>, steps: seq<seq<OpId>>,
                     finals: seq<seq<OpId>>, tasks: map<string, seq<State>>, finallyTasks: map<string, seq<State>>)
    requires Ranges(lib) && |steps| == |ts| && |finals| == |fs|
    requires NamesResolve(ts, |ts|, tasks, steps) && FinalNamesResolve(fs, |fs|, finallyTasks, finals)
    ensures var c := CollectAll(lib, tasks, finallyTasks);
            && StateInputs(c.states) == RegularEnds(ts, steps) + FinalEnds(fs, finals)
            && MountInputs(c.caches) == {}
            && MountWrites(c.caches) == {}
            && MountAccesses(c.caches) == RegularResults(ts, steps) + FinalResults(fs, finals)
  {
    var order, order' := lib.range("collect", tasks.Keys), lib.range("collect finally", finallyTasks.Keys);
    assert Enumerates(order, tasks.Keys) && Enumerates(order', finallyTasks.Keys);
    hide Enumerates, StateInputs, MountInputs, MountAccesses, MountWrites, EndsOf, EndResultsOf, RegularEnds, FinalEnds,
      RegularResults, FinalResults, NamesResolve, FinalNamesResolve, Collect;
    RegularByName(ts, steps, tasks, order);
    FinalByName(fs, finals, finallyTasks, order');
    CollectedTwice(tasks, finallyTasks, order, order');
  }

  lemma FinalMountsWired(lib: Library, workspaces: map<string, WorkspaceSource>, spec: PipelineSpec, p: Progress)
    returns (mounts: seq<Mount>)
    requires Ranges(lib) && |p.steps| == |spec.tasks| && RegularWired(spec.tasks, workspaces, p)
    ensures mounts == if spec.finals != [] then FinalMounts(p.tasks, [], lib.range("finally", p.tasks.Keys)) else []
    ensures spec.finals != [] ==>
          MountInputs(mounts) == RegularEnds(spec.tasks, p.steps) && MountAccesses(mounts) ==
          RegularResults(spec.tasks, p.steps)
    ensures MountWrites(mounts) == {}
    ensures FinalsWired(spec.finals, workspaces, p.graph, p.steps, mounts, Finals(p.graph, map[], []))
  {
    hide RegularTasks, FinalsWired, Consecutive, AllOwned, WellFormed, RegularEnds, RegularResults, ExecInputs,
      MountInputs, MountAccesses, MountWrites, EndsOf, EndResultsOf, Enumerates, NamesResolve;
    var order := lib.range("finally", p.tasks.Keys);
    mounts := if spec.finals != [] then FinalMounts(p.tasks, [], order) else [];
    FinalMountsAre(p.tasks, [], order);
    NoMounts();
    RegularByName(spec.tasks, p.steps, p.tasks, order);
    assert p.steps + [] == p.steps;
    EndsAreProcesses(spec.tasks, [], p.graph, p.steps, []);
    NoFinalsYet(workspaces, spec, p, mounts);
  }

  lemma NoFinalsYet(workspaces: map<string, WorkspaceSource>, spec: PipelineSpec, p: Progress, mounts: seq<Mount>)
    requires |p.steps| == |spec.tasks| && RegularWired(spec.tasks, workspaces, p) && WaitsFor(p.graph, mounts)
    ensures FinalsWired(spec.finals, workspaces, p.graph, p.steps, mounts, Finals(p.graph, map[], []))
  {
    assert p.steps + [] == p.steps;
  }

  /** The main invariant of the compiler: whatever compiles is wired. */
  lemma CompiledIsWired(ctx: Context, run: string, bindings: seq<WorkspaceBinding>, spec: PipelineSpec)
    requires Ranges(ctx.lib) && CompileSpec(ctx, run, bindings, spec).Done?
    ensures BindWorkspaces(ctx, run, Bound([], map[]), bindings).Done?
    ensures var ws := BindWorkspaces(ctx, run, Bound([], map[]), bindings).value.workspaces;
            CachesNamed(run, ws) && Wired(ws, spec, CompileSpec(ctx, run, bindings, spec).value)
  {
    hide CompileTasks, CompileFinals, EmitRoot, CollectAll, FinalMounts, BindWorkspaces, FinalsWired, Wired, Ranges,
      RegularEnds, RegularResults, RegularTask, WaitsFor;
    var b := BindWorkspaces(ctx, run, Bound([], map[]), bindings).value;
    WorkspacesBound(ctx, run, Bound([], map[]), bindings);
    var start := Progress(b.graph, map[], map[], []);
    assert RegularWired(spec.tasks, b.workspaces, start);
    assert spec.tasks[0..] == spec.tasks && spec.finals[0..] == spec.finals;
    var p := CompileTasks(ctx, b.workspaces, start, spec.tasks).value;
    TasksCompiled(ctx, b.workspaces, start, spec.tasks);
    var mounts := FinalMountsWired(ctx.lib, b.workspaces, spec, p);
    var f := CompileFinals(ctx, b.workspaces, mounts, Finals(p.graph, map[], []), spec.finals).value;
    FinalsCompiled(ctx, b.workspaces, p.graph, p.steps, mounts, Finals(p.graph, map[], []), spec.finals);
    WholeIsWired(ctx.lib, b.workspaces, spec, p, mounts, f);
  }

  lemma WholeIsWired(lib: Library, workspaces: map<string, WorkspaceSource>, spec: PipelineSpec, p: Progress,
                     mounts: seq<Mount>, f: Finals)
    requires Ranges(lib) && |p.steps| == |spec.tasks| && RegularWired(spec.tasks, workspaces, p)
    requires |f.steps| == |spec.finals| && FinalsWired(spec.finals, workspaces, p.graph, p.steps, mounts, f)
    requires spec.finals != [] ==>
          MountInputs(mounts) == RegularEnds(spec.tasks, p.steps) && MountAccesses(mounts) ==
          RegularResults(spec.tasks, p.steps)
    ensures var h := EmitRoot(f.graph, CollectAll(lib, p.tasks, f.tasks));
            Wired(workspaces, spec, Compiled(h, |h| - 1, p.steps, f.steps))
  {
    hide RegularTask, FinalTask, Consecutive, AllOwned, WellFormed, FromFiles, NamesResolve, FinalNamesResolve,
      WaitsFor,
      MountInputs, MountAccesses, MountWrites, StateInputs, RegularEnds, FinalEnds, RegularResults, FinalResults,
        Ranges,
      ExecInputs, Accesses, Writes, CollectAll;
    var c := CollectAll(lib, p.tasks, f.tasks);
    AllCollected(lib, spec.tasks, spec.finals, p.steps, f.steps, p.tasks, f.tasks);
    EndsAreProcesses(spec.tasks, spec.finals, f.graph, p.steps, f.steps);
    RootEmitted(f.graph, c, p.steps + f.steps);
    var h := EmitRoot(f.graph, c);
    RegularTasksStay(spec.tasks, p.graph, h, workspaces, p.steps, p.steps);
    FinalTasksStay(spec.finals, f.graph, h, workspaces, f.steps, f.steps, MountInputs(mounts), MountAccesses(mounts));
  }
}
