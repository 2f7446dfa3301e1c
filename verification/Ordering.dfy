/** The order the emitted graph enforces is exactly the order the pipeline asks for. */
module Ordering {
  import opened Basics
  import opened Llb
  import opened Tekton
  import opened TaskRun
  import opened PipelineRun
  import opened Wiring
  import opened PipelineWiring
  import opened FinalWiring

  /** `t` is in the transitive closure of the `runAfter` of `u`. */
  ghost predicate TaskBefore(ts: seq<PipelineTask>, t: nat, u: nat)
    requires u < |ts|
    decreases u
  {
    exists a :: a in ts[u].runAfter && Resolve(ts, u, a).Some?
      && (Resolve(ts, u, a).value == t || TaskBefore(ts, t, Resolve(ts, u, a).value))
  }

  /** Tekton's own validation: names are unique over regular and finally tasks together. */
  ghost predicate UniqueNames(spec: PipelineSpec) {
    var all := spec.tasks + spec.finals;
    forall i, j :: 0 <= i < j < |all| ==> all[i].name != all[j].name
  }

  // ---------------------------------------------------------------- positions and operations

  ghost predicate StepAt(steps: seq<seq<OpId>>, t: int, i: int) {
    0 <= t < |steps| && 0 <= i < |steps[t]|
  }

  ghost predicate IsStep(steps: seq<seq<OpId>>, b: OpId) {
    exists t, i :: StepAt(steps, t, i) && steps[t][i] == b
  }

  lemma SamePosition(steps: seq<seq<OpId>>, t: nat, i: nat, u: nat, j: nat)
    requires Consecutive(steps) && StepAt(steps, t, i) && StepAt(steps, u, j) && steps[t][i] == steps[u][j]
    requires t == u ==> Increasing(steps[t])
    ensures t == u && i == j
  {
    assert steps[t][i] in steps[t] && steps[u][j] in steps[u];
  }

  /** What is known of step `i` of regular task `t`. */
  ghost predicate RegularStep(spec: PipelineSpec, c: Compiled, t: nat, i: nat) {
    && |c.steps| == |spec.tasks| && StepAt(c.steps, t, i)
    && WellFormed(c.graph)
    && c.steps[t][i] < |c.graph| && c.graph[c.steps[t][i]].Exec?
    && !Skipped(spec.tasks[t])
    && Ready(spec.tasks, c.steps, t)
    && Increasing(c.steps[t])
    && ExecInputs(c.graph, c.steps[t][i]) == Previous(c.steps[t], i) + Behind(spec.tasks, c.steps, t)
  }

  lemma RegularFacts(ws: map<string, WorkspaceSource>, spec: PipelineSpec, c: Compiled, t: nat, i: nat)
    requires Wired(ws, spec, c) && StepAt(c.steps, t, i)
    ensures RegularStep(spec, c, t, i)
  {
    assert RegularTask(spec.tasks, c.graph, ws, c.steps, t);
  }

  lemma SameRegular(ws: map<string, WorkspaceSource>, spec: PipelineSpec, c: Compiled, t: nat, i: nat, u: nat, j: nat)
    requires Wired(ws, spec, c) && StepAt(c.steps, t, i) && StepAt(c.steps, u, j) && c.steps[t][i] == c.steps[u][j]
    ensures t == u && i == j
  {
    RegularFacts(ws, spec, c, t, i);
    var all := AllSteps(c);
    assert all[t] == c.steps[t] && all[u] == c.steps[u];
    SamePosition(all, t, i, u, j);
  }

  // ---------------------------------------------------------------- regular tasks

  lemma BeforeThrough(g: Graph, a: OpId, m: OpId, b: OpId)
    requires WellFormed(g) && a < |g| && b < |g| && g[a].Exec?
    requires m in ExecInputs(g, b) && (m == a || Before(g, a, m))
    ensures Before(g, a, b)
  {
    AncestorThroughProcesses(g, a, b);
  }

  lemma BeforeComesThrough(g: Graph, a: OpId, b: OpId) returns (m: OpId)
    requires Before(g, a, b) && g[a].Exec?
    ensures m in ExecInputs(g, b) && (m == a || Before(g, a, m))
  {
    AncestorThroughProcesses(g, a, b);
    m :| m in ExecInputs(g, b) && (m == a || Ancestor(g, a, m));
  }

  /** A dependency of task `u`: the step it waits for is the last step of an earlier task. */
  lemma DependencyOf(spec: PipelineSpec, c: Compiled, u: nat, j: nat, n: string) returns (d: nat, last: nat)
    requires RegularStep(spec, c, u, j) && n in spec.tasks[u].runAfter
    ensures d < u && Resolve(spec.tasks, u, n) == Some(d) && StepAt(c.steps, d, last) && last == |c.steps[d]| - 1
    ensures LastOfTask(spec.tasks, c.steps, u, n) == {c.steps[d][last]}
    ensures c.steps[d][last] in Behind(spec.tasks, c.steps, u)
  {
    d := Resolve(spec.tasks, u, n).value;
    last := |c.steps[d]| - 1;
    assert c.steps[d][last] in LastOfTask(spec.tasks, c.steps, u, n);
  }

  /** No required order is lost. */
  lemma {:induction false} OrderIsKept(ws: map<string, WorkspaceSource>, spec: PipelineSpec, c: Compiled, t: nat,
                                       i: nat, u: nat, j: nat)
    requires Wired(ws, spec, c) && StepAt(c.steps, t, i) && StepAt(c.steps, u, j) && |c.steps| == |spec.tasks|
    requires (t == u && i < j) || TaskBefore(spec.tasks, t, u)
    ensures Before(c.graph, c.steps[t][i], c.steps[u][j])
    decreases u, j
  {
    hide Wired, Behind, Increasing, Ready;
    RegularFacts(ws, spec, c, u, j);
    RegularFacts(ws, spec, c, t, i);
    var m: OpId;
    if t == u && i < j {
      m := c.steps[u][j - 1];
      if i < j - 1 {
        OrderIsKept(ws, spec, c, t, i, u, j - 1);
      }
    } else {
      var n :| n in spec.tasks[u].runAfter && Resolve(spec.tasks, u, n).Some? &&
               (Resolve(spec.tasks, u, n).value == t || TaskBefore(spec.tasks, t, Resolve(spec.tasks, u, n).value));
      var d, last := DependencyOf(spec, c, u, j, n);
      m := c.steps[d][last];
      if !(d == t && i == last) {
        OrderIsKept(ws, spec, c, t, i, d, last);
      }
    }
    BeforeThrough(c.graph, c.steps[t][i], m, c.steps[u][j]);
  }

  /** No parallelism is lost. */
  lemma {:induction false} NothingElseIsOrdered(ws: map<string, WorkspaceSource>, spec: PipelineSpec, c: Compiled,
                                                t: nat, i: nat, u: nat, j: nat)
    requires Wired(ws, spec, c) && StepAt(c.steps, t, i) && StepAt(c.steps, u, j) && |c.steps| == |spec.tasks|
    requires Before(c.graph, c.steps[t][i], c.steps[u][j])
    ensures (t == u && i < j) || TaskBefore(spec.tasks, t, u)
    decreases u, j
  {
    hide Wired, Increasing;
    RegularFacts(ws, spec, c, u, j);
    RegularFacts(ws, spec, c, t, i);
    var a, b := c.steps[t][i], c.steps[u][j];
    var m := BeforeComesThrough(c.graph, a, b);
    hide WellFormed, ExecInputs;
    if m in Previous(c.steps[u], j) {
      hide Behind, Ready;
      if m == a {
        SameRegular(ws, spec, c, t, i, u, j - 1);
      } else {
        NothingElseIsOrdered(ws, spec, c, t, i, u, j - 1);
      }
    } else {
      assert m in Behind(spec.tasks, c.steps, u);
      var n :| n in spec.tasks[u].runAfter && m in LastOfTask(spec.tasks, c.steps, u, n);
      var d, last := DependencyOf(spec, c, u, j, n);
      hide Behind, Ready;
      if m == a {
        SameRegular(ws, spec, c, t, i, d, last);
      } else {
        NothingElseIsOrdered(ws, spec, c, t, i, d, last);
      }
    }
  }

  /** Ordering is exact: the graph orders two steps of regular tasks just when they belong to one task in that
      order, or the one's task is in the transitive closure of the other's `runAfter`. */
  lemma OrderingIsExact(ws: map<string, WorkspaceSource>, spec: PipelineSpec, c: Compiled, t: nat, i: nat, u: nat,
                        j: nat)
    requires Wired(ws, spec, c) && StepAt(c.steps, t, i) && StepAt(c.steps, u, j)
    ensures Before(c.graph, c.steps[t][i], c.steps[u][j]) <==> (t == u && i < j) || TaskBefore(spec.tasks, t, u)
  {
    if (t == u && i < j) || TaskBefore(spec.tasks, t, u) {
      OrderIsKept(ws, spec, c, t, i, u, j);
    }
    if Before(c.graph, c.steps[t][i], c.steps[u][j]) {
      NothingElseIsOrdered(ws, spec, c, t, i, u, j);
    }
  }

  // ---------------------------------------------------------------- finally tasks

  /** What is known of step `j` of finally task `f`. */
  ghost predicate FinalStep(spec: PipelineSpec, c: Compiled, f: nat, j: nat) {
    && |c.steps| == |spec.tasks| && |c.finals| == |spec.finals| && StepAt(c.finals, f, j)
    && WellFormed(c.graph)
    && c.finals[f][j] < |c.graph| && c.graph[c.finals[f][j]].Exec?
    && Increasing(c.finals[f])
    && ExecInputs(c.graph, c.finals[f][j]) == Previous(c.finals[f], j) + RegularEnds(spec.tasks, c.steps)
  }

  lemma FinalFacts(ws: map<string, WorkspaceSource>, spec: PipelineSpec, c: Compiled, f: nat, j: nat)
    requires Wired(ws, spec, c) && StepAt(c.finals, f, j)
    ensures FinalStep(spec, c, f, j)
  {
    assert FinalTask(spec.finals, c.graph, ws, c.finals, f, RegularEnds(spec.tasks, c.steps),
      RegularResults(spec.tasks, c.steps));
  }

  lemma SameFinal(ws: map<string, WorkspaceSource>, spec: PipelineSpec, c: Compiled, e: nat, i: nat, f: nat, j: nat)
    requires Wired(ws, spec, c) && StepAt(c.finals, e, i) && StepAt(c.finals, f, j) && c.finals[e][i] == c.finals[f][j]
    ensures e == f && i == j
  {
    hide RegularTasks, FinalTasks, RootWired, AllOwned, WellFormed, Consecutive;
    FinalFacts(ws, spec, c, e, i);
    var all, n := AllSteps(c), |c.steps|;
    assert all[n + e] == c.finals[e] && all[n + f] == c.finals[f];
    assert Consecutive(all);
    hide Wired, AllSteps;
    SamePosition(all, n + e, i, n + f, j);
  }

  lemma RegularBeforeFinal(c: Compiled, t: nat, i: nat, f: nat, j: nat)
    requires Consecutive(AllSteps(c)) && StepAt(c.steps, t, i) && StepAt(c.finals, f, j)
    ensures c.steps[t][i] < c.finals[f][j]
  {
    var all, n := AllSteps(c), |c.steps|;
    assert all[t] == c.steps[t] && all[n + f] == c.finals[f];
    assert all[t][i] in all[t] && all[n + f][j] in all[n + f];
  }

  /** With unique names every task that has steps is still known by its name at the end. */
  lemma {:induction false} NamesStay(ts: seq<PipelineTask>, k: nat, t: nat)
    requires t < k <= |ts| && !Skipped(ts[t]) && forall i, j :: 0 <= i < j < |ts| ==> ts[i].name != ts[j].name
    ensures Resolve(ts, k, ts[t].name) == Some(t)
  {
    if k > t + 1 {
      NamesStay(ts, k - 1, t);
    }
  }

  lemma {:induction false} FinalNamesStay(fs: seq<PipelineTask>, k: nat, f: nat)
    requires f < k <= |fs| && forall i, j :: 0 <= i < j < |fs| ==> fs[i].name != fs[j].name
    ensures ResolveFinal(fs, k, fs[f].name) == Some(f)
  {
    if k > f + 1 {
      FinalNamesStay(fs, k - 1, f);
    }
  }

  lemma NamesSeparate(spec: PipelineSpec)
    requires UniqueNames(spec)
    ensures forall i, j :: 0 <= i < j < |spec.tasks| ==> spec.tasks[i].name != spec.tasks[j].name
    ensures forall i, j :: 0 <= i < j < |spec.finals| ==> spec.finals[i].name != spec.finals[j].name
  {
    var all, n := spec.tasks + spec.finals, |spec.tasks|;
    forall i, j | 0 <= i < j < |spec.tasks|
      ensures spec.tasks[i].name != spec.tasks[j].name
    {
      assert all[i].name != all[j].name;
    }
    forall i, j | 0 <= i < j < |spec.finals|
      ensures spec.finals[i].name != spec.finals[j].name
    {
      assert all[n + i].name != all[n + j].name;
    }
  }

  lemma RegularEnd(ws: map<string, WorkspaceSource>, spec: PipelineSpec, c: Compiled, t: nat)
    requires Wired(ws, spec, c) && UniqueNames(spec) && t < |c.steps| == |spec.tasks| && c.steps[t] != []
    ensures c.steps[t][|c.steps[t]| - 1] in RegularEnds(spec.tasks, c.steps)
  {
    RegularFacts(ws, spec, c, t, 0);
    NamesSeparate(spec);
    NamesStay(spec.tasks, |spec.tasks|, t);
    assert Current(spec.tasks, c.steps, |spec.tasks|, t);
    assert c.steps[t][|c.steps[t]| - 1] in LastOf(c.steps[t]);
  }

  lemma FinalEnd(ws: map<string, WorkspaceSource>, spec: PipelineSpec, c: Compiled, f: nat)
    requires Wired(ws, spec, c) && UniqueNames(spec) && f < |c.finals| == |spec.finals| && c.finals[f] != []
    ensures c.finals[f][|c.finals[f]| - 1] in FinalEnds(spec.finals, c.finals)
  {
    NamesSeparate(spec);
    FinalNamesStay(spec.finals, |spec.finals|, f);
    assert CurrentFinal(spec.finals, c.finals, |spec.finals|, f);
    assert c.finals[f][|c.finals[f]| - 1] in LastOf(c.finals[f]);
  }

  /** Whatever waits for the ends of all regular tasks is below every regular step. */
  lemma BelowAllRegular(ws: map<string, WorkspaceSource>, spec: PipelineSpec, c: Compiled, t: nat, i: nat, b: OpId)
    requires Wired(ws, spec, c) && UniqueNames(spec) && StepAt(c.steps, t, i) && |c.steps| == |spec.tasks|
    requires b < |c.graph| && RegularEnds(spec.tasks, c.steps) <= ExecInputs(c.graph, b)
    ensures Before(c.graph, c.steps[t][i], b)
  {
    hide Wired, RegularEnds, ExecInputs, Behind, Ready, Increasing, UniqueNames;
    RegularFacts(ws, spec, c, t, i);
    RegularEnd(ws, spec, c, t);
    var last := |c.steps[t]| - 1;
    if i < last {
      OrderIsKept(ws, spec, c, t, i, t, last);
    }
    BeforeThrough(c.graph, c.steps[t][i], c.steps[t][last], b);
  }

  /** The finally barrier: every step of every regular task is above every step of every finally task. */
  lemma FinallyBarrier(ws: map<string, WorkspaceSource>, spec: PipelineSpec, c: Compiled, t: nat, i: nat, f: nat,
                       j: nat)
    requires Wired(ws, spec, c) && UniqueNames(spec) && StepAt(c.steps, t, i) && StepAt(c.finals, f, j)
    ensures Before(c.graph, c.steps[t][i], c.finals[f][j])
    ensures !Before(c.graph, c.finals[f][j], c.steps[t][i])
  {
    FinalFacts(ws, spec, c, f, j);
    BelowAllRegular(ws, spec, c, t, i, c.finals[f][j]);
    RegularBeforeFinal(c, t, i, f, j);
    if Before(c.graph, c.finals[f][j], c.steps[t][i]) {
      AncestorIsEarlier(c.graph, c.finals[f][j], c.steps[t][i]);
    }
  }

  /** Among finally tasks only the steps of one task are ordered. */
  lemma FinalsAreParallel(ws: map<string, WorkspaceSource>, spec: PipelineSpec, c: Compiled, e: nat, i: nat, f: nat,
                          j: nat)
    requires Wired(ws, spec, c) && StepAt(c.finals, e, i) && StepAt(c.finals, f, j)
    ensures Before(c.graph, c.finals[e][i], c.finals[f][j]) <==> e == f && i < j
  {
    if e == f && i < j {
      FinalOrderIsKept(ws, spec, c, f, i, j);
    }
    if Before(c.graph, c.finals[e][i], c.finals[f][j]) {
      NoOtherFinalOrder(ws, spec, c, e, i, f, j);
    }
  }

  lemma {:induction false} FinalOrderIsKept(ws: map<string, WorkspaceSource>, spec: PipelineSpec, c: Compiled, f: nat,
                                            i: nat, j: nat)
    requires Wired(ws, spec, c) && StepAt(c.finals, f, i) && StepAt(c.finals, f, j) && i < j
    ensures Before(c.graph, c.finals[f][i], c.finals[f][j])
    decreases j
  {
    hide Wired, RegularEnds, Increasing;
    FinalFacts(ws, spec, c, f, i);
    FinalFacts(ws, spec, c, f, j);
    if i < j - 1 {
      FinalOrderIsKept(ws, spec, c, f, i, j - 1);
    }
    BeforeThrough(c.graph, c.finals[f][i], c.finals[f][j - 1], c.finals[f][j]);
  }

  lemma {:induction false} NoOtherFinalOrder(ws: map<string, WorkspaceSource>, spec: PipelineSpec, c: Compiled, e: nat,
                                             i: nat, f: nat, j: nat)
    requires Wired(ws, spec, c) && StepAt(c.finals, e, i) && StepAt(c.finals, f, j)
    requires Before(c.graph, c.finals[e][i], c.finals[f][j])
    ensures e == f && i < j
    decreases j
  {
    hide Wired, RegularEnds, Increasing;
    FinalFacts(ws, spec, c, e, i);
    FinalFacts(ws, spec, c, f, j);
    var a, b := c.finals[e][i], c.finals[f][j];
    var m := BeforeComesThrough(c.graph, a, b);
    hide WellFormed, ExecInputs;
    if m in Previous(c.finals[f], j) {
      if m == a {
        SameFinal(ws, spec, c, e, i, f, j - 1);
      } else {
        NoOtherFinalOrder(ws, spec, c, e, i, f, j - 1);
      }
    } else {
      NotAboveRegular(ws, spec, c, e, i, m);
      assert false;
    }
  }

  lemma NotAboveRegular(ws: map<string, WorkspaceSource>, spec: PipelineSpec, c: Compiled, e: nat, i: nat, m: OpId)
    requires Wired(ws, spec, c) && StepAt(c.finals, e, i) && |c.steps| == |spec.tasks|
        && m in RegularEnds(spec.tasks, c.steps)
    ensures m != c.finals[e][i] && !Before(c.graph, c.finals[e][i], m)
  {
    var t :| 0 <= t < |c.steps| && m in LastOf(c.steps[t]);
    var ids := c.steps[t];
    assert m in LastOf(ids);
    assert ids != [] && m == ids[|ids| - 1];
    assert Consecutive(AllSteps(c));
    hide Wired, RegularEnds;
    RegularBeforeFinal(c, t, |ids| - 1, e, i);
    if Before(c.graph, c.finals[e][i], m) {
      AncestorIsEarlier(c.graph, c.finals[e][i], m);
    }
  }

  // ---------------------------------------------------------------- the root

  /** Every process is a step of a regular task, a step of a finally task, or the collecting step. */
  lemma EveryProcessIsAStep(c: Compiled, b: OpId)
    requires AllOwned(c.graph, AllSteps(c)) && b < |c.graph| && c.graph[b].Exec?
    ensures b == c.root || IsStep(c.steps, b) || IsStep(c.finals, b)
  {
    var all, n := AllSteps(c), |c.steps|;
    assert Owned(all, b);
    var x :| 0 <= x < |all| && b in all[x];
    var i :| 0 <= i < |all[x]| && all[x][i] == b;
    if x < n {
      assert StepAt(c.steps, x, i) && c.steps[x][i] == b;
    } else if x < n + |c.finals| {
      assert StepAt(c.finals, x - n, i) && c.finals[x - n][i] == b;
    }
  }

  /** Nothing dropped, nothing extra: the processes above the root are the compiled steps, all of them. */
  lemma RootReachesEveryStep(ws: map<string, WorkspaceSource>, spec: PipelineSpec, c: Compiled, b: OpId)
    requires Wired(ws, spec, c) && UniqueNames(spec) && b < |c.graph| && c.graph[b].Exec?
    ensures Before(c.graph, b, c.root) <==> IsStep(c.steps, b) || IsStep(c.finals, b)
    ensures b == c.root <==> !IsStep(c.steps, b) && !IsStep(c.finals, b)
  {
    if Before(c.graph, b, c.root) {
      AncestorIsEarlier(c.graph, b, c.root);
    }
    RootIsApart(c);
    EveryProcessIsAStep(c, b);
    if IsStep(c.steps, b) {
      var t, i :| StepAt(c.steps, t, i) && c.steps[t][i] == b;
      BelowAllRegular(ws, spec, c, t, i, c.root);
    } else if IsStep(c.finals, b) {
      var f, j :| StepAt(c.finals, f, j) && c.finals[f][j] == b;
      FinalAboveRoot(ws, spec, c, f, j);
    }
  }

  lemma FinalAboveRoot(ws: map<string, WorkspaceSource>, spec: PipelineSpec, c: Compiled, f: nat, j: nat)
    requires Wired(ws, spec, c) && UniqueNames(spec) && StepAt(c.finals, f, j)
    ensures Before(c.graph, c.finals[f][j], c.root)
  {
    hide RegularTasks, FinalTasks, Consecutive, AllOwned, UniqueNames, RegularEnds;
    FinalEnd(ws, spec, c, f);
    FinalFacts(ws, spec, c, f, j);
    var last := |c.finals[f]| - 1;
    if j < last {
      FinalOrderIsKept(ws, spec, c, f, j, last);
    }
    assert c.finals[f][last] in ExecInputs(c.graph, c.root);
    BeforeThrough(c.graph, c.finals[f][j], c.finals[f][last], c.root);
  }

  lemma RootIsApart(c: Compiled)
    requires Consecutive(AllSteps(c))
    ensures forall t, i :: StepAt(c.steps, t, i) ==> c.steps[t][i] < c.root
    ensures forall f, j :: StepAt(c.finals, f, j) ==> c.finals[f][j] < c.root
  {
    var all, n := AllSteps(c), |c.steps|;
    var r := |all| - 1;
    assert all[r] == [c.root] && all[r][0] in all[r];
    forall t, i | StepAt(c.steps, t, i)
      ensures c.steps[t][i] < c.root
    {
      assert all[t] == c.steps[t] && c.steps[t][i] in all[t];
    }
    forall f, j | StepAt(c.finals, f, j)
      ensures c.finals[f][j] < c.root
    {
      assert all[n + f] == c.finals[f] && c.finals[f][j] in all[n + f];
    }
  }

  // ---------------------------------------------------------------- a TaskRun

  /** The steps of a TaskRun are totally ordered, they are all the processes there are, and the one returned
      comes last. */
  lemma TaskRunIsAChain(ctx: Context, run: TaskRunObject, i: nat, j: nat)
    requires CompileTaskRun(ctx, run).Done?
    ensures var c := CompileTaskRun(ctx, run).value;
            && WellFormed(c.graph)
            && (forall b :: 0 <= b < |c.graph| && c.graph[b].Exec? <==> b in c.steps)
            && (i < |c.steps| && j < |c.steps| ==> (Before(c.graph, c.steps[i], c.steps[j]) <==> i < j))
  {
    var spec := ResolveTaskRun(ctx, run).value;
    var task := TaskArgs(run.name, RunWorkspaces(run), None);
    var steps := Translate(ctx, spec, task).value;
    TranslationIsWired(ctx, spec, task);
    NoMounts();
    StepsWired([], steps, [], |steps|, task.name, task.workspaces);
    var (h, ids) := EmitSteps([], steps, [], |steps|);
    forall b | b in ids
      ensures 0 <= b < |h| && h[b].Exec?
    {
      var k :| 0 <= k < |ids| && ids[k] == b;
    }
    if i < |ids| && j < |ids| {
      ChainOrders(h, ids, i, j);
    }
  }

  /** Of two different processes of a TaskRun one comes before the other. */
  lemma TaskRunOrdersProcesses(ctx: Context, run: TaskRunObject, x: OpId, y: OpId)
    requires CompileTaskRun(ctx, run).Done?
    requires var g := CompileTaskRun(ctx, run).value.graph;
          x < |g| && y < |g| && x != y && g[x].Exec? && g[y].Exec?
    ensures var g := CompileTaskRun(ctx, run).value.graph; Before(g, x, y) || Before(g, y, x)
  {
    hide CompileTaskRun;
    TaskRunIsAChain(ctx, run, 0, 0);
    var c := CompileTaskRun(ctx, run).value;
    assert x in c.steps && y in c.steps;
    var i :| 0 <= i < |c.steps| && c.steps[i] == x;
    var j :| 0 <= j < |c.steps| && c.steps[j] == y;
    TaskRunIsAChain(ctx, run, i, j);
    TaskRunIsAChain(ctx, run, j, i);
  }

  lemma {:induction false} ChainOrders(g: Graph, ids: seq<OpId>, i: nat, j: nat)
    requires WellFormed(g) && Chain(g, ids, {}) && Increasing(ids) && i < |ids| && j < |ids|
    ensures Before(g, ids[i], ids[j]) <==> i < j
    decreases j
  {
    AncestorThroughProcesses(g, ids[i], ids[j]);
    assert ExecInputs(g, ids[j]) == Previous(ids, j);
    if j > 0 {
      ChainOrders(g, ids, i, j - 1);
      assert ids[j - 1] in Previous(ids, j);
    }
  }
}
