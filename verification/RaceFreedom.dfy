/** When a compiled pipeline is free of races on its caches, exactly. */
module RaceFreedom {
  import opened Llb
  import opened Tekton
  import opened PipelineRun
  import opened Wiring
  import opened PipelineWiring
  import opened FinalWiring
  import opened Ordering
  import opened CacheIds
  import Executor

  /** Names of tasks as Tekton's validation has them. What workspaces and volumes are called it leaves open. */
  ghost predicate ProperNames(spec: PipelineSpec) {
    && (forall t :: t in spec.tasks ==> IsName(t.name))
    && (forall f :: f in spec.finals ==> IsName(f.name))
    && UniqueNames(spec)
  }

  // ---------------------------------------------------------------- what can and cannot coincide

  ghost function ResultsOfTask(t: PipelineTask): string {
    t.name + "/results"
  }

  ghost function SharedByTask(ws: map<string, WorkspaceSource>, t: PipelineTask): set<string> {
    SharedBy(ws, t.workspaces)
  }

  /** No operation in `ids` mounts any of the caches. */
  ghost predicate Untouched(g: Graph, caches: set<string>, ids: seq<OpId>) {
    forall j :: 0 <= j < |ids| && ids[j] < |g| ==> caches !! Accesses(g[ids[j]])
  }

  /** Two tasks with steps `a` and `b`, neither of which mounts a persistent workspace of the other. */
  ghost predicate TasksApart(g: Graph, ws: map<string, WorkspaceSource>, t: PipelineTask, a: seq<OpId>,
                             u: PipelineTask, b: seq<OpId>)
  {
    Untouched(g, SharedByTask(ws, t), b) && Untouched(g, SharedByTask(ws, u), a)
  }

  /** No two unordered tasks meet on a persistent workspace. */
  ghost predicate NothingShared(ws: map<string, WorkspaceSource>, spec: PipelineSpec, c: Compiled)
    requires |c.steps| == |spec.tasks| && |c.finals| == |spec.finals|
  {
    && (forall t, u ::
          0 <= t < u < |c.steps| && c.steps[t] != [] && c.steps[u] != [] && !TaskBefore(spec.tasks, t, u) ==>
          TasksApart(c.graph, ws, spec.tasks[t], c.steps[t], spec.tasks[u], c.steps[u]))
    && (forall e, f :: 0 <= e < f < |c.finals| && c.finals[e] != [] && c.finals[f] != [] ==>
          TasksApart(c.graph, ws, spec.finals[e], c.finals[e], spec.finals[f], c.finals[f]))
  }

  lemma Tail(t: string, id: string) returns (x: string)
    requires id == t + "/results" || IsVolume(t, id)
    ensures id == t + "/" + x && (x == "results" || (|x| > 6 && x[6] == '/' && x[0] == 'v'))
  {
    Separators();
    if id == t + "/results" {
      x := "results";
    } else {
      var v :| id == t + "/volume/" + v;
      x := "volume/" + v;
    }
  }

  /** Identifiers of tasks with different names never meet. */
  lemma TaskIdsDiffer(t: string, u: string, id: string)
    requires IsName(t) && IsName(u) && t != u
    requires id == t + "/results" || IsVolume(t, id)
    ensures id != u + "/results" && !IsVolume(u, id)
  {
    var x := Tail(t, id);
    if id == u + "/results" || IsVolume(u, id) {
      var y := Tail(u, id);
      FirstSegment(t, u, x, y);
    }
  }

  lemma Unprefixed(p: string, t: string, id: string)
    ensures id == p + t + "/results" ==> |id| >= |p| && id[|p|..] == t + "/results"
    ensures IsVolume(p + t, id) ==> |id| >= |p| && IsVolume(t, id[|p|..])
  {
    if id == p + t + "/results" {
      assert p + t + "/results" == p + (t + "/results");
    }
    if IsVolume(p + t, id) {
      var v :| id == p + t + "/volume/" + v;
      assert p + t + "/volume/" + v == p + (t + "/volume/" + v);
      assert id[|p|..] == t + "/volume/" + v;
    }
  }

  /** The same for finally tasks, whose identifiers all start with `finally/`. */
  lemma FinalIdsDiffer(e: string, f: string, id: string)
    requires IsName(e) && IsName(f) && e != f
    requires id == "finally/" + e + "/results" || IsVolume("finally/" + e, id)
    ensures id != "finally/" + f + "/results" && !IsVolume("finally/" + f, id)
  {
    hide IsVolume;
    Unprefixed("finally/", e, id);
    Unprefixed("finally/", f, id);
    var rest := id[|"finally/"|..];
    TaskIdsDiffer(e, f, rest);
  }

  /** A finally task's own caches are not the results of regular tasks. */
  lemma FinalIsNoResult(e: string, a: string, id: string)
    requires IsName(e) && IsName(a) && (id == "finally/" + e + "/results" || IsVolume("finally/" + e, id))
    ensures id != a + "/results"
  {
    Separators();
    var x := Tail("finally/" + e, id);
    var y := e + "/" + x;
    assert id == "finally" + "/" + y;
    assert y[|e|] == '/';
    if id == a + "/results" {
      assert id == a + "/" + "results";
      FirstSegment("finally", a, y, "results");
    }
  }

  // ---------------------------------------------------------------- the theorem

  lemma RegularUse(ws: map<string, WorkspaceSource>, spec: PipelineSpec, c: Compiled, t: nat, i: nat)
    requires Wired(ws, spec, c) && StepAt(c.steps, t, i) && |c.steps| == |spec.tasks|
    ensures c.steps[t][i] < |c.graph|
    ensures CacheUse(c.graph[c.steps[t][i]], spec.tasks[t].name, SharedByTask(ws, spec.tasks[t]),
        ResultsOf(spec.tasks[t].runAfter))
  {
    assert RegularTask(spec.tasks, c.graph, ws, c.steps, t);
  }

  lemma FinalUse(ws: map<string, WorkspaceSource>, spec: PipelineSpec, c: Compiled, f: nat, j: nat)
    requires Wired(ws, spec, c) && StepAt(c.finals, f, j) && |c.steps| == |spec.tasks| && |c.finals| == |spec.finals|
    ensures c.finals[f][j] < |c.graph|
    ensures CacheUse(c.graph[c.finals[f][j]], "finally/" + spec.finals[f].name, SharedByTask(ws, spec.finals[f]),
        RegularResults(spec.tasks, c.steps))
  {
    assert FinalTask(spec.finals, c.graph, ws, c.finals, f, RegularEnds(spec.tasks, c.steps),
      RegularResults(spec.tasks, c.steps));
  }

  /** Two unordered regular tasks do not race when their workspaces are apart. */
  lemma RegularTasksDoNotRace(ws: map<string, WorkspaceSource>, t: PipelineTask, u: PipelineTask, a: Op, b: Op)
    requires IsName(t.name) && IsName(u.name) && t.name != u.name && t.name !in u.runAfter
        && forall n :: n in u.runAfter ==> IsName(n)
    requires CacheUse(a, t.name, SharedByTask(ws, t), ResultsOf(t.runAfter))
    requires CacheUse(b, u.name, SharedByTask(ws, u), ResultsOf(u.runAfter))
    requires SharedByTask(ws, t) !! Accesses(b) && SharedByTask(ws, u) !! Accesses(a)
    ensures Writes(a) !! Accesses(b)
  {
    forall id | id in Writes(a)
      ensures id !in Accesses(b)
    {
      if id !in SharedByTask(ws, t) {
        assert id in Accesses(a) && id !in SharedByTask(ws, u);
        OwnIdIsPrivate(t, u, id);
      }
    }
  }

  lemma OwnIdIsPrivate(t: PipelineTask, u: PipelineTask, id: string)
    requires IsName(t.name) && IsName(u.name) && t.name != u.name && t.name !in u.runAfter
        && forall n :: n in u.runAfter ==> IsName(n)
    requires id == t.name + "/results" || IsVolume(t.name, id)
    ensures id != u.name + "/results" && !IsVolume(u.name, id) && id !in ResultsOf(u.runAfter)
  {
    TaskIdsDiffer(t.name, u.name, id);
    if id in ResultsOf(u.runAfter) {
      var n :| n in u.runAfter && id == n + "/results";
      TaskIdsDiffer(t.name, n, id);
    }
  }

  lemma FinalTasksDoNotRace(ws: map<string, WorkspaceSource>, e: PipelineTask, f: PipelineTask, read: set<string>,
                            a: Op, b: Op)
    requires IsName(e.name) && IsName(f.name) && e.name != f.name
    requires forall id :: id in read ==> exists n :: IsName(n) && id == n + "/results"
    requires CacheUse(a, "finally/" + e.name, SharedByTask(ws, e), read)
    requires CacheUse(b, "finally/" + f.name, SharedByTask(ws, f), read)
    requires SharedByTask(ws, e) !! Accesses(b) && SharedByTask(ws, f) !! Accesses(a)
    ensures Writes(a) !! Accesses(b)
  {
    forall id | id in Writes(a)
      ensures id !in Accesses(b)
    {
      if id !in SharedByTask(ws, e) {
        assert id in Accesses(a) && id !in SharedByTask(ws, f);
        FinalIdsDiffer(e.name, f.name, id);
        if id in read {
          var n :| IsName(n) && id == n + "/results";
          FinalIsNoResult(e.name, n, id);
        }
      }
    }
  }

  lemma DifferentTasks(spec: PipelineSpec, t: nat, u: nat)
    requires UniqueNames(spec)
    ensures t < |spec.tasks| && u < |spec.tasks| && t != u ==> spec.tasks[t].name != spec.tasks[u].name
    ensures t < |spec.finals| && u < |spec.finals| && t != u ==> spec.finals[t].name != spec.finals[u].name
  {
    NamesSeparate(spec);
  }

  /** An unordered task is not named in `runAfter`. */
  lemma UnorderedIsNotNamed(ws: map<string, WorkspaceSource>, spec: PipelineSpec, c: Compiled, t: nat, u: nat, j: nat)
    requires Wired(ws, spec, c) && UniqueNames(spec) && t < |c.steps| && StepAt(c.steps, u, j)
    requires !TaskBefore(spec.tasks, t, u)
    ensures spec.tasks[t].name !in spec.tasks[u].runAfter
  {
    RegularFacts(ws, spec, c, u, j);
    var n := spec.tasks[t].name;
    if n in spec.tasks[u].runAfter {
      var d := Resolve(spec.tasks, u, n).value;
      DifferentTasks(spec, t, d);
    }
  }

  lemma {:induction false} BeforeIsEarlier(ts: seq<PipelineTask>, t: nat, u: nat)
    requires u < |ts| && TaskBefore(ts, t, u)
    ensures t < u
    decreases u
  {
    var a :| a in ts[u].runAfter && Resolve(ts, u, a).Some?
      && (Resolve(ts, u, a).value == t || TaskBefore(ts, t, Resolve(ts, u, a).value));
    if Resolve(ts, u, a).value != t {
      BeforeIsEarlier(ts, t, Resolve(ts, u, a).value);
    }
  }

  /** The tasks in `runAfter` of a task with steps are tasks of the pipeline. */
  lemma NamedTasksAreTasks(ws: map<string, WorkspaceSource>, spec: PipelineSpec, c: Compiled, u: nat, j: nat)
    requires Wired(ws, spec, c) && ProperNames(spec) && StepAt(c.steps, u, j)
    ensures forall n :: n in spec.tasks[u].runAfter ==> IsName(n)
  {
    RegularFacts(ws, spec, c, u, j);
    forall n | n in spec.tasks[u].runAfter
      ensures IsName(n)
    {
      assert spec.tasks[Resolve(spec.tasks, u, n).value] in spec.tasks;
    }
  }

  lemma TasksAreApartInPairs(ws: map<string, WorkspaceSource>, spec: PipelineSpec, c: Compiled, t: nat, i: nat, u: nat,
                             j: nat)
    requires |c.steps| == |spec.tasks| && |c.finals| == |spec.finals| && NothingShared(ws, spec, c)
    requires t != u && StepAt(c.steps, t, i) && StepAt(c.steps, u, j)
    requires !TaskBefore(spec.tasks, t, u) && !TaskBefore(spec.tasks, u, t)
    requires c.steps[t][i] < |c.graph| && c.steps[u][j] < |c.graph|
    ensures SharedByTask(ws, spec.tasks[t]) !! Accesses(c.graph[c.steps[u][j]])
  {
    if t < u {
      assert TasksApart(c.graph, ws, spec.tasks[t], c.steps[t], spec.tasks[u], c.steps[u]);
    } else {
      assert TasksApart(c.graph, ws, spec.tasks[u], c.steps[u], spec.tasks[t], c.steps[t]);
    }
  }

  lemma RegularPair(ws: map<string, WorkspaceSource>, spec: PipelineSpec, c: Compiled, t: nat, i: nat, u: nat,
                    j: nat)
    requires Wired(ws, spec, c) && ProperNames(spec) && NothingShared(ws, spec, c)
    requires StepAt(c.steps, t, i) && StepAt(c.steps, u, j) && c.steps[t][i] < |c.graph| && c.steps[u][j] < |c.graph|
    requires Executor.Unordered(c.graph, c.steps[t][i], c.steps[u][j])
    ensures Writes(c.graph[c.steps[t][i]]) !! Accesses(c.graph[c.steps[u][j]])
  {
    hide NothingShared, TaskBefore, CacheUse, TasksApart, WellFormed, UniqueNames;
    OrderingIsExact(ws, spec, c, t, i, u, j);
    OrderingIsExact(ws, spec, c, u, j, t, i);
    RegularUse(ws, spec, c, t, i);
    RegularUse(ws, spec, c, u, j);
    UnorderedIsNotNamed(ws, spec, c, t, u, j);
    DifferentTasks(spec, t, u);
    assert t != u;
    TasksAreApartInPairs(ws, spec, c, t, i, u, j);
    TasksAreApartInPairs(ws, spec, c, u, j, t, i);
    NamedTasksAreTasks(ws, spec, c, u, j);
    assert spec.tasks[t] in spec.tasks && spec.tasks[u] in spec.tasks;
    hide Wired;
    RegularTasksDoNotRace(ws, spec.tasks[t], spec.tasks[u], c.graph[c.steps[t][i]], c.graph[c.steps[u][j]]);
  }

  lemma FinalsAreApartInPairs(ws: map<string, WorkspaceSource>, spec: PipelineSpec, c: Compiled, e: nat, i: nat,
                              f: nat, j: nat)
    requires |c.steps| == |spec.tasks| && |c.finals| == |spec.finals| && NothingShared(ws, spec, c)
    requires e != f && StepAt(c.finals, e, i) && StepAt(c.finals, f, j)
    requires c.finals[e][i] < |c.graph| && c.finals[f][j] < |c.graph|
    ensures SharedByTask(ws, spec.finals[e]) !! Accesses(c.graph[c.finals[f][j]])
  {
    if e < f {
      assert TasksApart(c.graph, ws, spec.finals[e], c.finals[e], spec.finals[f], c.finals[f]);
    } else {
      assert TasksApart(c.graph, ws, spec.finals[f], c.finals[f], spec.finals[e], c.finals[e]);
    }
  }

  lemma FinalPair(ws: map<string, WorkspaceSource>, spec: PipelineSpec, c: Compiled, e: nat, i: nat, f: nat,
                  j: nat)
    requires Wired(ws, spec, c) && ProperNames(spec) && NothingShared(ws, spec, c)
    requires StepAt(c.finals, e, i) && StepAt(c.finals, f, j) && c.finals[e][i] < |c.graph|
        && c.finals[f][j] < |c.graph|
    requires Executor.Unordered(c.graph, c.finals[e][i], c.finals[f][j])
    ensures Writes(c.graph[c.finals[e][i]]) !! Accesses(c.graph[c.finals[f][j]])
  {
    hide NothingShared, CacheUse, TasksApart, WellFormed, UniqueNames, RegularResults;
    FinalsAreParallel(ws, spec, c, e, i, f, j);
    FinalsAreParallel(ws, spec, c, f, j, e, i);
    FinalUse(ws, spec, c, e, i);
    FinalUse(ws, spec, c, f, j);
    DifferentTasks(spec, e, f);
    var read := RegularResults(spec.tasks, c.steps);
    FinalsAreApartInPairs(ws, spec, c, e, i, f, j);
    FinalsAreApartInPairs(ws, spec, c, f, j, e, i);
    assert spec.finals[e] in spec.finals && spec.finals[f] in spec.finals;
    ReadIsResults(spec, c.steps);
    hide Wired;
    FinalTasksDoNotRace(ws, spec.finals[e], spec.finals[f], read, c.graph[c.finals[e][i]],
      c.graph[c.finals[f][j]]);
  }

  lemma ReadIsResults(spec: PipelineSpec, steps: seq<seq<OpId>>)
    requires |steps| == |spec.tasks| && forall t :: t in spec.tasks ==> IsName(t.name)
    ensures forall id :: id in RegularResults(spec.tasks, steps) ==> exists n :: IsName(n) && id == n + "/results"
  {
    forall id | id in RegularResults(spec.tasks, steps)
      ensures exists n :: IsName(n) && id == n + "/results"
    {
      var t :| 0 <= t < |spec.tasks| && id == spec.tasks[t].name + "/results";
      assert IsName(spec.tasks[t].name);
    }
  }

  /** Two processes that the graph does not order do not race. */
  lemma PairDoesNotRace(ws: map<string, WorkspaceSource>, spec: PipelineSpec, c: Compiled, a: OpId, b: OpId)
    requires Wired(ws, spec, c) && ProperNames(spec) && NothingShared(ws, spec, c)
    requires a < |c.graph| && b < |c.graph| && Executor.Unordered(c.graph, a, b)
    ensures Writes(c.graph[a]) !! Accesses(c.graph[b])
  {
    if c.graph[a].Exec? && c.graph[b].Exec? {
      RootReachesEveryStep(ws, spec, c, a);
      RootReachesEveryStep(ws, spec, c, b);
      if IsStep(c.steps, a) {
        var t, i :| StepAt(c.steps, t, i) && c.steps[t][i] == a;
        if IsStep(c.steps, b) {
          var u, j :| StepAt(c.steps, u, j) && c.steps[u][j] == b;
          RegularPair(ws, spec, c, t, i, u, j);
        } else if IsStep(c.finals, b) {
          var f, j :| StepAt(c.finals, f, j) && c.finals[f][j] == b;
          FinallyBarrier(ws, spec, c, t, i, f, j);
        }
      } else if IsStep(c.finals, a) {
        var e, i :| StepAt(c.finals, e, i) && c.finals[e][i] == a;
        if IsStep(c.steps, b) {
          var u, j :| StepAt(c.steps, u, j) && c.steps[u][j] == b;
          FinallyBarrier(ws, spec, c, u, j, e, i);
        } else if IsStep(c.finals, b) {
          var f, j :| StepAt(c.finals, f, j) && c.finals[f][j] == b;
          FinalPair(ws, spec, c, e, i, f, j);
        }
      }
    }
  }

  lemma RegularTasksMustBeApart(m: Executor.Machine, ws: map<string, WorkspaceSource>, spec: PipelineSpec, c: Compiled,
                                t: nat, u: nat)
    requires Wired(ws, spec, c) && Executor.Job(c.graph, c.root, m).RaceFree()
    requires t < u < |c.steps| && c.steps[t] != [] && c.steps[u] != [] && !TaskBefore(spec.tasks, t, u)
    ensures TasksApart(c.graph, ws, spec.tasks[t], c.steps[t], spec.tasks[u], c.steps[u])
  {
    if TaskBefore(spec.tasks, u, t) {
      BeforeIsEarlier(spec.tasks, u, t);
    }
    forall j | 0 <= j < |c.steps[u]| && c.steps[u][j] < |c.graph|
      ensures SharedByTask(ws, spec.tasks[t]) !! Accesses(c.graph[c.steps[u][j]])
    {
      RegularStepsMustBeApart(m, ws, spec, c, t, 0, u, j);
    }
    forall i | 0 <= i < |c.steps[t]| && c.steps[t][i] < |c.graph|
      ensures SharedByTask(ws, spec.tasks[u]) !! Accesses(c.graph[c.steps[t][i]])
    {
      RegularStepsMustBeApart(m, ws, spec, c, u, 0, t, i);
    }
  }

  lemma RegularStepsMustBeApart(m: Executor.Machine, ws: map<string, WorkspaceSource>, spec: PipelineSpec, c: Compiled,
                                t: nat, i: nat, u: nat, j: nat)
    requires Wired(ws, spec, c) && Executor.Job(c.graph, c.root, m).RaceFree()
    requires t != u && StepAt(c.steps, t, i) && StepAt(c.steps, u, j)
    requires !TaskBefore(spec.tasks, t, u) && !TaskBefore(spec.tasks, u, t)
    ensures c.steps[u][j] < |c.graph| && SharedByTask(ws, spec.tasks[t]) !! Accesses(c.graph[c.steps[u][j]])
  {
    hide TaskBefore, CacheUse;
    var a, b := c.steps[t][i], c.steps[u][j];
    OrderingIsExact(ws, spec, c, t, i, u, j);
    OrderingIsExact(ws, spec, c, u, j, t, i);
    if a == b {
      SameRegular(ws, spec, c, t, i, u, j);
    }
    RegularUse(ws, spec, c, t, i);
    RegularUse(ws, spec, c, u, j);
    hide Wired;
    assert Executor.Unordered(c.graph, a, b);
    SharedAreWritten(c.graph[a], spec.tasks[t].name, SharedByTask(ws, spec.tasks[t]),
      ResultsOf(spec.tasks[t].runAfter));
  }

  lemma SharedAreWritten(op: Op, task: string, shared: set<string>, read: set<string>)
    requires CacheUse(op, task, shared, read)
    ensures shared <= Writes(op)
  {
  }

  lemma FinalTasksMustBeApart(m: Executor.Machine, ws: map<string, WorkspaceSource>, spec: PipelineSpec, c: Compiled,
                              e: nat, f: nat)
    requires Wired(ws, spec, c) && Executor.Job(c.graph, c.root, m).RaceFree()
    requires e < f < |c.finals| && c.finals[e] != [] && c.finals[f] != []
    ensures TasksApart(c.graph, ws, spec.finals[e], c.finals[e], spec.finals[f], c.finals[f])
  {
    forall j | 0 <= j < |c.finals[f]| && c.finals[f][j] < |c.graph|
      ensures SharedByTask(ws, spec.finals[e]) !! Accesses(c.graph[c.finals[f][j]])
    {
      FinalStepsMustBeApart(m, ws, spec, c, e, 0, f, j);
    }
    forall i | 0 <= i < |c.finals[e]| && c.finals[e][i] < |c.graph|
      ensures SharedByTask(ws, spec.finals[f]) !! Accesses(c.graph[c.finals[e][i]])
    {
      FinalStepsMustBeApart(m, ws, spec, c, f, 0, e, i);
    }
  }

  lemma FinalStepsMustBeApart(m: Executor.Machine, ws: map<string, WorkspaceSource>, spec: PipelineSpec, c: Compiled,
                              e: nat, i: nat, f: nat, j: nat)
    requires Wired(ws, spec, c) && Executor.Job(c.graph, c.root, m).RaceFree()
    requires e != f && StepAt(c.finals, e, i) && StepAt(c.finals, f, j)
    ensures c.finals[f][j] < |c.graph| && SharedByTask(ws, spec.finals[e]) !! Accesses(c.graph[c.finals[f][j]])
  {
    hide CacheUse;
    var a, b := c.finals[e][i], c.finals[f][j];
    FinalsAreParallel(ws, spec, c, e, i, f, j);
    FinalsAreParallel(ws, spec, c, f, j, e, i);
    if a == b {
      SameFinal(ws, spec, c, e, i, f, j);
    }
    FinalUse(ws, spec, c, e, i);
    FinalUse(ws, spec, c, f, j);
    assert Executor.Unordered(c.graph, a, b);
    SharedAreWritten(c.graph[a], "finally/" + spec.finals[e].name, SharedByTask(ws, spec.finals[e]),
      RegularResults(spec.tasks, c.steps));
  }

  /** The compiled graph is free of races if and only if no task mounts a persistent workspace of a task it is not
      ordered with: results and volumes never race on their own. */
  lemma RaceFreeExactly(m: Executor.Machine, ws: map<string, WorkspaceSource>, spec: PipelineSpec, c: Compiled)
    requires Wired(ws, spec, c) && ProperNames(spec)
    ensures Executor.Job(c.graph, c.root, m).RaceFree() <==> NothingShared(ws, spec, c)
  {
    hide RegularTasks, FinalTasks, ProperNames, TasksApart, TaskBefore;
    var j := Executor.Job(c.graph, c.root, m);
    if NothingShared(ws, spec, c) {
      forall a, b | 0 <= a < |c.graph| && 0 <= b < |c.graph| && Executor.Unordered(c.graph, a, b)
        ensures Writes(c.graph[a]) !! Accesses(c.graph[b])
      {
        PairDoesNotRace(ws, spec, c, a, b);
      }
    }
    if j.RaceFree() {
      forall t, u | 0 <= t < u < |c.steps| && c.steps[t] != [] && c.steps[u] != [] && !TaskBefore(spec.tasks, t, u)
        ensures TasksApart(c.graph, ws, spec.tasks[t], c.steps[t], spec.tasks[u], c.steps[u])
      {
        RegularTasksMustBeApart(m, ws, spec, c, t, u);
      }
      forall e, f | 0 <= e < f < |c.finals| && c.finals[e] != [] && c.finals[f] != []
        ensures TasksApart(c.graph, ws, spec.finals[e], c.finals[e], spec.finals[f], c.finals[f])
      {
        FinalTasksMustBeApart(m, ws, spec, c, e, f);
      }
    }
  }

  // ---------------------------------------------------------------- the condition, from the names alone

  /** Two tasks whose persistent workspaces meet neither each other nor the results the other one touches. */
  ghost predicate ApartByName(ws: map<string, WorkspaceSource>, t: PipelineTask, u: PipelineTask) {
    && SharedByTask(ws, t) !! SharedByTask(ws, u)
    && SharedByTask(ws, t) !! {ResultsOfTask(u)} + ResultsOf(u.runAfter)
    && SharedByTask(ws, u) !! {ResultsOfTask(t)} + ResultsOf(t.runAfter)
  }

  ghost predicate FinalsApartByName(ws: map<string, WorkspaceSource>, e: PipelineTask, f: PipelineTask,
                                    read: set<string>)
  {
    && SharedByTask(ws, e) !! SharedByTask(ws, f)
    && SharedByTask(ws, e) + SharedByTask(ws, f) !! read
  }

  ghost predicate NothingSharedByName(ws: map<string, WorkspaceSource>, spec: PipelineSpec, c: Compiled)
    requires |c.steps| == |spec.tasks| && |c.finals| == |spec.finals|
  {
    && (forall t, u ::
          0 <= t < u < |c.steps| && c.steps[t] != [] && c.steps[u] != [] && !TaskBefore(spec.tasks, t, u) ==>
          ApartByName(ws, spec.tasks[t], spec.tasks[u]))
    && (forall e, f :: 0 <= e < f < |c.finals| && c.finals[e] != [] && c.finals[f] != [] ==>
          FinalsApartByName(ws, spec.finals[e], spec.finals[f], RegularResults(spec.tasks, c.steps)))
  }

  /** Workspaces, too, have names without a slash. */
  ghost predicate ProperWorkspaces(run: string, ws: map<string, WorkspaceSource>) {
    '/' !in run && CachesNamed(run, ws) && forall w :: w in ws ==> '/' !in w
  }

  lemma WorkspaceIsNoVolume(run: string, ws: map<string, WorkspaceSource>, t: PipelineTask, u: string, id: string)
    requires ProperWorkspaces(run, ws) && id in SharedByTask(ws, t) && IsName(u)
    ensures !IsVolume(u, id) && !IsVolume("finally/" + u, id) && id != "finally/" + u + "/results"
  {
    Separators();
    var x :| x in t.workspaces && x.workspace in ws && ws[x.workspace].CacheSource? && id == ws[x.workspace].cacheId;
    var w := x.workspace;
    assert id == run + "/" + w;
    if IsVolume(u, id) {
      var v :| id == u + "/volume/" + v;
      assert id == u + "/" + ("volume" + "/" + v);
      FirstSegment(run, u, w, "volume" + "/" + v);
      HasSlash("volume", v, w);
    }
    if IsVolume("finally/" + u, id) || id == "finally/" + u + "/results" {
      var y := Tail("finally/" + u, id);
      assert id == "finally" + "/" + (u + "/" + y);
      FirstSegment(run, "finally", w, u + "/" + y);
      HasSlash(u, y, w);
    }
  }

  lemma UntouchedByName(g: Graph, run: string, ws: map<string, WorkspaceSource>, t: PipelineTask, u: PipelineTask,
                        ids: seq<OpId>)
    requires ProperWorkspaces(run, ws) && IsName(u.name) && ids != []
    requires CacheUses(g, ids, u.name, SharedByTask(ws, u), ResultsOf(u.runAfter))
    ensures Untouched(g, SharedByTask(ws, t), ids) <==>
        SharedByTask(ws, t) !! {ResultsOfTask(u)} + ResultsOf(u.runAfter) + SharedByTask(ws, u)
  {
    forall id | id in SharedByTask(ws, t)
      ensures !IsVolume(u.name, id)
    {
      WorkspaceIsNoVolume(run, ws, t, u.name, id);
    }
    MountedCaches(g, SharedByTask(ws, t), ids, u.name, SharedByTask(ws, u), ResultsOf(u.runAfter));
  }

  lemma FinalUntouchedByName(g: Graph, run: string, ws: map<string, WorkspaceSource>, e: PipelineTask, f: PipelineTask,
                             ids: seq<OpId>, read: set<string>)
    requires ProperWorkspaces(run, ws) && IsName(f.name) && ids != []
    requires CacheUses(g, ids, "finally/" + f.name, SharedByTask(ws, f), read)
    ensures Untouched(g, SharedByTask(ws, e), ids) <==> SharedByTask(ws, e) !! read + SharedByTask(ws, f)
  {
    forall id | id in SharedByTask(ws, e)
      ensures !IsVolume("finally/" + f.name, id) && id != "finally/" + f.name + "/results"
    {
      WorkspaceIsNoVolume(run, ws, e, f.name, id);
    }
    MountedCaches(g, SharedByTask(ws, e), ids, "finally/" + f.name, SharedByTask(ws, f), read);
  }

  lemma MountedCaches(g: Graph, caches: set<string>, ids: seq<OpId>, task: string, shared: set<string>,
                      read: set<string>)
    requires ids != [] && CacheUses(g, ids, task, shared, read)
    requires forall id :: id in caches ==> !IsVolume(task, id)
    ensures Untouched(g, caches, ids) <==> caches !! {task + "/results"} + read + shared
  {
    assert CacheUse(g[ids[0]], task, shared, read);
    if Untouched(g, caches, ids) {
      assert caches !! Accesses(g[ids[0]]);
      assert {task + "/results"} + read + shared <= Accesses(g[ids[0]]);
    } else {
      var j :| 0 <= j < |ids| && ids[j] < |g| && !(caches !! Accesses(g[ids[j]]));
      assert CacheUse(g[ids[j]], task, shared, read);
    }
  }

  /** When no workspace has a slash in its name, the condition can be read off the pipeline: unordered tasks share no
      persistent workspace, and none of their workspaces is, by its name, the results of a task. */
  lemma SharingByName(run: string, ws: map<string, WorkspaceSource>, spec: PipelineSpec, c: Compiled)
    requires Wired(ws, spec, c) && ProperNames(spec) && ProperWorkspaces(run, ws)
    ensures NothingShared(ws, spec, c) <==> NothingSharedByName(ws, spec, c)
  {
    hide TaskBefore, UniqueNames, ProperWorkspaces;
    forall t, u | 0 <= t < u < |c.steps| && c.steps[t] != [] && c.steps[u] != []
      ensures TasksApart(c.graph, ws, spec.tasks[t], c.steps[t], spec.tasks[u], c.steps[u]) <==>
          ApartByName(ws, spec.tasks[t], spec.tasks[u])
    {
      PairByName(run, ws, spec, c, t, u);
    }
    forall e, f | 0 <= e < f < |c.finals| && c.finals[e] != [] && c.finals[f] != []
      ensures TasksApart(c.graph, ws, spec.finals[e], c.finals[e], spec.finals[f], c.finals[f]) <==>
          FinalsApartByName(ws, spec.finals[e], spec.finals[f], RegularResults(spec.tasks, c.steps))
    {
      FinalPairByName(run, ws, spec, c, e, f);
    }
  }

  lemma RegularUses(ws: map<string, WorkspaceSource>, spec: PipelineSpec, c: Compiled, t: nat)
    requires Wired(ws, spec, c) && t < |c.steps|
    ensures CacheUses(c.graph, c.steps[t], spec.tasks[t].name, SharedByTask(ws, spec.tasks[t]),
        ResultsOf(spec.tasks[t].runAfter))
  {
    assert RegularTask(spec.tasks, c.graph, ws, c.steps, t);
  }

  lemma FinalUses(ws: map<string, WorkspaceSource>, spec: PipelineSpec, c: Compiled, f: nat)
    requires Wired(ws, spec, c) && f < |c.finals|
    ensures CacheUses(c.graph, c.finals[f], "finally/" + spec.finals[f].name, SharedByTask(ws, spec.finals[f]),
        RegularResults(spec.tasks, c.steps))
  {
    assert FinalTask(spec.finals, c.graph, ws, c.finals, f, RegularEnds(spec.tasks, c.steps),
      RegularResults(spec.tasks, c.steps));
  }

  lemma PairByName(run: string, ws: map<string, WorkspaceSource>, spec: PipelineSpec, c: Compiled, t: nat, u: nat)
    requires Wired(ws, spec, c) && ProperNames(spec) && ProperWorkspaces(run, ws)
    requires t < |c.steps| && u < |c.steps| && c.steps[t] != [] && c.steps[u] != []
    ensures TasksApart(c.graph, ws, spec.tasks[t], c.steps[t], spec.tasks[u], c.steps[u]) <==>
        ApartByName(ws, spec.tasks[t], spec.tasks[u])
  {
    hide UniqueNames, ProperWorkspaces, Untouched, CacheUses, SharedByTask, ResultsOf, RegularTasks, FinalTasks,
      RootWired,
      WellFormed, Consecutive, AllOwned, AllSteps;
    RegularUses(ws, spec, c, t);
    RegularUses(ws, spec, c, u);
    assert spec.tasks[t] in spec.tasks && spec.tasks[u] in spec.tasks;
    UntouchedByName(c.graph, run, ws, spec.tasks[t], spec.tasks[u], c.steps[u]);
    UntouchedByName(c.graph, run, ws, spec.tasks[u], spec.tasks[t], c.steps[t]);
  }

  lemma FinalPairByName(run: string, ws: map<string, WorkspaceSource>, spec: PipelineSpec, c: Compiled, e: nat, f: nat)
    requires Wired(ws, spec, c) && ProperNames(spec) && ProperWorkspaces(run, ws)
    requires e < |c.finals| && f < |c.finals| && c.finals[e] != [] && c.finals[f] != []
    ensures TasksApart(c.graph, ws, spec.finals[e], c.finals[e], spec.finals[f], c.finals[f]) <==>
        FinalsApartByName(ws, spec.finals[e], spec.finals[f], RegularResults(spec.tasks, c.steps))
  {
    hide UniqueNames, ProperWorkspaces, Untouched, CacheUses, SharedByTask, RegularResults, RegularTasks, FinalTasks,
      RootWired, WellFormed, Consecutive, AllOwned, AllSteps;
    FinalUses(ws, spec, c, e);
    FinalUses(ws, spec, c, f);
    var read := RegularResults(spec.tasks, c.steps);
    assert spec.finals[e] in spec.finals && spec.finals[f] in spec.finals;
    FinalUntouchedByName(c.graph, run, ws, spec.finals[e], spec.finals[f], c.finals[f], read);
    FinalUntouchedByName(c.graph, run, ws, spec.finals[f], spec.finals[e], c.finals[e], read);
  }
}
