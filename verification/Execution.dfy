/** Every run of a compiled pipeline: any schedule the solver picks, any processes in the steps. */
module Execution {
  import opened Llb
  import opened Tekton
  import opened PipelineRun
  import opened FinalWiring
  import opened Ordering
  import opened RaceFreedom
  import opened Executor
  import opened Termination
  import opened RaceWitness

  ghost function JobOf(c: Compiled, m: Machine): Job {
    Job(c.graph, c.root, m)
  }

  /** `d` is reached from a fresh start with some caches, by some schedule. */
  ghost predicate Reachable(j: Job, d: Config) {
    j.Valid() && exists c, s :: j.Initial(c) && j.Schedule(c, s) && d == j.Run(c, s)
  }

  lemma ReachableInv(j: Job, d: Config)
    requires Reachable(j, d)
    ensures j.Inv(d)
  {
    var c, s :| j.Initial(c) && j.Schedule(c, s) && d == j.Run(c, s);
    RunKeepsInv(j, c, s);
  }

  // ---------------------------------------------------------------- schedule independence

  /** Schedule independence: when no task mounts a persistent workspace of a task it is not
      ordered with, every complete run from the same
      caches ends, statuses, file systems and caches alike, where running the operations one at a time in listed
      order ends; and no schedule, however far it got, can miss that end or outlast it. */
  lemma SchedulesDoNotMatter(m: Machine, ws: map<string, WorkspaceSource>, spec: PipelineSpec, c: Compiled,
                             start: Config, s: seq<OpId>, t: seq<OpId>) returns (rest: seq<OpId>)
    requires Wired(ws, spec, c) && ProperNames(spec) && NothingShared(ws, spec, c)
    requires JobOf(c, m).Initial(start) && JobOf(c, m).Complete(start, s) && JobOf(c, m).Schedule(start, t)
    ensures JobOf(c, m).Run(start, s) == InOrder(JobOf(c, m), start, |s|)
    ensures |t| <= |s|
    ensures JobOf(c, m).Complete(start, t + rest) && JobOf(c, m).Run(start, t + rest) == JobOf(c, m).Run(start, s)
  {
    var j := JobOf(c, m);
    RaceFreeExactly(m, ws, spec, c);
    CompleteRunsAreInOrder(j, start, s);
    rest := EveryScheduleConverges(j, start, s, t);
    SameSize(t + rest, s);
  }

  /** When no process runs for ever, there always is such an end: every schedule is bounded in length and can be
      continued to the end of the one-at-a-time run. */
  lemma RunsEndAlike(m: Machine, r: Ranking, ws: map<string, WorkspaceSource>, spec: PipelineSpec, c: Compiled,
                     start: Config, t: seq<OpId>) returns (rest: seq<OpId>)
    requires Wired(ws, spec, c) && ProperNames(spec) && NothingShared(ws, spec, c) && Terminating(m, r)
    requires JobOf(c, m).Initial(start) && JobOf(c, m).Schedule(start, t)
    ensures JobOf(c, m).Complete(start, t + rest) && |t + rest| <= |c.graph| * (r.bound + 2)
    ensures JobOf(c, m).Run(start, t + rest) == InOrder(JobOf(c, m), start, |c.graph| * (r.bound + 2))
  {
    RaceFreeExactly(m, ws, spec, c);
    rest := EveryRunEndsAlike(JobOf(c, m), r, start, t);
  }

  /** And the condition is exact: when one does mount such a workspace, some processes, none of which
      runs for ever, end differently under two schedules from the same caches. */
  lemma SharingShows(ws: map<string, WorkspaceSource>, spec: PipelineSpec, c: Compiled, start: Config)
    returns (m: Machine, s: seq<OpId>, t: seq<OpId>)
    requires Wired(ws, spec, c) && ProperNames(spec) && !NothingShared(ws, spec, c)
    requires |start.status| == |c.graph| && forall k :: 0 <= k < |c.graph| ==> start.status[k].Waiting?
    ensures Terminating(m, OneTurn()) && JobOf(c, m).Initial(start)
    ensures JobOf(c, m).Complete(start, s) && JobOf(c, m).Complete(start, t)
    ensures JobOf(c, m).Run(start, s) != JobOf(c, m).Run(start, t)
  {
    var a, b, id := Race(ws, spec, c);
    m := Marker(id);
    RootReachesEveryStep(ws, spec, c, a);
    RootReachesEveryStep(ws, spec, c, b);
    MarkersEnd(id);
    s, t := RacesShow(c.graph, c.root, a, b, id, start);
  }

  lemma Race(ws: map<string, WorkspaceSource>, spec: PipelineSpec, c: Compiled)
    returns (a: OpId, b: OpId, id: string)
    requires Wired(ws, spec, c) && ProperNames(spec) && !NothingShared(ws, spec, c)
    ensures a < |c.graph| && b < |c.graph| && Unordered(c.graph, a, b)
    ensures id in Writes(c.graph[a]) && id in Accesses(c.graph[b])
  {
    RaceFreeExactly(Marker(""), ws, spec, c);
    a, b :| 0 <= a < |c.graph| && 0 <= b < |c.graph| && Unordered(c.graph, a, b)
      && !(Writes(c.graph[a]) !! Accesses(c.graph[b]));
    id :| id in Writes(c.graph[a]) && id in Accesses(c.graph[b]);
  }

  /** The reference really is one operation at a time: while one runs, everything listed after it has not started. */
  lemma ReferenceIsSequential(m: Machine, ws: map<string, WorkspaceSource>, spec: PipelineSpec, c: Compiled,
                              start: Config, n: nat, a: OpId, b: OpId)
    requires Wired(ws, spec, c) && JobOf(c, m).Initial(start) && a < b < |c.graph|
    ensures var d := InOrder(JobOf(c, m), start, n);
            |d.status| == |c.graph| && (d.status[a].Running? ==> d.status[b].Waiting?)
              && (d.status[b].Running? ==> !d.status[a].Running?)
  {
    var j := JobOf(c, m);
    assert Frontier(j, start, 0);
    InOrderIsOneAtATime(j, start, n, 0, a, b);
  }

  // ---------------------------------------------------------------- order over whole runs

  /** In every reachable configuration: a step that has started finds all earlier steps of its task, and all steps
      of the tasks before it, succeeded. */
  lemma StartedInOrder(m: Machine, ws: map<string, WorkspaceSource>, spec: PipelineSpec, c: Compiled, d: Config, t: nat,
                       i: nat, u: nat, j: nat)
    requires Wired(ws, spec, c) && Reachable(JobOf(c, m), d) && StepAt(c.steps, t, i) && StepAt(c.steps, u, j)
    requires (t == u && i < j) || TaskBefore(spec.tasks, t, u)
    ensures c.steps[t][i] < |d.status| && c.steps[u][j] < |d.status|
    ensures !d.status[c.steps[u][j]].Waiting? ==> d.status[c.steps[t][i]].Succeeded?
  {
    OrderIsKept(ws, spec, c, t, i, u, j);
    ReachableInv(JobOf(c, m), d);
    if !d.status[c.steps[u][j]].Waiting? {
      StartedAfterAncestors(JobOf(c, m), d, c.steps[t][i], c.steps[u][j]);
    }
  }

  /** A started finally step implies that every regular step has succeeded: the barrier, and also why finally
      tasks do not run after a failure. */
  lemma FinallyAfterSuccess(m: Machine, ws: map<string, WorkspaceSource>, spec: PipelineSpec, c: Compiled, d: Config,
                            t: nat, i: nat, f: nat, j: nat)
    requires Wired(ws, spec, c) && UniqueNames(spec) && Reachable(JobOf(c, m), d) && StepAt(c.steps, t, i)
        && StepAt(c.finals, f, j)
    ensures c.steps[t][i] < |d.status| && c.finals[f][j] < |d.status|
    ensures !d.status[c.finals[f][j]].Waiting? ==> d.status[c.steps[t][i]].Succeeded?
  {
    FinallyBarrier(ws, spec, c, t, i, f, j);
    ReachableInv(JobOf(c, m), d);
    if !d.status[c.finals[f][j]].Waiting? {
      StartedAfterAncestors(JobOf(c, m), d, c.steps[t][i], c.finals[f][j]);
    }
  }
}
