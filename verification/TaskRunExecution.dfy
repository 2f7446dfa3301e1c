/** Every run of a compiled TaskRun. */
module TaskRunExecution {
  import opened Llb
  import opened Tekton
  import opened TaskRun
  import opened Ordering
  import opened Execution
  import opened Executor
  import opened Termination

  /** The processes are the steps, each after all those before it. */
  ghost predicate Sequential(c: CompiledTask) {
    && WellFormed(c.graph) && c.steps != []
    && (forall b :: 0 <= b < |c.graph| && c.graph[b].Exec? <==> b in c.steps)
    && (forall i, j :: 0 <= i < |c.steps| && 0 <= j < |c.steps| ==>
          (Before(c.graph, c.steps[i], c.steps[j]) <==> i < j))
  }

  lemma TaskRunIsSequential(ctx: Context, run: TaskRunObject)
    requires CompileTaskRun(ctx, run).Done?
    ensures Sequential(CompileTaskRun(ctx, run).value)
  {
    StepsAreThere(ctx, run);
    hide CompileTaskRun;
    TaskRunIsAChain(ctx, run, 0, 0);
    var c := CompileTaskRun(ctx, run).value;
    forall i, j | 0 <= i < |c.steps| && 0 <= j < |c.steps|
      ensures Before(c.graph, c.steps[i], c.steps[j]) <==> i < j
    {
      TaskRunIsAChain(ctx, run, i, j);
    }
  }

  lemma StepsAreThere(ctx: Context, run: TaskRunObject)
    requires CompileTaskRun(ctx, run).Done?
    ensures CompileTaskRun(ctx, run).value.steps != []
  {
  }

  /** The solver is given the last step. */
  ghost function TaskJob(c: CompiledTask, m: Machine): (j: Job)
    requires Sequential(c)
    ensures j.Valid()
  {
    var last := c.steps[|c.steps| - 1];
    assert last in c.steps;
    Job(c.graph, last, m)
  }

  /** No two operations of a TaskRun race, whatever its steps do to its caches. */
  lemma TaskRunsAreRaceFree(c: CompiledTask, m: Machine)
    requires Sequential(c)
    ensures TaskJob(c, m).RaceFree()
  {
    forall a, b | 0 <= a < |c.graph| && 0 <= b < |c.graph| && Unordered(c.graph, a, b)
      ensures Writes(c.graph[a]) !! Accesses(c.graph[b])
    {
      if c.graph[a].Exec? && c.graph[b].Exec? {
        OneComesFirst(c, a, b);
      }
    }
  }

  lemma OneComesFirst(c: CompiledTask, a: OpId, b: OpId)
    requires Sequential(c) && a < |c.graph| && b < |c.graph| && a != b && c.graph[a].Exec? && c.graph[b].Exec?
    ensures Before(c.graph, a, b) || Before(c.graph, b, a)
  {
    assert a in c.steps && b in c.steps;
    var i :| 0 <= i < |c.steps| && c.steps[i] == a;
    var j :| 0 <= j < |c.steps| && c.steps[j] == b;
    assert Before(c.graph, c.steps[i], c.steps[j]) || Before(c.graph, c.steps[j], c.steps[i]);
  }

  /** So every complete run of a TaskRun ends like every other from the same caches, where running the steps one at a
      time ends, and no schedule can miss that end. */
  lemma TaskRunSchedulesDoNotMatter(c: CompiledTask, m: Machine, start: Config, s: seq<OpId>, t: seq<OpId>)
    returns (rest: seq<OpId>)
    requires Sequential(c)
    requires TaskJob(c, m).Initial(start) && TaskJob(c, m).Complete(start, s) && TaskJob(c, m).Schedule(start, t)
    ensures TaskJob(c, m).Run(start, s) == InOrder(TaskJob(c, m), start, |s|) && |t| <= |s|
    ensures TaskJob(c, m).Complete(start, t + rest)
    ensures TaskJob(c, m).Run(start, t + rest) == TaskJob(c, m).Run(start, s)
  {
    TaskRunsAreRaceFree(c, m);
    CompleteRunsAreInOrder(TaskJob(c, m), start, s);
    rest := EveryScheduleConverges(TaskJob(c, m), start, s, t);
    SameSize(t + rest, s);
  }

  /** When no process runs for ever, there always is that end. */
  lemma TaskRunsEndAlike(c: CompiledTask, m: Machine, r: Ranking, start: Config, t: seq<OpId>)
    returns (rest: seq<OpId>)
    requires Sequential(c) && Terminating(m, r)
    requires TaskJob(c, m).Initial(start) && TaskJob(c, m).Schedule(start, t)
    ensures TaskJob(c, m).Complete(start, t + rest)
    ensures TaskJob(c, m).Run(start, t + rest) == InOrder(TaskJob(c, m), start, |c.graph| * (r.bound + 2))
  {
    TaskRunsAreRaceFree(c, m);
    rest := EveryRunEndsAlike(TaskJob(c, m), r, start, t);
  }

  /** The steps run one after the other: one that has started finds all earlier ones succeeded. */
  lemma OneStepAtATime(c: CompiledTask, m: Machine, d: Config, i: nat, j: nat)
    requires Sequential(c) && Reachable(TaskJob(c, m), d) && i < j < |c.steps|
    ensures c.steps[i] < |d.status| && c.steps[j] < |d.status|
    ensures !d.status[c.steps[j]].Waiting? ==> d.status[c.steps[i]].Succeeded?
  {
    assert Before(c.graph, c.steps[i], c.steps[j]);
    ReachableInv(TaskJob(c, m), d);
    if !d.status[c.steps[j]].Waiting? {
      StartedAfterAncestors(TaskJob(c, m), d, c.steps[i], c.steps[j]);
    }
  }

  /** After a failed step no later one ever starts. */
  lemma FailedStepStopsTheRest(c: CompiledTask, m: Machine, d: Config, s: seq<OpId>, i: nat, j: nat)
    requires Sequential(c) && Reachable(TaskJob(c, m), d) && TaskJob(c, m).Schedule(d, s) && i < j < |c.steps|
    requires c.steps[i] < |d.status| && d.status[c.steps[i]].Failed?
    ensures var e := TaskJob(c, m).Run(d, s); c.steps[j] < |e.status| && e.status[c.steps[j]].Waiting?
  {
    assert Before(c.graph, c.steps[i], c.steps[j]);
    ReachableInv(TaskJob(c, m), d);
    FailureIsContained(TaskJob(c, m), d, s, c.steps[i], c.steps[j]);
  }

  /** Workspaces of a TaskRun are kept beside its results and volumes, under the run's name: a workspace called
      `results` is the results cache, one called `volume/v` is the volume `v`, and no other is either. */
  lemma WorkspacesOfATaskRun(run: TaskRunObject, i: nat, m: VolumeMount)
    requires i < |run.workspaces|
    ensures RunWorkspaces(run)[i].cacheId == ResultsFn(run.name).cacheId <==> run.workspaces[i] == "results"
    ensures RunWorkspaces(run)[i].cacheId == VolumeFn(run.name, m).cacheId <==>
        run.workspaces[i] == "volume/" + m.name
  {
    SlashFirst();
    SamePrefix(run.name, run.workspaces[i], "results");
    SamePrefix(run.name, run.workspaces[i], "volume/" + m.name);
    assert run.name + ("/" + "volume/") + m.name == run.name + "/" + ("volume/" + m.name);
    assert run.name + ("/" + "results") == run.name + "/" + "results";
  }

  lemma SlashFirst()
    ensures "/results" == "/" + "results" && "/volume/" == "/" + "volume/"
  {
  }

  lemma SamePrefix(p: string, a: string, b: string)
    ensures p + "/" + a == p + "/" + b <==> a == b
  {
    assert (p + "/" + a)[|p| + 1..] == a && (p + "/" + b)[|p| + 1..] == b;
  }
}
