/** What a failure stops, and what it does not. */
module Failures {
  import opened Llb
  import opened Tekton
  import opened PipelineRun
  import opened FinalWiring
  import opened Ordering
  import opened Precedence
  import opened Execution
  import opened Executor

  ghost predicate Did(d: Config, k: OpId) {
    k < |d.status| && d.status[k].Succeeded?
  }

  /** The operation has come to an end, well or badly. */
  ghost predicate Finished(d: Config, k: OpId) {
    k < |d.status| && (d.status[k].Succeeded? || d.status[k].Failed?)
  }

  /** Failure containment, for every step there is: once a step has failed, whatever the pipeline puts after it
      never starts: later steps of its task, steps of dependent tasks, finally steps, the collecting step. */
  lemma FailedStepStopsDependents(m: Machine, ws: map<string, WorkspaceSource>, spec: PipelineSpec, c: Compiled,
                                  d: Config,
                                  s: seq<OpId>, f: OpId, k: OpId)
    requires Wired(ws, spec, c) && UniqueNames(spec) && Reachable(JobOf(c, m), d) && JobOf(c, m).Schedule(d, s)
    requires f < |d.status| && d.status[f].Failed? && Precedes(spec, c, f, k)
    ensures k < |JobOf(c, m).Run(d, s).status| && JobOf(c, m).Run(d, s).status[k].Waiting?
  {
    ReachableInv(JobOf(c, m), d);
    KeptByTheGraph(ws, spec, c, f, k);
    FailureIsContained(JobOf(c, m), d, s, f, k);
  }

  /** And nothing else is blocked: a process left unfinished by a complete run is behind a failed process that the
      pipeline itself puts before it, or behind an image or file that failed. */
  lemma OnlyDependentsAreStopped(m: Machine, ws: map<string, WorkspaceSource>, spec: PipelineSpec, c: Compiled,
                                 d: Config, k: OpId)
    returns (f: OpId)
    requires Wired(ws, spec, c) && UniqueNames(spec) && Reachable(JobOf(c, m), d) && JobOf(c, m).Stuck(d)
    requires k < |c.graph| && c.graph[k].Exec? && !Finished(d, k)
    ensures f < |d.status| && d.status[f].Failed? && Before(c.graph, f, k)
    ensures c.graph[f].Exec? ==> Precedes(spec, c, f, k)
  {
    ReachableInv(JobOf(c, m), d);
    RootReachesEveryStep(ws, spec, c, k);
    CompleteMeansFinished(JobOf(c, m), d, k);
    f :| 0 <= f < |c.graph| && Ancestor(c.graph, f, k) && d.status[f].Failed?;
    if c.graph[f].Exec? {
      ProcessesAreOrderedExactly(ws, spec, c, f, k);
    }
  }

  /** The images and files a process needs are there. */
  ghost predicate Provided(c: Compiled, d: Config, k: OpId) {
    forall x :: 0 <= x < |c.graph| && !c.graph[x].Exec? && Before(c.graph, x, k) ==> Did(d, x)
  }

  lemma AncestorsDid(m: Machine, c: Compiled, d: Config, k: OpId)
    requires Reachable(JobOf(c, m), d) && Finished(d, k)
    ensures forall x :: Before(c.graph, x, k) ==> Did(d, x)
  {
    ReachableInv(JobOf(c, m), d);
    forall x | Before(c.graph, x, k)
      ensures Did(d, x)
    {
      StartedAfterAncestors(JobOf(c, m), d, x, k);
    }
  }

  /** When a run is complete, a process has finished if and only if everything the pipeline puts before it, and its
      images and files, have succeeded. */
  lemma ProcessesFinishExactly(m: Machine, ws: map<string, WorkspaceSource>, spec: PipelineSpec, c: Compiled, d: Config,
                               k: OpId)
    requires Wired(ws, spec, c) && UniqueNames(spec) && Reachable(JobOf(c, m), d) && JobOf(c, m).Stuck(d)
    requires k < |c.graph| && c.graph[k].Exec?
    ensures Finished(d, k) <==> (forall a :: Precedes(spec, c, a, k) ==> Did(d, a)) && Provided(c, d, k)
  {
    if Finished(d, k) {
      AncestorsDid(m, c, d, k);
      forall a | Precedes(spec, c, a, k)
        ensures Did(d, a)
      {
        KeptByTheGraph(ws, spec, c, a, k);
      }
    } else {
      var f := OnlyDependentsAreStopped(m, ws, spec, c, d, k);
      assert !Did(d, f);
    }
  }

  /** So a finally step runs to its end if and only if every regular step of the pipeline has succeeded, and every
      earlier step of its own task, and its images and files: after a failed regular step no finally step runs,
      and what other finally tasks do makes no difference. */
  lemma FinallyRunsExactly(m: Machine, ws: map<string, WorkspaceSource>, spec: PipelineSpec, c: Compiled, d: Config,
                           f: nat, j: nat)
    requires Wired(ws, spec, c) && UniqueNames(spec) && Reachable(JobOf(c, m), d) && JobOf(c, m).Stuck(d)
    requires StepAt(c.finals, f, j)
    ensures Finished(d, c.finals[f][j]) <==>
            && (forall a :: IsStep(c.steps, a) ==> Did(d, a))
            && (forall i :: 0 <= i < j ==> Did(d, c.finals[f][i]))
            && Provided(c, d, c.finals[f][j])
  {
    var k := c.finals[f][j];
    FinalFacts(ws, spec, c, f, j);
    ProcessesFinishExactly(m, ws, spec, c, d, k);
    forall a | IsStep(c.steps, a)
      ensures Precedes(spec, c, a, k)
    {
      assert IsStep(c.finals, k);
    }
    forall i | 0 <= i < j
      ensures Precedes(spec, c, c.finals[f][i], k)
    {
      assert StepAt(c.finals, f, i);
      assert FinalBefore(c, c.finals[f][i], k);
    }
    forall a | Precedes(spec, c, a, k)
      ensures IsStep(c.steps, a) || exists i :: 0 <= i < j && c.finals[f][i] == a
    {
      OnlyTheseBefore(ws, spec, c, a, f, j);
    }
  }

  lemma OnlyTheseBefore(ws: map<string, WorkspaceSource>, spec: PipelineSpec, c: Compiled, a: OpId, f: nat, j: nat)
    requires Wired(ws, spec, c) && UniqueNames(spec) && StepAt(c.finals, f, j) && Precedes(spec, c, a, c.finals[f][j])
    ensures IsStep(c.steps, a) || exists i :: 0 <= i < j && c.finals[f][i] == a
  {
    KeptByTheGraph(ws, spec, c, a, c.finals[f][j]);
    if IsStep(c.finals, a) {
      var e, i :| StepAt(c.finals, e, i) && c.finals[e][i] == a;
      FinalFacts(ws, spec, c, e, i);
      AboveFinal(ws, spec, c, a, f, j);
    }
  }

  /** A complete run without failures has succeeded in every step and in the root. */
  lemma FailureFreeRunsFinish(m: Machine, ws: map<string, WorkspaceSource>, spec: PipelineSpec, c: Compiled, d: Config,
                              b: OpId)
    requires Wired(ws, spec, c) && UniqueNames(spec) && Reachable(JobOf(c, m), d) && JobOf(c, m).Stuck(d)
    requires forall k :: 0 <= k < |d.status| ==> !d.status[k].Failed?
    requires b == c.root || IsStep(c.steps, b) || IsStep(c.finals, b)
    ensures Did(d, b)
  {
    ReachableInv(JobOf(c, m), d);
    if IsStep(c.steps, b) {
      var t, i :| StepAt(c.steps, t, i) && c.steps[t][i] == b;
      RegularFacts(ws, spec, c, t, i);
      RootReachesEveryStep(ws, spec, c, b);
    } else if IsStep(c.finals, b) {
      var f, j :| StepAt(c.finals, f, j) && c.finals[f][j] == b;
      FinalFacts(ws, spec, c, f, j);
      RootReachesEveryStep(ws, spec, c, b);
    }
    CompleteMeansFinished(JobOf(c, m), d, b);
  }
}
