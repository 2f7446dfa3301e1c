/** Which processes of a compiled pipeline wait for which: the order of all of them, exactly. */
module Precedence {
  import opened Llb
  import opened Tekton
  import opened PipelineRun
  import opened FinalWiring
  import opened Ordering

  /** Steps of regular tasks: one task in its order, or the one's task in the closure of the other's `runAfter`. */
  ghost predicate RegularBefore(spec: PipelineSpec, c: Compiled, a: OpId, b: OpId) {
    exists t: nat, i: nat, u: nat, j: nat ::
      StepAt(c.steps, t, i) && c.steps[t][i] == a && StepAt(c.steps, u, j) && c.steps[u][j] == b
      && u < |spec.tasks| && ((t == u && i < j) || TaskBefore(spec.tasks, t, u))
  }

  /** Steps of one finally task, in its order. */
  ghost predicate FinalBefore(c: Compiled, a: OpId, b: OpId) {
    exists f: nat, i: nat, j: nat ::
      StepAt(c.finals, f, i) && c.finals[f][i] == a && StepAt(c.finals, f, j) && c.finals[f][j] == b && i < j
  }

  /** What the pipeline puts before what: regular steps as `runAfter` asks, all of them before the finally steps,
      and everything before the collecting step. */
  ghost predicate Precedes(spec: PipelineSpec, c: Compiled, a: OpId, b: OpId) {
    || RegularBefore(spec, c, a, b)
    || (IsStep(c.steps, a) && IsStep(c.finals, b))
    || FinalBefore(c, a, b)
    || ((IsStep(c.steps, a) || IsStep(c.finals, a)) && b == c.root)
  }

  /** A process before a regular step is one that the pipeline puts there. */
  lemma AboveRegular(ws: map<string, WorkspaceSource>, spec: PipelineSpec, c: Compiled, a: OpId, u: nat, j: nat)
    requires Wired(ws, spec, c) && UniqueNames(spec) && StepAt(c.steps, u, j) && a < |c.graph| && c.graph[a].Exec?
    requires Before(c.graph, a, c.steps[u][j])
    ensures RegularBefore(spec, c, a, c.steps[u][j])
  {
    RootReachesEveryStep(ws, spec, c, a);
    AncestorIsEarlier(c.graph, a, c.steps[u][j]);
    RootIsApart(c);
    if IsStep(c.finals, a) {
      var e, i :| StepAt(c.finals, e, i) && c.finals[e][i] == a;
      FinallyBarrier(ws, spec, c, u, j, e, i);
    }
    var t: nat, i: nat :| StepAt(c.steps, t, i) && c.steps[t][i] == a;
    NothingElseIsOrdered(ws, spec, c, t, i, u, j);
  }

  /** A process before a finally step is a regular step, or an earlier step of the same task. */
  lemma AboveFinal(ws: map<string, WorkspaceSource>, spec: PipelineSpec, c: Compiled, a: OpId, f: nat, j: nat)
    requires Wired(ws, spec, c) && UniqueNames(spec) && StepAt(c.finals, f, j) && a < |c.graph| && c.graph[a].Exec?
    requires Before(c.graph, a, c.finals[f][j])
    ensures IsStep(c.steps, a) || exists i :: 0 <= i < j && c.finals[f][i] == a
  {
    RootReachesEveryStep(ws, spec, c, a);
    AncestorIsEarlier(c.graph, a, c.finals[f][j]);
    RootIsApart(c);
    if !IsStep(c.steps, a) {
      var e, i :| StepAt(c.finals, e, i) && c.finals[e][i] == a;
      FinalsAreParallel(ws, spec, c, e, i, f, j);
    }
  }

  lemma KeptByTheGraph(ws: map<string, WorkspaceSource>, spec: PipelineSpec, c: Compiled, a: OpId, b: OpId)
    requires Wired(ws, spec, c) && UniqueNames(spec) && Precedes(spec, c, a, b)
    ensures Before(c.graph, a, b)
  {
    if RegularBefore(spec, c, a, b) {
      var t: nat, i: nat, u: nat, j: nat :|
        StepAt(c.steps, t, i) && c.steps[t][i] == a && StepAt(c.steps, u, j) && c.steps[u][j] == b
        && u < |spec.tasks| && ((t == u && i < j) || TaskBefore(spec.tasks, t, u));
      OrderIsKept(ws, spec, c, t, i, u, j);
    } else if FinalBefore(c, a, b) {
      var f: nat, i: nat, j: nat :|
        StepAt(c.finals, f, i) && c.finals[f][i] == a && StepAt(c.finals, f, j) && c.finals[f][j] == b && i < j;
      FinalOrderIsKept(ws, spec, c, f, i, j);
    } else if IsStep(c.steps, a) {
      var t, i :| StepAt(c.steps, t, i) && c.steps[t][i] == a;
      RegularFacts(ws, spec, c, t, i);
      if b == c.root {
        RootReachesEveryStep(ws, spec, c, a);
      } else {
        var f, j :| StepAt(c.finals, f, j) && c.finals[f][j] == b;
        FinallyBarrier(ws, spec, c, t, i, f, j);
      }
    } else {
      var f, j :| StepAt(c.finals, f, j) && c.finals[f][j] == a;
      FinalAboveRoot(ws, spec, c, f, j);
    }
  }

  /** The whole order: of any two processes, regular, finally or the collecting one, the graph makes the second wait
      for the first if and only if the pipeline puts the first before the second. */
  lemma ProcessesAreOrderedExactly(ws: map<string, WorkspaceSource>, spec: PipelineSpec, c: Compiled, a: OpId, b: OpId)
    requires Wired(ws, spec, c) && UniqueNames(spec)
    requires a < |c.graph| && b < |c.graph| && c.graph[a].Exec? && c.graph[b].Exec?
    ensures Before(c.graph, a, b) <==> Precedes(spec, c, a, b)
  {
    if Precedes(spec, c, a, b) {
      KeptByTheGraph(ws, spec, c, a, b);
    }
    if Before(c.graph, a, b) {
      RootReachesEveryStep(ws, spec, c, a);
      RootReachesEveryStep(ws, spec, c, b);
      if IsStep(c.steps, b) {
        var u, j :| StepAt(c.steps, u, j) && c.steps[u][j] == b;
        AboveRegular(ws, spec, c, a, u, j);
      } else if IsStep(c.finals, b) {
        var f, j :| StepAt(c.finals, f, j) && c.finals[f][j] == b;
        AboveFinal(ws, spec, c, a, f, j);
        if !IsStep(c.steps, a) {
          var i :| 0 <= i < j && c.finals[f][i] == a;
          assert StepAt(c.finals, f, i);
        }
      }
    }
  }
}
