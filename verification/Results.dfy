/** Who writes the results of a task, who reads them, and that readers find them settled. */
module Results {
  import opened Llb
  import opened Tekton
  import opened PipelineRun
  import opened Wiring
  import opened PipelineWiring
  import opened FinalWiring
  import opened Ordering
  import opened CacheIds
  import opened RaceFreedom
  import opened Execution
  import opened Executor

  // ---------------------------------------------------------------- results of regular tasks

  /** A workspace of the run is kept under this identifier. */
  ghost predicate IsWorkspace(ws: map<string, WorkspaceSource>, id: string) {
    exists w :: w in ws && ws[w].CacheSource? && ws[w].cacheId == id
  }

  lemma SharedIsWorkspace(ws: map<string, WorkspaceSource>, t: PipelineTask, id: string)
    requires id in SharedByTask(ws, t)
    ensures IsWorkspace(ws, id)
  {
  }

  /** Which workspace that can be, for the results of a regular task and of a finally task. */
  lemma ResultsAsWorkspace(run: string, ws: map<string, WorkspaceSource>, t: PipelineTask)
    requires IsName(run) && IsName(t.name) && CachesNamed(run, ws)
    ensures IsWorkspace(ws, ResultsOfTask(t)) <==>
        t.name == run && "results" in ws && ws["results"].CacheSource?
    ensures IsWorkspace(ws, ResultsOfFinal(t)) <==>
        run == "finally" && t.name + "/results" in ws && ws[t.name + "/results"].CacheSource?
  {
    Separators();
    assert ResultsOfTask(t) == t.name + "/" + "results";
    assert ResultsOfFinal(t) == "finally" + "/" + (t.name + "/results");
    forall w | w in ws && ws[w].CacheSource?
      ensures ws[w].cacheId == ResultsOfTask(t) ==> t.name == run && w == "results"
      ensures ws[w].cacheId == ResultsOfFinal(t) ==> run == "finally" && w == t.name + "/results"
    {
      if ws[w].cacheId == ResultsOfTask(t) {
        FirstSegment(run, t.name, w, "results");
      }
      if ws[w].cacheId == ResultsOfFinal(t) {
        FirstSegment(run, "finally", w, t.name + "/results");
      }
    }
  }

  /** Only the steps of a task write its results, unless a workspace goes by the same identifier. */
  lemma WritersOfResults(ws: map<string, WorkspaceSource>, spec: PipelineSpec, c: Compiled, t: nat, b: OpId)
    requires Wired(ws, spec, c) && ProperNames(spec) && t < |spec.tasks| && b < |c.graph|
    requires ResultsOfTask(spec.tasks[t]) in Writes(c.graph[b])
    ensures (exists i :: StepAt(c.steps, t, i) && c.steps[t][i] == b) || IsWorkspace(ws, ResultsOfTask(spec.tasks[t]))
  {
    var id := ResultsOfTask(spec.tasks[t]);
    var n := spec.tasks[t].name;
    assert spec.tasks[t] in spec.tasks;
    EveryProcessIsAStep(c, b);
    assert b != c.root;
    if IsStep(c.finals, b) {
      var f, j :| StepAt(c.finals, f, j) && c.finals[f][j] == b;
      FinalUse(ws, spec, c, f, j);
      assert spec.finals[f] in spec.finals;
      if id in SharedByTask(ws, spec.finals[f]) {
        SharedIsWorkspace(ws, spec.finals[f], id);
      } else {
        FinalIsNoResult(spec.finals[f].name, n, id);
      }
    } else {
      var u, i :| StepAt(c.steps, u, i) && c.steps[u][i] == b;
      RegularUse(ws, spec, c, u, i);
      assert spec.tasks[u] in spec.tasks;
      DifferentTasks(spec, t, u);
      if id in SharedByTask(ws, spec.tasks[u]) {
        SharedIsWorkspace(ws, spec.tasks[u], id);
      } else if u != t {
        TaskIdsDiffer(n, spec.tasks[u].name, id);
      }
    }
  }

  /** Readers of the results of task `t`: steps of tasks that run after it, finally steps, the collecting step. */
  ghost predicate ReadsResultsOf(spec: PipelineSpec, c: Compiled, t: nat, b: OpId)
    requires t < |spec.tasks|
  {
    || b == c.root || IsStep(c.finals, b)
    || exists u, j ::
      StepAt(c.steps, u, j) && u < |spec.tasks| && c.steps[u][j] == b && spec.tasks[t].name in spec.tasks[u].runAfter
  }

  lemma ReadersComeAfter(ws: map<string, WorkspaceSource>, spec: PipelineSpec, c: Compiled, t: nat, i: nat, b: OpId)
    requires Wired(ws, spec, c) && UniqueNames(spec) && StepAt(c.steps, t, i) && t < |spec.tasks|
        && ReadsResultsOf(spec, c, t, b)
    ensures Before(c.graph, c.steps[t][i], b)
    ensures ResultsOfTask(spec.tasks[t]) in Accesses(c.graph[b])
  {
    RegularFacts(ws, spec, c, t, i);
    NamesSeparate(spec);
    NamesStay(spec.tasks, |spec.tasks|, t);
    assert Current(spec.tasks, c.steps, |spec.tasks|, t);
    assert ResultsOfTask(spec.tasks[t]) in RegularResults(spec.tasks, c.steps);
    if b == c.root {
      assert IsStep(c.steps, c.steps[t][i]);
      RootReachesEveryStep(ws, spec, c, c.steps[t][i]);
    } else if IsStep(c.finals, b) {
      var f, j :| StepAt(c.finals, f, j) && c.finals[f][j] == b;
      FinallyBarrier(ws, spec, c, t, i, f, j);
      FinalUse(ws, spec, c, f, j);
    } else {
      var u, j :| StepAt(c.steps, u, j) && u < |spec.tasks| && c.steps[u][j] == b
        && spec.tasks[t].name in spec.tasks[u].runAfter;
      RegularUse(ws, spec, c, u, j);
      if !TaskBefore(spec.tasks, t, u) {
        UnorderedIsNotNamed(ws, spec, c, t, u, j);
      }
      OrderIsKept(ws, spec, c, t, i, u, j);
    }
  }

  /** Race freedom of results: whoever reads the results of a task mounts the cache its steps write; once the
      reader has started, every writer has succeeded, and no continuation of the run changes the contents. */
  lemma ResultsAreSettled(m: Machine, ws: map<string, WorkspaceSource>, spec: PipelineSpec, c: Compiled, d: Config,
                          s: seq<OpId>, t: nat, b: OpId)
    requires Wired(ws, spec, c) && ProperNames(spec) && t < |spec.tasks|
        && !IsWorkspace(ws, ResultsOfTask(spec.tasks[t]))
    requires Reachable(JobOf(c, m), d) && JobOf(c, m).Schedule(d, s)
    requires ReadsResultsOf(spec, c, t, b) && b < |d.status| && !d.status[b].Waiting?
    ensures forall w :: 0 <= w < |c.graph| && ResultsOfTask(spec.tasks[t]) in Writes(c.graph[w]) ==>
          w < |d.status| && d.status[w].Succeeded?
    ensures Contents(JobOf(c, m).Run(d, s), ResultsOfTask(spec.tasks[t])) == Contents(d, ResultsOfTask(spec.tasks[t]))
  {
    var j, id := JobOf(c, m), ResultsOfTask(spec.tasks[t]);
    ReachableInv(j, d);
    forall w | 0 <= w < |c.graph| && id in Writes(c.graph[w])
      ensures w < |d.status| && d.status[w].Succeeded?
    {
      WritersOfResults(ws, spec, c, t, w);
      var i :| StepAt(c.steps, t, i) && c.steps[t][i] == w;
      ReadersComeAfter(ws, spec, c, t, i, b);
      StartedAfterAncestors(j, d, w, b);
    }
    SettledContentsStay(j, d, s, id);
  }

  // ---------------------------------------------------------------- results of finally tasks

  ghost function ResultsOfFinal(f: PipelineTask): string {
    "finally/" + f.name + "/results"
  }

  /** A volume whose identifier is that of a finally task's results: it can only be the volume `results` of a task
      called `finally`, and the finally task is called `volume`. */
  lemma VolumeOrFinalResults(t: string, f: string, id: string)
    requires IsName(t) && IsName(f) && IsVolume(t, id) && id == "finally/" + f + "/results"
    ensures t == "finally" && f == "volume" && id == Id(Owner.Volume("finally", "results"))
  {
    Separators();
    var v :| id == t + "/volume/" + v;
    assert id == t + "/" + ("volume" + "/" + v);
    assert id == "finally" + "/" + (f + "/" + "results");
    assert '/' !in "finally" && '/' !in "volume";
    FirstSegment(t, "finally", "volume" + "/" + v, f + "/" + "results");
    FirstSegment("volume", f, v, "results");
  }

  lemma ResultsOrFinalResults(t: string, f: string)
    requires IsName(t) && IsName(f)
    ensures t + "/results" != "finally/" + f + "/results"
  {
    Separators();
    assert "finally/" + f + "/results" == "finally" + "/" + (f + "/" + "results");
    if t + "/results" == "finally/" + f + "/results" {
      assert t + "/" + "results" == "finally" + "/" + (f + "/" + "results");
      assert '/' !in "finally" && '/' !in "results" && (f + "/" + "results")[|f|] == '/';
      FirstSegment(t, "finally", "results", f + "/" + "results");
    }
  }

  /** Step `w` belongs to a regular task called `finally`, which keeps its volume `results` where the results of a
      finally task called `volume` are. */
  ghost predicate VolumeInTheWay(spec: PipelineSpec, c: Compiled, f: nat, w: OpId)
    requires f < |spec.finals|
  {
    && spec.finals[f].name == "volume"
    && exists t, i :: StepAt(c.steps, t, i) && t < |spec.tasks| && c.steps[t][i] == w && spec.tasks[t].name == "finally"
  }

  /** Only the steps of a finally task write its results, but for that volume and a workspace that goes by the same
      identifier. */
  lemma WritersOfFinalResults(ws: map<string, WorkspaceSource>, spec: PipelineSpec, c: Compiled, f: nat, b: OpId)
    requires Wired(ws, spec, c) && ProperNames(spec) && f < |spec.finals| && b < |c.graph|
    requires ResultsOfFinal(spec.finals[f]) in Writes(c.graph[b])
    ensures (exists j :: StepAt(c.finals, f, j) && c.finals[f][j] == b) || VolumeInTheWay(spec, c, f, b)
            || IsWorkspace(ws, ResultsOfFinal(spec.finals[f]))
  {
    var id, n := ResultsOfFinal(spec.finals[f]), spec.finals[f].name;
    assert spec.finals[f] in spec.finals;
    EveryProcessIsAStep(c, b);
    assert b != c.root;
    if IsStep(c.steps, b) {
      var t, i :| StepAt(c.steps, t, i) && c.steps[t][i] == b;
      RegularUse(ws, spec, c, t, i);
      assert spec.tasks[t] in spec.tasks;
      if id in SharedByTask(ws, spec.tasks[t]) {
        SharedIsWorkspace(ws, spec.tasks[t], id);
      } else {
        ResultsOrFinalResults(spec.tasks[t].name, n);
        VolumeOrFinalResults(spec.tasks[t].name, n, id);
      }
    } else {
      var e, j :| StepAt(c.finals, e, j) && c.finals[e][j] == b;
      FinalUse(ws, spec, c, e, j);
      assert spec.finals[e] in spec.finals;
      DifferentTasks(spec, e, f);
      if id in SharedByTask(ws, spec.finals[e]) {
        SharedIsWorkspace(ws, spec.finals[e], id);
      } else if e != f {
        FinalIdsDiffer(n, spec.finals[e].name, id);
      }
    }
  }

  /** The collecting step reads the results of every finally task that has steps: it mounts the cache that all those
      steps write, and comes after all of them. */
  lemma CollectorComesAfterFinals(ws: map<string, WorkspaceSource>, spec: PipelineSpec, c: Compiled, f: nat, j: nat)
    requires Wired(ws, spec, c) && UniqueNames(spec) && StepAt(c.finals, f, j) && f < |spec.finals|
    ensures c.finals[f][j] < |c.graph| && ResultsOfFinal(spec.finals[f]) in Writes(c.graph[c.finals[f][j]])
    ensures Before(c.graph, c.finals[f][j], c.root) && ResultsOfFinal(spec.finals[f]) in Accesses(c.graph[c.root])
  {
    FinalUse(ws, spec, c, f, j);
    FinalAboveRoot(ws, spec, c, f, j);
    NamesSeparate(spec);
    FinalNamesStay(spec.finals, |spec.finals|, f);
    assert CurrentFinal(spec.finals, c.finals, |spec.finals|, f);
    assert ResultsOfFinal(spec.finals[f]) in FinalWiring.FinalResults(spec.finals, c.finals);
  }

  /** Once the collecting step has started, every writer of any cache has succeeded, and no continuation of the run
      changes any contents: what it collects is final, from regular and finally tasks alike. */
  lemma CollectedResultsAreSettled(m: Machine, ws: map<string, WorkspaceSource>, spec: PipelineSpec, c: Compiled,
                                   d: Config,
                                   s: seq<OpId>, id: string)
    requires Wired(ws, spec, c) && UniqueNames(spec) && Reachable(JobOf(c, m), d) && JobOf(c, m).Schedule(d, s)
    requires c.root < |d.status| && !d.status[c.root].Waiting?
    ensures forall w :: 0 <= w < |c.graph| && id in Writes(c.graph[w]) ==> w < |d.status| && d.status[w].Succeeded?
    ensures Contents(JobOf(c, m).Run(d, s), id) == Contents(d, id)
  {
    var j := JobOf(c, m);
    ReachableInv(j, d);
    forall w | 0 <= w < |c.graph| && id in Writes(c.graph[w])
      ensures w < |d.status| && d.status[w].Succeeded?
    {
      RootReachesEveryStep(ws, spec, c, w);
      StartedAfterAncestors(j, d, w, c.root);
    }
    SettledContentsStay(j, d, s, id);
  }
}
