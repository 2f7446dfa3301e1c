/** Races show: where the graph has one, some processes end differently under two schedules. */
module RaceWitness {
  import opened Llb
  import opened Executor
  import opened Termination

  const MARKS := "marks"

  function MarksIn(files: Files): string {
    if MARKS in files then files[MARKS] else ""
  }

  /** Every process takes one turn: it adds a mark to the cache `id` and exits with the marks it found there. */
  function Marker(id: string): Machine {
    Machine((op, roots) => "", (op, memory, caches) => MarkerTurn(id, caches))
  }

  function MarkerTurn(id: string, caches: map<string, Files>): Turn {
    var seen := if id in caches then MarksIn(caches[id]) else "";
    Turn(Exit(map[MARKS := seen]), map[id := map[MARKS := seen + "x"]])
  }

  function OneTurn(): Ranking {
    Ranking((op, memory) => 0, 0)
  }

  lemma MarkersEnd(id: string)
    ensures Terminating(Marker(id), OneTurn())
  {
  }

  ghost function RaceJob(g: Graph, root: OpId, id: string): Job {
    Job(g, root, Marker(id))
  }

  // ---------------------------------------------------------------- reaching a configuration

  /** Operations are done or have not started. */
  ghost predicate Quiet(j: Job, c: Config) {
    |c.status| == |j.graph| && forall k :: 0 <= k < |j.graph| ==> c.status[k].Waiting? || c.status[k].Succeeded?
  }

  /** All ancestors of `k` below `n` are done. */
  ghost predicate DoneUpTo(j: Job, c: Config, k: OpId, n: nat)
    requires j.Valid() && k < |j.graph|
  {
    |c.status| == |j.graph| && forall x :: 0 <= x < n && x < |j.graph| && Ancestor(j.graph, x, k) ==>
      c.status[x].Succeeded?
  }

  /** Nothing has happened to operations that are not above `k`, and what was done is done. */
  ghost predicate OthersStay(j: Job, c: Config, d: Config, k: OpId)
    requires j.Valid() && k < |j.graph|
  {
    && |c.status| == |d.status| == |j.graph|
    && (forall x :: 0 <= x < |j.graph| && !Ancestor(j.graph, x, k) ==> d.status[x] == c.status[x])
    && (forall x :: 0 <= x < |j.graph| && c.status[x].Succeeded? ==> d.status[x] == c.status[x])
  }

  /** An operation whose ancestors are done can start. */
  lemma ReadyWhenDone(j: Job, c: Config, k: OpId, x: OpId)
    requires j.Valid() && x < |j.graph| && DoneUpTo(j, c, x, x)
    ensures j.InputsReady(c, x)
  {
    assert WellFormedOp(j.graph, x);
    forall i | i in Inputs(j.graph[x])
      ensures c.status[i].Succeeded?
    {
      assert Ancestor(j.graph, i, x);
    }
  }

  lemma NeededAbove(j: Job, x: OpId, k: OpId)
    requires j.Valid() && j.Needed(k) && x < |j.graph| && Ancestor(j.graph, x, k)
    ensures j.Needed(x)
  {
    if k != j.root {
      AncestorTransitive(j.graph, x, k, j.root);
    }
  }

  lemma DoneAbove(j: Job, c: Config, k: OpId, x: OpId)
    requires j.Valid() && k < |j.graph| && x < |j.graph| && Ancestor(j.graph, x, k) && DoneUpTo(j, c, k, x)
    ensures DoneUpTo(j, c, x, x)
  {
    forall y | 0 <= y < x && Ancestor(j.graph, y, x)
      ensures c.status[y].Succeeded?
    {
      AncestorTransitive(j.graph, y, x, k);
    }
  }

  /** Two actions take a marker from waiting to done. */
  lemma RunMarker(j: Job, id: string, c: Config, x: OpId)
    requires j.Valid() && j.machine == Marker(id) && Quiet(j, c) && j.Enabled(c, x)
    ensures j.Enabled(j.Next(c, x), x)
    ensures var d := j.Next(j.Next(c, x), x);
            Quiet(j, d) && d.status[x].Succeeded? && forall y :: 0 <= y < |j.graph| && y != x ==>
              d.status[y] == c.status[y]
  {
  }

  /** Everything above `k`, below `n`, can be run first. */
  lemma {:induction false} RunAbove(j: Job, id: string, c: Config, k: OpId, n: nat) returns (s: seq<OpId>)
    requires j.Valid() && j.machine == Marker(id) && Quiet(j, c) && j.Needed(k) && n <= k
    ensures j.Schedule(c, s) && Quiet(j, j.Run(c, s))
    ensures DoneUpTo(j, j.Run(c, s), k, n) && OthersStay(j, c, j.Run(c, s), k)
  {
    if n == 0 {
      s := [];
    } else {
      s := RunAbove(j, id, c, k, n - 1);
      var d, x := j.Run(c, s), n - 1;
      if Ancestor(j.graph, x, k) && d.status[x].Waiting? {
        DoneAbove(j, d, k, x);
        ReadyWhenDone(j, d, k, x);
        NeededAbove(j, x, k);
        RunMarker(j, id, d, x);
        var d' := j.Next(j.Next(d, x), x);
        assert j.Schedule(d, [x, x]) && j.Run(d, [x, x]) == d' by {
          TwoSteps(j, d, x, x);
        }
        ScheduleJoins(j, c, s, [x, x]);
        s := s + [x, x];
      }
    }
  }

  lemma TwoSteps(j: Job, c: Config, x: OpId, y: OpId)
    requires j.Valid() && j.Enabled(c, x) && j.Enabled(j.Next(c, x), y)
    ensures j.Schedule(c, [x, y]) && j.Run(c, [x, y]) == j.Next(j.Next(c, x), y)
  {
    assert [x, y][1..] == [y] && [y][1..] == [];
    assert j.Schedule(j.Next(c, x), [y]) && j.Run(j.Next(c, x), [y]) == j.Next(j.Next(c, x), y);
  }

  lemma NotAboveItself(g: Graph, k: OpId)
    requires WellFormed(g) && k < |g|
    ensures !Ancestor(g, k, k)
  {
    if Ancestor(g, k, k) {
      AncestorIsEarlier(g, k, k);
    }
  }

  lemma StillReady(j: Job, c: Config, a: OpId, b: OpId)
    requires j.Valid() && j.Enabled(c, a) && j.Enabled(c, b) && c.status[a].Waiting? && a != b
    ensures j.Enabled(j.Next(c, a), b)
  {
    forall i | i in Inputs(j.graph[b]) && c.status[b].Waiting?
      ensures i != a && j.Next(c, a).status[i] == c.status[i]
    {
      assert c.status[i].Succeeded?;
    }
  }

  lemma BothRunning(j: Job, c: Config, a: OpId, b: OpId)
    requires j.Valid() && j.Enabled(c, a) && j.Enabled(j.Next(c, a), b) && a != b
    requires c.status[a].Waiting? && c.status[b].Waiting?
    ensures var d := j.Next(j.Next(c, a), b);
            d.status[a].Running? && d.status[b].Running? && j.Enabled(d, a) && j.Enabled(d, b)
  {
  }

  /** Two unordered operations can both be brought to run. */
  lemma BothRun(j: Job, id: string, c: Config, a: OpId, b: OpId) returns (s: seq<OpId>)
    requires j.Valid() && j.machine == Marker(id) && j.Initial(c) && j.Needed(a) && j.Needed(b)
    requires Unordered(j.graph, a, b)
    ensures j.Schedule(c, s) && j.Enabled(j.Run(c, s), a) && j.Enabled(j.Run(c, s), b)
    ensures j.Run(c, s).status[a].Running? && j.Run(c, s).status[b].Running?
  {
    var u := RunAbove(j, id, c, a, a);
    var d := j.Run(c, u);
    var v := RunAbove(j, id, d, b, b);
    var e := j.Run(d, v);
    NotAboveItself(j.graph, a);
    NotAboveItself(j.graph, b);
    hide Ancestor;
    assert d.status[a].Waiting? && d.status[b].Waiting? && e.status[a].Waiting? && e.status[b].Waiting?;
    assert DoneUpTo(j, e, a, a);
    ReadyWhenDone(j, e, a, a);
    ReadyWhenDone(j, e, b, b);
    StillReady(j, e, a, b);
    TwoSteps(j, e, a, b);
    BothRunning(j, e, a, b);
    ScheduleJoins(j, c, u, v);
    ScheduleJoins(j, c, u + v, [a, b]);
    s := u + v + [a, b];
  }

  // ---------------------------------------------------------------- the fork

  /** The one that goes second sees a mark more. */
  lemma OrderShows(j: Job, id: string, c: Config, a: OpId, b: OpId)
    requires j.Valid() && j.machine == Marker(id) && a != b && j.Enabled(c, a) && j.Enabled(c, b)
    requires c.status[a].Running? && c.status[b].Running?
    requires id in Writes(j.graph[a]) && id in Accesses(j.graph[a]) && id in Accesses(j.graph[b])
    ensures j.Enabled(j.Next(c, a), b) && j.Enabled(j.Next(c, b), a)
    ensures var first, second := j.Next(j.Next(c, b), a).status[b], j.Next(j.Next(c, a), b).status[b];
            first.Succeeded? && second.Succeeded? && first != second
  {
    var seen := MarksIn(Contents(c, id));
    assert id in j.View(c, a) && j.View(c, a)[id] == Contents(c, id);
    assert j.NewContents(c, a)[id] == map[MARKS := seen + "x"];
    var d := j.Next(c, a);
    assert Contents(d, id) == map[MARKS := seen + "x"];
    assert id in j.View(d, b) && j.View(d, b)[id] == Contents(d, id);
    assert id in j.View(c, b) && j.View(c, b)[id] == Contents(c, id);
    var first, second := map[MARKS := seen], map[MARKS := seen + "x"];
    assert j.NewStatus(d, b) == Succeeded(second) && j.NewStatus(c, b) == Succeeded(first);
    assert |first[MARKS]| != |second[MARKS]|;
  }

  lemma WritesAreAccesses(op: Op, id: string)
    requires id in Writes(op)
    ensures id in Accesses(op)
  {
    var m :| m in op.mounts && m.cacheId.Some? && !m.readonly && m.cacheId.value == id;
    assert m.cacheId.value in MountAccesses(op.mounts);
  }

  /** Two complete runs of the same processes from the same start, with different ends. */
  lemma RacesShow(g: Graph, root: OpId, a: OpId, b: OpId, id: string, c: Config) returns (s: seq<OpId>, t: seq<OpId>)
    requires RaceJob(g, root, id).Valid() && RaceJob(g, root, id).Initial(c)
    requires RaceJob(g, root, id).Needed(a) && RaceJob(g, root, id).Needed(b) && Unordered(g, a, b)
    requires id in Writes(g[a]) && id in Accesses(g[b])
    ensures RaceJob(g, root, id).Complete(c, s) && RaceJob(g, root, id).Complete(c, t)
    ensures RaceJob(g, root, id).Run(c, s) != RaceJob(g, root, id).Run(c, t)
  {
    var j := RaceJob(g, root, id);
    var u := BothRun(j, id, c, a, b);
    var d := j.Run(c, u);
    RunKeepsInv(j, c, u);
    WritesAreAccesses(g[a], id);
    OrderShows(j, id, d, a, b);
    s := Finish(j, id, c, u, d, b, a);
    t := Finish(j, id, c, u, d, a, b);
  }

  /** Take the two turns in this order, and then run to the end: what is done stays done. */
  lemma Finish(j: Job, id: string, c: Config, u: seq<OpId>, d: Config, x: OpId, y: OpId) returns (s: seq<OpId>)
    requires j.Valid() && j.machine == Marker(id) && j.Inv(c) && j.Schedule(c, u) && d == j.Run(c, u)
    requires j.Enabled(d, x) && j.Enabled(j.Next(d, x), y)
    ensures j.Complete(c, s) && j.Inv(j.Run(c, s)) && |j.Next(j.Next(d, x), y).status| == |j.graph|
    ensures forall k :: 0 <= k < |j.graph| && j.Next(j.Next(d, x), y).status[k].Succeeded? ==>
              j.Run(c, s).status[k] == j.Next(j.Next(d, x), y).status[k]
  {
    TwoSteps(j, d, x, y);
    ScheduleJoins(j, c, u, [x, y]);
    RunKeepsInv(j, c, u + [x, y]);
    MarkersEnd(id);
    hide Terminating;
    s := RunOn(j, OneTurn(), c, u + [x, y]);
  }

  lemma RunOn(j: Job, r: Ranking, c: Config, v: seq<OpId>) returns (s: seq<OpId>)
    requires j.Valid() && Terminating(j.machine, r) && j.Inv(c) && j.Schedule(c, v)
    ensures j.Complete(c, s) && j.Inv(j.Run(c, s)) && j.Inv(j.Run(c, v))
    ensures forall k :: 0 <= k < |j.graph| && j.Run(c, v).status[k].Succeeded? ==>
          j.Run(c, s).status[k] == j.Run(c, v).status[k]
  {
    hide Terminating;
    var rest := EveryRunEnds(j, r, c, v);
    s := v + rest;
    ScheduleConcat(j, c, v, rest);
    RunKeepsInv(j, c, v);
    RunKeepsInv(j, c, s);
    var e := j.Run(c, v);
    forall k | 0 <= k < |j.graph| && e.status[k].Succeeded?
      ensures j.Run(c, s).status[k] == e.status[k]
    {
      FinishedIsFinal(j, e, rest, k);
    }
  }
}
