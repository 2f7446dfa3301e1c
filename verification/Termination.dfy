/** Runs end: when no process goes on for ever, every schedule is bounded and every configuration runs to an end. */
module Termination {
  import opened Llb
  import opened Executor

  /** How many more actions a process may take after the one it is in: a rank that no action leaves unchanged. */
  datatype Ranking = Ranking(rank: (Op, string) -> nat, bound: nat)

  /** No process runs for ever, whatever it finds in its caches. */
  ghost predicate Terminating(m: Machine, r: Ranking) {
    && (forall op, memory :: r.rank(op, memory) <= r.bound)
    && (forall op, memory, caches :: Descends(m, r, op, memory, caches))
  }

  ghost predicate Descends(m: Machine, r: Ranking, op: Op, memory: string, caches: map<string, Files>) {
    var action := m.turn(op, memory, caches).action;
    action.Continue? ==> r.rank(op, action.memory) < r.rank(op, memory)
  }

  /** The actions an operation may still take. */
  ghost function Weight(r: Ranking, op: Op, s: Status): nat {
    match s
    case Waiting => r.bound + 2
    case Running(memory) => r.rank(op, memory) + 1
    case _ => 0
  }

  /** The actions left for the first `n` operations. */
  ghost function Left(r: Ranking, g: Graph, status: seq<Status>, n: nat): nat
    requires n <= |g| && n <= |status|
  {
    if n == 0 then 0 else Left(r, g, status, n - 1) + Weight(r, g[n - 1], status[n - 1])
  }

  ghost function Measure(j: Job, r: Ranking, c: Config): nat
    requires |c.status| == |j.graph|
  {
    Left(r, j.graph, c.status, |j.graph|)
  }

  lemma {:induction false} LeftUpdate(r: Ranking, g: Graph, status: seq<Status>, k: OpId, s: Status, n: nat)
    requires n <= |g| && n <= |status| && k < |g| && k < |status|
    ensures Left(r, g, status[k := s], n) + (if k < n then Weight(r, g[k], status[k]) else 0) ==
            Left(r, g, status, n) + (if k < n then Weight(r, g[k], s) else 0)
  {
    if n > 0 {
      LeftUpdate(r, g, status, k, s, n - 1);
    }
  }

  lemma {:induction false} LeftAtMost(r: Ranking, g: Graph, status: seq<Status>, n: nat)
    requires n <= |g| && n <= |status| && forall op, memory :: r.rank(op, memory) <= r.bound
    ensures Left(r, g, status, n) <= n * (r.bound + 2)
  {
    if n > 0 {
      LeftAtMost(r, g, status, n - 1);
      assert Weight(r, g[n - 1], status[n - 1]) <= r.bound + 2;
      assert (n - 1) * (r.bound + 2) + (r.bound + 2) == n * (r.bound + 2);
    }
  }

  /** Every action brings the end closer. */
  lemma ActionsDescend(j: Job, r: Ranking, c: Config, k: OpId)
    requires j.Valid() && Terminating(j.machine, r) && j.Enabled(c, k)
    ensures |j.Next(c, k).status| == |j.graph| && Measure(j, r, j.Next(c, k)) < Measure(j, r, c)
  {
    var s := j.NewStatus(c, k);
    LeftUpdate(r, j.graph, c.status, k, s, |j.graph|);
    if c.status[k].Running? {
      assert Descends(j.machine, r, j.graph[k], c.status[k].memory, j.View(c, k));
    }
    assert Weight(r, j.graph[k], s) < Weight(r, j.graph[k], c.status[k]);
  }

  /** No schedule is longer than the measure. */
  lemma {:induction false} SchedulesAreBounded(j: Job, r: Ranking, c: Config, s: seq<OpId>)
    requires j.Valid() && Terminating(j.machine, r) && |c.status| == |j.graph| && j.Schedule(c, s)
    ensures |j.Run(c, s).status| == |j.graph| && |s| + Measure(j, r, j.Run(c, s)) <= Measure(j, r, c)
    decreases |s|
  {
    if s != [] {
      ActionsDescend(j, r, c, s[0]);
      SchedulesAreBounded(j, r, j.Next(c, s[0]), s[1..]);
    }
  }

  /** Every schedule can be continued until nothing can act any more, and it ends within a bound known beforehand.
      Races play no part. */
  lemma EveryRunEnds(j: Job, r: Ranking, c: Config, s: seq<OpId>) returns (rest: seq<OpId>)
    requires j.Valid() && Terminating(j.machine, r) && |c.status| == |j.graph| && j.Schedule(c, s)
    ensures j.Complete(c, s + rest) && |s + rest| <= |j.graph| * (r.bound + 2)
  {
    var d := j.Run(c, s);
    SchedulesAreBounded(j, r, c, s);
    rest := InOrderIsASchedule(j, d, Measure(j, r, d) + 1);
    SchedulesAreBounded(j, r, d, rest);
    ScheduleJoins(j, c, s, rest);
    SchedulesAreBounded(j, r, c, s + rest);
    LeftAtMost(r, j.graph, c.status, |j.graph|);
  }

  lemma {:induction false} ScheduleJoins(j: Job, c: Config, s: seq<OpId>, t: seq<OpId>)
    requires j.Valid() && j.Schedule(c, s) && j.Schedule(j.Run(c, s), t)
    ensures j.Schedule(c, s + t) && j.Run(c, s + t) == j.Run(j.Run(c, s), t)
    decreases |s|
  {
    if s == [] {
      assert s + t == t;
    } else {
      assert (s + t)[0] == s[0] && (s + t)[1..] == s[1..] + t;
      ScheduleJoins(j, j.Next(c, s[0]), s[1..], t);
    }
  }

  /** Without races every schedule is on its way to one end, that of the in-order run, and gets there. */
  lemma EveryRunEndsAlike(j: Job, r: Ranking, c: Config, s: seq<OpId>) returns (rest: seq<OpId>)
    requires j.Valid() && Terminating(j.machine, r) && j.RaceFree() && j.Inv(c) && j.Schedule(c, s)
    ensures j.Complete(c, s + rest) && |s + rest| <= |j.graph| * (r.bound + 2)
    ensures j.Run(c, s + rest) == InOrder(j, c, |j.graph| * (r.bound + 2))
  {
    rest := EveryRunEnds(j, r, c, s);
    CompleteRunsAreInOrder(j, c, s + rest);
    InOrderStops(j, c, |s + rest|, |j.graph| * (r.bound + 2));
  }

  /** Once stuck, the reference stays where it is. */
  lemma {:induction false} InOrderStops(j: Job, c: Config, n: nat, m: nat)
    requires j.Valid() && n <= m && j.Stuck(InOrder(j, c, n))
    ensures InOrder(j, c, m) == InOrder(j, c, n)
    decreases n
  {
    LowestIsLeast(j, c, 0);
    match Lowest(j, c, 0)
    case None =>
    case Some(k) =>
      if n > 0 {
        InOrderStops(j, j.Next(c, k), n - 1, m - 1);
      }
  }

  /** The hypothesis is needed: where a running process never stops, no schedule ever completes. */
  lemma {:induction false} EndlessProcessesDoNotEnd(j: Job, c: Config, k: OpId, s: seq<OpId>)
    requires j.Valid() && j.Enabled(c, k) && c.status[k].Running?
    requires forall memory, caches :: j.machine.turn(j.graph[k], memory, caches).action.Continue?
    ensures !j.Complete(c, s)
    decreases |s|
  {
    if s != [] && j.Enabled(c, s[0]) {
      EndlessProcessesDoNotEnd(j, j.Next(c, s[0]), k, s[1..]);
    }
  }
}
