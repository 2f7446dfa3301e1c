/** The concurrent solver that runs a graph. Any number of operations may be running; each takes
    one atomic action at a time on its own memory and on the cache directories mounted into it,
    and the solver interleaves these actions freely. */
module Executor {
  import opened Basics
  import opened Llb

  /** Contents of a file system, by path. */
  type Files = map<string, string>

  datatype Action =
    | Continue(memory: string)
    | Exit(root: Files)
    | Crash

  /** One atomic action and what it leaves in the mounted caches. */
  datatype Turn = Turn(action: Action, caches: map<string, Files>)

  /** The behaviour of the processes: arbitrary, but each deterministic in what it can see. */
  datatype Machine = Machine(
    boot: (Op, map<OpId, Files>) -> string,
    turn: (Op, string, map<string, Files>) -> Turn)

  datatype Status =
    | Waiting
    | Running(memory: string)
    | Succeeded(root: Files)
    | Failed

  datatype Config = Config(status: seq<Status>, caches: map<string, Files>)

  /** A build to run: the solver works on the operations that `root` needs and on no others. */
  datatype Job = Job(graph: Graph, root: OpId, machine: Machine) {
    ghost predicate Valid() {
      WellFormed(graph) && root < |graph|
    }

    ghost predicate Needed(k: OpId)
      requires Valid()
    {
      k < |graph| && (k == root || Ancestor(graph, k, root))
    }

    ghost predicate InputsReady(c: Config, k: OpId)
      requires k < |graph|
    {
      forall i :: i in Inputs(graph[k]) ==> i < |c.status| && c.status[i].Succeeded?
    }

    /** The solver can let operation `k` take its next action. */
    ghost predicate Enabled(c: Config, k: OpId)
      requires Valid()
    {
      && k < |c.status| == |graph|
      && Needed(k)
      && (c.status[k].Running? || (c.status[k].Waiting? && InputsReady(c, k)))
    }

    ghost function Roots(c: Config, k: OpId): map<OpId, Files>
      requires k < |graph| && InputsReady(c, k)
    {
      map i | i in Inputs(graph[k]) :: c.status[i].root
    }

    /** The cache directories as operation `k` sees them. A cache nobody wrote yet is empty. */
    ghost function View(c: Config, k: OpId): map<string, Files>
      requires k < |graph|
    {
      map id | id in Accesses(graph[k]) :: Contents(c, id)
    }

    /** Writes to a directory mounted read-only have no effect. */
    ghost function Written(k: OpId, caches: map<string, Files>): map<string, Files>
      requires k < |graph|
    {
      map id | id in caches && id in Writes(graph[k]) :: caches[id]
    }

    ghost function TurnOf(c: Config, k: OpId): Turn
      requires k < |c.status| == |graph| && c.status[k].Running?
    {
      machine.turn(graph[k], c.status[k].memory, View(c, k))
    }

    /** What its next action makes of operation `k`, and what it leaves in the caches. */
    ghost function NewStatus(c: Config, k: OpId): Status
      requires Valid() && Enabled(c, k)
    {
      if c.status[k].Waiting? then Running(machine.boot(graph[k], Roots(c, k))) else After(TurnOf(c, k).action)
    }

    ghost function NewContents(c: Config, k: OpId): map<string, Files>
      requires Valid() && Enabled(c, k)
    {
      if c.status[k].Waiting? then map[] else Written(k, TurnOf(c, k).caches)
    }

    ghost function Next(c: Config, k: OpId): Config
      requires Valid() && Enabled(c, k)
    {
      Config(c.status[k := NewStatus(c, k)], c.caches + NewContents(c, k))
    }

    /** A schedule names, action by action, the operation that acts. */
    ghost predicate Schedule(c: Config, s: seq<OpId>)
      requires Valid()
      decreases |s|
    {
      s == [] || (Enabled(c, s[0]) && Schedule(Next(c, s[0]), s[1..]))
    }

    ghost function Run(c: Config, s: seq<OpId>): Config
      requires Valid() && Schedule(c, s)
      decreases |s|
    {
      if s == [] then c else Run(Next(c, s[0]), s[1..])
    }

    ghost predicate Stuck(c: Config)
      requires Valid()
    {
      forall k :: !Enabled(c, k)
    }

    ghost predicate Complete(c: Config, s: seq<OpId>)
      requires Valid()
    {
      Schedule(c, s) && Stuck(Run(c, s))
    }

    /** What every reachable configuration satisfies: whatever has started had all its inputs succeed. */
    ghost predicate Inv(c: Config)
      requires Valid()
    {
      && |c.status| == |graph|
      && (forall k :: 0 <= k < |graph| && !c.status[k].Waiting? ==> Needed(k) && InputsReady(c, k))
    }

    ghost predicate Initial(c: Config) {
      |c.status| == |graph| && forall k :: 0 <= k < |graph| ==> c.status[k].Waiting?
    }

    /** Unordered operations do not write a cache that the other one mounts. */
    ghost predicate RaceFree()
      requires Valid()
    {
      forall a, b :: 0 <= a < |graph| && 0 <= b < |graph| && Unordered(graph, a, b) ==>
        Writes(graph[a]) !! Accesses(graph[b])
    }
  }

  ghost predicate Unordered(g: Graph, a: OpId, b: OpId)
    requires WellFormed(g) && a < |g| && b < |g|
  {
    a != b && !Ancestor(g, a, b) && !Ancestor(g, b, a)
  }

  ghost function After(a: Action): Status {
    match a
    case Continue(memory) => Running(memory)
    case Exit(root) => Succeeded(root)
    case Crash => Status.Failed
  }

  ghost function Contents(c: Config, id: string): Files {
    if id in c.caches then c.caches[id] else map[]
  }

  // ---------------------------------------------------------------- invariants over every run

  lemma NextKeepsInv(j: Job, c: Config, k: OpId)
    requires j.Valid() && j.Inv(c) && j.Enabled(c, k)
    ensures j.Inv(j.Next(c, k))
  {
    var d := j.Next(c, k);
    forall x | 0 <= x < |j.graph| && !d.status[x].Waiting?
      ensures j.Needed(x) && j.InputsReady(d, x)
    {
      if x != k {
        assert c.status[x] == d.status[x];
      }
      assert j.InputsReady(c, x);
    }
  }

  lemma {:induction false} RunKeepsInv(j: Job, c: Config, s: seq<OpId>)
    requires j.Valid() && j.Inv(c) && j.Schedule(c, s)
    ensures j.Inv(j.Run(c, s))
    decreases |s|
  {
    if s != [] {
      NextKeepsInv(j, c, s[0]);
      RunKeepsInv(j, j.Next(c, s[0]), s[1..]);
    }
  }

  /** Once an operation has started, all its ancestors have succeeded. */
  lemma {:induction false} StartedAfterAncestors(j: Job, c: Config, a: OpId, b: OpId)
    requires j.Valid() && j.Inv(c) && a < |j.graph| && b < |j.graph|
    requires Ancestor(j.graph, a, b) && !c.status[b].Waiting?
    ensures c.status[a].Succeeded?
    decreases b
  {
    assert WellFormedOp(j.graph, b);
    var m :| m in Inputs(j.graph[b]) && (m == a || Ancestor(j.graph, a, m));
    assert j.InputsReady(c, b);
    if m != a {
      StartedAfterAncestors(j, c, a, m);
    }
  }

  lemma {:induction false} FinishedIsFinal(j: Job, c: Config, s: seq<OpId>, k: OpId)
    requires j.Valid() && j.Inv(c) && j.Schedule(c, s) && k < |j.graph|
    requires c.status[k].Succeeded? || c.status[k].Failed?
    ensures |j.Run(c, s).status| == |j.graph| && j.Run(c, s).status[k] == c.status[k]
    decreases |s|
  {
    if s != [] {
      NextKeepsInv(j, c, s[0]);
      FinishedIsFinal(j, j.Next(c, s[0]), s[1..], k);
    }
  }

  /** Failure containment: nothing downstream of a failed operation has started, or ever will. */
  lemma FailureIsContained(j: Job, c: Config, s: seq<OpId>, f: OpId, k: OpId)
    requires j.Valid() && j.Inv(c) && j.Schedule(c, s) && f < |j.graph| && k < |j.graph|
    requires c.status[f].Failed? && Ancestor(j.graph, f, k)
    ensures j.Inv(j.Run(c, s)) && j.Run(c, s).status[f].Failed? && j.Run(c, s).status[k].Waiting?
  {
    FinishedIsFinal(j, c, s, f);
    RunKeepsInv(j, c, s);
    if !j.Run(c, s).status[k].Waiting? {
      StartedAfterAncestors(j, j.Run(c, s), f, k);
    }
  }

  /** Progress: a needed operation that is neither finished nor below a failed one always has
      something enabled at or above it. */
  lemma {:induction false} NeverBlocked(j: Job, c: Config, k: OpId) returns (e: OpId)
    requires j.Valid() && j.Inv(c) && j.Needed(k)
    requires c.status[k].Waiting? || c.status[k].Running?
    requires forall f :: 0 <= f < |j.graph| && Ancestor(j.graph, f, k) ==> !c.status[f].Failed?
    ensures e < |j.graph| && (e == k || Ancestor(j.graph, e, k)) && j.Enabled(c, e)
    decreases k
  {
    assert WellFormedOp(j.graph, k);
    if c.status[k].Running? || j.InputsReady(c, k) {
      e := k;
    } else {
      var i :| i in Inputs(j.graph[k]) && !c.status[i].Succeeded?;
      assert Ancestor(j.graph, i, k);
      if k != j.root {
        AncestorTransitive(j.graph, i, k, j.root);
      }
      forall f | 0 <= f < |j.graph| && Ancestor(j.graph, f, i)
        ensures !c.status[f].Failed?
      {
        AncestorTransitive(j.graph, f, i, k);
      }
      e := NeverBlocked(j, c, i);
      if e != i {
        AncestorTransitive(j.graph, e, i, k);
      }
    }
  }

  /** When nothing can move any more, every needed operation has finished, save those below a failure. */
  lemma CompleteMeansFinished(j: Job, c: Config, k: OpId)
    requires j.Valid() && j.Inv(c) && j.Stuck(c) && j.Needed(k)
    ensures c.status[k].Succeeded? || c.status[k].Failed? ||
            (c.status[k].Waiting? && exists f :: 0 <= f < |j.graph| && Ancestor(j.graph, f, k) && c.status[f].Failed?)
  {
    if (c.status[k].Waiting? || c.status[k].Running?) &&
       forall f :: 0 <= f < |j.graph| && Ancestor(j.graph, f, k) ==> !c.status[f].Failed?
    {
      var e := NeverBlocked(j, c, k);
      assert false;
    }
    assert !j.Enabled(c, k);
  }

  /** Once every operation that could write a cache is done with it, its contents stay. */
  lemma {:induction false} SettledContentsStay(j: Job, c: Config, s: seq<OpId>, id: string)
    requires j.Valid() && j.Inv(c) && j.Schedule(c, s)
    requires forall k :: 0 <= k < |j.graph| && id in Writes(j.graph[k]) ==>
          c.status[k].Succeeded? || c.status[k].Failed?
    ensures Contents(j.Run(c, s), id) == Contents(c, id)
    decreases |s|
  {
    if s != [] {
      var d := j.Next(c, s[0]);
      NextKeepsInv(j, c, s[0]);
      assert id !in Writes(j.graph[s[0]]);
      assert Contents(d, id) == Contents(c, id);
      SettledContentsStay(j, d, s[1..], id);
    }
  }

  // ---------------------------------------------------------------- schedule independence

  /** Two operations that can both act now act on disjoint state, so the order does not matter. */
  lemma Diamond(j: Job, c: Config, a: OpId, b: OpId)
    requires j.Valid() && j.RaceFree() && j.Inv(c) && j.Enabled(c, a) && j.Enabled(c, b) && a != b
    ensures j.Enabled(j.Next(c, a), b) && j.Enabled(j.Next(c, b), a)
    ensures j.Next(j.Next(c, a), b) == j.Next(j.Next(c, b), a)
  {
    TwoActions(j, c, a, b);
    TwoActions(j, c, b, a);
    DisjointContents(j, c, a, b);
    MapsCommute(c.caches, j.NewContents(c, a), j.NewContents(c, b));
    UpdatesCommute(c.status, a, j.NewStatus(c, a), b, j.NewStatus(c, b));
  }

  lemma TwoActions(j: Job, c: Config, a: OpId, b: OpId)
    requires j.Valid() && j.RaceFree() && j.Inv(c) && j.Enabled(c, a) && j.Enabled(c, b) && a != b
    ensures j.Enabled(j.Next(c, a), b)
    ensures j.Next(j.Next(c, a), b) ==
            Config(c.status[a := j.NewStatus(c, a)][b := j.NewStatus(c, b)],
                   c.caches + j.NewContents(c, a) + j.NewContents(c, b))
  {
    EnabledAreUnordered(j, c, a, b);
    EnabledAreUnordered(j, c, b, a);
    StaysEnabled(j, c, a, b);
  }

  lemma DisjointContents(j: Job, c: Config, a: OpId, b: OpId)
    requires j.Valid() && j.RaceFree() && j.Inv(c) && j.Enabled(c, a) && j.Enabled(c, b) && a != b
    ensures j.NewContents(c, a).Keys !! j.NewContents(c, b).Keys
  {
    EnabledAreUnordered(j, c, a, b);
    EnabledAreUnordered(j, c, b, a);
    assert Unordered(j.graph, a, b);
    assert Writes(j.graph[a]) !! Accesses(j.graph[b]);
    assert j.NewContents(c, a).Keys <= Writes(j.graph[a]);
    assert j.NewContents(c, b).Keys <= Writes(j.graph[b]) <= Accesses(j.graph[b]);
  }

  lemma MapsCommute<K, V>(m: map<K, V>, x: map<K, V>, y: map<K, V>)
    requires x.Keys !! y.Keys
    ensures m + x + y == m + y + x
  {
  }

  lemma UpdatesCommute<T>(s: seq<T>, a: nat, x: T, b: nat, y: T)
    requires a < |s| && b < |s| && a != b
    ensures s[a := x][b := y] == s[b := y][a := x]
  {
  }

  lemma EnabledAreUnordered(j: Job, c: Config, a: OpId, b: OpId)
    requires j.Valid() && j.Inv(c) && j.Enabled(c, a) && j.Enabled(c, b) && a != b
    ensures !Ancestor(j.graph, a, b)
  {
    if Ancestor(j.graph, a, b) {
      if c.status[b].Running? {
        StartedAfterAncestors(j, c, a, b);
      } else {
        assert WellFormedOp(j.graph, b);
        var m :| m in Inputs(j.graph[b]) && (m == a || Ancestor(j.graph, a, m));
        if m != a {
          StartedAfterAncestors(j, c, a, m);
        }
      }
      assert false;
    }
  }

  /** An action of `a` neither disables `b` nor changes anything `b` will look at. */
  lemma StaysEnabled(j: Job, c: Config, a: OpId, b: OpId)
    requires j.Valid() && j.RaceFree() && j.Inv(c) && j.Enabled(c, a) && j.Enabled(c, b)
    requires Unordered(j.graph, a, b)
    ensures j.Enabled(j.Next(c, a), b)
    ensures j.NewStatus(j.Next(c, a), b) == j.NewStatus(c, b)
    ensures j.NewContents(j.Next(c, a), b) == j.NewContents(c, b)
  {
    var d := j.Next(c, a);
    assert d.status[b] == c.status[b];
    if c.status[b].Waiting? {
      forall i | i in Inputs(j.graph[b])
        ensures i < |d.status| && d.status[i] == c.status[i]
      {
        assert i != a;
      }
      assert j.Roots(d, b) == j.Roots(c, b);
    } else {
      assert Writes(j.graph[a]) !! Accesses(j.graph[b]);
      assert j.NewContents(c, a).Keys <= Writes(j.graph[a]);
      assert j.View(d, b) == j.View(c, b);
    }
  }

  /** `s` with its first `k` taken out. */
  ghost function Without(s: seq<OpId>, k: OpId): seq<OpId> {
    if s == [] then [] else if s[0] == k then s[1..] else [s[0]] + Without(s[1..], k)
  }

  /** An operation that can act now acts in every complete schedule, and might as well act first. */
  lemma {:induction false} MoveToFront(j: Job, c: Config, s: seq<OpId>, k: OpId)
    requires j.Valid() && j.RaceFree() && j.Inv(c) && j.Complete(c, s) && j.Enabled(c, k)
    ensures multiset(s) == multiset{k} + multiset(Without(s, k))
    ensures j.Complete(j.Next(c, k), Without(s, k))
    ensures j.Run(j.Next(c, k), Without(s, k)) == j.Run(c, s)
    decreases |s|
  {
    if s != [] {
      assert s == [s[0]] + s[1..];
      if s[0] != k {
        var d := j.Next(c, s[0]);
        NextKeepsInv(j, c, s[0]);
        Diamond(j, c, s[0], k);
        MoveToFront(j, d, s[1..], k);
        var t := Without(s, k);
        assert t[0] == s[0] && t[1..] == Without(s[1..], k);
        assert j.Next(j.Next(c, k), t[0]) == j.Next(d, k);
      }
    }
  }

  /** From a configuration where one schedule completes, every other schedule can be continued to
      completion; it then has taken the same actions in another order and reached the same end. */
  lemma {:induction false} EveryScheduleConverges(j: Job, c: Config, s: seq<OpId>, t: seq<OpId>)
    returns (rest: seq<OpId>)
    requires j.Valid() && j.RaceFree() && j.Inv(c) && j.Complete(c, s) && j.Schedule(c, t)
    ensures multiset(t + rest) == multiset(s)
    ensures j.Complete(c, t + rest)
    ensures j.Run(c, t + rest) == j.Run(c, s)
    decreases |t|
  {
    if t == [] {
      rest := s;
      assert t + rest == s;
    } else {
      MoveToFront(j, c, s, t[0]);
      NextKeepsInv(j, c, t[0]);
      rest := EveryScheduleConverges(j, j.Next(c, t[0]), Without(s, t[0]), t[1..]);
      Prepend(t, rest);
    }
  }

  lemma Prepend(t: seq<OpId>, rest: seq<OpId>)
    requires t != []
    ensures (t + rest)[0] == t[0] && (t + rest)[1..] == t[1..] + rest
    ensures multiset(t + rest) == multiset{t[0]} + multiset(t[1..] + rest)
  {
    assert t + rest == [t[0]] + (t[1..] + rest);
  }

  /** Schedule independence: all complete runs end in the same configuration. */
  lemma CompleteRunsAgree(j: Job, c: Config, s: seq<OpId>, t: seq<OpId>)
    requires j.Valid() && j.RaceFree() && j.Inv(c) && j.Complete(c, s) && j.Complete(c, t)
    ensures j.Run(c, s) == j.Run(c, t)
    ensures multiset(s) == multiset(t)
  {
    var rest := EveryScheduleConverges(j, c, s, t);
    ScheduleConcat(j, c, t, rest);
    assert rest == [];
    assert t + rest == t;
  }

  lemma {:induction false} ScheduleConcat(j: Job, c: Config, s: seq<OpId>, t: seq<OpId>)
    requires j.Valid() && j.Schedule(c, s + t)
    ensures j.Schedule(c, s) && j.Schedule(j.Run(c, s), t)
    ensures j.Run(c, s + t) == j.Run(j.Run(c, s), t)
    decreases |s|
  {
    if s == [] {
      assert s + t == t;
    } else {
      assert (s + t)[1..] == s[1..] + t;
      ScheduleConcat(j, j.Next(c, s[0]), s[1..], t);
    }
  }

  // ---------------------------------------------------------------- the one-at-a-time reference

  /** The first operation of the arena, from `k` on, that can act. */
  ghost function Lowest(j: Job, c: Config, k: OpId): Option<OpId>
    requires j.Valid() && k <= |j.graph|
    decreases |j.graph| - k
  {
    if k == |j.graph| then None else if j.Enabled(c, k) then Some(k) else Lowest(j, c, k + 1)
  }

  lemma {:induction false} LowestIsLeast(j: Job, c: Config, k: OpId)
    requires j.Valid() && k <= |j.graph|
    ensures match Lowest(j, c, k)
            case Some(e) => k <= e && j.Enabled(c, e) && forall x :: k <= x < e ==> !j.Enabled(c, x)
            case None => forall x :: k <= x ==> !j.Enabled(c, x)
    decreases |j.graph| - k
  {
    if k < |j.graph| {
      LowestIsLeast(j, c, k + 1);
    }
  }

  /** The reference: `n` actions, each by the first operation in the arena that can act. */
  ghost function InOrder(j: Job, c: Config, n: nat): Config
    requires j.Valid()
    decreases n
  {
    LowestIsLeast(j, c, 0);
    match Lowest(j, c, 0)
    case None => c
    case Some(k) => if n == 0 then c else InOrder(j, j.Next(c, k), n - 1)
  }

  /** Everything after `f` is untouched, and nothing before `f` can act any more. */
  ghost predicate Frontier(j: Job, c: Config, f: OpId)
    requires j.Valid()
  {
    && |c.status| == |j.graph|
    && (forall k :: f < k < |j.graph| ==> c.status[k].Waiting?)
    && (forall k :: 0 <= k < f ==> !j.Enabled(c, k))
  }

  lemma FrontierAdvances(j: Job, c: Config, f: OpId, k: OpId)
    requires j.Valid() && Frontier(j, c, f) && j.Enabled(c, k) && forall x :: 0 <= x < k ==> !j.Enabled(c, x)
    ensures Frontier(j, j.Next(c, k), k)
  {
    var d := j.Next(c, k);
    forall x | 0 <= x < k
      ensures !j.Enabled(d, x)
    {
      assert WellFormedOp(j.graph, x);
      assert forall i :: i in Inputs(j.graph[x]) ==> i < x && c.status[i] == d.status[i];
      assert j.InputsReady(d, x) ==> j.InputsReady(c, x);
      assert !j.Enabled(c, x) && d.status[x] == c.status[x];
    }
  }

  /** The reference runs operations one at a time, in the order of the arena: when `a` runs, everything
      after it is still waiting and everything before it has finished or cannot run at all. */
  lemma FrontierRunsAlone(j: Job, c: Config, f: OpId, a: OpId, b: OpId)
    requires j.Valid() && j.Inv(c) && Frontier(j, c, f) && a < |j.graph| && b < |j.graph| && c.status[a].Running?
    ensures a < b ==> c.status[b].Waiting?
    ensures b < a ==> !c.status[b].Running? && !j.Enabled(c, b)
  {
    assert j.Enabled(c, a);
    assert c.status[b].Running? ==> j.Enabled(c, b);
  }

  lemma {:induction false} InOrderIsOneAtATime(j: Job, c: Config, n: nat, f: OpId, a: OpId, b: OpId)
    requires j.Valid() && j.Inv(c) && Frontier(j, c, f) && a < |j.graph| && b < |j.graph|
    ensures j.Inv(InOrder(j, c, n))
    ensures var d := InOrder(j, c, n);
            d.status[a].Running? ==>
              && (a < b ==> d.status[b].Waiting?)
              && (b < a ==> !d.status[b].Running? && !j.Enabled(d, b))
    decreases n
  {
    hide Frontier;
    LowestIsLeast(j, c, 0);
    if c.status[a].Running? {
      FrontierRunsAlone(j, c, f, a, b);
    }
    match Lowest(j, c, 0)
    case None =>
    case Some(k) =>
      if n > 0 {
        NextKeepsInv(j, c, k);
        FrontierAdvances(j, c, f, k);
        InOrderIsOneAtATime(j, j.Next(c, k), n - 1, k, a, b);
      }
  }

  lemma {:induction false} InOrderIsASchedule(j: Job, c: Config, n: nat) returns (t: seq<OpId>)
    requires j.Valid()
    ensures |t| <= n && j.Schedule(c, t) && j.Run(c, t) == InOrder(j, c, n)
    ensures |t| < n ==> j.Stuck(j.Run(c, t))
    decreases n
  {
    LowestIsLeast(j, c, 0);
    t := [];
    match Lowest(j, c, 0)
    case None =>
    case Some(k) =>
      if n > 0 {
        var u := InOrderIsASchedule(j, j.Next(c, k), n - 1);
        t := [k] + u;
        assert t[1..] == u;
      }
  }

  /** Refinement: whatever the interleaving, a complete run ends where the reference ends after as many actions. */
  lemma CompleteRunsAreInOrder(j: Job, c: Config, s: seq<OpId>)
    requires j.Valid() && j.RaceFree() && j.Inv(c) && j.Complete(c, s)
    ensures j.Run(c, s) == InOrder(j, c, |s|)
  {
    var t := InOrderIsASchedule(j, c, |s|);
    var rest := EveryScheduleConverges(j, c, s, t);
    if |t| == |s| {
      SameSize(t + rest, s);
      assert t + rest == t;
    } else {
      CompleteRunsAgree(j, c, s, t);
    }
  }

  lemma SameSize<T>(s: seq<T>, t: seq<T>)
    requires multiset(s) == multiset(t)
    ensures |s| == |t|
  {
    assert |multiset(s)| == |s| && |multiset(t)| == |t|;
  }
}
