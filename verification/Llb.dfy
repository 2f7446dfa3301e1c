/** BuildKit's low-level build graph, as far as dependencies, mounts and caches go:
    an append-only arena of operations, each naming its inputs by position. */
module Llb {
  import opened Basics

  type OpId = nat

  /** An `llb.State`: the zero or scratch state has no output, any other is the root of an operation. */
  datatype State = Scratch | Output(op: OpId)

  datatype Mount = Mount(target: string, source: State, sourcePath: string, cacheId: Option<string>, readonly: bool)

  datatype Process = Process(args: seq<string>, env: map<string, string>, dir: string, user: Option<string>)

  datatype Op =
    | Image(reference: string)
    | File(base: State, path: string, data: string)
    | Exec(rootfs: OpId, process: Process, mounts: seq<Mount>)

  type Graph = seq<Op>

  function StateInput(s: State): set<OpId> {
    if s.Output? then {s.op} else {}
  }

  function MountInputs(mounts: seq<Mount>): set<OpId> {
    set m | m in mounts && m.source.Output? :: m.source.op
  }

  /** The operations that must have succeeded before `op` may start. Caches play no part. */
  function Inputs(op: Op): set<OpId> {
    match op
    case Image(_) => {}
    case File(base, _, _) => StateInput(base)
    case Exec(rootfs, _, mounts) => {rootfs} + MountInputs(mounts)
  }

  /** Cache identifiers mounted by `op`, and those mounted writable. */
  function MountAccesses(mounts: seq<Mount>): set<string> {
    set m | m in mounts && m.cacheId.Some? :: m.cacheId.value
  }

  function MountWrites(mounts: seq<Mount>): set<string> {
    set m | m in mounts && m.cacheId.Some? && !m.readonly :: m.cacheId.value
  }

  function Accesses(op: Op): set<string> {
    if op.Exec? then MountAccesses(op.mounts) else {}
  }

  function Writes(op: Op): set<string> {
    if op.Exec? then MountWrites(op.mounts) else {}
  }

  /** Every input was appended earlier, and a file is only ever layered on files. */
  ghost predicate WellFormed(g: Graph) {
    forall k :: 0 <= k < |g| ==> WellFormedOp(g, k)
  }

  ghost predicate WellFormedOp(g: Graph, k: OpId)
    requires k < |g|
  {
    && (forall i :: i in Inputs(g[k]) ==> i < k)
    && (g[k].File? && g[k].base.Output? ==> g[g[k].base.op].File?)
  }

  /** `a` is a strict ancestor of `b`. */
  ghost predicate Ancestor(g: Graph, a: OpId, b: OpId)
    requires WellFormed(g) && b < |g|
    decreases b
  {
    assert WellFormedOp(g, b);
    exists m :: m in Inputs(g[b]) && (m == a || Ancestor(g, a, m))
  }

  /** The graph makes `b` wait for `a`. */
  ghost predicate Before(g: Graph, a: OpId, b: OpId) {
    WellFormed(g) && a < |g| && b < |g| && Ancestor(g, a, b)
  }

  /** The process inputs of `b`: what is left of its inputs without images and files. */
  ghost function ExecInputs(g: Graph, b: OpId): set<OpId>
    requires b < |g|
  {
    set m | m in Inputs(g[b]) && m < |g| && g[m].Exec?
  }

  lemma {:induction false} AncestorIsEarlier(g: Graph, a: OpId, b: OpId)
    requires WellFormed(g) && b < |g| && Ancestor(g, a, b)
    ensures a < b
    decreases b
  {
    assert WellFormedOp(g, b);
    var m :| m in Inputs(g[b]) && (m == a || Ancestor(g, a, m));
    if m != a {
      AncestorIsEarlier(g, a, m);
    }
  }

  lemma {:induction false} AncestorTransitive(g: Graph, a: OpId, b: OpId, c: OpId)
    requires WellFormed(g) && b < |g| && c < |g| && Ancestor(g, a, b) && Ancestor(g, b, c)
    ensures Ancestor(g, a, c)
    decreases c
  {
    assert WellFormedOp(g, c);
    var m :| m in Inputs(g[c]) && (m == b || Ancestor(g, b, m));
    if m != b {
      AncestorTransitive(g, a, b, m);
    }
    assert m in Inputs(g[c]) && Ancestor(g, a, m);
  }

  lemma {:induction false} ProcessesAreNotBelowFiles(g: Graph, a: OpId, b: OpId)
    requires WellFormed(g) && a < |g| && b < |g| && g[a].Exec? && !g[b].Exec?
    ensures !Ancestor(g, a, b)
    decreases b
  {
    assert WellFormedOp(g, b);
    if Ancestor(g, a, b) {
      var m :| m in Inputs(g[b]) && (m == a || Ancestor(g, a, m));
      if m != a {
        ProcessesAreNotBelowFiles(g, a, m);
      }
    }
  }

  /** Between processes, ancestry runs through processes only. */
  lemma AncestorThroughProcesses(g: Graph, a: OpId, b: OpId)
    requires WellFormed(g) && a < |g| && b < |g| && g[a].Exec?
    ensures Ancestor(g, a, b) <==> exists m :: m in ExecInputs(g, b) && (m == a || Ancestor(g, a, m))
  {
    assert WellFormedOp(g, b);
    if Ancestor(g, a, b) {
      var m :| m in Inputs(g[b]) && (m == a || Ancestor(g, a, m));
      if m != a && !g[m].Exec? {
        ProcessesAreNotBelowFiles(g, a, m);
      }
      assert m in ExecInputs(g, b);
    }
  }

  lemma MountsConcat(a: seq<Mount>, b: seq<Mount>)
    ensures MountInputs(a + b) == MountInputs(a) + MountInputs(b)
    ensures MountAccesses(a + b) == MountAccesses(a) + MountAccesses(b)
    ensures MountWrites(a + b) == MountWrites(a) + MountWrites(b)
  {
    forall m {:trigger m in a} {:trigger m in b} | true
      ensures m in a + b <==> m in a || m in b
    {
    }
  }
}
