/** How the compiled graph is wired: what every phase of the compiler leaves behind. */
module Wiring {
  import opened Llb
  import opened Tekton
  import opened TaskRun

  // ---------------------------------------------------------------- one task

  ghost predicate IsFile(g: Graph, s: State) {
    s.Output? ==> s.op < |g| && g[s.op].File?
  }

  /** Content mounted by `fns` comes from files of `g`. */
  ghost predicate FilesOnly(g: Graph, fns: seq<MountFn>) {
    forall f :: f in fns && f.ContentFn? ==> IsFile(g, f.content)
  }

  ghost predicate CachesOnly(fns: seq<MountFn>) {
    forall f :: f in fns ==> f.CacheFn?
  }

  ghost predicate IsVolume(task: string, id: string) {
    exists v: string :: id == task + "/volume/" + v
  }

  ghost predicate VolumesOf(task: string, fns: seq<MountFn>) {
    forall f :: f in fns ==> f.CacheFn? && IsVolume(task, f.cacheId)
  }

  ghost predicate StepOf(task: string, workspaces: seq<MountFn>, s: PStep) {
    s.results == [ResultsFn(task)] && s.workspaces == workspaces && VolumesOf(task, s.volumeMounts)
  }

  /** The processes a list of mounts waits for exist already. */
  ghost predicate WaitsFor(g: Graph, mounts: seq<Mount>) {
    forall i :: i in MountInputs(mounts) ==> i < |g| && g[i].Exec?
  }

  ghost function Previous(ids: seq<OpId>, j: nat): set<OpId>
    requires j < |ids|
  {
    if j > 0 then {ids[j - 1]} else {}
  }

  /** `ids` are processes of `g`, each waiting for the one before it and for `extra`, and for no other process. */
  ghost predicate Chain(g: Graph, ids: seq<OpId>, extra: set<OpId>) {
    forall j :: 0 <= j < |ids| ==> ids[j] < |g| && g[ids[j]].Exec? && ExecInputs(g, ids[j]) == Previous(ids, j) + extra
  }

  ghost predicate Increasing(ids: seq<OpId>) {
    forall i, j :: 0 <= i < j < |ids| ==> ids[i] < ids[j]
  }

  /** What a step of `task` may do to caches: it writes the task's results and all of `shared`, beyond that at
      most volumes of the task, and it reads all of `read`. */
  ghost predicate CacheUse(op: Op, task: string, shared: set<string>, read: set<string>) {
    && {task + "/results"} + shared <= Writes(op)
    && Writes(op) + read <= Accesses(op)
    && (forall id :: id in Writes(op) ==> id == task + "/results" || id in shared || IsVolume(task, id))
    && (forall id :: id in Accesses(op) ==> id == task + "/results" || id in shared || IsVolume(task, id) || id in read)
  }

  ghost predicate CacheUses(g: Graph, ids: seq<OpId>, task: string, shared: set<string>, read: set<string>) {
    forall j :: 0 <= j < |ids| ==> ids[j] < |g| && CacheUse(g[ids[j]], task, shared, read)
  }

  /** All processes of `h` beyond those of `g` are among `ids`. */
  ghost predicate OnlyAdds(g: Graph, h: Graph, ids: seq<OpId>) {
    && g <= h
    && (forall j :: 0 <= j < |ids| ==> |g| <= ids[j] < |h|)
    && (forall k :: |g| <= k < |h| && h[k].Exec? ==> k in ids)
  }

  lemma AppliedToScratch(g: Graph, fns: seq<MountFn>)
    ensures FilesOnly(g, fns) ==> forall i :: i in MountInputs(ApplyAll(fns, Scratch)) ==> i < |g| && g[i].File?
    ensures CachesOnly(fns) ==> MountInputs(ApplyAll(fns, Scratch)) == {}
  {
    var ms := ApplyAll(fns, Scratch);
    forall m | m in ms
      ensures exists f :: f in fns && m == f.Apply(Scratch)
    {
      var i :| 0 <= i < |ms| && ms[i] == m;
      assert fns[i] in fns && m == fns[i].Apply(Scratch);
    }
  }

  lemma AppliedCaches(fns: seq<MountFn>)
    ensures MountAccesses(ApplyAll(fns, Scratch)) == set f | f in fns && f.CacheFn? :: f.cacheId
    ensures MountWrites(ApplyAll(fns, Scratch)) == set f | f in fns && f.CacheFn? && !f.readonly :: f.cacheId
  {
    var ms := ApplyAll(fns, Scratch);
    forall i | 0 <= i < |fns|
      ensures ms[i] in ms && ms[i] == fns[i].Apply(Scratch)
    {
    }
    forall f | f in fns
      ensures f.Apply(Scratch) in ms
    {
      var i :| 0 <= i < |fns| && fns[i] == f;
      assert ms[i] == f.Apply(Scratch);
    }
    forall m | m in ms
      ensures exists f :: f in fns && m == f.Apply(Scratch)
    {
      var i :| 0 <= i < |ms| && ms[i] == m;
      assert fns[i] in fns;
    }
  }

  lemma StepMountsSplit(g: Graph, step: PStep, i: nat, previous: State, additional: seq<Mount>)
    ensures var r, p, w, v := ApplyAll(step.results, Scratch), PreviousMount(i, previous),
        ApplyAll(step.workspaces, Scratch), ApplyAll(step.volumeMounts, Scratch);
            var s, all := ScriptMount(g, step), StepMounts(g, step, i, previous, additional);
            && MountInputs(all) == MountInputs(s) + MountInputs(r) + MountInputs(p) + MountInputs(w) + MountInputs(v)
              + MountInputs(additional)
            && MountAccesses(all) == MountAccesses(s) + MountAccesses(r) + MountAccesses(p) + MountAccesses(w)
              + MountAccesses(v) + MountAccesses(additional)
            && MountWrites(all) == MountWrites(s) + MountWrites(r) + MountWrites(p) + MountWrites(w) + MountWrites(v)
              + MountWrites(additional)
  {
    hide MountInputs, MountAccesses, MountWrites, ApplyAll, ScriptMount, PreviousMount;
    var r, p, w, v := ApplyAll(step.results, Scratch), PreviousMount(i, previous), ApplyAll(step.workspaces, Scratch),
      ApplyAll(step.volumeMounts, Scratch);
    var s := ScriptMount(g, step);
    MountsConcat(r, p);
    MountsConcat(r + p, w);
    MountsConcat(r + p + w, v);
    MountsConcat(s, r + p + w + v);
    MountsConcat(s + (r + p + w + v), additional);
  }

  lemma ScriptMounts(g: Graph, step: PStep)
    ensures MountInputs(ScriptMount(g, step)) == if step.script.Some? then {|g| + 1} else {}
    ensures MountAccesses(ScriptMount(g, step)) == {} == MountWrites(ScriptMount(g, step))
  {
    var ms := ScriptMount(g, step);
    assert step.script.Some? ==> ms[0] in ms;
  }

  lemma PreviousMounts(i: nat, previous: State)
    ensures MountInputs(PreviousMount(i, previous)) == if i > 0 && previous.Output? then {previous.op} else {}
    ensures MountAccesses(PreviousMount(i, previous)) == {} == MountWrites(PreviousMount(i, previous))
  {
    var ms := PreviousMount(i, previous);
    assert i > 0 ==> ms[0] in ms;
  }

  /** What one step waits for: its image, files, the step before it, and what `additional` asks for. */
  lemma StepInputs(g: Graph, step: PStep, i: nat, previous: State, additional: seq<Mount>, task: string)
    returns (files: set<OpId>)
    requires StepOf(task, step.workspaces, step) && FilesOnly(g, step.workspaces)
    ensures MountInputs(StepMounts(g, step, i, previous, additional)) ==
            files + (if i > 0 && previous.Output? then {previous.op} else {}) + MountInputs(additional)
    ensures forall f :: f in files ==> (f < |g| && g[f].File?) || (f == |g| + 1 && step.script.Some?)
  {
    ScriptMounts(g, step);
    PreviousMounts(i, previous);
    AppliedToScratch(g, step.results);
    AppliedToScratch(g, step.workspaces);
    AppliedToScratch(g, step.volumeMounts);
    hide MountInputs, MountAccesses, MountWrites, ApplyAll, ScriptMount, PreviousMount, StepMounts;
    StepMountsSplit(g, step, i, previous, additional);
    files := MountInputs(ScriptMount(g, step)) + MountInputs(ApplyAll(step.workspaces, Scratch));
  }

  /** One step: an image, perhaps a script file, and one process. */
  lemma StepWired(g: Graph, step: PStep, i: nat, previous: State, additional: seq<Mount>, task: string)
    requires WellFormed(g) && StepOf(task, step.workspaces, step) && FilesOnly(g, step.workspaces)
        && WaitsFor(g, additional)
    requires i > 0 ==> previous.Output? && previous.op < |g| && g[previous.op].Exec?
    ensures var h := EmitStep(g, step, i, previous, additional);
            && WellFormed(h)
            && OnlyAdds(g, h, [|h| - 1])
            && h[|h| - 1].Exec?
            && ExecInputs(h, |h| - 1) == (if i > 0 then {previous.op} else {}) + MountInputs(additional)
  {
    var files := StepInputs(g, step, i, previous, additional, task);
    hide MountInputs, StepMounts, WellFormed, StepOf, FilesOnly;
    var h := EmitStep(g, step, i, previous, additional);
    assert h[|g|].Image? && (step.script.Some? ==> h[|g| + 1].File?);
    assert Inputs(h[|h| - 1]) == {|g|} + MountInputs(StepMounts(g, step, i, previous, additional));
    StepWellFormed(g, step, i, previous, additional, files);
  }

  lemma StepWellFormed(g: Graph, step: PStep, i: nat, previous: State, additional: seq<Mount>, files: set<OpId>)
    requires WellFormed(g) && WaitsFor(g, additional) && (i > 0 ==> previous.Output? && previous.op < |g|)
    requires MountInputs(StepMounts(g, step, i, previous, additional)) ==
             files + (if i > 0 && previous.Output? then {previous.op} else {}) + MountInputs(additional)
    requires forall f :: f in files ==> (f < |g| && g[f].File?) || (f == |g| + 1 && step.script.Some?)
    ensures WellFormed(EmitStep(g, step, i, previous, additional))
  {
    hide MountInputs, StepMounts;
    var h := EmitStep(g, step, i, previous, additional);
    var e := |h| - 1;
    assert Inputs(h[e]) == {|g|} + MountInputs(StepMounts(g, step, i, previous, additional));
    assert WellFormedOp(h, e);
    forall k | 0 <= k < |h|
      ensures WellFormedOp(h, k)
    {
      if k < |g| {
        StaysWellFormed(g, h, k);
      } else if k < e {
        assert h[k].Image? || h[k] == File(Scratch, step.script.value.name, step.script.value.data);
      }
    }
  }

  lemma StaysWellFormed(g: Graph, h: Graph, k: OpId)
    requires WellFormed(g) && g <= h && k < |g|
    ensures WellFormedOp(h, k)
  {
    assert WellFormedOp(g, k);
  }

  lemma StepCaches(g: Graph, step: PStep, i: nat, previous: State, additional: seq<Mount>, task: string)
    requires StepOf(task, step.workspaces, step)
    requires MountWrites(additional) == {}
    requires MountWrites(ApplyAll(step.workspaces, Scratch)) == MountAccesses(ApplyAll(step.workspaces, Scratch))
    ensures var h := EmitStep(g, step, i, previous, additional);
            CacheUse(h[|h| - 1], task, MountAccesses(ApplyAll(step.workspaces, Scratch)), MountAccesses(additional))
  {
    hide MountInputs, MountAccesses, MountWrites, ApplyAll, ScriptMount, PreviousMount, StepMounts, VolumesOf, IsVolume,
      CacheUse, EmitInputs;
    StepMountsSplit(g, step, i, previous, additional);
    ScriptMounts(g, step);
    PreviousMounts(i, previous);
    ResultsCaches(step.results, task);
    VolumeCaches(step.volumeMounts, task);
    var op := Exec(|g|, step.process, StepMounts(g, step, i, previous, additional));
    var volumes := ApplyAll(step.volumeMounts, Scratch);
    CacheUseOf(op, task, MountAccesses(ApplyAll(step.workspaces, Scratch)), MountAccesses(additional),
      MountWrites(volumes), MountAccesses(volumes));
    assert EmitStep(g, step, i, previous, additional) == EmitInputs(g, step) + [op];
  }

  lemma CacheUseOf(op: Op, task: string, shared: set<string>, read: set<string>, written: set<string>,
                   volumes: set<string>)
    requires Writes(op) == {task + "/results"} + shared + written
    requires Accesses(op) == {task + "/results"} + shared + volumes + read
    requires written <= volumes && forall id :: id in volumes ==> IsVolume(task, id)
    ensures CacheUse(op, task, shared, read)
  {
  }

  lemma ResultsCaches(results: seq<MountFn>, task: string)
    requires results == [ResultsFn(task)]
    ensures MountAccesses(ApplyAll(results, Scratch)) == {task + "/results"} == MountWrites(ApplyAll(results, Scratch))
  {
    AppliedCaches(results);
    assert ResultsFn(task) in results;
  }

  lemma VolumeCaches(volumes: seq<MountFn>, task: string)
    requires VolumesOf(task, volumes)
    ensures MountWrites(ApplyAll(volumes, Scratch)) <= MountAccesses(ApplyAll(volumes, Scratch))
    ensures forall id :: id in MountAccesses(ApplyAll(volumes, Scratch)) ==> IsVolume(task, id)
  {
    AppliedCaches(volumes);
  }

  lemma ExecInputsStay(g: Graph, h: Graph, b: OpId)
    requires WellFormed(g) && g <= h && b < |g|
    ensures ExecInputs(h, b) == ExecInputs(g, b)
  {
    assert WellFormedOp(g, b);
  }

  lemma ChainStays(g: Graph, h: Graph, ids: seq<OpId>, extra: set<OpId>)
    requires WellFormed(g) && g <= h && Chain(g, ids, extra)
    ensures Chain(h, ids, extra)
  {
    forall j | 0 <= j < |ids|
      ensures ids[j] < |h| && h[ids[j]].Exec? && ExecInputs(h, ids[j]) == Previous(ids, j) + extra
    {
      ExecInputsStay(g, h, ids[j]);
    }
  }

  lemma ChainGrows(g: Graph, ids: seq<OpId>, e: OpId, extra: set<OpId>)
    requires Chain(g, ids, extra) && e < |g| && g[e].Exec?
    requires ExecInputs(g, e) == (if ids != [] then {ids[|ids| - 1]} else {}) + extra
    ensures Chain(g, ids + [e], extra)
  {
    var more := ids + [e];
    forall j | 0 <= j < |more|
      ensures more[j] < |g| && g[more[j]].Exec? && ExecInputs(g, more[j]) == Previous(more, j) + extra
    {
      if j < |ids| {
        assert Previous(more, j) == Previous(ids, j);
      }
    }
  }

  /** From `g` to `h` exactly the processes `ids` were added, one after the other, all behind `extra`. */
  ghost predicate TaskWired(g: Graph, h: Graph, ids: seq<OpId>, extra: set<OpId>) {
    WellFormed(h) && OnlyAdds(g, h, ids) && Increasing(ids) && Chain(h, ids, extra)
  }

  lemma TaskGrows(g: Graph, h: Graph, ids: seq<OpId>, extra: set<OpId>, h': Graph)
    requires TaskWired(g, h, ids, extra) && WellFormed(h') && |h'| > 0 && OnlyAdds(h, h', [|h'| - 1])
        && h'[|h'| - 1].Exec?
    requires ExecInputs(h', |h'| - 1) == (if ids != [] then {ids[|ids| - 1]} else {}) + extra
    ensures TaskWired(g, h', ids + [|h'| - 1], extra)
  {
    hide ExecInputs;
    var e := |h'| - 1;
    ChainStays(h, h', ids, extra);
    ChainGrows(h', ids, e, extra);
    hide Chain, WellFormed;
    OnlyAddsGrows(g, h, h', ids, e);
  }

  lemma OnlyAddsGrows(g: Graph, h: Graph, h': Graph, ids: seq<OpId>, e: OpId)
    requires OnlyAdds(g, h, ids) && Increasing(ids) && OnlyAdds(h, h', [e])
    ensures OnlyAdds(g, h', ids + [e]) && Increasing(ids + [e])
  {
    assert [e][0] == e;
    var ids' := ids + [e];
    forall k | |g| <= k < |h'| && h'[k].Exec?
      ensures k in ids'
    {
      if k < |h| {
        assert h[k] == h'[k];
        assert k in ids;
      } else {
        assert k in [e];
      }
    }
  }

  lemma StillThere(g: Graph, h: Graph, fns: seq<MountFn>, mounts: seq<Mount>)
    requires g <= h
    ensures FilesOnly(g, fns) ==> FilesOnly(h, fns)
    ensures WaitsFor(g, mounts) ==> WaitsFor(h, mounts)
  {
    hide MountInputs;
  }

  lemma NothingWired(g: Graph, extra: set<OpId>)
    requires WellFormed(g)
    ensures TaskWired(g, g, [], extra)
  {
  }

  lemma TaskIsThere(g: Graph, h: Graph, ids: seq<OpId>, extra: set<OpId>)
    requires TaskWired(g, h, ids, extra)
    ensures g <= h && WellFormed(h) && forall j :: 0 <= j < |ids| ==> ids[j] < |h| && h[ids[j]].Exec?
  {
  }

  /** All steps of one task. */
  lemma {:induction false} StepsWired(g: Graph, steps: seq<PStep>, additional: seq<Mount>, n: nat, task: string,
                                      workspaces: seq<MountFn>)
    requires WellFormed(g) && n <= |steps| && WaitsFor(g, additional) && FilesOnly(g, workspaces)
    requires forall s :: s in steps ==> StepOf(task, workspaces, s)
    ensures var (h, ids) := EmitSteps(g, steps, additional, n);
            TaskWired(g, h, ids, MountInputs(additional))
  {
    hide EmitStep, MountInputs, ExecInputs, TaskWired, OnlyAdds, WellFormed, FilesOnly, WaitsFor;
    if n == 0 {
      NothingWired(g, MountInputs(additional));
    } else {
      StepsWired(g, steps, additional, n - 1, task, workspaces);
      var (h, ids) := EmitSteps(g, steps, additional, n - 1);
      var previous := if n > 1 then Output(ids[n - 2]) else Scratch;
      var step := steps[n - 1];
      assert step in steps && step.workspaces == workspaces;
      hide StepOf;
      TaskIsThere(g, h, ids, MountInputs(additional));
      StillThere(g, h, workspaces, additional);
      StepWired(h, step, n - 1, previous, additional, task);
      TaskGrows(g, h, ids, MountInputs(additional), EmitStep(h, step, n - 1, previous, additional));
    }
  }

  lemma {:induction false} StepsCaches(g: Graph, steps: seq<PStep>, additional: seq<Mount>, n: nat, task: string,
                                       workspaces: seq<MountFn>)
    requires n <= |steps| && MountWrites(additional) == {}
    requires forall s :: s in steps ==> StepOf(task, workspaces, s)
    requires MountWrites(ApplyAll(workspaces, Scratch)) == MountAccesses(ApplyAll(workspaces, Scratch))
    ensures var (h, ids) := EmitSteps(g, steps, additional, n);
            CacheUses(h, ids, task, MountAccesses(ApplyAll(workspaces, Scratch)), MountAccesses(additional))
  {
    hide EmitStep, CacheUse;
    if n > 0 {
      StepsCaches(g, steps, additional, n - 1, task, workspaces);
      var (h, ids) := EmitSteps(g, steps, additional, n - 1);
      assert steps[n - 1] in steps;
      StepCaches(h, steps[n - 1], n - 1, if n > 1 then Output(ids[n - 2]) else Scratch, additional, task);
    }
  }

  // ---------------------------------------------------------------- what translation guarantees

  lemma {:induction false} VolumeFnsAreVolumes(mounts: seq<VolumeMount>, dirs: set<string>, task: string, n: nat)
    requires n <= |mounts|
    ensures VolumesOf(task, VolumeFns(mounts, dirs, task, n))
  {
    if n > 0 {
      VolumeFnsAreVolumes(mounts, dirs, task, n - 1);
    }
  }

  lemma {:induction false} TranslatedSteps(ctx: Context, spec: TaskSpec, task: TaskArgs, merged: seq<Step>, n: nat)
    requires n <= |merged| && TranslateSteps(ctx, spec, task, merged, n).Ok?
    ensures var steps := TranslateSteps(ctx, spec, task, merged, n).value;
            |steps| == n && forall s :: s in steps ==> StepOf(task.name, task.workspaces, s)
  {
    hide StepEnv, StepFile;
    if n > 0 {
      TranslatedSteps(ctx, spec, task, merged, n - 1);
      var step := merged[n - 1];
      VolumeFnsAreVolumes(step.volumeMounts, EmptyDirs(spec), task.name, |step.volumeMounts|);
    }
  }

  lemma {:induction false} MergedSteps(lib: Library, spec: TaskSpec, n: nat)
    requires n <= |spec.steps| && MergeSteps(lib, spec, n).Ok?
    ensures |MergeSteps(lib, spec, n).value| == n
  {
    if n > 0 {
      MergedSteps(lib, spec, n - 1);
    }
  }

  lemma TranslationIsWired(ctx: Context, spec: TaskSpec, task: TaskArgs)
    requires Translate(ctx, spec, task).Ok?
    ensures var steps := Translate(ctx, spec, task).value;
            |steps| == |spec.steps| && forall s :: s in steps ==> StepOf(task.name, task.workspaces, s)
  {
    hide TranslateSteps, MergeSteps, StepOf;
    MergedSteps(ctx.lib, spec, |spec.steps|);
    var merged := MergeSteps(ctx.lib, spec, |spec.steps|).value;
    TranslatedSteps(ctx, spec, task, merged, |merged|);
  }
}
