/** pipelinerun.go: from a PipelineRun to one graph with a single root. */
module PipelineRun {
  import opened Basics
  import opened Llb
  import opened Tekton
  import opened TaskRun
  import opened Files
  import Text

  // ---------------------------------------------------------------- when expressions

  ghost predicate Holds(w: WhenExpression) {
    match w.operator
    case "in" => w.input in w.values
    case "notin" => w.input !in w.values
    case _ => true
  }

  ghost predicate Passes(whens: seq<WhenExpression>) {
    forall w :: w in whens ==> Holds(w)
  }

  /** The expression keeps its task from running: the input is none of the values it must be in, or one of those it
      must not be in. */
  ghost predicate Refuses(w: WhenExpression) {
    || (w.operator == "in" && forall i :: 0 <= i < |w.values| ==> w.values[i] != w.input)
    || (w.operator == "notin" && exists i :: 0 <= i < |w.values| && w.values[i] == w.input)
  }

  lemma RefusesExactly(w: WhenExpression)
    ensures Refuses(w) <==> !Holds(w)
  {
    assert w.input in w.values <==> exists i :: 0 <= i < |w.values| && w.values[i] == w.input;
    assert "in" != "notin";
  }

  /** A task is left out if and only if one of its expressions refuses. */
  lemma SkippedExactly(t: PipelineTask)
    ensures Skipped(t) <==> exists i :: 0 <= i < |t.when| && Refuses(t.when[i])
  {
    hide Refuses, Holds;
    forall i | 0 <= i < |t.when|
      ensures Refuses(t.when[i]) <==> !Holds(t.when[i])
    {
      RefusesExactly(t.when[i]);
    }
    assert Passes(t.when) <==> forall i :: 0 <= i < |t.when| ==> Holds(t.when[i]);
  }

  method EvaluateWhenExpression(when: WhenExpression) returns (b: bool)
    ensures b == Holds(when)
    ensures when.operator == "in" ==> (b <==> exists i :: 0 <= i < |when.values| && when.values[i] == when.input)
    ensures when.operator == "notin" ==> (b <==> forall i :: 0 <= i < |when.values| ==> when.values[i] != when.input)
    ensures when.operator != "in" && when.operator != "notin" ==> b
  {
    if when.operator == "in" {
      for i := 0 to |when.values|
        invariant when.input !in when.values[..i]
      {
        if when.input == when.values[i] {
          return true;
        }
        assert when.values[..i + 1] == when.values[..i] + [when.values[i]];
      }
      assert when.values[..|when.values|] == when.values;
      return false;
    } else if when.operator == "notin" {
      for i := 0 to |when.values|
        invariant when.input !in when.values[..i]
      {
        if when.input == when.values[i] {
          return false;
        }
        assert when.values[..i + 1] == when.values[..i] + [when.values[i]];
      }
      assert when.values[..|when.values|] == when.values;
      return true;
    } else {
      return true;
    }
  }

  method EvaluateWhenExpressions(whens: seq<WhenExpression>) returns (b: bool)
    ensures b == Passes(whens)
    ensures b <==> forall i :: 0 <= i < |whens| ==> !Refuses(whens[i])
  {
    hide Holds, Refuses;
    for i := 0 to |whens|
      invariant Passes(whens[..i]) && forall k :: 0 <= k < i ==> !Refuses(whens[k])
    {
      var holds := EvaluateWhenExpression(whens[i]);
      RefusesExactly(whens[i]);
      if !holds {
        return false;
      }
      assert whens[..i + 1] == whens[..i] + [whens[i]];
    }
    assert whens[..|whens|] == whens;
    return true;
  }

  // ---------------------------------------------------------------- what the phases compute

  /** How a pipeline workspace is mounted, once it is known where. */
  datatype WorkspaceSource = ContentSource(content: State) | CacheSource(cacheId: string) {
    function At(target: string): MountFn {
      match this
      case ContentSource(content) => ContentFn(target, content)
      case CacheSource(id) => CacheFn(target, id, "", false)
    }
  }

  datatype Bound = Bound(graph: Graph, workspaces: map<string, WorkspaceSource>)

  function BindContent(lib: Library, b: Bound, name: string, data: Data, items: seq<KeyToPath>): Outcome<Bound> {
    var files :- ProjectFiles(lib, data, items).Outcome();
    var (h, content) := LayerFiles(b.graph, files, Scratch);
    Done(Bound(h, b.workspaces[name := ContentSource(content)]))
  }

  function BindWorkspace(ctx: Context, run: string, b: Bound, w: WorkspaceBinding): Outcome<Bound> {
    match w.kind
    case ConfigMapWorkspace(name, items) =>
      if name in ctx.configs then BindContent(ctx.lib, b, w.name, ctx.configs[name], items)
      else Failed(NotFound("Configmap", name))
    case SecretWorkspace(name, items) =>
      if name in ctx.secrets then BindContent(ctx.lib, b, w.name, ctx.secrets[name], items)
      else Failed(NotFound("secret", name))
    case PersistentWorkspace => Done(b.(workspaces := b.workspaces[w.name := CacheSource(run + "/" + w.name)]))
    case OtherWorkspace => Done(b)
  }

  function BindWorkspaces(ctx: Context, run: string, b: Bound, ws: seq<WorkspaceBinding>): Outcome<Bound>
    decreases |ws|
  {
    if ws == [] then Done(b)
    else
      var next :- BindWorkspace(ctx, run, b, ws[0]);
      BindWorkspaces(ctx, run, next, ws[1..])
  }

  function ResolveTask(ctx: Context, t: PipelineTask, kind: string): Outcome<TaskSpec> {
    if t.taskRef.Some? then
      if t.taskRef.value !in ctx.tasks then Failed(NotFound(kind, t.taskRef.value))
      else ctx.lib.substituteTask(ctx.tasks[t.taskRef.value], t.params, [], t.taskRef.value).Outcome()
    else if t.taskSpec.Some? then
      ctx.lib.substituteTask(t.taskSpec.value.spec, t.params, [], "embedded").Outcome()
    else
      ctx.lib.substituteTask(TaskSpec([], [], 0), t.params, [], "").Outcome()
  }

  /** Calling the nil function of an unknown workspace panics. */
  function TaskWorkspaces(workspaces: map<string, WorkspaceSource>, fns: seq<MountFn>,
                          uses: seq<WorkspaceUse>): Outcome<seq<MountFn>>
    decreases |uses|
  {
    if uses == [] then Done(fns)
    else if uses[0].workspace !in workspaces then Panicked(NilWorkspace(uses[0].workspace))
    else TaskWorkspaces(workspaces, fns + [workspaces[uses[0].workspace].At("/workspace/" + uses[0].name)], uses[1..])
  }

  /** Finally tasks drop unknown workspaces instead. */
  function FinalWorkspaces(workspaces: map<string, WorkspaceSource>, fns: seq<MountFn>,
                           uses: seq<WorkspaceUse>): seq<MountFn>
    decreases |uses|
  {
    if uses == [] then fns
    else FinalWorkspaces(workspaces,
                         if uses[0].workspace in workspaces
                         then fns + [workspaces[uses[0].workspace].At("/workspace/" + uses[0].name)] else fns,
                         uses[1..])
  }

  function DependencyMount(target: string, state: State): Mount {
    Mount(target, state, "/", None, true)
  }

  function SharedResults(target: string, owner: string): Mount {
    Mount(target, Scratch, "", Some(owner + "/results"), true)
  }

  function Last(states: seq<State>): State
    requires states != []
  {
    states[|states| - 1]
  }

  function AfterTask(name: string, states: seq<State>): seq<Mount>
    requires states != []
  {
    [DependencyMount("/tekton/.deps/" + name, Last(states)), SharedResults("/tekton/from-task/" + name, name)]
  }

  /** Indexing the last state of a task that has none panics. */
  function RunAfterMounts(tasks: map<string, seq<State>>, mounts: seq<Mount>,
                          runAfter: seq<string>): Outcome<seq<Mount>>
    decreases |runAfter|
  {
    if runAfter == [] then Done(mounts)
    else if runAfter[0] !in tasks || tasks[runAfter[0]] == [] then Panicked(IndexOutOfRange(runAfter[0]))
    else RunAfterMounts(tasks, mounts + AfterTask(runAfter[0], tasks[runAfter[0]]), runAfter[1..])
  }

  /** The regular tasks so far: `tasks` as the source keeps it, by name, and `steps` by position in the list,
      empty for a task that was skipped. */
  datatype Progress = Progress(graph: Graph, tasks: map<string, seq<State>>, skipped: map<string, bool>,
    steps: seq<seq<OpId>>)

  ghost predicate Skipped(t: PipelineTask) {
    t.when != [] && !Passes(t.when)
  }

  ghost function CompileTask(ctx: Context, workspaces: map<string, WorkspaceSource>, p: Progress,
                             t: PipelineTask): Outcome<Progress>
  {
    if Skipped(t) then Done(p.(skipped := p.skipped[t.name := true], steps := p.steps + [[]]))
    else
      var spec :- ResolveTask(ctx, t, "Taskref");
      var fns :- TaskWorkspaces(workspaces, [], t.workspaces);
      var steps :- Translate(ctx, spec, TaskArgs(t.name, fns, t.timeout)).Outcome();
      var mounts :- RunAfterMounts(p.tasks, [], t.runAfter);
      var (h, ids) := EmitSteps(p.graph, steps, mounts, |steps|);
      Done(Progress(h, p.tasks[t.name := Outputs(ids)], p.skipped, p.steps + [ids]))
  }

  ghost function CompileTasks(ctx: Context, workspaces: map<string, WorkspaceSource>, p: Progress,
                              ts: seq<PipelineTask>): Outcome<Progress>
    decreases |ts|
  {
    if ts == [] then Done(p)
    else
      var next :- CompileTask(ctx, workspaces, p, ts[0]);
      CompileTasks(ctx, workspaces, next, ts[1..])
  }

  /** Mounts shared by every finally task, for the regular tasks in the order given. */
  function FinalMounts(tasks: map<string, seq<State>>, mounts: seq<Mount>, order: seq<string>): seq<Mount>
    decreases |order|
  {
    if order == [] then mounts
    else FinalMounts(tasks, mounts + TaskMounts(tasks, order[0]), order[1..])
  }

  function TaskMounts(tasks: map<string, seq<State>>, name: string): seq<Mount> {
    if name in tasks && tasks[name] != [] then AfterTask(name, tasks[name]) else []
  }

  datatype Finals = Finals(graph: Graph, tasks: map<string, seq<State>>, steps: seq<seq<OpId>>)

  ghost function CompileFinal(ctx: Context, workspaces: map<string, WorkspaceSource>, mounts: seq<Mount>, f: Finals,
                              t: PipelineTask): Outcome<Finals>
  {
    var spec :- ResolveTask(ctx, t, "Finally Taskref");
    var fns := FinalWorkspaces(workspaces, [], t.workspaces);
    var steps :- Translate(ctx, spec, TaskArgs("finally/" + t.name, fns, t.timeout)).Outcome();
    var (h, ids) := EmitSteps(f.graph, steps, mounts, |steps|);
    Done(Finals(h, f.tasks[t.name := Outputs(ids)], f.steps + [ids]))
  }

  ghost function CompileFinals(ctx: Context, workspaces: map<string, WorkspaceSource>, mounts: seq<Mount>, f: Finals,
                               ts: seq<PipelineTask>): Outcome<Finals>
    decreases |ts|
  {
    if ts == [] then Done(f)
    else
      var next :- CompileFinal(ctx, workspaces, mounts, f, ts[0]);
      CompileFinals(ctx, workspaces, mounts, next, ts[1..])
  }

  /** What the collecting step mounts: the last states, and the results caches. */
  datatype Collected = Collected(states: seq<State>, caches: seq<Mount>)

  function CollectTask(c: Collected, tasks: map<string, seq<State>>, prefix: string, name: string): Collected {
    if name in tasks && tasks[name] != [] then
      Collected(c.states + [Last(tasks[name])], c.caches + [SharedResults("/task/" + prefix + name, prefix + name)])
    else c
  }

  function Collect(c: Collected, tasks: map<string, seq<State>>, prefix: string, order: seq<string>): Collected
    decreases |order|
  {
    if order == [] then c else Collect(CollectTask(c, tasks, prefix, order[0]), tasks, prefix, order[1..])
  }

  function DependencyMounts(states: seq<State>): seq<Mount> {
    seq(|states|, i requires 0 <= i < |states| => DependencyMount("/.dep/" + Text.Decimal(i), states[i]))
  }

  const COLLECT := Process(["/bin/sh", "-c", "ls -la /task 2>/dev/null || true"], map[], "", None)

  function EmitRoot(g: Graph, c: Collected): (h: Graph)
    ensures |h| == |g| + 2
  {
    g + [Image("alpine:latest"), Exec(|g|, COLLECT, DependencyMounts(c.states) + c.caches)]
  }

  /** The operations behind states; the source keeps the states only. */
  function Operations(states: seq<State>): seq<OpId> {
    seq(|states|, i requires 0 <= i < |states| => if states[i].Output? then states[i].op else 0)
  }

  lemma OperationsOfOutputs(ids: seq<OpId>)
    ensures Operations(Outputs(ids)) == ids
  {
  }

  /** The compiled pipeline; `steps` and `finals` hold the operations of every task by position in the list. */
  datatype Compiled = Compiled(graph: Graph, root: OpId, steps: seq<seq<OpId>>, finals: seq<seq<OpId>>)

  function CollectAll(lib: Library, tasks: map<string, seq<State>>, finals: map<string, seq<State>>): Collected {
    Collect(Collect(Collected([], []), tasks, "", lib.range("collect", tasks.Keys)), finals, "finally/",
      lib.range("collect finally", finals.Keys))
  }

  /** From the substituted specification on. */
  ghost function CompileSpec(ctx: Context, run: string, bindings: seq<WorkspaceBinding>,
                             spec: PipelineSpec): Outcome<Compiled>
  {
    var b :- BindWorkspaces(ctx, run, Bound([], map[]), bindings);
    var p :- CompileTasks(ctx, b.workspaces, Progress(b.graph, map[], map[], []), spec.tasks);
    var mounts := if spec.finals != [] then FinalMounts(p.tasks, [], ctx.lib.range("finally", p.tasks.Keys)) else [];
    var f :- CompileFinals(ctx, b.workspaces, mounts, Finals(p.graph, map[], []), spec.finals);
    var h := EmitRoot(f.graph, CollectAll(ctx.lib, p.tasks, f.tasks));
    Done(Compiled(h, |h| - 1, p.steps, f.steps))
  }

  // ---------------------------------------------------------------- what a workspace shows

  /** The files of the ConfigMap or Secret, and no others. */
  ghost predicate ShowsFiles(b: Bound, name: string, data: Data, items: seq<KeyToPath>) {
    && name in b.workspaces && b.workspaces[name].ContentSource?
    && Within(b.graph, b.workspaces[name].content)
    && ShowsData(data, items, FilesAt(b.graph, b.workspaces[name].content))
  }

  /** What a workspace of the run is bound to. */
  ghost predicate BindingShown(ctx: Context, run: string, w: WorkspaceBinding, b: Bound) {
    match w.kind
    case ConfigMapWorkspace(name, items) =>
      name in ctx.configs && ShowsFiles(b, w.name, ctx.configs[name], items)
    case SecretWorkspace(name, items) =>
      name in ctx.secrets && ShowsFiles(b, w.name, ctx.secrets[name], items)
    case PersistentWorkspace => w.name in b.workspaces && b.workspaces[w.name] == CacheSource(run + "/" + w.name)
    case OtherWorkspace => true
  }

  /** Binding `i` is the last that says anything about its name. */
  ghost predicate LastBinding(bindings: seq<WorkspaceBinding>, i: nat)
    requires i < |bindings|
  {
    !bindings[i].kind.OtherWorkspace?
    && forall l :: i < l < |bindings| && bindings[l].name == bindings[i].name ==> bindings[l].kind.OtherWorkspace?
  }

  ghost predicate NoBinding(bindings: seq<WorkspaceBinding>, name: string) {
    forall i :: 0 <= i < |bindings| && bindings[i].name == name ==> bindings[i].kind.OtherWorkspace?
  }

  lemma OneBinding(ctx: Context, run: string, b: Bound, w: WorkspaceBinding)
    requires Ranges(ctx.lib) && BindWorkspace(ctx, run, b, w).Done?
    ensures var q := BindWorkspace(ctx, run, b, w).value;
            && b.graph <= q.graph && BindingShown(ctx, run, w, q)
            && q.workspaces.Keys == b.workspaces.Keys + (if w.kind.OtherWorkspace? then {} else {w.name})
            && forall n :: n in b.workspaces && (n != w.name || w.kind.OtherWorkspace?) ==>
                 q.workspaces[n] == b.workspaces[n]
  {
    hide LayerFiles, FilesAt, ProjectFiles, ShowsData, Ranges;
    if w.kind.ConfigMapWorkspace? {
      ProjectedExactly(ctx.lib, ctx.configs[w.kind.configMap], w.kind.items);
      ContentIsRead(b.graph, ProjectFiles(ctx.lib, ctx.configs[w.kind.configMap], w.kind.items).value);
    } else if w.kind.SecretWorkspace? {
      ProjectedExactly(ctx.lib, ctx.secrets[w.kind.secret], w.kind.items);
      ContentIsRead(b.graph, ProjectFiles(ctx.lib, ctx.secrets[w.kind.secret], w.kind.items).value);
    }
  }

  lemma StillShown(ctx: Context, run: string, w: WorkspaceBinding, b: Bound, q: Bound)
    requires BindingShown(ctx, run, w, b) && b.graph <= q.graph
    requires !w.kind.OtherWorkspace? ==>
               w.name in b.workspaces && w.name in q.workspaces && q.workspaces[w.name] == b.workspaces[w.name]
    ensures BindingShown(ctx, run, w, q)
  {
    if !w.kind.OtherWorkspace? && b.workspaces[w.name].ContentSource? && Within(b.graph, b.workspaces[w.name].content) {
      FilesReadAlike(b.graph, q.graph, b.workspaces[w.name].content);
    }
  }

  /** What is bound in the end: for each name the last binding, files read back exactly, and no other names. */
  lemma {:induction false} BindingsShown(ctx: Context, run: string, b: Bound, ws: seq<WorkspaceBinding>)
    requires Ranges(ctx.lib) && BindWorkspaces(ctx, run, b, ws).Done?
    ensures var q := BindWorkspaces(ctx, run, b, ws).value;
            && b.graph <= q.graph && b.workspaces.Keys <= q.workspaces.Keys
            && (forall i :: 0 <= i < |ws| && LastBinding(ws, i) ==> BindingShown(ctx, run, ws[i], q))
            && (forall n :: n in q.workspaces && n !in b.workspaces ==>
                  exists i :: 0 <= i < |ws| && LastBinding(ws, i) && ws[i].name == n)
            && (forall n :: n in b.workspaces && NoBinding(ws, n) ==> q.workspaces[n] == b.workspaces[n])
    decreases |ws|
  {
    hide BindWorkspace, BindingShown, Ranges;
    if ws != [] {
      var next := BindWorkspace(ctx, run, b, ws[0]).value;
      OneBinding(ctx, run, b, ws[0]);
      BindingsShown(ctx, run, next, ws[1..]);
      var q := BindWorkspaces(ctx, run, b, ws).value;
      LaterBindings(ws);
      if LastBinding(ws, 0) {
        StillShown(ctx, run, ws[0], next, q);
      }
      forall n | n in q.workspaces && n !in b.workspaces
        ensures exists i :: 0 <= i < |ws| && LastBinding(ws, i) && ws[i].name == n
      {
        if n !in next.workspaces {
          var i :| 0 <= i < |ws[1..]| && LastBinding(ws[1..], i) && ws[1..][i].name == n;
          assert LastBinding(ws, i + 1);
        } else {
          SomeLast(ws, 0);
        }
      }
    }
  }

  /** The binding refers to a ConfigMap or Secret that is there and has the keys of the items. */
  ghost predicate Bindable(ctx: Context, w: WorkspaceBinding) {
    match w.kind
    case ConfigMapWorkspace(name, items) =>
      name in ctx.configs && forall i :: 0 <= i < |items| ==> items[i].key in ctx.configs[name]
    case SecretWorkspace(name, items) =>
      name in ctx.secrets && forall i :: 0 <= i < |items| ==> items[i].key in ctx.secrets[name]
    case _ => true
  }

  /** Binding succeeds if and only if every binding can be met, and otherwise fails without a panic. */
  lemma {:induction false} BindsExactly(ctx: Context, run: string, b: Bound, ws: seq<WorkspaceBinding>)
    requires Ranges(ctx.lib)
    ensures BindWorkspaces(ctx, run, b, ws).Done? <==> forall i :: 0 <= i < |ws| ==> Bindable(ctx, ws[i])
    ensures !BindWorkspaces(ctx, run, b, ws).Panicked?
    decreases |ws|
  {
    hide BindWorkspace, Bindable, Ranges;
    if ws != [] {
      OneBinds(ctx, run, b, ws[0]);
      assert forall i :: 0 < i < |ws| ==> ws[1..][i - 1] == ws[i];
      var next := BindWorkspace(ctx, run, b, ws[0]);
      if next.Done? {
        BindsExactly(ctx, run, next.value, ws[1..]);
        assert forall i :: 0 <= i < |ws[1..]| ==> ws[1..][i] == ws[i + 1];
      }
    }
  }

  lemma OneBinds(ctx: Context, run: string, b: Bound, w: WorkspaceBinding)
    requires Ranges(ctx.lib)
    ensures BindWorkspace(ctx, run, b, w).Done? <==> Bindable(ctx, w)
    ensures !BindWorkspace(ctx, run, b, w).Panicked?
  {
    hide LayerFiles, ProjectFiles, ShowsData, Ranges;
    if w.kind.ConfigMapWorkspace? && w.kind.configMap in ctx.configs {
      ProjectedExactly(ctx.lib, ctx.configs[w.kind.configMap], w.kind.items);
    } else if w.kind.SecretWorkspace? && w.kind.secret in ctx.secrets {
      ProjectedExactly(ctx.lib, ctx.secrets[w.kind.secret], w.kind.items);
    }
  }

  lemma LaterBindings(ws: seq<WorkspaceBinding>)
    requires ws != []
    ensures forall i :: 0 < i < |ws| ==>
        ws[1..][i - 1] == ws[i] && (LastBinding(ws, i) <==> LastBinding(ws[1..], i - 1))
  {
    forall i | 0 < i < |ws|
      ensures LastBinding(ws, i) <==> LastBinding(ws[1..], i - 1)
    {
      if LastBinding(ws, i) {
        assert forall l :: 0 <= l < |ws[1..]| ==> ws[1..][l] == ws[l + 1];
      }
    }
  }

  lemma {:induction false} SomeLast(ws: seq<WorkspaceBinding>, i: nat)
    requires i < |ws| && !ws[i].kind.OtherWorkspace?
    ensures exists l :: 0 <= l < |ws| && LastBinding(ws, l) && ws[l].name == ws[i].name
    decreases |ws| - i
  {
    if !LastBinding(ws, i) {
      var l :| i < l < |ws| && ws[l].name == ws[i].name && !ws[l].kind.OtherWorkspace?;
      SomeLast(ws, l);
    }
  }

  // ---------------------------------------------------------------- the phases as written

  method BindAll(ctx: Context, run: string, bindings: seq<WorkspaceBinding>) returns (r: Outcome<Bound>)
    requires Ranges(ctx.lib)
    ensures r == BindWorkspaces(ctx, run, Bound([], map[]), bindings)
    ensures r.Done? ==>
              && (forall i :: 0 <= i < |bindings| && LastBinding(bindings, i) ==>
                    BindingShown(ctx, run, bindings[i], r.value))
              && (forall n :: n in r.value.workspaces ==>
                    exists i :: 0 <= i < |bindings| && LastBinding(bindings, i) && bindings[i].name == n)
  {
    hide LayerFiles, ProjectFiles, ShowsData, FilesAt, BindingShown, LastBinding;
    if BindWorkspaces(ctx, run, Bound([], map[]), bindings).Done? {
      BindingsShown(ctx, run, Bound([], map[]), bindings);
    }
    var graph: Graph := [];
    var pipelineWorkspaces: map<string, WorkspaceSource> := map[];
    for i := 0 to |bindings|
      invariant BindWorkspaces(ctx, run, Bound([], map[]), bindings) ==
          BindWorkspaces(ctx, run, Bound(graph, pipelineWorkspaces), bindings[i..])
    {
      var w := bindings[i];
      assert bindings[i..][0] == w && bindings[i..][1..] == bindings[i + 1..];
      match w.kind
      case ConfigMapWorkspace(name, items) =>
        if name !in ctx.configs {
          return Failed(NotFound("Configmap", name));
        }
        var h, content := Files.Project(ctx.lib, graph, ctx.configs[name], items);
        if content.Err? {
          return Failed(content.error);
        }
        graph := h;
        pipelineWorkspaces := pipelineWorkspaces[w.name := ContentSource(content.value)];
      case SecretWorkspace(name, items) =>
        if name !in ctx.secrets {
          return Failed(NotFound("secret", name));
        }
        var h, content := Files.Project(ctx.lib, graph, ctx.secrets[name], items);
        if content.Err? {
          return Failed(content.error);
        }
        graph := h;
        pipelineWorkspaces := pipelineWorkspaces[w.name := ContentSource(content.value)];
      case PersistentWorkspace =>
        pipelineWorkspaces := pipelineWorkspaces[w.name := CacheSource(run + "/" + w.name)];
      case OtherWorkspace =>
    }
    r := Done(Bound(graph, pipelineWorkspaces));
  }

  method MountTaskWorkspaces(workspaces: map<string, WorkspaceSource>, uses: seq<WorkspaceUse>)
    returns (r: Outcome<seq<MountFn>>)
    ensures r == TaskWorkspaces(workspaces, [], uses)
  {
    var taskWorkspaces: seq<MountFn> := [];
    for i := 0 to |uses|
      invariant TaskWorkspaces(workspaces, [], uses) == TaskWorkspaces(workspaces, taskWorkspaces, uses[i..])
    {
      var w := uses[i];
      assert uses[i..][0] == w && uses[i..][1..] == uses[i + 1..];
      if w.workspace !in workspaces {
        return Panicked(NilWorkspace(w.workspace));
      }
      taskWorkspaces := taskWorkspaces + [workspaces[w.workspace].At("/workspace/" + w.name)];
    }
    r := Done(taskWorkspaces);
  }

  method MountFinalWorkspaces(workspaces: map<string, WorkspaceSource>, uses: seq<WorkspaceUse>)
    returns (fns: seq<MountFn>)
    ensures fns == FinalWorkspaces(workspaces, [], uses)
  {
    fns := [];
    for i := 0 to |uses|
      invariant FinalWorkspaces(workspaces, [], uses) == FinalWorkspaces(workspaces, fns, uses[i..])
    {
      var w := uses[i];
      assert uses[i..][0] == w && uses[i..][1..] == uses[i + 1..];
      if w.workspace in workspaces {
        fns := fns + [workspaces[w.workspace].At("/workspace/" + w.name)];
      }
    }
  }

  method MountRunAfter(tasks: map<string, seq<State>>, runAfter: seq<string>) returns (r: Outcome<seq<Mount>>)
    ensures r == RunAfterMounts(tasks, [], runAfter)
  {
    var mounts: seq<Mount> := [];
    for i := 0 to |runAfter|
      invariant RunAfterMounts(tasks, [], runAfter) == RunAfterMounts(tasks, mounts, runAfter[i..])
    {
      var a := runAfter[i];
      assert runAfter[i..][0] == a && runAfter[i..][1..] == runAfter[i + 1..];
      if a !in tasks || |tasks[a]| == 0 {
        return Panicked(IndexOutOfRange(a));
      }
      mounts := mounts + [DependencyMount("/tekton/.deps/" + a, tasks[a][|tasks[a]| - 1]),
                          SharedResults("/tekton/from-task/" + a, a)];
    }
    r := Done(mounts);
  }

  method CompileRegular(ctx: Context, b: Bound, ts: seq<PipelineTask>) returns (r: Outcome<Progress>)
    requires Ranges(ctx.lib)
    ensures r == CompileTasks(ctx, b.workspaces, Progress(b.graph, map[], map[], []), ts)
  {
    hide Translate, EmitSteps, ResolveTask;
    var graph := b.graph;
    var tasks: map<string, seq<State>> := map[];
    var skippedTasks: map<string, bool> := map[];
    var steps: seq<seq<OpId>> := [];
    for i := 0 to |ts|
      invariant CompileTasks(ctx, b.workspaces, Progress(b.graph, map[], map[], []), ts)
             == CompileTasks(ctx, b.workspaces, Progress(graph, tasks, skippedTasks, steps), ts[i..])
    {
      var t := ts[i];
      assert ts[i..][0] == t && ts[i..][1..] == ts[i + 1..];
      if |t.when| > 0 {
        var pass := EvaluateWhenExpressions(t.when);
        if !pass {
          skippedTasks := skippedTasks[t.name := true];
          steps := steps + [[]];
          continue;
        }
      }
      var spec := ResolveTask(ctx, t, "Taskref");
      if !spec.Done? {
        return spec.PropagateFailure();
      }
      var fns := MountTaskWorkspaces(b.workspaces, t.workspaces);
      if !fns.Done? {
        return fns.PropagateFailure();
      }
      var psteps := TaskSpecToPSteps(ctx, spec.value, TaskArgs(t.name, fns.value, t.timeout));
      if psteps.Err? {
        return Failed(psteps.error);
      }
      var mounts := MountRunAfter(tasks, t.runAfter);
      if !mounts.Done? {
        return mounts.PropagateFailure();
      }
      OperationsOfOutputs(EmitSteps(graph, psteps.value, mounts.value, |psteps.value|).1);
      var h, stepStates := PStepToState(graph, psteps.value, Scratch, mounts.value);
      graph := h;
      tasks := tasks[t.name := stepStates];
      steps := steps + [Operations(stepStates)];
    }
    r := Done(Progress(graph, tasks, skippedTasks, steps));
  }

  method MountAllRegular(lib: Library, tasks: map<string, seq<State>>) returns (finallyMounts: seq<Mount>)
    requires Ranges(lib)
    ensures finallyMounts == FinalMounts(tasks, [], lib.range("finally", tasks.Keys))
  {
    var order := lib.range("finally", tasks.Keys);
    assert Enumerates(order, tasks.Keys);
    finallyMounts := [];
    for i := 0 to |order|
      invariant FinalMounts(tasks, [], order) == FinalMounts(tasks, finallyMounts, order[i..])
    {
      var taskName := order[i];
      assert order[i..][0] == taskName && order[i..][1..] == order[i + 1..];
      assert taskName in order;
      assert finallyMounts + [] == finallyMounts;
      var taskStates := tasks[taskName];
      if |taskStates| > 0 {
        finallyMounts := finallyMounts + [DependencyMount("/tekton/.deps/" + taskName, taskStates[|taskStates| - 1]),
                                          SharedResults("/tekton/from-task/" + taskName, taskName)];
      }
    }
  }

  method CompileFinally(ctx: Context, workspaces: map<string, WorkspaceSource>, mounts: seq<Mount>, g: Graph,
                        ts: seq<PipelineTask>) returns (r: Outcome<Finals>)
    requires Ranges(ctx.lib)
    ensures r == CompileFinals(ctx, workspaces, mounts, Finals(g, map[], []), ts)
  {
    hide Translate, EmitSteps, ResolveTask;
    var graph := g;
    var finallyTasks: map<string, seq<State>> := map[];
    var steps: seq<seq<OpId>> := [];
    for i := 0 to |ts|
      invariant CompileFinals(ctx, workspaces, mounts, Finals(g, map[], []), ts)
             == CompileFinals(ctx, workspaces, mounts, Finals(graph, finallyTasks, steps), ts[i..])
    {
      var t := ts[i];
      assert ts[i..][0] == t && ts[i..][1..] == ts[i + 1..];
      var spec := ResolveTask(ctx, t, "Finally Taskref");
      if !spec.Done? {
        return spec.PropagateFailure();
      }
      var fns := MountFinalWorkspaces(workspaces, t.workspaces);
      var psteps := TaskSpecToPSteps(ctx, spec.value, TaskArgs("finally/" + t.name, fns, t.timeout));
      if psteps.Err? {
        return Failed(psteps.error);
      }
      OperationsOfOutputs(EmitSteps(graph, psteps.value, mounts, |psteps.value|).1);
      var h, stepStates := PStepToState(graph, psteps.value, Scratch, mounts);
      graph := h;
      finallyTasks := finallyTasks[t.name := stepStates];
      steps := steps + [Operations(stepStates)];
    }
    r := Done(Finals(graph, finallyTasks, steps));
  }

  method CollectStates(c: Collected, tasks: map<string, seq<State>>, prefix: string, order: seq<string>)
    returns (d: Collected)
    requires Enumerates(order, tasks.Keys)
    ensures d == Collect(c, tasks, prefix, order)
  {
    var allStates, resultCacheMounts := c.states, c.caches;
    for i := 0 to |order|
      invariant Collect(c, tasks, prefix, order) ==
          Collect(Collected(allStates, resultCacheMounts), tasks, prefix, order[i..])
    {
      var n := order[i];
      assert order[i..][0] == n && order[i..][1..] == order[i + 1..];
      assert n in order;
      var t := tasks[n];
      if |t| > 0 {
        allStates := allStates + [t[|t| - 1]];
        resultCacheMounts := resultCacheMounts + [SharedResults("/task/" + prefix + n, prefix + n)];
      }
    }
    d := Collected(allStates, resultCacheMounts);
  }

  method MountStates(states: seq<State>) returns (depMounts: seq<Mount>)
    ensures depMounts == DependencyMounts(states)
  {
    hide DependencyMount;
    depMounts := [];
    for i := 0 to |states|
      invariant |depMounts| == i && forall k :: 0 <= k < i ==>
          depMounts[k] == DependencyMount("/.dep/" + Text.Decimal(k), states[k])
    {
      depMounts := depMounts + [DependencyMount("/.dep/" + Text.Decimal(i), states[i])];
    }
  }

  method CollectRoot(lib: Library, g: Graph, tasks: map<string, seq<State>>, finallyTasks: map<string, seq<State>>)
    returns (h: Graph)
    requires Ranges(lib)
    ensures h == EmitRoot(g, CollectAll(lib, tasks, finallyTasks))
  {
    hide Collect, DependencyMounts;
    var regular := CollectStates(Collected([], []), tasks, "", lib.range("collect", tasks.Keys));
    var all := CollectStates(regular, finallyTasks, "finally/", lib.range("collect finally", finallyTasks.Keys));
    var depMounts := MountStates(all.states);
    h := g + [Image("alpine:latest"), Exec(|g|, COLLECT, depMounts + all.caches)];
  }

  // ---------------------------------------------------------------- validation

  predicate IsTektonTask(m: TypeMeta) {
    (m.apiVersion == "" && m.kind == "") || (m.apiVersion == "tekton.dev/v1" && m.kind == "Task")
  }

  /** What this compiler supports of an embedded task of a pipeline. */
  ghost predicate SupportedTask(t: PipelineTask) {
    t.taskSpec.Some? ==> IsTektonTask(t.taskSpec.value.meta) && SupportedSpec(t.taskSpec.value.spec)
  }

  ghost predicate SupportedPipeline(p: PipelineSpec) {
    && (forall t :: t in p.finals ==> t.when == [] && SupportedTask(t))
    && (forall t :: t in p.tasks ==> SupportedTask(t))
  }

  method ValidateEmbedded(t: PipelineTask) returns (e: Option<Error>)
    ensures e.None? <==> SupportedTask(t)
    ensures t.taskSpec.None? ==> e.None?
    ensures t.taskSpec.Some? ==>
              var m, s := t.taskSpec.value.meta, t.taskSpec.value.spec;
              e.None? <==>
                && ((m.apiVersion == "" && m.kind == "") || (m.apiVersion == "tekton.dev/v1" && m.kind == "Task"))
                && s.sidecars == 0 && (forall v :: v in s.volumes ==> v.emptyDir)
                && (forall x :: x in s.steps ==> x.volumeDevices == 0)
  {
    e := None;
    if t.taskSpec.Some? {
      if !IsTektonTask(t.taskSpec.value.meta) {
        return Some(Invalid(t.name, "Custom task not supported"));
      }
      e := ValidateTaskSpec(t.taskSpec.value.spec);
    }
  }

  method ValidatePipeline(p: PipelineSpec) returns (e: Option<Error>)
    ensures e.None? <==> SupportedPipeline(p)
    ensures e.None? <==>
              && (forall i :: 0 <= i < |p.finals| ==> p.finals[i].when == [] && SupportedTask(p.finals[i]))
              && (forall i :: 0 <= i < |p.tasks| ==> SupportedTask(p.tasks[i]))
  {
    for i := 0 to |p.finals|
      invariant forall t :: t in p.finals[..i] ==> t.when == [] && SupportedTask(t)
    {
      var t := p.finals[i];
      if |t.when| > 0 {
        return Some(Invalid(t.name, "WhenExpressions not supported in finally blocks"));
      }
      e := ValidateEmbedded(t);
      if e.Some? {
        return;
      }
      assert p.finals[..i + 1] == p.finals[..i] + [t];
    }
    assert p.finals[..|p.finals|] == p.finals;
    for i := 0 to |p.tasks|
      invariant forall t :: t in p.tasks[..i] ==> SupportedTask(t)
    {
      e := ValidateEmbedded(p.tasks[i]);
      if e.Some? {
        return;
      }
      assert p.tasks[..i + 1] == p.tasks[..i] + [p.tasks[i]];
    }
    assert p.tasks[..|p.tasks|] == p.tasks;
    e := None;
  }

  function Named(run: PipelineRunObject): (r: PipelineRunObject)
    ensures run.name != "" || run.generateName == "" ==> r == run
    ensures run.name == "" && run.generateName != "" ==> r == run.(name := run.generateName + "generated")
  {
    run.(name := EffectiveName(run.name, run.generateName))
  }

  ghost predicate SupportedRun(lib: Library, run: PipelineRunObject) {
    && lib.validPipelineRun(run)
    && !run.hasPodTemplate
    && !run.hasTaskRunSpecs
    && (run.pipelineSpec.Some? ==> SupportedPipeline(run.pipelineSpec.value))
  }

  method ValidatePipelineRun(lib: Library, run: PipelineRunObject) returns (e: Option<Error>)
    ensures e.None? <==> SupportedRun(lib, run)
    ensures e.None? <==>
              && lib.validPipelineRun(run) && !run.hasPodTemplate && !run.hasTaskRunSpecs
              && (run.pipelineSpec.Some? ==> SupportedPipeline(run.pipelineSpec.value))
  {
    if !lib.validPipelineRun(run) {
      return Some(Invalid(run.name, "validation failed for PipelineRun"));
    }
    if run.hasPodTemplate {
      return Some(Invalid(run.name, "PodTemplate are not supported"));
    }
    if run.hasTaskRunSpecs {
      return Some(Invalid(run.name, "TaskRunSpecs are not supported"));
    }
    e := None;
    if run.pipelineSpec.Some? {
      e := ValidatePipeline(run.pipelineSpec.value);
    }
  }

  // ---------------------------------------------------------------- PipelineRunToLLB

  /** The pipeline a run asks for: embedded, by reference, or (without either) none at all. */
  function ResolvePipeline(ctx: Context, run: PipelineRunObject): Outcome<PipelineSpec> {
    if run.pipelineSpec.Some? then ctx.lib.substitutePipeline(run, run.pipelineSpec.value, "embedded").Outcome()
    else if run.pipelineRef != "" then
      if run.pipelineRef !in ctx.pipelines then Failed(NotFound("PipelineRef", run.pipelineRef))
      else ctx.lib.substitutePipeline(run, ctx.pipelines[run.pipelineRef], run.pipelineRef).Outcome()
    else Panicked(NilPipelineSpec)
  }

  ghost function CompileRun(ctx: Context, run: PipelineRunObject): Outcome<Compiled> {
    var spec :- ResolvePipeline(ctx, run);
    CompileSpec(ctx, run.name, run.workspaces, spec)
  }

  /** The whole compiler: an unsupported run is refused, any other compiles as `CompileRun` says. */
  method PipelineRunToLLB(ctx: Context, submitted: PipelineRunObject) returns (r: Outcome<Compiled>)
    requires Ranges(ctx.lib)
    ensures SupportedRun(ctx.lib, Named(submitted)) ==> r == CompileRun(ctx, Named(submitted))
    ensures !SupportedRun(ctx.lib, Named(submitted)) ==> r.Failed?
  {
    hide BindWorkspaces, CompileTasks, FinalMounts, CompileFinals, EmitRoot, CollectAll;
    var run := Named(submitted);
    var invalid := ValidatePipelineRun(ctx.lib, run);
    if invalid.Some? {
      return Failed(invalid.value);
    }
    var spec := ResolvePipeline(ctx, run);
    if !spec.Done? {
      return spec.PropagateFailure();
    }
    var b := BindAll(ctx, run.name, run.workspaces);
    if !b.Done? {
      return b.PropagateFailure();
    }
    var p := CompileRegular(ctx, b.value, spec.value.tasks);
    if !p.Done? {
      return p.PropagateFailure();
    }
    var finallyMounts: seq<Mount> := [];
    if |spec.value.finals| > 0 {
      finallyMounts := MountAllRegular(ctx.lib, p.value.tasks);
    }
    var f := CompileFinally(ctx, b.value.workspaces, finallyMounts, p.value.graph, spec.value.finals);
    if !f.Done? {
      return f.PropagateFailure();
    }
    var graph := CollectRoot(ctx.lib, f.value.graph, p.value.tasks, f.value.tasks);
    r := Done(Compiled(graph, |graph| - 1, p.value.steps, f.value.steps));
  }
}
