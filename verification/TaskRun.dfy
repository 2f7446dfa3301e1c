/** taskrun.go: from the steps of one task to a chain of operations. */
module TaskRun {
  import opened Basics
  import opened Llb
  import opened Tekton
  import Script
  import ScriptFiles
  import Text

  const SCRIPTS_DIR := "/tekton/scripts"

  /** A function from a state to a mount, as the closures in the source are. */
  datatype MountFn =
    | CacheFn(target: string, cacheId: string, sourcePath: string, readonly: bool)
    | ContentFn(target: string, content: State)
  {
    /** Cache directories are laid over the state given; content ignores it. */
    function Apply(state: State): Mount {
      match this
      case CacheFn(target, id, path, readonly) => Mount(target, state, path, Some(id), readonly)
      case ContentFn(target, content) => Mount(target, content, "/", None, true)
    }
  }

  datatype ScriptFile = ScriptFile(name: string, data: string)

  datatype PStep = PStep(
    name: string,
    image: string,
    script: Option<ScriptFile>,
    process: Process,
    results: seq<MountFn>,
    workspaces: seq<MountFn>,
    volumeMounts: seq<MountFn>)

  /** What `taskSpecToPSteps` is given besides the task. */
  datatype TaskArgs = TaskArgs(name: string, workspaces: seq<MountFn>, timeout: Option<int>)

  // ---------------------------------------------------------------- what taskSpecToPSteps computes

  function StepTimeout(step: Step, taskTimeout: Option<int>): Option<int> {
    if step.timeout.Some? then step.timeout else taskTimeout
  }

  /** The generated file of a step, if it gets one, and the arguments it is started with. */
  function StepFile(lib: Library, step: Step, task: TaskArgs, i: nat): Option<ScriptFile> {
    var continueOnError, timeout := step.onError == CONTINUE, StepTimeout(step, task.timeout);
    var stepName := task.name + "/" + step.name;
    if step.script != "" then
      Some(ScriptFile(lib.fileName(stepName, "script-" + Text.Decimal(i)),
                      Script.ScriptText(step.script, continueOnError, timeout)))
    else if (continueOnError || timeout.Some?) && step.command != [] then
      Some(ScriptFile(lib.fileName(stepName, "cmd-" + Text.Decimal(i)),
                      Script.CommandText(step.command, step.args, continueOnError, timeout)))
    else None
  }

  function StepArgs(step: Step, file: Option<ScriptFile>): seq<string> {
    if file.Some? then [SCRIPTS_DIR + "/" + file.value.name] else step.command + step.args
  }

  function DeclaredEnv(env: seq<EnvVar>, n: nat): Data
    requires n <= |env|
  {
    if n == 0 then map[] else DeclaredEnv(env, n - 1)[env[n - 1].name := env[n - 1].value]
  }

  /** `data` with every key prefixed. */
  ghost function Prefixed(prefix: string, data: Data): Data {
    map name | name in (set k | k in data :: prefix + k) :: data[name[|prefix|..]]
  }

  ghost function Source(name: Option<string>, sources: map<string, Data>): Data {
    if name.Some? && name.value in sources then sources[name.value] else map[]
  }

  /** The variables a step ends up with: later entries replace earlier ones. Nothing here depends on the
      order in which a ConfigMap or Secret is enumerated. */
  ghost function StepEnv(ctx: Context, step: Step, n: nat): Data
    requires n <= |step.envFrom|
  {
    if n == 0 then DeclaredEnv(step.env, |step.env|)
    else
      var e := step.envFrom[n - 1];
      StepEnv(ctx, step, n - 1) + Prefixed(e.prefix, Source(e.configMap, ctx.configs))
        + Prefixed(e.prefix, Source(e.secret, ctx.secrets))
  }

  function EmptyDirs(spec: TaskSpec): set<string> {
    set v | v in spec.volumes && v.emptyDir :: v.name
  }

  function VolumeFn(taskName: string, m: VolumeMount): MountFn {
    CacheFn(m.mountPath, taskName + "/volume/" + m.name, m.subPath, m.readOnly)
  }

  /** Mounts of volumes that are not emptyDir volumes of the task are dropped. */
  function VolumeFns(mounts: seq<VolumeMount>, dirs: set<string>, taskName: string, n: nat): seq<MountFn>
    requires n <= |mounts|
  {
    if n == 0 then []
    else VolumeFns(mounts, dirs, taskName, n - 1) +
         if mounts[n - 1].name in dirs then [VolumeFn(taskName, mounts[n - 1])] else []
  }

  function ResultsFn(taskName: string): MountFn {
    CacheFn("/tekton/results", taskName + "/results", "", false)
  }

  ghost function TranslateStep(ctx: Context, spec: TaskSpec, task: TaskArgs, step: Step, i: nat): Result<PStep> {
    var image :- ctx.lib.normalizeImage(step.image);
    var file := StepFile(ctx.lib, step, task, i);
    Ok(PStep(
      step.name,
      image,
      file,
      Process(StepArgs(step, file),
              StepEnv(ctx, step, |step.envFrom|),
              step.workingDir,
              if step.runAsUser.Some? then Some(Text.Decimal(step.runAsUser.value)) else None),
      [ResultsFn(task.name)],
      task.workspaces,
      VolumeFns(step.volumeMounts, EmptyDirs(spec), task.name, |step.volumeMounts|)))
  }

  function MergeSteps(lib: Library, spec: TaskSpec, n: nat): Result<seq<Step>>
    requires n <= |spec.steps|
  {
    if n == 0 then Ok([])
    else
      var before :- MergeSteps(lib, spec, n - 1);
      var step :- lib.mergeStep(spec, spec.steps[n - 1]);
      Ok(before + [step])
  }

  ghost function TranslateSteps(ctx: Context, spec: TaskSpec, task: TaskArgs, merged: seq<Step>,
                                n: nat): Result<seq<PStep>>
    requires n <= |merged|
  {
    if n == 0 then Ok([])
    else
      var before :- TranslateSteps(ctx, spec, task, merged, n - 1);
      var step :- TranslateStep(ctx, spec, task, merged[n - 1], n - 1);
      Ok(before + [step])
  }

  ghost function Translate(ctx: Context, spec: TaskSpec, task: TaskArgs): Result<seq<PStep>> {
    var merged :- MergeSteps(ctx.lib, spec, |spec.steps|);
    TranslateSteps(ctx, spec, task, merged, |merged|)
  }

  // ---------------------------------------------------------------- taskSpecToPSteps as written

  /** The variables added by the first `n` visits of a `range`. */
  ghost function PrefixedUpTo(prefix: string, data: Data, order: seq<string>, n: nat): Data
    requires n <= |order| && forall k :: k in order ==> k in data
  {
    if n == 0 then map[]
    else
      assert order[n - 1] in order;
      PrefixedUpTo(prefix, data, order, n - 1)[prefix + order[n - 1] := data[order[n - 1]]]
  }

  lemma {:induction false} PrefixedUpToAt(prefix: string, data: Data, order: seq<string>, n: nat)
    requires n <= |order| && forall k :: k in order ==> k in data
    ensures PrefixedUpTo(prefix, data, order, n) == map name | name in (set k | k in order[..n] :: prefix + k) ::
        data[name[|prefix|..]]
  {
    if n > 0 {
      PrefixedUpToAt(prefix, data, order, n - 1);
      var k := order[n - 1];
      assert order[..n] == order[..n - 1] + [k];
      assert (prefix + k)[|prefix|..] == k;
    }
  }

  /** The order of a `range` does not matter: every key is visited, and no two visits set the same variable. */
  lemma PrefixedInAnyOrder(prefix: string, data: Data, order: seq<string>)
    requires Enumerates(order, data.Keys)
    ensures PrefixedUpTo(prefix, data, order, |order|) == Prefixed(prefix, data)
  {
    PrefixedUpToAt(prefix, data, order, |order|);
    assert order[..|order|] == order;
    assert (set k | k in order :: prefix + k) == (set k | k in data :: prefix + k);
  }

  /** One `range` over a ConfigMap or Secret. */
  method AddData(lib: Library, env: Data, prefix: string, data: Data) returns (extended: Data)
    requires Ranges(lib)
    ensures extended == env + Prefixed(prefix, data)
  {
    hide Ranges, Prefixed;
    extended := env;
    var order := lib.range("data", data.Keys);
    RangeVisits(lib, "data", data.Keys);
    for i := 0 to |order|
      invariant extended == env + PrefixedUpTo(prefix, data, order, i)
    {
      assert order[i] in order;
      extended := extended[prefix + order[i] := data[order[i]]];
    }
    PrefixedInAnyOrder(prefix, data, order);
  }

  method AddSource(lib: Library, env: Data, prefix: string, name: Option<string>, sources: map<string, Data>)
    returns (extended: Data)
    requires Ranges(lib)
    ensures extended == env + Prefixed(prefix, Source(name, sources))
  {
    extended := env;
    if name.Some? {
      if name.value in sources {
        extended := AddData(lib, env, prefix, sources[name.value]);
      }
    }
    assert env + map[] == env;
    assert Prefixed(prefix, map[]) == map[];
  }

  /** The ConfigMap or Secret of this name, if there is one, has a key that gives the variable `name`. */
  ghost predicate Yields(prefix: string, source: Option<string>, sources: map<string, Data>, name: string) {
    source.Some? && source.value in sources && prefix <= name && name[|prefix|..] in sources[source.value]
  }

  lemma PrefixedSource(prefix: string, source: Option<string>, sources: map<string, Data>, name: string)
    ensures name in Prefixed(prefix, Source(source, sources)) <==> Yields(prefix, source, sources, name)
    ensures Yields(prefix, source, sources, name) ==>
              Prefixed(prefix, Source(source, sources))[name] == sources[source.value][name[|prefix|..]]
  {
    var data := Source(source, sources);
    if Yields(prefix, source, sources, name) {
      assert prefix + name[|prefix|..] == name;
      assert name in (set k | k in data :: prefix + k);
    }
  }

  /** Entry `k` of `envFrom` sets the variable `name`. */
  ghost predicate Sets(ctx: Context, step: Step, k: nat, name: string)
    requires k < |step.envFrom|
  {
    var e := step.envFrom[k];
    Yields(e.prefix, e.configMap, ctx.configs, name) || Yields(e.prefix, e.secret, ctx.secrets, name)
  }

  /** What entry `k` sets `name` to: a Secret goes after the ConfigMap of the same entry. */
  ghost function SetTo(ctx: Context, step: Step, k: nat, name: string): string
    requires k < |step.envFrom| && Sets(ctx, step, k, name)
  {
    var e := step.envFrom[k];
    if Yields(e.prefix, e.secret, ctx.secrets, name) then ctx.secrets[e.secret.value][name[|e.prefix|..]]
    else ctx.configs[e.configMap.value][name[|e.prefix|..]]
  }

  lemma OneMoreSource(ctx: Context, step: Step, n: nat, name: string)
    requires 0 < n <= |step.envFrom|
    ensures Sets(ctx, step, n - 1, name) ==>
          name in StepEnv(ctx, step, n) && StepEnv(ctx, step, n)[name] == SetTo(ctx, step, n - 1, name)
    ensures !Sets(ctx, step, n - 1, name) ==>
              (name in StepEnv(ctx, step, n) <==> name in StepEnv(ctx, step, n - 1))
              && (name in StepEnv(ctx, step, n) ==> StepEnv(ctx, step, n)[name] == StepEnv(ctx, step, n - 1)[name])
  {
    hide Prefixed, Source, Yields;
    var e := step.envFrom[n - 1];
    PrefixedSource(e.prefix, e.configMap, ctx.configs, name);
    PrefixedSource(e.prefix, e.secret, ctx.secrets, name);
  }

  /** Later variables replace earlier ones: a step's environment has the value of the last entry that sets it. */
  lemma {:induction false} LastSourceWins(ctx: Context, step: Step, n: nat, k: nat, name: string)
    requires k < n <= |step.envFrom| && Sets(ctx, step, k, name) && forall l :: k < l < n ==> !Sets(ctx, step, l, name)
    ensures name in StepEnv(ctx, step, n) && StepEnv(ctx, step, n)[name] == SetTo(ctx, step, k, name)
  {
    hide Sets, SetTo, StepEnv;
    OneMoreSource(ctx, step, n, name);
    if k < n - 1 {
      LastSourceWins(ctx, step, n - 1, k, name);
    }
  }

  lemma NoSources(ctx: Context, step: Step)
    ensures StepEnv(ctx, step, 0) == DeclaredEnv(step.env, |step.env|)
  {
  }

  /** And where no entry sets it, the step's own declaration stands. */
  lemma {:induction false} DeclarationStands(ctx: Context, step: Step, n: nat, name: string)
    requires n <= |step.envFrom| && forall l :: 0 <= l < n ==> !Sets(ctx, step, l, name)
    ensures var declared := DeclaredEnv(step.env, |step.env|);
            (name in StepEnv(ctx, step, n) <==> name in declared)
              && (name in declared ==> StepEnv(ctx, step, n)[name] == declared[name])
  {
    hide Sets, DeclaredEnv, StepEnv;
    if n == 0 {
      NoSources(ctx, step);
    } else {
      OneMoreSource(ctx, step, n, name);
      DeclarationStands(ctx, step, n - 1, name);
    }
  }

  /** Of the declared variables of one name the last one counts. */
  lemma {:induction false} LastDeclarationWins(env: seq<EnvVar>, n: nat, k: nat)
    requires k < n <= |env| && forall l :: k < l < n ==> env[l].name != env[k].name
    ensures env[k].name in DeclaredEnv(env, n) && DeclaredEnv(env, n)[env[k].name] == env[k].value
  {
    if k < n - 1 {
      LastDeclarationWins(env, n - 1, k);
    }
  }

  lemma {:induction false} DeclaredNames(env: seq<EnvVar>, n: nat, name: string)
    requires n <= |env|
    ensures name in DeclaredEnv(env, n) <==> exists i :: 0 <= i < n && env[i].name == name
  {
    if n > 0 {
      DeclaredNames(env, n - 1, name);
    }
  }

  /** No entry of `envFrom` from `k` on gives the variable. */
  ghost predicate NoneYields(ctx: Context, step: Step, k: nat, name: string) {
    forall l :: k <= l < |step.envFrom| ==>
      && !Yields(step.envFrom[l].prefix, step.envFrom[l].configMap, ctx.configs, name)
      && !Yields(step.envFrom[l].prefix, step.envFrom[l].secret, ctx.secrets, name)
  }

  /** What entry `e` has the last word on: its Secret counts before its ConfigMap. */
  ghost predicate EntryCounts(ctx: Context, e: EnvFrom, name: string, env: Data) {
    if Yields(e.prefix, e.secret, ctx.secrets, name) then
      name in env && env[name] == ctx.secrets[e.secret.value][name[|e.prefix|..]]
    else
      Yields(e.prefix, e.configMap, ctx.configs, name) ==>
        name in env && env[name] == ctx.configs[e.configMap.value][name[|e.prefix|..]]
  }

  /** Declaration `i` is the last of its name. */
  ghost predicate LastDeclared(env: seq<EnvVar>, i: nat)
    requires i < |env|
  {
    forall l :: i < l < |env| ==> env[l].name != env[i].name
  }

  /** The environment asked for, told from the step's entries, the ConfigMaps and the Secrets: the last entry that has
      a variable counts, then the last declaration, and nothing else is there. */
  ghost predicate AsDeclared(ctx: Context, step: Step, env: Data) {
    && (forall k, name :: 0 <= k < |step.envFrom| && NoneYields(ctx, step, k + 1, name) ==>
          EntryCounts(ctx, step.envFrom[k], name, env))
    && (forall i :: 0 <= i < |step.env| && LastDeclared(step.env, i) && NoneYields(ctx, step, 0, step.env[i].name) ==>
          step.env[i].name in env && env[step.env[i].name] == step.env[i].value)
    && (forall name :: name in env && NoneYields(ctx, step, 0, name) ==>
          exists i :: 0 <= i < |step.env| && step.env[i].name == name)
  }

  lemma LaterSetNothing(ctx: Context, step: Step, k: nat, name: string)
    requires NoneYields(ctx, step, k, name)
    ensures forall l :: k <= l < |step.envFrom| ==> !Sets(ctx, step, l, name)
  {
    hide Yields;
  }

  lemma EnvIsAsDeclared(ctx: Context, step: Step)
    ensures AsDeclared(ctx, step, StepEnv(ctx, step, |step.envFrom|))
  {
    hide StepEnv, Yields, NoneYields;
    var n := |step.envFrom|;
    forall k, name | 0 <= k < n && NoneYields(ctx, step, k + 1, name)
      ensures EntryCounts(ctx, step.envFrom[k], name, StepEnv(ctx, step, n))
    {
      LaterSetNothing(ctx, step, k + 1, name);
      if Sets(ctx, step, k, name) {
        LastSourceWins(ctx, step, n, k, name);
      }
    }
    forall i | 0 <= i < |step.env| && LastDeclared(step.env, i) && NoneYields(ctx, step, 0, step.env[i].name)
      ensures step.env[i].name in StepEnv(ctx, step, n)
          && StepEnv(ctx, step, n)[step.env[i].name] == step.env[i].value
    {
      LaterSetNothing(ctx, step, 0, step.env[i].name);
      DeclarationStands(ctx, step, n, step.env[i].name);
      LastDeclarationWins(step.env, |step.env|, i);
    }
    forall name | name in StepEnv(ctx, step, n) && NoneYields(ctx, step, 0, name)
      ensures exists i :: 0 <= i < |step.env| && step.env[i].name == name
    {
      LaterSetNothing(ctx, step, 0, name);
      DeclarationStands(ctx, step, n, name);
      DeclaredNames(step.env, |step.env|, name);
    }
  }

  method BuildEnv(ctx: Context, step: Step) returns (env: Data)
    requires Ranges(ctx.lib)
    ensures env == StepEnv(ctx, step, |step.envFrom|) && AsDeclared(ctx, step, env)
  {
    hide Prefixed, Source, AsDeclared, Ranges;
    env := map[];
    for i := 0 to |step.env|
      invariant env == DeclaredEnv(step.env, i)
    {
      env := env[step.env[i].name := step.env[i].value];
    }
    for i := 0 to |step.envFrom|
      invariant env == StepEnv(ctx, step, i)
    {
      var e := step.envFrom[i];
      env := AddSource(ctx.lib, env, e.prefix, e.configMap, ctx.configs);
      env := AddSource(ctx.lib, env, e.prefix, e.secret, ctx.secrets);
    }
    EnvIsAsDeclared(ctx, step);
  }

  method SelectCommand(lib: Library, step: Step, task: TaskArgs, i: nat)
    returns (file: Option<ScriptFile>, args: seq<string>)
    ensures file == StepFile(lib, step, task, i) && args == StepArgs(step, file)
    ensures var timeout := if step.timeout.Some? then step.timeout else task.timeout;
            if step.script != "" then
              && file.Some? && file.value.name == lib.fileName(task.name + "/" + step.name, "script-" + Text.Decimal(i))
              && file.value.data == Script.ScriptText(step.script, step.onError == CONTINUE, timeout)
              && args == ["/tekton/scripts/" + file.value.name]
            else if step.command != [] && (step.onError == CONTINUE || timeout.Some?) then
              && file.Some? && file.value.name == lib.fileName(task.name + "/" + step.name, "cmd-" + Text.Decimal(i))
              && args == ["/tekton/scripts/" + file.value.name]
              && file.value.data == Script.CommandText(step.command, step.args, step.onError == CONTINUE, timeout)
            else file.None? && args == step.command + step.args
  {
    hide Script.ScriptText, Script.CommandText, Script.WithPreamble, Text.Decimal, ScriptFiles.ReadsAs;
    var continueOnError := step.onError == CONTINUE;
    var timeout := None;
    if step.timeout.Some? {
      timeout := step.timeout;
    } else if task.timeout.Some? {
      timeout := task.timeout;
    }
    file := None;
    assert SCRIPTS_DIR + "/" == "/tekton/scripts/";
    if step.script != "" {
      var data := ScriptFiles.StepScript(step.script, continueOnError, timeout);
      file := Some(ScriptFile(lib.fileName(task.name + "/" + step.name, "script-" + Text.Decimal(i)), data));
      args := [SCRIPTS_DIR + "/" + file.value.name];
    } else if (continueOnError || timeout.Some?) && |step.command| > 0 {
      var data := ScriptFiles.CommandWrapper(step.command, step.args, continueOnError, timeout);
      file := Some(ScriptFile(lib.fileName(task.name + "/" + step.name, "cmd-" + Text.Decimal(i)), data));
      args := [SCRIPTS_DIR + "/" + file.value.name];
    } else {
      args := step.command + step.args;
    }
  }

  method SelectVolumes(spec: TaskSpec, step: Step, taskName: string) returns (fns: seq<MountFn>)
    ensures fns == VolumeFns(step.volumeMounts, EmptyDirs(spec), taskName, |step.volumeMounts|)
  {
    var volumeStates: map<string, State> := map[];
    for i := 0 to |spec.volumes|
      invariant volumeStates.Keys == set v | v in spec.volumes[..i] && v.emptyDir :: v.name
    {
      if spec.volumes[i].emptyDir {
        volumeStates := volumeStates[spec.volumes[i].name := Scratch];
      }
      assert spec.volumes[..i + 1] == spec.volumes[..i] + [spec.volumes[i]];
    }
    assert spec.volumes[..|spec.volumes|] == spec.volumes;
    fns := [];
    for i := 0 to |step.volumeMounts|
      invariant fns == VolumeFns(step.volumeMounts, EmptyDirs(spec), taskName, i)
    {
      if step.volumeMounts[i].name in volumeStates {
        fns := fns + [VolumeFn(taskName, step.volumeMounts[i])];
      }
    }
  }

  method TaskSpecToPSteps(ctx: Context, spec: TaskSpec, task: TaskArgs) returns (r: Result<seq<PStep>>)
    requires Ranges(ctx.lib)
    ensures r == Translate(ctx, spec, task)
  {
    hide StepEnv, StepFile, StepArgs, VolumeFns, EmptyDirs, AsDeclared, Script.ScriptText, Script.CommandText;
    var m := MergeSteps(ctx.lib, spec, |spec.steps|);
    if m.Err? {
      return Err(m.error);
    }
    var mergedSteps := m.value;
    var blank := PStep("", "", None, Process([], map[], "", None), [], [], []);
    var steps := new PStep[|mergedSteps|](_ => blank);
    for i := 0 to |mergedSteps|
      invariant TranslateSteps(ctx, spec, task, mergedSteps, i) == Ok(steps[..i])
    {
      var step := mergedSteps[i];
      var image := ctx.lib.normalizeImage(step.image);
      if image.Err? {
        FirstErrorStands(ctx, spec, task, mergedSteps, i + 1, |mergedSteps|);
        return Err(image.error);
      }
      var file, args := SelectCommand(ctx.lib, step, task, i);
      var env := BuildEnv(ctx, step);
      var user := None;
      if step.runAsUser.Some? {
        user := Some(Text.Decimal(step.runAsUser.value));
      }
      var volumeMounts := SelectVolumes(spec, step, task.name);
      steps[i] := PStep(step.name, image.value, file, Process(args, env, step.workingDir, user),
                        [ResultsFn(task.name)], task.workspaces, volumeMounts);
      assert steps[..i + 1] == steps[..i] + [steps[i]];
    }
    assert steps[..|mergedSteps|] == steps[..];
    r := Ok(steps[..]);
  }

  lemma {:induction false} FirstErrorStands(ctx: Context, spec: TaskSpec, task: TaskArgs, merged: seq<Step>, i: nat,
                                            n: nat)
    requires i <= n <= |merged| && TranslateSteps(ctx, spec, task, merged, i).Err?
    ensures TranslateSteps(ctx, spec, task, merged, n) == TranslateSteps(ctx, spec, task, merged, i)
  {
    hide TranslateStep;
    if i < n {
      FirstErrorStands(ctx, spec, task, merged, i, n - 1);
    }
  }

  // ---------------------------------------------------------------- pstepToState

  function ApplyAll(fns: seq<MountFn>, state: State): seq<Mount> {
    seq(|fns|, i requires 0 <= i < |fns| => fns[i].Apply(state))
  }

  function PreviousMount(i: nat, previous: State): seq<Mount> {
    if i > 0 then [Mount("/previous/" + Text.Decimal(i - 1), previous, "/", None, true)] else []
  }

  /** The image, and the script file if there is one. */
  function EmitInputs(g: Graph, step: PStep): Graph {
    g + [Image(step.image)] + if step.script.Some? then [File(Scratch, step.script.value.name, step.script.value.data)]
      else []
  }

  function ScriptMount(g: Graph, step: PStep): seq<Mount> {
    if step.script.Some? then [Mount(SCRIPTS_DIR, Output(|g| + 1), "/", None, true)] else []
  }

  function StepMounts(g: Graph, step: PStep, i: nat, previous: State, additional: seq<Mount>): seq<Mount> {
    ScriptMount(g, step)
    + (ApplyAll(step.results, Scratch) + PreviousMount(i, previous)
       + ApplyAll(step.workspaces, Scratch) + ApplyAll(step.volumeMounts, Scratch))
    + additional
  }

  function EmitStep(g: Graph, step: PStep, i: nat, previous: State, additional: seq<Mount>): (h: Graph)
    ensures |g| < |h| && g <= h
  {
    EmitInputs(g, step) + [Exec(|g|, step.process, StepMounts(g, step, i, previous, additional))]
  }

  /** The graph with the first `n` steps added, and the operation of each. */
  function EmitSteps(g: Graph, steps: seq<PStep>, additional: seq<Mount>, n: nat): (r: (Graph, seq<OpId>))
    requires n <= |steps|
    ensures |r.1| == n
  {
    if n == 0 then (g, [])
    else
      var (h, ids) := EmitSteps(g, steps, additional, n - 1);
      var h' := EmitStep(h, steps[n - 1], n - 1, if n > 1 then Output(ids[n - 2]) else Scratch, additional);
      (h', ids + [|h'| - 1])
  }

  function Outputs(ids: seq<OpId>): seq<State> {
    seq(|ids|, i requires 0 <= i < |ids| => Output(ids[i]))
  }

  method ApplyTo(fns: seq<MountFn>, state: State) returns (mounts: seq<Mount>)
    ensures mounts == ApplyAll(fns, state)
  {
    mounts := [];
    for k := 0 to |fns|
      invariant |mounts| == k && forall x :: 0 <= x < k ==> mounts[x] == fns[x].Apply(state)
    {
      mounts := mounts + [fns[k].Apply(state)];
    }
  }

  /** One round of the loop: `current` is what `stepStates[i]` holds when the round starts. */
  method AddStep(g: Graph, step: PStep, i: nat, previous: State, current: State, resultState: State,
                 additional: seq<Mount>) returns (h: Graph)
    requires resultState == Scratch
    requires current == Scratch   // the state of this very step is still the zero state: a workspace adds no input
    ensures h == EmitStep(g, step, i, previous, additional)
  {
    var mounts := ApplyTo(step.results, resultState);
    if i > 0 {
      mounts := mounts + [Mount("/previous/" + Text.Decimal(i - 1), previous, "/", None, true)];
    }
    assert mounts == ApplyAll(step.results, Scratch) + PreviousMount(i, previous);
    var workspaces := ApplyTo(step.workspaces, current);
    mounts := mounts + workspaces;
    var volumes := ApplyTo(step.volumeMounts, resultState);
    mounts := mounts + volumes;
    var runOptions := ScriptMount(g, step) + mounts + additional;
    h := EmitInputs(g, step) + [Exec(|g|, step.process, runOptions)];
  }

  method PStepToState(g: Graph, steps: seq<PStep>, resultState: State, additional: seq<Mount>)
    returns (h: Graph, states: seq<State>)
    requires resultState == Scratch
    ensures h == EmitSteps(g, steps, additional, |steps|).0
    ensures states == Outputs(EmitSteps(g, steps, additional, |steps|).1)
  {
    hide EmitStep;
    h := g;
    var stepStates := new State[|steps|](_ => Scratch);   // the zero llb.State
    for i := 0 to |steps|
      invariant h == EmitSteps(g, steps, additional, i).0
      invariant stepStates[..i] == Outputs(EmitSteps(g, steps, additional, i).1)
      invariant forall k :: i <= k < |steps| ==> stepStates[k] == Scratch
    {
      var previous := if i > 0 then stepStates[i - 1] else Scratch;
      assert i > 0 ==> previous == stepStates[..i][i - 1];
      h := AddStep(h, steps[i], i, previous, stepStates[i], resultState, additional);
      stepStates[i] := Output(|h| - 1);
      assert stepStates[..i + 1] == stepStates[..i] + [stepStates[i]];
    }
    assert stepStates[..|steps|] == stepStates[..];
    states := stepStates[..];
  }

  // ---------------------------------------------------------------- TaskRunToLLB

  ghost predicate SupportedSpec(spec: TaskSpec) {
    && spec.sidecars == 0
    && (forall v :: v in spec.volumes ==> v.emptyDir)
    && (forall s :: s in spec.steps ==> s.volumeDevices == 0)
  }

  method ValidateTaskSpec(spec: TaskSpec) returns (e: Option<Error>)
    ensures e.None? <==> SupportedSpec(spec)
    ensures e.None? <==>
              && spec.sidecars == 0 && (forall v :: v in spec.volumes ==> v.emptyDir)
              && (forall s :: s in spec.steps ==> s.volumeDevices == 0)
  {
    if spec.sidecars > 0 {
      return Some(Invalid("task", "Sidecars are not supported"));
    }
    for i := 0 to |spec.volumes|
      invariant forall v :: v in spec.volumes[..i] ==> v.emptyDir
    {
      if !spec.volumes[i].emptyDir {
        return Some(Invalid(spec.volumes[i].name, "only emptyDir volumes are supported"));
      }
      assert spec.volumes[..i + 1] == spec.volumes[..i] + [spec.volumes[i]];
    }
    assert spec.volumes[..|spec.volumes|] == spec.volumes;
    for i := 0 to |spec.steps|
      invariant forall s :: s in spec.steps[..i] ==> s.volumeDevices == 0
    {
      if spec.steps[i].volumeDevices > 0 {
        return Some(Invalid(spec.steps[i].name, "VolumeDevices not supported"));
      }
      assert spec.steps[..i + 1] == spec.steps[..i] + [spec.steps[i]];
    }
    assert spec.steps[..|spec.steps|] == spec.steps;
    e := None;
  }

  function NamedTask(run: TaskRunObject): (r: TaskRunObject)
    ensures run.name != "" || run.generateName == "" ==> r == run
    ensures run.name == "" && run.generateName != "" ==> r == run.(name := run.generateName + "generated")
  {
    run.(name := EffectiveName(run.name, run.generateName))
  }

  function ResolveTaskRun(ctx: Context, run: TaskRunObject): Outcome<TaskSpec> {
    if run.taskSpec.Some? then
      ctx.lib.substituteTask(run.taskSpec.value, run.params, run.workspaces, "embedded").Outcome()
    else if run.taskRef != "" then
      if run.taskRef !in ctx.tasks then Failed(NotFound("Taskref", run.taskRef))
      else ctx.lib.substituteTask(ctx.tasks[run.taskRef], run.params, run.workspaces, run.taskRef).Outcome()
    else Panicked(NilTaskSpec)
  }

  function RunWorkspaces(run: TaskRunObject): seq<MountFn> {
    seq(|run.workspaces|, i requires 0 <= i < |run.workspaces| =>
      CacheFn(run.workspaces[i], run.name + "/" + run.workspaces[i], "", false))
  }

  /** The graph of a TaskRun and the operation of every step; the last one is returned to the solver. */
  datatype CompiledTask = CompiledTask(graph: Graph, steps: seq<OpId>)

  ghost function CompileTaskRun(ctx: Context, run: TaskRunObject): Outcome<CompiledTask> {
    var spec :- ResolveTaskRun(ctx, run);
    var steps :- Translate(ctx, spec, TaskArgs(run.name, RunWorkspaces(run), None)).Outcome();
    var (h, ids) := EmitSteps([], steps, [], |steps|);
    if ids == [] then Panicked(IndexOutOfRange(run.name)) else Done(CompiledTask(h, ids))
  }

  method TaskRunToLLB(ctx: Context, submitted: TaskRunObject) returns (g: Graph, r: Outcome<State>)
    requires Ranges(ctx.lib)
    ensures !ctx.lib.validTaskRun(NamedTask(submitted)) || submitted.hasPodTemplate ==> r.Failed?
    ensures submitted.taskSpec.Some? && !SupportedSpec(submitted.taskSpec.value) ==> r.Failed?
    ensures ctx.lib.validTaskRun(NamedTask(submitted)) && !submitted.hasPodTemplate ==>
              (submitted.taskSpec.Some? ==> SupportedSpec(submitted.taskSpec.value)) ==>
                match CompileTaskRun(ctx, NamedTask(submitted))
                case Done(c) => g == c.graph && c.steps != [] && r == Done(Output(c.steps[|c.steps| - 1]))
                case Failed(e) => r == Failed(e)
                case Panicked(p) => r == Panicked(p)
  {
    hide Translate, EmitSteps;
    g := [];
    var run := NamedTask(submitted);
    if !ctx.lib.validTaskRun(run) {
      return g, Failed(Invalid(run.name, "validation failed for Taskrun"));
    }
    if run.hasPodTemplate {
      return g, Failed(Invalid(run.name, "PodTemplate not supported"));
    }
    if run.taskSpec.Some? {
      var invalid := ValidateTaskSpec(run.taskSpec.value);
      if invalid.Some? {
        return g, Failed(invalid.value);
      }
    }
    var spec := ResolveTaskRun(ctx, run);
    if !spec.Done? {
      return g, spec.PropagateFailure();
    }
    var workspaces: seq<MountFn> := [];
    for i := 0 to |run.workspaces|
      invariant workspaces == RunWorkspaces(run)[..i]
    {
      workspaces := workspaces + [CacheFn(run.workspaces[i], run.name + "/" + run.workspaces[i], "", false)];
    }
    assert workspaces == RunWorkspaces(run);
    var steps := TaskSpecToPSteps(ctx, spec.value, TaskArgs(run.name, workspaces, None));
    if steps.Err? {
      return g, Failed(steps.error);
    }
    var h, stepStates := PStepToState([], steps.value, Scratch, []);
    if |stepStates| == 0 {
      return h, Panicked(IndexOutOfRange(run.name));
    }
    g, r := h, Done(stepStates[|stepStates| - 1]);
  }
}
