/** The parts of Tekton's v1 API the compiler reads, and the library calls it makes. */
module Tekton {
  import opened Basics

  datatype EnvVar = EnvVar(name: string, value: string)

  datatype EnvFrom = EnvFrom(prefix: string, configMap: Option<string>, secret: Option<string>)

  datatype VolumeMount = VolumeMount(name: string, mountPath: string, subPath: string, readOnly: bool)

  /** Timeouts are in nanoseconds. */
  datatype Step = Step(
    name: string,
    image: string,
    script: string,
    command: seq<string>,
    args: seq<string>,
    onError: string,
    timeout: Option<int>,
    workingDir: string,
    env: seq<EnvVar>,
    envFrom: seq<EnvFrom>,
    runAsUser: Option<int>,
    volumeMounts: seq<VolumeMount>,
    volumeDevices: nat)

  const CONTINUE := "continue"

  datatype Volume = Volume(name: string, emptyDir: bool)

  datatype TaskSpec = TaskSpec(steps: seq<Step>, volumes: seq<Volume>, sidecars: nat)

  datatype WhenExpression = WhenExpression(input: string, operator: string, values: seq<string>)

  datatype TypeMeta = TypeMeta(apiVersion: string, kind: string)

  datatype EmbeddedTask = EmbeddedTask(meta: TypeMeta, spec: TaskSpec)

  /** A workspace of a task, bound to a workspace of the pipeline. */
  datatype WorkspaceUse = WorkspaceUse(name: string, workspace: string)

  datatype Param = Param(name: string, value: string)

  datatype PipelineTask = PipelineTask(
    name: string,
    params: seq<Param>,
    taskRef: Option<string>,
    taskSpec: Option<EmbeddedTask>,
    when: seq<WhenExpression>,
    runAfter: seq<string>,
    workspaces: seq<WorkspaceUse>,
    timeout: Option<int>)

  datatype PipelineSpec = PipelineSpec(tasks: seq<PipelineTask>, finals: seq<PipelineTask>)

  datatype KeyToPath = KeyToPath(key: string, path: string)

  datatype WorkspaceKind =
    | ConfigMapWorkspace(configMap: string, items: seq<KeyToPath>)
    | SecretWorkspace(secret: string, items: seq<KeyToPath>)
    | PersistentWorkspace   // emptyDir, volumeClaimTemplate or persistentVolumeClaim
    | OtherWorkspace

  datatype WorkspaceBinding = WorkspaceBinding(name: string, kind: WorkspaceKind)

  datatype PipelineRunObject = PipelineRunObject(
    name: string,
    generateName: string,
    pipelineSpec: Option<PipelineSpec>,
    pipelineRef: string,   // empty when there is no reference by name
    workspaces: seq<WorkspaceBinding>,
    hasPodTemplate: bool,
    hasTaskRunSpecs: bool)

  datatype TaskRunObject = TaskRunObject(
    name: string,
    generateName: string,
    taskSpec: Option<TaskSpec>,
    taskRef: string,
    params: seq<Param>,
    workspaces: seq<string>,
    hasPodTemplate: bool)

  type Data = map<string, string>

  datatype ProjectedFile = ProjectedFile(path: string, data: string)

  /** Code that is not part of this model, as arbitrary functions: validation, defaulting and substitution in
      Tekton, image references, file name suffixes, and the order in which Go's `range` visits a map (`keys` where it
      lays the keys of a ConfigMap or Secret out as files). */
  datatype Library = Library(
    validPipelineRun: PipelineRunObject -> bool,
    validTaskRun: TaskRunObject -> bool,
    substitutePipeline: (PipelineRunObject, PipelineSpec, string) -> Result<PipelineSpec>,
    substituteTask: (TaskSpec, seq<Param>, seq<string>, string) -> Result<TaskSpec>,
    mergeStep: (TaskSpec, Step) -> Result<Step>,
    normalizeImage: string -> Result<string>,
    fileName: (string, string) -> string,
    keys: Data -> seq<string>,
    range: (string, set<string>) -> seq<string>)

  /** The order of a `range` is unspecified, but it visits each key once. */
  ghost predicate Ranges(lib: Library) {
    && (forall site, keys :: Enumerates(lib.range(site, keys), keys))
    && (forall data :: Enumerates(lib.keys(data), data.Keys))
  }

  lemma RangeVisits(lib: Library, site: string, keys: set<string>)
    requires Ranges(lib)
    ensures Enumerates(lib.range(site, keys), keys)
  {
  }

  /** Everything a run is compiled against. */
  datatype Context = Context(
    lib: Library,
    tasks: map<string, TaskSpec>,
    pipelines: map<string, PipelineSpec>,
    configs: map<string, Data>,
    secrets: map<string, Data>)

  /** A generated name gets a fixed ending. */
  function EffectiveName(name: string, generateName: string): string {
    if name == "" && generateName != "" then generateName + "generated" else name
  }
}
