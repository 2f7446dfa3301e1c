# buildkit-tekton, modelled and verified

The program translates a Tekton `TaskRun` or `PipelineRun` into a BuildKit LLB graph, which a concurrent solver then
executes. Order is never stated in that graph: it is encoded as read-only mounts of earlier states. Data flows through
named cache directories, which order nothing. This project models the translation and proves what the graph means when
it runs, down to the exit status of the shell text generated for each step.

**The compiler.** `Tekton` holds the parts of Tekton's API that are read, and every library call as an arbitrary
function, including the order in which a `range` visits a map. `Llb` is the graph: an append-only arena of operations
with mounts and cache identifiers. `TaskRun` and `PipelineRun` are the two source files, as loops over maps and arrays,
each proved equal to a function; everything below is proved of those functions. `Wiring`, `PipelineWiring` and
`FinalWiring` carry one invariant through all phases (`FinalWiring.CompiledIsWired`): which processes each operation
waits for and which caches it touches. `Ordering`, `Precedence`, `CacheIds`, `CacheOwners`, `RaceFreedom`, `Panics`,
`MapOrder`, `StepContent`, `ResultMounts` and `Merging` draw their theorems from it. `Files` lays out ConfigMaps and
Secrets. `Asked` and `StepInputs` tell what every operation is made of from the submitted objects alone.

**The execution.** `Executor` is a solver that interleaves single actions of processes. An operation starts once its
inputs have succeeded, sees the caches it mounts at each of its actions, may write those that are mounted writable, and
may fail at any time; what processes do is an arbitrary function of what they can see. That mounts of states are the
inputs of an operation, and that caches mounted as shared are used concurrently, is BuildKit's definition of the graph
(vendor/github.com/moby/buildkit/client/llb/exec.go:483-496, vendor/github.com/moby/buildkit/solver/pb/ops.proto:8-12
and :154-162). `Termination` bounds its runs and `RaceWitness` shows what a race can do. `Execution`, `Failures` and
`Results` state what this gives for compiled pipelines in every reachable configuration and over whole runs,
`TaskRunExecution` the same for a TaskRun. `IgnoredErrors` joins the solver to the shell: what `onError: continue`
means for the rest of a run.

**The shell text.** `Script` is the printer, `ScriptFiles` the source's own functions. `Shell` is the reader of a POSIX
shell (IEEE Std 1003.1-2017, XCU, sections 2.2, 2.3 and 2.7.4) as an automaton over characters, `ShellRun` runs what
was read: simple commands, `||` lists, `set -e`, `command`, the EXIT trap, whose action is run by the same shell. Under
`set -e` a command that fails in that action gives the whole its status; so do the common shells, where the standard
read literally (`exit` in a trap keeps the earlier status) would have it otherwise. `Quoting` and `HereDocs` prove that
the text reads back as what it was printed from, `ScriptRun` and `StepContent` that exit statuses are those that
`onError` and `timeout` ask for. `Duration` models the binary64 arithmetic behind the printed timeout (IEEE 754-2019,
section 4.3.1).

**The loader.** `Documents` strips, trims and splits a file; `Load` decodes (by an arbitrary function), sorts by kind
and indexes by name.

What the proofs found, where the code departs from what is said of it:

- Finally tasks do not run after a failed regular task, although examples/1-pipelinerun-finally/run.yaml:10-11 says so:
  a finally step that has started has all regular steps behind it, succeeded (`Execution.FinallyAfterSuccess`), and
  `Failures.FinallyRunsExactly` says when one runs.
- A pipeline that Tekton accepts can panic: a name in `runAfter` must belong to a task listed earlier and not skipped
  by `when` (`Panics.CompletesExactly`, `Panics.LateOrSkippedDependencyPanics`).
- Cache identifiers of different owners are equal in six cases, and in no other (`CacheIds.OwnersAreSeparate`); in four
  of them a workspace or a volume has a slash in its name, which validation does not refuse
  (`CacheIds.NamesLeaveTwoCollisions`).
- `onError: continue` does not always give status zero. Of the commands modelled, without a timeout, it does unless the
  command is `exit` with a number that is not zero modulo 256, `exec` of a command that fails, or a `trap` for EXIT
  whose action exits with another status, each with `command` in front or not (`ShellRun.IgnoredStatusExactly`); for a
  script, if and only if `mktemp`, `cat`, `chmod` and the removal of the file return zero
  (`ScriptRun.IgnoredScriptExactly`).
- `onError` and `timeout` have no effect on a step with neither script nor command, whose arguments go to the image's
  entry point (`StepContent.CommandStepHonoured`).
- A script with a line equal to the delimiter is cut there (`HereDocs.HereDocRoundTrip`, in both directions).
- From 2^24 seconds on, the last nanosecond of each second prints as the next second
  (`Duration.RoundsUpFrom2To24Seconds`); `Duration.PrintedSeconds` says exactly which durations do.
- An empty document at either end of a file is lost (`Documents.DocumentsRoundTrip`, in both directions); a line with a
  bare `#` takes the next line with it, and shebang lines are removed as comments.
- Tasks and pipelines in the main file are decoded and dropped (`Load.ReadResources`).
- `when` on a finally task is refused only for an embedded pipeline; under a `pipelineRef` it is ignored
  (`PipelineRun.ValidatePipelineRun` and `PipelineRun.CompileFinally`).

## Model

| member | source | states |
|---|---|---|
| Ordering.OrderingIsExact | pkg/tekton/pipelinerun.go:158-180 | The graph orders two steps of regular tasks if and only if they are steps of one task in that order, or one task is in the transitive closure of the other's `runAfter`: no order lost, no parallelism lost |
| Ordering.OrderIsKept | pkg/tekton/pipelinerun.go:162-167 | Every order the pipeline asks for is an ancestry in the graph |
| Ordering.NothingElseIsOrdered | pkg/tekton/pipelinerun.go:158-180 | Every ancestry between regular steps is one the pipeline asks for |
| Ordering.FinallyBarrier | pkg/tekton/pipelinerun.go:183-253 | Every regular step is an ancestor of every finally step, and never the other way |
| Ordering.FinalsAreParallel | pkg/tekton/pipelinerun.go:203-252 | Steps of finally tasks are ordered if and only if they belong to one task, in its order |
| Ordering.RootReachesEveryStep | pkg/tekton/pipelinerun.go:255-294 | The processes above the returned root are exactly the compiled steps: nothing dropped, nothing extra |
| Precedence.ProcessesAreOrderedExactly | pkg/tekton/pipelinerun.go:158-294 | Of any two processes, regular, finally or the collecting one, the graph makes the second wait for the first if and only if the pipeline puts the first before the second |
| Ordering.TaskRunIsAChain | pkg/tekton/taskrun.go:87-92 | The processes of a TaskRun are its steps, totally ordered, so the returned last state reaches all of them |
| FinalWiring.CompiledIsWired | pkg/tekton/pipelinerun.go:98-294 | The invariant of the compiler: whatever compiles is acyclic, each process waits for exactly the processes and touches exactly the caches that its place in the pipeline gives it |
| PipelineWiring.TasksCompiled | pkg/tekton/pipelinerun.go:98-181 | The loop over regular tasks keeps the invariant: the map by name agrees with the list, tasks occupy the graph one after the other |
| PipelineWiring.RunAfterMountsAre | pkg/tekton/pipelinerun.go:162-173 | The mounts of `runAfter` wait for the last step of each named task and read its results |
| FinalWiring.FinalsCompiled | pkg/tekton/pipelinerun.go:203-252 | The loop over finally tasks keeps the invariant: each step waits for all regular ends |
| FinalWiring.AllCollected | pkg/tekton/pipelinerun.go:257-276 | The collector waits for the last step of every task by name and mounts every results cache |
| Wiring.StepsWired | pkg/tekton/taskrun.go:281-313 | The steps of a task form a chain: each waits for the one before it and for the additional mounts, and adds no other edge; results, volumes and workspace caches add none |
| Wiring.StepsCaches | pkg/tekton/taskrun.go:239-266 | Which caches a step writes and which it can only read |
| Llb.AncestorThroughProcesses | vendor/github.com/moby/buildkit/client/llb/exec.go:483-496 | Images and files put no process before another |
| Llb.AncestorIsEarlier | vendor/github.com/moby/buildkit/client/llb/exec.go:483-496 | Inputs are appended before what uses them: the graph is acyclic |
| CacheIds.OwnersAreSeparate | pkg/tekton/taskrun.go:132 | The identifiers of results, volumes and workspaces of two owners are equal if and only if the owners are, or they meet in one of six ways, whatever workspaces and volumes are called |
| CacheIds.NamesLeaveTwoCollisions | pkg/tekton/pipelinerun.go:88-95 | Where workspaces and volumes have no slash in their names two ways are left: a task named like the run and its workspace `results`, and a task named `finally` with a volume `results` and a finally task `volume` |
| CacheOwners.IdsAreWritten | pkg/tekton/taskrun.go:239-266 | The identifiers that the compiler writes for results and volumes of regular and finally tasks are those of the owners they are meant for |
| CacheOwners.WorkspacesAreWritten | pkg/tekton/pipelinerun.go:88-95 | The same for the persistent workspaces of a run |
| CacheOwners.EveryCacheHasAnOwner | pkg/tekton/pipelinerun.go:98-294 | Every cache identifier mounted anywhere in a compiled graph is that of an owner the operation has to do with: its results, volumes and workspaces, or results it may read |
| CacheOwners.SharedCachesHaveOneOwner | pkg/tekton/pipelinerun.go:98-294 | Two operations mount the same cache only for the same owner, or for two owners in one of the six collisions |
| RaceFreedom.RaceFreeExactly | pkg/tekton/pipelinerun.go:88-95 | Unordered operations never write a cache that the other one mounts, if and only if no step mounts a persistent workspace of a task that its own is not ordered with: results and volumes never race on their own |
| RaceFreedom.SharingByName | pkg/tekton/pipelinerun.go:143-147 | Where workspaces have no slash in their names that can be read off the pipeline: unordered tasks share no persistent workspace, and none of their workspaces is by its name the results of a task |
| RaceFreedom.PairDoesNotRace | pkg/tekton/pipelinerun.go:168-172 | Any two unordered processes, of whatever tasks, write nothing the other one can see |
| Execution.SchedulesDoNotMatter | pkg/tekton/pipelinerun.go:98-294 | Schedule independence: every complete run ends, statuses, file systems and caches, where running the operations one at a time in listed order ends; every partial run can still be completed to that end |
| Execution.RunsEndAlike | pkg/tekton/pipelinerun.go:98-294 | When no process runs for ever there is such an end, within a bound known beforehand, and every schedule can be continued to it |
| Execution.SharingShows | pkg/tekton/pipelinerun.go:88-95 | The condition is exact: when a step does mount such a workspace, some processes end differently under two schedules from the same caches |
| Execution.ReferenceIsSequential | pkg/tekton/pipelinerun.go:98-181 | The reference run executes one operation at a time, in listed order |
| Execution.StartedInOrder | pkg/tekton/pipelinerun.go:158-180 | In every reachable configuration a started step finds all steps before it succeeded |
| Execution.FinallyAfterSuccess | pkg/tekton/pipelinerun.go:185-201 | In every reachable configuration a started finally step implies that all regular steps have succeeded |
| Failures.FailedStepStopsDependents | pkg/tekton/pipelinerun.go:158-201 | Failure containment for every step, regular or finally: once it has failed, whatever the pipeline puts after it never starts, the collector included |
| Failures.OnlyDependentsAreStopped | pkg/tekton/pipelinerun.go:158-201 | A process, regular, finally or collecting, left unfinished by a complete run is behind a failed process that the pipeline puts before it, or behind a failed image or file |
| Failures.ProcessesFinishExactly | pkg/tekton/pipelinerun.go:158-294 | When a run is complete, a process has finished if and only if everything the pipeline puts before it, and its images and files, have succeeded |
| Failures.FinallyRunsExactly | pkg/tekton/pipelinerun.go:183-253 | When a run is complete, a finally step has finished if and only if every regular step, every earlier step of its own task, and its images and files have succeeded |
| Failures.FailureFreeRunsFinish | pkg/tekton/pipelinerun.go:278-294 | Every complete run without failures has succeeded in every step and in the root |
| Results.WritersOfResults | pkg/tekton/taskrun.go:239-243 | Only a regular task's own steps write the cache of its results, unless a workspace goes by the same identifier |
| Results.WritersOfFinalResults | pkg/tekton/pipelinerun.go:242 | Only a finally task's own steps write the cache of its results, unless it is called `volume` and a task called `finally` mounts its volume `results`, or a workspace goes by the same identifier |
| Results.ResultsAsWorkspace | pkg/tekton/pipelinerun.go:88-95 | Which workspace can go by the identifier of a task's results: `results` of a run named like the task; of a finally task called f: `f/results` of a run named `finally` |
| Results.ReadersComeAfter | pkg/tekton/pipelinerun.go:195-199 | Whoever mounts a regular task's results (dependents, finally steps, the collector) mounts the cache its steps write, and is ordered after all of them |
| Results.CollectorComesAfterFinals | pkg/tekton/pipelinerun.go:269-276 | The collector mounts the cache that all steps of a finally task write, and is ordered after all of them |
| Results.ResultsAreSettled | pkg/tekton/pipelinerun.go:168-172 | Once a reader of a regular task's results has started, no writer is pending or running, and the contents stay what they are for the rest of every run |
| Results.CollectedResultsAreSettled | pkg/tekton/pipelinerun.go:260-276 | Once the collector has started, every writer of any cache has succeeded and no contents change any more: results of regular and finally tasks alike |
| TaskRunExecution.TaskRunSchedulesDoNotMatter | pkg/tekton/taskrun.go:87-92 | Schedule independence of a TaskRun without any condition: every complete run from the same caches ends where running the steps one at a time ends |
| TaskRunExecution.TaskRunsEndAlike | pkg/tekton/taskrun.go:87-92 | When no process runs for ever every schedule can be continued to that end |
| TaskRunExecution.OneStepAtATime | pkg/tekton/taskrun.go:281-313 | In every reachable configuration a started step of a TaskRun has all earlier ones succeeded |
| TaskRunExecution.FailedStepStopsTheRest | pkg/tekton/taskrun.go:281-313 | After a failed step of a TaskRun no later one ever starts |
| TaskRunExecution.WorkspacesOfATaskRun | pkg/tekton/taskrun.go:76-80 | A workspace of a TaskRun is its results cache if and only if it is called `results`, and one of its volumes if and only if it is called `volume/` and the volume's name |
| Merging.ProcessesAreNotMerged | pkg/tekton/pipelinerun.go:98-294 | No two processes of a compiled pipeline have the same content, like processes on like inputs with the same set of mounts, so keeping operations by content merges none |
| Merging.StepsAreNotMerged | pkg/tekton/taskrun.go:281-313 | The same for a TaskRun |
| Merging.CopiesAreSame | vendor/github.com/moby/buildkit/client/llb/exec.go:483-496 | Copies of one operation do have the same content: an image or a file asked for twice is merged |
| IgnoredErrors.IgnoredStepStopsNothing | pkg/tekton/files/script.go:59-61 | A step whose process always returns zero stops nothing: what a complete run leaves unfinished is behind another failed operation |
| IgnoredErrors.IgnoringRunsFinish | pkg/tekton/files/script.go:59-61 | When all steps are of this kind every complete run finishes every process, finally steps and the collector included, as far as images and files are there |
| IgnoredErrors.ZeroNeverFails | pkg/tekton/files/script.go:59-61 | In no configuration that any schedule reaches has such a step failed |
| IgnoredErrors.IgnoredCommandNeverFails | pkg/tekton/pipelinerun.go:148-154 | Compiler, shell and solver together: a step of a regular task with `onError: continue` and a command that the shell does not carry out itself, or a timeout, has failed in no reachable configuration of the compiled pipeline |
| IgnoredErrors.CommandsReturnZeroExactly | pkg/tekton/files/script.go:59-61 | Which commands these are under `onError: continue`, exactly: those with a timeout, those the shell does not carry out itself, and those that never get out of the wrapper |
| IgnoredErrors.ScriptsReturnZeroExactly | pkg/tekton/files/script.go:97-109 | Which scripts: those for which the wrapper's own commands return zero throughout |
| Executor.Diamond | vendor/github.com/moby/buildkit/solver/pb/ops.proto:154-162 | Two actions that can both be taken commute when there are no races |
| Executor.EveryScheduleConverges | vendor/github.com/moby/buildkit/solver/pb/ops.proto:8-12 | Any schedule can be continued to the end of any complete one, taking the same actions in another order |
| Executor.CompleteRunsAreInOrder | vendor/github.com/moby/buildkit/solver/pb/ops.proto:8-12 | Every complete run refines the run that always takes the earliest operation that can act |
| Executor.InOrderIsOneAtATime | vendor/github.com/moby/buildkit/solver/pb/ops.proto:8-12 | While the reference runs an operation, everything after it waits and nothing before it can act |
| Executor.FailureIsContained | vendor/github.com/moby/buildkit/solver/pb/ops.proto:8-12 | Nothing below a failed operation starts in any continuation |
| Executor.NeverBlocked | vendor/github.com/moby/buildkit/solver/pb/ops.proto:8-12 | Progress: an unfinished needed operation that is not below a failure always has something at or above it that can act |
| Termination.SchedulesAreBounded | vendor/github.com/moby/buildkit/solver/pb/ops.proto:8-12 | When no process runs for ever, the actions left are a measure that every action lowers, and no schedule is longer |
| Termination.EveryRunEnds | vendor/github.com/moby/buildkit/solver/pb/ops.proto:8-12 | Every schedule can then be continued until nothing can act, within a bound known beforehand; races play no part |
| Termination.EndlessProcessesDoNotEnd | vendor/github.com/moby/buildkit/solver/pb/ops.proto:8-12 | Where a running process never stops, no schedule ever completes |
| RaceWitness.RacesShow | vendor/github.com/moby/buildkit/solver/pb/ops.proto:154-162 | Where two unordered needed operations race on a cache, some processes have two complete runs with different ends |
| Executor.SettledContentsStay | vendor/github.com/moby/buildkit/solver/pb/ops.proto:154-162 | A cache all of whose writers are done does not change in any continuation |
| Executor.StartedAfterAncestors | vendor/github.com/moby/buildkit/solver/pb/ops.proto:8-12 | What has started has all its ancestors succeeded, in every reachable configuration |
| Panics.CompletesExactly | pkg/tekton/pipelinerun.go:100-181 | When everything resolves and translates, compilation completes if and only if every regular task that is not skipped has its workspaces bound and each `runAfter` name belongs to an earlier, unskipped task with a step; otherwise it panics; the steps compiled are those of the tasks whose `when` passes and of all finally tasks |
| Panics.LateOrSkippedDependencyPanics | pkg/tekton/pipelinerun.go:162-166 | A `runAfter` name that only skipped or later tasks have makes compilation panic |
| Panics.RunAfterOutcome | pkg/tekton/pipelinerun.go:162-166 | Indexing the last state succeeds if and only if every name is a key with a state |
| Panics.WorkspacesOutcome | pkg/tekton/pipelinerun.go:143-147 | Calling the mount functions succeeds if and only if every workspace is bound |
| MapOrder.RangeOrderDoesNotMatter | pkg/tekton/pipelinerun.go:188-200 | Whatever order each `range` over a map takes, the outcome is the same: same processes, environments and sets of mounts; for the collector the same inputs and the same cache mounts |
| MapOrder.RangeOrderDoesNotReorder | pkg/tekton/pipelinerun.go:260-284 | And the ancestor relation is the same |
| TaskRun.PrefixedInAnyOrder | pkg/tekton/taskrun.go:209-213 | Visiting a ConfigMap in any order adds the same variables |
| TaskRun.LastSourceWins | pkg/tekton/taskrun.go:204-230 | A variable has the value of the last ConfigMap or Secret entry that sets it |
| TaskRun.DeclarationStands | pkg/tekton/taskrun.go:196-202 | A variable no entry of `envFrom` sets keeps the value declared in `env` |
| TaskRun.LastDeclarationWins | pkg/tekton/taskrun.go:197-201 | Of several declarations of one name the last counts |
| TaskRun.BuildEnv | pkg/tekton/taskrun.go:196-230 | The loops compute the environment that the entries, ConfigMaps, Secrets and declarations ask for: the last entry that has a variable under its prefix counts, its Secret before its ConfigMap, then the last declaration, and no other variable is there |
| TaskRun.EnvIsAsDeclared | pkg/tekton/taskrun.go:196-230 | The same of every compiled step |
| TaskRun.AddData | pkg/tekton/taskrun.go:209-213 | One `range` lays all prefixed keys over the environment |
| TaskRun.SelectCommand | pkg/tekton/taskrun.go:153-190 | A script, else a wrapped command when errors are ignored or there is a timeout, else the bare command with its arguments; the timeout is the step's if it has one and else the task's; a generated file is started by its name under `/tekton/scripts` |
| TaskRun.SelectVolumes | pkg/tekton/taskrun.go:246-267 | Mounts of emptyDir volumes become caches in order; the others are dropped |
| TaskRun.TaskSpecToPSteps | pkg/tekton/taskrun.go:130-279 | The loop over merged steps gives the translation of each, or the first error |
| TaskRun.PStepToState | pkg/tekton/taskrun.go:281-313 | The loop over `stepStates` emits the chain of operations, each over the state written the round before |
| TaskRun.AddStep | pkg/tekton/taskrun.go:283-309 | One round: results, previous state, workspaces over the still empty state of this very step, volumes, additional mounts |
| TaskRun.ValidateTaskSpec | pkg/tekton/taskrun.go:332-364 | Accepts exactly the specifications without sidecars, non-emptyDir volumes and volume devices |
| TaskRun.TaskRunToLLB | pkg/tekton/taskrun.go:36-93 | Fails on unsupported runs and otherwise returns the last state of the compiled chain, the same error, or the same panic |
| PipelineRun.EvaluateWhenExpression | pkg/tekton/pipelinerun.go:393-416 | With `in` true if and only if some value equals the input, with `notin` if and only if none does, with any other operator always |
| PipelineRun.EvaluateWhenExpressions | pkg/tekton/pipelinerun.go:382-389 | True exactly when no expression refuses |
| PipelineRun.SkippedExactly | pkg/tekton/pipelinerun.go:98-106 | A task is skipped if and only if one of its expressions refuses: the input is none of the values of `in`, or one of those of `notin` |
| StepInputs.RegularOperations | pkg/tekton/pipelinerun.go:98-181 | In the compiled graph a regular task has no operation if one of its expressions refuses, and otherwise one for each step of the task asked for |
| PipelineRun.BindAll | pkg/tekton/pipelinerun.go:57-97 | For each workspace name what its last binding says, and no other names: exactly the files of the ConfigMap or Secret, read back from the graph, or the cache of the run; or the first error |
| PipelineRun.BindingsShown | pkg/tekton/pipelinerun.go:57-97 | The same of the bindings compiled |
| PipelineRun.BindsExactly | pkg/tekton/pipelinerun.go:57-97 | Binding succeeds if and only if every ConfigMap and Secret referred to is there with every key an item names; otherwise it fails, and never panics |
| Files.Project | pkg/tekton/files/config.go:9-25 | Every file is put on the state so far; read back, the state has each key once, or the items in order; it fails if and only if a key is missing. The code for Secrets is the same |
| Files.ProjectedExactly | pkg/tekton/files/secret.go:9-25 | Whatever order the keys are visited in, the files are each key once, or the items in order |
| Files.LayersAreRead | pkg/tekton/files/config.go:27-32 | Reading layered files from the first on gives exactly the files laid, after those of the state below |
| StepInputs.RegularWorkspacesShown | pkg/tekton/pipelinerun.go:143-147 | End to end: every step of a regular task finds under `/workspace`, by the task's own name for it, what the last binding of the workspace says: a cache of the run, or read-only exactly the files |
| StepInputs.FinalWorkspacesShown | pkg/tekton/pipelinerun.go:229-235 | The same for finally tasks and the workspaces that are bound |
| PipelineRun.MountTaskWorkspaces | pkg/tekton/pipelinerun.go:143-147 | The mounts of a regular task in order; an unbound workspace panics |
| PipelineRun.MountFinalWorkspaces | pkg/tekton/pipelinerun.go:229-235 | The mounts of a finally task; unbound workspaces are dropped |
| PipelineRun.MountRunAfter | pkg/tekton/pipelinerun.go:158-174 | Two mounts for each dependency, in order, or the panic of the first that has no state |
| PipelineRun.CompileRegular | pkg/tekton/pipelinerun.go:98-181 | The loop over regular tasks, with its maps, computes the compiled prefix |
| PipelineRun.MountAllRegular | pkg/tekton/pipelinerun.go:185-201 | The mounts of the barrier, in the order of the `range` |
| PipelineRun.CompileFinally | pkg/tekton/pipelinerun.go:203-252 | The loop over finally tasks, all behind the same mounts |
| PipelineRun.CollectStates | pkg/tekton/pipelinerun.go:260-276 | One `range` over a map of tasks: last states and results caches |
| PipelineRun.CollectRoot | pkg/tekton/pipelinerun.go:255-294 | The collector over everything collected |
| PipelineRun.ValidatePipeline | pkg/tekton/pipelinerun.go:341-372 | Accepts exactly the pipelines whose finally tasks have no `when` and whose embedded tasks are supported |
| PipelineRun.ValidatePipelineRun | pkg/tekton/pipelinerun.go:313-339 | Accepts exactly the supported runs; a referenced pipeline is not examined |
| PipelineRun.PipelineRunToLLB | pkg/tekton/pipelinerun.go:25-295 | Fails on unsupported runs and otherwise has the outcome of compilation: graph and root, the same error, or the same panic |
| StepContent.StepsRunAsAsked | pkg/tekton/pipelinerun.go:100-181 | Every operation of a compiled pipeline runs the step it stands for: its image, process, script file and mounts, position by position |
| StepInputs.RegularStepsAreMade | pkg/tekton/pipelinerun.go:98-181 | Every operation of a regular task, told from the step alone: its image, directory, user id in decimal, environment, the results and the emptyDir volumes at the paths and sub-paths the step wants, the step before, and no other caches but workspaces and results of tasks it runs after |
| StepInputs.FinalStepsAreMade | pkg/tekton/pipelinerun.go:203-252 | The same for finally tasks, whose caches are under `finally/` |
| StepInputs.TaskRunStepsAreMade | pkg/tekton/taskrun.go:70-92 | The same for a TaskRun, whose workspaces are caches mounted at their names |
| Asked.ResolvedTask | pkg/tekton/pipelinerun.go:108-141 | A task of a pipeline resolves to the referred or else the embedded task, substituted with its own parameters; an unknown reference is not found |
| Asked.ResolvedRun | pkg/tekton/taskrun.go:44-73 | The same for a TaskRun, with its parameters and workspaces; the embedded task counts before the reference, and without either there is a panic |
| Asked.ResolvedPipeline | pkg/tekton/pipelinerun.go:32-59 | The same for the pipeline of a run |
| Asked.RunCompiles | pkg/tekton/pipelinerun.go:25-97 | A run compiles as the pipeline asked for, under the run's name and with its workspaces |
| Asked.MergedSteps | pkg/tekton/taskrun.go:133-136 | Merging with the step template keeps the steps in their places |
| StepContent.WorkspacesInOrder | pkg/tekton/pipelinerun.go:143-147 | The i-th workspace of a regular task is the i-th mounted, under `/workspace` and the task's own name for it |
| StepContent.FinalWorkspacesBound | pkg/tekton/pipelinerun.go:229-235 | A finally task has exactly those of its workspaces that are bound |
| ResultMounts.ResultsAreShown | pkg/tekton/pipelinerun.go:158-174 | Every step writes its task's results at `/tekton/results`; every step of a dependent, every finally step and the collector find that very cache read-only under the task's name in `/tekton/from-task` or `/task`, and the end of each task waited for under `/tekton/.deps` |
| ResultMounts.InRunAfter | pkg/tekton/pipelinerun.go:168-172 | The results of every task in `runAfter` are mounted under its name |
| ResultMounts.InRoot | pkg/tekton/pipelinerun.go:260-276 | The collector mounts the results of every task that has steps, finally tasks under `finally` |
| ResultMounts.RootCollects | pkg/tekton/pipelinerun.go:278-294 | The collector runs its fixed command on its fixed image and mounts every state it waits for in a directory of its own |
| StepContent.EmittedRunAll | pkg/tekton/taskrun.go:281-313 | Every operation emitted for a task runs the translated step of its index |
| StepContent.RegularStepsHonoured | pkg/tekton/pipelinerun.go:148-154 | onError and timeout across compiler and shell, for every step of every regular task asked for, merged in its place: under the step's timeout if it has one and else the task's, read from the arguments of `timeout`, the exit status is that of the body, or zero when errors are ignored, but for the exact exceptions below |
| StepContent.FinalStepsHonoured | pkg/tekton/pipelinerun.go:236-242 | The same for finally tasks |
| StepContent.TaskRunStepsHonoured | pkg/tekton/taskrun.go:82-92 | The same for a TaskRun, which has no task timeout |
| StepContent.CommandStepHonoured | pkg/tekton/taskrun.go:178-190 | A step without a script: its command, wrapped or not; of the commands that the shell carries out itself under `onError: continue`, leading `command` words taken away, exactly those that get out of the wrapper have another status; or, without a command, its arguments as they are |
| StepContent.ScriptStepHonoured | pkg/tekton/taskrun.go:171-177 | A step with a script: wrapped, the status of the first helper that fails, else that of the body under the timeout or zero, and that of the removal of the file if it fails; not wrapped, it is itself the file that the shell runs |
| Quoting.QuotingRoundTrip | pkg/tekton/files/script.go:74-82 | For every list of strings, reading the joined text gives exactly those words, nothing in them open to expansion, and ends outside any quote |
| Quoting.CommandWrapperReadsBack | pkg/tekton/files/script.go:44-71 | For every non-empty command the text is one shebang comment, `set -e` unless errors are ignored, and one command of timeout, command and arguments, with the error-ignoring suffix exactly when errors are ignored |
| Quoting.DurationIsPlain | pkg/tekton/files/script.go:114-121 | The printed timeout is one plain word |
| HereDocs.HereDocRoundTrip | pkg/tekton/files/script.go:97-109 | The wrapper is read as meant, the script delivered unexpanded with one newline and the other lines read as commands, if and only if no line of the script is the delimiter |
| HereDocs.BodyEndsEarly | pkg/tekton/files/script.go:102-104 | With a delimiter line inside, what is delivered is the lines before the first one, and what follows that line is read on as commands |
| HereDocs.CutAtTheDelimiter | pkg/tekton/files/script.go:97-109 | The same of the whole wrapper: reading it equals reading, after the `cat` line with those lines, the text behind the delimiter line and the rest of the wrapper |
| ShellRun.CommandRuns | pkg/tekton/files/script.go:44-71 | What running a wrapped command comes to: one call of the command with its arguments, ignored or not, the EXIT trap that it may have set run last |
| ShellRun.CommandWrapperStatus | pkg/tekton/files/script.go:51-64 | The status of a wrapped command with a timeout, or that the shell does not carry out itself: that of the command under its timeout, or zero when errors are ignored |
| ShellRun.IgnoredStatusExactly | pkg/tekton/files/script.go:59-61 | With errors ignored and no timeout, of the commands modelled: the status is zero unless the command, leading `command` words taken away, is `exit` with a number that is not zero modulo 256, `exec` of a command that fails, or a `trap` for EXIT whose action exits with another status; and which commands are modelled |
| ShellRun.ExitIsNotIgnored | pkg/tekton/files/script.go:59-61 | `exit n` ends the wrapper with `n` modulo 256, errors ignored or not |
| ShellRun.CommandExitIsNotIgnored | pkg/tekton/files/script.go:59-61 | So does `command exit n` |
| ShellRun.TrapExitIsNotIgnored | pkg/tekton/files/script.go:59-61 | So does `trap` with the action `exit n` for EXIT |
| ScriptRun.ScriptWrapperStatus | pkg/tekton/files/script.go:86-110 | The status of a wrapped script, whichever of the wrapper's own commands fail: that of the first helper to fail, else that of the file the script was copied to under its timeout, or zero when errors are ignored; the file is removed once there is one, and a removal that fails gives its own status |
| ScriptRun.IgnoredScriptExactly | pkg/tekton/files/script.go:97-109 | With errors ignored the status is zero if and only if `mktemp`, `cat` and `chmod`, and after the script the removal of the file, all return zero |
| ScriptRun.WithoutAFileNothingRuns | pkg/tekton/files/script.go:99-101 | If `mktemp` fails the wrapper fails as it did, even when errors are ignored |
| ScriptRun.PreambleHasNoDelimiter | pkg/tekton/files/script.go:20-25 | Adding the default preamble neither adds nor removes a delimiter line |
| ScriptFiles.JoinQuoted | pkg/tekton/files/script.go:74-82 | The loop over the quoted slice computes the joined text, which reads as exactly the parts |
| ScriptFiles.CommandWrapper | pkg/tekton/files/script.go:44-64 | The reassigned line and list of parts compute the wrapper text, which reads as one line with the command |
| ScriptFiles.StepScript | pkg/tekton/files/script.go:17-30 | A script whose first characters other than white space are `#!` is kept, any other gets `#!/bin/sh` and `set -e` in front; without timeout and ignored errors that is the file, and otherwise the wrapper around it reads as meant if and only if the script submitted has no delimiter line |
| Script.PreambleExactly | pkg/tekton/files/script.go:20-25 | Which scripts get the preamble, by their characters alone |
| Text.SpacesExactly | pkg/tekton/files/script.go:20 | White space is what Unicode calls so |
| ScriptFiles.Wrap | pkg/tekton/files/script.go:86-110 | The wrapper text around a script, which reads as meant if and only if the script has no delimiter line |
| Duration.PrintedSeconds | pkg/tekton/files/script.go:114-121 | For every int64 duration: the text is digits and the unit of seconds, and as `timeout` reads it, one second for anything shorter, otherwise the whole seconds, plus one exactly when what is missing of the next second is too small for binary64 |
| Duration.ExactBelow2To24Seconds | pkg/tekton/files/script.go:114-121 | From one second up to 2^24 seconds `timeout` reads the duration cut down to whole seconds |
| Duration.RoundsUpFrom2To24Seconds | pkg/tekton/files/script.go:114-121 | From 2^24 seconds on it does not: for the last nanosecond of every second it reads the next |
| Text.DecimalReadsBack | pkg/tekton/files/script.go:120 | The printed digits read back to the number |
| Documents.DocumentsRoundTrip | pkg/tekton/load.go:38-40 | Stripping, trimming and splitting invert joining, after any run of dashes, if and only if there is one document or none is empty at either end |
| Documents.SplitInvertsJoin | pkg/tekton/load.go:128 | Splitting joined documents gives the documents |
| Documents.JoinInvertsSplit | pkg/tekton/load.go:128 | Joining what was split gives the text |
| Documents.BareHashTakesTheNextLine | pkg/tekton/load.go:38-40 | A line with a bare `#` is removed together with the whole next line |
| Documents.CommentLinesAreRemoved | pkg/tekton/load.go:38-40 | An indented line that starts with one `#` is removed up to its newline, shebangs included |
| Documents.CommentExactly | pkg/tekton/load.go:38-40 | A comment is exactly what the expression matches at a line start: blanks, `#`, a character that is not `#`, up to the nearest end of a line |
| Documents.StripExactly | pkg/tekton/load.go:38-40 | Matches at line starts are removed one after the other from the left, and everything else stays |
| Load.ParseTektonYAMLs | pkg/tekton/load.go:118-149 | The fields hold the decoded documents, kind by kind and in order; with an error, those of the documents before the first that fails |
| Load.Objects.Add | pkg/tekton/load.go:133-146 | One object is appended to the list of its kind and to no other |
| Load.IndexHoldsTheLast | pkg/tekton/load.go:160-174 | An index has exactly the names that occur, each with its last object |
| Load.DecodedInOrder | pkg/tekton/load.go:118-149 | Decoding succeeds if and only if every document decodes, and otherwise has the error of the first that does not |
| Load.TasksByName | pkg/tekton/load.go:80-96 | A task is known if and only if some document defines it, as the last of these does |
| Load.PipelinesByName | pkg/tekton/load.go:98-116 | The same for pipelines |
| Load.SecretsByName | pkg/tekton/load.go:160-166 | The same for Secrets |
| Load.ConfigsByName | pkg/tekton/load.go:168-174 | The same for ConfigMaps |
| Load.MoreByName | pkg/tekton/load.go:80-116 | Documents of additional files replace tasks and pipelines of the same names and leave the others |
| Load.DocumentsOfMore | pkg/tekton/load.go:80-83 | Documents are read file by file |
| Load.SingleTaskRun | pkg/tekton/load.go:51-58 | The only TaskRun document of a file is the run found |
| Load.FoundTaskRun | pkg/tekton/load.go:51-58 | One TaskRun is found only if there is just one document of the kind |
| Load.SinglePipelineRun | pkg/tekton/load.go:59-67 | The same for PipelineRuns |
| Load.FoundPipelineRun | pkg/tekton/load.go:59-67 | And the other way |
| Load.SecretsToMap | pkg/tekton/load.go:160-166 | The loop computes the index of the secrets |
| Load.ConfigsToMap | pkg/tekton/load.go:168-174 | The loop computes the index of the ConfigMaps |
| Load.PopulateTaskRun | pkg/tekton/load.go:80-96 | All tasks of all additional files, later ones replacing earlier ones; or the first error |
| Load.PopulatePipelineRun | pkg/tekton/load.go:98-116 | The same for tasks and pipelines |
| Load.ReadResources | pkg/tekton/load.go:42-78 | Succeeds exactly when the main file holds one run and everything decodes; what is taken from which file |
| Load.PrintedFileIsRead | pkg/tekton/load.go:118-149 | A file printed from objects is read back as those objects in order |

## Left out

- Tekton's defaulting, validation, parameter, context, workspace and result substitution and step templates
  (`SetDefaults`, `Validate`, `ApplyParameters` and the like) are arbitrary functions with a result or an error; that
  names of tasks are unique and slash-free is what
  vendor/github.com/tektoncd/pipeline/pkg/apis/pipeline/v1/pipeline_validation.go checks, and it is a hypothesis where
  it is needed. Names of workspaces and volumes are arbitrary. Defaulting mutates shared objects in place, which is not
  captured.
- Image reference parsing and the random suffixes of file names are arbitrary functions. The mode of files is not
  modelled.
- MapOrder.RangeOrderDoesNotMatter: the order in which the keys of a ConfigMap or Secret become layers is held fixed;
  what they show does not depend on it (Files.ProjectedExactly).
- BuildKit itself: caching of finished operations between builds, image configuration, marshalling, custom names,
  gateway calls. That operations of equal content run once merges no processes (Merging.ProcessesAreNotMerged); merged
  images and files are not modelled. Every process is deterministic in what it can see.
- Failures.OnlyDependentsAreStopped: says what the graph permits, as do the other theorems about failures. A solver may
  cancel independent work after the first failure, which then stays unfinished too.
- IgnoredErrors.IgnoredStepStopsNothing: requires that processes of the solver fail only where the shell gives them a
  status other than zero or none; signals from outside are not modelled.
- Processes that share a cache without being ordered are interleaved action by action; finer sharing within one action
  is not modelled.
- Of the shell: backquotes, nested quoting inside a substitution, `<<-`, redirections other than those generated,
  assignments other than the generated one, and functions. A text that needs them has no result in the model. Signals
  that a command sends to the shell are not modelled, and a redirection that cannot be opened counts as a failure of
  its command.
- StepContent.ScriptStepHonoured: an unwrapped script that names an interpreter other than `/bin/sh` is run as a
  process, whose status is arbitrary.
- StepContent.CommandStepHonoured: leaves open what an image's entry point makes of the arguments it is given.
- ShellRun.CommandWrapperStatus: excludes what the shell carries out itself without a timeout, because there the
  promise is false; ShellRun.IgnoredStatusExactly covers it.
- ShellRun.IgnoredStatusExactly: `builtin`, `source`, `command` with options, and special built-in utilities other than
  `:`, `set -e`, `trap` with an action for EXIT, `exit` without or with a number of at most nine digits, and `exec`
  with a command have no result in the model: `return 3`, `eval "exit 3"` and `exit abc` have none.
- ScriptRun.ScriptWrapperStatus: a `mktemp` that succeeds is taken to print a path of letters, digits and `-+_=/.`
  only.
- Execution.SchedulesDoNotMatter: requires that no step mounts a persistent workspace of a task that its own is not
  ordered with, which is exactly when there are no races (RaceFreedom.RaceFreeExactly); without it some processes do
  end differently (Execution.SharingShows).
- Termination.EveryRunEnds: requires that no process runs for ever; a process that does never ends
  (Termination.EndlessProcessesDoNotEnd). Timeouts are not used to establish it.
- YAML decoding is an arbitrary function from text to an object or an error. Text is a sequence of characters; invalid
  UTF-8 is not modelled.
- Panic messages, error wrapping and log lines: errors are kept by kind and subject.
- Bundles (pkg/tekton/oci.go), pkg/buildkit, the commands under cmd and option parsing: network and process plumbing.
