/** What a run asks for, told from the objects submitted and the library's answers alone. */
module Asked {
  import opened Basics
  import opened Tekton
  import opened TaskRun
  import opened PipelineRun

  /** The task that a task of a pipeline stands for: the one referred to or the embedded one, with the task's own
      parameters substituted. */
  ghost predicate TaskAsked(ctx: Context, t: PipelineTask, task: TaskSpec) {
    if t.taskRef.Some? then
      t.taskRef.value in ctx.tasks
      && ctx.lib.substituteTask(ctx.tasks[t.taskRef.value], t.params, [], t.taskRef.value) == Ok(task)
    else if t.taskSpec.Some? then
      ctx.lib.substituteTask(t.taskSpec.value.spec, t.params, [], "embedded") == Ok(task)
    else
      ctx.lib.substituteTask(TaskSpec([], [], 0), t.params, [], "") == Ok(task)
  }

  /** The task of a TaskRun: the embedded one counts before the reference. */
  ghost predicate RunAsked(ctx: Context, run: TaskRunObject, task: TaskSpec) {
    if run.taskSpec.Some? then
      ctx.lib.substituteTask(run.taskSpec.value, run.params, run.workspaces, "embedded") == Ok(task)
    else
      run.taskRef != "" && run.taskRef in ctx.tasks
      && ctx.lib.substituteTask(ctx.tasks[run.taskRef], run.params, run.workspaces, run.taskRef) == Ok(task)
  }

  ghost predicate PipelineAsked(ctx: Context, run: PipelineRunObject, spec: PipelineSpec) {
    if run.pipelineSpec.Some? then
      ctx.lib.substitutePipeline(run, run.pipelineSpec.value, "embedded") == Ok(spec)
    else
      run.pipelineRef != "" && run.pipelineRef in ctx.pipelines
      && ctx.lib.substitutePipeline(run, ctx.pipelines[run.pipelineRef], run.pipelineRef) == Ok(spec)
  }

  /** Step `j` of a task, merged with the step template. */
  ghost predicate StepAsked(ctx: Context, task: TaskSpec, j: nat, step: Step) {
    j < |task.steps| && ctx.lib.mergeStep(task, task.steps[j]) == Ok(step)
  }

  /** A task of a pipeline resolves to what is asked for; a reference to an unknown task is not found. */
  lemma ResolvedTask(ctx: Context, t: PipelineTask, kind: string, task: TaskSpec)
    ensures ResolveTask(ctx, t, kind) == Done(task) <==> TaskAsked(ctx, t, task)
    ensures t.taskRef.Some? && t.taskRef.value !in ctx.tasks ==>
              ResolveTask(ctx, t, kind) == Failed(NotFound(kind, t.taskRef.value))
  {
  }

  lemma ResolvedRun(ctx: Context, run: TaskRunObject, task: TaskSpec)
    ensures ResolveTaskRun(ctx, run) == Done(task) <==> RunAsked(ctx, run, task)
    ensures run.taskSpec.None? && run.taskRef != "" && run.taskRef !in ctx.tasks ==>
              ResolveTaskRun(ctx, run) == Failed(NotFound("Taskref", run.taskRef))
    ensures run.taskSpec.None? && run.taskRef == "" ==> ResolveTaskRun(ctx, run).Panicked?
  {
  }

  lemma ResolvedPipeline(ctx: Context, run: PipelineRunObject, spec: PipelineSpec)
    ensures ResolvePipeline(ctx, run) == Done(spec) <==> PipelineAsked(ctx, run, spec)
    ensures run.pipelineSpec.None? && run.pipelineRef != "" && run.pipelineRef !in ctx.pipelines ==>
              ResolvePipeline(ctx, run) == Failed(NotFound("PipelineRef", run.pipelineRef))
    ensures run.pipelineSpec.None? && run.pipelineRef == "" ==> ResolvePipeline(ctx, run).Panicked?
  {
  }

  /** A run compiles as the pipeline asked for, under the run's name and with the run's own workspaces. */
  lemma RunCompiles(ctx: Context, run: PipelineRunObject, spec: PipelineSpec)
    requires PipelineAsked(ctx, run, spec)
    ensures CompileRun(ctx, run) == CompileSpec(ctx, run.name, run.workspaces, spec)
  {
    hide CompileSpec;
  }

  /** Merging keeps the steps in their places. */
  lemma {:induction false} MergedSteps(ctx: Context, task: TaskSpec, n: nat)
    requires n <= |task.steps| && MergeSteps(ctx.lib, task, n).Ok?
    ensures |MergeSteps(ctx.lib, task, n).value| == n
    ensures forall j :: 0 <= j < n ==> StepAsked(ctx, task, j, MergeSteps(ctx.lib, task, n).value[j])
  {
    if n > 0 {
      MergedSteps(ctx, task, n - 1);
    }
  }
}
