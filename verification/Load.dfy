/** load.go: from files to the resources of one run. Decoding a document is an arbitrary function. */
module Load {
  import opened Basics
  import opened Text
  import opened Tekton
  import Documents

  datatype Named<+T> = Named(name: string, value: T)

  datatype Object =
    | TaskDoc(task: Named<TaskSpec>)
    | TaskRunDoc(taskRun: TaskRunObject)
    | PipelineDoc(pipeline: Named<PipelineSpec>)
    | PipelineRunDoc(pipelineRun: PipelineRunObject)
    | SecretDoc(secret: Named<Data>)
    | ConfigDoc(config: Named<Data>)
    | OtherDoc

  type Decoder = string -> Result<Object>

  // ---------------------------------------------------------------- partition by kind

  function TasksOf(objs: seq<Object>): seq<Named<TaskSpec>> {
    if objs == [] then []
    else TasksOf(objs[..|objs| - 1]) + (match objs[|objs| - 1] case TaskDoc(t) => [t] case _ => [])
  }

  function TaskRunsOf(objs: seq<Object>): seq<TaskRunObject> {
    if objs == [] then []
    else TaskRunsOf(objs[..|objs| - 1]) + (match objs[|objs| - 1] case TaskRunDoc(r) => [r] case _ => [])
  }

  function PipelinesOf(objs: seq<Object>): seq<Named<PipelineSpec>> {
    if objs == [] then []
    else PipelinesOf(objs[..|objs| - 1]) + (match objs[|objs| - 1] case PipelineDoc(p) => [p] case _ => [])
  }

  function PipelineRunsOf(objs: seq<Object>): seq<PipelineRunObject> {
    if objs == [] then []
    else PipelineRunsOf(objs[..|objs| - 1]) + (match objs[|objs| - 1] case PipelineRunDoc(r) => [r] case _ => [])
  }

  function SecretsOf(objs: seq<Object>): seq<Named<Data>> {
    if objs == [] then []
    else SecretsOf(objs[..|objs| - 1]) + (match objs[|objs| - 1] case SecretDoc(s) => [s] case _ => [])
  }

  function ConfigsOf(objs: seq<Object>): seq<Named<Data>> {
    if objs == [] then []
    else ConfigsOf(objs[..|objs| - 1]) + (match objs[|objs| - 1] case ConfigDoc(c) => [c] case _ => [])
  }

  /** Decoding stops at the first document that fails. */
  function DecodeAll(decode: Decoder, docs: seq<string>): Result<seq<Object>> {
    if docs == [] then Ok([])
    else
      var before :- DecodeAll(decode, docs[..|docs| - 1]);
      var obj :- decode(docs[|docs| - 1]);
      Ok(before + [obj])
  }

  lemma {:induction false} FirstFailureStands(decode: Decoder, docs: seq<string>, n: nat)
    requires n <= |docs| && DecodeAll(decode, docs[..n]).Err?
    ensures DecodeAll(decode, docs) == DecodeAll(decode, docs[..n])
    decreases |docs|
  {
    if n == |docs| {
      assert docs[..n] == docs;
    } else {
      assert docs[..|docs| - 1][..n] == docs[..n];
      FirstFailureStands(decode, docs[..|docs| - 1], n);
    }
  }

  class Objects {
    var tasks: seq<Named<TaskSpec>>
    var taskRuns: seq<TaskRunObject>
    var pipelines: seq<Named<PipelineSpec>>
    var pipelineRuns: seq<PipelineRunObject>
    var secrets: seq<Named<Data>>
    var configs: seq<Named<Data>>

    /** The fields hold `objs`, kind by kind and in order. */
    ghost predicate Holds(objs: seq<Object>)
      reads this
    {
      && tasks == TasksOf(objs) && taskRuns == TaskRunsOf(objs)
      && pipelines == PipelinesOf(objs) && pipelineRuns == PipelineRunsOf(objs)
      && secrets == SecretsOf(objs) && configs == ConfigsOf(objs)
    }

    constructor ()
      ensures Holds([])
    {
      tasks, taskRuns, pipelines, pipelineRuns, secrets, configs := [], [], [], [], [], [];
    }

    method Add(obj: Object, ghost objs: seq<Object>)
      requires Holds(objs)
      modifies this
      ensures Holds(objs + [obj])
    {
      assert (objs + [obj])[..|objs|] == objs;
      match obj
      case TaskDoc(t) => tasks := tasks + [t];
      case TaskRunDoc(r) => taskRuns := taskRuns + [r];
      case PipelineDoc(p) => pipelines := pipelines + [p];
      case PipelineRunDoc(r) => pipelineRuns := pipelineRuns + [r];
      case SecretDoc(s) => secrets := secrets + [s];
      case ConfigDoc(c) => configs := configs + [c];
      case OtherDoc =>
    }
  }

  /** The objects are returned even with an error: those before the document that failed. */
  method ParseTektonYAMLs(decode: Decoder, s: string) returns (r: Objects, e: Option<Error>)
    ensures fresh(r)
    ensures match DecodeAll(decode, Documents.Documents(s))
            case Ok(objs) => e.None? && r.Holds(objs)
            case Err(error) => e == Some(error) && exists n | 0 <= n < |Documents.Documents(s)| ::
              && DecodeAll(decode, Documents.Documents(s)[..n]).Ok? && decode(Documents.Documents(s)[n]) == Err(error)
              && r.Holds(DecodeAll(decode, Documents.Documents(s)[..n]).value)
  {
    r := new Objects();
    var docs := Documents.Documents(s);
    ghost var objs: seq<Object> := [];
    for i := 0 to |docs|
      invariant fresh(r)
      invariant DecodeAll(decode, docs[..i]) == Ok(objs) && r.Holds(objs)
    {
      assert docs[..i + 1][..i] == docs[..i];
      var obj := decode(docs[i]);
      if obj.Err? {
        FirstFailureStands(decode, docs, i + 1);
        return r, Some(obj.error);
      }
      r.Add(obj.value, objs);
      objs := objs + [obj.value];
    }
    assert docs[..|docs|] == docs;
    e := None;
  }

  // ---------------------------------------------------------------- indexes

  /** The values by name, later ones replacing earlier ones. */
  function Index<T>(named: seq<Named<T>>): map<string, T> {
    if named == [] then map[] else Index(named[..|named| - 1])[named[|named| - 1].name := named[|named| - 1].value]
  }

  /** The last occurrence of `name`. */
  ghost predicate IsLast<T>(named: seq<Named<T>>, i: int, name: string) {
    && 0 <= i < |named| && named[i].name == name
    && forall j :: i < j < |named| ==> named[j].name != name
  }

  /** The index has exactly the names that occur, each with the value of its last occurrence. */
  lemma {:induction false} IndexHoldsTheLast<T>(named: seq<Named<T>>, name: string)
    ensures name in Index(named) <==> exists i :: 0 <= i < |named| && named[i].name == name
    ensures forall i :: IsLast(named, i, name) ==> name in Index(named) && Index(named)[name] == named[i].value
  {
    if named != [] {
      var last := |named| - 1;
      IndexHoldsTheLast(named[..last], name);
      assert forall i :: 0 <= i < last ==> named[..last][i] == named[i];
      if name in Index(named) && name != named[last].name {
        assert name in Index(named[..last]);
      }
      forall i | IsLast(named, i, name)
        ensures name in Index(named) && Index(named)[name] == named[i].value
      {
        assert i < last ==> IsLast(named[..last], i, name);
      }
    }
  }

  method SecretsToMap(secrets: seq<Named<Data>>) returns (m: map<string, Data>)
    ensures m == Index(secrets)
  {
    m := map[];
    for i := 0 to |secrets|
      invariant m == Index(secrets[..i])
    {
      assert secrets[..i + 1][..i] == secrets[..i];
      m := m[secrets[i].name := secrets[i].value];
    }
    assert secrets[..|secrets|] == secrets;
  }

  method ConfigsToMap(configs: seq<Named<Data>>) returns (m: map<string, Data>)
    ensures m == Index(configs)
  {
    m := map[];
    for i := 0 to |configs|
      invariant m == Index(configs[..i])
    {
      assert configs[..i + 1][..i] == configs[..i];
      m := m[configs[i].name := configs[i].value];
    }
    assert configs[..|configs|] == configs;
  }

  /** All documents of the additional files, file by file. */
  function AllDocuments(files: seq<string>): seq<string> {
    if files == [] then [] else AllDocuments(files[..|files| - 1]) + Documents.Documents(files[|files| - 1])
  }

  lemma Snoc<T>(s: seq<T>, i: nat)
    requires i < |s|
    ensures s[..i + 1] != [] && s[..i + 1][|s[..i + 1]| - 1] == s[i] && s[..i + 1][..|s[..i + 1]| - 1] == s[..i]
  {
  }

  /** What a list of documents adds to the tasks already known. */
  function MoreTasks(tasks: map<string, TaskSpec>, objs: seq<Object>): map<string, TaskSpec> {
    tasks + Index(TasksOf(objs))
  }

  function MorePipelines(pipelines: map<string, PipelineSpec>, objs: seq<Object>): map<string, PipelineSpec> {
    pipelines + Index(PipelinesOf(objs))
  }

  lemma AllNew(objs: seq<Object>)
    ensures MoreTasks(map[], objs) == Index(TasksOf(objs)) && MorePipelines(map[], objs) == Index(PipelinesOf(objs))
  {
  }

  lemma IndexMore<T>(named: seq<Named<T>>, x: Named<T>)
    ensures Index(named + [x]) == Index(named)[x.name := x.value]
  {
    assert (named + [x])[..|named|] == named;
  }

  lemma MoreOf(tasks: map<string, TaskSpec>, pipelines: map<string, PipelineSpec>, objs: seq<Object>, obj: Object)
    ensures MoreTasks(tasks, objs + [obj]) ==
            if obj.TaskDoc? then MoreTasks(tasks, objs)[obj.task.name := obj.task.value] else MoreTasks(tasks, objs)
    ensures MorePipelines(pipelines, objs + [obj]) ==
            if obj.PipelineDoc? then MorePipelines(pipelines, objs)[obj.pipeline.name := obj.pipeline.value]
              else MorePipelines(pipelines, objs)
  {
    hide Index;
    assert (objs + [obj])[..|objs|] == objs;
    var ts, ps := TasksOf(objs), PipelinesOf(objs);
    if obj.TaskDoc? {
      IndexMore(ts, obj.task);
    } else {
      assert ts + [] == ts;
    }
    if obj.PipelineDoc? {
      IndexMore(ps, obj.pipeline);
    } else {
      assert ps + [] == ps;
    }
  }

  method PopulateTaskRun(decode: Decoder, known: map<string, TaskSpec>, additionals: seq<string>)
    returns (tasks: map<string, TaskSpec>, e: Option<Error>)
    ensures match DecodeAll(decode, AllDocuments(additionals))
            case Ok(objs) => e.None? && tasks == MoreTasks(known, objs)
            case Err(error) => e == Some(error)
  {
    hide MoreTasks, MorePipelines;
    tasks := known;
    ghost var objs: seq<Object> := [];
    NoMore(known, map[]);
    for i := 0 to |additionals|
      invariant DecodeAll(decode, AllDocuments(additionals[..i])) == Ok(objs) && tasks == MoreTasks(known, objs)
    {
      var docs := Documents.Documents(additionals[i]);
      ghost var before := AllDocuments(additionals[..i]);
      assert before + docs[..0] == before;
      for k := 0 to |docs|
        invariant DecodeAll(decode, before + docs[..k]) == Ok(objs) && tasks == MoreTasks(known, objs)
      {
        DecodeNext(decode, before, docs, k);
        var obj := decode(docs[k]);
        if obj.Err? {
          FailureOfFile(decode, additionals, i, k + 1);
          return tasks, Some(obj.error);
        }
        MoreOf(known, map[], objs, obj.value);
        match obj.value {
          case TaskDoc(t) => tasks := tasks[t.name := t.value];
          case _ =>   // skipped
        }
        objs := objs + [obj.value];
      }
      Snoc(additionals, i);
      assert docs[..|docs|] == docs;
    }
    assert additionals[..|additionals|] == additionals;
    e := None;
  }

  lemma NoMore(tasks: map<string, TaskSpec>, pipelines: map<string, PipelineSpec>)
    ensures MoreTasks(tasks, []) == tasks && MorePipelines(pipelines, []) == pipelines
  {
  }

  lemma DecodeNext(decode: Decoder, before: seq<string>, docs: seq<string>, k: nat)
    requires k < |docs| && DecodeAll(decode, before + docs[..k]).Ok?
    ensures DecodeAll(decode, before + docs[..k + 1]) ==
            match decode(docs[k]) case Ok(obj) => Ok(DecodeAll(decode, before + docs[..k]).value
              + [obj]) case Err(e) => Err(e)
  {
    var all := before + docs[..k + 1];
    assert all[..|all| - 1] == before + docs[..k] && all[|all| - 1] == docs[k];
  }

  /** A failing document of one file fails the whole. */
  lemma FailureOfFile(decode: Decoder, files: seq<string>, i: nat, k: nat)
    requires i < |files| && k <= |Documents.Documents(files[i])|
    requires DecodeAll(decode, AllDocuments(files[..i]) + Documents.Documents(files[i])[..k]).Err?
    ensures DecodeAll(decode, AllDocuments(files)) ==
        DecodeAll(decode, AllDocuments(files[..i]) + Documents.Documents(files[i])[..k])
  {
    hide DecodeAll, AllDocuments, Documents.Documents;
    NextDocuments(files, i);
    AllDocumentsPrefix(files, i + 1);
    FailurePersists(decode, AllDocuments(files[..i]), Documents.Documents(files[i]), AllDocuments(files), k);
  }

  lemma NextDocuments(files: seq<string>, i: nat)
    requires i < |files|
    ensures AllDocuments(files[..i + 1]) == AllDocuments(files[..i]) + Documents.Documents(files[i])
  {
    Snoc(files, i);
  }

  lemma FailurePersists(decode: Decoder, before: seq<string>, docs: seq<string>, all: seq<string>, k: nat)
    requires k <= |docs| && DecodeAll(decode, before + docs[..k]).Err? && before + docs <= all
    ensures DecodeAll(decode, all) == DecodeAll(decode, before + docs[..k])
  {
    hide DecodeAll;
    assert (before + docs)[..|before| + k] == before + docs[..k];
    FirstFailureStands(decode, before + docs, |before| + k);
    assert all[..|before + docs|] == before + docs;
    FirstFailureStands(decode, all, |before + docs|);
  }

  lemma {:induction false} AllDocumentsPrefix(files: seq<string>, i: nat)
    requires i <= |files|
    ensures AllDocuments(files[..i]) <= AllDocuments(files)
    decreases |files|
  {
    if i == |files| {
      assert files[..i] == files;
    } else {
      assert files[..|files| - 1][..i] == files[..i];
      AllDocumentsPrefix(files[..|files| - 1], i);
    }
  }

  method PopulatePipelineRun(decode: Decoder, knownTasks: map<string, TaskSpec>, knownPipelines: map<string,
                             PipelineSpec>, additionals: seq<string>)
    returns (tasks: map<string, TaskSpec>, pipelines: map<string, PipelineSpec>, e: Option<Error>)
    ensures match DecodeAll(decode, AllDocuments(additionals))
            case Ok(objs) => e.None? && tasks == MoreTasks(knownTasks, objs)
              && pipelines == MorePipelines(knownPipelines, objs)
            case Err(error) => e == Some(error)
  {
    hide MoreTasks, MorePipelines;
    tasks, pipelines := knownTasks, knownPipelines;
    ghost var objs: seq<Object> := [];
    NoMore(knownTasks, knownPipelines);
    for i := 0 to |additionals|
      invariant DecodeAll(decode, AllDocuments(additionals[..i])) == Ok(objs)
      invariant tasks == MoreTasks(knownTasks, objs) && pipelines == MorePipelines(knownPipelines, objs)
    {
      var docs := Documents.Documents(additionals[i]);
      ghost var before := AllDocuments(additionals[..i]);
      assert before + docs[..0] == before;
      for k := 0 to |docs|
        invariant DecodeAll(decode, before + docs[..k]) == Ok(objs)
        invariant tasks == MoreTasks(knownTasks, objs) && pipelines == MorePipelines(knownPipelines, objs)
      {
        DecodeNext(decode, before, docs, k);
        var obj := decode(docs[k]);
        if obj.Err? {
          FailureOfFile(decode, additionals, i, k + 1);
          return tasks, pipelines, Some(obj.error);
        }
        MoreOf(knownTasks, knownPipelines, objs, obj.value);
        match obj.value {
          case TaskDoc(t) => tasks := tasks[t.name := t.value];
          case PipelineDoc(p) => pipelines := pipelines[p.name := p.value];
          case _ =>   // skipped
        }
        objs := objs + [obj.value];
      }
      Snoc(additionals, i);
      assert docs[..|docs|] == docs;
    }
    assert additionals[..|additionals|] == additionals;
    e := None;
  }

  // ---------------------------------------------------------------- what the files say, document by document

  /** Decoding succeeds if and only if every document decodes; otherwise the error is that of the first that does
      not. */
  lemma {:induction false} DecodedInOrder(decode: Decoder, docs: seq<string>)
    ensures DecodeAll(decode, docs).Ok? <==> forall k :: 0 <= k < |docs| ==> decode(docs[k]).Ok?
    ensures DecodeAll(decode, docs).Ok? ==>
              var objs := DecodeAll(decode, docs).value;
              |objs| == |docs| && forall k :: 0 <= k < |docs| ==> decode(docs[k]) == Ok(objs[k])
    ensures DecodeAll(decode, docs).Err? ==>
              exists k :: 0 <= k < |docs| && (forall l :: 0 <= l < k ==> decode(docs[l]).Ok?)
                && decode(docs[k]) == Err(DecodeAll(decode, docs).error)
    decreases |docs|
  {
    if docs != [] {
      var n := |docs| - 1;
      DecodedInOrder(decode, docs[..n]);
      assert forall k :: 0 <= k < n ==> docs[..n][k] == docs[k];
      if DecodeAll(decode, docs[..n]).Ok? && decode(docs[n]).Err? {
        assert forall l :: 0 <= l < n ==> decode(docs[..n][l]).Ok?;
      }
    }
  }

  /** The documents of more files are those of the files, then those of the next file. */
  lemma DocumentsOfMore(files: seq<string>, file: string)
    ensures AllDocuments([]) == [] && AllDocuments(files + [file]) == AllDocuments(files) + Documents.Documents(file)
  {
    assert (files + [file])[..|files|] == files;
  }

  ghost predicate LastTask(objs: seq<Object>, i: int, name: string) {
    && 0 <= i < |objs| && objs[i].TaskDoc? && objs[i].task.name == name
    && forall j :: i < j < |objs| && objs[j].TaskDoc? ==> objs[j].task.name != name
  }

  ghost predicate LastPipeline(objs: seq<Object>, i: int, name: string) {
    && 0 <= i < |objs| && objs[i].PipelineDoc? && objs[i].pipeline.name == name
    && forall j :: i < j < |objs| && objs[j].PipelineDoc? ==> objs[j].pipeline.name != name
  }

  ghost predicate LastSecret(objs: seq<Object>, i: int, name: string) {
    && 0 <= i < |objs| && objs[i].SecretDoc? && objs[i].secret.name == name
    && forall j :: i < j < |objs| && objs[j].SecretDoc? ==> objs[j].secret.name != name
  }

  ghost predicate LastConfig(objs: seq<Object>, i: int, name: string) {
    && 0 <= i < |objs| && objs[i].ConfigDoc? && objs[i].config.name == name
    && forall j :: i < j < |objs| && objs[j].ConfigDoc? ==> objs[j].config.name != name
  }

  /** A name is in an index if and only if some document of the kind has it, with what the last of these says. */
  lemma {:induction false} TasksByName(objs: seq<Object>, name: string)
    ensures name in Index(TasksOf(objs)) <==> exists i :: LastTask(objs, i, name)
    ensures forall i :: LastTask(objs, i, name) ==>
              name in Index(TasksOf(objs)) && Index(TasksOf(objs))[name] == objs[i].task.value
    decreases |objs|
  {
    hide Index;
    if objs == [] {
      NoneIndexed<TaskSpec>();
    } else {
      var n := |objs| - 1;
      TasksByName(objs[..n], name);
      if objs[n].TaskDoc? {
        IndexMore(TasksOf(objs[..n]), objs[n].task);
      } else {
        assert TasksOf(objs[..n]) + [] == TasksOf(objs[..n]);
      }
      if objs[n].TaskDoc? && objs[n].task.name == name {
        assert LastTask(objs, n, name);
      } else {
        assert forall i :: 0 <= i < n ==> objs[..n][i] == objs[i];
        assert forall i :: LastTask(objs, i, name) <==> LastTask(objs[..n], i, name);
      }
    }
  }

  lemma {:induction false} PipelinesByName(objs: seq<Object>, name: string)
    ensures name in Index(PipelinesOf(objs)) <==> exists i :: LastPipeline(objs, i, name)
    ensures forall i :: LastPipeline(objs, i, name) ==>
              name in Index(PipelinesOf(objs)) && Index(PipelinesOf(objs))[name] == objs[i].pipeline.value
    decreases |objs|
  {
    hide Index;
    if objs == [] {
      NoneIndexed<PipelineSpec>();
    } else {
      var n := |objs| - 1;
      PipelinesByName(objs[..n], name);
      if objs[n].PipelineDoc? {
        IndexMore(PipelinesOf(objs[..n]), objs[n].pipeline);
      } else {
        assert PipelinesOf(objs[..n]) + [] == PipelinesOf(objs[..n]);
      }
      if objs[n].PipelineDoc? && objs[n].pipeline.name == name {
        assert LastPipeline(objs, n, name);
      } else {
        assert forall i :: 0 <= i < n ==> objs[..n][i] == objs[i];
        assert forall i :: LastPipeline(objs, i, name) <==> LastPipeline(objs[..n], i, name);
      }
    }
  }

  lemma {:induction false} SecretsByName(objs: seq<Object>, name: string)
    ensures name in Index(SecretsOf(objs)) <==> exists i :: LastSecret(objs, i, name)
    ensures forall i :: LastSecret(objs, i, name) ==>
              name in Index(SecretsOf(objs)) && Index(SecretsOf(objs))[name] == objs[i].secret.value
    decreases |objs|
  {
    hide Index;
    if objs == [] {
      NoneIndexed<Data>();
    } else {
      var n := |objs| - 1;
      SecretsByName(objs[..n], name);
      if objs[n].SecretDoc? {
        IndexMore(SecretsOf(objs[..n]), objs[n].secret);
      } else {
        assert SecretsOf(objs[..n]) + [] == SecretsOf(objs[..n]);
      }
      if objs[n].SecretDoc? && objs[n].secret.name == name {
        assert LastSecret(objs, n, name);
      } else {
        assert forall i :: 0 <= i < n ==> objs[..n][i] == objs[i];
        assert forall i :: LastSecret(objs, i, name) <==> LastSecret(objs[..n], i, name);
      }
    }
  }

  lemma {:induction false} ConfigsByName(objs: seq<Object>, name: string)
    ensures name in Index(ConfigsOf(objs)) <==> exists i :: LastConfig(objs, i, name)
    ensures forall i :: LastConfig(objs, i, name) ==>
              name in Index(ConfigsOf(objs)) && Index(ConfigsOf(objs))[name] == objs[i].config.value
    decreases |objs|
  {
    hide Index;
    if objs == [] {
      NoneIndexed<Data>();
    } else {
      var n := |objs| - 1;
      ConfigsByName(objs[..n], name);
      if objs[n].ConfigDoc? {
        IndexMore(ConfigsOf(objs[..n]), objs[n].config);
      } else {
        assert ConfigsOf(objs[..n]) + [] == ConfigsOf(objs[..n]);
      }
      if objs[n].ConfigDoc? && objs[n].config.name == name {
        assert LastConfig(objs, n, name);
      } else {
        assert forall i :: 0 <= i < n ==> objs[..n][i] == objs[i];
        assert forall i :: LastConfig(objs, i, name) <==> LastConfig(objs[..n], i, name);
      }
    }
  }

  /** More documents replace what was known under the same names and leave the rest. */
  lemma MoreByName(tasks: map<string, TaskSpec>, pipelines: map<string, PipelineSpec>, objs: seq<Object>, name: string)
    ensures forall i :: LastTask(objs, i, name) ==>
              name in MoreTasks(tasks, objs) && MoreTasks(tasks, objs)[name] == objs[i].task.value
    ensures (forall i :: !LastTask(objs, i, name)) ==>
              (name in MoreTasks(tasks, objs) <==> name in tasks)
              && (name in tasks ==> MoreTasks(tasks, objs)[name] == tasks[name])
    ensures forall i :: LastPipeline(objs, i, name) ==>
              name in MorePipelines(pipelines, objs) && MorePipelines(pipelines, objs)[name] == objs[i].pipeline.value
    ensures (forall i :: !LastPipeline(objs, i, name)) ==>
              (name in MorePipelines(pipelines, objs) <==> name in pipelines)
              && (name in pipelines ==> MorePipelines(pipelines, objs)[name] == pipelines[name])
  {
    hide Index, TasksOf, PipelinesOf, LastTask, LastPipeline;
    TasksByName(objs, name);
    PipelinesByName(objs, name);
  }

  lemma NoneIndexed<T>()
    ensures Index<T>([]) == map[]
  {
  }

  ghost predicate OnlyTaskRun(objs: seq<Object>, i: int) {
    0 <= i < |objs| && objs[i].TaskRunDoc? && forall j :: 0 <= j < |objs| && j != i ==> !objs[j].TaskRunDoc?
  }

  ghost predicate OnlyPipelineRun(objs: seq<Object>, i: int) {
    0 <= i < |objs| && objs[i].PipelineRunDoc? && forall j :: 0 <= j < |objs| && j != i ==> !objs[j].PipelineRunDoc?
  }

  lemma {:induction false} NoTaskRuns(objs: seq<Object>)
    ensures TaskRunsOf(objs) == [] <==> forall i :: 0 <= i < |objs| ==> !objs[i].TaskRunDoc?
  {
    if objs != [] {
      var before := objs[..|objs| - 1];
      NoTaskRuns(before);
      assert forall i :: 0 <= i < |before| ==> before[i] == objs[i];
    }
  }

  /** One run is found if and only if there is just one document of its kind, and it is that one. */
  lemma {:induction false} SingleTaskRun(objs: seq<Object>, i: nat)
    requires OnlyTaskRun(objs, i)
    ensures TaskRunsOf(objs) == [objs[i].taskRun]
  {
    var before := objs[..|objs| - 1];
    assert forall k :: 0 <= k < |before| ==> before[k] == objs[k];
    if i == |before| {
      NoTaskRuns(before);
    } else {
      SingleTaskRun(before, i);
    }
  }

  lemma {:induction false} FoundTaskRun(objs: seq<Object>) returns (i: nat)
    requires |TaskRunsOf(objs)| == 1
    ensures OnlyTaskRun(objs, i)
  {
    var before := objs[..|objs| - 1];
    assert forall k :: 0 <= k < |before| ==> before[k] == objs[k];
    if objs[|before|].TaskRunDoc? {
      NoTaskRuns(before);
      i := |before|;
    } else {
      i := FoundTaskRun(before);
    }
  }

  lemma {:induction false} NoPipelineRuns(objs: seq<Object>)
    ensures PipelineRunsOf(objs) == [] <==> forall i :: 0 <= i < |objs| ==> !objs[i].PipelineRunDoc?
  {
    if objs != [] {
      var before := objs[..|objs| - 1];
      NoPipelineRuns(before);
      assert forall i :: 0 <= i < |before| ==> before[i] == objs[i];
    }
  }

  /** One run is found if and only if there is just one document of its kind, and it is that one. */
  lemma {:induction false} SinglePipelineRun(objs: seq<Object>, i: nat)
    requires OnlyPipelineRun(objs, i)
    ensures PipelineRunsOf(objs) == [objs[i].pipelineRun]
  {
    var before := objs[..|objs| - 1];
    assert forall k :: 0 <= k < |before| ==> before[k] == objs[k];
    if i == |before| {
      NoPipelineRuns(before);
    } else {
      SinglePipelineRun(before, i);
    }
  }

  lemma {:induction false} FoundPipelineRun(objs: seq<Object>) returns (i: nat)
    requires |PipelineRunsOf(objs)| == 1
    ensures OnlyPipelineRun(objs, i)
  {
    var before := objs[..|objs| - 1];
    assert forall k :: 0 <= k < |before| ==> before[k] == objs[k];
    if objs[|before|].PipelineRunDoc? {
      NoPipelineRuns(before);
      i := |before|;
    } else {
      i := FoundPipelineRun(before);
    }
  }

  // ---------------------------------------------------------------- readResources

  datatype Loaded =
    | LoadedTaskRun(taskRun: TaskRunObject, tasks: map<string, TaskSpec>, secrets: map<string, Data>,
      configs: map<string, Data>)
    | LoadedPipelineRun(pipelineRun: PipelineRunObject, tasks: map<string, TaskSpec>, pipelines: map<string,
      PipelineSpec>,
                        secrets: map<string, Data>, configs: map<string, Data>)

  /** Exactly one run must be in the main file. ConfigMaps and Secrets come from the main file only, tasks and
      pipelines from the additional files only: those in the main file are decoded and dropped. */
  method ReadResources(decode: Decoder, main: string, additionals: seq<string>) returns (r: Result<Loaded>)
    ensures DecodeAll(decode, Documents.Documents(main)).Err? ==>
        r == Err(DecodeAll(decode, Documents.Documents(main)).error)
    ensures DecodeAll(decode, Documents.Documents(main)).Ok? ==>
              var objs, more := DecodeAll(decode, Documents.Documents(main)).value,
                DecodeAll(decode, AllDocuments(additionals));
              if |TaskRunsOf(objs)| + |PipelineRunsOf(objs)| != 1 then r.Err? && r.error.Invalid?
              else if more.Err? then r == Err(more.error)
              else if |TaskRunsOf(objs)| == 1 then
                r == Ok(LoadedTaskRun(TaskRunsOf(objs)[0], Index(TasksOf(more.value)), Index(SecretsOf(objs)),
                  Index(ConfigsOf(objs))))
              else
                r == Ok(LoadedPipelineRun(PipelineRunsOf(objs)[0], Index(TasksOf(more.value)),
                  Index(PipelinesOf(more.value)),
                                          Index(SecretsOf(objs)), Index(ConfigsOf(objs))))
  {
    hide DecodeAll, Index, TasksOf, TaskRunsOf, PipelinesOf, PipelineRunsOf, SecretsOf, ConfigsOf, MoreTasks,
      MorePipelines, AllDocuments, Documents.Documents;
    var objs, failure := ParseTektonYAMLs(decode, main);
    if failure.Some? {
      return Err(failure.value);
    }
    if |objs.taskRuns| == 1 && |objs.pipelineRuns| == 0 {
      var secrets := SecretsToMap(objs.secrets);
      var configs := ConfigsToMap(objs.configs);
      var tasks, e := PopulateTaskRun(decode, map[], additionals);
      if e.Some? {
        return Err(e.value);
      }
      AllNew(DecodeAll(decode, AllDocuments(additionals)).value);
      r := Ok(LoadedTaskRun(objs.taskRuns[0], tasks, secrets, configs));
    } else if |objs.taskRuns| == 0 && |objs.pipelineRuns| == 1 {
      var secrets := SecretsToMap(objs.secrets);
      var configs := ConfigsToMap(objs.configs);
      var tasks, pipelines, e := PopulatePipelineRun(decode, map[], map[], additionals);
      if e.Some? {
        return Err(e.value);
      }
      AllNew(DecodeAll(decode, AllDocuments(additionals)).value);
      r := Ok(LoadedPipelineRun(objs.pipelineRuns[0], tasks, pipelines, secrets, configs));
    } else if |objs.taskRuns| == 0 && |objs.pipelineRuns| == 0 {
      r := Err(Invalid(main, "No taskrun or pipelinern to run"));
    } else if |objs.taskRuns| == 1 && |objs.pipelineRuns| == 1 {
      r := Err(Invalid(main, "taskrun and pipelinerun both present, not supported"));
    } else {
      // more than one of a kind: the default case of the source is never reached
      assert |objs.taskRuns| > 1 || |objs.pipelineRuns| > 1;
      r := Err(Invalid(main, " multiple taskruns and/or pipelineruns present, not supported"));
    }
  }

  // ---------------------------------------------------------------- what was printed is read

  ghost predicate Prints(encode: Object -> string, decode: Decoder, objs: seq<Object>) {
    forall i :: 0 <= i < |objs| ==>
      encode(objs[i]) != "" && Documents.Tidy(encode(objs[i])) && decode(encode(objs[i])) == Ok(objs[i])
  }

  function Printed(encode: Object -> string, objs: seq<Object>): seq<string> {
    seq(|objs|, i requires 0 <= i < |objs| => encode(objs[i]))
  }

  lemma {:induction false} EachIsDecoded(encode: Object -> string, decode: Decoder, objs: seq<Object>)
    requires Prints(encode, decode, objs)
    ensures DecodeAll(decode, Printed(encode, objs)) == Ok(objs)
    decreases |objs|
  {
    if objs != [] {
      var n := |objs| - 1;
      assert Printed(encode, objs)[..n] == Printed(encode, objs[..n]);
      EachIsDecoded(encode, decode, objs[..n]);
      assert objs[..n] + [objs[n]] == objs;
    }
  }

  /** A file printed from objects, with separators between them and any run of dashes in front, is read back as
      those objects in order. */
  lemma PrintedFileIsRead(encode: Object -> string, decode: Decoder, objs: seq<Object>, n: nat)
    requires objs != [] && Prints(encode, decode, objs)
    ensures DecodeAll(decode,
        Documents.Documents(Documents.Dashes(n) + Join(Printed(encode, objs), Documents.SEPARATOR))) == Ok(objs)
  {
    Documents.DocumentsRoundTrip(Printed(encode, objs), n);
    EachIsDecoded(encode, decode, objs);
  }
}
