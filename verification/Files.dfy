/** config.go and secret.go: the files that a ConfigMap or a Secret shows, one layer on the other. */
module Files {
  import opened Basics
  import opened Llb
  import opened Tekton

  /** The remaining files, each layered on the state so far. */
  function LayerFiles(g: Graph, files: seq<ProjectedFile>, base: State): (Graph, State)
    decreases |files|
  {
    if files == [] then (g, base)
    else LayerFiles(g + [File(base, files[0].path, files[0].data)], files[1..], Output(|g|))
  }

  /** Without items every key is a file, in the order in which the keys are visited. */
  function KeyFiles(data: Data, order: seq<string>): seq<ProjectedFile> {
    seq(|order|, i requires 0 <= i < |order| =>
      ProjectedFile(order[i], if order[i] in data then data[order[i]] else ""))
  }

  /** Otherwise the items are files, in their own order; a key that is not there is an error. */
  function ItemFiles(data: Data, items: seq<KeyToPath>, n: nat): Result<seq<ProjectedFile>>
    requires n <= |items|
  {
    if n == 0 then Ok([])
    else
      var before :- ItemFiles(data, items, n - 1);
      if items[n - 1].key !in data then Err(NotFound("key", items[n - 1].key))
      else Ok(before + [ProjectedFile(items[n - 1].path, data[items[n - 1].key])])
  }

  function ProjectFiles(lib: Library, data: Data, items: seq<KeyToPath>): Result<seq<ProjectedFile>> {
    if items == [] then Ok(KeyFiles(data, lib.keys(data))) else ItemFiles(data, items, |items|)
  }

  // ---------------------------------------------------------------- what is read back

  /** The files of a state, from the first on: one layer after the other. */
  ghost function FilesAt(g: Graph, s: State): seq<ProjectedFile>
    decreases if s.Output? then s.op + 1 else 0
  {
    if s.Output? && s.op < |g| && g[s.op].File? && (g[s.op].base.Output? ==> g[s.op].base.op < s.op) then
      FilesAt(g, g[s.op].base) + [ProjectedFile(g[s.op].path, g[s.op].data)]
    else []
  }

  ghost predicate Within(g: Graph, s: State) {
    s.Output? ==> s.op < |g|
  }

  lemma {:induction false} FilesReadAlike(g: Graph, h: Graph, s: State)
    requires g <= h && Within(g, s)
    ensures FilesAt(h, s) == FilesAt(g, s)
    decreases if s.Output? then s.op + 1 else 0
  {
    if s.Output? && g[s.op].File? && (g[s.op].base.Output? ==> g[s.op].base.op < s.op) {
      FilesReadAlike(g, h, g[s.op].base);
    }
  }

  /** Every file is put on the state so far. */
  lemma {:induction false} LayersAreRead(g: Graph, files: seq<ProjectedFile>, base: State)
    requires Within(g, base)
    ensures var (h, content) := LayerFiles(g, files, base);
          g <= h && Within(h, content) && FilesAt(h, content) == FilesAt(g, base) + files
    decreases |files|
  {
    if files != [] {
      var next := g + [File(base, files[0].path, files[0].data)];
      FilesReadAlike(g, next, base);
      LayersAreRead(next, files[1..], Output(|g|));
      assert FilesAt(next, Output(|g|)) == FilesAt(g, base) + [files[0]];
      assert [files[0]] + files[1..] == files;
    } else {
      assert FilesAt(g, base) + files == FilesAt(g, base);
    }
  }

  /** The files asked for: the items in order, or, without items, each key once. */
  ghost predicate ShowsData(data: Data, items: seq<KeyToPath>, files: seq<ProjectedFile>) {
    if items == [] then
      && (forall k :: k in data ==> ProjectedFile(k, data[k]) in files)
      && (forall f :: f in files ==> f.path in data && f.data == data[f.path])
      && (forall i, j :: 0 <= i < j < |files| ==> files[i].path != files[j].path)
    else
      && |files| == |items|
      && (forall i :: 0 <= i < |items| ==>
            items[i].key in data && files[i] == ProjectedFile(items[i].path, data[items[i].key]))
  }

  lemma KeysAreShown(data: Data, order: seq<string>)
    requires Enumerates(order, data.Keys)
    ensures ShowsData(data, [], KeyFiles(data, order))
  {
    var files := KeyFiles(data, order);
    forall k | k in data
      ensures ProjectedFile(k, data[k]) in files
    {
      var i :| 0 <= i < |order| && order[i] == k;
      assert files[i] == ProjectedFile(k, data[k]);
    }
    forall f | f in files
      ensures f.path in data && f.data == data[f.path]
    {
      var i :| 0 <= i < |files| && files[i] == f;
      assert order[i] in order;
    }
  }

  lemma {:induction false} ItemsAreShown(data: Data, items: seq<KeyToPath>, n: nat)
    requires n <= |items|
    ensures ItemFiles(data, items, n).Ok? <==> forall i :: 0 <= i < n ==> items[i].key in data
    ensures ItemFiles(data, items, n).Ok? ==>
              var files := ItemFiles(data, items, n).value;
              |files| == n && forall i :: 0 <= i < n ==> files[i] == ProjectedFile(items[i].path, data[items[i].key])
    ensures ItemFiles(data, items, n).Err? ==>
              exists i :: 0 <= i < n && items[i].key !in data && (forall l :: 0 <= l < i ==> items[l].key in data)
                && ItemFiles(data, items, n).error == NotFound("key", items[i].key)
  {
    if n > 0 {
      ItemsAreShown(data, items, n - 1);
    }
  }

  /** What is projected, exactly: it fails if and only if an item names a key that is not there. */
  lemma ProjectedExactly(lib: Library, data: Data, items: seq<KeyToPath>)
    requires Ranges(lib)
    ensures ProjectFiles(lib, data, items).Ok? <==> forall i :: 0 <= i < |items| ==> items[i].key in data
    ensures ProjectFiles(lib, data, items).Ok? ==> ShowsData(data, items, ProjectFiles(lib, data, items).value)
  {
    if items == [] {
      assert Enumerates(lib.keys(data), data.Keys);
      hide Enumerates;
      KeysAreShown(data, lib.keys(data));
    } else {
      ItemsAreShown(data, items, |items|);
    }
  }

  // ---------------------------------------------------------------- as written

  lemma {:induction false} LayerMore(g: Graph, files: seq<ProjectedFile>, base: State, file: ProjectedFile)
    ensures var (h, state) := LayerFiles(g, files, base);
          LayerFiles(g, files + [file], base) == (h + [File(state, file.path, file.data)], Output(|h|))
    decreases |files|
  {
    if files == [] {
      assert files + [file] == [file] && [file][1..] == [];
    } else {
      assert (files + [file])[1..] == files[1..] + [file];
      LayerMore(g + [File(base, files[0].path, files[0].data)], files[1..], Output(|g|), file);
    }
  }

  /** `ConfigMap` and, word for word, `Secret`. */
  method Project(lib: Library, g: Graph, data: Data, items: seq<KeyToPath>) returns (h: Graph, r: Result<State>)
    requires Ranges(lib)
    ensures ProjectFiles(lib, data, items).Ok? ==>
              (h, r) == (LayerFiles(g, ProjectFiles(lib, data, items).value, Scratch).0,
                         Ok(LayerFiles(g, ProjectFiles(lib, data, items).value, Scratch).1))
    ensures ProjectFiles(lib, data, items).Err? ==> r == Err(ProjectFiles(lib, data, items).error)
    ensures r.Ok? <==> forall i :: 0 <= i < |items| ==> items[i].key in data
    ensures r.Ok? ==> g <= h && Within(h, r.value) && ShowsData(data, items, FilesAt(h, r.value))
  {
    hide ShowsData, FilesAt;
    var state := Scratch;
    h := g;
    ProjectedExactly(lib, data, items);
    assert Enumerates(lib.keys(data), data.Keys);
    if |items| == 0 {
      var order := lib.keys(data);
      for i := 0 to |order|
        invariant (h, state) == LayerFiles(g, KeyFiles(data, order)[..i], Scratch)
      {
        assert order[i] in order;
        LayerMore(g, KeyFiles(data, order)[..i], Scratch, KeyFiles(data, order)[i]);
        assert KeyFiles(data, order)[..i + 1] == KeyFiles(data, order)[..i] + [KeyFiles(data, order)[i]];
        h := h + [File(state, order[i], data[order[i]])];
        state := Output(|h| - 1);
      }
      assert KeyFiles(data, order)[..|order|] == KeyFiles(data, order);
    } else {
      for i := 0 to |items|
        invariant ItemFiles(data, items, i).Ok?
        invariant (h, state) == LayerFiles(g, ItemFiles(data, items, i).value, Scratch)
      {
        if items[i].key !in data {
          FirstMissingStands(data, items, i + 1, |items|);
          return h, Err(NotFound("key", items[i].key));
        }
        LayerMore(g, ItemFiles(data, items, i).value, Scratch, ProjectedFile(items[i].path, data[items[i].key]));
        h := h + [File(state, items[i].path, data[items[i].key])];
        state := Output(|h| - 1);
      }
    }
    r := Ok(state);
    ContentIsRead(g, ProjectFiles(lib, data, items).value);
  }

  lemma ContentIsRead(g: Graph, files: seq<ProjectedFile>)
    ensures var (h, content) := LayerFiles(g, files, Scratch);
          g <= h && Within(h, content) && FilesAt(h, content) == files
  {
    LayersAreRead(g, files, Scratch);
    assert FilesAt(g, Scratch) + files == files;
  }

  lemma {:induction false} FirstMissingStands(data: Data, items: seq<KeyToPath>, i: nat, n: nat)
    requires i <= n <= |items| && ItemFiles(data, items, i).Err?
    ensures ItemFiles(data, items, n) == ItemFiles(data, items, i)
  {
    if i < n {
      FirstMissingStands(data, items, i, n - 1);
    }
  }
}
