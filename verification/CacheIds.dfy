/** The names of persistent caches, and when two owners get the same one. */
module CacheIds {

  /** What a persistent cache belongs to. */
  datatype Owner =
    | Results(task: string)
    | FinalResults(final: string)
    | Volume(task: string, volume: string)
    | FinalVolume(final: string, volume: string)
    | Workspace(run: string, workspace: string)

  /** A Kubernetes name: not empty, no slash. */
  ghost predicate IsName(s: string) {
    s != "" && '/' !in s
  }

  /** Tekton requires names of tasks and runs; what workspaces and volumes are called it leaves open. */
  ghost predicate ProperOwner(o: Owner) {
    match o
    case Results(t) => IsName(t)
    case FinalResults(f) => IsName(f)
    case Volume(t, _) => IsName(t)
    case FinalVolume(f, _) => IsName(f)
    case Workspace(r, _) => IsName(r)
  }

  function Id(o: Owner): string {
    match o
    case Results(t) => t + "/results"
    case FinalResults(f) => "finally/" + f + "/results"
    case Volume(t, v) => t + "/volume/" + v
    case FinalVolume(f, v) => "finally/" + f + "/volume/" + v
    case Workspace(r, w) => r + "/" + w
  }

  /** An identifier up to its first slash, and from there on. */
  function Head(o: Owner): string {
    match o
    case Results(t) => t
    case FinalResults(_) => "finally"
    case Volume(t, _) => t
    case FinalVolume(_, _) => "finally"
    case Workspace(r, _) => r
  }

  function Rest(o: Owner): string {
    match o
    case Results(_) => "results"
    case FinalResults(f) => f + "/" + "results"
    case Volume(_, v) => "volume" + "/" + v
    case FinalVolume(f, v) => f + "/" + ("volume" + "/" + v)
    case Workspace(_, w) => w
  }

  lemma Separators()
    ensures "/results" == "/" + "results" && "/volume/" == "/" + "volume" + "/" && "finally/" == "finally" + "/"
    ensures '/' !in "results" && '/' !in "volume" && '/' !in "finally"
  {
  }

  /** Regrouping a path around its first separator, for arbitrary strings. */
  lemma Regroup(a: string, b: string, c: string, d: string)
    ensures a + "/" + b + ("/" + c) == a + "/" + (b + "/" + c)
    ensures a + ("/" + c + "/") + d == a + "/" + (c + "/" + d)
    ensures a + "/" + b + ("/" + c + "/") + d == a + "/" + (b + "/" + (c + "/" + d))
    ensures a + ("/" + c) == a + "/" + c
  {
  }

  lemma IdSplits(o: Owner)
    ensures Id(o) == Head(o) + "/" + Rest(o)
    ensures ProperOwner(o) ==> '/' !in Head(o)
  {
    Separators();
    match o
    case Results(t) => Regroup(t, "", "results", "");
    case FinalResults(f) => Regroup("finally", f, "results", "");
    case Volume(t, v) => Regroup(t, "", "volume", v);
    case FinalVolume(f, v) => Regroup("finally", f, "volume", v);
    case Workspace(_, _) =>
  }

  lemma FirstSegment(a: string, b: string, x: string, y: string)
    requires '/' !in a && '/' !in b && a + "/" + x == b + "/" + y
    ensures a == b && x == y
  {
    var s := a + "/" + x;
    assert s[|a|] == '/' && s[|b|] == '/';
    assert forall i :: 0 <= i < |a| ==> s[i] == a[i] && a[i] in a;
    assert forall i :: 0 <= i < |b| ==> s[i] == b[i] && b[i] in b;
    assert a == s[..|a|] && b == s[..|b|] && x == s[|a| + 1..] && y == s[|b| + 1..];
  }

  lemma HasSlash(a: string, x: string, s: string)
    requires '/' !in s
    ensures a + "/" + x != s
  {
    assert (a + "/" + x)[|a|] == '/';
  }

  /** Two ways in which owners of different kinds meet although no name has a slash: a workspace called `results` in
      a run named like one of its tasks, and the volume `results` of a task called `finally` against the results of a
      finally task called `volume`. */
  predicate CollideAsNames(a: Owner, b: Owner) {
    || (a.Results? && b.Workspace? && b.run == a.task && b.workspace == "results")
    || (a.Volume? && b.FinalResults? && a.task == "finally" && a.volume == "results" && b.final == "volume")
  }

  /** The six ways in which they meet; in four the workspace or the volume has a slash in its name. */
  predicate Collide(a: Owner, b: Owner) {
    || CollideAsNames(a, b)
    || (a.FinalResults? && b.Workspace? && b.run == "finally" && b.workspace == a.final + "/" + "results")
    || (a.Volume? && b.Workspace? && b.run == a.task && b.workspace == "volume" + "/" + a.volume)
    || (a.Volume? && b.FinalVolume? && a.task == "finally" && b.final == "volume"
        && a.volume == "volume" + "/" + b.volume)
    || (a.FinalVolume? && b.Workspace? && b.run == "finally"
        && b.workspace == a.final + "/" + ("volume" + "/" + a.volume))
  }

  /** Cache identifiers tell their owners apart, but for exactly these cases. */
  lemma OwnersAreSeparate(a: Owner, b: Owner)
    requires ProperOwner(a) && ProperOwner(b)
    ensures Id(a) == Id(b) <==> a == b || Collide(a, b) || Collide(b, a)
  {
    hide Id, Head, Rest, ProperOwner, Collide;
    IdSplits(a);
    IdSplits(b);
    if Id(a) == Id(b) {
      FirstSegment(Head(a), Head(b), Rest(a), Rest(b));
      SameParts(a, b);
    } else {
      CollisionsMeet(a, b);
      CollisionsMeet(b, a);
    }
  }

  lemma CollisionsMeet(a: Owner, b: Owner)
    ensures Collide(a, b) ==> Head(a) == Head(b) && Rest(a) == Rest(b)
  {
  }

  lemma SameParts(a: Owner, b: Owner)
    requires ProperOwner(a) && ProperOwner(b) && Head(a) == Head(b) && Rest(a) == Rest(b)
    ensures a == b || Collide(a, b) || Collide(b, a)
  {
    match a
    case Results(_) => ResultsAgainst(a, b);
    case FinalResults(_) => FinalResultsAgainst(a, b);
    case Volume(_, _) => VolumeAgainst(a, b);
    case FinalVolume(_, _) => FinalVolumeAgainst(a, b);
    case Workspace(_, _) => WorkspaceAgainst(a, b);
  }

  lemma ResultsAgainst(a: Owner, b: Owner)
    requires a.Results? && ProperOwner(b) && Head(a) == Head(b) && Rest(a) == Rest(b)
    ensures a == b || Collide(a, b)
  {
    Separators();
    match b
    case FinalResults(f) => HasSlash(f, "results", "results");
    case Volume(_, v) => HasSlash("volume", v, "results");
    case FinalVolume(f, v) => HasSlash(f, "volume" + "/" + v, "results");
    case _ =>
  }

  lemma FinalResultsAgainst(a: Owner, b: Owner)
    requires a.FinalResults? && ProperOwner(a) && ProperOwner(b) && Head(a) == Head(b) && Rest(a) == Rest(b)
    ensures a == b || Collide(a, b) || Collide(b, a)
  {
    Separators();
    match b
    case FinalResults(f) => FirstSegment(a.final, f, "results", "results");
    case Volume(_, v) => FirstSegment(a.final, "volume", "results", v);
    case FinalVolume(f, v) =>
      FirstSegment(a.final, f, "results", "volume" + "/" + v);
      HasSlash("volume", v, "results");
    case _ =>
  }

  lemma VolumeAgainst(a: Owner, b: Owner)
    requires a.Volume? && ProperOwner(b) && Head(a) == Head(b) && Rest(a) == Rest(b)
    ensures a == b || Collide(a, b)
  {
    Separators();
    match b
    case FinalResults(f) => FirstSegment("volume", f, a.volume, "results");
    case Volume(_, v) => FirstSegment("volume", "volume", a.volume, v);
    case FinalVolume(f, v) => FirstSegment("volume", f, a.volume, "volume" + "/" + v);
    case _ =>
  }

  lemma FinalVolumeAgainst(a: Owner, b: Owner)
    requires a.FinalVolume? && ProperOwner(a) && ProperOwner(b) && Head(a) == Head(b) && Rest(a) == Rest(b)
    ensures a == b || Collide(a, b) || Collide(b, a)
  {
    Separators();
    var rest := "volume" + "/" + a.volume;
    match b
    case FinalResults(f) =>
      FirstSegment(a.final, f, rest, "results");
      HasSlash("volume", a.volume, "results");
    case Volume(_, v) => FirstSegment(a.final, "volume", rest, v);
    case FinalVolume(f, v) =>
      FirstSegment(a.final, f, rest, "volume" + "/" + v);
      FirstSegment("volume", "volume", a.volume, v);
    case _ =>
  }

  lemma WorkspaceAgainst(a: Owner, b: Owner)
    requires a.Workspace? && Head(a) == Head(b) && Rest(a) == Rest(b)
    ensures a == b || Collide(b, a)
  {
  }

  /** Owners whose workspaces and volumes have Kubernetes names too. */
  ghost predicate AllNames(o: Owner) {
    match o
    case Volume(_, v) => IsName(v)
    case FinalVolume(_, v) => IsName(v)
    case Workspace(_, w) => IsName(w)
    case _ => true
  }

  lemma NamesLeaveTwoCollisions(a: Owner, b: Owner)
    requires ProperOwner(a) && ProperOwner(b) && AllNames(a) && AllNames(b)
    ensures Id(a) == Id(b) <==> a == b || CollideAsNames(a, b) || CollideAsNames(b, a)
  {
    hide Id, ProperOwner;
    OwnersAreSeparate(a, b);
    SlashesCollide(a, b);
    SlashesCollide(b, a);
  }

  lemma SlashesCollide(a: Owner, b: Owner)
    requires AllNames(a) && AllNames(b)
    ensures Collide(a, b) <==> CollideAsNames(a, b)
  {
    Separators();
    if Collide(a, b) && b.Workspace? && a.FinalResults? {
      HasSlash(a.final, "results", b.workspace);
    } else if Collide(a, b) && b.Workspace? && a.Volume? {
      HasSlash("volume", a.volume, b.workspace);
    } else if Collide(a, b) && b.Workspace? && a.FinalVolume? {
      HasSlash(a.final, "volume" + "/" + a.volume, b.workspace);
    } else if Collide(a, b) && a.Volume? && b.FinalVolume? {
      HasSlash("volume", b.volume, a.volume);
    }
  }
}
