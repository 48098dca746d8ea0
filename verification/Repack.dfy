// Repacking a DuckLake catalog in place: parallel workers, a commit loop, and a crash between any two effects.
module Repack {
  import opened Wrappers
  import opened Paths
  import opened ArchiveRead

  const PARQUET := ".parquet"

  // ---- names ----

  predicate EndsWith(s: string, suffix: string) {
    |s| >= |suffix| && s[|s| - |suffix|..] == suffix
  }

  /** The local file a catalog path names. */
  function FileOf(path: string): string {
    if CanHandle(path) then StripScheme(path) else path
  }

  /** The archive a source is packed into. */
  function ArchiveName(src: string): string {
    (if EndsWith(src, PARQUET) then src[..|src| - |PARQUET|] else src) + ".zl"
  }

  lemma ArchiveNamesDiffer(a: string, b: string)
    requires EndsWith(a, PARQUET) && EndsWith(b, PARQUET)
    ensures ArchiveName(a) == ArchiveName(b) <==> a == b
    ensures ArchiveName(a) != b
    ensures FileOf(SCHEME + ArchiveName(a)) == ArchiveName(a)
  {
    var x, y := a[..|a| - |PARQUET|], b[..|b| - |PARQUET|];
    assert a == x + PARQUET && b == y + PARQUET;
    if ArchiveName(a) == ArchiveName(b) {
      assert ArchiveName(a)[..|x|] == x && ArchiveName(b)[..|y|] == y;
    }
    assert ArchiveName(a)[|ArchiveName(a)| - 1] == 'l';
    assert b[|b| - 1] == PARQUET[|PARQUET| - 1];
  }

  /** Without the suffix two sources can share an archive name. */
  lemma NamesCollideWithoutSuffix(src: string)
    requires !EndsWith(src, PARQUET)
    ensures ArchiveName(src) == ArchiveName(src + PARQUET) && src != src + PARQUET
  {
    assert (src + PARQUET)[..|src|] == src;
    assert |src + PARQUET| > |src|;
  }

  /** How things are named: the archive of a source, the catalog path of a file, and the file of a catalog path. */
  datatype Names = Names(
    isSource: string -> bool,
    endsRight: string -> bool,
    archive: string -> string,
    uri: string -> string,
    file: string -> string)
  {
    /** Sources that end right have archives of their own, which are no sources; catalog paths lead back to files. */
    ghost predicate Lawful() {
      && (forall a, b | endsRight(a) && endsRight(b) :: archive(a) == archive(b) ==> a == b)
      && (forall a, b | endsRight(a) && endsRight(b) :: archive(a) != b)
      && (forall f :: !isSource(uri(f)) && file(uri(f)) == f)
      && (forall p | isSource(p) :: file(p) == p)
    }
  }

  const SCRIPT: Names :=
    Names(p => !CanHandle(p), p => EndsWith(p, PARQUET), ArchiveName, f => SCHEME + f, FileOf)

  lemma ScriptIsLawful()
    ensures SCRIPT.Lawful()
  {
    forall a, b | EndsWith(a, PARQUET) && EndsWith(b, PARQUET)
      ensures ArchiveName(a) == ArchiveName(b) ==> a == b
      ensures ArchiveName(a) != b
    {
      ArchiveNamesDiffer(a, b);
    }
  }

  lemma ArchivesApart(names: Names, a: string, b: string)
    requires names.Lawful() && names.endsRight(a) && names.endsRight(b)
    ensures names.archive(a) == names.archive(b) <==> a == b
    ensures names.archive(a) != b
  {
  }

  // ---- states and steps ----

  /**
   * How files are named and read: the rows of a parquet file, the rows of an archive read through openzl://, None when
   * reading fails; and the fingerprint of a row sequence.
   */
  datatype Env<!C(!new), !R(!new), !F(!new)> = Env(
    names: Names, parquet: C -> Option<seq<R>>, archive: C -> Option<seq<R>>, fingerprint: seq<R> -> F)
  {
    ghost predicate Injective() { forall a, b | fingerprint(a) == fingerprint(b) :: a == b }

    ghost predicate Lawful() { names.Lawful() && Injective() }

    /** The catalog path of a source's archive. */
    function Packed(src: string): string { names.uri(names.archive(src)) }
  }

  datatype Stage<F> =
    | Queued
    | Writing                                // COPY is running: the archive file holds anything
    | Copied
    | SourceRead(source: F)
    | BothRead(source: F, packed: F)
    | Verified
    | Packed                                 // the worker has returned its result
    | Committed                              // the catalog row has been updated
    | Done
    | Failed

  datatype Job<F> = Job(src: string, stage: Stage<F>)

  datatype World<C, F> = World(files: map<string, C>, catalog: map<int, string>, jobs: map<int, Job<F>>)

  function ReadRows<C(!new), R(!new), F(!new)>(
      env: Env<C, R, F>, files: map<string, C>, path: string): Option<seq<R>>
  {
    if env.names.file(path) !in files then None
    else if env.names.isSource(path) then env.parquet(files[env.names.file(path)])
    else env.archive(files[env.names.file(path)])
  }

  datatype Action<C> =
    | Begin(id: int)
    | WriteArchive(id: int, contents: C)
    | FinishCopy(id: int)
    | FingerprintSource(id: int)
    | FingerprintArchive(id: int)
    | Compare(id: int)
    | Measure(id: int)
    | Raise(id: int)
    | Commit(id: int)
    | RemoveSource(id: int)
    | Crash
    | Rerun(ids: set<int>)

  function At<C, F>(w: World<C, F>, id: int, stage: Stage<F>): World<C, F>
    requires id in w.jobs
  {
    w.(jobs := w.jobs[id := w.jobs[id].(stage := stage)])
  }

  /** The steps of one job. */
  function JobStep<C(!new), R(!new), F(==, !new)>(
      env: Env<C, R, F>, w: World<C, F>, a: Action<C>): Option<World<C, F>>
    requires !a.Crash? && !a.Rerun? && a.id in w.jobs
  {
    var id := a.id;
    var src := w.jobs[id].src;
    var zl := env.names.archive(src);
    match (a, w.jobs[id].stage)
    case (Begin(_), Queued) => Some(At(w, id, Writing))
    case (WriteArchive(_, contents), Writing) => Some(w.(files := w.files[zl := contents]))
    case (FinishCopy(_), Writing) => Some(At(w, id, Copied))
    case (FingerprintSource(_), Copied) =>
      var rows := ReadRows(env, w.files, src);
      Some(At(w, id, if rows.Some? then SourceRead(env.fingerprint(rows.value)) else Failed))
    case (FingerprintArchive(_), SourceRead(a)) =>
      var rows := ReadRows(env, w.files, env.names.uri(zl));
      Some(At(w, id, if rows.Some? then BothRead(a, env.fingerprint(rows.value)) else Failed))
    case (Compare(_), BothRead(a, b)) =>
      if a == b then Some(At(w, id, Verified)) else Some(At(w, id, Failed).(files := w.files - {zl}))
    case (Measure(_), Verified) => Some(At(w, id, Packed))
    case (Raise(_), stage) =>
      if stage.Packed? || stage.Committed? || stage.Done? || stage.Failed? then None else Some(At(w, id, Failed))
    case (Commit(_), Packed) => Some(At(w, id, Committed).(catalog := w.catalog[id := env.names.uri(zl)]))
    case (RemoveSource(_), Committed) => Some(At(w, id, Done).(files := w.files - {src}))
    case _ => None
  }

  predicate Finished<F>(j: Job<F>) { j.stage.Done? || j.stage.Failed? }

  function Step<C(!new), R(!new), F(==, !new)>(
      env: Env<C, R, F>, w: World<C, F>, a: Action<C>): Option<World<C, F>>
  {
    match a
    case Crash => Some(w.(jobs := map[]))
    case Rerun(ids) =>
      if (forall id | id in w.jobs :: Finished(w.jobs[id]))
        && (forall id | id in ids :: id in w.catalog && env.names.isSource(w.catalog[id]))
      then Some(w.(jobs := map id | id in ids :: Job(w.catalog[id], Queued)))
      else None
    case _ => if a.id in w.jobs then JobStep(env, w, a) else None
  }

  function Run<C(!new), R(!new), F(==, !new)>(
      env: Env<C, R, F>, start: World<C, F>, actions: seq<Action<C>>): Option<World<C, F>>
  {
    if |actions| == 0 then Some(start)
    else
      match Run(env, start, actions[..|actions| - 1])
      case None => None
      case Some(w) => Step(env, w, actions[|actions| - 1])
  }

  // ---- safety ----

  /** Each catalog row names an existing file with the row's original rows. */
  ghost predicate Safe<C(!new), R(!new), F(!new)>(env: Env<C, R, F>, w: World<C, F>, truth: map<int, seq<R>>) {
    forall id | id in w.catalog :: id in truth && ReadRows(env, w.files, w.catalog[id]) == Some(truth[id])
  }

  /** Rows name distinct files; sources end in .parquet, and their archive names are not in use by other rows. */
  ghost predicate NamesApart(names: Names, catalog: map<int, string>) {
    && (forall i, k | i in catalog && k in catalog && i != k :: names.file(catalog[i]) != names.file(catalog[k]))
    && (forall i | i in catalog && names.isSource(catalog[i]) :: names.endsRight(catalog[i]))
    && (forall i, k | i in catalog && k in catalog && i != k && names.isSource(catalog[i]) ::
          names.archive(catalog[i]) != names.file(catalog[k]))
  }

  /** What each stage of a job has established. */
  ghost predicate JobOk<C(!new), R(!new), F(!new)>(
      env: Env<C, R, F>, w: World<C, F>, truth: map<int, seq<R>>, id: int, j: Job<F>)
  {
    && id in w.catalog && id in truth
    && env.names.isSource(j.src) && env.names.endsRight(j.src)
    && (match j.stage
        case Committed =>
          w.catalog[id] == env.Packed(j.src) && forall k | k in w.catalog :: env.names.file(w.catalog[k]) != j.src
        case Done => w.catalog[id] == env.Packed(j.src) && j.src !in w.files
        case SourceRead(a) => w.catalog[id] == j.src && a == env.fingerprint(truth[id])
        case BothRead(a, b) =>
          && w.catalog[id] == j.src && a == env.fingerprint(truth[id])
          && ReadRows(env, w.files, env.Packed(j.src)).Some?
          && b == env.fingerprint(ReadRows(env, w.files, env.Packed(j.src)).value)
        case _ =>
          && w.catalog[id] == j.src
          && (j.stage.Verified? || j.stage.Packed? ==>
                ReadRows(env, w.files, env.Packed(j.src)) == Some(truth[id])))
  }

  ghost predicate Inv<C(!new), R(!new), F(!new)>(env: Env<C, R, F>, w: World<C, F>, truth: map<int, seq<R>>) {
    && env.Lawful()
    && NamesApart(env.names, w.catalog)
    && Safe(env, w, truth)
    && (forall id | id in w.jobs :: JobOk(env, w, truth, id, w.jobs[id]))
  }

  lemma InitialInv<C(!new), R(!new), F(!new)>(env: Env<C, R, F>, w: World<C, F>, truth: map<int, seq<R>>)
    requires env.Lawful() && NamesApart(env.names, w.catalog) && Safe(env, w, truth) && w.jobs == map[]
    ensures Inv(env, w, truth)
  {
  }

  /** The archive a job is about to write is nobody's file and nobody else's archive. */
  lemma OwnArchive<C(!new), R(!new), F(!new)>(
      env: Env<C, R, F>, w: World<C, F>, truth: map<int, seq<R>>, id: int)
    requires Inv(env, w, truth) && id in w.jobs && w.catalog[id] == w.jobs[id].src
    ensures forall k | k in w.catalog :: env.names.file(w.catalog[k]) != env.names.archive(w.jobs[id].src)
    ensures forall k | k in w.jobs :: w.jobs[k].src != env.names.archive(w.jobs[id].src)
    ensures forall k | k in w.jobs && k != id :: env.names.archive(w.jobs[k].src) != env.names.archive(w.jobs[id].src)
  {
    hide ReadRows, Safe;
    var src := w.jobs[id].src;
    assert JobOk(env, w, truth, id, w.jobs[id]);
    forall k | k in w.jobs
      ensures w.jobs[k].src != env.names.archive(src)
      ensures k != id ==> env.names.archive(w.jobs[k].src) != env.names.archive(src)
    {
      assert JobOk(env, w, truth, k, w.jobs[k]);
      ArchivesApart(env.names, src, w.jobs[k].src);
      ArchivesApart(env.names, w.jobs[k].src, src);
    }
    ArchivesApart(env.names, src, src);
  }

  /** Changing one file that no row names and no other job packs into. */
  lemma FileStep<C(!new), R(!new), F(!new)>(
      env: Env<C, R, F>, w: World<C, F>, w': World<C, F>, truth: map<int, seq<R>>, id: int, file: string)
    requires Inv(env, w, truth) && id in w.jobs && id in w'.jobs
    requires w'.catalog == w.catalog && w'.files - {file} == w.files - {file}
    requires forall k | k in w.catalog :: env.names.file(w.catalog[k]) != file
    requires forall k | k in w.jobs && k != id :: env.names.archive(w.jobs[k].src) != file
    requires forall k | k in w.jobs && k != id :: w.jobs[k].src != file || file !in w'.files
    requires w'.jobs == w.jobs[id := w'.jobs[id]] && JobOk(env, w', truth, id, w'.jobs[id])
    ensures Inv(env, w', truth)
  {
    hide NamesApart;
    forall k | k in w.catalog
      ensures ReadRows(env, w'.files, w.catalog[k]) == ReadRows(env, w.files, w.catalog[k])
    {
      UntouchedKey(w.files, w'.files, file, env.names.file(w.catalog[k]));
    }
    forall k | k in w.jobs && k != id
      ensures JobOk(env, w', truth, k, w.jobs[k])
    {
      assert JobOk(env, w, truth, k, w.jobs[k]);
      var path := env.Packed(w.jobs[k].src);
      FileOfArchive(env, w.jobs[k].src);
      UntouchedKey(w.files, w'.files, file, env.names.archive(w.jobs[k].src));
      if w.jobs[k].src != file {
        UntouchedKey(w.files, w'.files, file, w.jobs[k].src);
      }
    }
  }

  lemma FileOfArchive<C(!new), R(!new), F(!new)>(env: Env<C, R, F>, src: string)
    requires env.names.Lawful()
    ensures !env.names.isSource(env.Packed(src)) && env.names.file(env.Packed(src)) == env.names.archive(src)
  {
  }

  lemma WriteKeepsInv<C(!new), R(!new), F(!new)>(
      env: Env<C, R, F>, w: World<C, F>, a: Action<C>, truth: map<int, seq<R>>)
    requires Inv(env, w, truth) && Step(env, w, a).Some?
    requires a.WriteArchive? || a.Compare?
    ensures Inv(env, Step(env, w, a).value, truth)
  {
    hide NamesApart, ReadRows;
    var w' := Step(env, w, a).value;
    var zl := env.names.archive(w.jobs[a.id].src);
    assert JobOk(env, w, truth, a.id, w.jobs[a.id]);
    OwnArchive(env, w, truth, a.id);
    assert w'.files - {zl} == w.files - {zl};
    FileStep(env, w, w', truth, a.id, zl);
  }

  predicate MovesOn<C>(a: Action<C>) {
    a.Begin? || a.FinishCopy? || a.FingerprintSource? || a.FingerprintArchive? || a.Measure? || a.Raise?
  }

  lemma MovedJobOk<C(!new), R(!new), F(!new)>(
      env: Env<C, R, F>, w: World<C, F>, a: Action<C>, truth: map<int, seq<R>>)
    requires MovesOn(a) && Step(env, w, a).Some? && Safe(env, w, truth)
    requires JobOk(env, w, truth, a.id, w.jobs[a.id])
    ensures
      var w' := Step(env, w, a).value;
      && a.id in w'.jobs && w' == w.(jobs := w.jobs[a.id := w'.jobs[a.id]])
      && JobOk(env, w', truth, a.id, w'.jobs[a.id])
  {
  }

  /** A job is all right as long as files and catalog are the same. */
  lemma SameJobOk<C(!new), R(!new), F(!new)>(
      env: Env<C, R, F>, w: World<C, F>, w': World<C, F>, truth: map<int, seq<R>>, k: int, j: Job<F>)
    requires JobOk(env, w, truth, k, j) && w'.files == w.files && w'.catalog == w.catalog
    ensures JobOk(env, w', truth, k, j)
  {
    hide ReadRows;
  }

  /** Steps that only move a job from one stage to the next. */
  lemma StageKeepsInv<C(!new), R(!new), F(!new)>(
      env: Env<C, R, F>, w: World<C, F>, a: Action<C>, truth: map<int, seq<R>>)
    requires Inv(env, w, truth) && Step(env, w, a).Some? && MovesOn(a)
    ensures Inv(env, Step(env, w, a).value, truth)
  {
    var w' := Step(env, w, a).value;
    assert a.id in w.jobs;
    MovedJobOk(env, w, a, truth);
    hide NamesApart, Step, JobOk, Env.Lawful, ReadRows;
    forall k | k in w'.jobs
      ensures JobOk(env, w', truth, k, w'.jobs[k])
    {
      if k != a.id {
        SameJobOk(env, w, w', truth, k, w.jobs[k]);
      }
    }
  }

  lemma CommitKeepsNames(names: Names, catalog: map<int, string>, id: int)
    requires names.Lawful() && NamesApart(names, catalog) && id in catalog && names.isSource(catalog[id])
    ensures
      var catalog' := catalog[id := names.uri(names.archive(catalog[id]))];
      NamesApart(names, catalog') && forall k | k in catalog :: names.file(catalog'[k]) != catalog[id]
  {
    var src := catalog[id];
    ArchivesApart(names, src, src);
    forall i | i in catalog && i != id && names.isSource(catalog[i])
      ensures names.archive(catalog[i]) != names.archive(src)
    {
      ArchivesApart(names, catalog[i], src);
    }
  }

  /** The catalog row is switched to an archive that was read back to the original rows. */
  lemma CommitKeepsInv<C(!new), R(!new), F(!new)>(
      env: Env<C, R, F>, w: World<C, F>, a: Action<C>, truth: map<int, seq<R>>)
    requires Inv(env, w, truth) && Step(env, w, a).Some? && a.Commit?
    ensures Inv(env, Step(env, w, a).value, truth)
  {
    hide NamesApart, ReadRows;
    var w' := Step(env, w, a).value;
    var src := w.jobs[a.id].src;
    assert JobOk(env, w, truth, a.id, w.jobs[a.id]);
    CommitKeepsNames(env.names, w.catalog, a.id);
    OwnArchive(env, w, truth, a.id);
    FileOfArchive(env, src);
    assert w' == At(w, a.id, Committed).(catalog := w.catalog[a.id := env.Packed(src)]);
    hide Step, JobStep;
    assert JobOk(env, w', truth, a.id, w'.jobs[a.id]);
    forall k | k in w'.jobs && k != a.id
      ensures JobOk(env, w', truth, k, w'.jobs[k])
    {
      OtherJobUnaffected(env, w, w', truth, k, a.id);
    }
  }

  /** Switching another row to a file that is not this job's source leaves the job as it was. */
  lemma OtherJobUnaffected<C(!new), R(!new), F(!new)>(
      env: Env<C, R, F>, w: World<C, F>, w': World<C, F>, truth: map<int, seq<R>>, k: int, id: int)
    requires k in w.jobs && k != id && JobOk(env, w, truth, k, w.jobs[k])
    requires id in w'.catalog && w'.files == w.files && w'.catalog == w.catalog[id := w'.catalog[id]]
    requires env.names.file(w'.catalog[id]) != w.jobs[k].src
    ensures JobOk(env, w', truth, k, w.jobs[k])
  {
    hide ReadRows;
  }

  /** Only a source that no row names any more is deleted. */
  lemma RemoveKeepsInv<C(!new), R(!new), F(!new)>(
      env: Env<C, R, F>, w: World<C, F>, a: Action<C>, truth: map<int, seq<R>>)
    requires Inv(env, w, truth) && Step(env, w, a).Some? && a.RemoveSource?
    ensures Inv(env, Step(env, w, a).value, truth)
  {
    hide NamesApart, ReadRows;
    var w' := Step(env, w, a).value;
    var src := w.jobs[a.id].src;
    assert JobOk(env, w, truth, a.id, w.jobs[a.id]);
    forall k | k in w.jobs
      ensures env.names.archive(w.jobs[k].src) != src
    {
      assert JobOk(env, w, truth, k, w.jobs[k]);
      ArchivesApart(env.names, w.jobs[k].src, src);
    }
    assert w' == At(w, a.id, Done).(files := w.files - {src});
    hide Step, JobStep;
    assert w'.files - {src} == w.files - {src};
    assert JobOk(env, w', truth, a.id, w'.jobs[a.id]);
    FileStep(env, w, w', truth, a.id, src);
  }

  /** A row that names no archive names a parquet file. */
  lemma SourceEndsRight(names: Names, catalog: map<int, string>, id: int)
    requires NamesApart(names, catalog) && id in catalog && names.isSource(catalog[id])
    ensures names.endsRight(catalog[id])
  {
  }

  /** A crash forgets the jobs, a rerun queues new ones; neither has an effect on files or catalog. */
  lemma RestartKeepsInv<C(!new), R(!new), F(!new)>(
      env: Env<C, R, F>, w: World<C, F>, a: Action<C>, truth: map<int, seq<R>>)
    requires Inv(env, w, truth) && Step(env, w, a).Some? && (a.Crash? || a.Rerun?)
    ensures Inv(env, Step(env, w, a).value, truth)
  {
    hide ReadRows, NamesApart, JobStep;
    var w' := Step(env, w, a).value;
    forall id | id in w'.jobs
      ensures JobOk(env, w', truth, id, w'.jobs[id])
    {
      SourceEndsRight(env.names, w.catalog, id);
    }
  }

  lemma StepKeepsInv<C(!new), R(!new), F(!new)>(
      env: Env<C, R, F>, w: World<C, F>, a: Action<C>, truth: map<int, seq<R>>)
    requires Inv(env, w, truth) && Step(env, w, a).Some?
    ensures Inv(env, Step(env, w, a).value, truth)
  {
    hide Inv, Step;
    if a.Crash? || a.Rerun? {
      RestartKeepsInv(env, w, a, truth);
    } else if a.Commit? {
      CommitKeepsInv(env, w, a, truth);
    } else if a.RemoveSource? {
      RemoveKeepsInv(env, w, a, truth);
    } else if a.WriteArchive? || a.Compare? {
      WriteKeepsInv(env, w, a, truth);
    } else {
      StageKeepsInv(env, w, a, truth);
    }
  }

  lemma {:induction false} RunKeepsInv<C(!new), R(!new), F(!new)>(
      env: Env<C, R, F>, start: World<C, F>, truth: map<int, seq<R>>, actions: seq<Action<C>>)
    requires Inv(env, start, truth) && Run(env, start, actions).Some?
    ensures Inv(env, Run(env, start, actions).value, truth)
    ensures Run(env, start, actions).value.catalog.Keys == start.catalog.Keys
  {
    hide Inv, Step;
    if |actions| > 0 {
      var front, a := actions[..|actions| - 1], actions[|actions| - 1];
      RunKeepsInv(env, start, truth, front);
      StepKeepsInv(env, Run(env, start, front).value, a, truth);
      KeysStay(env, Run(env, start, front).value, a, truth);
    }
  }

  /** What the invariant says of the jobs that are through, whatever the names are. */
  lemma RunIsSafe<C(!new), R(!new), F(!new)>(
      env: Env<C, R, F>, start: World<C, F>, truth: map<int, seq<R>>, actions: seq<Action<C>>)
    requires Inv(env, start, truth) && Run(env, start, actions).Some?
    ensures
      var w := Run(env, start, actions).value;
      && Safe(env, w, truth)
      && w.catalog.Keys == start.catalog.Keys
      && (forall id | id in w.jobs && w.jobs[id].stage.Done? ::
            id in w.catalog && w.catalog[id] == env.Packed(w.jobs[id].src) && w.jobs[id].src !in w.files)
      && (forall id | id in w.jobs && w.jobs[id].stage.Failed? ::
            id in w.catalog && w.catalog[id] == w.jobs[id].src)
  {
    hide NamesApart, Safe, Run, ReadRows, Step, Env.Lawful;
    RunKeepsInv(env, start, truth, actions);
    var w := Run(env, start, actions).value;
    forall id | id in w.jobs
      ensures JobOk(env, w, truth, id, w.jobs[id])
    {
    }
  }

  /**
   * Repacking is crash-safe: in every state reachable by workers, the commit loop, crashes and reruns in any order,
   * each catalog row names an existing file with exactly the original rows. A finished job has its row on the archive
   * and its source gone; a failed one has its row where it was.
   */
  lemma RepackingIsCrashSafe<C(!new), R(!new), F(!new)>(
      env: Env<C, R, F>, start: World<C, F>, truth: map<int, seq<R>>, actions: seq<Action<C>>)
    requires env.names == SCRIPT && env.Injective()
    requires NamesApart(env.names, start.catalog) && Safe(env, start, truth) && start.jobs == map[]
    requires Run(env, start, actions).Some?
    ensures
      var w := Run(env, start, actions).value;
      && Safe(env, w, truth)
      && w.catalog.Keys == start.catalog.Keys
      && (forall id | id in w.jobs && w.jobs[id].stage.Done? ::
            id in w.catalog && w.catalog[id] == env.Packed(w.jobs[id].src) && w.jobs[id].src !in w.files)
      && (forall id | id in w.jobs && w.jobs[id].stage.Failed? ::
            id in w.catalog && w.catalog[id] == w.jobs[id].src)
  {
    hide NamesApart, Safe, Run, Env.Injective, Names.Lawful, Env.Packed, Inv;
    ScriptIsLawful();
    assert env.Lawful();
    InitialInv(env, start, truth);
    RunIsSafe(env, start, truth, actions);
  }

  lemma KeysStay<C(!new), R(!new), F(!new)>(
      env: Env<C, R, F>, w: World<C, F>, a: Action<C>, truth: map<int, seq<R>>)
    requires Inv(env, w, truth) && Step(env, w, a).Some?
    ensures Step(env, w, a).value.catalog.Keys == w.catalog.Keys
  {
    hide Safe, NamesApart, ReadRows;
    if a.Commit? {
      assert JobOk(env, w, truth, a.id, w.jobs[a.id]);
    }
  }

  // ---- progress ----

  /** The steps of a job for which everything goes well, the archive being written in one go. */
  function GoodJob<C>(id: int, contents: C): seq<Action<C>> {
    [Begin(id), WriteArchive(id, contents), FinishCopy(id), FingerprintSource(id), FingerprintArchive(id), Compare(id),
     Measure(id), Commit(id), RemoveSource(id)]
  }

  lemma OneMoreStep<C(!new), R(!new), F(!new)>(
      env: Env<C, R, F>, w: World<C, F>, actions: seq<Action<C>>, mid: World<C, F>, a: Action<C>, next: World<C, F>)
    requires Run(env, w, actions) == Some(mid) && Step(env, mid, a) == Some(next)
    ensures Run(env, w, actions + [a]) == Some(next)
  {
    hide Step;
    assert (actions + [a])[..|actions|] == actions;
  }

  /** The world with one job in another stage, and other files. */
  function With<C, F>(w: World<C, F>, id: int, stage: Stage<F>, files: map<string, C>): World<C, F>
    requires id in w.jobs
  {
    At(w, id, stage).(files := files)
  }

  lemma AtWith<C, F>(w: World<C, F>, id: int, s: Stage<F>, t: Stage<F>, files: map<string, C>)
    requires id in w.jobs
    ensures At(With(w, id, s, files), id, t) == With(w, id, t, files)
  {
    var j := w.jobs[id];
    assert w.jobs[id := j.(stage := s)][id := j.(stage := t)] == w.jobs[id := j.(stage := t)];
  }

  /** Once the archive is written, the worker's steps one by one. */
  lemma WorkerSteps<C(!new), R(!new), F(!new)>(
      env: Env<C, R, F>, w: World<C, F>, id: int, files: map<string, C>, rows: seq<R>)
    requires id in w.jobs
    requires ReadRows(env, files, w.jobs[id].src) == Some(rows) == ReadRows(env, files, env.Packed(w.jobs[id].src))
    ensures
      var mark := env.fingerprint(rows);
      && Step(env, With(w, id, Writing, files), FinishCopy(id)) == Some(With(w, id, Copied, files))
      && Step(env, With(w, id, Copied, files), FingerprintSource(id)) == Some(With(w, id, SourceRead(mark), files))
      && Step(env, With(w, id, SourceRead(mark), files), FingerprintArchive(id))
         == Some(With(w, id, BothRead(mark, mark), files))
      && Step(env, With(w, id, BothRead(mark, mark), files), Compare(id)) == Some(With(w, id, Verified, files))
      && Step(env, With(w, id, Verified, files), Measure(id)) == Some(With(w, id, Stage.Packed, files))
  {
    var mark := env.fingerprint(rows);
    AtWith(w, id, Writing, Copied, files);
    AtWith(w, id, Copied, SourceRead(mark), files);
    AtWith(w, id, SourceRead(mark), BothRead(mark, mark), files);
    AtWith(w, id, BothRead(mark, mark), Verified, files);
    AtWith(w, id, Verified, Stage.Packed, files);
    hide ReadRows;
  }

  lemma BeginAndWrite<C(!new), R(!new), F(!new)>(env: Env<C, R, F>, w: World<C, F>, id: int, contents: C)
    requires id in w.jobs && w.jobs[id].stage == Queued
    ensures Step(env, w, Begin(id)) == Some(With(w, id, Writing, w.files))
    ensures
      var files := w.files[env.names.archive(w.jobs[id].src) := contents];
      Step(env, With(w, id, Writing, w.files), WriteArchive(id, contents)) == Some(With(w, id, Writing, files))
  {
    hide ReadRows;
  }

  /** What the worker's fingerprints are taken of, once the archive is written beside the source. */
  lemma SameRowsRead<C(!new), R(!new), F(!new)>(
      env: Env<C, R, F>, files: map<string, C>, src: string, contents: C, rows: seq<R>)
    requires env.names.Lawful() && env.names.isSource(src) && env.names.endsRight(src)
    requires ReadRows(env, files, src) == Some(rows) && env.archive(contents) == Some(rows)
    ensures
      var files' := files[env.names.archive(src) := contents];
      ReadRows(env, files', src) == Some(rows) == ReadRows(env, files', env.Packed(src))
  {
    ArchivesApart(env.names, src, src);
    FileOfArchive(env, src);
  }

  /** From the written archive to the verified one. */
  lemma VerificationSucceeds<C(!new), R(!new), F(!new)>(
      env: Env<C, R, F>, w: World<C, F>, id: int, files: map<string, C>, rows: seq<R>, start: World<C, F>,
      actions: seq<Action<C>>)
    requires id in w.jobs && Run(env, start, actions) == Some(With(w, id, Writing, files))
    requires ReadRows(env, files, w.jobs[id].src) == Some(rows) == ReadRows(env, files, env.Packed(w.jobs[id].src))
    ensures
      var steps := actions + [FinishCopy(id)] + [FingerprintSource(id)] + [FingerprintArchive(id)] + [Compare(id)];
      Run(env, start, steps + [Measure(id)]) == Some(With(w, id, Stage.Packed, files))
  {
    WorkerSteps(env, w, id, files, rows);
    hide ReadRows, Step, Run, With;
    var mark := env.fingerprint(rows);
    var copied, read := actions + [FinishCopy(id)], actions + [FinishCopy(id)] + [FingerprintSource(id)];
    OneMoreStep(env, start, actions, With(w, id, Writing, files), FinishCopy(id), With(w, id, Copied, files));
    OneMoreStep(env, start, copied, With(w, id, Copied, files), FingerprintSource(id),
                With(w, id, SourceRead(mark), files));
    OneMoreStep(env, start, read, With(w, id, SourceRead(mark), files), FingerprintArchive(id),
                With(w, id, Stage.BothRead(mark, mark), files));
    OneMoreStep(env, start, read + [FingerprintArchive(id)], With(w, id, Stage.BothRead(mark, mark), files),
                Compare(id), With(w, id, Verified, files));
    OneMoreStep(env, start, read + [FingerprintArchive(id)] + [Compare(id)], With(w, id, Verified, files), Measure(id),
                With(w, id, Stage.Packed, files));
  }

  lemma WritingSucceeds<C(!new), R(!new), F(!new)>(env: Env<C, R, F>, w: World<C, F>, id: int, contents: C)
    requires id in w.jobs && w.jobs[id].stage == Queued
    ensures
      var files := w.files[env.names.archive(w.jobs[id].src) := contents];
      Run(env, w, [] + [Begin(id)] + [WriteArchive(id, contents)]) == Some(With(w, id, Writing, files))
  {
    EmptyRun(env, w);
    BeginAndWrite(env, w, id, contents);
    hide Step, Run, With;
    var files := w.files[env.names.archive(w.jobs[id].src) := contents];
    OneMoreStep(env, w, [], w, Begin(id), With(w, id, Writing, w.files));
    OneMoreStep(env, w, [] + [Begin(id)], With(w, id, Writing, w.files), WriteArchive(id, contents),
                With(w, id, Writing, files));
  }

  lemma CommitAndRemove<C(!new), R(!new), F(!new)>(
      env: Env<C, R, F>, w: World<C, F>, id: int, files: map<string, C>)
    requires id in w.jobs
    ensures
      var src := w.jobs[id].src;
      var catalog := w.catalog[id := env.Packed(src)];
      && Step(env, With(w, id, Stage.Packed, files), Commit(id))
         == Some(With(w, id, Committed, files).(catalog := catalog))
      && Step(env, With(w, id, Committed, files).(catalog := catalog), RemoveSource(id))
         == Some(With(w, id, Done, files - {src}).(catalog := catalog))
  {
    AtWith(w, id, Stage.Packed, Committed, files);
    AtWith(w, id, Committed, Done, files);
    hide ReadRows;
  }

  /**
   * Packing does something: a readable source whose archive reads back as the same rows ends with its row on the
   * archive, the archive on disk, and the source gone.
   */
  lemma GoodJobPacks<C(!new), R(!new), F(!new)>(
      env: Env<C, R, F>, w: World<C, F>, id: int, contents: C, rows: seq<R>)
    requires env.names.Lawful() && id in w.jobs && w.jobs[id].stage == Queued
    requires env.names.isSource(w.jobs[id].src) && env.names.endsRight(w.jobs[id].src)
    requires ReadRows(env, w.files, w.jobs[id].src) == Some(rows) && env.archive(contents) == Some(rows)
    ensures
      var src := w.jobs[id].src;
      Run(env, w, GoodJob(id, contents))
      == Some(World(w.files[env.names.archive(src) := contents] - {src}, w.catalog[id := env.Packed(src)],
                    w.jobs[id := Job(src, Done)]))
  {
    hide Names.Lawful, Step, Run, ReadRows, With, GoodJob;
    var src := w.jobs[id].src;
    var files, catalog := w.files[env.names.archive(src) := contents], w.catalog[id := env.Packed(src)];
    var written := [] + [Begin(id)] + [WriteArchive(id, contents)];
    var steps := written + [FinishCopy(id)] + [FingerprintSource(id)] + [FingerprintArchive(id)] + [Compare(id)];
    WritingSucceeds(env, w, id, contents);
    SameRowsRead(env, w.files, src, contents, rows);
    VerificationSucceeds(env, w, id, files, rows, w, written);
    CommitAndRemove(env, w, id, files);
    var committed, done := With(w, id, Committed, files).(catalog := catalog),
                           With(w, id, Done, files - {src}).(catalog := catalog);
    OneMoreStep(env, w, steps + [Measure(id)], With(w, id, Stage.Packed, files), Commit(id), committed);
    OneMoreStep(env, w, steps + [Measure(id)] + [Commit(id)], committed, RemoveSource(id), done);
    StepsOfGoodJob(id, contents);
    EndOfGoodJob(w, id, files - {src}, catalog);
  }

  lemma StepsOfGoodJob<C>(id: int, contents: C)
    ensures
      var steps := [] + [Begin(id)] + [WriteArchive(id, contents)] + [FinishCopy(id)] + [FingerprintSource(id)]
                   + [FingerprintArchive(id)] + [Compare(id)];
      steps + [Measure(id)] + [Commit(id)] + [RemoveSource(id)] == GoodJob(id, contents)
  {
  }

  lemma EndOfGoodJob<C, F>(w: World<C, F>, id: int, files: map<string, C>, catalog: map<int, string>)
    requires id in w.jobs
    ensures With(w, id, Done, files).(catalog := catalog)
         == World(files, catalog, w.jobs[id := Job(w.jobs[id].src, Done)])
  {
  }

  /** Why a job fails in a step other than an exception: a read failed, or the archive holds other rows. */
  ghost predicate FailsFor<C(!new), R(!new), F(!new)>(env: Env<C, R, F>, w: World<C, F>, a: Action<C>, id: int)
    requires id in w.jobs
  {
    var j := w.jobs[id];
    || (a == FingerprintSource(id) && ReadRows(env, w.files, j.src).None?)
    || (a == FingerprintArchive(id) && ReadRows(env, w.files, env.Packed(j.src)).None?)
    || (a == Compare(id) && j.stage.BothRead? && j.stage.source != j.stage.packed)
  }

  /** Without an exception a job fails in a step exactly if it has such a reason; other rows remove the archive. */
  lemma FailureHasReason<C(!new), R(!new), F(!new)>(
      env: Env<C, R, F>, w: World<C, F>, a: Action<C>, id: int)
    requires Step(env, w, a).Some? && !a.Raise? && !a.Crash? && !a.Rerun?
    requires id in w.jobs && w.jobs[id].stage != Stage.Failed
    ensures
      var w' := Step(env, w, a).value;
      && id in w'.jobs
      && (w'.jobs[id].stage == Stage.Failed <==> FailsFor(env, w, a, id))
      && (a == Compare(id) && FailsFor(env, w, a, id) ==>
            w'.files == w.files - {env.names.archive(w.jobs[id].src)} && w'.catalog == w.catalog)
  {
    hide ReadRows;
  }

  /** Over whole runs: a job that ends failed without an exception had a reason in one of the steps. */
  lemma {:induction false} FailedRunHasReason<C(!new), R(!new), F(!new)>(
      env: Env<C, R, F>, w: World<C, F>, actions: seq<Action<C>>, id: int)
    returns (k: nat)
    requires Run(env, w, actions).Some? && id in w.jobs && w.jobs[id].stage != Stage.Failed
    requires forall i | 0 <= i < |actions| :: !actions[i].Crash? && !actions[i].Rerun? && actions[i] != Raise(id)
    requires id in Run(env, w, actions).value.jobs && Run(env, w, actions).value.jobs[id].stage == Stage.Failed
    ensures k < |actions| && Run(env, w, actions[..k]).Some? && id in Run(env, w, actions[..k]).value.jobs
    ensures FailsFor(env, Run(env, w, actions[..k]).value, actions[k], id)
  {
    var n := |actions| - 1;
    var front, a := actions[..n], actions[n];
    var before := Run(env, w, front).value;
    StepsKeepJobs(env, w, front);
    if before.jobs[id].stage == Stage.Failed {
      k := FailedRunHasReason(env, w, front, id);
      assert front[..k] == actions[..k];
    } else {
      k := n;
      if !a.Raise? {
        FailureHasReason(env, before, a, id);
      }
    }
  }

  // ---- the commit loop ----

  lemma {:induction false} RunConcat<C(!new), R(!new), F(!new)>(
      env: Env<C, R, F>, start: World<C, F>, front: seq<Action<C>>, rest: seq<Action<C>>)
    requires Run(env, start, front).Some?
    ensures Run(env, start, front + rest) == Run(env, Run(env, start, front).value, rest)
  {
    hide Step;
    if rest == [] {
      assert front + rest == front;
    } else {
      var n := |rest| - 1;
      assert (front + rest)[..|front| + n] == front + rest[..n];
      RunConcat(env, start, front, rest[..n]);
    }
  }

  /** The sum of `sizes` over the jobs in `ids` that are done. */
  function DoneSum<C, F>(w: World<C, F>, ids: seq<int>, sizes: map<int, nat>): nat {
    if |ids| == 0 then 0
    else
      var id := ids[|ids| - 1];
      DoneSum(w, ids[..|ids| - 1], sizes)
      + (if id in w.jobs && w.jobs[id].stage.Done? && id in sizes then sizes[id] else 0)
  }

  function DoneCount<C, F>(w: World<C, F>, ids: seq<int>): nat {
    if |ids| == 0 then 0
    else
      var id := ids[|ids| - 1];
      DoneCount(w, ids[..|ids| - 1]) + (if id in w.jobs && w.jobs[id].stage.Done? then 1 else 0)
  }

  /** The same jobs are done in both worlds, as far as `ids` goes. */
  ghost predicate SameJobs<C, F>(w: World<C, F>, w': World<C, F>, ids: seq<int>) {
    forall k | 0 <= k < |ids| :: ids[k] in w.jobs && ids[k] in w'.jobs && w'.jobs[ids[k]] == w.jobs[ids[k]]
  }

  lemma {:induction false} SameTotals<C, F>(w: World<C, F>, w': World<C, F>, ids: seq<int>)
    requires SameJobs(w, w', ids)
    ensures DoneCount(w', ids) == DoneCount(w, ids)
    ensures forall sizes :: DoneSum(w', ids, sizes) == DoneSum(w, ids, sizes)
  {
    if |ids| > 0 {
      SameTotals(w, w', ids[..|ids| - 1]);
    }
  }

  lemma EmptyRun<C(!new), R(!new), F(!new)>(env: Env<C, R, F>, start: World<C, F>)
    ensures Run(env, start, []) == Some(start)
  {
  }

  /**
   * One turn of the loop: the worker of job `id` has returned after the steps `before` of all workers, and other
   * workers take the steps `between` while the loop is between its two effects.
   */
  datatype Turn<C> = Turn(id: int, before: seq<Action<C>>, between: seq<Action<C>>)

  predicate ByWorkers<C>(actions: seq<Action<C>>) {
    forall k | 0 <= k < |actions| ::
      !actions[k].Commit? && !actions[k].RemoveSource? && !actions[k].Crash? && !actions[k].Rerun?
  }

  /** The effects of the loop itself on a job whose worker has returned, with the others' steps in between. */
  function TurnActions<C, F>(seen: World<C, F>, t: Turn<C>): seq<Action<C>>
    requires t.id in seen.jobs
  {
    if seen.jobs[t.id].stage.Packed? then [Commit(t.id)] + t.between + [RemoveSource(t.id)] else []
  }

  /** One turn, None when its steps are not possible or the worker has not returned yet. */
  function TurnStep<C(!new), R(!new), F(==, !new)>(
      env: Env<C, R, F>, w: World<C, F>, t: Turn<C>): Option<World<C, F>>
  {
    match Run(env, w, t.before)
    case None => None
    case Some(seen) =>
      if t.id !in seen.jobs || !(seen.jobs[t.id].stage.Packed? || seen.jobs[t.id].stage.Failed?) then None
      else Run(env, seen, TurnActions(seen, t))
  }

  function Turns<C(!new), R(!new), F(==, !new)>(
      env: Env<C, R, F>, start: World<C, F>, turns: seq<Turn<C>>): Option<World<C, F>>
  {
    if |turns| == 0 then Some(start)
    else
      match Turns(env, start, turns[..|turns| - 1])
      case None => None
      case Some(w) => TurnStep(env, w, turns[|turns| - 1])
  }

  lemma {:induction false} TurnsPrefix<C(!new), R(!new), F(!new)>(
      env: Env<C, R, F>, start: World<C, F>, turns: seq<Turn<C>>, n: nat)
    requires n <= |turns| && Turns(env, start, turns).Some?
    ensures Turns(env, start, turns[..n]).Some?
  {
    hide TurnStep;
    if n < |turns| {
      assert turns[..|turns| - 1][..n] == turns[..n];
      TurnsPrefix(env, start, turns[..|turns| - 1], n);
    } else {
      assert turns[..n] == turns;
    }
  }

  lemma {:induction false} RunPrefix<C(!new), R(!new), F(!new)>(
      env: Env<C, R, F>, start: World<C, F>, actions: seq<Action<C>>, n: nat)
    requires n <= |actions| && Run(env, start, actions).Some?
    ensures Run(env, start, actions[..n]).Some?
  {
    hide Step;
    if n < |actions| {
      assert actions[..|actions| - 1][..n] == actions[..n];
      RunPrefix(env, start, actions[..|actions| - 1], n);
    } else {
      assert actions[..n] == actions;
    }
  }

  predicate Settled<F>(j: Job<F>) { j.stage.Committed? || Finished(j) }

  /** Workers have nothing more to do for a job that is committed, done or failed. */
  lemma {:induction false} WorkersKeepSettled<C(!new), R(!new), F(!new)>(
      env: Env<C, R, F>, w: World<C, F>, actions: seq<Action<C>>, id: int)
    requires ByWorkers(actions) && Run(env, w, actions).Some?
    requires id in w.jobs && Settled(w.jobs[id])
    ensures id in Run(env, w, actions).value.jobs && Run(env, w, actions).value.jobs[id] == w.jobs[id]
  {
    hide ReadRows;
    if |actions| > 0 {
      var front, a := actions[..|actions| - 1], actions[|actions| - 1];
      WorkersKeepSettled(env, w, front, id);
      assert Step(env, Run(env, w, front).value, a).Some?;
    }
  }

  /** The loop's part of a turn: it switches the row, lets the others go on, and removes the source. */
  method CommitOne<C(!new), R(!new), F(==, !new)>(env: Env<C, R, F>, seen: World<C, F>, t: Turn<C>)
    returns (w: World<C, F>)
    requires t.id in seen.jobs && seen.jobs[t.id].stage.Packed? && ByWorkers(t.between)
    requires Run(env, seen, TurnActions(seen, t)).Some?
    ensures Some(w) == Run(env, seen, TurnActions(seen, t))
    ensures t.id in w.jobs && w.jobs[t.id] == seen.jobs[t.id].(stage := Done)
    ensures forall id | id in seen.jobs && id != t.id && Settled(seen.jobs[id]) ::
        id in w.jobs && w.jobs[id] == seen.jobs[id]
  {
    CommitThenRemove(env, seen, t);
    hide ReadRows, Run;
    w := At(seen, t.id, Committed).(catalog := seen.catalog[t.id := env.Packed(seen.jobs[t.id].src)]);
    ghost var mid := w;
    w := Run(env, w, t.between).value;
    forall id | id in mid.jobs && Settled(mid.jobs[id])
      ensures id in w.jobs && w.jobs[id] == mid.jobs[id]
    {
      WorkersKeepSettled(env, mid, t.between, id);
    }
    w := At(w, t.id, Done).(files := w.files - {w.jobs[t.id].src});
  }

  /** The run of a turn, taken apart. */
  lemma CommitThenRemove<C(!new), R(!new), F(!new)>(env: Env<C, R, F>, seen: World<C, F>, t: Turn<C>)
    requires t.id in seen.jobs && seen.jobs[t.id].stage.Packed?
    requires Run(env, seen, TurnActions(seen, t)).Some?
    ensures
      var mid := Step(env, seen, Commit(t.id));
      && mid.Some? && Run(env, mid.value, t.between).Some?
      && Run(env, seen, TurnActions(seen, t)) == Step(env, Run(env, mid.value, t.between).value, RemoveSource(t.id))
  {
    hide Step;
    var actions, n := TurnActions(seen, t), |t.between|;
    var commit: seq<Action<C>> := [Commit(t.id)];
    assert commit[..0] == [];
    assert actions[..1 + n] == [Commit(t.id)] + t.between;
    assert actions[..1] == [Commit(t.id)];
    RunPrefix(env, seen, actions, 1);
    assert Run(env, seen, commit[..0]) == Some(seen);
    RunPrefix(env, seen, actions, 1 + n);
    RunConcat(env, seen, [Commit(t.id)], t.between);
  }

  lemma NothingToCommit<C(!new), R(!new), F(!new)>(env: Env<C, R, F>, seen: World<C, F>, t: Turn<C>)
    requires t.id in seen.jobs && !seen.jobs[t.id].stage.Packed?
    ensures Run(env, seen, TurnActions(seen, t)) == Some(seen)
  {
  }

  /** One turn, the workers' steps included. */
  method TakeTurn<C(!new), R(!new), F(==, !new)>(env: Env<C, R, F>, w: World<C, F>, t: Turn<C>)
    returns (w': World<C, F>, packed: bool)
    requires TurnStep(env, w, t).Some? && ByWorkers(t.before) && ByWorkers(t.between)
    ensures TurnStep(env, w, t) == Some(w')
    ensures t.id in w'.jobs && w'.jobs[t.id].stage == if packed then Done else Failed
    ensures forall id | id in w.jobs && id != t.id && Finished(w.jobs[id]) :: id in w'.jobs && w'.jobs[id] == w.jobs[id]
  {
    hide Run, TurnActions, ByWorkers;
    w' := Run(env, w, t.before).value;
    ghost var seen := w';
    forall id | id in w.jobs && Finished(w.jobs[id])
      ensures id in seen.jobs && seen.jobs[id] == w.jobs[id]
    {
      WorkersKeepSettled(env, w, t.before, id);
    }
    packed := w'.jobs[t.id].stage.Packed?;
    if packed {
      w' := CommitOne(env, w', t);
    } else {
      NothingToCommit(env, seen, t);
    }
  }

  function Ids<C>(turns: seq<Turn<C>>): (ids: seq<int>)
    ensures |ids| == |turns|
  {
    seq(|turns|, k requires 0 <= k < |turns| => turns[k].id)
  }

  /** Turns are steps of the machine. */
  lemma {:induction false} TurnsAreSteps<C(!new), R(!new), F(!new)>(
      env: Env<C, R, F>, start: World<C, F>, turns: seq<Turn<C>>)
    returns (actions: seq<Action<C>>)
    requires Turns(env, start, turns).Some?
    ensures Run(env, start, actions) == Turns(env, start, turns)
  {
    if turns == [] {
      EmptyRun(env, start);
      return [];
    }
    hide Run, TurnActions;
    var front, t := turns[..|turns| - 1], turns[|turns| - 1];
    actions := TurnsAreSteps(env, start, front);
    var w := Turns(env, start, front).value;
    var seen := Run(env, w, t.before).value;
    RunConcat(env, start, actions, t.before);
    RunConcat(env, start, actions + t.before, TurnActions(seen, t));
    actions := actions + t.before + TurnActions(seen, t);
  }

  /** Every job has one turn. */
  predicate TurnsApart<C>(turns: seq<Turn<C>>) {
    forall i, k | 0 <= i < k < |turns| :: turns[i].id != turns[k].id
  }

  /** Every job gets its turn. */
  ghost predicate TurnsCover<C>(turns: seq<Turn<C>>, ids: set<int>) {
    forall id | id in ids :: exists k :: 0 <= k < |turns| && turns[k].id == id
  }

  /** Without crashes and reruns the jobs stay the same ones. */
  lemma {:induction false} StepsKeepJobs<C(!new), R(!new), F(!new)>(
      env: Env<C, R, F>, w: World<C, F>, actions: seq<Action<C>>)
    requires Run(env, w, actions).Some?
    requires forall k | 0 <= k < |actions| :: !actions[k].Crash? && !actions[k].Rerun?
    ensures Run(env, w, actions).value.jobs.Keys == w.jobs.Keys
  {
    hide ReadRows;
    if |actions| > 0 {
      var front, a := actions[..|actions| - 1], actions[|actions| - 1];
      StepsKeepJobs(env, w, front);
      assert Step(env, Run(env, w, front).value, a).Some?;
    }
  }

  lemma {:induction false} TurnsKeepJobs<C(!new), R(!new), F(!new)>(
      env: Env<C, R, F>, start: World<C, F>, turns: seq<Turn<C>>)
    requires Turns(env, start, turns).Some?
    requires forall k | 0 <= k < |turns| :: ByWorkers(turns[k].before) && ByWorkers(turns[k].between)
    ensures Turns(env, start, turns).value.jobs.Keys == start.jobs.Keys
  {
    hide Run;
    if |turns| > 0 {
      var front, t := turns[..|turns| - 1], turns[|turns| - 1];
      TurnsKeepJobs(env, start, front);
      var w := Turns(env, start, front).value;
      var seen := Run(env, w, t.before).value;
      StepsKeepJobs(env, w, t.before);
      StepsKeepJobs(env, seen, TurnActions(seen, t));
    }
  }

  /** What the loop prints at the end: how many jobs are done and failed, and their sizes before and after. */
  datatype Totals = Totals(done: nat, failed: nat, before: nat, after: nat)

  /** The first n turns' jobs are done or failed, and the totals are theirs. */
  ghost predicate Accounted<C, F>(
      w: World<C, F>, turns: seq<Turn<C>>, n: nat, size: map<int, nat>, physical: map<int, nat>, t: Totals)
    requires n <= |turns|
  {
    var ids := Ids(turns[..n]);
    && (forall k | 0 <= k < n :: turns[k].id in w.jobs && Finished(w.jobs[turns[k].id]))
    && t.done + t.failed == n && t.done == DoneCount(w, ids)
    && t.before == DoneSum(w, ids, size) && t.after == DoneSum(w, ids, physical)
  }

  lemma OneMoreJob<C, F>(w: World<C, F>, ids: seq<int>, id: int, sizes: map<int, nat>)
    requires id in w.jobs && id in sizes
    ensures DoneCount(w, ids + [id]) == DoneCount(w, ids) + (if w.jobs[id].stage.Done? then 1 else 0)
    ensures DoneSum(w, ids + [id], sizes) == DoneSum(w, ids, sizes) + (if w.jobs[id].stage.Done? then sizes[id] else 0)
  {
    assert (ids + [id])[..|ids|] == ids;
  }

  lemma AccountedNext<C, F>(
      w: World<C, F>, w': World<C, F>, turns: seq<Turn<C>>, n: nat, size: map<int, nat>, physical: map<int, nat>,
      t: Totals)
    requires n < |turns| && Accounted(w, turns, n, size, physical, t)
    requires TurnsApart(turns)
    requires turns[n].id in w'.jobs && Finished(w'.jobs[turns[n].id]) && turns[n].id in size && turns[n].id in physical
    requires forall id | id in w.jobs && id != turns[n].id && Finished(w.jobs[id]) ::
        id in w'.jobs && w'.jobs[id] == w.jobs[id]
    ensures
      var id := turns[n].id;
      var t' := if w'.jobs[id].stage.Done?
                then Totals(t.done + 1, t.failed, t.before + size[id], t.after + physical[id])
                else t.(failed := t.failed + 1);
      Accounted(w', turns, n + 1, size, physical, t')
  {
    hide DoneCount, DoneSum;
    var ids, id := Ids(turns[..n]), turns[n].id;
    assert Ids(turns[..n + 1]) == ids + [id];
    assert SameJobs(w, w', ids);
    SameTotals(w, w', ids);
    OneMoreJob(w', ids, id, size);
    OneMoreJob(w', ids, id, physical);
  }

  /** Takes a turn and brings the totals up to date. */
  method AccountTurn<C(!new), R(!new), F(==, !new)>(
      env: Env<C, R, F>, w: World<C, F>, turns: seq<Turn<C>>, i: nat, size: map<int, nat>, physical: map<int, nat>,
      t: Totals)
    returns (w': World<C, F>, t': Totals)
    requires i < |turns| && TurnsApart(turns) && turns[i].id in size && turns[i].id in physical
    requires TurnStep(env, w, turns[i]).Some? && ByWorkers(turns[i].before) && ByWorkers(turns[i].between)
    requires Accounted(w, turns, i, size, physical, t)
    ensures TurnStep(env, w, turns[i]) == Some(w') && Accounted(w', turns, i + 1, size, physical, t')
  {
    hide TurnStep, ByWorkers, Accounted, TurnsApart, Finished;
    var id := turns[i].id;
    var packed;
    w', packed := TakeTurn(env, w, turns[i]);
    StageIsFinished(w'.jobs[id]);
    AccountedNext(w, w', turns, i, size, physical, t);
    if packed {
      t' := Totals(t.done + 1, t.failed, t.before + size[id], t.after + physical[id]);
    } else {
      t' := t.(failed := t.failed + 1);
    }
  }

  lemma TurnsNext<C(!new), R(!new), F(!new)>(
      env: Env<C, R, F>, start: World<C, F>, turns: seq<Turn<C>>, n: nat)
    requires n < |turns| && Turns(env, start, turns).Some?
    ensures
      var w := Turns(env, start, turns[..n]);
      w.Some? && TurnStep(env, w.value, turns[n]).Some?
      && Turns(env, start, turns[..n + 1]) == TurnStep(env, w.value, turns[n])
  {
    hide TurnStep;
    TurnsPrefix(env, start, turns, n + 1);
    assert turns[..n + 1][..n] == turns[..n];
  }

  /**
   * The loop over workers in order of completion, while the others go on: a packed file has its row switched and its
   * source removed, anything else is counted as failed. All that happens is a run of the machine above, so a crash
   * anywhere in it is covered; when the loop ends, every job is done or failed, and the totals cover exactly the done
   * ones.
   */
  method CommitLoop<C(!new), R(!new), F(==, !new)>(
      env: Env<C, R, F>, start: World<C, F>, turns: seq<Turn<C>>, size: map<int, nat>, physical: map<int, nat>)
    returns (w: World<C, F>, totals: Totals)
    requires Turns(env, start, turns).Some?
    requires forall k | 0 <= k < |turns| ::
        ByWorkers(turns[k].before) && ByWorkers(turns[k].between) && turns[k].id in size && turns[k].id in physical
    requires TurnsApart(turns) && TurnsCover(turns, start.jobs.Keys)
    ensures Turns(env, start, turns) == Some(w) && exists actions :: Run(env, start, actions) == Some(w)
    ensures w.jobs.Keys == start.jobs.Keys && forall id | id in w.jobs :: Finished(w.jobs[id])
    ensures
      var ids := Ids(turns);
      && totals.done + totals.failed == |turns| && totals.done == DoneCount(w, ids)
      && totals.before == DoneSum(w, ids, size) && totals.after == DoneSum(w, ids, physical)
  {
    w, totals := start, Totals(0, 0, 0, 0);
    assert Accounted(w, turns, 0, size, physical, totals);
    hide Run, TurnStep, ByWorkers, Accounted, Ids, DoneCount, DoneSum;
    for i := 0 to |turns|
      invariant Turns(env, start, turns[..i]) == Some(w)
      invariant Accounted(w, turns, i, size, physical, totals)
    {
      hide Turns, Finished, TurnsApart;
      TurnsNext(env, start, turns, i);
      w, totals := AccountTurn(env, w, turns, i, size, physical, totals);
    }
    AccountedForAll(w, turns, size, physical, totals);
    TurnsKeepJobs(env, start, turns);
    var _ := TurnsAreSteps(env, start, turns);
  }

  lemma StageIsFinished<F>(j: Job<F>)
    ensures Finished(j) <==> j.stage.Done? || j.stage.Failed?
  {
  }

  lemma AccountedForAll<C, F>(
      w: World<C, F>, turns: seq<Turn<C>>, size: map<int, nat>, physical: map<int, nat>, t: Totals)
    requires Accounted(w, turns, |turns|, size, physical, t)
    ensures turns[..|turns|] == turns
    ensures forall k | 0 <= k < |turns| :: turns[k].id in w.jobs && Finished(w.jobs[turns[k].id])
    ensures
      var ids := Ids(turns);
      && t.done + t.failed == |turns| && t.done == DoneCount(w, ids)
      && t.before == DoneSum(w, ids, size) && t.after == DoneSum(w, ids, physical)
  {
    assert turns[..|turns|] == turns;
  }
}
