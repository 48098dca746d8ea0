// The COPY function's global and local state: the code that Copy.dfy specifies.
module CopySink {
  import opened Wrappers
  import opened Bytes
  import opened Container
  import opened OpenZL
  import opened LocalDisk
  import opened ArchiveWriter
  import opened ArchiveRead
  import opened Staging
  import opened Copy

  const STAGING_SUFFIX := ".openzl_staging.parquet"

  /** The files of a COPY that left nothing behind. */
  ghost function WithoutStaging(s: Settings, files: Files, path: string): Files {
    if s.inMemory then files else files - {path + STAGING_SUFFIX}
  }

  /** Counts generic retries over all COPYs. */
  class FallbackCounter {
    var chunks: nat

    constructor ()
      ensures chunks == 0
    {
      chunks := 0;
    }
  }

  /** One compress attempt and, where the settings allow, a second one, which is counted whether or not it works. */
  method CompressChunkWithFallback(codec: Codec, s: Settings, canonical: bytes, t: nat, counter: FallbackCounter)
    returns (frame: Option<bytes>)
    modifies counter
    ensures frame.Some? == EncodeChunk(codec, s, canonical, t).Some?
    ensures frame.Some? ==> frame.value == EncodeChunk(codec, s, canonical, t).value.frame
    ensures !s.fallback || s.trained == "" ==> counter.chunks == old(counter.chunks)
    ensures s.fallback && s.trained != "" ==>
        var failed := |canonical| > s.limit || codec.compress(Trained(s.trained), canonical, t).None?;
        counter.chunks == old(counter.chunks) + if failed then 1 else 0
  {
    frame := codec.CompressBytes(s.Primary(), canonical, s.limit, t);
    if frame.Some? {
      return;
    }
    if !s.fallback || s.trained == "" {
      return None;
    }
    counter.chunks := counter.chunks + 1;
    frame := codec.CompressBytes(s.profile, canonical, s.limit, t);
  }

  class CopySink<G(!new), L(!new), R(!new)> {
    const env: Env<G, L, R>
    const finalPath: string
    const registry: BufferFileSystem
    const disk: Disk
    const archive: ChunkedArchiveWriter
    const counter: FallbackCounter
    var tmpParquetPath: string
    var globalState: G
    var localState: L
    var chunkIndex: nat
    var chunkOpen: bool

    // The abstract run, whether the local rows have already been combined into the open chunk, the staging entries of
    // other COPYs, and the files when this COPY started.
    ghost var run: Run<G, L, R>
    ghost var combined: bool
    ghost var others: Buffers
    ghost const files0: Files

    function StagingPath(): string { finalPath + STAGING_SUFFIX }

    /** The disk apart from the staging file: untouched until a second chunk opens the archive. */
    ghost function ArchivedFiles(): Files
      reads archive
    {
      var base := WithoutStaging(env.settings, files0, finalPath);
      if |archive.frames| < 2 then base else base[finalPath := MAGIC + Concat(archive.frames)]
    }

    /** The archive holds the frames of the finished chunks. */
    ghost predicate ArchiveValid()
      reads this, archive, disk
    {
      && archive.disk == disk && archive.path == finalPath
      && archive.Valid() && !archive.finished
      && archive.frames == FramesOf(run.chunks)
      && chunkIndex == |run.chunks|
    }

    /** No path the counter will still generate is in use. */
    ghost predicate FreshPaths()
      reads this, registry
    {
      forall n: nat | registry.counter <= n < TWO_TO_64 :: BufferPath(n) !in others
    }

    /** Nothing is staged. */
    ghost predicate Unstaged()
      reads this, archive, disk, registry
    {
      && registry.buffers == others
      && disk.files == ArchivedFiles()
    }

    /** Nothing is staged, except perhaps a staging file left behind by an earlier process. */
    ghost predicate ReadyToStage()
      reads this, archive, disk, registry
    {
      && registry.buffers == others
      && (if env.settings.inMemory then disk.files else disk.files - {StagingPath()}) == ArchivedFiles()
    }

    /** The staging target, in memory or on disk, holds `contents` and nothing else has changed. */
    ghost predicate Stages(contents: bytes)
      reads this, archive, disk, registry
    {
      if env.settings.inMemory then
        && tmpParquetPath !in others
        && registry.buffers == others[tmpParquetPath := contents]
        && disk.files == ArchivedFiles()
      else
        && tmpParquetPath == StagingPath()
        && registry.buffers == others
        && disk.files == ArchivedFiles()[tmpParquetPath := contents]
    }

    /** The staging target is chosen, and nothing but its contents differs from the unstaged state. */
    ghost predicate Stageable()
      reads this, archive, disk, registry
    {
      if env.settings.inMemory then
        && tmpParquetPath !in others
        && registry.buffers - {tmpParquetPath} == others
        && disk.files == ArchivedFiles()
      else
        && tmpParquetPath == StagingPath()
        && registry.buffers == others
        && disk.files - {tmpParquetPath} == ArchivedFiles() - {tmpParquetPath}
    }

    ghost predicate Valid()
      reads this, archive, disk, registry
    {
      && ArchiveValid()
      && FreshPaths()
      && chunkOpen
      && localState == run.open.l
      && globalState == (if combined then env.writer.combine(run.open.g, run.open.l) else run.open.g)
      && Stages(env.writer.file(globalState))
    }

    /** A failed COPY: nothing is staged, and the archive is as the finished chunks left it. */
    ghost predicate Failed()
      reads this, archive, disk, registry
    {
      ArchiveValid() && Unstaged()
    }

    /** The first chunk is started, with its global and local writer state. */
    constructor (env: Env<G, L, R>, finalPath: string, registry: BufferFileSystem, disk: Disk, counter: FallbackCounter)
      requires registry.counter < TWO_TO_64 - 1
      requires forall n: nat | registry.counter <= n < TWO_TO_64 :: BufferPath(n) !in registry.buffers
      modifies registry, disk
      ensures Valid() && !combined && run == Run([], FreshChunk(env))
      ensures this.env == env && this.finalPath == finalPath && this.registry == registry && this.disk == disk
      ensures this.counter == counter && fresh(archive)
      ensures others == old(registry.buffers) && files0 == old(disk.files)
      ensures registry.counter <= old(registry.counter) + 1
    {
      this.env, this.finalPath, this.registry, this.disk, this.counter := env, finalPath, registry, disk, counter;
      archive := new ChunkedArchiveWriter(finalPath, disk);
      tmpParquetPath, chunkIndex, chunkOpen := "", 0, false;
      globalState, localState := env.writer.freshGlobal, env.writer.freshLocal;
      run, combined := Run([], FreshChunk(env)), false;
      others, files0 := registry.buffers, disk.files;
      new;
      assert FramesOf(run.chunks) == [];
      StartChunk();
    }

    /** What the parquet writer does to its output file. */
    method StageFile(contents: bytes)
      requires Stageable()
      modifies registry`buffers, disk
      ensures Stages(contents)
    {
      if env.settings.inMemory {
        registry.buffers := registry.buffers[tmpParquetPath := contents];
        assert registry.buffers == others[tmpParquetPath := contents];
      } else {
        ghost var was := disk.files;
        var _ := disk.WriteFile(tmpParquetPath, contents, false);
        assert disk.files == ArchivedFiles()[tmpParquetPath := contents] by {
          assert disk.files - {tmpParquetPath} == ArchivedFiles() - {tmpParquetPath};
          UpdatedKey(ArchivedFiles(), disk.files, tmpParquetPath, contents);
        }
      }
    }

    /** How much of the open chunk shows up in staging. */
    method StagedBytes() returns (size: nat)
      ensures Valid() ==> size == |env.writer.file(globalState)|
      ensures tmpParquetPath !in registry.buffers && tmpParquetPath !in disk.files ==> size == 0
    {
      if env.settings.inMemory {
        size := registry.PeekSize(tmpParquetPath);
      } else {
        size := if tmpParquetPath in disk.files then |disk.files[tmpParquetPath]| else 0;
      }
    }

    lemma UnstagedIsReady()
      requires Unstaged()
      ensures ReadyToStage()
    {
      assert StagingPath() != finalPath by { assert |StagingPath()| > |finalPath|; }
      assert ArchivedFiles() - {StagingPath()} == ArchivedFiles() || env.settings.inMemory;
    }

    /** Chooses the staging target: a path nobody uses, or the staging file with whatever it may hold. */
    method ChooseTarget()
      requires ArchiveValid() && FreshPaths() && ReadyToStage() && registry.counter < TWO_TO_64 - 1
      modifies this`tmpParquetPath, registry`counter
      ensures ArchiveValid() && FreshPaths() && Stageable()
      ensures registry.counter <= old(registry.counter) + 1
    {
      hide Concat, FramesOf, Container.Ranges, BufferPath, WithoutStaging;
      if env.settings.inMemory {
        tmpParquetPath := registry.GenerateUniquePath();
        assert registry.buffers - {tmpParquetPath} == others;
      } else {
        tmpParquetPath := finalPath + STAGING_SUFFIX;
        assert ArchivedFiles() - {tmpParquetPath} == ArchivedFiles();
      }
    }

    /** A fresh staging target and parquet writer state. */
    method StartChunk()
      requires ArchiveValid() && FreshPaths() && ReadyToStage() && registry.counter < TWO_TO_64 - 1
      modifies this`tmpParquetPath, this`globalState, this`localState, this`chunkOpen, this`run, this`combined,
               registry, disk
      ensures Valid() && !combined
      ensures run == old(run).(open := FreshChunk(env))
      ensures registry.counter <= old(registry.counter) + 1
    {
      hide Concat, FramesOf, Container.Ranges, BufferPath, WithoutStaging, ReadyToStage;
      ChooseTarget();
      globalState, localState := env.writer.freshGlobal, env.writer.freshLocal;
      run, combined, chunkOpen := run.(open := FreshChunk(env)), false, true;
      StageFile(env.writer.file(globalState));
    }

    /** Moves the local rows into the chunk. */
    method Combine()
      requires Valid() && !combined
      modifies this`globalState, this`combined, registry`buffers, disk
      ensures Valid() && combined && run == old(run)
    {
      globalState := env.writer.combine(globalState, localState);
      combined := true;
      StageFile(env.writer.file(globalState));
    }

    /** Takes the staged bytes away from where they are staged, or refuses an oversized staging file. */
    method TakeStaged(ghost contents: bytes) returns (r: Option<bytes>)
      requires ArchiveValid() && Stages(contents)
      modifies registry`buffers, disk
      ensures ArchiveValid() && Unstaged()
      ensures r == if env.settings.inMemory || |contents| <= env.settings.limit then Some(contents) else None
    {
      if env.settings.inMemory {
        r := registry.TakeBuffer(tmpParquetPath);
        assert others[tmpParquetPath := contents] - {tmpParquetPath} == others;
      } else {
        r := if |disk.files[tmpParquetPath]| > env.settings.limit then None else Some(disk.files[tmpParquetPath]);
        ghost var expected := ArchivedFiles();
        assert expected[tmpParquetPath := contents] - {tmpParquetPath} == expected by {
          assert tmpParquetPath !in expected by { assert |tmpParquetPath| > |finalPath|; }
        }
        disk.Remove(tmpParquetPath);
      }
    }

    /** Finalizes the parquet bytes, clears the staging area and compresses what was in it. */
    method CompressStaged() returns (frame: Option<bytes>)
      requires Valid() && combined
      modifies this`chunkOpen, registry`buffers, disk, counter
      ensures ArchiveValid() && Unstaged() && !chunkOpen
      ensures
        var encoded := EncodeChunk(env.codec, env.settings, Staged(env, run.open), |run.chunks|);
        frame == if encoded.Some? then Some(encoded.value.frame) else None
      ensures counter.chunks == old(counter.chunks) + Retries(env, run)
    {
      hide BufferPath;
      var finished := env.writer.finish(globalState);
      StageFile(finished);
      chunkOpen := false;
      var canonical := TakeStaged(finished);
      if canonical.None? {
        return None;
      }
      frame := CompressChunkWithFallback(env.codec, env.settings, canonical.value, chunkIndex, counter);
    }

    /** Appending a frame changes the archive's own path only. */
    lemma AppendedFiles(was: seq<bytes>)
      requires |archive.frames| == |was| + 1
      ensures
        var base := WithoutStaging(env.settings, files0, finalPath);
        var before := if |was| < 2 then base else base[finalPath := MAGIC + Concat(was)];
        ArchivedFiles() == if |archive.frames| == 1 then before else before[finalPath := MAGIC + Concat(archive.frames)]
    {
    }

    /** Turns the open chunk into the archive's next frame. */
    method EndChunk() returns (ok: bool)
      requires Valid() && combined
      modifies this`chunkOpen, this`chunkIndex, this`run, registry`buffers, disk, archive, counter
      ensures ArchiveValid() && Unstaged() && !chunkOpen
      ensures ok == Copy.EndChunk(env, old(run)).Some?
      ensures run == if ok then old(run).(chunks := Copy.EndChunk(env, old(run)).value) else old(run)
      ensures counter.chunks == old(counter.chunks) + Retries(env, old(run))
    {
      hide Concat, EncodeChunk, Staged, Retries, BufferPath, WithoutStaging, Container.Ranges;
      var frame := CompressStaged();
      if frame.None? {
        return false;
      }
      hide Stages, ArchivedFiles;
      archive.Append(frame.value);
      chunkIndex := chunkIndex + 1;
      run := run.(chunks := Copy.EndChunk(env, run).value);
      assert archive.frames == FramesOf(run.chunks);
      AppendedFiles(old(archive.frames));
      ok := true;
    }

    /** Ends the current chunk and starts the next one. */
    method Rotate() returns (ok: bool)
      requires Valid() && !combined && registry.counter < TWO_TO_64 - 1
      modifies this, registry, disk, archive, counter
      ensures ok == Copy.EndChunk(env, old(run)).Some?
      ensures ok ==> Valid() && !combined && run == Run(Copy.EndChunk(env, old(run)).value, FreshChunk(env))
      ensures !ok ==> Failed() && run == old(run)
      ensures others == old(others) && registry.counter <= old(registry.counter) + 1
      ensures counter.chunks == old(counter.chunks) + Retries(env, old(run))
    {
      hide Copy.EndChunk, Retries, FramesOf, ArchivedFiles, Stages;
      Combine();
      ok := EndChunk();
      if ok {
        UnstagedIsReady();
        StartChunk();
      }
    }

    /** Hands the rows to the parquet writer. */
    method Receive(batch: seq<R>)
      requires Valid() && !combined
      modifies this`globalState, this`localState, this`run, registry`buffers, disk
      ensures Valid() && !combined && run == old(run).(open := Copy.Receive(env, old(run).open, batch))
    {
      hide Concat, FramesOf, Container.Ranges, BufferPath, WithoutStaging;
      var (g, l) := env.writer.sink(globalState, localState, batch);
      globalState, localState := g, l;
      StageFile(env.writer.file(globalState));
      run := run.(open := Copy.Receive(env, run.open, batch));
    }

    /** One sink call: an open chunk that is already large enough is finished first, then the batch goes in. */
    method Sink(batch: seq<R>) returns (ok: bool)
      requires Valid() && !combined && registry.counter < TWO_TO_64 - 1
      modifies this, registry, disk, archive, counter
      ensures ok == SinkBatch(env, old(run), batch).Some?
      ensures ok ==> Valid() && !combined && run == SinkBatch(env, old(run), batch).value
      ensures !ok ==> Failed() && run == old(run)
      ensures others == old(others) && registry.counter <= old(registry.counter) + 1
      ensures counter.chunks == old(counter.chunks)
          + (if MustRotate(env, old(run).open) then Retries(env, old(run)) else 0)
    {
      hide Copy.EndChunk, Copy.Receive, Retries, FramesOf, ArchivedFiles, Stages;
      var staged := StagedBytes();
      if env.settings.chunkSize > 0 && staged >= env.settings.chunkSize {
        ok := Rotate();
        if !ok {
          return;
        }
      }
      Receive(batch);
      ok := true;
    }

    /**
     * What other COPYs may do to the shared registry between two calls on this one: change, add and take their own
     * entries and generate paths, but not touch this COPY's path or a path nobody has generated yet. The chunk in
     * progress and its staged bytes are as before, so the next call can go on.
     */
    method OthersMove(buffers: Buffers, generated: nat)
      requires Valid() && registry.counter + generated < TWO_TO_64
      requires env.settings.inMemory ==> tmpParquetPath !in buffers
      requires forall n: nat | registry.counter + generated <= n < TWO_TO_64 :: BufferPath(n) !in buffers
      modifies this`others, registry
      ensures Valid() && others == buffers && registry.counter == old(registry.counter) + generated
    {
      hide Concat, FramesOf, Container.Ranges, BufferPath, WithoutStaging;
      registry.buffers := if env.settings.inMemory then buffers[tmpParquetPath := registry.buffers[tmpParquetPath]]
                          else buffers;
      registry.counter := registry.counter + generated;
      others := buffers;
    }

    /** The sink calls of one COPY. */
    method SinkTable(batches: seq<seq<R>>) returns (ok: bool)
      requires Valid() && !combined && run == Run([], FreshChunk(env))
      requires registry.counter + |batches| < TWO_TO_64 - 1
      modifies this, registry, disk, archive, counter
      ensures ok == SinkAll(env, batches).Some?
      ensures ok ==> Valid() && !combined && run == SinkAll(env, batches).value
      ensures ok ==> counter.chunks == old(counter.chunks) + Fallbacks(run.chunks)
      ensures !ok ==> Failed() && run == Furthest(env, batches)
      ensures others == old(others)
      ensures !ok ==> counter.chunks == old(counter.chunks) + Fallbacks(run.chunks) + Retries(env, run)
    {
      assert Fallbacks<R>([]) == 0;
      hide SinkBatch, Fallbacks, Retries, Valid, Failed, Furthest;
      for i := 0 to |batches|
        invariant Valid() && !combined && SinkAll(env, batches[..i]) == Some(run)
        invariant others == old(others) && registry.counter <= old(registry.counter) + i
        invariant counter.chunks == old(counter.chunks) + Fallbacks(run.chunks)
      {
        assert batches[..i + 1][..i] == batches[..i];
        ghost var before := run;
        ok := Sink(batches[i]);
        if !ok {
          assert MustRotate(env, before.open) by { FailsOnlyWhenRotating(env, before, batches[i]); }
          FailedPrefix(env, batches, i + 1);
          return;
        }
        SinkCountsFallbacks(env, before, batches[i]);
      }
      assert batches[..|batches|] == batches;
      ok := true;
    }

    /** Finishes the last chunk, then the archive. */
    method Finalize() returns (ok: bool)
      requires Valid() && combined
      requires Copy.EndChunk(env, run).Some? ==>
          |ArchiveFile(FramesOf(Copy.EndChunk(env, run).value))| < TWO_TO_64
      modifies this, registry`buffers, disk, archive, counter
      ensures ok == Copy.EndChunk(env, old(run)).Some?
      ensures ok ==>
          var frames := FramesOf(Copy.EndChunk(env, old(run)).value);
          && registry.buffers == others
          && disk.files == WithoutStaging(env.settings, files0, finalPath)[finalPath := ArchiveFile(frames)]
      ensures !ok ==> Failed() && run == old(run)
      ensures others == old(others) && counter.chunks == old(counter.chunks) + Retries(env, old(run))
    {
      hide Retries, Container.ContainerFile, Concat, Container.Ranges, BufferPath, WithoutStaging;
      ok := EndChunk();
      if !ok {
        return;
      }
      assert archive.frames != [];
      hide Copy.EndChunk;
      ok := archive.Finish();
    }

    /** A failed COPY drops its partial archive, if a second chunk had opened one. */
    method Destroy()
      requires Failed()
      modifies archive, disk
      ensures
        var files := WithoutStaging(env.settings, files0, finalPath);
        disk.files == if |run.chunks| >= 2 then files - {finalPath} else files
      ensures registry.buffers == others
    {
      hide Concat;
      archive.Destroy();
    }

    /** One whole COPY: batches are sunk, local rows combined, the archive finished; a failure destroys the sink. */
    method WriteTable(batches: seq<seq<R>>) returns (ok: bool)
      requires Valid() && !combined && run == Run([], FreshChunk(env))
      requires registry.counter + |batches| < TWO_TO_64 - 1 && Addressable(env, batches)
      modifies this, registry, disk, archive, counter
      ensures ok == CopyAll(env, batches).Some?
      ensures registry.buffers == others == old(others)
      ensures ok ==>
          var frames := FramesOf(CopyAll(env, batches).value);
          && frames != []
          && disk.files == WithoutStaging(env.settings, files0, finalPath)[finalPath := ArchiveFile(frames)]
          && counter.chunks == old(counter.chunks) + Fallbacks(CopyAll(env, batches).value)
      ensures !ok ==>
          var last, files := Furthest(env, batches), WithoutStaging(env.settings, files0, finalPath);
          && disk.files == (if |last.chunks| >= 2 then files - {finalPath} else files)
          && counter.chunks == old(counter.chunks) + Fallbacks(last.chunks) + Retries(env, last)
    {
      hide SinkAll, Copy.EndChunk, Fallbacks, Retries, ArchiveFile, FramesOf, Valid, Failed, WithoutStaging, Furthest;
      if CopyAll(env, batches).Some? {
        ChunkShape(env, batches);
      }
      ok := SinkTable(batches);
      if ok {
        Combine();
        ghost var last := run;
        ok := Finalize();
        if ok {
          RetriesCountFallbacks(env, last);
        }
      }
      if !ok {
        Destroy();
      }
    }
  }

  /** How often finishing the open chunk counts a fallback: an oversized staging file fails before any attempt. */
  ghost function Retries<G(!new), L(!new), R(!new)>(env: Env<G, L, R>, run: Run<G, L, R>): nat {
    var s, staged := env.settings, Staged(env, run.open);
    if (s.inMemory || |staged| <= s.limit)
      && s.fallback && s.trained != ""
      && (|staged| > s.limit || env.codec.compress(Trained(s.trained), staged, |run.chunks|).None?)
    then 1 else 0
  }

  // ---- a whole COPY ----

  lemma FailsOnlyWhenRotating<G(!new), L(!new), R(!new)>(env: Env<G, L, R>, run: Run<G, L, R>, batch: seq<R>)
    ensures SinkBatch(env, run, batch).None? <==> MustRotate(env, run.open) && Copy.EndChunk(env, run).None?
  {
    hide Copy.EndChunk, Copy.Receive;
  }

  /** A COPY that fails on a prefix of its batches fails as a whole, and gets no further than that prefix. */
  lemma {:induction false} FailedPrefix<G(!new), L(!new), R(!new)>(env: Env<G, L, R>, batches: seq<seq<R>>, n: nat)
    requires n <= |batches| && SinkAll(env, batches[..n]).None?
    ensures SinkAll(env, batches).None? && Furthest(env, batches) == Furthest(env, batches[..n])
    ensures n > 0 && SinkAll(env, batches[..n - 1]).Some? ==>
        Furthest(env, batches) == SinkAll(env, batches[..n - 1]).value
  {
    if n < |batches| {
      assert batches[..|batches| - 1][..n] == batches[..n];
      FailedPrefix(env, batches[..|batches| - 1], n);
    } else {
      assert batches[..n] == batches;
    }
    if n > 0 {
      assert batches[..n][..n - 1] == batches[..n - 1];
    }
  }

  /** On success the counter moves by one exactly when the finished chunk fell back. */
  lemma RetriesCountFallbacks<G(!new), L(!new), R(!new)>(env: Env<G, L, R>, run: Run<G, L, R>)
    requires Copy.EndChunk(env, run).Some?
    ensures Fallbacks(Copy.EndChunk(env, run).value) == Fallbacks(run.chunks) + Retries(env, run)
  {
    var chunks := Copy.EndChunk(env, run).value;
    assert chunks[..|run.chunks|] == run.chunks;
  }

  lemma SinkCountsFallbacks<G(!new), L(!new), R(!new)>(env: Env<G, L, R>, run: Run<G, L, R>, batch: seq<R>)
    requires SinkBatch(env, run, batch).Some?
    ensures Fallbacks(SinkBatch(env, run, batch).value.chunks)
         == Fallbacks(run.chunks) + (if MustRotate(env, run.open) then Retries(env, run) else 0)
  {
    hide Fallbacks, Retries, Copy.EndChunk;
    if MustRotate(env, run.open) {
      RetriesCountFallbacks(env, run);
    }
  }

  /** Without the option or without a trained compressor nothing is counted, whether the COPY works or fails. */
  lemma NothingCounted<G(!new), L(!new), R(!new)>(env: Env<G, L, R>, batches: seq<seq<R>>)
    requires !env.settings.fallback || env.settings.trained == ""
    ensures Fallbacks(Furthest(env, batches).chunks) == 0 && Retries(env, Furthest(env, batches)) == 0
    ensures CopyAll(env, batches).Some? ==> Fallbacks(CopyAll(env, batches).value) == 0
  {
    hide Copy.EndChunk;
    if CopyAll(env, batches).Some? {
      FallbackAccounting(env, batches);
    }
    var n := FurthestDecides(env, batches);
    SinkEncodes(env, batches[..n]);
    NoFallbacks(Furthest(env, batches).chunks);
  }

  /** The archive stays below 2^64 bytes and its chunk numbers below 16 digits. */
  ghost predicate Addressable<G(!new), L(!new), R(!new)>(env: Env<G, L, R>, batches: seq<seq<R>>) {
    CopyAll(env, batches).Some? ==>
      var frames := FramesOf(CopyAll(env, batches).value);
      |frames| <= Decimal.Pow10(15) && (frames != [] ==> |ArchiveFile(frames)| < TWO_TO_64)
  }

  /**
   * COPY of a table, batch by batch. It returns normally exactly when Copy.CopyAll has a result. Then reading the
   * archive gives the rows back, the only file that changed is the archive, the staging registry is as before, and the
   * fallback counter has moved by the number of chunks whose trained attempt failed. Otherwise the archive path holds
   * nothing if two chunks were finished before the failure, and what it held before if not; the counter has also moved
   * for the failing chunk, if its generic retry was attempted.
   */
  method CopyTable<G(!new), L(!new), R(!new)>(
      env: Env<G, L, R>, path: string, batches: seq<seq<R>>,
      registry: BufferFileSystem, disk: Disk, counter: FallbackCounter)
    returns (ok: bool)
    requires env.Lawful() && Addressable(env, batches)
    requires Paths.SplitChunkSuffix(path).None?
    requires registry.counter + |batches| + 2 < TWO_TO_64
    requires forall n: nat | registry.counter <= n < TWO_TO_64 :: BufferPath(n) !in registry.buffers
    modifies registry, disk, counter
    ensures ok == CopyAll(env, batches).Some?
    ensures registry.buffers == old(registry.buffers)
    ensures ok ==>
        var frames := FramesOf(CopyAll(env, batches).value);
        && frames != []
        && disk.files == WithoutStaging(env.settings, old(disk.files), path)[path := ArchiveFile(frames)]
        && CanHandle(Paths.SCHEME + path)
        && ReadTable(env.codec, env.writer.decode, disk.files, Paths.SCHEME + path) == Some(Concat(batches))
        && counter.chunks == old(counter.chunks) + Fallbacks(CopyAll(env, batches).value)
    ensures !ok ==>
        var last, files := Furthest(env, batches), WithoutStaging(env.settings, old(disk.files), path);
        && disk.files == (if |last.chunks| >= 2 then files - {path} else files)
        && counter.chunks == old(counter.chunks) + Fallbacks(last.chunks) + Retries(env, last)
    ensures !env.settings.fallback || env.settings.trained == "" ==> counter.chunks == old(counter.chunks)
  {
    hide Furthest, Retries, CopyAll, FramesOf, Fallbacks, Concat, ReadTable, Env.Lawful, ArchiveFile, WithoutStaging;
    var sink := new CopySink(env, path, registry, disk, counter);
    ok := sink.WriteTable(batches);
    if !env.settings.fallback || env.settings.trained == "" {
      NothingCounted(env, batches);
    }
    if ok {
      CopyThenRead(env, batches, disk.files, path);
    }
  }
}
