// COPY ... (FORMAT OPENZL) as a function of its batches: when chunks are cut, what each chunk holds, which frames
// come from the fallback, and how large a compress call can get. CopySink.dfy proves the sink's code against it.
module Copy {
  import opened Wrappers
  import opened Bytes
  import opened Container
  import opened OpenZL
  import opened ArchiveRead

  /**
   * DuckDB's parquet writer, with global state G, local state L and rows R. `file` is what the staging file holds,
   * `finish` what it holds once finalized, `decode` reads a parquet file. `rows` and `pending` say which rows the
   * states have taken in.
   */
  datatype Writer<!G(!new), !L(!new), !R(!new)> = Writer(
    freshGlobal: G,
    freshLocal: L,
    sink: (G, L, seq<R>) -> (G, L),
    combine: (G, L) -> G,
    file: G -> bytes,
    finish: G -> bytes,
    decode: bytes -> Option<seq<R>>,
    rows: G -> seq<R>,
    pending: L -> seq<R>)
  {
    ghost predicate Lawful() {
      && rows(freshGlobal) == [] && pending(freshLocal) == []
      && (forall g, l, batch ::
            rows(sink(g, l, batch).0) + pending(sink(g, l, batch).1) == rows(g) + pending(l) + batch)
      && (forall g, l :: rows(combine(g, l)) == rows(g) + pending(l))
      && (forall g :: decode(finish(g)) == Some(rows(g)))
    }
  }

  datatype Settings = Settings(
    trained: string, fallback: bool, profile: Graph, chunkSize: nat, limit: nat, inMemory: bool)
  {
    function Primary(): Graph { if trained == "" then profile else Trained(trained) }
  }

  datatype Env<!G(!new), !L(!new), !R(!new)> = Env(writer: Writer<G, L, R>, codec: Codec, settings: Settings)
  {
    ghost predicate Lawful() { writer.Lawful() && codec.Lawful() }
  }

  /** One finished chunk: the batches in it, its parquet bytes, its frame, and whether the generic graph was used. */
  datatype Chunk<R> = Chunk(batches: seq<seq<R>>, staged: bytes, frame: bytes, fellBack: bool)

  /** The chunk being staged. */
  datatype Open<G, L, R> = Open(g: G, l: L, batches: seq<seq<R>>)

  datatype Run<G, L, R> = Run(chunks: seq<Chunk<R>>, open: Open<G, L, R>)

  datatype Encoded = Encoded(frame: bytes, fellBack: bool)

  // ---- what COPY does ----

  function EncodeChunk(codec: Codec, s: Settings, staged: bytes, t: nat): Option<Encoded> {
    match codec.CompressBytes(s.Primary(), staged, s.limit, t)
    case Some(frame) => Some(Encoded(frame, false))
    case None =>
      if !s.fallback || s.trained == "" then None
      else
        match codec.CompressBytes(s.profile, staged, s.limit, t)
        case Some(frame) => Some(Encoded(frame, true))
        case None => None
  }

  function FreshChunk<G(!new), L(!new), R(!new)>(env: Env<G, L, R>): Open<G, L, R> {
    Open(env.writer.freshGlobal, env.writer.freshLocal, [])
  }

  function Receive<G(!new), L(!new), R(!new)>(env: Env<G, L, R>, open: Open<G, L, R>, batch: seq<R>): Open<G, L, R> {
    var (g, l) := env.writer.sink(open.g, open.l, batch);
    Open(g, l, open.batches + [batch])
  }

  /** The parquet bytes of the chunk if it were finished now: the input of the next compress call. */
  function Staged<G(!new), L(!new), R(!new)>(env: Env<G, L, R>, open: Open<G, L, R>): bytes {
    env.writer.finish(env.writer.combine(open.g, open.l))
  }

  function EndChunk<G(!new), L(!new), R(!new)>(env: Env<G, L, R>, run: Run<G, L, R>): Option<seq<Chunk<R>>> {
    match EncodeChunk(env.codec, env.settings, Staged(env, run.open), |run.chunks|)
    case None => None
    case Some(e) => Some(run.chunks + [Chunk(run.open.batches, Staged(env, run.open), e.frame, e.fellBack)])
  }

  predicate MustRotate<G(!new), L(!new), R(!new)>(env: Env<G, L, R>, open: Open<G, L, R>) {
    env.settings.chunkSize > 0 && |env.writer.file(open.g)| >= env.settings.chunkSize
  }

  function SinkBatch<G(!new), L(!new), R(!new)>(
      env: Env<G, L, R>, run: Run<G, L, R>, batch: seq<R>): Option<Run<G, L, R>>
  {
    if !MustRotate(env, run.open) then Some(run.(open := Receive(env, run.open, batch)))
    else
      match EndChunk(env, run)
      case None => None
      case Some(chunks) => Some(Run(chunks, Receive(env, FreshChunk(env), batch)))
  }

  function SinkAll<G(!new), L(!new), R(!new)>(env: Env<G, L, R>, batches: seq<seq<R>>): Option<Run<G, L, R>> {
    if |batches| == 0 then Some(Run([], FreshChunk(env)))
    else
      match SinkAll(env, batches[..|batches| - 1])
      case None => None
      case Some(run) => SinkBatch(env, run, batches[|batches| - 1])
  }

  /** The chunks of a COPY that returns normally. */
  function CopyAll<G(!new), L(!new), R(!new)>(env: Env<G, L, R>, batches: seq<seq<R>>): Option<seq<Chunk<R>>> {
    match SinkAll(env, batches)
    case None => None
    case Some(run) => EndChunk(env, run)
  }

  /** How far a COPY gets: all the sink calls, or those before the first that fails. */
  function Furthest<G(!new), L(!new), R(!new)>(env: Env<G, L, R>, batches: seq<seq<R>>): (run: Run<G, L, R>)
    ensures SinkAll(env, batches).Some? ==> run == SinkAll(env, batches).value
  {
    if |batches| == 0 then Run([], FreshChunk(env))
    else
      var front := batches[..|batches| - 1];
      match SinkAll(env, batches)
      case Some(run) => run
      case None => Furthest(env, front)
  }

  function FramesOf<R>(chunks: seq<Chunk<R>>): (frames: seq<bytes>)
    ensures |frames| == |chunks|
  {
    seq(|chunks|, i requires 0 <= i < |chunks| => chunks[i].frame)
  }

  function BatchesOf<R>(chunks: seq<Chunk<R>>): seq<seq<R>> {
    if |chunks| == 0 then [] else BatchesOf(chunks[..|chunks| - 1]) + chunks[|chunks| - 1].batches
  }

  /** A COPY gets to the state after some prefix of the batches, and fails exactly if ending the chunk there fails. */
  lemma {:induction false} FurthestDecides<G(!new), L(!new), R(!new)>(env: Env<G, L, R>, batches: seq<seq<R>>)
    returns (n: nat)
    ensures n <= |batches| && SinkAll(env, batches[..n]) == Some(Furthest(env, batches))
    ensures CopyAll(env, batches).None? <==> EndChunk(env, Furthest(env, batches)).None?
  {
    hide EndChunk;
    n := |batches|;
    assert batches[..n] == batches;
    if SinkAll(env, batches).None? {
      var front := batches[..n - 1];
      n := FurthestDecides(env, front);
      assert front[..n] == batches[..n];
      assert SinkAll(env, front).Some? ==> SinkBatch(env, Furthest(env, front), batches[|batches| - 1]).None?;
    }
  }

  // ---- conservation ----

  /** The frame decompresses to the staged bytes, and those decode to the rows of the chunk's batches. */
  ghost predicate Faithful<G(!new), L(!new), R(!new)>(env: Env<G, L, R>, c: Chunk<R>) {
    && env.codec.decompress(c.frame) == Some(c.staged)
    && env.writer.decode(c.staged) == Some(Concat(c.batches))
    && !BeginsWithMagic(c.frame)
  }

  /** Nothing is lost or reordered: archived batches, then the open chunk's, are the batches sunk so far. */
  ghost predicate Conserved<G(!new), L(!new), R(!new)>(
      env: Env<G, L, R>, run: Run<G, L, R>, batches: seq<seq<R>>)
  {
    && BatchesOf(run.chunks) + run.open.batches == batches
    && env.writer.rows(run.open.g) + env.writer.pending(run.open.l) == Concat(run.open.batches)
    && forall i | 0 <= i < |run.chunks| :: Faithful(env, run.chunks[i])
  }

  lemma EncodeChunkDecompresses<G(!new), L(!new), R(!new)>(env: Env<G, L, R>, staged: bytes, t: nat)
    requires env.Lawful() && EncodeChunk(env.codec, env.settings, staged, t).Some?
    ensures
      var frame := EncodeChunk(env.codec, env.settings, staged, t).value.frame;
      env.codec.decompress(frame) == Some(staged) && !BeginsWithMagic(frame)
  {
    hide BeginsWithMagic;
  }

  lemma StagedDecodes<G(!new), L(!new), R(!new)>(env: Env<G, L, R>, open: Open<G, L, R>)
    requires env.Lawful()
    ensures env.writer.decode(Staged(env, open)) == Some(env.writer.rows(open.g) + env.writer.pending(open.l))
  {
    assert env.writer.rows(env.writer.combine(open.g, open.l)) == env.writer.rows(open.g) + env.writer.pending(open.l);
  }

  lemma ReceiveConserves<G(!new), L(!new), R(!new)>(env: Env<G, L, R>, open: Open<G, L, R>, batch: seq<R>)
    requires env.Lawful()
    requires env.writer.rows(open.g) + env.writer.pending(open.l) == Concat(open.batches)
    ensures
      var open' := Receive(env, open, batch);
      env.writer.rows(open'.g) + env.writer.pending(open'.l) == Concat(open'.batches)
  {
    assert (open.batches + [batch])[..|open.batches|] == open.batches;
  }

  lemma EndChunkConserves<G(!new), L(!new), R(!new)>(env: Env<G, L, R>, run: Run<G, L, R>, batches: seq<seq<R>>)
    requires env.Lawful() && Conserved(env, run, batches)
    requires EndChunk(env, run).Some?
    ensures
      var chunks := EndChunk(env, run).value;
      && BatchesOf(chunks) == batches
      && forall i | 0 <= i < |chunks| :: Faithful(env, chunks[i])
  {
    hide BeginsWithMagic, EncodeChunk, Staged, Concat, Env.Lawful;
    EncodeChunkDecompresses(env, Staged(env, run.open), |run.chunks|);
    StagedDecodes(env, run.open);
    var chunks := EndChunk(env, run).value;
    assert chunks[..|run.chunks|] == run.chunks;
    assert Faithful(env, chunks[|run.chunks|]);
  }

  lemma FreshConserves<G(!new), L(!new), R(!new)>(env: Env<G, L, R>)
    requires env.Lawful()
    ensures
      var open := FreshChunk(env);
      env.writer.rows(open.g) + env.writer.pending(open.l) == Concat(open.batches)
  {
  }

  lemma SinkBatchConserves<G(!new), L(!new), R(!new)>(
      env: Env<G, L, R>, run: Run<G, L, R>, batches: seq<seq<R>>, batch: seq<R>)
    requires env.Lawful() && Conserved(env, run, batches)
    requires SinkBatch(env, run, batch).Some?
    ensures Conserved(env, SinkBatch(env, run, batch).value, batches + [batch])
  {
    hide Env.Lawful, Concat, Faithful, EndChunk;
    if MustRotate(env, run.open) {
      EndChunkConserves(env, run, batches);
      FreshConserves(env);
      ReceiveConserves(env, FreshChunk(env), batch);
    } else {
      ReceiveConserves(env, run.open, batch);
    }
  }

  /** The invariant of the sink, for every batch sequence, chunk size and failure pattern. */
  lemma {:induction false} SinkConserves<G(!new), L(!new), R(!new)>(env: Env<G, L, R>, batches: seq<seq<R>>)
    requires env.Lawful() && SinkAll(env, batches).Some?
    ensures Conserved(env, SinkAll(env, batches).value, batches)
  {
    hide Env.Lawful, Faithful, SinkBatch;
    if |batches| == 0 {
      FreshConserves(env);
    } else {
      var front, batch := batches[..|batches| - 1], batches[|batches| - 1];
      SinkConserves(env, front);
      SinkBatchConserves(env, SinkAll(env, front).value, front, batch);
      assert batches == front + [batch];
    }
  }

  lemma {:induction false} ConcatByChunk<R>(chunks: seq<Chunk<R>>, rows: seq<seq<R>>)
    requires |rows| == |chunks| && forall i | 0 <= i < |chunks| :: rows[i] == Concat(chunks[i].batches)
    ensures Concat(BatchesOf(chunks)) == Concat(rows)
  {
    if |chunks| > 0 {
      var n := |chunks| - 1;
      ConcatByChunk(chunks[..n], rows[..n]);
      ConcatAppend(BatchesOf(chunks[..n]), chunks[n].batches);
    }
  }

  /**
   * End to end: when COPY returns normally and the archive file holds its frames, reading the archive gives exactly
   * the rows sunk, in order.
   */
  lemma CopyThenRead<G(!new), L(!new), R(!new)>(
      env: Env<G, L, R>, batches: seq<seq<R>>, files: Files, archive: string)
    requires env.Lawful() && CopyAll(env, batches).Some?
    requires Paths.SplitChunkSuffix(archive).None?
    requires
      var frames := FramesOf(CopyAll(env, batches).value);
      && |frames| <= Decimal.Pow10(15)
      && frames != [] && |ArchiveFile(frames)| < TWO_TO_64
      && archive in files && files[archive] == ArchiveFile(frames)
    ensures CanHandle(Paths.SCHEME + archive)
    ensures ReadTable(env.codec, env.writer.decode, files, Paths.SCHEME + archive) == Some(Concat(batches))
  {
    hide Env.Lawful, Concat, EndChunk, ArchiveFile, ReadTable;
    SinkConserves(env, batches);
    EndChunkConserves(env, SinkAll(env, batches).value, batches);
    var chunks := CopyAll(env, batches).value;
    var rows := seq(|chunks|, i requires 0 <= i < |chunks| => Concat(chunks[i].batches));
    ConcatByChunk(chunks, rows);
    forall i | 0 <= i < |chunks|
      ensures Decodes(env.codec, env.writer.decode, FramesOf(chunks)[i], rows[i])
    {
      assert Faithful(env, chunks[i]);
    }
    ReadTableOfArchive(env.codec, env.writer.decode, files, archive, FramesOf(chunks), rows);
  }

  // ---- chunk shape ----

  lemma {:induction false} SinkShape<G(!new), L(!new), R(!new)>(env: Env<G, L, R>, batches: seq<seq<R>>)
    requires SinkAll(env, batches).Some?
    ensures
      var run := SinkAll(env, batches).value;
      && (env.settings.chunkSize == 0 ==> run.chunks == [])
      && (batches == [] ==> run.chunks == [])
      && (batches != [] ==> run.open.batches != [])
      && (run.open.batches == [] ==> run.open == FreshChunk(env))
      && (forall i | 0 <= i < |run.chunks| ::
            run.chunks[i].batches != []
            || (i == 0 && 0 < env.settings.chunkSize <= |env.writer.file(env.writer.freshGlobal)|))
  {
    if |batches| > 0 {
      SinkShape(env, batches[..|batches| - 1]);
    }
  }

  /**
   * An empty table gives one empty chunk, and no chunk after the first is ever empty (EmptyFirstChunk has the first).
   * Without a chunk size the archive is one plain frame.
   */
  lemma ChunkShape<G(!new), L(!new), R(!new)>(env: Env<G, L, R>, batches: seq<seq<R>>)
    requires CopyAll(env, batches).Some?
    ensures
      var chunks := CopyAll(env, batches).value;
      && |chunks| >= 1
      && (batches == [] ==> |chunks| == 1 && chunks[0].batches == [])
      && (env.settings.chunkSize == 0 ==> |chunks| == 1)
      && (forall i | 1 <= i < |chunks| :: chunks[i].batches != [])
  {
    SinkShape(env, batches);
  }

  predicate FreshFileIsFull<G(!new), L(!new), R(!new)>(env: Env<G, L, R>) { MustRotate(env, FreshChunk(env)) }

  /** An empty first chunk is finished by the first sink call, and stays. */
  lemma {:induction false} FullFreshFileIsFirstChunk<G(!new), L(!new), R(!new)>(env: Env<G, L, R>, batches: seq<seq<R>>)
    requires batches != [] && FreshFileIsFull(env) && SinkAll(env, batches).Some?
    ensures
      var chunks := SinkAll(env, batches).value.chunks;
      chunks != [] && chunks[0].batches == []
  {
    if |batches| > 1 {
      FullFreshFileIsFirstChunk(env, batches[..|batches| - 1]);
    } else {
      assert SinkAll(env, batches[..0]) == Some(Run([], FreshChunk(env)));
    }
  }

  /**
   * For every table with at least one batch: the first chunk is empty exactly when a fresh parquet file already reaches
   * the chunk size.
   */
  lemma EmptyFirstChunk<G(!new), L(!new), R(!new)>(env: Env<G, L, R>, batches: seq<seq<R>>)
    requires batches != [] && CopyAll(env, batches).Some?
    ensures CopyAll(env, batches).value[0].batches == []
       <==> 0 < env.settings.chunkSize <= |env.writer.file(env.writer.freshGlobal)|
  {
    SinkShape(env, batches);
    if FreshFileIsFull(env) {
      FullFreshFileIsFirstChunk(env, batches);
    }
  }

  /** Exactly when no chunk is empty: there is a batch, and a fresh file does not reach the chunk size yet. */
  lemma NoChunkIsEmpty<G(!new), L(!new), R(!new)>(env: Env<G, L, R>, batches: seq<seq<R>>)
    requires CopyAll(env, batches).Some?
    ensures
      var chunks := CopyAll(env, batches).value;
      (forall i | 0 <= i < |chunks| :: chunks[i].batches != []) <==> batches != [] && !FreshFileIsFull(env)
  {
    ChunkShape(env, batches);
    if batches != [] {
      EmptyFirstChunk(env, batches);
    }
  }

  /** What repacking relies on: chunk size 0 gives an archive that decompresses to the single staged parquet file. */
  lemma UnchunkedDecompresses<G(!new), L(!new), R(!new)>(env: Env<G, L, R>, batches: seq<seq<R>>)
    requires env.Lawful() && CopyAll(env, batches).Some? && env.settings.chunkSize == 0
    requires |CopyAll(env, batches).value[0].frame| < TWO_TO_64
    ensures
      var chunks := CopyAll(env, batches).value;
      && FramesOf(chunks) != []
      && env.codec.DecompressWhole(ArchiveFile(FramesOf(chunks))) == Some(chunks[0].staged)
      && env.writer.decode(chunks[0].staged) == Some(Concat(batches))
  {
    hide Env.Lawful, Concat, EndChunk;
    ChunkShape(env, batches);
    SinkConserves(env, batches);
    EndChunkConserves(env, SinkAll(env, batches).value, batches);
    var chunks := CopyAll(env, batches).value;
    assert Faithful(env, chunks[0]);
    assert chunks[..0] == [] && BatchesOf(chunks[..0]) == [];
    assert BatchesOf(chunks) == chunks[0].batches;
    ArchiveDecompresses(env.codec, FramesOf(chunks));
  }

  // ---- chunk size bound ----

  /** The chunk in which these batches, and no others, have been sunk. */
  function After<G(!new), L(!new), R(!new)>(env: Env<G, L, R>, batches: seq<seq<R>>): Open<G, L, R> {
    if |batches| == 0 then FreshChunk(env)
    else Receive(env, After(env, batches[..|batches| - 1]), batches[|batches| - 1])
  }

  /**
   * How large a chunk gets while it is written: `volume` counts its bytes, visible in the staged file or not. At most
   * `hidden` of them are not, one batch adds at most `growth`, and finishing adds at most `footer`.
   */
  datatype Budget<!G, !L> = Budget(volume: (G, L) -> nat, hidden: nat, growth: nat, footer: nat)

  ghost predicate WithinBudget<G(!new), L(!new), R(!new)>(env: Env<G, L, R>, open: Open<G, L, R>, b: Budget<G, L>) {
    && |env.writer.file(open.g)| <= b.volume(open.g, open.l) <= |env.writer.file(open.g)| + b.hidden
    && |Staged(env, open)| <= b.volume(open.g, open.l) + b.footer
  }

  ghost predicate GrowsWithin<G(!new), L(!new), R(!new)>(
      env: Env<G, L, R>, open: Open<G, L, R>, batch: seq<R>, b: Budget<G, L>)
  {
    var next := Receive(env, open, batch);
    b.volume(next.g, next.l) <= b.volume(open.g, open.l) + b.growth
  }

  /** The chunks that can be made of the batches of this COPY keep to the budget. */
  ghost predicate Bounded<G(!new), L(!new), R(!new)>(env: Env<G, L, R>, batches: seq<seq<R>>, b: Budget<G, L>) {
    forall part: seq<seq<R>> | Among(part, batches) ::
      && WithinBudget(env, After(env, part), b)
      && forall batch | batch in batches :: GrowsWithin(env, After(env, part), batch, b)
  }

  ghost predicate Among<T(!new)>(part: seq<T>, all: seq<T>) { forall x | x in part :: x in all }

  lemma BoundedPrefix<G(!new), L(!new), R(!new)>(
      env: Env<G, L, R>, batches: seq<seq<R>>, n: nat, b: Budget<G, L>)
    requires n <= |batches| && Bounded(env, batches, b)
    ensures Bounded(env, batches[..n], b)
  {
    hide WithinBudget, GrowsWithin, After;
    forall part: seq<seq<R>> | Among(part, batches[..n])
      ensures WithinBudget(env, After(env, part), b)
      ensures forall batch | batch in batches[..n] :: GrowsWithin(env, After(env, part), batch, b)
    {
      assert Among(part, batches);
    }
  }

  lemma AfterOneMore<G(!new), L(!new), R(!new)>(
      env: Env<G, L, R>, part: seq<seq<R>>, all: seq<seq<R>>, batch: seq<R>)
    requires Among(part, all)
    ensures After(env, part + [batch]) == Receive(env, After(env, part), batch)
    ensures Among(part + [batch], all + [batch]) && Among([batch], all + [batch]) && Among(part, all + [batch])
  {
    hide Receive;
    assert (part + [batch])[..|part|] == part;
  }

  /** A sink call adds the batch to the open chunk or to a fresh one. */
  lemma OpenAfterSink<G(!new), L(!new), R(!new)>(env: Env<G, L, R>, run: Run<G, L, R>, batch: seq<R>)
    requires SinkBatch(env, run, batch).Some?
    ensures
      var open := SinkBatch(env, run, batch).value.open;
      || (open == Receive(env, run.open, batch) && open.batches == run.open.batches + [batch])
      || (open == Receive(env, FreshChunk(env), batch) && open.batches == [] + [batch])
  {
    hide EndChunk;
  }

  /** The open chunk has taken in batches of this COPY only. */
  lemma {:induction false} OpenIsReached<G(!new), L(!new), R(!new)>(env: Env<G, L, R>, batches: seq<seq<R>>)
    requires SinkAll(env, batches).Some?
    ensures
      var open := SinkAll(env, batches).value.open;
      open == After(env, open.batches) && Among(open.batches, batches)
  {
    if |batches| > 0 {
      var front, batch := batches[..|batches| - 1], batches[|batches| - 1];
      OpenIsReached(env, front);
      assert batches == front + [batch];
      var run := SinkAll(env, front).value;
      OpenAfterSink(env, run, batch);
      assert After(env, []) == FreshChunk(env);
      hide SinkBatch, After, Receive, Among;
      AfterOneMore(env, run.open.batches, front, batch);
      AmongNone(front);
      AfterOneMore(env, [], front, batch);
    }
  }

  lemma AmongLonger<T(!new)>(part: seq<T>, all: seq<T>)
    requires all != [] && Among(part, all[..|all| - 1])
    ensures Among(part, all)
  {
  }

  lemma AmongNone<T(!new)>(all: seq<T>)
    ensures Among([], all)
  {
  }

  // ---- where chunks are cut ----

  /** The visible size of a chunk in which these batches have been sunk. */
  function SizeAfter<G(!new), L(!new), R(!new)>(env: Env<G, L, R>, batches: seq<seq<R>>): nat {
    |env.writer.file(After(env, batches).g)|
  }

  /** With the batches of a chunk taken in one by one, the chunk size is not reached before the last one. */
  ghost predicate NotFullBefore<G(!new), L(!new), R(!new)>(env: Env<G, L, R>, batches: seq<seq<R>>) {
    forall k | 1 <= k < |batches| ::
      env.settings.chunkSize == 0 || SizeAfter(env, batches[..k]) < env.settings.chunkSize
  }

  /** The chunk was cut because its size had been reached. */
  ghost predicate Full<G(!new), L(!new), R(!new)>(env: Env<G, L, R>, batches: seq<seq<R>>) {
    0 < env.settings.chunkSize <= SizeAfter(env, batches)
  }

  lemma NotFullBeforeNext<G(!new), L(!new), R(!new)>(env: Env<G, L, R>, batches: seq<seq<R>>, batch: seq<R>)
    requires NotFullBefore(env, batches)
    requires batches != [] ==> !Full(env, batches)
    ensures NotFullBefore(env, batches + [batch])
  {
    hide After;
    forall k | 1 <= k < |batches + [batch]|
      ensures env.settings.chunkSize == 0 || SizeAfter(env, (batches + [batch])[..k]) < env.settings.chunkSize
    {
      assert (batches + [batch])[..k] == batches[..k];
      assert k == |batches| ==> batches[..k] == batches;
    }
  }

  lemma {:induction false} SinkCuts<G(!new), L(!new), R(!new)>(env: Env<G, L, R>, batches: seq<seq<R>>)
    requires SinkAll(env, batches).Some?
    ensures
      var run := SinkAll(env, batches).value;
      && NotFullBefore(env, run.open.batches)
      && forall i | 0 <= i < |run.chunks| ::
           Full(env, run.chunks[i].batches) && NotFullBefore(env, run.chunks[i].batches)
  {
    if |batches| > 0 {
      var front, batch := batches[..|batches| - 1], batches[|batches| - 1];
      SinkCuts(env, front);
      OpenIsReached(env, front);
      var run := SinkAll(env, front).value;
      hide NotFullBefore, After, Receive, EncodeChunk, Staged;
      OpenAfterSink(env, run, batch);
      assert Full(env, run.open.batches) <==> MustRotate(env, run.open);
      if MustRotate(env, run.open) {
        NotFullBeforeNone(env);
        NotFullBeforeNext(env, [], batch);
      } else {
        NotFullBeforeNext(env, run.open.batches, batch);
      }
    }
  }

  lemma NotFullBeforeNone<G(!new), L(!new), R(!new)>(env: Env<G, L, R>)
    ensures NotFullBefore(env, [])
  {
  }

  /**
   * Chunks are cut exactly at the chunk size: every chunk but the last had reached it, and no chunk had reached it
   * before its last batch.
   */
  lemma CutsAreExact<G(!new), L(!new), R(!new)>(env: Env<G, L, R>, batches: seq<seq<R>>)
    requires CopyAll(env, batches).Some?
    ensures
      var chunks := CopyAll(env, batches).value;
      && (forall i | 0 <= i < |chunks| - 1 :: Full(env, chunks[i].batches))
      && (forall i, k | 0 <= i < |chunks| && 1 <= k < |chunks[i].batches| ::
            env.settings.chunkSize == 0 || SizeAfter(env, chunks[i].batches[..k]) < env.settings.chunkSize)
  {
    SinkCuts(env, batches);
    var run, chunks := SinkAll(env, batches).value, CopyAll(env, batches).value;
    assert |chunks| == |run.chunks| + 1 && chunks[..|run.chunks|] == run.chunks;
    assert chunks[|run.chunks|].batches == run.open.batches;
    hide After, SinkAll;
    forall i | 0 <= i < |chunks| - 1
      ensures Full(env, chunks[i].batches)
    {
      assert chunks[i] == run.chunks[i] && Full(env, run.chunks[i].batches);
    }
    forall i | 0 <= i < |chunks|
      ensures NotFullBefore(env, chunks[i].batches)
    {
      assert i < |run.chunks| ==> chunks[i] == run.chunks[i];
    }
  }

  /** Neither a fresh file nor any batches short of the whole table reach the chunk size. */
  ghost predicate FitsOneChunk<G(!new), L(!new), R(!new)>(env: Env<G, L, R>, batches: seq<seq<R>>) {
    forall k | 0 <= k < |batches| ::
      env.settings.chunkSize == 0 || SizeAfter(env, batches[..k]) < env.settings.chunkSize
  }

  lemma {:induction false} SinkWithoutCut<G(!new), L(!new), R(!new)>(env: Env<G, L, R>, batches: seq<seq<R>>)
    requires FitsOneChunk(env, batches)
    ensures SinkAll(env, batches) == Some(Run([], After(env, batches)))
    ensures After(env, batches).batches == batches
  {
    hide Receive;
    if |batches| > 0 {
      var n := |batches| - 1;
      assert forall k | 0 <= k < n :: batches[..n][..k] == batches[..k];
      SinkWithoutCut(env, batches[..n]);
      assert SizeAfter(env, batches[..n]) < env.settings.chunkSize || env.settings.chunkSize == 0;
      ReceiveAppends(env, After(env, batches[..n]), batches[n]);
    }
  }

  lemma ReceiveAppends<G(!new), L(!new), R(!new)>(env: Env<G, L, R>, open: Open<G, L, R>, batch: seq<R>)
    ensures Receive(env, open, batch).batches == open.batches + [batch]
  {
  }

  lemma {:induction false} SinkLosesNoBatch<G(!new), L(!new), R(!new)>(env: Env<G, L, R>, batches: seq<seq<R>>)
    requires SinkAll(env, batches).Some?
    ensures
      var run := SinkAll(env, batches).value;
      BatchesOf(run.chunks) + run.open.batches == batches
  {
    if |batches| > 0 {
      var front, batch := batches[..|batches| - 1], batches[|batches| - 1];
      SinkLosesNoBatch(env, front);
      var run, after := SinkAll(env, front).value, SinkAll(env, batches).value;
      assert batches == front + [batch];
      hide EncodeChunk, Staged;
      if MustRotate(env, run.open) {
        assert after.chunks[..|run.chunks|] == run.chunks && after.open.batches == [] + [batch];
      } else {
        assert after.chunks == run.chunks && after.open.batches == run.open.batches + [batch];
      }
    }
  }

  /** A table goes into one chunk if and only if no batches short of the whole table reach the chunk size. */
  lemma OneChunkExactly<G(!new), L(!new), R(!new)>(env: Env<G, L, R>, batches: seq<seq<R>>)
    requires CopyAll(env, batches).Some?
    ensures |CopyAll(env, batches).value| == 1 <==> FitsOneChunk(env, batches)
  {
    if FitsOneChunk(env, batches) {
      SinkWithoutCut(env, batches);
    }
    var run := SinkAll(env, batches).value;
    if |CopyAll(env, batches).value| == 1 {
      assert run.chunks == [];
      SinkLosesNoBatch(env, batches);
      SinkCuts(env, batches);
      assert run.open.batches == batches;
      if batches != [] && FreshFileIsFull(env) {
        FullFreshFileIsFirstChunk(env, batches);
      }
      assert batches[..0] == [] && After(env, []) == FreshChunk(env);
    }
  }

  /**
   * The archive can be decompressed as a whole, to a parquet file with all the rows, if and only if the table goes into
   * one chunk.
   */
  lemma DecompressesWholeExactly<G(!new), L(!new), R(!new)>(env: Env<G, L, R>, batches: seq<seq<R>>)
    requires env.Lawful() && CopyAll(env, batches).Some?
    requires
      var frames := FramesOf(CopyAll(env, batches).value);
      frames != [] ==> |ArchiveFile(frames)| < TWO_TO_64
    ensures
      var chunks := CopyAll(env, batches).value;
      && FramesOf(chunks) != []
      && (env.codec.DecompressWhole(ArchiveFile(FramesOf(chunks))).Some? <==> FitsOneChunk(env, batches))
      && (FitsOneChunk(env, batches) ==>
            var whole := env.codec.DecompressWhole(ArchiveFile(FramesOf(chunks))).value;
            env.writer.decode(whole) == Some(Concat(batches)))
  {
    hide Env.Lawful, Concat, EndChunk, FitsOneChunk;
    ChunkShape(env, batches);
    OneChunkExactly(env, batches);
    SinkConserves(env, batches);
    EndChunkConserves(env, SinkAll(env, batches).value, batches);
    var chunks := CopyAll(env, batches).value;
    forall i | 0 <= i < |chunks|
      ensures env.codec.decompress(FramesOf(chunks)[i]) == Some(chunks[i].staged)
      ensures !BeginsWithMagic(FramesOf(chunks)[i])
    {
      assert Faithful(env, chunks[i]);
    }
    ArchiveDecompresses(env.codec, FramesOf(chunks));
    if |chunks| == 1 {
      assert Faithful(env, chunks[0]) && chunks[..0] == [] && BatchesOf(chunks[..0]) == [];
      assert BatchesOf(chunks) == chunks[0].batches;
    }
  }

  function Max(a: int, b: int): int { if a >= b then a else b }

  function StageBound<G(!new), L(!new), R(!new)>(env: Env<G, L, R>, b: Budget<G, L>): int {
    Max(env.settings.chunkSize - 1, |env.writer.file(env.writer.freshGlobal)|) + b.hidden + b.growth
  }

  /** A sink call leaves the open chunk within the bound: either it was below the chunk size, or it is fresh. */
  lemma SinkWithinBound<G(!new), L(!new), R(!new)>(
      env: Env<G, L, R>, run: Run<G, L, R>, batch: seq<R>, b: Budget<G, L>)
    requires env.settings.chunkSize > 0 && SinkBatch(env, run, batch).Some?
    requires WithinBudget(env, run.open, b) && GrowsWithin(env, run.open, batch, b)
    requires WithinBudget(env, FreshChunk(env), b) && GrowsWithin(env, FreshChunk(env), batch, b)
    ensures
      var open := SinkBatch(env, run, batch).value.open;
      b.volume(open.g, open.l) <= StageBound(env, b)
  {
    hide EndChunk, Receive;
  }

  /** A sink call keeps the finished chunks, and may add the open one. */
  lemma ChunksAfterSink<G(!new), L(!new), R(!new)>(env: Env<G, L, R>, run: Run<G, L, R>, batch: seq<R>, i: nat)
    requires SinkBatch(env, run, batch).Some? && i < |SinkBatch(env, run, batch).value.chunks|
    ensures
      var chunks := SinkBatch(env, run, batch).value.chunks;
      (i < |run.chunks| && chunks[i] == run.chunks[i]) || chunks[i].staged == Staged(env, run.open)
  {
    hide Staged, Receive, EncodeChunk;
  }

  /** Every chunk's staged bytes, which are what its compress calls get, keep to the bound. */
  lemma {:induction false} VolumeBound<G(!new), L(!new), R(!new)>(
      env: Env<G, L, R>, batches: seq<seq<R>>, b: Budget<G, L>)
    requires Bounded(env, batches, b)
    requires env.settings.chunkSize > 0 && SinkAll(env, batches).Some?
    ensures
      var run := SinkAll(env, batches).value;
      && |Staged(env, run.open)| <= StageBound(env, b) + b.footer
      && forall i | 0 <= i < |run.chunks| :: |run.chunks[i].staged| <= StageBound(env, b) + b.footer
  {
    assert Among([], batches) && After(env, []) == FreshChunk(env);
    hide Bounded, WithinBudget, GrowsWithin, Staged, Receive, SinkBatch, StageBound, Among, After;
    OpenIsReached(env, batches);
    ReachedWithin(env, batches, [], b);
    ReachedWithin(env, batches, SinkAll(env, batches).value.open.batches, b);
    if |batches| == 0 {
      FreshWithinBound(env, b);
    } else {
      var front, batch := batches[..|batches| - 1], batches[|batches| - 1];
      BoundedPrefix(env, batches, |batches| - 1, b);
      VolumeBound(env, front, b);
      OpenIsReached(env, front);
      var before, after := SinkAll(env, front).value, SinkAll(env, batches).value;
      AmongLonger(before.open.batches, batches);
      ReachedWithin(env, batches, before.open.batches, b);
      SinkWithinBound(env, before, batch, b);
      StagedWithin(env, after.open, b);
      forall i | 0 <= i < |after.chunks|
        ensures |after.chunks[i].staged| <= StageBound(env, b) + b.footer
      {
        ChunksAfterSink(env, before, batch, i);
      }
    }
  }

  lemma ReachedWithin<G(!new), L(!new), R(!new)>(
      env: Env<G, L, R>, batches: seq<seq<R>>, part: seq<seq<R>>, b: Budget<G, L>)
    requires Bounded(env, batches, b) && Among(part, batches)
    ensures WithinBudget(env, After(env, part), b)
    ensures forall batch | batch in batches :: GrowsWithin(env, After(env, part), batch, b)
  {
  }

  lemma FreshWithinBound<G(!new), L(!new), R(!new)>(env: Env<G, L, R>, b: Budget<G, L>)
    requires WithinBudget(env, FreshChunk(env), b)
    ensures |Staged(env, FreshChunk(env))| <= StageBound(env, b) + b.footer
  {
    hide Staged;
  }

  lemma StagedWithin<G(!new), L(!new), R(!new)>(env: Env<G, L, R>, open: Open<G, L, R>, b: Budget<G, L>)
    requires WithinBudget(env, open, b) && b.volume(open.g, open.l) <= StageBound(env, b)
    ensures |Staged(env, open)| <= StageBound(env, b) + b.footer
  {
    hide Staged;
  }

  function WithLimit<G(!new), L(!new), R(!new)>(env: Env<G, L, R>, limit: nat): Env<G, L, R> {
    env.(settings := env.settings.(limit := limit))
  }

  /** Finishing a chunk within both limits does not depend on the limit. */
  lemma EndChunkWithinLimits<G(!new), L(!new), R(!new)>(env: Env<G, L, R>, run: Run<G, L, R>, limit: nat)
    requires |Staged(env, run.open)| <= env.settings.limit && |Staged(env, run.open)| <= limit
    ensures EndChunk(WithLimit(env, limit), run) == EndChunk(env, run)
  {
  }

  /**
   * The limit never rejects a chunk, however long the input and whichever compress calls fail: above the bound every
   * limit, so also one that no chunk of any COPY can reach, gives the same run, with the same failures and fallbacks.
   */
  lemma {:induction false} LimitNeverRejects<G(!new), L(!new), R(!new)>(
      env: Env<G, L, R>, batches: seq<seq<R>>, b: Budget<G, L>, limit: nat)
    requires Bounded(env, batches, b) && env.settings.chunkSize > 0
    requires env.settings.limit >= StageBound(env, b) + b.footer
    requires limit >= StageBound(env, b) + b.footer
    ensures SinkAll(WithLimit(env, limit), batches) == SinkAll(env, batches)
    ensures CopyAll(WithLimit(env, limit), batches) == CopyAll(env, batches)
  {
    hide Bounded, EncodeChunk, Staged, StageBound, EndChunk;
    var other := WithLimit(env, limit);
    assert FreshChunk(other) == FreshChunk(env);
    if |batches| > 0 {
      var front, batch := batches[..|batches| - 1], batches[|batches| - 1];
      BoundedPrefix(env, batches, |batches| - 1, b);
      LimitNeverRejects(env, front, b, limit);
      if SinkAll(env, front).Some? {
        var run := SinkAll(env, front).value;
        VolumeBound(env, front, b);
        EndChunkWithinLimits(env, run, limit);
        assert SinkBatch(other, run, batch) == SinkBatch(env, run, batch);
      }
    }
    if SinkAll(env, batches).Some? {
      VolumeBound(env, batches, b);
      EndChunkWithinLimits(env, SinkAll(env, batches).value, limit);
    }
  }

  /**
   * Above the bound a COPY fails exactly if OpenZL itself rejects the chunk it got to, with the trained compressor and,
   * where the settings allow a retry, with the generic graph too.
   */
  lemma OnlyOpenZLRejects<G(!new), L(!new), R(!new)>(
      env: Env<G, L, R>, batches: seq<seq<R>>, b: Budget<G, L>)
    requires Bounded(env, batches, b) && env.settings.chunkSize > 0
    requires env.settings.limit >= StageBound(env, b) + b.footer
    ensures
      var run := Furthest(env, batches);
      var staged, t := Staged(env, run.open), |run.chunks|;
      CopyAll(env, batches).None?
      <==> MainFrame(env.codec, env.settings, staged, t).None?
           && (env.settings.fallback && env.settings.trained != "" ==>
                 env.codec.compress(env.settings.profile, staged, t).None?)
  {
    var n := FurthestDecides(env, batches);
    hide Bounded, StageBound, Staged;
    BoundedPrefix(env, batches, n, b);
    VolumeBound(env, batches[..n], b);
  }

  // ---- fallback accounting ----

  function Fallbacks<R>(chunks: seq<Chunk<R>>): nat {
    if |chunks| == 0 then 0
    else Fallbacks(chunks[..|chunks| - 1]) + (if chunks[|chunks| - 1].fellBack then 1 else 0)
  }

  /** What OpenZL makes of a chunk with the compressor the COPY was given: the trained one if there is one. */
  function MainFrame(codec: Codec, s: Settings, staged: bytes, t: nat): Option<bytes> {
    codec.compress(if s.trained == "" then s.profile else Trained(s.trained), staged, t)
  }

  /**
   * When a chunk has a frame, and which. A chunk over the limit has none. Without the fallback option, or without a
   * trained compressor, the frame is that of the one attempt; with both, the generic graph stands in for a trained
   * compressor that fails.
   */
  lemma EncodeChunkOutcome(codec: Codec, s: Settings, staged: bytes, t: nat)
    ensures |staged| > s.limit ==> EncodeChunk(codec, s, staged, t).None?
    ensures |staged| <= s.limit && (!s.fallback || s.trained == "") ==>
        var frame := MainFrame(codec, s, staged, t);
        EncodeChunk(codec, s, staged, t) == if frame.Some? then Some(Encoded(frame.value, false)) else None
    ensures |staged| <= s.limit && s.fallback && s.trained != "" ==>
        var frame, generic := codec.compress(Trained(s.trained), staged, t), codec.compress(s.profile, staged, t);
        EncodeChunk(codec, s, staged, t)
          == if frame.Some? then Some(Encoded(frame.value, false))
             else if generic.Some? then Some(Encoded(generic.value, true))
             else None
  {
  }

  /** Where chunk i's frame comes from. */
  predicate ProperlyEncoded<R>(codec: Codec, s: Settings, c: Chunk<R>, i: nat) {
    && |c.staged| <= s.limit
    && (c.fellBack <==> MainFrame(codec, s, c.staged, i).None?)
    && (c.fellBack ==>
          s.fallback && s.trained != "" && codec.compress(s.profile, c.staged, i) == Some(c.frame))
    && (!c.fellBack ==> MainFrame(codec, s, c.staged, i) == Some(c.frame))
  }

  lemma {:induction false} SinkEncodes<G(!new), L(!new), R(!new)>(env: Env<G, L, R>, batches: seq<seq<R>>)
    requires SinkAll(env, batches).Some?
    ensures
      var chunks := SinkAll(env, batches).value.chunks;
      forall i | 0 <= i < |chunks| :: ProperlyEncoded(env.codec, env.settings, chunks[i], i)
  {
    if |batches| > 0 {
      SinkEncodes(env, batches[..|batches| - 1]);
    }
  }

  /**
   * A chunk falls back exactly when the trained compressor fails on it; its frame is then the generic one. Without
   * the option or without a trained compressor no chunk falls back.
   */
  lemma FallbackAccounting<G(!new), L(!new), R(!new)>(env: Env<G, L, R>, batches: seq<seq<R>>)
    requires CopyAll(env, batches).Some?
    ensures
      var chunks := CopyAll(env, batches).value;
      && (forall i | 0 <= i < |chunks| :: ProperlyEncoded(env.codec, env.settings, chunks[i], i))
      && (!env.settings.fallback || env.settings.trained == "" ==> Fallbacks(chunks) == 0)
  {
    SinkEncodes(env, batches);
    var chunks := CopyAll(env, batches).value;
    if !env.settings.fallback || env.settings.trained == "" {
      NoFallbacks(chunks);
    }
  }

  /**
   * Without the option or without a trained compressor, a COPY fails as soon as the one attempt on a chunk does: at the
   * chunk it got to, the staged bytes are over the limit or have no frame.
   */
  lemma NoSecondAttempt<G(!new), L(!new), R(!new)>(env: Env<G, L, R>, batches: seq<seq<R>>)
    requires !env.settings.fallback || env.settings.trained == ""
    ensures
      var run := Furthest(env, batches);
      var staged := Staged(env, run.open);
      CopyAll(env, batches).None?
      <==> |staged| > env.settings.limit || MainFrame(env.codec, env.settings, staged, |run.chunks|).None?
  {
    var _ := FurthestDecides(env, batches);
    var run := Furthest(env, batches);
    EncodeChunkOutcome(env.codec, env.settings, Staged(env, run.open), |run.chunks|);
  }

  lemma {:induction false} NoFallbacks<R>(chunks: seq<Chunk<R>>)
    requires forall c | c in chunks :: !c.fellBack
    ensures Fallbacks(chunks) == 0
  {
    if |chunks| > 0 {
      NoFallbacks(chunks[..|chunks| - 1]);
    }
  }
}
