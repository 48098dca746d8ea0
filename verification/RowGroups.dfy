// A concrete parquet-like writer and codec: rows are buffered locally and flushed in row groups, between two magics.
// They show that the assumptions on writers and codecs hold together, and that a COPY can produce an empty chunk.
module RowGroups {
  import opened Wrappers
  import opened Bytes
  import opened Container
  import opened OpenZL
  import opened Copy

  const PAR1: bytes := [80, 65, 82, 49]

  function RowGroupWriter(rowGroup: nat): Writer<bytes, bytes, byte> {
    Writer(
      [],
      [],
      (g: bytes, l: bytes, batch: bytes) => if |l + batch| < rowGroup then (g, l + batch) else (g + l + batch, []),
      (g: bytes, l: bytes) => g + l,
      (g: bytes) => PAR1 + g,
      (g: bytes) => PAR1 + g + PAR1,
      (b: bytes) => if |b| >= 8 then Some(b[4..|b| - 4]) else None,
      (g: bytes) => g,
      (l: bytes) => l)
  }

  function PrefixCodec(): Codec {
    Codec((g: Graph, b: bytes, t: nat) => Some([0] + b), (b: bytes) => if |b| > 0 then Some(b[1..]) else None)
  }

  function RowGroupBudget(rowGroup: nat, growth: nat): Budget<bytes, bytes> {
    Budget((g: bytes, l: bytes) => 4 + |g| + |l|, rowGroup, growth, 4)
  }

  lemma WriterIsLawful(rowGroup: nat)
    ensures RowGroupWriter(rowGroup).Lawful()
  {
    var w := RowGroupWriter(rowGroup);
    forall g: bytes, l: bytes, batch: bytes
      ensures w.rows(w.sink(g, l, batch).0) + w.pending(w.sink(g, l, batch).1) == w.rows(g) + w.pending(l) + batch
    {
      assert g + (l + batch) == g + l + batch == g + l + batch + [];
    }
    forall g: bytes
      ensures w.decode(w.finish(g)) == Some(w.rows(g))
    {
      assert (PAR1 + g + PAR1)[4..|g| + 4] == g;
    }
  }

  lemma CodecIsLawful()
    ensures PrefixCodec().Lawful()
  {
    forall b: bytes
      ensures ([0] + b)[1..] == b && !BeginsWithMagic([0] + b)
    {
      assert ([0] + b)[0] != MAGIC[0];
    }
  }

  /** Never more than a row group is waiting. */
  lemma {:induction false} PendingIsBounded(env: Env<bytes, bytes, byte>, rowGroup: nat, part: seq<bytes>)
    requires env.writer == RowGroupWriter(rowGroup)
    ensures |After(env, part).l| <= rowGroup
  {
    if |part| > 0 {
      PendingIsBounded(env, rowGroup, part[..|part| - 1]);
    }
  }

  /** The writer is lawful and keeps to a budget on batches of bounded size: both assumptions hold of it at once. */
  lemma LawfulAndBounded(env: Env<bytes, bytes, byte>, rowGroup: nat, batches: seq<bytes>, growth: nat)
    requires env.writer == RowGroupWriter(rowGroup) && forall batch | batch in batches :: |batch| <= growth
    ensures env.writer.Lawful() && Bounded(env, batches, RowGroupBudget(rowGroup, growth))
  {
    WriterIsLawful(rowGroup);
    forall part: seq<bytes> | Among(part, batches)
      ensures WithinBudget(env, After(env, part), RowGroupBudget(rowGroup, growth))
      ensures forall batch | batch in batches ::
          GrowsWithin(env, After(env, part), batch, RowGroupBudget(rowGroup, growth))
    {
      PendingIsBounded(env, rowGroup, part);
    }
  }

  function Longest(batches: seq<bytes>): (n: nat)
    ensures forall batch | batch in batches :: |batch| <= n
  {
    if |batches| == 0 then 0
    else
      assert batches == batches[..|batches| - 1] + [batches[|batches| - 1]];
      Max(Longest(batches[..|batches| - 1]), |batches[|batches| - 1]|)
  }

  /** No row group is held back, and a fresh file, which is just the magic, already reaches the chunk size. */
  function FullFreshFile(limit: nat): Env<bytes, bytes, byte> {
    Env.Env(RowGroupWriter(0), PrefixCodec(), Settings("", false, Parquet, 4, limit, false))
  }

  lemma FullFreshFileCopies(batches: seq<bytes>, growth: nat)
    requires forall batch | batch in batches :: |batch| <= growth
    ensures FullFreshFile(growth + 8).Lawful() && CopyAll(FullFreshFile(growth + 8), batches).Some?
  {
    hide CopyAll, Bounded, Furthest, Staged, Writer.Lawful, Codec.Lawful;
    var env := FullFreshFile(growth + 8);
    LawfulAndBounded(env, 0, batches, growth);
    CodecIsLawful();
    OnlyOpenZLRejects(env, batches, RowGroupBudget(0, growth));
  }

  /** Whatever the table, there is a COPY of it whose first chunk is empty: its chunk size is that of a fresh file. */
  lemma EmptyChunkHappens(batches: seq<bytes>)
    ensures exists env: Env<bytes, bytes, byte> ::
        env.Lawful() && CopyAll(env, batches).Some? && CopyAll(env, batches).value[0].batches == []
  {
    var env := FullFreshFile(Longest(batches) + 8);
    FullFreshFileCopies(batches, Longest(batches));
    hide Env.Lawful, CopyAll;
    ChunkShape(env, batches);
    if batches != [] {
      EmptyFirstChunk(env, batches);
    }
  }
}
