// Reading archives through the openzl:// filesystem: path expansion, opening, and reading a whole table.
module ArchiveRead {
  import opened Wrappers
  import opened Bytes
  import opened Container
  import opened OpenZL
  import opened Decimal
  import opened Paths

  type Files = map<string, bytes>

  predicate CanHandle(path: string) {
    |path| >= |SCHEME| && path[..|SCHEME|] == SCHEME
  }

  function StripScheme(path: string): string
    requires CanHandle(path)
  {
    path[|SCHEME|..]
  }

  /** The archive file a path below openzl:// refers to. */
  function ArchiveOf(realPath: string): string {
    match SplitChunkSuffix(realPath)
    case Some(p) => p.archive
    case None => realPath
  }

  /** What opening `realPath` decompresses, given the contents of its archive. */
  function Decompressed(codec: Codec, realPath: string, contents: bytes): Option<bytes> {
    match SplitChunkSuffix(realPath)
    case Some(p) => codec.DecompressChunk(contents, p.chunk)
    case None => codec.DecompressWhole(contents)
  }

  /** Opening a path for reading, None when the code throws. */
  function OpenRead(codec: Codec, files: Files, path: string): Option<bytes>
    requires CanHandle(path)
  {
    var realPath := StripScheme(path);
    var archive := ArchiveOf(realPath);
    if archive in files then Decompressed(codec, realPath, files[archive]) else None
  }

  /** Expands a path to the paths a scan opens, None when the archive is corrupt. */
  function Glob(files: Files, path: string): Option<seq<string>>
    requires CanHandle(path)
  {
    var realPath := StripScheme(path);
    if SplitChunkSuffix(realPath).Some? || realPath !in files then Some([path])
    else
      match ReadIndex(files[realPath])
      case Plain => Some([path])
      case Chunks(ranges) => Some(seq(|ranges|, i requires 0 <= i < |ranges| => ChunkName(path, i)))
      case Corrupt(_) => None
  }

  /** Everything but a chunked archive expands to itself: single chunks, files that are missing, and plain frames. */
  lemma GlobKeepsPath(files: Files, path: string)
    requires CanHandle(path)
    requires
      var realPath := StripScheme(path);
      || SplitChunkSuffix(realPath).Some?
      || realPath !in files
      || |files[realPath]| < 24
      || files[realPath][..8] != MAGIC
    ensures Glob(files, path) == Some([path])
  {
  }

  /** Glob's loop over the index of a chunked archive. */
  method ExpandPath(files: Files, path: string) returns (r: Option<seq<string>>)
    requires CanHandle(path)
    requires forall p | p in files :: |files[p]| < TWO_TO_64
    ensures r == Glob(files, path)
  {
    var realPath := StripScheme(path);
    if SplitChunkSuffix(realPath).Some? || realPath !in files {
      return Some([path]);
    }
    var index := ReadContainerIndex(files[realPath]);
    if index.Corrupt? {
      return None;
    }
    if index.Plain? {
      return Some([path]);
    }
    var result: seq<string> := [];
    for i := 0 to |index.ranges|
      invariant |result| == i && forall k | 0 <= k < i :: result[k] == ChunkName(path, k)
    {
      assert path + MARKER + Print(i) == ChunkName(path, i);
      result := result + [path + MARKER + Print(i)];
    }
    assert result == seq(|index.ranges|, i requires 0 <= i < |index.ranges| => ChunkName(path, i));
    r := Some(result);
  }

  /** DecompressChunkToBuffer: reads the index, checks the chunk number, and decompresses that range of the file. */
  method DecompressChunkToBuffer(codec: Codec, file: bytes, chunk: nat) returns (r: Option<bytes>)
    requires |file| < TWO_TO_64
    ensures r == codec.DecompressChunk(file, chunk)
  {
    var index := ReadContainerIndex(file);
    if !index.Chunks? {
      return None;
    }
    if chunk >= |index.ranges| {
      return None;
    }
    RangesStayInside(file);
    r := codec.decompress(Slice(file, index.ranges[chunk]));
  }

  /** Opens every path and decodes its bytes to rows. */
  function ReadPaths<R>(
      codec: Codec, decode: bytes -> Option<seq<R>>, files: Files, paths: seq<string>): Option<seq<R>>
  {
    if |paths| == 0 then Some([])
    else
      var last := paths[|paths| - 1];
      match ReadPaths(codec, decode, files, paths[..|paths| - 1])
      case None => None
      case Some(rows) =>
        if !CanHandle(last) || OpenRead(codec, files, last).None? then None
        else
          match decode(OpenRead(codec, files, last).value)
          case None => None
          case Some(more) => Some(rows + more)
  }

  /** read_openzl: expand, open, decode, in order. */
  function ReadTable<R>(codec: Codec, decode: bytes -> Option<seq<R>>, files: Files, path: string): Option<seq<R>>
    requires CanHandle(path)
  {
    match Glob(files, path)
    case None => None
    case Some(paths) => ReadPaths(codec, decode, files, paths)
  }

  lemma ChunkNameBelowScheme(archive: string, i: nat)
    ensures CanHandle(SCHEME + archive) && StripScheme(SCHEME + archive) == archive
    ensures CanHandle(ChunkName(SCHEME + archive, i))
    ensures StripScheme(ChunkName(SCHEME + archive, i)) == ChunkName(archive, i)
  {
    assert ChunkName(SCHEME + archive, i) == SCHEME + ChunkName(archive, i);
  }

  /** A chunked archive expands to one distinct path per chunk, in order, each of which opens its own chunk. */
  lemma GlobOpensEveryChunk(codec: Codec, files: Files, archive: string, frames: seq<bytes>)
    requires SplitChunkSuffix(archive).None?
    requires |frames| > 1 && |ArchiveFile(frames)| < TWO_TO_64 && |frames| <= Pow10(15)
    requires forall i | 0 <= i < |frames| :: !BeginsWithMagic(frames[i])
    requires archive in files && files[archive] == ArchiveFile(frames)
    ensures CanHandle(SCHEME + archive)
    ensures
      var paths := Glob(files, SCHEME + archive);
      && paths.Some? && |paths.value| == |frames|
      && (forall i, j | 0 <= i < j < |frames| :: paths.value[i] != paths.value[j])
      && (forall i | 0 <= i < |frames| ::
            && CanHandle(paths.value[i])
            && OpenRead(codec, files, paths.value[i]) == codec.decompress(frames[i]))
  {
    hide Concat, Pow10, CanHandle, StripScheme, SplitChunkSuffix, ReadIndex;
    ArchiveDecompresses(codec, frames);
    ContainerRoundTrip(frames);
    ChunkNameBelowScheme(archive, 0);
    var paths := Glob(files, SCHEME + archive).value;
    forall i | 0 <= i < |frames|
      ensures CanHandle(paths[i]) && OpenRead(codec, files, paths[i]) == codec.decompress(frames[i])
    {
      ChunkNameBelowScheme(archive, i);
      ChunkNameRoundTrip(archive, i);
    }
    forall i, j | 0 <= i < j < |frames|
      ensures paths[i] != paths[j]
    {
      if paths[i] == paths[j] {
        ChunkNamesAreDistinct(SCHEME + archive, i, j);
      }
    }
  }

  /** The rows of chunk i, for chunks whose frames decompress and decode. */
  ghost predicate Decodes<R>(codec: Codec, decode: bytes -> Option<seq<R>>, frame: bytes, rows: seq<R>) {
    && !BeginsWithMagic(frame)
    && codec.decompress(frame).Some?
    && decode(codec.decompress(frame).value) == Some(rows)
  }

  lemma {:induction false} ReadPathsConcatenates<R>(
      codec: Codec, decode: bytes -> Option<seq<R>>, files: Files, paths: seq<string>, frames: seq<bytes>,
      rows: seq<seq<R>>)
    requires |paths| == |frames| == |rows|
    requires forall i | 0 <= i < |frames| :: Decodes(codec, decode, frames[i], rows[i])
    requires forall i | 0 <= i < |frames| ::
        CanHandle(paths[i]) && OpenRead(codec, files, paths[i]) == codec.decompress(frames[i])
    ensures ReadPaths(codec, decode, files, paths) == Some(Concat(rows))
  {
    if |paths| > 0 {
      var n := |paths| - 1;
      ReadPathsConcatenates(codec, decode, files, paths[..n], frames[..n], rows[..n]);
      assert Decodes(codec, decode, frames[n], rows[n]);
    }
  }

  /** Reading a finished archive gives the rows of its chunks, in order. */
  lemma ReadTableOfArchive<R>(
      codec: Codec, decode: bytes -> Option<seq<R>>, files: Files, archive: string, frames: seq<bytes>,
      rows: seq<seq<R>>)
    requires SplitChunkSuffix(archive).None?
    requires frames != [] && |ArchiveFile(frames)| < TWO_TO_64 && |frames| <= Pow10(15)
    requires |frames| == |rows| && forall i | 0 <= i < |frames| :: Decodes(codec, decode, frames[i], rows[i])
    requires archive in files && files[archive] == ArchiveFile(frames)
    ensures CanHandle(SCHEME + archive)
    ensures ReadTable(codec, decode, files, SCHEME + archive) == Some(Concat(rows))
  {
    hide Concat, Pow10, CanHandle, StripScheme, SplitChunkSuffix, ReadPaths;
    forall i | 0 <= i < |frames|
      ensures !BeginsWithMagic(frames[i])
    {
      assert Decodes(codec, decode, frames[i], rows[i]);
    }
    ChunkNameBelowScheme(archive, 0);
    var path := SCHEME + archive;
    if |frames| == 1 {
      ArchiveDecompresses(codec, frames);
      ReadPathsConcatenates(codec, decode, files, [path], frames, rows);
    } else {
      GlobOpensEveryChunk(codec, files, archive, frames);
      ReadPathsConcatenates(codec, decode, files, Glob(files, path).value, frames, rows);
    }
  }

  /**
   * Why COPY's target must not end in a chunk suffix of its own: reading such a path never looks at the file of that
   * name, so what was written there cannot come back.
   */
  lemma ChunkSuffixHidesFile<R>(
      codec: Codec, decode: bytes -> Option<seq<R>>, files: Files, archive: string, contents: bytes)
    requires SplitChunkSuffix(archive).Some?
    ensures CanHandle(SCHEME + archive)
    ensures ReadTable(codec, decode, files[archive := contents], SCHEME + archive)
         == ReadTable(codec, decode, files, SCHEME + archive)
  {
    ChunkNameBelowScheme(archive, 0);
    var path := SCHEME + archive;
    var p := SplitChunkSuffix(archive).value;
    assert |p.archive| < |archive|;
    var files' := files[archive := contents];
    assert ArchiveOf(archive) == p.archive && ArchiveOf(archive) != archive;
    assert OpenRead(codec, files', path) == OpenRead(codec, files, path);
    assert Glob(files, path) == Some([path]) == Glob(files', path);
    assert [path][..0] == [];
    assert ReadPaths(codec, decode, files', []) == ReadPaths(codec, decode, files, []);
  }
}
