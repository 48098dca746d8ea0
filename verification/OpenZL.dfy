// OpenZL as an abstract pair of functions, and the decompression entry points built on it.
module OpenZL {
  import opened Wrappers
  import opened Bytes
  import opened Container

  /** The graph a compress call runs: a trained compressor file, or one of the two generic profiles. */
  datatype Graph = Trained(path: string) | Parquet | Serial

  /**
   * `compress` may fail; its last argument stands for everything else a call can depend on (time, memory,
   * whether the compressor file can be read), so any pattern of failures is a possible codec.
   */
  datatype Codec = Codec(compress: (Graph, bytes, nat) -> Option<bytes>, decompress: bytes -> Option<bytes>)
  {
    /** Decompressing a successful frame gives its input back, and no frame looks like a container. */
    ghost predicate Lawful() {
      forall g, b, t | compress(g, b, t).Some? ::
        decompress(compress(g, b, t).value) == Some(b) && !BeginsWithMagic(compress(g, b, t).value)
    }

    /** One compress call: oversized inputs are rejected before OpenZL sees them. */
    function CompressBytes(g: Graph, input: bytes, limit: nat, t: nat): Option<bytes> {
      if |input| > limit then None else compress(g, input, t)
    }

    /** DecompressToBuffer on the contents of an archive file: refuses chunked and corrupt archives. */
    function DecompressWhole(file: bytes): Option<bytes> {
      if ReadIndex(file).Plain? then decompress(file) else None
    }

    /** DecompressChunkToBuffer: one frame of a chunked archive. */
    function DecompressChunk(file: bytes, chunk: nat): Option<bytes> {
      match ReadIndex(file)
      case Chunks(ranges) =>
        RangesStayInside(file);
        if chunk < |ranges| then decompress(Slice(file, ranges[chunk])) else None
      case _ => None
    }
  }

  function ChunkCount(file: bytes): Option<nat> {
    match ReadIndex(file)
    case Chunks(ranges) => Some(|ranges|)
    case Plain => Some(1)
    case Corrupt(_) => None
  }

  /**
   * A finished archive decompresses to what its frames decompress to: a lone frame as a whole file and never as a
   * chunk, several frames chunk by chunk and never as a whole file.
   */
  lemma ArchiveDecompresses(codec: Codec, frames: seq<bytes>)
    requires frames != [] && |ArchiveFile(frames)| < TWO_TO_64
    requires forall i | 0 <= i < |frames| :: !BeginsWithMagic(frames[i])
    ensures ChunkCount(ArchiveFile(frames)) == Some(|frames|)
    ensures ReadIndex(ArchiveFile(frames)).Plain? <==> |frames| == 1
    ensures codec.DecompressWhole(ArchiveFile(frames)) == if |frames| == 1 then codec.decompress(frames[0]) else None
    ensures forall i: nat :: codec.DecompressChunk(ArchiveFile(frames), i)
                          == if |frames| > 1 && i < |frames| then codec.decompress(frames[i]) else None
  {
    if |frames| > 1 {
      ContainerRoundTrip(frames);
    }
  }
}
