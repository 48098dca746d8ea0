// The multi-chunk archive file: its layout, its reader, and why the two agree.
module Container {
  import opened Wrappers
  import opened Bytes

  /** The eight characters OZLCHNK1. */
  const MAGIC: bytes := [79, 90, 76, 67, 72, 78, 75, 49]

  datatype ChunkRange = ChunkRange(offset: nat, length: nat)

  datatype Corruption = MissingTrailer | BadChunkCount | ChunkOutOfRange

  /** What the index reader reports: no container, a container's ranges, or a corrupt container. */
  datatype Index = Plain | Chunks(ranges: seq<ChunkRange>) | Corrupt(why: Corruption)

  predicate BeginsWithMagic(file: bytes) {
    |file| >= 8 && file[..8] == MAGIC
  }

  // ---- layout ----

  /** Where the frames land when they follow the magic without gaps. */
  function Ranges(frames: seq<bytes>): (rs: seq<ChunkRange>)
    ensures |rs| == |frames|
  {
    seq(|frames|, i requires 0 <= i < |frames| => ChunkRange(8 + |Concat(frames[..i])|, |frames[i]|))
  }

  function IndexBytes(rs: seq<ChunkRange>): (b: bytes)
    ensures |b| == 16 * |rs|
  {
    if |rs| == 0 then []
    else
      var last := rs[|rs| - 1];
      IndexBytes(rs[..|rs| - 1]) + ToLE(last.offset, 8) + ToLE(last.length, 8)
  }

  function Trailer(rs: seq<ChunkRange>): bytes {
    IndexBytes(rs) + ToLE(|rs|, 8) + MAGIC
  }

  function ContainerFile(frames: seq<bytes>): bytes {
    MAGIC + Concat(frames) + Trailer(Ranges(frames))
  }

  /** What a finished archive holds: a lone frame as it is, several frames in a container. */
  function ArchiveFile(frames: seq<bytes>): bytes
    requires frames != []
  {
    if |frames| == 1 then frames[0] else ContainerFile(frames)
  }

  // ---- the index, as a mathematical function of the file ----

  function Get64(p: bytes): (v: nat)
    requires |p| == 8
    ensures v < TWO_TO_64
    ensures ToLE(v, 8) == p
  {
    ToFromLE(p);
    Pow64(|p|);
    FromLE(p)
  }

  lemma Get64OfToLE(v: u64)
    ensures Get64(ToLE(v, 8)) == v
  {
    Pow64(8);
    FromToLE(v, 8);
  }

  /** The index entry stored at position `at`. */
  function RangeAt(file: bytes, at: nat): ChunkRange
    requires at + 16 <= |file|
  {
    ChunkRange(Get64(file[at..at + 8]), Get64(file[at + 8..at + 16]))
  }

  function IndexEntries(file: bytes, start: nat, count: nat): (rs: seq<ChunkRange>)
    requires start + 16 * count <= |file|
    ensures |rs| == count
  {
    seq(count, i requires 0 <= i < count => RangeAt(file, start + 16 * i))
  }

  predicate InRange(r: ChunkRange, start: nat) {
    8 <= r.offset && r.offset + r.length <= start
  }

  /** The chunk count stored in front of the closing magic. */
  function StoredCount(file: bytes): nat
    requires |file| >= 24
  {
    Get64(file[|file| - 16..|file| - 8])
  }

  function ReadIndex(file: bytes): Index {
    var size := |file|;
    if size < 24 || !BeginsWithMagic(file) then Plain
    else if file[size - 8..] != MAGIC then Corrupt(MissingTrailer)
    else if StoredCount(file) == 0 || StoredCount(file) > (size - 24) / 16 then Corrupt(BadChunkCount)
    else
      var start := size - 16 - 16 * StoredCount(file);
      var ranges := IndexEntries(file, start, StoredCount(file));
      if forall i | 0 <= i < |ranges| :: InRange(ranges[i], start) then Chunks(ranges)
      else Corrupt(ChunkOutOfRange)
  }

  /** Where the index of a container with n chunks starts. */
  function IndexStart(file: bytes, n: nat): int {
    |file| - 16 - 16 * n
  }

  function Slice(file: bytes, r: ChunkRange): bytes
    requires r.offset + r.length <= |file|
  {
    file[r.offset..r.offset + r.length]
  }

  /** On every byte string the reported ranges lie between the magic and the index. */
  lemma RangesStayInside(file: bytes)
    requires ReadIndex(file).Chunks?
    ensures
      var rs := ReadIndex(file).ranges;
      && 24 + 16 * |rs| <= |file|
      && |rs| >= 1
      && forall i | 0 <= i < |rs| :: 8 <= rs[i].offset && rs[i].offset + rs[i].length <= IndexStart(file, |rs|)
  {
    var rs := ReadIndex(file).ranges;
    assert forall i | 0 <= i < |rs| :: InRange(rs[i], IndexStart(file, |rs|));
  }

  // ---- the reader ----

  /** The reader, in the wrapping 64-bit arithmetic it is written in. */
  method ReadContainerIndex(file: bytes) returns (r: Index)
    requires |file| < TWO_TO_64
    ensures r == ReadIndex(file)
  {
    hide ToLE, FromLE, RangeAt, InRange, IndexEntries, Mul64;
    var size: u64 := |file|;
    if size < 24 {
      return Plain;
    }
    if file[..8] != MAGIC {
      return Plain;
    }
    if file[Sub64(size, 8)..] != MAGIC {
      return Corrupt(MissingTrailer);
    }
    var count := GetLE64(file[Sub64(size, 16)..Sub64(size, 8)]);
    assert count == StoredCount(file);
    hide Get64, StoredCount;
    if count == 0 || count > Sub64(Sub64(size, 8), 16) / 16 {
      return Corrupt(BadChunkCount);
    }
    assert 16 * count <= size - 24;
    var indexBytes := Mul64(count, 16);
    assert indexBytes == 16 * count by { TimesSixteen(count, size); }
    var indexStart := Sub64(Sub64(size, 16), indexBytes);
    r := ReadEntries(file, indexStart, count);
    assert IndexEntries(file, indexStart, count) == IndexEntries(file, indexStart, StoredCount(file));
  }

  lemma TimesSixteen(count: u64, size: u64)
    requires 16 * count <= size
    ensures Mul64(count, 16) == 16 * count
  {
  }

  /** The loop over the index entries. */
  method ReadEntries(file: bytes, indexStart: u64, count: u64) returns (r: Index)
    requires indexStart + 16 * count <= |file| < TWO_TO_64
    ensures r == if forall i | 0 <= i < count :: InRange(IndexEntries(file, indexStart, count)[i], indexStart)
                 then Chunks(IndexEntries(file, indexStart, count))
                 else Corrupt(ChunkOutOfRange)
  {
    hide ToLE, FromLE, RangeAt, Get64;
    ghost var all := IndexEntries(file, indexStart, count);
    var out: seq<ChunkRange> := [];
    for i := 0 to count
      invariant out == all[..i]
      invariant forall k | 0 <= k < i :: InRange(all[k], indexStart)
    {
      var at := Add64(indexStart, Mul64(16, i));
      var entry := ReadEntry(file, at);
      assert all[i] == entry;
      if entry.offset < 8 || entry.offset > indexStart || entry.length > Sub64(indexStart, entry.offset) {
        assert !InRange(all[i], indexStart);
        return Corrupt(ChunkOutOfRange);
      }
      out := out + [entry];
    }
    r := Chunks(out);
  }

  method ReadEntry(file: bytes, at: nat) returns (entry: ChunkRange)
    requires at + 16 <= |file|
    ensures entry == RangeAt(file, at) && entry.offset < TWO_TO_64 && entry.length < TWO_TO_64
  {
    var offset := GetLE64(file[at..at + 8]);
    var length := GetLE64(file[at + 8..at + 16]);
    entry := ChunkRange(offset, length);
  }

  // ---- writing then reading ----

  lemma {:induction false} IndexBytesAt(rs: seq<ChunkRange>, i: nat)
    requires i < |rs|
    ensures IndexBytes(rs)[16 * i..16 * i + 8] == ToLE(rs[i].offset, 8)
    ensures IndexBytes(rs)[16 * i + 8..16 * i + 16] == ToLE(rs[i].length, 8)
  {
    hide ToLE;
    var n := |rs| - 1;
    var front := IndexBytes(rs[..n]);
    if i < n {
      IndexBytesAt(rs[..n], i);
      assert IndexBytes(rs)[16 * i..16 * i + 8] == front[16 * i..16 * i + 8];
      assert IndexBytes(rs)[16 * i + 8..16 * i + 16] == front[16 * i + 8..16 * i + 16];
    }
  }

  lemma ConcatSlice(frames: seq<bytes>, i: nat)
    requires i < |frames|
    ensures |Concat(frames[..i])| + |frames[i]| <= |Concat(frames)|
    ensures Concat(frames)[|Concat(frames[..i])|..|Concat(frames[..i])| + |frames[i]|] == frames[i]
  {
    ConcatAppend(frames[..i + 1], frames[i + 1..]);
    assert frames == frames[..i + 1] + frames[i + 1..];
    assert frames[..i + 1][..i] == frames[..i];
    assert Concat(frames[..i + 1]) == Concat(frames[..i]) + frames[i];
  }

  lemma EntryReadsBack(pre: bytes, rs: seq<ChunkRange>, post: bytes, i: nat)
    requires i < |rs|
    requires rs[i].offset < TWO_TO_64 && rs[i].length < TWO_TO_64
    ensures RangeAt(pre + IndexBytes(rs) + post, |pre| + 16 * i) == rs[i]
  {
    hide ToLE, FromLE, IndexBytes;
    var index := IndexBytes(rs);
    SliceWithin(pre, index, post, 16 * i, 16 * i + 8);
    SliceWithin(pre, index, post, 16 * i + 8, 16 * i + 16);
    IndexBytesAt(rs, i);
    Get64OfToLE(rs[i].offset);
    Get64OfToLE(rs[i].length);
  }

  lemma FrameReadsBack(frames: seq<bytes>, i: nat)
    requires i < |frames|
    ensures InRange(Ranges(frames)[i], 8 + |Concat(frames)|)
    ensures Ranges(frames)[i].offset + Ranges(frames)[i].length <= |ContainerFile(frames)|
    ensures Slice(ContainerFile(frames), Ranges(frames)[i]) == frames[i]
  {
    ConcatSlice(frames, i);
    var at := |Concat(frames[..i])|;
    SliceWithin(MAGIC, Concat(frames), Trailer(Ranges(frames)), at, at + |frames[i]|);
  }

  lemma TrailerParts(pre: bytes, index: bytes, count: bytes)
    requires |count| == 8
    ensures
      var file := pre + index + (count + MAGIC);
      && file == pre + (index + count + MAGIC)
      && |file| == |pre| + |index| + 16
      && file[|file| - 8..] == MAGIC
      && file[|file| - 16..|file| - 8] == count
  {
  }

  /** A container gives back its frames: the reader finds exactly their ranges, and each range holds its frame. */
  lemma ContainerRoundTrip(frames: seq<bytes>)
    requires frames != []
    requires |ContainerFile(frames)| < TWO_TO_64
    ensures ReadIndex(ContainerFile(frames)) == Chunks(Ranges(frames))
    ensures Contiguous(Ranges(frames), IndexStart(ContainerFile(frames), |frames|))
    ensures forall i | 0 <= i < |frames| ::
        Ranges(frames)[i].offset + Ranges(frames)[i].length <= |ContainerFile(frames)|
        && Slice(ContainerFile(frames), Ranges(frames)[i]) == frames[i]
  {
    hide *;
    var file, start, rs := ContainerFile(frames), 8 + |Concat(frames)|, Ranges(frames);
    ContainerFrame(frames);
    forall i | 0 <= i < |rs|
      ensures RangeAt(file, start + 16 * i) == rs[i] && InRange(rs[i], start)
      ensures rs[i].offset + rs[i].length <= |file| && Slice(file, rs[i]) == frames[i]
    {
      FrameReadsBack(frames, i);
      ContainerEntry(frames, i);
    }
    ParsedIndex(file, start, rs);
    RangesAreContiguous(frames);
    StartOfIndex(file, start, |rs|);
  }

  lemma StartOfIndex(file: bytes, start: nat, n: nat)
    requires |file| == start + 16 * n + 16
    ensures IndexStart(file, n) == start
  {
  }

  lemma ContainerParts(frames: seq<bytes>)
    ensures ContainerFile(frames)
         == MAGIC + Concat(frames) + IndexBytes(Ranges(frames)) + (ToLE(|frames|, 8) + MAGIC)
  {
    hide ToLE, Concat, IndexBytes, Ranges;
    TrailerParts(MAGIC + Concat(frames), IndexBytes(Ranges(frames)), ToLE(|frames|, 8));
  }

  lemma HeadOf<T>(a: seq<T>, b: seq<T>, c: seq<T>, d: seq<T>)
    ensures (a + b + c + d)[..|a|] == a
  {
  }

  /** Everything in a container but frames and entries. */
  lemma ContainerFrame(frames: seq<bytes>)
    requires |ContainerFile(frames)| < TWO_TO_64
    ensures
      var file := ContainerFile(frames);
      && |file| == 8 + |Concat(frames)| + 16 * |frames| + 16
      && BeginsWithMagic(file) && file[|file| - 8..] == MAGIC && StoredCount(file) == |frames|
  {
    hide ToLE, FromLE, Concat, IndexBytes, Get64, ContainerFile, Ranges;
    var index, count := IndexBytes(Ranges(frames)), ToLE(|frames|, 8);
    ContainerParts(frames);
    HeadOf(MAGIC, Concat(frames), index, count + MAGIC);
    TrailerParts(MAGIC + Concat(frames), index, count);
    Get64OfToLE(|frames|);
  }

  lemma ContainerEntry(frames: seq<bytes>, i: nat)
    requires i < |frames| && |ContainerFile(frames)| < TWO_TO_64
    ensures 8 + |Concat(frames)| + 16 * i + 16 <= |ContainerFile(frames)|
    ensures RangeAt(ContainerFile(frames), 8 + |Concat(frames)| + 16 * i) == Ranges(frames)[i]
  {
    hide ToLE, FromLE, Concat, IndexBytes, RangeAt;
    var rs, pre, count := Ranges(frames), MAGIC + Concat(frames), ToLE(|frames|, 8);
    TrailerParts(pre, IndexBytes(rs), count);
    FrameReadsBack(frames, i);
    EntryReadsBack(pre, rs, count + MAGIC, i);
  }

  /** A file with magics, count and entries in place is read as these entries. */
  lemma ParsedIndex(file: bytes, start: nat, rs: seq<ChunkRange>)
    requires rs != [] && |file| == start + 16 * |rs| + 16 && start >= 8
    requires BeginsWithMagic(file) && file[|file| - 8..] == MAGIC && StoredCount(file) == |rs|
    requires forall i | 0 <= i < |rs| :: RangeAt(file, start + 16 * i) == rs[i] && InRange(rs[i], start)
    ensures ReadIndex(file) == Chunks(rs)
  {
    hide ToLE, FromLE, RangeAt, Get64, InRange;
    assert IndexEntries(file, start, |rs|) == rs;
  }

  /** The format, from both ends: magic, frames and index, the number of frames, magic. */
  lemma ContainerEnds(frames: seq<bytes>)
    requires |ContainerFile(frames)| < TWO_TO_64
    ensures
      var file := ContainerFile(frames);
      && |file| == 8 + |Concat(frames)| + 16 * |frames| + 16
      && file[..8] == MAGIC == file[|file| - 8..]
      && file[|file| - 16..|file| - 8] == ToLE(|frames|, 8)
  {
    hide ToLE, FromLE, ContainerFile, Concat;
    ContainerFrame(frames);
  }

  /**
   * The format, inside: after the frames one offset and one length for each, as eight little-endian bytes; offsets
   * count from the start of the file.
   */
  lemma ContainerInside(frames: seq<bytes>, i: nat)
    requires i < |frames| && |ContainerFile(frames)| < TWO_TO_64
    ensures
      var file, entry, at := ContainerFile(frames), 8 + |Concat(frames)| + 16 * i, 8 + |Concat(frames[..i])|;
      && at + |frames[i]| <= entry && entry + 16 <= |file|
      && file[at..at + |frames[i]|] == frames[i]
      && file[entry..entry + 8] == ToLE(at, 8)
      && file[entry + 8..entry + 16] == ToLE(|frames[i]|, 8)
  {
    hide ToLE, FromLE, ContainerFile, Concat;
    FrameReadsBack(frames, i);
    ContainerEntry(frames, i);
    hide RangeAt;
    EntryBytes(ContainerFile(frames), 8 + |Concat(frames)| + 16 * i);
  }

  /** A file is taken for a plain frame exactly if it is short or does not begin with the magic. */
  lemma PlainExactly(file: bytes)
    ensures ReadIndex(file).Plain? <==> |file| < 24 || file[..8] != MAGIC
  {
  }

  /**
   * A file is accepted exactly if it is long enough, begins and ends with the magic, and its count of entries is not
   * zero, fits, and every entry points between the magic and the index; gaps and overlaps do not matter.
   */
  lemma AcceptsExactly(file: bytes)
    requires |file| >= 24
    ensures
      var count := FromLE(file[|file| - 16..|file| - 8]);
      var start := |file| - 16 - 16 * count;
      ReadIndex(file).Chunks?
      <==> file[..8] == MAGIC == file[|file| - 8..] && count >= 1 && 24 + 16 * count <= |file|
           && forall i: nat | i < count :: EntryInside(file, i, start)
  {
    hide FromLE, ToLE;
    var count := FromLE(file[|file| - 16..|file| - 8]);
    assert StoredCount(file) == count && (count > (|file| - 24) / 16 <==> 24 + 16 * count > |file|);
    if count >= 1 && 24 + 16 * count <= |file| {
      var start := |file| - 16 - 16 * count;
      var ranges := IndexEntries(file, start, count);
      forall i: nat | i < count
        ensures InRange(ranges[i], start) <==> EntryInside(file, i, start)
      {
        assert ranges[i] == RangeAt(file, start + 16 * i);
      }
    }
  }

  /** Entry i of the index lies in the file, and the offset and length in it between the magic and the index. */
  predicate EntryInside(file: bytes, i: nat, start: int) {
    var at := start + 16 * i;
    && 0 <= at && at + 16 <= |file|
    && 8 <= FromLE(file[at..at + 8])
    && FromLE(file[at..at + 8]) + FromLE(file[at + 8..at + 16]) <= start
  }

  /** A container that was cut short, to 24 bytes or more, is never taken for a plain frame. */
  lemma TruncatedIsNotPlain(frames: seq<bytes>, n: nat)
    requires |ContainerFile(frames)| < TWO_TO_64 && 24 <= n <= |ContainerFile(frames)|
    ensures !ReadIndex(ContainerFile(frames)[..n]).Plain?
  {
    hide ReadIndex, ContainerFile;
    ContainerFrame(frames);
    var file := ContainerFile(frames);
    assert file[..n][..8] == file[..8];
    PlainExactly(file[..n]);
  }

  // ---- which files are containers ----

  /** The ranges follow each other without gap or overlap, from the magic to `end`. */
  predicate Contiguous(rs: seq<ChunkRange>, end: int) {
    |rs| > 0
    && rs[0].offset == 8
    && (forall i | 0 <= i < |rs| - 1 :: rs[i + 1].offset == rs[i].offset + rs[i].length)
    && rs[|rs| - 1].offset + rs[|rs| - 1].length == end
  }

  lemma ConcatOfNone<T>()
    ensures Concat<T>([]) == []
  {
  }

  lemma RangeEnd(frames: seq<bytes>, i: nat)
    requires i < |frames|
    ensures Ranges(frames)[i].offset + Ranges(frames)[i].length == 8 + |Concat(frames[..i + 1])|
  {
    assert frames[..i + 1][..i] == frames[..i];
  }

  lemma RangesAreContiguous(frames: seq<bytes>)
    requires frames != []
    ensures Contiguous(Ranges(frames), 8 + |Concat(frames)|)
  {
    hide Concat;
    forall i | 0 <= i < |frames|
      ensures Ranges(frames)[i].offset + Ranges(frames)[i].length == 8 + |Concat(frames[..i + 1])|
    {
      RangeEnd(frames, i);
    }
    assert frames[..|frames|] == frames;
    assert frames[..0] == [];
    ConcatOfNone<byte>();
  }

  function Slices(file: bytes, rs: seq<ChunkRange>): (frames: seq<bytes>)
    requires forall i | 0 <= i < |rs| :: rs[i].offset + rs[i].length <= |file|
    ensures |frames| == |rs|
  {
    seq(|rs|, i requires 0 <= i < |rs| => Slice(file, rs[i]))
  }

  lemma {:induction false} SlicesFill(file: bytes, rs: seq<ChunkRange>, end: nat, k: nat)
    requires Contiguous(rs, end) && end <= |file|
    requires forall i | 0 <= i < |rs| :: 8 <= rs[i].offset && rs[i].offset + rs[i].length <= end
    requires k < |rs|
    ensures Concat(Slices(file, rs)[..k]) == file[8..rs[k].offset]
  {
    var frames := Slices(file, rs);
    if k > 0 {
      SlicesFill(file, rs, end, k - 1);
      assert frames[..k][..k - 1] == frames[..k - 1];
      assert Concat(frames[..k]) == file[8..rs[k - 1].offset] + file[rs[k - 1].offset..rs[k].offset];
    }
  }

  lemma EntryBytes(file: bytes, at: nat)
    requires at + 16 <= |file|
    ensures ToLE(RangeAt(file, at).offset, 8) == file[at..at + 8]
    ensures ToLE(RangeAt(file, at).length, 8) == file[at + 8..at + 16]
  {
    hide ToLE, FromLE;
  }

  lemma {:induction false} IndexBytesFrom(file: bytes, start: nat, rs: seq<ChunkRange>)
    requires start + 16 * |rs| <= |file|
    requires forall i | 0 <= i < |rs| :: rs[i] == RangeAt(file, start + 16 * i)
    ensures IndexBytes(rs) == file[start..start + 16 * |rs|]
  {
    var n := |rs| - 1;
    if n >= 0 {
      hide ToLE, FromLE, Get64, RangeAt;
      var at := start + 16 * n;
      assert rs[n] == RangeAt(file, at);
      IndexBytesFrom(file, start, rs[..n]);
      EntryBytes(file, at);
      assert file[start..at + 16] == file[start..at] + file[at..at + 8] + file[at + 8..at + 16];
    }
  }

  lemma SlicesFillAll(file: bytes, rs: seq<ChunkRange>, end: nat)
    requires Contiguous(rs, end) && end <= |file|
    requires forall i | 0 <= i < |rs| :: 8 <= rs[i].offset && rs[i].offset + rs[i].length <= end
    ensures Concat(Slices(file, rs)) == file[8..end]
  {
    var frames, n := Slices(file, rs), |rs| - 1;
    SlicesFill(file, rs, end, n);
    assert Concat(frames) == Concat(frames[..n]) + frames[n];
    assert frames[n] == file[rs[n].offset..end];
    hide *;
    assert file[8..rs[n].offset] + file[rs[n].offset..end] == file[8..end];
  }

  lemma SlicesLandOnRanges(file: bytes, rs: seq<ChunkRange>, end: nat)
    requires Contiguous(rs, end) && end <= |file|
    requires forall i | 0 <= i < |rs| :: 8 <= rs[i].offset && rs[i].offset + rs[i].length <= end
    ensures Ranges(Slices(file, rs)) == rs
  {
    hide ToLE, FromLE, Concat, Contiguous;
    var frames := Slices(file, rs);
    forall i | 0 <= i < |rs|
      ensures Ranges(frames)[i] == rs[i]
    {
      SlicesFill(file, rs, end, i);
    }
  }

  lemma FiveParts<T>(s: seq<T>, p: seq<T>, q: seq<T>, r: seq<T>, t: seq<T>, u: seq<T>, b: nat, c: nat, d: nat)
    requires |p| <= b <= c <= d <= |s|
    requires s[..|p|] == p && s[|p|..b] == q && s[b..c] == r && s[c..d] == t && s[d..] == u
    ensures s == p + q + (r + t + u)
  {
    assert s == s[..|p|] + s[|p|..b] + (s[b..c] + s[c..d] + s[d..]);
  }

  lemma ContainerFromParts(file: bytes, frames: seq<bytes>, end: nat)
    requires 8 <= end <= |file| - 16 && file[..8] == MAGIC && file[|file| - 8..] == MAGIC
    requires file[8..end] == Concat(frames) && file[end..|file| - 16] == IndexBytes(Ranges(frames))
    requires file[|file| - 16..|file| - 8] == ToLE(|frames|, 8)
    ensures file == ContainerFile(frames)
  {
    hide ToLE, Concat, IndexBytes, Ranges;
    var rs := Ranges(frames);
    FiveParts(file, MAGIC, Concat(frames), IndexBytes(rs), ToLE(|rs|, 8), MAGIC, end, |file| - 16, |file| - 8);
  }

  /** The reader accepts the file, and the ranges fill it from the magic to the index. */
  predicate ReadsGapFree(file: bytes) {
    && ReadIndex(file).Chunks?
    && Contiguous(ReadIndex(file).ranges, IndexStart(file, |ReadIndex(file).ranges|))
  }

  /** The frames the index of a chunked file points at. */
  function FramesAt(file: bytes): (frames: seq<bytes>)
    requires ReadIndex(file).Chunks?
    ensures |frames| == |ReadIndex(file).ranges|
  {
    RangesStayInside(file);
    Slices(file, ReadIndex(file).ranges)
  }

  /** A file the reader accepts with gap-free ranges is the container of the frames it points at. */
  lemma AcceptedIsContainer(file: bytes)
    requires ReadsGapFree(file)
    ensures FramesAt(file) != [] && file == ContainerFile(FramesAt(file))
  {
    hide ToLE, FromLE, Concat, IndexBytes, Ranges, Slice;
    RangesStayInside(file);
    var rs, size := ReadIndex(file).ranges, |file|;
    var end := IndexStart(file, |rs|);
    var frames := Slices(file, rs);
    SlicesLandOnRanges(file, rs, end);
    SlicesFillAll(file, rs, end);
    IndexBytesFrom(file, end, rs);
    assert ToLE(|rs|, 8) == file[size - 16..size - 8];
    ContainerFromParts(file, frames, end);
  }

  /** The files the reader accepts with gap-free ranges are the containers, those of a single frame included. */
  lemma ReadsExactlyContainers(file: bytes)
    requires |file| < TWO_TO_64
    ensures ReadsGapFree(file) <==> exists frames :: frames != [] && file == ContainerFile(frames)
  {
    hide ContainerFile, ReadIndex, Contiguous;
    if frames :| frames != [] && file == ContainerFile(frames) {
      ContainerRoundTrip(frames);
    }
    if ReadsGapFree(file) {
      AcceptedIsContainer(file);
    }
  }

  /** Among them, those with at least two ranges are the files the writer makes of several frames. */
  lemma ReadsExactlyArchives(file: bytes)
    requires |file| < TWO_TO_64
    ensures ReadsGapFree(file) && |ReadIndex(file).ranges| >= 2
       <==> exists frames :: |frames| >= 2 && file == ArchiveFile(frames)
  {
    hide ContainerFile, ReadIndex, Contiguous;
    if frames :| |frames| >= 2 && file == ArchiveFile(frames) {
      ContainerRoundTrip(frames);
    }
    if ReadsGapFree(file) && |ReadIndex(file).ranges| >= 2 {
      AcceptedIsContainer(file);
      assert file == ArchiveFile(FramesAt(file));
    }
  }

  /** A container of one frame is accepted by the reader, but no sequence of plain frames is ever written that way. */
  lemma LoneContainerIsNotWritten(frame: bytes, frames: seq<bytes>)
    requires |ContainerFile([frame])| < TWO_TO_64
    requires frames != [] && forall i | 0 <= i < |frames| :: !BeginsWithMagic(frames[i])
    ensures ReadsGapFree(ContainerFile([frame])) && FramesAt(ContainerFile([frame])) == [frame]
    ensures ArchiveFile(frames) != ContainerFile([frame])
  {
    hide Concat, Trailer, Ranges;
    ContainerRoundTrip([frame]);
    assert BeginsWithMagic(ContainerFile([frame]));
    if |frames| >= 2 && ContainerFile(frames) == ContainerFile([frame]) {
      ContainerRoundTrip(frames);
    }
  }
}
