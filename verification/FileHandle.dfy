// OpenzlFileHandle: a decompressed archive open for reading, or an archive being written and published on Close().
module FileHandle {
  import opened Wrappers
  import opened Bytes
  import opened OpenZL
  import opened LocalDisk
  import opened MemoryFile

  const SMALL_FALLBACK_BYTES := 64_000_000

  /** What the local disk does to one Close(): each attempt may find it full, the rename may be refused. */
  datatype DiskFaults = DiskFaults(firstFull: bool, secondFull: bool, renameRefused: bool)

  /** Compress to a file: the frame is only written once the compress call has succeeded. */
  method CompressParquetBytes(
      codec: Codec, profile: Graph, input: bytes, limit: nat, t: nat, disk: Disk, path: string, full: bool)
    returns (ok: bool)
    modifies disk
    ensures ok == (codec.CompressBytes(profile, input, limit, t).Some? && !full)
    ensures ok ==> path in disk.files && Some(disk.files[path]) == codec.CompressBytes(profile, input, limit, t)
    ensures disk.files - {path} == old(disk.files) - {path}
    ensures disk.OnlyTouched(path, old(disk.trace), old(disk.files))
  {
    var frame := codec.CompressBytes(profile, input, limit, t);
    if frame.None? {
      return false;
    }
    ok := disk.WriteFile(path, frame.value, full);
  }

  // ---- positioned access in 64-bit arithmetic ----

  /** What a read does: copy, refuse, or copy from outside the buffer. */
  datatype ReadOutcome = Copied(data: bytes) | PastEnd | ReadsOutside

  /** What a write does: store, refuse, or copy to outside the buffer. */
  datatype WriteOutcome = Stored | NotForWriting | WritesOutside

  /** An access the 64-bit guard lets through lies inside the buffer if and only if its end does not wrap. */
  lemma GuardIsExact(location: u64, n: u64, size: u64)
    requires Add64(location, n) <= size
    ensures location + n <= size <==> location + n < TWO_TO_64
  {
  }

  /** The guard does let wrapping accesses through: one byte at the last location, whatever the size. */
  lemma WrappingAccessPasses(size: u64)
    ensures
      var location, n: u64 := TWO_TO_64 - 1, 1;
      Add64(location, n) <= size && !(location + n <= size)
  {
    assert (TWO_TO_64 - 1 + 1) % TWO_TO_64 == 0;
  }

  class OpenzlFileHandle {
    const realPath: string
    const profile: Graph
    const limit: nat
    var data: bytes
    var writeBuffer: Option<bytes>
    var position: u64
    var closed: bool

    // The calls so far; the decompressed bytes of a read handle count as written at 0.
    ghost var ops: seq<Op>

    /** The handle is what the calls on it say: its bytes, and where it stands. */
    ghost predicate Valid()
      reads this
    {
      && position == Position(ops)
      && (Usable() ==> Holds(Bytes(), ops) && |Bytes()| < TWO_TO_64)
    }

    /** Publishing gives the buffer away. */
    predicate Usable()
      reads this
    {
      writeBuffer.Some? || !closed
    }

    function Bytes(): bytes
      reads this
    {
      if writeBuffer.Some? then writeBuffer.value else data
    }

    function TmpPath(): string { realPath + ".openzl_tmp" }

    constructor ForReading(data: bytes)
      requires |data| < TWO_TO_64
      ensures Valid() && Bytes() == data && writeBuffer.None? && position == 0 && !closed
    {
      realPath, profile, limit := "", Parquet, 0;
      this.data, writeBuffer, position, closed, ops := data, None, 0, false, [Op.Write(0, data)];
      WrittenAtStart(data);
    }

    constructor ForWriting(realPath: string, profile: Graph, limit: nat)
      ensures Valid() && writeBuffer == Some([]) && ops == [] && position == 0 && !closed
      ensures this.realPath == realPath && this.profile == profile && this.limit == limit
    {
      this.realPath, this.profile, this.limit := realPath, profile, limit;
      data, writeBuffer, position, closed, ops := [], Some([]), 0, false, [];
    }

    /**
     * All the bytes asked for, as the calls so far have left them, or an error past the end of the file. A range whose
     * end wraps to somewhere inside the file is not noticed.
     */
    method ReadAt(n: u64, location: u64) returns (r: ReadOutcome)
      requires Valid() && Usable()
      ensures r.Copied? <==> location + n <= Size(ops)
      ensures r.Copied? ==> |r.data| == n && Shows(r.data, ops, location)
      ensures r.ReadsOutside? <==> location + n >= TWO_TO_64 && location + n - TWO_TO_64 <= Size(ops)
    {
      if Add64(location, n) > |Bytes()| {
        return PastEnd;
      }
      GuardIsExact(location, n, |Bytes()|);
      if location + n > |Bytes()| {
        return ReadsOutside;
      }
      r := Copied(Bytes()[location..location + n]);
    }

    /** What is left from the position on, at most n bytes. */
    method Read(n: u64) returns (r: bytes)
      requires Valid() && Usable()
      modifies this`position, this`ops
      ensures Valid() && ops == old(ops) + [ReadHere(n)]
      ensures r == ReadNext(Bytes(), old(position), n) && Shows(r, old(ops), Min(old(position), Size(old(ops))))
      ensures position == old(position) + |r|
    {
      MoveKeepsHistory(Bytes(), ops, ReadHere(n));
      assert (ops + [ReadHere(n)])[..|ops|] == ops;
      ops := ops + [ReadHere(n)];
      var remaining := if |Bytes()| > position then |Bytes()| - position else 0;
      var toRead := Min(remaining, n);
      r := [];
      if toRead > 0 {
        r := Bytes()[position..position + toRead];
        position := position + toRead;
      }
    }

    /** The write joins the history, unless its end wraps: then the copy misses the buffer, resized or not. */
    method WriteBytesAt(bytesIn: bytes, location: u64) returns (r: WriteOutcome)
      requires Valid() && |bytesIn| < TWO_TO_64
      modifies this`writeBuffer, this`ops
      ensures r.NotForWriting? <==> old(writeBuffer).None?
      ensures r.WritesOutside? <==> old(writeBuffer).Some? && location + |bytesIn| >= TWO_TO_64
      ensures r.Stored? ==> Valid() && writeBuffer.Some? && ops == old(ops) + [Op.Write(location, bytesIn)]
      ensures r.NotForWriting? ==> Valid() && writeBuffer.None? && ops == old(ops)
    {
      if writeBuffer.None? {
        return NotForWriting;
      }
      var b := writeBuffer.value;
      var end := Add64(location, |bytesIn|);
      if end > |b| {
        b := Resize(b, end);
      }
      if location + |bytesIn| > |b| {
        return WritesOutside;
      }
      b := b[..location] + bytesIn + b[location + |bytesIn|..];
      assert b == WriteAt(writeBuffer.value, location, bytesIn);
      hide Holds, Position, WriteAt, Resize;
      PositionedWrite(writeBuffer.value, ops, location, bytesIn);
      ops := ops + [Op.Write(location, bytesIn)];
      writeBuffer := Some(b);
      r := Stored;
    }

    method WriteBytes(bytesIn: bytes) returns (r: WriteOutcome)
      requires Valid() && |bytesIn| < TWO_TO_64
      modifies this`writeBuffer, this`ops, this`position
      ensures r.NotForWriting? <==> old(writeBuffer).None?
      ensures r.WritesOutside? <==> old(writeBuffer).Some? && old(position) + |bytesIn| >= TWO_TO_64
      ensures r.Stored? ==> Valid() && writeBuffer.Some? && ops == old(ops) + [WriteHere(bytesIn)]
      ensures r.NotForWriting? ==> Valid() && writeBuffer.None? && ops == old(ops)
    {
      ghost var before := ops;
      r := WriteBytesAt(bytesIn, position);
      if r.Stored? {
        WriteAtPosition(before, bytesIn);
        ops := before + [WriteHere(bytesIn)];
        position := position + |bytesIn|;
      }
    }

    method TruncateTo(size: u64) returns (ok: bool)
      requires Valid()
      modifies this`writeBuffer, this`ops
      ensures Valid()
      ensures ok == old(writeBuffer).Some? == writeBuffer.Some?
      ensures ops == if ok then old(ops) + [Truncate(size)] else old(ops)
    {
      if writeBuffer.None? {
        return false;
      }
      TruncateKeepsHistory(writeBuffer.value, ops, size);
      writeBuffer := Some(Resize(writeBuffer.value, size));
      ops := ops + [Truncate(size)];
      ok := true;
    }

    /** Later calls work from the new position, which may lie past the end; the bytes stay. */
    method Seek(location: u64)
      requires Valid() && Usable()
      modifies this`position, this`ops
      ensures Valid() && ops == old(ops) + [Op.Seek(location)]
    {
      MoveKeepsHistory(Bytes(), ops, Op.Seek(location));
      ops := ops + [Op.Seek(location)];
      position := location;
    }

    method Reset()
      requires Valid() && Usable()
      modifies this`position, this`ops
      ensures Valid() && ops == old(ops) + [Op.Reset]
    {
      MoveKeepsHistory(Bytes(), ops, Op.Reset);
      ops := ops + [Op.Reset];
      position := 0;
    }

    // ---- publishing ----

    /** A second attempt with the serial profile is open to small files only. */
    ghost predicate MayRetrySerial(input: bytes) {
      profile != Serial && |input| <= SMALL_FALLBACK_BYTES
    }

    ghost predicate FirstSucceeds(codec: Codec, input: bytes, t: nat, faults: DiskFaults) {
      codec.CompressBytes(profile, input, limit, t).Some? && !faults.firstFull
    }

    ghost predicate SecondSucceeds(codec: Codec, input: bytes, t: nat, faults: DiskFaults) {
      codec.CompressBytes(Serial, input, limit, t).Some? && !faults.secondFull
    }

    /** The profile asked for works, or the generic graph does and may stand in for it. */
    ghost predicate Compresses(codec: Codec, input: bytes, t: nat, faults: DiskFaults) {
      || FirstSucceeds(codec, input, t, faults)
      || (MayRetrySerial(input) && SecondSucceeds(codec, input, t, faults))
    }

    /** The frame that ends up in the archive: the profile's own, or the generic one if that failed. */
    ghost function PublishedFrame(codec: Codec, input: bytes, t: nat, faults: DiskFaults): Option<bytes> {
      var own := codec.compress(profile, input, t);
      if own.Some? && !faults.firstFull then own else codec.compress(Serial, input, t)
    }

    /**
     * Which buffers get published, on the sizes and attempts themselves: within the limit, the profile's attempt has to
     * work, or for 64 MB and less, under another profile than serial, a generic attempt.
     */
    lemma CompressesExactly(codec: Codec, input: bytes, t: nat, faults: DiskFaults)
      ensures Compresses(codec, input, t, faults)
         <==> |input| <= limit
              && ((codec.compress(profile, input, t).Some? && !faults.firstFull)
                  || (profile != Serial && |input| <= 64_000_000
                      && codec.compress(Serial, input, t).Some? && !faults.secondFull))
    {
    }

    /** The path holds one whole frame that decompresses to the bytes. */
    ghost predicate Published(codec: Codec, files: map<string, bytes>, input: bytes) {
      realPath in files && codec.DecompressWhole(files[realPath]) == Some(input)
    }

    /** An observer of the path sees what was there before, or the finished archive. */
    ghost predicate Atomic(codec: Codec, was: map<string, bytes>, now: map<string, bytes>, input: bytes) {
      || ((realPath in now <==> realPath in was) && (realPath in was ==> now[realPath] == was[realPath]))
      || Published(codec, now, input)
    }

    /** Both compress attempts, into the temp file. */
    method CompressToTmp(codec: Codec, t: nat, disk: Disk, faults: DiskFaults) returns (ok: bool)
      requires writeBuffer.Some? && codec.Lawful()
      modifies disk
      ensures
        var input := old(writeBuffer).value;
        && ok == Compresses(codec, input, t, faults)
        && (ok ==> TmpPath() in disk.files && codec.DecompressWhole(disk.files[TmpPath()]) == Some(input))
        && (ok ==> Some(disk.files[TmpPath()]) == PublishedFrame(codec, input, t, faults))
      ensures disk.files - {TmpPath()} == old(disk.files) - {TmpPath()}
      ensures disk.OnlyTouched(TmpPath(), old(disk.trace), old(disk.files))
    {
      var input := writeBuffer.value;
      ok := CompressParquetBytes(codec, profile, input, limit, t, disk, TmpPath(), faults.firstFull);
      if !ok {
        if profile == Serial || |input| > SMALL_FALLBACK_BYTES {
          return false;
        }
        ok := CompressParquetBytes(codec, Serial, input, limit, t, disk, TmpPath(), faults.secondFull);
      }
    }

    /**
     * Close(): at every moment `realPath` holds its old contents or the whole new archive; a failure leaves it
     * unchanged and the temp file gone; closing again does nothing.
     */
    method Close(codec: Codec, t: nat, disk: Disk, faults: DiskFaults) returns (ok: bool)
      requires codec.Lawful()
      modifies this, disk
      ensures closed == (old(closed) || old(writeBuffer).Some?)
      ensures position == old(position) && data == old(data) && ops == old(ops)
      ensures old(Valid()) ==> Valid()
      ensures old(writeBuffer).None? || old(closed) ==>
          ok && unchanged(this) && unchanged(disk)
      ensures old(writeBuffer).Some? && !old(closed) ==>
          var input := old(writeBuffer).value;
          && ok == (Compresses(codec, input, t, faults) && !faults.renameRefused)
          && writeBuffer == (if Compresses(codec, input, t, faults) then None else old(writeBuffer))
          && (ok ==> Published(codec, disk.files, input))
          && (ok ==> Some(disk.files[realPath]) == PublishedFrame(codec, input, t, faults))
          && (ok ==> disk.files == (old(disk.files) - {TmpPath()})[realPath := disk.files[realPath]])
          && (!ok ==> disk.files == old(disk.files) - {TmpPath()})
          && old(disk.trace) <= disk.trace
          && (forall k | |old(disk.trace)| <= k < |disk.trace| ::
                Atomic(codec, old(disk.files), disk.trace[k], input))
    {
      if writeBuffer.None? || closed {
        return true;
      }
      closed := true;
      ghost var was := disk.files;
      var tmp := TmpPath();
      assert tmp != realPath by { assert |tmp| > |realPath|; }
      ok := CompressToTmp(codec, t, disk, faults);
      ghost var input := writeBuffer.value;
      assert forall k | |old(disk.trace)| <= k < |disk.trace| :: Atomic(codec, was, disk.trace[k], input) by {
        forall k | |old(disk.trace)| <= k < |disk.trace|
          ensures Atomic(codec, was, disk.trace[k], input)
        {
          UntouchedKey(was, disk.trace[k], tmp, realPath);
        }
      }
      UntouchedKey(was, disk.files, tmp, realPath);
      if !ok {
        disk.Remove(tmp);
        assert disk.files == was - {tmp};
        UntouchedKey(was, disk.files, tmp, realPath);
        return false;
      }
      writeBuffer := None;
      ghost var staged := disk.files;
      assert staged[realPath := staged[tmp]] - {tmp} == (staged - {tmp})[realPath := staged[tmp]];
      ok := disk.Rename(tmp, realPath, faults.renameRefused);
      if !ok {
        disk.Remove(tmp);
        assert disk.files == was - {tmp};
        UntouchedKey(was, disk.files, tmp, realPath);
      }
    }
  }
}
