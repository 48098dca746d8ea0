// ChunkedArchiveWriter: builds an archive one compressed frame at a time.
module ArchiveWriter {
  import opened Wrappers
  import opened Bytes
  import opened Container
  import opened LocalDisk

  class ChunkedArchiveWriter {
    const path: string
    const disk: Disk
    var first: bytes
    var isOpen: bool
    var ranges: seq<ChunkRange>
    var pos: u64
    var numChunks: nat
    var finished: bool

    // The frames appended so far.
    ghost var frames: seq<bytes>

    /** The 64-bit position cannot have wrapped. */
    ghost predicate Fits()
      reads this
    {
      8 + |Concat(frames)| < TWO_TO_64
    }

    ghost predicate Valid()
      reads this, disk
    {
      && numChunks == |frames|
      && (!finished ==>
        && (numChunks == 1 ==> first == frames[0])
        && (isOpen <==> numChunks >= 2)
        && (isOpen ==>
          && path in disk.files
          && disk.files[path] == MAGIC + Concat(frames)
          && (Fits() ==> pos == 8 + |Concat(frames)| && ranges == Ranges(frames))))
      && (finished ==> !isOpen)
    }

    constructor (path: string, disk: Disk)
      ensures Valid() && !finished && frames == []
      ensures this.path == path && this.disk == disk
    {
      this.path, this.disk := path, disk;
      first, isOpen, ranges, pos, numChunks, finished := [], false, [], 0, 0, false;
      frames := [];
    }

    /** Starts the container with the frame held back so far. */
    method OpenContainer()
      modifies this, disk
      ensures isOpen && first == [] && frames == old(frames) && numChunks == old(numChunks) && finished == old(finished)
      ensures disk.files == old(disk.files)[path := MAGIC + old(first)]
      ensures 8 + |old(first)| < TWO_TO_64 ==> pos == 8 + |old(first)|
      ensures ranges == [ChunkRange(8, |old(first)|)]
    {
      isOpen := true;
      var _ := disk.WriteFile(path, MAGIC, false);
      pos := 8;
      ranges := [ChunkRange(pos, |first|)];
      disk.Append(path, first);
      pos := Add64(pos, |first| % TWO_TO_64);
      first := [];
    }

    method Append(frame: bytes)
      requires Valid() && !finished
      modifies this, disk
      ensures Valid() && !finished
      ensures frames == old(frames) + [frame]
      ensures disk.files == if |frames| == 1 then old(disk.files)
                            else old(disk.files)[path := MAGIC + Concat(frames)]
    {
      hide Concat, Ranges;
      RangesAppend(frames, frame);
      numChunks := numChunks + 1;
      if numChunks == 1 {
        first := frame;
        frames := frames + [frame];
        return;
      }
      if numChunks == 2 {
        assert frames == [first];
        LoneFrame(first);
        OpenContainer();
      }
      ranges := ranges + [ChunkRange(pos, |frame|)];
      disk.Append(path, frame);
      pos := Add64(pos, |frame| % TWO_TO_64);
      assert MAGIC + Concat(frames) + frame == MAGIC + (Concat(frames) + frame);
      frames := frames + [frame];
    }

    /** Writes the lone frame, or the index and trailer; refuses an archive without chunks. */
    method Finish() returns (ok: bool)
      requires Valid() && !finished
      requires frames != [] ==> |ArchiveFile(frames)| < TWO_TO_64
      modifies this, disk
      ensures Valid() && frames == old(frames)
      ensures ok == finished == (frames != [])
      ensures disk.files == if ok then old(disk.files)[path := ArchiveFile(frames)] else old(disk.files)
    {
      hide Concat, Ranges, ToLE;
      if numChunks == 0 {
        return false;
      }
      if numChunks == 1 {
        var _ := disk.WriteFile(path, first, false);
      } else {
        var trailer: bytes := [];
        for i := 0 to |ranges|
          invariant unchanged(this) && unchanged(disk)
          invariant trailer == IndexBytes(ranges[..i])
        {
          EntryFits(frames, i);
          var s := PutLE64(trailer, ranges[i].offset);
          trailer := PutLE64(s, ranges[i].length);
          assert ranges[..i + 1][..i] == ranges[..i];
        }
        assert ranges[..|ranges|] == ranges;
        trailer := PutLE64(trailer, |ranges|);
        trailer := trailer + MAGIC;
        disk.Append(path, trailer);
        assert disk.files[path] == ContainerFile(frames);
        isOpen := false;
      }
      finished := true;
      ok := true;
    }

    /** Drops a partial file; a path that was never opened keeps what it held. */
    method Abort()
      requires Valid()
      modifies this, disk
      ensures Valid() && finished && frames == old(frames)
      ensures disk.files == if !old(finished) && |frames| >= 2 then old(disk.files) - {path} else old(disk.files)
    {
      finished := true;
      if isOpen {
        isOpen := false;
        disk.Remove(path);
      }
    }

    /** The destructor: an archive that was not finished is aborted. */
    method Destroy()
      requires Valid()
      modifies this, disk
      ensures Valid() && finished && frames == old(frames)
      ensures disk.files == if !old(finished) && |frames| >= 2 then old(disk.files) - {path} else old(disk.files)
    {
      if !finished {
        Abort();
      }
    }
  }

  lemma LoneFrame(frame: bytes)
    ensures Concat([frame]) == frame
    ensures Ranges([frame]) == [ChunkRange(8, |frame|)]
  {
    assert [frame][..0] == [];
    assert Concat([frame]) == Concat([frame][..0]) + frame;
  }

  lemma RangesAppend(frames: seq<bytes>, frame: bytes)
    ensures Ranges(frames + [frame]) == Ranges(frames) + [ChunkRange(8 + |Concat(frames)|, |frame|)]
    ensures Concat(frames + [frame]) == Concat(frames) + frame
  {
    var all := frames + [frame];
    assert all[..|frames|] == frames;
    assert forall i | 0 <= i <= |frames| :: all[..i] == frames[..i];
  }

  lemma EntryFits(frames: seq<bytes>, i: nat)
    requires i < |frames|
    requires |ContainerFile(frames)| < TWO_TO_64
    ensures Ranges(frames)[i].offset < TWO_TO_64 && Ranges(frames)[i].length < TWO_TO_64
  {
    ConcatSlice(frames, i);
  }
}
