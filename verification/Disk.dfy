// The local files the extension works on, with the sequence of states an observer can see.
module LocalDisk {
  import opened Bytes

  class Disk {
    var files: map<string, bytes>
    // Every state of `files` after an effect, oldest first.
    ghost var trace: seq<map<string, bytes>>

    constructor ()
      ensures files == map[] && trace == []
    {
      files := map[];
      trace := [];
    }

    /** Nothing but `path` changed, in any state that became visible since `before` was the trace. */
    ghost predicate OnlyTouched(path: string, before: seq<map<string, bytes>>, was: map<string, bytes>)
      reads this
    {
      && before <= trace
      && (forall k | |before| <= k < |trace| :: trace[k] - {path} == was - {path})
    }

    /** Truncates the file and writes it byte by byte; with `full` false the disk fills up at some point. */
    method WriteFile(path: string, contents: bytes, full: bool) returns (ok: bool)
      modifies this
      ensures ok == !full
      ensures ok ==> files == old(files)[path := contents]
      ensures files - {path} == old(files) - {path}
      ensures OnlyTouched(path, old(trace), old(files))
    {
      ghost var before, was := trace, files;
      files := files[path := []];
      trace := trace + [files];
      for i := 0 to |contents|
        invariant files == was[path := contents[..i]]
        invariant OnlyTouched(path, before, was)
      {
        if full && i == |contents| / 2 {
          return false;
        }
        files := files[path := contents[..i + 1]];
        trace := trace + [files];
      }
      assert contents[..|contents|] == contents;
      ok := !full;
    }

    method Append(path: string, data: bytes)
      requires path in files
      modifies this
      ensures files == old(files)[path := old(files)[path] + data]
      ensures OnlyTouched(path, old(trace), old(files))
    {
      files := files[path := files[path] + data];
      trace := trace + [files];
    }

    method Remove(path: string)
      modifies this
      ensures files == old(files) - {path}
      ensures OnlyTouched(path, old(trace), old(files))
    {
      files := files - {path};
      trace := trace + [files];
    }

    /** Replaces `to` by `from` in one step, or does nothing. */
    method Rename(from: string, to: string, refused: bool) returns (ok: bool)
      requires from in files && from != to
      modifies this
      ensures ok == !refused
      ensures files == if ok then old(files)[to := old(files)[from]] - {from} else old(files)
      ensures trace == old(trace) + [files]
    {
      if !refused {
        files := files[to := files[from]] - {from};
      }
      trace := trace + [files];
      ok := !refused;
    }
  }
}
