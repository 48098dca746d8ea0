// The in-memory staging registry that concurrent COPYs share.
module Staging {
  import opened Wrappers
  import opened Bytes
  import opened Decimal
  import opened MemoryFile

  const BUFFER_SCHEME := "openzl-buffer://"

  type Buffers = map<string, bytes>

  /** The path generated when the counter is n. */
  function BufferPath(n: nat): string { BUFFER_SCHEME + Print(n) }

  function Opened(buffers: Buffers, path: string): Buffers {
    if path in buffers then buffers else buffers[path := []]
  }

  function Written(buffers: Buffers, path: string, location: nat, data: bytes): Buffers {
    if path in buffers then buffers[path := WriteAt(buffers[path], location, data)] else buffers
  }

  function Lookup(buffers: Buffers, path: string): Option<bytes> {
    if path in buffers then Some(buffers[path]) else None
  }

  class BufferFileSystem {
    var counter: u64
    var buffers: Buffers

    constructor ()
      ensures counter == 0 && buffers == map[]
    {
      counter, buffers := 0, map[];
    }

    method GenerateUniquePath() returns (path: string)
      modifies this`counter
      ensures path == BufferPath(old(counter)) && counter == Add64(old(counter), 1)
    {
      path := BUFFER_SCHEME + Print(counter);
      counter := Add64(counter, 1);
    }

    method OpenFile(path: string)
      modifies this`buffers
      ensures buffers == Opened(old(buffers), path) && path in buffers
      ensures path in old(buffers) ==> buffers == old(buffers)
      ensures path !in old(buffers) ==> buffers[path] == [] && buffers - {path} == old(buffers)
    {
      if path !in buffers {
        buffers := buffers[path := []];
      }
    }

    /**
     * A write through an open handle. The handle shares its buffer with the registry until the buffer is taken; from
     * then on it writes to bytes of its own. A write whose end wraps misses the buffer.
     */
    method Write(path: string, location: u64, data: bytes) returns (inside: bool)
      requires |data| < TWO_TO_64 && (path in buffers ==> |buffers[path]| < TWO_TO_64)
      modifies this`buffers
      ensures inside <==> location + |data| < TWO_TO_64
      ensures buffers == if inside then Written(old(buffers), path, location, data) else old(buffers)
    {
      var b := if path in buffers then buffers[path] else [];
      var end := Add64(location, |data|);
      if end > |b| {
        b := Resize(b, end);
      }
      if location + |data| > |b| {
        return false;
      }
      b := b[..location] + data + b[location + |data|..];
      if path in buffers {
        buffers := buffers[path := b];
      }
      inside := true;
    }

    method PeekSize(path: string) returns (size: nat)
      ensures size == if path in buffers then |buffers[path]| else 0
    {
      size := 0;
      if path in buffers {
        size := |buffers[path]|;
      }
    }

    /** Removes and returns a buffer, None when the code throws. */
    method TakeBuffer(path: string) returns (r: Option<bytes>)
      modifies this`buffers
      ensures r == Lookup(old(buffers), path)
      ensures buffers == old(buffers) - {path}
    {
      if path !in buffers {
        assert buffers - {path} == buffers;
        return None;
      }
      r := Some(buffers[path]);
      buffers := buffers - {path};
    }
  }

  // ---- any number of COPYs at once ----

  /** One COPY: between chunks, holding the k-th generated path, or staging what it has written to that path. */
  datatype Stage = Idle | Named(k: nat) | Staging(k: nat, written: bytes)

  /** `generated` counts all paths ever generated; the 64-bit counter is its remainder. */
  datatype Registry = Registry(generated: nat, buffers: Buffers, copies: map<nat, Stage>)
  {
    function StageOf(copy: nat): Stage { if copy in copies then copies[copy] else Idle }
  }

  function PathOf(k: nat): string { BufferPath(k % TWO_TO_64) }

  /** The steps of a COPY; each runs under the registry's mutex or on the atomic counter. */
  datatype Action =
    | Generate(copy: nat)
    | Open(copy: nat)
    | Write(copy: nat, location: nat, data: bytes)
    | Take(copy: nat)

  function Step(r: Registry, a: Action): Option<Registry> {
    match (a, r.StageOf(a.copy))
    case (Generate(c), Idle) =>
      Some(r.(generated := r.generated + 1, copies := r.copies[c := Named(r.generated)]))
    case (Open(c), Named(k)) =>
      Some(r.(buffers := Opened(r.buffers, PathOf(k)), copies := r.copies[c := Staging(k, [])]))
    case (Write(c, location, data), Staging(k, written)) =>
      Some(r.(buffers := Written(r.buffers, PathOf(k), location, data),
              copies := r.copies[c := Staging(k, WriteAt(written, location, data))]))
    case (Take(c), Staging(k, _)) =>
      Some(r.(buffers := r.buffers - {PathOf(k)}, copies := r.copies[c := Idle]))
    case _ => None
  }

  /** From a counter of `first` and whatever earlier COPYs have left in the registry. */
  function Run(first: nat, base: Buffers, actions: seq<Action>): Option<Registry> {
    if |actions| == 0 then Some(Registry(first, base, map[]))
    else
      match Run(first, base, actions[..|actions| - 1])
      case None => None
      case Some(r) => Step(r, actions[|actions| - 1])
  }

  /** Generated paths repeat exactly when the counter has wrapped in between. */
  lemma PathsRepeatOnWrap(i: nat, j: nat)
    ensures PathOf(i) == PathOf(j) <==> i % TWO_TO_64 == j % TWO_TO_64
  {
    if PathOf(i) == PathOf(j) {
      assert PathOf(i)[|BUFFER_SCHEME|..] == Print(i % TWO_TO_64);
      assert PathOf(j)[|BUFFER_SCHEME|..] == Print(j % TWO_TO_64);
      PrintIsInjective(i % TWO_TO_64, j % TWO_TO_64);
    }
  }

  lemma PathsDistinct(i: nat, j: nat)
    requires i < TWO_TO_64 && j < TWO_TO_64 && PathOf(i) == PathOf(j)
    ensures i == j
  {
    PathsRepeatOnWrap(i, j);
  }

  /** Every entry that is not in the initial registry belongs to a staging COPY. */
  ghost predicate Owned(r: Registry, p: string) {
    exists c :: c in r.copies && r.copies[c].Staging? && PathOf(r.copies[c].k) == p
  }

  /** The registry is the initial one plus one entry per staging COPY, which holds exactly what that COPY wrote. */
  ghost predicate Isolated(r: Registry, first: nat, base: Buffers) {
    && first <= r.generated
    && (forall c | c in r.copies && !r.copies[c].Idle? :: first <= r.copies[c].k < r.generated)
    && (forall c, d | c in r.copies && d in r.copies && c != d && !r.copies[c].Idle? && !r.copies[d].Idle? ::
          r.copies[c].k != r.copies[d].k)
    && (forall c | c in r.copies && r.copies[c].Staging? ::
          Lookup(r.buffers, PathOf(r.copies[c].k)) == Some(r.copies[c].written))
    && (forall p | p in r.buffers && p !in base :: Owned(r, p))
    && (forall p | p in base :: Lookup(r.buffers, p) == Some(base[p]))
  }

  /** No entry of the initial registry uses a path the counter has still to generate. */
  ghost predicate Unused(first: nat, base: Buffers) {
    forall k: nat | first <= k < TWO_TO_64 :: PathOf(k) !in base
  }

  lemma OthersElsewhere(r: Registry, copy: nat, first: nat, base: Buffers)
    requires Isolated(r, first, base) && r.generated <= TWO_TO_64
    requires !r.StageOf(copy).Idle?
    ensures forall c | c in r.copies && c != copy && !r.copies[c].Idle? ::
        PathOf(r.copies[c].k) != PathOf(r.StageOf(copy).k)
  {
    hide PathOf;
    forall c | c in r.copies && c != copy && !r.copies[c].Idle?
      ensures PathOf(r.copies[c].k) != PathOf(r.StageOf(copy).k)
    {
      if PathOf(r.copies[c].k) == PathOf(r.StageOf(copy).k) {
        PathsDistinct(r.copies[c].k, r.StageOf(copy).k);
      }
    }
  }

  lemma NamedIsUnopened(r: Registry, copy: nat, first: nat, base: Buffers)
    requires Unused(first, base) && Isolated(r, first, base) && r.generated <= TWO_TO_64
    requires r.StageOf(copy).Named?
    ensures PathOf(r.StageOf(copy).k) !in r.buffers
  {
    hide PathOf;
    OthersElsewhere(r, copy, first, base);
  }

  lemma OthersStillOwn(r: Registry, r': Registry, copy: nat, p: string)
    requires Owned(r, p)
    requires forall c | c in r.copies && c != copy :: c in r'.copies && r'.copies[c] == r.copies[c]
    requires r.StageOf(copy).Staging? ==> PathOf(r.StageOf(copy).k) != p
    ensures Owned(r', p)
  {
    hide PathOf;
    var c :| c in r.copies && r.copies[c].Staging? && PathOf(r.copies[c].k) == p;
    assert c in r'.copies && r'.copies[c].Staging? && PathOf(r'.copies[c].k) == p;
  }

  lemma OwnerExists(r: Registry, first: nat, base: Buffers, p: string)
    requires Isolated(r, first, base) && p in r.buffers && p !in base
    ensures Owned(r, p)
  {
  }

  lemma StepKeepsOwners(r: Registry, a: Action, first: nat, base: Buffers, p: string)
    requires Unused(first, base) && Isolated(r, first, base) && r.generated <= TWO_TO_64
    requires Step(r, a).Some?
    requires p in Step(r, a).value.buffers && p !in base
    ensures Owned(Step(r, a).value, p)
  {
    hide PathOf, WriteAt, Isolated;
    var r' := Step(r, a).value;
    if p in r.buffers && (a.Generate? || p != PathOf(r.StageOf(a.copy).k)) {
      OwnerExists(r, first, base, p);
      OthersStillOwn(r, r', a.copy, p);
    } else {
      assert a.copy in r'.copies && r'.copies[a.copy].Staging? && PathOf(r'.copies[a.copy].k) == p;
    }
  }

  /** A step on one COPY's buffer leaves every other COPY's buffer, and the initial entries, alone. */
  lemma BufferStepKeepsContents(r: Registry, a: Action, first: nat, base: Buffers)
    requires Unused(first, base) && Isolated(r, first, base) && r.generated <= TWO_TO_64
    requires !a.Generate? && Step(r, a).Some?
    ensures
      var r' := Step(r, a).value;
      && (forall c | c in r'.copies && r'.copies[c].Staging? ::
            Lookup(r'.buffers, PathOf(r'.copies[c].k)) == Some(r'.copies[c].written))
      && (forall p | p in base :: Lookup(r'.buffers, p) == Some(base[p]))
  {
    hide PathOf, WriteAt, Owned;
    OthersElsewhere(r, a.copy, first, base);
    if a.Open? {
      NamedIsUnopened(r, a.copy, first, base);
    }
  }

  lemma StepKeepsIsolation(r: Registry, a: Action, first: nat, base: Buffers)
    requires Unused(first, base) && Isolated(r, first, base) && r.generated <= TWO_TO_64
    requires Step(r, a).Some?
    ensures Isolated(Step(r, a).value, first, base)
  {
    hide PathOf, WriteAt, Owned;
    var r' := Step(r, a).value;
    if !a.Generate? {
      BufferStepKeepsContents(r, a, first, base);
    }
    forall p | p in r'.buffers && p !in base
      ensures Owned(r', p)
    {
      StepKeepsOwners(r, a, first, base, p);
    }
  }

  lemma {:induction false} RunIsIsolated(first: nat, base: Buffers, actions: seq<Action>)
    requires Unused(first, base)
    requires Run(first, base, actions).Some? && Run(first, base, actions).value.generated <= TWO_TO_64
    ensures Isolated(Run(first, base, actions).value, first, base)
  {
    if |actions| > 0 {
      RunIsIsolated(first, base, actions[..|actions| - 1]);
      StepKeepsIsolation(Run(first, base, actions[..|actions| - 1]).value, actions[|actions| - 1], first, base);
    }
  }

  /**
   * In every interleaving, until the counter reaches 2^64: taking or peeking at a chunk sees exactly what its
   * own COPY wrote, a new path is unused, and once every COPY is between chunks the registry is as it was.
   */
  lemma ConcurrentCopiesAreIsolated(first: nat, base: Buffers, actions: seq<Action>, copy: nat)
    requires Unused(first, base)
    requires Run(first, base, actions).Some? && Run(first, base, actions).value.generated < TWO_TO_64
    ensures
      var r := Run(first, base, actions).value;
      && (r.StageOf(copy).Staging? ==>
            Lookup(r.buffers, PathOf(r.StageOf(copy).k)) == Some(r.StageOf(copy).written))
      && PathOf(r.generated) !in r.buffers
      && (forall c | c in r.copies && !r.copies[c].Idle? :: PathOf(r.copies[c].k) != PathOf(r.generated))
      && ((forall c | c in r.copies :: r.copies[c].Idle?) ==> r.buffers == base)
  {
    RunIsIsolated(first, base, actions);
    var r := Run(first, base, actions).value;
    forall c | c in r.copies && !r.copies[c].Idle?
      ensures PathOf(r.copies[c].k) != PathOf(r.generated)
    {
      if PathOf(r.copies[c].k) == PathOf(r.generated) {
        PathsDistinct(r.copies[c].k, r.generated);
      }
    }
    if forall c | c in r.copies :: r.copies[c].Idle? {
      forall p | p in r.buffers
        ensures p in base && r.buffers[p] == base[p]
      {
      }
      forall p | p in base
        ensures p in r.buffers
      {
        assert Lookup(r.buffers, p) == Some(base[p]);
      }
    }
  }
}
