// The shared cache of decompressed archives as a concurrent protocol. Threads stat an archive outside the mutex, then
// look its path up under the mutex; handles are dropped and files rewritten at any time.
module ArchiveCache {
  import opened Wrappers
  import opened Bytes
  import opened OpenZL
  import opened ArchiveRead

  datatype Stat = Stat(size: int, mtime: int)

  /** One version of an archive file, with what stat reports while it is in place. */
  datatype Version = Version(contents: bytes, stat: Stat)

  /** Every version each archive goes through, in order. A run may stop early. */
  datatype Env = Env(codec: Codec, history: string -> seq<Version>)
  {
    function VersionsOf(path: string): seq<Version> { history(ArchiveOf(path)) }

    function StatOf(path: string, i: nat): Stat
      requires i < |VersionsOf(path)|
    {
      VersionsOf(path)[i].stat
    }

    /** What plain decompression of the path gives while version i is in place. */
    function Plain(path: string, i: nat): Option<bytes>
      requires i < |VersionsOf(path)|
    {
      Decompressed(codec, path, VersionsOf(path)[i].contents)
    }

    ghost predicate Valid() { forall a :: |history(a)| > 0 }
  }

  /** A decompressed buffer: of which path, its bytes, and the version they were read from. */
  datatype Buffer = Buffer(path: string, data: bytes, from: nat)

  /** A cache entry refers to its buffer weakly. `seen` is the version its size and mtime were read from. */
  datatype Entry = Entry(buffer: nat, stat: Stat, seen: nat)

  /** How far an opener has got: only Statted and Opened are outside the mutex. */
  datatype Opener =
    | Statted(path: string, seen: nat, stat: Stat)
    | Hit(path: string, seen: nat, buffer: nat)
    | Missed(path: string, seen: nat, stat: Stat, stale: Option<nat>)
    | Loaded(path: string, seen: nat, stat: Stat, buffer: nat)
    | Opened(path: string, seen: nat, buffer: nat, returned: nat)

  datatype World = World(
    now: map<string, nat>,
    buffers: seq<Buffer>,
    cache: map<string, Entry>,
    threads: map<nat, Opener>,
    locked: bool)
  {
    /** The version of the path's archive that is in place. */
    function Now(path: string): nat {
      if ArchiveOf(path) in now then now[ArchiveOf(path)] else 0
    }

    /** Some thread or handle holds the buffer strongly. */
    predicate Held(b: nat) {
      exists t | t in threads :: Holds(threads[t], b)
    }

    /** Some thread or handle holds a buffer of the path. */
    predicate PathHeld(path: string) {
      exists t | t in threads :: HoldsPath(threads[t], path)
    }
  }

  /** The buffer an opener or handle holds strongly. */
  function HeldBy(o: Opener): Option<nat> {
    match o
    case Statted(_, _, _) => None
    case Missed(_, _, _, stale) => stale
    case _ => Some(o.buffer)
  }

  predicate Holds(o: Opener, b: nat) { HeldBy(o) == Some(b) }

  predicate HoldsPath(o: Opener, path: string) { HeldBy(o).Some? && o.path == path }

  // ---- the steps of an open, and of its environment ----

  datatype Action =
    | TakeStat(thread: nat, path: string)
    | Lock(thread: nat)
    | Decompress(thread: nat)
    | Return(thread: nat)
    | Drop(thread: nat)
    | Rewrite(path: string)

  function StatStep(env: Env, w: World, t: nat, path: string): Option<World> {
    if t in w.threads || w.Now(path) >= |env.VersionsOf(path)| then None
    else Some(w.(threads := w.threads[t := Statted(path, w.Now(path), env.StatOf(path, w.Now(path)))]))
  }

  /** Locking an entry's weak reference gives its buffer while somebody still holds it. */
  function LockWeak(w: World, path: string): Option<nat> {
    if path in w.cache && w.Held(w.cache[path].buffer) then Some(w.cache[path].buffer) else None
  }

  function LockStep(w: World, t: nat): Option<World> {
    if t !in w.threads || !w.threads[t].Statted? || w.locked then None
    else
      var Statted(path, seen, stat) := w.threads[t];
      var data := LockWeak(w, path);
      var next := if data.Some? && w.cache[path].stat == stat then Hit(path, seen, data.value)
                  else Missed(path, seen, stat, data);
      Some(w.(threads := w.threads[t := next], locked := true))
  }

  /** Decompression reads the version in place; a failure leaves the entry alone and releases the mutex. */
  function DecompressStep(env: Env, w: World, t: nat): Option<World> {
    if t !in w.threads || !w.threads[t].Missed? then None
    else
      var Missed(path, seen, stat, _) := w.threads[t];
      if w.Now(path) >= |env.VersionsOf(path)| then None
      else
        match env.Plain(path, w.Now(path))
        case None => Some(w.(threads := w.threads - {t}, locked := false))
        case Some(data) =>
          Some(w.(buffers := w.buffers + [Buffer(path, data, w.Now(path))],
                  threads := w.threads[t := Loaded(path, seen, stat, |w.buffers|)]))
  }

  /** Stores the entry after a miss, releases the mutex, and returns the handle. */
  function ReturnStep(w: World, t: nat): Option<World> {
    if t !in w.threads then None
    else
      match w.threads[t]
      case Hit(path, seen, b) =>
        Some(w.(threads := w.threads[t := Opened(path, seen, b, w.Now(path))], locked := false))
      case Loaded(path, seen, stat, b) =>
        Some(w.(cache := w.cache[path := Entry(b, stat, seen)],
                threads := w.threads[t := Opened(path, seen, b, w.Now(path))], locked := false))
      case _ => None
  }

  function DropStep(w: World, t: nat): Option<World> {
    if t !in w.threads || !w.threads[t].Opened? then None else Some(w.(threads := w.threads - {t}))
  }

  function RewriteStep(env: Env, w: World, path: string): Option<World> {
    if w.Now(path) + 1 >= |env.VersionsOf(path)| then None
    else Some(w.(now := w.now[ArchiveOf(path) := w.Now(path) + 1]))
  }

  function Step(env: Env, w: World, a: Action): Option<World> {
    match a
    case TakeStat(t, path) => StatStep(env, w, t, path)
    case Lock(t) => LockStep(w, t)
    case Decompress(t) => DecompressStep(env, w, t)
    case Return(t) => ReturnStep(w, t)
    case Drop(t) => DropStep(w, t)
    case Rewrite(path) => RewriteStep(env, w, path)
  }

  const START := World(map[], [], map[], map[], false)

  /** The state after a sequence of steps, None when one of them is not possible. */
  function Run(env: Env, actions: seq<Action>): Option<World> {
    if |actions| == 0 then Some(START)
    else
      match Run(env, actions[..|actions| - 1])
      case None => None
      case Some(w) => Step(env, w, actions[|actions| - 1])
  }

  /** The critical section of one open, run to its end: what OpenFile does while it holds the mutex. */
  function OpenUnderMutex(env: Env, w: World, t: nat): Option<World> {
    match LockStep(w, t)
    case None => None
    case Some(locked) =>
      if locked.threads[t].Hit? then ReturnStep(locked, t)
      else
        match DecompressStep(env, locked, t)
        case None => None
        case Some(loaded) => if t in loaded.threads then ReturnStep(loaded, t) else Some(loaded)
  }

  datatype TableEntry = TableEntry(buffer: nat, stat: Stat)

  /** The process-wide cache. `data` lists every buffer ever made; which ones are alive is up to their holders. */
  class CacheTable {
    var entries: map<string, TableEntry>
    var data: seq<bytes>

    constructor ()
      ensures entries == map[] && data == [] && Shows(START)
    {
      entries, data := map[], [];
    }

    /** The table is the protocol's cache, without the version numbers. */
    ghost predicate Shows(w: World)
      reads this
    {
      && entries.Keys == w.cache.Keys
      && (forall p | p in entries :: entries[p] == TableEntry(w.cache[p].buffer, w.cache[p].stat))
      && |data| == |w.buffers|
      && (forall b | 0 <= b < |data| :: data[b] == w.buffers[b].data)
    }

    /**
     * OpenFile from taking the mutex on, by thread t, which has taken its stat. `alive` are the buffers somebody holds
     * and `contents` is what the archive holds now. The table is left as the protocol's steps leave it, and the result
     * is the buffer of the new handle, or None when decompression fails.
     */
    method OpenFile(env: Env, path: string, stat: Stat, alive: set<nat>, contents: bytes, ghost w: World, ghost t: nat)
      returns (handle: Option<nat>)
      requires Shows(w) && !w.locked
      requires t in w.threads && w.threads[t].Statted? && w.threads[t].path == path && w.threads[t].stat == stat
      requires forall b: nat :: b in alive <==> w.Held(b)
      requires w.Now(path) < |env.VersionsOf(path)| && env.VersionsOf(path)[w.Now(path)].contents == contents
      modifies this
      ensures OpenUnderMutex(env, w, t).Some?
      ensures
        var w' := OpenUnderMutex(env, w, t).value;
        && Shows(w') && !w'.locked
        && (handle.Some? <==> t in w'.threads)
        && (handle.Some? ==> w'.threads[t] == Opened(path, w.threads[t].seen, handle.value, w.Now(path)))
    {
      hide ArchiveOf, Decompressed;
      handle := if path in entries && entries[path].buffer in alive then Some(entries[path].buffer) else None;
      if handle.None? || entries[path].stat != stat {
        var decompressed := Decompressed(env.codec, path, contents);
        if decompressed.None? {
          return None;
        }
        handle := Some(|data|);
        data := data + [decompressed.value];
        entries := entries[path := TableEntry(|data| - 1, stat)];
      }
    }
  }

  // ---- linearizability ----

  ghost predicate SeenAt(env: Env, path: string, data: bytes, m: nat) {
    m < |env.VersionsOf(path)| && env.Plain(path, m) == Some(data)
  }

  /** The bytes are what plain decompression gives at some moment of the interval. */
  ghost predicate SeenDuring(env: Env, path: string, data: bytes, first: nat, last: nat) {
    exists m | first <= m <= last :: SeenAt(env, path, data, m)
  }

  ghost predicate HandleOk(env: Env, w: World, o: Opener) {
    o.Opened? ==> o.buffer < |w.buffers| && SeenDuring(env, o.path, w.buffers[o.buffer].data, o.seen, o.returned)
  }

  /** Every handle shows contents the archive had at some moment between its open's stat and its return. */
  ghost predicate Linearizable(env: Env, w: World) {
    forall t | t in w.threads :: HandleOk(env, w, w.threads[t])
  }

  ghost predicate SameStat(env: Env, path: string, i: nat, k: nat) {
    i < |env.VersionsOf(path)| && k < |env.VersionsOf(path)| && env.StatOf(path, i) == env.StatOf(path, k)
  }

  /**
   * A stat never comes back with other contents in between: if versions i and k stat alike, each version from i to k
   * that decompresses at all gives what version k gives.
   */
  ghost predicate NeverReverts(env: Env) {
    forall path, i: nat, j: nat, k: nat | i <= j <= k && SameStat(env, path, i, k) && env.Plain(path, j).Some? ::
      env.Plain(path, j) == env.Plain(path, k)
  }

  ghost predicate BufferOk(env: Env, w: World, b: Buffer) {
    b.from <= w.Now(b.path) && SeenAt(env, b.path, b.data, b.from)
  }

  ghost predicate Refers(w: World, path: string, b: nat, seen: nat) {
    b < |w.buffers| && w.buffers[b].path == path && seen <= w.buffers[b].from
  }

  ghost predicate StatFrom(env: Env, path: string, seen: nat, stat: Stat) {
    seen < |env.VersionsOf(path)| && env.StatOf(path, seen) == stat
  }

  ghost predicate EntryOk(env: Env, w: World, path: string, e: Entry) {
    Refers(w, path, e.buffer, e.seen) && StatFrom(env, path, e.seen, e.stat)
  }

  ghost predicate OpenerOk(env: Env, w: World, o: Opener) {
    match o
    case Statted(path, seen, stat) => seen <= w.Now(path) && StatFrom(env, path, seen, stat)
    case Missed(path, seen, stat, _) => seen <= w.Now(path) && StatFrom(env, path, seen, stat)
    case Loaded(path, seen, stat, b) => Refers(w, path, b, seen) && StatFrom(env, path, seen, stat)
    case Hit(path, seen, b) =>
      b < |w.buffers| && SeenDuring(env, path, w.buffers[b].data, seen, w.Now(path))
    case Opened(_, _, _, _) => HandleOk(env, w, o)
  }

  ghost predicate Consistent(env: Env, w: World) {
    && (forall path :: w.Now(path) < |env.VersionsOf(path)|)
    && (forall b | 0 <= b < |w.buffers| :: BufferOk(env, w, w.buffers[b]))
    && (forall path | path in w.cache :: EntryOk(env, w, path, w.cache[path]))
    && (forall t | t in w.threads :: OpenerOk(env, w, w.threads[t]))
  }

  /** The heart of it: an entry may be older than its buffer, and the opener's stat older or newer than both. */
  lemma HitIsSeen(env: Env, w: World, path: string, e: Entry, seen: nat, stat: Stat)
    requires NeverReverts(env) && Consistent(env, w)
    requires EntryOk(env, w, path, e) && seen <= w.Now(path) && StatFrom(env, path, seen, stat) && e.stat == stat
    ensures SeenDuring(env, path, w.buffers[e.buffer].data, seen, w.Now(path))
  {
    var b := w.buffers[e.buffer];
    assert BufferOk(env, w, b);
    if seen <= b.from {
      assert SeenAt(env, path, b.data, b.from);
    } else {
      assert SameStat(env, path, e.seen, seen);
      assert env.Plain(path, b.from) == env.Plain(path, seen);
      assert SeenAt(env, path, b.data, seen);
    }
  }

  /** Buffers are only added and versions only advance, so what was established stays established. */
  ghost predicate Grows(w: World, w': World) {
    w.buffers <= w'.buffers && forall path :: w.Now(path) <= w'.Now(path)
  }

  lemma SameNow(w: World, w': World)
    requires w'.now == w.now
    ensures forall path :: w'.Now(path) == w.Now(path)
  {
  }

  lemma OpenerStaysOk(env: Env, w: World, w': World, o: Opener)
    requires Grows(w, w') && OpenerOk(env, w, o)
    ensures OpenerOk(env, w', o)
  {
    hide StatFrom, SeenAt, World.Now;
  }

  ghost predicate NewOpenerOk(env: Env, w: World, w': World, t: nat)
    requires t in w'.threads
  {
    (t in w.threads && w'.threads[t] == w.threads[t]) || OpenerOk(env, w', w'.threads[t])
  }

  ghost predicate NewEntryOk(env: Env, w: World, w': World, path: string)
    requires path in w'.cache
  {
    (path in w.cache && w'.cache[path] == w.cache[path]) || EntryOk(env, w', path, w'.cache[path])
  }

  /** A step keeps the invariant if what it changes is all right. */
  lemma ChangeIsConsistent(env: Env, w: World, w': World)
    requires Consistent(env, w) && Grows(w, w')
    requires forall p :: w'.Now(p) < |env.VersionsOf(p)|
    requires forall b | |w.buffers| <= b < |w'.buffers| :: BufferOk(env, w', w'.buffers[b])
    requires forall p | p in w'.cache :: NewEntryOk(env, w, w', p)
    requires forall t | t in w'.threads :: NewOpenerOk(env, w, w', t)
    ensures Consistent(env, w')
  {
    hide OpenerOk, SeenAt, World.Now;
    forall t | t in w'.threads
      ensures OpenerOk(env, w', w'.threads[t])
    {
      assert NewOpenerOk(env, w, w', t);
      if t in w.threads && w'.threads[t] == w.threads[t] {
        OpenerStaysOk(env, w, w', w.threads[t]);
      }
    }
    forall b | 0 <= b < |w.buffers|
      ensures BufferOk(env, w', w'.buffers[b])
    {
      assert BufferOk(env, w, w.buffers[b]);
    }
    forall p | p in w'.cache
      ensures EntryOk(env, w', p, w'.cache[p])
    {
      assert NewEntryOk(env, w, w', p);
      assert p in w.cache ==> EntryOk(env, w, p, w.cache[p]);
    }
  }

  lemma LockConsistent(env: Env, w: World, t: nat)
    requires NeverReverts(env) && Consistent(env, w) && LockStep(w, t).Some?
    ensures Consistent(env, LockStep(w, t).value)
  {
    hide ArchiveOf, Decompressed, World.Now;
    var w' := LockStep(w, t).value;
    SameNow(w, w');
    var Statted(path, seen, stat) := w.threads[t];
    assert OpenerOk(env, w, w.threads[t]);
    if w'.threads[t].Hit? {
      HitIsSeen(env, w, path, w.cache[path], seen, stat);
    }
    assert OpenerOk(env, w', w'.threads[t]);
    hide SeenDuring, NeverReverts, StatFrom, LockWeak, OpenerOk, EntryOk;
    ChangeIsConsistent(env, w, w');
  }

  lemma DecompressConsistent(env: Env, w: World, t: nat)
    requires Consistent(env, w) && DecompressStep(env, w, t).Some?
    ensures Consistent(env, DecompressStep(env, w, t).value)
  {
    hide ArchiveOf, Decompressed, World.Now;
    var w' := DecompressStep(env, w, t).value;
    SameNow(w, w');
    assert OpenerOk(env, w, w.threads[t]);
    assert t in w'.threads ==> OpenerOk(env, w', w'.threads[t]);
    assert |w'.buffers| > |w.buffers| ==> BufferOk(env, w', w'.buffers[|w.buffers|]);
    hide StatFrom, OpenerOk, EntryOk, BufferOk;
    ChangeIsConsistent(env, w, w');
  }

  lemma LoadedIsSeen(env: Env, w: World, o: Opener)
    requires Consistent(env, w) && o.Loaded? && OpenerOk(env, w, o)
    ensures SeenDuring(env, o.path, w.buffers[o.buffer].data, o.seen, w.Now(o.path))
  {
    var b := w.buffers[o.buffer];
    assert BufferOk(env, w, b);
    assert SeenAt(env, o.path, b.data, b.from);
  }

  lemma ReturnConsistent(env: Env, w: World, t: nat)
    requires Consistent(env, w) && ReturnStep(w, t).Some?
    ensures Consistent(env, ReturnStep(w, t).value)
  {
    hide StatFrom, SeenDuring, ArchiveOf, Decompressed, World.Now;
    var w' := ReturnStep(w, t).value;
    SameNow(w, w');
    var o := w.threads[t];
    assert OpenerOk(env, w, o);
    if o.Loaded? {
      LoadedIsSeen(env, w, o);
      assert EntryOk(env, w', o.path, w'.cache[o.path]);
    }
    assert OpenerOk(env, w', w'.threads[t]);
    hide OpenerOk, EntryOk, BufferOk;
    ChangeIsConsistent(env, w, w');
  }

  lemma EnvironmentConsistent(env: Env, w: World, a: Action)
    requires Consistent(env, w) && Step(env, w, a).Some?
    requires a.TakeStat? || a.Drop? || a.Rewrite?
    ensures Consistent(env, Step(env, w, a).value)
  {
    var w' := Step(env, w, a).value;
    assert a.TakeStat? ==> OpenerOk(env, w', w'.threads[a.thread]);
    hide OpenerOk, EntryOk, BufferOk;
    ChangeIsConsistent(env, w, w');
  }

  lemma {:induction false} StepConsistent(env: Env, w: World, a: Action)
    requires NeverReverts(env) && Consistent(env, w) && Step(env, w, a).Some?
    ensures Consistent(env, Step(env, w, a).value)
  {
    var w' := Step(env, w, a).value;
    match a
    case Lock(t) => LockConsistent(env, w, t);
    case Decompress(t) => DecompressConsistent(env, w, t);
    case Return(t) => ReturnConsistent(env, w, t);
    case TakeStat(t, path) => EnvironmentConsistent(env, w, a);
    case Drop(t) => EnvironmentConsistent(env, w, a);
    case Rewrite(path) => EnvironmentConsistent(env, w, a);
  }

  lemma {:induction false} RunConsistent(env: Env, actions: seq<Action>)
    requires env.Valid() && NeverReverts(env) && Run(env, actions).Some?
    ensures Consistent(env, Run(env, actions).value)
  {
    if |actions| > 0 {
      RunConsistent(env, actions[..|actions| - 1]);
      StepConsistent(env, Run(env, actions[..|actions| - 1]).value, actions[|actions| - 1]);
    }
  }

  // ---- and only if: a history that reverts has a run that serves a stale buffer ----

  lemma AppendStep(env: Env, actions: seq<Action>, a: Action)
    requires Run(env, actions).Some?
    ensures Run(env, actions + [a]) == Step(env, Run(env, actions).value, a)
  {
    assert (actions + [a])[..|actions|] == actions;
  }

  /** The file can be rewritten up to any later version without anything else happening. */
  lemma {:induction false} AdvanceTo(env: Env, actions: seq<Action>, path: string, n: nat) returns (longer: seq<Action>)
    requires Run(env, actions).Some?
    requires Run(env, actions).value.Now(path) <= n < |env.VersionsOf(path)|
    ensures Run(env, longer).Some? && Run(env, longer).value.Now(path) == n
    ensures Run(env, longer).value == Run(env, actions).value.(now := Run(env, longer).value.now)
    decreases n - Run(env, actions).value.Now(path)
  {
    longer := actions;
    if Run(env, actions).value.Now(path) < n {
      AppendStep(env, actions, Rewrite(path));
      longer := AdvanceTo(env, actions + [Rewrite(path)], path, n);
    }
  }

  /** First opener: stats version i, but decompresses version j and keeps the handle. */
  lemma StoreUnderOlderStat(env: Env, path: string, i: nat, j: nat) returns (actions: seq<Action>)
    requires i <= j < |env.VersionsOf(path)| && env.Plain(path, j).Some?
    ensures Run(env, actions).Some?
    ensures
      var w := Run(env, actions).value;
      && w.Now(path) == j && !w.locked
      && w.buffers == [Buffer(path, env.Plain(path, j).value, j)]
      && w.cache == map[path := Entry(0, env.StatOf(path, i), i)]
      && w.threads == map[0 := Opened(path, i, 0, j)]
  {
    hide ArchiveOf, Decompressed;
    actions := AdvanceTo(env, [], path, i);
    AppendStep(env, actions, TakeStat(0, path));
    actions := AdvanceTo(env, actions + [TakeStat(0, path)], path, j);
    hide World.Now;
    AppendStep(env, actions, Lock(0));
    actions := actions + [Lock(0)];
    SameNow(Run(env, actions[..|actions| - 1]).value, Run(env, actions).value);
    AppendStep(env, actions, Decompress(0));
    actions := actions + [Decompress(0)];
    SameNow(Run(env, actions[..|actions| - 1]).value, Run(env, actions).value);
    AppendStep(env, actions, Return(0));
    actions := actions + [Return(0)];
    SameNow(Run(env, actions[..|actions| - 1]).value, Run(env, actions).value);
  }

  /** Second opener: stats version k, which looks like version i, and is served version j. */
  lemma RevertIsServedStale(env: Env, path: string, i: nat, j: nat, k: nat) returns (actions: seq<Action>)
    requires i <= j <= k && SameStat(env, path, i, k)
    requires env.Plain(path, j).Some? && env.Plain(path, j) != env.Plain(path, k)
    ensures Run(env, actions).Some? && !Linearizable(env, Run(env, actions).value)
  {
    hide ArchiveOf, Decompressed;
    actions := StoreUnderOlderStat(env, path, i, j);
    actions := AdvanceTo(env, actions, path, k);
    AppendStep(env, actions, TakeStat(1, path));
    actions := actions + [TakeStat(1, path)];
    var w := Run(env, actions).value;
    assert Holds(w.threads[0], 0) && w.Held(0);
    AppendStep(env, actions, Lock(1));
    actions := actions + [Lock(1)];
    AppendStep(env, actions, Return(1));
    actions := actions + [Return(1)];
    var o := Run(env, actions).value.threads[1];
    assert o == Opened(path, k, 0, k);
    assert !SeenAt(env, path, env.Plain(path, j).value, k);
    assert !HandleOk(env, Run(env, actions).value, o);
  }

  /**
   * The cache serves what plain decompression could have served, in every interleaving of opens, drops and rewrites,
   * exactly when no archive's stat comes back after other contents.
   */
  lemma CacheIsLinearizable(env: Env)
    requires env.Valid()
    ensures NeverReverts(env)
       <==> forall actions | Run(env, actions).Some? :: Linearizable(env, Run(env, actions).value)
  {
    if NeverReverts(env) {
      forall actions | Run(env, actions).Some?
        ensures Linearizable(env, Run(env, actions).value)
      {
        RunConsistent(env, actions);
        var w := Run(env, actions).value;
        forall t | t in w.threads
          ensures HandleOk(env, w, w.threads[t])
        {
          assert OpenerOk(env, w, w.threads[t]);
        }
      }
    } else {
      var path, i: nat, j: nat, k: nat :|
        i <= j <= k && SameStat(env, path, i, k) && env.Plain(path, j).Some?
        && env.Plain(path, j) != env.Plain(path, k);
      var actions := RevertIsServedStale(env, path, i, j, k);
    }
  }

  /** Modification times that only move forward are enough. */
  lemma AdvancingMtimesNeverRevert(env: Env)
    requires forall a, i, k | 0 <= i < k < |env.history(a)| ::
        env.history(a)[i].stat.mtime < env.history(a)[k].stat.mtime
    ensures NeverReverts(env)
  {
    forall path, i: nat, j: nat, k: nat | i <= j <= k && SameStat(env, path, i, k) && env.Plain(path, j).Some?
      ensures env.Plain(path, j) == env.Plain(path, k)
    {
      assert i == k;
    }
  }

  /** No two different contents of one path share a stat. */
  ghost predicate StatIdentifiesContents(env: Env) {
    forall path, i: nat, k: nat | SameStat(env, path, i, k) ::
      env.VersionsOf(path)[i].contents == env.VersionsOf(path)[k].contents
  }

  /** Telling contents apart is not enough: a file restored with its old size and mtime is served stale. */
  lemma RestoredFileIsServedStale()
    ensures exists env: Env, actions ::
        (&& env.Valid() && StatIdentifiesContents(env)
         && Run(env, actions).Some? && !Linearizable(env, Run(env, actions).value))
  {
    var versions := [Version([1], Stat(1, 100)), Version([2], Stat(1, 101)), Version([1], Stat(1, 100))];
    var env := Env.Env(Codec((g, b, t) => None, b => Some(b)), a => versions);
    assert Paths.RFind("", 0).None?;
    assert env.Plain("", 0) == Some([1]) && env.Plain("", 1) == Some([2]) && env.Plain("", 2) == Some([1]);
    assert SameStat(env, "", 0, 2);
    var actions := RevertIsServedStale(env, "", 0, 1, 2);
  }
}
