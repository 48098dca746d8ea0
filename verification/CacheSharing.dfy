// One buffer per archive: while a file is not rewritten, everybody who opens it shares one decompression.
module CacheSharing {
  import opened Wrappers
  import opened Bytes
  import opened OpenZL
  import opened ArchiveRead
  import opened ArchiveCache

  predicate InCriticalSection(o: Opener) { o.Hit? || o.Missed? || o.Loaded? }

  /** At most one thread is in the critical section. */
  ghost predicate MutexHeldByOne(w: World) {
    && (forall t | t in w.threads && InCriticalSection(w.threads[t]) :: w.locked)
    && (forall s, t | s in w.threads && t in w.threads && s != t ::
          !InCriticalSection(w.threads[s]) || !InCriticalSection(w.threads[t]))
  }

  /** Entries and holders only refer to buffers of their own path. */
  ghost predicate PathsMatch(w: World) {
    && (forall t | t in w.threads && HeldBy(w.threads[t]).Some? ::
          HeldBy(w.threads[t]).value < |w.buffers| && w.buffers[HeldBy(w.threads[t]).value].path == w.threads[t].path)
    && (forall p | p in w.cache :: w.cache[p].buffer < |w.buffers| && w.buffers[w.cache[p].buffer].path == p)
  }

  lemma StepKeepsMutex(env: Env, w: World, a: Action)
    requires MutexHeldByOne(w) && Step(env, w, a).Some?
    ensures MutexHeldByOne(Step(env, w, a).value)
  {
    hide ArchiveOf, Decompressed, LockWeak, World.Now;
    if (a.Lock? || a.Decompress? || a.Return? || a.Drop?) && InCriticalSection(w.threads[a.thread]) {
      assert forall t | t in w.threads && t != a.thread :: !InCriticalSection(w.threads[t]);
    }
  }

  lemma LockKeepsPaths(w: World, t: nat)
    requires PathsMatch(w) && LockStep(w, t).Some?
    ensures PathsMatch(LockStep(w, t).value)
  {
    hide World.Held;
  }

  lemma ReturnKeepsPaths(w: World, t: nat)
    requires PathsMatch(w) && ReturnStep(w, t).Some?
    ensures PathsMatch(ReturnStep(w, t).value)
  {
    hide World.Now;
  }

  lemma StepKeepsPaths(env: Env, w: World, a: Action)
    requires PathsMatch(w) && Step(env, w, a).Some?
    ensures PathsMatch(Step(env, w, a).value)
  {
    hide ArchiveOf, Decompressed, World.Now, World.Held, Env.StatOf, Env.VersionsOf, LockStep, ReturnStep;
    match a
    case Lock(t) => LockKeepsPaths(w, t);
    case Return(t) => ReturnKeepsPaths(w, t);
    case _ =>
  }

  // ---- sharing between rewrites ----

  /** The thread holds the buffer of the path's entry, and the entry is stored under this stat. */
  predicate HoldsEntry(w: World, t: nat, path: string, stat: Stat)
    requires t in w.threads
  {
    path in w.cache && w.cache[path].stat == stat && HeldBy(w.threads[t]) == Some(w.cache[path].buffer)
  }

  /** The thread holds a buffer of what the archive holds under this stat: the entry's, or one about to be stored. */
  predicate HoldsCurrent(w: World, t: nat, path: string, stat: Stat)
    requires t in w.threads
  {
    && w.threads[t].path == path
    && (HoldsEntry(w, t, path, stat) || (w.threads[t].Loaded? && w.threads[t].stat == stat))
  }

  ghost predicate CurrentHeld(w: World, path: string, stat: Stat) {
    exists t | t in w.threads :: HoldsCurrent(w, t, path, stat)
  }

  /** No thread on the path is between its stat and its return. */
  predicate AllReturned(w: World, path: string) {
    forall t | t in w.threads && w.threads[t].path == path :: w.threads[t].Opened?
  }

  /** What holds of a thread on the path that took its stat since the last rewrite. */
  ghost predicate SharesCurrent(w: World, path: string, stat: Stat, news: set<nat>, t: nat)
    requires t in w.threads
  {
    match w.threads[t]
    case Statted(_, _, s) => s == stat
    case Missed(_, _, s, stale) =>
      s == stat && !CurrentHeld(w, path, stat) && (stale.Some? ==> path in w.cache && w.cache[path].stat != stat)
    case Loaded(_, _, s, _) =>
      && s == stat
      && forall u | u in w.threads && u in news && u != t && w.threads[u].path == path :: w.threads[u].Statted?
    case _ => HoldsEntry(w, t, path, stat)
  }

  ghost predicate Shared(w: World, path: string, stat: Stat, news: set<nat>) {
    forall t | t in w.threads && w.threads[t].path == path ::
      if t in news then SharesCurrent(w, path, stat, news, t) else w.threads[t].Opened?
  }

  /** While nobody is in the critical section, the current buffer is held exactly if the entry can be locked. */
  lemma HeldMeansLive(w: World, path: string, stat: Stat)
    requires MutexHeldByOne(w) && PathsMatch(w) && !w.locked
    ensures CurrentHeld(w, path, stat)
       <==> path in w.cache && w.cache[path].stat == stat && LockWeak(w, path).Some?
  {
    if CurrentHeld(w, path, stat) {
      var t :| t in w.threads && HoldsCurrent(w, t, path, stat);
      assert Holds(w.threads[t], w.cache[path].buffer);
    }
    if path in w.cache && w.cache[path].stat == stat && LockWeak(w, path).Some? {
      var t :| t in w.threads && Holds(w.threads[t], w.cache[path].buffer);
      assert HoldsCurrent(w, t, path, stat);
    }
  }

  /** A step of one thread that leaves the entry alone, and that thread's holding of the current buffer. */
  lemma SameCurrent(w: World, w': World, t: nat, path: string, stat: Stat)
    requires forall s | s != t :: s in w.threads <==> s in w'.threads
    requires forall s | s != t && s in w.threads :: w'.threads[s] == w.threads[s]
    requires path in w.cache <==> path in w'.cache
    requires path in w.cache ==> w'.cache[path] == w.cache[path]
    requires (t in w.threads && HoldsCurrent(w, t, path, stat)) ==> CurrentHeld(w', path, stat)
    requires (t in w'.threads && HoldsCurrent(w', t, path, stat)) ==> CurrentHeld(w, path, stat)
    ensures CurrentHeld(w, path, stat) <==> CurrentHeld(w', path, stat)
  {
    if CurrentHeld(w, path, stat) {
      var s :| s in w.threads && HoldsCurrent(w, s, path, stat);
      assert s != t ==> HoldsCurrent(w', s, path, stat);
    }
    if CurrentHeld(w', path, stat) {
      var s :| s in w'.threads && HoldsCurrent(w', s, path, stat);
      assert s != t ==> HoldsCurrent(w, s, path, stat);
    }
  }

  lemma LockKeepsShared(w: World, t: nat, path: string, stat: Stat, news: set<nat>)
    requires Shared(w, path, stat, news) && MutexHeldByOne(w) && PathsMatch(w) && LockStep(w, t).Some?
    ensures Shared(LockStep(w, t).value, path, stat, news)
    ensures CurrentHeld(LockStep(w, t).value, path, stat) <==> CurrentHeld(w, path, stat)
  {
    HeldMeansLive(w, path, stat);
    hide World.Now, World.Held;
    var w' := LockStep(w, t).value;
    assert w.threads[t].path == path ==> t in news && SharesCurrent(w, path, stat, news, t);
    SameCurrent(w, w', t, path, stat);
    hide CurrentHeld;
    forall s | s in w'.threads && w'.threads[s].path == path
      ensures if s in news then SharesCurrent(w', path, stat, news, s) else w'.threads[s].Opened?
    {
      assert s in news ==> SharesCurrent(w, path, stat, news, s);
    }
  }

  lemma DecompressKeepsShared(env: Env, w: World, t: nat, path: string, stat: Stat, news: set<nat>)
    requires Shared(w, path, stat, news) && MutexHeldByOne(w) && DecompressStep(env, w, t).Some?
    ensures
      var w' := DecompressStep(env, w, t).value;
      && Shared(w', path, stat, news)
      && (|w'.buffers| > |w.buffers| && w.threads[t].path == path ==>
            !CurrentHeld(w, path, stat) && CurrentHeld(w', path, stat))
      && (|w'.buffers| == |w.buffers| || w.threads[t].path != path ==>
            (CurrentHeld(w', path, stat) ==> CurrentHeld(w, path, stat)))
  {
    hide ArchiveOf, Decompressed, World.Now;
    var w' := DecompressStep(env, w, t).value;
    assert w.threads[t].path == path ==> t in news && SharesCurrent(w, path, stat, news, t);
    if t in w'.threads && w.threads[t].path == path {
      assert HoldsCurrent(w', t, path, stat);
    }
    forall s | s in w'.threads && s != t && HoldsCurrent(w', s, path, stat)
      ensures HoldsCurrent(w, s, path, stat) && CurrentHeld(w, path, stat)
    {
    }
    forall s | s in w'.threads && w'.threads[s].path == path
      ensures if s in news then SharesCurrent(w', path, stat, news, s) else w'.threads[s].Opened?
    {
      assert s != t && s in news ==> SharesCurrent(w, path, stat, news, s);
      assert s != t && s in news && HoldsEntry(w, s, path, stat) ==> HoldsCurrent(w, s, path, stat);
    }
  }

  lemma ReturnKeepsShared(w: World, t: nat, path: string, stat: Stat, news: set<nat>)
    requires Shared(w, path, stat, news) && MutexHeldByOne(w) && ReturnStep(w, t).Some?
    ensures Shared(ReturnStep(w, t).value, path, stat, news)
    ensures CurrentHeld(ReturnStep(w, t).value, path, stat) <==> CurrentHeld(w, path, stat)
  {
    hide World.Now;
    var w' := ReturnStep(w, t).value;
    if w.threads[t].path == path {
      assert t in news && SharesCurrent(w, path, stat, news, t);
      assert HoldsCurrent(w, t, path, stat) && HoldsCurrent(w', t, path, stat);
    } else {
      SameCurrent(w, w', t, path, stat);
    }
    hide CurrentHeld;
    forall s | s in w'.threads && w'.threads[s].path == path
      ensures if s in news then SharesCurrent(w', path, stat, news, s) else w'.threads[s].Opened?
    {
      assert s in news ==> SharesCurrent(w, path, stat, news, s);
    }
  }

  /** The threads that took their stat in a step, or earlier. */
  function NewsAfter(news: set<nat>, a: Action): set<nat> { if a.TakeStat? then news + {a.thread} else news }

  lemma EnvironmentKeepsShared(env: Env, w: World, a: Action, path: string, stat: Stat, news: set<nat>)
    requires Shared(w, path, stat, news) && Step(env, w, a).Some?
    requires a.TakeStat? || a.Drop? || a.Rewrite?
    requires w.Now(path) < |env.VersionsOf(path)| && env.StatOf(path, w.Now(path)) == stat
    ensures Shared(Step(env, w, a).value, path, stat, NewsAfter(news, a))
    ensures CurrentHeld(Step(env, w, a).value, path, stat) ==> CurrentHeld(w, path, stat)
  {
    hide ArchiveOf, Decompressed, World.Now;
    var w' := Step(env, w, a).value;
    forall s | s in w'.threads && HoldsCurrent(w', s, path, stat)
      ensures CurrentHeld(w, path, stat)
    {
      assert s in w.threads && HoldsCurrent(w, s, path, stat);
    }
    hide CurrentHeld;
    forall s | s in w'.threads && w'.threads[s].path == path
      ensures if s in NewsAfter(news, a) then SharesCurrent(w', path, stat, NewsAfter(news, a), s)
              else w'.threads[s].Opened?
    {
      assert s in w.threads && s in news ==> SharesCurrent(w, path, stat, news, s);
    }
  }

  /** How many buffers were ever decompressed for the path. */
  function Decompressions(buffers: seq<Buffer>, path: string): nat {
    if |buffers| == 0 then 0
    else Decompressions(buffers[..|buffers| - 1], path) + (if buffers[|buffers| - 1].path == path then 1 else 0)
  }

  lemma DecompressionsAfterStep(env: Env, w: World, a: Action, path: string)
    requires Step(env, w, a).Some?
    ensures
      var w' := Step(env, w, a).value;
      && |w'.buffers| >= |w.buffers|
      && Decompressions(w'.buffers, path)
         == Decompressions(w.buffers, path)
            + (if |w'.buffers| > |w.buffers| && a.Decompress? && w.threads[a.thread].path == path then 1 else 0)
  {
    hide ArchiveOf, Decompressed, World.Now;
    var w' := Step(env, w, a).value;
    assert |w'.buffers| > |w.buffers| ==> w'.buffers[..|w'.buffers| - 1] == w.buffers;
  }

  /** The step does not rewrite the archive behind the path. */
  predicate Spares(a: Action, path: string) { a.Rewrite? ==> ArchiveOf(a.path) != ArchiveOf(path) }

  /** In one step, sharing is kept, and a decompression of the path is exactly a new period of holding what it holds. */
  lemma StepKeepsShared(env: Env, w: World, a: Action, path: string, stat: Stat, news: set<nat>)
    requires Shared(w, path, stat, news) && MutexHeldByOne(w) && PathsMatch(w)
    requires w.Now(path) < |env.VersionsOf(path)| && env.StatOf(path, w.Now(path)) == stat
    requires Step(env, w, a).Some? && Spares(a, path)
    ensures
      var w' := Step(env, w, a).value;
      && w'.Now(path) == w.Now(path)
      && Shared(w', path, stat, NewsAfter(news, a))
      && Decompressions(w'.buffers, path)
         == Decompressions(w.buffers, path)
            + (if !CurrentHeld(w, path, stat) && CurrentHeld(w', path, stat) then 1 else 0)
  {
    NowStays(env, w, a, path);
    DecompressionsAfterStep(env, w, a, path);
    hide Shared, ArchiveOf, Decompressed, World.Now, Decompressions, CurrentHeld;
    match a
    case Lock(t) => LockKeepsShared(w, t, path, stat, news);
    case Decompress(t) => DecompressKeepsShared(env, w, t, path, stat, news);
    case Return(t) => ReturnKeepsShared(w, t, path, stat, news);
    case TakeStat(t, p) => EnvironmentKeepsShared(env, w, a, path, stat, news);
    case Drop(t) => EnvironmentKeepsShared(env, w, a, path, stat, news);
    case Rewrite(p) => EnvironmentKeepsShared(env, w, a, path, stat, news);
  }

  lemma NowStays(env: Env, w: World, a: Action, path: string)
    requires Step(env, w, a).Some? && Spares(a, path)
    ensures Step(env, w, a).value.Now(path) == w.Now(path)
  {
    hide ArchiveOf, Decompressed;
  }

  lemma {:induction false} RunKeepsMutex(env: Env, actions: seq<Action>)
    requires Run(env, actions).Some?
    ensures MutexHeldByOne(Run(env, actions).value) && PathsMatch(Run(env, actions).value)
  {
    if |actions| > 0 {
      var front, a := actions[..|actions| - 1], actions[|actions| - 1];
      RunKeepsMutex(env, front);
      hide Step, MutexHeldByOne, PathsMatch;
      StepKeepsMutex(env, Run(env, front).value, a);
      StepKeepsPaths(env, Run(env, front).value, a);
    }
  }

  // ---- between two rewrites of an archive ----

  /** The threads that have taken a stat at or after point n of the run. */
  function StattedSince(actions: seq<Action>, n: nat): set<nat> {
    if |actions| <= n then {} else NewsAfter(StattedSince(actions[..|actions| - 1], n), actions[|actions| - 1])
  }

  /** How many times after point n the path went from nobody holding its current buffer to somebody holding it. */
  ghost function PeriodsSince(env: Env, actions: seq<Action>, n: nat, path: string, stat: Stat): nat {
    if |actions| <= n || Run(env, actions).None? then 0
    else
      var before := Run(env, actions[..|actions| - 1]).value;
      PeriodsSince(env, actions[..|actions| - 1], n, path, stat)
      + (if !CurrentHeld(before, path, stat) && CurrentHeld(Run(env, actions).value, path, stat) then 1 else 0)
  }

  /** From point n on the archive is not rewritten, and at n no thread on the path stands between stat and return. */
  ghost predicate Quiet(env: Env, actions: seq<Action>, n: nat, path: string) {
    && n <= |actions| && Run(env, actions[..n]).Some? && AllReturned(Run(env, actions[..n]).value, path)
    && Run(env, actions[..n]).value.Now(path) < |env.VersionsOf(path)|
    && (forall k | n <= k < |actions| :: Spares(actions[k], path))
  }

  /** What stat reports from point n on. */
  function StatAt(env: Env, actions: seq<Action>, n: nat, path: string): Stat
    requires n <= |actions| && Run(env, actions[..n]).Some?
    requires Run(env, actions[..n]).value.Now(path) < |env.VersionsOf(path)|
  {
    env.StatOf(path, Run(env, actions[..n]).value.Now(path))
  }

  lemma {:induction false} RunKeepsSharing(env: Env, actions: seq<Action>, n: nat, path: string)
    requires Run(env, actions).Some? && Quiet(env, actions, n, path)
    ensures
      var start, w, stat := Run(env, actions[..n]).value, Run(env, actions).value, StatAt(env, actions, n, path);
      && w.Now(path) == start.Now(path)
      && Shared(w, path, stat, StattedSince(actions, n))
      && Decompressions(w.buffers, path)
         == Decompressions(start.buffers, path) + PeriodsSince(env, actions, n, path, stat)
  {
    if |actions| == n {
      assert actions[..n] == actions;
    } else {
      var front, a, stat := actions[..|actions| - 1], actions[|actions| - 1], StatAt(env, actions, n, path);
      assert front[..n] == actions[..n];
      assert forall k | 0 <= k < |front| :: front[k] == actions[k];
      RunKeepsSharing(env, front, n, path);
      RunKeepsMutex(env, front);
      hide Step, Shared, CurrentHeld, MutexHeldByOne, PathsMatch, Decompressions, Spares;
      assert Spares(a, path);
      StepKeepsShared(env, Run(env, front).value, a, path, stat, StattedSince(front, n));
    }
  }

  /**
   * Between two rewrites of an archive, in every interleaving: all live handles on a path whose stat was taken since
   * hold one and the same buffer, and there has been exactly one successful decompression per period in which somebody
   * held what the archive now holds.
   */
  lemma HandlesShareBetweenRewrites(env: Env, actions: seq<Action>, n: nat, path: string)
    requires Run(env, actions).Some? && Quiet(env, actions, n, path)
    ensures
      var start, w := Run(env, actions[..n]).value, Run(env, actions).value;
      var since := StattedSince(actions, n);
      && (forall s, t | s in w.threads && t in w.threads && s in since && t in since
                     && w.threads[s].Opened? && w.threads[t].Opened?
                     && w.threads[s].path == path && w.threads[t].path == path ::
            w.threads[s].buffer == w.threads[t].buffer)
      && Decompressions(w.buffers, path)
         == Decompressions(start.buffers, path) + PeriodsSince(env, actions, n, path, StatAt(env, actions, n, path))
  {
    RunKeepsSharing(env, actions, n, path);
    var w, stat, since := Run(env, actions).value, StatAt(env, actions, n, path), StattedSince(actions, n);
    forall s | s in w.threads && s in since && w.threads[s].Opened? && w.threads[s].path == path
      ensures path in w.cache && w.threads[s].buffer == w.cache[path].buffer
    {
      assert SharesCurrent(w, path, stat, since, s);
    }
  }

  // ---- an archive that is never rewritten ----

  /** The archive behind the path is never rewritten. */
  ghost predicate Static(env: Env, path: string) { |env.VersionsOf(path)| == 1 }

  /** How many times the path went from nobody holding it to somebody holding it. */
  ghost function Periods(env: Env, actions: seq<Action>, path: string): nat {
    if |actions| == 0 || Run(env, actions).None? then 0
    else
      var before := Run(env, actions[..|actions| - 1]).value;
      Periods(env, actions[..|actions| - 1], path)
      + (if !before.PathHeld(path) && Run(env, actions).value.PathHeld(path) then 1 else 0)
  }

  lemma StaticIsSpared(env: Env, w: World, a: Action, path: string)
    requires Static(env, path) && w.Now(path) == 0 && Step(env, w, a).Some?
    ensures Spares(a, path)
  {
    hide ArchiveOf, Decompressed;
  }

  lemma {:induction false} EverybodyIsNew(env: Env, actions: seq<Action>)
    requires Run(env, actions).Some?
    ensures forall t | t in Run(env, actions).value.threads :: t in StattedSince(actions, 0)
  {
    if |actions| > 0 {
      var front, a := actions[..|actions| - 1], actions[|actions| - 1];
      EverybodyIsNew(env, front);
      OnlyStatsStart(env, Run(env, front).value, a);
      hide Step;
    }
  }

  lemma OnlyStatsStart(env: Env, w: World, a: Action)
    requires Step(env, w, a).Some?
    ensures forall t | t in Step(env, w, a).value.threads :: t in w.threads || (a.TakeStat? && t == a.thread)
  {
    hide ArchiveOf, Decompressed, World.Now;
  }

  /** No step of a run rewrites the archive. */
  lemma {:induction false} AlwaysSpared(env: Env, actions: seq<Action>, path: string)
    requires Static(env, path) && Run(env, actions).Some?
    ensures Run(env, actions).value.Now(path) == 0
    ensures forall k | 0 <= k < |actions| :: Spares(actions[k], path)
  {
    hide Step, Spares;
    if |actions| > 0 {
      var front, a := actions[..|actions| - 1], actions[|actions| - 1];
      AlwaysSpared(env, front, path);
      var w := Run(env, front).value;
      StaticIsSpared(env, w, a, path);
      hide World.Now;
      NowStays(env, w, a, path);
      forall k | 0 <= k < |actions|
        ensures Spares(actions[k], path)
      {
        assert k < |front| ==> actions[k] == front[k];
      }
    }
  }

  lemma StaticRun(env: Env, actions: seq<Action>, path: string)
    requires Static(env, path) && Run(env, actions).Some?
    ensures Quiet(env, actions, 0, path)
  {
    AlwaysSpared(env, actions, path);
    assert actions[..0] == [];
    hide Spares;
  }

  /** The entry is always stored under the archive's only stat. */
  lemma {:induction false} StaticEntry(env: Env, actions: seq<Action>, path: string)
    requires Static(env, path) && Run(env, actions).Some?
    ensures
      var w := Run(env, actions).value;
      path in w.cache ==> w.cache[path].stat == env.StatOf(path, 0)
  {
    if |actions| > 0 {
      var front, a := actions[..|actions| - 1], actions[|actions| - 1];
      StaticEntry(env, front, path);
      StaticRun(env, front, path);
      EverybodyIsNew(env, front);
      RunKeepsSharing(env, front, 0, path);
      var w := Run(env, front).value;
      assert front[..0] == [];
      if a.Return? && w.threads[a.thread].path == path {
        assert SharesCurrent(w, path, env.StatOf(path, 0), StattedSince(front, 0), a.thread);
      }
      hide Shared, Decompressions, Decompressed, PeriodsSince, CurrentHeld;
    }
  }

  /** So holding the path and holding what the archive holds are the same. */
  lemma StaticHeld(env: Env, actions: seq<Action>, path: string)
    requires Static(env, path) && Run(env, actions).Some?
    ensures
      var w := Run(env, actions).value;
      w.PathHeld(path) <==> CurrentHeld(w, path, env.StatOf(path, 0))
  {
    StaticRun(env, actions, path);
    EverybodyIsNew(env, actions);
    StaticEntry(env, actions, path);
    RunKeepsSharing(env, actions, 0, path);
    assert actions[..0] == [];
    var w, stat := Run(env, actions).value, env.StatOf(path, 0);
    if w.PathHeld(path) {
      var t :| t in w.threads && HoldsPath(w.threads[t], path);
      assert SharesCurrent(w, path, stat, StattedSince(actions, 0), t);
      assert HoldsCurrent(w, t, path, stat);
    }
    if CurrentHeld(w, path, stat) {
      var t :| t in w.threads && HoldsCurrent(w, t, path, stat);
      assert HoldsPath(w.threads[t], path);
    }
  }

  lemma {:induction false} StaticPeriods(env: Env, actions: seq<Action>, path: string)
    requires Static(env, path) && Run(env, actions).Some?
    ensures Periods(env, actions, path) == PeriodsSince(env, actions, 0, path, env.StatOf(path, 0))
  {
    if |actions| > 0 {
      var front := actions[..|actions| - 1];
      StaticPeriods(env, front, path);
      StaticHeld(env, front, path);
      StaticHeld(env, actions, path);
      hide CurrentHeld, Step, World.PathHeld;
    }
  }

  /**
   * While an archive is never rewritten, in every interleaving: all live handles on a path hold one and the same
   * buffer, and there has been exactly one successful decompression per period in which the path was held.
   */
  lemma HandlesShareOneBuffer(env: Env, actions: seq<Action>, path: string)
    requires Static(env, path) && Run(env, actions).Some?
    ensures
      var w := Run(env, actions).value;
      && (forall s, t | s in w.threads && t in w.threads && w.threads[s].Opened? && w.threads[t].Opened?
                     && w.threads[s].path == path && w.threads[t].path == path ::
            w.threads[s].buffer == w.threads[t].buffer)
      && Decompressions(w.buffers, path) == Periods(env, actions, path)
  {
    StaticRun(env, actions, path);
    EverybodyIsNew(env, actions);
    HandlesShareBetweenRewrites(env, actions, 0, path);
    StaticPeriods(env, actions, path);
    assert actions[..0] == [];
  }

  // ---- freed buffers ----

  /** Whoever locks an entry's buffer keeps it alive, to share it or only until its replacement is decompressed. */
  lemma LockingKeepsAlive(w: World, t: nat)
    requires LockStep(w, t).Some? && LockWeak(w, w.threads[t].path).Some?
    ensures LockStep(w, t).value.Held(LockWeak(w, w.threads[t].path).value)
  {
    hide World.Held;
    var w' := LockStep(w, t).value;
    var b := LockWeak(w, w.threads[t].path).value;
    assert Holds(w'.threads[t], b);
    HeldByThread(w', t, b);
  }

  lemma HeldByThread(w: World, t: nat, b: nat)
    requires t in w.threads && Holds(w.threads[t], b)
    ensures w.Held(b)
  {
  }

  lemma FreedStaysFreedOneStep(env: Env, w: World, a: Action, b: nat)
    requires !w.Held(b) && b < |w.buffers| && Step(env, w, a).Some?
    ensures !Step(env, w, a).value.Held(b) && b < |Step(env, w, a).value.buffers|
  {
    hide ArchiveOf, Decompressed, World.Now;
    var w' := Step(env, w, a).value;
    forall t | t in w'.threads
      ensures !Holds(w'.threads[t], b)
    {
      if t in w.threads {
        assert !Holds(w.threads[t], b);
      }
    }
  }

  /** Rewritten or not, a buffer whose last holder is gone is never handed out again. */
  lemma {:induction false} FreedStaysFreed(env: Env, actions: seq<Action>, n: nat, b: nat)
    requires n <= |actions| && Run(env, actions).Some? && Run(env, actions[..n]).Some?
    requires b < |Run(env, actions[..n]).value.buffers| && !Run(env, actions[..n]).value.Held(b)
    ensures !Run(env, actions).value.Held(b) && b < |Run(env, actions).value.buffers|
  {
    if n == |actions| {
      assert actions[..n] == actions;
    } else {
      var front := actions[..|actions| - 1];
      assert front[..n] == actions[..n];
      FreedStaysFreed(env, front, n, b);
      FreedStaysFreedOneStep(env, Run(env, front).value, actions[|actions| - 1], b);
    }
  }
}
