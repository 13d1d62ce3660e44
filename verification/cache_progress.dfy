/** What each step of the cache brings about, beyond the invariant it keeps. */
module CacheProgress {
  import opened Words
  import opened Totals
  import opened ElfCache
  import opened CacheRuns

  // ----- loading -----

  /** The references a context gets: one per mapping whose file could be read. */
  function Wanted(ms: seq<Mapping>): seq<Option<BuildId>> {
    if ms == [] then []
    else [if ms[0].load.Loaded? then Some(ms[0].load.id) else None] + Wanted(ms[1..])
  }

  ghost predicate Recorded(ms: seq<Mapping>) {
    forall m :: m in ms && m.load.Loaded? ==> m.recorded
  }

  /** Maps from which a context can be made. */
  ghost predicate Loadable(m: Maps) {
    m.mappings != [] && m.indexed && Recorded(m.mappings)
  }

  lemma {:induction false} LoadsWanted(clk: Clock, c: Cache, ms: seq<Mapping>, held: seq<Option<BuildId>>)
    ensures var a := LoadMaps(clk, c, ms, held);
            (a.ok <==> Recorded(ms)) && (a.ok ==> a.held == held + Wanted(ms))
    decreases |ms|
  {
    hide Acquire, Put;
    if ms == [] {
      assert held + [] == held;
    } else {
      assert ms == [ms[0]] + ms[1..];
      var first := if ms[0].load.Loaded? then Some(ms[0].load.id) else None;
      assert held + [first] + Wanted(ms[1..]) == held + Wanted(ms);
      if ms[0].load.NoElf? {
        LoadsWanted(clk, c, ms[1..], held + [None]);
      } else if ms[0].recorded {
        LoadsWanted(clk, Acquire(c, ms[0].load), ms[1..], held + [first]);
      }
    }
  }

  /** The contexts of all processes but `pid` and the reload log are as before. */
  ghost predicate Elsewhere(c: Cache, c': Cache, pid: int) {
    c'.pids - {pid} == c.pids - {pid} && c'.reloads == c.reloads
  }

  /** A new context of `pid` with the references of `m`, announced by CREATE, or none when `m` gives none. */
  ghost predicate Created(c: Cache, c': Cache, pid: int, unique: nat, m: Maps) {
    && c'.events == c.events + (if Loadable(m) then [Create(pid, unique)] else [])
    && (pid in c'.pids <==> Loadable(m))
    && (Loadable(m) ==> c'.pids[pid].unique == unique && c'.pids[pid].maps == Wanted(m.mappings))
    && Elsewhere(c, c', pid)
  }

  lemma AdmitCreates(clk: Clock, c: Cache, pid: int, unique: nat, m: Maps)
    requires pid !in c.pids
    ensures Created(c, Admit(clk, c, pid, unique, m), pid, unique, m)
  {
    hide LoadMaps, PutAll, Wanted;
    LoadPidQuiet(clk, c, unique, m);
    LoadsWanted(clk, c, m.mappings, []);
    assert [] + Wanted(m.mappings) == Wanted(m.mappings);
    var (c', p) := LoadPid(clk, c, unique, m);
    assert p.Some? <==> Loadable(m);
  }

  /** The context of `pid` is gone, announced by DESTROY. */
  ghost predicate Dropped(c: Cache, c': Cache, pid: int)
    requires pid in c.pids
  {
    c'.events == c.events + [Destroy(pid, c.pids[pid].unique)] && pid !in c'.pids && Elsewhere(c, c', pid)
  }

  lemma EvictDrops(clk: Clock, c: Cache, pid: int)
    requires pid in c.pids
    ensures Dropped(c, Evict(clk, c, pid), pid)
  {
    hide PutAll;
    var told := c.(events := c.events + [Destroy(pid, c.pids[pid].unique)], pids := c.pids - {pid},
                   stats := c.stats.(pids := c.stats.pids - 1));
    PutAllQuiet(clk, told, c.pids[pid].maps);
  }

  // ----- steps -----

  /** A context for another unique id goes; a missing one comes when the process lives and its maps load. */
  lemma OpenProgress(clk: Clock, c: Cache, pid: int, unique: nat, debug: bool, alive: bool, maps: Maps)
    requires Dated(c.elfs)
    ensures var c' := Do(clk, c, Open(pid, unique, debug, alive, maps));
            if pid !in c.pids then
              if alive || debug then Created(c, c', pid, unique, maps) else c' == c
            else if unique == 0 || unique == c.pids[pid].unique || debug then c' == c
            else if !alive then Dropped(c, c', pid)
            else exists mid :: Dropped(c, mid, pid) && Created(mid, c', pid, unique, maps)
  {
    hide Evict, Admit, Created, Dropped;
    if pid !in c.pids {
      AdmitCreates(clk, c, pid, unique, maps);
    } else {
      EvictDrops(clk, c, pid);
      var mid := Evict(clk, c, pid);
      assert pid !in mid.pids by { DroppedGone(c, mid, pid); }
      AdmitCreates(clk, mid, pid, unique, maps);
    }
  }

  lemma DroppedGone(c: Cache, c': Cache, pid: int)
    requires pid in c.pids && Dropped(c, c', pid)
    ensures pid !in c'.pids
  {
  }

  /** A preload makes a context for a live process that has none, and does nothing else. */
  lemma PreloadProgress(clk: Clock, c: Cache, pid: int, unique: nat, alive: bool, maps: Maps)
    requires Dated(c.elfs)
    ensures var c' := Do(clk, c, Preload(pid, unique, alive, maps));
            if pid !in c.pids && alive then Created(c, c', pid, unique, maps) else c' == c
  {
    hide Admit, Created;
    if pid !in c.pids {
      AdmitCreates(clk, c, pid, unique, maps);
    }
  }

  /** A PC miss of a live process reloads its maps when its delay is over, and otherwise only reads the clock. */
  lemma MissProgress(clk: Clock, c: Cache, pid: int, unique: nat, debug: bool, alive: bool, maps: Maps)
    requires Dated(c.elfs)
    ensures var c', now := Do(clk, c, Miss(pid, unique, debug, alive, maps)), clk(c.ticks);
            if pid !in c.pids then c' == c
            else if now < c.pids[pid].nextReload || !(alive || debug) then c' == c.(ticks := c.ticks + 1)
            else exists mid ::
                   && Dropped(c.(reloads := c.reloads + [Reload(pid, now)]), mid, pid)
                   && Created(mid, c', pid, unique, maps)
  {
    hide Evict, Admit, Created;
    if pid in c.pids {
      var told := c.(ticks := c.ticks + 1, reloads := c.reloads + [Reload(pid, clk(c.ticks))]);
      EvictDrops(clk, told, pid);
      var mid := Evict(clk, told, pid);
      AdmitCreates(clk, mid, pid, unique, maps);
      assert Dropped(c.(reloads := told.reloads), mid, pid);
    }
  }

  /** An exit drops the context it names. */
  lemma ExitProgress(clk: Clock, c: Cache, pid: int, unique: nat)
    requires Dated(c.elfs)
    ensures var c' := Do(clk, c, Exit(pid, unique));
            if pid in c.pids && (unique == 0 || unique == c.pids[pid].unique) then Dropped(c, c', pid) else c' == c
  {
    hide Evict, Dropped;
    if pid in c.pids {
      EvictDrops(clk, c, pid);
    }
  }

  /** A pending sweep frees exactly the retired ELFs whose time is over. */
  lemma SweepProgress(clk: Clock, c: Cache, pending: bool, id: BuildId)
    requires SaneClock(clk) && Inv(clk, c) && id in c.elfs
    ensures Dated(c.elfs)
    ensures var c' := Do(clk, c, MaybeSweep(pending));
            && (!pending ==> c' == c)
            && (id !in c'.elfs <==> pending && c.elfs[id].retired && c.elfs[id].deadline <= clk(c.ticks))
            && (id in c'.elfs ==> c'.elfs[id] == c.elfs[id])
  {
    hide Sound, Announced, Spaced, Total, Least;
    SoundDated(c, []);
    hide Dated;
    if pending {
      var later, now := c.(ticks := c.ticks + 1), clk(c.ticks);
      assert now + RELOAD_MAX < FOREVER;
      SoundLogs(c, later, []);
      LazyIsEager(later, now, []);
      if c.stats.retired == 0 {
        NothingDead(c, now, []);
        assert id !in Dead(c.elfs, now);
      }
    }
  }

  /** Giving back the last reference retires an ELF for ten seconds; any other only counts down. */
  lemma PutProgress(clk: Clock, c: Cache, id: BuildId)
    requires id in c.elfs && !c.elfs[id].retired
    ensures var e, e' := c.elfs[id], Put(clk, c, id).elfs[id];
            e' == if e.refcnt == 1 then e.(refcnt := 0, retired := true, deadline := clk(c.ticks) + 10_000_000_000)
                  else e.(refcnt := e.refcnt - 1)
  {
  }

  /** The next reload of a new context is due 30 to 90 seconds after its maps were read. */
  lemma ReloadDue(clk: Clock, c: Cache, unique: nat, m: Maps)
    ensures var (c', p) := LoadPid(clk, c, unique, m);
            p.Some? ==> c'.ticks > 0 && var read := clk(c'.ticks - 1);
                        read + 30_000_000_000 <= p.value.nextReload <= read + 90_000_000_000
  {
    hide LoadMaps, PutAll;
  }
}
