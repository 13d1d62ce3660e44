/** Every run of the cache: samples, preloads, PC misses, exits and sweeps in any order. */
module CacheRuns {
  import opened Words
  import opened Totals
  import opened ElfCache

  // ----- steps -----

  /** `debug` is the replay mode without live processes; `alive` answers the signal-0 probe. */
  datatype Step =
    | MaybeSweep(pending: bool)
    | Open(pid: int, unique: nat, debug: bool, alive: bool, maps: Maps)
    | Preload(pid: int, unique: nat, alive: bool, maps: Maps)
    | Miss(pid: int, unique: nat, debug: bool, alive: bool, maps: Maps)
    | Exit(pid: int, unique: nat)

  /** A sample of a process whose unique id changed drops the old context first. */
  function DropStale(clk: Clock, c: Cache, pid: int, unique: nat, debug: bool): Cache {
    if unique != 0 && pid in c.pids && c.pids[pid].unique != unique && !debug then Evict(clk, c, pid) else c
  }

  function OpenPid(clk: Clock, c: Cache, pid: int, unique: nat, debug: bool, alive: bool, maps: Maps): Cache {
    var c' := DropStale(clk, c, pid, unique, debug);
    if pid in c'.pids || (!alive && !debug) then c' else Admit(clk, c', pid, unique, maps)
  }

  /** A PC outside every known mapping reloads the maps once the context's delay has passed. */
  function MissPc(clk: Clock, c: Cache, pid: int, unique: nat, debug: bool, alive: bool, maps: Maps): Cache {
    if pid !in c.pids then c
    else
      var now, c' := clk(c.ticks), c.(ticks := c.ticks + 1);
      if now < c.pids[pid].nextReload || (!alive && !debug) then c'
      else Admit(clk, Evict(clk, c'.(reloads := c.reloads + [Reload(pid, now)]), pid), pid, unique, maps)
  }

  function ExitPid(clk: Clock, c: Cache, pid: int, unique: nat): Cache {
    if pid in c.pids && (unique == 0 || c.pids[pid].unique == unique) then Evict(clk, c, pid) else c
  }

  ghost function SweepNow(clk: Clock, c: Cache, pending: bool): Cache
    requires Dated(c.elfs)
  {
    if c.stats.retired == 0 || !pending then c else Sweep(c.(ticks := c.ticks + 1), clk(c.ticks))
  }

  ghost function Do(clk: Clock, c: Cache, s: Step): Cache
    requires Dated(c.elfs)
  {
    match s
    case MaybeSweep(pending) => SweepNow(clk, c, pending)
    case Open(pid, unique, debug, alive, maps) => OpenPid(clk, c, pid, unique, debug, alive, maps)
    case Preload(pid, unique, alive, maps) =>
      if pid in c.pids || !alive then c else Admit(clk, c, pid, unique, maps)
    case Miss(pid, unique, debug, alive, maps) => MissPc(clk, c, pid, unique, debug, alive, maps)
    case Exit(pid, unique) => ExitPid(clk, c, pid, unique)
  }

  // ----- what no step changes by the way -----

  /** Only references moved: contexts and logs stay, time goes on, no ELF is lost. */
  ghost predicate Quiet(c: Cache, c': Cache) {
    && c'.pids == c.pids && c'.events == c.events && c'.reloads == c.reloads
    && c'.stats.pids == c.stats.pids && c.ticks <= c'.ticks
    && c.elfs.Keys <= c'.elfs.Keys
  }

  lemma PutQuiet(clk: Clock, c: Cache, id: BuildId)
    requires id in c.elfs
    ensures Quiet(c, Put(clk, c, id))
  {
  }

  lemma AcquireQuiet(c: Cache, l: Load)
    requires l.Loaded?
    ensures Quiet(c, Acquire(c, l))
  {
  }

  lemma {:induction false} PutAllQuiet(clk: Clock, c: Cache, held: seq<Option<BuildId>>)
    ensures Quiet(c, PutAll(clk, c, held))
    decreases |held|
  {
    hide Put;
    if held != [] {
      if held[0].Some? && held[0].value in c.elfs {
        PutQuiet(clk, c, held[0].value);
        PutAllQuiet(clk, Put(clk, c, held[0].value), held[1..]);
      } else {
        PutAllQuiet(clk, c, held[1..]);
      }
    }
  }

  lemma {:induction false} LoadMapsQuiet(clk: Clock, c: Cache, ms: seq<Mapping>, held: seq<Option<BuildId>>)
    ensures Quiet(c, LoadMaps(clk, c, ms, held).c)
    decreases |ms|
  {
    hide Put;
    if ms != [] {
      match ms[0].load {
        case NoElf => LoadMapsQuiet(clk, c, ms[1..], held + [None]);
        case Loaded(id, _, _, _) =>
          var c' := Acquire(c, ms[0].load);
          AcquireQuiet(c, ms[0].load);
          if ms[0].recorded {
            LoadMapsQuiet(clk, c', ms[1..], held + [Some(id)]);
          } else {
            PutQuiet(clk, c', id);
          }
      }
    }
  }

  lemma LoadPidQuiet(clk: Clock, c: Cache, unique: nat, m: Maps)
    ensures Quiet(c, LoadPid(clk, c, unique, m).0)
  {
    hide LoadMaps, PutAll;
    LoadMapsQuiet(clk, c, m.mappings, []);
    var a := LoadMaps(clk, c, m.mappings, []);
    PutAllQuiet(clk, a.c, a.held);
  }

  // ----- the invariant of every run -----

  /** The contexts that a log of events leaves open; `None` for a log that is out of order. */
  function Replay(events: seq<Event>): Option<map<int, nat>>
    decreases |events|
  {
    if events == [] then Some(map[])
    else
      var open :- Replay(events[..|events| - 1]);
      match events[|events| - 1]
      case Create(pid, unique) => if pid in open then None else Some(open[pid := unique])
      case Destroy(pid, unique) => if pid in open && open[pid] == unique then Some(open - {pid}) else None
  }

  function Uniques(pids: map<int, Pid>): map<int, nat> {
    map p | p in pids :: pids[p].unique
  }

  /** Contexts and the event log agree, and so does the counter. */
  ghost predicate Announced(c: Cache) {
    Replay(c.events) == Some(Uniques(c.pids)) && c.stats.pids == |c.pids|
  }

  ghost predicate Apart(reloads: seq<Reload>) {
    forall i, j :: 0 <= i < j < |reloads| && reloads[i].pid == reloads[j].pid ==>
                     reloads[i].time + RELOAD_MIN <= reloads[j].time
  }

  /**
   * Reloads so far are spaced, lie in the past, and every context waits for its own delay.
   * A context always has a time set, so a miss never finds one still to be scheduled.
   */
  ghost predicate Spaced(clk: Clock, c: Cache) {
    && Apart(c.reloads)
    && (forall r :: r in c.reloads ==> r.time <= clk(c.ticks))
    && (forall p :: p in c.pids ==> c.pids[p].nextReload > 0)
    && (forall r :: r in c.reloads && r.pid in c.pids ==> r.time + RELOAD_MIN <= c.pids[r.pid].nextReload)
  }

  ghost predicate Inv(clk: Clock, c: Cache) {
    Sound(c, []) && Announced(c) && Spaced(clk, c)
  }

  lemma ReplayDestroy(events: seq<Event>, pids: map<int, Pid>, pid: int)
    requires pid in pids && Replay(events) == Some(Uniques(pids))
    ensures Replay(events + [Destroy(pid, pids[pid].unique)]) == Some(Uniques(pids - {pid}))
  {
    var more := events + [Destroy(pid, pids[pid].unique)];
    assert more[..|more| - 1] == events;
    assert Uniques(pids) - {pid} == Uniques(pids - {pid});
  }

  lemma ReplayCreate(events: seq<Event>, pids: map<int, Pid>, pid: int, p: Pid)
    requires pid !in pids && Replay(events) == Some(Uniques(pids))
    ensures Replay(events + [Create(pid, p.unique)]) == Some(Uniques(pids[pid := p]))
  {
    var more := events + [Create(pid, p.unique)];
    assert more[..|more| - 1] == events;
    assert Uniques(pids)[pid := p.unique] == Uniques(pids[pid := p]);
  }

  lemma EvictAnnounced(clk: Clock, c: Cache, pid: int)
    requires pid in c.pids && Announced(c)
    ensures Announced(Evict(clk, c, pid))
  {
    hide PutAll, Replay, Uniques;
    var c' := c.(events := c.events + [Destroy(pid, c.pids[pid].unique)], pids := c.pids - {pid},
                 stats := c.stats.(pids := c.stats.pids - 1));
    PutAllQuiet(clk, c', c.pids[pid].maps);
    ReplayDestroy(c.events, c.pids, pid);
    Shrinks(c.pids, pid);
  }

  lemma AdmitAnnounced(clk: Clock, c: Cache, pid: int, unique: nat, m: Maps)
    requires pid !in c.pids && Announced(c)
    ensures Announced(Admit(clk, c, pid, unique, m))
  {
    hide LoadPid, Replay, Uniques;
    LoadPidQuiet(clk, c, unique, m);
    LoadedUnique(clk, c, unique, m);
    var (c', p) := LoadPid(clk, c, unique, m);
    if p.Some? {
      ReplayCreate(c.events, c.pids, pid, p.value);
      var pids := c.pids[pid := p.value];
      Shrinks(pids, pid);
      assert pids - {pid} == c.pids;
    }
  }

  lemma LoadedUnique(clk: Clock, c: Cache, unique: nat, m: Maps)
    ensures var (c', p) := LoadPid(clk, c, unique, m);
            p.Some? ==> p.value.unique == unique && c'.ticks > 0 && p.value.nextReload >= clk(c'.ticks - 1) + RELOAD_MIN
                        && c.ticks < c'.ticks
  {
    hide LoadMaps, PutAll;
    LoadMapsQuiet(clk, c, m.mappings, []);
  }

  /** Dropping contexts and letting time pass keeps reloads apart. */
  lemma SpacedLater(clk: Clock, c: Cache, c': Cache)
    requires SaneClock(clk) && Spaced(clk, c) && c'.reloads == c.reloads && c.ticks <= c'.ticks
    requires forall p :: p in c'.pids ==> p in c.pids && c'.pids[p] == c.pids[p]
    ensures Spaced(clk, c')
  {
    hide Apart;
    assert clk(c.ticks) <= clk(c'.ticks);
    forall r | r in c'.reloads && r.pid in c'.pids ensures r.time + RELOAD_MIN <= c'.pids[r.pid].nextReload {
      assert r in c.reloads && r.pid in c.pids;
    }
  }

  lemma EvictFrame(clk: Clock, c: Cache, pid: int)
    requires pid in c.pids
    ensures var c' := Evict(clk, c, pid);
            && c'.pids == c.pids - {pid} && c'.reloads == c.reloads && c.ticks <= c'.ticks && c.elfs.Keys <= c'.elfs.Keys
  {
    hide PutAll;
    var c' := c.(events := c.events + [Destroy(pid, c.pids[pid].unique)], pids := c.pids - {pid},
                 stats := c.stats.(pids := c.stats.pids - 1));
    PutAllQuiet(clk, c', c.pids[pid].maps);
  }

  lemma EvictSound(clk: Clock, c: Cache, pid: int)
    requires pid in c.pids && Sound(c, [])
    ensures Sound(Evict(clk, c, pid), [])
  {
    hide ClearPid, Sound;
    var told := c.(events := c.events + [Destroy(pid, c.pids[pid].unique)]);
    SoundLogs(c, told, []);
    ClearPidSound(clk, told, pid);
  }

  lemma EvictKeeps(clk: Clock, c: Cache, pid: int)
    requires SaneClock(clk) && pid in c.pids && Inv(clk, c)
    ensures Inv(clk, Evict(clk, c, pid))
  {
    hide Evict, Sound, Announced, Spaced;
    EvictFrame(clk, c, pid);
    EvictSound(clk, c, pid);
    EvictAnnounced(clk, c, pid);
    SpacedLater(clk, c, Evict(clk, c, pid));
  }

  /** The accounts do not depend on the logs and the clock. */
  lemma SoundLogs(c: Cache, c': Cache, held: seq<Option<BuildId>>)
    requires Sound(c, held) && c'.elfs == c.elfs && c'.pids == c.pids && c'.next == c.next
    requires c'.stats == c.stats.(pids := c'.stats.pids)
    ensures Sound(c', held)
  {
    hide Total, RetiredIffUnreferenced, Bounded, RefCnt;
  }

  lemma AdmitSound(clk: Clock, c: Cache, pid: int, unique: nat, m: Maps)
    requires pid !in c.pids && Sound(c, [])
    ensures Sound(Admit(clk, c, pid, unique, m), [])
  {
    hide LoadMaps, PutAll, Sound;
    LoadMapsQuiet(clk, c, m.mappings, []);
    LoadMapsSound(clk, c, m.mappings, []);
    var a := LoadMaps(clk, c, m.mappings, []);
    if m.mappings != [] {
      if a.ok && m.indexed {
        HandOver(a.c, Admit(clk, c, pid, unique, m), pid, a.held);
      } else {
        PutAllSound(clk, a.c, a.held);
      }
    }
  }

  /** References in hand become those of a new context. */
  lemma HandOver(c: Cache, c': Cache, pid: int, held: seq<Option<BuildId>>)
    requires Sound(c, held) && pid !in c.pids && pid in c'.pids && c'.pids[pid].maps == held
    requires c'.pids == c.pids[pid := c'.pids[pid]] && c'.elfs == c.elfs && c'.next == c.next
    requires c'.stats == c.stats.(pids := c'.stats.pids)
    ensures Sound(c', [])
  {
    hide Total, RetiredIffUnreferenced, Bounded, Counted;
    assert c'.pids - {pid} == c.pids;
    InHand(c', c, pid);
  }

  lemma AdmitSpaced(clk: Clock, c: Cache, pid: int, unique: nat, m: Maps)
    requires SaneClock(clk) && pid !in c.pids && Spaced(clk, c)
    ensures Spaced(clk, Admit(clk, c, pid, unique, m))
  {
    hide Apart;
    LoadPidQuiet(clk, c, unique, m);
    LoadedUnique(clk, c, unique, m);
    hide LoadPid;
    var (c', p) := LoadPid(clk, c, unique, m);
    SpacedLater(clk, c, c');
    if p.Some? {
      assert clk(c.ticks) <= clk(c'.ticks - 1);
    }
  }

  lemma AdmitKeeps(clk: Clock, c: Cache, pid: int, unique: nat, m: Maps)
    requires SaneClock(clk) && pid !in c.pids && Inv(clk, c)
    ensures Inv(clk, Admit(clk, c, pid, unique, m)) && c.elfs.Keys <= Admit(clk, c, pid, unique, m).elfs.Keys
  {
    LoadPidQuiet(clk, c, unique, m);
    hide LoadPid, Sound, Announced, Spaced;
    AdmitSound(clk, c, pid, unique, m);
    AdmitAnnounced(clk, c, pid, unique, m);
    AdmitSpaced(clk, c, pid, unique, m);
  }

  // ----- PC misses -----

  /** A reload that is due comes at least the minimum delay after every earlier one of its process. */
  lemma ReloadSpaced(clk: Clock, c: Cache, c': Cache, pid: int)
    requires SaneClock(clk) && Spaced(clk, c) && pid in c.pids && c.pids[pid].nextReload <= clk(c.ticks)
    requires c'.reloads == c.reloads + [Reload(pid, clk(c.ticks))] && c'.pids == c.pids - {pid} && c.ticks < c'.ticks
    ensures Spaced(clk, c')
  {
    assert clk(c.ticks) <= clk(c'.ticks);
    forall i, j | 0 <= i < j < |c'.reloads| && c'.reloads[i].pid == c'.reloads[j].pid
      ensures c'.reloads[i].time + RELOAD_MIN <= c'.reloads[j].time
    {
      assert c'.reloads[i] == c.reloads[i] && c.reloads[i] in c.reloads;
    }
    forall r | r in c'.reloads && r.pid in c'.pids ensures r.time + RELOAD_MIN <= c'.pids[r.pid].nextReload {
      assert r in c.reloads && r.pid in c.pids;
    }
  }

  lemma MissKeeps(clk: Clock, c: Cache, pid: int, unique: nat, debug: bool, alive: bool, maps: Maps)
    requires SaneClock(clk) && Inv(clk, c)
    ensures var c' := MissPc(clk, c, pid, unique, debug, alive, maps);
            Inv(clk, c') && c.elfs.Keys <= c'.elfs.Keys
  {
    hide Evict, Admit, Sound, Announced, Spaced;
    if pid in c.pids {
      var now, later := clk(c.ticks), c.(ticks := c.ticks + 1);
      SoundLogs(c, later, []);
      AnnouncedLogs(c, later);
      SpacedLater(clk, c, later);
      if now >= c.pids[pid].nextReload {
        var logged := later.(reloads := c.reloads + [Reload(pid, now)]);
        SoundLogs(c, logged, []);
        AnnouncedLogs(c, logged);
        EvictFrame(clk, logged, pid);
        EvictSound(clk, logged, pid);
        EvictAnnounced(clk, logged, pid);
        var evicted := Evict(clk, logged, pid);
        ReloadSpaced(clk, c, evicted, pid);
        AdmitKeeps(clk, evicted, pid, unique, maps);
      }
    }
  }

  lemma AnnouncedLogs(c: Cache, c': Cache)
    requires Announced(c) && c'.pids == c.pids && c'.events == c.events && c'.stats.pids == c.stats.pids
    ensures Announced(c')
  {
  }

  // ----- every step and every run -----

  lemma OpenKeeps(clk: Clock, c: Cache, pid: int, unique: nat, debug: bool, alive: bool, maps: Maps)
    requires SaneClock(clk) && Inv(clk, c)
    ensures var c' := OpenPid(clk, c, pid, unique, debug, alive, maps);
            Inv(clk, c') && c.elfs.Keys <= c'.elfs.Keys
  {
    hide Evict, Admit, Inv;
    if unique != 0 && pid in c.pids && c.pids[pid].unique != unique && !debug {
      EvictFrame(clk, c, pid);
      EvictKeeps(clk, c, pid);
    }
    var c' := DropStale(clk, c, pid, unique, debug);
    if pid !in c'.pids && (alive || debug) {
      AdmitKeeps(clk, c', pid, unique, maps);
    }
  }

  lemma SweepKeeps(clk: Clock, c: Cache, pending: bool)
    requires SaneClock(clk) && Inv(clk, c)
    ensures Dated(c.elfs) && Inv(clk, SweepNow(clk, c, pending))
  {
    hide Sound, Announced, Spaced, EagerSweep;
    SoundDated(c, []);
    if c.stats.retired != 0 && pending {
      var later := c.(ticks := c.ticks + 1);
      SoundLogs(c, later, []);
      SweepSound(later, clk(c.ticks));
      var c' := SweepNow(clk, c, pending);
      SweepFrame(later, clk(c.ticks));
      AnnouncedLogs(c, c');
      SpacedLater(clk, c, c');
    }
  }

  lemma SweepFrame(c: Cache, now: nat)
    requires Dated(c.elfs)
    ensures var c' := Sweep(c, now);
            && c'.pids == c.pids && c'.events == c.events && c'.reloads == c.reloads && c'.ticks == c.ticks
            && c'.stats.pids == c.stats.pids
  {
    hide Total, Least;
  }

  lemma StepKeeps(clk: Clock, c: Cache, s: Step)
    requires SaneClock(clk) && Inv(clk, c)
    ensures Dated(c.elfs) && Inv(clk, Do(clk, c, s))
  {
    hide Evict, Admit, SweepNow, OpenPid, MissPc;
    assert Dated(c.elfs) by { SoundDated(c, []); }
    hide Inv, Dated;
    match s {
      case MaybeSweep(pending) => SweepKeeps(clk, c, pending);
      case Open(pid, unique, debug, alive, maps) => OpenKeeps(clk, c, pid, unique, debug, alive, maps);
      case Preload(pid, unique, alive, maps) =>
        if pid !in c.pids {
          AdmitKeeps(clk, c, pid, unique, maps);
        }
      case Miss(pid, unique, debug, alive, maps) => MissKeeps(clk, c, pid, unique, debug, alive, maps);
      case Exit(pid, unique) =>
        if pid in c.pids {
          EvictKeeps(clk, c, pid);
        }
    }
  }

  /** The state after a sequence of steps, from any state that satisfies the invariant. */
  ghost function Run(clk: Clock, c: Cache, steps: seq<Step>): (r: Cache)
    requires SaneClock(clk) && Inv(clk, c)
    ensures Inv(clk, r)
    decreases |steps|
  {
    if steps == [] then c
    else
      StepKeeps(clk, c, steps[0]);
      Run(clk, Do(clk, c, steps[0]), steps[1..])
  }

  lemma FreshInv(clk: Clock)
    ensures Inv(clk, FRESH)
  {
    forall id: BuildId ensures Refs(FRESH.pids, [], id) == 0 {
      TotalZero(FRESH.pids, RefsOf(id));
    }
    TotalZero(FRESH.elfs, ActiveOf);
    TotalZero(FRESH.elfs, RetiredOf);
    TotalZero(FRESH.elfs, SymOf);
    TotalZero(FRESH.elfs, CfiOf);
    TotalZero(FRESH.elfs, CfiDataOf);
    assert Uniques(FRESH.pids) == map[];
  }

  /** The state after a sequence of steps on a new context. */
  ghost function Reached(clk: Clock, steps: seq<Step>): (c: Cache)
    requires SaneClock(clk)
    ensures Inv(clk, c)
  {
    FreshInv(clk);
    Run(clk, FRESH, steps)
  }

  // ----- what the invariant says about a reachable cache -----

  lemma {:induction false} TotalIsSize(elfs: map<BuildId, Elf>, s: set<BuildId>, f: Elf -> nat)
    requires forall id :: id in s ==> id in elfs && f(elfs[id]) == 1
    requires forall id :: id in elfs && id !in s ==> f(elfs[id]) == 0
    ensures Total(elfs, f) == |s|
    decreases |s|
  {
    if id :| id in s {
      TotalDrop(elfs, id, f);
      TotalIsSize(elfs - {id}, s - {id}, f);
    } else {
      TotalZero(elfs, f);
    }
  }

  /** Each reference count is the number of mappings that refer to the ELF; nothing referenced is missing. */
  ghost predicate ExactCounts(c: Cache) {
    && (forall id :: id in c.elfs ==> c.elfs[id].refcnt == Total(c.pids, RefsOf(id)))
    && (forall id :: id in c.elfs ==> (c.elfs[id].retired <==> Total(c.pids, RefsOf(id)) == 0))
    && (forall p, i :: p in c.pids && 0 <= i < |c.pids[p].maps| && c.pids[p].maps[i].Some?
          ==> c.pids[p].maps[i].value in c.elfs)
  }

  function ActiveSet(elfs: map<BuildId, Elf>): set<BuildId> {
    set id | id in elfs && !elfs[id].retired
  }

  function RetiredSet(elfs: map<BuildId, Elf>): set<BuildId> {
    set id | id in elfs && elfs[id].retired
  }

  /** The counters are the sizes of the active and retired sets, the totals the sums over all entries. */
  ghost predicate ExactStats(c: Cache) {
    && c.stats.active == |ActiveSet(c.elfs)| && c.stats.retired == |RetiredSet(c.elfs)|
    && c.stats.symBytes == Total(c.elfs, SymOf) && c.stats.cfiBytes == Total(c.elfs, CfiOf)
    && c.stats.cfiDataBytes == Total(c.elfs, CfiDataOf)
  }

  lemma SoundCounts(c: Cache)
    requires Sound(c, [])
    ensures ExactCounts(c)
  {
    hide Total, Tallied, Bounded;
    forall id | id in c.elfs ensures c.elfs[id].refcnt == Total(c.pids, RefsOf(id)) {
      assert RefCnt(c.elfs, id) == Refs(c.pids, [], id);
    }
    forall p, i | p in c.pids && 0 <= i < |c.pids[p].maps| && c.pids[p].maps[i].Some?
      ensures c.pids[p].maps[i].value in c.elfs
    {
      Referenced(c, p, i);
    }
  }

  lemma SoundStats(c: Cache)
    requires Sound(c, [])
    ensures ExactStats(c)
  {
    hide Total, Counted, RetiredIffUnreferenced, Bounded;
    TotalIsSize(c.elfs, ActiveSet(c.elfs), ActiveOf);
    TotalIsSize(c.elfs, RetiredSet(c.elfs), RetiredOf);
  }

  /** The accounts of every reachable cache. */
  lemma ReachableAccounts(clk: Clock, steps: seq<Step>)
    requires SaneClock(clk)
    ensures var c := Reached(clk, steps); ExactCounts(c) && ExactStats(c)
  {
    hide Reached, Sound, ExactCounts, ExactStats, Announced, Spaced;
    SoundCounts(Reached(clk, steps));
    SoundStats(Reached(clk, steps));
  }

  lemma Referenced(c: Cache, pid: int, i: nat)
    requires Counted(c, []) && pid in c.pids && i < |c.pids[pid].maps| && c.pids[pid].maps[i].Some?
    ensures c.pids[pid].maps[i].value in c.elfs
  {
    var id := c.pids[pid].maps[i].value;
    TotalDrop(c.pids, pid, RefsOf(id));
    assert RefCnt(c.elfs, id) == Refs(c.pids, [], id);
    assert c.pids[pid].maps[i] in multiset(c.pids[pid].maps);
  }

  // ----- events -----

  /** Events `i` and `j` of one process with none of its events between them. */
  ghost predicate Consecutive(events: seq<Event>, i: nat, j: nat) {
    && i < j < |events| && events[i].pid == events[j].pid
    && forall k :: i < k < j ==> events[k].pid != events[i].pid
  }

  lemma {:induction false} ReplayPrefix(events: seq<Event>, n: nat)
    requires Replay(events).Some? && n <= |events|
    ensures Replay(events[..n]).Some?
    decreases |events|
  {
    if n < |events| {
      var front := events[..|events| - 1];
      ReplayPrefix(front, n);
      assert front[..n] == events[..n];
    } else {
      assert events[..n] == events;
    }
  }

  /** The last event of a process decides whether it has a context. */
  lemma {:induction false} LastEventDecides(events: seq<Event>, i: nat, n: nat)
    requires i < n <= |events| && Replay(events[..n]).Some?
    requires forall k :: i < k < n ==> events[k].pid != events[i].pid
    ensures var open := Replay(events[..n]).value;
            && (events[i].Create? ==> events[i].pid in open && open[events[i].pid] == events[i].unique)
            && (events[i].Destroy? ==> events[i].pid !in open)
    decreases n
  {
    assert events[..n][..n - 1] == events[..n - 1];
    assert events[..n][n - 1] == events[n - 1];
    if i < n - 1 {
      LastEventDecides(events, i, n - 1);
    }
  }

  lemma LogAlternates(events: seq<Event>, i: nat, j: nat)
    requires Replay(events).Some? && Consecutive(events, i, j)
    ensures if events[i].Create? then events[j] == Destroy(events[i].pid, events[i].unique) else events[j].Create?
  {
    ReplayPrefix(events, j + 1);
    var upTo := events[..j + 1];
    assert upTo[..|upTo| - 1] == events[..j] && upTo[j] == events[j];
    LastEventDecides(events, i, j);
  }

  /** In every run the events of a process alternate, and a DESTROY names the unique id of its CREATE. */
  lemma EventsAlternate(clk: Clock, steps: seq<Step>, i: nat, j: nat)
    requires SaneClock(clk) && Consecutive(Reached(clk, steps).events, i, j)
    ensures var events := Reached(clk, steps).events;
            if events[i].Create? then events[j] == Destroy(events[i].pid, events[i].unique) else events[j].Create?
  {
    hide Reached, Sound, Spaced, Replay, Uniques, Consecutive;
    LogAlternates(Reached(clk, steps).events, i, j);
  }

  /** A process has a context exactly when its last event was CREATE, with that unique id. */
  lemma ContextIffCreated(clk: Clock, steps: seq<Step>, i: nat)
    requires SaneClock(clk) && i < |Reached(clk, steps).events|
    requires var events := Reached(clk, steps).events;
             forall k :: i < k < |events| ==> events[k].pid != events[i].pid
    ensures var c := Reached(clk, steps);
            var e := c.events[i];
            && c.stats.pids == |c.pids|
            && (e.pid in c.pids <==> e.Create?) && (e.Create? ==> c.pids[e.pid].unique == e.unique)
  {
    var c := Reached(clk, steps);
    hide Reached, Sound, Spaced;
    assert c.events[..|c.events|] == c.events;
    LastEventDecides(c.events, i, |c.events|);
  }

  /** In every run the PC-miss reloads of one process are at least thirty seconds apart. */
  lemma ReloadsApart(clk: Clock, steps: seq<Step>)
    requires SaneClock(clk)
    ensures Apart(Reached(clk, steps).reloads)
  {
    hide Reached, Sound, Announced, Apart;
  }

  // ----- what a step may free -----

  lemma SweepFrees(c: Cache, now: nat, id: BuildId)
    requires Dated(c.elfs) && id in c.elfs && now < FOREVER
    ensures id !in Sweep(c, now).elfs ==> c.elfs[id].retired && c.elfs[id].deadline <= now
  {
    hide Total, Least;
  }

  lemma RetiredUnreferenced(c: Cache, id: BuildId)
    requires Sound(c, []) && id in c.elfs && c.elfs[id].retired
    ensures Total(c.pids, RefsOf(id)) == 0
  {
    hide Total, Tallied, Bounded;
    assert RefCnt(c.elfs, id) == Refs(c.pids, [], id);
  }

  /** Only a sweep frees an ELF, and only one without references whose deadline has passed. */
  lemma FreedOnlyWhenDue(clk: Clock, c: Cache, s: Step, id: BuildId)
    requires SaneClock(clk) && Inv(clk, c) && id in c.elfs
    ensures Dated(c.elfs)
    ensures id !in Do(clk, c, s).elfs ==>
              s.MaybeSweep? && c.elfs[id].retired && Total(c.pids, RefsOf(id)) == 0 && c.elfs[id].deadline <= clk(c.ticks)
  {
    hide Evict, Admit, OpenPid, MissPc, Sound, Sweep, Total;
    assert Dated(c.elfs) by { SoundDated(c, []); }
    hide Dated;
    match s {
      case MaybeSweep(pending) =>
        assert clk(c.ticks) + RELOAD_MAX < FOREVER;
        SweepFrees(c.(ticks := c.ticks + 1), clk(c.ticks), id);
        if c.elfs[id].retired {
          RetiredUnreferenced(c, id);
        }
      case Open(pid, unique, debug, alive, maps) => OpenKeeps(clk, c, pid, unique, debug, alive, maps);
      case Preload(pid, unique, alive, maps) =>
        if pid !in c.pids {
          AdmitKeeps(clk, c, pid, unique, maps);
        }
      case Miss(pid, unique, debug, alive, maps) => MissKeeps(clk, c, pid, unique, debug, alive, maps);
      case Exit(pid, unique) =>
        if pid in c.pids {
          EvictFrame(clk, c, pid);
        }
    }
  }

  // ----- cleanup -----

  /** Clears contexts without announcing it. */
  function ClearAll(clk: Clock, c: Cache, order: seq<int>): Cache
    decreases |order|
  {
    if order == [] then c
    else if order[0] in c.pids then ClearAll(clk, ClearPid(clk, c, order[0]), order[1..])
    else ClearAll(clk, c, order[1..])
  }

  lemma ClearFrame(clk: Clock, c: Cache, pid: int)
    requires pid in c.pids
    ensures var c' := ClearPid(clk, c, pid);
            c'.pids == c.pids - {pid} && c'.stats.pids == c.stats.pids - 1 && c'.events == c.events
  {
    hide PutAll;
    var c' := c.(pids := c.pids - {pid}, stats := c.stats.(pids := c.stats.pids - 1));
    PutAllQuiet(clk, c', c.pids[pid].maps);
  }

  lemma {:induction false} ClearAllSound(clk: Clock, c: Cache, order: seq<int>)
    requires Sound(c, []) && c.stats.pids == |c.pids|
    requires forall p :: p in c.pids ==> p in order
    ensures var c' := ClearAll(clk, c, order); Sound(c', []) && c'.pids == map[] && c'.stats.pids == 0
    decreases |order|
  {
    hide ClearPid, Sound;
    if order == [] {
      assert forall p :: p in c.pids ==> p in order;
      assert c.pids == map[];
    } else if order[0] in c.pids {
      ClearFrame(clk, c, order[0]);
      ClearPidSound(clk, c, order[0]);
      Shrinks(c.pids, order[0]);
      ClearAllSound(clk, ClearPid(clk, c, order[0]), order[1..]);
    } else {
      ClearAllSound(clk, c, order[1..]);
    }
  }

  /** `gu_cleanup` leaves nothing, whatever the order of the contexts. */
  lemma CleanupEmpties(clk: Clock, c: Cache, order: seq<int>)
    requires Inv(clk, c) && forall p :: p in c.pids ==> p in order
    ensures var cleared := ClearAll(clk, c, order);
            Dated(cleared.elfs) && var end := Sweep(cleared, FOREVER);
            end.elfs == map[] && end.pids == map[] && end.stats == Stats(0, 0, 0, 0, 0, 0)
  {
    hide ClearAll, Announced, Spaced;
    assert c.stats.pids == |c.pids| by { AnnouncedCount(c); }
    ClearAllSound(clk, c, order);
    var cleared := ClearAll(clk, c, order);
    assert Dated(cleared.elfs) by { SoundDated(cleared, []); }
    AllDead(cleared);
    SweepSound(cleared, FOREVER);
    SweepFrame(cleared, FOREVER);
    EmptyStats(Sweep(cleared, FOREVER));
  }

  lemma AnnouncedCount(c: Cache)
    requires Announced(c)
    ensures c.stats.pids == |c.pids|
  {
  }

  lemma AllDead(c: Cache)
    requires Sound(c, []) && c.pids == map[]
    ensures Dated(c.elfs) && Sweep(c, FOREVER).elfs == map[]
  {
    hide Tallied, Total, Least;
    forall id | id in c.elfs ensures id in Dead(c.elfs, FOREVER) {
      TotalZero(c.pids, RefsOf(id));
      assert RefCnt(c.elfs, id) == Refs(c.pids, [], id);
    }
  }

  lemma EmptyStats(c: Cache)
    requires Sound(c, []) && c.elfs == map[]
    ensures c.stats == Stats(0, 0, 0, 0, 0, c.stats.pids)
  {
    TotalZero(c.elfs, ActiveOf);
    TotalZero(c.elfs, RetiredOf);
    TotalZero(c.elfs, SymOf);
    TotalZero(c.elfs, CfiOf);
    TotalZero(c.elfs, CfiDataOf);
  }
}
