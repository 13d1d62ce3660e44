/** The ELF cache shared by all processes, and the per-process contexts that hold references into it. */
module ElfCache {
  import opened Words
  import opened Totals

  const TTL: nat := 10_000_000_000
  const RELOAD_MIN: nat := 30_000_000_000
  const RELOAD_MAX: nat := 90_000_000_000

  // ----- state -----

  /** Keyed by build id, or by file digest for files without one. */
  type BuildId = nat

  datatype Elf = Elf(refcnt: int, retired: bool, deadline: nat, symBytes: nat, cfiBytes: nat, cfiDataBytes: nat)

  /** One reference, or none after a failed load, per executable mapping. */
  datatype Pid = Pid(unique: nat, maps: seq<Option<BuildId>>, nextReload: nat)

  datatype Stats = Stats(active: int, retired: int, symBytes: int, cfiBytes: int, cfiDataBytes: int, pids: int)

  datatype Event = Create(pid: int, unique: nat) | Destroy(pid: int, unique: nat)

  /** A reload of a process's maps after a PC miss. */
  datatype Reload = Reload(pid: int, time: nat)

  /** `ticks` counts the readings of the cache clock; `events` and `reloads` are logs. */
  datatype Cache = Cache(
    elfs: map<BuildId, Elf>, pids: map<int, Pid>, stats: Stats, next: nat, ticks: nat,
    events: seq<Event>, reloads: seq<Reload>)

  const FRESH := Cache(map[], map[], Stats(0, 0, 0, 0, 0, 0), 0, 0, [], [])

  /** The n-th reading of the clock. */
  type Clock = nat -> nat

  const FOREVER: nat := 0xFFFF_FFFF_FFFF_FFFF

  /** Readings never decrease, and no deadline set from one reaches the end of 64-bit time. */
  ghost predicate SaneClock(clk: Clock) {
    && (forall i, j :: 0 <= i <= j ==> clk(i) <= clk(j))
    && (forall i :: 0 <= i ==> clk(i) + RELOAD_MAX < FOREVER)
  }

  // ----- references -----

  function Retire(clk: Clock, c: Cache, id: BuildId): Cache
    requires id in c.elfs
  {
    var e := c.elfs[id];
    if e.retired then c
    else
      var deadline := clk(c.ticks) + TTL;
      c.(elfs := c.elfs[id := e.(retired := true, deadline := deadline)],
         stats := c.stats.(active := c.stats.active - 1, retired := c.stats.retired + 1),
         next := if c.next == 0 || deadline < c.next then deadline else c.next,
         ticks := c.ticks + 1)
  }

  function Put(clk: Clock, c: Cache, id: BuildId): Cache
    requires id in c.elfs
  {
    var e := c.elfs[id].(refcnt := c.elfs[id].refcnt - 1);
    var c' := c.(elfs := c.elfs[id := e]);
    if e.refcnt == 0 then Retire(clk, c', id) else c'
  }

  /** What reading a mapped file gives. */
  datatype Load = NoElf | Loaded(id: BuildId, symBytes: nat, cfiBytes: nat, cfiDataBytes: nat)

  /** One more reference; a retired entry is revived, an unknown one is added. */
  function Acquire(c: Cache, l: Load): Cache
    requires l.Loaded?
  {
    if l.id in c.elfs then
      var e := c.elfs[l.id];
      c.(elfs := c.elfs[l.id := e.(refcnt := e.refcnt + 1, retired := false,
                                   deadline := if e.retired then 0 else e.deadline)],
         stats := if e.retired then c.stats.(active := c.stats.active + 1, retired := c.stats.retired - 1) else c.stats)
    else
      c.(elfs := c.elfs[l.id := Elf(1, false, 0, l.symBytes, l.cfiBytes, l.cfiDataBytes)],
         stats := c.stats.(active := c.stats.active + 1, symBytes := c.stats.symBytes + l.symBytes,
                           cfiBytes := c.stats.cfiBytes + l.cfiBytes,
                           cfiDataBytes := c.stats.cfiDataBytes + l.cfiDataBytes))
  }

  // ----- invariant -----

  function RefsOf(id: BuildId): Pid -> nat {
    (p: Pid) => multiset(p.maps)[Some(id)]
  }

  function ActiveOf(e: Elf): nat { if e.retired then 0 else 1 }
  function RetiredOf(e: Elf): nat { if e.retired then 1 else 0 }
  function SymOf(e: Elf): nat { e.symBytes }
  function CfiOf(e: Elf): nat { e.cfiBytes }
  function CfiDataOf(e: Elf): nat { e.cfiDataBytes }

  function RefCnt(elfs: map<BuildId, Elf>, id: BuildId): int {
    if id in elfs then elfs[id].refcnt else 0
  }

  /** References from process contexts and from the mappings still in hand. */
  ghost function Refs(pids: map<int, Pid>, held: seq<Option<BuildId>>, id: BuildId): nat {
    Total(pids, RefsOf(id)) + multiset(held)[Some(id)]
  }

  ghost predicate Counted(c: Cache, held: seq<Option<BuildId>>) {
    forall id: BuildId :: RefCnt(c.elfs, id) == Refs(c.pids, held, id)
  }

  ghost predicate RetiredIffUnreferenced(elfs: map<BuildId, Elf>) {
    forall id :: id in elfs ==> (elfs[id].retired <==> elfs[id].refcnt == 0)
  }

  ghost predicate Tallied(elfs: map<BuildId, Elf>, s: Stats) {
    && s.active == Total(elfs, ActiveOf) && s.retired == Total(elfs, RetiredOf)
    && s.symBytes == Total(elfs, SymOf) && s.cfiBytes == Total(elfs, CfiOf)
    && s.cfiDataBytes == Total(elfs, CfiDataOf)
  }

  /** The stored deadline is a lower bound of all retired deadlines. */
  ghost predicate Bounded(elfs: map<BuildId, Elf>, next: nat) {
    forall id :: id in elfs && elfs[id].retired ==> 0 < next <= elfs[id].deadline
  }

  ghost predicate Sound(c: Cache, held: seq<Option<BuildId>>) {
    Counted(c, held) && RetiredIffUnreferenced(c.elfs) && Tallied(c.elfs, c.stats) && Bounded(c.elfs, c.next)
  }

  lemma TalliedSet(elfs: map<BuildId, Elf>, s: Stats, id: BuildId, e: Elf)
    requires Tallied(elfs, s) && id in elfs
    requires e.symBytes == elfs[id].symBytes && e.cfiBytes == elfs[id].cfiBytes && e.cfiDataBytes == elfs[id].cfiDataBytes
    ensures Tallied(elfs[id := e], s.(active := s.active - ActiveOf(elfs[id]) + ActiveOf(e),
                                      retired := s.retired - RetiredOf(elfs[id]) + RetiredOf(e)))
  {
    TotalSet(elfs, id, e, ActiveOf);
    TotalSet(elfs, id, e, RetiredOf);
    TotalSet(elfs, id, e, SymOf);
    TotalSet(elfs, id, e, CfiOf);
    TotalSet(elfs, id, e, CfiDataOf);
  }

  lemma TalliedAdd(elfs: map<BuildId, Elf>, s: Stats, id: BuildId, e: Elf)
    requires Tallied(elfs, s) && id !in elfs
    ensures Tallied(elfs[id := e],
                    s.(active := s.active + ActiveOf(e), retired := s.retired + RetiredOf(e),
                       symBytes := s.symBytes + e.symBytes, cfiBytes := s.cfiBytes + e.cfiBytes,
                       cfiDataBytes := s.cfiDataBytes + e.cfiDataBytes))
  {
    TotalAdd(elfs, id, e, ActiveOf);
    TotalAdd(elfs, id, e, RetiredOf);
    TotalAdd(elfs, id, e, SymOf);
    TotalAdd(elfs, id, e, CfiOf);
    TotalAdd(elfs, id, e, CfiDataOf);
  }

  lemma HeldFirst(held: seq<Option<BuildId>>, x: Option<BuildId>, id: BuildId)
    ensures multiset([x] + held)[Some(id)] == multiset(held)[Some(id)] + if x == Some(id) then 1 else 0
    ensures multiset(held + [x])[Some(id)] == multiset(held)[Some(id)] + if x == Some(id) then 1 else 0
  {
  }

  lemma HeldCounted(c: Cache, x: Option<BuildId>, held: seq<Option<BuildId>>,
                    c': Cache, held': seq<Option<BuildId>>, d: int)
    requires Counted(c, held) && c'.pids == c.pids
    requires forall i: BuildId :: RefCnt(c'.elfs, i) - RefCnt(c.elfs, i) == if x == Some(i) then d else 0
    requires forall i: BuildId :: multiset(held')[Some(i)] == multiset(held)[Some(i)] + if x == Some(i) then d else 0
    ensures Counted(c', held')
  {
    hide Total, RefCnt;
    forall i: BuildId ensures RefCnt(c'.elfs, i) == Refs(c'.pids, held', i) {
      assert RefCnt(c.elfs, i) == Refs(c.pids, held, i);
    }
  }

  lemma HeldPositive(c: Cache, id: BuildId, held: seq<Option<BuildId>>)
    requires Counted(c, [Some(id)] + held)
    ensures id in c.elfs && c.elfs[id].refcnt > 0
  {
    hide Total;
    HeldFirst(held, Some(id), id);
    assert RefCnt(c.elfs, id) == Refs(c.pids, [Some(id)] + held, id);
  }

  lemma NeverNegative(c: Cache, held: seq<Option<BuildId>>, id: BuildId)
    requires Counted(c, held) && id in c.elfs
    ensures c.elfs[id].refcnt >= 0
  {
    hide Total;
    assert RefCnt(c.elfs, id) == Refs(c.pids, held, id);
  }

  lemma PutCounted(clk: Clock, c: Cache, id: BuildId, held: seq<Option<BuildId>>)
    requires Counted(c, [Some(id)] + held) && id in c.elfs
    ensures Counted(Put(clk, c, id), held)
  {
    hide Total, Counted;
    var c' := Put(clk, c, id);
    forall i: BuildId ensures multiset(held)[Some(i)] == multiset([Some(id)] + held)[Some(i)] + if id == i then -1 else 0 {
      HeldFirst(held, Some(id), i);
    }
    HeldCounted(c, Some(id), [Some(id)] + held, c', held, -1);
  }

  lemma PutSound(clk: Clock, c: Cache, id: BuildId, held: seq<Option<BuildId>>)
    requires Sound(c, [Some(id)] + held)
    ensures id in c.elfs && Sound(Put(clk, c, id), held)
  {
    hide Counted, Tallied;
    HeldPositive(c, id, held);
    PutCounted(clk, c, id, held);
    var c' := Put(clk, c, id);
    TalliedSet(c.elfs, c.stats, id, c'.elfs[id]);
    assert c'.elfs == c.elfs[id := c'.elfs[id]];
  }

  lemma AcquireCounted(c: Cache, l: Load, held: seq<Option<BuildId>>)
    requires Counted(c, held) && l.Loaded?
    ensures Counted(Acquire(c, l), held + [Some(l.id)])
  {
    hide Total, Counted;
    var c' := Acquire(c, l);
    forall i: BuildId
      ensures multiset(held + [Some(l.id)])[Some(i)] == multiset(held)[Some(i)] + if l.id == i then 1 else 0
    {
      HeldFirst(held, Some(l.id), i);
    }
    HeldCounted(c, Some(l.id), held, c', held + [Some(l.id)], 1);
  }

  lemma AcquireSound(c: Cache, l: Load, held: seq<Option<BuildId>>)
    requires Sound(c, held) && l.Loaded?
    ensures Sound(Acquire(c, l), held + [Some(l.id)])
  {
    hide Counted, Tallied;
    AcquireCounted(c, l, held);
    var c' := Acquire(c, l);
    if l.id in c.elfs {
      NeverNegative(c, held, l.id);
      TalliedSet(c.elfs, c.stats, l.id, c'.elfs[l.id]);
    } else {
      TalliedAdd(c.elfs, c.stats, l.id, c'.elfs[l.id]);
    }
  }

  // ----- process contexts -----

  /** Gives back the references of some mappings, in order. */
  function PutAll(clk: Clock, c: Cache, held: seq<Option<BuildId>>): Cache
    decreases |held|
  {
    if held == [] then c
    else if held[0].Some? && held[0].value in c.elfs then PutAll(clk, Put(clk, c, held[0].value), held[1..])
    else PutAll(clk, c, held[1..])
  }

  function ClearPid(clk: Clock, c: Cache, pid: int): Cache
    requires pid in c.pids
  {
    PutAll(clk, c.(pids := c.pids - {pid}, stats := c.stats.(pids := c.stats.pids - 1)), c.pids[pid].maps)
  }

  function Evict(clk: Clock, c: Cache, pid: int): Cache
    requires pid in c.pids
  {
    ClearPid(clk, c.(events := c.events + [Destroy(pid, c.pids[pid].unique)]), pid)
  }

  /** One executable mapping: what its file loads to, and whether its record could be allocated. */
  datatype Mapping = Mapping(load: Load, recorded: bool)

  /** One reading of a process's maps; `indexed` tells whether its address index could be built. */
  datatype Maps = Maps(mappings: seq<Mapping>, indexed: bool, random: nat)

  datatype Acquired = Acquired(c: Cache, held: seq<Option<BuildId>>, ok: bool)

  function LoadMaps(clk: Clock, c: Cache, ms: seq<Mapping>, held: seq<Option<BuildId>>): Acquired
    decreases |ms|
  {
    if ms == [] then Acquired(c, held, true)
    else match ms[0].load
      case NoElf => LoadMaps(clk, c, ms[1..], held + [None])
      case Loaded(id, _, _, _) =>
        var c' := Acquire(c, ms[0].load);
        if !ms[0].recorded then Acquired(Put(clk, c', id), held, false)
        else LoadMaps(clk, c', ms[1..], held + [Some(id)])
  }

  function Delay(random: nat): (d: nat)
    ensures RELOAD_MIN <= d <= RELOAD_MAX
  {
    RELOAD_MIN + random % (RELOAD_MAX - RELOAD_MIN + 1)
  }

  function LoadPid(clk: Clock, c: Cache, unique: nat, m: Maps): (Cache, Option<Pid>) {
    if m.mappings == [] then (c, None)
    else
      var a := LoadMaps(clk, c, m.mappings, []);
      if !a.ok || !m.indexed then (PutAll(clk, a.c, a.held), None)
      else (a.c.(ticks := a.c.ticks + 1), Some(Pid(unique, a.held, clk(a.c.ticks) + Delay(m.random))))
  }

  /** Loads a context for `pid` and announces it. */
  function Admit(clk: Clock, c: Cache, pid: int, unique: nat, m: Maps): Cache {
    var (c', p) := LoadPid(clk, c, unique, m);
    match p
    case None => c'
    case Some(p) =>
      c'.(pids := c'.pids[pid := p], stats := c'.stats.(pids := c'.stats.pids + 1),
          events := c'.events + [Create(pid, unique)])
  }

  // ----- they keep the accounts -----

  lemma {:induction false} PutAllSound(clk: Clock, c: Cache, held: seq<Option<BuildId>>)
    requires Sound(c, held)
    ensures Sound(PutAll(clk, c, held), [])
    decreases |held|
  {
    hide Put, Sound;
    if held != [] {
      assert held == [held[0]] + held[1..];
      if held[0].Some? {
        PutSound(clk, c, held[0].value, held[1..]);
        PutAllSound(clk, Put(clk, c, held[0].value), held[1..]);
      } else {
        NoneHeld(c, held[1..]);
        PutAllSound(clk, c, held[1..]);
      }
    }
  }

  lemma NoneHeld(c: Cache, held: seq<Option<BuildId>>)
    ensures Sound(c, [None] + held) ==> Sound(c, held)
    ensures Sound(c, held) ==> Sound(c, held + [None])
  {
    hide Total, Tallied, Bounded, RetiredIffUnreferenced, RefCnt;
    forall i: BuildId ensures Refs(c.pids, [None] + held, i) == Refs(c.pids, held, i) == Refs(c.pids, held + [None], i) {
      HeldFirst(held, None, i);
    }
    assert Counted(c, [None] + held) ==> Counted(c, held) by {
      forall i: BuildId | Counted(c, [None] + held) ensures RefCnt(c.elfs, i) == Refs(c.pids, held, i) {
        assert RefCnt(c.elfs, i) == Refs(c.pids, [None] + held, i);
      }
    }
  }

  /** The references of a context count the same in the table and in hand. */
  lemma InHand(c: Cache, c': Cache, pid: int)
    requires pid in c.pids && c'.pids == c.pids - {pid} && c'.elfs == c.elfs
    ensures Counted(c, []) <==> Counted(c', c.pids[pid].maps)
  {
    forall id: BuildId ensures Refs(c.pids, [], id) == Refs(c'.pids, c.pids[pid].maps, id) {
      TotalDrop(c.pids, pid, RefsOf(id));
    }
    assert forall id: BuildId :: RefCnt(c.elfs, id) == RefCnt(c'.elfs, id);
  }

  lemma ClearPidSound(clk: Clock, c: Cache, pid: int)
    requires pid in c.pids && Sound(c, [])
    ensures Sound(ClearPid(clk, c, pid), [])
  {
    hide PutAll, Counted, Bounded, RetiredIffUnreferenced;
    var c' := c.(pids := c.pids - {pid}, stats := c.stats.(pids := c.stats.pids - 1));
    InHand(c, c', pid);
    PutAllSound(clk, c', c.pids[pid].maps);
  }

  lemma {:induction false} LoadMapsSound(clk: Clock, c: Cache, ms: seq<Mapping>, held: seq<Option<BuildId>>)
    requires Sound(c, held)
    ensures var a := LoadMaps(clk, c, ms, held); Sound(a.c, a.held)
    decreases |ms|
  {
    hide Put, Acquire, Sound;
    if ms != [] {
      match ms[0].load {
        case NoElf =>
          NoneHeld(c, held);
          LoadMapsSound(clk, c, ms[1..], held + [None]);
        case Loaded(id, _, _, _) =>
          var c' := Acquire(c, ms[0].load);
          AcquireSound(c, ms[0].load, held);
          if ms[0].recorded {
            LoadMapsSound(clk, c', ms[1..], held + [Some(id)]);
          } else {
            LastHeld(c', held, id);
            PutSound(clk, c', id, held);
          }
      }
    }
  }

  lemma LastHeld(c: Cache, held: seq<Option<BuildId>>, id: BuildId)
    requires Sound(c, held + [Some(id)])
    ensures Sound(c, [Some(id)] + held)
  {
    hide Total, Tallied, Bounded, RetiredIffUnreferenced, RefCnt;
    forall i: BuildId ensures RefCnt(c.elfs, i) == Refs(c.pids, [Some(id)] + held, i) {
      HeldFirst(held, Some(id), i);
      assert RefCnt(c.elfs, i) == Refs(c.pids, held + [Some(id)], i);
    }
  }

  // ----- sweeping -----

  predicate Expired(e: Elf, now: nat) {
    e.retired && (now == FOREVER || e.deadline <= now)
  }

  function Dead(elfs: map<BuildId, Elf>, now: nat): set<BuildId> {
    set id | id in elfs && Expired(elfs[id], now)
  }

  /** The least retired deadline, or 0 when nothing is retired. */
  ghost predicate IsLeast(elfs: map<BuildId, Elf>, n: nat) {
    && (forall id :: id in elfs && elfs[id].retired ==> 0 < n <= elfs[id].deadline)
    && (n == 0 || exists id :: id in elfs && elfs[id].retired && elfs[id].deadline == n)
  }

  ghost predicate Dated(elfs: map<BuildId, Elf>) {
    forall id :: id in elfs && elfs[id].retired ==> elfs[id].deadline > 0
  }

  lemma {:induction false} FindLeast(elfs: map<BuildId, Elf>) returns (n: nat)
    requires Dated(elfs)
    ensures IsLeast(elfs, n)
    decreases |elfs|
  {
    n := 0;
    if id :| id in elfs {
      Shrinks(elfs, id);
      var rest := elfs - {id};
      n := FindLeast(rest);
      if elfs[id].retired && (n == 0 || elfs[id].deadline < n) {
        n := elfs[id].deadline;
      } else if n > 0 {
        var j :| j in rest && rest[j].retired && rest[j].deadline == n;
        assert j in elfs && elfs[j].deadline == n;
      }
      forall i | i in elfs && elfs[i].retired ensures 0 < n <= elfs[i].deadline {
        assert i == id || i in rest;
      }
    }
  }

  lemma LeastExists(elfs: map<BuildId, Elf>)
    requires Dated(elfs)
    ensures exists n :: IsLeast(elfs, n)
  {
    var n := FindLeast(elfs);
  }

  ghost function Least(elfs: map<BuildId, Elf>): nat
    requires Dated(elfs)
  {
    LeastExists(elfs);
    var n :| IsLeast(elfs, n);
    n
  }

  ghost function Spent(s: Stats, gone: map<BuildId, Elf>): Stats {
    s.(retired := s.retired - Total(gone, RetiredOf), symBytes := s.symBytes - Total(gone, SymOf),
       cfiBytes := s.cfiBytes - Total(gone, CfiOf), cfiDataBytes := s.cfiDataBytes - Total(gone, CfiDataOf))
  }

  /** Frees every entry that has expired at `now`. */
  ghost function EagerSweep(c: Cache, now: nat): Cache
    requires Dated(c.elfs)
  {
    var dead := Dead(c.elfs, now);
    c.(elfs := c.elfs - dead, stats := Spent(c.stats, Only(c.elfs, dead)), next := Least(c.elfs - dead))
  }

  /** The source's sweep: returns at once before the stored deadline. */
  ghost function Sweep(c: Cache, now: nat): Cache
    requires Dated(c.elfs)
  {
    if now == 0 then c
    else if now != FOREVER && (c.stats.retired == 0 || (c.next != 0 && now < c.next)) then c
    else EagerSweep(c, now)
  }

  lemma NothingDead(c: Cache, now: nat, held: seq<Option<BuildId>>)
    requires Sound(c, held) && now != FOREVER && (now == 0 || c.stats.retired == 0 || now < c.next)
    ensures Dead(c.elfs, now) == {}
  {
    hide Counted, RetiredIffUnreferenced;
    if id :| id in Dead(c.elfs, now) {
      TotalDrop(c.elfs, id, RetiredOf);
    }
  }

  /** Returning early loses nothing: a sweep leaves exactly what an eager sweep would, up to the stored deadline. */
  lemma LazyIsEager(c: Cache, now: nat, held: seq<Option<BuildId>>)
    requires Sound(c, held)
    ensures Dated(c.elfs) && Sweep(c, now) == EagerSweep(c, now).(next := Sweep(c, now).next)
    ensures Dead(Sweep(c, now).elfs, now) == {}
  {
    hide Sound, Least;
    assert Dated(c.elfs) by { SoundDated(c, held); }
    if now != FOREVER && (now == 0 || c.stats.retired == 0 || (c.next != 0 && now < c.next)) {
      NothingDead(c, now, held);
      assert c.elfs - {} == c.elfs;
      var none := Only(c.elfs, {});
      TotalZero(none, RetiredOf);
      TotalZero(none, SymOf);
      TotalZero(none, CfiOf);
      TotalZero(none, CfiDataOf);
    }
  }

  lemma SoundDated(c: Cache, held: seq<Option<BuildId>>)
    requires Sound(c, held)
    ensures Dated(c.elfs)
  {
    hide Counted, Tallied, RetiredIffUnreferenced;
  }

  lemma SweepTallied(elfs: map<BuildId, Elf>, s: Stats, dead: set<BuildId>)
    requires Tallied(elfs, s) && forall id :: id in dead && id in elfs ==> elfs[id].retired
    ensures Tallied(elfs - dead, Spent(s, Only(elfs, dead)))
  {
    TotalSplit(elfs, dead, ActiveOf);
    TotalSplit(elfs, dead, RetiredOf);
    TotalSplit(elfs, dead, SymOf);
    TotalSplit(elfs, dead, CfiOf);
    TotalSplit(elfs, dead, CfiDataOf);
    TotalZero(Only(elfs, dead), ActiveOf);
  }

  lemma SweepCounted(c: Cache, c': Cache, now: nat)
    requires Counted(c, []) && RetiredIffUnreferenced(c.elfs)
    requires c'.elfs == c.elfs - Dead(c.elfs, now) && c'.pids == c.pids
    ensures Counted(c', [])
  {
    hide Refs;
    forall id: BuildId ensures RefCnt(c'.elfs, id) == Refs(c'.pids, [], id) {
      assert RefCnt(c.elfs, id) == Refs(c.pids, [], id);
    }
  }

  lemma SweepSound(c: Cache, now: nat)
    requires Sound(c, [])
    ensures Dated(c.elfs) && Sound(Sweep(c, now), [])
  {
    hide Counted, Tallied;
    SoundDated(c, []);
    SweepTallied(c.elfs, c.stats, Dead(c.elfs, now));
    SweepCounted(c, Sweep(c, now).(elfs := c.elfs - Dead(c.elfs, now)), now);
  }
}
