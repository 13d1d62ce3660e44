/** `struct gu_context` as an object: the operations of the cache in place. */
module CacheContext {
  import opened Words
  import opened Totals
  import opened ElfCache
  import opened CacheRuns

  lemma Tallies(elfs: map<BuildId, Elf>, s: Stats, id: BuildId)
    requires Tallied(elfs, s) && id in elfs
    ensures s.active >= ActiveOf(elfs[id]) && s.retired >= RetiredOf(elfs[id])
  {
    TotalDrop(elfs, id, ActiveOf);
    TotalDrop(elfs, id, RetiredOf);
  }

  lemma SoundTallies(c: Cache, held: seq<Option<BuildId>>, id: BuildId)
    requires Sound(c, held) && id in c.elfs
    ensures c.stats.active >= ActiveOf(c.elfs[id]) && c.stats.retired >= RetiredOf(c.elfs[id])
  {
    hide Counted, Tallied, Bounded, RetiredIffUnreferenced;
    Tallies(c.elfs, c.stats, id);
  }

  /** Changing a reference count alone leaves the tallies alone. */
  lemma SoundRecount(c: Cache, held: seq<Option<BuildId>>, id: BuildId, n: int)
    requires Sound(c, held) && id in c.elfs
    ensures Tallied(c.elfs[id := c.elfs[id].(refcnt := n)], c.stats)
  {
    hide Counted, Tallied, Bounded, RetiredIffUnreferenced;
    TalliedSet(c.elfs, c.stats, id, c.elfs[id].(refcnt := n));
  }

  // ----- the sweep, entry by entry -----

  lemma SpentMore(s: Stats, elfs: map<BuildId, Elf>, dead: set<BuildId>, id: BuildId)
    requires id in elfs && id !in dead
    ensures var before, after := Spent(s, Only(elfs, dead)), Spent(s, Only(elfs, dead + {id}));
            after == before.(retired := before.retired - RetiredOf(elfs[id]),
                             symBytes := before.symBytes - elfs[id].symBytes,
                             cfiBytes := before.cfiBytes - elfs[id].cfiBytes,
                             cfiDataBytes := before.cfiDataBytes - elfs[id].cfiDataBytes)
  {
    var gone := Only(elfs, dead);
    assert Only(elfs, dead + {id}) == gone[id := elfs[id]];
    TotalAdd(gone, id, elfs[id], RetiredOf);
    TotalAdd(gone, id, elfs[id], SymOf);
    TotalAdd(gone, id, elfs[id], CfiOf);
    TotalAdd(gone, id, elfs[id], CfiDataOf);
  }

  lemma SpentNone(s: Stats, elfs: map<BuildId, Elf>)
    ensures Spent(s, Only(elfs, {})) == s
  {
    var none := Only(elfs, {});
    TotalZero(none, RetiredOf);
    TotalZero(none, SymOf);
    TotalZero(none, CfiOf);
    TotalZero(none, CfiDataOf);
  }

  lemma LeastMore(elfs: map<BuildId, Elf>, seen: set<BuildId>, id: BuildId, n: nat)
    requires IsLeast(Only(elfs, seen), n) && id in elfs && elfs[id].retired && elfs[id].deadline > 0
    ensures IsLeast(Only(elfs, seen + {id}), if n == 0 || elfs[id].deadline < n then elfs[id].deadline else n)
  {
    var m, more := Only(elfs, seen), Only(elfs, seen + {id});
    if n > 0 {
      var j :| j in m && m[j].retired && m[j].deadline == n;
      assert j in more && more[j] == m[j];
    }
    assert id in more && more[id] == elfs[id];
    forall i | i in more && more[i].retired && i != id ensures 0 < n <= more[i].deadline {
      assert i in m;
    }
  }

  lemma LeastSkip(elfs: map<BuildId, Elf>, seen: set<BuildId>, id: BuildId, n: nat)
    requires IsLeast(Only(elfs, seen), n) && id in elfs && !elfs[id].retired
    ensures IsLeast(Only(elfs, seen + {id}), n)
  {
    var m, more := Only(elfs, seen), Only(elfs, seen + {id});
    if n > 0 {
      var j :| j in m && m[j].retired && m[j].deadline == n;
      assert j in more && more[j] == m[j];
    }
    forall i | i in more && more[i].retired ensures 0 < n <= more[i].deadline {
      assert i in m;
    }
  }

  lemma LeastIs(elfs: map<BuildId, Elf>, n: nat)
    requires Dated(elfs) && IsLeast(elfs, n)
    ensures n == Least(elfs)
  {
    var k := Least(elfs);
    assert IsLeast(elfs, k);
  }

  class Context {
    const clk: Clock
    var elfs: map<BuildId, Elf>
    var pids: map<int, Pid>
    var stats: Stats
    var next: nat
    var ticks: nat
    var events: seq<Event>
    var reloads: seq<Reload>

    ghost function Now(): Cache
      reads this
    {
      Cache(elfs, pids, stats, next, ticks, events, reloads)
    }

    constructor (clk: Clock)
      ensures this.clk == clk && Now() == FRESH
    {
      this.clk := clk;
      elfs, pids, stats, next, ticks, events, reloads := map[], map[], Stats(0, 0, 0, 0, 0, 0), 0, 0, [], [];
    }

    method ReadClock() returns (now: nat)
      modifies this`ticks
      ensures now == clk(old(ticks)) && ticks == old(ticks) + 1
    {
      now := clk(ticks);
      ticks := ticks + 1;
    }

    method RetireElf(id: BuildId)
      requires id in elfs && Tallied(elfs, stats)
      modifies this
      ensures Now() == Retire(clk, old(Now()), id)
    {
      hide Tallied;
      Tallies(elfs, stats, id);
      var e := elfs[id];
      if e.retired {
        return;
      }
      var now := ReadClock();
      var deadline := now + TTL;
      elfs := elfs[id := e.(retired := true, deadline := deadline)];
      if stats.active != 0 {
        stats := stats.(active := stats.active - 1);
      }
      stats := stats.(retired := stats.retired + 1);
      if next == 0 || deadline < next {
        next := deadline;
      }
    }

    /** `gu_put_elf_ctx`. */
    method PutElf(id: BuildId, ghost held: seq<Option<BuildId>>)
      requires Sound(Now(), [Some(id)] + held)
      modifies this
      ensures id in old(elfs) && Now() == Put(clk, old(Now()), id) && Sound(Now(), held)
    {
      hide Sound, Tallied;
      PutSound(clk, Now(), id, held);
      var e := elfs[id].(refcnt := elfs[id].refcnt - 1);
      SoundRecount(Now(), [Some(id)] + held, id, e.refcnt);
      elfs := elfs[id := e];
      if e.refcnt == 0 {
        RetireElf(id);
      }
    }

    /** The end of `load_elf`: one more reference to a cached or newly built entry. */
    method AcquireElf(l: Load, ghost held: seq<Option<BuildId>>)
      requires Sound(Now(), held) && l.Loaded?
      modifies this
      ensures Now() == Acquire(old(Now()), l) && Sound(Now(), held + [Some(l.id)])
    {
      hide Sound;
      AcquireSound(Now(), l, held);
      if l.id in elfs {
        SoundTallies(Now(), held, l.id);
        var e := elfs[l.id];
        if e.retired {
          e := e.(retired := false, deadline := 0);
          if stats.retired != 0 {
            stats := stats.(retired := stats.retired - 1);
          }
          stats := stats.(active := stats.active + 1);
        }
        elfs := elfs[l.id := e.(refcnt := e.refcnt + 1)];
      } else {
        stats := stats.(symBytes := stats.symBytes + l.symBytes, cfiBytes := stats.cfiBytes + l.cfiBytes,
                        cfiDataBytes := stats.cfiDataBytes + l.cfiDataBytes);
        elfs := elfs[l.id := Elf(1, false, 0, l.symBytes, l.cfiBytes, l.cfiDataBytes)];
        stats := stats.(active := stats.active + 1);
      }
    }

    /** Gives back one reference per recorded mapping. */
    method PutItems(items: seq<Option<BuildId>>)
      requires Sound(Now(), items)
      modifies this
      ensures Now() == PutAll(clk, old(Now()), items) && Sound(Now(), [])
    {
      hide Sound, Put;
      ghost var goal := PutAll(clk, Now(), items);
      var i := 0;
      assert items[0..] == items;
      while i < |items|
        invariant 0 <= i <= |items|
        invariant Sound(Now(), items[i..]) && goal == PutAll(clk, Now(), items[i..])
      {
        assert items[i..] == [items[i]] + items[i + 1..];
        if items[i].Some? {
          PutElf(items[i].value, items[i + 1..]);
        } else {
          NoneHeld(Now(), items[i + 1..]);
        }
        i := i + 1;
      }
    }

    /** `gu_clear_pid_ctx`. */
    method ClearContext(pid: int)
      requires pid in pids && Sound(Now(), [])
      modifies this
      ensures Now() == ClearPid(clk, old(Now()), pid) && Sound(Now(), [])
    {
      hide PutAll;
      ghost var before := Now();
      var maps := pids[pid].maps;
      pids := pids - {pid};
      stats := stats.(pids := stats.pids - 1);
      InHand(before, Now(), pid);
      hide Counted, RetiredIffUnreferenced, Bounded;
      PutItems(maps);
    }

    /** `gu_load_pid` for a process without a context. */
    method LoadContext(unique: nat, m: Maps) returns (p: Option<Pid>)
      requires Sound(Now(), [])
      modifies this
      ensures (Now(), p) == LoadPid(clk, old(Now()), unique, m)
    {
      hide Sound, Acquire, Put, PutAll;
      if |m.mappings| == 0 {
        return None;
      }
      ghost var goal := LoadMaps(clk, Now(), m.mappings, []);
      var items: seq<Option<BuildId>> := [];
      var i, ok := 0, true;
      assert m.mappings[0..] == m.mappings;
      while i < |m.mappings| && ok
        invariant 0 <= i <= |m.mappings|
        invariant Sound(Now(), items)
        invariant ok ==> goal == LoadMaps(clk, Now(), m.mappings[i..], items)
        invariant !ok ==> goal == Acquired(Now(), items, false)
      {
        var l := m.mappings[i].load;
        if l.NoElf? {
          NoneHeld(Now(), items);
          items := items + [None];
        } else {
          AcquireElf(l, items);
          if !m.mappings[i].recorded {
            LastHeld(Now(), items, l.id);
            PutElf(l.id, items);
            ok := false;
          } else {
            items := items + [Some(l.id)];
          }
        }
        i := i + 1;
      }
      if !ok || !m.indexed {
        PutItems(items);
        return None;
      }
      var now := ReadClock();
      p := Some(Pid(unique, items, now + Delay(m.random)));
    }

    /** `clear_elf_ctx` of a retired entry. */
    method FreeElf(id: BuildId)
      requires id in elfs && elfs[id].retired && Tallied(elfs, stats)
      modifies this`elfs, this`stats
      ensures elfs == old(elfs) - {id}
      ensures var e, s := old(elfs)[id], old(stats);
              stats == s.(retired := s.retired - 1, symBytes := s.symBytes - e.symBytes,
                          cfiBytes := s.cfiBytes - e.cfiBytes, cfiDataBytes := s.cfiDataBytes - e.cfiDataBytes)
    {
      hide Tallied;
      Tallies(elfs, stats, id);
      var e := elfs[id];
      if stats.retired != 0 {
        stats := stats.(retired := stats.retired - 1);
      }
      stats := stats.(symBytes := stats.symBytes - e.symBytes, cfiBytes := stats.cfiBytes - e.cfiBytes,
                      cfiDataBytes := stats.cfiDataBytes - e.cfiDataBytes);
      elfs := elfs - {id};
    }

    /** The full pass of `gu_retired_elf_sweep`, in any order of the table. */
    method SweepAll(now: nat)
      requires Dated(elfs) && Tallied(elfs, stats)
      modifies this
      ensures Now() == EagerSweep(old(Now()), now)
    {
      hide Tallied, IsLeast, Spent, Total, Least;
      ghost var start, s0 := elfs, stats;
      ghost var dead := Dead(start, now);
      SpentNone(s0, start);
      EmptyLeast(start);
      assert start - {} == start;
      var todo, least := elfs.Keys, 0;
      ghost var gone, seen: set<BuildId> := {}, {};
      while todo != {}
        invariant gone == dead - todo && seen == start.Keys - dead - todo && todo <= start.Keys
        invariant elfs == start - gone && stats == Spent(s0, Only(start, gone)) && IsLeast(Only(start, seen), least)
        invariant pids == old(pids) && ticks == old(ticks) && events == old(events) && reloads == old(reloads)
      {
        var id :| id in todo;
        todo := todo - {id};
        var e := elfs[id];
        if Expired(e, now) {
          SweepTallied(start, s0, gone);
          SpentMore(s0, start, gone, id);
          FreeElf(id);
          gone := gone + {id};
          assert elfs == start - gone;
        } else {
          if e.retired {
            LeastMore(start, seen, id, least);
            if least == 0 || e.deadline < least {
              least := e.deadline;
            }
          } else {
            LeastSkip(start, seen, id, least);
          }
          seen := seen + {id};
        }
      }
      next := least;
      assert gone == dead;
      assert Only(start, seen) == start - dead;
      LeastIs(start - dead, least);
    }

    /** `gu_retired_elf_sweep`. */
    method SweepRetired(now: nat)
      requires Sound(Now(), [])
      modifies this
      ensures Dated(old(elfs)) && Now() == Sweep(old(Now()), now) && Sound(Now(), [])
    {
      hide EagerSweep, Counted, Tallied, RetiredIffUnreferenced;
      SweepSound(Now(), now);
      if now == 0 {
        return;
      }
      if now != FOREVER && (stats.retired == 0 || (next != 0 && now < next)) {
        return;
      }
      SweepAll(now);
    }

    /** `gu_maybe_sweep_retired_elf`; `pending` is true when the timer asked for a sweep or is not running. */
    method MaybeSweepRetired(pending: bool)
      requires SaneClock(clk) && Inv(clk, Now())
      modifies this
      ensures Dated(old(elfs)) && Now() == Do(clk, old(Now()), MaybeSweep(pending)) && Inv(clk, Now())
    {
      hide Sound, Sweep, Announced, Spaced;
      SweepKeeps(clk, Now(), pending);
      if stats.retired == 0 || !pending {
        return;
      }
      ghost var before := Now();
      var now := ReadClock();
      SoundLogs(before, Now(), []);
      SweepRetired(now);
    }

    /** A context leaves with a DESTROY event. */
    method EvictContext(pid: int)
      requires pid in pids && Sound(Now(), [])
      modifies this
      ensures Now() == Evict(clk, old(Now()), pid)
    {
      hide Sound, ClearPid;
      ghost var before := Now();
      events := events + [Destroy(pid, pids[pid].unique)];
      SoundLogs(before, Now(), []);
      ClearContext(pid);
    }

    /** A context is loaded and enters with a CREATE event. */
    method AdmitContext(pid: int, unique: nat, m: Maps)
      requires pid !in pids && Sound(Now(), [])
      modifies this
      ensures Now() == Admit(clk, old(Now()), pid, unique, m)
    {
      hide Sound, LoadPid;
      var p := LoadContext(unique, m);
      if p == None {
        return;
      }
      pids := pids[pid := p.value];
      stats := stats.(pids := stats.pids + 1);
      events := events + [Create(pid, unique)];
    }

    /** The start of `gu_unwind`: find or load the context of the sampled process. */
    method OpenContext(pid: int, unique: nat, debug: bool, alive: bool, maps: Maps)
      requires SaneClock(clk) && Inv(clk, Now())
      modifies this
      ensures Now() == OpenPid(clk, old(Now()), pid, unique, debug, alive, maps) && Inv(clk, Now())
    {
      hide Sound, Announced, Spaced, Evict, Admit;
      OpenKeeps(clk, Now(), pid, unique, debug, alive, maps);
      if unique != 0 && pid in pids && pids[pid].unique != unique && !debug {
        EvictKeeps(clk, Now(), pid);
        EvictContext(pid);
      }
      if pid in pids || (!alive && !debug) {
        return;
      }
      AdmitContext(pid, unique, maps);
    }

    /** `gu_preload_pid_debug_info` after its sweep. */
    method PreloadContext(pid: int, unique: nat, alive: bool, maps: Maps)
      requires SaneClock(clk) && Inv(clk, Now())
      modifies this
      ensures Dated(old(elfs)) && Now() == Do(clk, old(Now()), Preload(pid, unique, alive, maps)) && Inv(clk, Now())
    {
      hide Sound, Announced, Spaced, Admit;
      StepKeeps(clk, Now(), Preload(pid, unique, alive, maps));
      if pid in pids || !alive {
        return;
      }
      AdmitContext(pid, unique, maps);
    }

    /** A PC outside the known mappings, in `gu_search_pid_elf_ctx`. */
    method MissedPc(pid: int, unique: nat, debug: bool, alive: bool, maps: Maps)
      requires SaneClock(clk) && Inv(clk, Now()) && pid in pids
      modifies this
      ensures Now() == MissPc(clk, old(Now()), pid, unique, debug, alive, maps) && Inv(clk, Now())
    {
      hide Sound, Announced, Spaced, Evict, Admit;
      MissKeeps(clk, Now(), pid, unique, debug, alive, maps);
      ghost var before := Now();
      var now := ReadClock();
      if now < pids[pid].nextReload {
        return;
      }
      if !debug && !alive {
        return;
      }
      reloads := reloads + [Reload(pid, now)];
      SoundLogs(before, Now(), []);
      EvictFrame(clk, Now(), pid);
      EvictSound(clk, Now(), pid);
      EvictContext(pid);
      AdmitContext(pid, unique, maps);
    }

    /** `gu_set_pid_exit_unique`. */
    method ExitContext(pid: int, unique: nat)
      requires SaneClock(clk) && Inv(clk, Now())
      modifies this
      ensures Now() == ExitPid(clk, old(Now()), pid, unique) && Inv(clk, Now())
    {
      hide Sound, Announced, Spaced, Evict;
      if pid in pids && unique != 0 && pids[pid].unique != unique {
        return;
      }
      if pid in pids {
        EvictKeeps(clk, Now(), pid);
        EvictContext(pid);
      }
    }

    /** `gu_cleanup`: contexts in the order of the table, whatever it is, then a sweep of everything. */
    method Cleanup(order: seq<int>)
      requires Inv(clk, Now()) && forall p :: p in pids ==> p in order
      modifies this
      ensures elfs == map[] && pids == map[] && stats == Stats(0, 0, 0, 0, 0, 0)
    {
      hide Sound, Announced, Spaced, ClearPid, Sweep;
      ghost var start := Now();
      ghost var goal := ClearAll(clk, Now(), order);
      var i := 0;
      assert order[0..] == order;
      while i < |order|
        invariant 0 <= i <= |order|
        invariant Sound(Now(), []) && goal == ClearAll(clk, Now(), order[i..])
      {
        assert order[i..][0] == order[i] && order[i..][1..] == order[i + 1..];
        if order[i] in pids {
          ClearContext(order[i]);
        }
        i := i + 1;
      }
      CleanupEmpties(clk, start, order);
      SweepRetired(FOREVER);
    }
  }

  lemma EmptyLeast(elfs: map<BuildId, Elf>)
    ensures IsLeast(Only(elfs, {}), 0)
  {
  }
}
