/** What running a call-frame program up to a PC means: the row table and the state stack. */
module FrameTable {
  import opened Words
  import opened CallFrame

  // ----- the full table -----

  datatype Row = Row(loc: Word, st: State)

  /** Every row of the program, in order; None when an instruction does not decode or restore. */
  function Rows(cie: Cie, inCie: bool, code: seq<Byte>, pos: nat, loc: Word, st: State): (rows: Option<seq<Row>>)
    requires pos <= |code| < TWO64
    ensures rows.Some? ==> rows.value != [] && rows.value[0].loc == loc
    decreases |code| - pos
  {
    if pos == |code| then Some([Row(loc, st)])
    else
      var (i, next) :- DecodeInsn(cie, code, pos);
      if MovesLocation(i) then
        var rest :- Rows(cie, inCie, code, next, NewLocation(i, loc), st);
        Some([Row(loc, st)] + rest)
      else
        var st' :- Exec(i, cie, inCie, st);
        Rows(cie, inCie, code, next, loc, st')
  }

  ghost predicate NonDecreasing(rows: seq<Row>) {
    forall i, j :: 0 <= i < j < |rows| ==> rows[i].loc <= rows[j].loc
  }

  /** `k` is the last row whose location is at most `pc`. */
  ghost predicate LastUpTo(rows: seq<Row>, pc: Word, k: nat) {
    && k < |rows| && rows[k].loc <= pc
    && forall j :: k < j < |rows| ==> rows[j].loc > pc
  }

  lemma LastUnique(rows: seq<Row>, pc: Word, j: nat, k: nat)
    requires LastUpTo(rows, pc, j) && LastUpTo(rows, pc, k)
    ensures j == k
  {}

  /** Interpreting up to `pc` selects the last row of the full table with location at most `pc`. */
  lemma {:induction false} InterpreterIsTable(cie: Cie, inCie: bool, code: seq<Byte>, pos: nat, loc: Word,
                                              st: State, pc: Word, rows: seq<Row>) returns (k: nat)
    requires pos <= |code| < TWO64 && Rows(cie, inCie, code, pos, loc, st) == Some(rows)
    requires NonDecreasing(rows) && loc <= pc
    ensures LastUpTo(rows, pc, k)
    ensures RunTo(cie, inCie, code, pos, loc, st, pc) == Some(rows[k].st)
    decreases |code| - pos
  {
    hide DecodeInsn, Exec;
    if pos == |code| {
      k := 0;
    } else {
      var (i, next) := DecodeInsn(cie, code, pos).value;
      if MovesLocation(i) {
        var loc' := NewLocation(i, loc);
        var rest := Rows(cie, inCie, code, next, loc', st).value;
        assert rest == rows[1..];
        if pc < loc' {
          k := 0;
        } else {
          var r := InterpreterIsTable(cie, inCie, code, next, loc', st, pc, rest);
          k := r + 1;
          forall j | k < j < |rows| ensures rows[j].loc > pc {
            assert rows[j] == rest[j - 1];
          }
        }
      } else {
        var st' := Exec(i, cie, inCie, st).value;
        k := InterpreterIsTable(cie, inCie, code, next, loc, st', pc, rows);
      }
    }
  }

  // ----- PCs between two locations -----

  /** Every location the program sets before it ends or fails. */
  function Locations(cie: Cie, inCie: bool, code: seq<Byte>, pos: nat, loc: Word, st: State): seq<Word>
    requires pos <= |code| < TWO64
    decreases |code| - pos
  {
    if pos == |code| then []
    else match DecodeInsn(cie, code, pos)
      case None => []
      case Some((i, next)) =>
        if MovesLocation(i) then
          [NewLocation(i, loc)] + Locations(cie, inCie, code, next, NewLocation(i, loc), st)
        else match Exec(i, cie, inCie, st)
          case None => []
          case Some(st') => Locations(cie, inCie, code, next, loc, st')
  }

  /** Any program, even a malformed one: PCs with no location in (pc1, pc2] get the same result. */
  lemma {:induction false} SameRow(cie: Cie, inCie: bool, code: seq<Byte>, pos: nat, loc: Word, st: State,
                                   pc1: Word, pc2: Word)
    requires pos <= |code| < TWO64 && pc1 <= pc2
    requires forall l :: l in Locations(cie, inCie, code, pos, loc, st) ==> !(pc1 < l <= pc2)
    ensures RunTo(cie, inCie, code, pos, loc, st, pc1) == RunTo(cie, inCie, code, pos, loc, st, pc2)
    decreases |code| - pos
  {
    hide DecodeInsn, Exec;
    if pos < |code| && DecodeInsn(cie, code, pos).Some? {
      var (i, next) := DecodeInsn(cie, code, pos).value;
      if MovesLocation(i) {
        var loc' := NewLocation(i, loc);
        var rest := Locations(cie, inCie, code, next, loc', st);
        assert Locations(cie, inCie, code, pos, loc, st) == [loc'] + rest;
        assert forall l :: l in rest ==> l in [loc'] + rest;
        assert loc' in [loc'] + rest;
        SameRow(cie, inCie, code, next, loc', st, pc1, pc2);
      } else if Exec(i, cie, inCie, st).Some? {
        var st' := Exec(i, cie, inCie, st).value;
        assert Locations(cie, inCie, code, pos, loc, st) == Locations(cie, inCie, code, next, loc, st');
        SameRow(cie, inCie, code, next, loc, st', pc1, pc2);
      }
    }
  }

  // ----- remember and restore -----

  /** The instructions of a program that decodes completely. */
  function Insns(cie: Cie, code: seq<Byte>, pos: nat): Option<seq<Insn>>
    requires pos <= |code| < TWO64
    decreases |code| - pos
  {
    if pos == |code| then Some([])
    else
      var (i, next) :- DecodeInsn(cie, code, pos);
      var rest :- Insns(cie, code, next);
      Some([i] + rest)
  }

  function ExecAll(insns: seq<Insn>, cie: Cie, inCie: bool, st: State): Option<State> {
    if insns == [] then Some(st)
    else
      var st' :- Exec(insns[0], cie, inCie, st);
      ExecAll(insns[1..], cie, inCie, st')
  }

  /** A PC that no location exceeds runs every instruction. */
  lemma {:induction false} RunsAll(cie: Cie, inCie: bool, code: seq<Byte>, pos: nat, loc: Word, st: State,
                                   pc: Word, insns: seq<Insn>)
    requires pos <= |code| < TWO64 && Insns(cie, code, pos) == Some(insns)
    requires forall l :: l in Locations(cie, inCie, code, pos, loc, st) ==> l <= pc
    ensures RunTo(cie, inCie, code, pos, loc, st, pc) == ExecAll(insns, cie, inCie, st)
    decreases |code| - pos
  {
    hide DecodeInsn, Exec;
    if pos < |code| {
      var (i, next) := DecodeInsn(cie, code, pos).value;
      assert insns[0] == i && Insns(cie, code, next) == Some(insns[1..]);
      if MovesLocation(i) {
        MoveKeepsState(i, cie, inCie, st);
        var loc' := NewLocation(i, loc);
        var rest := Locations(cie, inCie, code, next, loc', st);
        assert Locations(cie, inCie, code, pos, loc, st) == [loc'] + rest;
        assert forall l :: l in rest ==> l in [loc'] + rest;
        assert loc' in [loc'] + rest;
        RunsAll(cie, inCie, code, next, loc', st, pc, insns[1..]);
      } else if Exec(i, cie, inCie, st).Some? {
        var st' := Exec(i, cie, inCie, st).value;
        assert Locations(cie, inCie, code, pos, loc, st) == Locations(cie, inCie, code, next, loc, st');
        RunsAll(cie, inCie, code, next, loc, st', pc, insns[1..]);
      }
    }
  }

  lemma MoveKeepsState(i: Insn, cie: Cie, inCie: bool, st: State)
    requires MovesLocation(i)
    ensures Exec(i, cie, inCie, st) == Some(st)
  {}

  /** Nesting depth after `insns`, None when a restore has no partner. */
  function Depth(insns: seq<Insn>, d: nat): Option<nat> {
    if insns == [] then Some(d)
    else if insns[0].Remember? then Depth(insns[1..], d + 1)
    else if insns[0].Restore? then if d == 0 then None else Depth(insns[1..], d - 1)
    else Depth(insns[1..], d)
  }

  /** Nesting depth after one instruction that does not restore at depth 0. */
  function DepthAfter(i: Insn, d: nat): nat
    requires i.Restore? ==> d > 0
  {
    if i.Remember? then d + 1 else if i.Restore? then d - 1 else d
  }

  /** One instruction leaves the states below depth `d` alone. */
  lemma NestedStep(i: Insn, cie: Cie, inCie: bool, st: State, base: seq<Saved>, d: nat)
    requires |st.saved| == d + |base| && st.saved[d..] == base && (i.Restore? ==> d > 0)
    ensures var st' := Exec(i, cie, inCie, st);
            && st'.Some? && |st'.value.saved| == DepthAfter(i, d) + |base|
            && st'.value.saved[DepthAfter(i, d)..] == base
  {
    if i.Remember? {
      var first := [Saved(st.next, st.rules)];
      assert (first + st.saved)[d + 1..] == st.saved[d..];
    } else if i.Restore? {
      assert st.saved[1..][d - 1..] == st.saved[d..];
    }
  }

  /** Execution of a piece in which `d` states are remembered on top of `base` only touches those. */
  lemma {:induction false} NestedRun(insns: seq<Insn>, cie: Cie, inCie: bool, st: State, base: seq<Saved>, d: nat)
    requires |st.saved| == d + |base| && st.saved[d..] == base && Depth(insns, d).Some?
    ensures var end := ExecAll(insns, cie, inCie, st);
            && end.Some? && |end.value.saved| == Depth(insns, d).value + |base|
            && end.value.saved[Depth(insns, d).value..] == base
  {
    hide Exec;
    if insns != [] {
      NestedStep(insns[0], cie, inCie, st, base, d);
      NestedRun(insns[1..], cie, inCie, Exec(insns[0], cie, inCie, st).value, base, DepthAfter(insns[0], d));
    }
  }

  lemma {:induction false} ExecAllSplit(a: seq<Insn>, b: seq<Insn>, cie: Cie, inCie: bool, st: State)
    ensures ExecAll(a + b, cie, inCie, st) ==
            match ExecAll(a, cie, inCie, st) case None => None case Some(mid) => ExecAll(b, cie, inCie, mid)
  {
    hide Exec;
    if a == [] {
      assert a + b == b;
    } else {
      assert (a + b)[0] == a[0] && (a + b)[1..] == a[1..] + b;
      if Exec(a[0], cie, inCie, st).Some? {
        ExecAllSplit(a[1..], b, cie, inCie, Exec(a[0], cie, inCie, st).value);
      }
    }
  }

  /** The location after a piece that starts at `loc`. */
  function LocationAfter(insns: seq<Insn>, loc: Word): Word {
    if insns == [] then loc
    else LocationAfter(insns[1..], if MovesLocation(insns[0]) then NewLocation(insns[0], loc) else loc)
  }

  lemma {:induction false} LocationSplit(a: seq<Insn>, b: seq<Insn>, loc: Word)
    ensures LocationAfter(a + b, loc) == LocationAfter(b, LocationAfter(a, loc))
  {
    if a == [] {
      assert a + b == b;
    } else {
      assert (a + b)[0] == a[0] && (a + b)[1..] == a[1..] + b;
      LocationSplit(a[1..], b, if MovesLocation(a[0]) then NewLocation(a[0], loc) else loc);
    }
  }

  /** Remembering and restoring do not take the location back. */
  lemma BracketAdvances(body: seq<Insn>, loc: Word)
    ensures LocationAfter([Remember] + body + [Restore], loc) == LocationAfter(body, loc)
  {
    LocationSplit([Remember], body + [Restore], loc);
    assert [Remember] + (body + [Restore]) == [Remember] + body + [Restore];
    LocationSplit(body, [Restore], loc);
    assert LocationAfter([Remember], loc) == loc;
  }

  /** A balanced remember...restore bracket of any depth leaves the rules and the outer states alone. */
  lemma BracketRestores(body: seq<Insn>, cie: Cie, inCie: bool, st: State)
    requires Depth(body, 0) == Some(0)
    ensures var end := ExecAll([Remember] + body + [Restore], cie, inCie, st);
            end.Some? && end.value.rules == st.rules && end.value.saved == st.saved
  {
    var inner := Exec(Remember, cie, inCie, st).value;
    NestedRun(body, cie, inCie, inner, inner.saved, 0);
    var last := ExecAll(body, cie, inCie, inner).value;
    assert last.saved == inner.saved;
    ExecAllSplit([Remember], body + [Restore], cie, inCie, st);
    assert [Remember] + (body + [Restore]) == [Remember] + body + [Restore];
    assert ExecAll([Remember], cie, inCie, st) == Some(inner);
    ExecAllSplit(body, [Restore], cie, inCie, inner);
    assert ExecAll([Restore], cie, inCie, last) == Exec(Restore, cie, inCie, last);
  }

  // ----- heap blocks of remembered states -----

  /** Blocks that are live or freed, with multiplicity. */
  ghost function Blocks(st: State): multiset<nat> {
    multiset(st.freed) + multiset(Ids(st.saved))
  }

  ghost function Fresh(a: nat, b: nat): multiset<nat>
    requires a <= b
    decreases b - a
  {
    if a == b then multiset{} else Fresh(a, b - 1) + multiset{b - 1}
  }

  lemma {:induction false} FreshAt(a: nat, b: nat, id: nat)
    requires a <= b
    ensures Fresh(a, b)[id] == if a <= id < b then 1 else 0
    decreases b - a
  {
    if a < b {
      FreshAt(a, b - 1, id);
    }
  }

  lemma ExecBlocks(i: Insn, cie: Cie, inCie: bool, st: State)
    requires Exec(i, cie, inCie, st).Some?
    ensures var st' := Exec(i, cie, inCie, st).value;
            && st'.next == (if i.Remember? then st.next + 1 else st.next)
            && Blocks(st') == Blocks(st) + (if i.Remember? then multiset{st.next} else multiset{})
  {
    var st' := Exec(i, cie, inCie, st).value;
    if i.Remember? {
      assert st'.saved[1..] == st.saved;
    }
  }

  lemma {:induction false} RunBlocks(cie: Cie, inCie: bool, code: seq<Byte>, pos: nat, loc: Word, st: State, pc: Word)
    requires pos <= |code| < TWO64 && RunTo(cie, inCie, code, pos, loc, st, pc).Some?
    ensures var end := RunTo(cie, inCie, code, pos, loc, st, pc).value;
            st.next <= end.next && Blocks(end) == Blocks(st) + Fresh(st.next, end.next)
    decreases |code| - pos
  {
    hide DecodeInsn, Exec, Blocks;
    if pos < |code| {
      var (i, next) := DecodeInsn(cie, code, pos).value;
      if MovesLocation(i) {
        if NewLocation(i, loc) <= pc {
          RunBlocks(cie, inCie, code, next, NewLocation(i, loc), st, pc);
        }
      } else {
        var st' := Exec(i, cie, inCie, st).value;
        var end := RunTo(cie, inCie, code, pos, loc, st, pc).value;
        ExecBlocks(i, cie, inCie, st);
        RunBlocks(cie, inCie, code, next, loc, st', pc);
        if i.Remember? {
          FreshFront(st.next, end.next);
        }
      }
    }
  }

  lemma {:induction false} FreshFront(a: nat, b: nat)
    requires a < b
    ensures Fresh(a, b) == multiset{a} + Fresh(a + 1, b)
    decreases b - a
  {
    if a + 1 < b {
      FreshFront(a, b - 1);
    }
  }

  /** What a successful parse has freed once `FreeSaved` has emptied the chain. */
  ghost function FreedBy(cie: Cie, code: seq<Byte>, pos: nat, loc: Word, st: State, pc: Word): multiset<nat>
    requires pos <= |code| < TWO64 && RunTo(cie, false, code, pos, loc, st, pc).Some?
  {
    Blocks(RunTo(cie, false, code, pos, loc, st, pc).value)
  }

  /**
   A parse starts from the chain its CIE left behind.  It frees each block it allocated exactly once,
   and frees nothing else exactly when the CIE left no state outstanding.
   */
  lemma ParseFrees(cie: Cie, code: seq<Byte>, pos: nat, loc: Word, st: State, pc: Word)
    requires pos <= |code| < TWO64 && RunTo(cie, false, code, pos, loc, st, pc).Some?
    requires st.freed == [] && forall s :: s in st.saved ==> s.id < st.next
    ensures var end := RunTo(cie, false, code, pos, loc, st, pc).value;
            && (forall id :: st.next <= id < end.next ==> FreedBy(cie, code, pos, loc, st, pc)[id] == 1)
            && ((forall id :: id in FreedBy(cie, code, pos, loc, st, pc) ==> st.next <= id < end.next)
                <==> st.saved == [])
  {
    hide RunTo, Fresh, Ids;
    var end := RunTo(cie, false, code, pos, loc, st, pc).value;
    var freed, owned := FreedBy(cie, code, pos, loc, st, pc), multiset(Ids(st.saved));
    RunBlocks(cie, false, code, pos, loc, st, pc);
    IdsBelow(st.saved, st.next);
    forall id: nat ensures freed[id] == owned[id] + (if st.next <= id < end.next then 1 else 0) {
      FreshAt(st.next, end.next, id);
    }
    if st.saved != [] {
      var id := Ids(st.saved)[0];
      assert id in owned && id in freed;
    }
  }

  lemma {:induction false} IdsBelow(saved: seq<Saved>, n: nat)
    requires forall s :: s in saved ==> s.id < n
    ensures |Ids(saved)| == |saved|
    ensures forall id :: id in Ids(saved) ==> id < n
    ensures forall id :: id >= n ==> multiset(Ids(saved))[id] == 0
  {
    if saved != [] {
      IdsBelow(saved[1..], n);
    }
  }
}
