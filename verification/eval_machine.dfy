/**
 The expression evaluator as the unwinder runs it: an array-backed stack that pushes and pops in
 place, an operation pointer that jumps, and the record of the last read outside the snapshot.
 */
module EvalMachine {
  import opened Words
  import opened Operands
  import opened DwarfOps
  import opened Evaluator

  class DwStack {
    const addrs: array<Word>
    var used: nat

    ghost predicate Valid()
      reads this
    {
      addrs.Length == STACK_MAX && used <= STACK_MAX
    }

    ghost function Contents(): seq<Word>
      requires Valid()
      reads this, addrs
    {
      addrs[..used]
    }

    constructor ()
      ensures Valid() && fresh(addrs) && Contents() == []
    {
      addrs := new Word[STACK_MAX];
      used := 0;
    }

    method Push(v: Word) returns (ok: bool)
      requires Valid()
      modifies this, addrs
      ensures Valid() && ok == (old(used) < STACK_MAX)
      ensures Contents() == if ok then old(Contents()) + [v] else old(Contents())
    {
      if used >= STACK_MAX {
        return false;
      }
      addrs[used] := v;
      used := used + 1;
      return true;
    }

    method Pop() returns (ok: bool, v: Word)
      requires Valid()
      modifies this
      ensures Valid() && ok == (old(used) > 0)
      ensures ok ==> old(Contents()) == Contents() + [v]
      ensures !ok ==> Contents() == old(Contents())
    {
      if used == 0 {
        return false, 0;
      }
      used := used - 1;
      return true, addrs[used];
    }

    method Dup() returns (ok: bool)
      requires Valid()
      modifies this, addrs
      ensures Valid() && ok == (0 < old(used) < STACK_MAX)
      ensures ok ==> Contents() == old(Contents()) + [old(Contents())[old(used) - 1]]
    {
      var v;
      ok, v := Pop();
      if !ok { return; }
      ok := Push(v);
      if !ok { return; }
      ok := Push(v);
    }

    method Over() returns (ok: bool)
      requires Valid()
      modifies this, addrs
      ensures Valid() && ok == (2 <= old(used) < STACK_MAX)
      ensures ok ==> Contents() == old(Contents()) + [old(Contents())[old(used) - 2]]
    {
      var v1, v2;
      ok, v1 := Pop();
      if !ok { return; }
      ok, v2 := Pop();
      if !ok { return; }
      assert old(Contents()) == Contents() + [v2] + [v1];
      ok := Push(v2);
      if !ok { return; }
      ok := Push(v1);
      if !ok { return; }
      ok := Push(v2);
    }

    method Swap() returns (ok: bool)
      requires Valid()
      modifies this, addrs
      ensures Valid() && ok == (2 <= old(used))
      ensures ok ==> var s, n := old(Contents()), old(used); Contents() == s[..n - 2] + [s[n - 1], s[n - 2]]
    {
      var v1, v2;
      ok, v1 := Pop();
      if !ok { return; }
      ok, v2 := Pop();
      if !ok { return; }
      assert old(Contents()) == Contents() + [v2] + [v1];
      ok := Push(v1);
      if !ok { return; }
      ok := Push(v2);
    }

    method Rot() returns (ok: bool)
      requires Valid()
      modifies this, addrs
      ensures Valid() && ok == (3 <= old(used))
      ensures ok ==> var s, n := old(Contents()), old(used);
                     Contents() == s[..n - 3] + [s[n - 1], s[n - 3], s[n - 2]]
    {
      var v1, v2, v3;
      ok, v1 := Pop();
      if !ok { return; }
      ok, v2 := Pop();
      if !ok { return; }
      ok, v3 := Pop();
      if !ok { return; }
      assert old(Contents()) == Contents() + [v3] + [v2] + [v1];
      ok := Push(v1);
      if !ok { return; }
      ok := Push(v3);
      if !ok { return; }
      ok := Push(v2);
    }
  }

  /** What `gu_last_stack_read_out_of_range` reports. */
  datatype BadAccess = BadAccess(addr: Word, start: Word, end: Word, rawSp: Word)

  function WindowEnd(snap: Snapshot): Word {
    Add(WindowStart(snap), |snap.stack|)
  }

  function Noted(snap: Snapshot, before: Option<BadAccess>, out: Outcome): Option<BadAccess> {
    match out
    case BadRead(addr) => Some(BadAccess(addr, WindowStart(snap), WindowEnd(snap), snap.rawSp))
    case _ => before
  }

  function ValueOf(out: Outcome): Option<Word> {
    match out
    case Value(v) => Some(v)
    case _ => None
  }

  function ReadOutcome(snap: Snapshot, addr: Word): Outcome {
    match ReadStack(snap, addr)
    case Some(v) => Value(v)
    case None => BadRead(addr)
  }

  lemma EffectFails(op: Op, snap: Snapshot, bias: Word, s: seq<Word>)
    ensures EffectOf(op, snap, bias, s).Stuck? ==> !EffectOf(op, snap, bias, s).out.Value?
  {
    hide PushedValue, Shuffled, UnaryValue, BinaryValue, ReadStack, Narrow;
  }

  method FindOp(ops: seq<Op>, key: Word) returns (found: Option<nat>)
    ensures found == BSearch(ops, key, 0, |ops|)
  {
    var l, u := 0, |ops|;
    while l < u
      invariant l <= u <= |ops| && BSearch(ops, key, l, u) == BSearch(ops, key, 0, |ops|)
    {
      var mid := (l + u) / 2;
      if key < ops[mid].offset {
        u := mid;
      } else if key > ops[mid].offset {
        l := mid + 1;
      } else {
        return Some(mid);
      }
    }
    return None;
  }

  class Unwinder {
    var bad: Option<BadAccess>

    constructor ()
      ensures bad == None
    {
      bad := None;
    }

    /** The four range tests of `read_addr`, with the window end computed modulo 2^64. */
    method ReadAddr(snap: Snapshot, addr: Word) returns (v: Option<Word>)
      modifies this
      ensures v == ReadStack(snap, addr)
      ensures bad == Noted(snap, old(bad), ReadOutcome(snap, addr))
    {
      var start, end := WindowStart(snap), WindowEnd(snap);
      if addr < start || addr >= end || Add(addr, 8) < addr || end - addr < 8 {
        bad := Some(BadAccess(addr, start, end, snap.rawSp));
        return None;
      }
      return Some(Little64(snap.stack, addr - start));
    }

    method ExecShuffle(st: DwStack, op: Op) returns (ok: bool)
      requires st.Valid() && KindOf(op.atom).Shuffles?
      modifies st, st.addrs
      ensures st.Valid()
      ensures match Capped(Shuffled(op, old(st.Contents())))
              case Stack(s) => ok && st.Contents() == s
              case Stuck(_) => !ok
    {
      if op.atom == DW_OP_dup {
        ok := st.Dup();
      } else if op.atom == DW_OP_drop {
        var v;
        ok, v := st.Pop();
      } else if op.atom == DW_OP_over {
        ok := st.Over();
      } else if op.atom == DW_OP_pick {
        if st.used <= op.number {
          return false;
        }
        ok := st.Push(st.addrs[st.used - 1 - op.number]);
      } else if op.atom == DW_OP_swap {
        ok := st.Swap();
      } else {
        ok := st.Rot();
      }
    }

    method ExecDeref(st: DwStack, op: Op, snap: Snapshot) returns (ok: bool)
      requires st.Valid() && KindOf(op.atom).Derefs?
      modifies this, st, st.addrs
      ensures st.Valid()
      ensures match DerefEffect(op, snap, old(st.Contents()))
              case Stack(s) => ok && st.Contents() == s && bad == old(bad)
              case Stuck(out) => !ok && bad == Noted(snap, old(bad), out)
    {
      hide ReadStack, Narrow;
      if op.atom == DW_OP_deref_size && op.number > 8 {
        return false;
      }
      var v: Word;
      ok, v := st.Pop();
      if !ok { return; }
      var word := this.ReadAddr(snap, v);
      if word == None {
        return false;
      }
      ok := st.Push(Narrow(op, word.value));
    }

    method ExecUnary(st: DwStack, op: Op) returns (ok: bool)
      requires st.Valid()
      modifies st, st.addrs
      ensures st.Valid()
      ensures match UnaryEffect(op, old(st.Contents()))
              case Stack(s) => ok && st.Contents() == s
              case Stuck(_) => !ok
    {
      hide UnaryValue;
      var v: Word;
      ok, v := st.Pop();
      if !ok { return; }
      ok := st.Push(UnaryValue(op, v));
    }

    method ExecBinary(st: DwStack, op: Op) returns (ok: bool)
      requires st.Valid()
      modifies st, st.addrs
      ensures st.Valid()
      ensures match BinaryEffect(op, old(st.Contents()))
              case Stack(s) => ok && st.Contents() == s
              case Stuck(_) => !ok
    {
      hide BinaryValue;
      ghost var s := st.Contents();
      var v1: Word, v2: Word;
      ok, v2 := st.Pop();
      if !ok { return; }
      ok, v1 := st.Pop();
      if !ok { return; }
      assert s == st.Contents() + [v1] + [v2];
      var v := BinaryValue(op.atom, v1, v2);
      if v == None {
        return false;
      }
      ok := st.Push(v.value);
    }

    /** Every operation but branches, CFA calls and stack_value. */
    method ExecOp(st: DwStack, op: Op, snap: Snapshot, bias: Word) returns (ok: bool)
      requires st.Valid()
      modifies this, st, st.addrs
      ensures st.Valid()
      ensures match EffectOf(op, snap, bias, old(st.Contents()))
              case Stack(s) => ok && st.Contents() == s && bad == old(bad)
              case Stuck(out) => !ok && bad == Noted(snap, old(bad), out)
    {
      hide PushedValue, Shuffled, DerefEffect, UnaryValue, BinaryValue;
      match KindOf(op.atom) {
        case Pushes =>
          var v := PushedValue(op, snap, bias);
          if v == None {
            return false;
          }
          ok := st.Push(v.value);
        case Shuffles => ok := this.ExecShuffle(st, op);
        case Derefs => ok := this.ExecDeref(st, op, snap);
        case Unary => ok := this.ExecUnary(st, op);
        case Binary => ok := this.ExecBinary(st, op);
        case Nop => ok := true;
        case _ => ok := false;
      }
    }

    /** `gu_dwarf_ops_eval`: one activation, and at most one nested one for the CFA. */
    method EvalOps(ops: seq<Op>, cfaOps: seq<Op>, snap: Snapshot, bias: Word) returns (result: Option<Word>)
      requires NoCfaCall(cfaOps)
      modifies this
      ensures result == ValueOf(Eval(ops, cfaOps, snap, bias))
      ensures bad == Noted(snap, old(bad), Eval(ops, cfaOps, snap, bias))
      decreases if NoCfaCall(ops) then 0 else 1, 1
    {
      hide StepOf, Finish;
      if ops == [] {
        return None;
      }
      ghost var cfa, out := EvalWith(cfaOps, snap, bias, Failed), Eval(ops, cfaOps, snap, bias);
      var st := new DwStack();
      var pc: nat, location, steps := 0, false, 0;
      while pc < |ops|
        invariant fresh(st) && fresh(st.addrs) && st.Valid() && steps <= STEPS_MAX
        invariant bad == old(bad)
        invariant out == Run(ops, snap, bias, cfa, Machine(pc, st.Contents(), location), STEPS_MAX - steps)
        decreases STEPS_MAX - steps
      {
        steps := steps + 1;
        if steps > STEPS_MAX {
          return None;
        }
        var ok, next, loc := this.ExecAt(st, ops, cfaOps, snap, bias, pc, location);
        if !ok {
          return None;
        }
        pc, location := next, loc;
      }
      result := this.Result(st, snap, location);
    }

    /** One turn of the evaluation loop. */
    method ExecAt(st: DwStack, ops: seq<Op>, cfaOps: seq<Op>, snap: Snapshot, bias: Word, pc: nat, location: bool)
      returns (ok: bool, next: nat, loc: bool)
      requires st.Valid() && pc < |ops| && NoCfaCall(cfaOps)
      modifies this, st, st.addrs
      ensures st.Valid()
      ensures match StepOf(ops, snap, bias, EvalWith(cfaOps, snap, bias, Failed),
                           Machine(pc, old(st.Contents()), location))
              case Next(m) => ok && Machine(next, st.Contents(), loc) == m && bad == old(bad)
              case Stop(out) => !ok && !out.Value? && bad == Noted(snap, old(bad), out)
      decreases if NoCfaCall(ops) then 0 else 1, 0
    {
      hide EffectOf, EvalWith, Target;
      var op := ops[pc];
      next, loc := pc + 1, location;
      match KindOf(op.atom) {
        case Branch =>
          var v;
          ok, v := st.Pop();
          if ok && v != 0 {
            var found := FindOp(ops, Target(op));
            ok := found != None;
            if ok { next := found.value; }
          }
        case Skip =>
          var found := FindOp(ops, Target(op));
          ok := found != None;
          if ok { next := found.value; }
        case CallCfa =>
          CfaSelf(cfaOps, snap, bias);
          assert !NoCfaCall(ops);
          var cfa := this.EvalOps(cfaOps, cfaOps, snap, bias);
          ok := cfa != None;
          if ok { ok := st.Push(cfa.value); }
          loc := true;
        case StackValue =>
          ok, loc := true, false;
        case _ =>
          EffectFails(op, snap, bias, st.Contents());
          ok := this.ExecOp(st, op, snap, bias);
      }
    }

    method Result(st: DwStack, snap: Snapshot, location: bool) returns (result: Option<Word>)
      requires st.Valid()
      modifies this, st
      ensures result == ValueOf(Finish(snap, old(st.Contents()), location))
      ensures bad == Noted(snap, old(bad), Finish(snap, old(st.Contents()), location))
    {
      hide ReadStack;
      var ok, top := st.Pop();
      if !ok {
        return None;
      }
      if location {
        result := this.ReadAddr(snap, top);
      } else {
        result := Some(top);
      }
    }
  }
}
