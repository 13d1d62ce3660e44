/** Recovering a caller register: `gen_reg` with its fast path in front of the evaluator. */
module GenReg {
  import opened Words
  import opened DwarfOps
  import opened Evaluator
  import opened EvalMachine

  // ----- the fast path as a function -----

  predicate IsRegOp(atom: Byte) {
    DW_OP_reg0 <= atom <= DW_OP_regx || atom == DW_OP_bregx
  }

  function FastReg(op: Op, snap: Snapshot): Option<Word> {
    if IsRegOp(op.atom) then PushedValue(op, snap, 0) else None
  }

  function FastCfa(cfaOps: seq<Op>, snap: Snapshot, bias: Word): Outcome {
    if |cfaOps| == 1 && FastReg(cfaOps[0], snap).Some? then Value(FastReg(cfaOps[0], snap).value)
    else Eval(cfaOps, cfaOps, snap, bias)
  }

  /** A value found without the general machine, or the outcome noted on the way to giving up. */
  datatype Fast = Hit(value: Word) | Miss(noted: Outcome)

  function FastEval(ops: seq<Op>, cfaOps: seq<Op>, snap: Snapshot, bias: Word): Fast {
    if |ops| == 1 then
      match FastReg(ops[0], snap)
      case Some(v) => Hit(v)
      case None => Miss(Failed)
    else if |ops| < 2 || ops[0].atom != DW_OP_call_frame_cfa then Miss(Failed)
    else match FastCfa(cfaOps, snap, bias)
      case Value(cfa) => FastTail(ops, cfa, snap)
      case out => Miss(out)
  }

  function FastTail(ops: seq<Op>, cfa: Word, snap: Snapshot): Fast
    requires |ops| >= 2
  {
    if |ops| == 2 && ops[1].atom == DW_OP_stack_value then Hit(cfa)
    else if |ops| == 2 && ops[1].atom == DW_OP_plus_uconst then
      match ReadOutcome(snap, Add(cfa, ops[1].number))
      case Value(v) => Hit(v)
      case out => Miss(out)
    else if |ops| == 3 && ops[1].atom == DW_OP_plus_uconst && ops[2].atom == DW_OP_stack_value then
      Hit(Add(cfa, ops[1].number))
    else Miss(Failed)
  }

  // ----- agreement with the evaluator -----

  lemma RunOne(ops: seq<Op>, snap: Snapshot, bias: Word, cfa: Outcome, m: Machine, m': Machine, steps: nat)
    requires m.pc < |ops| && StepOf(ops, snap, bias, cfa, m) == Next(m')
    ensures Run(ops, snap, bias, cfa, m, steps + 1) == Run(ops, snap, bias, cfa, m', steps)
  {
    hide StepOf, Finish;
  }

  lemma RegOpStep(ops: seq<Op>, snap: Snapshot, bias: Word, cfa: Outcome)
    requires |ops| == 1 && FastReg(ops[0], snap).Some?
    ensures EvalWith(ops, snap, bias, cfa) == Value(FastReg(ops[0], snap).value)
  {
    hide Run;
    var v := FastReg(ops[0], snap).value;
    assert PushedValue(ops[0], snap, bias) == Some(v);
    var start, end := Machine(0, [], false), Machine(1, [v], false);
    assert StepOf(ops, snap, bias, cfa, start) == Next(end) by { assert [] + [v] == [v]; }
    RunOne(ops, snap, bias, cfa, start, end, STEPS_MAX - 1);
    RunEnd(ops, snap, bias, cfa, end, STEPS_MAX - 1);
  }

  lemma RunEnd(ops: seq<Op>, snap: Snapshot, bias: Word, cfa: Outcome, m: Machine, steps: nat)
    requires m.pc == |ops|
    ensures Run(ops, snap, bias, cfa, m, steps) == Finish(snap, m.stack, m.location)
  {}

  lemma FastCfaAgrees(cfaOps: seq<Op>, snap: Snapshot, bias: Word)
    requires NoCfaCall(cfaOps)
    ensures FastCfa(cfaOps, snap, bias) == EvalWith(cfaOps, snap, bias, Failed)
  {
    hide FastReg, EvalWith;
    if |cfaOps| == 1 && FastReg(cfaOps[0], snap).Some? {
      RegOpStep(cfaOps, snap, bias, Failed);
    } else {
      CfaSelf(cfaOps, snap, bias);
    }
  }

  /** After the leading CFA call the machine holds the CFA as a location. */
  lemma CfaStart(ops: seq<Op>, snap: Snapshot, bias: Word, cfa: Outcome)
    requires |ops| >= 2 && ops[0].atom == DW_OP_call_frame_cfa
    ensures EvalWith(ops, snap, bias, cfa) ==
            match cfa
            case Value(v) => Run(ops, snap, bias, cfa, Machine(1, [v], true), STEPS_MAX - 1)
            case _ => cfa
  {
    var start := Machine(0, [], false);
    if cfa.Value? {
      assert StepOf(ops, snap, bias, cfa, start) == Next(Machine(1, [cfa.value], true)) by {
        assert [] + [cfa.value] == [cfa.value];
      }
      RunOne(ops, snap, bias, cfa, start, Machine(1, [cfa.value], true), STEPS_MAX - 1);
    }
  }

  lemma TailAgrees(ops: seq<Op>, snap: Snapshot, bias: Word, cfa: Word)
    requires 2 <= |ops|
    ensures var out := Run(ops, snap, bias, Value(cfa), Machine(1, [cfa], true), STEPS_MAX - 1);
            match FastTail(ops, cfa, snap)
            case Hit(v) => out == Value(v)
            case Miss(BadRead(a)) => out == BadRead(a)
            case Miss(_) => true
  {
    hide Run, ReadStack;
    var m := Machine(1, [cfa], true);
    var c := Value(cfa);
    if |ops| == 2 && ops[1].atom == DW_OP_stack_value {
      RunOne(ops, snap, bias, c, m, Machine(2, [cfa], false), STEPS_MAX - 2);
      RunEnd(ops, snap, bias, c, Machine(2, [cfa], false), STEPS_MAX - 2);
    } else if |ops| <= 3 && ops[1].atom == DW_OP_plus_uconst {
      var sum := Add(cfa, ops[1].number);
      var m2 := Machine(2, [sum], true);
      assert StepOf(ops, snap, bias, c, m) == Next(m2) by { assert [cfa][..0] + [sum] == [sum]; }
      RunOne(ops, snap, bias, c, m, m2, STEPS_MAX - 2);
      if |ops| == 2 {
        RunEnd(ops, snap, bias, c, m2, STEPS_MAX - 2);
      } else if ops[2].atom == DW_OP_stack_value {
        RunOne(ops, snap, bias, c, m2, Machine(3, [sum], false), STEPS_MAX - 3);
        RunEnd(ops, snap, bias, c, Machine(3, [sum], false), STEPS_MAX - 3);
      }
    }
  }

  /** A fast hit is the general value, and a bad read noted by the fast path is the general outcome. */
  lemma FastAgrees(ops: seq<Op>, cfaOps: seq<Op>, snap: Snapshot, bias: Word)
    requires NoCfaCall(cfaOps)
    ensures match FastEval(ops, cfaOps, snap, bias)
            case Hit(v) => Eval(ops, cfaOps, snap, bias) == Value(v)
            case Miss(BadRead(a)) => Eval(ops, cfaOps, snap, bias) == BadRead(a)
            case Miss(_) => true
  {
    hide FastReg, FastTail, FastCfa, EvalWith, Run;
    var cfa := EvalWith(cfaOps, snap, bias, Failed);
    if |ops| == 1 {
      if FastReg(ops[0], snap).Some? {
        RegOpStep(ops, snap, bias, cfa);
      }
    } else if |ops| >= 2 && ops[0].atom == DW_OP_call_frame_cfa {
      FastCfaAgrees(cfaOps, snap, bias);
      CfaStart(ops, snap, bias, cfa);
      if cfa.Value? {
        TailAgrees(ops, snap, bias, cfa.value);
      }
    }
  }

  // ----- the methods -----

  datatype Reason = Ok | FrameCfaFailed | StackReadOutOfRange | CfaCalcFailed

  /** The stop reason of a general evaluation. */
  function ReasonOf(out: Outcome): Reason {
    match out
    case Value(_) => Ok
    case BadRead(_) => StackReadOutOfRange
    case Failed => CfaCalcFailed
  }

  method FastDwarfEval(u: Unwinder, ops: seq<Op>, cfaOps: seq<Op>, snap: Snapshot, bias: Word)
    returns (result: Option<Word>)
    requires NoCfaCall(cfaOps)
    modifies u
    ensures match FastEval(ops, cfaOps, snap, bias)
            case Hit(v) => result == Some(v) && u.bad == old(u.bad)
            case Miss(out) => result == None && u.bad == Noted(snap, old(u.bad), out)
  {
    hide FastReg, Eval, ReadStack;
    if |ops| == 1 {
      return FastReg(ops[0], snap);
    }
    if |ops| < 2 || ops[0].atom != DW_OP_call_frame_cfa {
      return None;
    }
    var cfa: Option<Word> := None;
    if |cfaOps| == 1 {
      cfa := FastReg(cfaOps[0], snap);
    }
    if cfa == None {
      cfa := u.EvalOps(cfaOps, cfaOps, snap, bias);
    }
    if cfa == None {
      return None;
    }
    if |ops| == 2 {
      if ops[1].atom == DW_OP_stack_value {
        return cfa;
      }
      if ops[1].atom == DW_OP_plus_uconst {
        result := u.ReadAddr(snap, Add(cfa.value, ops[1].number));
        return;
      }
      return None;
    }
    if |ops| == 3 && ops[1].atom == DW_OP_plus_uconst && ops[2].atom == DW_OP_stack_value {
      return Some(Add(cfa.value, ops[1].number));
    }
    return None;
  }

  /** `gen_reg` once `gu_cfi_get_ops` has chosen the operations, or found none for the register. */
  method RecoverReg(u: Unwinder, ops: Option<seq<Op>>, cfaOps: seq<Op>, snap: Snapshot, bias: Word)
    returns (reason: Reason, val: Word)
    requires NoCfaCall(cfaOps)
    modifies u
    ensures ops == None ==> reason == FrameCfaFailed
    ensures ops.Some? ==>
              var out := Eval(ops.value, cfaOps, snap, bias);
              reason == ReasonOf(out) && (reason == Ok ==> out == Value(val))
  {
    hide FastEval, Eval;
    if ops == None {
      return FrameCfaFailed, 0;
    }
    u.bad := None;
    FastAgrees(ops.value, cfaOps, snap, bias);
    var r := FastDwarfEval(u, ops.value, cfaOps, snap, bias);
    if r == None {
      r := u.EvalOps(ops.value, cfaOps, snap, bias);
    }
    match r {
      case Some(v) => return Ok, v;
      case None => return if u.bad.Some? then StackReadOutOfRange else CfaCalcFailed, 0;
    }
  }
}
