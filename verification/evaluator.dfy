/** The DWARF expression machine of `gu_dwarf_ops_eval` (section 2.5 of DWARF 5). */
module Evaluator {
  import opened Words
  import opened Operands
  import opened DwarfOps

  const STACK_MAX: nat := 256
  const STEPS_MAX: nat := 4096

  // ----- the sampled registers and stack -----

  datatype Sample = Sample(regs: seq<Word>, stack: seq<Byte>, rawSp: Word, page: Word)

  type Snapshot = s: Sample | 0 < s.page && |s.stack| < 0x1_0000_0000_0000_0000
    witness Sample([], [], 0, 4096)

  function Reg(snap: Snapshot, n: int): Option<Word> {
    if 0 <= n < |snap.regs| then Some(snap.regs[n]) else None
  }

  function WindowStart(snap: Snapshot): Word {
    snap.rawSp - snap.rawSp % snap.page
  }

  /** The eight bytes at `addr`, when they lie in a stack window that does not wrap. */
  function ReadStack(snap: Snapshot, addr: Word): Option<Word> {
    var start := WindowStart(snap);
    if start + |snap.stack| < TWO64 && start <= addr && addr + 8 <= start + |snap.stack|
    then Some(Little64(snap.stack, addr - start)) else None
  }

  datatype Outcome = Value(value: Word) | BadRead(addr: Word) | Failed

  // ----- the effect of single operations -----

  datatype Kind = Pushes | Shuffles | Derefs | Unary | Binary
                | Branch | Skip | CallCfa | StackValue | Nop | Unsupported

  function KindOf(atom: Byte): Kind {
    if atom == DW_OP_addr then Pushes
    else if DW_OP_const1u <= atom <= DW_OP_consts then Pushes
    else if DW_OP_dup <= atom <= DW_OP_rot then Shuffles
    else if atom == DW_OP_deref || atom == DW_OP_deref_size then Derefs
    else if atom == DW_OP_abs || atom == DW_OP_neg || atom == DW_OP_not then Unary
    else if atom == DW_OP_plus_uconst then Unary
    else if atom == DW_OP_bra then Branch
    else if atom == DW_OP_skip then Skip
    else if DW_OP_and <= atom <= DW_OP_ne then Binary
    else if DW_OP_lit0 <= atom < DW_OP_regx then Pushes
    else if atom == DW_OP_regx || atom == DW_OP_bregx then Pushes
    else if atom == DW_OP_nop then Nop
    else if atom == DW_OP_call_frame_cfa then CallCfa
    else if atom == DW_OP_stack_value then StackValue
    else Unsupported
  }

  function AddTo(base: Option<Word>, offset: Word): Option<Word> {
    match base
    case None => None
    case Some(v) => Some(Add(v, offset))
  }

  /** The value an operation without stack operands pushes. */
  function PushedValue(op: Op, snap: Snapshot, bias: Word): Option<Word> {
    if op.atom == DW_OP_addr then Some(Add(op.number, bias))
    else if op.atom <= DW_OP_consts then Some(op.number)
    else if op.atom < DW_OP_lit0 then None
    else if op.atom < DW_OP_reg0 then Some(op.atom - DW_OP_lit0)
    else if op.atom < DW_OP_breg0 then Reg(snap, op.atom - DW_OP_reg0)
    else if op.atom < DW_OP_regx then AddTo(Reg(snap, op.atom - DW_OP_breg0), op.number)
    else if op.atom == DW_OP_regx then Reg(snap, ToInt32(op.number))
    else AddTo(Reg(snap, ToInt32(op.number)), op.number2)
  }

  /** Rearrangements of the stack; the last element is the top. */
  function Shuffled(op: Op, s: seq<Word>): Option<seq<Word>> {
    var n := |s|;
    if op.atom == DW_OP_dup then (if n < 1 then None else Some(s + [s[n - 1]]))
    else if op.atom == DW_OP_drop then (if n < 1 then None else Some(s[..n - 1]))
    else if op.atom == DW_OP_over then (if n < 2 then None else Some(s + [s[n - 2]]))
    else if op.atom == DW_OP_pick then (if n <= op.number then None else Some(s + [s[n - 1 - op.number]]))
    else if op.atom == DW_OP_swap then (if n < 2 then None else Some(s[..n - 2] + [s[n - 1], s[n - 2]]))
    else if op.atom == DW_OP_rot then (if n < 3 then None else Some(s[..n - 3] + [s[n - 1], s[n - 3], s[n - 2]]))
    else None
  }

  function UnaryValue(op: Op, v: Word): Word {
    if op.atom == DW_OP_abs then Unsigned(if Signed(v) < 0 then -Signed(v) else Signed(v))
    else if op.atom == DW_OP_neg then Unsigned(-Signed(v))
    else if op.atom == DW_OP_not then TWO64 - 1 - v
    else Add(v, op.number)
  }

  function Flag(b: bool): Word {
    if b then 1 else 0
  }

  /** C division of signed integers truncates toward zero. */
  function TruncatedDiv(a: int, b: int): int
    requires b != 0
  {
    var q := (if a < 0 then -a else a) / (if b < 0 then -b else b);
    if (a < 0) == (b < 0) then q else -q
  }

  function DivValue(a: Word, b: Word): Option<Word> {
    if b == 0 || (Signed(a) == -TWO63 && Signed(b) == -1) then None
    else Some(Unsigned(TruncatedDiv(Signed(a), Signed(b))))
  }

  function ShiftValue(atom: Byte, a: Word, b: Word): Option<Word> {
    if b >= 64 then None
    else if atom == DW_OP_shl then Some(Unsigned(a * Pow2(b)))
    else if atom == DW_OP_shr then Some(Unsigned(a / Pow2(b)))
    else Some(Unsigned(Signed(a) / Pow2(b)))
  }

  /** `a` is below `b` on the stack. */
  function BinaryValue(atom: Byte, a: Word, b: Word): Option<Word> {
    if atom == DW_OP_and then Some(Bitwise(AND, a, b))
    else if atom == DW_OP_div then DivValue(a, b)
    else if atom == DW_OP_minus then Some(Sub(a, b))
    else if atom == DW_OP_mod then (if b == 0 then None else Some(a % b))
    else if atom == DW_OP_mul then Some(Mul(a, b))
    else if atom == DW_OP_or then Some(Bitwise(OR, a, b))
    else if atom == DW_OP_plus then Some(Add(a, b))
    else if DW_OP_shl <= atom <= DW_OP_shra then ShiftValue(atom, a, b)
    else if atom == DW_OP_xor then Some(Bitwise(XOR, a, b))
    else if atom == DW_OP_eq then Some(Flag(a == b))
    else if atom == DW_OP_ge then Some(Flag(Signed(a) >= Signed(b)))
    else if atom == DW_OP_gt then Some(Flag(Signed(a) > Signed(b)))
    else if atom == DW_OP_le then Some(Flag(Signed(a) <= Signed(b)))
    else if atom == DW_OP_lt then Some(Flag(Signed(a) < Signed(b)))
    else if atom == DW_OP_ne then Some(Flag(a != b))
    else None
  }

  /** The low `size` bytes of a dereferenced word. */
  function Narrow(op: Op, v: Word): Word {
    if op.atom == DW_OP_deref_size && op.number < 8 then LowBytes(v, op.number) else v
  }

  function LowBytes(v: Word, n: nat): Word
    requires n < 8
  {
    LowBytesFit(v, n);
    v % Pow2(8 * n)
  }

  lemma LowBytesFit(v: Word, n: nat)
    requires n < 8
    ensures 0 <= v % Pow2(8 * n) < TWO64
  {
    hide Pow2;
    Pow2At64();
    Pow2Less(8 * n, 64);
    RemainderBelow(v, Pow2(8 * n));
  }

  lemma RemainderBelow(v: nat, p: nat)
    requires p > 0
    ensures 0 <= v % p < p
  {}

  datatype Effect = Stack(s: seq<Word>) | Stuck(out: Outcome)

  function Capped(s: Option<seq<Word>>): Effect {
    if s.Some? && |s.value| <= STACK_MAX then Stack(s.value) else Stuck(Failed)
  }

  function DerefEffect(op: Op, snap: Snapshot, s: seq<Word>): Effect {
    if (op.atom == DW_OP_deref_size && op.number > 8) || s == [] then Stuck(Failed)
    else
      var n := |s| - 1;
      match ReadStack(snap, s[n])
      case None => Stuck(BadRead(s[n]))
      case Some(v) => Capped(Some(s[..n] + [Narrow(op, v)]))
  }

  function UnaryEffect(op: Op, s: seq<Word>): Effect {
    if s == [] then Stuck(Failed)
    else Capped(Some(s[..|s| - 1] + [UnaryValue(op, s[|s| - 1])]))
  }

  function BinaryEffect(op: Op, s: seq<Word>): Effect {
    var n := |s|;
    if n < 2 then Stuck(Failed)
    else match BinaryValue(op.atom, s[n - 2], s[n - 1])
      case None => Stuck(Failed)
      case Some(v) => Capped(Some(s[..n - 2] + [v]))
  }

  /** What an operation other than a branch or a CFA call does to the stack. */
  function EffectOf(op: Op, snap: Snapshot, bias: Word, s: seq<Word>): Effect {
    match KindOf(op.atom)
    case Pushes =>
      (match PushedValue(op, snap, bias)
       case None => Stuck(Failed)
       case Some(v) => Capped(Some(s + [v])))
    case Shuffles => Capped(Shuffled(op, s))
    case Derefs => DerefEffect(op, snap, s)
    case Unary => UnaryEffect(op, s)
    case Binary => BinaryEffect(op, s)
    case Nop => Stack(s)
    case _ => Stuck(Failed)
  }

  // ----- branches -----

  /** `bsearch` over the offsets of ops[l..u]. */
  function BSearch(ops: seq<Op>, key: Word, l: nat, u: nat): (r: Option<nat>)
    requires l <= u <= |ops|
    ensures r.Some? ==> l <= r.value < u && ops[r.value].offset == key
    decreases u - l
  {
    if l == u then None
    else
      var mid := (l + u) / 2;
      if key < ops[mid].offset then BSearch(ops, key, l, mid)
      else if key > ops[mid].offset then BSearch(ops, key, mid + 1, u)
      else Some(mid)
  }

  /** Branch operands count from the byte after the three-byte branch operation. */
  function Target(op: Op): Word {
    Unsigned(op.offset + 3 + ToInt16(op.number))
  }

  // ----- runs -----

  datatype Machine = Machine(pc: nat, stack: seq<Word>, location: bool)

  datatype Step = Next(m: Machine) | Stop(out: Outcome)

  function Jump(ops: seq<Op>, op: Op, m: Machine): Step {
    match BSearch(ops, Target(op), 0, |ops|)
    case None => Stop(Failed)
    case Some(i) => Next(m.(pc := i))
  }

  /** One operation; `cfa` is the outcome of evaluating the CFA program. */
  function StepOf(ops: seq<Op>, snap: Snapshot, bias: Word, cfa: Outcome, m: Machine): Step
    requires m.pc < |ops|
  {
    var op, s := ops[m.pc], m.stack;
    match KindOf(op.atom)
    case Branch =>
      if s == [] then Stop(Failed)
      else
        var popped := m.(stack := s[..|s| - 1]);
        if s[|s| - 1] == 0 then Next(popped.(pc := m.pc + 1)) else Jump(ops, op, popped)
    case Skip => Jump(ops, op, m)
    case CallCfa =>
      (match cfa
       case Value(v) => if |s| < STACK_MAX then Next(Machine(m.pc + 1, s + [v], true)) else Stop(Failed)
       case _ => Stop(cfa))
    case StackValue => Next(Machine(m.pc + 1, s, false))
    case _ =>
      match EffectOf(op, snap, bias, s)
      case Stack(s') => Next(Machine(m.pc + 1, s', m.location))
      case Stuck(out) => Stop(out)
  }

  /** The top of the stack, loaded when it is a location. */
  function Finish(snap: Snapshot, stack: seq<Word>, location: bool): Outcome {
    if stack == [] then Failed
    else
      var top := stack[|stack| - 1];
      if !location then Value(top)
      else match ReadStack(snap, top)
        case Some(v) => Value(v)
        case None => BadRead(top)
  }

  function Run(ops: seq<Op>, snap: Snapshot, bias: Word, cfa: Outcome, m: Machine, steps: nat): Outcome
    decreases steps, |ops|
  {
    if m.pc >= |ops| then Finish(snap, m.stack, m.location)
    else if steps == 0 then Failed
    else match StepOf(ops, snap, bias, cfa, m)
      case Stop(out) => out
      case Next(m') => Run(ops, snap, bias, cfa, m', steps - 1)
  }

  function EvalWith(ops: seq<Op>, snap: Snapshot, bias: Word, cfa: Outcome): Outcome {
    if ops == [] then Failed else Run(ops, snap, bias, cfa, Machine(0, [], false), STEPS_MAX)
  }

  /** Evaluation of `ops` in a frame whose CFA program is `cfaOps`. */
  function Eval(ops: seq<Op>, cfaOps: seq<Op>, snap: Snapshot, bias: Word): Outcome {
    EvalWith(ops, snap, bias, EvalWith(cfaOps, snap, bias, Failed))
  }

  ghost predicate NoCfaCall(ops: seq<Op>) {
    forall i :: 0 <= i < |ops| ==> ops[i].atom != DW_OP_call_frame_cfa
  }

  lemma {:induction false} RunIgnoresCfa(ops: seq<Op>, snap: Snapshot, bias: Word, a: Outcome, b: Outcome,
                                         m: Machine, steps: nat)
    requires NoCfaCall(ops)
    ensures Run(ops, snap, bias, a, m, steps) == Run(ops, snap, bias, b, m, steps)
    decreases steps
  {
    hide EffectOf, Jump, Finish;
    if m.pc < |ops| && steps > 0 {
      assert ops[m.pc].atom != DW_OP_call_frame_cfa;
      var step := StepOf(ops, snap, bias, a, m);
      assert step == StepOf(ops, snap, bias, b, m);
      if step.Next? {
        RunIgnoresCfa(ops, snap, bias, a, b, step.m, steps - 1);
      }
    }
  }

  /** A CFA program that does not call itself has one outcome, whatever the nested CFA would be. */
  lemma CfaSelf(cfaOps: seq<Op>, snap: Snapshot, bias: Word)
    requires NoCfaCall(cfaOps)
    ensures Eval(cfaOps, cfaOps, snap, bias) == EvalWith(cfaOps, snap, bias, Failed)
  {
    hide Run;
    if cfaOps != [] {
      RunIgnoresCfa(cfaOps, snap, bias, Failed, EvalWith(cfaOps, snap, bias, Failed),
                    Machine(0, [], false), STEPS_MAX);
    }
  }

  /** The recursion of the source closes after one level: `Eval` solves its defining equation. */
  lemma CfaNestsOnce(ops: seq<Op>, cfaOps: seq<Op>, snap: Snapshot, bias: Word)
    requires NoCfaCall(cfaOps)
    ensures Eval(ops, cfaOps, snap, bias)
            == EvalWith(ops, snap, bias, Eval(cfaOps, cfaOps, snap, bias))
  {
    hide EvalWith;
    CfaSelf(cfaOps, snap, bias);
  }

  // ----- bounds on every activation -----

  /** The states in which an activation executes an operation. */
  function Trace(ops: seq<Op>, snap: Snapshot, bias: Word, cfa: Outcome, m: Machine, steps: nat): seq<Machine>
    decreases steps, |ops|
  {
    if m.pc >= |ops| || steps == 0 then []
    else match StepOf(ops, snap, bias, cfa, m)
      case Stop(_) => [m]
      case Next(m') => [m] + Trace(ops, snap, bias, cfa, m', steps - 1)
  }

  lemma StepDepth(ops: seq<Op>, snap: Snapshot, bias: Word, cfa: Outcome, m: Machine)
    requires m.pc < |ops| && |m.stack| <= STACK_MAX
    ensures var step := StepOf(ops, snap, bias, cfa, m);
            step.Next? ==> |step.m.stack| <= STACK_MAX && step.m.pc <= |ops|
  {
    hide PushedValue, Shuffled, UnaryValue, BinaryValue, ReadStack, Narrow;
  }

  /** Any list of operations: at most 4096 are executed, on a stack of at most 256 entries. */
  lemma {:induction false} TraceBounded(ops: seq<Op>, snap: Snapshot, bias: Word, cfa: Outcome,
                                        m: Machine, steps: nat)
    requires |m.stack| <= STACK_MAX
    ensures |Trace(ops, snap, bias, cfa, m, steps)| <= steps
    ensures forall t :: t in Trace(ops, snap, bias, cfa, m, steps) ==> |t.stack| <= STACK_MAX && t.pc < |ops|
    decreases steps
  {
    hide StepOf;
    if m.pc < |ops| && steps > 0 {
      StepDepth(ops, snap, bias, cfa, m);
      var step := StepOf(ops, snap, bias, cfa, m);
      if step.Next? {
        TraceBounded(ops, snap, bias, cfa, step.m, steps - 1);
      }
    }
  }
}
