/** Compiled rules evaluate to what section 6.4.1 of DWARF 5 assigns to the rules. */
module RuleMeaning {
  import opened Words
  import opened Leb128
  import opened Operands
  import opened DwarfOps
  import opened ExprBlock
  import opened Evaluator
  import opened EvalMachine
  import opened GenReg
  import opened FrameRules

  // ----- branch targets -----

  ghost predicate Sorted(ops: seq<Op>) {
    forall i, j :: 0 <= i < j < |ops| ==> ops[i].offset <= ops[j].offset
  }

  lemma {:induction false} BSearchFinds(ops: seq<Op>, key: Word, l: nat, u: nat, k: nat)
    requires Sorted(ops) && l <= k < u <= |ops| && ops[k].offset == key
    ensures BSearch(ops, key, l, u).Some?
    decreases u - l
  {
    var mid := (l + u) / 2;
    if key < ops[mid].offset {
      BSearchFinds(ops, key, l, mid, k);
    } else if key > ops[mid].offset {
      BSearchFinds(ops, key, mid + 1, u, k);
    }
  }

  /** With increasing offsets a branch lands on the unique operation at its target, if there is one. */
  lemma BranchExact(ops: seq<Op>, key: Word, k: nat)
    requires Ascending(ops)
    ensures BSearch(ops, key, 0, |ops|) == Some(k) <==> k < |ops| && ops[k].offset == key
    ensures BSearch(ops, key, 0, |ops|) == None <==> forall i :: 0 <= i < |ops| ==> ops[i].offset != key
  {
    if i :| 0 <= i < |ops| && ops[i].offset == key {
      BSearchFinds(ops, key, 0, |ops|, i);
    }
  }

  /** The prefix shares offset 0 with the first real operation; the search always probes that one first. */
  lemma {:induction false} BSearchZero(all: seq<Op>, u: nat)
    requires 2 <= u <= |all| && all[1].offset == 0
    requires forall i :: 1 < i < |all| ==> all[i].offset > 0
    ensures BSearch(all, 0, 0, u) == Some(1)
    decreases u
  {
    var mid := u / 2;
    if mid > 1 {
      BSearchZero(all, mid);
    }
  }

  // ----- blocks run on their own -----

  predicate IsBranch(op: Op) {
    op.atom == DW_OP_bra || op.atom == DW_OP_skip
  }

  /** Whether a branch operation branches on this stack. */
  predicate Taken(op: Op, s: seq<Word>) {
    op.atom == DW_OP_skip || (op.atom == DW_OP_bra && s != [] && s[|s| - 1] != 0)
  }

  /** The machine after a taken branch to position `pc`. */
  function Branched(op: Op, m: Machine, pc: nat): Machine
    requires Taken(op, m.stack)
  {
    Machine(pc, if op.atom == DW_OP_bra then m.stack[..|m.stack| - 1] else m.stack, m.location)
  }

  /** How a block ends: past its last operation, by a branch to its end, or not at all. */
  datatype Ending = Ended(m: Machine) | Jumped(m: Machine) | Broke

  function BlockRun(ops: seq<Op>, end: Word, snap: Snapshot, bias: Word, cfa: Outcome, m: Machine, steps: nat): Ending
    decreases steps, |ops|
  {
    if m.pc >= |ops| then Ended(m)
    else if steps == 0 then Broke
    else if Taken(ops[m.pc], m.stack) && Target(ops[m.pc]) == end then Jumped(Branched(ops[m.pc], m, |ops|))
    else match StepOf(ops, snap, bias, cfa, m)
      case Stop(_) => Broke
      case Next(m') => BlockRun(ops, end, snap, bias, cfa, m', steps - 1)
  }

  /** The top of the stack on which a block ends. */
  function Top(e: Ending): Option<Word> {
    if e.Broke? || e.m.stack == [] then None else Some(e.m.stack[|e.m.stack| - 1])
  }

  /** The compiled form of a block: CFA prefix, the block, and possibly a final stack_value. */
  function Wrapped(ops: seq<Op>, end: Option<Word>): seq<Op> {
    [PUSH_CFA] + ops + match end case None => [] case Some(o) => [Op(DW_OP_stack_value, 0, 0, o)]
  }

  function Shift(m: Machine): Machine {
    m.(pc := m.pc + 1)
  }

  /** Offsets of a decoded block: increasing from 0, all below `end`. */
  ghost predicate Laid(ops: seq<Op>, end: Word) {
    && ops != [] && ops[0].offset == 0 && Ascending(ops)
    && forall i :: 0 <= i < |ops| ==> ops[i].offset < end
  }

  /** A key met only inside the block is found one place later in the compiled list. */
  lemma ShiftedSearch(all: seq<Op>, ops: seq<Op>, key: Word)
    requires Sorted(all) && Ascending(ops) && |ops| < |all|
    requires forall i :: 0 <= i < |ops| ==> all[i + 1].offset == ops[i].offset
    requires all[0].offset != key && forall i :: |ops| < i < |all| ==> all[i].offset != key
    ensures BSearch(all, key, 0, |all|) == Later(BSearch(ops, key, 0, |ops|))
  {
    hide BSearch;
    var found, inner := BSearch(all, key, 0, |all|), BSearch(ops, key, 0, |ops|);
    if found.Some? {
      assert ops[found.value - 1].offset == key;
      BranchExact(ops, key, found.value - 1);
    } else if inner.Some? {
      BSearchFinds(all, key, 0, |all|, inner.value + 1);
    }
  }

  lemma WrappedOffsets(ops: seq<Op>, end: Word, isValue: bool)
    requires Laid(ops, end)
    ensures var all := Wrapped(ops, if isValue then Some(end) else None);
            && Sorted(all) && all[1].offset == 0
            && (forall i :: 1 < i < |all| ==> all[i].offset > 0)
            && (forall i :: 0 <= i < |ops| ==> all[i + 1] == ops[i])
  {
    var all := Wrapped(ops, if isValue then Some(end) else None);
    assert forall i :: 0 <= i < |ops| ==> all[i + 1] == ops[i];
    forall i, j | 0 <= i < j < |all| ensures all[i].offset <= all[j].offset {
      if 0 < i && j <= |ops| {
        assert ops[i - 1].offset <= ops[j - 1].offset;
      }
    }
    forall i | 1 < i < |all| ensures all[i].offset > 0 {
      if i <= |ops| {
        assert ops[0].offset < ops[i - 1].offset;
      } else {
        assert ops[0].offset < end;
      }
    }
  }

  /** Keys other than the end of the block are found in the compiled list where the block has them. */
  lemma WrappedSearch(ops: seq<Op>, end: Word, isValue: bool, key: Word)
    requires Laid(ops, end) && key != end
    ensures var all := Wrapped(ops, if isValue then Some(end) else None);
            BSearch(all, key, 0, |all|) == Later(BSearch(ops, key, 0, |ops|))
  {
    hide BSearch, Sorted;
    var all := Wrapped(ops, if isValue then Some(end) else None);
    WrappedOffsets(ops, end, isValue);
    if key == 0 {
      BSearchZero(all, |all|);
      BranchExact(ops, 0, 0);
    } else {
      ShiftedSearch(all, ops, key);
    }
  }

  /** The end of the block is the place of the final stack_value, or nowhere. */
  lemma EndSearch(ops: seq<Op>, end: Word, isValue: bool)
    requires Laid(ops, end)
    ensures var all := Wrapped(ops, if isValue then Some(end) else None);
            BSearch(all, end, 0, |all|) == if isValue then Some(|ops| + 1) else None
  {
    hide BSearch, Sorted;
    var all := Wrapped(ops, if isValue then Some(end) else None);
    WrappedOffsets(ops, end, isValue);
    var found := BSearch(all, end, 0, |all|);
    assert forall i :: 0 < i <= |ops| ==> all[i].offset == ops[i - 1].offset < end;
    if isValue {
      BSearchFinds(all, end, 0, |all|, |ops| + 1);
    }
  }

  function Later(found: Option<nat>): Option<nat> {
    match found case None => None case Some(k) => Some(k + 1)
  }

  lemma StepTransfers(all: seq<Op>, ops: seq<Op>, snap: Snapshot, bias: Word, cfa: Outcome, m: Machine)
    requires m.pc < |ops| && m.pc + 1 < |all| && all[m.pc + 1] == ops[m.pc]
    requires Taken(ops[m.pc], m.stack) ==>
               BSearch(all, Target(ops[m.pc]), 0, |all|) == Later(BSearch(ops, Target(ops[m.pc]), 0, |ops|))
    ensures StepOf(all, snap, bias, cfa, Shift(m)) ==
            match StepOf(ops, snap, bias, cfa, m) case Next(m') => Next(Shift(m')) case Stop(out) => Stop(out)
  {
    hide EffectOf, BSearch, Target;
  }

  /** One operation of the block does the same inside the compiled list, unless it leaves the block. */
  lemma WrappedStep(ops: seq<Op>, end: Word, isValue: bool, snap: Snapshot, bias: Word, cfa: Outcome, m: Machine)
    requires Laid(ops, end) && m.pc < |ops| && !(Taken(ops[m.pc], m.stack) && Target(ops[m.pc]) == end)
    ensures StepOf(Wrapped(ops, if isValue then Some(end) else None), snap, bias, cfa, Shift(m)) ==
            match StepOf(ops, snap, bias, cfa, m) case Next(m') => Next(Shift(m')) case Stop(out) => Stop(out)
  {
    hide StepOf, BSearch, Target, Laid;
    if Taken(ops[m.pc], m.stack) {
      WrappedSearch(ops, end, isValue, Target(ops[m.pc]));
    }
    StepTransfers(Wrapped(ops, if isValue then Some(end) else None), ops, snap, bias, cfa, m);
  }

  /** A branch to the end reaches the final stack_value, or fails when there is none. */
  lemma LeavingStep(ops: seq<Op>, end: Word, isValue: bool, snap: Snapshot, bias: Word, cfa: Outcome, m: Machine)
    requires Laid(ops, end) && m.pc < |ops| && Taken(ops[m.pc], m.stack) && Target(ops[m.pc]) == end
    ensures StepOf(Wrapped(ops, if isValue then Some(end) else None), snap, bias, cfa, Shift(m)) ==
            if isValue then Next(Shift(Branched(ops[m.pc], m, |ops|))) else Stop(Failed)
  {
    hide EffectOf, BSearch, Target, Laid;
    EndSearch(ops, end, isValue);
    assert Wrapped(ops, if isValue then Some(end) else None)[m.pc + 1] == ops[m.pc];
  }

  lemma StepStops(ops: seq<Op>, snap: Snapshot, bias: Word, cfa: Outcome, m: Machine)
    requires m.pc < |ops|
    ensures var step := StepOf(ops, snap, bias, cfa, m);
            && (step.Stop? ==> !step.out.Value?)
            && (step.Next? ==> step.m.pc <= |ops|)
  {
    hide EffectOf, BSearch;
    EffectFails(ops[m.pc], snap, bias, m.stack);
  }

  /** What an expression list yields: nothing for a jump to the end, else the top, loaded when it is a location. */
  function Loaded(snap: Snapshot, e: Ending): Option<Word> {
    if e.Ended? then ValueOf(Finish(snap, e.m.stack, e.m.location)) else None
  }

  /** Without a final stack_value the compiled list runs the block and then loads. */
  lemma {:induction false} SimulateLoad(ops: seq<Op>, end: Word, snap: Snapshot, bias: Word, cfa: Outcome,
                                        m: Machine, k: nat)
    requires Laid(ops, end) && m.pc <= |ops|
    ensures ValueOf(Run(Wrapped(ops, None), snap, bias, cfa, Shift(m), k))
            == Loaded(snap, BlockRun(ops, end, snap, bias, cfa, m, k))
    decreases k
  {
    hide StepOf, Finish, Laid, Target;
    var all := Wrapped(ops, None);
    if m.pc < |ops| && k > 0 {
      if Taken(ops[m.pc], m.stack) && Target(ops[m.pc]) == end {
        LeavingStep(ops, end, false, snap, bias, cfa, m);
      } else {
        WrappedStep(ops, end, false, snap, bias, cfa, m);
        StepStops(ops, snap, bias, cfa, m);
        var step := StepOf(ops, snap, bias, cfa, m);
        if step.Next? {
          SimulateLoad(ops, end, snap, bias, cfa, step.m, k - 1);
        }
      }
    }
  }

  /** With a final stack_value one more step turns the result into a value, after a jump to the end as well. */
  lemma {:induction false} SimulateValue(ops: seq<Op>, end: Word, snap: Snapshot, bias: Word, cfa: Outcome,
                                         m: Machine, k: nat)
    requires Laid(ops, end) && m.pc <= |ops|
    ensures ValueOf(Run(Wrapped(ops, Some(end)), snap, bias, cfa, Shift(m), k + 1))
            == Top(BlockRun(ops, end, snap, bias, cfa, m, k))
    decreases k
  {
    hide StepOf, Laid, Target;
    var all := Wrapped(ops, Some(end));
    if m.pc == |ops| {
      ValueStep(ops, end, snap, bias, cfa, m, k);
    } else if Taken(ops[m.pc], m.stack) && Target(ops[m.pc]) == end {
      var after := Branched(ops[m.pc], m, |ops|);
      LeavingStep(ops, end, true, snap, bias, cfa, m);
      RunOne(all, snap, bias, cfa, Shift(m), Shift(after), k);
      if k > 0 {
        ValueStep(ops, end, snap, bias, cfa, after, k - 1);
      }
    } else {
      WrappedStep(ops, end, true, snap, bias, cfa, m);
      StepStops(ops, snap, bias, cfa, m);
      var step := StepOf(ops, snap, bias, cfa, m);
      if step.Next? {
        RunOne(all, snap, bias, cfa, Shift(m), Shift(step.m), k);
        if k > 0 {
          SimulateValue(ops, end, snap, bias, cfa, step.m, k - 1);
        }
      }
    }
  }

  /** The final stack_value ends the run with the top of the stack as its value. */
  lemma ValueStep(ops: seq<Op>, end: Word, snap: Snapshot, bias: Word, cfa: Outcome, m: Machine, k: nat)
    requires m.pc == |ops|
    ensures ValueOf(Run(Wrapped(ops, Some(end)), snap, bias, cfa, Shift(m), k + 1)) == Top(Ended(m))
  {
    hide EffectOf, Run;
    var all := Wrapped(ops, Some(end));
    var after := Machine(|all|, m.stack, false);
    assert all[|ops| + 1].atom == DW_OP_stack_value;
    RunOne(all, snap, bias, cfa, Shift(m), after, k);
    RunEnd(all, snap, bias, cfa, after, k);
  }

  // ----- the meaning of rules -----

  /** How a block ends when it starts on `start`; an undecodable one does not. */
  function EndingOf(block: seq<Byte>, snap: Snapshot, bias: Word, cfa: Outcome, start: Machine, steps: nat): Ending
    requires |block| < TWO64
  {
    match DecodeFrom(block, 0)
    case None => Broke
    case Some(ops) => BlockRun(ops, |block|, snap, bias, cfa, start, steps)
  }

  function Load(snap: Snapshot, addr: Option<Word>): Option<Word> {
    match addr
    case None => None
    case Some(a) => ReadStack(snap, a)
  }

  /**
   How a register rule's block ends, started with the CFA pushed.  It may take as many steps as the
   evaluator leaves it after the operations the compiler adds.
   */
  function RuleEnding(section: seq<Byte>, at: Word, isValue: bool, cfa: Word, snap: Snapshot, bias: Word): Ending
    requires |section| < TWO64
  {
    match BlockAt(section, at)
    case None => Broke
    case Some(block) =>
      EndingOf(block, snap, bias, Value(cfa), Machine(0, [cfa], true), if isValue then STEPS_MAX - 2 else STEPS_MAX - 1)
  }

  /**
   The value section 6.4.1 assigns to a register whose frame has CFA `cfa`; None when the rule names
   no value or it cannot be computed from the snapshot.  A branch to the end of a block ends it.
   */
  function RegMeaning(rule: RegRule, section: seq<Byte>, cfa: Word, snap: Snapshot, bias: Word): Option<Word>
    requires |section| < TWO64
  {
    match rule
    case Offset(n) => ReadStack(snap, Add(cfa, n))
    case ValOffset(n) => Some(Add(cfa, n))
    case Register(n) => Reg(snap, Signed(n))
    case Expression(at) => Load(snap, Top(RuleEnding(section, at, false, cfa, snap, bias)))
    case ValExpression(at) => Top(RuleEnding(section, at, true, cfa, snap, bias))
    case _ => None
  }

  // ----- which rules have lists -----

  /** A rule that says where the register is. */
  predicate Says(rule: RegRule) {
    match rule
    case Unspecified => false
    case Undefined => false
    case SameValue => false
    case _ => true
  }

  /** A block with operations, at most `max` of them. */
  predicate Decodable(block: seq<Byte>, max: nat)
    requires |block| < TWO64
  {
    block != [] && DecodeFrom(block, 0).Some? && |DecodeFrom(block, 0).value| <= max
  }

  /** Expressions need a block of at most 254 operations at their offset. */
  predicate Listed(rule: RegRule, section: seq<Byte>)
    requires |section| < TWO64
  {
    match rule
    case Offset(_) => true
    case ValOffset(_) => true
    case Register(_) => true
    case Expression(at) => BlockAt(section, at).Some? && Decodable(BlockAt(section, at).value, 254)
    case ValExpression(at) => BlockAt(section, at).Some? && Decodable(BlockAt(section, at).value, 254)
    case _ => false
  }

  predicate CfaListed(rule: CfaRule)
    requires rule.CfaExpression? ==> |rule.block| < TWO64
  {
    match rule
    case CfaRegister(_, _) => true
    case CfaExpression(block) => Decodable(block, 255)
    case _ => false
  }

  /** The rules that get a list, and no others. */
  lemma ListExact(rule: RegRule, section: seq<Byte>)
    requires |section| < TWO64
    ensures CompileReg(rule, section).Some? <==> Listed(rule, section)
  {
    hide DecodeFrom, BlockAt;
  }

  lemma CfaListExact(rule: CfaRule)
    requires rule.CfaExpression? ==> |rule.block| < TWO64
    ensures CompileCfa(rule).Some? <==> CfaListed(rule)
  {
    hide DecodeFrom;
  }

  /** Register numbers as the decoder delivers them. */
  predicate Decoded(rule: RegRule) {
    rule.Register? ==> IsInt32(rule.n)
  }

  /**
   When the compiled form of a rule gives the rule's value: always, but for expressions.  Their list has
   nothing at the end of the block to branch to, and an own stack_value keeps it from loading.
   */
  predicate RuleAgrees(rule: RegRule, section: seq<Byte>, cfa: Word, snap: Snapshot, bias: Word)
    requires |section| < TWO64
  {
    rule.Expression? ==> LoadsRight(snap, RuleEnding(section, rule.at, false, cfa, snap, bias))
  }

  predicate LoadsRight(snap: Snapshot, e: Ending) {
    match e
    case Broke => true
    case Jumped(_) => Load(snap, Top(e)) == None
    case Ended(m) => m.location || Load(snap, Top(e)) == Top(e)
  }

  /** A compiled register rule evaluates to the meaning of the rule exactly when they agree. */
  lemma RuleCompiles(rule: RegRule, section: seq<Byte>, cfa: Word, snap: Snapshot, bias: Word)
    requires |section| < TWO64 && CompileReg(rule, section).Some? && Decoded(rule)
    ensures ValueOf(EvalWith(CompileReg(rule, section).value, snap, bias, Value(cfa)))
            == RegMeaning(rule, section, cfa, snap, bias)
            <==> RuleAgrees(rule, section, cfa, snap, bias)
  {
    hide EvalWith, ReadStack, RuleEnding, LoadsRight;
    match rule {
      case Offset(n) => OffsetCompiles(n, cfa, snap, bias);
      case ValOffset(n) => ValOffsetCompiles(n, cfa, snap, bias);
      case Register(n) => RegisterCompiles(n, Value(cfa), snap, bias);
      case Expression(at) => ExpressionCompiles(section, at, cfa, snap, bias);
      case ValExpression(at) => ValExpressionCompiles(section, at, cfa, snap, bias);
    }
  }

  lemma OffsetCompiles(n: Word, cfa: Word, snap: Snapshot, bias: Word)
    ensures ValueOf(EvalWith([PUSH_CFA] + PlusConst(n), snap, bias, Value(cfa))) == ReadStack(snap, Add(cfa, n))
  {
    hide Run, ReadStack;
    var ops := [PUSH_CFA] + PlusConst(n);
    if n == 0 {
      var start, end := Machine(0, [], false), Machine(1, [cfa], true);
      assert StepOf(ops, snap, bias, Value(cfa), start) == Next(end) by { assert [] + [cfa] == [cfa]; }
      RunOne(ops, snap, bias, Value(cfa), start, end, STEPS_MAX - 1);
      RunEnd(ops, snap, bias, Value(cfa), end, STEPS_MAX - 1);
    } else {
      CfaStart(ops, snap, bias, Value(cfa));
      TailAgrees(ops, snap, bias, cfa);
    }
  }

  lemma ValOffsetCompiles(n: Word, cfa: Word, snap: Snapshot, bias: Word)
    ensures EvalWith([PUSH_CFA] + PlusConst(n) + [STACK_VALUE_OP], snap, bias, Value(cfa)) == Value(Add(cfa, n))
  {
    hide Run, EvalWith;
    var ops := [PUSH_CFA] + PlusConst(n) + [STACK_VALUE_OP];
    CfaStart(ops, snap, bias, Value(cfa));
    TailAgrees(ops, snap, bias, cfa);
  }

  lemma RegisterCompiles(n: Word, cfa: Outcome, snap: Snapshot, bias: Word)
    requires IsInt32(n)
    ensures ValueOf(EvalWith([Op(DW_OP_regx, n, 0, 0)], snap, bias, cfa)) == Reg(snap, Signed(n))
  {
    hide Run;
    var op := Op(DW_OP_regx, n, 0, 0);
    assert ToInt32(n) == Signed(n);
    if FastReg(op, snap).Some? {
      RegOpStep([op], snap, bias, cfa);
    } else {
      RunStop([op], snap, bias, cfa, Machine(0, [], false), STEPS_MAX - 1);
    }
  }

  lemma RunStop(ops: seq<Op>, snap: Snapshot, bias: Word, cfa: Outcome, m: Machine, steps: nat)
    requires m.pc < |ops| && StepOf(ops, snap, bias, cfa, m).Stop?
    ensures Run(ops, snap, bias, cfa, m, steps + 1) == StepOf(ops, snap, bias, cfa, m).out
  {
    hide StepOf;
  }

  lemma BlockLaid(block: seq<Byte>, isValue: bool)
    requires |block| < TWO64 && BlockOps(block, false, isValue).Some?
    ensures DecodeFrom(block, 0).Some?
    ensures var ops, all := DecodeFrom(block, 0).value, BlockOps(block, false, isValue).value;
            ops != [] && Laid(ops, |block|) && all == Wrapped(ops, if isValue then Some(|block|) else None)
  {
    hide DecodeOp;
    AcceptedBlock(block, false, isValue);
    var ops := DecodeFrom(block, 0).value;
    forall i | 0 <= i < |ops| ensures ops[i].offset < |block| {
      assert TileAt(block, ops, i);
    }
  }

  /** What an expression list gives, for every accepted block. */
  lemma ExpressionYields(section: seq<Byte>, at: Word, cfa: Word, snap: Snapshot, bias: Word)
    requires |section| < TWO64 && CompileBlock(section, at, false).Some?
    ensures ValueOf(EvalWith(CompileBlock(section, at, false).value, snap, bias, Value(cfa)))
            == Loaded(snap, RuleEnding(section, at, false, cfa, snap, bias))
  {
    hide Run, DecodeFrom, BlockAt, BlockRun, Loaded, Laid;
    var block := BlockAt(section, at).value;
    BlockLaid(block, false);
    var ops, m := DecodeFrom(block, 0).value, Machine(0, [cfa], true);
    CfaPrefix(Wrapped(ops, None), snap, bias, cfa);
    SimulateLoad(ops, |block|, snap, bias, Value(cfa), m, STEPS_MAX - 1);
  }

  lemma ExpressionCompiles(section: seq<Byte>, at: Word, cfa: Word, snap: Snapshot, bias: Word)
    requires |section| < TWO64 && CompileBlock(section, at, false).Some?
    ensures ValueOf(EvalWith(CompileBlock(section, at, false).value, snap, bias, Value(cfa)))
            == RegMeaning(Expression(at), section, cfa, snap, bias)
            <==> LoadsRight(snap, RuleEnding(section, at, false, cfa, snap, bias))
  {
    hide EvalWith, CompileBlock, ReadStack, RuleEnding;
    ExpressionYields(section, at, cfa, snap, bias);
  }

  /** `CfaStart` for compiled blocks. */
  lemma CfaPrefix(all: seq<Op>, snap: Snapshot, bias: Word, cfa: Word)
    requires |all| >= 2 && all[0] == PUSH_CFA
    ensures EvalWith(all, snap, bias, Value(cfa))
            == Run(all, snap, bias, Value(cfa), Shift(Machine(0, [cfa], true)), STEPS_MAX - 1)
  {
    hide Run, EvalWith;
    CfaStart(all, snap, bias, Value(cfa));
  }

  /** Every accepted val_expression block, branches to its end included. */
  lemma ValExpressionCompiles(section: seq<Byte>, at: Word, cfa: Word, snap: Snapshot, bias: Word)
    requires |section| < TWO64 && CompileBlock(section, at, true).Some?
    ensures ValueOf(EvalWith(CompileBlock(section, at, true).value, snap, bias, Value(cfa)))
            == RegMeaning(ValExpression(at), section, cfa, snap, bias)
  {
    hide Run, DecodeFrom, BlockAt, BlockRun, Laid, Top;
    var block := BlockAt(section, at).value;
    BlockLaid(block, true);
    var ops, m := DecodeFrom(block, 0).value, Machine(0, [cfa], true);
    CfaPrefix(Wrapped(ops, Some(|block|)), snap, bias, cfa);
    SimulateValue(ops, |block|, snap, bias, Value(cfa), m, STEPS_MAX - 2);
  }

  // ----- the canonical frame address -----

  function CfaEnding(block: seq<Byte>, snap: Snapshot, bias: Word): Ending
    requires |block| < TWO64
  {
    EndingOf(block, snap, bias, Failed, Machine(0, [], false), STEPS_MAX)
  }

  function CfaMeaning(rule: CfaRule, snap: Snapshot, bias: Word): Option<Word>
    requires rule.CfaExpression? ==> |rule.block| < TWO64
  {
    match rule
    case CfaRegister(r, o) => AddTo(Reg(snap, Signed(r)), o)
    case CfaExpression(b) => Top(CfaEnding(b, snap, bias))
    case _ => None
  }

  /** A CFA expression that branches to its end has a value, but its list has nothing there to branch to. */
  predicate CfaAgrees(rule: CfaRule, snap: Snapshot, bias: Word)
    requires rule.CfaExpression? ==> |rule.block| < TWO64
  {
    rule.CfaExpression? ==>
      var e := CfaEnding(rule.block, snap, bias); !e.Jumped? || e.m.stack == []
  }

  lemma {:induction false} PlainBlock(ops: seq<Op>, end: Word, snap: Snapshot, bias: Word, m: Machine, k: nat)
    requires NoCfaCall(ops) && !m.location && forall i :: 0 <= i < |ops| ==> ops[i].offset < end
    ensures ValueOf(Run(ops, snap, bias, Failed, m, k)) ==
            var e := BlockRun(ops, end, snap, bias, Failed, m, k); if e.Jumped? then None else Top(e)
    decreases k
  {
    hide EffectOf, BSearch, Target;
    if m.pc < |ops| && k > 0 {
      assert ops[m.pc].atom != DW_OP_call_frame_cfa;
      StepStops(ops, snap, bias, Failed, m);
      var step := StepOf(ops, snap, bias, Failed, m);
      if Taken(ops[m.pc], m.stack) && Target(ops[m.pc]) == end {
        assert BSearch(ops, end, 0, |ops|) == None;
      } else if step.Next? {
        PlainBlock(ops, end, snap, bias, step.m, k - 1);
      }
    }
  }

  /** A compiled CFA rule evaluates to the meaning of the rule exactly when they agree. */
  lemma CfaCompiles(rule: CfaRule, snap: Snapshot, bias: Word)
    requires rule.CfaExpression? ==> |rule.block| < TWO64
    requires rule.CfaRegister? ==> IsInt32(rule.reg)
    requires CompileCfa(rule).Some? && NoCfaCall(CompileCfa(rule).value)
    ensures ValueOf(EvalWith(CompileCfa(rule).value, snap, bias, Failed)) == CfaMeaning(rule, snap, bias)
            <==> CfaAgrees(rule, snap, bias)
    ensures !CfaAgrees(rule, snap, bias) ==> ValueOf(EvalWith(CompileCfa(rule).value, snap, bias, Failed)) == None
  {
    hide Run, DecodeFrom, BlockRun;
    var ops := CompileCfa(rule).value;
    if rule.CfaRegister? {
      assert ToInt32(rule.reg) == Signed(rule.reg);
      if FastReg(ops[0], snap).Some? {
        RegOpStep(ops, snap, bias, Failed);
      } else {
        RunStop(ops, snap, bias, Failed, Machine(0, [], false), STEPS_MAX - 1);
      }
    } else {
      CfaBlockLaid(rule.block);
      PlainBlock(ops, |rule.block|, snap, bias, Machine(0, [], false), STEPS_MAX);
    }
  }

  lemma CfaBlockLaid(block: seq<Byte>)
    requires |block| < TWO64 && BlockOps(block, true, false).Some?
    ensures BlockOps(block, true, false) == DecodeFrom(block, 0)
    ensures var ops := DecodeFrom(block, 0).value; ops != [] && forall i :: 0 <= i < |ops| ==> ops[i].offset < |block|
  {
    hide DecodeOp;
    AcceptedBlock(block, true, false);
    var ops := DecodeFrom(block, 0).value;
    forall i | 0 <= i < |ops| ensures ops[i].offset < |block| {
      assert TileAt(block, ops, i);
    }
  }

  /** A rule that starts from a CFA that cannot be computed fails with it. */
  lemma CfaFails(ops: seq<Op>, snap: Snapshot, bias: Word, cfa: Outcome)
    requires ops != [] && ops[0] == PUSH_CFA && !cfa.Value?
    ensures EvalWith(ops, snap, bias, cfa) == cfa
  {
    hide Run;
    RunStop(ops, snap, bias, cfa, Machine(0, [], false), STEPS_MAX - 1);
  }

  /** What a caller's register is, from the two rules of the row. */
  function CallerMeaning(rule: RegRule, cfaRule: CfaRule, section: seq<Byte>, snap: Snapshot, bias: Word): Option<Word>
    requires |section| < TWO64 && (cfaRule.CfaExpression? ==> |cfaRule.block| < TWO64)
  {
    match CfaMeaning(cfaRule, snap, bias)
    case Some(cfa) => RegMeaning(rule, section, cfa, snap, bias)
    case None => if rule.Register? then Reg(snap, Signed(rule.n)) else None
  }

  lemma CompiledStart(rule: RegRule, section: seq<Byte>)
    requires |section| < TWO64 && CompileReg(rule, section).Some? && !rule.Register?
    ensures CompileReg(rule, section).value != [] && CompileReg(rule, section).value[0] == PUSH_CFA
  {
    hide DecodeFrom;
  }

  /** When the two lists of a row give the caller's register. */
  predicate RowAgrees(rule: RegRule, cfaRule: CfaRule, section: seq<Byte>, snap: Snapshot, bias: Word)
    requires |section| < TWO64 && (cfaRule.CfaExpression? ==> |cfaRule.block| < TWO64)
  {
    match CfaMeaning(cfaRule, snap, bias)
    case None => true
    case Some(cfa) =>
      if CfaAgrees(cfaRule, snap, bias) then RuleAgrees(rule, section, cfa, snap, bias)
      else rule.Register? || RegMeaning(rule, section, cfa, snap, bias) == None
  }

  /** Both rules of a row compiled and evaluated together give the caller's register exactly when they agree. */
  lemma RowCompiles(rule: RegRule, cfaRule: CfaRule, section: seq<Byte>, snap: Snapshot, bias: Word)
    requires |section| < TWO64 && (cfaRule.CfaExpression? ==> |cfaRule.block| < TWO64)
    requires cfaRule.CfaRegister? ==> IsInt32(cfaRule.reg)
    requires CompileCfa(cfaRule).Some? && NoCfaCall(CompileCfa(cfaRule).value)
    requires CompileReg(rule, section).Some? && Decoded(rule)
    ensures ValueOf(Eval(CompileReg(rule, section).value, CompileCfa(cfaRule).value, snap, bias))
            == CallerMeaning(rule, cfaRule, section, snap, bias)
            <==> RowAgrees(rule, cfaRule, section, snap, bias)
  {
    hide EvalWith, CompileCfa, CompileReg, CfaMeaning, RegMeaning, NoCfaCall, RuleAgrees, CfaAgrees;
    var ops, cfaOps := CompileReg(rule, section).value, CompileCfa(cfaRule).value;
    var cfa := EvalWith(cfaOps, snap, bias, Failed);
    CfaCompiles(cfaRule, snap, bias);
    AgreesOnNone(cfaRule, snap, bias);
    if rule.Register? {
      RegisterList(rule, section, cfa, snap, bias);
    }
    if cfa.Value? {
      RuleCompiles(rule, section, cfa.value, snap, bias);
    } else if !rule.Register? {
      CompiledStart(rule, section);
      CfaFails(ops, snap, bias, cfa);
    }
  }

  lemma AgreesOnNone(rule: CfaRule, snap: Snapshot, bias: Word)
    requires rule.CfaExpression? ==> |rule.block| < TWO64
    ensures CfaMeaning(rule, snap, bias) == None ==> CfaAgrees(rule, snap, bias)
  {
    hide CfaEnding;
  }

  /** A register rule does not need the CFA. */
  lemma RegisterList(rule: RegRule, section: seq<Byte>, cfa: Outcome, snap: Snapshot, bias: Word)
    requires |section| < TWO64 && rule.Register? && Decoded(rule) && CompileReg(rule, section).Some?
    ensures ValueOf(EvalWith(CompileReg(rule, section).value, snap, bias, cfa)) == Reg(snap, Signed(rule.n))
    ensures forall c: Word :: RegMeaning(rule, section, c, snap, bias) == Reg(snap, Signed(rule.n))
    ensures forall c: Word :: RuleAgrees(rule, section, c, snap, bias)
  {
    hide EvalWith;
    RegisterCompiles(rule.n, cfa, snap, bias);
  }

  // ----- rows that always agree -----

  ghost predicate NoStackValue(ops: seq<Op>) {
    forall i :: 0 <= i < |ops| ==> ops[i].atom != DW_OP_stack_value
  }

  ghost predicate NoEndBranch(ops: seq<Op>, end: Word) {
    forall i :: 0 <= i < |ops| && IsBranch(ops[i]) ==> Target(ops[i]) != end
  }

  /** An expression block without a stack_value of its own and without a branch to its end. */
  ghost predicate PlainRule(rule: RegRule, section: seq<Byte>)
    requires |section| < TWO64
  {
    rule.Expression? && BlockAt(section, rule.at).Some? ==>
      var block := BlockAt(section, rule.at).value;
      DecodeFrom(block, 0).Some? ==>
        NoStackValue(DecodeFrom(block, 0).value) && NoEndBranch(DecodeFrom(block, 0).value, |block|)
  }

  ghost predicate PlainCfa(rule: CfaRule)
    requires rule.CfaExpression? ==> |rule.block| < TWO64
  {
    rule.CfaExpression? && DecodeFrom(rule.block, 0).Some? ==>
      NoEndBranch(DecodeFrom(rule.block, 0).value, |rule.block|)
  }

  lemma {:induction false} NeverJumps(ops: seq<Op>, end: Word, snap: Snapshot, bias: Word, cfa: Outcome,
                                      m: Machine, k: nat)
    requires NoEndBranch(ops, end)
    ensures !BlockRun(ops, end, snap, bias, cfa, m, k).Jumped?
    decreases k
  {
    hide StepOf, Target;
    if m.pc < |ops| && k > 0 && !(Taken(ops[m.pc], m.stack) && Target(ops[m.pc]) == end) {
      var step := StepOf(ops, snap, bias, cfa, m);
      if step.Next? {
        NeverJumps(ops, end, snap, bias, cfa, step.m, k - 1);
      }
    }
  }

  /** Without an own stack_value a block started on a location ends on a location. */
  lemma {:induction false} StaysLocation(ops: seq<Op>, end: Word, snap: Snapshot, bias: Word, cfa: Outcome,
                                         m: Machine, k: nat)
    requires NoStackValue(ops) && m.location
    ensures var e := BlockRun(ops, end, snap, bias, cfa, m, k); e.Ended? ==> e.m.location
    decreases k
  {
    hide EffectOf, BSearch, Target;
    if m.pc < |ops| && k > 0 && !(Taken(ops[m.pc], m.stack) && Target(ops[m.pc]) == end) {
      assert ops[m.pc].atom != DW_OP_stack_value;
      var step := StepOf(ops, snap, bias, cfa, m);
      if step.Next? {
        StaysLocation(ops, end, snap, bias, cfa, step.m, k - 1);
      }
    }
  }

  /** A condition on the blocks alone under which a row agrees for every snapshot. */
  lemma PlainRowAgrees(rule: RegRule, cfaRule: CfaRule, section: seq<Byte>, snap: Snapshot, bias: Word)
    requires |section| < TWO64 && (cfaRule.CfaExpression? ==> |cfaRule.block| < TWO64)
    requires PlainRule(rule, section) && PlainCfa(cfaRule)
    ensures RowAgrees(rule, cfaRule, section, snap, bias)
  {
    hide BlockRun, NoStackValue, NoEndBranch, DecodeFrom, BlockAt, RegMeaning;
    if cfaRule.CfaExpression? && DecodeFrom(cfaRule.block, 0).Some? {
      var ops := DecodeFrom(cfaRule.block, 0).value;
      NeverJumps(ops, |cfaRule.block|, snap, bias, Failed, Machine(0, [], false), STEPS_MAX);
    }
    if rule.Expression? && BlockAt(section, rule.at).Some? && CfaMeaning(cfaRule, snap, bias).Some? {
      var block, cfa := BlockAt(section, rule.at).value, CfaMeaning(cfaRule, snap, bias).value;
      if DecodeFrom(block, 0).Some? {
        var ops, m := DecodeFrom(block, 0).value, Machine(0, [cfa], true);
        NeverJumps(ops, |block|, snap, bias, Value(cfa), m, STEPS_MAX - 1);
        StaysLocation(ops, |block|, snap, bias, Value(cfa), m, STEPS_MAX - 1);
      }
    }
  }

  // ----- rows that do not agree -----

  lemma ReadSkip(block: seq<Byte>, pos: nat)
    requires |block| < TWO64 && |block| == pos + 3 && block[pos..] == [DW_OP_skip, 0, 0]
    ensures DecodeFrom(block, pos) == Some([Op(DW_OP_skip, 0, 0, pos)])
  {
    hide HighShape;
    assert block[pos] == block[pos..][0] && block[pos + 1] == block[pos..][1] && block[pos + 2] == block[pos..][2];
    assert Read(block, pos + 1, S16) == Some((0, pos + 3)) by { assert Little16(block, pos + 1) == 0; }
    var op := Op(DW_OP_skip, 0, 0, pos);
    DecodeFirst(block, pos, op, pos + 3, []);
    assert [op] + [] == [op];
  }

  lemma BlockStep(ops: seq<Op>, end: Word, snap: Snapshot, bias: Word, cfa: Outcome, m: Machine, m': Machine, k: nat)
    requires m.pc < |ops| && !IsBranch(ops[m.pc]) && StepOf(ops, snap, bias, cfa, m) == Next(m')
    ensures BlockRun(ops, end, snap, bias, cfa, m, k + 1) == BlockRun(ops, end, snap, bias, cfa, m', k)
  {
    hide StepOf, Target;
  }

  /** A section that is just one block with its length. */
  lemma OnlyBlock(block: seq<Byte>)
    requires |block| < 128
    ensures BlockAt([|block|] + block, 0) == Some(block)
  {
    var section := [|block|] + block;
    assert UlebBytes(|block|) == [|block|];
    UlebRoundTrip([], |block|, block);
    assert [] + [|block|] + block == section;
    assert section[1..1 + |block|] == block;
  }

  /**
   A block that jumps to its own end.  As val_expression it gives the CFA, which is its meaning; as
   expression it gives nothing where the rule means the word at the CFA.
   */
  lemma EndBranch(cfa: Word, snap: Snapshot, bias: Word)
    ensures var section: seq<Byte> := [3, DW_OP_skip, 0, 0];
            var value, load := CompileReg(ValExpression(0), section), CompileReg(Expression(0), section);
            && value.Some? && ValueOf(EvalWith(value.value, snap, bias, Value(cfa))) == Some(cfa)
            && RegMeaning(ValExpression(0), section, cfa, snap, bias) == Some(cfa)
            && load.Some? && ValueOf(EvalWith(load.value, snap, bias, Value(cfa))) == None
            && RegMeaning(Expression(0), section, cfa, snap, bias) == ReadStack(snap, cfa)
  {
    hide DecodeFrom, EvalWith, BlockAt, ReadStack, StepOf;
    var block: seq<Byte> := [DW_OP_skip, 0, 0];
    var section: seq<Byte> := [3, DW_OP_skip, 0, 0];
    OnlyBlock(block);
    assert [|block|] + block == section;
    assert block[0..] == block;
    ReadSkip(block, 0);
    ValExpressionCompiles(section, 0, cfa, snap, bias);
    ExpressionYields(section, 0, cfa, snap, bias);
  }

  /** A stack_value of its own keeps an expression from loading: it gives the CFA instead of the word there. */
  lemma OwnStackValue(cfa: Word, snap: Snapshot, bias: Word)
    ensures var section: seq<Byte> := [1, DW_OP_stack_value];
            var load := CompileReg(Expression(0), section);
            && load.Some? && ValueOf(EvalWith(load.value, snap, bias, Value(cfa))) == Some(cfa)
            && RegMeaning(Expression(0), section, cfa, snap, bias) == ReadStack(snap, cfa)
  {
    hide EvalWith, BlockAt, ReadStack, EffectOf;
    var block: seq<Byte> := [DW_OP_stack_value];
    var section: seq<Byte> := [1, DW_OP_stack_value];
    OnlyBlock(block);
    assert [|block|] + block == section;
    var op := Op(DW_OP_stack_value, 0, 0, 0);
    DecodeFirst(block, 0, op, 1, []);
    assert [op] + [] == [op];
    ExpressionYields(section, 0, cfa, snap, bias);
    var before, after := Machine(0, [cfa], true), Machine(1, [cfa], false);
    BlockStep([op], 1, snap, bias, Value(cfa), before, after, STEPS_MAX - 2);
    assert RuleEnding(section, 0, false, cfa, snap, bias) == Ended(after);
  }

  lemma ReadPushSkip()
    ensures DecodeFrom([DW_OP_lit0, DW_OP_skip, 0, 0], 0) == Some([Op(DW_OP_lit0, 0, 0, 0), Op(DW_OP_skip, 0, 0, 1)])
  {
    hide DecodeFrom;
    var block: seq<Byte> := [DW_OP_lit0, DW_OP_skip, 0, 0];
    var push, skip := Op(DW_OP_lit0, 0, 0, 0), Op(DW_OP_skip, 0, 0, 1);
    assert block[1..] == [DW_OP_skip, 0, 0];
    ReadSkip(block, 1);
    DecodeFirst(block, 0, push, 1, [skip]);
    assert [push] + [skip] == [push, skip];
  }

  /** A CFA expression that pushes 0 and jumps to its end means 0, and its list gives nothing. */
  lemma CfaEndBranch(snap: Snapshot, bias: Word)
    ensures var rule := CfaExpression([DW_OP_lit0, DW_OP_skip, 0, 0]);
            && CfaMeaning(rule, snap, bias) == Some(0) && CompileCfa(rule).Some?
            && ValueOf(EvalWith(CompileCfa(rule).value, snap, bias, Failed)) == None
  {
    hide EvalWith, DecodeFrom;
    var block: seq<Byte> := [DW_OP_lit0, DW_OP_skip, 0, 0];
    var push, skip := Op(DW_OP_lit0, 0, 0, 0), Op(DW_OP_skip, 0, 0, 1);
    ReadPushSkip();
    var before, after := Machine(0, [], false), Machine(1, [0], false);
    assert StepOf([push, skip], snap, bias, Failed, before) == Next(after) by { assert [] + [0] == [0]; }
    BlockStep([push, skip], 4, snap, bias, Failed, before, after, STEPS_MAX - 1);
    assert CfaEnding(block, snap, bias) == Jumped(Machine(2, [0], false));
    CfaCompiles(CfaExpression(block), snap, bias);
  }
}
