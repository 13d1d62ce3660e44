/** From a PC to a caller's register: interpreter, cache, compiler and evaluator together. */
module RowRecovery {
  import opened Words
  import opened Leb128
  import opened Operands
  import opened FrameRules
  import opened ExprBlock
  import opened CallFrame
  import opened FrameTable
  import F = FrameInsns
  import I = IntervalIndex
  import opened Evaluator
  import opened EvalMachine
  import opened GenReg
  import opened RuleMeaning
  import opened CfiParser

  // ----- rows hold 32-bit register numbers -----

  predicate DecodedCfa(rule: CfaRule) {
    && (rule.CfaRegister? ==> IsInt32(rule.reg))
    && (rule.CfaExpression? ==> |rule.block| < TWO64)
  }

  predicate DecodedRules(r: Rules) {
    DecodedCfa(r.cfa) && Decoded(r.rip) && Decoded(r.rbp) && Decoded(r.rsp)
  }

  ghost predicate DecodedState(st: State) {
    DecodedRules(st.rules) && forall s :: s in st.saved ==> DecodedRules(s.rules)
  }

  predicate DecodedInsn(i: Insn) {
    match i
    case DefCfa(reg, _) => IsInt32(reg)
    case DefCfaRegister(reg) => IsInt32(reg)
    case DefCfaExpression(block) => |block| < TWO64
    case SetReg(_, rule) => Decoded(rule)
    case _ => true
  }

  lemma ReadInt32(buf: seq<Byte>, pos: nat)
    ensures Read(buf, pos, Uleb).Some? ==>
              var v := Read(buf, pos, Uleb).value.0; IsInt32(v) && Field61(v) == v
  {
    hide UlebValue;
    if Length(buf, pos, ULEB_MAX) > 0 {
      UlebInt32(buf, pos, 0, 0);
      Field61Exact(UlebValue(buf, pos, 0, 0));
    }
  }

  lemma FamilyDecoded(cie: Cie, code: seq<Byte>, pos: nat, e: Encoding, negate: bool, value: bool)
    requires |code| < TWO64
    ensures RegOffset(cie, code, pos, e, negate, value).Some? ==>
              DecodedInsn(RegOffset(cie, code, pos, e, negate, value).value.0)
    ensures RegExpression(code, pos, value).Some? ==> DecodedInsn(RegExpression(code, pos, value).value.0)
    ensures AdvanceBy(cie, code, pos, e).Some? ==> DecodedInsn(AdvanceBy(cie, code, pos, e).value.0)
  {
    hide Read, Field61, Mul;
  }

  lemma ExtendedDecoded(cie: Cie, code: seq<Byte>, op: Byte, pos: nat)
    requires pos <= |code| < TWO64
    ensures DecodeExtended(cie, code, op, pos).Some? ==> DecodedInsn(DecodeExtended(cie, code, op, pos).value.0)
  {
    hide Read, ReadChecked, Field61, Mul, RegOffset, RegExpression, AdvanceBy, IsInt32;
    ReadInt32(code, pos);
    if Read(code, pos, Uleb).Some? {
      ReadInt32(code, Read(code, pos, Uleb).value.1);
    }
    match op {
      case 0x02 => FamilyDecoded(cie, code, pos, U8, false, false);
      case 0x03 => FamilyDecoded(cie, code, pos, U16, false, false);
      case 0x04 => FamilyDecoded(cie, code, pos, U32, false, false);
      case 0x05 => FamilyDecoded(cie, code, pos, Uleb, false, false);
      case 0x10 => FamilyDecoded(cie, code, pos, Uleb, false, false);
      case 0x11 => FamilyDecoded(cie, code, pos, Sleb, false, false);
      case 0x14 => FamilyDecoded(cie, code, pos, Uleb, false, true);
      case 0x15 => FamilyDecoded(cie, code, pos, Sleb, false, true);
      case 0x16 => FamilyDecoded(cie, code, pos, Uleb, false, true);
      case 0x1d => FamilyDecoded(cie, code, pos, U64, false, false);
      case 0x2f => FamilyDecoded(cie, code, pos, Uleb, true, false);
      case _ =>
    }
  }

  lemma InsnDecoded(cie: Cie, code: seq<Byte>, pos: nat)
    requires pos < |code| < TWO64
    ensures DecodeInsn(cie, code, pos).Some? ==> DecodedInsn(DecodeInsn(cie, code, pos).value.0)
  {
    hide Read, Field61, Mul, DecodeExtended;
    ExtendedDecoded(cie, code, code[pos], pos + 1);
  }

  lemma ExecDecoded(i: Insn, cie: Cie, inCie: bool, st: State)
    requires DecodedInsn(i) && DecodedState(st) && DecodedRules(cie.initial) && Exec(i, cie, inCie, st).Some?
    ensures DecodedState(Exec(i, cie, inCie, st).value)
  {
  }

  /** Every row the interpreter stops at holds numbers as the decoder delivers them. */
  lemma {:induction false} RunDecoded(cie: Cie, inCie: bool, code: seq<Byte>, pos: nat, loc: Word, st: State, pc: Word)
    requires pos <= |code| < TWO64 && DecodedState(st) && DecodedRules(cie.initial)
    ensures RunTo(cie, inCie, code, pos, loc, st, pc).Some? ==>
              DecodedState(RunTo(cie, inCie, code, pos, loc, st, pc).value)
    decreases |code| - pos
  {
    hide DecodeInsn, Exec, DecodedState, DecodedInsn;
    if pos < |code| && DecodeInsn(cie, code, pos).Some? {
      var (i, next) := DecodeInsn(cie, code, pos).value;
      InsnDecoded(cie, code, pos);
      if MovesLocation(i) {
        RunDecoded(cie, inCie, code, next, NewLocation(i, loc), st, pc);
      } else if Exec(i, cie, inCie, st).Some? {
        ExecDecoded(i, cie, inCie, st);
        RunDecoded(cie, inCie, code, next, loc, Exec(i, cie, inCie, st).value, pc);
      }
    }
  }

  // ----- the row a parse compiles -----

  /** A complete program with non-decreasing locations for the FDE that covers `pc`, and its table. */
  ghost predicate Tabled(c: Cfi, pc: Word, f: Fde, rows: seq<Row>)
    requires ValidCfi(c)
  {
    && FindFde(c, pc) == Some(f) && f.start <= pc && DecodedRules(f.cie.initial)
    && Rows(f.cie, false, c.section[..f.end], f.begin, f.start, Start(f)) == Some(rows) && NonDecreasing(rows)
  }

  /** A parse, cached or not, compiles the last row of the table at or below the PC. */
  lemma ParsesLastRow(c: Cfi, cache: seq<Entry>, pc: Word, f: Fde, rows: seq<Row>) returns (k: nat)
    requires ValidCfi(c) && |cache| == CACHE_SIZE && Coherent(c, cache) && Tabled(c, pc, f, rows)
    ensures LastUpTo(rows, pc, k) && DecodedRules(rows[k].st.rules)
    ensures CachedParse(c, cache, pc).0 == Uncached(c, pc) == Compile(c, f.cie.signal, rows[k].st.rules)
  {
    hide Rows, RunTo, Compile, CachedParse, Coherent, LastUpTo, NonDecreasing, FindFde;
    ParseCoherent(c, cache, pc);
    var code := c.section[..f.end];
    k := InterpreterIsTable(f.cie, false, code, f.begin, f.start, Start(f), pc, rows);
    RunDecoded(f.cie, false, code, f.begin, f.start, Start(f), pc);
  }

  /** The list chosen for a register: its own, the CFA list for a stack pointer without one, or none. */
  lemma ChosenList(c: Cfi, signal: bool, rules: Rules, r: RegId)
    requires |c.section| < TWO64 && Compile(c, signal, rules).Some?
    ensures var p, own := Compile(c, signal, rules).value, CompileReg(rules.Get(r), c.section);
            && CompileCfa(rules.cfa) == Some(p.cfa)
            && GetOps(p, Some(r)) == if own.Some? then own else if r == Rsp then Some(p.cfa) else Some([])
  {
    hide CompileCfa, CompileReg;
    if r == Rsp && CompileReg(rules.rsp, c.section).Some? {
      CompiledSome(rules.rsp, c.section);
    }
  }

  lemma CompiledSome(rule: RegRule, section: seq<Byte>)
    requires |section| < TWO64 && CompileReg(rule, section).Some?
    ensures CompileReg(rule, section).value != []
  {
    hide BlockAt;
    if !rule.Register? {
      CompiledStart(rule, section);
    }
  }

  /** What a row without a rule for `r` says: the caller's stack pointer is the CFA, others have no value. */
  function DefaultMeaning(cfa: CfaRule, r: RegId, snap: Snapshot, bias: Word): Option<Word>
    requires DecodedCfa(cfa)
  {
    if r == Rsp then CfaMeaning(cfa, snap, bias) else None
  }

  /** What a row says of a register of the caller. */
  function RowMeaning(rules: Rules, r: RegId, section: seq<Byte>, snap: Snapshot, bias: Word): Option<Word>
    requires |section| < TWO64 && DecodedCfa(rules.cfa)
  {
    if Says(rules.Get(r)) then CallerMeaning(rules.Get(r), rules.cfa, section, snap, bias)
    else DefaultMeaning(rules.cfa, r, snap, bias)
  }

  /**
   When the lists of a row give what the row says.  A rule that says something but has no list is taken for
   none at all, which is right when the row would say the same without it.
   */
  predicate RowRight(rules: Rules, r: RegId, section: seq<Byte>, snap: Snapshot, bias: Word)
    requires |section| < TWO64 && DecodedCfa(rules.cfa)
  {
    if Listed(rules.Get(r), section) then RowAgrees(rules.Get(r), rules.cfa, section, snap, bias)
    else if r == Rsp && !CfaAgrees(rules.cfa, snap, bias) then RowMeaning(rules, r, section, snap, bias) == None
    else Says(rules.Get(r)) ==>
           RowMeaning(rules, r, section, snap, bias) == DefaultMeaning(rules.cfa, r, snap, bias)
  }

  /** A block that is not there or does not decode gives an expression no value. */
  lemma NoBlockNoMeaning(rules: Rules, r: RegId, section: seq<Byte>, snap: Snapshot, bias: Word)
    requires |section| < TWO64 && DecodedCfa(rules.cfa)
    requires rules.Get(r).Expression? || rules.Get(r).ValExpression?
    requires var block := BlockAt(section, rules.Get(r).at); block.Some? ==> DecodeFrom(block.value, 0).None?
    ensures RowMeaning(rules, r, section, snap, bias) == None
  {
    hide BlockAt, DecodeFrom, CfaMeaning;
  }

  /** A compiled row's lists give what the row says of any register exactly when they are right. */
  lemma RowGives(c: Cfi, signal: bool, rules: Rules, r: RegId, snap: Snapshot, bias: Word)
    requires |c.section| < TWO64 && DecodedRules(rules)
    requires Compile(c, signal, rules).Some? && NoCfaCall(Compile(c, signal, rules).value.cfa)
    ensures var p := Compile(c, signal, rules).value;
            ValueOf(Eval(GetOps(p, Some(r)).value, p.cfa, snap, bias)) == RowMeaning(rules, r, c.section, snap, bias)
            <==> RowRight(rules, r, c.section, snap, bias)
  {
    hide Compile, CompileCfa, CompileReg, EvalWith, CallerMeaning, RowAgrees, NoCfaCall, GetOps, CfaMeaning, CfaAgrees,
         Listed;
    ChosenList(c, signal, rules, r);
    ListExact(rules.Get(r), c.section);
    var cfa := Compile(c, signal, rules).value.cfa;
    if Listed(rules.Get(r), c.section) {
      ListedSays(rules.Get(r), c.section);
      RowCompiles(rules.Get(r), rules.cfa, c.section, snap, bias);
    } else if r == Rsp {
      CfaSelf(cfa, snap, bias);
      CfaCompiles(rules.cfa, snap, bias);
      AgreesOnNone(rules.cfa, snap, bias);
    } else {
      NoList(snap, bias, EvalWith(cfa, snap, bias, Failed));
    }
  }

  lemma ListedSays(rule: RegRule, section: seq<Byte>)
    requires |section| < TWO64 && Listed(rule, section)
    ensures Says(rule)
  {
  }

  lemma NoList(snap: Snapshot, bias: Word, cfa: Outcome)
    ensures EvalWith([], snap, bias, cfa) == Failed
  {
  }

  /** `gu_cfi_parse_cfi_ex` and then `gen_reg`: the caller's register, if any. */
  method RecoverAt(parser: Parser, u: Unwinder, pc: Word, r: RegId, snap: Snapshot, bias: Word)
    returns (ret: int, val: Option<Word>)
    requires parser.Valid() && Coherent(parser.cfi, parser.cache[..])
    requires Uncached(parser.cfi, pc).Some? ==> NoCfaCall(Uncached(parser.cfi, pc).value.cfa)
    modifies parser, parser.staticOps, parser.cache, u
    ensures parser.Valid() && Coherent(parser.cfi, parser.cache[..])
    ensures ret == 0 <==> Uncached(parser.cfi, pc).Some?
    ensures ret == 0 ==>
              var p := Uncached(parser.cfi, pc).value;
              val == ValueOf(Eval(GetOps(p, Some(r)).value, p.cfa, snap, bias))
  {
    hide Uncached, CachedParse, Coherent, Eval, NoCfaCall;
    ParseCoherent(parser.cfi, parser.cache[..], pc);
    var signal;
    ret, signal := parser.Parse(pc);
    val := None;
    if ret != 0 {
      return;
    }
    var p := Parsed(signal, parser.cfa, parser.rip, parser.rbp, parser.rsp);
    var reason, v := RecoverReg(u, GetOps(p, Some(r)), p.cfa, snap, bias);
    if reason == Ok {
      val := Some(v);
    }
  }

  /**
   The whole way: for a complete program with non-decreasing locations, what a parse and an evaluation
   recover of any register is what the last table row at or below the PC says, exactly when its lists are right.
   */
  lemma RecoversLastRow(c: Cfi, cache: seq<Entry>, pc: Word, f: Fde, rows: seq<Row>, r: RegId,
                        snap: Snapshot, bias: Word) returns (k: nat)
    requires ValidCfi(c) && |cache| == CACHE_SIZE && Coherent(c, cache) && Tabled(c, pc, f, rows)
    requires CachedParse(c, cache, pc).0.Some? && NoCfaCall(CachedParse(c, cache, pc).0.value.cfa)
    ensures LastUpTo(rows, pc, k)
    ensures var rules, p := rows[k].st.rules, CachedParse(c, cache, pc).0.value;
            && DecodedRules(rules)
            && (ValueOf(Eval(GetOps(p, Some(r)).value, p.cfa, snap, bias)) == RowMeaning(rules, r, c.section, snap, bias)
                <==> RowRight(rules, r, c.section, snap, bias))
  {
    hide CachedParse, Uncached, Compile, Eval, RowMeaning, RowRight, NoCfaCall, GetOps, Tabled, Coherent;
    k := ParsesLastRow(c, cache, pc, f, rows);
    RowGives(c, f.cie.signal, rows[k].st.rules, r, snap, bias);
  }

  // ----- from the bytes of a section -----

  /** The search table of a CFI section was built from `s`. */
  ghost predicate Indexes(c: Cfi, s: seq<I.Item>) {
    && s != [] && I.Sorted(s) && I.WellFormed(multiset(s)) && I.Disjoint(multiset(s))
    && c.table == I.Stored(I.Filled(s))
  }

  /** The FDE for a PC is the payload of the one entry that contains it. */
  lemma FdeFound(c: Cfi, s: seq<I.Item>, pc: Word, k: nat)
    requires Indexes(c, s) && k < |s| && I.Contains(I.Filled(s)[k], pc)
    ensures FindFde(c, pc) == var n := I.Untag(s[k].priv); if n < |c.fdes| then Some(c.fdes[n]) else None
  {
    hide I.Sorted, I.WellFormed, I.Disjoint, I.Stored, I.Lookup;
    I.SearchIsScan(s, pc, k);
    I.StoredIsFilled(s);
  }

  /** There is none for a PC that no entry contains. */
  lemma NoFdeFound(c: Cfi, s: seq<I.Item>, pc: Word)
    requires Indexes(c, s) && forall k :: 0 <= k < |s| ==> !I.Contains(I.Filled(s)[k], pc)
    ensures FindFde(c, pc) == None
  {
    hide I.Sorted, I.WellFormed, I.Disjoint, I.Stored;
    I.StoredIsFilled(s);
  }

  /** Section, index entry and instructions of the FDE for a PC. */
  ghost predicate Programmed(c: Cfi, s: seq<I.Item>, pc: Word, k: nat, f: Fde, ds: seq<F.Directive>) {
    && ValidCfi(c) && Indexes(c, s) && k < |s| && I.Contains(I.Filled(s)[k], pc)
    && I.Untag(s[k].priv) < |c.fdes| && f == c.fdes[I.Untag(s[k].priv)] && DecodedRules(f.cie.initial)
    && F.AllWritable(f.cie, ds) && f.begin <= f.end <= |c.section|
    && c.section[f.begin..f.end] == F.PrintAll(f.cie, ds)
  }

  /** A parse compiles what the instructions of the FDE say of the PC, from the rules of its CIE on. */
  lemma ParsesProgram(c: Cfi, s: seq<I.Item>, pc: Word, k: nat, f: Fde, ds: seq<F.Directive>)
    requires Programmed(c, s, pc, k, f, ds)
    ensures var said := F.Said(ds, f.cie, false, f.begin, f.start, State(f.cie.initial, [], 0, []), pc);
            && (said.None? ==> Uncached(c, pc) == None)
            && (said.Some? ==> && DecodedRules(said.value.rules)
                               && Uncached(c, pc) == Compile(c, f.cie.signal, said.value.rules))
  {
    hide FindFde, RunTo, Compile, I.Filled, I.Untag, DecodedRules, F.AllWritable, F.Said, Indexes;
    FdeFound(c, s, pc, k);
    var code, before := c.section[..f.end], c.section[..f.begin];
    assert code == before + c.section[f.begin..f.end];
    F.ProgramRuns(f.cie, false, code, before, ds, f.start, Start(f), pc);
    RunDecoded(f.cie, false, code, f.begin, f.start, Start(f), pc);
  }

  /** The instructions of the FDE for `pc` say `st` of it. */
  ghost predicate Describes(c: Cfi, s: seq<I.Item>, pc: Word, k: nat, f: Fde, ds: seq<F.Directive>, st: State) {
    && Programmed(c, s, pc, k, f, ds)
    && F.Said(ds, f.cie, false, f.begin, f.start, State(f.cie.initial, [], 0, []), pc) == Some(st)
  }

  /** From the bytes of a section to a register of the caller. */
  lemma RecoversProgram(c: Cfi, s: seq<I.Item>, pc: Word, k: nat, f: Fde, ds: seq<F.Directive>, st: State,
                        r: RegId, snap: Snapshot, bias: Word)
    requires ValidCfi(c) && Describes(c, s, pc, k, f, ds, st) && DecodedCfa(st.rules.cfa) && CfaListed(st.rules.cfa)
    requires CompileCfa(st.rules.cfa).Some? ==> NoCfaCall(CompileCfa(st.rules.cfa).value)
    ensures Uncached(c, pc).Some?
    ensures var p := Uncached(c, pc).value;
            && p.signal == f.cie.signal
            && (ValueOf(Eval(GetOps(p, Some(r)).value, p.cfa, snap, bias))
                == RowMeaning(st.rules, r, c.section, snap, bias)
                <==> RowRight(st.rules, r, c.section, snap, bias))
  {
    hide Programmed, Uncached, Eval, RowMeaning, RowRight, NoCfaCall, GetOps, CompileCfa, CompileReg, CfaListed,
         DecodedRules, F.Said;
    ParsesProgram(c, s, pc, k, f, ds);
    CfaListExact(st.rules.cfa);
    RowGives(c, f.cie.signal, st.rules, r, snap, bias);
  }
}
