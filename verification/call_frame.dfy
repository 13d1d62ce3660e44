/** Call-frame programs (section 6.4.2 of DWARF 5) as `init_calc_ctx_by_ins` runs them. */
module CallFrame {
  import opened Words
  import opened Operands
  import opened FrameRules

  // ----- registers and rows -----

  datatype RegId = Rip | Rbp | Rsp

  /** x86-64 columns; every other register is ignored. */
  function TransReg(regno: Word): Option<RegId> {
    match ToInt32(regno)
    case 6 => Some(Rbp)
    case 7 => Some(Rsp)
    case 16 => Some(Rip)
    case _ => None
  }

  datatype Rules = Rules(cfa: CfaRule, rip: RegRule, rbp: RegRule, rsp: RegRule) {
    function Get(r: RegId): RegRule {
      match r
      case Rip => rip
      case Rbp => rbp
      case Rsp => rsp
    }

    function Set(r: Option<RegId>, rule: RegRule): Rules {
      match r
      case None => this
      case Some(Rip) => this.(rip := rule)
      case Some(Rbp) => this.(rbp := rule)
      case Some(Rsp) => this.(rsp := rule)
    }
  }

  /** A remembered state: a heap block, named by its allocation number. */
  datatype Saved = Saved(id: nat, rules: Rules)

  /** The calculation context with the heap blocks it allocated and freed so far. */
  datatype State = State(rules: Rules, saved: seq<Saved>, next: nat, freed: seq<nat>)

  datatype Cie = Cie(codeAlign: Word, dataAlign: Word, fdeEncoding: Byte, signal: bool, initial: Rules)

  // ----- instructions -----

  datatype Insn =
    | Advance(delta: Word)
    | SetLoc(loc: Word)
    | DefCfa(reg: Word, offset: Word)
    | DefCfaRegister(reg: Word)
    | DefCfaOffset(offset: Word)
    | DefCfaExpression(block: seq<Byte>)
    | SetReg(target: Option<RegId>, rule: RegRule)
    | RestoreReg(target: Option<RegId>)
    | Remember
    | Restore
    | Ignored

  /** A block of `len` bytes at `pos`. */
  function Block(code: seq<Byte>, pos: nat, len: Word): Option<(seq<Byte>, nat)>
    requires pos <= |code|
  {
    if pos + len <= |code| then Some((code[pos..pos + len], pos + len)) else None
  }

  function Two(code: seq<Byte>, pos: nat, second: Encoding): (r: Option<((Word, Word), nat)>)
    ensures r.Some? ==> pos < r.value.1 <= |code|
  {
    var (a, mid) :- Read(code, pos, Uleb);
    var (b, next) :- Read(code, mid, second);
    Some(((a, b), next))
  }

  /** Register and scaled offset of the offset and val_offset families. */
  function RegOffset(cie: Cie, code: seq<Byte>, pos: nat, e: Encoding, negate: bool, value: bool): (r: Option<(Insn, nat)>)
    ensures r.Some? ==> pos <= r.value.1 <= |code|
  {
    var ((reg, raw), next) :- Two(code, pos, e);
    var n := Field61(Mul(if negate then Sub(0, raw) else raw, cie.dataAlign));
    Some((SetReg(TransReg(reg), if value then ValOffset(n) else Offset(n)), next))
  }

  /** Register and expression block; the rule keeps the section offset of the block's length. */
  function RegExpression(code: seq<Byte>, pos: nat, value: bool): (r: Option<(Insn, nat)>)
    requires |code| < TWO64
    ensures r.Some? ==> pos <= r.value.1 <= |code|
  {
    var (reg, at) :- Read(code, pos, Uleb);
    var (len, start) :- Read(code, at, Uleb);
    var (_, next) :- Block(code, start, len);
    Some((SetReg(TransReg(reg), if value then ValExpression(Field61(at)) else Expression(Field61(at))), next))
  }

  function AdvanceBy(cie: Cie, code: seq<Byte>, pos: nat, e: Encoding): (r: Option<(Insn, nat)>)
    ensures r.Some? ==> pos <= r.value.1 <= |code|
  {
    var (n, next) :- Read(code, pos, e);
    Some((Advance(Mul(n, cie.codeAlign)), next))
  }

  /** The operands of an opcode without embedded operand, from `pos` on. */
  function DecodeExtended(cie: Cie, code: seq<Byte>, op: Byte, pos: nat): (r: Option<(Insn, nat)>)
    requires pos <= |code| < TWO64
    ensures r.Some? ==> pos <= r.value.1 <= |code|
  {
    match op
    case 0x01 =>
      var (loc, next) :- ReadChecked(code, pos, cie.fdeEncoding);
      Some((SetLoc(loc), next))
    case 0x02 => AdvanceBy(cie, code, pos, U8)
    case 0x03 => AdvanceBy(cie, code, pos, U16)
    case 0x04 => AdvanceBy(cie, code, pos, U32)
    case 0x05 => RegOffset(cie, code, pos, Uleb, false, false)
    case 0x06 =>
      var (reg, next) :- Read(code, pos, Uleb);
      Some((RestoreReg(TransReg(reg)), next))
    case 0x07 =>
      var (reg, next) :- Read(code, pos, Uleb);
      Some((SetReg(TransReg(reg), Undefined), next))
    case 0x08 =>
      var (reg, next) :- Read(code, pos, Uleb);
      Some((SetReg(TransReg(reg), SameValue), next))
    case 0x09 =>
      var ((reg, from), next) :- Two(code, pos, Uleb);
      Some((SetReg(TransReg(reg), Register(Field61(from))), next))
    case 0x0a => Some((Remember, pos))
    case 0x0b => Some((Restore, pos))
    case 0x0c =>
      var ((reg, offset), next) :- Two(code, pos, Uleb);
      Some((DefCfa(reg, offset), next))
    case 0x0d =>
      var (reg, next) :- Read(code, pos, Uleb);
      Some((DefCfaRegister(reg), next))
    case 0x0e =>
      var (offset, next) :- Read(code, pos, Uleb);
      Some((DefCfaOffset(offset), next))
    case 0x0f =>
      var (len, start) :- Read(code, pos, Uleb);
      var (block, next) :- Block(code, start, len);
      Some((DefCfaExpression(block), next))
    case 0x10 => RegExpression(code, pos, false)
    case 0x11 => RegOffset(cie, code, pos, Sleb, false, false)
    case 0x12 =>
      var ((reg, raw), next) :- Two(code, pos, Sleb);
      Some((DefCfa(reg, Mul(raw, cie.dataAlign)), next))
    case 0x13 =>
      var (raw, next) :- Read(code, pos, Sleb);
      Some((DefCfaOffset(Mul(raw, cie.dataAlign)), next))
    case 0x14 => RegOffset(cie, code, pos, Uleb, false, true)
    case 0x15 => RegOffset(cie, code, pos, Sleb, false, true)
    case 0x16 => RegExpression(code, pos, true)
    case 0x1d => AdvanceBy(cie, code, pos, U64)
    case 0x2e =>
      var (_, next) :- Read(code, pos, Uleb);
      Some((Ignored, next))
    case 0x2f => RegOffset(cie, code, pos, Uleb, true, false)
    case _ => Some((Ignored, pos))
  }

  /** One instruction: primary opcodes carry six bits of operand. */
  function DecodeInsn(cie: Cie, code: seq<Byte>, pos: nat): (r: Option<(Insn, nat)>)
    requires pos < |code| < TWO64
    ensures r.Some? ==> pos < r.value.1 <= |code|
  {
    var op := code[pos];
    if 0x40 <= op < 0x80 then Some((Advance(Mul(op - 0x40, cie.codeAlign)), pos + 1))
    else if 0x80 <= op < 0xc0 then
      var (raw, next) :- Read(code, pos + 1, Uleb);
      Some((SetReg(TransReg(op - 0x80), Offset(Field61(Mul(raw, cie.dataAlign)))), next))
    else if 0xc0 <= op then Some((RestoreReg(TransReg(op - 0xc0)), pos + 1))
    else DecodeExtended(cie, code, op, pos + 1)
  }

  predicate MovesLocation(i: Insn) {
    i.Advance? || i.SetLoc?
  }

  function NewLocation(i: Insn, loc: Word): Word
    requires MovesLocation(i)
  {
    if i.Advance? then Add(loc, i.delta) else i.loc
  }

  /** The effect of an instruction on the current row; None when there is nothing to restore. */
  function Exec(i: Insn, cie: Cie, inCie: bool, st: State): Option<State> {
    var r := st.rules;
    match i
    case Advance(_) => Some(st)
    case SetLoc(_) => Some(st)
    case Ignored => Some(st)
    case DefCfa(reg, offset) => Some(st.(rules := r.(cfa := CfaRegister(reg, offset))))
    case DefCfaRegister(reg) =>
      Some(st.(rules := r.(cfa := match r.cfa
                                  case CfaRegister(_, o) => CfaRegister(reg, o)
                                  case CfaExpression(_) => CfaClobbered
                                  case other => other)))
    case DefCfaOffset(offset) =>
      Some(if r.cfa.CfaRegister? then st.(rules := r.(cfa := CfaRegister(r.cfa.reg, offset))) else st)
    case DefCfaExpression(block) => Some(st.(rules := r.(cfa := CfaExpression(block))))
    case SetReg(target, rule) => Some(st.(rules := r.Set(target, rule)))
    case RestoreReg(target) =>
      Some(if inCie || target == None then st
           else st.(rules := r.Set(target, cie.initial.Get(target.value))))
    case Remember => Some(State(r, [Saved(st.next, r)] + st.saved, st.next + 1, st.freed))
    case Restore =>
      if st.saved == [] then None
      else Some(State(st.saved[0].rules, st.saved[1..], st.next, st.freed + [st.saved[0].id]))
  }

  // ----- running up to a PC -----

  function RunTo(cie: Cie, inCie: bool, code: seq<Byte>, pos: nat, loc: Word, st: State, pc: Word): Option<State>
    requires pos <= |code| < TWO64
    decreases |code| - pos
  {
    if pos == |code| then Some(st)
    else
      var (i, next) :- DecodeInsn(cie, code, pos);
      if MovesLocation(i) then
        var loc' := NewLocation(i, loc);
        if pc < loc' then Some(st) else RunTo(cie, inCie, code, next, loc', st, pc)
      else
        var st' :- Exec(i, cie, inCie, st);
        RunTo(cie, inCie, code, next, loc, st', pc)
  }

  class FrameContext {
    var rules: Rules
    var saved: seq<Saved>
    var next: nat
    var freed: seq<nat>

    constructor (st: State)
      ensures Now() == st
    {
      rules, saved, next, freed := st.rules, st.saved, st.next, st.freed;
    }

    function Now(): State
      reads this
    {
      State(rules, saved, next, freed)
    }

    /** `remember_state` copies the context, `restore_state` copies it back and frees the copy. */
    method Apply(i: Insn, cie: Cie, inCie: bool) returns (ok: bool)
      modifies this
      ensures match Exec(i, cie, inCie, old(Now()))
              case Some(st) => ok && Now() == st
              case None => !ok
    {
      match i {
        case DefCfa(reg, offset) => rules := rules.(cfa := CfaRegister(reg, offset));
        case DefCfaRegister(reg) =>
          match rules.cfa {
            case CfaRegister(_, o) => rules := rules.(cfa := CfaRegister(reg, o));
            case CfaExpression(_) => rules := rules.(cfa := CfaClobbered);
            case _ =>
          }
        case DefCfaOffset(offset) =>
          if rules.cfa.CfaRegister? {
            rules := rules.(cfa := CfaRegister(rules.cfa.reg, offset));
          }
        case DefCfaExpression(block) => rules := rules.(cfa := CfaExpression(block));
        case SetReg(target, rule) => rules := rules.Set(target, rule);
        case RestoreReg(target) =>
          if !inCie && target != None {
            rules := rules.Set(target, cie.initial.Get(target.value));
          }
        case Remember =>
          saved := [Saved(next, rules)] + saved;
          next := next + 1;
        case Restore =>
          if saved == [] {
            return false;
          }
          var top := saved[0];
          rules, saved := top.rules, saved[1..];
          freed := freed + [top.id];
        case _ =>
      }
      return true;
    }

    method Interpret(cie: Cie, inCie: bool, code: seq<Byte>, start: nat, from: Word, pc: Word) returns (ret: int)
      requires start <= |code| < TWO64
      modifies this
      ensures match RunTo(cie, inCie, code, start, from, old(Now()), pc)
              case Some(st) => ret == 0 && Now() == st
              case None => ret == -1
    {
      hide DecodeInsn, Exec;
      var ins, loc := start, from;
      ghost var goal := RunTo(cie, inCie, code, start, from, Now(), pc);
      while ins < |code|
        invariant ins <= |code| && goal == RunTo(cie, inCie, code, ins, loc, Now(), pc)
        decreases |code| - ins
      {
        var decoded := DecodeInsn(cie, code, ins);
        if decoded == None {
          return -1;
        }
        var (i, next) := decoded.value;
        ins := next;
        if MovesLocation(i) {
          loc := NewLocation(i, loc);
          if pc < loc {
            break;
          }
        } else {
          var ok := Apply(i, cie, inCie);
          if !ok {
            return -1;
          }
        }
      }
      return 0;
    }

    /** The loop after a successful run that frees every state still remembered. */
    method FreeSaved()
      modifies this
      ensures saved == [] && rules == old(rules) && next == old(next)
      ensures freed == old(freed) + Ids(old(saved))
    {
      while saved != []
        invariant rules == old(rules) && next == old(next)
        invariant freed + Ids(saved) == old(freed) + Ids(old(saved))
        decreases |saved|
      {
        assert freed + Ids(saved) == freed + [saved[0].id] + Ids(saved[1..]);
        freed := freed + [saved[0].id];
        saved := saved[1..];
      }
    }
  }

  function Ids(saved: seq<Saved>): seq<nat> {
    if saved == [] then [] else [saved[0].id] + Ids(saved[1..])
  }
}
