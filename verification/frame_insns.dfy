/**
 Call-frame instructions as an assembler writes them (section 6.4.2 of DWARF 5, opcodes of its section
 7.24), and what each of them says of a row.
 */
module FrameInsns {
  import opened Words
  import opened Leb128
  import opened Operands
  import opened ExprBlock
  import opened FrameRules
  import opened CallFrame
  import opened FrameTable

  /** Operands are unscaled; the alignment factors of the CIE apply when an instruction is understood. */
  datatype Directive =
    | DW_CFA_advance_loc(delta: nat)
    | DW_CFA_advance_loc1(delta: nat)
    | DW_CFA_advance_loc2(delta: nat)
    | DW_CFA_advance_loc4(delta: nat)
    | DW_CFA_MIPS_advance_loc8(delta: nat)
    | DW_CFA_set_loc(loc: Word)
    | DW_CFA_def_cfa(reg: nat, offset: nat)
    | DW_CFA_def_cfa_sf(reg: nat, factored: int)
    | DW_CFA_def_cfa_register(reg: nat)
    | DW_CFA_def_cfa_offset(offset: nat)
    | DW_CFA_def_cfa_offset_sf(factored: int)
    | DW_CFA_def_cfa_expression(block: seq<Byte>)
    | DW_CFA_undefined(reg: nat)
    | DW_CFA_same_value(reg: nat)
    | DW_CFA_offset(reg: nat, factored: int)
    | DW_CFA_offset_extended(reg: nat, factored: int)
    | DW_CFA_offset_extended_sf(reg: nat, factored: int)
    | DW_CFA_GNU_negative_offset_extended(reg: nat, factored: int)
    | DW_CFA_val_offset(reg: nat, factored: int)
    | DW_CFA_val_offset_sf(reg: nat, factored: int)
    | DW_CFA_register(reg: nat, source: nat)
    | DW_CFA_expression(reg: nat, block: seq<Byte>)
    | DW_CFA_val_expression(reg: nat, block: seq<Byte>)
    | DW_CFA_restore(reg: nat)
    | DW_CFA_restore_extended(reg: nat)
    | DW_CFA_remember_state
    | DW_CFA_restore_state
    | DW_CFA_GNU_args_size(size: nat)
    | DW_CFA_nop
    | Unknown(op: Byte)

  // ----- printing -----

  /** Unsigned LEB128 operands that survive the decoder's 32-bit shifts. */
  predicate Small(n: int) {
    0 <= n < 0x8000_0000
  }

  predicate Middling(n: int) {
    -0x4000_0000_0000_0000 <= n < TWO63
  }

  predicate Unassigned(op: Byte) {
    0x17 <= op < 0x1d || 0x1e <= op < 0x2e || 0x30 <= op < 0x40
  }

  /** Operands that fit their places. */
  predicate Writable(cie: Cie, d: Directive) {
    match d
    case DW_CFA_advance_loc(n) => n < 0x40
    case DW_CFA_advance_loc1(n) => n < 0x100
    case DW_CFA_advance_loc2(n) => n < 0x1_0000
    case DW_CFA_advance_loc4(n) => n < TWO32
    case DW_CFA_MIPS_advance_loc8(n) => n < TWO64
    case DW_CFA_set_loc(loc) => PointerFits(cie.fdeEncoding, loc)
    case DW_CFA_def_cfa(reg, n) => Small(reg) && Small(n)
    case DW_CFA_def_cfa_sf(reg, n) => Small(reg) && Middling(n)
    case DW_CFA_def_cfa_register(reg) => Small(reg)
    case DW_CFA_def_cfa_offset(n) => Small(n)
    case DW_CFA_def_cfa_offset_sf(n) => Middling(n)
    case DW_CFA_def_cfa_expression(block) => Small(|block|)
    case DW_CFA_undefined(reg) => Small(reg)
    case DW_CFA_same_value(reg) => Small(reg)
    case DW_CFA_offset(reg, n) => reg < 0x40 && Small(n)
    case DW_CFA_offset_extended(reg, n) => Small(reg) && Small(n)
    case DW_CFA_offset_extended_sf(reg, n) => Small(reg) && Middling(n)
    case DW_CFA_GNU_negative_offset_extended(reg, n) => Small(reg) && Small(n)
    case DW_CFA_val_offset(reg, n) => Small(reg) && Small(n)
    case DW_CFA_val_offset_sf(reg, n) => Small(reg) && Middling(n)
    case DW_CFA_register(reg, source) => Small(reg) && Small(source)
    case DW_CFA_expression(reg, block) => Small(reg) && Small(|block|)
    case DW_CFA_val_expression(reg, block) => Small(reg) && Small(|block|)
    case DW_CFA_restore(reg) => reg < 0x40
    case DW_CFA_restore_extended(reg) => Small(reg)
    case DW_CFA_GNU_args_size(n) => Small(n)
    case Unknown(op) => Unassigned(op)
    case _ => true
  }

  /** Addresses in the pointer encodings of the Linux Standard Base, section 10.5.1. */
  predicate PointerFits(t: Byte, v: Word) {
    match t % 16
    case 0x0 => true
    case 0x1 => Small(v)
    case 0x2 => v < 0x1_0000
    case 0x3 => v < TWO32
    case 0x4 => true
    case 0x9 => Middling(Signed(v))
    case 0xa => -0x8000 <= Signed(v) < 0x8000
    case 0xb => -0x8000_0000 <= Signed(v) < 0x8000_0000
    case 0xc => true
    case _ => false
  }

  /** Other encodings are not read at all. */
  lemma UnknownPointers(code: seq<Byte>, pos: nat, t: Byte)
    requires t % 16 in {0x5, 0x6, 0x7, 0x8, 0xd, 0xe, 0xf}
    ensures ReadChecked(code, pos, t) == None
  {
    hide Read;
    assert FromPointerEncoding(t) == None;
  }

  function PointerBytes(t: Byte, v: Word): (s: seq<Byte>) {
    match t % 16
    case 0x1 => UlebBytes(v)
    case 0x2 => Bytes16(v)
    case 0x3 => Bytes32(v)
    case 0x9 => SlebBytes(Signed(v))
    case 0xa => Bytes16(v)
    case 0xb => Bytes32(v)
    case _ => Bytes64(v)
  }

  function Print(cie: Cie, d: Directive): (s: seq<Byte>)
    requires Writable(cie, d)
    ensures s != []
  {
    match d
    case DW_CFA_advance_loc(n) => [0x40 + n]
    case DW_CFA_advance_loc1(n) => [0x02, n]
    case DW_CFA_advance_loc2(n) => [0x03] + Bytes16(n)
    case DW_CFA_advance_loc4(n) => [0x04] + Bytes32(n)
    case DW_CFA_MIPS_advance_loc8(n) => [0x1d] + Bytes64(n)
    case DW_CFA_set_loc(loc) => [0x01] + PointerBytes(cie.fdeEncoding, loc)
    case DW_CFA_def_cfa(reg, n) => [0x0c] + UlebBytes(reg) + UlebBytes(n)
    case DW_CFA_def_cfa_sf(reg, n) => [0x12] + UlebBytes(reg) + SlebBytes(n)
    case DW_CFA_def_cfa_register(reg) => [0x0d] + UlebBytes(reg)
    case DW_CFA_def_cfa_offset(n) => [0x0e] + UlebBytes(n)
    case DW_CFA_def_cfa_offset_sf(n) => [0x13] + SlebBytes(n)
    case DW_CFA_def_cfa_expression(block) => [0x0f] + UlebBytes(|block|) + block
    case DW_CFA_undefined(reg) => [0x07] + UlebBytes(reg)
    case DW_CFA_same_value(reg) => [0x08] + UlebBytes(reg)
    case DW_CFA_offset(reg, n) => [0x80 + reg] + UlebBytes(n)
    case DW_CFA_offset_extended(reg, n) => [0x05] + UlebBytes(reg) + UlebBytes(n)
    case DW_CFA_offset_extended_sf(reg, n) => [0x11] + UlebBytes(reg) + SlebBytes(n)
    case DW_CFA_GNU_negative_offset_extended(reg, n) => [0x2f] + UlebBytes(reg) + UlebBytes(n)
    case DW_CFA_val_offset(reg, n) => [0x14] + UlebBytes(reg) + UlebBytes(n)
    case DW_CFA_val_offset_sf(reg, n) => [0x15] + UlebBytes(reg) + SlebBytes(n)
    case DW_CFA_register(reg, source) => [0x09] + UlebBytes(reg) + UlebBytes(source)
    case DW_CFA_expression(reg, block) => [0x10] + UlebBytes(reg) + UlebBytes(|block|) + block
    case DW_CFA_val_expression(reg, block) => [0x16] + UlebBytes(reg) + UlebBytes(|block|) + block
    case DW_CFA_restore(reg) => [0xc0 + reg]
    case DW_CFA_restore_extended(reg) => [0x06] + UlebBytes(reg)
    case DW_CFA_remember_state => [0x0a]
    case DW_CFA_restore_state => [0x0b]
    case DW_CFA_GNU_args_size(n) => [0x2e] + UlebBytes(n)
    case DW_CFA_nop => [0x00]
    case Unknown(op) => [op]
  }

  // ----- meaning -----

  /** A number as the 61-bit field of a rule holds it; numbers of at most 60 bits and a sign keep their value. */
  function Held(i: int): Word {
    Unsigned((i + TWO61 / 2) % TWO61 - TWO61 / 2)
  }

  lemma HeldExact(i: int)
    ensures Signed(Held(i)) == i <==> -TWO61 <= 2 * i < TWO61
  {}

  /** The row with another rule for one register; just three registers have columns. */
  function Column(r: Rules, reg: nat, rule: RegRule): Rules {
    Rules(r.cfa, if reg == 16 then rule else r.rip, if reg == 6 then rule else r.rbp, if reg == 7 then rule else r.rsp)
  }

  /** The rule of one register of the CIE again. */
  function Restored(r: Rules, initial: Rules, reg: nat): Rules {
    Rules(r.cfa, if reg == 16 then initial.rip else r.rip, if reg == 6 then initial.rbp else r.rbp,
          if reg == 7 then initial.rsp else r.rsp)
  }

  /** A CFA of register and offset with another register, or with another offset. */
  function CfaWith(cfa: CfaRule, reg: Option<nat>, offset: Option<int>): CfaRule
    requires reg.Some? ==> Small(reg.value)
  {
    match cfa
    case CfaRegister(r, o) =>
      CfaRegister(if reg.Some? then reg.value else r, if offset.Some? then Unsigned(offset.value) else o)
    case CfaExpression(_) => if reg.Some? then CfaClobbered else cfa
    case _ => cfa
  }

  /** The row after an instruction whose first byte sits at `at` of the section. */
  function RowAfter(d: Directive, cie: Cie, inCie: bool, at: nat, r: Rules): Rules
    requires Writable(cie, d)
  {
    var scale := Signed(cie.dataAlign);
    match d
    case DW_CFA_def_cfa(reg, n) => r.(cfa := CfaRegister(reg, n))
    case DW_CFA_def_cfa_sf(reg, n) => r.(cfa := CfaRegister(reg, Unsigned(n * scale)))
    case DW_CFA_def_cfa_register(reg) => r.(cfa := CfaWith(r.cfa, Some(reg), None))
    case DW_CFA_def_cfa_offset(n) => r.(cfa := CfaWith(r.cfa, None, Some(n)))
    case DW_CFA_def_cfa_offset_sf(n) => r.(cfa := CfaWith(r.cfa, None, Some(n * scale)))
    case DW_CFA_def_cfa_expression(block) => r.(cfa := CfaExpression(block))
    case DW_CFA_undefined(reg) => Column(r, reg, Undefined)
    case DW_CFA_same_value(reg) => Column(r, reg, SameValue)
    case DW_CFA_offset(reg, n) => Column(r, reg, Offset(Held(n * scale)))
    case DW_CFA_offset_extended(reg, n) => Column(r, reg, Offset(Held(n * scale)))
    case DW_CFA_offset_extended_sf(reg, n) => Column(r, reg, Offset(Held(n * scale)))
    case DW_CFA_GNU_negative_offset_extended(reg, n) => Column(r, reg, Offset(Held(-n * scale)))
    case DW_CFA_val_offset(reg, n) => Column(r, reg, ValOffset(Held(n * scale)))
    case DW_CFA_val_offset_sf(reg, n) => Column(r, reg, ValOffset(Held(n * scale)))
    case DW_CFA_register(reg, source) => Column(r, reg, Register(source))
    case DW_CFA_expression(reg, _) => Column(r, reg, Expression(Held(at + 1 + |UlebBytes(reg)|)))
    case DW_CFA_val_expression(reg, _) => Column(r, reg, ValExpression(Held(at + 1 + |UlebBytes(reg)|)))
    case DW_CFA_restore(reg) => if inCie then r else Restored(r, cie.initial, reg)
    case DW_CFA_restore_extended(reg) => if inCie then r else Restored(r, cie.initial, reg)
    case _ => r
  }

  /** The row and the remembered rows after an instruction; None when there is no row to restore. */
  function StateAfter(d: Directive, cie: Cie, inCie: bool, at: nat, st: State): Option<State>
    requires Writable(cie, d)
  {
    match d
    case DW_CFA_remember_state => Some(State(st.rules, [Saved(st.next, st.rules)] + st.saved, st.next + 1, st.freed))
    case DW_CFA_restore_state =>
      if st.saved == [] then None
      else Some(State(st.saved[0].rules, st.saved[1..], st.next, st.freed + [st.saved[0].id]))
    case _ => Some(st.(rules := RowAfter(d, cie, inCie, at, st.rules)))
  }

  /** The new location of an instruction that starts a row. */
  function LocationOf(d: Directive, cie: Cie, loc: Word): Option<Word> {
    match d
    case DW_CFA_advance_loc(n) => Some(Unsigned(loc + n * cie.codeAlign))
    case DW_CFA_advance_loc1(n) => Some(Unsigned(loc + n * cie.codeAlign))
    case DW_CFA_advance_loc2(n) => Some(Unsigned(loc + n * cie.codeAlign))
    case DW_CFA_advance_loc4(n) => Some(Unsigned(loc + n * cie.codeAlign))
    case DW_CFA_MIPS_advance_loc8(n) => Some(Unsigned(loc + n * cie.codeAlign))
    case DW_CFA_set_loc(l) => Some(l)
    case _ => None
  }

  // ----- operands in place -----

  lemma OperandAt(code: seq<Byte>, before: seq<Byte>, op: Byte, e: Encoding, v: Word, after: seq<Byte>)
    requires code == before + ([op] + Encode(e, v)) + after && Encodable(e, v)
    ensures code[|before|] == op && Read(code, |before| + 1, e) == Some((v, |before| + 1 + |Encode(e, v)|))
  {
    hide Read, Encode, Encodable;
    assert code == (before + [op]) + Encode(e, v) + after;
    ReadBack(code, before + [op], e, v, after);
  }

  lemma OperandsAt(code: seq<Byte>, before: seq<Byte>, op: Byte, e1: Encoding, v1: Word, e2: Encoding, v2: Word,
                   after: seq<Byte>)
    requires code == before + ([op] + Encode(e1, v1) + Encode(e2, v2)) + after && Encodable(e1, v1) && Encodable(e2, v2)
    ensures var mid := |before| + 1 + |Encode(e1, v1)|;
            && code[|before|] == op && Read(code, |before| + 1, e1) == Some((v1, mid))
            && Read(code, mid, e2) == Some((v2, mid + |Encode(e2, v2)|))
  {
    hide Read, Encode, Encodable;
    var first, second := Encode(e1, v1), Encode(e2, v2);
    assert code == before + ([op] + first) + (second + after);
    OperandAt(code, before, op, e1, v1, second + after);
    assert code == (before + [op] + first) + second + after;
    ReadBack(code, before + [op] + first, e2, v2, after);
  }

  /** Unsigned and signed operands as the words a read delivers. */
  lemma SignedOperand(n: int)
    requires -TWO63 <= n < TWO63
    ensures Signed(Unsigned(n)) == n
  {}

  // ----- scaling -----

  lemma {:induction false} AddMultiple(a: int, k: int)
    ensures Unsigned(a + k * TWO64) == Unsigned(a)
  {
    DivModUnique(a + k * TWO64, TWO64, a / TWO64 + k, a % TWO64);
  }

  /** Multiplying words is multiplying the numbers they stand for. */
  lemma Scaled(n: int, w: Word)
    ensures Mul(Unsigned(n), w) == Unsigned(n * Signed(w))
  {
    var q, u := n / TWO64, n % TWO64;
    assert n == u + q * TWO64;
    var e := if w < TWO63 then 0 else 1;
    assert Signed(w) == w - e * TWO64;
    calc {
      n * Signed(w);
    ==
      n * w - n * (e * TWO64);
    == { assert n * w == u * w + q * TWO64 * w; }
      u * w + q * TWO64 * w - n * (e * TWO64);
    == { assert q * TWO64 * w == (q * w) * TWO64; assert n * (e * TWO64) == (n * e) * TWO64; }
      u * w + (q * w) * TWO64 - (n * e) * TWO64;
    == { assert (q * w) * TWO64 - (n * e) * TWO64 == (q * w - n * e) * TWO64; }
      u * w + (q * w - n * e) * TWO64;
    }
    AddMultiple(u * w, q * w - n * e);
  }

  lemma HeldWord(i: int)
    ensures Field61(Unsigned(i)) == Held(i)
  {
    var u := Unsigned(i);
    var low, k := u % TWO61, u / TWO61 + 8 * (i / TWO64);
    assert i == TWO61 * k + low;
    HeldLow(i, k, low);
  }

  lemma HeldLow(i: int, k: int, low: nat)
    requires i == TWO61 * k + low && low < TWO61
    ensures (i + TWO61 / 2) % TWO61 - TWO61 / 2 == if 2 * low < TWO61 then low else low - TWO61
  {
    if 2 * low < TWO61 {
      DivModUnique(i + TWO61 / 2, TWO61, k, low + TWO61 / 2);
    } else {
      DivModUnique(i + TWO61 / 2, TWO61, k + 1, low - TWO61 / 2);
    }
  }

  lemma HeldScaled(n: int, w: Word)
    ensures Field61(Mul(Unsigned(n), w)) == Held(n * Signed(w))
  {
    hide Field61, Held, Mul, Unsigned, Signed;
    Scaled(n, w);
    HeldWord(n * Signed(w));
  }

  lemma Advanced(loc: Word, n: Word, w: Word)
    ensures Add(loc, Mul(n, w)) == Unsigned(loc + n * w)
  {
    var p := n * w;
    AddWrapped(loc, p);
  }

  lemma AddWrapped(loc: Word, p: nat)
    ensures Add(loc, p % TWO64) == Unsigned(loc + p)
  {
    hide Unsigned;
    AddMultiple(loc + p % TWO64, p / TWO64);
    AddIsSum(loc, p % TWO64);
  }

  lemma AddIsSum(a: Word, b: Word)
    ensures Add(a, b) == Unsigned(a + b)
  {
  }

  // ----- one instruction -----

  /** The interpreter takes the instruction at `at` for `d`. */
  ghost predicate Understood(cie: Cie, inCie: bool, code: seq<Byte>, at: nat, d: Directive, loc: Word, st: State)
    requires at < |code| < TWO64 && Writable(cie, d)
  {
    var r := DecodeInsn(cie, code, at);
    && r.Some? && r.value.1 == at + |Print(cie, d)|
    && match LocationOf(d, cie, loc)
       case Some(l) => MovesLocation(r.value.0) && NewLocation(r.value.0, loc) == l
       case None => !MovesLocation(r.value.0) && Exec(r.value.0, cie, inCie, st) == StateAfter(d, cie, inCie, at, st)
  }

  ghost predicate Stands(cie: Cie, code: seq<Byte>, before: seq<Byte>, d: Directive, after: seq<Byte>) {
    Writable(cie, d) && |code| < TWO64 && code == before + Print(cie, d) + after
  }

  predicate IsAdvance(d: Directive) {
    d.DW_CFA_advance_loc? || d.DW_CFA_advance_loc1? || d.DW_CFA_advance_loc2? || d.DW_CFA_advance_loc4?
    || d.DW_CFA_MIPS_advance_loc8?
  }

  lemma AdvanceRead(cie: Cie, code: seq<Byte>, before: seq<Byte>, op: Byte, e: Encoding, n: Word, after: seq<Byte>)
    requires code == before + ([op] + Encode(e, n)) + after && Encodable(e, n) && |code| < TWO64
    requires (op, e) == (0x02, U8) || (op, e) == (0x03, U16) || (op, e) == (0x04, U32) || (op, e) == (0x1d, U64)
    ensures DecodeInsn(cie, code, |before|)
            == Some((Advance(Mul(n, cie.codeAlign)), |before| + 1 + |Encode(e, n)|))
  {
    hide Read, Encode, Encodable, Mul;
    OperandAt(code, before, op, e, n, after);
  }

  lemma AdvanceMeans(cie: Cie, inCie: bool, code: seq<Byte>, before: seq<Byte>, d: Directive, after: seq<Byte>,
                     loc: Word, st: State)
    requires Stands(cie, code, before, d, after) && IsAdvance(d)
    ensures Understood(cie, inCie, code, |before|, d, loc, st)
  {
    hide Bytes16, Bytes32, Bytes64, Read, Mul, Unsigned, DecodeExtended;
    Advanced(loc, d.delta, cie.codeAlign);
    match d {
      case DW_CFA_advance_loc(n) => assert code[|before|] == 0x40 + n;
      case DW_CFA_advance_loc1(n) =>
        assert [0x02, n] == [0x02] + Encode(U8, n);
        AdvanceRead(cie, code, before, 0x02, U8, n, after);
      case DW_CFA_advance_loc2(n) => AdvanceRead(cie, code, before, 0x03, U16, n, after);
      case DW_CFA_advance_loc4(n) => AdvanceRead(cie, code, before, 0x04, U32, n, after);
      case DW_CFA_MIPS_advance_loc8(n) => AdvanceRead(cie, code, before, 0x1d, U64, n, after);
    }
  }

  lemma PointerMeans(cie: Cie, inCie: bool, code: seq<Byte>, before: seq<Byte>, d: Directive, after: seq<Byte>,
                     loc: Word, st: State)
    requires Stands(cie, code, before, d, after) && d.DW_CFA_set_loc?
    ensures Understood(cie, inCie, code, |before|, d, loc, st)
  {
    hide Bytes16, Bytes32, Bytes64, UlebBytes, SlebBytes, Read;
    var e := FromPointerEncoding(cie.fdeEncoding).value;
    assert Encode(e, d.loc) == PointerBytes(cie.fdeEncoding, d.loc) && Encodable(e, d.loc);
    OperandAt(code, before, 0x01, e, d.loc, after);
  }

  lemma NewCfaMeans(cie: Cie, inCie: bool, code: seq<Byte>, before: seq<Byte>, d: Directive, after: seq<Byte>,
                    loc: Word, st: State)
    requires Stands(cie, code, before, d, after) && (d.DW_CFA_def_cfa? || d.DW_CFA_def_cfa_sf?)
    ensures Understood(cie, inCie, code, |before|, d, loc, st)
  {
    hide UlebBytes, SlebBytes, Read, Mul, Unsigned, Signed;
    match d {
      case DW_CFA_def_cfa(reg, n) => OperandsAt(code, before, 0x0c, Uleb, reg, Uleb, n, after);
      case DW_CFA_def_cfa_sf(reg, n) =>
        SignedOperand(n);
        OperandsAt(code, before, 0x12, Uleb, reg, Sleb, Unsigned(n), after);
        Scaled(n, cie.dataAlign);
    }
  }

  lemma ChangedCfaMeans(cie: Cie, inCie: bool, code: seq<Byte>, before: seq<Byte>, d: Directive, after: seq<Byte>,
                        loc: Word, st: State)
    requires Stands(cie, code, before, d, after)
    requires d.DW_CFA_def_cfa_register? || d.DW_CFA_def_cfa_offset? || d.DW_CFA_def_cfa_offset_sf?
    ensures Understood(cie, inCie, code, |before|, d, loc, st)
  {
    hide UlebBytes, SlebBytes, Read, Mul, Unsigned, Signed;
    match d {
      case DW_CFA_def_cfa_register(reg) => OperandAt(code, before, 0x0d, Uleb, reg, after);
      case DW_CFA_def_cfa_offset(n) =>
        SmallWord(n);
        OperandAt(code, before, 0x0e, Uleb, n, after);
      case DW_CFA_def_cfa_offset_sf(n) =>
        SignedOperand(n);
        OperandAt(code, before, 0x13, Sleb, Unsigned(n), after);
        Scaled(n, cie.dataAlign);
    }
  }

  lemma SmallWord(n: int)
    requires Small(n)
    ensures Unsigned(n) == n && Field61(n) == n && ToInt32(n) == n
  {}

  /** The column of a register operand. */
  lemma ColumnSet(r: Rules, reg: nat, rule: RegRule, initial: Rules)
    requires Small(reg)
    ensures r.Set(TransReg(reg), rule) == Column(r, reg, rule)
    ensures TransReg(reg) == None ==> Restored(r, initial, reg) == r
    ensures TransReg(reg).Some? ==> r.Set(TransReg(reg), initial.Get(TransReg(reg).value)) == Restored(r, initial, reg)
  {
    SmallWord(reg);
  }

  /** What an instruction that only sets one column does, once it is decoded. */
  lemma ColumnMeans(cie: Cie, inCie: bool, code: seq<Byte>, at: nat, d: Directive, reg: nat, rule: RegRule,
                    loc: Word, st: State)
    requires at < |code| < TWO64 && Writable(cie, d) && Small(reg) && LocationOf(d, cie, loc) == None
    requires StateAfter(d, cie, inCie, at, st) == Some(st.(rules := Column(st.rules, reg, rule)))
    requires DecodeInsn(cie, code, at) == Some((SetReg(TransReg(reg), rule), at + |Print(cie, d)|))
    ensures Understood(cie, inCie, code, at, d, loc, st)
  {
    hide DecodeInsn, StateAfter, LocationOf, Print, Writable;
    ColumnSet(st.rules, reg, rule, cie.initial);
  }

  predicate SetsOffset(d: Directive) {
    d.DW_CFA_offset? || d.DW_CFA_offset_extended? || d.DW_CFA_offset_extended_sf?
    || d.DW_CFA_GNU_negative_offset_extended? || d.DW_CFA_val_offset? || d.DW_CFA_val_offset_sf?
  }

  /** The rule of an offset instruction. */
  function OffsetRule(cie: Cie, d: Directive): RegRule
    requires SetsOffset(d)
  {
    var n := if d.DW_CFA_GNU_negative_offset_extended? then -d.factored else d.factored;
    var held := Held(n * Signed(cie.dataAlign));
    if d.DW_CFA_val_offset? || d.DW_CFA_val_offset_sf? then ValOffset(held) else Offset(held)
  }

  lemma Negated(n: int)
    requires Small(n)
    ensures Sub(0, n) == Unsigned(-n)
  {}

  /** The offset opcodes with two operands. */
  lemma RegOffsetReads(cie: Cie, code: seq<Byte>, before: seq<Byte>, op: Byte, reg: Word, e: Encoding, v: Word,
                       negate: bool, value: bool, after: seq<Byte>)
    requires code == before + ([op] + Encode(Uleb, reg) + Encode(e, v)) + after && |code| < TWO64
    requires Encodable(Uleb, reg) && Encodable(e, v)
    requires (op, e, negate, value) in {(0x05, Uleb, false, false), (0x11, Sleb, false, false),
                                        (0x2f, Uleb, true, false), (0x14, Uleb, false, true), (0x15, Sleb, false, true)}
    ensures var n := Field61(Mul(if negate then Sub(0, v) else v, cie.dataAlign));
            DecodeInsn(cie, code, |before|)
            == Some((SetReg(TransReg(reg), if value then ValOffset(n) else Offset(n)),
                     |before| + |[op] + Encode(Uleb, reg) + Encode(e, v)|))
  {
    hide UlebBytes, Read, Mul, Sub, Field61, TransReg, Encode, Encodable;
    OperandsAt(code, before, op, Uleb, reg, e, v, after);
  }

  lemma OffsetDecodes(cie: Cie, code: seq<Byte>, before: seq<Byte>, d: Directive, after: seq<Byte>)
    requires Stands(cie, code, before, d, after) && SetsOffset(d)
    ensures DecodeInsn(cie, code, |before|)
            == Some((SetReg(TransReg(d.reg), OffsetRule(cie, d)), |before| + |Print(cie, d)|))
  {
    hide UlebBytes, SlebBytes, Read, Mul, Unsigned, Signed, Field61, Held, TransReg, Sub, DecodeExtended;
    var n, reg := d.factored, d.reg;
    HeldScaled(n, cie.dataAlign);
    match d {
      case DW_CFA_offset(_, _) =>
        SmallWord(n);
        OperandAt(code, before, 0x80 + reg, Uleb, n, after);
      case DW_CFA_offset_extended(_, _) =>
        SmallWord(n);
        RegOffsetReads(cie, code, before, 0x05, reg, Uleb, n, false, false, after);
      case DW_CFA_offset_extended_sf(_, _) =>
        SignedOperand(n);
        RegOffsetReads(cie, code, before, 0x11, reg, Sleb, Unsigned(n), false, false, after);
      case DW_CFA_GNU_negative_offset_extended(_, _) =>
        Negated(n);
        HeldScaled(-n, cie.dataAlign);
        RegOffsetReads(cie, code, before, 0x2f, reg, Uleb, n, true, false, after);
      case DW_CFA_val_offset(_, _) =>
        SmallWord(n);
        RegOffsetReads(cie, code, before, 0x14, reg, Uleb, n, false, true, after);
      case DW_CFA_val_offset_sf(_, _) =>
        SignedOperand(n);
        RegOffsetReads(cie, code, before, 0x15, reg, Sleb, Unsigned(n), false, true, after);
    }
  }

  lemma OffsetMeans(cie: Cie, inCie: bool, code: seq<Byte>, before: seq<Byte>, d: Directive, after: seq<Byte>,
                    loc: Word, st: State)
    requires Stands(cie, code, before, d, after) && SetsOffset(d)
    ensures Understood(cie, inCie, code, |before|, d, loc, st)
  {
    hide DecodeInsn, Held, Signed, Understood, Print;
    OffsetDecodes(cie, code, before, d, after);
    ColumnMeans(cie, inCie, code, |before|, d, d.reg, OffsetRule(cie, d), loc, st);
  }

  lemma PlainColumnMeans(cie: Cie, inCie: bool, code: seq<Byte>, before: seq<Byte>, d: Directive, after: seq<Byte>,
                         loc: Word, st: State)
    requires Stands(cie, code, before, d, after)
    requires d.DW_CFA_undefined? || d.DW_CFA_same_value? || d.DW_CFA_register?
    ensures Understood(cie, inCie, code, |before|, d, loc, st)
  {
    hide UlebBytes, Read, Field61, TransReg, Understood;
    match d {
      case DW_CFA_undefined(reg) =>
        OperandAt(code, before, 0x07, Uleb, reg, after);
        ColumnMeans(cie, inCie, code, |before|, d, reg, Undefined, loc, st);
      case DW_CFA_same_value(reg) =>
        OperandAt(code, before, 0x08, Uleb, reg, after);
        ColumnMeans(cie, inCie, code, |before|, d, reg, SameValue, loc, st);
      case DW_CFA_register(reg, source) =>
        OperandsAt(code, before, 0x09, Uleb, reg, Uleb, source, after);
        SmallWord(source);
        ColumnMeans(cie, inCie, code, |before|, d, reg, Register(source), loc, st);
    }
  }

  lemma RestoreMeans(cie: Cie, inCie: bool, code: seq<Byte>, before: seq<Byte>, d: Directive, after: seq<Byte>,
                     loc: Word, st: State)
    requires Stands(cie, code, before, d, after) && (d.DW_CFA_restore? || d.DW_CFA_restore_extended?)
    ensures Understood(cie, inCie, code, |before|, d, loc, st)
  {
    hide UlebBytes, Read, TransReg, Rules.Set, Rules.Get, Restored;
    ColumnSet(st.rules, d.reg, Undefined, cie.initial);
    match d {
      case DW_CFA_restore(reg) => assert code[|before|] == 0xc0 + reg;
      case DW_CFA_restore_extended(reg) => OperandAt(code, before, 0x06, Uleb, reg, after);
    }
  }

  // ----- blocks -----

  /** A block and its length after `head`. */
  lemma BlockHere(code: seq<Byte>, head: seq<Byte>, block: seq<Byte>, after: seq<Byte>)
    requires code == head + UlebBytes(|block|) + block + after && Small(|block|)
    ensures var start := |head| + |UlebBytes(|block|)|;
            && Read(code, |head|, Uleb) == Some((|block|, start))
            && Block(code, start, |block|) == Some((block, start + |block|))
  {
    hide UlebBytes, Read;
    var start := |head| + |UlebBytes(|block|)|;
    assert code == head + Encode(Uleb, |block|) + (block + after);
    ReadBack(code, head, Uleb, |block|, block + after);
    assert code[start..start + |block|] == block;
  }

  /** The section offset an expression rule keeps names its block, unless it needs more than 60 bits. */
  lemma BlockNamed(section: seq<Byte>, head: seq<Byte>, block: seq<Byte>, after: seq<Byte>)
    requires section == head + UlebBytes(|block|) + block + after && Small(|block|) && 2 * |head| < TWO61
    ensures Held(|head|) == |head| && BlockAt(section, Held(|head|)) == Some(block)
  {
    hide UlebBytes, ReadUleb;
    SmallHeld(|head|);
    hide Held;
    BlockHere(section, head, block, after);
    assert Read(section, |head|, Uleb) == ReadUleb(section, |head|);
  }

  lemma SmallHeld(n: nat)
    requires 2 * n < TWO61
    ensures Held(n) == n
  {
  }

  lemma CfaBlockMeans(cie: Cie, inCie: bool, code: seq<Byte>, before: seq<Byte>, d: Directive, after: seq<Byte>,
                      loc: Word, st: State)
    requires Stands(cie, code, before, d, after) && d.DW_CFA_def_cfa_expression?
    ensures Understood(cie, inCie, code, |before|, d, loc, st)
  {
    hide UlebBytes, Read, Block;
    var head := before + [0x0f];
    assert code == head + UlebBytes(|d.block|) + d.block + after;
    BlockHere(code, head, d.block, after);
    assert code[|before|] == 0x0f;
  }

  lemma ExpressionDecodes(cie: Cie, code: seq<Byte>, before: seq<Byte>, reg: nat, block: seq<Byte>, value: bool,
                          after: seq<Byte>)
    requires Small(reg) && Small(|block|) && |code| < TWO64
    requires code == before + ([if value then 0x16 else 0x10] + UlebBytes(reg) + UlebBytes(|block|) + block) + after
    ensures var at := |before| + 1 + |UlebBytes(reg)|;
            DecodeInsn(cie, code, |before|)
            == Some((SetReg(TransReg(reg), if value then ValExpression(Held(at)) else Expression(Held(at))),
                     at + |UlebBytes(|block|)| + |block|))
  {
    hide UlebBytes, Read, Block, TransReg, Field61, Held;
    var op: Byte := if value then 0x16 else 0x10;
    var rest := UlebBytes(|block|) + block + after;
    assert code == before + ([op] + Encode(Uleb, reg)) + rest;
    OperandAt(code, before, op, Uleb, reg, rest);
    var head := before + [op] + UlebBytes(reg);
    assert code == head + UlebBytes(|block|) + block + after;
    BlockHere(code, head, block, after);
    HeldWord(|head|);
  }

  lemma ExpressionMeans(cie: Cie, inCie: bool, code: seq<Byte>, before: seq<Byte>, d: Directive, after: seq<Byte>,
                        loc: Word, st: State)
    requires Stands(cie, code, before, d, after) && (d.DW_CFA_expression? || d.DW_CFA_val_expression?)
    ensures Understood(cie, inCie, code, |before|, d, loc, st)
  {
    hide DecodeInsn, Held, UlebBytes, Understood;
    ExpressionDecodes(cie, code, before, d.reg, d.block, d.DW_CFA_val_expression?, after);
    var held := Held(|before| + 1 + |UlebBytes(d.reg)|);
    var rule := if d.DW_CFA_val_expression? then ValExpression(held) else Expression(held);
    ColumnMeans(cie, inCie, code, |before|, d, d.reg, rule, loc, st);
  }

  lemma OtherMeans(cie: Cie, inCie: bool, code: seq<Byte>, before: seq<Byte>, d: Directive, after: seq<Byte>,
                   loc: Word, st: State)
    requires Stands(cie, code, before, d, after)
    requires d.DW_CFA_remember_state? || d.DW_CFA_restore_state? || d.DW_CFA_nop? || d.Unknown? || d.DW_CFA_GNU_args_size?
    ensures Understood(cie, inCie, code, |before|, d, loc, st)
  {
    hide UlebBytes, Read;
    assert code[|before|] == Print(cie, d)[0];
    if d.DW_CFA_GNU_args_size? {
      OperandAt(code, before, 0x2e, Uleb, d.size, after);
    }
  }

  /** Every instruction means to the interpreter what it says. */
  lemma DirectiveMeans(cie: Cie, inCie: bool, code: seq<Byte>, before: seq<Byte>, d: Directive, after: seq<Byte>,
                       loc: Word, st: State)
    requires Stands(cie, code, before, d, after)
    ensures Understood(cie, inCie, code, |before|, d, loc, st)
  {
    hide Stands, Understood;
    if IsAdvance(d) {
      AdvanceMeans(cie, inCie, code, before, d, after, loc, st);
    } else if d.DW_CFA_def_cfa? || d.DW_CFA_def_cfa_sf? {
      NewCfaMeans(cie, inCie, code, before, d, after, loc, st);
    } else if d.DW_CFA_def_cfa_register? || d.DW_CFA_def_cfa_offset? || d.DW_CFA_def_cfa_offset_sf? {
      ChangedCfaMeans(cie, inCie, code, before, d, after, loc, st);
    } else if SetsOffset(d) {
      OffsetMeans(cie, inCie, code, before, d, after, loc, st);
    } else {
      match d {
        case DW_CFA_set_loc(_) => PointerMeans(cie, inCie, code, before, d, after, loc, st);
        case DW_CFA_def_cfa_expression(_) => CfaBlockMeans(cie, inCie, code, before, d, after, loc, st);
        case DW_CFA_undefined(_) => PlainColumnMeans(cie, inCie, code, before, d, after, loc, st);
        case DW_CFA_same_value(_) => PlainColumnMeans(cie, inCie, code, before, d, after, loc, st);
        case DW_CFA_register(_, _) => PlainColumnMeans(cie, inCie, code, before, d, after, loc, st);
        case DW_CFA_expression(_, _) => ExpressionMeans(cie, inCie, code, before, d, after, loc, st);
        case DW_CFA_val_expression(_, _) => ExpressionMeans(cie, inCie, code, before, d, after, loc, st);
        case DW_CFA_restore(_) => RestoreMeans(cie, inCie, code, before, d, after, loc, st);
        case DW_CFA_restore_extended(_) => RestoreMeans(cie, inCie, code, before, d, after, loc, st);
        case _ => OtherMeans(cie, inCie, code, before, d, after, loc, st);
      }
    }
  }

  // ----- whole programs -----

  ghost predicate AllWritable(cie: Cie, ds: seq<Directive>) {
    forall d :: d in ds ==> Writable(cie, d)
  }

  ghost function PrintAll(cie: Cie, ds: seq<Directive>): seq<Byte>
    requires AllWritable(cie, ds)
  {
    if ds == [] then [] else Print(cie, ds[0]) + PrintAll(cie, ds[1..])
  }

  /** What a program says up to `pc`, its first byte being at `at` of the section. */
  ghost function Said(ds: seq<Directive>, cie: Cie, inCie: bool, at: nat, loc: Word, st: State, pc: Word): Option<State>
    requires AllWritable(cie, ds)
  {
    if ds == [] then Some(st)
    else
      var next := at + |Print(cie, ds[0])|;
      match LocationOf(ds[0], cie, loc)
      case Some(l) => if pc < l then Some(st) else Said(ds[1..], cie, inCie, next, l, st, pc)
      case None =>
        match StateAfter(ds[0], cie, inCie, at, st)
        case None => None
        case Some(st') => Said(ds[1..], cie, inCie, next, loc, st', pc)
  }

  /** The whole table of a program. */
  ghost function TableOf(ds: seq<Directive>, cie: Cie, inCie: bool, at: nat, loc: Word, st: State): Option<seq<Row>>
    requires AllWritable(cie, ds)
  {
    if ds == [] then Some([Row(loc, st)])
    else
      var next := at + |Print(cie, ds[0])|;
      match LocationOf(ds[0], cie, loc)
      case Some(l) =>
        var rest :- TableOf(ds[1..], cie, inCie, next, l, st);
        Some([Row(loc, st)] + rest)
      case None =>
        match StateAfter(ds[0], cie, inCie, at, st)
        case None => None
        case Some(st') => TableOf(ds[1..], cie, inCie, next, loc, st')
  }

  lemma FirstStands(cie: Cie, code: seq<Byte>, before: seq<Byte>, ds: seq<Directive>)
    requires ds != [] && AllWritable(cie, ds) && |code| < TWO64 && code == before + PrintAll(cie, ds)
    ensures Writable(cie, ds[0]) && AllWritable(cie, ds[1..]) && Stands(cie, code, before, ds[0], PrintAll(cie, ds[1..]))
    ensures code == before + Print(cie, ds[0]) + PrintAll(cie, ds[1..])
  {
    hide Print, Writable;
  }

  /** Running a printed program up to a PC gives what it says. */
  lemma {:induction false} ProgramRuns(cie: Cie, inCie: bool, code: seq<Byte>, before: seq<Byte>, ds: seq<Directive>,
                                       loc: Word, st: State, pc: Word)
    requires AllWritable(cie, ds) && |code| < TWO64 && code == before + PrintAll(cie, ds)
    ensures RunTo(cie, inCie, code, |before|, loc, st, pc) == Said(ds, cie, inCie, |before|, loc, st, pc)
    decreases |ds|
  {
    hide AllWritable, DecodeInsn, Exec, StateAfter, LocationOf, Print, Stands, Writable;
    if ds != [] {
      FirstStands(cie, code, before, ds);
      DirectiveMeans(cie, inCie, code, before, ds[0], PrintAll(cie, ds[1..]), loc, st);
      var next := before + Print(cie, ds[0]);
      var (i, _) := DecodeInsn(cie, code, |before|).value;
      if MovesLocation(i) {
        ProgramRuns(cie, inCie, code, next, ds[1..], NewLocation(i, loc), st, pc);
      } else if Exec(i, cie, inCie, st).Some? {
        ProgramRuns(cie, inCie, code, next, ds[1..], loc, Exec(i, cie, inCie, st).value, pc);
      }
    }
  }

  lemma {:induction false} ProgramTable(cie: Cie, inCie: bool, code: seq<Byte>, before: seq<Byte>, ds: seq<Directive>,
                                        loc: Word, st: State)
    requires AllWritable(cie, ds) && |code| < TWO64 && code == before + PrintAll(cie, ds)
    ensures Rows(cie, inCie, code, |before|, loc, st) == TableOf(ds, cie, inCie, |before|, loc, st)
    decreases |ds|
  {
    hide AllWritable, DecodeInsn, Exec, StateAfter, LocationOf, Print, Stands, Writable;
    if ds != [] {
      FirstStands(cie, code, before, ds);
      DirectiveMeans(cie, inCie, code, before, ds[0], PrintAll(cie, ds[1..]), loc, st);
      var next := before + Print(cie, ds[0]);
      var (i, _) := DecodeInsn(cie, code, |before|).value;
      if MovesLocation(i) {
        ProgramTable(cie, inCie, code, next, ds[1..], NewLocation(i, loc), st);
      } else if Exec(i, cie, inCie, st).Some? {
        ProgramTable(cie, inCie, code, next, ds[1..], loc, Exec(i, cie, inCie, st).value);
      }
    }
  }

  lemma PrintOne(cie: Cie, d: Directive, rest: seq<Directive>)
    requires Writable(cie, d) && AllWritable(cie, rest)
    ensures AllWritable(cie, [d] + rest) && PrintAll(cie, [d] + rest) == Print(cie, d) + PrintAll(cie, rest)
  {
    hide Print, Writable;
    assert ([d] + rest)[1..] == rest;
  }

  /** A program that opens with an instruction for the current row says what the rest says of the changed row. */
  lemma SaidFirst(d: Directive, rest: seq<Directive>, cie: Cie, inCie: bool, at: nat, loc: Word, st: State, pc: Word)
    requires Writable(cie, d) && AllWritable(cie, rest) && AllWritable(cie, [d] + rest)
    requires LocationOf(d, cie, loc) == None && StateAfter(d, cie, inCie, at, st).Some?
    ensures Said([d] + rest, cie, inCie, at, loc, st, pc)
            == Said(rest, cie, inCie, at + |Print(cie, d)|, loc, StateAfter(d, cie, inCie, at, st).value, pc)
  {
    hide Print, Writable, StateAfter, LocationOf;
    assert ([d] + rest)[1..] == rest;
  }

  /** The rules every CIE of x86-64 starts from: CFA = rsp + 8, and the return address in the word before it. */
  lemma DefaultRow(cie: Cie, st: State, loc: Word, pc: Word)
    requires Signed(cie.dataAlign) == -8
    ensures RunTo(cie, true, [0x0c, 7, 8, 0x90, 1, 0x08, 6, 0x14, 7, 0], 0, loc, st, pc)
            == Some(st.(rules := Rules(CfaRegister(7, 8), Offset(Unsigned(-8)), SameValue, ValOffset(0))))
  {
    var code: seq<Byte> := [0x0c, 7, 8, 0x90, 1, 0x08, 6, 0x14, 7, 0];
    DefaultBytes(cie);
    DefaultSaid(cie, st, loc, pc);
    hide *;
    assert [] + code == code;
    ProgramRuns(cie, true, code, [], DEFAULT_PROGRAM, loc, st, pc);
  }

  const DEFAULT_PROGRAM := [DW_CFA_def_cfa(7, 8), DW_CFA_offset(16, 1), DW_CFA_same_value(6), DW_CFA_val_offset(7, 0)]

  lemma DefaultBytes(cie: Cie)
    ensures AllWritable(cie, DEFAULT_PROGRAM)
    ensures PrintAll(cie, DEFAULT_PROGRAM) == [0x0c, 7, 8, 0x90, 1, 0x08, 6, 0x14, 7, 0]
  {
    var ds := DEFAULT_PROGRAM;
    PrintOne(cie, ds[3], []);
    PrintOne(cie, ds[2], [ds[3]] + []);
    PrintOne(cie, ds[1], [ds[2]] + ([ds[3]] + []));
    PrintOne(cie, ds[0], [ds[1]] + ([ds[2]] + ([ds[3]] + [])));
    assert ds == [ds[0]] + ([ds[1]] + ([ds[2]] + ([ds[3]] + [])));
  }

  /** The instructions of the default program, one by one. */
  lemma DefaultSteps(cie: Cie, st: State, loc: Word)
    requires Signed(cie.dataAlign) == -8
    ensures LocationOf(DW_CFA_def_cfa(7, 8), cie, loc) == LocationOf(DW_CFA_offset(16, 1), cie, loc) == None
    ensures LocationOf(DW_CFA_same_value(6), cie, loc) == LocationOf(DW_CFA_val_offset(7, 0), cie, loc) == None
    ensures |Print(cie, DW_CFA_def_cfa(7, 8))| == 3 && |Print(cie, DW_CFA_offset(16, 1))| == 2
    ensures |Print(cie, DW_CFA_same_value(6))| == 2 && |Print(cie, DW_CFA_val_offset(7, 0))| == 3
    ensures StateAfter(DW_CFA_def_cfa(7, 8), cie, true, 0, st) == Some(st.(rules := st.rules.(cfa := CfaRegister(7, 8))))
    ensures StateAfter(DW_CFA_offset(16, 1), cie, true, 3, st)
            == Some(st.(rules := st.rules.(rip := Offset(Unsigned(-8)))))
    ensures StateAfter(DW_CFA_same_value(6), cie, true, 5, st) == Some(st.(rules := st.rules.(rbp := SameValue)))
    ensures StateAfter(DW_CFA_val_offset(7, 0), cie, true, 7, st) == Some(st.(rules := st.rules.(rsp := ValOffset(0))))
  {
  }

  lemma DefaultSaid(cie: Cie, st: State, loc: Word, pc: Word)
    requires Signed(cie.dataAlign) == -8 && AllWritable(cie, DEFAULT_PROGRAM)
    ensures Said(DEFAULT_PROGRAM, cie, true, 0, loc, st, pc)
            == Some(st.(rules := Rules(CfaRegister(7, 8), Offset(Unsigned(-8)), SameValue, ValOffset(0))))
  {
    hide Said, StateAfter, LocationOf, Print, Writable, Signed, Unsigned;
    var ds := DEFAULT_PROGRAM;
    var st1 := st.(rules := st.rules.(cfa := CfaRegister(7, 8)));
    var st2 := st1.(rules := st1.rules.(rip := Offset(Unsigned(-8))));
    var st3 := st2.(rules := st2.rules.(rbp := SameValue));
    var st4 := st3.(rules := st3.rules.(rsp := ValOffset(0)));
    DefaultSteps(cie, st, loc);
    DefaultSteps(cie, st1, loc);
    DefaultSteps(cie, st2, loc);
    DefaultSteps(cie, st3, loc);
    var ds2, ds3 := [ds[2], ds[3]], [ds[3]];
    assert ds == [ds[0]] + ds[1..] && ds[1..] == [ds[1]] + ds2 && ds2 == [ds[2]] + ds3 && ds3 == [ds[3]] + [];
    SaidFirst(ds[0], ds[1..], cie, true, 0, loc, st, pc);
    SaidFirst(ds[1], ds2, cie, true, 3, loc, st1, pc);
    SaidFirst(ds[2], ds3, cie, true, 5, loc, st2, pc);
    SaidFirst(ds[3], [], cie, true, 7, loc, st3, pc);
    SaidEnd(cie, true, 10, loc, st4, pc);
  }

  lemma SaidEnd(cie: Cie, inCie: bool, at: nat, loc: Word, st: State, pc: Word)
    ensures Said([], cie, inCie, at, loc, st, pc) == Some(st)
  {
  }

  // ----- instructions that cannot be read -----

  datatype Operand = Number(e: Encoding) | Pointer | Counted

  /** The operands after each opcode. */
  function Layout(op: Byte): seq<Operand> {
    if 0x80 <= op < 0xc0 || op in {0x06, 0x07, 0x08, 0x0d, 0x0e, 0x2e} then [Number(Uleb)]
    else if op in {0x05, 0x09, 0x0c, 0x14, 0x2f} then [Number(Uleb), Number(Uleb)]
    else if op in {0x11, 0x12, 0x15} then [Number(Uleb), Number(Sleb)]
    else if op == 0x13 then [Number(Sleb)]
    else if op == 0x02 then [Number(U8)]
    else if op == 0x03 then [Number(U16)]
    else if op == 0x04 then [Number(U32)]
    else if op == 0x1d then [Number(U64)]
    else if op == 0x01 then [Pointer]
    else if op == 0x0f then [Counted]
    else if op == 0x10 || op == 0x16 then [Number(Uleb), Counted]
    else []
  }

  function Skip(cie: Cie, code: seq<Byte>, pos: nat, o: Operand): Option<nat> {
    match o
    case Number(e) => var (_, next) :- Read(code, pos, e); Some(next)
    case Pointer => var (_, next) :- ReadChecked(code, pos, cie.fdeEncoding); Some(next)
    case Counted => var (len, start) :- Read(code, pos, Uleb); if start + len <= |code| then Some(start + len) else None
  }

  function SkipAll(cie: Cie, code: seq<Byte>, pos: nat, os: seq<Operand>): Option<nat>
    decreases |os|
  {
    if os == [] then Some(pos)
    else
      var next :- Skip(cie, code, pos, os[0]);
      SkipAll(cie, code, next, os[1..])
  }

  /** Any bytes: an instruction is rejected exactly when one of its operands is not there, and ends after the last. */
  lemma ExtentExact(cie: Cie, code: seq<Byte>, pos: nat)
    requires pos < |code| < TWO64
    ensures var end := SkipAll(cie, code, pos + 1, Layout(code[pos]));
            match DecodeInsn(cie, code, pos) case None => end == None case Some((_, next)) => end == Some(next)
  {
    hide Read, ReadChecked, Field61, Mul, TransReg, SkipAll;
    var os := Layout(code[pos]);
    SkipUnrolled(cie, code, pos + 1, os);
  }

  lemma {:induction false} SkipUnrolled(cie: Cie, code: seq<Byte>, pos: nat, os: seq<Operand>)
    ensures |os| == 0 ==> SkipAll(cie, code, pos, os) == Some(pos)
    ensures |os| == 1 ==> SkipAll(cie, code, pos, os) == Skip(cie, code, pos, os[0])
    ensures |os| == 2 ==> SkipAll(cie, code, pos, os)
                          == match Skip(cie, code, pos, os[0]) case None => None case Some(n) => Skip(cie, code, n, os[1])
    decreases |os|
  {
    hide Skip;
    if |os| == 2 && Skip(cie, code, pos, os[0]).Some? {
      SkipUnrolled(cie, code, Skip(cie, code, pos, os[0]).value, os[1..]);
    }
  }
}
