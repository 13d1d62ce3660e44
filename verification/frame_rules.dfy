/** Frame rules (section 6.4.1 of DWARF 5) and their compilation to operation lists. */
module FrameRules {
  import opened Words
  import opened Leb128
  import opened DwarfOps
  import opened ExprBlock

  datatype CfaRule =
    | CfaUndefined
    | CfaRegister(reg: Word, offset: Word)
    | CfaExpression(block: seq<Byte>)
    | CfaClobbered            // def_cfa_register overwrote the block pointer of an expression

  /** Numbers are the values held by the 61-bit field of `struct dwarf_frame_register`. */
  datatype RegRule =
    | Unspecified
    | Undefined
    | SameValue
    | Offset(n: Word)
    | ValOffset(n: Word)
    | Register(n: Word)
    | Expression(at: Word)
    | ValExpression(at: Word)

  const TWO61: int := 0x2000_0000_0000_0000

  /** Storing a word in the 61-bit signed field and reading it back. */
  function Field61(w: Word): Word {
    var low := w % TWO61;
    if 2 * low < TWO61 then low else low + (TWO64 - TWO61)
  }

  lemma Field61Exact(w: Word)
    ensures Field61(w) == w <==> -TWO61 <= 2 * Signed(w) < TWO61
  {}

  function PlusConst(n: Word): seq<Op> {
    if n == 0 then [] else [Op(DW_OP_plus_uconst, n, 0, 0)]
  }

  const STACK_VALUE_OP := Op(DW_OP_stack_value, 0, 0, 0)

  /** The block whose length prefix sits at `at` in the CFI section. */
  function BlockAt(section: seq<Byte>, at: Word): (b: Option<seq<Byte>>)
    ensures b.Some? ==> |b.value| <= |section|
  {
    if at >= |section| then None
    else match ReadUleb(section, at)
      case None => None
      case Some((len, p)) => if p + len <= |section| then Some(section[p..p + len]) else None
  }

  function CompileCfa(rule: CfaRule): (ops: Option<seq<Op>>) {
    match rule
    case CfaRegister(r, o) => Some([Op(DW_OP_bregx, r, o, 0)])
    case CfaExpression(b) => if |b| < TWO64 then BlockOps(b, true, false) else None
    case _ => None
  }

  function CompileReg(rule: RegRule, section: seq<Byte>): (ops: Option<seq<Op>>)
    requires |section| < TWO64
  {
    match rule
    case Unspecified => None
    case Undefined => None
    case SameValue => None
    case Offset(n) => Some([PUSH_CFA] + PlusConst(n))
    case ValOffset(n) => Some([PUSH_CFA] + PlusConst(n) + [STACK_VALUE_OP])
    case Register(n) => Some([Op(DW_OP_regx, n, 0, 0)])
    case Expression(at) => CompileBlock(section, at, false)
    case ValExpression(at) => CompileBlock(section, at, true)
  }

  function CompileBlock(section: seq<Byte>, at: Word, isValue: bool): Option<seq<Op>>
    requires |section| < TWO64
  {
    match BlockAt(section, at)
    case None => None
    case Some(block) => BlockOps(block, false, isValue)
  }
}
