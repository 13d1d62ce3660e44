/**
 Expressions with the values section 2.5.1 of DWARF 5 gives them, and their compilation to operation lists:
 what the machine does with a compiled expression is what the expression means.
 */
module Expressions {
  import opened Words
  import opened Leb128
  import opened Operands
  import opened DwarfOps
  import opened ExprBlock
  import opened Evaluator
  import opened EvalMachine
  import opened FrameRules
  import opened RuleMeaning

  datatype UnaryOp = Abs | Neg | Complement | PlusUconst(n: Word) | Deref | DerefSize(size: Byte)

  datatype BinaryOp =
    | BitAnd | Div | Minus | Mod | Times | BitOr | Plus | ShiftLeft | ShiftRight | ShiftArithmetic | BitXor
    | Equal | AtLeast | Greater | AtMost | Less | Unequal

  datatype Expr =
    | Literal(n: nat)                               // lit0..lit31
    | Constant(form: Byte, v: Word)                 // const1u..consts
    | Address(addr: Word)                             // addr
    | Register(n: nat)                              // reg0..reg31
    | RegisterX(n: nat)                             // regx
    | Based(n: nat, offset: int)                    // breg0..breg31
    | BasedX(n: nat, offset: int)                   // bregx
    | Un(op: UnaryOp, e: Expr)
    | Bin(operator: BinaryOp, a: Expr, b: Expr)
    | Cond(c: Expr, yes: Expr, no: Expr)

  // ----- meaning -----

  function UnaryMeaning(op: UnaryOp, v: Word, snap: Snapshot): Outcome {
    match op
    case Abs => Value(if v < TWO63 then v else TWO64 - v)
    case Neg => Value(Unsigned(TWO64 - v))
    case Complement => Value(TWO64 - 1 - v)
    case PlusUconst(n) => Value(Unsigned(v + n))
    case Deref => (match ReadStack(snap, v) case Some(w) => Value(w) case None => BadRead(v))
    case DerefSize(size) =>
      if size > 8 then Failed
      else match ReadStack(snap, v)
        case Some(w) => Value(if size == 8 then w else LowBytes(w, size))
        case None => BadRead(v)
  }

  /** Division truncates; comparisons, division and the arithmetic shift read their operands as signed. */
  function BinaryMeaning(op: BinaryOp, a: Word, b: Word): Option<Word> {
    var x, y := Signed(a), Signed(b);
    match op
    case BitAnd => Some(Bitwise(AND, a, b))
    case BitOr => Some(Bitwise(OR, a, b))
    case BitXor => Some(Bitwise(XOR, a, b))
    case Plus => Some(Unsigned(a + b))
    case Minus => Some(Unsigned(a - b))
    case Times => Some(Unsigned(a * b))
    case Div => if y == 0 || (x == -TWO63 && y == -1) then None else Some(Unsigned(TruncatedDiv(x, y)))
    case Mod => if b == 0 then None else Some(a % b)
    case ShiftLeft => if b >= 64 then None else Some(Unsigned(a * Pow2(b)))
    case ShiftRight => if b >= 64 then None else Some(Unsigned(a / Pow2(b)))
    case ShiftArithmetic => if b >= 64 then None else Some(Unsigned(x / Pow2(b)))
    case Equal => Some(if x == y then 1 else 0)
    case Unequal => Some(if x == y then 0 else 1)
    case AtLeast => Some(if x < y then 0 else 1)
    case Greater => Some(if x <= y then 0 else 1)
    case AtMost => Some(if x <= y then 1 else 0)
    case Less => Some(if x < y then 1 else 0)
  }

  /** The value of an expression evaluated on top of `depth` entries of a stack that holds 256. */
  function Meaning(e: Expr, snap: Snapshot, bias: Word, depth: nat): Outcome {
    match e
    case Literal(n) => Fits(Some(n), depth)
    case Constant(_, v) => Fits(Some(v), depth)
    case Address(a) => Fits(Some(a + bias), depth)
    case Register(n) => Fits(RegisterPlus(snap, n, 0), depth)
    case RegisterX(n) => Fits(RegisterPlus(snap, n, 0), depth)
    case Based(n, o) => Fits(RegisterPlus(snap, n, o), depth)
    case BasedX(n, o) => Fits(RegisterPlus(snap, n, o), depth)
    case Un(op, e1) =>
      (match Meaning(e1, snap, bias, depth)
       case Value(v) => UnaryMeaning(op, v, snap)
       case out => out)
    case Bin(op, a, b) =>
      (match Meaning(a, snap, bias, depth)
       case Value(x) =>
         (match Meaning(b, snap, bias, depth + 1)
          case Value(y) => (match BinaryMeaning(op, x, y) case Some(v) => Value(v) case None => Failed)
          case out => out)
       case out => out)
    case Cond(c, yes, no) =>
      match Meaning(c, snap, bias, depth)
      case Value(v) => Meaning(if v != 0 then yes else no, snap, bias, depth)
      case out => out
  }

  function RegisterPlus(snap: Snapshot, n: nat, offset: int): Option<int> {
    if n < |snap.regs| then Some(snap.regs[n] + offset) else None
  }

  function Fits(v: Option<int>, depth: nat): Outcome {
    if v.Some? && depth < 256 then Value(Unsigned(v.value)) else Failed
  }

  // ----- compilation -----

  function UnaryCode(op: UnaryOp, at: Word): Op {
    match op
    case Abs => Op(0x19, 0, 0, at)
    case Neg => Op(0x1f, 0, 0, at)
    case Complement => Op(0x20, 0, 0, at)
    case PlusUconst(n) => Op(0x23, n, 0, at)
    case Deref => Op(0x06, 0, 0, at)
    case DerefSize(size) => Op(0x94, size, 0, at)
  }

  function BinaryCode(op: BinaryOp): Byte {
    match op
    case BitAnd => 0x1a
    case Div => 0x1b
    case Minus => 0x1c
    case Mod => 0x1d
    case Times => 0x1e
    case BitOr => 0x21
    case Plus => 0x22
    case ShiftLeft => 0x24
    case ShiftRight => 0x25
    case ShiftArithmetic => 0x26
    case BitXor => 0x27
    case Equal => 0x29
    case AtLeast => 0x2a
    case Greater => 0x2b
    case AtMost => 0x2c
    case Less => 0x2d
    case Unequal => 0x2e
  }

  predicate IsLeaf(e: Expr) {
    !e.Un? && !e.Bin? && !e.Cond?
  }

  predicate LeafWritable(e: Expr)
    requires IsLeaf(e)
  {
    match e
    case Literal(n) => n < 32
    case Constant(form, v) => 0x08 <= form <= 0x11 && Printable(Op(form, v, 0, 0))
    case Address(_) => true
    case Register(n) => n < 32
    case RegisterX(n) => n < 0x8000_0000
    case Based(n, o) => n < 32 && -0x4000_0000_0000_0000 <= o < TWO63
    case BasedX(n, o) => n < 0x8000_0000 && -0x4000_0000_0000_0000 <= o < TWO63
  }

  function LeafCode(e: Expr, at: Word): Op
    requires IsLeaf(e) && LeafWritable(e)
  {
    match e
    case Literal(n) => Op(0x30 + n, 0, 0, at)
    case Constant(form, v) => Op(form, v, 0, at)
    case Address(a) => Op(0x03, a, 0, at)
    case Register(n) => Op(0x50 + n, 0, 0, at)
    case RegisterX(n) => Op(0x90, n, 0, at)
    case Based(n, o) => Op(0x70 + n, Unsigned(o), 0, at)
    case BasedX(n, o) => Op(0x92, n, Unsigned(o), at)
  }

  /** Bytes of the compiled expression. */
  function Size(e: Expr): (n: nat)
    ensures n > 0
  {
    match e
    case Literal(_) => 1
    case Constant(form, v) => |EncodeOp(Op(form, v, 0, 0))|
    case Address(_) => 9
    case Register(_) => 1
    case RegisterX(n) => 1 + |UlebBytes(n)|
    case Based(_, o) => 1 + |SlebBytes(o)|
    case BasedX(n, o) => 1 + |UlebBytes(n)| + |SlebBytes(o)|
    case Un(op, e1) => Size(e1) + |EncodeOp(UnaryCode(op, 0))|
    case Bin(_, a, b) => Size(a) + Size(b) + 1
    case Cond(c, yes, no) => Size(c) + 3 + Size(no) + 3 + Size(yes) + 1
  }

  predicate Writable(e: Expr) {
    match e
    case Un(op, e1) => Printable(UnaryCode(op, 0)) && Writable(e1)
    case Bin(_, a, b) => Writable(a) && Writable(b)
    case Cond(c, yes, no) => Writable(c) && Writable(yes) && Writable(no) && Size(no) + 3 < 0x8000 && Size(yes) < 0x8000
    case _ => LeafWritable(e)
  }

  /** Operands first; a conditional branches over its second part to its first, and a nop ends both. */
  function Code(e: Expr, at: nat): (ops: seq<Op>)
    requires Writable(e) && at + Size(e) < TWO64
    ensures ops != []
  {
    match e
    case Un(op, e1) => Code(e1, at) + [UnaryCode(op, at + Size(e1))]
    case Bin(op, a, b) => Code(a, at) + Code(b, at + Size(a)) + [Op(BinaryCode(op), 0, 0, at + Size(a) + Size(b))]
    case Cond(c, yes, no) =>
      var bra := at + Size(c);
      var skip := bra + 3 + Size(no);
      var end := skip + 3 + Size(yes);
      Code(c, at) + [Op(0x28, Size(no) + 3, 0, bra)] + Code(no, bra + 3) + [Op(0x2f, Size(yes), 0, skip)]
      + Code(yes, skip + 3) + [Op(0x96, 0, 0, end)]
    case _ => [LeafCode(e, at)]
  }

  // ----- the list is what its bytes decode to -----

  lemma {:induction false} EncodeConcat(a: seq<Op>, b: seq<Op>)
    ensures EncodeOps(a + b) == EncodeOps(a) + EncodeOps(b)
  {
    hide EncodeOp;
    if a == [] {
      assert a + b == b;
    } else {
      assert (a + b)[0] == a[0] && (a + b)[1..] == a[1..] + b;
      EncodeConcat(a[1..], b);
    }
  }

  lemma {:induction false} PlacedConcat(a: seq<Op>, b: seq<Op>, pos: nat)
    requires Placed(a, pos) && Placed(b, pos + |EncodeOps(a)|)
    ensures Placed(a + b, pos)
    decreases |a|
  {
    hide EncodeOp, Printable;
    if a == [] {
      assert a + b == b;
    } else {
      assert (a + b)[0] == a[0] && (a + b)[1..] == a[1..] + b;
      PlacedConcat(a[1..], b, pos + |EncodeOp(a[0])|);
    }
  }

  /** A list laid out from `pos` that takes `size` bytes. */
  ghost predicate Takes(ops: seq<Op>, pos: nat, size: nat) {
    Placed(ops, pos) && |EncodeOps(ops)| == size
  }

  lemma TakesConcat(a: seq<Op>, b: seq<Op>, pos: nat, m: nat, n: nat)
    requires Takes(a, pos, m) && Takes(b, pos + m, n)
    ensures Takes(a + b, pos, m + n)
  {
    hide Placed, EncodeOps;
    EncodeConcat(a, b);
    PlacedConcat(a, b, pos);
  }

  lemma TakesOne(op: Op, pos: nat)
    requires Printable(op) && op.offset == pos
    ensures Takes([op], pos, |EncodeOp(op)|)
  {
    hide EncodeOp, Printable;
    assert [op][1..] == [] && Placed([], pos + |EncodeOp(op)|);
    assert EncodeOps([op]) == EncodeOp(op) + EncodeOps([]) == EncodeOp(op);
  }

  lemma LeafTakes(e: Expr, at: nat)
    requires IsLeaf(e) && LeafWritable(e) && at + Size(e) < TWO64
    ensures Takes([LeafCode(e, at)], at, Size(e))
  {
    hide Takes, UlebBytes, SlebBytes, Bytes64, Bytes32, Bytes16;
    if e.Based? || e.BasedX? {
      SlebOperand(e.offset);
    }
    TakesOne(LeafCode(e, at), at);
  }

  lemma SlebOperand(n: int)
    requires -0x4000_0000_0000_0000 <= n < TWO63
    ensures Encode(Sleb, Unsigned(n)) == SlebBytes(n) && Encodable(Sleb, Unsigned(n))
  {
    hide SlebBytes;
    assert Signed(Unsigned(n)) == n;
  }

  lemma {:induction false} CodeTakes(e: Expr, at: nat)
    requires Writable(e) && at + Size(e) < TWO64
    ensures Takes(Code(e, at), at, Size(e))
    decreases e
  {
    hide Takes, EncodeOp, Printable;
    match e {
      case Un(op, e1) =>
        CodeTakes(e1, at);
        UnaryTakes(op, at + Size(e1));
        TakesConcat(Code(e1, at), [UnaryCode(op, at + Size(e1))], at, Size(e1), |EncodeOp(UnaryCode(op, 0))|);
      case Bin(op, a, b) =>
        CodeTakes(a, at);
        CodeTakes(b, at + Size(a));
        BinTakes(op, Code(a, at), Code(b, at + Size(a)), at, Size(a), Size(b));
      case Cond(c, yes, no) => CondTakes(e, at);
      case _ => LeafTakes(e, at);
    }
  }

  lemma BinTakes(op: BinaryOp, a: seq<Op>, b: seq<Op>, at: nat, m: nat, n: nat)
    requires at + m + n < TWO64 && Takes(a, at, m) && Takes(b, at + m, n)
    ensures Takes(a + b + [Op(BinaryCode(op), 0, 0, at + m + n)], at, m + n + 1)
  {
    hide Takes, BinaryCode;
    TakesConcat(a, b, at, m, n);
    BinaryTakes(op, at + m + n);
    TakesConcat(a + b, [Op(BinaryCode(op), 0, 0, at + m + n)], at, m + n, 1);
  }

  lemma UnaryTakes(op: UnaryOp, at: Word)
    requires Printable(UnaryCode(op, 0))
    ensures Takes([UnaryCode(op, at)], at, |EncodeOp(UnaryCode(op, 0))|)
  {
    hide Takes, Encode, Encodable;
    TakesOne(UnaryCode(op, at), at);
  }

  lemma BinaryTakes(op: BinaryOp, at: Word)
    ensures Takes([Op(BinaryCode(op), 0, 0, at)], at, 1)
  {
    hide Takes, Layout;
    PlainLayout(BinaryCode(op));
    TakesOne(Op(BinaryCode(op), 0, 0, at), at);
  }

  lemma PlainLayout(atom: Byte)
    requires 0x16 <= atom < 0x70 && atom != 0x23 && atom != 0x28 && atom != 0x2f
    ensures Layout(atom) == Some([])
  {
  }

  lemma BranchTakes(atom: Byte, n: Word, at: Word)
    requires atom in {0x28, 0x2f} && n < 0x8000
    ensures Takes([Op(atom, n, 0, at)], at, 3)
  {
    hide Takes, Bytes16;
    TakesOne(Op(atom, n, 0, at), at);
  }

  lemma NopTakes(at: Word)
    ensures Takes([Op(0x96, 0, 0, at)], at, 1)
  {
    hide Takes;
    TakesOne(Op(0x96, 0, 0, at), at);
  }

  lemma TakesSix(a: seq<Op>, b: seq<Op>, c: seq<Op>, d: seq<Op>, e: seq<Op>, f: seq<Op>, at: nat, m: nat, n: nat, k: nat)
    requires Takes(a, at, m) && Takes(b, at + m, 3) && Takes(c, at + m + 3, n) && Takes(d, at + m + 3 + n, 3)
    requires Takes(e, at + m + 3 + n + 3, k) && Takes(f, at + m + 3 + n + 3 + k, 1)
    ensures Takes(a + b + c + d + e + f, at, m + 3 + n + 3 + k + 1)
  {
    hide *;
    TakesConcat(a, b, at, m, 3);
    TakesConcat(a + b, c, at, m + 3, n);
    TakesConcat(a + b + c, d, at, m + 3 + n, 3);
    TakesConcat(a + b + c + d, e, at, m + 3 + n + 3, k);
    TakesConcat(a + b + c + d + e, f, at, m + 3 + n + 3 + k, 1);
  }

  lemma {:induction false} CondTakes(e: Expr, at: nat)
    requires e.Cond? && Writable(e) && at + Size(e) < TWO64
    ensures Takes(Code(e, at), at, Size(e))
    decreases e, 0
  {
    hide Takes, EncodeOp, Printable, Code, Writable;
    CondCode(e, at);
    var c, yes, no := e.c, e.yes, e.no;
    var bra := at + Size(c);
    var skip := bra + 3 + Size(no);
    var end := skip + 3 + Size(yes);
    CodeTakes(c, at);
    CodeTakes(no, bra + 3);
    CodeTakes(yes, skip + 3);
    BranchTakes(0x28, Size(no) + 3, bra);
    BranchTakes(0x2f, Size(yes), skip);
    NopTakes(end);
    TakesSix(Code(c, at), [Op(0x28, Size(no) + 3, 0, bra)], Code(no, bra + 3), [Op(0x2f, Size(yes), 0, skip)],
             Code(yes, skip + 3), [Op(0x96, 0, 0, end)], at, Size(c), Size(no), Size(yes));
  }

  // ----- runs -----

  /** A list, the end of its block, and what it is evaluated on. */
  datatype World = World(ops: seq<Op>, end: Word, snap: Snapshot, bias: Word, cfa: Outcome)

  predicate Leaves(w: World, m: Machine)
    requires m.pc < |w.ops|
  {
    Taken(w.ops[m.pc], m.stack) && Target(w.ops[m.pc]) == w.end
  }

  function StepIn(w: World, m: Machine): Step
    requires m.pc < |w.ops|
  {
    StepOf(w.ops, w.snap, w.bias, w.cfa, m)
  }

  /** The machine after `n` steps inside the block. */
  function Path(w: World, m: Machine, n: nat): Option<Machine>
    decreases n
  {
    if n == 0 then Some(m)
    else if m.pc >= |w.ops| || Leaves(w, m) then None
    else match StepIn(w, m)
      case Stop(_) => None
      case Next(m') => Path(w, m', n - 1)
  }

  lemma {:induction false} PathConcat(w: World, m: Machine, a: nat, m1: Machine, b: nat)
    requires Path(w, m, a) == Some(m1)
    ensures Path(w, m, a + b) == Path(w, m1, b)
    decreases a
  {
    hide StepIn, Leaves;
    if a > 0 {
      PathConcat(w, StepIn(w, m).m, a - 1, m1, b);
    }
  }

  lemma PathOne(w: World, m: Machine, n: nat, m1: Machine, m2: Machine)
    requires Path(w, m, n) == Some(m1) && m1.pc < |w.ops| && !Leaves(w, m1) && StepIn(w, m1) == Next(m2)
    ensures Path(w, m, n + 1) == Some(m2)
  {
    hide StepIn, Leaves;
    PathConcat(w, m, n, m1, 1);
    assert Path(w, m2, 0) == Some(m2);
  }

  /** The machine stops at `m` with `out`. */
  predicate Halts(w: World, m: Machine, out: Outcome) {
    m.pc < |w.ops| && !Leaves(w, m) && StepIn(w, m) == Stop(out)
  }

  /** From `m` on, `len` operations push a value, or one of them stops the machine. */
  ghost predicate Computes(w: World, m: Machine, len: nat, out: Outcome, n: nat, stop: Machine) {
    match out
    case Value(v) => n <= len && Path(w, m, n) == Some(Machine(m.pc + len, m.stack + [v], m.location))
    case _ => n < len && Path(w, m, n) == Some(stop) && Halts(w, stop, out)
  }

  /** Offsets rise and stay below the end of the block. */
  ghost predicate Sound(w: World) {
    Ascending(w.ops) && forall i :: 0 <= i < |w.ops| ==> w.ops[i].offset < w.end
  }

  ghost predicate Holds(w: World, i: nat, l: seq<Op>) {
    i + |l| <= |w.ops| && forall k :: 0 <= k < |l| ==> w.ops[i + k] == l[k]
  }

  lemma HoldsParts(w: World, i: nat, a: seq<Op>, b: seq<Op>)
    requires Holds(w, i, a + b)
    ensures Holds(w, i, a) && Holds(w, i + |a|, b)
  {
    forall k | 0 <= k < |a| ensures w.ops[i + k] == a[k] {
      assert (a + b)[k] == a[k];
    }
    forall k | 0 <= k < |b| ensures w.ops[i + |a| + k] == b[k] {
      assert (a + b)[|a| + k] == b[k];
    }
  }

  // ----- single operations -----

  lemma LeafPushes(e: Expr, at: Word, snap: Snapshot, bias: Word, depth: nat)
    requires IsLeaf(e) && LeafWritable(e)
    ensures KindOf(LeafCode(e, at).atom) == Pushes
    ensures Meaning(e, snap, bias, depth) == match PushedValue(LeafCode(e, at), snap, bias)
                                             case None => Failed
                                             case Some(v) => if depth < 256 then Value(v) else Failed
  {
    hide Printable, Unsigned;
    match e {
      case Literal(n) => SmallUnsigned(n);
      case Constant(_, v) => SmallUnsigned(v);
      case Address(a) => OffsetAdds(a, bias); SmallUnsigned(bias);
      case Register(n) => BasePlus(snap, n, 0);
      case RegisterX(n) => SmallInt(n); BasePlus(snap, n, 0);
      case Based(n, o) => BasePlus(snap, n, o);
      case BasedX(n, o) => SmallInt(n); BasePlus(snap, n, o);
    }
  }

  lemma SmallUnsigned(n: Word)
    ensures Unsigned(n) == n
  {
  }

  lemma SmallInt(n: nat)
    requires n < 0x8000_0000
    ensures ToInt32(n) == n
  {
  }

  /** A register with an offset, as the machine adds it. */
  lemma BasePlus(snap: Snapshot, n: nat, o: int)
    ensures n < |snap.regs| ==> Unsigned(snap.regs[n] as int + o) == Add(snap.regs[n], Unsigned(o))
    ensures n < |snap.regs| && o == 0 ==> Add(snap.regs[n], Unsigned(o)) == snap.regs[n]
  {
    if n < |snap.regs| {
      OffsetAdds(snap.regs[n], o);
    }
  }

  lemma LeafStep(w: World, m: Machine, e: Expr, at: Word)
    requires IsLeaf(e) && LeafWritable(e) && m.pc < |w.ops| && w.ops[m.pc] == LeafCode(e, at)
    ensures !Leaves(w, m)
    ensures StepIn(w, m) == match Meaning(e, w.snap, w.bias, |m.stack|)
                            case Value(v) => Next(Machine(m.pc + 1, m.stack + [v], m.location))
                            case out => Stop(out)
  {
    LeafPushes(e, at, w.snap, w.bias, |m.stack|);
    hide Printable, Target, Meaning, PushedValue, LeafCode, LeafWritable;
  }

  lemma OffsetAdds(v: Word, o: int)
    ensures Add(v, Unsigned(o)) == Unsigned(v + o)
  {
    var q := o / TWO64;
    assert o == Unsigned(o) + q * TWO64;
    SameModulo(v + Unsigned(o), q);
  }

  lemma SameModulo(a: int, k: int)
    ensures Unsigned(a + k * TWO64) == Unsigned(a)
  {
    DivModUnique(a + k * TWO64, TWO64, a / TWO64 + k, a % TWO64);
  }

  lemma UnaryValues(op: UnaryOp, v: Word, at: Word, snap: Snapshot)
    requires !op.Deref? && !op.DerefSize?
    ensures KindOf(UnaryCode(op, at).atom) == Unary
    ensures UnaryMeaning(op, v, snap) == Value(UnaryValue(UnaryCode(op, at), v))
  {
  }

  lemma UnaryStep(w: World, m: Machine, op: UnaryOp, at: Word, s: seq<Word>, v: Word)
    requires m.pc < |w.ops| && w.ops[m.pc] == UnaryCode(op, at) && m.stack == s + [v] && |s| < 256
    ensures !Leaves(w, m)
    ensures StepIn(w, m) == match UnaryMeaning(op, v, w.snap)
                            case Value(x) => Next(Machine(m.pc + 1, s + [x], m.location))
                            case out => Stop(out)
  {
    hide Target, UnaryValue, ReadStack, LowBytes;
    assert m.stack[..|s|] == s && m.stack[|s|] == v;
    if !op.Deref? && !op.DerefSize? {
      UnaryValues(op, v, at, w.snap);
    }
  }

  lemma BinaryValues(op: BinaryOp, a: Word, b: Word)
    ensures KindOf(BinaryCode(op)) == Binary
    ensures BinaryMeaning(op, a, b) == BinaryValue(BinaryCode(op), a, b)
  {
    hide Bitwise, Pow2, TruncatedDiv;
  }

  lemma BinaryStep(w: World, m: Machine, op: BinaryOp, at: Word, s: seq<Word>, a: Word, b: Word)
    requires m.pc < |w.ops| && w.ops[m.pc] == Op(BinaryCode(op), 0, 0, at) && m.stack == s + [a] + [b] && |s| < 256
    ensures !Leaves(w, m)
    ensures StepIn(w, m) == match BinaryMeaning(op, a, b)
                            case Some(x) => Next(Machine(m.pc + 1, s + [x], m.location))
                            case None => Stop(Failed)
  {
    BinaryValues(op, a, b);
    hide Target, BinaryValue, BinaryMeaning, BinaryCode;
    assert m.stack[..|s|] == s && m.stack[|s|] == a && m.stack[|s| + 1] == b;
  }

  /** An operation that a branch of `n` bytes from `op` meets. */
  lemma BranchMeets(w: World, op: Op, n: nat, k: nat)
    requires Sound(w) && op.number == n < 0x8000 && k < |w.ops| && w.ops[k].offset == op.offset + 3 + n
    ensures Target(op) == w.ops[k].offset && Target(op) != w.end
    ensures BSearch(w.ops, Target(op), 0, |w.ops|) == Some(k)
  {
    hide BSearch;
    assert ToInt16(n) == n;
    BranchExact(w.ops, w.ops[k].offset, k);
  }

  lemma BraStep(w: World, m: Machine, n: nat, s: seq<Word>, v: Word, k: nat)
    requires Sound(w) && m.pc < |w.ops| && m.stack == s + [v]
    requires w.ops[m.pc].atom == 0x28 && w.ops[m.pc].number == n < 0x8000
    requires k < |w.ops| && w.ops[k].offset == w.ops[m.pc].offset + 3 + n
    ensures !Leaves(w, m)
    ensures StepIn(w, m) == Next(Machine(if v == 0 then m.pc + 1 else k, s, m.location))
  {
    BranchMeets(w, w.ops[m.pc], n, k);
    hide Target, BSearch, Sound, EffectOf;
    assert m.stack[..|s|] == s && m.stack[|s|] == v;
  }

  lemma SkipStep(w: World, m: Machine, n: nat, k: nat)
    requires Sound(w) && m.pc < |w.ops| && w.ops[m.pc].atom == 0x2f && w.ops[m.pc].number == n < 0x8000
    requires k < |w.ops| && w.ops[k].offset == w.ops[m.pc].offset + 3 + n
    ensures !Leaves(w, m)
    ensures StepIn(w, m) == Next(Machine(k, m.stack, m.location))
  {
    BranchMeets(w, w.ops[m.pc], n, k);
    hide Target, BSearch, Sound, EffectOf;
  }

  lemma NopStep(w: World, m: Machine)
    requires m.pc < |w.ops| && w.ops[m.pc].atom == 0x96
    ensures !Leaves(w, m)
    ensures StepIn(w, m) == Next(Machine(m.pc + 1, m.stack, m.location))
  {
    hide Target;
  }

  // ----- compiled expressions -----

  /** A value was pushed, so there was room for it. */
  lemma {:induction false} MeaningFits(e: Expr, snap: Snapshot, bias: Word, depth: nat)
    ensures Meaning(e, snap, bias, depth).Value? ==> depth < 256
  {
    hide UnaryMeaning, BinaryMeaning;
    match e {
      case Un(_, e1) => MeaningFits(e1, snap, bias, depth);
      case Bin(_, a, _) => MeaningFits(a, snap, bias, depth);
      case Cond(c, _, _) => MeaningFits(c, snap, bias, depth);
      case _ =>
    }
  }

  lemma CodeStart(e: Expr, at: nat)
    requires Writable(e) && at + Size(e) < TWO64
    ensures Code(e, at)[0].offset == at
  {
    hide Code;
    CodeTakes(e, at);
  }

  /** What computes nothing at first computes nothing at all. */
  lemma StopsEarly(w: World, m: Machine, len: nat, more: nat, out: Outcome, n: nat, stop: Machine)
    requires Computes(w, m, len, out, n, stop) && !out.Value? && len <= more
    ensures Computes(w, m, more, out, n, stop)
  {
    hide Path, Halts;
  }

  /** The parts of a compiled unary operation. */
  lemma UnHolds(w: World, i: nat, e: Expr, at: nat)
    requires e.Un? && Writable(e) && at + Size(e) < TWO64 && Holds(w, i, Code(e, at))
    ensures Writable(e.e) && at + Size(e.e) < 0x1_0000_0000_0000_0000 == TWO64
    ensures var l := Code(e.e, at);
            && |Code(e, at)| == |l| + 1 && Holds(w, i, l)
            && i + |l| < |w.ops| && w.ops[i + |l|] == UnaryCode(e.op, at + Size(e.e))
  {
    hide Holds, UnaryCode, Code, Size, Writable;
    UnCode(e, at);
    HoldsParts(w, i, Code(e.e, at), [UnaryCode(e.op, at + Size(e.e))]);
    HoldsFirst(w, i + |Code(e.e, at)|, [UnaryCode(e.op, at + Size(e.e))]);
  }

  lemma UnCode(e: Expr, at: nat)
    requires e.Un? && Writable(e) && at + Size(e) < TWO64
    ensures Writable(e.e) && at + Size(e.e) < 0x1_0000_0000_0000_0000 == TWO64
    ensures Code(e, at) == Code(e.e, at) + [UnaryCode(e.op, at + Size(e.e))]
  {
    hide LeafCode, LeafWritable, UnaryCode, BinaryCode, EncodeOp, Printable;
    assert Size(e) == Size(e.e) + |EncodeOp(UnaryCode(e.op, 0))|;
  }

  lemma HoldsFirst(w: World, i: nat, l: seq<Op>)
    requires Holds(w, i, l) && l != []
    ensures i < |w.ops| && w.ops[i] == l[0]
  {
    assert w.ops[i + 0] == l[0];
  }

  lemma ComputesValue(w: World, m: Machine, len: nat, out: Outcome, n: nat, stop: Machine)
    requires Computes(w, m, len, out, n, stop) && out.Value?
    ensures n <= len && Path(w, m, n) == Some(Machine(m.pc + len, m.stack + [out.value], m.location))
  {
    hide Path;
  }

  lemma UnMeaning(e: Expr, snap: Snapshot, bias: Word, depth: nat)
    requires e.Un?
    ensures var v := Meaning(e.e, snap, bias, depth);
            Meaning(e, snap, bias, depth) == if v.Value? then UnaryMeaning(e.op, v.value, snap) else v
  {
    hide UnaryMeaning;
  }

  lemma BinMeaning(e: Expr, snap: Snapshot, bias: Word, depth: nat)
    requires e.Bin?
    ensures var x, y := Meaning(e.a, snap, bias, depth), Meaning(e.b, snap, bias, depth + 1);
            Meaning(e, snap, bias, depth) ==
            if !x.Value? then x else if !y.Value? then y
            else match BinaryMeaning(e.operator, x.value, y.value) case Some(v) => Value(v) case None => Failed
  {
    hide BinaryMeaning;
  }

  lemma CondMeaning(e: Expr, snap: Snapshot, bias: Word, depth: nat)
    requires e.Cond?
    ensures var v := Meaning(e.c, snap, bias, depth);
            Meaning(e, snap, bias, depth)
            == if !v.Value? then v else Meaning(if v.value == 0 then e.no else e.yes, snap, bias, depth)
  {
  }

  lemma {:induction false} UnRuns(w: World, m: Machine, e: Expr, at: nat) returns (n: nat, stop: Machine)
    requires e.Un? && Writable(e) && at + Size(e) < TWO64 && Sound(w) && Holds(w, m.pc, Code(e, at))
    ensures Computes(w, m, |Code(e, at)|, Meaning(e, w.snap, w.bias, |m.stack|), n, stop)
    decreases e, 0
  {
    hide *;
    UnHolds(w, m.pc, e, at);
    UnMeaning(e, w.snap, w.bias, |m.stack|);
    var l := Code(e.e, at);
    n, stop := ExprRuns(w, m, e.e, at);
    MeaningFits(e.e, w.snap, w.bias, |m.stack|);
    var v := Meaning(e.e, w.snap, w.bias, |m.stack|);
    if v.Value? {
      ComputesValue(w, m, |l|, v, n, stop);
      stop := Machine(m.pc + |l|, m.stack + [v.value], m.location);
      UnaryStep(w, stop, e.op, at + Size(e.e), m.stack, v.value);
      n := Finished(w, m, n, stop, |l| + 1, UnaryMeaning(e.op, v.value, w.snap));
    } else {
      StopsEarly(w, m, |l|, |l| + 1, v, n, stop);
    }
  }

  /** One more operation decides. */
  lemma Finished(w: World, m: Machine, n: nat, m1: Machine, len: nat, out: Outcome) returns (k: nat)
    requires Path(w, m, n) == Some(m1) && n < len && m1.pc < |w.ops| && !Leaves(w, m1)
    requires StepIn(w, m1) == match out
                              case Value(x) => Next(Machine(m.pc + len, m.stack + [x], m.location))
                              case _ => Stop(out)
    ensures Computes(w, m, len, out, k, m1)
  {
    hide StepIn, Leaves;
    k := n;
    if out.Value? {
      PathOne(w, m, n, m1, Machine(m.pc + len, m.stack + [out.value], m.location));
      k := n + 1;
    }
  }

  /** The parts of a compiled binary operation. */
  lemma BinHolds(w: World, i: nat, e: Expr, at: nat)
    requires e.Bin? && Writable(e) && at + Size(e) < TWO64 && Holds(w, i, Code(e, at))
    ensures Writable(e.a) && Writable(e.b) && at + Size(e.a) + Size(e.b) < TWO64
    ensures var la, lb := Code(e.a, at), Code(e.b, at + Size(e.a));
            && |Code(e, at)| == |la| + |lb| + 1 && Holds(w, i, la) && Holds(w, i + |la|, lb)
            && i + |la| + |lb| < |w.ops|
            && w.ops[i + |la| + |lb|] == Op(BinaryCode(e.operator), 0, 0, at + Size(e.a) + Size(e.b))
  {
    hide Holds, BinaryCode, Code, Size, Writable;
    BinCode(e, at);
    var la, lb := Code(e.a, at), Code(e.b, at + Size(e.a));
    var last := [Op(BinaryCode(e.operator), 0, 0, at + Size(e.a) + Size(e.b))];
    HoldsParts(w, i, la + lb, last);
    HoldsParts(w, i, la, lb);
    HoldsFirst(w, i + |la| + |lb|, last);
  }

  lemma BinCode(e: Expr, at: nat)
    requires e.Bin? && Writable(e) && at + Size(e) < TWO64
    ensures Writable(e.a) && Writable(e.b) && at + Size(e.a) + Size(e.b) < TWO64
    ensures Code(e, at) == Code(e.a, at) + Code(e.b, at + Size(e.a))
                           + [Op(BinaryCode(e.operator), 0, 0, at + Size(e.a) + Size(e.b))]
  {
    hide LeafCode, LeafWritable, UnaryCode, BinaryCode, EncodeOp, Printable;
  }

  lemma {:induction false} BinRuns(w: World, m: Machine, e: Expr, at: nat) returns (n: nat, stop: Machine)
    requires e.Bin? && Writable(e) && at + Size(e) < TWO64 && Sound(w) && Holds(w, m.pc, Code(e, at))
    ensures Computes(w, m, |Code(e, at)|, Meaning(e, w.snap, w.bias, |m.stack|), n, stop)
    decreases e, 0
  {
    hide *;
    BinHolds(w, m.pc, e, at);
    BinMeaning(e, w.snap, w.bias, |m.stack|);
    var la, lb := Code(e.a, at), Code(e.b, at + Size(e.a));
    n, stop := ExprRuns(w, m, e.a, at);
    MeaningFits(e.a, w.snap, w.bias, |m.stack|);
    var x := Meaning(e.a, w.snap, w.bias, |m.stack|);
    if !x.Value? {
      StopsEarly(w, m, |la|, |la| + |lb| + 1, x, n, stop);
      return;
    }
    ComputesValue(w, m, |la|, x, n, stop);
    var m1 := Machine(m.pc + |la|, m.stack + [x.value], m.location);
    var n2, stop2 := ExprRuns(w, m1, e.b, at + Size(e.a));
    var y := Meaning(e.b, w.snap, w.bias, |m.stack| + 1);
    if !y.Value? {
      Resumed(w, m, n, m1, |lb|, y, n2, stop2, |la| + |lb| + 1);
      n, stop := n + n2, stop2;
    } else {
      ComputesValue(w, m1, |lb|, y, n2, stop2);
      PathConcat(w, m, n, m1, n2);
      stop := Machine(m1.pc + |lb|, m1.stack + [y.value], m.location);
      BinaryStep(w, stop, e.operator, at + Size(e.a) + Size(e.b), m.stack, x.value, y.value);
      n := Finished(w, m, n + n2, stop, |la| + |lb| + 1, Meaning(e, w.snap, w.bias, |m.stack|));
    }
  }

  /** A part of a run that stops the machine stops the whole. */
  lemma Resumed(w: World, m: Machine, n: nat, m1: Machine, len1: nat, out: Outcome, n1: nat, stop: Machine, len: nat)
    requires Path(w, m, n) == Some(m1) && Computes(w, m1, len1, out, n1, stop) && !out.Value? && n + len1 <= len
    ensures Computes(w, m, len, out, n + n1, stop)
  {
    hide Path, Halts;
    PathConcat(w, m, n, m1, n1);
  }

  /** The parts of a compiled conditional. */
  lemma CondHolds(w: World, i: nat, e: Expr, at: nat)
    requires e.Cond? && Writable(e) && at + Size(e) < TWO64 && Holds(w, i, Code(e, at))
    ensures Writable(e.c) && Writable(e.yes) && Writable(e.no) && Size(e.no) + 3 < 0x8000 && Size(e.yes) < 0x8000
    ensures at + Size(e.c) + 3 + Size(e.no) + 3 + Size(e.yes) < TWO64
    ensures var bra := at + Size(e.c);
            var skip := bra + 3 + Size(e.no);
            var lc, ln, ly := Code(e.c, at), Code(e.no, bra + 3), Code(e.yes, skip + 3);
            && |Code(e, at)| == |lc| + |ln| + |ly| + 3
            && SixHold(w, i, lc, Op(0x28, Size(e.no) + 3, 0, bra), ln, Op(0x2f, Size(e.yes), 0, skip), ly,
                       Op(0x96, 0, 0, skip + 3 + Size(e.yes)))
  {
    hide Holds, SixHold, Code, Size, Writable;
    CondCode(e, at);
    var bra := at + Size(e.c);
    var skip := bra + 3 + Size(e.no);
    SixParts(w, i, Code(e.c, at), Op(0x28, Size(e.no) + 3, 0, bra), Code(e.no, bra + 3),
             Op(0x2f, Size(e.yes), 0, skip), Code(e.yes, skip + 3), Op(0x96, 0, 0, skip + 3 + Size(e.yes)));
  }

  lemma CondCode(e: Expr, at: nat)
    requires e.Cond? && Writable(e) && at + Size(e) < TWO64
    ensures Writable(e.c) && Writable(e.yes) && Writable(e.no) && Size(e.no) + 3 < 0x8000 && Size(e.yes) < 0x8000
    ensures at + Size(e.c) + 3 + Size(e.no) + 3 + Size(e.yes) < TWO64
    ensures var bra := at + Size(e.c);
            var skip := bra + 3 + Size(e.no);
            Code(e, at) == Code(e.c, at) + [Op(0x28, Size(e.no) + 3, 0, bra)] + Code(e.no, bra + 3)
                           + [Op(0x2f, Size(e.yes), 0, skip)] + Code(e.yes, skip + 3)
                           + [Op(0x96, 0, 0, skip + 3 + Size(e.yes))]
  {
    hide LeafCode, LeafWritable, UnaryCode, BinaryCode, EncodeOp, Printable;
  }

  ghost predicate SixHold(w: World, i: nat, lc: seq<Op>, bra: Op, ln: seq<Op>, skip: Op, ly: seq<Op>, nop: Op) {
    var atSkip, atNop := i + |lc| + 1 + |ln|, i + |lc| + 1 + |ln| + 1 + |ly|;
    && atNop < |w.ops| && w.ops[i + |lc|] == bra && w.ops[atSkip] == skip && w.ops[atNop] == nop
    && Holds(w, i, lc) && Holds(w, i + |lc| + 1, ln) && Holds(w, atSkip + 1, ly)
  }

  lemma SixParts(w: World, i: nat, lc: seq<Op>, bra: Op, ln: seq<Op>, skip: Op, ly: seq<Op>, nop: Op)
    requires Holds(w, i, lc + [bra] + ln + [skip] + ly + [nop])
    ensures SixHold(w, i, lc, bra, ln, skip, ly, nop)
  {
    hide Holds;
    HoldsParts(w, i, lc + [bra] + ln + [skip] + ly, [nop]);
    HoldsParts(w, i, lc + [bra] + ln + [skip], ly);
    HoldsParts(w, i, lc + [bra] + ln, [skip]);
    HoldsParts(w, i, lc + [bra], ln);
    HoldsParts(w, i, lc, [bra]);
    HoldsFirst(w, i + |lc|, [bra]);
    HoldsFirst(w, i + |lc| + 1 + |ln|, [skip]);
    HoldsFirst(w, i + |lc| + 1 + |ln| + 1 + |ly|, [nop]);
  }

  /** The parts of a compiled conditional in the list of `w`. */
  ghost predicate CondAt(w: World, i: nat, e: Expr, at: nat, lc: seq<Op>, ln: seq<Op>, ly: seq<Op>, bra: nat, skip: nat)
    requires e.Cond?
  {
    var atSkip, atNop := i + |lc| + 1 + |ln|, i + |lc| + 1 + |ln| + 1 + |ly|;
    && Writable(e.c) && Writable(e.yes) && Writable(e.no) && Size(e.no) + 3 < 0x8000 && Size(e.yes) < 0x8000
    && at + Size(e.c) < TWO64 && bra + 3 + Size(e.no) < TWO64 && skip + 3 + Size(e.yes) < TWO64
    && lc == Code(e.c, at) && ln == Code(e.no, bra + 3) && ly == Code(e.yes, skip + 3)
    && Holds(w, i, lc) && Holds(w, i + |lc| + 1, ln) && Holds(w, atSkip + 1, ly) && atNop < |w.ops|
    && BranchAt(w, i + |lc|, 0x28, Size(e.no) + 3, atSkip + 1) && BranchAt(w, atSkip, 0x2f, Size(e.yes), atNop)
    && w.ops[atNop].atom == 0x96
  }

  /** Operation `i` branches `n` bytes forward, which is to operation `k`. */
  predicate BranchAt(w: World, i: nat, atom: Byte, n: nat, k: nat) {
    && i < |w.ops| && k < |w.ops| && n < 0x8000 && w.ops[i].atom == atom && w.ops[i].number == n
    && w.ops[k].offset == w.ops[i].offset + 3 + n
  }

  lemma CondParts(w: World, i: nat, e: Expr, at: nat) returns (lc: seq<Op>, ln: seq<Op>, ly: seq<Op>, bra: nat, skip: nat)
    requires e.Cond? && Writable(e) && at + Size(e) < TWO64 && Holds(w, i, Code(e, at))
    ensures CondAt(w, i, e, at, lc, ln, ly, bra, skip) && |Code(e, at)| == |lc| + |ln| + |ly| + 3
  {
    hide Code, Size, Writable, Holds;
    CondHolds(w, i, e, at);
    bra := at + Size(e.c);
    skip := bra + 3 + Size(e.no);
    lc, ln, ly := Code(e.c, at), Code(e.no, bra + 3), Code(e.yes, skip + 3);
    CodeStart(e.yes, skip + 3);
    HoldsFirst(w, i + |lc| + 1 + |ln| + 1, ly);
  }

  lemma {:induction false} CondRuns(w: World, m: Machine, e: Expr, at: nat) returns (n: nat, stop: Machine)
    requires e.Cond? && Writable(e) && at + Size(e) < TWO64 && Sound(w) && Holds(w, m.pc, Code(e, at))
    ensures Computes(w, m, |Code(e, at)|, Meaning(e, w.snap, w.bias, |m.stack|), n, stop)
    decreases e, 0
  {
    hide Sound, Path, Halts, Code, Size, Writable, Holds, Computes, Meaning, BranchAt;
    var lc, ln, ly, bra, skip := CondParts(w, m.pc, e, at);
    CondMeaning(e, w.snap, w.bias, |m.stack|);
    n, stop := ExprRuns(w, m, e.c, at);
    var v := Meaning(e.c, w.snap, w.bias, |m.stack|);
    if !v.Value? {
      StopsEarly(w, m, |lc|, |lc| + |ln| + |ly| + 3, v, n, stop);
      return;
    }
    ComputesValue(w, m, |lc|, v, n, stop);
    var start := Machine(m.pc + |lc| + (if v.value == 0 then 1 else |ln| + 2), m.stack, m.location);
    Branches(w, m, n, |lc|, v.value, Size(e.no) + 3, start, m.pc + |lc| + 1 + |ln| + 1);
    if v.value == 0 {
      var n2, stop2 := ExprRuns(w, start, e.no, bra + 3);
      n, stop := PartRuns(w, m, n + 1, start, |ln|, Meaning(e.no, w.snap, w.bias, |m.stack|), n2, stop2,
                          |lc| + 1 + |ln|, Size(e.yes), |lc| + |ln| + |ly| + 3);
    } else {
      var n2, stop2 := ExprRuns(w, start, e.yes, skip + 3);
      n, stop := PartRuns(w, m, n + 1, start, |ly|, Meaning(e.yes, w.snap, w.bias, |m.stack|), n2, stop2,
                          |lc| + 1 + |ln|, Size(e.yes), |lc| + |ln| + |ly| + 3);
    }
  }

  lemma Branches(w: World, m: Machine, n: nat, lc: nat, v: Word, size: nat, start: Machine, k: nat)
    requires Sound(w) && Path(w, m, n) == Some(Machine(m.pc + lc, m.stack + [v], m.location))
    requires BranchAt(w, m.pc + lc, 0x28, size, k)
    requires start == Machine(if v == 0 then m.pc + lc + 1 else k, m.stack, m.location)
    ensures Path(w, m, n + 1) == Some(start)
  {
    hide Sound, Path, Leaves, StepIn;
    var m1 := Machine(m.pc + lc, m.stack + [v], m.location);
    BraStep(w, m1, size, m.stack, v, k);
    PathOne(w, m, n, m1, start);
  }

  /** After the branch, one of the parts decides. */
  lemma PartRuns(w: World, m: Machine, n: nat, start: Machine, lp: nat, out: Outcome, n2: nat, stop2: Machine,
                 skip: nat, size: nat, len: nat) returns (k: nat, stop: Machine)
    requires Sound(w) && Path(w, m, n) == Some(start) && Computes(w, start, lp, out, n2, stop2)
    requires start.stack == m.stack && start.location == m.location && n + lp + 2 <= len
    requires start.pc + lp == m.pc + skip || start.pc + lp == m.pc + len - 1
    requires skip + 1 < len && m.pc + len <= |w.ops| && w.ops[m.pc + len - 1].atom == 0x96
    requires BranchAt(w, m.pc + skip, 0x2f, size, m.pc + len - 1)
    ensures Computes(w, m, len, out, k, stop)
  {
    hide Sound, Path, Halts;
    k, stop := n + n2, stop2;
    if !out.Value? {
      Resumed(w, m, n, start, lp, out, n2, stop2, len);
    } else {
      PathConcat(w, m, n, start, n2);
      k := CondEnds(w, m, n + n2, start.pc + lp, out.value, m.pc + skip, size, m.pc + len - 1);
    }
  }

  /** From the end of either part to the end of the conditional. */
  lemma CondEnds(w: World, m: Machine, n: nat, pc: nat, x: Word, atSkip: nat, size: nat, atNop: nat)
    returns (k: nat)
    requires Sound(w) && Path(w, m, n) == Some(Machine(pc, m.stack + [x], m.location)) && (pc == atSkip || pc == atNop)
    requires BranchAt(w, atSkip, 0x2f, size, atNop) && w.ops[atNop].atom == 0x96
    ensures k <= n + 2 && Path(w, m, k) == Some(Machine(atNop + 1, m.stack + [x], m.location))
  {
    hide Sound, Path, Target;
    var m1, nop := Machine(pc, m.stack + [x], m.location), Machine(atNop, m.stack + [x], m.location);
    k := n;
    if pc == atSkip {
      SkipStep(w, m1, size, atNop);
      PathOne(w, m, n, m1, nop);
      k := n + 1;
    }
    NopStep(w, nop);
    PathOne(w, m, k, nop, Machine(atNop + 1, m.stack + [x], m.location));
    k := k + 1;
  }

  /** On any stack, inside any block, a compiled expression pushes the value of the expression or fails as it does. */
  lemma {:induction false} ExprRuns(w: World, m: Machine, e: Expr, at: nat) returns (n: nat, stop: Machine)
    requires Writable(e) && at + Size(e) < TWO64 && Sound(w) && Holds(w, m.pc, Code(e, at))
    ensures Computes(w, m, |Code(e, at)|, Meaning(e, w.snap, w.bias, |m.stack|), n, stop)
    decreases e, 1
  {
    hide Sound, Path, Halts, Meaning, Computes;
    match e {
      case Un(_, _) => n, stop := UnRuns(w, m, e, at);
      case Bin(_, _, _) => n, stop := BinRuns(w, m, e, at);
      case Cond(_, _, _) => n, stop := CondRuns(w, m, e, at);
      case _ => n, stop := LeafRuns(w, m, e, at);
    }
  }

  lemma LeafRuns(w: World, m: Machine, e: Expr, at: nat) returns (n: nat, stop: Machine)
    requires IsLeaf(e) && Writable(e) && at + Size(e) < TWO64 && Holds(w, m.pc, Code(e, at))
    ensures Computes(w, m, |Code(e, at)|, Meaning(e, w.snap, w.bias, |m.stack|), n, stop)
  {
    hide Meaning, StepIn, Leaves, LeafCode, LeafWritable;
    assert Code(e, at) == [LeafCode(e, at)];
    HoldsFirst(w, m.pc, [LeafCode(e, at)]);
    LeafStep(w, m, e, at);
    stop := m;
    assert Path(w, m, 0) == Some(m);
    n := Finished(w, m, 0, m, 1, Meaning(e, w.snap, w.bias, |m.stack|));
  }

  // ----- blocks -----

  lemma {:induction false} PathRun(w: World, m: Machine, n: nat, m1: Machine, k: nat)
    requires Path(w, m, n) == Some(m1) && n <= k
    ensures Run(w.ops, w.snap, w.bias, w.cfa, m, k) == Run(w.ops, w.snap, w.bias, w.cfa, m1, k - n)
    ensures BlockRun(w.ops, w.end, w.snap, w.bias, w.cfa, m, k)
            == BlockRun(w.ops, w.end, w.snap, w.bias, w.cfa, m1, k - n)
    decreases n
  {
    hide StepOf, Target;
    if n > 0 {
      PathRun(w, StepIn(w, m).m, n - 1, m1, k - 1);
    }
  }

  /** The bytes of a compiled expression. */
  function BytesOf(e: Expr): seq<Byte>
    requires Writable(e) && Size(e) < TWO64
  {
    EncodeOps(Code(e, 0))
  }

  /** Expressions that fit an operation list. */
  predicate Compilable(e: Expr, max: nat) {
    Writable(e) && Size(e) < TWO64 && |Code(e, 0)| <= max
  }

  /** The bytes of a compiled expression decode to its list, with rising offsets. */
  lemma BytesDecode(e: Expr)
    requires Compilable(e, 255)
    ensures |BytesOf(e)| == Size(e) && BytesOf(e) != []
    ensures DecodeFrom(BytesOf(e), 0) == Some(Code(e, 0)) && CompileCfa(CfaExpression(BytesOf(e))) == Some(Code(e, 0))
    ensures Ascending(Code(e, 0)) && forall i :: 0 <= i < |Code(e, 0)| ==> Code(e, 0)[i].offset < Size(e)
  {
    hide Code, Size, Writable, DecodeFrom, EncodeOps, Ascending, Placed;
    CodeTakes(e, 0);
    BlockRoundTrip(Code(e, 0));
    AcceptedBlock(BytesOf(e), true, false);
    CfaBlockLaid(BytesOf(e));
  }

  /** How a compiled expression ends when it starts on `m`, evaluated as a list or as a block. */
  lemma ExprEnds(e: Expr, snap: Snapshot, bias: Word, cfa: Outcome, m: Machine, k: nat)
    requires Compilable(e, 255) && m.pc == 0 && 255 < k
    ensures var ops, out := Code(e, 0), Meaning(e, snap, bias, |m.stack|);
            && Run(ops, snap, bias, cfa, m, k)
               == (if out.Value? then Finish(snap, m.stack + [out.value], m.location) else out)
            && BlockRun(ops, Size(e), snap, bias, cfa, m, k)
               == (if out.Value? then Ended(Machine(|ops|, m.stack + [out.value], m.location)) else Broke)
  {
    hide Code, Size, Writable, Path, Meaning, Finish, DecodeFrom, Ascending;
    BytesDecode(e);
    var w := World(Code(e, 0), Size(e), snap, bias, cfa);
    var n, stop := ExprRuns(w, m, e, 0);
    var out := Meaning(e, snap, bias, |m.stack|);
    if out.Value? {
      PathRun(w, m, n, Machine(|w.ops|, m.stack + [out.value], m.location), k);
    } else {
      PathRun(w, m, n, stop, k);
    }
  }

  /** A CFA expression gives the value of the expression it was compiled from, and means it. */
  lemma CfaExpressionMeans(e: Expr, snap: Snapshot, bias: Word)
    requires Compilable(e, 255)
    ensures CompileCfa(CfaExpression(BytesOf(e))) == Some(Code(e, 0)) && |BytesOf(e)| < TWO64
    ensures EvalWith(Code(e, 0), snap, bias, Failed) == Meaning(e, snap, bias, 0)
    ensures CfaMeaning(CfaExpression(BytesOf(e)), snap, bias) == ValueOf(Meaning(e, snap, bias, 0))
  {
    hide Code, Size, Writable, Meaning, Run, BlockRun, DecodeFrom;
    BytesDecode(e);
    ExprEnds(e, snap, bias, Failed, Machine(0, [], false), STEPS_MAX);
  }

  /** So does a register's expression, on top of the CFA. */
  lemma RegExpressionMeans(e: Expr, section: seq<Byte>, at: Word, cfa: Word, snap: Snapshot, bias: Word)
    requires Compilable(e, 254) && |section| < TWO64 && BlockAt(section, at) == Some(BytesOf(e))
    ensures Listed(Expression(at), section) && Listed(ValExpression(at), section)
    ensures RegMeaning(ValExpression(at), section, cfa, snap, bias) == ValueOf(Meaning(e, snap, bias, 1))
    ensures RegMeaning(Expression(at), section, cfa, snap, bias) == Load(snap, ValueOf(Meaning(e, snap, bias, 1)))
    ensures RuleAgrees(Expression(at), section, cfa, snap, bias)
  {
    hide Code, Size, Writable, Meaning, Run, BlockRun, DecodeFrom, BlockAt, ReadStack;
    BytesDecode(e);
    ExprEnds(e, snap, bias, Value(cfa), Machine(0, [cfa], true), STEPS_MAX - 1);
    ExprEnds(e, snap, bias, Value(cfa), Machine(0, [cfa], true), STEPS_MAX - 2);
  }

  // ----- bits, quotients, stack operations and stack words -----

  function BitAt(x: nat, i: nat): bool {
    x / Pow2(i) % 2 == 1
  }

  lemma BitAbove(x: nat, i: nat)
    ensures BitAt(x, i + 1) == BitAt(x / 2, i)
  {
    hide Pow2;
    Pow2Step(i);
    var p := Pow2(i);
    var h := x / 2;
    var q, r := h / p, h % p;
    assert h == p * q + r;
    DivModUnique(x, 2 * p, q, 2 * r + x % 2);
  }

  lemma {:induction false} BitsAt(op: (bool, bool) -> bool, a: nat, b: nat, n: nat, i: nat)
    requires i < n
    ensures BitAt(Bits(op, a, b, n), i) == op(BitAt(a, i), BitAt(b, i))
    decreases n
  {
    hide BitAt;
    var rest := Bits(op, a / 2, b / 2, n - 1);
    assert Bits(op, a, b, n) / 2 == rest;
    if i == 0 {
      LowBit(a);
      LowBit(b);
      LowBit(Bits(op, a, b, n));
    } else {
      BitAbove(a, i - 1);
      BitAbove(b, i - 1);
      BitAbove(Bits(op, a, b, n), i - 1);
      BitsAt(op, a / 2, b / 2, n - 1, i - 1);
    }
  }

  lemma LowBit(x: nat)
    ensures BitAt(x, 0) == (x % 2 == 1)
  {
    assert Pow2(0) == 1;
  }

  /** The bitwise operations, bit by bit. */
  lemma BitwiseAt(a: Word, b: Word, i: nat)
    requires i < 64
    ensures BitAt(Bitwise(AND, a, b), i) == (BitAt(a, i) && BitAt(b, i))
    ensures BitAt(Bitwise(OR, a, b), i) == (BitAt(a, i) || BitAt(b, i))
    ensures BitAt(Bitwise(XOR, a, b), i) == (BitAt(a, i) != BitAt(b, i))
  {
    hide BitAt, Bits;
    BitsAt(AND, a, b, 64, i);
    BitsAt(OR, a, b, 64, i);
    BitsAt(XOR, a, b, 64, i);
  }

  /** The quotient leaves a remainder smaller than the divisor and with the sign of the dividend. */
  predicate Truncates(a: int, b: int, product: int) {
    var r := a - product;
    (if b > 0 then -b < r < b else b < r < -b) && (r > 0 ==> a > 0) && (r < 0 ==> a < 0)
  }

  lemma DivTruncates(a: int, b: int)
    requires b != 0
    ensures Truncates(a, b, TruncatedDiv(a, b) * b)
  {
    var x, y := if a < 0 then -a else a, if b < 0 then -b else b;
    Quotient(x, y);
    Reassemble(a, b, x / y, TruncatedDiv(a, b));
  }

  lemma Reassemble(a: int, b: int, q: int, t: int)
    requires b != 0 && t == if (a < 0) == (b < 0) then q else -q
    requires var x, y := if a < 0 then -a else a, if b < 0 then -b else b; 0 <= q * y <= x < q * y + y
    ensures Truncates(a, b, t * b)
  {
    hide Truncates;
    SignedProduct(a < 0, b, q, t);
    Assembled(a, b, q * (if b < 0 then -b else b));
  }

  lemma Assembled(a: int, b: int, p: int)
    requires b != 0 && var x, y := if a < 0 then -a else a, if b < 0 then -b else b; 0 <= p <= x < p + y
    ensures Truncates(a, b, if a < 0 then -p else p)
  {
  }

  /** Signs and absolute values multiply apart. */
  lemma SignedProduct(negative: bool, b: int, q: int, t: int)
    requires t == if negative == (b < 0) then q else -q
    ensures var p := q * (if b < 0 then -b else b); t * b == if negative then -p else p
  {
    if b < 0 {
      SignsMultiply(q, -b);
    } else {
      SignsMultiply(q, b);
    }
  }

  lemma Quotient(x: nat, y: nat)
    requires y > 0
    ensures 0 <= x / y * y <= x < x / y * y + y
  {
    assert x == y * (x / y) + x % y;
  }

  lemma SignsMultiply(q: int, y: int)
    ensures (-q) * y == -(q * y) && q * (-y) == -(q * y) && (-q) * (-y) == q * y
  {}

  /** The stack operations of section 2.5.1.3 on the entries they touch. */
  lemma StackOperations(snap: Snapshot, bias: Word, s: seq<Word>, t: seq<Word>, a: Word, b: Word, c: Word)
    requires |s| + |t| + 4 <= 256
    ensures EffectOf(Op(0x12, 0, 0, 0), snap, bias, s + [a]) == Stack(s + [a, a])
    ensures EffectOf(Op(0x13, 0, 0, 0), snap, bias, s + [a]) == Stack(s)
    ensures EffectOf(Op(0x14, 0, 0, 0), snap, bias, s + [a, b]) == Stack(s + [a, b, a])
    ensures EffectOf(Op(0x15, |t|, 0, 0), snap, bias, s + [a] + t) == Stack(s + [a] + t + [a])
    ensures EffectOf(Op(0x16, 0, 0, 0), snap, bias, s + [a, b]) == Stack(s + [b, a])
    ensures EffectOf(Op(0x17, 0, 0, 0), snap, bias, s + [a, b, c]) == Stack(s + [c, a, b])
  {
    assert (s + [a])[..|s|] == s && (s + [a, b])[..|s|] == s && (s + [a, b, c])[..|s|] == s;
    assert (s + [a] + t)[|s|] == a;
    assert s + [a] + [a] == s + [a, a] && s + [a, b] + [a] == s + [a, b, a];
  }

  /** A word of the snapshot is read at its distance from the start of the page of the raw stack pointer. */
  lemma StackWord(snap: Snapshot, page: nat, before: seq<Byte>, v: Word, after: seq<Byte>)
    requires page % snap.page == 0 && page <= snap.rawSp < page + snap.page
    requires snap.stack == before + Bytes64(v) + after && page + |snap.stack| < TWO64
    ensures ReadStack(snap, page + |before|) == Some(v)
  {
    PageStart(snap, page);
    hide Bytes64, Little64, WindowStart;
    assert snap.stack[|before|..|before| + 8] == Bytes64(v);
    Little64Bytes(snap.stack, |before|, v);
  }

  /** Nothing else is. */
  lemma OutsideSnapshot(snap: Snapshot, page: nat, addr: Word)
    requires page % snap.page == 0 && page <= snap.rawSp < page + snap.page
    ensures ReadStack(snap, addr).None? <==>
              page + |snap.stack| >= TWO64 || addr < page || addr + 8 > page + |snap.stack|
  {
    PageStart(snap, page);
    hide Little64, WindowStart;
  }

  lemma PageStart(snap: Snapshot, page: nat)
    requires page % snap.page == 0 && page <= snap.rawSp < page + snap.page
    ensures WindowStart(snap) == page
  {
    var k := page / snap.page;
    assert page == snap.page * k;
    DivModUnique(snap.rawSp, snap.page, k, snap.rawSp - page);
  }

  // ----- the CFA of a procedure linkage table -----

  lemma {:induction false} AndLow(a: nat, k: nat, n: nat)
    requires k <= n
    ensures Bits(AND, a, Pow2(k) - 1, n) == a % Pow2(k)
    decreases n
  {
    hide Bits, Pow2;
    if k == 0 {
      assert Pow2(0) == 1 by { OnePower(); }
      AndZero(a, n);
    } else {
      AndLow(a / 2, k - 1, n - 1);
      Pow2Step(k - 1);
      AndStep(a, Pow2(k - 1), n);
    }
  }

  lemma OnePower()
    ensures Pow2(0) == 1 && Pow2(3) == 8 && Pow2(4) == 16
  {}

  lemma AndStep(a: nat, p: nat, n: nat)
    requires n > 0 && p > 0 && Bits(AND, a / 2, p - 1, n - 1) == a / 2 % p
    ensures Bits(AND, a, 2 * p - 1, n) == a % (2 * p)
  {
    assert (2 * p - 1) / 2 == p - 1 && (2 * p - 1) % 2 == 1;
    ModDouble(a, p);
  }

  lemma ModDouble(a: nat, p: nat)
    requires p > 0
    ensures a % (2 * p) == 2 * (a / 2 % p) + a % 2
  {
    var h := a / 2;
    var q, r := h / p, h % p;
    assert h == p * q + r;
    DivModUnique(a, 2 * p, q, 2 * r + a % 2);
  }

  lemma {:induction false} AndZero(a: nat, n: nat)
    ensures Bits(AND, a, 0, n) == 0
  {
    if n > 0 {
      AndZero(a / 2, n - 1);
    }
  }

  const PLT := Bin(Plus, Based(7, 8),
                   Bin(ShiftLeft, Bin(AtLeast, Bin(BitAnd, Based(16, 0), Literal(15)), Literal(11)), Literal(3)))

  /** What the expression says in terms of the sampled registers. */
  function PltCfa(sp: Word, ip: Word): Word {
    Add(sp, if ip % 16 >= 11 then 16 else 8)
  }

  lemma PltTest(snap: Snapshot, bias: Word)
    requires |snap.regs| >= 17
    ensures Meaning(Bin(AtLeast, Bin(BitAnd, Based(16, 0), Literal(15)), Literal(11)), snap, bias, 1)
            == Value(if snap.regs[16] % 16 >= 11 then 1 else 0)
  {
    hide Meaning, BinaryMeaning;
    var masked := Bin(BitAnd, Based(16, 0), Literal(15));
    PltOperands(snap, bias);
    Masked(snap.regs[16]);
    BinMeaning(masked, snap, bias, 1);
    BinMeaning(Bin(AtLeast, masked, Literal(11)), snap, bias, 1);
    Compared(snap.regs[16] % 16);
  }

  lemma PltOperands(snap: Snapshot, bias: Word)
    requires |snap.regs| >= 17
    ensures Meaning(Based(16, 0), snap, bias, 1) == Value(snap.regs[16])
    ensures Meaning(Literal(15), snap, bias, 2) == Value(15) && Meaning(Literal(11), snap, bias, 2) == Value(11)
  {
  }

  lemma Masked(ip: Word)
    ensures BinaryMeaning(BitAnd, ip, 15) == Some(ip % 16)
  {
    hide Bits;
    AndLow(ip, 4, 64);
    OnePower();
    hide Pow2;
  }

  lemma Compared(v: Word)
    requires v < 16
    ensures BinaryMeaning(AtLeast, v, 11) == Some(if v >= 11 then 1 else 0)
  {
    hide Bits, Pow2, Bitwise;
  }

  lemma PltMeaning(snap: Snapshot, bias: Word)
    requires |snap.regs| >= 17
    ensures Meaning(PLT, snap, bias, 0) == Value(PltCfa(snap.regs[7], snap.regs[16]))
  {
    hide Meaning, BinaryMeaning, PltCfa;
    var test := Bin(AtLeast, Bin(BitAnd, Based(16, 0), Literal(15)), Literal(11));
    PltTest(snap, bias);
    BinMeaning(Bin(ShiftLeft, test, Literal(3)), snap, bias, 1);
    BinMeaning(PLT, snap, bias, 0);
    PltLeaves(snap, bias);
    PltSum(snap.regs[7], snap.regs[16]);
  }

  lemma PltSum(sp: Word, ip: Word)
    ensures var t := if ip % 16 >= 11 then 1 else 0;
            var start: int := sp;
            && BinaryMeaning(ShiftLeft, t, 3) == Some(8 * t)
            && BinaryMeaning(Plus, Unsigned(start + 8), 8 * t) == Some(PltCfa(sp, ip))
  {
    hide BinaryMeaning, Unsigned;
    var start: int := sp;
    if ip % 16 >= 11 {
      ShiftOne(1);
      PlusMeans(start + 8, 8);
      AddIsSum(sp, 16);
    } else {
      ShiftOne(0);
      PlusMeans(start + 8, 0);
      AddIsSum(sp, 8);
    }
  }

  lemma ShiftOne(t: Word)
    requires t <= 1
    ensures BinaryMeaning(ShiftLeft, t, 3) == Some(8 * t)
  {
    OnePower();
    hide Pow2;
  }

  lemma PlusMeans(a: nat, b: Word)
    ensures BinaryMeaning(Plus, Unsigned(a), b) == Some(Unsigned(a + b))
  {
    PlusWraps(a, b);
    hide Pow2;
  }

  lemma AddIsSum(a: Word, b: Word)
    ensures Add(a, b) == Unsigned(a + b)
  {
  }

  lemma PltLeaves(snap: Snapshot, bias: Word)
    requires |snap.regs| >= 17
    ensures Meaning(Literal(3), snap, bias, 2) == Value(3)
    ensures var sp: int := snap.regs[7]; Meaning(Based(7, 8), snap, bias, 0) == Value(Unsigned(sp + 8))
  {
  }

  lemma PlusWraps(a: nat, b: nat)
    ensures Unsigned(Unsigned(a) + b) == Unsigned(a + b)
  {
    SameModulo(Unsigned(a) + b, a / TWO64);
  }

  lemma BinBytes(e: Expr, at: nat)
    requires e.Bin? && Writable(e.a) && Writable(e.b) && at + Size(e.a) + Size(e.b) + 1 < TWO64
    ensures Writable(e) && Size(e) == Size(e.a) + Size(e.b) + 1
    ensures |Code(e, at)| == |Code(e.a, at)| + |Code(e.b, at + Size(e.a))| + 1
    ensures EncodeOps(Code(e, at))
            == EncodeOps(Code(e.a, at)) + EncodeOps(Code(e.b, at + Size(e.a))) + [BinaryCode(e.operator)]
  {
    hide EncodeOps, EncodeOp, BinaryCode;
    var la, lb := Code(e.a, at), Code(e.b, at + Size(e.a));
    var last := Op(BinaryCode(e.operator), 0, 0, at + Size(e.a) + Size(e.b));
    EncodeConcat(la, lb);
    EncodeConcat(la + lb, [last]);
    BinaryByte(e.operator, last.offset);
  }

  lemma BinaryByte(op: BinaryOp, at: Word)
    ensures EncodeOps([Op(BinaryCode(op), 0, 0, at)]) == [BinaryCode(op)]
  {
    hide Layout;
    PlainLayout(BinaryCode(op));
    OneBytes(Op(BinaryCode(op), 0, 0, at));
  }

  lemma OneBytes(op: Op)
    ensures EncodeOps([op]) == EncodeOp(op)
  {
    hide EncodeOp;
    assert [op][1..] == [];
    assert EncodeOps([op]) == EncodeOp(op) + EncodeOps([]) == EncodeOp(op);
  }

  /** Literals and registers with small offsets. */
  lemma SmallBytes(e: Expr, at: nat)
    requires at + 2 < TWO64
    requires (e.Literal? && e.n < 32) || (e.Based? && e.n < 32 && 0 <= e.offset < 64)
    ensures Writable(e) && Size(e) == (if e.Literal? then 1 else 2) && |Code(e, at)| == 1
    ensures EncodeOps(Code(e, at)) == if e.Literal? then [0x30 + e.n] else [0x70 + e.n, e.offset]
  {
    OneBytes(LeafCode(e, at));
  }

  /** `breg7 8, breg16 0, lit15, and, lit11, ge, lit3, shl, plus`. */
  lemma PltBytes()
    ensures Compilable(PLT, 255) && BytesOf(PLT) == [0x77, 0x08, 0x80, 0x00, 0x3f, 0x1a, 0x3b, 0x2a, 0x33, 0x24, 0x22]
  {
    hide Code, Size, Writable, EncodeOps;
    SmallBytes(Based(7, 8), 0);
    SmallBytes(Based(16, 0), 2);
    SmallBytes(Literal(15), 4);
    SmallBytes(Literal(11), 6);
    SmallBytes(Literal(3), 8);
    var masked := Bin(BitAnd, Based(16, 0), Literal(15));
    BinBytes(masked, 2);
    BinBytes(Bin(AtLeast, masked, Literal(11)), 2);
    BinBytes(Bin(ShiftLeft, Bin(AtLeast, masked, Literal(11)), Literal(3)), 2);
    BinBytes(PLT, 0);
  }

  /** The CFA expression that linkers write for a procedure linkage table. */
  lemma PltBlock(snap: Snapshot, bias: Word)
    requires |snap.regs| >= 17
    ensures var rule := CfaExpression([0x77, 0x08, 0x80, 0x00, 0x3f, 0x1a, 0x3b, 0x2a, 0x33, 0x24, 0x22]);
            && CfaMeaning(rule, snap, bias) == Some(PltCfa(snap.regs[7], snap.regs[16])) && CompileCfa(rule).Some?
            && EvalWith(CompileCfa(rule).value, snap, bias, Failed) == Value(PltCfa(snap.regs[7], snap.regs[16]))
  {
    hide Meaning, CfaMeaning, CompileCfa, EvalWith, BytesOf, Compilable, PltCfa;
    PltBytes();
    PltMeaning(snap, bias);
    CfaExpressionMeans(PLT, snap, bias);
  }
}
