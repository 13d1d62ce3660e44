/** Decoding an expression block into operations: `gu_cfi_init_ops_from_block`. */
module ExprBlock {
  import opened Words
  import opened Operands
  import opened DwarfOps

  // ----- one operation -----

  function DecodeOp(block: seq<Byte>, pos: nat): (r: Option<(Op, nat)>)
    requires pos < |block| < TWO64
    ensures r.Some? ==> pos < r.value.1 <= |block|
  {
    var atom := block[pos];
    match ShapeOf(atom)
    case Rejected => None
    case Plain => Some((Op(atom, 0, 0, pos), pos + 1))
    case One(e) =>
      (match Read(block, pos + 1, e)
       case None => None
       case Some((v, next)) => Some((Op(atom, v, 0, pos), next)))
    case Two(e1, e2) =>
      match Read(block, pos + 1, e1)
      case None => None
      case Some((v1, mid)) =>
        match Read(block, mid, e2)
        case None => None
        case Some((v2, next)) => Some((Op(atom, v1, v2, pos), next))
  }

  /** All operations from `pos` to the end of the block. */
  function DecodeFrom(block: seq<Byte>, pos: nat): Option<seq<Op>>
    requires pos <= |block| < TWO64
    decreases |block| - pos
  {
    if pos == |block| then Some([])
    else match DecodeOp(block, pos)
      case None => None
      case Some((op, next)) =>
        match DecodeFrom(block, next)
        case None => None
        case Some(rest) => Some([op] + rest)
  }

  const PUSH_CFA := Op(DW_OP_call_frame_cfa, 0, 0, 0)

  /** What a block denotes: register rules start from the CFA, val_expression ends with a value. */
  function BlockOps(block: seq<Byte>, isCfa: bool, isValue: bool): Option<seq<Op>>
    requires |block| < TWO64
  {
    if block == [] then None
    else match DecodeFrom(block, 0)
      case None => None
      case Some(ops) =>
        var front := if isCfa then ops else [PUSH_CFA] + ops;
        if |front| >= OPS_MAX then None
        else Some(front + if isValue then [Op(DW_OP_stack_value, 0, 0, |block|)] else [])
  }

  method InitOpsFromBlock(staticOps: array<Op>, block: seq<Byte>, isCfa: bool, isValue: bool)
    returns (size: Option<nat>)
    requires staticOps.Length == OPS_MAX && |block| < TWO64
    modifies staticOps
    ensures size.None? <==> BlockOps(block, isCfa, isValue).None?
    ensures size.Some? ==> size.value <= OPS_MAX
    ensures size.Some? ==> BlockOps(block, isCfa, isValue) == Some(staticOps[..size.value])
  {
    hide DecodeOp, DecodeFrom;
    if |block| == 0 {
      return None;
    }
    var data, n := 0, 0;
    if !isCfa {
      staticOps[n] := PUSH_CFA;
      n := n + 1;
    }
    ghost var front, done := staticOps[..n], [];
    ResumesStart(block);
    while data < |block| && n < OPS_MAX
      invariant data <= |block| && n <= OPS_MAX
      invariant staticOps[..n] == front + done
      invariant Resumes(block, data, done)
      decreases |block| - data
    {
      match DecodeOp(block, data) {
        case None =>
          ResumesStuck(block, data, done);
          return None;
        case Some((op, next)) =>
          ResumesNext(block, data, done);
          ghost var before := staticOps[..n];
          staticOps[n] := op;
          assert staticOps[..n + 1] == before + [op] == front + (done + [op]);
          done := done + [op];
          data, n := next, n + 1;
      }
    }
    if data < |block| {
      ResumesFull(block, data, done);
      return None;
    }
    ResumesEnd(block, done);
    if n >= OPS_MAX {
      return None;
    }
    ghost var all := staticOps[..n];
    assert all == if isCfa then done else [PUSH_CFA] + done;
    assert all + [] == all;
    if isValue {
      staticOps[n] := Op(DW_OP_stack_value, 0, 0, data);
      n := n + 1;
      assert staticOps[..n] == all + [staticOps[n - 1]];
    }
    return Some(n);
  }

  /** `done` is what precedes `pos` in the decoding of the whole block. */
  ghost predicate Resumes(block: seq<Byte>, pos: nat, done: seq<Op>)
    requires pos <= |block| < TWO64
  {
    match DecodeFrom(block, pos)
    case None => DecodeFrom(block, 0).None?
    case Some(rest) => DecodeFrom(block, 0) == Some(done + rest)
  }

  lemma ResumesStart(block: seq<Byte>)
    requires |block| < TWO64
    ensures Resumes(block, 0, [])
  {
    if DecodeFrom(block, 0).Some? {
      assert [] + DecodeFrom(block, 0).value == DecodeFrom(block, 0).value;
    }
  }

  lemma ResumesEnd(block: seq<Byte>, done: seq<Op>)
    requires |block| < TWO64 && Resumes(block, |block|, done)
    ensures DecodeFrom(block, 0) == Some(done)
  {
    assert done + [] == done;
  }

  lemma ResumesStuck(block: seq<Byte>, pos: nat, done: seq<Op>)
    requires pos < |block| < TWO64 && Resumes(block, pos, done) && DecodeOp(block, pos).None?
    ensures DecodeFrom(block, 0).None?
  {
    hide DecodeOp;
  }

  /** With the buffer full and bytes left, the block is too long or malformed. */
  lemma ResumesFull(block: seq<Byte>, pos: nat, done: seq<Op>)
    requires pos < |block| < TWO64 && Resumes(block, pos, done)
    ensures DecodeFrom(block, 0).Some? ==> |DecodeFrom(block, 0).value| > |done|
  {
    hide DecodeOp;
  }

  lemma ResumesNext(block: seq<Byte>, pos: nat, done: seq<Op>)
    requires pos < |block| < TWO64 && Resumes(block, pos, done) && DecodeOp(block, pos).Some?
    ensures Resumes(block, DecodeOp(block, pos).value.1, done + [DecodeOp(block, pos).value.0])
  {
    var (op, next) := DecodeOp(block, pos).value;
    if DecodeFrom(block, next).Some? {
      var rest := DecodeFrom(block, next).value;
      assert done + ([op] + rest) == done + [op] + rest;
    }
  }

  // ----- accepted blocks are tiled by their operations -----

  function EndOf(block: seq<Byte>, ops: seq<Op>, i: nat): nat
    requires i < |ops|
  {
    if i + 1 < |ops| then ops[i + 1].offset else |block|
  }

  /** Operation `i` is what the bytes between its offset and the next offset decode to. */
  ghost predicate Tiled(block: seq<Byte>, pos: nat, ops: seq<Op>)
    requires |block| < TWO64
  {
    && (ops == [] ==> pos == |block|)
    && (ops != [] ==> ops[0].offset == pos)
    && (forall i :: 0 <= i < |ops| ==> TileAt(block, ops, i))
  }

  ghost predicate TileAt(block: seq<Byte>, ops: seq<Op>, i: nat)
    requires |block| < TWO64 && i < |ops|
  {
    ops[i].offset < |block| && DecodeOp(block, ops[i].offset) == Some((ops[i], EndOf(block, ops, i)))
  }

  lemma {:induction false} DecodeTiles(block: seq<Byte>, pos: nat)
    requires pos <= |block| < TWO64 && DecodeFrom(block, pos).Some?
    ensures Tiled(block, pos, DecodeFrom(block, pos).value)
    decreases |block| - pos
  {
    if pos < |block| {
      var (op, next) := DecodeOp(block, pos).value;
      DecodeTiles(block, next);
      var rest, ops := DecodeFrom(block, next).value, DecodeFrom(block, pos).value;
      hide DecodeOp;
      forall i | 0 <= i < |ops| ensures TileAt(block, ops, i) {
        if i > 0 {
          assert TileAt(block, rest, i - 1);
        }
      }
    }
  }

  ghost predicate Ascending(ops: seq<Op>) {
    forall i, j :: 0 <= i < j < |ops| ==> ops[i].offset < ops[j].offset
  }

  lemma TiledNext(block: seq<Byte>, pos: nat, ops: seq<Op>, i: nat)
    requires |block| < TWO64 && Tiled(block, pos, ops) && i + 1 < |ops|
    ensures ops[i].offset < ops[i + 1].offset
  {
    hide DecodeOp;
    assert TileAt(block, ops, i);
  }

  lemma {:induction false} TiledLess(block: seq<Byte>, pos: nat, ops: seq<Op>, i: nat, j: nat)
    requires |block| < TWO64 && Tiled(block, pos, ops) && i < j < |ops|
    ensures ops[i].offset < ops[j].offset
    decreases j
  {
    hide Tiled;
    TiledNext(block, pos, ops, j - 1);
    if i < j - 1 {
      TiledLess(block, pos, ops, i, j - 1);
    }
  }

  lemma TiledAscends(block: seq<Byte>, pos: nat, ops: seq<Op>)
    requires |block| < TWO64 && Tiled(block, pos, ops)
    ensures Ascending(ops)
  {
    hide Tiled;
    forall i, j | 0 <= i < j < |ops| ensures ops[i].offset < ops[j].offset {
      TiledLess(block, pos, ops, i, j);
    }
  }

  /** Every accepted block: exact tiling, increasing offsets and room left in the op buffer. */
  lemma AcceptedBlock(block: seq<Byte>, isCfa: bool, isValue: bool)
    requires |block| < TWO64 && BlockOps(block, isCfa, isValue).Some?
    ensures DecodeFrom(block, 0).Some?
    ensures var ops := DecodeFrom(block, 0).value;
            var all := BlockOps(block, isCfa, isValue).value;
            && Tiled(block, 0, ops) && Ascending(ops) && |all| <= OPS_MAX
            && (isCfa && !isValue ==> all == ops)
            && (!isCfa ==> all[0] == PUSH_CFA && ops <= all[1..])
  {
    hide Tiled, DecodeFrom;
    DecodeTiles(block, 0);
    TiledAscends(block, 0, DecodeFrom(block, 0).value);
  }

  // ----- encoding -----

  /** The operands that section 7.7.1 of DWARF 5 and the GNU extensions give an opcode; None for an unknown one. */
  function Layout(atom: Byte): Option<seq<Encoding>> {
    if 0x70 <= atom < 0x90 || atom in {0x11, 0x91} then Some([Sleb])
    else if atom in {0x10, 0x23, 0x90, 0x93, 0xa1, 0xa2, 0xa8, 0xa9, 0xf7, 0xf9, 0xfb, 0xfc} then Some([Uleb])
    else if atom in {0x08, 0x15, 0x94, 0x95} then Some([U8])
    else if atom == 0x09 then Some([S8])
    else if atom == 0x0a then Some([U16])
    else if atom in {0x0b, 0x28, 0x2f, 0x98} then Some([S16])
    else if atom == 0x0c then Some([U32])
    else if atom in {0x0d, 0x99, 0xfa} then Some([S32])
    else if atom in {0x03, 0x0e, 0x9a, 0xfd} then Some([U64])
    else if atom == 0x0f then Some([S64])
    else if atom == 0x92 then Some([Uleb, Sleb])
    else if atom in {0x9d, 0xa5, 0xf5} then Some([Uleb, Uleb])
    else if atom in {0xa0, 0xf2} then Some([U64, U64])
    else if atom in {0xa6, 0xa7, 0xf6} then Some([U8, U64])
    else if atom == 0x06 || 0x12 <= atom < 0x70 || atom in {0x96, 0x97, 0x9b, 0x9c, 0x9f, 0xe0, 0xf0} then Some([])
    else None
  }

  /** The decoder reads the operands of every opcode as they are laid out, and rejects the unknown ones. */
  lemma ShapeIsLayout(atom: Byte)
    ensures match Layout(atom)
            case None => ShapeOf(atom) == Rejected
            case Some(l) =>
              && (|l| == 0 ==> ShapeOf(atom) == Plain) && (|l| == 1 ==> ShapeOf(atom) == One(l[0]))
              && (|l| == 2 ==> ShapeOf(atom) == Two(l[0], l[1])) && |l| <= 2
  {
  }

  function EncodeOp(op: Op): (s: seq<Byte>)
    ensures s != []
  {
    match Layout(op.atom)
    case None => [op.atom]
    case Some(l) =>
      [op.atom] + (if |l| > 0 then Encode(l[0], op.number) else []) + (if |l| > 1 then Encode(l[1], op.number2) else [])
  }

  function EncodeOps(ops: seq<Op>): seq<Byte> {
    if ops == [] then [] else EncodeOp(ops[0]) + EncodeOps(ops[1..])
  }

  /** An operation whose opcode is known and whose operands fit their encodings. */
  predicate Printable(op: Op) {
    match Layout(op.atom)
    case None => false
    case Some(l) =>
      && (if |l| > 0 then Encodable(l[0], op.number) else op.number == 0)
      && (if |l| > 1 then Encodable(l[1], op.number2) else op.number2 == 0)
  }

  /** Offsets as the encoder lays the operations out from `pos` on. */
  predicate Placed(ops: seq<Op>, pos: nat)
    decreases |ops|
  {
    ops == [] || (ops[0].offset == pos && Printable(ops[0]) && Placed(ops[1..], pos + |EncodeOp(ops[0])|))
  }

  /** A checked read of an operand that sits between `head` and `tail`. */
  lemma ReadBack(block: seq<Byte>, head: seq<Byte>, e: Encoding, v: Word, tail: seq<Byte>)
    requires block == head + Encode(e, v) + tail && Encodable(e, v)
    ensures Read(block, |head|, e) == Some((v, |head| + |Encode(e, v)|))
  {
    hide *;
    ReadEncode(head, e, v, tail);
  }

  lemma DecodePlain(block: seq<Byte>, before: seq<Byte>, op: Op, after: seq<Byte>)
    requires block == before + [op.atom] + after && |block| < TWO64
    requires ShapeOf(op.atom) == Plain && op.number == op.number2 == 0 && op.offset == |before|
    ensures DecodeOp(block, |before|) == Some((op, |before| + 1))
  {
    hide ShapeOf;
    assert block[|before|] == op.atom;
  }

  lemma DecodeOne(block: seq<Byte>, before: seq<Byte>, op: Op, e: Encoding, after: seq<Byte>)
    requires block == before + [op.atom] + Encode(e, op.number) + after && |block| < TWO64
    requires ShapeOf(op.atom) == One(e) && Encodable(e, op.number) && op.number2 == 0 && op.offset == |before|
    ensures DecodeOp(block, |before|) == Some((op, |before| + 1 + |Encode(e, op.number)|))
  {
    hide ShapeOf, Read, Encode, Encodable;
    assert block[|before|] == op.atom;
    ReadBack(block, before + [op.atom], e, op.number, after);
  }

  lemma DecodeTwo(block: seq<Byte>, before: seq<Byte>, op: Op, e1: Encoding, e2: Encoding, after: seq<Byte>)
    requires block == before + [op.atom] + Encode(e1, op.number) + Encode(e2, op.number2) + after && |block| < TWO64
    requires ShapeOf(op.atom) == Two(e1, e2) && op.offset == |before|
    requires Encodable(e1, op.number) && Encodable(e2, op.number2)
    ensures DecodeOp(block, |before|)
            == Some((op, |before| + 1 + |Encode(e1, op.number)| + |Encode(e2, op.number2)|))
  {
    hide ShapeOf, Read, Encode, Encodable;
    var head, first, second := before + [op.atom], Encode(e1, op.number), Encode(e2, op.number2);
    assert block[|before|] == op.atom;
    assert block == head + first + (second + after);
    ReadBack(block, head, e1, op.number, second + after);
    ReadBack(block, head + first, e2, op.number2, after);
  }

  lemma DecodeEncodedOp(block: seq<Byte>, before: seq<Byte>, op: Op, after: seq<Byte>)
    requires block == before + EncodeOp(op) + after && |block| < TWO64
    requires Printable(op) && op.offset == |before|
    ensures DecodeOp(block, |before|) == Some((op, |before| + |EncodeOp(op)|))
  {
    hide ShapeOf, DecodeOp, Encode, Encodable, Layout, EncodeOp;
    ShapeIsLayout(op.atom);
    EncodedForm(op);
    var l := Layout(op.atom).value;
    if |l| == 0 {
      DecodePlain(block, before, op, after);
    } else if |l| == 1 {
      Regroup(before, [op.atom], Encode(l[0], op.number), [], after);
      DecodeOne(block, before, op, l[0], after);
    } else {
      Regroup(before, [op.atom], Encode(l[0], op.number), Encode(l[1], op.number2), after);
      DecodeTwo(block, before, op, l[0], l[1], after);
    }
  }

  lemma EncodedForm(op: Op)
    requires Layout(op.atom).Some?
    ensures var l := Layout(op.atom).value;
            && (|l| == 0 ==> EncodeOp(op) == [op.atom])
            && (|l| == 1 ==> EncodeOp(op) == [op.atom] + Encode(l[0], op.number))
            && (|l| >= 2 ==> EncodeOp(op) == [op.atom] + Encode(l[0], op.number) + Encode(l[1], op.number2))
  {
    hide Layout, Encode;
  }

  lemma Regroup(a: seq<Byte>, b: seq<Byte>, c: seq<Byte>, d: seq<Byte>, e: seq<Byte>)
    ensures a + (b + c) + e == a + b + c + e && a + (b + c + d) + e == a + b + c + d + e
  {
  }

  lemma DecodeFirst(block: seq<Byte>, pos: nat, op: Op, next: nat, rest: seq<Op>)
    requires pos < |block| < TWO64 && DecodeOp(block, pos) == Some((op, next))
    requires DecodeFrom(block, next) == Some(rest)
    ensures DecodeFrom(block, pos) == Some([op] + rest)
  {
    hide DecodeOp;
  }

  lemma {:induction false} DecodeEncodedOps(block: seq<Byte>, before: seq<Byte>, ops: seq<Op>)
    requires block == before + EncodeOps(ops) && |block| < TWO64 && Placed(ops, |before|)
    ensures DecodeFrom(block, |before|) == Some(ops)
    decreases |ops|
  {
    hide EncodeOp, Printable, DecodeOp, DecodeFrom;
    if ops == [] {
      DecodeEnd(block);
    } else {
      var first, rest := EncodeOp(ops[0]), EncodeOps(ops[1..]);
      assert block == before + first + rest;
      DecodeEncodedOps(block, before + first, ops[1..]);
      DecodeEncodedOp(block, before, ops[0], rest);
      DecodeFirst(block, |before|, ops[0], |before| + |first|, ops[1..]);
      assert ops == [ops[0]] + ops[1..];
    }
  }

  lemma DecodeEnd(block: seq<Byte>)
    requires |block| < TWO64
    ensures DecodeFrom(block, |block|) == Some([])
  {
  }

  /** decode(encode(ops)) = ops for every list the encoder lays out. */
  lemma BlockRoundTrip(ops: seq<Op>)
    requires 0 < |ops| < OPS_MAX && |EncodeOps(ops)| < TWO64 && Placed(ops, 0)
    ensures BlockOps(EncodeOps(ops), true, false) == Some(ops)
  {
    hide DecodeFrom, Placed;
    assert [] + EncodeOps(ops) == EncodeOps(ops);
    DecodeEncodedOps(EncodeOps(ops), [], ops);
    assert ops + [] == ops;
  }
}
