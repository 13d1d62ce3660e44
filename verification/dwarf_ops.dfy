/** Decoded DWARF operations and the operand layout of every opcode the block decoder accepts. */
module DwarfOps {
  import opened Words
  import opened Operands

  datatype Op = Op(atom: Byte, number: Word, number2: Word, offset: Word)

  const OPS_MAX: nat := 256

  const DW_OP_addr: Byte := 0x03
  const DW_OP_deref: Byte := 0x06
  const DW_OP_const1u: Byte := 0x08
  const DW_OP_consts: Byte := 0x11
  const DW_OP_dup: Byte := 0x12
  const DW_OP_drop: Byte := 0x13
  const DW_OP_over: Byte := 0x14
  const DW_OP_pick: Byte := 0x15
  const DW_OP_swap: Byte := 0x16
  const DW_OP_rot: Byte := 0x17
  const DW_OP_abs: Byte := 0x19
  const DW_OP_and: Byte := 0x1a
  const DW_OP_div: Byte := 0x1b
  const DW_OP_minus: Byte := 0x1c
  const DW_OP_mod: Byte := 0x1d
  const DW_OP_mul: Byte := 0x1e
  const DW_OP_neg: Byte := 0x1f
  const DW_OP_not: Byte := 0x20
  const DW_OP_or: Byte := 0x21
  const DW_OP_plus: Byte := 0x22
  const DW_OP_plus_uconst: Byte := 0x23
  const DW_OP_shl: Byte := 0x24
  const DW_OP_shr: Byte := 0x25
  const DW_OP_shra: Byte := 0x26
  const DW_OP_xor: Byte := 0x27
  const DW_OP_bra: Byte := 0x28
  const DW_OP_eq: Byte := 0x29
  const DW_OP_ge: Byte := 0x2a
  const DW_OP_gt: Byte := 0x2b
  const DW_OP_le: Byte := 0x2c
  const DW_OP_lt: Byte := 0x2d
  const DW_OP_ne: Byte := 0x2e
  const DW_OP_skip: Byte := 0x2f
  const DW_OP_lit0: Byte := 0x30
  const DW_OP_reg0: Byte := 0x50
  const DW_OP_breg0: Byte := 0x70
  const DW_OP_regx: Byte := 0x90
  const DW_OP_bregx: Byte := 0x92
  const DW_OP_deref_size: Byte := 0x94
  const DW_OP_nop: Byte := 0x96
  const DW_OP_call_frame_cfa: Byte := 0x9c
  const DW_OP_stack_value: Byte := 0x9f

  /** How many operands follow an opcode, and how each is stored. */
  datatype Shape = Rejected | Plain | One(first: Encoding) | Two(first: Encoding, second: Encoding)

  function ShapeOf(atom: Byte): Shape {
    if atom < 0x30 then LowShape(atom)
    else if atom < 0x70 then Plain                 // lit0..lit31, reg0..reg31
    else if atom < 0x90 then One(Sleb)             // breg0..breg31
    else HighShape(atom)
  }

  function LowShape(atom: Byte): Shape {
    match atom
    case 0x03 => One(U64)                          // addr
    case 0x06 => Plain                             // deref
    case 0x08 => One(U8)                           // const1u
    case 0x09 => One(S8)                           // const1s
    case 0x0a => One(U16)                          // const2u
    case 0x0b => One(S16)                          // const2s
    case 0x0c => One(U32)                          // const4u
    case 0x0d => One(S32)                          // const4s
    case 0x0e => One(U64)                          // const8u
    case 0x0f => One(S64)                          // const8s
    case 0x10 => One(Uleb)                         // constu
    case 0x11 => One(Sleb)                         // consts
    case 0x15 => One(U8)                           // pick
    case 0x23 => One(Uleb)                         // plus_uconst
    case 0x28 => One(S16)                          // bra
    case 0x2f => One(S16)                          // skip
    case _ => if atom < 0x12 then Rejected else Plain
  }

  function HighShape(atom: Byte): Shape {
    match atom
    case 0x90 => One(Uleb)                         // regx
    case 0x91 => One(Sleb)                         // fbreg
    case 0x92 => Two(Uleb, Sleb)                   // bregx
    case 0x93 => One(Uleb)                         // piece
    case 0x94 => One(U8)                           // deref_size
    case 0x95 => One(U8)                           // xderef_size
    case 0x96 => Plain                             // nop
    case 0x97 => Plain                             // push_object_address
    case 0x98 => One(S16)                          // call2
    case 0x99 => One(S32)                          // call4
    case 0x9a => One(U64)                          // call_ref
    case 0x9b => Plain                             // form_tls_address
    case 0x9c => Plain                             // call_frame_cfa
    case 0x9d => Two(Uleb, Uleb)                   // bit_piece
    case 0x9f => Plain                             // stack_value
    case 0xa0 => Two(U64, U64)                     // implicit_pointer
    case 0xa1 => One(Uleb)                         // addrx
    case 0xa2 => One(Uleb)                         // constx
    case 0xa5 => Two(Uleb, Uleb)                   // regval_type
    case 0xa6 => Two(U8, U64)                      // deref_type
    case 0xa7 => Two(U8, U64)                      // xderef_type
    case 0xa8 => One(Uleb)                         // convert
    case 0xa9 => One(Uleb)                         // reinterpret
    case 0xe0 => Plain                             // GNU_push_tls_address
    case 0xf0 => Plain                             // GNU_uninit
    case 0xf2 => Two(U64, U64)                     // GNU_implicit_pointer
    case 0xf5 => Two(Uleb, Uleb)                   // GNU_regval_type
    case 0xf6 => Two(U8, U64)                      // GNU_deref_type
    case 0xf7 => One(Uleb)                         // GNU_convert
    case 0xf9 => One(Uleb)                         // GNU_reinterpret
    case 0xfa => One(S32)                          // GNU_parameter_ref
    case 0xfb => One(Uleb)                         // GNU_addr_index
    case 0xfc => One(Uleb)                         // GNU_const_index
    case 0xfd => One(U64)                          // GNU_variable_value
    case _ => Rejected
  }
}
