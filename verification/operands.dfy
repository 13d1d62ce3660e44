/**
 Bounds-checked operand reads: `decode_read_fits` and `decode_read_checked`.
 A buffer is the byte sequence up to the `end` pointer, so every access below it is in bounds.
 */
module Operands {
  import opened Words
  import opened Leb128

  datatype Encoding = U8 | S8 | U16 | S16 | U32 | S32 | U64 | S64 | Uleb | Sleb

  /** The low nibble of a DW_EH_PE pointer encoding. */
  function FromPointerEncoding(t: Byte): Option<Encoding> {
    match t % 16
    case 0x0 => Some(U64)
    case 0x1 => Some(Uleb)
    case 0x2 => Some(U16)
    case 0x3 => Some(U32)
    case 0x4 => Some(U64)
    case 0x9 => Some(Sleb)
    case 0xa => Some(S16)
    case 0xb => Some(S32)
    case 0xc => Some(S64)
    case _ => None
  }

  function Width(e: Encoding): (n: nat)
    requires !e.Uleb? && !e.Sleb?
  {
    match e
    case U8 => 1
    case S8 => 1
    case U16 => 2
    case S16 => 2
    case U32 => 4
    case S32 => 4
    case U64 => 8
    case S64 => 8
  }

  // ----- little-endian numbers -----

  function Little16(buf: seq<Byte>, pos: nat): (v: nat)
    requires pos + 2 <= |buf|
    ensures v < 0x1_0000
  {
    var low: int, high: int := buf[pos], buf[pos + 1];
    low + 256 * high
  }

  function Little32(buf: seq<Byte>, pos: nat): (v: nat)
    requires pos + 4 <= |buf|
    ensures v < TWO32
  {
    Little16(buf, pos) + 0x1_0000 * Little16(buf, pos + 2)
  }

  function Little64(buf: seq<Byte>, pos: nat): Word
    requires pos + 8 <= |buf|
  {
    Little32(buf, pos) + TWO32 * Little32(buf, pos + 4)
  }

  function Extend(v: nat, modulus: nat): Word
    requires v < modulus <= TWO32
  {
    if 2 * v < modulus then v else v + TWO64 - modulus
  }

  function ReadFixed(buf: seq<Byte>, pos: nat, e: Encoding): Word
    requires !e.Uleb? && !e.Sleb? && pos + Width(e) <= |buf|
  {
    match e
    case U8 => buf[pos]
    case S8 => Extend(buf[pos], 0x100)
    case U16 => Little16(buf, pos)
    case S16 => Extend(Little16(buf, pos), 0x1_0000)
    case U32 => Little32(buf, pos)
    case S32 => Extend(Little32(buf, pos), TWO32)
    case U64 => Little64(buf, pos)
    case S64 => Little64(buf, pos)
  }

  /** The value at `pos` and the position after it, if the whole operand lies inside the buffer. */
  function Read(buf: seq<Byte>, pos: nat, e: Encoding): (r: Option<(Word, nat)>)
    ensures r.Some? ==> pos < r.value.1 <= |buf|
  {
    if e.Uleb? then ReadUleb(buf, pos)
    else if e.Sleb? then ReadSleb(buf, pos)
    else if pos + Width(e) <= |buf| then Some((ReadFixed(buf, pos, e), pos + Width(e)))
    else None
  }

  function ReadChecked(buf: seq<Byte>, pos: nat, t: Byte): (r: Option<(Word, nat)>)
    ensures r.Some? ==> pos < r.value.1 <= |buf|
  {
    match FromPointerEncoding(t)
    case Some(e) => Read(buf, pos, e)
    case None => None
  }

  /** Looks for the final byte of a LEB128 number before a checked read is attempted. */
  method LebFits(buf: seq<Byte>, pos: nat, max: nat) returns (fits: bool)
    ensures fits <==> Length(buf, pos, max) > 0
  {
    var i := 0;
    while i < max && pos + i < |buf|
      invariant 0 <= i <= max
      invariant Length(buf, pos, max) > 0 <==> Length(buf, pos + i, max - i) > 0
    {
      if buf[pos + i] < 128 {
        return true;
      }
      i := i + 1;
    }
    return false;
  }

  method DecodeLeb(buf: seq<Byte>, pos: nat, e: Encoding) returns (r: Option<(Word, nat)>)
    requires e.Uleb? || e.Sleb?
    ensures r == Read(buf, pos, e)
  {
    hide Length, UlebValue, SlebValue, UlebScan, SlebScan;
    var fits := LebFits(buf, pos, if e.Uleb? then ULEB_MAX else SLEB_MAX);
    if !fits {
      return None;
    }
    var value, size;
    if e.Uleb? {
      value, size := DecodeUleb(buf, pos);
    } else {
      value, size := DecodeSleb(buf, pos);
    }
    return Some((value, pos + size));
  }

  method DecodeReadChecked(buf: seq<Byte>, pos: nat, t: Byte) returns (r: Option<(Word, nat)>)
    ensures r == ReadChecked(buf, pos, t)
  {
    match FromPointerEncoding(t) {
      case None => r := None;
      case Some(e) =>
        if e.Uleb? || e.Sleb? {
          r := DecodeLeb(buf, pos, e);
        } else if pos > |buf| || |buf| - pos < Width(e) {
          r := None;
        } else {
          r := Some((ReadFixed(buf, pos, e), pos + Width(e)));
        }
    }
  }

  // ----- a read depends on nothing but the bytes it consumes -----

  lemma {:induction false} LengthLocal(a: seq<Byte>, b: seq<Byte>, pos: nat, max: nat)
    requires Length(a, pos, max) > 0 && pos + Length(a, pos, max) <= |b|
    requires forall i :: pos <= i < pos + Length(a, pos, max) ==> a[i] == b[i]
    ensures Length(b, pos, max) == Length(a, pos, max)
    decreases |a| - pos
  {
    if a[pos] >= 128 {
      LengthLocal(a, b, pos + 1, max - 1);
    }
  }

  lemma {:induction false} UlebLocal(a: seq<Byte>, b: seq<Byte>, pos: nat, k: nat, acc: Word)
    requires k < ULEB_MAX && Length(a, pos, ULEB_MAX - k) == Length(b, pos, ULEB_MAX - k) > 0
    requires forall i :: pos <= i < pos + Length(a, pos, ULEB_MAX - k) ==> a[i] == b[i]
    ensures UlebValue(a, pos, k, acc) == UlebValue(b, pos, k, acc)
    decreases |a| - pos
  {
    if a[pos] >= 128 {
      UlebLocal(a, b, pos + 1, k + 1, Or(acc, UlebPiece(a[pos], k)));
    }
  }

  lemma {:induction false} SlebLocal(a: seq<Byte>, b: seq<Byte>, pos: nat, k: nat, acc: Word)
    requires k < SLEB_MAX && Length(a, pos, SLEB_MAX - k) == Length(b, pos, SLEB_MAX - k) > 0
    requires forall i :: pos <= i < pos + Length(a, pos, SLEB_MAX - k) ==> a[i] == b[i]
    ensures SlebValue(a, pos, k, acc) == SlebValue(b, pos, k, acc)
    decreases |a| - pos
  {
    if a[pos] >= 128 {
      SlebLocal(a, b, pos + 1, k + 1, Or(acc, SlebPiece(a[pos], k)));
    }
  }

  /** A successful read is decided by the bytes between `pos` and the returned position. */
  lemma ReadLocal(a: seq<Byte>, b: seq<Byte>, pos: nat, e: Encoding)
    requires Read(a, pos, e).Some? && Read(a, pos, e).value.1 <= |b|
    requires forall i :: pos <= i < Read(a, pos, e).value.1 ==> a[i] == b[i]
    ensures Read(b, pos, e) == Read(a, pos, e)
  {
    if e.Uleb? {
      LengthLocal(a, b, pos, ULEB_MAX);
      UlebLocal(a, b, pos, 0, 0);
    } else if e.Sleb? {
      LengthLocal(a, b, pos, SLEB_MAX);
      SlebLocal(a, b, pos, 0, 0);
    }
  }

  // ----- encoding, the inverse of reading -----

  function Bytes16(v: nat): (s: seq<Byte>)
    ensures |s| == 2
  {
    [v % 256, v / 256 % 256]
  }

  function Bytes32(v: nat): (s: seq<Byte>)
    ensures |s| == 4
  {
    Bytes16(v % 0x1_0000) + Bytes16(v / 0x1_0000)
  }

  function Bytes64(v: Word): (s: seq<Byte>)
    ensures |s| == 8
  {
    Bytes32(v % TWO32) + Bytes32(v / TWO32)
  }

  function Encode(e: Encoding, v: Word): (s: seq<Byte>)
    ensures s != []
  {
    match e
    case U8 => [v % 256]
    case S8 => [v % 256]
    case U16 => Bytes16(v)
    case S16 => Bytes16(v)
    case U32 => Bytes32(v)
    case S32 => Bytes32(v)
    case U64 => Bytes64(v)
    case S64 => Bytes64(v)
    case Uleb => UlebBytes(v)
    case Sleb => SlebBytes(Signed(v))
  }

  /** The operand values an encoding can carry through a checked read. */
  predicate Encodable(e: Encoding, v: Word) {
    match e
    case U8 => v < 0x100
    case S8 => -0x80 <= Signed(v) < 0x80
    case U16 => v < 0x1_0000
    case S16 => -0x8000 <= Signed(v) < 0x8000
    case U32 => v < TWO32
    case S32 => -0x8000_0000 <= Signed(v) < 0x8000_0000
    case U64 => true
    case S64 => true
    case Uleb => v < 0x8000_0000
    case Sleb => Signed(v) >= -0x4000_0000_0000_0000
  }

  lemma Little16Bytes(buf: seq<Byte>, pos: nat, v: nat)
    requires At(buf, pos, Bytes16(v))
    ensures Little16(buf, pos) == v % 0x1_0000
  {
    AtTail(buf, pos, Bytes16(v));
    AtTail(buf, pos + 1, Bytes16(v)[1..]);
    DivModUnique(v, 0x1_0000, v / 256 / 256, v % 256 + 256 * (v / 256 % 256));
  }

  lemma AtSplit(buf: seq<Byte>, pos: nat, s: seq<Byte>, t: seq<Byte>)
    requires At(buf, pos, s + t)
    ensures At(buf, pos, s) && At(buf, pos + |s|, t)
  {
    assert buf[pos..pos + |s|] == buf[pos..pos + |s + t|][..|s|] == s;
    assert buf[pos + |s|..pos + |s + t|] == buf[pos..pos + |s + t|][|s|..] == t;
  }

  lemma Little32Bytes(buf: seq<Byte>, pos: nat, v: nat)
    requires At(buf, pos, Bytes32(v))
    ensures Little32(buf, pos) == v % TWO32
  {
    hide Little16, Bytes16;
    AtSplit(buf, pos, Bytes16(v % 0x1_0000), Bytes16(v / 0x1_0000));
    Little16Bytes(buf, pos, v % 0x1_0000);
    Little16Bytes(buf, pos + 2, v / 0x1_0000);
  }

  lemma Little64Bytes(buf: seq<Byte>, pos: nat, v: Word)
    requires At(buf, pos, Bytes64(v))
    ensures Little64(buf, pos) == v
  {
    hide Little32, Bytes32;
    AtSplit(buf, pos, Bytes32(v % TWO32), Bytes32(v / TWO32));
    Little32Bytes(buf, pos, v % TWO32);
    Little32Bytes(buf, pos + 4, v / TWO32);
  }

  lemma FixedEncode(buf: seq<Byte>, pos: nat, e: Encoding, v: Word)
    requires !e.Uleb? && !e.Sleb? && At(buf, pos, Encode(e, v))
    ensures |Encode(e, v)| == Width(e)
    ensures ReadFixed(buf, pos, e) == v <==> Encodable(e, v)
  {
    hide Little16, Little32, Little64, Bytes16, Bytes32, Bytes64, Extend, Signed;
    match e {
      case U8 => AtTail(buf, pos, Encode(e, v));
      case S8 => AtTail(buf, pos, Encode(e, v)); SignedModulo(v, 0x100);
      case U16 => Little16Bytes(buf, pos, v);
      case S16 => Little16Bytes(buf, pos, v); SignedModulo(v, 0x1_0000);
      case U32 => Little32Bytes(buf, pos, v);
      case S32 => Little32Bytes(buf, pos, v); SignedModulo(v, TWO32);
      case U64 => Little64Bytes(buf, pos, v);
      case S64 => Little64Bytes(buf, pos, v);
    }
  }

  /** Reading back an encoded operand gives the same value and length exactly for encodable values. */
  lemma ReadEncode(before: seq<Byte>, e: Encoding, v: Word, after: seq<Byte>)
    ensures Read(before + Encode(e, v) + after, |before|, e)
            == Some((v, |before| + |Encode(e, v)|))
            <==> Encodable(e, v)
  {
    hide UlebBytes, SlebBytes, ReadUleb, ReadSleb, ReadFixed, Signed, Unsigned;
    var buf := before + Encode(e, v) + after;
    if e.Uleb? {
      UlebRoundTrip(before, v, after);
    } else if e.Sleb? {
      SignedWord(v);
      SlebRoundTrip(before, Signed(v), after);
    } else {
      assert buf[|before|..|before| + |Encode(e, v)|] == Encode(e, v);
      FixedEncode(buf, |before|, e, v);
    }
  }

  lemma SignedWord(v: Word)
    ensures -TWO63 <= Signed(v) < TWO63 && Unsigned(Signed(v)) == v
  {}

  lemma SignedModulo(v: Word, m: int)
    requires m == 0x100 || m == 0x1_0000 || m == TWO32
    ensures Extend(v % m, m) == v <==> -m <= 2 * Signed(v) < m
  {
    hide Extend, Signed;
    if m == 0x100 {
      Signed8(v);
    } else if m == 0x1_0000 {
      Signed16(v);
    } else {
      Signed32(v);
    }
  }

  lemma Signed8(v: Word)
    ensures Extend(v % 0x100, 0x100) == v <==> -0x100 <= 2 * Signed(v) < 0x100
  {}

  lemma Signed16(v: Word)
    ensures Extend(v % 0x1_0000, 0x1_0000) == v <==> -0x1_0000 <= 2 * Signed(v) < 0x1_0000
  {}

  lemma Signed32(v: Word)
    ensures Extend(v % TWO32, TWO32) == v <==> -TWO32 <= 2 * Signed(v) < TWO32
  {}
}
