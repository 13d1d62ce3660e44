/**
 LEB128 numbers (section 7.6 of DWARF 5): the printers of the stress tool and the decoders of the
 CFI helper.  Shifts whose count or result C leaves undefined behave as on x86-64: a 32-bit shift
 uses its count modulo 32 and its result is sign-extended, a 64-bit shift uses its count modulo 64.
 */
module Leb128 {
  import opened Words

  const ULEB_MAX: nat := 8
  const SLEB_MAX: nat := 10

  // ----- printing -----

  function UlebBytes(v: nat): (s: seq<Byte>)
    ensures s != []
  {
    if v < 128 then [v] else [v % 128 + 128] + UlebBytes(v / 128)
  }

  function SlebBytes(v: int): (s: seq<Byte>)
    ensures s != []
    decreases if v < 0 then -v else v
  {
    if -64 <= v < 64 then [v % 128] else [v % 128 + 128] + SlebBytes(v / 128)
  }

  class ByteBuilder {
    var data: seq<Byte>

    constructor ()
      ensures data == []
    {
      data := [];
    }

    method EmitUleb(v: Word)
      modifies this
      ensures data == old(data) + UlebBytes(v)
    {
      var value: nat := v;
      ghost var rest := UlebBytes(value);
      while true
        invariant rest == UlebBytes(value) && data + rest == old(data) + UlebBytes(v)
        decreases value
      {
        var byte := value % 128;
        value := value / 128;
        if value != 0 {
          byte := byte + 128;
        }
        ghost var before := data;
        data := data + [byte];
        if value == 0 {
          assert rest == [byte];
          break;
        }
        assert rest == [byte] + UlebBytes(value);
        assert before + rest == data + UlebBytes(value);
        rest := UlebBytes(value);
      }
    }

    method EmitSleb(v: int)
      requires -TWO63 <= v < TWO63
      modifies this
      ensures data == old(data) + SlebBytes(v)
    {
      var value := v;
      var more := true;
      ghost var rest := SlebBytes(value);
      while more
        invariant more ==> rest == SlebBytes(value)
        invariant data + rest == old(data) + SlebBytes(v)
        invariant !more ==> rest == []
        decreases more, if value < 0 then -value else value
      {
        var byte := value % 128;
        var sign := byte >= 64;
        value := value / 128;
        if (value == 0 && !sign) || (value == -1 && sign) {
          more := false;
          assert rest == [byte];
        } else {
          byte := byte + 128;
          assert rest == [byte] + SlebBytes(value);
        }
        assert data + rest == (data + [byte]) + rest[1..];
        data := data + [byte];
        rest := rest[1..];
      }
    }
  }

  // ----- decoding -----

  /** Bytes of the LEB128 number at `pos`, or 0 when no final byte occurs within `max` bytes. */
  function Length(buf: seq<Byte>, pos: nat, max: nat): (n: nat)
    ensures n <= max && (n > 0 ==> pos + n <= |buf|)
    decreases |buf| - pos
  {
    if max == 0 || pos >= |buf| then 0
    else if buf[pos] < 128 then 1
    else
      var rest := Length(buf, pos + 1, max - 1);
      if rest == 0 then 0 else rest + 1
  }

  function SignExtend32(low: nat): Word
    requires low < TWO32
  {
    if low < 0x8000_0000 then low else low + (TWO64 - TWO32)
  }

  /** The contribution of byte number `k`: the shift is done in a 32-bit `int`. */
  function UlebPiece(b: Byte, k: nat): Word {
    SignExtend32((b % 128 * Pow2(7 * k % 32)) % TWO32)
  }

  function UlebValue(buf: seq<Byte>, pos: nat, k: nat, acc: Word): Word
    requires k < ULEB_MAX && Length(buf, pos, ULEB_MAX - k) > 0
    decreases |buf| - pos
  {
    var acc' := Or(acc, UlebPiece(buf[pos], k));
    if buf[pos] < 128 then acc' else UlebValue(buf, pos + 1, k + 1, acc')
  }

  function SlebPiece(b: Byte, k: nat): Word {
    (b % 128 * Pow2(7 * k)) % TWO64
  }

  /** All ones from bit `7 * k` upwards, with the shift count taken modulo 64. */
  function SignFill(k: nat): Word {
    TWO64 - FillLow(k)
  }

  function FillLow(k: nat): (p: nat)
    ensures 0 < p < TWO64
  {
    Pow2At64();
    Pow2Less(7 * k % 64, 64);
    Pow2(7 * k % 64)
  }

  function SlebValue(buf: seq<Byte>, pos: nat, k: nat, acc: Word): Word
    requires k < SLEB_MAX && Length(buf, pos, SLEB_MAX - k) > 0
    decreases |buf| - pos
  {
    var acc' := Or(acc, SlebPiece(buf[pos], k));
    if buf[pos] < 128 then ExtendSign(acc', buf[pos], k + 1)
    else SlebValue(buf, pos + 1, k + 1, acc')
  }

  function ExtendSign(acc: Word, last: Byte, k: nat): Word {
    if last % 128 >= 64 then Or(acc, SignFill(k)) else acc
  }

  /** The decoder stops inside the buffer: at a final byte, or by itself after `max` bytes. */
  predicate Enough(buf: seq<Byte>, pos: nat, max: nat) {
    Length(buf, pos, max) > 0 || pos + max <= |buf|
  }

  /** Value and length, numbers without a final byte in their eight bytes included. */
  function UlebScan(buf: seq<Byte>, pos: nat, k: nat, acc: Word): (Word, nat)
    requires k <= ULEB_MAX && Enough(buf, pos, ULEB_MAX - k)
    decreases ULEB_MAX - k
  {
    if k == ULEB_MAX then (acc, k)
    else
      var acc' := Or(acc, UlebPiece(buf[pos], k));
      if buf[pos] < 128 then (acc', k + 1) else UlebScan(buf, pos + 1, k + 1, acc')
  }

  lemma {:induction false} UlebScanFinal(buf: seq<Byte>, pos: nat, k: nat, acc: Word)
    requires k < ULEB_MAX && Length(buf, pos, ULEB_MAX - k) > 0
    ensures UlebScan(buf, pos, k, acc) == (UlebValue(buf, pos, k, acc), k + Length(buf, pos, ULEB_MAX - k))
    decreases ULEB_MAX - k
  {
    hide Or, UlebPiece;
    if buf[pos] >= 128 {
      UlebScanFinal(buf, pos + 1, k + 1, Or(acc, UlebPiece(buf[pos], k)));
    }
  }

  method DecodeUleb(buf: seq<Byte>, pos: nat) returns (result: Word, size: nat)
    requires Enough(buf, pos, ULEB_MAX)
    ensures (result, size) == UlebScan(buf, pos, 0, 0)
    ensures Length(buf, pos, ULEB_MAX) > 0 ==> result == UlebValue(buf, pos, 0, 0) && size == Length(buf, pos, ULEB_MAX)
  {
    hide Or, UlebPiece;
    if Length(buf, pos, ULEB_MAX) > 0 {
      UlebScanFinal(buf, pos, 0, 0);
    }
    result, size := 0, 0;
    ghost var goal := UlebScan(buf, pos, 0, 0);
    while size < ULEB_MAX
      invariant size <= ULEB_MAX && Enough(buf, pos + size, ULEB_MAX - size)
      invariant goal == UlebScan(buf, pos + size, size, result)
    {
      var byte := buf[pos + size];
      result := Or(result, UlebPiece(byte, size));
      size := size + 1;
      if byte < 128 {
        break;
      }
    }
  }

  /** After ten bytes without a final one the shift has moved on once more. */
  function SlebScan(buf: seq<Byte>, pos: nat, k: nat, acc: Word, last: Byte): (Word, nat)
    requires k <= SLEB_MAX && Enough(buf, pos, SLEB_MAX - k)
    decreases SLEB_MAX - k
  {
    if k == SLEB_MAX then (ExtendSign(acc, last, k + 1), k)
    else
      var acc' := Or(acc, SlebPiece(buf[pos], k));
      if buf[pos] < 128 then (ExtendSign(acc', buf[pos], k + 1), k + 1) else SlebScan(buf, pos + 1, k + 1, acc', buf[pos])
  }

  lemma {:induction false} SlebScanFinal(buf: seq<Byte>, pos: nat, k: nat, acc: Word, last: Byte)
    requires k < SLEB_MAX && Length(buf, pos, SLEB_MAX - k) > 0
    ensures SlebScan(buf, pos, k, acc, last) == (SlebValue(buf, pos, k, acc), k + Length(buf, pos, SLEB_MAX - k))
    decreases SLEB_MAX - k
  {
    hide Or, SlebPiece, ExtendSign;
    if buf[pos] >= 128 {
      SlebScanFinal(buf, pos + 1, k + 1, Or(acc, SlebPiece(buf[pos], k)), buf[pos]);
    }
  }

  method DecodeSleb(buf: seq<Byte>, pos: nat) returns (result: Word, size: nat)
    requires Enough(buf, pos, SLEB_MAX)
    ensures (result, size) == SlebScan(buf, pos, 0, 0, 0)
    ensures Length(buf, pos, SLEB_MAX) > 0 ==> result == SlebValue(buf, pos, 0, 0) && size == Length(buf, pos, SLEB_MAX)
  {
    hide Or, SlebPiece, ExtendSign;
    if Length(buf, pos, SLEB_MAX) > 0 {
      SlebScanFinal(buf, pos, 0, 0, 0);
    }
    result, size := 0, 0;
    var byte: Byte, shifts := 0, 1;
    ghost var goal := SlebScan(buf, pos, 0, 0, 0);
    while size < SLEB_MAX
      invariant size <= SLEB_MAX && shifts == size + 1 && Enough(buf, pos + size, SLEB_MAX - size)
      invariant goal == SlebScan(buf, pos + size, size, result, byte)
    {
      byte := buf[pos + size];
      result := Or(result, SlebPiece(byte, size));
      size := size + 1;
      if byte < 128 {
        break;
      }
      shifts := shifts + 1;
    }
    result := ExtendSign(result, byte, shifts);
  }

  function ReadUleb(buf: seq<Byte>, pos: nat): Option<(Word, nat)> {
    var n := Length(buf, pos, ULEB_MAX);
    if n == 0 then None else Some((UlebValue(buf, pos, 0, 0), pos + n))
  }

  function ReadSleb(buf: seq<Byte>, pos: nat): Option<(Word, nat)> {
    var n := Length(buf, pos, SLEB_MAX);
    if n == 0 then None else Some((SlebValue(buf, pos, 0, 0), pos + n))
  }

  // ----- round trips -----

  ghost predicate At(buf: seq<Byte>, pos: nat, s: seq<Byte>) {
    pos + |s| <= |buf| && buf[pos..pos + |s|] == s
  }

  lemma AtTail(buf: seq<Byte>, pos: nat, s: seq<Byte>)
    requires At(buf, pos, s) && s != []
    ensures buf[pos] == s[0] && At(buf, pos + 1, s[1..])
  {
    assert buf[pos..pos + |s|][0] == s[0];
    assert buf[pos + 1..pos + |s|] == buf[pos..pos + |s|][1..];
  }

  lemma {:induction false} UlebLength(buf: seq<Byte>, pos: nat, v: nat, max: nat)
    requires At(buf, pos, UlebBytes(v))
    ensures Length(buf, pos, max) == if |UlebBytes(v)| <= max then |UlebBytes(v)| else 0
    decreases v
  {
    AtTail(buf, pos, UlebBytes(v));
    if v >= 128 && max > 0 {
      UlebLength(buf, pos + 1, v / 128, max - 1);
    }
  }

  lemma {:induction false} UlebSize(v: nat, n: nat)
    requires n > 0
    ensures |UlebBytes(v)| <= n <==> v < Pow2(7 * n)
  {
    Pow2At7(7 * (n - 1));
    if v < 128 {
    } else if n == 1 {
      assert Pow2(7) == 128;
    } else {
      UlebSize(v / 128, n - 1);
    }
  }

  /** Splitting off the low seven bits of `w`, seen from bit `k` on. */
  lemma LowPiece(w: int, p: nat)
    requires p > 0
    ensures w * p == w % 128 * p + w / 128 * (128 * p)
  {
    assert w == w % 128 + 128 * (w / 128);
  }

  lemma PieceFits(acc: nat, low: nat, p: nat)
    requires acc < p && low < 128
    ensures acc + low * p < 128 * p
  {
    MulMono(low, 127, p);
  }

  lemma MulMono(a: nat, b: nat, p: nat)
    requires a <= b
    ensures a * p <= b * p
  {}

  lemma OrPiece(acc: Word, low: nat, k: nat)
    requires 7 * k <= 64 && acc < Pow2(7 * k) && low * Pow2(7 * k) < TWO64
    ensures Or(acc, low * Pow2(7 * k)) == acc + low * Pow2(7 * k)
  {
    hide Bits, Pow2;
    Pow2At64();
    DivModUnique(low * Pow2(7 * k), Pow2(7 * k), low, 0);
    OrDisjoint(acc, low * Pow2(7 * k), 7 * k, 64);
  }

  /** What one more byte of `w` adds at bit `7 * k`, as long as the total stays below 2^31. */
  lemma UlebPieceOf(w: nat, k: nat, acc: nat, b: Byte)
    requires k <= 4 && acc < Pow2(7 * k) && acc + w * Pow2(7 * k) < 0x8000_0000
    requires b % 128 == w % 128
    ensures UlebPiece(b, k) == w % 128 * Pow2(7 * k)
    ensures acc + w * Pow2(7 * k) ==
            acc + w % 128 * Pow2(7 * k) + w / 128 * Pow2(7 * (k + 1))
    ensures acc + w % 128 * Pow2(7 * k) < Pow2(7 * (k + 1))
    ensures w >= 128 ==> k < 4
  {
    var p := Pow2(7 * k);
    assert Pow2(7 * (k + 1)) == 128 * p by { Pow2At7(7 * k); assert 7 * (k + 1) == 7 * k + 7; }
    LowPiece(w, p);
    PieceFits(acc, w % 128, p);
    MulMono(if w >= 128 then 1 else 0, w / 128, 128 * p);
    if k == 4 { FourPieces(); }
    SmallPiece(b, k);
  }

  lemma SmallPiece(b: Byte, k: nat)
    requires k <= 4 && b % 128 * Pow2(7 * k) < 0x8000_0000
    ensures UlebPiece(b, k) == b % 128 * Pow2(7 * k)
  {
    assert 7 * k % 32 == 7 * k;
    Small32(b % 128 * Pow2(7 * k));
  }

  lemma Small32(x: nat)
    requires x < 0x8000_0000
    ensures x % TWO32 == x && SignExtend32(x) == x
  {}

  lemma UlebByte(w: nat, k: nat, acc: Word, total: nat, b: Byte) returns (acc': Word)
    requires k <= 4 && acc < Pow2(7 * k) && total == acc + w * Pow2(7 * k) < 0x8000_0000
    requires b % 128 == w % 128
    ensures acc' == Or(acc, UlebPiece(b, k))
    ensures w < 128 ==> acc' == total
    ensures w >= 128 ==>
              k < 4 && acc' < Pow2(7 * (k + 1)) && total == acc' + w / 128 * Pow2(7 * (k + 1))
  {
    hide Or, UlebPiece;
    UlebPieceOf(w, k, acc, b);
    OrPiece(acc, w % 128, k);
    acc' := Or(acc, UlebPiece(b, k));
  }

  lemma {:induction false} UlebStep(buf: seq<Byte>, pos: nat, w: nat, k: nat, acc: Word, total: nat)
    requires k <= 4 && At(buf, pos, UlebBytes(w))
    requires acc < Pow2(7 * k) && total == acc + w * Pow2(7 * k) < 0x8000_0000
    requires Length(buf, pos, ULEB_MAX - k) > 0
    ensures UlebValue(buf, pos, k, acc) == total
    decreases w
  {
    hide Or, UlebPiece, Pow2;
    AtTail(buf, pos, UlebBytes(w));
    var acc' := UlebByte(w, k, acc, total, buf[pos]);
    if w >= 128 {
      UlebStep(buf, pos + 1, w / 128, k + 1, acc', total);
    }
  }

  lemma FourPieces()
    ensures Pow2(28) == 0x1000_0000
  {
    assert Pow2(7) == 128;
    Pow2Add(7, 7);
    Pow2Add(14, 14);
  }

  // A decoded ULEB number is always a sign-extended 32-bit integer.

  predicate IsInt32(w: Word) {
    w < 0x8000_0000 || w >= TWO64 - 0x8000_0000
  }

  lemma {:induction false} OrSmall(a: nat, b: nat, k: nat, n: nat)
    requires a < Pow2(k) && b < Pow2(k)
    ensures Bits(OR, a, b, n) < Pow2(k)
  {
    if n > 0 {
      OrSmall(a / 2, b / 2, if k == 0 then 0 else k - 1, n - 1);
    }
  }

  lemma {:induction false} OrAtLeast(a: nat, b: nat, n: nat)
    requires a < Pow2(n) && b < Pow2(n)
    ensures Bits(OR, a, b, n) >= a && Bits(OR, a, b, n) >= b
  {
    if n > 0 {
      OrAtLeast(a / 2, b / 2, n - 1);
    }
  }

  lemma OrInt32(a: Word, b: Word)
    requires IsInt32(a) && IsInt32(b)
    ensures IsInt32(Or(a, b))
  {
    hide Bits, Pow2;
    Pow2At64();
    if a < 0x8000_0000 && b < 0x8000_0000 {
      OrSmall(a, b, 31, 64);
    } else {
      OrAtLeast(a, b, 64);
    }
  }

  lemma {:induction false} UlebInt32(buf: seq<Byte>, pos: nat, k: nat, acc: Word)
    requires k < ULEB_MAX && Length(buf, pos, ULEB_MAX - k) > 0 && IsInt32(acc)
    ensures IsInt32(UlebValue(buf, pos, k, acc))
    decreases ULEB_MAX - k
  {
    OrInt32(acc, UlebPiece(buf[pos], k));
    if buf[pos] >= 128 {
      UlebInt32(buf, pos + 1, k + 1, Or(acc, UlebPiece(buf[pos], k)));
    }
  }

  lemma EndPowers()
    ensures Pow2(0) == 1 && Pow2(56) == 0x100_0000_0000_0000
  {
    FourPieces();
    Pow2Add(28, 28);
  }

  /** Decoding what emit_uleb printed gives the number and its length back exactly below 2^31. */
  lemma UlebRoundTrip(before: seq<Byte>, v: Word, after: seq<Byte>)
    ensures ReadUleb(before + UlebBytes(v) + after, |before|) == Some((v, |before| + |UlebBytes(v)|))
            <==> v < 0x8000_0000
  {
    hide UlebValue, UlebBytes, Length, Pow2;
    var buf, pos := before + UlebBytes(v) + after, |before|;
    assert At(buf, pos, UlebBytes(v));
    UlebLength(buf, pos, v, ULEB_MAX);
    UlebSize(v, ULEB_MAX);
    EndPowers();
    if v < 0x8000_0000 {
      UlebStep(buf, pos, v, 0, 0, v);
    } else if v < Pow2(56) {
      UlebInt32(buf, pos, 0, 0);
    }
  }

  // ----- signed numbers -----

  lemma {:induction false} SlebLength(buf: seq<Byte>, pos: nat, v: int, max: nat)
    requires At(buf, pos, SlebBytes(v))
    ensures Length(buf, pos, max) == if |SlebBytes(v)| <= max then |SlebBytes(v)| else 0
    decreases if v < 0 then -v else v
  {
    AtTail(buf, pos, SlebBytes(v));
    if !(-64 <= v < 64) && max > 0 {
      SlebLength(buf, pos + 1, v / 128, max - 1);
    }
  }

  lemma {:induction false} SlebSize(v: int, n: nat)
    requires n > 0
    ensures |SlebBytes(v)| <= n <==> 0 <= v + Pow2(7 * n - 1) && v < Pow2(7 * n - 1)
    decreases n
  {
    assert Pow2(6) == 64;
    if n > 1 {
      var p := Pow2(7 * (n - 1) - 1);
      Pow2At7(7 * (n - 1) - 1);
      if !(-64 <= v < 64) {
        SlebSize(v / 128, n - 1);
      } else {
        Pow2Less(6, 7 * n - 1);
      }
    }
  }

  /** Powers up to byte number 8, the last one whose sign fill is well defined. */
  lemma SlebPowers(k: nat)
    requires k <= 8
    ensures Pow2(7 * (k + 1)) == 128 * Pow2(7 * k) <= TWO63
    ensures TWO64 % (128 * Pow2(7 * k)) == 0
    ensures SignFill(k + 1) == TWO64 - 128 * Pow2(7 * k)
  {
    hide Pow2;
    Pow2At7(7 * k);
    PowerDivides(7 * (k + 1));
  }

  lemma PowerDivides(n: nat)
    requires n <= 63
    ensures Pow2(n) <= TWO63 && TWO64 % Pow2(n) == 0
  {
    hide Pow2;
    Pow2At64();
    if n < 63 { Pow2Less(n, 63); }
    Pow2Add(n, 64 - n);
    DivModUnique(TWO64, Pow2(n), Pow2(64 - n), 0);
  }

  lemma SmallSlebPiece(b: Byte, k: nat, low: nat)
    requires b % 128 == low && low * Pow2(7 * k) < TWO64
    ensures SlebPiece(b, k) == low * Pow2(7 * k)
  {
    MulMono(0, low, Pow2(7 * k));
    Small64(low * Pow2(7 * k));
  }

  /** A last byte without the sign bit. */
  lemma SlebLastPositive(w: nat, k: nat, acc: Word, total: int)
    requires w < 64 && k <= 9 && acc < Pow2(7 * k) && total == acc + w * Pow2(7 * k) < TWO63
    ensures ExtendSign(Or(acc, SlebPiece(w, k)), w, k + 1) == Unsigned(total)
  {
    SmallSlebPiece(w, k, w);
    OrPiece(acc, w, k);
    Small64(total);
  }

  /** A last byte with the sign bit: the fill supplies the missing high ones. */
  lemma SlebLastNegative(w: int, k: nat, acc: Word, total: int)
    requires -64 <= w < 0 && k <= 8 && acc < Pow2(7 * k) && total == acc + w * Pow2(7 * k)
    ensures ExtendSign(Or(acc, SlebPiece(w + 128, k)), w + 128, k + 1) == Unsigned(total)
  {
    hide Or, SlebPiece, Pow2, SignFill, Unsigned;
    var b, p := w + 128, Pow2(7 * k);
    assert b * p == w * p + 128 * p;
    SlebPowers(k);
    PieceFits(acc, b, p);
    SmallSlebPiece(b, k, b);
    OrPiece(acc, b, k);
    FillAbove(acc + b * p, k);
    MulMono(0, b, p);
    Small64(total + TWO64);
  }

  lemma FillAbove(x: Word, k: nat)
    requires k <= 8 && x < 128 * Pow2(7 * k)
    ensures Or(x, SignFill(k + 1)) == x + TWO64 - 128 * Pow2(7 * k)
  {
    SlebPowers(k);
    Pow2At64();
    MultipleRest(128 * Pow2(7 * k));
    OrDisjoint(x, SignFill(k + 1), 7 * (k + 1), 64);
  }

  lemma Small64(x: int)
    requires 0 <= x < TWO64
    ensures x % TWO64 == x && Unsigned(x) == x && Unsigned(x - TWO64) == x
  {}

  lemma MultipleRest(m: nat)
    requires 0 < m <= TWO64 && TWO64 % m == 0
    ensures (TWO64 - m) % m == 0
  {
    var q := TWO64 / m;
    assert TWO64 - m == m * (q - 1);
    DivModUnique(TWO64 - m, m, q - 1, 0);
  }

  lemma SlebByte(w: int, k: nat, acc: Word, total: int, b: Byte) returns (acc': Word)
    requires k <= 8 && acc < Pow2(7 * k) && total == acc + w * Pow2(7 * k) && b % 128 == w % 128
    ensures acc' == Or(acc, SlebPiece(b, k)) && acc' < Pow2(7 * (k + 1))
    ensures total == acc' + w / 128 * Pow2(7 * (k + 1))
  {
    var p := Pow2(7 * k);
    SlebPowers(k);
    LowPiece(w, p);
    PieceFits(acc, w % 128, p);
    SmallSlebPiece(b, k, w % 128);
    OrPiece(acc, w % 128, k);
    acc' := Or(acc, SlebPiece(b, k));
  }

  /** A number that goes on past byte `k` cannot do so past byte 8 towards the negative side. */
  lemma SlebContinues(w: int, k: nat, acc: Word, total: int)
    requires k <= 9 && acc < Pow2(7 * k) && total == acc + w * Pow2(7 * k)
    requires -(TWO63 / 2) <= total < TWO63 && !(-64 <= w < 64)
    ensures k <= 8 && (k == 8 ==> w > 0)
  {
    hide Pow2;
    Pow2At64();
    Pow2At7(56);
    if k >= 8 {
      var p := Pow2(7 * k);
      if w >= 0 {
        MulMono(64, w, p);
      }
    }
  }

  lemma SlebLast(w: int, k: nat, acc: Word, total: int)
    requires -64 <= w < 64 && k <= 9 && (k == 9 ==> w >= 0) && acc < Pow2(7 * k)
    requires total == acc + w * Pow2(7 * k) < TWO63
    ensures ExtendSign(Or(acc, SlebPiece(w % 128, k)), w % 128, k + 1) == Unsigned(total)
  {
    hide Or, SlebPiece, Pow2, ExtendSign, Unsigned;
    if w >= 0 {
      SlebLastPositive(w, k, acc, total);
    } else {
      assert w % 128 == w + 128;
      SlebLastNegative(w, k, acc, total);
    }
  }

  lemma SlebMore(w: int, k: nat, acc: Word, total: int, b: Byte) returns (acc': Word)
    requires k <= 9 && acc < Pow2(7 * k) && total == acc + w * Pow2(7 * k)
    requires -(TWO63 / 2) <= total < TWO63 && !(-64 <= w < 64) && b % 128 == w % 128
    ensures k <= 8 && (k == 8 ==> w >= 0)
    ensures acc' == Or(acc, SlebPiece(b, k)) && acc' < Pow2(7 * (k + 1))
    ensures total == acc' + w / 128 * Pow2(7 * (k + 1))
  {
    SlebContinues(w, k, acc, total);
    acc' := SlebByte(w, k, acc, total, b);
  }

  lemma {:induction false} SlebStep(buf: seq<Byte>, pos: nat, w: int, k: nat, acc: Word, total: int)
    requires k <= 9 && At(buf, pos, SlebBytes(w)) && (k == 9 ==> w >= 0)
    requires acc < Pow2(7 * k) && total == acc + w * Pow2(7 * k)
    requires -(TWO63 / 2) <= total < TWO63
    requires Length(buf, pos, SLEB_MAX - k) > 0
    ensures SlebValue(buf, pos, k, acc) == Unsigned(total)
    decreases SLEB_MAX - k
  {
    hide Or, SlebPiece, Pow2, ExtendSign, Unsigned;
    AtTail(buf, pos, SlebBytes(w));
    if -64 <= w < 64 {
      SlebLast(w, k, acc, total);
    } else {
      var acc' := SlebMore(w, k, acc, total, buf[pos]);
      SlebStep(buf, pos + 1, w / 128, k + 1, acc', total);
    }
  }

  lemma LateFill(x: Word)
    ensures Or(x, SignFill(10)) >= TWO64 - 64
  {
    hide Bits;
    assert Pow2(6) == 64;
    Pow2At64();
    OrAtLeast(x, SignFill(10), 64);
  }

  /** A negative number of ten bytes is sign-filled from bit 6 on. */
  lemma {:induction false} SlebTooLong(buf: seq<Byte>, pos: nat, w: int, k: nat, acc: Word)
    requires w < 0 && k < SLEB_MAX && At(buf, pos, SlebBytes(w)) && |SlebBytes(w)| == SLEB_MAX - k
    requires Length(buf, pos, SLEB_MAX - k) > 0
    ensures SlebValue(buf, pos, k, acc) >= TWO64 - 64
    decreases SLEB_MAX - k
  {
    hide Or, SlebPiece, Pow2, SignFill;
    AtTail(buf, pos, SlebBytes(w));
    var acc' := Or(acc, SlebPiece(buf[pos], k));
    if k == 9 {
      LateFill(acc');
    } else {
      SlebTooLong(buf, pos + 1, w / 128, k + 1, acc');
    }
  }

  /** Decoding what emit_sleb printed gives the number and its length back exactly from -2^62 on. */
  lemma SlebRoundTrip(before: seq<Byte>, v: int, after: seq<Byte>)
    requires -TWO63 <= v < TWO63
    ensures ReadSleb(before + SlebBytes(v) + after, |before|)
            == Some((Unsigned(v), |before| + |SlebBytes(v)|))
            <==> v >= -0x4000_0000_0000_0000
  {
    var buf, pos := before + SlebBytes(v) + after, |before|;
    assert At(buf, pos, SlebBytes(v));
    SlebLength(buf, pos, v, SLEB_MAX);
    Pow2At64();
    Pow2Less(63, 69);
    SlebSize(v, 10);
    if v >= -0x4000_0000_0000_0000 {
      SlebStep(buf, pos, v, 0, 0, v);
    } else {
      SlebSize(v, 9);
      SlebTooLong(buf, pos, v, 0, 0);
      Small64(v + TWO64);
    }
  }
}
