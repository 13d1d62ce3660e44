/** Machine words of the unwinder: bytes and 64-bit unsigned integers with explicit wrap-around. */
module Words {

  const TWO32: int := 0x1_0000_0000
  const TWO63: int := 0x8000_0000_0000_0000
  const TWO64: int := 0x1_0000_0000_0000_0000

  type Byte = b: nat | b < 256
  type Word = w: nat | w < 0x1_0000_0000_0000_0000

  datatype Option<+T> = None | Some(value: T) {
    predicate IsFailure() {
      None?
    }

    function PropagateFailure<U>(): Option<U>
      requires None?
    {
      None
    }

    function Extract(): T
      requires Some?
    {
      value
    }
  }

  // ----- arithmetic modulo 2^64 -----

  function Add(a: Word, b: Word): Word {
    if a + b < TWO64 then a + b else a + b - TWO64
  }

  function Sub(a: Word, b: Word): Word {
    if a >= b then a - b else a + TWO64 - b
  }

  function Mul(a: Word, b: Word): Word {
    (a * b) % TWO64
  }

  /** The two's complement reading of a word. */
  function Signed(w: Word): int {
    if w < TWO63 then w else w - TWO64
  }

  /** The word that holds a (possibly negative) integer. */
  function Unsigned(i: int): Word {
    i % TWO64
  }

  /** Conversion of a 64-bit word to C `int`: keep 32 bits, read them as two's complement. */
  function ToInt32(w: Word): int {
    var low := w % TWO32;
    if low < 0x8000_0000 then low else low - TWO32
  }

  /** Conversion of an operand to C `int16_t`. */
  function ToInt16(w: Word): int {
    var low := w % 0x1_0000;
    if low < 0x8000 then low else low - 0x1_0000
  }

  // ----- powers of two and bitwise operations -----

  function Pow2(n: nat): (p: nat)
    ensures p >= 1
  {
    if n == 0 then 1 else 2 * Pow2(n - 1)
  }

  lemma {:induction false} Pow2Add(a: nat, b: nat)
    ensures Pow2(a + b) == Pow2(a) * Pow2(b)
  {
    if b > 0 {
      Pow2Add(a, b - 1);
      assert a + b - 1 == a + (b - 1);
    }
  }

  lemma {:induction false} Pow2Less(a: nat, b: nat)
    requires a < b
    ensures Pow2(a) < Pow2(b)
  {
    if a + 1 < b {
      Pow2Less(a, b - 1);
    }
  }

  lemma Pow2At7(n: nat)
    ensures Pow2(n + 7) == 128 * Pow2(n)
  {
    Pow2Add(n, 7);
    assert Pow2(7) == 128;
  }

  lemma Pow2At64()
    ensures Pow2(64) == TWO64 && Pow2(32) == TWO32 && Pow2(63) == TWO63 && Pow2(62) == TWO63 / 2
    ensures Pow2(31) == TWO32 / 2
  {
    hide Pow2;
    Pow2At8();
    Pow2Add(8, 8);
    Pow2Add(16, 16);
    Pow2Add(32, 32);
    Pow2Step(31);
    Pow2Step(62);
    Pow2Step(63);
  }

  lemma Pow2At8()
    ensures Pow2(8) == 256
  {
  }

  lemma Pow2Step(n: nat)
    ensures Pow2(n + 1) == 2 * Pow2(n)
  {
  }

  /** Apply `op` bit by bit to the low `n` bits of `a` and `b`. */
  function Bits(op: (bool, bool) -> bool, a: nat, b: nat, n: nat): (r: nat)
    ensures r < Pow2(n)
  {
    if n == 0 then 0
    else (if op(a % 2 == 1, b % 2 == 1) then 1 else 0) + 2 * Bits(op, a / 2, b / 2, n - 1)
  }

  function Bitwise(op: (bool, bool) -> bool, a: Word, b: Word): Word {
    Pow2At64();
    Bits(op, a, b, 64)
  }

  const AND: (bool, bool) -> bool := (x, y) => x && y
  const OR: (bool, bool) -> bool := (x, y) => x || y
  const XOR: (bool, bool) -> bool := (x, y) => x != y

  function Or(a: Word, b: Word): Word {
    Bitwise(OR, a, b)
  }

  /** OR of numbers whose set bits do not overlap is addition. */
  lemma {:induction false} OrDisjoint(a: nat, b: nat, k: nat, n: nat)
    requires k <= n && a < Pow2(k) && b < Pow2(n) && b % Pow2(k) == 0
    ensures Bits(OR, a, b, n) == a + b
  {
    if k == 0 {
      OrZero(b, n);
    } else {
      var p := Pow2(k - 1);
      var q := b / Pow2(k);
      assert b == Pow2(k) * q == 2 * (p * q);
      assert b / 2 == p * q;
      DivModUnique(p * q, p, q, 0);
      OrDisjoint(a / 2, b / 2, k - 1, n - 1);
    }
  }

  /** Quotient and remainder are unique. */
  lemma DivModUnique(x: int, d: int, q: int, r: int)
    requires 0 < d && x == d * q + r && 0 <= r < d
    ensures x / d == q && x % d == r
  {
    if q > x / d {
      MulAtLeast(d, q, x / d);
    } else if q < x / d {
      MulAtLeast(d, x / d, q);
    }
  }

  lemma {:induction false} MulAtLeast(d: int, a: int, b: int)
    requires 0 < d && a > b
    ensures d * a >= d * b + d
    decreases a - b
  {
    assert d * a == d * (a - 1) + d;
    if a > b + 1 {
      MulAtLeast(d, a - 1, b);
    }
  }

  lemma {:induction false} OrZero(b: nat, n: nat)
    requires b < Pow2(n)
    ensures Bits(OR, 0, b, n) == b
  {
    if n > 0 {
      OrZero(b / 2, n - 1);
    }
  }
}
