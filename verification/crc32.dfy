/**
 The CRC-32 that checks separate debug files (section 8 of RFC 1952).
 A 32-bit register is the sequence of its bits, least significant first.
 */
module Crc32 {
  import opened Words

  type Reg = s: seq<bool> | |s| == 32 witness seq(32, _ => false)

  function BitsOf(n: nat, len: nat): (s: seq<bool>)
    ensures |s| == len
    decreases len, n
  {
    if len == 0 then [] else [n % 2 == 1] + BitsOf(n / 2, len - 1)
  }

  function NumberOf(s: seq<bool>): nat {
    if s == [] then 0 else (if s[0] then 1 else 0) + 2 * NumberOf(s[1..])
  }

  const POLY: Reg := BitsOf(0xedb8_8320, 32)

  function Xor(a: Reg, b: Reg): Reg {
    seq(32, i requires 0 <= i < 32 => a[i] != b[i])
  }

  function Not(a: Reg): Reg {
    seq(32, i requires 0 <= i < 32 => !a[i])
  }

  function Shr(a: Reg, k: nat): Reg {
    seq(32, i requires 0 <= i < 32 => i + k < 32 && a[i + k])
  }

  /** A byte as a register: zero above bit 7. */
  function Widen(b: Byte): Reg {
    BitsOf(b, 32)
  }

  // ----- reference: one bit at a time -----

  function BitStep(c: Reg): Reg {
    if c[0] then Xor(POLY, Shr(c, 1)) else Shr(c, 1)
  }

  function BitSteps(c: Reg, n: nat): Reg {
    if n == 0 then c else BitStep(BitSteps(c, n - 1))
  }

  /** The register after feeding `data` bit by bit. */
  function Feed(c: Reg, data: seq<Byte>): Reg {
    if data == [] then c
    else
      var n := |data| - 1;
      BitSteps(Xor(Feed(c, data[..n]), Widen(data[n])), 8)
  }

  /** The published checksum of `data` continued from `crc`. */
  function Checksum(crc: Reg, data: seq<Byte>): Reg {
    Not(Feed(Not(crc), data))
  }

  // ----- the table -----

  method TableInit() returns (table: array<Reg>)
    ensures fresh(table) && table.Length == 256
    ensures forall i :: 0 <= i < 256 ==> table[i] == BitSteps(Widen(i), 8)
  {
    hide Widen, BitSteps, BitsOf;
    var zero := BitsOf(0, 32);
    table := new Reg[256](_ => zero);
    for i := 0 to 256
      invariant forall k :: 0 <= k < i ==> table[k] == BitSteps(Widen(k), 8)
    {
      table[i] := EightSteps(Widen(i));
    }
  }

  method EightSteps(i: Reg) returns (c: Reg)
    ensures c == BitSteps(i, 8)
  {
    hide Xor, Shr;
    c := i;
    for j := 0 to 8
      invariant c == BitSteps(i, j)
    {
      c := if c[0] then Xor(POLY, Shr(c, 1)) else Shr(c, 1);
    }
  }

  method Update(table: array<Reg>, crc: Reg, data: seq<Byte>) returns (r: Reg)
    requires table.Length == 256
    requires forall i :: 0 <= i < 256 ==> table[i] == BitSteps(Widen(i), 8)
    ensures r == Checksum(crc, data)
  {
    hide Xor, Shr, Widen, BitSteps, Not, NumberOf;
    var c := Not(crc);
    for i := 0 to |data|
      invariant c == Feed(Not(crc), data[..i])
    {
      var mixed := Xor(c, Widen(data[i]));
      TableStep(mixed);
      HighUnmixed(c, data[i]);
      assert data[..i + 1][..i] == data[..i];
      c := Xor(table[NumberOf(mixed[..8])], Shr(c, 8));
    }
    assert data[..|data|] == data;
    return Not(c);
  }

  // ----- why one lookup is eight steps -----

  /** Shifting out bits is linear: a register splits into parts that evolve apart. */
  lemma BitStepXor(a: Reg, b: Reg)
    ensures BitStep(Xor(a, b)) == Xor(BitStep(a), BitStep(b))
  {
    hide BitsOf;
    var l, r := BitStep(Xor(a, b)), Xor(BitStep(a), BitStep(b));
    forall i | 0 <= i < 32 ensures l[i] == r[i] {}
  }

  lemma {:induction false} BitStepsXor(a: Reg, b: Reg, n: nat)
    ensures BitSteps(Xor(a, b), n) == Xor(BitSteps(a, n), BitSteps(b, n))
  {
    hide BitStep, Xor;
    if n > 0 {
      BitStepsXor(a, b, n - 1);
      BitStepXor(BitSteps(a, n - 1), BitSteps(b, n - 1));
    }
  }

  /** A register whose low byte is zero is just shifted. */
  lemma {:induction false} HighShifts(h: Reg, k: nat)
    requires k <= 8 && forall i :: 0 <= i < 8 ==> !h[i]
    ensures BitSteps(h, k) == Shr(h, k)
  {
    hide Xor;
    if k == 0 {
      assert Shr(h, 0) == h;
    } else {
      HighShifts(h, k - 1);
      assert !Shr(h, k - 1)[0];
      assert Shr(Shr(h, k - 1), 1) == Shr(h, k);
    }
  }

  function Low(c: Reg): Reg {
    seq(32, i requires 0 <= i < 32 => i < 8 && c[i])
  }

  function High(c: Reg): Reg {
    seq(32, i requires 0 <= i < 32 => i >= 8 && c[i])
  }

  /** Eight bit steps are one table lookup. */
  lemma TableStep(c: Reg)
    ensures NumberOf(c[..8]) < 256
    ensures BitSteps(c, 8) == Xor(BitSteps(Widen(NumberOf(c[..8])), 8), Shr(c, 8))
  {
    assert Xor(Low(c), High(c)) == c;
    assert Shr(High(c), 8) == Shr(c, 8);
    assert forall i :: 0 <= i < 8 ==> !High(c)[i];
    hide BitSteps, Xor, Shr, Widen;
    BitStepsXor(Low(c), High(c), 8);
    HighShifts(High(c), 8);
    LowWidened(c);
  }

  lemma LowWidened(c: Reg)
    ensures NumberOf(c[..8]) < 256 && Widen(NumberOf(c[..8])) == Low(c)
  {
    NumberBound(c[..8]);
    assert Pow2(8) == 256;
    var padded := BitsOf(NumberOf(c[..8]), 32);
    forall i | 0 <= i < 32 ensures padded[i] == Low(c)[i] {
      BitAt(c[..8], 32, i);
    }
  }

  lemma {:induction false} NumberBound(s: seq<bool>)
    ensures NumberOf(s) < Pow2(|s|)
  {
    if s != [] {
      NumberBound(s[1..]);
    }
  }

  /** Writing a number back to bits restores the bits and pads with zeros. */
  lemma {:induction false} BitAt(s: seq<bool>, len: nat, i: nat)
    requires |s| <= len && i < len
    ensures BitsOf(NumberOf(s), len)[i] == (i < |s| && s[i])
    decreases len
  {
    if s == [] {
      ZeroBits(len, i);
    } else {
      var n := NumberOf(s);
      assert n / 2 == NumberOf(s[1..]) && (n % 2 == 1) == s[0];
      assert BitsOf(n, len) == [s[0]] + BitsOf(n / 2, len - 1);
      if i > 0 {
        BitAt(s[1..], len - 1, i - 1);
      }
    }
  }

  lemma {:induction false} ZeroBits(len: nat, i: nat)
    requires i < len
    ensures !BitsOf(0, len)[i]
  {
    if i > 0 {
      ZeroBits(len - 1, i - 1);
    }
  }

  lemma {:induction false} SmallBits(n: nat, k: nat, len: nat, i: nat)
    requires n < Pow2(k) && k <= i < len
    ensures !BitsOf(n, len)[i]
    decreases len
  {
    if k == 0 {
      ZeroBits(len, i);
    } else {
      SmallBits(n / 2, k - 1, len - 1, i - 1);
    }
  }

  /** Mixing in a byte leaves the bits that the table step shifts down. */
  lemma HighUnmixed(c: Reg, b: Byte)
    ensures Shr(Xor(c, Widen(b)), 8) == Shr(c, 8)
  {
    hide BitsOf;
    assert Pow2(8) == 256;
    forall i | 8 <= i < 32 ensures !Widen(b)[i] {
      SmallBits(b, 8, 32, i);
    }
  }

  // ----- chunks -----

  lemma {:induction false} FeedSplit(c: Reg, a: seq<Byte>, b: seq<Byte>)
    ensures Feed(c, a + b) == Feed(Feed(c, a), b)
    decreases |b|
  {
    hide BitSteps, Xor, Widen;
    if b == [] {
      assert a + b == a;
    } else {
      var n := |b| - 1;
      FeedSplit(c, a, b[..n]);
      assert (a + b)[..|a + b| - 1] == a + b[..n];
    }
  }

  lemma TwoChunks(crc: Reg, a: seq<Byte>, b: seq<Byte>)
    ensures Checksum(Checksum(crc, a), b) == Checksum(crc, a + b)
  {
    hide Feed;
    FeedSplit(Not(crc), a, b);
    assert Not(Not(Feed(Not(crc), a))) == Feed(Not(crc), a);
  }

  function Joined(chunks: seq<seq<Byte>>): seq<Byte> {
    if chunks == [] then [] else chunks[0] + Joined(chunks[1..])
  }

  /** The checksum carried from chunk to chunk. */
  function Chunked(crc: Reg, chunks: seq<seq<Byte>>): Reg
    decreases |chunks|
  {
    if chunks == [] then crc else Chunked(Checksum(crc, chunks[0]), chunks[1..])
  }

  /** Updating chunk by chunk, however the bytes are split, gives the checksum of all of them. */
  lemma {:induction false} ChunksConcatenate(crc: Reg, chunks: seq<seq<Byte>>)
    ensures Chunked(crc, chunks) == Checksum(crc, Joined(chunks))
    decreases |chunks|
  {
    hide Checksum;
    if chunks == [] {
      NoBytes(crc);
    } else {
      ChunksConcatenate(Checksum(crc, chunks[0]), chunks[1..]);
      TwoChunks(crc, chunks[0], Joined(chunks[1..]));
    }
  }

  lemma NoBytes(crc: Reg)
    ensures Checksum(crc, []) == crc
  {
    assert Not(Not(crc)) == crc;
  }

  // ----- checking a file -----

  /** What one `read` call returns; `Data([])` is the end of the file. */
  datatype Reading = Data(bytes: seq<Byte>) | Interrupted | Error

  /** The chunks up to the end of the file; None when reading fails or never ends. */
  function Contents(results: seq<Reading>): Option<seq<seq<Byte>>> {
    if results == [] then None
    else match results[0]
      case Error => None
      case Interrupted => Contents(results[1..])
      case Data(bytes) =>
        if bytes == [] then Some([])
        else
          var rest :- Contents(results[1..]);
          Some([bytes] + rest)
  }

  /** `gu_debuglink_crc_matches` over the results of its reads. */
  method CrcMatches(table: array<Reg>, results: seq<Reading>, expected: Reg) returns (matched: bool)
    requires table.Length == 256
    requires forall i :: 0 <= i < 256 ==> table[i] == BitSteps(Widen(i), 8)
    ensures matched <==> Contents(results).Some? && Checksum(BitsOf(0, 32), Joined(Contents(results).value)) == expected
  {
    hide Checksum, BitSteps, Widen, BitsOf, Joined;
    var crc: Reg := BitsOf(0, 32);
    var i := 0;
    ghost var goal := Answer(crc, results, expected);
    Answered(crc, results, expected);
    assert results[0..] == results;
    while i < |results|
      invariant 0 <= i <= |results|
      invariant goal == Answer(crc, results[i..], expected)
    {
      var r := results[i];
      assert results[i..][0] == r && results[i..][1..] == results[i + 1..];
      i := i + 1;
      match r {
        case Error => return false;
        case Interrupted =>
        case Data(bytes) =>
          if bytes == [] {
            return crc == expected;
          }
          crc := Update(table, crc, bytes);
      }
    }
    return false;
  }

  predicate Answer(crc: Reg, results: seq<Reading>, expected: Reg) {
    Contents(results).Some? && Chunked(crc, Contents(results).value) == expected
  }

  lemma Answered(crc: Reg, results: seq<Reading>, expected: Reg)
    ensures Answer(crc, results, expected) <==>
            Contents(results).Some? && Checksum(crc, Joined(Contents(results).value)) == expected
  {
    hide Checksum, Joined, Chunked, Contents;
    if Contents(results).Some? {
      ChunksConcatenate(crc, Contents(results).value);
    }
  }
}
