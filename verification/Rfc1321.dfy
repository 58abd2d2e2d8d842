/**
 * The message digest of sections 3.1 to 3.5 of RFC 1321 as functions on values: padding,
 * the sixty-four register operations in their published form, and the properties that
 * make them a digest step. Words are unsigned 32-bit.
 */
module Rfc1321 {
  import opened Bits
  import opened LittleEndian

  function Add(a: u32, b: u32): u32 { (a + b) % WORD }

  function Sub(a: u32, b: u32): u32 { (a + WORD - b) % WORD }

  lemma AddSub(a: u32, b: u32)
    ensures Sub(Add(a, b), b) == a && Add(Sub(a, b), b) == a
  {
  }

  function Not32(a: u32): u32 { WORD - 1 - a }

  function And32(a: u32, b: u32): u32 { Pow32(); AndFits(a, b, 32); And(a, b) }
  function Or32(a: u32, b: u32): u32 { Pow32(); OrFits(a, b, 32); Or(a, b) }
  function Xor32(a: u32, b: u32): u32 { Pow32(); XorFits(a, b, 32); Xor(a, b) }

  // ------------------------------------------------------------ circular shift

  lemma Pow2Split(s: nat)
    requires s <= 32
    ensures Pow2(s) * Pow2(32 - s) == WORD && Pow2(s) >= 1 && Pow2(32 - s) >= 1
  {
    Pow32();
    PowAdd(s, 32 - s);
    Pow2Grows(0, s);
    Pow2Grows(0, 32 - s);
  }

  /** The two halves of a word cut at q, where p and q multiply to 2^32: what a rotation exchanges. */
  lemma Halves(x: u32, p: nat, q: nat)
    requires p * q == WORD && p >= 1 && q >= 1
    ensures x == x / q * q + x % q && x % q < q && x / q < p
    ensures x % q * p + x / q < WORD
  {
    var hi, lo := x / q, x % q;
    assert x == hi * q + lo;
    HighHalf(hi, lo, p, q);
    LowHalf(hi, lo, p, q);
  }

  lemma HighHalf(hi: nat, lo: nat, p: nat, q: nat)
    requires hi * q + lo < p * q && q >= 1
    ensures hi < p
  {
    if hi >= p {
      MulMonotone(p, hi, q);
    }
  }

  lemma LowHalf(hi: nat, lo: nat, p: nat, q: nat)
    requires hi < p && lo < q
    ensures lo * p + hi < p * q
  {
    MulMonotone(lo + 1, q, p);
    assert (lo + 1) * p == lo * p + p;
  }

  /** Exchanges the two halves cut at q. */
  function Exchange(x: u32, p: nat, q: nat): u32
    requires p * q == WORD && p >= 1 && q >= 1
  {
    Halves(x, p, q);
    x % q * p + x / q
  }

  /** x <<< s: the bits leaving at the top enter at the bottom. */
  function Rotate(x: u32, s: nat): u32
    requires s <= 32
  {
    Pow2Split(s);
    Exchange(x, Pow2(s), Pow2(32 - s))
  }

  function RotateBack(y: u32, s: nat): u32
    requires s <= 32
  {
    Rotate(y, 32 - s)
  }

  lemma RotateInverse(x: u32, s: nat)
    requires s <= 32
    ensures RotateBack(Rotate(x, s), s) == x && Rotate(RotateBack(x, s), s) == x
  {
    RotateOneWay(x, s);
    RotateOneWay(x, 32 - s);
  }

  lemma RotateOneWay(x: u32, s: nat)
    requires s <= 32
    ensures Rotate(Rotate(x, s), 32 - s) == x
  {
    hide Pow2, Exchange;
    Pow2Split(s);
    Pow2Split(32 - s);
    assert 32 - (32 - s) == s;
    ExchangeTwice(x, Pow2(s), Pow2(32 - s));
  }

  lemma ExchangeTwice(x: u32, p: nat, q: nat)
    requires p * q == WORD == q * p && p >= 1 && q >= 1
    ensures Exchange(Exchange(x, p, q), q, p) == x
  {
    Halves(x, p, q);
    DivModUnique(Exchange(x, p, q), x % q, x / q, p);
  }

  // ------------------------------------------------------------ section 3.4: functions and tables

  function F(x: u32, y: u32, z: u32): u32 { Or32(And32(x, y), And32(Not32(x), z)) }
  function G(x: u32, y: u32, z: u32): u32 { Or32(And32(x, z), And32(y, Not32(z))) }
  function H(x: u32, y: u32, z: u32): u32 { Xor32(Xor32(x, y), z) }
  function I(x: u32, y: u32, z: u32): u32 { Xor32(y, Or32(x, Not32(z))) }

  /** F is a bitwise conditional: each bit is that of y where x is set, and that of z elsewhere. */
  lemma FSelects(x: u32, y: u32, z: u32, i: nat)
    requires i < 32
    ensures BitAt(F(x, y, z), i) == if BitAt(x, i) then BitAt(y, i) else BitAt(z, i)
  {
    hide And, Or, BitAt;
    OrBit(And32(x, y), And32(Not32(x), z), i);
    AndBit(x, y, i);
    AndBit(Not32(x), z, i);
    Pow32();
    NotBit(x, 32, i);
  }

  /** G is the same with z selecting, H the parity of the three bits, and I sets y against "x or not z". */
  lemma GHIBits(x: u32, y: u32, z: u32, i: nat)
    requires i < 32
    ensures BitAt(G(x, y, z), i) == if BitAt(z, i) then BitAt(x, i) else BitAt(y, i)
    ensures BitAt(H(x, y, z), i) == ((BitAt(x, i) != BitAt(y, i)) != BitAt(z, i))
    ensures BitAt(I(x, y, z), i) == (BitAt(y, i) != (BitAt(x, i) || !BitAt(z, i)))
  {
    hide And, Or, Xor, BitAt;
    Pow32();
    NotBit(z, 32, i);
    OrBit(And32(x, z), And32(y, Not32(z)), i);
    AndBit(x, z, i);
    AndBit(y, Not32(z), i);
    XorBit(Xor32(x, y), z, i);
    XorBit(x, y, i);
    XorBit(y, Or32(x, Not32(z)), i);
    OrBit(x, Not32(z), i);
  }

  lemma GIsF(x: u32, y: u32, z: u32)
    ensures G(x, y, z) == F(z, x, y)
  {
    hide And, Or;
    AndComm(x, z);
    AndComm(y, Not32(z));
  }

  const SINE: seq<u32> := SINE1 + SINE2 + SINE3 + SINE4
  const SINE1: seq<u32> := [
    0xd76aa478, 0xe8c7b756, 0x242070db, 0xc1bdceee, 0xf57c0faf, 0x4787c62a, 0xa8304613, 0xfd469501,
    0x698098d8, 0x8b44f7af, 0xffff5bb1, 0x895cd7be, 0x6b901122, 0xfd987193, 0xa679438e, 0x49b40821
  ]
  const SINE2: seq<u32> := [
    0xf61e2562, 0xc040b340, 0x265e5a51, 0xe9b6c7aa, 0xd62f105d, 0x02441453, 0xd8a1e681, 0xe7d3fbc8,
    0x21e1cde6, 0xc33707d6, 0xf4d50d87, 0x455a14ed, 0xa9e3e905, 0xfcefa3f8, 0x676f02d9, 0x8d2a4c8a
  ]
  const SINE3: seq<u32> := [
    0xfffa3942, 0x8771f681, 0x6d9d6122, 0xfde5380c, 0xa4beea44, 0x4bdecfa9, 0xf6bb4b60, 0xbebfbc70,
    0x289b7ec6, 0xeaa127fa, 0xd4ef3085, 0x04881d05, 0xd9d4d039, 0xe6db99e5, 0x1fa27cf8, 0xc4ac5665
  ]
  const SINE4: seq<u32> := [
    0xf4292244, 0x432aff97, 0xab9423a7, 0xfc93a039, 0x655b59c3, 0x8f0ccc92, 0xffeff47d, 0x85845dd1,
    0x6fa87e4f, 0xfe2ce6e0, 0xa3014314, 0x4e0811a1, 0xf7537e82, 0xbd3af235, 0x2ad7d2bb, 0xeb86d391
  ]

  type WordIndex = k: nat | k < 16

  /** The k of each [abcd k s i] operation, in published order. */
  const WORD_INDEX: seq<WordIndex> := INDEX1 + INDEX2 + INDEX3 + INDEX4
  const INDEX1: seq<WordIndex> := [0, 1, 2, 3, 4, 5, 6, 7, 8, 9, 10, 11, 12, 13, 14, 15]
  const INDEX2: seq<WordIndex> := [1, 6, 11, 0, 5, 10, 15, 4, 9, 14, 3, 8, 13, 2, 7, 12]
  const INDEX3: seq<WordIndex> := [5, 8, 11, 14, 1, 4, 7, 10, 13, 0, 3, 6, 9, 12, 15, 2]
  const INDEX4: seq<WordIndex> := [0, 7, 14, 5, 12, 3, 10, 1, 8, 15, 6, 13, 4, 11, 2, 9]

  /** The s of each round, repeated four times within it. */
  const SHIFTS: seq<seq<nat>> := [[7, 12, 17, 22], [5, 9, 14, 20], [4, 11, 16, 23], [6, 10, 15, 21]]

  lemma TablesWellFormed(i: nat)
    requires i < 64
    ensures WORD_INDEX[i] < 16 && i / 16 < 4 && i % 4 < 4
    ensures |SHIFTS[i / 16]| == 4 && 0 < SHIFTS[i / 16][i % 4] < 32
  {
  }

  function Shift(i: nat): (s: nat)
    requires i < 64
    ensures 0 < s < 32
  {
    TablesWellFormed(i);
    SHIFTS[i / 16][i % 4]
  }

  function Round(i: nat, x: u32, y: u32, z: u32): u32
    requires i < 64
  {
    if i < 16 then F(x, y, z) else if i < 32 then G(x, y, z) else if i < 48 then H(x, y, z) else I(x, y, z)
  }

  // ------------------------------------------------------------ section 3.4: the operations

  datatype Regs = Regs(A: u32, B: u32, C: u32, D: u32)

  type Block = x: seq<u32> | |x| == 16 witness seq(16, _ => 0)

  /** a = b + ((a + fun(b,c,d) + X[k] + T[i]) <<< s) */
  function Op(i: nat, x: Block, a: u32, b: u32, c: u32, d: u32): u32
    requires i < 64
  {
    TablesWellFormed(i);
    Add(b, Rotate(Add(Add(Add(a, Round(i, b, c, d)), SINE[i]), x[WORD_INDEX[i]]), Shift(i)))
  }

  /** The i-th operation; the register rewritten cycles through ABCD, DABC, CDAB, BCDA. */
  function Operation(i: nat, x: Block, r: Regs): Regs
    requires i < 64
  {
    if i % 4 == 0 then r.(A := Op(i, x, r.A, r.B, r.C, r.D))
    else if i % 4 == 1 then r.(D := Op(i, x, r.D, r.A, r.B, r.C))
    else if i % 4 == 2 then r.(C := Op(i, x, r.C, r.D, r.A, r.B))
    else r.(B := Op(i, x, r.B, r.C, r.D, r.A))
  }

  /** The first n operations. */
  function Operations(x: Block, r: Regs, n: nat): Regs
    requires n <= 64
  {
    if n == 0 then r else Operation(n - 1, x, Operations(x, r, n - 1))
  }

  function AddRegs(r: Regs, h: Regs): Regs {
    Regs(Add(h.A, r.A), Add(h.B, r.B), Add(h.C, r.C), Add(h.D, r.D))
  }

  function Compress(h: Regs, x: Block): Regs { AddRegs(Operations(x, h, 64), h) }

  // ------------------------------------------------------------ the operations are a permutation

  function UnOp(i: nat, x: Block, a: u32, b: u32, c: u32, d: u32): u32
    requires i < 64
  {
    TablesWellFormed(i);
    Sub(Sub(Sub(RotateBack(Sub(a, b), Shift(i)), x[WORD_INDEX[i]]), SINE[i]), Round(i, b, c, d))
  }

  lemma OpInverse(i: nat, x: Block, a: u32, b: u32, c: u32, d: u32)
    requires i < 64
    ensures UnOp(i, x, Op(i, x, a, b, c, d), b, c, d) == a
    ensures Op(i, x, UnOp(i, x, a, b, c, d), b, c, d) == a
  {
    hide Round, Rotate, Add, Sub;
    TablesWellFormed(i);
    var f, t, w, s := Round(i, b, c, d), SINE[i], x[WORD_INDEX[i]], Shift(i);
    var sum := Add(Add(Add(a, f), t), w);
    AddSub(a, f);
    AddSub(Add(a, f), t);
    AddSub(Add(Add(a, f), t), w);
    RotateInverse(sum, s);
    AddComm(b, Rotate(sum, s));
    AddSub(Rotate(sum, s), b);
    var back := RotateBack(Sub(a, b), s);
    AddSub(Sub(Sub(back, w), t), f);
    AddSub(Sub(back, w), t);
    AddSub(back, w);
    RotateInverse(Sub(a, b), s);
    AddSub(a, b);
    AddComm(b, Sub(a, b));
  }

  lemma AddComm(a: u32, b: u32)
    ensures Add(a, b) == Add(b, a)
  {
  }

  function UndoOperation(i: nat, x: Block, r: Regs): Regs
    requires i < 64
  {
    if i % 4 == 0 then r.(A := UnOp(i, x, r.A, r.B, r.C, r.D))
    else if i % 4 == 1 then r.(D := UnOp(i, x, r.D, r.A, r.B, r.C))
    else if i % 4 == 2 then r.(C := UnOp(i, x, r.C, r.D, r.A, r.B))
    else r.(B := UnOp(i, x, r.B, r.C, r.D, r.A))
  }

  lemma OperationInverse(i: nat, x: Block, r: Regs)
    requires i < 64
    ensures UndoOperation(i, x, Operation(i, x, r)) == r
    ensures Operation(i, x, UndoOperation(i, x, r)) == r
  {
    hide Op, UnOp;
    OpInverse(i, x, r.A, r.B, r.C, r.D);
    OpInverse(i, x, r.D, r.A, r.B, r.C);
    OpInverse(i, x, r.C, r.D, r.A, r.B);
    OpInverse(i, x, r.B, r.C, r.D, r.A);
  }

  function UndoOperations(x: Block, r: Regs, n: nat): Regs
    requires n <= 64
    decreases n
  {
    if n == 0 then r else UndoOperations(x, UndoOperation(n - 1, x, r), n - 1)
  }

  /** For a fixed block the operations permute the registers, with an explicit inverse. */
  lemma {:induction false} OperationsInverse(x: Block, r: Regs, n: nat)
    requires n <= 64
    ensures UndoOperations(x, Operations(x, r, n), n) == r
    ensures Operations(x, UndoOperations(x, r, n), n) == r
    decreases n
  {
    hide Operation, UndoOperation;
    if n == 0 {
    } else {
      OperationsInverse(x, r, n - 1);
      OperationInverse(n - 1, x, Operations(x, r, n - 1));
      OperationsInverse(x, UndoOperation(n - 1, x, r), n - 1);
      OperationInverse(n - 1, x, r);
    }
  }

  // ------------------------------------------------------------ sections 3.1, 3.2: padding

  function Zeros(n: nat): (s: seq<byte>)
    ensures |s| == n
  {
    seq(n, _ => 0)
  }

  /** Zero bytes needed after the marker to reach 56 modulo 64. */
  function ZeroCount(len: nat): nat { (119 - len % 64) % 64 }

  /** The marker bit, zeros, and the length in bits modulo 2^64. */
  function Padded(msg: seq<byte>): seq<byte> {
    msg + [0x80] + Zeros(ZeroCount(|msg|)) + LeBytes(8 * |msg|, 8)
  }

  /** Padding gives a whole number of blocks, and the fewest that hold marker and length. */
  lemma PaddingMinimal(msg: seq<byte>, n: nat)
    ensures |Padded(msg)| % 64 == 0 && |Padded(msg)| >= |msg| + 9
    ensures n % 64 == 0 && n >= |msg| + 9 ==> |Padded(msg)| <= n
  {
    assert |Padded(msg)| == |msg| + 9 + ZeroCount(|msg|);
    LeastMultiple(|msg|, n);
  }

  lemma ZerosByRest(len: nat)
    ensures ZeroCount(len) == (if len % 64 <= 55 then 55 else 119) - len % 64
  {
  }

  lemma LeastMultiple(len: nat, n: nat)
    ensures var t := len + 9 + ZeroCount(len);
            t % 64 == 0 && (n % 64 == 0 && n >= len + 9 ==> t <= n)
  {
    var k, m := len / 64, len % 64;
    var t := len + 9 + ZeroCount(len);
    assert len == 64 * k + m;
    ZerosByRest(len);
    hide ZeroCount;
    assert t == 64 * if m <= 55 then k + 1 else k + 2;
    if n % 64 == 0 && n >= len + 9 {
      assert n == 64 * (n / 64);
    }
  }

  function StripZeros(s: seq<byte>): seq<byte> {
    if s != [] && s[|s| - 1] == 0 then StripZeros(s[..|s| - 1]) else s
  }

  /** Reads the message back out of its padded form. */
  function Unpad(p: seq<byte>): seq<byte> {
    if |p| < 8 then [] else
    var body := StripZeros(p[..|p| - 8]);
    if body == [] then [] else body[..|body| - 1]
  }

  lemma {:induction false} StripZerosOff(s: seq<byte>, n: nat)
    requires s != [] && s[|s| - 1] != 0
    ensures StripZeros(s + Zeros(n)) == s
    decreases n
  {
    if n == 0 {
      assert s + Zeros(0) == s;
    } else {
      assert (s + Zeros(n))[..|s| + n - 1] == s + Zeros(n - 1);
      StripZerosOff(s, n - 1);
    }
  }

  lemma UnpadPadded(msg: seq<byte>)
    ensures Unpad(Padded(msg)) == msg
  {
    var n, p := ZeroCount(|msg|), Padded(msg);
    assert p[..|p| - 8] == msg + [0x80] + Zeros(n);
    StripZerosOff(msg + [0x80], n);
  }

  /** No two messages, of any lengths, are padded alike. */
  lemma PaddingInjective(m1: seq<byte>, m2: seq<byte>)
    ensures Padded(m1) == Padded(m2) <==> m1 == m2
  {
    UnpadPadded(m1);
    UnpadPadded(m2);
  }

  // ------------------------------------------------------------ section 3.3, 3.5: the digest

  const INITIAL := Regs(0x67452301, 0xefcdab89, 0x98badcfe, 0x10325476)

  function WordsOf(block: seq<byte>): Block
    requires |block| == 64
  {
    seq(16, j requires 0 <= j < 16 => FromLe(block[4 * j..4 * j + 4]))
  }

  function Fold(h: Regs, p: seq<byte>): Regs
    decreases p
  {
    if |p| < 64 then h else Fold(Compress(h, WordsOf(p[..64])), p[64..])
  }

  function Output(r: Regs): seq<byte> {
    LeBytes(r.A, 4) + LeBytes(r.B, 4) + LeBytes(r.C, 4) + LeBytes(r.D, 4)
  }

  function Digest(msg: seq<byte>): seq<byte> { Output(Fold(INITIAL, Padded(msg))) }
}
