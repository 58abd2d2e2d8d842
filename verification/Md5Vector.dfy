/**
 * A digest of appendix A.5 of RFC 1321, worked out step by step: it holds the tables, the
 * shift amounts, the order of the registers and the four functions to the published values.
 */
module Md5Vector {
  import opened Bits
  import opened LittleEndian
  import opened Rfc1321

  // ------------------------------------------------------------ the four functions on numbers

  /** One bit of F, G, H or I. */
  predicate OneBit(r: nat, x: bool, y: bool, z: bool) {
    if r == 0 then (if x then y else z)
    else if r == 1 then (if z then x else y)
    else if r == 2 then (x != y) != z
    else y != (x || !z)
  }

  function Bitwise(r: nat, x: nat, y: nat, z: nat, n: nat): nat
    decreases n
  {
    if n == 0 then 0
    else Bit(OneBit(r, Low(x), Low(y), Low(z))) + 2 * Bitwise(r, x / 2, y / 2, z / 2, n - 1)
  }

  lemma BitwiseHead(r: nat, x: nat, y: nat, z: nat, n: nat)
    requires n > 0
    ensures var w := Bitwise(r, x, y, z, n);
            Low(w) == OneBit(r, Low(x), Low(y), Low(z)) && w / 2 == Bitwise(r, x / 2, y / 2, z / 2, n - 1)
  {
  }

  lemma {:induction false} BitwiseFits(r: nat, x: nat, y: nat, z: nat, n: nat)
    ensures Bitwise(r, x, y, z, n) < Pow2(n)
    decreases n
  {
    if n > 0 {
      BitwiseFits(r, x / 2, y / 2, z / 2, n - 1);
    }
  }

  lemma {:induction false} BitwiseBit(r: nat, x: nat, y: nat, z: nat, n: nat, i: nat)
    requires i < n
    ensures BitAt(Bitwise(r, x, y, z, n), i) == OneBit(r, BitAt(x, i), BitAt(y, i), BitAt(z, i))
    decreases n
  {
    hide BitAt, OneBit, Bitwise;
    var w := Bitwise(r, x, y, z, n);
    BitwiseHead(r, x, y, z, n);
    if i == 0 {
      BitZero(x);
      BitZero(y);
      BitZero(z);
      BitZero(w);
    } else {
      BitwiseBit(r, x / 2, y / 2, z / 2, n - 1, i - 1);
      BitUp(x, i - 1);
      BitUp(y, i - 1);
      BitUp(z, i - 1);
      BitUp(w, i - 1);
    }
  }

  lemma {:induction false} SameBits(a: nat, b: nat, n: nat)
    requires a < Pow2(n) && b < Pow2(n) && forall i: nat :: i < n ==> BitAt(a, i) == BitAt(b, i)
    ensures a == b
    decreases n
  {
    hide BitAt;
    if n > 0 {
      BitZero(a);
      BitZero(b);
      assert BitAt(a, 0) == BitAt(b, 0);
      forall i: nat | i < n - 1
        ensures BitAt(a / 2, i) == BitAt(b / 2, i)
      {
        BitUp(a, i);
        BitUp(b, i);
        assert BitAt(a, i + 1) == BitAt(b, i + 1);
      }
      SameBits(a / 2, b / 2, n - 1);
    }
  }

  lemma RoundIsBitwise(i: nat, x: u32, y: u32, z: u32)
    requires i < 64
    ensures Round(i, x, y, z) == Bitwise(i / 16, x, y, z, 32)
  {
    hide BitAt, Bitwise, F, G, H, I;
    var w := Round(i, x, y, z);
    forall k: nat | k < 32
      ensures BitAt(w, k) == BitAt(Bitwise(i / 16, x, y, z, 32), k)
    {
      BitwiseBit(i / 16, x, y, z, 32, k);
      FSelects(x, y, z, k);
      GHIBits(x, y, z, k);
    }
    Pow32();
    BitwiseFits(i / 16, x, y, z, 32);
    SameBits(w, Bitwise(i / 16, x, y, z, 32), 32);
  }

  // ------------------------------------------------------------ words in hexadecimal

  /** A hexadecimal digit by its bits, the highest first, and a word by its digits. */
  datatype Digit = Digit(b3: bool, b2: bool, b1: bool, b0: bool)
  datatype Hex = Hex(n7: Digit, n6: Digit, n5: Digit, n4: Digit, n3: Digit, n2: Digit, n1: Digit, n0: Digit)

  const x0 := Digit(false, false, false, false)
  const x1 := Digit(false, false, false, true)
  const x2 := Digit(false, false, true, false)
  const x3 := Digit(false, false, true, true)
  const x4 := Digit(false, true, false, false)
  const x5 := Digit(false, true, false, true)
  const x6 := Digit(false, true, true, false)
  const x7 := Digit(false, true, true, true)
  const x8 := Digit(true, false, false, false)
  const x9 := Digit(true, false, false, true)
  const xA := Digit(true, false, true, false)
  const xB := Digit(true, false, true, true)
  const xC := Digit(true, true, false, false)
  const xD := Digit(true, true, false, true)
  const xE := Digit(true, true, true, false)
  const xF := Digit(true, true, true, true)

  function Value(n: Digit): nat {
    (if n.b3 then 8 else 0) + (if n.b2 then 4 else 0) + (if n.b1 then 2 else 0) + (if n.b0 then 1 else 0)
  }

  function Word(h: Hex): (w: u32) {
    Value(h.n0) + 0x10 * Value(h.n1) + 0x100 * Value(h.n2) + 0x1000 * Value(h.n3)
    + 0x1_0000 * Value(h.n4) + 0x10_0000 * Value(h.n5) + 0x100_0000 * Value(h.n6) + 0x1000_0000 * Value(h.n7)
  }

  function MixDigit(r: nat, x: Digit, y: Digit, z: Digit): Digit {
    Digit(OneBit(r, x.b3, y.b3, z.b3), OneBit(r, x.b2, y.b2, z.b2),
          OneBit(r, x.b1, y.b1, z.b1), OneBit(r, x.b0, y.b0, z.b0))
  }

  function Mix(r: nat, x: Hex, y: Hex, z: Hex): Hex {
    Hex(MixDigit(r, x.n7, y.n7, z.n7), MixDigit(r, x.n6, y.n6, z.n6),
        MixDigit(r, x.n5, y.n5, z.n5), MixDigit(r, x.n4, y.n4, z.n4),
        MixDigit(r, x.n3, y.n3, z.n3), MixDigit(r, x.n2, y.n2, z.n2),
        MixDigit(r, x.n1, y.n1, z.n1), MixDigit(r, x.n0, y.n0, z.n0))
  }

  /** A bit below a number. */
  function Under(b: bool, x: nat): nat { Bit(b) + 2 * x }

  lemma MixBit(r: nat, b: bool, x: nat, c: bool, y: nat, d: bool, z: nat, n: nat)
    ensures Bitwise(r, Under(b, x), Under(c, y), Under(d, z), n + 1) == Under(OneBit(r, b, c, d), Bitwise(r, x, y, z, n))
  {
    var x1, y1, z1 := Under(b, x), Under(c, y), Under(d, z);
    assert x1 / 2 == x && y1 / 2 == y && z1 / 2 == z && Low(x1) == b && Low(y1) == c && Low(z1) == d;
  }

  /** A digit below a number. */
  function Onto(a: Digit, x: nat): nat { Under(a.b0, Under(a.b1, Under(a.b2, Under(a.b3, x)))) }

  lemma OntoValue(a: Digit, x: nat)
    ensures Onto(a, x) == Value(a) + 16 * x
  {
  }

  lemma MixTwo(r: nat, a: Digit, x: nat, b: Digit, y: nat, c: Digit, z: nat, n: nat)
    ensures Bitwise(r, Under(a.b2, Under(a.b3, x)), Under(b.b2, Under(b.b3, y)), Under(c.b2, Under(c.b3, z)), n + 2)
         == Under(OneBit(r, a.b2, b.b2, c.b2), Under(OneBit(r, a.b3, b.b3, c.b3), Bitwise(r, x, y, z, n)))
  {
    hide Bitwise, OneBit, Under;
    MixBit(r, a.b2, Under(a.b3, x), b.b2, Under(b.b3, y), c.b2, Under(c.b3, z), n + 1);
    MixBit(r, a.b3, x, b.b3, y, c.b3, z, n);
  }

  lemma MixOnto(r: nat, a: Digit, x: nat, b: Digit, y: nat, c: Digit, z: nat, n: nat)
    ensures Bitwise(r, Onto(a, x), Onto(b, y), Onto(c, z), n + 4)
         == Onto(MixDigit(r, a, b, c), Bitwise(r, x, y, z, n))
  {
    hide Bitwise, OneBit, Under;
    var x2, y2, z2 := Under(a.b2, Under(a.b3, x)), Under(b.b2, Under(b.b3, y)), Under(c.b2, Under(c.b3, z));
    MixBit(r, a.b0, Under(a.b1, x2), b.b0, Under(b.b1, y2), c.b0, Under(c.b1, z2), n + 3);
    MixBit(r, a.b1, x2, b.b1, y2, c.b1, z2, n + 2);
    MixTwo(r, a, x, b, y, c, z, n);
  }

  lemma MixLowest(r: nat, a: Digit, x: nat, b: Digit, y: nat, c: Digit, z: nat, n: nat)
    ensures Bitwise(r, Value(a) + 16 * x, Value(b) + 16 * y, Value(c) + 16 * z, n + 4)
         == Value(MixDigit(r, a, b, c)) + 16 * Bitwise(r, x, y, z, n)
  {
    hide Bitwise, MixDigit, Value, Onto;
    MixOnto(r, a, x, b, y, c, z, n);
    OntoValue(a, x);
    OntoValue(b, y);
    OntoValue(c, z);
    OntoValue(MixDigit(r, a, b, c), Bitwise(r, x, y, z, n));
  }

  /** The digits of a word from the k-th on, as a number. */
  function From(h: Hex, k: nat): nat
    decreases 8 - k
  {
    if k >= 8 then 0 else Value(At(h, k)) + 16 * From(h, k + 1)
  }

  function At(h: Hex, k: nat): Digit {
    if k == 0 then h.n0 else if k == 1 then h.n1 else if k == 2 then h.n2 else if k == 3 then h.n3
    else if k == 4 then h.n4 else if k == 5 then h.n5 else if k == 6 then h.n6 else h.n7
  }

  lemma FromWord(h: Hex)
    ensures From(h, 0) == Word(h)
  {
    hide Value;
    assert From(h, 4) == Value(h.n4) + 16 * (Value(h.n5) + 16 * (Value(h.n6) + 16 * Value(h.n7)));
    assert From(h, 2) == Value(h.n2) + 16 * (Value(h.n3) + 16 * From(h, 4));
  }

  lemma FromOn(h: Hex, k: nat)
    ensures From(h, k) == if k >= 8 then 0 else Value(At(h, k)) + 16 * From(h, k + 1)
  {
  }

  lemma {:induction false} MixFrom(r: nat, x: Hex, y: Hex, z: Hex, k: nat)
    requires k <= 8
    ensures Bitwise(r, From(x, k), From(y, k), From(z, k), 32 - 4 * k) == From(Mix(r, x, y, z), k)
    decreases 8 - k
  {
    hide Bitwise, Value, MixDigit, At, From, Mix;
    FromOn(x, k);
    FromOn(y, k);
    FromOn(z, k);
    FromOn(Mix(r, x, y, z), k);
    if k < 8 {
      MixFrom(r, x, y, z, k + 1);
      MixLowest(r, At(x, k), From(x, k + 1), At(y, k), From(y, k + 1), At(z, k), From(z, k + 1), 28 - 4 * k);
      MixAt(r, x, y, z, k);
    } else {
      Nothing(r, 0, 0, 0);
    }
  }

  lemma MixAt(r: nat, x: Hex, y: Hex, z: Hex, k: nat)
    ensures At(Mix(r, x, y, z), k) == MixDigit(r, At(x, k), At(y, k), At(z, k))
  {
    hide MixDigit;
  }

  lemma Nothing(r: nat, x: nat, y: nat, z: nat)
    ensures Bitwise(r, x, y, z, 0) == 0
  {
  }

  /** F, G, H and I digit by digit. */
  lemma RoundOfHex(i: nat, x: Hex, y: Hex, z: Hex)
    requires i < 64
    ensures Round(i, Word(x), Word(y), Word(z)) == Word(Mix(i / 16, x, y, z))
  {
    hide Bitwise, Word, Mix, From;
    RoundIsBitwise(i, Word(x), Word(y), Word(z));
    FromWord(x);
    FromWord(y);
    FromWord(z);
    MixFrom(i / 16, x, y, z, 0);
    FromWord(Mix(i / 16, x, y, z));
  }

  // ------------------------------------------------------------ one operation on numbers

  lemma AddOn(s: nat, b: u32)
    ensures (s % WORD + b) % WORD == (s + b) % WORD
  {
  }

  lemma AddFour(a: u32, f: u32, t: u32, w: u32)
    ensures Add(Add(Add(a, f), t), w) == (a + f + t + w) % WORD
  {
    AddOn(a + f, t);
    AddOn(a + f + t, w);
  }

  lemma TwoSum(a: u32, b: u32)
    ensures Add(a, b) == (a + b) % WORD
  {
  }

  lemma RotateValue(v: u32, s: nat, p: nat, q: nat)
    requires s <= 32 && Pow2(s) == p && Pow2(32 - s) == q && q > 0
    ensures Rotate(v, s) == v % q * p + v / q
  {
  }

  /** The registers before operation i are a, b, c and d in the order in which it takes them. */
  predicate Before(i: nat, x: Block, a: Hex, b: Hex, c: Hex, d: Hex)
    requires i <= 64
  {
    var r, j := Operations(x, INITIAL, i), i % 4;
    && (if j == 0 then r.A else if j == 1 then r.D else if j == 2 then r.C else r.B) == Word(a)
    && (if j == 0 then r.B else if j == 1 then r.A else if j == 2 then r.D else r.C) == Word(b)
    && (if j == 0 then r.C else if j == 1 then r.B else if j == 2 then r.A else r.D) == Word(c)
    && (if j == 0 then r.D else if j == 1 then r.C else if j == 2 then r.B else r.A) == Word(d)
  }

  /** Operation i on numbers: it replaces a by e. Here m and n are the values of a and b, g that of the round's function,
      t and w the table's and the message's words, v the sum to be rotated, and p and q the powers of two that cut it. */
  lemma Step(i: nat, x: Block, a: Hex, b: Hex, c: Hex, d: Hex, e: Hex,
             m: nat, n: nat, g: nat, t: nat, w: nat, v: u32, p: nat, q: nat)
    requires i < 64 && Before(i, x, a, b, c, d)
    requires Pow2(Shift(i)) == p && Pow2(32 - Shift(i)) == q && q > 0
    requires Word(a) == m && Word(b) == n && Word(Mix(i / 16, b, c, d)) == g && SINE[i] == t && x[WORD_INDEX[i]] == w
    requires v == (m + g + t + w) % WORD
    requires Word(e) == (n + (v % q * p + v / q)) % WORD
    ensures Before(i + 1, x, d, e, b, c)
  {
    hide Round, Word, Mix, Pow2, Rotate, Add, Shift, Before;
    RoundOfHex(i, b, c, d);
    AddFour(Word(a), Word(Mix(i / 16, b, c, d)), SINE[i], x[WORD_INDEX[i]]);
    RotateValue(v, Shift(i), p, q);
    TwoSum(Word(b), Rotate(v, Shift(i)));
    Turn(i, x, a, b, c, d, e);
  }

  lemma Turn(i: nat, x: Block, a: Hex, b: Hex, c: Hex, d: Hex, e: Hex)
    requires i < 64 && Before(i, x, a, b, c, d) && Op(i, x, Word(a), Word(b), Word(c), Word(d)) == Word(e)
    ensures Before(i + 1, x, d, e, b, c)
  {
    hide Op, Operations, Word;
    Next(x, INITIAL, i);
  }

  lemma Next(x: Block, r: Regs, n: nat)
    requires n < 64
    ensures Operations(x, r, n + 1) == Operation(n, x, Operations(x, r, n))
  {
  }

  lemma Cuts0()
    ensures Pow2(7) == 0x80 && Pow2(25) == 0x200_0000
    ensures Shift(0) == 7 && Shift(4) == 7 && Shift(8) == 7 && Shift(12) == 7
    ensures Pow2(12) == 0x1000 && Pow2(20) == 0x10_0000
    ensures Shift(1) == 12 && Shift(5) == 12 && Shift(9) == 12 && Shift(13) == 12
    ensures Pow2(17) == 0x2_0000 && Pow2(15) == 0x8000
    ensures Shift(2) == 17 && Shift(6) == 17 && Shift(10) == 17 && Shift(14) == 17
    ensures Pow2(22) == 0x40_0000 && Pow2(10) == 0x400
    ensures Shift(3) == 22 && Shift(7) == 22 && Shift(11) == 22 && Shift(15) == 22
  {
  }

  lemma Cuts1()
    ensures Pow2(5) == 0x20 && Pow2(27) == 0x800_0000
    ensures Shift(16) == 5 && Shift(20) == 5 && Shift(24) == 5 && Shift(28) == 5
    ensures Pow2(9) == 0x200 && Pow2(23) == 0x80_0000
    ensures Shift(17) == 9 && Shift(21) == 9 && Shift(25) == 9 && Shift(29) == 9
    ensures Pow2(14) == 0x4000 && Pow2(18) == 0x4_0000
    ensures Shift(18) == 14 && Shift(22) == 14 && Shift(26) == 14 && Shift(30) == 14
    ensures Pow2(20) == 0x10_0000 && Pow2(12) == 0x1000
    ensures Shift(19) == 20 && Shift(23) == 20 && Shift(27) == 20 && Shift(31) == 20
  {
  }

  lemma Cuts2()
    ensures Pow2(4) == 0x10 && Pow2(28) == 0x1000_0000
    ensures Shift(32) == 4 && Shift(36) == 4 && Shift(40) == 4 && Shift(44) == 4
    ensures Pow2(11) == 0x800 && Pow2(21) == 0x20_0000
    ensures Shift(33) == 11 && Shift(37) == 11 && Shift(41) == 11 && Shift(45) == 11
    ensures Pow2(16) == 0x1_0000 && Pow2(16) == 0x1_0000
    ensures Shift(34) == 16 && Shift(38) == 16 && Shift(42) == 16 && Shift(46) == 16
    ensures Pow2(23) == 0x80_0000 && Pow2(9) == 0x200
    ensures Shift(35) == 23 && Shift(39) == 23 && Shift(43) == 23 && Shift(47) == 23
  {
  }

  lemma Cuts3()
    ensures Pow2(6) == 0x40 && Pow2(26) == 0x400_0000
    ensures Shift(48) == 6 && Shift(52) == 6 && Shift(56) == 6 && Shift(60) == 6
    ensures Pow2(10) == 0x400 && Pow2(22) == 0x40_0000
    ensures Shift(49) == 10 && Shift(53) == 10 && Shift(57) == 10 && Shift(61) == 10
    ensures Pow2(15) == 0x8000 && Pow2(17) == 0x2_0000
    ensures Shift(50) == 15 && Shift(54) == 15 && Shift(58) == 15 && Shift(62) == 15
    ensures Pow2(21) == 0x20_0000 && Pow2(11) == 0x800
    ensures Shift(51) == 21 && Shift(55) == 21 && Shift(59) == 21 && Shift(63) == 21
  {
  }

  // ------------------------------------------------------------ the digest of "abc"

  /** "abc" padded is one block. */
  const ABC: Block := [0x8063_6261, 0, 0, 0, 0, 0, 0, 0, 0, 0, 0, 0, 0, 0, 24, 0]

  /** The registers before the operations, and what each operation writes. */
  const IA := Hex(x6, x7, x4, x5, x2, x3, x0, x1)
  const IB := Hex(xE, xF, xC, xD, xA, xB, x8, x9)
  const IC := Hex(x9, x8, xB, xA, xD, xC, xF, xE)
  const ID := Hex(x1, x0, x3, x2, x5, x4, x7, x6)
  const V0 := Hex(xD, x6, xD, x1, x1, x7, xB, x4)
  const V1 := Hex(x3, x4, x4, xA, x8, x4, x3, x2)
  const V2 := Hex(x2, xF, x6, xF, xB, xD, x7, x2)
  const V3 := Hex(x7, xA, xD, x9, x5, x6, xF, x2)
  const V4 := Hex(xC, x7, x3, x7, x4, x1, xE, xF)
  const V5 := Hex(x8, xB, xA, xC, x3, x0, x5, x1)
  const V6 := Hex(x2, x0, x7, xD, xC, x6, x7, xB)
  const V7 := Hex(x9, x2, x8, xD, x9, x9, xF, x6)
  const V8 := Hex(x8, x5, x4, xB, x3, x7, x1, x2)
  const V9 := Hex(x7, x4, xE, x2, xF, x2, x8, x4)
  const V10 := Hex(x3, x0, x2, x0, x4, x0, x1, xC)
  const V11 := Hex(x5, xE, xD, x4, x9, x5, x9, x6)
  const V12 := Hex(xD, xD, xA, x9, xB, x9, xA, x6)
  const V13 := Hex(xA, x1, x0, x5, x1, x8, x9, x5)
  const V14 := Hex(xE, x3, x9, x6, x8, x5, x6, xB)
  const V15 := Hex(x7, x2, xA, xF, xF, x2, xE, x0)
  const V16 := Hex(x3, xE, x9, xE, x9, x1, x2, x6)
  const V17 := Hex(x4, xA, x1, xD, x8, x0, x4, xE)
  const V18 := Hex(xE, x2, x5, xE, x1, x6, x5, x2)
  const V19 := Hex(xB, x5, xB, x2, x0, x4, xE, x4)
  const V20 := Hex(x5, x9, xA, x8, xF, xF, xD, xA)
  const V21 := Hex(x6, xD, x0, x0, x2, xF, x1, xE)
  const V22 := Hex(xA, xB, xF, xC, x7, x9, x2, x0)
  const V23 := Hex(x4, x7, x0, x9, x2, xC, x0, x7)
  const V24 := Hex(xB, x7, xF, x2, x6, x8, xC, xF)
  const V25 := Hex(x0, x9, x3, x8, x8, xE, xF, xF)
  const V26 := Hex(xF, xE, x1, x6, x2, x3, xB, x1)
  const V27 := Hex(x7, x8, x6, xA, xC, xB, x8, xF)
  const V28 := Hex(x7, x9, x0, xA, x7, x7, xF, xB)
  const V29 := Hex(x9, xF, x4, x7, xE, x4, xF, x8)
  const V30 := Hex(xA, x6, x2, x8, x8, x4, xA, xA)
  const V31 := Hex(x7, x2, x6, x3, x4, x2, xD, x3)
  const V32 := Hex(xB, x3, x7, x0, x7, xE, xB, xF)
  const V33 := Hex(x6, x0, x1, x2, x7, xB, x2, xE)
  const V34 := Hex(x8, xD, x2, x1, x2, xF, xF, x5)
  const V35 := Hex(x3, xB, x0, x8, x7, x5, xC, x7)
  const V36 := Hex(x2, x1, xB, x1, x1, x7, xB, x9)
  const V37 := Hex(x6, xE, x7, x4, x2, x9, xD, x5)
  const V38 := Hex(x3, x5, x7, x5, x2, x2, x7, xE)
  const V39 := Hex(x5, xA, x2, xF, x5, xE, xA, x5)
  const V40 := Hex(x1, x1, xD, xE, x1, x7, x7, x9)
  const V41 := Hex(xF, xA, xD, xC, xA, xA, x3, x8)
  const V42 := Hex(x3, x1, xC, x4, x6, x5, xC, xA)
  const V43 := Hex(x4, xC, x6, x1, x2, x4, xF, x4)
  const V44 := Hex(x7, xF, x2, xE, x5, x0, x7, xB)
  const V45 := Hex(x9, x9, xD, x9, x6, x7, x9, xD)
  const V46 := Hex(x8, xF, xA, xE, x6, x3, x9, x9)
  const V47 := Hex(x7, xB, xE, xB, x9, x7, x0, x0)
  const V48 := Hex(x7, xB, x2, x0, x1, xD, xF, x8)
  const V49 := Hex(xF, x4, xE, x8, xE, x9, x6, xE)
  const V50 := Hex(xB, x2, x9, x8, xC, xE, xF, xD)
  const V51 := Hex(x8, xB, xF, x0, x2, x5, xC, x4)
  const V52 := Hex(x0, x6, xC, xC, x5, xE, x8, xA)
  const V53 := Hex(x5, xB, x0, xD, x9, x7, xA, xA)
  const V54 := Hex(x7, xD, x6, x3, x2, xD, xD, x0)
  const V55 := Hex(x3, xB, xF, xA, x2, xC, x2, x7)
  const V56 := Hex(x7, xF, x8, x1, xC, xC, x3, x5)
  const V57 := Hex(x0, x9, x4, x4, x5, x4, xA, xB)
  const V58 := Hex(x4, xF, x9, xD, xB, xE, x3, xF)
  const V59 := Hex(x7, x3, x2, x7, xD, x6, x0, x4)
  const V60 := Hex(x3, x1, x0, xA, xD, xE, x8, xF)
  const V61 := Hex(x6, x2, x4, xD, x8, xC, xB, x2)
  const V62 := Hex(xE, x4, x8, x4, xB, x9, xD, x8)
  const V63 := Hex(xC, x0, x8, x2, x2, x6, xB, x3)

  lemma InitialValues()
    ensures Word(IA) == 0x6745_2301
    ensures Word(IB) == 0xefcd_ab89
    ensures Word(IC) == 0x98ba_dcfe
    ensures Word(ID) == 0x1032_5476
  {
  }

  lemma Values0()
    ensures Word(V0) == 0xd6d1_17b4
    ensures Word(V1) == 0x344a_8432
    ensures Word(V2) == 0x2f6f_bd72
    ensures Word(V3) == 0x7ad9_56f2
  {
  }

  lemma Mixed0()
    ensures Word(Mix(0, IB, IC, ID)) == 0x98ba_dcfe
    ensures Word(Mix(0, V0, IB, IC)) == 0xceeb_cbca
    ensures Word(Mix(0, V1, V0, IB)) == 0xdfc5_2fb9
    ensures Word(Mix(0, V2, V1, V0)) == 0xf4da_86b6
  {
  }

  lemma Start()
    ensures Before(0, ABC, IA, IB, IC, ID)
  {
    hide Word;
    InitialValues();
  }

  lemma Steps0()
    ensures Before(4, ABC, V0, V3, V2, V1)
  {
    hide Word, Mix, Pow2, Shift, Before;
    Start();
    Cuts0();
    InitialValues();
    Values0();
    Mixed0();
    Step(0, ABC, IA, IB, IC, ID, V0,
         0x6745_2301, 0xefcd_ab89, 0x98ba_dcfe, 0xd76a_a478, 0x8063_6261, 0x57ce_06d8, 0x80, 0x200_0000);
    Step(1, ABC, ID, V0, IB, IC, V1,
         0x1032_5476, 0xd6d1_17b4, 0xceeb_cbca, 0xe8c7_b756, 0x0, 0xc7e5_d796, 0x1000, 0x10_0000);
    Step(2, ABC, IC, V1, V0, IB, V2,
         0x98ba_dcfe, 0x344a_8432, 0xdfc5_2fb9, 0x2420_70db, 0x0, 0x9ca0_7d92, 0x2_0000, 0x8000);
    Step(3, ABC, IB, V2, V1, V0, V3,
         0xefcd_ab89, 0x2f6f_bd72, 0xf4da_86b6, 0xc1bd_ceee, 0x0, 0xa666_012d, 0x40_0000, 0x400);
  }

  lemma Values4()
    ensures Word(V4) == 0xc737_41ef
    ensures Word(V5) == 0x8bac_3051
    ensures Word(V6) == 0x207d_c67b
    ensures Word(V7) == 0x928d_99f6
  {
  }

  lemma Mixed4()
    ensures Word(Mix(0, V3, V2, V1)) == 0x2e4b_9472
    ensures Word(Mix(0, V4, V3, V2)) == 0x6a59_fcf2
    ensures Word(Mix(0, V5, V4, V3)) == 0xf375_46e3
    ensures Word(Mix(0, V6, V5, V4)) == 0xc72e_01d5
  {
  }

  lemma Steps4()
    ensures Before(8, ABC, V4, V7, V6, V5)
  {
    hide Word, Mix, Pow2, Shift, Before;
    Steps0();
    Cuts0();
    Values0();
    Values4();
    Mixed4();
    Step(4, ABC, V0, V3, V2, V1, V4,
         0xd6d1_17b4, 0x7ad9_56f2, 0x2e4b_9472, 0xf57c_0faf, 0x0, 0xfa98_bbd5, 0x80, 0x200_0000);
    Step(5, ABC, V1, V4, V3, V2, V5,
         0x344a_8432, 0xc737_41ef, 0x6a59_fcf2, 0x4787_c62a, 0x0, 0xe62c_474e, 0x1000, 0x10_0000);
    Step(6, ABC, V2, V5, V4, V3, V6,
         0x2f6f_bd72, 0x8bac_3051, 0xf375_46e3, 0xa830_4613, 0x0, 0xcb15_4a68, 0x2_0000, 0x8000);
    Step(7, ABC, V3, V6, V5, V4, V7,
         0x7ad9_56f2, 0x207d_c67b, 0xc72e_01d5, 0xfd46_9501, 0x0, 0x3f4d_edc8, 0x40_0000, 0x400);
  }

  lemma Values8()
    ensures Word(V8) == 0x854b_3712
    ensures Word(V9) == 0x74e2_f284
    ensures Word(V10) == 0x3020_401c
    ensures Word(V11) == 0x5ed4_9596
  {
  }

  lemma Mixed8()
    ensures Word(Mix(0, V7, V6, V5)) == 0x92d_a073
    ensures Word(Mix(0, V8, V7, V6)) == 0xa03d_d17b
    ensures Word(Mix(0, V9, V8, V7)) == 0x864f_3b72
    ensures Word(Mix(0, V10, V9, V8)) == 0xb56b_7706
  {
  }

  lemma Steps8()
    ensures Before(12, ABC, V8, V11, V10, V9)
  {
    hide Word, Mix, Pow2, Shift, Before;
    Steps4();
    Cuts0();
    Values4();
    Values8();
    Mixed8();
    Step(8, ABC, V4, V7, V6, V5, V8,
         0xc737_41ef, 0x928d_99f6, 0x92d_a073, 0x6980_98d8, 0x0, 0x39e5_7b3a, 0x80, 0x200_0000);
    Step(9, ABC, V5, V8, V7, V6, V9,
         0x8bac_3051, 0x854b_3712, 0xa03d_d17b, 0x8b44_f7af, 0x0, 0xb72e_f97b, 0x1000, 0x10_0000);
    Step(10, ABC, V6, V9, V8, V7, V10,
         0x207d_c67b, 0x74e2_f284, 0x864f_3b72, 0xffff_5bb1, 0x0, 0xa6cc_5d9e, 0x2_0000, 0x8000);
    Step(11, ABC, V7, V10, V9, V8, V11,
         0x928d_99f6, 0x3020_401c, 0xb56b_7706, 0x895c_d7be, 0x0, 0xd155_e8ba, 0x40_0000, 0x400);
  }

  lemma Values12()
    ensures Word(V12) == 0xdda9_b9a6
    ensures Word(V13) == 0xa105_1895
    ensures Word(V14) == 0xe396_856b
    ensures Word(V15) == 0x72af_f2e0
  {
  }

  lemma Mixed12()
    ensures Word(Mix(0, V11, V10, V9)) == 0x3022_6214
    ensures Word(Mix(0, V12, V11, V10)) == 0x7c80_d19e
    ensures Word(Mix(0, V13, V12, V11)) == 0xdfd1_9d86
    ensures Word(Mix(0, V14, V13, V12)) == 0xbd2d_3885
  {
  }

  lemma Steps12()
    ensures Before(16, ABC, V12, V15, V14, V13)
  {
    hide Word, Mix, Pow2, Shift, Before;
    Steps8();
    Cuts0();
    Values8();
    Values12();
    Mixed12();
    Step(12, ABC, V8, V11, V10, V9, V12,
         0x854b_3712, 0x5ed4_9596, 0x3022_6214, 0x6b90_1122, 0x0, 0x20fd_aa48, 0x80, 0x200_0000);
    Step(13, ABC, V9, V12, V11, V10, V13,
         0x74e2_f284, 0xdda9_b9a6, 0x7c80_d19e, 0xfd98_7193, 0x0, 0xeefc_35b5, 0x1000, 0x10_0000);
    Step(14, ABC, V10, V13, V12, V11, V14,
         0x3020_401c, 0xa105_1895, 0xdfd1_9d86, 0xa679_438e, 0x18, 0xb66b_2148, 0x2_0000, 0x8000);
    Step(15, ABC, V11, V14, V13, V12, V15,
         0x5ed4_9596, 0xe396_856b, 0xbd2d_3885, 0x49b4_0821, 0x0, 0x65b5_d63c, 0x40_0000, 0x400);
  }

  lemma Values16()
    ensures Word(V16) == 0x3e9e_9126
    ensures Word(V17) == 0x4a1d_804e
    ensures Word(V18) == 0xe25e_1652
    ensures Word(V19) == 0xb5b2_04e4
  {
  }

  lemma Mixed16()
    ensures Word(Mix(1, V15, V14, V13)) == 0x6297_95ea
    ensures Word(Mix(1, V16, V15, V14)) == 0x32bf_f3a2
    ensures Word(Mix(1, V17, V16, V15)) == 0x4e1d_8146
    ensures Word(Mix(1, V18, V17, V16)) == 0x621f_104a
  {
  }

  lemma Steps16()
    ensures Before(20, ABC, V16, V19, V18, V17)
  {
    hide Word, Mix, Pow2, Shift, Before;
    Steps12();
    Cuts1();
    Values12();
    Values16();
    Mixed16();
    Step(16, ABC, V12, V15, V14, V13, V16,
         0xdda9_b9a6, 0x72af_f2e0, 0x6297_95ea, 0xf61e_2562, 0x0, 0x365f_74f2, 0x20, 0x800_0000);
    Step(17, ABC, V13, V16, V15, V14, V17,
         0xa105_1895, 0x3e9e_9126, 0x32bf_f3a2, 0xc040_b340, 0x0, 0x9405_bf77, 0x200, 0x80_0000);
    Step(18, ABC, V14, V17, V16, V15, V18,
         0xe396_856b, 0x4a1d_804e, 0x4e1d_8146, 0x265e_5a51, 0x0, 0x5812_6102, 0x4000, 0x4_0000);
    Step(19, ABC, V15, V18, V17, V16, V19,
         0x72af_f2e0, 0xe25e_1652, 0x621f_104a, 0xe9b6_c7aa, 0x8063_6261, 0x3ee9_2d35, 0x10_0000, 0x1000);
  }

  lemma Values20()
    ensures Word(V20) == 0x59a8_ffda
    ensures Word(V21) == 0x6d00_2f1e
    ensures Word(V22) == 0xabfc_7920
    ensures Word(V23) == 0x4709_2c07
  {
  }

  lemma Mixed20()
    ensures Word(Mix(1, V19, V18, V17)) == 0xa052_1654
    ensures Word(Mix(1, V20, V19, V18)) == 0x55a8_16f6
    ensures Word(Mix(1, V21, V20, V19)) == 0x6d08_ff1e
    ensures Word(Mix(1, V22, V21, V20)) == 0x2da8_7904
  {
  }

  lemma Steps20()
    ensures Before(24, ABC, V20, V23, V22, V21)
  {
    hide Word, Mix, Pow2, Shift, Before;
    Steps16();
    Cuts1();
    Values16();
    Values20();
    Mixed20();
    Step(20, ABC, V16, V19, V18, V17, V20,
         0x3e9e_9126, 0xb5b2_04e4, 0xa052_1654, 0xd62f_105d, 0x0, 0xb51f_b7d7, 0x20, 0x800_0000);
    Step(21, ABC, V17, V20, V19, V18, V21,
         0x4a1d_804e, 0x59a8_ffda, 0x55a8_16f6, 0x244_1453, 0x0, 0xa209_ab97, 0x200, 0x80_0000);
    Step(22, ABC, V18, V21, V20, V19, V22,
         0xe25e_1652, 0x6d00_2f1e, 0x6d08_ff1e, 0xd8a1_e681, 0x0, 0x2808_fbf1, 0x4000, 0x4_0000);
    Step(23, ABC, V19, V22, V21, V20, V23,
         0xb5b2_04e4, 0xabfc_7920, 0x2da8_7904, 0xe7d3_fbc8, 0x0, 0xcb2e_79b0, 0x10_0000, 0x1000);
  }

  lemma Values24()
    ensures Word(V24) == 0xb7f2_68cf
    ensures Word(V25) == 0x938_8eff
    ensures Word(V26) == 0xfe16_23b1
    ensures Word(V27) == 0x786a_cb8f
  {
  }

  lemma Mixed24()
    ensures Word(Mix(1, V23, V22, V21)) == 0xc7fc_7c26
    ensures Word(Mix(1, V24, V23, V22)) == 0xe7f1_6c07
    ensures Word(Mix(1, V25, V24, V23)) == 0xb1fa_4ccf
    ensures Word(Mix(1, V26, V25, V24)) == 0xbe1a_a6b1
  {
  }

  lemma Steps24()
    ensures Before(28, ABC, V24, V27, V26, V25)
  {
    hide Word, Mix, Pow2, Shift, Before;
    Steps20();
    Cuts1();
    Values20();
    Values24();
    Mixed24();
    Step(24, ABC, V20, V23, V22, V21, V24,
         0x59a8_ffda, 0x4709_2c07, 0xc7fc_7c26, 0x21e1_cde6, 0x0, 0x4387_49e6, 0x20, 0x800_0000);
    Step(25, ABC, V21, V24, V23, V22, V25,
         0x6d00_2f1e, 0xb7f2_68cf, 0xe7f1_6c07, 0xc337_07d6, 0x18, 0x1828_a313, 0x200, 0x80_0000);
    Step(26, ABC, V22, V25, V24, V23, V26,
         0xabfc_7920, 0x938_8eff, 0xb1fa_4ccf, 0xf4d5_0d87, 0x0, 0x52cb_d376, 0x4000, 0x4_0000);
    Step(27, ABC, V23, V26, V25, V24, V27,
         0x4709_2c07, 0xfe16_23b1, 0xbe1a_a6b1, 0x455a_14ed, 0x0, 0x4a7d_e7a5, 0x10_0000, 0x1000);
  }

  lemma Values28()
    ensures Word(V28) == 0x790a_77fb
    ensures Word(V29) == 0x9f47_e4f8
    ensures Word(V30) == 0xa628_84aa
    ensures Word(V31) == 0x7263_42d3
  {
  }

  lemma Mixed28()
    ensures Word(Mix(1, V27, V26, V25)) == 0xfe2e_ab8f
    ensures Word(Mix(1, V28, V27, V26)) == 0x786a_ebbf
    ensures Word(Mix(1, V29, V28, V27)) == 0x1942_f4f8
    ensures Word(Mix(1, V30, V29, V28)) == 0xa64d_84aa
  {
  }

  lemma Steps28()
    ensures Before(32, ABC, V28, V31, V30, V29)
  {
    hide Word, Mix, Pow2, Shift, Before;
    Steps24();
    Cuts1();
    Values24();
    Values28();
    Mixed28();
    Step(28, ABC, V24, V27, V26, V25, V28,
         0xb7f2_68cf, 0x786a_cb8f, 0xfe2e_ab8f, 0xa9e3_e905, 0x0, 0x6004_fd63, 0x20, 0x800_0000);
    Step(29, ABC, V25, V28, V27, V26, V29,
         0x938_8eff, 0x790a_77fb, 0x786a_ebbf, 0xfcef_a3f8, 0x0, 0x7e93_1eb6, 0x200, 0x80_0000);
    Step(30, ABC, V26, V29, V28, V27, V30,
         0xfe16_23b1, 0x9f47_e4f8, 0x1942_f4f8, 0x676f_02d9, 0x0, 0x7ec8_1b82, 0x4000, 0x4_0000);
    Step(31, ABC, V27, V30, V29, V28, V31,
         0x786a_cb8f, 0xa628_84aa, 0xa64d_84aa, 0x8d2a_4c8a, 0x0, 0xabe2_9cc3, 0x10_0000, 0x1000);
  }

  lemma Values32()
    ensures Word(V32) == 0xb370_7ebf
    ensures Word(V33) == 0x6012_7b2e
    ensures Word(V34) == 0x8d21_2ff5
    ensures Word(V35) == 0x3b08_75c7
  {
  }

  lemma Mixed32()
    ensures Word(Mix(2, V31, V30, V29)) == 0x4b0c_2281
    ensures Word(Mix(2, V32, V31, V30)) == 0x673b_b8c6
    ensures Word(Mix(2, V33, V32, V31)) == 0xa101_4742
    ensures Word(Mix(2, V34, V33, V32)) == 0x5e43_2a64
  {
  }

  lemma Steps32()
    ensures Before(36, ABC, V32, V35, V34, V33)
  {
    hide Word, Mix, Pow2, Shift, Before;
    Steps28();
    Cuts2();
    Values28();
    Values32();
    Mixed32();
    Step(32, ABC, V28, V31, V30, V29, V32,
         0x790a_77fb, 0x7263_42d3, 0x4b0c_2281, 0xfffa_3942, 0x0, 0xc410_d3be, 0x10, 0x1000_0000);
    Step(33, ABC, V29, V32, V31, V30, V33,
         0x9f47_e4f8, 0xb370_7ebf, 0x673b_b8c6, 0x8771_f681, 0x0, 0x8df5_943f, 0x800, 0x20_0000);
    Step(34, ABC, V30, V33, V32, V31, V34,
         0xa628_84aa, 0x6012_7b2e, 0xa101_4742, 0x6d9d_6122, 0x0, 0xb4c7_2d0e, 0x1_0000, 0x1_0000);
    Step(35, ABC, V31, V34, V33, V32, V35,
         0x7263_42d3, 0x8d21_2ff5, 0x5e43_2a64, 0xfde5_380c, 0x18, 0xce8b_a55b, 0x80_0000, 0x200);
  }

  lemma Values36()
    ensures Word(V36) == 0x21b1_17b9
    ensures Word(V37) == 0x6e74_29d5
    ensures Word(V38) == 0x3575_227e
    ensures Word(V39) == 0x5a2f_5ea5
  {
  }

  lemma Mixed36()
    ensures Word(Mix(2, V35, V34, V33)) == 0xd63b_211c
    ensures Word(Mix(2, V36, V35, V34)) == 0x9798_4d8b
    ensures Word(Mix(2, V37, V36, V35)) == 0x74cd_4bab
    ensures Word(Mix(2, V38, V37, V36)) == 0x7ab0_1c12
  {
  }

  lemma Steps36()
    ensures Before(40, ABC, V36, V39, V38, V37)
  {
    hide Word, Mix, Pow2, Shift, Before;
    Steps32();
    Cuts2();
    Values32();
    Values36();
    Mixed36();
    Step(36, ABC, V32, V35, V34, V33, V36,
         0xb370_7ebf, 0x3b08_75c7, 0xd63b_211c, 0xa4be_ea44, 0x0, 0x2e6a_8a1f, 0x10, 0x1000_0000);
    Step(37, ABC, V33, V36, V35, V34, V37,
         0x6012_7b2e, 0x21b1_17b9, 0x9798_4d8b, 0x4bde_cfa9, 0x0, 0x4389_9862, 0x800, 0x20_0000);
    Step(38, ABC, V34, V37, V36, V35, V38,
         0x8d21_2ff5, 0x6e74_29d5, 0x74cd_4bab, 0xf6bb_4b60, 0x0, 0xf8a9_c700, 0x1_0000, 0x1_0000);
    Step(39, ABC, V35, V38, V37, V36, V39,
         0x3b08_75c7, 0x3575_227e, 0x7ab0_1c12, 0xbebf_bc70, 0x0, 0x7478_4e49, 0x80_0000, 0x200);
  }

  lemma Values40()
    ensures Word(V40) == 0x11de_1779
    ensures Word(V41) == 0xfadc_aa38
    ensures Word(V42) == 0x31c4_65ca
    ensures Word(V43) == 0x4c61_24f4
  {
  }

  lemma Mixed40()
    ensures Word(Mix(2, V39, V38, V37)) == 0x12e_550e
    ensures Word(Mix(2, V40, V39, V38)) == 0x7e84_6ba2
    ensures Word(Mix(2, V41, V40, V39)) == 0xb12d_e3e4
    ensures Word(Mix(2, V42, V41, V40)) == 0xdac6_d88b
  {
  }

  lemma Steps40()
    ensures Before(44, ABC, V40, V43, V42, V41)
  {
    hide Word, Mix, Pow2, Shift, Before;
    Steps36();
    Cuts2();
    Values36();
    Values40();
    Mixed40();
    Step(40, ABC, V36, V39, V38, V37, V40,
         0x21b1_17b9, 0x5a2f_5ea5, 0x12e_550e, 0x289b_7ec6, 0x0, 0x4b7a_eb8d, 0x10, 0x1000_0000);
    Step(41, ABC, V37, V40, V39, V38, V41,
         0x6e74_29d5, 0x11de_1779, 0x7e84_6ba2, 0xeaa1_27fa, 0x8063_6261, 0x57fd_1fd2, 0x800, 0x20_0000);
    Step(42, ABC, V38, V41, V40, V39, V42,
         0x3575_227e, 0xfadc_aa38, 0xb12d_e3e4, 0xd4ef_3085, 0x0, 0xbb92_36e7, 0x1_0000, 0x1_0000);
    Step(43, ABC, V39, V42, V41, V40, V43,
         0x5a2f_5ea5, 0x31c4_65ca, 0xdac6_d88b, 0x488_1d05, 0x0, 0x397e_5435, 0x80_0000, 0x200);
  }

  lemma Values44()
    ensures Word(V44) == 0x7f2e_507b
    ensures Word(V45) == 0x99d9_679d
    ensures Word(V46) == 0x8fae_6399
    ensures Word(V47) == 0x7beb_9700
  {
  }

  lemma Mixed44()
    ensures Word(Mix(2, V43, V42, V41)) == 0x8779_eb06
    ensures Word(Mix(2, V44, V43, V42)) == 0x28b_1145
    ensures Word(Mix(2, V45, V44, V43)) == 0xaa96_1312
    ensures Word(Mix(2, V46, V45, V44)) == 0x6959_547f
  {
  }

  lemma Steps44()
    ensures Before(48, ABC, V44, V47, V46, V45)
  {
    hide Word, Mix, Pow2, Shift, Before;
    Steps40();
    Cuts2();
    Values40();
    Values44();
    Mixed44();
    Step(44, ABC, V40, V43, V42, V41, V44,
         0x11de_1779, 0x4c61_24f4, 0x8779_eb06, 0xd9d4_d039, 0x0, 0x732c_d2b8, 0x10, 0x1000_0000);
    Step(45, ABC, V41, V44, V43, V42, V45,
         0xfadc_aa38, 0x7f2e_507b, 0x28b_1145, 0xe6db_99e5, 0x0, 0xe443_5562, 0x800, 0x20_0000);
    Step(46, ABC, V42, V45, V44, V43, V46,
         0x31c4_65ca, 0x99d9_679d, 0xaa96_1312, 0x1fa2_7cf8, 0x0, 0xfbfc_f5d4, 0x1_0000, 0x1_0000);
    Step(47, ABC, V43, V46, V45, V44, V47,
         0x4c61_24f4, 0x8fae_6399, 0x6959_547f, 0xc4ac_5665, 0x0, 0x7a66_cfd8, 0x80_0000, 0x200);
  }

  lemma Values48()
    ensures Word(V48) == 0x7b20_1df8
    ensures Word(V49) == 0xf4e8_e96e
    ensures Word(V50) == 0xb298_cefd
    ensures Word(V51) == 0x8bf0_25c4
  {
  }

  lemma Mixed48()
    ensures Word(Mix(3, V47, V46, V45)) == 0xf041_fcfb
    ensures Word(Mix(3, V48, V47, V46)) == 0x9a_0afe
    ensures Word(Mix(3, V49, V48, V47)) == 0x8fdc_f407
    ensures Word(Mix(3, V50, V49, V48)) == 0x4237_0791
  {
  }

  lemma Steps48()
    ensures Before(52, ABC, V48, V51, V50, V49)
  {
    hide Word, Mix, Pow2, Shift, Before;
    Steps44();
    Cuts3();
    Values44();
    Values48();
    Mixed48();
    Step(48, ABC, V44, V47, V46, V45, V48,
         0x7f2e_507b, 0x7beb_9700, 0xf041_fcfb, 0xf429_2244, 0x8063_6261, 0xe3fc_d21b, 0x40, 0x400_0000);
    Step(49, ABC, V45, V48, V47, V46, V49,
         0x99d9_679d, 0x7b20_1df8, 0x9a_0afe, 0x432a_ff97, 0x0, 0xdd9e_7232, 0x400, 0x40_0000);
    Step(50, ABC, V46, V49, V48, V47, V50,
         0x8fae_6399, 0xf4e8_e96e, 0x8fdc_f407, 0xab94_23a7, 0x18, 0xcb1f_7b5f, 0x8000, 0x2_0000);
    Step(51, ABC, V47, V50, V49, V48, V51,
         0x7beb_9700, 0xb298_cefd, 0x4237_0791, 0xfc93_a039, 0x0, 0xbab6_3eca, 0x20_0000, 0x800);
  }

  lemma Values52()
    ensures Word(V52) == 0x6cc_5e8a
    ensures Word(V53) == 0x5b0d_97aa
    ensures Word(V54) == 0x7d63_2dd0
    ensures Word(V55) == 0x3bfa_2c27
  {
  }

  lemma Mixed52()
    ensures Word(Mix(3, V51, V50, V49)) == 0x396f_f928
    ensures Word(Mix(3, V52, V51, V50)) == 0xc41f_5a4e
    ensures Word(Mix(3, V53, V52, V51)) == 0x79c3_8131
    ensures Word(Mix(3, V54, V53, V52)) == 0xa67e_3a5f
  {
  }

  lemma Steps52()
    ensures Before(56, ABC, V52, V55, V54, V53)
  {
    hide Word, Mix, Pow2, Shift, Before;
    Steps48();
    Cuts3();
    Values48();
    Values52();
    Mixed52();
    Step(52, ABC, V48, V51, V50, V49, V52,
         0x7b20_1df8, 0x8bf0_25c4, 0x396f_f928, 0x655b_59c3, 0x0, 0x19eb_70e3, 0x40, 0x400_0000);
    Step(53, ABC, V49, V52, V51, V50, V53,
         0xf4e8_e96e, 0x6cc_5e8a, 0xc41f_5a4e, 0x8f0c_cc92, 0x0, 0x4815_104e, 0x400, 0x40_0000);
    Step(54, ABC, V50, V53, V52, V51, V54,
         0xb298_cefd, 0x5b0d_97aa, 0x79c3_8131, 0xffef_f47d, 0x0, 0x2c4c_44ab, 0x8000, 0x2_0000);
    Step(55, ABC, V51, V54, V53, V52, V55,
         0x8bf0_25c4, 0x7d63_2dd0, 0xa67e_3a5f, 0x8584_5dd1, 0x0, 0xb7f2_bdf4, 0x20_0000, 0x800);
  }

  lemma Values56()
    ensures Word(V56) == 0x7f81_cc35
    ensures Word(V57) == 0x944_54ab
    ensures Word(V58) == 0x4f9d_be3f
    ensures Word(V59) == 0x7327_d604
  {
  }

  lemma Mixed56()
    ensures Word(Mix(3, V55, V54, V53)) == 0xc299_41a7
    ensures Word(Mix(3, V56, V55, V54)) == 0xc467_f218
    ensures Word(Mix(3, V57, V56, V55)) == 0xb2c4_1bce
    ensures Word(Mix(3, V58, V57, V56)) == 0xc6bb_eb54
  {
  }

  lemma Steps56()
    ensures Before(60, ABC, V56, V59, V58, V57)
  {
    hide Word, Mix, Pow2, Shift, Before;
    Steps52();
    Cuts3();
    Values52();
    Values56();
    Mixed56();
    Step(56, ABC, V52, V55, V54, V53, V56,
         0x6cc_5e8a, 0x3bfa_2c27, 0xc299_41a7, 0x6fa8_7e4f, 0x0, 0x390e_1e80, 0x40, 0x400_0000);
    Step(57, ABC, V53, V56, V55, V54, V57,
         0x5b0d_97aa, 0x7f81_cc35, 0xc467_f218, 0xfe2c_e6e0, 0x0, 0x1da2_70a2, 0x400, 0x40_0000);
    Step(58, ABC, V54, V57, V56, V55, V58,
         0x7d63_2dd0, 0x944_54ab, 0xb2c4_1bce, 0xa301_4314, 0x0, 0xd328_8cb2, 0x8000, 0x2_0000);
    Step(59, ABC, V55, V58, V57, V56, V59,
         0x3bfa_2c27, 0x4f9d_be3f, 0xc6bb_eb54, 0x4e08_11a1, 0x0, 0x50be_291c, 0x20_0000, 0x800);
  }

  lemma Values60()
    ensures Word(V60) == 0x310a_de8f
    ensures Word(V61) == 0x624d_8cb2
    ensures Word(V62) == 0xe484_b9d8
    ensures Word(V63) == 0xc082_26b3
  {
  }

  lemma Mixed60()
    ensures Word(Mix(3, V59, V58, V57)) == 0xb822_416b
    ensures Word(Mix(3, V60, V59, V58)) == 0xc24d_09cb
    ensures Word(Mix(3, V61, V60, V59)) == 0xdfd7_7374
    ensures Word(Mix(3, V62, V61, V60)) == 0x8cb8_354a
  {
  }

  lemma Steps60()
    ensures Before(64, ABC, V60, V63, V62, V61)
  {
    hide Word, Mix, Pow2, Shift, Before;
    Steps56();
    Cuts3();
    Values56();
    Values60();
    Mixed60();
    Step(60, ABC, V56, V59, V58, V57, V60,
         0x7f81_cc35, 0x7327_d604, 0xb822_416b, 0xf753_7e82, 0x0, 0x2ef7_8c22, 0x40, 0x400_0000);
    Step(61, ABC, V57, V60, V59, V58, V61,
         0x944_54ab, 0x310a_de8f, 0xc24d_09cb, 0xbd3a_f235, 0x0, 0x88cc_50ab, 0x400, 0x40_0000);
    Step(62, ABC, V58, V61, V60, V59, V62,
         0x4f9d_be3f, 0x624d_8cb2, 0xdfd7_7374, 0x2ad7_d2bb, 0x0, 0x5a4d_046e, 0x8000, 0x2_0000);
    Step(63, ABC, V59, V62, V61, V60, V63,
         0x7327_d604, 0xe484_b9d8, 0x8cb8_354a, 0xeb86_d391, 0x0, 0xeb66_dedf, 0x20_0000, 0x800);
  }

  // ------------------------------------------------------------ from the message to the digest

  function AbcByte(k: nat): byte {
    if k == 0 then 0x61 else if k == 1 then 0x62 else if k == 2 then 0x63 else if k == 3 then 0x80
    else if k == 56 then 24 else 0
  }

  lemma AbcPadded()
    ensures var p := Padded([0x61, 0x62, 0x63]);
            |p| == 64 && forall k :: 0 <= k < 64 ==> p[k] == AbcByte(k)
  {
    var p, zeros := Padded([0x61, 0x62, 0x63]), Zeros(52);
    LengthBytes();
    assert ZeroCount(3) == 52;
    assert p == [0x61, 0x62, 0x63, 0x80] + zeros + [24, 0, 0, 0, 0, 0, 0, 0];
    forall k | 0 <= k < 64
      ensures p[k] == AbcByte(k)
    {
      if 4 <= k < 56 {
        assert p[k] == zeros[k - 4];
      }
    }
  }

  lemma LengthBytes()
    ensures LeBytes(24, 8) == [24, 0, 0, 0, 0, 0, 0, 0]
  {
  }

  lemma AbcWords(p: seq<byte>)
    requires |p| == 64 && forall k :: 0 <= k < 64 ==> p[k] == AbcByte(k)
    ensures WordsOf(p) == ABC
  {
    hide FromLe, AbcByte;
    AbcAt();
    forall j | 0 <= j < 16
      ensures WordsOf(p)[j] == ABC[j]
    {
      assert p[4 * j..4 * j + 4] == [p[4 * j], p[4 * j + 1], p[4 * j + 2], p[4 * j + 3]];
      AbcWord(j);
    }
  }

  lemma AbcWord(j: nat)
    requires j < 16
    ensures FromLe([AbcByte(4 * j), AbcByte(4 * j + 1), AbcByte(4 * j + 2), AbcByte(4 * j + 3)])
         == if j == 0 then 0x8063_6261 else if j == 14 then 24 else 0
  {
  }

  lemma AbcAt()
    ensures forall j :: 0 <= j < 16 ==> ABC[j] == if j == 0 then 0x8063_6261 else if j == 14 then 24 else 0
  {
  }

  lemma AbcCompressed()
    ensures Compress(INITIAL, ABC) == Regs(0x9850_0190, 0xb04f_d23c, 0x7d3f_96d6, 0x727f_e128)
  {
    hide Word, Operations, Op;
    Steps60();
    Values60();
  }

  lemma FoldOne(p: seq<byte>)
    requires |p| == 64
    ensures Fold(INITIAL, p) == Compress(INITIAL, WordsOf(p))
  {
    hide Compress, WordsOf;
    assert p[..64] == p && Fold(Compress(INITIAL, WordsOf(p)), p[64..]) == Compress(INITIAL, WordsOf(p));
  }

  /** MD5 ("abc") = 900150983cd24fb0d6963f7d28e17f72. */
  lemma DigestOfAbc()
    ensures Digest([0x61, 0x62, 0x63])
         == [0x90, 0x01, 0x50, 0x98, 0x3c, 0xd2, 0x4f, 0xb0,
             0xd6, 0x96, 0x3f, 0x7d, 0x28, 0xe1, 0x7f, 0x72]
  {
    hide Compress, WordsOf, LeBytes, Fold, Padded;
    AbcPadded();
    AbcWords(Padded([0x61, 0x62, 0x63]));
    AbcCompressed();
    FoldOne(Padded([0x61, 0x62, 0x63]));
    LeFour(0x9850_0190);
    LeFour(0xb04f_d23c);
    LeFour(0x7d3f_96d6);
    LeFour(0x727f_e128);
  }

  /** The registers start as the bytes 01 23 45 67, 89 ab cd ef, fe dc ba 98 and 76 54 32 10. */
  lemma InitialBytes()
    ensures Output(INITIAL) == [0x01, 0x23, 0x45, 0x67, 0x89, 0xab, 0xcd, 0xef,
                                0xfe, 0xdc, 0xba, 0x98, 0x76, 0x54, 0x32, 0x10]
  {
    hide LeBytes;
    LeFour(INITIAL.A);
    LeFour(INITIAL.B);
    LeFour(INITIAL.C);
    LeFour(INITIAL.D);
  }
}
