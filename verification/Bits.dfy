/**
 * Unsigned machine words as bounded naturals, with the exclusive-or of C written out
 * bit by bit, and the algebra of exclusive-or the other modules rest on.
 */
module Bits {

  type byte = x: nat | x < 0x100
  type u16 = x: nat | x < 0x1_0000

  const WORD := 0x1_0000_0000

  type u32 = x: nat | x < WORD

  function Pow2(n: nat): nat {
    if n == 0 then 1 else 2 * Pow2(n - 1)
  }

  /** The C operator ^ on unsigned operands. */
  function Xor(a: nat, b: nat): nat
    decreases a + b
  {
    if a == 0 && b == 0 then 0 else (a + b) % 2 + 2 * Xor(a / 2, b / 2)
  }

  lemma {:induction false} XorHead(a: nat, b: nat)
    ensures Xor(a, b) % 2 == (a + b) % 2 && Xor(a, b) / 2 == Xor(a / 2, b / 2)
  {
    var low, rest := (a + b) % 2, Xor(a / 2, b / 2);
    assert Xor(a, b) == low + 2 * rest;
  }

  lemma {:induction false} XorComm(a: nat, b: nat)
    ensures Xor(a, b) == Xor(b, a)
    decreases a + b
  {
    if a == 0 && b == 0 {
    } else {
      XorComm(a / 2, b / 2);
    }
  }

  lemma SameLowBit(a: nat, b: nat, c: nat, ab: nat, bc: nat)
    requires ab % 2 == (a + b) % 2 && bc % 2 == (b + c) % 2
    ensures (ab + c) % 2 == (a + bc) % 2
  {
  }

  lemma {:induction false} XorAssoc(a: nat, b: nat, c: nat)
    ensures Xor(Xor(a, b), c) == Xor(a, Xor(b, c))
    decreases a + b + c
  {
    if a == 0 && b == 0 && c == 0 {
    } else {
      var ab, bc := Xor(a, b), Xor(b, c);
      XorHead(a, b);
      XorHead(b, c);
      SameLowBit(a, b, c, ab, bc);
      XorAssoc(a / 2, b / 2, c / 2);
      XorUnfold(ab, c);
      XorUnfold(a, bc);
    }
  }

  lemma {:induction false} XorUnfold(a: nat, b: nat)
    ensures Xor(a, b) == (a + b) % 2 + 2 * Xor(a / 2, b / 2)
  {
  }

  lemma XorSixteenth(a: nat, b: nat)
    ensures Xor(a, b) / 16 == Xor(a / 16, b / 16)
  {
    hide Xor;
    XorHead(a, b);
    XorHead(a / 2, b / 2);
    XorHead(a / 4, b / 4);
    XorHead(a / 8, b / 8);
    assert a / 2 / 2 == a / 4 && a / 4 / 2 == a / 8 && a / 8 / 2 == a / 16;
    assert b / 2 / 2 == b / 4 && b / 4 / 2 == b / 8 && b / 8 / 2 == b / 16;
  }

  lemma {:induction false} XorNothing(a: nat)
    ensures Xor(a, 0) == a && Xor(0, a) == a
  {
    if a == 0 {
    } else {
      XorNothing(a / 2);
    }
  }

  lemma {:induction false} XorSelf(a: nat)
    ensures Xor(a, a) == 0
  {
    if a == 0 {
    } else {
      XorSelf(a / 2);
    }
  }

  lemma XorCancel(a: nat, b: nat)
    ensures Xor(Xor(a, b), b) == a && Xor(b, Xor(b, a)) == a
  {
    XorAssoc(a, b, b);
    XorAssoc(b, b, a);
    XorSelf(b);
    XorNothing(a);
  }

  lemma XorZeroEqual(a: nat, b: nat)
    ensures Xor(a, b) == 0 <==> a == b
  {
    XorSelf(b);
    XorCancel(a, b);
    XorNothing(b);
  }

  /** (a ^ b) ^ (c ^ d) regrouped by columns. */
  lemma XorSwap(a: nat, b: nat, c: nat, d: nat)
    ensures Xor(Xor(a, b), Xor(c, d)) == Xor(Xor(a, c), Xor(b, d))
  {
    XorAssoc(a, b, Xor(c, d));
    XorAssoc(b, c, d);
    XorComm(b, c);
    XorAssoc(c, b, d);
    XorAssoc(a, c, Xor(b, d));
  }

  /** Exclusive-or stays within the width of its operands. */
  lemma {:induction false} XorFits(a: nat, b: nat, n: nat)
    requires a < Pow2(n) && b < Pow2(n)
    ensures Xor(a, b) < Pow2(n)
    decreases n
  {
    if n == 0 {
    } else {
      XorHead(a, b);
      XorFits(a / 2, b / 2, n - 1);
    }
  }

  /** The top bit of an exclusive-or of two n+1 bit words. */
  lemma {:induction false} XorTop(a: nat, b: nat, n: nat)
    requires a < Pow2(n + 1) && b < Pow2(n + 1)
    ensures Xor(a, b) >= Pow2(n) <==> ((a >= Pow2(n)) != (b >= Pow2(n)))
    decreases n
  {
    XorHead(a, b);
    if n == 0 {
      assert Pow2(1) == 2;
      XorHead(a / 2, b / 2);
    } else {
      XorTop(a / 2, b / 2, n - 1);
    }
  }

  lemma Pow2Values()
    ensures Pow2(8) == 0x100 && Pow2(14) == 0x4000 && Pow2(15) == 0x8000 && Pow2(16) == 0x1_0000
  {
  }

  lemma {:induction false} Pow2Grows(n: nat, m: nat)
    requires n <= m
    ensures 1 <= Pow2(n) <= Pow2(m)
    decreases m
  {
    if n < m {
      Pow2Grows(n, m - 1);
    } else if n != 0 {
      Pow2Grows(n - 1, n - 1);
    }
  }

  lemma {:induction false} PowAdd(a: nat, b: nat)
    ensures Pow2(a) * Pow2(b) == Pow2(a + b)
    decreases a
  {
    if a == 0 {
    } else {
      PowAdd(a - 1, b);
      assert Pow2(a) * Pow2(b) == 2 * (Pow2(a - 1) * Pow2(b));
    }
  }

  lemma Pow32()
    ensures Pow2(32) == WORD
  {
    assert Pow2(12) == 0x1000 && Pow2(22) == 0x40_0000;
  }

  lemma MulMonotone(a: nat, b: nat, c: nat)
    requires a <= b
    ensures a * c <= b * c
  {
    assert (b - a) * c >= 0;
  }

  /** Quotient and remainder are determined by their equation. */
  lemma DivModUnique(x: nat, q: nat, r: nat, d: nat)
    requires x == q * d + r && r < d
    ensures x / d == q && x % d == r
  {
    var q', r' := x / d, x % d;
    assert q' * d + r' == x;
    if q < q' {
      MulMonotone(q + 1, q', d);
    } else if q' < q {
      MulMonotone(q' + 1, q, d);
    }
  }

  // ------------------------------------------------------------ and, or

  /** The C operator & on unsigned operands. */
  function And(a: nat, b: nat): nat
    decreases a + b
  {
    if a == 0 || b == 0 then 0 else (if Low(a) && Low(b) then 1 else 0) + 2 * And(a / 2, b / 2)
  }

  /** The C operator | on unsigned operands. */
  function Or(a: nat, b: nat): nat
    decreases a + b
  {
    if a == 0 && b == 0 then 0 else (if Low(a) || Low(b) then 1 else 0) + 2 * Or(a / 2, b / 2)
  }

  lemma {:induction false} AndComm(a: nat, b: nat)
    ensures And(a, b) == And(b, a)
    decreases a + b
  {
    if a == 0 || b == 0 {
    } else {
      AndComm(a / 2, b / 2);
    }
  }

  lemma {:induction false} AndFits(a: nat, b: nat, n: nat)
    requires a < Pow2(n)
    ensures And(a, b) < Pow2(n)
    decreases n
  {
    if a != 0 && b != 0 {
      AndFits(a / 2, b / 2, n - 1);
    } else {
      Pow2Grows(0, n);
    }
  }

  lemma {:induction false} OrFits(a: nat, b: nat, n: nat)
    requires a < Pow2(n) && b < Pow2(n)
    ensures Or(a, b) < Pow2(n)
    decreases n
  {
    if a == 0 && b == 0 {
    } else {
      OrFits(a / 2, b / 2, n - 1);
    }
  }

  lemma {:induction false} OrComm(a: nat, b: nat)
    ensures Or(a, b) == Or(b, a)
    decreases a + b
  {
    if a == 0 && b == 0 {
    } else {
      OrComm(a / 2, b / 2);
    }
  }

  lemma {:induction false} OrZero(a: nat)
    ensures Or(a, 0) == a
  {
    if a == 0 {
    } else {
      OrZero(a / 2);
    }
  }

  lemma {:induction false} OrUnfold(a: nat, b: nat)
    ensures Or(a, b) == (if Low(a) || Low(b) then 1 else 0) + 2 * Or(a / 2, b / 2)
  {
  }

  /** Or of words without a common bit is their sum. */
  lemma {:induction false} OrDisjoint(h: nat, lo: nat, n: nat)
    requires lo < Pow2(n)
    ensures Or(h * Pow2(n), lo) == h * Pow2(n) + lo
    decreases n
  {
    hide Or;
    if n == 0 {
      OrZero(h);
    } else {
      var k := h * Pow2(n - 1);
      assert h * Pow2(n) == 2 * k;
      OrUnfold(2 * k, lo);
      OrDisjoint(h, lo / 2, n - 1);
      assert 2 * k / 2 == k && !Low(2 * k);
    }
  }

  // ------------------------------------------------------------ words as bit strings

  predicate Low(w: nat) { w % 2 == 1 }

  function Bit(b: bool): nat { if b then 1 else 0 }

  /** The low `n` bits of a word, least significant first. */
  function BitsOf(w: nat, n: nat): (bits: seq<bool>)
    ensures |bits| == n
    decreases n
  {
    if n == 0 then [] else [Low(w)] + BitsOf(w / 2, n - 1)
  }

  lemma {:induction false} BitsOfInjective(a: nat, b: nat, n: nat)
    requires a < Pow2(n) && b < Pow2(n) && BitsOf(a, n) == BitsOf(b, n)
    ensures a == b
    decreases n
  {
    if n == 0 {
    } else {
      assert BitsOf(a, n)[0] == Low(a) && BitsOf(a, n)[1..] == BitsOf(a / 2, n - 1);
      assert BitsOf(b, n)[0] == Low(b) && BitsOf(b, n)[1..] == BitsOf(b / 2, n - 1);
      BitsOfInjective(a / 2, b / 2, n - 1);
    }
  }

  lemma NextBits(w: nat, n: nat)
    ensures BitsOf(w, n + 2) == [Low(w), Low(w / 2)] + BitsOf(w / 4, n)
  {
    assert w / 2 / 2 == w / 4;
    assert BitsOf(w / 2, n + 1) == [Low(w / 2)] + BitsOf(w / 4, n);
  }

  lemma {:induction false} BitsSplit(h: nat, lo: nat, n: nat, k: nat)
    requires lo < Pow2(n)
    ensures BitsOf(h * Pow2(n) + lo, n + k) == BitsOf(lo, n) + BitsOf(h, k)
    decreases n
  {
    if n == 0 {
    } else {
      var w := h * Pow2(n - 1);
      assert h * Pow2(n) == 2 * w;
      assert (2 * w + lo) / 2 == w + lo / 2 && Low(2 * w + lo) == Low(lo);
      BitsSplit(h, lo / 2, n - 1, k);
    }
  }

  /** Whether an odd number of the bits are set. */
  function Odd(bits: seq<bool>): bool {
    if bits == [] then false else bits[0] != Odd(bits[1..])
  }

  lemma {:induction false} OddAppend(a: seq<bool>, b: seq<bool>)
    ensures Odd(a + b) == (Odd(a) != Odd(b))
  {
    if a == [] {
      assert a + b == b;
    } else {
      assert (a + b)[1..] == a[1..] + b;
      OddAppend(a[1..], b);
    }
  }

  /** Whether an odd number of the bits of a word are set. */
  function OddWord(w: nat): bool {
    if w == 0 then false else Low(w) != OddWord(w / 2)
  }

  lemma {:induction false} OddWordBits(w: nat, n: nat)
    requires w < Pow2(n)
    ensures Odd(BitsOf(w, n)) == OddWord(w)
    decreases n
  {
    if n == 0 {
    } else {
      assert BitsOf(w, n)[1..] == BitsOf(w / 2, n - 1);
      OddWordBits(w / 2, n - 1);
    }
  }

  lemma OddUnfold(w: nat)
    ensures OddWord(w) == (Low(w) != OddWord(w / 2))
  {
  }

  lemma LowSum(a: nat, b: nat)
    ensures ((a + b) % 2 == 1) == (Low(a) != Low(b))
  {
    var p, q := a / 2, b / 2;
    assert a == 2 * p + a % 2 && b == 2 * q + b % 2;
    assert a + b == 2 * (p + q) + (a % 2 + b % 2);
  }

  lemma LowXor(a: nat, b: nat)
    ensures Low(Xor(a, b)) == (Low(a) != Low(b))
  {
    LowSum(a, b);
    hide Xor;
    XorHead(a, b);
    var x := Xor(a, b);
    assert Low(x) == ((a + b) % 2 == 1);
  }

  lemma {:induction false} OddWordXor(a: nat, b: nat)
    ensures OddWord(Xor(a, b)) == (OddWord(a) != OddWord(b))
    decreases a + b
  {
    if a == 0 && b == 0 {
      XorNothing(0);
    } else {
      hide Xor, OddWord, Low;
      XorHead(a, b);
      LowXor(a, b);
      OddUnfold(a);
      OddUnfold(b);
      OddUnfold(Xor(a, b));
      OddWordXor(a / 2, b / 2);
    }
  }

  // ------------------------------------------------------------ the operators, bit by bit

  /** Bit i of a word, counted from the least significant. */
  predicate BitAt(w: nat, i: nat)
    decreases i
  {
    if i == 0 then Low(w) else BitAt(w / 2, i - 1)
  }

  lemma BitUp(w: nat, i: nat)
    ensures BitAt(w, i + 1) == BitAt(w / 2, i)
  {
  }

  lemma BitZero(w: nat)
    ensures BitAt(w, 0) == Low(w)
  {
  }

  lemma AndUnfold(a: nat, b: nat)
    ensures Low(And(a, b)) == (Low(a) && Low(b)) && And(a, b) / 2 == And(a / 2, b / 2)
  {
    AndHead(a, b);
    hide And;
    var low, rest := Bit(Low(a) && Low(b)), And(a / 2, b / 2);
    assert And(a, b) == low + 2 * rest;
  }

  lemma AndHead(a: nat, b: nat)
    ensures And(a, b) == Bit(Low(a) && Low(b)) + 2 * And(a / 2, b / 2)
  {
  }

  lemma OrHead(a: nat, b: nat)
    ensures Low(Or(a, b)) == (Low(a) || Low(b)) && Or(a, b) / 2 == Or(a / 2, b / 2)
  {
    OrUnfold(a, b);
    hide Or;
    var low, rest := Bit(Low(a) || Low(b)), Or(a / 2, b / 2);
    assert Or(a, b) == low + 2 * rest;
  }

  /** A bit of a & b is set exactly if it is set in both. */
  lemma {:induction false} AndBit(a: nat, b: nat, i: nat)
    ensures BitAt(And(a, b), i) <==> BitAt(a, i) && BitAt(b, i)
    decreases i
  {
    hide And, BitAt;
    AndUnfold(a, b);
    if i == 0 {
      BitZero(a);
      BitZero(b);
      BitZero(And(a, b));
    } else {
      BitUp(a, i - 1);
      BitUp(b, i - 1);
      BitUp(And(a, b), i - 1);
      AndBit(a / 2, b / 2, i - 1);
    }
  }

  /** A bit of a | b is set exactly if it is set in one of them. */
  lemma {:induction false} OrBit(a: nat, b: nat, i: nat)
    ensures BitAt(Or(a, b), i) <==> BitAt(a, i) || BitAt(b, i)
    decreases i
  {
    hide Or, BitAt;
    OrHead(a, b);
    if i == 0 {
      BitZero(a);
      BitZero(b);
      BitZero(Or(a, b));
    } else {
      BitUp(a, i - 1);
      BitUp(b, i - 1);
      BitUp(Or(a, b), i - 1);
      OrBit(a / 2, b / 2, i - 1);
    }
  }

  /** A bit of a ^ b is set exactly if it is set in one of them and not in the other. */
  lemma {:induction false} XorBit(a: nat, b: nat, i: nat)
    ensures BitAt(Xor(a, b), i) <==> BitAt(a, i) != BitAt(b, i)
    decreases i
  {
    hide Xor, BitAt, Low;
    XorHead(a, b);
    LowXor(a, b);
    if i == 0 {
      BitZero(a);
      BitZero(b);
      BitZero(Xor(a, b));
    } else {
      BitUp(a, i - 1);
      BitUp(b, i - 1);
      BitUp(Xor(a, b), i - 1);
      XorBit(a / 2, b / 2, i - 1);
    }
  }

  /** Bit i of 2^n - 1 - w is the other one. */
  lemma {:induction false} NotBit(w: nat, n: nat, i: nat)
    requires w < Pow2(n) && i < n
    ensures BitAt(Pow2(n) - 1 - w, i) <==> !BitAt(w, i)
    decreases i
  {
    hide BitAt;
    var v := Pow2(n) - 1 - w;
    assert v == 2 * (Pow2(n - 1) - 1 - w / 2) + (1 - w % 2);
    assert v / 2 == Pow2(n - 1) - 1 - w / 2 && v % 2 == 1 - w % 2;
    if i == 0 {
      BitZero(w);
      BitZero(v);
    } else {
      BitUp(w, i - 1);
      BitUp(v, i - 1);
      NotBit(w / 2, n - 1, i - 1);
    }
  }
}
