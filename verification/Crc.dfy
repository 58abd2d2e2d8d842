/**
 * The nibble-table CRC-16 of src/general/crc_check.c, related to the
 * bit-at-a-time procedure of section 6.2.2 of the MODBUS over Serial Line
 * Specification and Implementation Guide V1.02, and the error-detection
 * guarantees the register frame takes from it.
 */
module Crc {
  import opened Bits

  const POLY: u16 := 0xA001

  const TABLE: seq<u16> := [
    0x0000, 0xCC01, 0xD801, 0x1400, 0xF001, 0x3C00, 0x2800, 0xE401,
    0xA001, 0x6C00, 0x7800, 0xB401, 0x5000, 0x9C01, 0x8801, 0x4400
  ]

  function Xor16(a: u16, b: u16): u16 {
    Pow2Values(); XorFits(a, b, 16);
    Xor(a, b)
  }

  // ------------------------------------------------------------ reference definition

  /** One shift of the register; the bit that falls out selects the polynomial. */
  function Shift(c: u16): u16 {
    if Low(c) then Xor16(c / 2, POLY) else c / 2
  }

  function ShiftN(c: u16, n: nat): u16
    decreases n
  {
    if n == 0 then c else ShiftN(Shift(c), n - 1)
  }

  /** Section 6.2.2: exclusive-or the byte into the low half, then shift eight times. */
  function ByteStep(c: u16, b: byte): u16 { ShiftN(Xor16(c, b), 8) }

  function Modbus(c: u16, msg: seq<byte>): u16
    decreases msg
  {
    if msg == [] then c else Modbus(ByteStep(c, msg[0]), msg[1..])
  }

  // ------------------------------------------------------------ shifting is linear

  function Fallout(c: u16): u16 { if Low(c) then POLY else 0 }

  lemma ShiftAsXor(c: u16)
    ensures Shift(c) == Xor16(c / 2, Fallout(c))
  {
    XorNothing(c / 2);
  }

  lemma FalloutXor(a: u16, b: u16)
    ensures Fallout(Xor16(a, b)) == Xor16(Fallout(a), Fallout(b))
  {
    hide Xor;
    XorHead(a, b);
    XorSelf(POLY);
    XorNothing(POLY);
    XorNothing(0);
  }

  lemma ShiftLinear(a: u16, b: u16)
    ensures Shift(Xor16(a, b)) == Xor16(Shift(a), Shift(b))
  {
    var ab := Xor16(a, b);
    var a2: u16, b2: u16 := a / 2, b / 2;
    var fa, fb := Fallout(a), Fallout(b);
    XorHead(a, b);
    ShiftAsXor(a);
    ShiftAsXor(b);
    ShiftAsXor(ab);
    FalloutXor(a, b);
    XorSwap(a2, b2, fa, fb);
    assert ab / 2 == Xor16(a2, b2);
    assert Shift(ab) == Xor16(Xor16(a2, b2), Xor16(fa, fb));
  }

  lemma {:induction false} ShiftNLinear(a: u16, b: u16, n: nat)
    ensures ShiftN(Xor16(a, b), n) == Xor16(ShiftN(a, n), ShiftN(b, n))
    decreases n
  {
    if n == 0 {
    } else {
      ShiftLinear(a, b);
      ShiftNLinear(Shift(a), Shift(b), n - 1);
    }
  }

  // ------------------------------------------------------------ the table loop

  lemma XorEven(a: nat, h: nat)
    ensures Xor(a, 2 * h) == a % 2 + 2 * Xor(a / 2, h)
  {
    hide Xor;
    XorUnfold(a, 2 * h);
    assert 2 * h / 2 == h;
  }

  lemma XorClearNibble(a: nat, h: nat)
    ensures Xor(a, 16 * h) == a % 16 + 16 * Xor(a / 16, h)
  {
    hide Xor;
    XorEven(a, 8 * h);
    XorEven(a / 2, 4 * h);
    XorEven(a / 2 / 2, 2 * h);
    XorEven(a / 2 / 2 / 2, h);
    assert a / 2 / 2 / 2 / 2 == a / 16;
  }

  lemma XorTwoBits(k: nat)
    requires k < 4
    ensures Xor(k, 5) == if k % 2 == 0 then k + 5 else k + 3
  {
    XorUnfold(k, 5);
    XorUnfold(k / 2, 2);
    XorUnfold(0, 1);
  }

  /** Adding the polynomial in flips bit 0 and bit 13 and sets bit 15. */
  lemma XorPoly(k: nat)
    requires k < 0x8000
    ensures Xor(k, POLY) == k + 0x8000 + (if k % 2 == 0 then 1 else -1)
                            + (if k / 0x2000 % 2 == 0 then 0x2000 else -0x2000)
  {
    hide Xor;
    var j := k / 2;
    XorUnfold(k, POLY);
    XorClearNibble(j, 0x500);
    XorClearNibble(j / 16, 0x50);
    XorClearNibble(j / 256, 0x5);
    assert j / 16 / 16 == j / 256 && j / 256 / 16 == j / 0x1000;
    XorTwoBits(j / 0x1000);
    assert j % 16 + 16 * (j / 16 % 16 + 16 * (j / 256 % 16)) == j % 0x1000;
    assert j / 0x1000 == k / 0x2000;
  }

  /** One shift in plain arithmetic. */
  function ShiftValue(c: u16): int {
    var h := c / 2;
    if Low(c) then h + 0x8000 + (if h % 2 == 0 then 1 else -1) + (if h / 0x2000 % 2 == 0 then 0x2000 else -0x2000)
    else h
  }

  lemma ShiftIsValue(c: u16)
    ensures Shift(c) == ShiftValue(c)
  {
    hide Xor;
    XorPoly(c / 2);
  }

  lemma ShiftNSteps(c: u16)
    ensures ShiftN(c, 4) == Shift(Shift(Shift(Shift(c))))
  {
    hide Shift;
    var c1 := Shift(c);
    var c2 := Shift(c1);
    var c3 := Shift(c2);
    assert ShiftN(c3, 1) == ShiftN(Shift(c3), 0);
    assert ShiftN(c2, 2) == ShiftN(c3, 1);
    assert ShiftN(c1, 3) == ShiftN(c2, 2);
  }

  lemma ShiftChain(c: u16, c1: u16, c2: u16, c3: u16, c4: u16)
    requires ShiftValue(c) == c1 && ShiftValue(c1) == c2 && ShiftValue(c2) == c3 && ShiftValue(c3) == c4
    ensures ShiftN(c, 4) == c4
  {
    hide Shift, ShiftN, ShiftValue;
    ShiftIsValue(c);
    ShiftIsValue(c1);
    ShiftIsValue(c2);
    ShiftIsValue(c3);
    ShiftNSteps(c);
  }

  lemma LowEntries(n: nat)
    requires n < 8
    ensures TABLE[n] == ShiftN(n, 4)
  {
    hide Shift, ShiftN;
    if n == 0 { ShiftChain(0, 0, 0, 0, 0); }
    if n == 1 { ShiftChain(1, 0xA001, 0xF001, 0xD801, 0xCC01); }
    if n == 2 { ShiftChain(2, 1, 0xA001, 0xF001, 0xD801); }
    if n == 3 { ShiftChain(3, 0xA000, 0x5000, 0x2800, 0x1400); }
    if n == 4 { ShiftChain(4, 2, 1, 0xA001, 0xF001); }
    if n == 5 { ShiftChain(5, 0xA003, 0xF000, 0x7800, 0x3C00); }
    if n == 6 { ShiftChain(6, 3, 0xA000, 0x5000, 0x2800); }
    if n == 7 { ShiftChain(7, 0xA002, 0x5001, 0x8801, 0xE401); }
  }

  /** Each of the sixteen table entries is its index shifted four times. */
  lemma EntryIsShift4(n: nat)
    requires n < 16
    ensures TABLE[n] == ShiftN(n, 4)
  {
    hide Shift, ShiftN;
    if n < 8 { LowEntries(n); }
    if n == 8 { ShiftChain(8, 4, 2, 1, 0xA001); }
    if n == 9 { ShiftChain(9, 0xA005, 0xF003, 0xD800, 0x6C00); }
    if n == 10 { ShiftChain(10, 5, 0xA003, 0xF000, 0x7800); }
    if n == 11 { ShiftChain(11, 0xA004, 0x5002, 0x2801, 0xB401); }
    if n == 12 { ShiftChain(12, 6, 3, 0xA000, 0x5000); }
    if n == 13 { ShiftChain(13, 0xA007, 0xF002, 0x7801, 0x9C01); }
    if n == 14 { ShiftChain(14, 7, 0xA002, 0x5001, 0x8801); }
    if n == 15 { ShiftChain(15, 0xA006, 0x5003, 0x8800, 0x4400); }
  }

  lemma ShiftDouble(k: u16)
    requires 2 * k < 0x1_0000
    ensures Shift(2 * k) == k
  {
    assert 2 * k / 2 == k && !Low(2 * k);
  }

  lemma Shift4Clear(x: u16)
    requires x % 16 == 0
    ensures ShiftN(x, 4) == x / 16
  {
    hide Shift, ShiftN;
    var k := x / 16;
    assert x == 2 * (8 * k);
    ShiftNSteps(x);
    ShiftDouble(8 * k);
    ShiftDouble(4 * k);
    ShiftDouble(2 * k);
    ShiftDouble(k);
  }

  /** Four shifts are one table look-up on the low nibble plus a four-place shift. */
  lemma NibbleStep(x: u16)
    ensures ShiftN(x, 4) == Xor16(TABLE[x % 16], x / 16)
  {
    hide Xor, ShiftN;
    var lo: u16, hi: u16 := x % 16, x - x % 16;
    SplitNibble(x);
    ShiftNLinear(hi, lo, 4);
    Shift4Clear(hi);
    EntryIsShift4(lo);
    XorComm(hi / 16, TABLE[lo]);
    assert hi / 16 == x / 16;
  }

  lemma SplitNibble(x: nat)
    ensures Xor(x - x % 16, x % 16) == x
  {
    hide Xor;
    XorClearNibble(x % 16, x / 16);
    XorNothing(x / 16);
    XorComm(x - x % 16, x % 16);
    assert x % 16 / 16 == 0 && x - x % 16 == 16 * (x / 16);
  }

  lemma {:induction false} ShiftNAdd(c: u16, m: nat, n: nat)
    ensures ShiftN(c, m + n) == ShiftN(ShiftN(c, m), n)
    decreases m
  {
    if m == 0 {
    } else {
      ShiftNAdd(Shift(c), m - 1, n);
    }
  }

  /** The two table look-ups made for one message byte equal eight register shifts. */
  lemma NibblePair(c: u16, ch: byte)
    ensures var c1 := Xor16(TABLE[Xor(ch, c) % 16], c / 16);
            Xor16(TABLE[Xor(ch / 16, c1) % 16], c1 / 16) == ByteStep(c, ch)
  {
    hide Xor, ShiftN;
    var x := Xor16(c, ch);
    var c1 := Xor16(TABLE[x % 16], c / 16);
    XorComm(ch, c);
    FirstNibble(c, ch);
    var y := Xor16(c1, ch / 16);
    XorComm(ch / 16, c1);
    NibbleStep(y);
    XorSixteenth(c1, ch / 16);
    XorNothing(c1 / 16);
    ShiftNAdd(x, 4, 4);
  }

  lemma FirstNibble(c: u16, ch: byte)
    ensures var x := Xor16(c, ch);
            ShiftN(x, 4) == Xor16(Xor16(TABLE[x % 16], c / 16), ch / 16)
  {
    hide Xor, ShiftN;
    var x := Xor16(c, ch);
    NibbleStep(x);
    XorSixteenth(c, ch);
    XorAssoc(TABLE[x % 16], c / 16, ch / 16);
  }

  /** crc16: the table-driven loop computes the reference register for every start value. */
  method Crc16(init: u16, msg: array<byte>, msgLen: u16) returns (crc: u16)
    requires msgLen <= msg.Length
    ensures crc == Modbus(init, msg[..msgLen])
  {
    crc := init;
    var i := 0;
    while i < msgLen
      invariant 0 <= i <= msgLen
      invariant crc == Modbus(init, msg[..i])
    {
      var ch := msg[i];
      NibblePair(crc, ch);
      Append(init, msg[..i], ch);
      assert msg[..i + 1] == msg[..i] + [ch];
      crc := Xor16(TABLE[Xor(ch, crc) % 16], crc / 16);
      crc := Xor16(TABLE[Xor(ch / 16, crc) % 16], crc / 16);
      i := i + 1;
    }
  }

  /** Continuing from the register left by `a` is the CRC of `a` followed by `b`. */
  lemma {:induction false} Chain(c: u16, a: seq<byte>, b: seq<byte>)
    ensures Modbus(Modbus(c, a), b) == Modbus(c, a + b)
    decreases a
  {
    if a == [] {
      assert a + b == b;
    } else {
      assert (a + b)[1..] == a[1..] + b;
      Chain(ByteStep(c, a[0]), a[1..], b);
    }
  }

  lemma Append(c: u16, a: seq<byte>, ch: byte)
    ensures Modbus(c, a + [ch]) == ByteStep(Modbus(c, a), ch)
  {
    Chain(c, a, [ch]);
    assert [ch][1..] == [];
  }

  // ------------------------------------------------------------ the message as a bit stream

  /** Absorbs one message bit. */
  function Absorb(c: u16, bit: bool): u16 { Shift(Xor16(c, Bit(bit))) }

  function Feed(c: u16, bits: seq<bool>): u16
    decreases bits
  {
    if bits == [] then c else Feed(Absorb(c, bits[0]), bits[1..])
  }

  /** The bits of a message in register order: each byte least significant bit first. (LineBurst has the line's order.) */
  function MsgBits(msg: seq<byte>): (bits: seq<bool>)
    ensures |bits| == 8 * |msg|
  {
    if msg == [] then [] else BitsOf(msg[0], 8) + MsgBits(msg[1..])
  }

  lemma {:induction false} FeedAppend(c: u16, a: seq<bool>, b: seq<bool>)
    ensures Feed(c, a + b) == Feed(Feed(c, a), b)
    decreases a
  {
    if a == [] {
      assert a + b == b;
    } else {
      assert (a + b)[1..] == a[1..] + b;
      FeedAppend(Absorb(c, a[0]), a[1..], b);
    }
  }

  lemma AbsorbLow(c: u16, w: u16)
    ensures Shift(Xor16(c, w)) == Xor16(Absorb(c, Low(w)), w / 2)
  {
    hide Xor;
    var b: u16 := Bit(Low(w));
    var even: u16 := w - b;
    XorUnfold(even, b);
    XorNothing(w / 2);
    XorComm(even, b);
    assert Xor16(b, even) == w;
    XorAssoc(c, b, even);
    ShiftLinear(Xor16(c, b), even);
    assert Shift(even) == w / 2;
  }

  lemma {:induction false} FeedWord(c: u16, w: u16, n: nat)
    requires w < Pow2(n)
    ensures ShiftN(Xor16(c, w), n) == Feed(c, BitsOf(w, n))
    decreases n
  {
    if n == 0 {
      XorNothing(c);
    } else {
      AbsorbLow(c, w);
      FeedWord(Absorb(c, Low(w)), w / 2, n - 1);
      assert BitsOf(w, n)[1..] == BitsOf(w / 2, n - 1);
    }
  }

  /** The byte-wise reference is the bit-serial register run over the message bits in register order. */
  lemma {:induction false} BitSerial(c: u16, msg: seq<byte>)
    ensures Modbus(c, msg) == Feed(c, MsgBits(msg))
    decreases msg
  {
    if msg == [] {
    } else {
      Pow2Values();
      FeedWord(c, msg[0], 8);
      FeedAppend(c, BitsOf(msg[0], 8), MsgBits(msg[1..]));
      BitSerial(ByteStep(c, msg[0]), msg[1..]);
    }
  }

  lemma {:induction false} MsgBitsAppend(a: seq<byte>, b: seq<byte>)
    ensures MsgBits(a + b) == MsgBits(a) + MsgBits(b)
  {
    if a == [] {
      assert a + b == b;
    } else {
      assert (a + b)[1..] == a[1..] + b;
      MsgBitsAppend(a[1..], b);
    }
  }

  lemma {:induction false} MsgBitsInjective(a: seq<byte>, b: seq<byte>)
    requires MsgBits(a) == MsgBits(b)
    ensures a == b
  {
    hide BitsOf;
    if a != [] && b != [] {
      Pow2Values();
      assert MsgBits(a)[..8] == BitsOf(a[0], 8) && MsgBits(a)[8..] == MsgBits(a[1..]);
      assert MsgBits(b)[..8] == BitsOf(b[0], 8) && MsgBits(b)[8..] == MsgBits(b[1..]);
      BitsOfInjective(a[0], b[0], 8);
      MsgBitsInjective(a[1..], b[1..]);
      assert a == [a[0]] + a[1..] && b == [b[0]] + b[1..];
    } else {
      assert |MsgBits(a)| == 8 * |a| && |MsgBits(b)| == 8 * |b|;
    }
  }

  // ------------------------------------------------------------ inverse

  /** Undoes one shift: the polynomial has its top bit set, so the top bit tells the branch. */
  function Unshift(c: u16): u16 {
    Pow2Values(); XorTop(c, POLY, 15);
    if c >= 0x8000 then 2 * Xor16(c, POLY) + 1 else 2 * c
  }

  lemma ShiftUnshift(c: u16)
    ensures Unshift(Shift(c)) == c && Shift(Unshift(c)) == c
  {
    hide Xor;
    UnshiftShift(c);
    Pow2Values();
    XorTop(c, POLY, 15);
    XorCancel(c, POLY);
    var x := Xor16(c, POLY);
    if c >= 0x8000 {
      assert Low(2 * x + 1) && (2 * x + 1) / 2 == x;
    } else {
      assert !Low(2 * c) && 2 * c / 2 == c;
    }
  }

  lemma UnshiftShift(c: u16)
    ensures Unshift(Shift(c)) == c
  {
    hide Xor;
    Pow2Values();
    XorTop(c / 2, POLY, 15);
    XorCancel(c / 2, POLY);
  }

  function Release(c: u16, bit: bool): u16 { Xor16(Unshift(c), Bit(bit)) }

  lemma AbsorbRelease(c: u16, bit: bool)
    ensures Release(Absorb(c, bit), bit) == c && Absorb(Release(c, bit), bit) == c
  {
    ShiftUnshift(c);
    ShiftUnshift(Xor16(c, Bit(bit)));
    XorCancel(c, Bit(bit));
    XorCancel(Unshift(c), Bit(bit));
  }

  /** Runs the register backwards over a bit stream. */
  function Rewind(c: u16, bits: seq<bool>): u16
    decreases bits
  {
    if bits == [] then c else Release(Rewind(c, bits[1..]), bits[0])
  }

  lemma {:induction false} FeedRewind(c: u16, bits: seq<bool>)
    ensures Rewind(Feed(c, bits), bits) == c
    ensures Feed(Rewind(c, bits), bits) == c
    decreases bits
  {
    if bits == [] {
    } else {
      FeedRewind(Absorb(c, bits[0]), bits[1..]);
      FeedRewind(c, bits[1..]);
      AbsorbRelease(c, bits[0]);
      AbsorbRelease(Rewind(c, bits[1..]), bits[0]);
    }
  }

  /** For a fixed message the CRC is a bijection of the start value. */
  lemma Bijective(c: u16, msg: seq<byte>)
    ensures Rewind(Modbus(c, msg), MsgBits(msg)) == c
    ensures Modbus(Rewind(c, MsgBits(msg)), msg) == c
  {
    FeedRewind(c, MsgBits(msg));
    BitSerial(c, msg);
    BitSerial(Rewind(c, MsgBits(msg)), msg);
  }

  /** Equal registers after a common ending were equal before it. */
  lemma EndingKeeps(a: u16, b: u16, s: seq<byte>)
    requires Modbus(a, s) == Modbus(b, s)
    ensures a == b
  {
    hide Modbus;
    Bijective(a, s);
    Bijective(b, s);
  }

  /** Two bytes are absorbed as one word, the first of them low. */
  lemma TwoBytes(c: u16, x: byte, y: byte)
    ensures Modbus(c, [x, y]) == ShiftN(Xor16(c, x + 256 * y), 16)
  {
    hide Xor, BitsOf, Feed, ShiftN, Modbus;
    Pow2Values();
    var m: seq<byte>, w: u16 := [x, y], x + 256 * y;
    BitSerial(c, m);
    assert m[1..] == [y] && [y][1..] == [];
    assert MsgBits([y]) == BitsOf(y, 8) + MsgBits([]);
    assert MsgBits(m) == BitsOf(x, 8) + MsgBits([y]) == BitsOf(x, 8) + BitsOf(y, 8);
    BitsSplit(y, x, 8, 8);
    assert y * Pow2(8) + x == w;
    FeedWord(c, w, 16);
  }

  lemma ShiftNInjective(a: u16, b: u16, n: nat)
    requires ShiftN(a, n) == ShiftN(b, n)
    ensures a == b
  {
    hide Xor, BitsOf, Feed, ShiftN;
    Pow2Grows(0, n);
    XorNothing(a);
    XorNothing(b);
    FeedWord(a, 0, n);
    FeedWord(b, 0, n);
    FeedRewind(a, BitsOf(0, n));
    FeedRewind(b, BitsOf(0, n));
  }

  lemma ByteStepDifference(c: u16, a: byte, b: byte, d: byte)
    requires d == Xor(a, b)
    ensures Xor16(ByteStep(c, a), ByteStep(c, b)) == ShiftN(d, 8)
  {
    hide Xor, ShiftN;
    ShiftNLinear(Xor16(c, a), Xor16(c, b), 8);
    XorSwap(c, a, c, b);
    XorSelf(c);
    XorNothing(d);
  }

  // ------------------------------------------------------------ parity

  lemma {:induction false} OddScaled(k: nat, n: nat)
    ensures OddWord(k * Pow2(n)) == OddWord(k)
    decreases n
  {
    if n == 0 {
    } else {
      var h := k * Pow2(n - 1);
      assert k * Pow2(n) == 2 * h;
      OddScaled(k, n - 1);
      assert OddWord(2 * h) == OddWord(h);
    }
  }

  lemma OddPoly()
    ensures OddWord(POLY)
  {
    assert Pow2(12) == 0x1000;
    OddScaled(5, 12);
    assert OddWord(5) == (true != OddWord(2)) && OddWord(2) == OddWord(1) && OddWord(1);
  }

  lemma AbsorbParity(c: u16, bit: bool)
    ensures OddWord(Absorb(c, bit)) == (OddWord(c) != bit)
  {
    var x := Xor16(c, Bit(bit));
    OddWordXor(c, Bit(bit));
    assert OddWord(Bit(bit)) == bit;
    ShiftAsXor(x);
    OddWordXor(x / 2, Fallout(x));
    OddPoly();
  }

  lemma {:induction false} FeedParity(c: u16, bits: seq<bool>)
    ensures OddWord(Feed(c, bits)) == (OddWord(c) != Odd(bits))
    decreases bits
  {
    if bits == [] {
    } else {
      AbsorbParity(c, bits[0]);
      FeedParity(Absorb(c, bits[0]), bits[1..]);
    }
  }

  /** The polynomial has three terms, so the register carries the parity of all it has absorbed. */
  lemma Parity(c: u16, msg: seq<byte>)
    ensures OddWord(Modbus(c, msg)) == (OddWord(c) != Odd(MsgBits(msg)))
  {
    BitSerial(c, msg);
    FeedParity(c, MsgBits(msg));
  }

  // ------------------------------------------------------------ bursts

  function XorBits(a: seq<bool>, b: seq<bool>): (d: seq<bool>)
    requires |a| == |b|
    ensures |d| == |a|
    ensures forall i :: 0 <= i < |a| ==> d[i] == (a[i] != b[i])
  {
    seq(|a|, i requires 0 <= i < |a| => a[i] != b[i])
  }

  lemma AbsorbLinear(c1: u16, c2: u16, b1: bool, b2: bool)
    ensures Absorb(Xor16(c1, c2), b1 != b2) == Xor16(Absorb(c1, b1), Absorb(c2, b2))
  {
    var x1, x2 := Bit(b1), Bit(b2);
    XorSelf(1);
    XorNothing(1);
    XorNothing(0);
    assert Bit(b1 != b2) == Xor(x1, x2);
    XorSwap(c1, c2, x1, x2);
    ShiftLinear(Xor16(c1, x1), Xor16(c2, x2));
  }

  lemma {:induction false} FeedLinear(c1: u16, c2: u16, w1: seq<bool>, w2: seq<bool>)
    requires |w1| == |w2|
    ensures Feed(Xor16(c1, c2), XorBits(w1, w2)) == Xor16(Feed(c1, w1), Feed(c2, w2))
    decreases w1
  {
    if w1 == [] {
    } else {
      AbsorbLinear(c1, c2, w1[0], w2[0]);
      assert XorBits(w1, w2)[1..] == XorBits(w1[1..], w2[1..]);
      FeedLinear(Absorb(c1, w1[0]), Absorb(c2, w2[0]), w1[1..], w2[1..]);
    }
  }

  /** Exactly which errors escape: those whose difference alone leaves a zero register at zero. */
  lemma Syndrome(c: u16, w1: seq<bool>, w2: seq<bool>)
    requires |w1| == |w2|
    ensures Feed(c, w1) == Feed(c, w2) <==> Feed(0, XorBits(w1, w2)) == 0
  {
    XorSelf(c);
    FeedLinear(c, c, w1, w2);
    XorZeroEqual(Feed(c, w1), Feed(c, w2));
  }

  /** A register that at most fifteen more bits can clear holds no bit above their number. */
  lemma {:induction false} ClearedSoon(d: u16, w: seq<bool>)
    requires |w| <= 15 && Feed(d, w) == 0
    ensures d < Pow2(|w|)
    decreases w
  {
    Pow2Values();
    if w == [] {
    } else {
      ClearedSoon(Absorb(d, w[0]), w[1..]);
      Pow2Grows(|w| - 1, 14);
      var x := Xor16(d, Bit(w[0]));
      ShiftAsXor(x);
      XorTop(x / 2, POLY, 15);
      assert !Low(x);
      XorHead(d, Bit(w[0]));
      XorNothing(d / 2);
    }
  }

  lemma {:induction false} BurstRegister(d: seq<bool>)
    requires |d| <= 16 && Feed(0, d) == 0
    ensures forall i :: 0 <= i < |d| ==> !d[i]
  {
    hide Xor, Shift;
    if d == [] {
    } else {
      if d[0] {
        Pow2Values();
        AbsorbOne();
        ClearedSoon(POLY, d[1..]);
        Pow2Grows(|d| - 1, 15);
        assert false;
      } else {
        XorNothing(0);
        ShiftZero(1);
        BurstRegister(d[1..]);
        assert forall i :: 1 <= i < |d| ==> d[i] == d[1..][i - 1];
      }
    }
  }

  /** Streams that differ only inside sixteen consecutive bits, in register order, never share a CRC. */
  lemma BurstBits(c: u16, p: seq<bool>, w1: seq<bool>, w2: seq<bool>, s: seq<bool>)
    requires |w1| == |w2| <= 16
    requires Feed(c, p + w1 + s) == Feed(c, p + w2 + s)
    ensures w1 == w2
  {
    FeedAppend(c, p + w1, s);
    FeedAppend(c, p + w2, s);
    FeedAppend(c, p, w1);
    FeedAppend(c, p, w2);
    var m := Feed(c, p);
    FeedRewind(Feed(m, w1), s);
    FeedRewind(Feed(m, w2), s);
    Syndrome(m, w1, w2);
    BurstRegister(XorBits(w1, w2));
    assert forall i :: 0 <= i < |w1| ==> w1[i] == w2[i];
  }

  /** `m1` and `m2` have the same length and agree outside `n` consecutive bits in register order. */
  ghost predicate DifferInRegisterOrder(m1: seq<byte>, m2: seq<byte>, at: nat, n: nat) {
    && |m1| == |m2|
    && forall i :: 0 <= i < 8 * |m1| && !(at <= i < at + n) ==> MsgBits(m1)[i] == MsgBits(m2)[i]
  }

  /** A burst of up to sixteen bits in register order, at any bit offset, always changes the CRC. */
  lemma RegisterBurstDetected(c: u16, m1: seq<byte>, m2: seq<byte>, at: nat, n: nat)
    requires n <= 16 && DifferInRegisterOrder(m1, m2, at, n) && Modbus(c, m1) == Modbus(c, m2)
    ensures m1 == m2
  {
    hide Modbus, Feed, MsgBits;
    var x1, x2 := MsgBits(m1), MsgBits(m2);
    var lo := if at <= |x1| then at else |x1|;
    var hi := if at + n <= |x1| then at + n else |x1|;
    AroundBurst(x1, x2, lo, hi);
    BitSerial(c, m1);
    BitSerial(c, m2);
    BurstBits(c, x1[..lo], x1[lo..hi], x2[lo..hi], x1[hi..]);
    MsgBitsInjective(m1, m2);
  }

  lemma AroundBurst(x1: seq<bool>, x2: seq<bool>, lo: nat, hi: nat)
    requires |x1| == |x2| && lo <= hi <= |x1|
    requires forall i :: 0 <= i < |x1| && !(lo <= i < hi) ==> x1[i] == x2[i]
    ensures x1 == x1[..lo] + x1[lo..hi] + x1[hi..]
    ensures x2 == x1[..lo] + x2[lo..hi] + x1[hi..]
  {
    assert x2[..lo] == x1[..lo] && x2[hi..] == x1[hi..];
  }

  /** Sixteen is the exact reach in register order: a 17-bit burst equal to the generator is not seen. */
  lemma RegisterBurstLimit(n: nat)
    ensures (forall c, m1, m2, at :: DifferInRegisterOrder(m1, m2, at, n) && Modbus(c, m1) == Modbus(c, m2) ==> m1 == m2)
            <==> n <= 16
  {
    hide Modbus, MsgBits;
    if n <= 16 {
      forall c, m1, m2, at | DifferInRegisterOrder(m1, m2, at, n) && Modbus(c, m1) == Modbus(c, m2)
        ensures m1 == m2
      {
        RegisterBurstDetected(c, m1, m2, at, n);
      }
    } else {
      var m1: seq<byte>, m2: seq<byte> := [0x00, 0x00, 0x00], [0x03, 0x40, 0x01];
      GeneratorBurst();
      assert DifferInRegisterOrder(m1, m2, 0, n);
      assert Modbus(0, m1) == Modbus(0, m2) && m1 != m2;
    }
  }

  lemma {:induction false} FeedZeros(n: nat)
    ensures Feed(0, seq(n, _ => false)) == 0
  {
    var z := seq(n, _ => false);
    if n == 0 {
    } else {
      XorNothing(0);
      assert z[1..] == seq(n - 1, _ => false);
      FeedZeros(n - 1);
    }
  }

  /** One bit followed by the register it leaves clears the register again. */
  lemma GeneratorBurst()
    ensures var m1: seq<byte>, m2: seq<byte> := [0x00, 0x00, 0x00], [0x03, 0x40, 0x01];
            DifferInRegisterOrder(m1, m2, 0, 17) && Modbus(0, m1) == Modbus(0, m2)
  {
    hide Modbus, MsgBits;
    var m1: seq<byte>, m2: seq<byte> := [0x00, 0x00, 0x00], [0x03, 0x40, 0x01];
    GeneratorBits();
    BitSerial(0, m1);
    BitSerial(0, m2);
    FeedZeros(24);
    FeedGenerator();
    var z := seq(7, _ => false);
    assert forall i :: 17 <= i < 24 ==> MsgBits(m2)[i] == z[i - 17];
  }

  lemma FeedGenerator()
    ensures Feed(0, [true] + BitsOf(POLY, 16) + seq(7, _ => false)) == 0
  {
    hide BitsOf, Xor, Shift;
    var z := seq(7, _ => false);
    var g := BitsOf(POLY, 16);
    FeedZeros(7);
    AbsorbOne();
    Pow2Values();
    XorSelf(POLY);
    FeedWord(POLY, POLY, 16);
    ShiftZero(16);
    FeedAppend(0, [true], g + z);
    FeedAppend(POLY, g, z);
    assert Feed(0, [true]) == Feed(POLY, [true][1..]);
    assert [true] + (g + z) == [true] + g + z;
  }

  lemma AbsorbOne()
    ensures Absorb(0, true) == POLY
  {
    XorNothing(1);
    XorNothing(POLY);
  }

  lemma {:induction false} ShiftZero(n: nat)
    ensures ShiftN(0, n) == 0
  {
    if n == 0 {
    } else {
      assert Shift(0) == 0;
      ShiftZero(n - 1);
    }
  }

  lemma GeneratorBits()
    ensures MsgBits([0x00, 0x00, 0x00]) == seq(24, _ => false)
    ensures MsgBits([0x03, 0x40, 0x01]) == [true] + BitsOf(POLY, 16) + seq(7, _ => false)
  {
    hide BitsOf;
    MsgBits3(0x00, 0x00, 0x00);
    MsgBits3(0x03, 0x40, 0x01);
    ByteBits();
    PolyBits();
  }

  lemma ByteBits()
    ensures BitsOf(0x00, 8) == [false, false, false, false, false, false, false, false]
    ensures BitsOf(0x01, 8) == [true, false, false, false, false, false, false, false]
    ensures BitsOf(0x03, 8) == [true, true, false, false, false, false, false, false]
    ensures BitsOf(0x40, 8) == [false, false, false, false, false, false, true, false]
  {
    hide BitsOf;
    assert BitsOf(0, 0) == [] && BitsOf(0, 6) == [false, false, false, false, false, false] by {
      ZeroBits();
    }
    NextBits(0, 6);
    NextBits(1, 6);
    NextBits(3, 6);
    NextBits(1, 0);
    NextBits(4, 2);
    NextBits(0x10, 4);
    NextBits(0x40, 6);
  }

  lemma ZeroBits()
    ensures BitsOf(0, 0) == [] && BitsOf(0, 6) == [false, false, false, false, false, false]
  {
  }

  lemma PolyBits()
    ensures BitsOf(POLY, 16) == [true, false, false, false, false, false, false, false,
                                 false, false, false, false, false, true, false, true]
  {
    hide BitsOf;
    ZeroBits();
    NextBits(0x2, 0);
    NextBits(0xA, 2);
    NextBits(0x28, 4);
    NextBits(0xA0, 6);
    NextBits(0x280, 8);
    NextBits(0xA00, 10);
    NextBits(0x2800, 12);
    NextBits(0xA001, 14);
  }

  lemma MsgBits3(x: byte, y: byte, z: byte)
    ensures MsgBits([x, y, z]) == BitsOf(x, 8) + BitsOf(y, 8) + BitsOf(z, 8)
  {
    hide BitsOf;
    var m: seq<byte>, m1: seq<byte>, m2: seq<byte> := [x, y, z], [y, z], [z];
    assert m[1..] == m1 && m1[1..] == m2 && m2[1..] == [];
    assert MsgBits(m2) == BitsOf(z, 8) + [];
    assert MsgBits(m1) == BitsOf(y, 8) + MsgBits(m2);
  }

  /** Two adjacent bytes in any context are determined by the CRC. */
  lemma AdjacentBytes(c: u16, p: seq<byte>, w1: seq<byte>, w2: seq<byte>, s: seq<byte>)
    requires |w1| == |w2| <= 2 && Modbus(c, p + w1 + s) == Modbus(c, p + w2 + s)
    ensures w1 == w2
  {
    BitSerial(c, p + w1 + s);
    BitSerial(c, p + w2 + s);
    MsgBitsAppend(p + w1, s);
    MsgBitsAppend(p + w2, s);
    MsgBitsAppend(p, w1);
    MsgBitsAppend(p, w2);
    BurstBits(c, MsgBits(p), MsgBits(w1), MsgBits(w2), MsgBits(s));
    MsgBitsInjective(w1, w2);
  }
}
