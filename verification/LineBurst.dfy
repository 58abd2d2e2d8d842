/**
 * Burst errors as the SPI line carries them. SpiReg_Init selects most-significant-bit-first
 * transfers, the mirror image, byte by byte, of the order in which the CRC register meets
 * the bits; so the reach of the check against bursts on the line is a question of its own.
 */
module LineBurst {
  import opened Bits
  import opened Crc
  import opened MemCtrl
  import opened Frame

  // ------------------------------------------------------------ the line

  /** The place in register order of the i-th bit on the line, and conversely. */
  function Mirror(i: nat): (j: nat)
    ensures j / 8 == i / 8 && j % 8 == 7 - i % 8
  {
    i / 8 * 8 + 7 - i % 8
  }

  /** The bits of a message as the line carries them, each byte most significant bit first. */
  function LineBits(msg: seq<byte>): (bits: seq<bool>)
    ensures |bits| == 8 * |msg|
  {
    seq(8 * |msg|, i requires 0 <= i < 8 * |msg| => MsgBits(msg)[Mirror(i)])
  }

  /** `m1` and `m2` have the same length and agree outside `n` consecutive bits on the line. */
  ghost predicate DifferOnLine(m1: seq<byte>, m2: seq<byte>, at: nat, n: nat) {
    && |m1| == |m2|
    && forall i :: 0 <= i < 8 * |m1| && !(at <= i < at + n) ==> LineBits(m1)[i] == LineBits(m2)[i]
  }

  /** A frame's covered bytes and CRC field arrive changed, within one burst of `n` bits on the line. */
  ghost predicate LineError(covered: seq<byte>, field: seq<byte>, covered': seq<byte>, field': seq<byte>, at: nat, n: nat) {
    && |covered| == |covered'| && |field| == |field'| == 2
    && DifferOnLine(covered + field, covered' + field', at, n)
    && (covered != covered' || field != field')
  }

  // ------------------------------------------------------------ the register, cell by cell

  datatype Octet = Octet(b0: bool, b1: bool, b2: bool, b3: bool, b4: bool, b5: bool, b6: bool, b7: bool)

  datatype Cells = Cells(lo: Octet, hi: Octet)

  const NONE := Octet(false, false, false, false, false, false, false, false)

  function OctetOf(s: seq<bool>): Octet
    requires |s| == 8
  {
    Octet(s[0], s[1], s[2], s[3], s[4], s[5], s[6], s[7])
  }

  function CellsOf(c: u16): Cells {
    var s := BitsOf(c, 16);
    Cells(OctetOf(s[..8]), OctetOf(s[8..]))
  }

  function ShiftCells(r: Cells): Cells {
    var out := r.lo.b0;
    Cells(Octet(r.lo.b1 != out, r.lo.b2, r.lo.b3, r.lo.b4, r.lo.b5, r.lo.b6, r.lo.b7, r.hi.b0),
          Octet(r.hi.b1, r.hi.b2, r.hi.b3, r.hi.b4, r.hi.b5, r.hi.b6 != out, r.hi.b7, out))
  }

  function AbsorbCells(r: Cells, bit: bool): Cells {
    ShiftCells(r.(lo := r.lo.(b0 := r.lo.b0 != bit)))
  }

  function FeedCells(r: Cells, bits: seq<bool>): Cells
    decreases bits
  {
    if bits == [] then r else FeedCells(AbsorbCells(r, bits[0]), bits[1..])
  }

  lemma XorBitsCons(x: bool, y: bool, a: seq<bool>, b: seq<bool>)
    requires |a| == |b|
    ensures XorBits([x] + a, [y] + b) == [x != y] + XorBits(a, b)
  {
  }

  lemma {:induction false} XorBitsOf(a: nat, b: nat, n: nat)
    ensures BitsOf(Xor(a, b), n) == XorBits(BitsOf(a, n), BitsOf(b, n))
    decreases n
  {
    if n == 0 {
    } else {
      hide Xor, Low, XorBits;
      XorHead(a, b);
      LowXor(a, b);
      XorBitsOf(a / 2, b / 2, n - 1);
      XorBitsCons(Low(a), Low(b), BitsOf(a / 2, n - 1), BitsOf(b / 2, n - 1));
    }
  }

  lemma {:induction false} TopBitClear(c: nat, n: nat)
    requires c < Pow2(n)
    ensures BitsOf(c, n + 1) == BitsOf(c, n) + [false]
    decreases n
  {
    if n == 0 {
      assert BitsOf(c / 2, 0) == [];
    } else {
      TopBitClear(c / 2, n - 1);
    }
  }

  lemma HalfBits(c: u16)
    ensures BitsOf(c / 2, 16) == BitsOf(c, 16)[1..] + [false]
  {
    hide BitsOf;
    Pow2Values();
    TopBitClear(c, 16);
    OneBit(c, 16);
    var s := BitsOf(c, 16);
    assert ([Low(c)] + BitsOf(c / 2, 16))[1..] == (s + [false])[1..] == s[1..] + [false];
  }

  lemma OneBit(c: nat, n: nat)
    ensures BitsOf(c, n + 1) == [Low(c)] + BitsOf(c / 2, n)
  {
  }

  lemma {:induction false} ZeroBitsOf(n: nat)
    ensures BitsOf(0, n) == seq(n, _ => false)
  {
    if n == 0 {
    } else {
      ZeroBitsOf(n - 1);
    }
  }

  lemma CellsAt(c: u16)
    ensures var s, r := BitsOf(c, 16), CellsOf(c);
            && r.lo == Octet(s[0], s[1], s[2], s[3], s[4], s[5], s[6], s[7])
            && r.hi == Octet(s[8], s[9], s[10], s[11], s[12], s[13], s[14], s[15])
  {
    hide BitsOf;
  }

  lemma ShiftIsShiftCells(c: u16)
    ensures CellsOf(Shift(c)) == ShiftCells(CellsOf(c))
  {
    hide BitsOf, Xor, CellsOf, Shift;
    ShiftAsXor(c);
    var f := Fallout(c);
    XorBitsOf(c / 2, f, 16);
    HalfBits(c);
    PolyBits();
    ZeroBitsOf(16);
    OneBit(c, 15);
    CellsAt(c);
    CellsAt(Shift(c));
  }

  lemma AbsorbIsAbsorbCells(c: u16, bit: bool)
    ensures CellsOf(Absorb(c, bit)) == AbsorbCells(CellsOf(c), bit)
  {
    hide BitsOf, Xor, CellsOf, Shift, ShiftCells;
    var x := Xor16(c, Bit(bit));
    ShiftIsShiftCells(x);
    XorBitsOf(c, Bit(bit), 16);
    OneBit(Bit(bit), 15);
    ZeroBitsOf(15);
    CellsAt(c);
    CellsAt(x);
  }

  lemma {:induction false} FeedIsFeedCells(c: u16, bits: seq<bool>)
    ensures CellsOf(Feed(c, bits)) == FeedCells(CellsOf(c), bits)
    decreases bits
  {
    hide CellsOf, Absorb, AbsorbCells;
    if bits == [] {
    } else {
      AbsorbIsAbsorbCells(c, bits[0]);
      FeedIsFeedCells(Absorb(c, bits[0]), bits[1..]);
    }
  }

  // ------------------------------------------------------------ a byte at a time

  /** Four shifts, given the bits that fall out. */
  function ShiftNibble(r: Cells, o1: bool, o2: bool, o3: bool, o4: bool): Cells {
    var x, y := r.lo, r.hi;
    Cells(Octet(x.b4 != o4, x.b5, x.b6, x.b7, y.b0, y.b1, y.b2, y.b3),
          Octet(y.b4, y.b5, y.b6 != o1, y.b7 != o2, o1 != o3, o2 != o4, o3, o4))
  }

  function FeedNibble(r: Cells, d0: bool, d1: bool, d2: bool, d3: bool): Cells {
    var o1 := r.lo.b0 != d0;
    var o2 := (r.lo.b1 != d1) != o1;
    var o3 := (r.lo.b2 != d2) != o2;
    ShiftNibble(r, o1, o2, o3, (r.lo.b3 != d3) != o3)
  }

  function FeedByte(r: Cells, d: Octet): Cells {
    FeedNibble(FeedNibble(r, d.b0, d.b1, d.b2, d.b3), d.b4, d.b5, d.b6, d.b7)
  }

  lemma FeedEight(r: Cells, d: seq<bool>)
    requires |d| == 8
    ensures FeedCells(r, d) == FeedByte(r, OctetOf(d))
  {
    hide AbsorbCells;
    var r1 := AbsorbCells(r, d[0]);
    var r2 := AbsorbCells(r1, d[1]);
    var r3 := AbsorbCells(r2, d[2]);
    var r4 := AbsorbCells(r3, d[3]);
    var r5 := AbsorbCells(r4, d[4]);
    var r6 := AbsorbCells(r5, d[5]);
    var r7 := AbsorbCells(r6, d[6]);
    FeedTail(r7, d, 7);
    FeedTail(r6, d, 6);
    FeedTail(r5, d, 5);
    FeedTail(r4, d, 4);
    FeedTail(r3, d, 3);
    FeedTail(r2, d, 2);
    FeedTail(r1, d, 1);
    FeedTail(r, d, 0);
    EightAbsorbed(r, OctetOf(d));
    assert d[0..] == d && d[8..] == [];
  }

  lemma FeedTail(r: Cells, d: seq<bool>, i: nat)
    requires i < |d|
    ensures FeedCells(r, d[i..]) == FeedCells(AbsorbCells(r, d[i]), d[i + 1..])
  {
    assert d[i..][1..] == d[i + 1..];
  }

  lemma FourAbsorbed(r: Cells, d0: bool, d1: bool, d2: bool, d3: bool)
    ensures AbsorbCells(AbsorbCells(AbsorbCells(AbsorbCells(r, d0), d1), d2), d3) == FeedNibble(r, d0, d1, d2, d3)
  {
  }

  lemma EightAbsorbed(r: Cells, d: Octet)
    ensures AbsorbCells(AbsorbCells(AbsorbCells(AbsorbCells(AbsorbCells(AbsorbCells(AbsorbCells(AbsorbCells(
              r, d.b0), d.b1), d.b2), d.b3), d.b4), d.b5), d.b6), d.b7) == FeedByte(r, d)
  {
    hide AbsorbCells, FeedNibble;
    FourAbsorbed(r, d.b0, d.b1, d.b2, d.b3);
    FourAbsorbed(FeedNibble(r, d.b0, d.b1, d.b2, d.b3), d.b4, d.b5, d.b6, d.b7);
  }

  // ------------------------------------------------------------ bursts over three bytes

  const CLEAR := Cells(NONE, NONE)

  /** All changed bits of three neighbouring bytes lie within `n` line bits from the r-th on. */
  predicate Within(d0: Octet, d1: Octet, d2: Octet, r: nat, n: nat) {
    OctetWithin(d0, 0, r, n) && OctetWithin(d1, 8, r, n) && OctetWithin(d2, 16, r, n)
  }

  predicate OctetWithin(d: Octet, at: nat, r: nat, n: nat) {
    && (d.b7 ==> r <= at < r + n)
    && (d.b6 ==> r <= at + 1 < r + n)
    && (d.b5 ==> r <= at + 2 < r + n)
    && (d.b4 ==> r <= at + 3 < r + n)
    && (d.b3 ==> r <= at + 4 < r + n)
    && (d.b2 ==> r <= at + 5 < r + n)
    && (d.b1 ==> r <= at + 6 < r + n)
    && (d.b0 ==> r <= at + 7 < r + n)
  }

  predicate Quiet(d0: Octet, d1: Octet, d2: Octet) { d0 == NONE && d1 == NONE && d2 == NONE }

  /** Three covered bytes: ten bits cannot leave a clear register clear. */
  lemma InsideCovered(d0: Octet, d1: Octet, d2: Octet, r: nat)
    requires r < 8 && Within(d0, d1, d2, r, 10) && FeedByte(FeedByte(FeedByte(CLEAR, d0), d1), d2) == CLEAR
    ensures Quiet(d0, d1, d2)
  {
  }

  /** Two covered bytes and the first of the field: eleven bits cannot agree. */
  lemma TwoThenField(d0: Octet, d1: Octet, d2: Octet, r: nat)
    requires r < 8 && Within(d0, d1, d2, r, 11) && FeedByte(FeedByte(CLEAR, d0), d1) == Cells(NONE, d2)
    ensures Quiet(d0, d1, d2)
  {
  }

  /** One covered byte and the field. */
  lemma OneThenField(d0: Octet, d1: Octet, d2: Octet, r: nat)
    requires r < 8 && Within(d0, d1, d2, r, 11) && FeedByte(CLEAR, d0) == Cells(d2, d1)
    ensures Quiet(d0, d1, d2)
  {
  }

  // ------------------------------------------------------------ differences of messages

  function DiffOctet(a: byte, b: byte): Octet { OctetOf(XorBits(BitsOf(a, 8), BitsOf(b, 8))) }

  lemma DiffNone(a: byte, b: byte)
    ensures DiffOctet(a, b) == NONE <==> a == b
  {
    hide BitsOf;
    Pow2Values();
    var x, y := BitsOf(a, 8), BitsOf(b, 8);
    if DiffOctet(a, b) == NONE {
      assert x == [x[0], x[1], x[2], x[3], x[4], x[5], x[6], x[7]];
      assert y == [y[0], y[1], y[2], y[3], y[4], y[5], y[6], y[7]];
      BitsOfInjective(a, b, 8);
    }
  }

  /** The register fed with the difference of two messages. */
  function FeedDiff(r: Cells, m1: seq<byte>, m2: seq<byte>): Cells
    requires |m1| == |m2|
    decreases m1
  {
    if m1 == [] then r else FeedDiff(FeedByte(r, DiffOctet(m1[0], m2[0])), m1[1..], m2[1..])
  }

  lemma {:induction false} FeedIsFeedDiff(c: u16, m1: seq<byte>, m2: seq<byte>)
    requires |m1| == |m2|
    ensures CellsOf(Feed(c, XorBits(MsgBits(m1), MsgBits(m2)))) == FeedDiff(CellsOf(c), m1, m2)
    decreases m1
  {
    hide BitsOf, CellsOf, Feed, FeedByte, Absorb;
    var d := XorBits(MsgBits(m1), MsgBits(m2));
    if m1 == [] {
      assert d == [];
      FeedNone(c);
    } else {
      var first := XorBits(BitsOf(m1[0], 8), BitsOf(m2[0], 8));
      var rest := XorBits(MsgBits(m1[1..]), MsgBits(m2[1..]));
      assert d == first + rest;
      FeedAppend(c, first, rest);
      FeedIsFeedCells(c, first);
      FeedEight(CellsOf(c), first);
      FeedIsFeedDiff(Feed(c, first), m1[1..], m2[1..]);
    }
  }

  lemma FeedNone(c: u16)
    ensures Feed(c, []) == c
  {
  }

  lemma WordBits(hi: byte, lo: byte)
    ensures BitsOf(Big16(hi, lo), 16) == BitsOf(lo, 8) + BitsOf(hi, 8)
  {
    hide BitsOf;
    Pow2Values();
    BitsSplit(hi, lo, 8, 8);
    assert hi * Pow2(8) + lo == Big16(hi, lo);
  }

  lemma FieldCells(hi: byte, lo: byte, hi': byte, lo': byte)
    ensures CellsOf(Xor16(Big16(hi, lo), Big16(hi', lo'))) == Cells(DiffOctet(lo, lo'), DiffOctet(hi, hi'))
  {
    hide BitsOf, Xor, XorBits, Big16, OctetOf;
    WordBits(hi, lo);
    WordBits(hi', lo');
    XorBitsOf(Big16(hi, lo), Big16(hi', lo'), 16);
    XorBitsParts(BitsOf(lo, 8), BitsOf(hi, 8), BitsOf(lo', 8), BitsOf(hi', 8));
  }

  lemma XorBitsParts(a: seq<bool>, b: seq<bool>, c: seq<bool>, d: seq<bool>)
    requires |a| == |c| && |b| == |d|
    ensures XorBits(a + b, c + d)[..|a|] == XorBits(a, c) && XorBits(a + b, c + d)[|a|..] == XorBits(b, d)
  {
  }

  lemma ClearCells()
    ensures CellsOf(0) == CLEAR
  {
    hide BitsOf;
    ZeroBitsOf(16);
  }

  // ------------------------------------------------------------ where a burst shows

  lemma {:induction false} ByteBitsAt(m: seq<byte>, k: nat)
    requires k < |m|
    ensures MsgBits(m)[8 * k..8 * k + 8] == BitsOf(m[k], 8)
  {
    hide BitsOf;
    if k == 0 {
      assert MsgBits(m) == BitsOf(m[0], 8) + MsgBits(m[1..]);
    } else {
      ByteBitsAt(m[1..], k - 1);
      assert MsgBits(m) == BitsOf(m[0], 8) + MsgBits(m[1..]);
      assert MsgBits(m)[8 * k..8 * k + 8] == MsgBits(m[1..])[8 * (k - 1)..8 * (k - 1) + 8];
    }
  }

  lemma LineBitAt(m: seq<byte>, k: nat, u: nat)
    requires k < |m| && u < 8
    ensures LineBits(m)[8 * k + 7 - u] == BitsOf(m[k], 8)[u]
  {
    hide BitsOf, MsgBits;
    ByteBitsAt(m, k);
    var i := 8 * k + 7 - u;
    assert Mirror(i) == 8 * k + u;
    assert MsgBits(m)[8 * k..8 * k + 8][u] == MsgBits(m)[8 * k + u];
  }

  lemma BitInWindow(m1: seq<byte>, m2: seq<byte>, at: nat, n: nat, k: nat, u: nat)
    requires DifferOnLine(m1, m2, at, n) && k < |m1| && u < 8
    ensures BitsOf(m1[k], 8)[u] != BitsOf(m2[k], 8)[u] ==> at <= 8 * k + 7 - u < at + n
  {
    hide BitsOf, LineBits;
    LineBitAt(m1, k, u);
    LineBitAt(m2, k, u);
  }

  /** Byte k of the difference shows the part of the burst that falls on it. */
  lemma OctetInWindow(m1: seq<byte>, m2: seq<byte>, at: nat, n: nat, k: nat)
    requires DifferOnLine(m1, m2, at, n) && k < |m1|
    ensures OctetWithin(DiffOctet(m1[k], m2[k]), 8 * k, at, n)
  {
    hide BitsOf, DifferOnLine;
    BitInWindow(m1, m2, at, n, k, 0);
    BitInWindow(m1, m2, at, n, k, 1);
    BitInWindow(m1, m2, at, n, k, 2);
    BitInWindow(m1, m2, at, n, k, 3);
    BitInWindow(m1, m2, at, n, k, 4);
    BitInWindow(m1, m2, at, n, k, 5);
    BitInWindow(m1, m2, at, n, k, 6);
    BitInWindow(m1, m2, at, n, k, 7);
  }

  /** A burst of at most eleven bits touches three neighbouring bytes at most. */
  lemma OutsideEqual(m1: seq<byte>, m2: seq<byte>, at: nat, n: nat, k: nat)
    requires n <= 11 && DifferOnLine(m1, m2, at, n) && k < |m1| && !(at / 8 <= k <= at / 8 + 2)
    ensures m1[k] == m2[k]
  {
    assert |m1| == |m2|;
    hide DiffOctet, DifferOnLine;
    OctetInWindow(m1, m2, at, n, k);
    DiffNone(m1[k], m2[k]);
  }

  /** The difference in the byte t places after the one the burst starts in, if there is one. */
  function Part(m1: seq<byte>, m2: seq<byte>, k: nat): Octet
    requires |m1| == |m2|
  {
    if k < |m1| then DiffOctet(m1[k], m2[k]) else NONE
  }

  /** The window as seen from byte q. */
  lemma PartWithin(m1: seq<byte>, m2: seq<byte>, at: nat, n: nat, k: nat)
    requires DifferOnLine(m1, m2, at, n) && k >= at / 8
    ensures OctetWithin(Part(m1, m2, k), 8 * (k - at / 8), at % 8, n)
  {
    assert |m1| == |m2|;
    hide DiffOctet, DifferOnLine;
    if k < |m1| {
      OctetInWindow(m1, m2, at, n, k);
    }
    assert at == 8 * (at / 8) + at % 8;
  }

  lemma PartsWithin(m1: seq<byte>, m2: seq<byte>, at: nat, n: nat)
    requires DifferOnLine(m1, m2, at, n)
    ensures var q := at / 8; Within(Part(m1, m2, q), Part(m1, m2, q + 1), Part(m1, m2, q + 2), at % 8, n)
  {
    assert |m1| == |m2|;
    hide Part, OctetWithin, DifferOnLine;
    var q := at / 8;
    PartWithin(m1, m2, at, n, q);
    PartWithin(m1, m2, at, n, q + 1);
    PartWithin(m1, m2, at, n, q + 2);
  }

  lemma PartNone(m1: seq<byte>, m2: seq<byte>, k: nat)
    requires |m1| == |m2| && k < |m1| && Part(m1, m2, k) == NONE
    ensures m1[k] == m2[k]
  {
    hide DiffOctet;
    DiffNone(m1[k], m2[k]);
  }

  lemma PartsNone(m1: seq<byte>, m2: seq<byte>, at: nat, n: nat)
    requires n <= 11 && DifferOnLine(m1, m2, at, n)
    requires var q := at / 8; Quiet(Part(m1, m2, q), Part(m1, m2, q + 1), Part(m1, m2, q + 2))
    ensures m1 == m2
  {
    assert |m1| == |m2|;
    hide Part, DifferOnLine;
    var q := at / 8;
    forall k | 0 <= k < |m1|
      ensures m1[k] == m2[k]
    {
      if k == q || k == q + 1 || k == q + 2 {
        PartNone(m1, m2, k);
      } else {
        OutsideEqual(m1, m2, at, n, k);
      }
    }
  }

  // ------------------------------------------------------------ rejection

  /** After a common beginning, two registers differ by what the difference alone leaves in a clear one. */
  lemma DifferenceFed(p: seq<byte>, m1: seq<byte>, m2: seq<byte>)
    requires |m1| == |m2|
    ensures CellsOf(Xor16(Modbus(CRC_INIT, p + m1), Modbus(CRC_INIT, p + m2))) == FeedDiff(CLEAR, m1, m2)
  {
    hide Modbus, Feed, CellsOf, Xor, FeedDiff, MsgBits;
    var c := Modbus(CRC_INIT, p);
    Chain(CRC_INIT, p, m1);
    Chain(CRC_INIT, p, m2);
    BitSerial(c, m1);
    BitSerial(c, m2);
    FeedLinear(c, c, MsgBits(m1), MsgBits(m2));
    XorSelf(c);
    FeedIsFeedDiff(0, m1, m2);
    ClearCells();
  }

  lemma FeedThree(m1: seq<byte>, m2: seq<byte>)
    requires |m1| == |m2| == 3
    ensures FeedDiff(CLEAR, m1, m2)
            == FeedByte(FeedByte(FeedByte(CLEAR, DiffOctet(m1[0], m2[0])), DiffOctet(m1[1], m2[1])), DiffOctet(m1[2], m2[2]))
  {
    hide FeedByte, DiffOctet;
    var r := FeedByte(CLEAR, DiffOctet(m1[0], m2[0]));
    FeedFirst(CLEAR, m1, m2);
    FeedFirst(r, m1[1..], m2[1..]);
    FeedFirst(FeedByte(r, DiffOctet(m1[1], m2[1])), m1[2..], m2[2..]);
    assert m1[1..][1..] == m1[2..] && m2[1..][1..] == m2[2..] && m1[2..][1..] == [];
  }

  lemma FeedTwo(m1: seq<byte>, m2: seq<byte>)
    requires |m1| == |m2| == 2
    ensures FeedDiff(CLEAR, m1, m2) == FeedByte(FeedByte(CLEAR, DiffOctet(m1[0], m2[0])), DiffOctet(m1[1], m2[1]))
  {
    hide FeedByte, DiffOctet;
    FeedFirst(CLEAR, m1, m2);
    FeedFirst(FeedByte(CLEAR, DiffOctet(m1[0], m2[0])), m1[1..], m2[1..]);
    assert m1[1..][1..] == [];
  }

  lemma FeedFirst(r: Cells, m1: seq<byte>, m2: seq<byte>)
    requires |m1| == |m2| > 0
    ensures FeedDiff(r, m1, m2) == FeedDiff(FeedByte(r, DiffOctet(m1[0], m2[0])), m1[1..], m2[1..])
    ensures |m1| == 1 ==> FeedDiff(r, m1, m2) == FeedByte(r, DiffOctet(m1[0], m2[0]))
  {
    hide FeedByte, DiffOctet;
  }

  /** Both frames pass, and the burst lies in three covered bytes. */
  lemma BurstInCovered(p: seq<byte>, m1: seq<byte>, m2: seq<byte>, s: seq<byte>, r: nat)
    requires |m1| == |m2| == 3 && r < 8 && Modbus(CRC_INIT, p + m1 + s) == Modbus(CRC_INIT, p + m2 + s)
    requires Within(DiffOctet(m1[0], m2[0]), DiffOctet(m1[1], m2[1]), DiffOctet(m1[2], m2[2]), r, 10)
    ensures Quiet(DiffOctet(m1[0], m2[0]), DiffOctet(m1[1], m2[1]), DiffOctet(m1[2], m2[2]))
  {
    hide Modbus, CellsOf, Xor, FeedByte, DiffOctet, Within;
    var a, b := Modbus(CRC_INIT, p + m1), Modbus(CRC_INIT, p + m2);
    Chain(CRC_INIT, p + m1, s);
    Chain(CRC_INIT, p + m2, s);
    EndingKeeps(a, b, s);
    XorSelf(a);
    ClearCells();
    DifferenceFed(p, m1, m2);
    FeedThree(m1, m2);
    InsideCovered(DiffOctet(m1[0], m2[0]), DiffOctet(m1[1], m2[1]), DiffOctet(m1[2], m2[2]), r);
  }

  /** Both frames pass, and the burst starts in the last two covered bytes. */
  lemma BurstAtBorder(p: seq<byte>, m1: seq<byte>, m2: seq<byte>, f1: seq<byte>, f2: seq<byte>)
    requires 1 <= |m1| == |m2| <= 2 && |f1| == |f2| == 2 && Check(p + m1, f1) && Check(p + m2, f2)
    ensures |m1| == 2 ==>
              FeedByte(FeedByte(CLEAR, DiffOctet(m1[0], m2[0])), DiffOctet(m1[1], m2[1]))
              == Cells(DiffOctet(f1[1], f2[1]), DiffOctet(f1[0], f2[0]))
    ensures |m1| == 1 ==>
              FeedByte(CLEAR, DiffOctet(m1[0], m2[0])) == Cells(DiffOctet(f1[1], f2[1]), DiffOctet(f1[0], f2[0]))
  {
    hide Modbus, CellsOf, Xor, FeedByte, DiffOctet;
    DifferenceFed(p, m1, m2);
    FieldCells(f1[0], f1[1], f2[0], f2[1]);
    if |m1| == 2 {
      FeedTwo(m1, m2);
    } else {
      FeedFirst(CLEAR, m1, m2);
    }
  }

  lemma CoveredCase(covered: seq<byte>, field: seq<byte>, covered': seq<byte>, field': seq<byte>, at: nat)
    requires LineError(covered, field, covered', field', at, 10) && at / 8 + 3 <= |covered|
    requires Check(covered, field)
    ensures !Check(covered', field')
  {
    hide Modbus, DiffOctet, DifferOnLine, Within;
    var m1, m2, q, c := covered + field, covered' + field', at / 8, |covered|;
    if Check(covered', field') {
      OutsideAll(m1, m2, at, 10);
      assert field == field' by { assert field == m1[c..] == m2[c..] == field'; }
      var p, s := covered[..q], covered[q + 3..];
      assert covered' == p + covered'[q..q + 3] + s by { Split(covered, field, covered', field', q); }
      assert covered == p + covered[q..q + 3] + s;
      PartsWithin(m1, m2, at, 10);
      BurstInCovered(p, covered[q..q + 3], covered'[q..q + 3], s, at % 8);
      PartsNone(m1, m2, at, 10);
      assert false;
    }
  }

  lemma OutsideAll(m1: seq<byte>, m2: seq<byte>, at: nat, n: nat)
    requires n <= 11 && DifferOnLine(m1, m2, at, n)
    ensures |m1| == |m2|
    ensures forall k :: 0 <= k < |m1| && !(at / 8 <= k <= at / 8 + 2) ==> m1[k] == m2[k]
  {
    assert |m1| == |m2|;
    forall k | 0 <= k < |m1| && !(at / 8 <= k <= at / 8 + 2)
      ensures m1[k] == m2[k]
    {
      OutsideEqual(m1, m2, at, n, k);
    }
  }

  /** The common beginning and ending around three changed bytes. */
  lemma Split(covered: seq<byte>, field: seq<byte>, covered': seq<byte>, field': seq<byte>, q: nat)
    requires |covered| == |covered'| && q + 3 <= |covered| && |field| == |field'|
    requires forall k :: 0 <= k < |covered + field| && !(q <= k <= q + 2) ==> (covered + field)[k] == (covered' + field')[k]
    ensures covered' == covered[..q] + covered'[q..q + 3] + covered[q + 3..]
  {
    assert forall k :: 0 <= k < |covered| ==> (covered + field)[k] == covered[k] && (covered' + field')[k] == covered'[k];
  }

  lemma BorderCase(covered: seq<byte>, field: seq<byte>, covered': seq<byte>, field': seq<byte>, at: nat)
    requires LineError(covered, field, covered', field', at, 11) && at / 8 + 1 <= |covered| <= at / 8 + 2
    requires Check(covered, field)
    ensures !Check(covered', field')
  {
    hide Modbus, DiffOctet, DifferOnLine, FeedByte, Within;
    var m1, m2, q, c := covered + field, covered' + field', at / 8, |covered|;
    if Check(covered', field') {
      OutsideAll(m1, m2, at, 11);
      var p := covered[..q];
      assert covered == p + covered[q..];
      assert covered' == p + covered'[q..] by {
        assert forall k :: 0 <= k < q ==> m1[k] == covered[k] && m2[k] == covered'[k];
      }
      PartsWithin(m1, m2, at, 11);
      BurstAtBorder(p, covered[q..], covered'[q..], field, field');
      var d0, d1, d2 := Part(m1, m2, q), Part(m1, m2, q + 1), Part(m1, m2, q + 2);
      if c == q + 2 {
        assert m1[c + 1] == m2[c + 1] && field[1] == field'[1];
        DiffNone(field[1], field'[1]);
        TwoThenField(d0, d1, d2, at % 8);
      } else {
        OneThenField(d0, d1, d2, at % 8);
      }
      PartsNone(m1, m2, at, 11);
      assert false;
    }
  }

  lemma FieldCase(covered: seq<byte>, field: seq<byte>, covered': seq<byte>, field': seq<byte>, at: nat)
    requires LineError(covered, field, covered', field', at, 11) && at / 8 >= |covered| && Check(covered, field)
    ensures !Check(covered', field')
  {
    hide Modbus, DifferOnLine;
    var m1, m2, c := covered + field, covered' + field', |covered|;
    OutsideAll(m1, m2, at, 11);
    assert covered == covered' by { assert covered == m1[..c] == m2[..c] == covered'; }
    BigBytesUnique(Modbus(CRC_INIT, covered), field);
    BigBytesUnique(Modbus(CRC_INIT, covered), field');
  }

  lemma FieldUntouched(covered: seq<byte>, field: seq<byte>, covered': seq<byte>, field': seq<byte>, at: nat, n: nat)
    requires LineError(covered, field, covered', field', at, n) && n <= 11 && at / 8 + 3 <= |covered|
    ensures field == field'
  {
    OutsideAll(covered + field, covered' + field', at, n);
    assert field == (covered + field)[|covered|..] == (covered' + field')[|covered|..] == field';
  }

  /** With the count taken as it was sent, every burst of up to ten line bits in header, data and field fails the check,
      and one of eleven too if any of it falls on the field. */
  lemma LineBurstRejected(covered: seq<byte>, field: seq<byte>, covered': seq<byte>, field': seq<byte>, at: nat, n: nat)
    requires |field| == |field'| == 2 && Check(covered, field)
    requires LineError(covered, field, covered', field', at, n) && n <= (if field == field' then 10 else 11)
    ensures !Check(covered', field')
  {
    hide Modbus, Check, LineBits;
    assert LineError(covered, field, covered', field', at, 11);
    if at / 8 + 3 <= |covered| {
      FieldUntouched(covered, field, covered', field', at, n);
      assert LineError(covered, field, covered', field', at, 10);
      CoveredCase(covered, field, covered', field', at);
    } else if at / 8 < |covered| {
      BorderCase(covered, field, covered', field', at);
    } else {
      FieldCase(covered, field, covered', field', at);
    }
  }

  // ------------------------------------------------------------ bursts that escape

  lemma OnLineFromOctets(m1: seq<byte>, m2: seq<byte>, at: nat, n: nat)
    requires |m1| == |m2|
    requires forall k :: 0 <= k < |m1| ==> OctetWithin(DiffOctet(m1[k], m2[k]), 8 * k, at, n)
    ensures DifferOnLine(m1, m2, at, n)
  {
    hide LineBits;
    forall i | 0 <= i < 8 * |m1| && !(at <= i < at + n)
      ensures LineBits(m1)[i] == LineBits(m2)[i]
    {
      SameBit(m1, m2, at, n, i);
    }
  }

  lemma SameBit(m1: seq<byte>, m2: seq<byte>, at: nat, n: nat, i: nat)
    requires |m1| == |m2| && i < 8 * |m1| && !(at <= i < at + n)
    requires OctetWithin(DiffOctet(m1[i / 8], m2[i / 8]), 8 * (i / 8), at, n)
    ensures LineBits(m1)[i] == LineBits(m2)[i]
  {
    hide BitsOf, LineBits;
    var k, u := i / 8, 7 - i % 8;
    assert i == 8 * k + 7 - u;
    LineBitAt(m1, k, u);
    LineBitAt(m2, k, u);
  }

  lemma FlippedOctet(b: byte, x: byte)
    ensures DiffOctet(b, XorByte(b, x)) == OctetOf(BitsOf(x, 8))
  {
    hide BitsOf, Xor;
    XorBitsOf(b, x, 8);
  }

  lemma NoDifference(b: byte, at: nat, r: nat, n: nat)
    ensures OctetWithin(DiffOctet(b, b), at, r, n)
  {
    hide BitsOf;
  }

  /** A changed middle between common ends, all of whose changes lie in the window. */
  lemma OnLineAround(p: seq<byte>, e1: seq<byte>, e2: seq<byte>, s: seq<byte>, at: nat, n: nat)
    requires |e1| == |e2|
    requires forall k :: 0 <= k < |e1| ==> OctetWithin(DiffOctet(e1[k], e2[k]), 8 * (|p| + k), at, n)
    ensures DifferOnLine(p + e1 + s, p + e2 + s, at, n)
  {
    hide DiffOctet, DifferOnLine, OctetWithin;
    var m1, m2 := p + e1 + s, p + e2 + s;
    forall k | 0 <= k < |m1|
      ensures OctetWithin(DiffOctet(m1[k], m2[k]), 8 * k, at, n)
    {
      if |p| <= k < |p| + |e1| {
        var j := k - |p|;
        assert m1[k] == e1[j] && m2[k] == e2[j] && |p| + j == k;
      } else {
        NoDifference(m1[k], 8 * k, at, n);
      }
    }
    OnLineFromOctets(m1, m2, at, n);
  }

  /** The patterns used below, least significant bit first. */
  lemma PatternBits()
    ensures OctetOf(BitsOf(0x01, 8)) == Octet(true, false, false, false, false, false, false, false)
    ensures OctetOf(BitsOf(0xC1, 8)) == Octet(true, false, false, false, false, false, true, true)
    ensures OctetOf(BitsOf(0xC0, 8)) == Octet(false, false, false, false, false, false, true, true)
    ensures OctetOf(BitsOf(0x0C, 8)) == Octet(false, false, true, true, false, false, false, false)
    ensures OctetOf(BitsOf(0x05, 8)) == Octet(true, false, true, false, false, false, false, false)
  {
    hide BitsOf, OctetOf;
    Pattern(0x01, 0x00, 0x00, 0x00);
    Pattern(0xC1, 0x30, 0x0C, 0x03);
    Pattern(0xC0, 0x30, 0x0C, 0x03);
    Pattern(0x0C, 0x03, 0x00, 0x00);
    Pattern(0x05, 0x01, 0x00, 0x00);
  }

  /** The bits of a byte, two at a time. */
  lemma Pattern(x: byte, x2: nat, x4: nat, x6: nat)
    requires x2 == x / 4 && x4 == x2 / 4 && x6 == x4 / 4
    ensures OctetOf(BitsOf(x, 8))
         == Octet(Low(x), Low(x / 2), Low(x2), Low(x2 / 2), Low(x4), Low(x4 / 2), Low(x6), Low(x6 / 2))
  {
    hide BitsOf;
    NextBits(x, 6);
    NextBits(x2, 4);
    NextBits(x4, 2);
    NextBits(x6, 0);
  }

  /** Three changed bytes: 0x01, 0xC1 and 0xC0. */
  function Flip3(e: seq<byte>): seq<byte>
    requires |e| == 3
  {
    [XorByte(e[0], 0x01), XorByte(e[1], 0xC1), XorByte(e[2], 0xC0)]
  }

  lemma EqualRegisters(a: u16, b: u16)
    requires CellsOf(Xor16(a, b)) == CLEAR
    ensures a == b
  {
    hide BitsOf, Xor;
    var w := Xor16(a, b);
    CellsAt(w);
    ZeroBitsOf(16);
    Pow2Values();
    assert BitsOf(w, 16) == BitsOf(0, 16);
    BitsOfInjective(w, 0, 16);
    XorZeroEqual(a, b);
  }

  lemma Flip3Unseen(p: seq<byte>, e: seq<byte>, s: seq<byte>)
    requires |e| == 3
    ensures Modbus(CRC_INIT, p + Flip3(e) + s) == Modbus(CRC_INIT, p + e + s)
  {
    hide Modbus, CellsOf, Xor, BitsOf, DiffOctet;
    FlippedOctet(e[0], 0x01);
    FlippedOctet(e[1], 0xC1);
    FlippedOctet(e[2], 0xC0);
    PatternBits();
    DifferenceFed(p, e, Flip3(e));
    FeedThree(e, Flip3(e));
    EqualRegisters(Modbus(CRC_INIT, p + e), Modbus(CRC_INIT, p + Flip3(e)));
    Chain(CRC_INIT, p + e, s);
    Chain(CRC_INIT, p + Flip3(e), s);
  }

  lemma Flip3OnLine(p: seq<byte>, e: seq<byte>, s: seq<byte>)
    requires |e| == 3
    ensures DifferOnLine(p + e + s, p + Flip3(e) + s, 8 * |p| + 7, 11)
  {
    hide DiffOctet, DifferOnLine, OctetWithin, XorByte;
    Flip3Octets(e, 8 * |p|);
    assert 8 * (|p| + 1) == 8 * |p| + 8 && 8 * (|p| + 2) == 8 * |p| + 16;
    OnLineAround(p, e, Flip3(e), s, 8 * |p| + 7, 11);
  }

  lemma Flip3Octets(e: seq<byte>, at: nat)
    requires |e| == 3
    ensures OctetWithin(DiffOctet(e[0], Flip3(e)[0]), at, at + 7, 11)
    ensures OctetWithin(DiffOctet(e[1], Flip3(e)[1]), at + 8, at + 7, 11)
    ensures OctetWithin(DiffOctet(e[2], Flip3(e)[2]), at + 16, at + 7, 11)
    ensures e[0] != Flip3(e)[0]
  {
    hide BitsOf, Xor, DiffOctet;
    FlippedOctet(e[0], 0x01);
    FlippedOctet(e[1], 0xC1);
    FlippedOctet(e[2], 0xC0);
    PatternBits();
    DiffNone(e[0], Flip3(e)[0]);
  }

  /** Eleven line bits across any three neighbouring covered bytes of any frame pass. */
  lemma EscapingBurst(p: seq<byte>, e: seq<byte>, s: seq<byte>, field: seq<byte>)
    requires |e| == 3 && |field| == 2
    ensures Check(p + Flip3(e) + s, field) <==> Check(p + e + s, field)
    ensures LineError(p + e + s, field, p + Flip3(e) + s, field, 8 * |p| + 7, 11)
  {
    hide Modbus, LineError, Flip3;
    Flip3Unseen(p, e, s);
    Flip3IsError(p, e, s, field);
  }

  lemma Flip3IsError(p: seq<byte>, e: seq<byte>, s: seq<byte>, field: seq<byte>)
    requires |e| == 3 && |field| == 2
    ensures LineError(p + e + s, field, p + Flip3(e) + s, field, 8 * |p| + 7, 11)
  {
    hide DifferOnLine, XorByte, DiffOctet, OctetWithin;
    Flip3OnLine(p, e, s + field);
    assert p + e + s + field == p + e + (s + field) && p + Flip3(e) + s + field == p + Flip3(e) + (s + field);
    Flip3Octets(e, 0);
    assert (p + e + s)[|p|] == e[0] && (p + Flip3(e) + s)[|p|] == Flip3(e)[0];
  }

  /** Twelve line bits across the border of data and field pass for every frame. */
  lemma EscapingBorderBurst(p: seq<byte>, b: byte, hi: byte, lo: byte)
    ensures Check(p + [b], [hi, lo]) ==> Check(p + [XorByte(b, 0x0C)], [XorByte(hi, 0x05), lo])
    ensures LineError(p + [b], [hi, lo], p + [XorByte(b, 0x0C)], [XorByte(hi, 0x05), lo], 8 * |p| + 4, 12)
    ensures XorByte(hi, 0x05) != hi
  {
    hide Check, XorByte, DifferOnLine;
    if Check(p + [b], [hi, lo]) {
      BoundaryBurstAccepted(p, b, hi, lo);
    }
    BorderOnLine(p, b, hi, lo);
    BorderOctets(b, hi, 0);
  }

  lemma BorderOnLine(p: seq<byte>, b: byte, hi: byte, lo: byte)
    ensures DifferOnLine(p + [b] + [hi, lo], p + [XorByte(b, 0x0C)] + [XorByte(hi, 0x05), lo], 8 * |p| + 4, 12)
  {
    hide DiffOctet, DifferOnLine, OctetWithin, XorByte;
    var e1, e2 := [b, hi], [XorByte(b, 0x0C), XorByte(hi, 0x05)];
    BorderOctets(b, hi, 8 * |p|);
    assert 8 * (|p| + 1) == 8 * |p| + 8;
    OnLineAround(p, e1, e2, [lo], 8 * |p| + 4, 12);
    assert p + [b] + [hi, lo] == p + e1 + [lo];
    assert p + [XorByte(b, 0x0C)] + [XorByte(hi, 0x05), lo] == p + e2 + [lo];
  }

  lemma BorderOctets(b: byte, hi: byte, at: nat)
    ensures OctetWithin(DiffOctet(b, XorByte(b, 0x0C)), at, at + 4, 12)
    ensures OctetWithin(DiffOctet(hi, XorByte(hi, 0x05)), at + 8, at + 4, 12)
    ensures XorByte(b, 0x0C) != b && XorByte(hi, 0x05) != hi
  {
    hide BitsOf, Xor, DiffOctet;
    FlippedOctet(b, 0x0C);
    FlippedOctet(hi, 0x05);
    PatternBits();
    DiffNone(b, XorByte(b, 0x0C));
    DiffNone(hi, XorByte(hi, 0x05));
  }
}
