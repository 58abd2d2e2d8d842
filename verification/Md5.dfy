/**
 * src/general/md5.c: the digest with registers that rotate through fixed variables, proved
 * to compute RFC 1321. size_t is unbounded here; the C code truncates only where shown.
 */
module Md5 {
  import opened Bits
  import opened LittleEndian
  import opened Rfc1321

  /** The flat table of shift amounts, sixteen a round. */
  const R: seq<nat> := R1 + R2 + R3 + R4
  const R1: seq<nat> := [7, 12, 17, 22, 7, 12, 17, 22, 7, 12, 17, 22, 7, 12, 17, 22]
  const R2: seq<nat> := [5, 9, 14, 20, 5, 9, 14, 20, 5, 9, 14, 20, 5, 9, 14, 20]
  const R3: seq<nat> := [4, 11, 16, 23, 4, 11, 16, 23, 4, 11, 16, 23, 4, 11, 16, 23]
  const R4: seq<nat> := [6, 10, 15, 21, 6, 10, 15, 21, 6, 10, 15, 21, 6, 10, 15, 21]

  // ------------------------------------------------------------ word helpers

  /** The C expression x << c on uint32_t. */
  function Shl(x: u32, c: nat): u32 { x * Pow2(c) % WORD }

  /** The C expression x >> c on uint32_t. */
  function Shr(x: u32, c: nat): u32 {
    Pow2Grows(0, c); DivSmaller(x, Pow2(c));
    x / Pow2(c)
  }

  lemma DivSmaller(x: nat, d: nat)
    requires d >= 1
    ensures 0 <= x / d <= x
  {
    MulMonotone(1, d, x / d);
    assert x / d * d + x % d == x;
  }

  /** LEFTROTATE */
  function LeftRotate(x: u32, c: nat): u32
    requires 0 < c < 32
  {
    Or32(Shl(x, c), Shr(x, 32 - c))
  }

  /** The shift-and-or macro is a circular shift. */
  lemma LeftRotateIsRotate(x: u32, c: nat)
    requires 0 < c < 32
    ensures LeftRotate(x, c) == Rotate(x, c)
  {
    hide Pow2, Or;
    var p, q := Pow2(c), Pow2(32 - c);
    Pow2Split(c);
    Halves(x, p, q);
    var hi, lo := x / q, x % q;
    ShiftedOut(x, hi, lo, p, q);
    OrDisjoint(lo, hi, c);
  }

  lemma ShiftedOut(x: u32, hi: nat, lo: nat, p: nat, q: nat)
    requires p * q == WORD && x == hi * q + lo && lo * p + hi < WORD
    ensures x * p % WORD == lo * p
  {
    assert x * p == hi * (p * q) + lo * p;
    DivModUnique(x * p, hi, lo * p, WORD);
  }

  /** to_int32 */
  function ToInt32(b0: byte, b1: byte, b2: byte, b3: byte): u32 {
    Or32(Or32(Or32(b0, Shl(b1, 8)), Shl(b2, 16)), Shl(b3, 24))
  }

  lemma ToInt32IsFromLe(b0: byte, b1: byte, b2: byte, b3: byte)
    ensures ToInt32(b0, b1, b2, b3) == FromLe([b0, b1, b2, b3])
  {
    ShlValues();
    hide Pow2, Or;
    OrComm(b0, Shl(b1, 8));
    OrDisjoint(b1, b0, 8);
    var w2: nat := Or32(b0, Shl(b1, 8));
    OrComm(w2, Shl(b2, 16));
    OrDisjoint(b2, w2, 16);
    var w3: nat := Or32(w2, Shl(b2, 16));
    OrComm(w3, Shl(b3, 24));
    OrDisjoint(b3, w3, 24);
  }

  lemma ShlValues()
    ensures Pow2(8) == 0x100 && Pow2(16) == 0x1_0000 && Pow2(24) == 0x100_0000
  {
    assert Pow2(12) == 0x1000;
  }

  /** to_bytes */
  method ToBytes(val: u32, bytes: array<byte>, at: nat)
    requires at + 4 <= bytes.Length
    modifies bytes
    ensures bytes[at..at + 4] == LeBytes(val, 4)
    ensures bytes[..at] == old(bytes[..at]) && bytes[at + 4..] == old(bytes[at + 4..])
    ensures forall n :: at + 4 <= n <= bytes.Length ==> bytes[n..] == old(bytes[n..])
  {
    bytes[at] := val % 256;
    bytes[at + 1] := val / 0x100 % 256;
    bytes[at + 2] := val / 0x1_0000 % 256;
    bytes[at + 3] := val / 0x100_0000 % 256;
    LeFour(val);
  }

  // ------------------------------------------------------------ padding

  /** The two words written after the padding are the bit length modulo 2^64. */
  lemma {:induction false} LengthField(len: nat)
    ensures LeBytes(8 * len % WORD, 4) + LeBytes(len / 0x2000_0000 % WORD, 4) == LeBytes(8 * len, 8)
  {
    hide LeBytes;
    var v := 8 * len;
    assert v / WORD == len / 0x2000_0000;
    LeSplit(v, 4, 4);
    LeWord(v);
    LeWord(v / WORD);
    assert ShrBytes(v, 4) == v / WORD by { ShrFour(v); }
  }

  function ShrBytes(v: nat, n: nat): nat
    decreases n
  {
    if n == 0 then v else ShrBytes(v / 256, n - 1)
  }

  lemma ShrFour(v: nat)
    ensures ShrBytes(v, 4) == v / WORD
  {
    assert ShrBytes(v, 4) == v / 256 / 256 / 256 / 256;
    assert v / 256 / 256 == v / 0x1_0000 && v / 0x1_0000 / 256 == v / 0x100_0000 && v / 0x100_0000 / 256 == v / WORD;
  }

  lemma {:induction false} LeSplit(v: nat, m: nat, n: nat)
    ensures LeBytes(v, m + n) == LeBytes(v, m) + LeBytes(ShrBytes(v, m), n)
    decreases m
  {
    if m == 0 {
    } else {
      LeSplit(v / 256, m - 1, n);
    }
  }

  /** Bytes do not see what lies above them. */
  lemma {:induction false} LeLow(h: nat, l: nat, n: nat)
    ensures LeBytes(h * Pow2(8 * n) + l, n) == LeBytes(l, n)
    decreases n
  {
    if n == 0 {
    } else {
      var k := h * Pow2(8 * (n - 1));
      PowByte(n);
      assert h * Pow2(8 * n) == 256 * k;
      assert (256 * k + l) / 256 == k + l / 256;
      LeLow(h, l / 256, n - 1);
    }
  }

  lemma PowByte(n: nat)
    requires n > 0
    ensures Pow2(8 * n) == 256 * Pow2(8 * (n - 1))
  {
    PowAdd(8, 8 * (n - 1));
    ShlValues();
  }

  lemma LeWord(v: nat)
    ensures LeBytes(v % WORD, 4) == LeBytes(v, 4)
  {
    hide LeBytes;
    Pow32();
    LeLow(v / WORD, v % WORD, 4);
  }

  /** Everything before the block loop: a buffer holding the padded message. */
  method Prepare(initial: array<byte>, len: nat) returns (msg: array<byte>, newLen: nat)
    requires len <= initial.Length
    ensures fresh(msg) && msg[..] == Padded(initial[..len])
    ensures newLen + 8 == msg.Length && newLen % 64 == 56
  {
    newLen := NewLength(len);
    msg := new byte[newLen + 8](_ => 0);
    FillBody(initial, len, msg, newLen);
    WriteLength(msg, len, newLen);
    assert msg[..] == msg[..newLen] + msg[newLen..];
  }

  method NewLength(len: nat) returns (newLen: nat)
    ensures newLen == len + 1 + ZeroCount(len) && newLen % 64 == 56
  {
    newLen := len + 1;
    LeastMultiple(len, 0);
    while newLen % 64 != 56
      invariant len + 1 <= newLen <= len + 1 + ZeroCount(len)
      decreases len + 1 + ZeroCount(len) - newLen
    {
      newLen := newLen + 1;
    }
    LeastMultiple(len, newLen + 8);
  }

  /** memcpy, the marker byte and the zeros. */
  method FillBody(initial: array<byte>, len: nat, msg: array<byte>, newLen: nat)
    requires len <= initial.Length && len < newLen <= msg.Length && msg != initial
    modifies msg
    ensures msg[..newLen] == initial[..len] + [0x80] + Zeros(newLen - len - 1)
  {
    var i := 0;
    while i < len
      invariant 0 <= i <= len && msg[..i] == initial[..i]
    {
      msg[i] := initial[i];
      i := i + 1;
    }
    msg[len] := 0x80;
    var offset := len + 1;
    while offset < newLen
      invariant len + 1 <= offset <= newLen
      invariant msg[..offset] == initial[..len] + [0x80] + Zeros(offset - len - 1)
    {
      msg[offset] := 0;
      offset := offset + 1;
    }
  }

  /** The length in bits, as two words. */
  method WriteLength(msg: array<byte>, len: nat, newLen: nat)
    requires newLen + 8 == msg.Length
    modifies msg
    ensures msg[..newLen] == old(msg[..newLen]) && msg[newLen..] == LeBytes(8 * len, 8)
  {
    hide LeBytes;
    ToBytes(len * 8 % WORD, msg, newLen);
    ghost var low := msg[newLen..newLen + 4];
    ghost var body := msg[..newLen];
    ToBytes(len / 0x2000_0000 % WORD, msg, newLen + 4);
    LengthField(len);
    assert msg[..newLen + 4][..newLen] == body && msg[..newLen + 4][newLen..] == low;
    assert msg[newLen..] == low + msg[newLen + 4..newLen + 8];
  }

  // ------------------------------------------------------------ the block loop

  /** The variables a, b, c, d after i steps: RFC registers rotated by i places. */
  function Rotated(r: Regs, i: nat): Regs {
    if i % 4 == 0 then r
    else if i % 4 == 1 then Regs(r.D, r.A, r.B, r.C)
    else if i % 4 == 2 then Regs(r.C, r.D, r.A, r.B)
    else Regs(r.B, r.C, r.D, r.A)
  }

  /** The g of the loop is the published word index. */
  lemma IndexMatches(i: nat)
    requires i < 64
    ensures WORD_INDEX[i] == if i < 16 then i else if i < 32 then (5 * i + 1) % 16
                             else if i < 48 then (3 * i + 5) % 16 else 7 * i % 16
  {
    InQuarter(INDEX1, INDEX2, INDEX3, INDEX4, i);
    if i < 16 { FirstRounds(i); }
    else if i < 32 { FirstRounds(i - 16); }
    else if i < 48 { LastRounds(i - 32); }
    else { LastRounds(i - 48); }
  }

  lemma InQuarter<T>(a: seq<T>, b: seq<T>, c: seq<T>, d: seq<T>, i: nat)
    requires |a| == |b| == |c| == |d| == 16 && i < 64
    ensures (a + b + c + d)[i] == if i < 16 then a[i] else if i < 32 then b[i - 16]
                                  else if i < 48 then c[i - 32] else d[i - 48]
  {
  }

  lemma FirstRounds(j: nat)
    requires j < 16
    ensures INDEX1[j] == j && INDEX2[j] == (5 * (j + 16) + 1) % 16
  {
  }

  lemma LastRounds(j: nat)
    requires j < 16
    ensures INDEX3[j] == (3 * (j + 32) + 5) % 16 && INDEX4[j] == 7 * (j + 48) % 16
  {
  }

  /** The flat shift table repeats each round's four amounts. */
  lemma ShiftMatches(i: nat)
    requires i < 64
    ensures R[i] == Shift(i)
  {
    hide Shift;
    if i < 32 { EarlyShift(i); } else { LateShift(i); }
  }

  lemma EarlyShift(i: nat)
    requires i < 32
    ensures R[i] == Shift(i)
  {
    hide Shift;
    if i < 16 {
      assert R[i] == R1[i];
      ShiftAt(0, i);
      FirstShifts(i);
    } else {
      assert R[i] == R2[i - 16];
      ShiftAt(1, i - 16);
      FirstShifts(i - 16);
    }
  }

  lemma LateShift(i: nat)
    requires 32 <= i < 64
    ensures R[i] == Shift(i)
  {
    hide Shift;
    if i < 48 {
      assert R[i] == R3[i - 32];
      ShiftAt(2, i - 32);
      LastShifts(i - 32);
    } else {
      assert R[i] == R4[i - 48];
      ShiftAt(3, i - 48);
      LastShifts(i - 48);
    }
  }

  lemma ShiftAt(round: nat, j: nat)
    requires round < 4 && j < 16
    ensures Shift(16 * round + j) == SHIFTS[round][j % 4]
  {
    assert (16 * round + j) / 16 == round && (16 * round + j) % 4 == j % 4;
  }

  lemma FirstShifts(j: nat)
    requires j < 16
    ensures R1[j] == SHIFTS[0][j % 4] && R2[j] == SHIFTS[1][j % 4]
  {
  }

  lemma LastShifts(j: nat)
    requires j < 16
    ensures R3[j] == SHIFTS[2][j % 4] && R4[j] == SHIFTS[3][j % 4]
  {
  }

  /** One pass of the inner loop body, as it assigns temp, d, c, b, a. */
  method Step(i: nat, w: array<u32>, a: u32, b: u32, c: u32, d: u32)
    returns (a': u32, b': u32, c': u32, d': u32)
    requires i < 64 && w.Length == 16
    ensures a' == d && c' == b && d' == c && b' == Op(i, w[..], a, b, c, d)
  {
    hide And, Or, Xor, Rotate, LeftRotate;
    var f: u32;
    var g: nat;
    if i < 16 {
      f := Or32(And32(b, c), And32(Not32(b), d));
      g := i;
    } else if i < 32 {
      f := Or32(And32(d, b), And32(Not32(d), c));
      g := (5 * i + 1) % 16;
      AndComm(d, b);
      AndComm(Not32(d), c);
    } else if i < 48 {
      f := Xor32(Xor32(b, c), d);
      g := (3 * i + 5) % 16;
    } else {
      f := Xor32(c, Or32(b, Not32(d)));
      g := 7 * i % 16;
    }
    IndexMatches(i);
    ShiftMatches(i);
    LeftRotateIsRotate(Add(Add(Add(a, f), SINE[i]), w[g]), R[i]);
    var temp := d;
    d' := c;
    c' := b;
    b' := Add(b, LeftRotate(Add(Add(Add(a, f), SINE[i]), w[g]), R[i]));
    a' := temp;
  }

  lemma RotatedStep(i: nat, x: Block, r: Regs)
    requires i < 64
    ensures var v := Rotated(r, i);
            Rotated(Operation(i, x, r), i + 1) == Regs(v.D, Op(i, x, v.A, v.B, v.C, v.D), v.B, v.C)
  {
    hide Op;
  }

  /** The body of the block loop: words, sixty-four steps, and the sum into h0..h3. */
  method Chunk(msg: array<byte>, offset: nat, h: Regs) returns (h': Regs)
    requires offset + 64 <= msg.Length
    ensures h' == Compress(h, WordsOf(msg[offset..offset + 64]))
  {
    hide WordsOf, Operations;
    var w := LoadWords(msg, offset);
    var r := Loop(w, h);
    h' := Regs(Add(h.A, r.A), Add(h.B, r.B), Add(h.C, r.C), Add(h.D, r.D));
  }

  method LoadWords(msg: array<byte>, offset: nat) returns (w: array<u32>)
    requires offset + 64 <= msg.Length
    ensures fresh(w) && w.Length == 16 && w[..] == WordsOf(msg[offset..offset + 64])
  {
    hide ToInt32, FromLe;
    w := new u32[16](_ => 0);
    ghost var all, block := msg[..], msg[offset..offset + 64];
    assert block == all[offset..offset + 64];
    var i := 0;
    while i < 16
      invariant 0 <= i <= 16
      invariant forall j :: 0 <= j < i ==> w[j] == FromLe(block[4 * j..4 * j + 4])
    {
      var p := offset + i * 4;
      FourOf(all, offset, i);
      ToInt32IsFromLe(msg[p], msg[p + 1], msg[p + 2], msg[p + 3]);
      w[i] := ToInt32(msg[p], msg[p + 1], msg[p + 2], msg[p + 3]);
      i := i + 1;
    }
    assert w[..] == WordsOf(block);
  }

  lemma FourOf(all: seq<byte>, offset: nat, i: nat)
    requires offset + 64 <= |all| && i < 16
    ensures var p := offset + i * 4;
            all[offset..offset + 64][4 * i..4 * i + 4] == [all[p], all[p + 1], all[p + 2], all[p + 3]]
  {
  }

  method Loop(w: array<u32>, h: Regs) returns (r: Regs)
    requires w.Length == 16
    ensures r == Operations(w[..], h, 64)
  {
    hide Op, Operation, Rotated;
    var a, b, c, d := h.A, h.B, h.C, h.D;
    assert Rotated(h, 0) == h by { StartRotated(h); }
    var i := 0;
    while i < 64
      invariant 0 <= i <= 64 && Regs(a, b, c, d) == Rotated(Operations(w[..], h, i), i)
    {
      RotatedStep(i, w[..], Operations(w[..], h, i));
      a, b, c, d := Step(i, w, a, b, c, d);
      i := i + 1;
    }
    r := Regs(a, b, c, d);
    EndRotated(Operations(w[..], h, 64));
  }

  lemma StartRotated(r: Regs)
    ensures Rotated(r, 0) == r
  {
  }

  lemma EndRotated(r: Regs)
    ensures Rotated(r, 64) == r
  {
  }

  /** The outer loop covers exactly the padded message, block by block. */
  method AllChunks(msg: array<byte>, newLen: nat) returns (h: Regs)
    requires newLen + 8 == msg.Length && newLen % 64 == 56
    ensures h == Fold(INITIAL, msg[..])
  {
    hide Compress, WordsOf;
    h := INITIAL;
    var offset := 0;
    assert msg[0..] == msg[..];
    while offset < newLen
      invariant offset % 64 == 0 && offset <= msg.Length
      invariant Fold(h, msg[offset..]) == Fold(INITIAL, msg[..])
    {
      h := Chunk(msg, offset, h);
      assert msg[offset..][..64] == msg[offset..offset + 64] && msg[offset..][64..] == msg[offset + 64..];
      offset := offset + 64;
    }
    assert msg[offset..] == [];
  }

  /** md5: writes the RFC 1321 digest of the message, for every message. */
  method Md5(initial: array<byte>, len: nat, digest: array<byte>)
    requires len <= initial.Length && digest.Length >= 16
    modifies digest
    ensures digest[..16] == Digest(old(initial[..len])) && digest[16..] == old(digest[16..])
  {
    hide Padded, Fold, Output;
    var msg, newLen := Prepare(initial, len);
    var h := AllChunks(msg, newLen);
    WriteDigest(h, digest);
  }

  method WriteDigest(h: Regs, digest: array<byte>)
    requires digest.Length >= 16
    modifies digest
    ensures digest[..16] == Output(h) && digest[16..] == old(digest[16..])
  {
    hide LeBytes;
    ToBytes(h.A, digest, 0);
    assert digest[..4] == LeBytes(h.A, 4);
    ToBytes(h.B, digest, 4);
    assert digest[..8] == digest[..4] + digest[4..8] == LeBytes(h.A, 4) + LeBytes(h.B, 4);
    ToBytes(h.C, digest, 8);
    assert digest[..12] == digest[..8] + digest[8..12];
    ToBytes(h.D, digest, 12);
    assert digest[..16] == digest[..12] + digest[12..16];
  }
}
