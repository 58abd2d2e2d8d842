/**
 * The wire format of src/spi_reg.c: a five-byte command padded to eight, and data followed
 * by a CRC that continues from the command header, padded to a multiple of eight.
 */
module Frame {
  import opened Bits
  import opened Crc
  import opened MemCtrl
  import opened Options

  const CMD_READ: byte := 0x03
  const CMD_WRITE: byte := 0x06
  const CMD_LEN := 8
  const HEADER_LEN := 5
  const MSG_MAX := 1024
  const PAD: byte := 0xFF
  const CRC_INIT: u16 := 0xFFFF

  datatype Request = Request(op: byte, addr: u16, data: seq<byte>)

  function Padding(n: nat): (s: seq<byte>)
    ensures |s| == n
  {
    seq(n, _ => PAD)
  }

  // ------------------------------------------------------------ what the host emits

  function Header(op: byte, addr: u16, cnt: u16): (s: seq<byte>)
    ensures |s| == HEADER_LEN
  {
    [op] + BigBytes(addr) + BigBytes(cnt)
  }

  function Command(op: byte, addr: u16, cnt: u16): (s: seq<byte>)
    ensures |s| == CMD_LEN
  {
    Header(op, addr, cnt) + Padding(CMD_LEN - HEADER_LEN)
  }

  /** Data plus CRC, rounded up as the code computes it. */
  function PaddedLen(cnt: u16): nat {
    var t := cnt + 2;
    t + (8 - t % 8) % 8
  }

  function FrameCrc(op: byte, addr: u16, data: seq<byte>): u16
    requires |data| < 0x1_0000
  {
    Modbus(CRC_INIT, Header(op, addr, |data|) + data)
  }

  function Payload(op: byte, addr: u16, data: seq<byte>): (s: seq<byte>)
    requires |data| < 0x1_0000
    ensures |s| == PaddedLen(|data|)
  {
    data + BigBytes(FrameCrc(op, addr, data)) + Padding(PaddedLen(|data|) - |data| - 2)
  }

  /** The padded length is the least multiple of eight holding data and CRC, and the last count that fits is 1022. */
  lemma PaddedLenMinimal(cnt: u16, n: nat)
    ensures n % 8 == 0 && cnt + 2 <= n ==> PaddedLen(cnt) <= n
    ensures PaddedLen(cnt) % 8 == 0 && cnt + 2 <= PaddedLen(cnt)
    ensures PaddedLen(cnt) <= MSG_MAX <==> cnt <= 1022
  {
    var q, r := (cnt + 2) / 8, (cnt + 2) % 8;
    assert PaddedLen(cnt) == 8 * if r == 0 then q else q + 1;
    if n % 8 == 0 {
      assert n == 8 * (n / 8);
    }
  }

  lemma HeaderIs(op: byte, addr: u16, cnt: u16)
    ensures Header(op, addr, cnt) == [op, addr / 256, addr % 256, cnt / 256, cnt % 256]
  {
  }

  lemma CommandIs(op: byte, addr: u16, cnt: u16)
    ensures Command(op, addr, cnt) == [op, addr / 256, addr % 256, cnt / 256, cnt % 256, 0xFF, 0xFF, 0xFF]
  {
    hide Header;
    HeaderIs(op, addr, cnt);
  }

  /** The bytes of both transfers, in numbers. */
  lemma WireLayout(addr: u16, data: seq<byte>)
    requires |data| < 0x1_0000
    ensures var n := |data|;
            && Command(CMD_READ, addr, n) == [0x03, addr / 256, addr % 256, n / 256, n % 256, 0xFF, 0xFF, 0xFF]
            && Command(CMD_WRITE, addr, n) == [0x06, addr / 256, addr % 256, n / 256, n % 256, 0xFF, 0xFF, 0xFF]
    ensures var n, p := |data|, Payload(CMD_WRITE, addr, data);
            && p[..n] == data && p[n..n + 2] == BigBytes(Modbus(0xFFFF, Header(0x06, addr, n) + data))
            && forall k :: n + 2 <= k < |p| ==> p[k] == 0xFF
  {
    hide Modbus, Command, Header;
    CommandIs(CMD_READ, addr, |data|);
    CommandIs(CMD_WRITE, addr, |data|);
  }

  // ------------------------------------------------------------ what the receiver checks

  /** The check both ends make: the two bytes after the covered ones are their CRC. */
  predicate Check(covered: seq<byte>, field: seq<byte>)
    requires |field| == 2
  {
    Modbus(CRC_INIT, covered) == Big16(field[0], field[1])
  }

  /** The host's acceptance of a reply to a read of `cnt` registers at `addr`. */
  predicate ReplyOk(addr: u16, cnt: u16, reply: seq<byte>)
    requires cnt + 2 <= |reply|
  {
    Check(Header(CMD_READ, addr, cnt) + reply[..cnt], reply[cnt..cnt + 2])
  }

  /** Reads a write transaction back from its two transfers. */
  function Decode(cmd: seq<byte>, payload: seq<byte>): Option<Request> {
    if |cmd| != CMD_LEN then None else
    var addr, cnt := Big16(cmd[1], cmd[2]), Big16(cmd[3], cmd[4]);
    if |payload| != PaddedLen(cnt) then None else
    if !Check(cmd[..HEADER_LEN] + payload[..cnt], payload[cnt..cnt + 2]) then None else
    Some(Request(cmd[0], addr, payload[..cnt]))
  }

  lemma HeaderFields(op: byte, addr: u16, cnt: u16)
    ensures var h := Header(op, addr, cnt);
            h[0] == op && Big16(h[1], h[2]) == addr && Big16(h[3], h[4]) == cnt
  {
  }

  /** The receiver recovers opcode, address, length and data from what the host emits. */
  lemma RoundTrip(op: byte, addr: u16, data: seq<byte>)
    requires |data| < 0x1_0000
    ensures Decode(Command(op, addr, |data|), Payload(op, addr, data)) == Some(Request(op, addr, data))
  {
    hide Modbus;
    var cmd, payload := Command(op, addr, |data|), Payload(op, addr, data);
    HeaderFields(op, addr, |data|);
    assert cmd[..HEADER_LEN] == Header(op, addr, |data|);
    assert forall i :: 0 <= i < HEADER_LEN ==> cmd[i] == Header(op, addr, |data|)[i];
    assert payload[..|data|] == data;
    assert payload[|data|..|data| + 2] == BigBytes(FrameCrc(op, addr, data));
  }

  /** Two requests share both transfers exactly when they are the same request. */
  lemma FramesInjective(r1: Request, r2: Request)
    requires |r1.data| < 0x1_0000 && |r2.data| < 0x1_0000
    ensures Command(r1.op, r1.addr, |r1.data|) == Command(r2.op, r2.addr, |r2.data|)
            && Payload(r1.op, r1.addr, r1.data) == Payload(r2.op, r2.addr, r2.data)
            <==> r1 == r2
  {
    hide Command, Payload, Decode;
    RoundTrip(r1.op, r1.addr, r1.data);
    RoundTrip(r2.op, r2.addr, r2.data);
  }

  // ------------------------------------------------------------ a reply is bound to its request

  /** No reply passes for two addresses: one computed for another register is refused, whatever its data. */
  lemma AddressBound(addr: u16, other: u16, cnt: u16, reply: seq<byte>)
    requires cnt + 2 <= |reply| && addr != other
    ensures ReplyOk(other, cnt, reply) ==> !ReplyOk(addr, cnt, reply)
  {
    hide Modbus;
    if ReplyOk(other, cnt, reply) && ReplyOk(addr, cnt, reply) {
      var rest := BigBytes(cnt) + reply[..cnt];
      assert Header(CMD_READ, addr, cnt) + reply[..cnt] == [CMD_READ] + BigBytes(addr) + rest;
      assert Header(CMD_READ, other, cnt) + reply[..cnt] == [CMD_READ] + BigBytes(other) + rest;
      AdjacentBytes(CRC_INIT, [CMD_READ], BigBytes(addr), BigBytes(other), rest);
      BigBytesUnique(addr, BigBytes(other));
      assert false;
    }
  }

  /** A register address with its bytes in the order the register meets them. */
  function Swapped(addr: u16): u16 { addr / 256 + 256 * (addr % 256) }

  lemma XorEqualSides(a: nat, b: nat, c: nat, d: nat)
    ensures Xor(a, c) == Xor(b, d) <==> Xor(a, b) == Xor(c, d)
  {
    hide Xor;
    var ac, bd, ab, cd := Xor(a, c), Xor(b, d), Xor(a, b), Xor(c, d);
    XorSwap(a, c, b, d);
    assert Xor(ac, bd) == Xor(ab, cd);
    XorZeroEqual(ac, bd);
    XorZeroEqual(ab, cd);
  }

  /** Which headers of the same count share a CRC, whatever follows: those whose addresses differ by what the
      difference of their opcodes leaves in a clear register. */
  lemma HeadersShare(op1: byte, addr1: u16, op2: byte, addr2: u16, cnt: u16, rest: seq<byte>)
    ensures Modbus(CRC_INIT, Header(op1, addr1, cnt) + rest) == Modbus(CRC_INIT, Header(op2, addr2, cnt) + rest)
            <==> Xor16(Swapped(addr1), Swapped(addr2)) == ShiftN(XorByte(op1, op2), 8)
  {
    hide Modbus, Xor, ShiftN;
    var tail := BigBytes(cnt) + rest;
    HeaderCrc(op1, addr1, cnt, rest);
    HeaderCrc(op2, addr2, cnt, rest);
    var c1, c2 := ByteStep(CRC_INIT, op1), ByteStep(CRC_INIT, op2);
    var w1, w2 := Swapped(addr1), Swapped(addr2);
    var r1, r2 := ShiftN(Xor16(c1, w1), 16), ShiftN(Xor16(c2, w2), 16);
    if Modbus(r1, tail) == Modbus(r2, tail) {
      EndingKeeps(r1, r2, tail);
      ShiftNInjective(Xor16(c1, w1), Xor16(c2, w2), 16);
    }
    assert Modbus(r1, tail) == Modbus(r2, tail) <==> Xor16(c1, w1) == Xor16(c2, w2);
    XorEqualSides(c1, c2, w1, w2);
    ByteStepDifference(CRC_INIT, op1, op2, XorByte(op1, op2));
  }

  /** The CRC of a header and what follows, from the register after opcode and address. */
  lemma HeaderCrc(op: byte, addr: u16, cnt: u16, rest: seq<byte>)
    ensures Modbus(CRC_INIT, Header(op, addr, cnt) + rest)
         == Modbus(ShiftN(Xor16(ByteStep(CRC_INIT, op), Swapped(addr)), 16), BigBytes(cnt) + rest)
  {
    hide Modbus, Xor, ShiftN;
    var tail := BigBytes(cnt) + rest;
    assert Header(op, addr, cnt) + rest == [op] + BigBytes(addr) + tail;
    Chain(CRC_INIT, [op] + BigBytes(addr), tail);
    Chain(CRC_INIT, [op], BigBytes(addr));
    Append(CRC_INIT, [], op);
    assert [] + [op] == [op];
    assert Modbus(CRC_INIT, []) == CRC_INIT by { ModbusNothing(CRC_INIT); }
    TwoBytes(ByteStep(CRC_INIT, op), addr / 256, addr % 256);
  }

  lemma ModbusNothing(c: u16)
    ensures Modbus(c, []) == c
  {
  }

  /** A frame that is consistent under one opcode and address passes as a reply to a read of another address exactly
      when the two headers share a CRC. */
  lemma FrameMistaken(op: byte, other: u16, addr: u16, cnt: u16, reply: seq<byte>)
    requires cnt + 2 <= |reply|
    ensures Check(Header(op, other, cnt) + reply[..cnt], reply[cnt..cnt + 2]) ==>
              (ReplyOk(addr, cnt, reply)
               <==> Xor16(Swapped(other), Swapped(addr)) == ShiftN(XorByte(op, CMD_READ), 8))
  {
    hide Modbus, Xor, ShiftN, Header;
    HeadersShare(op, other, CMD_READ, addr, cnt, reply[..cnt]);
  }

  /** In particular no frame built for another command at the same address is accepted as a reply to a read. */
  lemma CommandBound(addr: u16, cnt: u16, op: byte, reply: seq<byte>)
    requires cnt + 2 <= |reply| && op != CMD_READ
    ensures Check(Header(op, addr, cnt) + reply[..cnt], reply[cnt..cnt + 2]) ==> !ReplyOk(addr, cnt, reply)
  {
    hide Modbus;
    if Check(Header(op, addr, cnt) + reply[..cnt], reply[cnt..cnt + 2]) && ReplyOk(addr, cnt, reply) {
      var rest := BigBytes(addr) + BigBytes(cnt) + reply[..cnt];
      assert Header(CMD_READ, addr, cnt) + reply[..cnt] == [] + [CMD_READ] + rest;
      assert Header(op, addr, cnt) + reply[..cnt] == [] + [op] + rest;
      AdjacentBytes(CRC_INIT, [], [CMD_READ], [op], rest);
      assert false;
    }
  }

  // ------------------------------------------------------------ corruption of a consistent frame

  lemma {:induction false} OddXorBits(a: seq<bool>, b: seq<bool>)
    requires |a| == |b|
    ensures Odd(XorBits(a, b)) == (Odd(a) != Odd(b))
  {
    if a == [] {
    } else {
      assert XorBits(a, b)[1..] == XorBits(a[1..], b[1..]);
      OddXorBits(a[1..], b[1..]);
    }
  }

  lemma XorBytePair(hi: byte, lo: byte, x: byte)
    ensures Xor(Big16(hi, lo), 256 * x) == 256 * Xor(hi, x) + lo
  {
    hide Xor;
    var w: nat := Big16(hi, lo);
    var mid := w / 16;
    XorClearNibble(w, 16 * x);
    XorClearNibble(mid, x);
    assert mid == 16 * hi + lo / 16;
    assert mid / 16 == hi && mid % 16 == lo / 16 && w % 16 == lo % 16;
  }

  lemma OddField(field: seq<byte>)
    requires |field| == 2
    ensures Odd(MsgBits(field)) == OddWord(Big16(field[0], field[1]))
  {
    hide Xor, BitsOf;
    var hi, lo := field[0], field[1];
    Pow2Values();
    assert field[1..] == [lo] && [lo][1..] == [];
    OddAppend(BitsOf(hi, 8), MsgBits([lo]));
    assert MsgBits([lo]) == BitsOf(lo, 8);
    OddWordBits(hi, 8);
    OddWordBits(lo, 8);
    XorBytePair(0, lo, hi);
    XorNothing(hi);
    var high: nat := hi;
    OddWordXor(lo, 256 * high);
    OddScaled(hi, 8);
  }

  /** A consistent frame holds an even number of one bits. */
  lemma CheckedIsEven(covered: seq<byte>, field: seq<byte>)
    requires |field| == 2 && Check(covered, field)
    ensures !Odd(MsgBits(covered + field))
  {
    hide Modbus;
    Parity(CRC_INIT, covered);
    OddField(field);
    MsgBitsAppend(covered, field);
    OddAppend(MsgBits(covered), MsgBits(field));
    OddInit();
  }

  lemma OddInit()
    ensures !OddWord(CRC_INIT)
  {
    assert OddWord(0xFF) == OddWord(0x3F) == OddWord(0xF) == OddWord(3) == OddWord(0);
    assert OddWord(0xFFFF) == OddWord(0x3FFF) == OddWord(0xFFF) == OddWord(0x3FF) == OddWord(0xFF);
  }

  /** An odd number of flipped bits across header, data and CRC field never passes the check. */
  lemma OddErrorRejected(covered: seq<byte>, field: seq<byte>, covered': seq<byte>, field': seq<byte>)
    requires |field| == |field'| == 2 && |covered| == |covered'| && Check(covered, field)
    requires Odd(XorBits(MsgBits(covered + field), MsgBits(covered' + field')))
    ensures !Check(covered', field')
  {
    hide Modbus, MsgBits;
    OddXorBits(MsgBits(covered + field), MsgBits(covered' + field'));
    CheckedIsEven(covered, field);
    if Check(covered', field') {
      CheckedIsEven(covered', field');
      assert false;
    }
  }

  /** Exactly which corruptions pass: those whose data difference, fed alone, gives the field difference. */
  lemma CorruptionAccepted(covered: seq<byte>, field: seq<byte>, covered': seq<byte>, field': seq<byte>)
    requires |field| == |field'| == 2 && |covered| == |covered'| && Check(covered, field)
    ensures Check(covered', field') <==>
            Feed(0, XorBits(MsgBits(covered), MsgBits(covered')))
            == Xor16(Big16(field[0], field[1]), Big16(field'[0], field'[1]))
  {
    hide Modbus, Feed, MsgBits, Xor;
    BitSerial(CRC_INIT, covered);
    BitSerial(CRC_INIT, covered');
    XorSelf(CRC_INIT);
    FeedLinear(CRC_INIT, CRC_INIT, MsgBits(covered), MsgBits(covered'));
    var c, c', f' := Modbus(CRC_INIT, covered), Modbus(CRC_INIT, covered'), Big16(field'[0], field'[1]);
    XorCancel(c', c);
    XorCancel(f', c);
    XorComm(c, c');
    XorComm(c, f');
  }

  /** A burst of at most sixteen bits in register order inside header and data, or any change confined to the CRC
      field, is rejected. */
  lemma RegisterBurstRejected(covered: seq<byte>, field: seq<byte>, covered': seq<byte>, field': seq<byte>, at: nat)
    requires |field| == |field'| == 2 && Check(covered, field)
    requires if field == field' then DifferInRegisterOrder(covered, covered', at, 16) else covered == covered'
    requires covered != covered' || field != field'
    ensures !Check(covered', field')
  {
    hide Modbus, MsgBits;
    if Check(covered', field') {
      if field == field' {
        RegisterBurstDetected(CRC_INIT, covered, covered', at, 16);
      } else {
        BigBytesUnique(Modbus(CRC_INIT, covered), field);
        BigBytesUnique(Modbus(CRC_INIT, covered), field');
      }
      assert false;
    }
  }

  lemma ByteStepLinear(c: u16, b: byte, x: byte)
    ensures ByteStep(c, XorByte(b, x)) == Xor16(ByteStep(c, b), ShiftN(x, 8))
  {
    hide Xor, ShiftN;
    XorAssoc(c, b, x);
    ShiftNLinear(Xor16(c, b), x, 8);
  }

  /** The field is stored most significant byte first, so the register's own burst guarantee stops at the border of
      data and field: flipping 0x0C in the last data byte and 0x05 in the next byte passes for every frame. */
  lemma BoundaryBurstAccepted(p: seq<byte>, b: byte, hi: byte, lo: byte)
    requires Check(p + [b], [hi, lo])
    ensures Check(p + [XorByte(b, 0x0C)], [XorByte(hi, 0x05), lo])
    ensures XorByte(b, 0x0C) != b
  {
    hide Modbus, Xor, ShiftN;
    var x: byte := 0x0C;
    var c := Modbus(CRC_INIT, p);
    Append(CRC_INIT, p, b);
    Append(CRC_INIT, p, XorByte(b, x));
    ByteStepLinear(c, b, x);
    ShiftNAdd(x, 4, 4);
    EntryIsShift4(12);
    Shift4Clear(0x5000);
    XorBytePair(hi, lo, 0x05);
    XorComm(b, x);
    XorCancel(x, b);
    XorSelf(b);
    XorComm(b, XorByte(b, x));
  }
}
