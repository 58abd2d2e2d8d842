/**
 * The count field of a write: a receiver that splits what it receives by the count it
 * received can take a write with one flipped bit of it for another, shorter write.
 */
module CountBurst {
  import opened Bits
  import opened Options
  import opened Crc
  import opened MemCtrl
  import opened Frame
  import opened LineBurst
  import opened WireReach

  // ------------------------------------------------------------ the register by example

  lemma StepCells(c: u16, b: byte)
    ensures CellsOf(ByteStep(c, b)) == FeedByte(CellsOf(c), OctetOf(BitsOf(b, 8)))
  {
    hide BitsOf, CellsOf, Feed, FeedByte, ShiftN, Xor;
    Pow2Values();
    FeedWord(c, b, 8);
    FeedIsFeedCells(c, BitsOf(b, 8));
    FeedEight(CellsOf(c), BitsOf(b, 8));
  }

  lemma WordCells(hi: byte, lo: byte)
    ensures CellsOf(Big16(hi, lo)) == Cells(OctetOf(BitsOf(lo, 8)), OctetOf(BitsOf(hi, 8)))
  {
    hide BitsOf, Big16, OctetOf;
    WordBits(hi, lo);
    var s := BitsOf(Big16(hi, lo), 16);
    assert s[..8] == BitsOf(lo, 8) && s[8..] == BitsOf(hi, 8);
  }

  lemma FiveSteps(c: u16, m: seq<byte>)
    requires |m| == 5
    ensures Modbus(c, m) == ByteStep(ByteStep(ByteStep(ByteStep(ByteStep(c, m[0]), m[1]), m[2]), m[3]), m[4])
  {
    hide ByteStep;
    var c1 := ByteStep(c, m[0]);
    var c2 := ByteStep(c1, m[1]);
    var c3 := ByteStep(c2, m[2]);
    var c4 := ByteStep(c3, m[3]);
    Append(c, m[..4], m[4]);
    Append(c, m[..3], m[3]);
    Append(c, m[..2], m[2]);
    Append(c, m[..1], m[1]);
    Append(c, [], m[0]);
    assert m == m[..4] + [m[4]] && m[..4] == m[..3] + [m[3]] && m[..3] == m[..2] + [m[2]];
    assert m[..2] == m[..1] + [m[1]] && m[..1] == [] + [m[0]];
  }

  /** A byte and a register written out bit by bit. */
  function Oct(x: nat): Octet {
    Octet(Low(x), Low(x / 2), Low(x / 4), Low(x / 8), Low(x / 16), Low(x / 32), Low(x / 64), Low(x / 128))
  }

  function Reg(c: nat): Cells { Cells(Oct(c % 256), Oct(c / 256)) }

  lemma OctIs(x: byte)
    ensures OctetOf(BitsOf(x, 8)) == Oct(x)
  {
    hide BitsOf, OctetOf;
    Pattern(x, x / 4, x / 16, x / 64);
    assert x / 4 / 2 == x / 8 && x / 16 / 2 == x / 32 && x / 64 / 2 == x / 128;
  }

  lemma RegIs(c: u16)
    ensures CellsOf(c) == Reg(c)
  {
    hide BitsOf, OctetOf, CellsOf, Oct;
    WordCells(c / 256, c % 256);
    OctIs(c / 256);
    OctIs(c % 256);
  }

  lemma CellsInjective(a: u16, b: u16)
    requires CellsOf(a) == CellsOf(b)
    ensures a == b
  {
    hide BitsOf, CellsOf;
    Pow2Values();
    CellsAt(a);
    CellsAt(b);
    assert BitsOf(a, 16) == BitsOf(b, 16);
    BitsOfInjective(a, b, 16);
  }

  /** One step of the register, checked bit by bit. */
  lemma StepIs(c: u16, b: byte, r: u16)
    requires FeedByte(Reg(c), Oct(b)) == Reg(r)
    ensures ByteStep(c, b) == r
  {
    hide CellsOf, FeedByte, ByteStep, BitsOf, OctetOf, Oct, Reg;
    StepCells(c, b);
    RegIs(c);
    OctIs(b);
    RegIs(r);
    CellsInjective(ByteStep(c, b), r);
  }

  const O_00 := Octet(false, false, false, false, false, false, false, false)
  const O_01 := Octet(true, false, false, false, false, false, false, false)
  const O_02 := Octet(false, true, false, false, false, false, false, false)
  const O_03 := Octet(true, true, false, false, false, false, false, false)
  const O_04 := Octet(false, false, true, false, false, false, false, false)
  const O_05 := Octet(true, false, true, false, false, false, false, false)
  const O_06 := Octet(false, true, true, false, false, false, false, false)
  const O_10 := Octet(false, false, false, false, true, false, false, false)
  const O_11 := Octet(true, false, false, false, true, false, false, false)
  const O_2D := Octet(true, false, true, true, false, true, false, false)
  const O_2F := Octet(true, true, true, true, false, true, false, false)
  const O_3C := Octet(false, false, true, true, true, true, false, false)
  const O_3F := Octet(true, true, true, true, true, true, false, false)
  const O_42 := Octet(false, true, false, false, false, false, true, false)
  const O_57 := Octet(true, true, true, false, true, false, true, false)
  const O_6C := Octet(false, false, true, true, false, true, true, false)
  const O_6D := Octet(true, false, true, true, false, true, true, false)
  const O_6E := Octet(false, true, true, true, false, true, true, false)
  const O_91 := Octet(true, false, false, false, true, false, false, true)
  const O_AC := Octet(false, false, true, true, false, true, false, true)
  const O_AD := Octet(true, false, true, true, false, true, false, true)
  const O_AE := Octet(false, true, true, true, false, true, false, true)
  const O_BD := Octet(true, false, true, true, true, true, false, true)
  const O_C0 := Octet(false, false, false, false, false, false, true, true)
  const O_C1 := Octet(true, false, false, false, false, false, true, true)
  const O_C3 := Octet(true, true, false, false, false, false, true, true)
  const O_ED := Octet(true, false, true, true, false, true, true, true)
  const O_FF := Octet(true, true, true, true, true, true, true, true)

  /** The bytes of the example, least significant bit first. */
  lemma LowTable()
    ensures Oct(0x00) == O_00 && Oct(0x01) == O_01 && Oct(0x02) == O_02 && Oct(0x03) == O_03
    ensures Oct(0x04) == O_04 && Oct(0x05) == O_05 && Oct(0x06) == O_06 && Oct(0x10) == O_10
    ensures Oct(0x11) == O_11 && Oct(0x2D) == O_2D && Oct(0x2F) == O_2F && Oct(0x3C) == O_3C
    ensures Oct(0x3F) == O_3F && Oct(0x42) == O_42
  {
  }

  lemma HighTable()
    ensures Oct(0x57) == O_57 && Oct(0x6C) == O_6C && Oct(0x6D) == O_6D && Oct(0x6E) == O_6E
    ensures Oct(0x91) == O_91 && Oct(0xAC) == O_AC && Oct(0xAD) == O_AD && Oct(0xAE) == O_AE
    ensures Oct(0xBD) == O_BD && Oct(0xC0) == O_C0 && Oct(0xC1) == O_C1 && Oct(0xC3) == O_C3
    ensures Oct(0xED) == O_ED && Oct(0xFF) == O_FF
  {
  }

  lemma FedFFFF_6()
    ensures FeedByte(Cells(O_FF, O_FF), O_06) == Cells(O_3F, O_42)
  {
  }

  lemma Fed423F_0()
    ensures FeedByte(Cells(O_3F, O_42), O_00) == Cells(O_02, O_10)
  {
  }

  lemma Fed1002_0()
    ensures FeedByte(Cells(O_02, O_10), O_00) == Cells(O_91, O_C1)
  {
  }

  lemma FedC191_0()
    ensures FeedByte(Cells(O_91, O_C1), O_00) == Cells(O_00, O_AC)
  {
  }

  lemma FedAC00_4()
    ensures FeedByte(Cells(O_00, O_AC), O_04) == Cells(O_AD, O_C3)
  {
  }

  lemma FedC3AD_0()
    ensures FeedByte(Cells(O_AD, O_C3), O_00) == Cells(O_02, O_BD)
  {
  }

  lemma FedBD02_0()
    ensures FeedByte(Cells(O_02, O_BD), O_00) == Cells(O_3C, O_C1)
  {
  }

  lemma FedC13C_0()
    ensures FeedByte(Cells(O_3C, O_C1), O_00) == Cells(O_C1, O_11)
  {
  }

  lemma Fed11C1_87()
    ensures FeedByte(Cells(O_C1, O_11), O_57) == Cells(O_91, O_6E)
  {
  }

  lemma FedAC00_5()
    ensures FeedByte(Cells(O_00, O_AC), O_05) == Cells(O_6C, O_03)
  {
  }

  lemma Fed036C_0()
    ensures FeedByte(Cells(O_6C, O_03), O_00) == Cells(O_03, O_2D)
  {
  }

  lemma Fed2D03_0()
    ensures FeedByte(Cells(O_03, O_2D), O_00) == Cells(O_6D, O_01)
  {
  }

  lemma Fed016D_0()
    ensures FeedByte(Cells(O_6D, O_01), O_00) == Cells(O_C0, O_ED)
  {
  }

  lemma FedEDC0_87()
    ensures FeedByte(Cells(O_C0, O_ED), O_57) == Cells(O_AC, O_AE)
  {
  }

  lemma FedAEAC_110()
    ensures FeedByte(Cells(O_AC, O_AE), O_6E) == Cells(O_2F, O_91)
  {
  }

  lemma CommonSteps()
    ensures ByteStep(ByteStep(ByteStep(ByteStep(0xFFFF, 6), 0), 0), 0) == 0xAC00
  {
    LowTable();
    HighTable();
    hide Oct, ByteStep, FeedByte;
    assert FeedByte(Cells(O_FF, O_FF), O_06) == Cells(O_3F, O_42) by { FedFFFF_6(); }
    StepIs(0xFFFF, 6, 0x423F);
    assert FeedByte(Cells(O_3F, O_42), O_00) == Cells(O_02, O_10) by { Fed423F_0(); }
    StepIs(0x423F, 0, 0x1002);
    assert FeedByte(Cells(O_02, O_10), O_00) == Cells(O_91, O_C1) by { Fed1002_0(); }
    StepIs(0x1002, 0, 0xC191);
    assert FeedByte(Cells(O_91, O_C1), O_00) == Cells(O_00, O_AC) by { FedC191_0(); }
    StepIs(0xC191, 0, 0xAC00);
  }

  lemma ShortSteps()
    ensures ByteStep(ByteStep(ByteStep(ByteStep(ByteStep(0xAC00, 4), 0), 0), 0), 87) == 0x6E91
  {
    LowTable();
    HighTable();
    hide Oct, ByteStep, FeedByte;
    assert FeedByte(Cells(O_00, O_AC), O_04) == Cells(O_AD, O_C3) by { FedAC00_4(); }
    StepIs(0xAC00, 4, 0xC3AD);
    assert FeedByte(Cells(O_AD, O_C3), O_00) == Cells(O_02, O_BD) by { FedC3AD_0(); }
    StepIs(0xC3AD, 0, 0xBD02);
    assert FeedByte(Cells(O_02, O_BD), O_00) == Cells(O_3C, O_C1) by { FedBD02_0(); }
    StepIs(0xBD02, 0, 0xC13C);
    assert FeedByte(Cells(O_3C, O_C1), O_00) == Cells(O_C1, O_11) by { FedC13C_0(); }
    StepIs(0xC13C, 0, 0x11C1);
    assert FeedByte(Cells(O_C1, O_11), O_57) == Cells(O_91, O_6E) by { Fed11C1_87(); }
    StepIs(0x11C1, 87, 0x6E91);
  }

  lemma LongSteps()
    ensures ByteStep(ByteStep(ByteStep(ByteStep(ByteStep(ByteStep(0xAC00, 5), 0), 0), 0), 87), 110) == 0x912F
  {
    LowTable();
    HighTable();
    hide Oct, ByteStep, FeedByte;
    assert FeedByte(Cells(O_00, O_AC), O_05) == Cells(O_6C, O_03) by { FedAC00_5(); }
    StepIs(0xAC00, 5, 0x036C);
    assert FeedByte(Cells(O_6C, O_03), O_00) == Cells(O_03, O_2D) by { Fed036C_0(); }
    StepIs(0x036C, 0, 0x2D03);
    assert FeedByte(Cells(O_03, O_2D), O_00) == Cells(O_6D, O_01) by { Fed2D03_0(); }
    StepIs(0x2D03, 0, 0x016D);
    assert FeedByte(Cells(O_6D, O_01), O_00) == Cells(O_C0, O_ED) by { Fed016D_0(); }
    StepIs(0x016D, 0, 0xEDC0);
    assert FeedByte(Cells(O_C0, O_ED), O_57) == Cells(O_AC, O_AE) by { FedEDC0_87(); }
    StepIs(0xEDC0, 87, 0xAEAC);
    assert FeedByte(Cells(O_AC, O_AE), O_6E) == Cells(O_2F, O_91) by { FedAEAC_110(); }
    StepIs(0xAEAC, 110, 0x912F);
  }

  /** The CRC of a write of five bytes to register 0, and of what is left of it under a count of four. */
  lemma CountCrcs()
    ensures Modbus(CRC_INIT, [6, 0, 0, 0, 5] + [0, 0, 0, 87, 110]) == 0x912F
    ensures Modbus(CRC_INIT, [6, 0, 0, 0, 4] + [0, 0, 0, 87]) == 0x6E91
  {
    hide ByteStep, Modbus;
    CommonSteps();
    ShortSteps();
    LongSteps();
    var h4: seq<byte>, h5: seq<byte> := [6, 0, 0, 0, 4], [6, 0, 0, 0, 5];
    var d4: seq<byte>, d5: seq<byte> := [0, 0, 0, 87], [0, 0, 0, 87, 110];
    FiveSteps(CRC_INIT, h4);
    FiveSteps(CRC_INIT, h5);
    var c5 := Modbus(CRC_INIT, h5);
    FiveSteps(c5, d5);
    Chain(CRC_INIT, h5, d5);
    Append(CRC_INIT, h4, 0);
    Append(CRC_INIT, h4 + [0], 0);
    Append(CRC_INIT, h4 + [0] + [0], 0);
    Append(CRC_INIT, h4 + [0] + [0] + [0], 87);
    assert h4 + [0] + [0] + [0] + [87] == h4 + d4;
  }

  /** The count in the header is not safe: one flipped bit of it turns a write of five bytes into an accepted write of
      the first four. */
  lemma CountEscapes()
    ensures var r := Request(CMD_WRITE, 0, [0, 0, 0, 87, 110]);
            var cmd', payload' := Command(CMD_WRITE, 0, 5)[4 := 4], Payload(CMD_WRITE, 0, r.data);
            && WireError(r, cmd', payload', 39, 1) && Touched(r, cmd', payload')
            && Decode(cmd', payload') == Some(Request(CMD_WRITE, 0, [0, 0, 0, 87]))
  {
    hide Modbus, DifferOnLine, Touched, Command, Payload, Decode, CountKept;
    var r := Request(CMD_WRITE, 0, [0, 0, 0, 87, 110]);
    var cmd, payload := Command(CMD_WRITE, 0, 5), Payload(CMD_WRITE, 0, r.data);
    CountCrcs();
    ExamplePayload();
    ExampleCommand();
    assert payload == [0, 0, 0, 87] + [110, 0x91] + ([0x2F] + Padding(1));
    assert Check(Header(CMD_WRITE, 0, 4) + [0, 0, 0, 87], [110, 0x91]) by { ExampleCheck(); }
    DecodesTo(CMD_WRITE, 0, [0, 0, 0, 87], [110, 0x91], [0x2F] + Padding(1));
    CountOnLine(cmd, payload);
    HeaderTouched(r, cmd[4 := 4], payload);
  }

  lemma ExampleCheck()
    ensures Check(Header(CMD_WRITE, 0, 4) + [0, 0, 0, 87], [110, 0x91])
  {
    hide Modbus, Header;
    CountCrcs();
    HeaderIs(CMD_WRITE, 0, 4);
  }

  lemma ExamplePayload()
    ensures Payload(CMD_WRITE, 0, [0, 0, 0, 87, 110]) == [0, 0, 0, 87, 110, 0x91, 0x2F] + Padding(1)
  {
    hide Modbus, Header, Padding, BigBytes;
    CountCrcs();
    HeaderIs(CMD_WRITE, 0, 5);
    var data: seq<byte> := [0, 0, 0, 87, 110];
    PayloadOf(CMD_WRITE, 0, data, 0x912F, [0x91, 0x2F]);
    assert PaddedLen(5) == 8;
    assert data + [0x91, 0x2F] == [0, 0, 0, 87, 110, 0x91, 0x2F];
  }

  lemma PayloadOf(op: byte, addr: u16, data: seq<byte>, crc: u16, field: seq<byte>)
    requires |data| < 0x1_0000 && Modbus(CRC_INIT, Header(op, addr, |data|) + data) == crc
    requires |field| == 2 && Big16(field[0], field[1]) == crc
    ensures Payload(op, addr, data) == data + field + Padding(PaddedLen(|data|) - |data| - 2)
  {
    hide Modbus, Header, Padding;
    BigBytesUnique(crc, field);
  }

  lemma ExampleCommand()
    ensures Command(CMD_WRITE, 0, 5)[4 := 4] == Command(CMD_WRITE, 0, 4) && Command(CMD_WRITE, 0, 5)[4] == 5
    ensures !CountKept(Request(CMD_WRITE, 0, [0, 0, 0, 87, 110]), Command(CMD_WRITE, 0, 5)[4 := 4])
  {
    hide Command;
    CommandIs(CMD_WRITE, 0, 5);
    CommandIs(CMD_WRITE, 0, 4);
  }

  lemma HeaderTouched(r: Request, cmd': seq<byte>, payload': seq<byte>)
    requires |r.data| < 0x1_0000 && |cmd'| == CMD_LEN && |payload'| == PaddedLen(|r.data|) && !CountKept(r, cmd')
    ensures Touched(r, cmd', payload')
  {
    HeaderFields(r.op, r.addr, |r.data|);
    assert forall k :: 0 <= k < HEADER_LEN ==> cmd'[..HEADER_LEN][k] == cmd'[k];
  }

  lemma CountOnLine(cmd: seq<byte>, payload: seq<byte>)
    requires |cmd| == CMD_LEN && cmd[4] == 5
    ensures DifferOnLine(cmd + payload, cmd[4 := 4] + payload, 39, 1)
  {
    hide BitsOf, DifferOnLine, OctetWithin;
    OctIs(5);
    OctIs(4);
    assert OctetWithin(DiffOctet(5, 4), 32, 39, 1) by { LowBitOnly(); }
    OnLineAround(cmd[..4], [5], [4], cmd[5..] + payload, 39, 1);
    assert cmd[..4] + [5] + (cmd[5..] + payload) == cmd + payload;
    assert cmd[..4] + [4] + (cmd[5..] + payload) == cmd[4 := 4] + payload;
  }

  lemma LowBitOnly()
    ensures OctetWithin(DiffOctet(5, 4), 32, 39, 1)
  {
    hide BitsOf;
    OctIs(5);
    OctIs(4);
    assert Oct(5) == Octet(true, false, true, false, false, false, false, false);
    assert Oct(4) == Octet(false, false, true, false, false, false, false, false);
  }

  /** With the count free to change, no burst at all is safe. */
  lemma OpenCountReach(n: nat)
    ensures (forall r, cmd', payload', at ::
               WireError(r, cmd', payload', at, n) && Touched(r, cmd', payload') ==> Decode(cmd', payload') == None)
            <==> n == 0
  {
    hide Decode, Touched, Command, Payload;
    if n == 0 {
      forall r, cmd', payload', at | WireError(r, cmd', payload', at, n)
        ensures !Touched(r, cmd', payload')
      {
        UntouchedByNothing(r, cmd', payload', at);
      }
    } else {
      CountEscapes();
      var r := Request(CMD_WRITE, 0, [0, 0, 0, 87, 110]);
      var cmd', payload' := Command(CMD_WRITE, 0, 5)[4 := 4], Payload(CMD_WRITE, 0, r.data);
      Wider(Command(CMD_WRITE, 0, 5) + payload', cmd' + payload', 39, 1, n);
      assert WireError(r, cmd', payload', 39, n);
    }
  }

  lemma UntouchedByNothing(r: Request, cmd': seq<byte>, payload': seq<byte>, at: nat)
    requires WireError(r, cmd', payload', at, 0)
    ensures !Touched(r, cmd', payload')
  {
    hide Modbus, DifferOnLine, Header;
    var cmd, payload := Command(r.op, r.addr, |r.data|), Payload(r.op, r.addr, r.data);
    NoBurst(cmd + payload, cmd' + payload', at);
    assert cmd' == (cmd' + payload')[..CMD_LEN] == (cmd + payload)[..CMD_LEN] == cmd;
    assert payload' == (cmd' + payload')[CMD_LEN..] == (cmd + payload)[CMD_LEN..] == payload;
    PayloadParts(r);
    assert cmd[..HEADER_LEN] == Header(r.op, r.addr, |r.data|);
  }
}
