/**
 * The exact reach of the frame's check against bursts on the SPI line, judged as the two
 * receivers judge: the host, which knows the count it asked for, and a receiver of the
 * documented layout, which splits what it receives by the count it received.
 */
module WireReach {
  import opened Bits
  import opened Options
  import opened Crc
  import opened MemCtrl
  import opened Frame
  import opened LineBurst

  // ------------------------------------------------------------ windows

  /** A byte outside the burst arrives as sent. */
  lemma ByteKept(m1: seq<byte>, m2: seq<byte>, at: nat, n: nat, k: nat)
    requires DifferOnLine(m1, m2, at, n) && k < |m1| && (8 * k + 8 <= at || at + n <= 8 * k)
    ensures m1[k] == m2[k]
  {
    assert |m1| == |m2|;
    hide DiffOctet, DifferOnLine;
    OctetInWindow(m1, m2, at, n, k);
    DiffNone(m1[k], m2[k]);
  }

  /** Messages whose every byte is unchanged, or is the one `shift` places on in a stream with a burst. */
  lemma Embedded(m1: seq<byte>, m2: seq<byte>, at: nat, n: nat, w1: seq<byte>, w2: seq<byte>, shift: int, at': nat)
    requires DifferOnLine(m1, m2, at, n) && |w1| == |w2| && at == at' + 8 * shift
    requires forall k :: 0 <= k < |w1| ==>
               || w1[k] == w2[k]
               || (0 <= k + shift < |m1| && w1[k] == m1[k + shift] && |m2| == |m1| && w2[k] == m2[k + shift])
    ensures DifferOnLine(w1, w2, at', n)
  {
    assert |m1| == |m2|;
    hide DiffOctet, DifferOnLine, OctetWithin;
    forall k | 0 <= k < |w1|
      ensures OctetWithin(DiffOctet(w1[k], w2[k]), 8 * k, at', n)
    {
      if w1[k] == w2[k] {
        NoDifference(w1[k], 8 * k, at', n);
      } else {
        OctetInWindow(m1, m2, at, n, k + shift);
        Shifted(DiffOctet(w1[k], w2[k]), 8 * (k + shift), at, n, 8 * k, at');
      }
    }
    OnLineFromOctets(w1, w2, at', n);
  }

  lemma Shifted(d: Octet, p: nat, r: nat, n: nat, p': nat, r': nat)
    requires OctetWithin(d, p, r, n) && p - r == p' - r'
    ensures OctetWithin(d, p', r', n)
  {
  }

  lemma Wider(m1: seq<byte>, m2: seq<byte>, at: nat, n: nat, w: nat)
    requires DifferOnLine(m1, m2, at, n) && n <= w
    ensures DifferOnLine(m1, m2, at, w)
  {
  }

  lemma NoBurst(m1: seq<byte>, m2: seq<byte>, at: nat)
    requires DifferOnLine(m1, m2, at, 0)
    ensures m1 == m2
  {
    assert |m1| == |m2|;
    forall k | 0 <= k < |m1|
      ensures m1[k] == m2[k]
    {
      OctetInWindow(m1, m2, at, 0, k);
      DiffNone(m1[k], m2[k]);
    }
  }

  // ------------------------------------------------------------ replies to the host

  /** A good reply to a read of `cnt` registers arrives changed within `n` bits. */
  ghost predicate ReplyError(addr: u16, cnt: u16, reply: seq<byte>, reply': seq<byte>, at: nat, n: nat) {
    && cnt <= 1022 && |reply| == |reply'| == PaddedLen(cnt) && ReplyOk(addr, cnt, reply)
    && DifferOnLine(reply, reply', at, n)
  }

  lemma ReplyJudged(addr: u16, cnt: u16, reply: seq<byte>, reply': seq<byte>, at: nat, n: nat)
    requires ReplyError(addr, cnt, reply, reply', at, n)
    requires n <= 10 || (n == 11 && reply[cnt..cnt + 2] != reply'[cnt..cnt + 2])
    ensures ReplyOk(addr, cnt, reply') ==>
              reply'[..cnt] == reply[..cnt] && reply'[cnt..cnt + 2] == reply[cnt..cnt + 2]
  {
    hide Modbus, DifferOnLine, Header;
    var h := Header(CMD_READ, addr, cnt);
    var c1, c2, f1, f2 := h + reply[..cnt], h + reply'[..cnt], reply[cnt..cnt + 2], reply'[cnt..cnt + 2];
    var w1, w2 := c1 + f1, c2 + f2;
    assert w1 == h + reply[..cnt + 2] && w2 == h + reply'[..cnt + 2];
    assert forall k :: HEADER_LEN <= k < |w1| ==> w1[k] == reply[k - HEADER_LEN] && w2[k] == reply'[k - HEADER_LEN];
    Embedded(reply, reply', at, n, w1, w2, -HEADER_LEN, at + 8 * HEADER_LEN);
    if c1 != c2 || f1 != f2 {
      LineBurstRejected(c1, f1, c2, f2, at + 8 * HEADER_LEN, n);
    } else {
      assert reply[..cnt] == c1[HEADER_LEN..] && reply'[..cnt] == c2[HEADER_LEN..];
    }
  }

  /** A good reply of three bytes from register 0. */
  function ReplyOf(data: seq<byte>): seq<byte>
    requires |data| < 0x1_0000
  {
    Payload(CMD_READ, 0, data)
  }

  lemma ReplyOfOk(data: seq<byte>)
    requires |data| < 0x1_0000
    ensures |ReplyOf(data)| == PaddedLen(|data|) && ReplyOk(0, |data|, ReplyOf(data))
    ensures ReplyOf(data)[..|data|] == data && ReplyOf(data)[|data|..|data| + 2] == BigBytes(FrameCrc(CMD_READ, 0, data))
  {
    hide Modbus, Header;
    assert ReplyOf(data)[..|data|] == data;
    assert ReplyOf(data)[|data|..|data| + 2] == BigBytes(FrameCrc(CMD_READ, 0, data));
  }

  /** Eleven bits that the host takes for good data. */
  lemma ReplyEscapes() returns (reply: seq<byte>, reply': seq<byte>, at: nat)
    ensures ReplyError(0, 3, reply, reply', at, 11) && ReplyOk(0, 3, reply') && reply'[..3] != reply[..3]
  {
    hide Check, DifferOnLine, Header, Flip3, ReplyOf, PaddedLen;
    var e := [0, 0, 0];
    reply := ReplyOf(e);
    ReplyOfOk(e);
    assert PaddedLen(3) == 8 by { PaddedThree(); }
    FlipThree(e);
    reply' := Flip3(e) + reply[3..];
    at := 7;
    Flip3OnLine([], e, reply[3..]);
    assert [] + e + reply[3..] == reply && [] + Flip3(e) + reply[3..] == reply';
    var h, field := Header(CMD_READ, 0, 3), reply[3..5];
    EscapingBurst(h, e, [], field);
    assert h + e + [] == h + reply[..3] && h + Flip3(e) + [] == h + reply'[..3] && reply'[3..5] == field;
    assert reply'[..3] == Flip3(e);
  }

  lemma PaddedThree()
    ensures PaddedLen(3) == 8
  {
  }

  lemma FlipThree(e: seq<byte>)
    requires |e| == 3
    ensures |Flip3(e)| == 3 && Flip3(e) != e
  {
    Flip3Octets(e, 0);
  }

  /** Twelve bits on data and field that the host takes for good data. */
  lemma ReplyBorderEscapes() returns (reply: seq<byte>, reply': seq<byte>, at: nat)
    ensures ReplyError(0, 1, reply, reply', at, 12) && ReplyOk(0, 1, reply') && reply'[1..3] != reply[1..3]
  {
    hide Modbus, DifferOnLine, Header, XorByte;
    reply := ReplyOf([0]);
    ReplyOfOk([0]);
    assert reply[0] == reply[..1][0];
    var hi, lo := reply[1], reply[2];
    reply' := [XorByte(0, 0x0C), XorByte(hi, 0x05)] + reply[2..];
    at := 4;
    BorderAround([], 0, hi, reply[2..]);
    assert [] + [0, hi] + reply[2..] == reply && [] + [XorByte(0, 0x0C), XorByte(hi, 0x05)] + reply[2..] == reply';
    var h := Header(CMD_READ, 0, 1);
    EscapingBorderBurst(h, 0, hi, lo);
    assert reply[..1] == [0] && reply[1..3] == [hi, lo];
    assert reply'[..1] == [XorByte(0, 0x0C)] && reply'[1..3] == [XorByte(hi, 0x05), lo];
  }

  lemma BorderAround(p: seq<byte>, b: byte, hi: byte, s: seq<byte>)
    ensures DifferOnLine(p + [b, hi] + s, p + [XorByte(b, 0x0C), XorByte(hi, 0x05)] + s, 8 * |p| + 4, 12)
  {
    hide DiffOctet, DifferOnLine, OctetWithin, XorByte;
    BorderOctets(b, hi, 8 * |p|);
    assert 8 * (|p| + 1) == 8 * |p| + 8;
    OnLineAround(p, [b, hi], [XorByte(b, 0x0C), XorByte(hi, 0x05)], s, 8 * |p| + 4, 12);
  }

  /** The host never takes a reply with a burst of n bits for other data exactly when n is at most ten. */
  lemma ReplyReach(n: nat)
    ensures (forall addr, cnt, reply, reply', at ::
               ReplyError(addr, cnt, reply, reply', at, n) && ReplyOk(addr, cnt, reply') ==> reply'[..cnt] == reply[..cnt])
            <==> n <= 10
  {
    hide ReplyOk;
    if n <= 10 {
      forall addr, cnt, reply, reply', at | ReplyError(addr, cnt, reply, reply', at, n) && ReplyOk(addr, cnt, reply')
        ensures reply'[..cnt] == reply[..cnt]
      {
        ReplyJudged(addr, cnt, reply, reply', at, n);
      }
    } else {
      var reply, reply', at := ReplyEscapes();
      Wider(reply, reply', at, 11, n);
      assert ReplyError(0, 3, reply, reply', at, n);
    }
  }

  /** When part of the burst falls on the CRC field, the host refuses the reply always exactly up to eleven bits. */
  lemma ReplyFieldReach(n: nat)
    ensures (forall addr, cnt, reply, reply', at ::
               ReplyError(addr, cnt, reply, reply', at, n) && reply'[cnt..cnt + 2] != reply[cnt..cnt + 2]
               ==> !ReplyOk(addr, cnt, reply'))
            <==> n <= 11
  {
    hide ReplyOk;
    if n <= 11 {
      forall addr, cnt, reply, reply', at |
        ReplyError(addr, cnt, reply, reply', at, n) && reply'[cnt..cnt + 2] != reply[cnt..cnt + 2]
        ensures !ReplyOk(addr, cnt, reply')
      {
        ReplyJudged(addr, cnt, reply, reply', at, n);
      }
    } else {
      var reply, reply', at := ReplyBorderEscapes();
      Wider(reply, reply', at, 12, n);
      assert ReplyError(0, 1, reply, reply', at, n);
    }
  }

  // ------------------------------------------------------------ requests to a receiver of the layout

  /** Both transfers of a write arrive, changed within `n` bits of the line. */
  ghost predicate WireError(r: Request, cmd': seq<byte>, payload': seq<byte>, at: nat, n: nat) {
    && |r.data| <= 1022 && |cmd'| == CMD_LEN && |payload'| == PaddedLen(|r.data|)
    && DifferOnLine(Command(r.op, r.addr, |r.data|) + Payload(r.op, r.addr, r.data), cmd' + payload', at, n)
  }

  /** The count in the header arrives as sent. */
  predicate CountKept(r: Request, cmd': seq<byte>)
    requires |r.data| < 0x1_0000 && |cmd'| == CMD_LEN
  {
    Big16(cmd'[3], cmd'[4]) == |r.data|
  }

  /** The two bytes after the data arrive changed. */
  predicate FieldChanged(r: Request, payload': seq<byte>)
    requires |r.data| < 0x1_0000 && |payload'| == PaddedLen(|r.data|)
  {
    payload'[|r.data|..|r.data| + 2] != BigBytes(FrameCrc(r.op, r.addr, r.data))
  }

  lemma PaddedHolds(cnt: u16)
    ensures cnt + 2 <= PaddedLen(cnt)
  {
  }

  /** With the count kept, the bytes the check covers differ within the burst alone. */
  lemma WireWindow(r: Request, cmd': seq<byte>, payload': seq<byte>, at: nat, n: nat) returns (at': nat)
    requires WireError(r, cmd', payload', at, n) && n <= 11
    ensures var c := |r.data|;
            DifferOnLine(Header(r.op, r.addr, c) + Payload(r.op, r.addr, r.data)[..c + 2],
                         cmd'[..HEADER_LEN] + payload'[..c + 2], at', n)
  {
    hide Modbus, DifferOnLine, Header, Payload;
    var c := |r.data|;
    PaddedHolds(c);
    var h, p := Header(r.op, r.addr, c), Payload(r.op, r.addr, r.data);
    var m1, m2 := Command(r.op, r.addr, c) + p, cmd' + payload';
    var w1, w2 := h + p[..c + 2], cmd'[..HEADER_LEN] + payload'[..c + 2];
    assert forall k :: 0 <= k < HEADER_LEN ==> w1[k] == m1[k] && w2[k] == m2[k];
    assert forall k :: HEADER_LEN <= k < |w1| ==> w1[k] == m1[k + 3] && w2[k] == m2[k + 3];
    if at >= 8 * HEADER_LEN {
      forall k | 0 <= k < HEADER_LEN
        ensures w1[k] == w2[k]
      {
        ByteKept(m1, m2, at, n, k);
      }
      at' := at - 24;
      Embedded(m1, m2, at, n, w1, w2, 3, at');
    } else {
      forall k | HEADER_LEN <= k < |w1|
        ensures w1[k] == w2[k]
      {
        ByteKept(m1, m2, at, n, k + 3);
      }
      at' := at;
      Embedded(m1, m2, at, n, w1, w2, 0, at');
    }
  }

  /** With the count kept, such a burst is refused or leaves the request as it was. */
  lemma RequestJudged(r: Request, cmd': seq<byte>, payload': seq<byte>, at: nat, n: nat)
    requires WireError(r, cmd', payload', at, n) && CountKept(r, cmd')
    requires n <= 10 || (n == 11 && FieldChanged(r, payload'))
    ensures Decode(cmd', payload') == None || (Decode(cmd', payload') == Some(r) && !FieldChanged(r, payload'))
  {
    hide Modbus, DifferOnLine, Header, Payload;
    var c := |r.data|;
    PaddedHolds(c);
    var at' := WireWindow(r, cmd', payload', at, n);
    var h, p, field := Header(r.op, r.addr, c), Payload(r.op, r.addr, r.data), BigBytes(FrameCrc(r.op, r.addr, r.data));
    PayloadParts(r);
    var c1, c2, f2 := h + r.data, cmd'[..HEADER_LEN] + payload'[..c], payload'[c..c + 2];
    assert c1 + field == h + p[..c + 2] && c2 + f2 == cmd'[..HEADER_LEN] + payload'[..c + 2];
    if c1 != c2 || field != f2 {
      LineBurstRejected(c1, field, c2, f2, at', n);
    } else {
      assert cmd'[..HEADER_LEN] == c2[..HEADER_LEN] == c1[..HEADER_LEN] == h;
      assert payload'[..c] == c2[HEADER_LEN..] == c1[HEADER_LEN..] == r.data;
      HeaderFields(r.op, r.addr, c);
      assert forall k :: 0 <= k < HEADER_LEN ==> cmd'[k] == cmd'[..HEADER_LEN][k];
    }
  }

  lemma PayloadParts(r: Request)
    requires |r.data| < 0x1_0000
    ensures var c, p := |r.data|, Payload(r.op, r.addr, r.data);
            && c + 2 <= |p|
            && p[..c + 2] == r.data + BigBytes(FrameCrc(r.op, r.addr, r.data))
            && Check(Header(r.op, r.addr, c) + r.data, BigBytes(FrameCrc(r.op, r.addr, r.data)))
  {
    hide Modbus, Header;
  }

  /** A receiver reads back whatever passes the check under a command with the same count. */
  lemma DecodesTo(op: byte, addr: u16, data: seq<byte>, field: seq<byte>, fill: seq<byte>)
    requires |data| < 0x1_0000 && |field| == 2 && |data| + 2 + |fill| == PaddedLen(|data|)
    requires Check(Header(op, addr, |data|) + data, field)
    ensures Decode(Command(op, addr, |data|), data + field + fill) == Some(Request(op, addr, data))
  {
    hide Modbus;
    var cmd, payload := Command(op, addr, |data|), data + field + fill;
    HeaderFields(op, addr, |data|);
    assert cmd[..HEADER_LEN] == Header(op, addr, |data|);
    assert forall i :: 0 <= i < HEADER_LEN ==> cmd[i] == Header(op, addr, |data|)[i];
    assert payload[..|data|] == data && payload[|data|..|data| + 2] == field;
  }

  /** Something the receiver looks at arrives changed: header, data or field. */
  predicate Touched(r: Request, cmd': seq<byte>, payload': seq<byte>)
    requires |r.data| < 0x1_0000 && |cmd'| == CMD_LEN && |payload'| == PaddedLen(|r.data|)
  {
    PaddedHolds(|r.data|);
    || cmd'[..HEADER_LEN] != Header(r.op, r.addr, |r.data|)
    || payload'[..|r.data| + 2] != r.data + BigBytes(FrameCrc(r.op, r.addr, r.data))
  }

  lemma TouchedRefused(r: Request, cmd': seq<byte>, payload': seq<byte>, at: nat, n: nat)
    requires WireError(r, cmd', payload', at, n) && CountKept(r, cmd') && Touched(r, cmd', payload')
    requires n <= 10 || (n == 11 && FieldChanged(r, payload'))
    ensures Decode(cmd', payload') == None
  {
    RequestJudged(r, cmd', payload', at, n);
    if Decode(cmd', payload') != None {
      hide Decode, FrameCrc;
      DecodedParts(r, cmd', payload');
      assert false;
    }
  }

  /** A request is read back from its own header and data only. */
  lemma DecodedParts(r: Request, cmd': seq<byte>, payload': seq<byte>)
    requires |r.data| < 0x1_0000 && |cmd'| == CMD_LEN && |payload'| == PaddedLen(|r.data|)
    requires CountKept(r, cmd') && Decode(cmd', payload') == Some(r) && !FieldChanged(r, payload')
    ensures !Touched(r, cmd', payload')
  {
    hide FrameCrc, Check;
    var c := |r.data|;
    PaddedHolds(c);
    BigBytesUnique(r.addr, cmd'[1..3]);
    BigBytesUnique(c, cmd'[3..5]);
    assert cmd'[..HEADER_LEN] == [cmd'[0]] + cmd'[1..3] + cmd'[3..5];
    assert payload'[..c + 2] == payload'[..c] + payload'[c..c + 2];
  }

  lemma RequestEscapes() returns (r: Request, cmd': seq<byte>, payload': seq<byte>, at: nat)
    ensures WireError(r, cmd', payload', at, 11) && CountKept(r, cmd') && Touched(r, cmd', payload')
    ensures Decode(cmd', payload').Some? && Decode(cmd', payload') != Some(r)
  {
    hide Modbus, DifferOnLine, Header, Flip3, Touched, Decode;
    var e := [0, 0, 0];
    r := Request(CMD_WRITE, 0, e);
    var field, fill := BigBytes(FrameCrc(CMD_WRITE, 0, e)), Padding(3);
    cmd', payload', at := Command(CMD_WRITE, 0, 3), Flip3(e) + field + fill, 71;
    assert Payload(CMD_WRITE, 0, e) == e + field + fill;
    Flip3OnLine(cmd', e, field + fill);
    assert cmd' + e + (field + fill) == cmd' + Payload(CMD_WRITE, 0, e);
    assert cmd' + Flip3(e) + (field + fill) == cmd' + payload';
    var h := Header(CMD_WRITE, 0, 3);
    EscapingBurst(h, e, [], field);
    assert h + e + [] == h + e && h + Flip3(e) + [] == h + Flip3(e);
    PayloadParts(r);
    FlipThree(e);
    DecodesTo(CMD_WRITE, 0, Flip3(e), field, fill);
    CommandCount(CMD_WRITE, 0, 3);
    assert payload'[..5] == Flip3(e) + field;
    OtherData(r, cmd', payload', Flip3(e), field);
  }

  lemma CommandCount(op: byte, addr: u16, cnt: u16)
    ensures var cmd := Command(op, addr, cnt); Big16(cmd[3], cmd[4]) == cnt
  {
    HeaderFields(op, addr, cnt);
  }

  lemma OtherData(r: Request, cmd': seq<byte>, payload': seq<byte>, data: seq<byte>, field: seq<byte>)
    requires |r.data| < 0x1_0000 && |cmd'| == CMD_LEN && |payload'| == PaddedLen(|r.data|)
    requires |data| == |r.data| && |data| + 2 <= |payload'| && payload'[..|data| + 2] == data + field && data != r.data
    ensures Touched(r, cmd', payload')
  {
    assert (data + field)[..|data|] == data;
    assert (r.data + BigBytes(FrameCrc(r.op, r.addr, r.data)))[..|data|] == r.data;
  }

  lemma RequestBorderEscapes() returns (r: Request, cmd': seq<byte>, payload': seq<byte>, at: nat)
    ensures WireError(r, cmd', payload', at, 12) && CountKept(r, cmd') && FieldChanged(r, payload')
    ensures Decode(cmd', payload').Some? && Decode(cmd', payload') != Some(r)
  {
    hide Modbus, DifferOnLine, Header, XorByte, Decode;
    r := Request(CMD_WRITE, 0, [0]);
    var field, fill := BigBytes(FrameCrc(CMD_WRITE, 0, [0])), Padding(5);
    var hi, lo := field[0], field[1];
    var data', field' := [XorByte(0, 0x0C)], [XorByte(hi, 0x05), lo];
    cmd', payload', at := Command(CMD_WRITE, 0, 1), data' + field' + fill, 68;
    assert Payload(CMD_WRITE, 0, [0]) == [0] + field + fill;
    BorderAround(cmd', 0, hi, [lo] + fill);
    assert cmd' + [0, hi] + ([lo] + fill) == cmd' + Payload(CMD_WRITE, 0, [0]);
    assert cmd' + [XorByte(0, 0x0C), XorByte(hi, 0x05)] + ([lo] + fill) == cmd' + payload';
    var h := Header(CMD_WRITE, 0, 1);
    EscapingBorderBurst(h, 0, hi, lo);
    assert field == [hi, lo];
    PayloadParts(r);
    BorderOctets(0, hi, 0);
    DecodesTo(CMD_WRITE, 0, data', field', fill);
    CommandCount(CMD_WRITE, 0, 1);
    assert payload'[1..3] == field' && field'[0] != field[0];
  }

  /** With the count kept, every burst of n bits that touches header, data or field is refused exactly when n is at
      most ten. */
  lemma RequestReach(n: nat)
    ensures (forall r, cmd', payload', at ::
               WireError(r, cmd', payload', at, n) && CountKept(r, cmd') && Touched(r, cmd', payload')
               ==> Decode(cmd', payload') == None)
            <==> n <= 10
  {
    hide Decode, Touched, Command, Payload;
    if n <= 10 {
      forall r, cmd', payload', at | WireError(r, cmd', payload', at, n) && CountKept(r, cmd') && Touched(r, cmd', payload')
        ensures Decode(cmd', payload') == None
      {
        TouchedRefused(r, cmd', payload', at, n);
      }
    } else {
      var r, cmd', payload', at := RequestEscapes();
      Wider(Command(r.op, r.addr, |r.data|) + Payload(r.op, r.addr, r.data), cmd' + payload', at, 11, n);
      assert WireError(r, cmd', payload', at, n);
    }
  }

  /** If it touches the field, exactly when n is at most eleven. */
  lemma RequestFieldReach(n: nat)
    ensures (forall r, cmd', payload', at ::
               WireError(r, cmd', payload', at, n) && CountKept(r, cmd') && FieldChanged(r, payload')
               ==> Decode(cmd', payload') == None)
            <==> n <= 11
  {
    hide Decode, FieldChanged, Command, Payload;
    if n <= 11 {
      forall r, cmd', payload', at | WireError(r, cmd', payload', at, n) && CountKept(r, cmd') && FieldChanged(r, payload')
        ensures Decode(cmd', payload') == None
      {
        RequestJudged(r, cmd', payload', at, n);
      }
    } else {
      var r, cmd', payload', at := RequestBorderEscapes();
      Wider(Command(r.op, r.addr, |r.data|) + Payload(r.op, r.addr, r.data), cmd' + payload', at, 12, n);
      assert WireError(r, cmd', payload', at, n);
    }
  }
}
