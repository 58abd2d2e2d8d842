/**
 * Register transactions of src/spi_reg.c over an abstract bus: every start byte, SPI
 * transfer, acknowledge and file lock may fail, and the bytes clocked in are arbitrary.
 * Which do, and which bytes, is an input: `plan` and `drives`, by the number of the step.
 */
module SpiReg {
  import opened Bits
  import opened Crc
  import opened MemCtrl
  import opened Frame
  import BusLock

  /** What a transaction does on the line: start byte acknowledged, bytes clocked out, acknowledge received. */
  datatype Act = Started | Clocked(tx: seq<byte>) | Acked

  /** The five acts of a complete transaction, in order. */
  function Acts(cmd: seq<byte>, second: seq<byte>): (acts: seq<Act>)
    ensures |acts| == 5
  {
    [Started, Clocked(cmd), Acked, Clocked(second), Acked]
  }

  /** While a reply is clocked in, the command header goes out again, followed by fill bytes. */
  function ReadFill(addr: u16, cnt: u16): seq<byte> {
    Header(CMD_READ, addr, cnt) + Padding(PaddedLen(cnt) - HEADER_LEN)
  }

  /** What step k answers, be it the file lock, start byte, transfer or acknowledge: negative when it fails. */
  type Plan = nat -> int

  /** Of `most` steps from `at` on, `n` are made good: all of them, or those before the first that fails. */
  ghost predicate Succeed(plan: Plan, at: nat, n: nat, most: nat) {
    && n <= most
    && (forall k :: at <= k < at + n ==> plan(k) >= 0)
    && (n < most ==> plan(at + n) < 0)
  }

  /** Steps attempted when `n` of `most` succeed. */
  function Attempts(n: nat, most: nat): nat { if n < most then n + 1 else n }

  /** The code a transaction that starts at step `at` ends with when act `n` of it fails: a missing acknowledge is
      reported as -2, a failed transfer with its own code. */
  function FailureCode(plan: Plan, at: nat, n: nat): int { if n % 2 == 0 then -2 else plan(at + n) }

  /** Three acts and then, if they succeed, two are five. */
  lemma HalvesSucceed(plan: Plan, at: nat, first: nat, second: nat)
    requires Succeed(plan, at, first, 3)
    requires if first == 3 then Succeed(plan, at + 3, second, 2) else second == 0
    ensures Succeed(plan, at, first + second, 5)
    ensures Attempts(first + second, 5) == Attempts(first, 3) + if first == 3 then Attempts(second, 2) else 0
    ensures first + second < 5 ==> FailureCode(plan, at, first + second) < 0
  {
  }

  /** All six steps of a call work. */
  ghost predicate AllWork(plan: Plan, at: nat) { forall k :: at <= k < at + 6 ==> plan(k) >= 0 }

  lemma AllSucceed(plan: Plan, at: nat, n: nat)
    requires AllWork(plan, at) && Succeed(plan, at + 1, n, 5)
    ensures n == 5
  {
  }

  class SpiRegHandle {
    const bigHost: bool
    const plan: Plan
    const drives: (nat, nat) -> byte  // byte i the MCU drives during step k
    var tick: nat                     // steps attempted so far
    const txBuf: array<byte>
    const rxBuf: array<byte>
    var mutexHeld: bool   // by the calling thread
    var flockHeld: bool   // by the calling process
    ghost var wire: seq<Act>  // every act that succeeded
    ghost var locks: seq<BusLock.Step>  // every step taken on the two locks

    ghost predicate Valid() {
      txBuf.Length == MSG_MAX && rxBuf.Length == MSG_MAX && txBuf != rxBuf
    }

    /** No lock held: where every transaction starts and must end. */
    ghost predicate Unlocked()
      reads this
    {
      !mutexHeld && !flockHeld
    }

    constructor (bigHost: bool, plan: Plan, drives: (nat, nat) -> byte)
      ensures Valid() && Unlocked() && fresh(txBuf) && fresh(rxBuf) && wire == [] && locks == [] && tick == 0
      ensures this.bigHost == bigHost && this.plan == plan && this.drives == drives
    {
      this.bigHost, this.plan, this.drives, tick := bigHost, plan, drives, 0;
      txBuf, rxBuf := new byte[MSG_MAX](_ => 0), new byte[MSG_MAX](_ => 0);
      mutexHeld, flockHeld, wire, locks := false, false, [], [];
    }

    /** What a transfer of `length` bytes clocks in at step `at`. */
    function Driven(at: nat, length: nat): seq<byte> { seq(length, i requires 0 <= i => drives(at, i)) }

    // ---------------------------------------------------------- abstract steps

    method MutexLock(ghost who: BusLock.Thread)
      requires !mutexHeld
      modifies this`mutexHeld, this`locks
      ensures mutexHeld && locks == old(locks) + [BusLock.Enter(who)]
    {
      mutexHeld, locks := true, locks + [BusLock.Enter(who)];
    }

    method MutexUnlock(ghost who: BusLock.Thread)
      requires mutexHeld && !flockHeld  // released in the opposite order
      modifies this`mutexHeld, this`locks
      ensures !mutexHeld && locks == old(locks) + [BusLock.Exit(who)]
    {
      mutexHeld, locks := false, locks + [BusLock.Exit(who)];
    }

    method FlockExclusive(ghost who: BusLock.Thread) returns (ret: int)
      requires mutexHeld && !flockHeld
      modifies this`flockHeld, this`locks, this`tick
      ensures ret <= 0 && flockHeld == (ret == 0)
      ensures ret == (if plan(old(tick)) < 0 then plan(old(tick)) else 0) && tick == old(tick) + 1
      ensures locks == old(locks) + [if ret == 0 then BusLock.Begin(who) else BusLock.Refuse(who)]
    {
      ret := if plan(tick) < 0 then plan(tick) else 0;
      tick := tick + 1;
      flockHeld := ret == 0;
      locks := locks + [if ret == 0 then BusLock.Begin(who) else BusLock.Refuse(who)];
    }

    method FlockRelease(ghost who: BusLock.Thread)
      requires flockHeld
      modifies this`flockHeld, this`locks
      ensures !flockHeld && locks == old(locks) + [BusLock.End(who)]
    {
      flockHeld, locks := false, locks + [BusLock.End(who)];
    }

    /** _GotoStartCmd: start byte out, acknowledge in. */
    method GotoStartCmd() returns (ret: int)
      requires mutexHeld && flockHeld
      modifies this`wire, this`tick
      ensures ret == (if plan(old(tick)) < 0 then -1 else 0) && tick == old(tick) + 1
      ensures wire == old(wire) + if ret == 0 then [Started] else []
    {
      ret := if plan(tick) < 0 then -1 else 0;
      tick := tick + 1;
      if ret == 0 { wire := wire + [Started]; }
    }

    /** _WaitAck */
    method WaitAck() returns (ret: int)
      requires mutexHeld && flockHeld
      modifies this`wire, this`tick
      ensures ret == (if plan(old(tick)) < 0 then -1 else 0) && tick == old(tick) + 1
      ensures wire == old(wire) + if ret == 0 then [Acked] else []
    {
      ret := if plan(tick) < 0 then -1 else 0;
      tick := tick + 1;
      if ret == 0 { wire := wire + [Acked]; }
    }

    /** _TransferSpi: full duplex; a completed transfer fills rxBuf[..length] with whatever the MCU drives. */
    method TransferSpi(length: nat) returns (ret: int)
      requires Valid() && length <= MSG_MAX && mutexHeld && flockHeld
      modifies this`wire, this`tick, rxBuf
      ensures ret == plan(old(tick)) && tick == old(tick) + 1
      ensures rxBuf[..length] == Driven(old(tick), length)
      ensures wire == old(wire) + if ret < 0 then [] else [Clocked(txBuf[..length])]
    {
      for i := 0 to length
        modifies rxBuf
        invariant forall k :: 0 <= k < i ==> rxBuf[k] == drives(tick, k)
      {
        rxBuf[i] := drives(tick, i);
      }
      ret := plan(tick);
      tick := tick + 1;
      if ret >= 0 { wire := wire + [Clocked(txBuf[..length])]; }
    }

    // ---------------------------------------------------------- shared by read and write

    method Memset(buf: array<byte>, from: nat, len: nat)
      requires from + len <= buf.Length
      modifies buf
      ensures forall k :: 0 <= k < buf.Length ==> buf[k] == if from <= k < from + len then PAD else old(buf[k])
    {
      for i := 0 to len
        invariant forall k :: 0 <= k < buf.Length ==> buf[k] == if from <= k < from + i then PAD else old(buf[k])
      {
        buf[from + i] := PAD;
      }
    }

    /** Clears both buffers and writes the command. */
    method BuildHeader(op: byte, addr: u16, cnt: u16)
      requires Valid()
      modifies txBuf, rxBuf
      ensures txBuf[..HEADER_LEN] == Header(op, addr, cnt)
      ensures forall k :: HEADER_LEN <= k < MSG_MAX ==> txBuf[k] == PAD
    {
      Memset(rxBuf, 0, MSG_MAX);
      Memset(txBuf, 0, MSG_MAX);
      txBuf[0] := op;
      StoreBig16(txBuf, 1, addr, bigHost);
      ghost var a := txBuf[1..3];
      StoreBig16(txBuf, 3, cnt, bigHost);
      assert txBuf[1..3] == a;
      assert txBuf[..HEADER_LEN] == [txBuf[0]] + txBuf[1..3] + txBuf[3..5];
    }

    /** The command, and the CRC of its header to continue from. */
    method BuildCommand(op: byte, addr: u16, cnt: u16) returns (crc: u16)
      requires Valid()
      modifies txBuf, rxBuf
      ensures txBuf[..CMD_LEN] == Command(op, addr, cnt)
      ensures forall n :: CMD_LEN <= n <= MSG_MAX ==> txBuf[..n] == Header(op, addr, cnt) + Padding(n - HEADER_LEN)
      ensures crc == Modbus(CRC_INIT, Header(op, addr, cnt))
    {
      hide Modbus, Header;
      BuildHeader(op, addr, cnt);
      assert forall n :: CMD_LEN <= n <= MSG_MAX ==> txBuf[..n] == txBuf[..HEADER_LEN] + Padding(n - HEADER_LEN);
      crc := Crc16(CRC_INIT, txBuf, HEADER_LEN);
    }

    /** The first half of every transaction: command built, start byte, command out, acknowledge in. */
    method OpenCommand(op: byte, addr: u16, cnt: u16) returns (ret: int, crc: u16, ghost done: seq<Act>)
      requires Valid() && mutexHeld && flockHeld
      modifies this`wire, this`tick, txBuf, rxBuf
      ensures wire == old(wire) + done && done <= [Started, Clocked(Command(op, addr, cnt)), Acked]
      ensures Succeed(plan, old(tick), |done|, 3) && tick == old(tick) + Attempts(|done|, 3)
      ensures ret <= 0 && (ret == 0 <==> |done| == 3)
      ensures ret == if |done| == 3 then 0 else FailureCode(plan, old(tick), |done|)
      ensures crc == Modbus(CRC_INIT, Header(op, addr, cnt))
      ensures forall n :: CMD_LEN <= n <= MSG_MAX ==> txBuf[..n] == Header(op, addr, cnt) + Padding(n - HEADER_LEN)
    {
      hide Modbus, Command, Header, Padding;
      done := [];
      crc := BuildCommand(op, addr, cnt);
      ret := GotoStartCmd();
      if ret < 0 { return -2, crc, done; }
      done := [Started];
      ret := TransferSpi(CMD_LEN);
      if ret < 0 { return; }
      done := [Started, Clocked(Command(op, addr, cnt))];
      ret := WaitAck();
      if ret < 0 { return -2, crc, done; }
      done := [Started, Clocked(Command(op, addr, cnt)), Acked];
    }

    /** The second half: payload out or reply in, and its acknowledge. */
    method CloseCommand(length: nat) returns (ret: int, ghost done: seq<Act>)
      requires Valid() && length <= MSG_MAX && mutexHeld && flockHeld
      modifies this`wire, this`tick, rxBuf
      ensures wire == old(wire) + done && done <= [Clocked(txBuf[..length]), Acked]
      ensures Succeed(plan, old(tick), |done|, 2) && tick == old(tick) + Attempts(|done|, 2)
      ensures ret <= 0 && (ret == 0 <==> |done| == 2)
      ensures ret == if |done| == 2 then 0 else if |done| == 1 then -2 else plan(old(tick))
      ensures rxBuf[..length] == Driven(old(tick), length)
    {
      done := [];
      ret := TransferSpi(length);
      if ret < 0 { return; }
      done := [Clocked(txBuf[..length])];
      ret := WaitAck();
      if ret < 0 { return -2, done; }
      done := [Clocked(txBuf[..length]), Acked];
    }

    /** Data, CRC and fill bytes of a write, and their padded length. */
    method BuildPayload(cnt: u16, regData: array<byte>, crc: u16) returns (transLength: nat)
      requires Valid() && cnt <= 1022 && cnt <= regData.Length && regData != txBuf
      modifies txBuf
      ensures transLength == PaddedLen(cnt) <= MSG_MAX
      ensures txBuf[..transLength] == regData[..cnt] + BigBytes(crc) + Padding(transLength - cnt - 2)
    {
      hide BigBytes;
      CopyBytes(regData, txBuf, cnt);
      ghost var data := txBuf[..cnt];
      StoreBig16(txBuf, cnt, crc, bigHost);
      assert txBuf[..cnt] == data;
      transLength := cnt + 2;
      var fillLen := (8 - transLength % 8) % 8;
      ghost var body := txBuf[..cnt + 2];
      assert body == data + BigBytes(crc);
      Memset(txBuf, transLength, fillLen);
      assert txBuf[..cnt + 2] == body;
      transLength := transLength + fillLen;
      assert txBuf[..transLength] == body + Padding(fillLen);
    }

    /** Finishes the CRC over the reply and copies the data out if the field agrees. */
    method AcceptReply(cnt: u16, crc: u16, regData: array<byte>) returns (ret: int)
      requires Valid() && cnt <= 1022 && cnt <= regData.Length && regData != txBuf && regData != rxBuf
      modifies regData
      ensures var ok := Modbus(crc, rxBuf[..cnt]) == Big16(rxBuf[cnt], rxBuf[cnt + 1]);
              ret == if ok then 0 else -3
      ensures ret == 0 ==> regData[..cnt] == rxBuf[..cnt] && regData[cnt..] == old(regData[cnt..])
      ensures ret != 0 ==> regData[..] == old(regData[..])
    {
      hide Modbus, Big16;
      var full := Crc16(crc, rxBuf, cnt);
      var readCrc := LoadBig16(rxBuf, cnt, bigHost);
      if readCrc == full {
        CopyBytes(rxBuf, regData, cnt);
        ret := 0;
      } else {
        ret := -3;
      }
    }
  }

  /** Whether a call took both locks, and whether all five acts then succeeded. */
  datatype Progress = NotStarted | Stopped | Completed

  /** The acts of a transaction whose first is step `at` succeed up to the first that fails. */
  ghost predicate Transacted(h: SpiRegHandle, at: nat, ret: int, progress: Progress, done: seq<Act>, acts: seq<Act>)
    requires |acts| == 5
    reads h`tick
  {
    && progress != NotStarted && done <= acts
    && Succeed(h.plan, at, |done|, 5) && h.tick == at + Attempts(|done|, 5)
    && (progress == Completed <==> |done| == 5)
    && (progress == Stopped ==> ret == FailureCode(h.plan, at, |done|) < 0)
  }

  /** The call whose first step, the file lock, is step `at`: refused, or a transaction. */
  ghost predicate Reported(h: SpiRegHandle, at: nat, ret: int, progress: Progress, done: seq<Act>, acts: seq<Act>)
    requires |acts| == 5
    reads h`tick
  {
    if h.plan(at) < 0 then
      progress == NotStarted && done == [] && ret == h.plan(at) && h.tick == at + 1
    else
      Transacted(h, at + 1, ret, progress, done, acts)
  }

  /** SpiReg_Read. `reply` is what the second transfer clocked in, when the transaction completed. */
  method Read(h: SpiRegHandle?, addr: u16, cnt: u16, regData: array<byte>, ghost who: BusLock.Thread)
    returns (ret: int, ghost progress: Progress, ghost done: seq<Act>, ghost reply: seq<byte>)
    requires h != null ==> h.Valid() && h.Unlocked() && regData != h.txBuf && regData != h.rxBuf
    requires cnt <= 1022 && cnt <= regData.Length
    modifies h, if h == null then {} else {h.txBuf, h.rxBuf}, regData
    ensures h == null ==> ret == -1 && progress == NotStarted && done == []
    ensures h != null ==> h.Unlocked() && h.wire == old(h.wire) + done
    ensures h != null ==> h.locks == old(h.locks) + BusLock.CallSteps(who, progress != NotStarted)
    ensures h != null ==>
              Reported(h, old(h.tick), ret, progress, done, Acts(Command(CMD_READ, addr, cnt), ReadFill(addr, cnt)))
    ensures h != null && AllWork(h.plan, old(h.tick)) ==> progress == Completed
    ensures progress == Completed ==>
              && h != null && reply == h.Driven(old(h.tick) + 4, PaddedLen(cnt))
              && ret == if ReplyOk(addr, cnt, reply) then 0 else -3
    ensures ret == 0 ==>
              progress == Completed && regData[..cnt] == reply[..cnt] && regData[cnt..] == old(regData[cnt..])
    ensures ret != 0 ==> regData[..] == old(regData[..])
  {
    hide Command, ReadFill, PaddedLen, ReplyOk, Succeed, Attempts, FailureCode;
    progress, done, reply := NotStarted, [], [];
    if h == null { return -1, progress, done, reply; }
    h.MutexLock(who);
    ret := h.FlockExclusive(who);
    if ret < 0 {
      h.MutexUnlock(who);
      return;
    }
    ret, progress, done, reply := ReadLocked(h, addr, cnt, regData);
    if AllWork(h.plan, old(h.tick)) {
      AllSucceed(h.plan, old(h.tick), |done|);
    }
    h.FlockRelease(who);
    h.MutexUnlock(who);
  }

  /** The body between the locks; every `goto out` is a return. */
  method ReadLocked(h: SpiRegHandle, addr: u16, cnt: u16, regData: array<byte>)
    returns (ret: int, ghost progress: Progress, ghost done: seq<Act>, ghost reply: seq<byte>)
    requires h.Valid() && h.mutexHeld && h.flockHeld && regData != h.txBuf && regData != h.rxBuf
    requires cnt <= 1022 && cnt <= regData.Length
    modifies h`wire, h`tick, h.txBuf, h.rxBuf, regData
    ensures h.wire == old(h.wire) + done
    ensures Transacted(h, old(h.tick), ret, progress, done, Acts(Command(CMD_READ, addr, cnt), ReadFill(addr, cnt)))
    ensures progress == Completed ==>
              && reply == h.Driven(old(h.tick) + 3, PaddedLen(cnt))
              && ret == if ReplyOk(addr, cnt, reply) then 0 else -3
    ensures ret == 0 ==>
              progress == Completed && regData[..cnt] == reply[..cnt] && regData[cnt..] == old(regData[cnt..])
    ensures ret != 0 ==> regData[..] == old(regData[..])
  {
    hide Modbus, Command, Header, Padding, Big16, ReplyOk, Succeed;
    ghost var at := h.tick;
    progress, reply := Stopped, [];
    var crc;
    ret, crc, done := h.OpenCommand(CMD_READ, addr, cnt);
    ghost var first := |done|;
    if ret < 0 {
      HalvesSucceed(h.plan, at, first, 0);
      return;
    }
    ghost var closing;
    ret, closing := FetchReply(h, addr, cnt);
    HalvesSucceed(h.plan, at, first, |closing|);
    done := done + closing;
    if ret < 0 { return; }
    progress, reply := Completed, h.rxBuf[..PaddedLen(cnt)];
    ReplyParts(addr, cnt, h.rxBuf[..], PaddedLen(cnt));
    ret := h.AcceptReply(cnt, crc, regData);
  }

  /** The second half of a read: the padded reply clocked in, and its acknowledge. */
  method FetchReply(h: SpiRegHandle, addr: u16, cnt: u16) returns (ret: int, ghost done: seq<Act>)
    requires h.Valid() && h.mutexHeld && h.flockHeld && cnt <= 1022
    requires forall n :: CMD_LEN <= n <= MSG_MAX ==>
               h.txBuf[..n] == Header(CMD_READ, addr, cnt) + Padding(n - HEADER_LEN)
    modifies h`wire, h`tick, h.rxBuf
    ensures h.wire == old(h.wire) + done && done <= [Clocked(ReadFill(addr, cnt)), Acked]
    ensures Succeed(h.plan, old(h.tick), |done|, 2) && h.tick == old(h.tick) + Attempts(|done|, 2)
    ensures ret <= 0 && (ret == 0 <==> |done| == 2)
    ensures ret == if |done| == 2 then 0 else if |done| == 1 then -2 else h.plan(old(h.tick))
    ensures PaddedLen(cnt) <= MSG_MAX && h.rxBuf[..PaddedLen(cnt)] == h.Driven(old(h.tick), PaddedLen(cnt))
  {
    hide Header, Padding, Succeed, Attempts;
    var transLength := cnt + 2;
    var fillLen := (8 - transLength % 8) % 8;
    transLength := transLength + fillLen;
    ret, done := h.CloseCommand(transLength);
  }

  /** The check on the received bytes is the one on the reply they make up. */
  lemma ReplyParts(addr: u16, cnt: u16, rx: seq<byte>, len: nat)
    requires cnt + 2 <= len <= |rx|
    ensures ReplyOk(addr, cnt, rx[..len])
            <==> Modbus(Modbus(CRC_INIT, Header(CMD_READ, addr, cnt)), rx[..cnt]) == Big16(rx[cnt], rx[cnt + 1])
  {
    hide Modbus, Header;
    var reply := rx[..len];
    assert reply[..cnt] == rx[..cnt] && reply[cnt..cnt + 2] == [rx[cnt], rx[cnt + 1]];
    Chain(CRC_INIT, Header(CMD_READ, addr, cnt), rx[..cnt]);
  }

  method CopyBytes(src: array<byte>, dst: array<byte>, n: nat)
    requires n <= src.Length && n <= dst.Length && src != dst
    modifies dst
    ensures dst[..n] == src[..n] && dst[n..] == old(dst[n..])
  {
    for i := 0 to n
      invariant dst[..i] == src[..i] && dst[n..] == old(dst[n..])
    {
      dst[i] := src[i];
    }
  }

  /** SpiReg_Write: success means exactly the command and the payload went out, each acknowledged. */
  method Write(h: SpiRegHandle?, addr: u16, cnt: u16, regData: array<byte>, ghost who: BusLock.Thread)
    returns (ret: int, ghost progress: Progress, ghost done: seq<Act>)
    requires h != null ==> h.Valid() && h.Unlocked() && regData != h.txBuf && regData != h.rxBuf
    requires cnt <= 1022 && cnt <= regData.Length
    modifies h, if h == null then {} else {h.txBuf, h.rxBuf}
    ensures h == null ==> ret == -1 && progress == NotStarted && done == []
    ensures h != null ==> h.Unlocked() && h.wire == old(h.wire) + done
    ensures h != null ==> h.locks == old(h.locks) + BusLock.CallSteps(who, progress != NotStarted)
    ensures ret <= 0 && (ret == 0 <==> progress == Completed)
    ensures h != null ==>
              Reported(h, old(h.tick), ret, progress, done,
                       Acts(Command(CMD_WRITE, addr, cnt), Payload(CMD_WRITE, addr, regData[..cnt])))
    ensures h != null && AllWork(h.plan, old(h.tick)) ==> ret == 0
  {
    hide Command, Payload, Succeed, Attempts, FailureCode;
    progress, done := NotStarted, [];
    if h == null { return -1, progress, done; }
    h.MutexLock(who);
    ret := h.FlockExclusive(who);
    if ret < 0 {
      h.MutexUnlock(who);
      return;
    }
    ret, progress, done := WriteLocked(h, addr, cnt, regData);
    if AllWork(h.plan, old(h.tick)) {
      AllSucceed(h.plan, old(h.tick), |done|);
    }
    h.FlockRelease(who);
    h.MutexUnlock(who);
  }

  method WriteLocked(h: SpiRegHandle, addr: u16, cnt: u16, regData: array<byte>)
    returns (ret: int, ghost progress: Progress, ghost done: seq<Act>)
    requires h.Valid() && h.mutexHeld && h.flockHeld && regData != h.txBuf && regData != h.rxBuf
    requires cnt <= 1022 && cnt <= regData.Length
    modifies h`wire, h`tick, h.txBuf, h.rxBuf
    ensures h.wire == old(h.wire) + done
    ensures ret <= 0 && (ret == 0 <==> progress == Completed)
    ensures Transacted(h, old(h.tick), ret, progress, done,
                       Acts(Command(CMD_WRITE, addr, cnt), Payload(CMD_WRITE, addr, regData[..cnt])))
  {
    hide Modbus, Command, Header, BigBytes, Padding, Succeed;
    ghost var at := h.tick;
    progress := Stopped;
    var crc;
    ret, crc, done := h.OpenCommand(CMD_WRITE, addr, cnt);
    ghost var first := |done|;
    if ret < 0 {
      HalvesSucceed(h.plan, at, first, 0);
      return;
    }
    ghost var closing;
    ret, closing := SendPayload(h, addr, cnt, regData, crc);
    HalvesSucceed(h.plan, at, first, |closing|);
    done := done + closing;
    if ret < 0 { return; }
    progress := Completed;
  }

  /** The second half of a write: the CRC finished over the data, then the payload and its acknowledge. */
  method SendPayload(h: SpiRegHandle, addr: u16, cnt: u16, regData: array<byte>, crc: u16)
    returns (ret: int, ghost done: seq<Act>)
    requires h.Valid() && h.mutexHeld && h.flockHeld && regData != h.txBuf && regData != h.rxBuf
    requires cnt <= 1022 && cnt <= regData.Length && crc == Modbus(CRC_INIT, Header(CMD_WRITE, addr, cnt))
    modifies h`wire, h`tick, h.txBuf, h.rxBuf
    ensures h.wire == old(h.wire) + done
    ensures done <= [Clocked(Payload(CMD_WRITE, addr, regData[..cnt])), Acked]
    ensures Succeed(h.plan, old(h.tick), |done|, 2) && h.tick == old(h.tick) + Attempts(|done|, 2)
    ensures ret <= 0 && (ret == 0 <==> |done| == 2)
    ensures ret == if |done| == 2 then 0 else if |done| == 1 then -2 else h.plan(old(h.tick))
  {
    hide Modbus, Header, BigBytes, Padding, Succeed, Attempts;
    var full := Crc16(crc, regData, cnt);
    Chain(CRC_INIT, Header(CMD_WRITE, addr, cnt), regData[..cnt]);
    var transLength := h.BuildPayload(cnt, regData, full);
    ret, done := h.CloseCommand(transLength);
  }
}
