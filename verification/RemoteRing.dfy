/**
 * The MCU side of a register ring buffer, from the register contract in
 * src/include/regwr_cb.h. The MCU runs concurrently: before every register transaction
 * it may have moved any amount of data at its own end of the ring. Which transactions
 * fail, and how, is an input: `plan`, by the number of the transaction.
 */
module RemoteRing {
  import opened Bits
  import opened LittleEndian
  import opened Records

  const GET_SIZE := 0x00
  const GET_FREESIZE := 0x01
  const READ := 0x02
  const WRITE := 0x03
  const CLEAN := 0x04
  const READAIR := 0x05
  const PEEP := 0x06

  type Failure = code: int | code < 0 witness -2

  /** A transaction works, does not reach the MCU, or has its effect with only the reply or acknowledge lost. */
  datatype Outcome = Works | Unheard(code: Failure) | Unanswered(code: Failure)

  /** What the host is told of it. */
  function Told(o: Outcome): (ret: int)
    ensures ret <= 0 && (ret == 0 <==> o.Works?)
  {
    match o
    case Works => 0
    case Unheard(code) => code
    case Unanswered(code) => code
  }

  type Plan = nat -> Outcome

  /** The transactions from `at` to `end`, of which there is at least one, worked, but for the last if `ret` is
      negative: that one failed with this code. */
  ghost predicate ToldBy(plan: Plan, at: nat, end: nat, ret: int) {
    && at < end
    && (forall k :: at <= k < end - 1 ==> plan(k).Works?)
    && Told(plan(end - 1)) == if ret < 0 then ret else 0
  }

  /** A call told `first` of its transactions up to `mid`, all of which worked, and `ret` of those after. */
  lemma ToldOn(plan: Plan, at: nat, mid: nat, end: nat, first: int, ret: int)
    requires ToldBy(plan, at, mid, first) && first >= 0 && ToldBy(plan, mid, end, ret)
    ensures ToldBy(plan, at, end, ret)
  {
    assert plan(mid - 1).Works?;
  }

  class Ring {
    const cap: nat
    const plan: Plan
    var tick: nat               // transactions made so far
    const hostProduces: bool    // otherwise the host consumes
    const repliesMayVanish: bool // whether a transaction can take effect and still be reported failed
    var q: seq<byte>
    ghost var produced: seq<byte>  // everything enqueued since the ring was last emptied by CLEAN
    ghost var consumed: seq<byte>  // everything dequeued since then
    ghost var overruns: nat        // transfers the MCU had to turn down as larger than the ring allows

    ghost predicate Valid()
      reads this
    {
      && |q| <= cap <= INT_MAX && produced == consumed + q
      && (!repliesMayVanish ==> forall k :: !plan(k).Unanswered?)
    }

    constructor (cap: nat, hostProduces: bool, repliesMayVanish: bool, plan: Plan)
      requires cap <= INT_MAX && (!repliesMayVanish ==> forall k :: !plan(k).Unanswered?)
      ensures Valid() && produced == consumed == q == [] && overruns == 0 && tick == 0
      ensures this.cap == cap && this.hostProduces == hostProduces && this.repliesMayVanish == repliesMayVanish
      ensures this.plan == plan
    {
      this.plan, tick := plan, 0;
      this.cap, this.hostProduces, this.repliesMayVanish := cap, hostProduces, repliesMayVanish;
      q, produced, consumed, overruns := [], [], [], 0;
    }

    /** The host's end of the ring has not moved; the MCU's end may have. */
    twostate predicate HostStill()
      reads this
    {
      if hostProduces then produced == old(produced) && old(consumed) <= consumed
      else consumed == old(consumed) && old(produced) <= produced && old(q) <= q
    }

    /** And no transfer has been turned down. */
    twostate predicate McuOnly()
      reads this
    {
      overruns == old(overruns) && HostStill()
    }

    /** A transfer of `len` bytes was turned down: more than the ring holds, or has room for; nothing came of it. */
    twostate predicate TurnedDown(len: nat)
      reads this
    {
      overruns == old(overruns) + 1 && HostStill() && len > if hostProduces then cap - |q| else |q|
    }

    /** The transactions made since worked, but for the last if `ret` is negative. */
    twostate predicate Answered(ret: int)
      reads this
    {
      ToldBy(plan, old(tick), tick, ret)
    }

    /** The concurrent MCU: drains the host's ring, or fills its own, by any amount that fits. */
    method McuRuns()
      requires Valid()
      modifies this
      ensures Valid() && McuOnly() && tick == old(tick)
    {
      if hostProduces {
        var n: int := *;
        if 0 <= n <= |q| {
          consumed := consumed + q[..n];
          q := q[n..];
        }
      } else {
        var more: seq<byte> := *;
        if |q| + |more| <= cap {
          q := q + more;
          produced := produced + more;
        }
      }
    }

    /** read_reg at this ring's registers. A failed read leaves the buffer alone; one longer than what is queued fails. */
    method ReadReg(reg: nat, buf: array<byte>, len: u16) returns (ret: int)
      requires Valid() && len <= buf.Length
      requires reg == READ || reg == PEEP ==> !hostProduces
      requires reg == GET_SIZE || reg == GET_FREESIZE ==> len == 4
      requires reg in {GET_SIZE, GET_FREESIZE, READ, PEEP}
      modifies this, buf
      ensures Valid() && tick == old(tick) + 1
      ensures ret == if overruns == old(overruns) || !plan(old(tick)).Works? then Told(plan(old(tick))) else -2
      ensures buf[len..] == old(buf[len..]) && (ret < 0 ==> buf[..] == old(buf[..]))
      ensures overruns == old(overruns) || (ret < 0 && TurnedDown(len))
      ensures reg == GET_SIZE ==> McuOnly() && (ret == 0 ==> FromLe(buf[..4]) == |q|)
      ensures reg == GET_FREESIZE ==> McuOnly() && (ret == 0 ==> FromLe(buf[..4]) == cap - |q|)
      ensures reg == PEEP ==> HostStill() && (ret == 0 ==> len <= |q| && buf[..len] == q[..len])
      ensures reg == READ ==>
                && old(produced) <= produced
                && old(consumed) <= consumed
                && (ret == 0 ==> consumed == old(consumed) + buf[..len])
                && (overruns == old(overruns) ==>
                      |consumed| == |old(consumed)| + if plan(old(tick)).Unheard? then 0 else len)
                && (ret < 0 && consumed != old(consumed) ==>
                      repliesMayVanish && old(consumed) <= consumed && |consumed| == |old(consumed)| + len)
      ensures len <= old(|q|) && !hostProduces ==> overruns == old(overruns)
    {
      McuRuns();
      var outcome := plan(tick);
      ret, tick := Told(outcome), tick + 1;
      if outcome.Unheard? { return; }
      var turnedDown, reply := Serve(reg, len);
      if ret == 0 && turnedDown { ret := -2; }
      if ret == 0 {
        Fill(buf, reply);
        assert buf[..len] == reply;
      }
    }

    /** The MCU's answer to a read, and what it does to the ring. */
    method Serve(reg: nat, len: u16) returns (turnedDown: bool, reply: seq<byte>)
      requires Valid() && reg in {GET_SIZE, GET_FREESIZE, READ, PEEP}
      requires reg == GET_SIZE || reg == GET_FREESIZE ==> len == 4
      modifies this`q, this`consumed, this`overruns
      ensures Valid() && (!turnedDown ==> |reply| == len)
      ensures overruns == old(overruns) + if turnedDown then 1 else 0
      ensures turnedDown <==> (reg == READ || reg == PEEP) && len > old(|q|)
      ensures reg != READ || turnedDown ==> q == old(q) && consumed == old(consumed)
      ensures reg == READ && !turnedDown ==> q == old(q)[len..] && consumed == old(consumed) + reply
      ensures reg == GET_SIZE ==> FromLe(reply) == |q|
      ensures reg == GET_FREESIZE ==> FromLe(reply) == cap - |q|
      ensures (reg == READ || reg == PEEP) && !turnedDown ==> reply == old(q)[..len]
    {
      turnedDown, reply := false, [];
      if reg == GET_SIZE {
        reply := LeBytes(|q|, 4);
        RoundTrip32(|q|);
      } else if reg == GET_FREESIZE {
        reply := LeBytes(cap - |q|, 4);
        RoundTrip32(cap - |q|);
      } else if len > |q| {
        overruns := overruns + 1;
        turnedDown := true;
      } else {
        reply := q[..len];
        if reg == READ {
          consumed := consumed + q[..len];
          q := q[len..];
        }
      }
    }

    method Fill(buf: array<byte>, reply: seq<byte>)
      requires |reply| <= buf.Length
      modifies buf
      ensures buf[..|reply|] == reply && buf[|reply|..] == old(buf[|reply|..])
    {
      for i := 0 to |reply|
        invariant buf[..i] == reply[..i] && buf[|reply|..] == old(buf[|reply|..])
      {
        buf[i] := reply[i];
      }
    }

    /** write_reg at this ring's registers, with `data` the bytes handed over; a write larger than the free room fails,
        and so does dropping more than is queued. */
    method WriteReg(reg: nat, data: seq<byte>) returns (ret: int)
      requires Valid() && |data| < 0x1_0000
      requires reg == WRITE ==> hostProduces
      requires reg == READAIR ==> |data| == 4 && !hostProduces
      requires reg in {WRITE, READAIR, CLEAN}
      modifies this
      ensures Valid() && tick == old(tick) + 1
      ensures ret == if overruns == old(overruns) || !plan(old(tick)).Works? then Told(plan(old(tick))) else -2
      ensures overruns == old(overruns)
              || (ret < 0 && reg == WRITE && TurnedDown(|data|)) || (ret < 0 && reg == READAIR && TurnedDown(FromLe(data)))
      ensures reg == WRITE ==>
                && old(consumed) <= consumed
                && (ret == 0 ==> produced == old(produced) + data)
                && (ret < 0 && produced != old(produced) ==> repliesMayVanish && produced == old(produced) + data)
                && (overruns == old(overruns) ==>
                      produced == if plan(old(tick)).Unheard? then old(produced) else old(produced) + data)
                && (|data| <= cap - old(|q|) ==> overruns == old(overruns))
      ensures reg == READAIR ==>
                && old(produced) <= produced && old(consumed) <= consumed
                && (ret == 0 ==> |consumed| == |old(consumed)| + FromLe(data))
                && (ret < 0 && consumed != old(consumed) ==>
                      repliesMayVanish && |consumed| == |old(consumed)| + FromLe(data))
                && (overruns == old(overruns) ==>
                      |consumed| == |old(consumed)| + if plan(old(tick)).Unheard? then 0 else FromLe(data))
                && (FromLe(data) <= old(|q|) ==> overruns == old(overruns))
      ensures reg == CLEAN ==>
                && overruns == old(overruns)
                && if plan(old(tick)).Unheard? then McuOnly() else q == produced == consumed == []
    {
      McuRuns();
      var outcome := plan(tick);
      ret, tick := Told(outcome), tick + 1;
      if outcome.Unheard? { return; }
      if reg == WRITE {
        if |data| > cap - |q| {
          overruns := overruns + 1;
          if ret == 0 { ret := -2; }
        } else {
          q := q + data;
          produced := produced + data;
        }
      } else if reg == READAIR {
        var n := FromLe(data);
        if n > |q| {
          overruns := overruns + 1;
          if ret == 0 { ret := -2; }
        } else {
          consumed := consumed + q[..n];
          q := q[n..];
        }
      } else {
        q, produced, consumed := [], [], [];
      }
    }
  }
}
