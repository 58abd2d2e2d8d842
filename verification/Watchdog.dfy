/**
 * The watchdog feed of src/rearview_mcu.c: a host-side copy of an eight-bit counter in which
 * 0xff doubles as "unknown, read it back first".
 */
module Watchdog {
  import opened Bits

  const UNKNOWN: byte := 0xFF

  /** `last` is the host's static copy, `counter` the MCU's mpu_online_cnt register. */
  datatype Dog = Dog(last: byte, counter: byte)

  /** What happens to one feed: whether its read-back, if it makes one, succeeds and its write reaches the MCU. */
  datatype Feed = Feed(readOk: bool, delivered: bool)

  function Inc(b: byte): byte { if b == 0xFF then 0 else b + 1 }

  /** The value a feed writes. */
  function Written(d: Dog, f: Feed): byte {
    if d.last != UNKNOWN then d.last else Inc(if f.readOk then d.counter else d.last)
  }

  function FeedOnce(d: Dog, f: Feed): Dog {
    var w := Written(d, f);
    Dog(Inc(w), if f.delivered then w else d.counter)
  }

  function Run(d: Dog, fs: seq<Feed>): Dog {
    if fs == [] then d else FeedOnce(Run(d, fs[..|fs| - 1]), fs[|fs| - 1])
  }

  class Host {
    var lastCnt: byte
    var register: byte  // the MCU's counter; only this host writes it

    constructor (register: byte)
      ensures lastCnt == UNKNOWN && this.register == register
    {
      lastCnt, this.register := UNKNOWN, register;
    }

    /** RVMcu_WdogFeed, with the fate of its two transactions given. A failed read leaves last_cnt alone; a write
        whose acknowledge alone is lost is delivered and still reported failed. */
    method WdogFeed(f: Feed, acknowledged: bool) returns (ret: int)
      modifies this
      ensures Dog(lastCnt, register) == FeedOnce(Dog(old(lastCnt), old(register)), f)
      ensures ret == 0 <==> f.delivered && acknowledged
    {
      if lastCnt == 0xFF {
        if f.readOk { lastCnt := register; }
        lastCnt := Inc(lastCnt);
      }
      if f.delivered { register := lastCnt; }
      ret := if f.delivered && acknowledged then 0 else -2;
      lastCnt := Inc(lastCnt);
    }

    /** A run of feeds, as the online loop makes them. */
    method FeedAll(fs: seq<Feed>)
      modifies this
      ensures Dog(lastCnt, register) == Run(Dog(old(lastCnt), old(register)), fs)
    {
      for i := 0 to |fs|
        invariant Dog(lastCnt, register) == Run(Dog(old(lastCnt), old(register)), fs[..i])
      {
        var acknowledged: bool := *;
        var ret := WdogFeed(fs[i], acknowledged);
        assert fs[..i + 1][..i] == fs[..i];
      }
      assert fs[..|fs|] == fs;
    }
  }

  // ------------------------------------------------------------ without faults

  ghost predicate InStep(d: Dog) { d.last == UNKNOWN || d.last == Inc(d.counter) }

  lemma FaultFreeStep(d: Dog)
    requires InStep(d)
    ensures var e := FeedOnce(d, Feed(true, true)); InStep(e) && e.counter == Inc(d.counter)
  {
  }

  lemma IncModulo(c: nat, n: nat)
    requires n > 0
    ensures Inc((c + (n - 1)) % 256) == (c + n) % 256
  {
  }

  /** Fault-free feeds advance the register by one each, modulo 256, in spite of the sentinel. */
  lemma {:induction false} FaultFree(d: Dog, fs: seq<Feed>)
    requires InStep(d) && forall i :: 0 <= i < |fs| ==> fs[i] == Feed(true, true)
    ensures InStep(Run(d, fs)) && Run(d, fs).counter == (d.counter + |fs|) % 256
  {
    hide FeedOnce, InStep, Inc;
    if fs == [] {
      assert d.counter % 256 == d.counter;
    } else {
      var n := |fs| - 1;
      FaultFree(d, fs[..n]);
      FaultFreeStep(Run(d, fs[..n]));
      IncModulo(d.counter, |fs|);
    }
  }

  // ------------------------------------------------------------ with lost reads and writes

  /** How many further feeds, all of whose reads fail, could pass before the register's own value comes round. */
  function Distance(d: Dog): nat {
    var w := if d.last == UNKNOWN then 0 else d.last;
    if d.counter == 0xFF then 255
    else if w <= d.counter then d.counter - w
    else 255 - w + d.counter
  }

  lemma LostFeed(d: Dog, f: Feed)
    requires !f.delivered && Distance(d) <= 255
    ensures FeedOnce(d, f).counter == d.counter
    ensures 0 < Distance(d) ==> Distance(FeedOnce(d, f)) >= Distance(d) - 1 || Distance(FeedOnce(d, f)) >= 253
  {
  }

  /** The run of `fs` holds no delivered feed from `j` up to, not including, `i`. */
  ghost predicate NoneDelivered(fs: seq<Feed>, j: nat, i: nat)
    requires i <= |fs|
  {
    forall k :: j <= k < i ==> !fs[k].delivered
  }

  lemma RunOne(d: Dog, fs: seq<Feed>, i: nat)
    requires i < |fs|
    ensures Run(d, fs[..i + 1]) == FeedOnce(Run(d, fs[..i]), fs[i])
  {
    assert fs[..i + 1][..i] == fs[..i];
  }

  lemma {:induction false} FarAfterLosses(d: Dog, fs: seq<Feed>, j: nat, i: nat)
    requires j < i <= |fs| && fs[j].delivered && NoneDelivered(fs, j + 1, i) && i - j - 1 <= 253
    ensures Run(d, fs[..i]).counter == Run(d, fs[..j + 1]).counter
    ensures Distance(Run(d, fs[..i])) >= 254 - (i - j - 1)
    decreases i
  {
    if i == j + 1 {
      RunOne(d, fs, j);
    } else {
      FarAfterLosses(d, fs, j, i - 1);
      RunOne(d, fs, i - 1);
      LostFeed(Run(d, fs[..i - 1]), fs[i - 1]);
    }
  }

  /** With at most 253 writes lost in a row, every delivered feed after a delivered one changes the register,
      whichever reads fail and whatever state the pair started in. */
  lemma DeliveredFeedChanges(d: Dog, fs: seq<Feed>, j: nat, i: nat)
    requires j < i < |fs| && fs[j].delivered && fs[i].delivered && NoneDelivered(fs, j + 1, i) && i - j - 1 <= 253
    ensures Run(d, fs[..i + 1]).counter != Run(d, fs[..i]).counter
  {
    FarAfterLosses(d, fs, j, i);
    RunOne(d, fs, i);
  }

  lemma {:induction false} CountsUp(v: byte, n: nat)
    requires 1 + n <= 0xFF
    ensures Run(Dog(1, v), seq(n, _ => Feed(false, false))) == Dog(1 + n, v)
  {
    var fs := seq(n, _ => Feed(false, false));
    if n == 0 {
    } else {
      assert fs[..n - 1] == seq(n - 1, _ => Feed(false, false));
      CountsUp(v, n - 1);
    }
  }

  lemma {:induction false} RunAppend(d: Dog, a: seq<Feed>, b: seq<Feed>)
    ensures Run(d, a + b) == Run(Run(d, a), b)
    decreases |b|
  {
    if b == [] {
      assert a + b == a;
    } else {
      var n := |b| - 1;
      assert (a + b)[..|a + b| - 1] == a + b[..n];
      RunAppend(d, a, b[..n]);
    }
  }

  /** 254 lost writes with a failed read-back bring the same value round: the feed is delivered unseen. */
  lemma LimitReached(n: nat) returns (d: Dog, fs: seq<Feed>)
    requires n >= 254
    ensures |fs| == 256 && fs[0].delivered && fs[255].delivered && NoneDelivered(fs, 1, 255)
    ensures Run(d, fs[..256]).counter == Run(d, fs[..255]).counter
  {
    d := Dog(UNKNOWN, 0);
    var lost := seq(254, _ => Feed(false, false));
    fs := [Feed(false, true)] + lost + [Feed(false, true)];
    assert fs[..1] == [Feed(false, true)] && fs[..255] == [Feed(false, true)] + lost && fs[..256] == fs;
    assert fs[..1][..0] == [];
    RunOne(d, fs, 0);
    assert Run(d, fs[..1]) == Dog(1, 0);
    RunAppend(d, fs[..1], lost);
    CountsUp(0, 254);
    RunOne(d, fs, 255);
  }

  /** Feeds j and i are delivered and at most `n` feeds between them, all lost. */
  ghost predicate Gap(fs: seq<Feed>, j: nat, i: nat, n: nat) {
    j < i < |fs| && fs[j].delivered && fs[i].delivered && NoneDelivered(fs, j + 1, i) && i - j - 1 <= n
  }

  ghost predicate Changes(d: Dog, fs: seq<Feed>, i: nat)
    requires i < |fs|
  {
    Run(d, fs[..i + 1]).counter != Run(d, fs[..i]).counter
  }

  /** 253 is the exact bound. */
  lemma LossLimit(n: nat)
    ensures (forall d, fs, j, i :: Gap(fs, j, i, n) ==> Changes(d, fs, i)) <==> n <= 253
  {
    if n <= 253 {
      forall d, fs, j, i | Gap(fs, j, i, n)
        ensures Changes(d, fs, i)
      {
        DeliveredFeedChanges(d, fs, j, i);
      }
    } else {
      var d, fs := LimitReached(n);
      assert Gap(fs, 0, 255, n) && !Changes(d, fs, 255);
    }
  }
}
