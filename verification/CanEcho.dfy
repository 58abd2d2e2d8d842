/**
 * The CAN echo loop of src/run.c over the block wrappers of src/rearview_mcu.c: receive a
 * block of sixteen-byte records, send it back in as many pieces as the send ring takes.
 */
module CanEcho {
  import opened Bits
  import opened Records
  import opened RemoteRing
  import RegWrCb
  import RingRuns

  const RECORD := 16           // sizeof(PCanMsg)
  const BLOCK := 60            // TEST_CAN_BUF_SIZE

  /** The bytes of `n` records as they go on the line: sixteen divides 2^16, so a count that wraps loses whole records. */
  function BlockLen(n: nat): u16 { U16(n * RECORD) }

  /** Every transaction from `at` to `end` works. */
  ghost predicate AllWorked(plan: Plan, at: nat, end: nat) { forall k :: at <= k < end ==> plan(k).Works? }

  lemma WorkedOn(plan: Plan, at: nat, mid: nat, end: nat)
    requires at <= mid <= end
    ensures AllWorked(plan, at, end) <==> AllWorked(plan, at, mid) && AllWorked(plan, mid, end)
  {
  }

  /** The claim on the first block, of a run that has made some calls: `records` came in and `echoed` went out. */
  ghost predicate FirstBlock(calls: nat, left: nat, worked: bool, records: nat, echoed: int, first: nat, room: nat) {
    worked && left < calls ==> records >= first && (calls >= 2 ==> echoed >= Min(first, room))
  }

  /** The most records that some bytes hold. */
  function Whole(bytes: nat): nat { bytes / RECORD }

  /** RVMcu_ReceiveCanMsgBlock, for every count */
  method ReceiveBlock(rx: Ring, msgs: array<byte>, cnt: nat) returns (ret: int)
    requires rx.Valid() && !rx.hostProduces && U16(cnt) * RECORD <= msgs.Length
    modifies rx, msgs
    ensures rx.Valid() && rx.overruns == old(rx.overruns) && ret <= U16(cnt)
    ensures ret >= 0 ==> BlockLen(ret) <= msgs.Length && rx.consumed == old(rx.consumed) + msgs[..BlockLen(ret)]
    ensures ret < 0 ==> msgs[..] == old(msgs[..]) && (rx.consumed != old(rx.consumed) ==> rx.repliesMayVanish)
    ensures rx.Answered(ret) && rx.tick <= old(rx.tick) + 2
    ensures ret >= 0 ==> ret >= Min(U16(cnt), Whole(old(|rx.q|)))
    ensures BlockLen(U16(cnt)) == U16(cnt) * RECORD && ret >= 0 ==> BlockLen(ret) == ret * RECORD
  {
    hide RingRuns.IsCall, GranLen, GranCount;
    ghost var seen;
    ret, seen := RegWrCb.GranRead(rx, msgs, RECORD, cnt);
    Computed(seen, RECORD, cnt);
  }

  /** RVMcu_SendCanMsgBlock on the records from `at`, for every count */
  method SendBlock(tx: Ring, msgs: array<byte>, at: nat, cnt: nat) returns (ret: int)
    requires tx.Valid() && tx.hostProduces && at * RECORD + U16(cnt) * RECORD <= msgs.Length
    modifies tx
    ensures tx.Valid() && tx.overruns == old(tx.overruns) && ret <= U16(cnt)
    ensures ret >= 0 ==>
              && at * RECORD + BlockLen(ret) <= msgs.Length
              && tx.produced == old(tx.produced) + msgs[at * RECORD..at * RECORD + BlockLen(ret)]
    ensures ret < 0 && tx.produced != old(tx.produced) ==> tx.repliesMayVanish
    ensures tx.Answered(ret) && tx.tick <= old(tx.tick) + 2
    ensures ret >= 0 ==> ret >= Min(U16(cnt), Whole(old(tx.cap - |tx.q|)))
    ensures BlockLen(U16(cnt)) == U16(cnt) * RECORD && ret >= 0 ==> BlockLen(ret) == ret * RECORD
  {
    hide RingRuns.IsCall, GranLen, GranCount;
    ghost var seen;
    ret, seen := RegWrCb.GranWrite(tx, msgs, at * RECORD, RECORD, cnt);
    Computed(seen, RECORD, cnt);
  }

  /** What is still to be sent is the unsent part of the current block, and both streams are whole records. */
  ghost predicate Echoed(received: seq<byte>, sent: seq<byte>, unsent: seq<byte>, records: nat, left: nat) {
    && received == sent + unsent
    && |received| == records * RECORD
    && |unsent| == left * RECORD && left <= BLOCK
  }

  lemma EchoedSummary(received: seq<byte>, sent: seq<byte>, unsent: seq<byte>, records: nat, left: nat)
    requires Echoed(received, sent, unsent, records, left)
    ensures sent <= received && |received| - |sent| <= BLOCK * RECORD
    ensures |sent| % RECORD == 0 && |received| % RECORD == 0 && |received| / RECORD == records
  {
    assert |sent| == (records - left) * RECORD;
  }

  /** A turn of the loop that starts with nothing unsent. */
  lemma RoundAdds(received: seq<byte>, sent: seq<byte>, unsent: seq<byte>, records: nat, left: nat,
                  piece: seq<byte>, rest: seq<byte>, n: nat)
    requires Echoed(received, sent, unsent, records, left) && unsent == []
    requires |piece + rest| == n * RECORD && |rest| % RECORD == 0 && n <= BLOCK
    ensures Echoed(received + (piece + rest), sent + piece, rest, records + n, |rest| / RECORD)
  {
    assert received + (piece + rest) == sent + piece + rest;
    assert |rest| == |rest| / RECORD * RECORD;
  }

  lemma CountAdds(records: nat, n: nat)
    ensures (records % WORD + n) % WORD == (records + n) % WORD
  {
  }

  /** fun_loop_can_echo_test, watched for `calls` ring operations, which may fall anywhere in either loop.
      `received` and `sent` are what passed through the two rings meanwhile. While no transaction fails, the first block
      is as large, and as much of it is echoed at once, as the rings allow. */
  method EchoTest(rx: Ring, tx: Ring, calls: nat) returns (count: nat, ghost received: seq<byte>, ghost sent: seq<byte>)
    requires rx.Valid() && !rx.hostProduces && !rx.repliesMayVanish
    requires tx.Valid() && tx.hostProduces && !tx.repliesMayVanish && rx != tx
    modifies rx, tx
    ensures rx.consumed == old(rx.consumed) + received && tx.produced == old(tx.produced) + sent
    ensures sent <= received
    ensures |received| - |sent| <= 60 * 16
    ensures |sent| % 16 == 0 && |received| % 16 == 0
    ensures count == |received| / 16 % WORD
    ensures rx.overruns == old(rx.overruns) && tx.overruns == old(tx.overruns)
    ensures calls <= rx.tick - old(rx.tick) + tx.tick - old(tx.tick) <= 2 * calls
    ensures var first := Min(BLOCK, Whole(old(|rx.q|)));
            AllWorked(rx.plan, old(rx.tick), rx.tick) && AllWorked(tx.plan, old(tx.tick), tx.tick) ==>
              && (calls >= 1 ==> |received| >= first * RECORD)
              && (calls >= 2 ==> |sent| >= Min(first, Whole(old(tx.cap - |tx.q|))) * RECORD)
  {
    var msgs := new byte[BLOCK * RECORD](_ => 0);
    count, received, sent := 0, [], [];
    ghost var unsent: seq<byte>, records: nat, pending: nat := [], 0, 0;
    ghost var first: nat, room: nat := Min(BLOCK, Whole(|rx.q|)), Whole(tx.cap - |tx.q|);
    ghost var rxAt, txAt := rx.tick, tx.tick;
    var left: nat := calls;
    while left > 0
      invariant rx.Valid() && tx.Valid() && fresh(msgs)
      invariant rx.overruns == old(rx.overruns) && tx.overruns == old(tx.overruns)
      invariant rx.consumed == old(rx.consumed) + received && tx.produced == old(tx.produced) + sent
      invariant Echoed(received, sent, unsent, records, pending) && count == records % WORD
      invariant left > 0 ==> unsent == [] && pending == 0
      invariant left == calls ==> rx.q == old(rx.q) && tx.q == old(tx.q) && records == 0
      invariant left <= calls && calls - left <= rx.tick - rxAt + tx.tick - txAt <= 2 * (calls - left)
      invariant rxAt <= rx.tick && txAt <= tx.tick
      invariant FirstBlock(calls, left, AllWorked(rx.plan, rxAt, rx.tick) && AllWorked(tx.plan, txAt, tx.tick),
                           records, records - pending, first, room)
    {
      hide Echoed, AllWorked, Whole;
      ghost var rxMid, txMid := rx.tick, tx.tick;
      var n;
      ghost var piece, rest;
      n, left, piece, rest := Round(rx, tx, msgs, left);
      WorkedOn(rx.plan, rxAt, rxMid, rx.tick);
      WorkedOn(tx.plan, txAt, txMid, tx.tick);
      RoundAdds(received, sent, unsent, records, pending, piece, rest, n);
      CountAdds(records, n);
      count := (count + n) % WORD;
      received, records := received + (piece + rest), records + n;
      sent, unsent, pending := sent + piece, rest, |rest| / RECORD;
    }
    EchoedSummary(received, sent, unsent, records, pending);
  }

  /** One turn of the outer loop: `n` records came in, `piece` of them went out and `rest` did not. */
  method Round(rx: Ring, tx: Ring, msgs: array<byte>, calls: nat)
    returns (n: nat, left: nat, ghost piece: seq<byte>, ghost rest: seq<byte>)
    requires rx.Valid() && !rx.hostProduces && !rx.repliesMayVanish
    requires tx.Valid() && tx.hostProduces && !tx.repliesMayVanish && rx != tx
    requires msgs.Length == BLOCK * RECORD && calls > 0
    modifies rx, tx, msgs
    ensures rx.Valid() && tx.Valid() && left < calls
    ensures rx.overruns == old(rx.overruns) && tx.overruns == old(tx.overruns)
    ensures rx.consumed == old(rx.consumed) + (piece + rest) && tx.produced == old(tx.produced) + piece
    ensures |piece + rest| == n * RECORD && |rest| % RECORD == 0 && n <= BLOCK
    ensures left > 0 ==> rest == []
    ensures calls - left <= rx.tick - old(rx.tick) + tx.tick - old(tx.tick) <= 2 * (calls - left)
    ensures old(rx.tick) <= rx.tick && old(tx.tick) <= tx.tick
    ensures AllWorked(rx.plan, old(rx.tick), rx.tick) && AllWorked(tx.plan, old(tx.tick), tx.tick) ==>
              && n >= Min(BLOCK, Whole(old(|rx.q|)))
              && (calls >= 2 ==> |piece| / RECORD >= Min(n, Whole(old(tx.cap - |tx.q|))))
  {
    n, left, piece, rest := 0, calls - 1, [], [];
    var ret := ReceiveBlock(rx, msgs, BLOCK);
    if ret < 0 { return; }
    if ret == 0 {
      assert msgs[..0] == [];
      return;
    }
    n := ret;
    var pos;
    pos, left, piece := Resend(tx, msgs, n, left);
    rest := msgs[pos * RECORD..n * RECORD];
    assert msgs[..n * RECORD] == piece + rest;
    assert |rest| == (n - pos) * RECORD;
  }

  /** The inner loop: pushes msgs[..end] out, retrying failures, until all is sent or the watch ends. */
  method Resend(tx: Ring, msgs: array<byte>, end: nat, calls: nat) returns (pos: nat, left: nat, ghost piece: seq<byte>)
    requires tx.Valid() && tx.hostProduces && !tx.repliesMayVanish
    requires end <= BLOCK && end * RECORD <= msgs.Length
    modifies tx
    ensures tx.Valid() && tx.overruns == old(tx.overruns)
    ensures pos <= end && left <= calls && (left > 0 ==> pos == end)
    ensures piece == msgs[..pos * RECORD] && tx.produced == old(tx.produced) + piece
    ensures calls - left <= tx.tick - old(tx.tick) <= 2 * (calls - left)
    ensures calls > 0 && AllWorked(tx.plan, old(tx.tick), tx.tick) ==> pos >= Min(end, Whole(old(tx.cap - |tx.q|)))
  {
    pos, left, piece := 0, calls, [];
    ghost var all := msgs[..];
    while pos < end && left > 0
      invariant tx.Valid() && tx.overruns == old(tx.overruns) && msgs[..] == all
      invariant pos <= end && left <= calls
      invariant piece == all[..pos * RECORD] && tx.produced == old(tx.produced) + piece
      invariant calls - left <= tx.tick - old(tx.tick) <= 2 * (calls - left)
      invariant left == calls ==> pos == 0 && tx.q == old(tx.q)
      invariant left < calls && AllWorked(tx.plan, old(tx.tick), tx.tick) ==>
                  pos >= Min(end, Whole(old(tx.cap - |tx.q|)))
      decreases left
    {
      left := left - 1;
      var ret, sent := SendPiece(tx, msgs, pos, end);
      if ret < 0 { continue; }
      piece := piece + sent;
      pos := pos + ret;
    }
  }

  /** One send of what is left of a block. */
  method SendPiece(tx: Ring, msgs: array<byte>, pos: nat, end: nat) returns (ret: int, ghost sent: seq<byte>)
    requires tx.Valid() && tx.hostProduces && !tx.repliesMayVanish
    requires pos < end <= BLOCK && end * RECORD <= msgs.Length
    modifies tx
    ensures tx.Valid() && tx.overruns == old(tx.overruns) && pos + ret <= end
    ensures tx.produced == old(tx.produced) + sent
    ensures tx.Answered(ret) && tx.tick <= old(tx.tick) + 2
    ensures ret >= 0 ==> ret >= Min(end - pos, Whole(old(tx.cap - |tx.q|)))
    ensures if ret < 0 then sent == [] else msgs[..][..pos * RECORD] + sent == msgs[..][..(pos + ret) * RECORD]
  {
    assert pos * RECORD + (end - pos) * RECORD == end * RECORD;
    ret := SendBlock(tx, msgs, pos, end - pos);
    sent := [];
    if ret >= 0 {
      assert (pos + ret) * RECORD == pos * RECORD + ret * RECORD;
      sent := msgs[pos * RECORD..(pos + ret) * RECORD];
    }
  }
}
