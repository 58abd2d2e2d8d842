/**
 * Every interleaving of the host's two-transaction ring operations with an MCU that keeps
 * moving data at its own end: one producer and one consumer a ring, as the two CAN rings
 * and the burn ring are used.
 */
module RingRuns {
  import opened Bits
  import opened Records

  datatype Role = HostReads | HostWrites

  /** What becomes of a transfer: it works, it has no effect, or only its reply is lost. */
  datatype Fate = Done | NoEffect | ReplyLost

  datatype Host = Resting | Granted(len: nat)

  datatype Step =
    | McuMoves(bytes: seq<byte>, n: nat)  // enqueue `bytes`, or dequeue `n`
    | Query(nmemb: nat)
    | QueryFails
    | Transfer(bytes: seq<byte>, fate: Fate)

  /** `acked` is what the host believes it has read, or has written. */
  datatype State = State(
    cap: nat, q: seq<byte>, produced: seq<byte>, consumed: seq<byte>,
    host: Host, acked: seq<byte>, lost: nat, overran: bool)

  function Init(cap: nat): State { State(cap, [], [], [], Resting, [], 0, false) }

  /** What the size register matching the host's role answers. */
  function Available(role: Role, s: State): nat {
    if role == HostReads then |s.q| else if |s.q| <= s.cap then s.cap - |s.q| else 0
  }

  predicate Enabled(role: Role, s: State, step: Step) {
    match step
    case McuMoves(bytes, n) => if role == HostReads then |s.q| + |bytes| <= s.cap else n <= |s.q|
    case Query(_) => s.host.Resting?
    case QueryFails => s.host.Resting?
    case Transfer(bytes, _) => s.host.Granted? && (role == HostWrites ==> |bytes| == s.host.len)
  }

  function Do(role: Role, gran: nat, s: State, step: Step): State
    requires gran > 0 && Enabled(role, s, step)
  {
    match step
    case McuMoves(bytes, n) =>
      if role == HostReads then s.(q := s.q + bytes, produced := s.produced + bytes)
      else s.(q := s.q[n..], consumed := s.consumed + s.q[..n])
    case Query(nmemb) =>
      var seen := Available(role, s);
      if GranCount(seen, gran, nmemb) == 0 then s else s.(host := Granted(GranLen(seen, gran, nmemb)))
    case QueryFails => s
    case Transfer(bytes, fate) =>
      var t := s.(host := Resting);
      if s.host.len > Available(role, s) then t.(overran := true)
      else if fate == NoEffect then t
      else if role == HostReads then
        var got := s.q[..s.host.len];
        var u := t.(q := s.q[s.host.len..], consumed := s.consumed + got);
        if fate == Done then u.(acked := s.acked + got) else u.(lost := s.lost + |got|)
      else
        var u := t.(q := s.q + bytes, produced := s.produced + bytes);
        if fate == Done then u.(acked := s.acked + bytes) else u.(lost := s.lost + |bytes|)
  }

  predicate Possible(role: Role, gran: nat, s: State, steps: seq<Step>)
    requires gran > 0
    decreases steps
  {
    steps == [] ||
    (Enabled(role, s, steps[0]) && Possible(role, gran, Do(role, gran, s, steps[0]), steps[1..]))
  }

  function Run(role: Role, gran: nat, s: State, steps: seq<Step>): State
    requires gran > 0 && Possible(role, gran, s, steps)
    decreases steps
  {
    if steps == [] then s else Run(role, gran, Do(role, gran, s, steps[0]), steps[1..])
  }

  /** The host's end of the ring: where its transfers show. */
  function HostEnd(role: Role, s: State): seq<byte> {
    if role == HostReads then s.consumed else s.produced
  }

  ghost predicate Inv(role: Role, s: State) {
    && |s.q| <= s.cap && s.produced == s.consumed + s.q
    && !s.overran
    && (s.host.Granted? ==> s.host.len <= Available(role, s))
    && |HostEnd(role, s)| == |s.acked| + s.lost
    && (s.lost == 0 ==> HostEnd(role, s) == s.acked)
  }

  lemma InvReadTransfer(gran: nat, s: State, step: Step)
    requires gran > 0 && Inv(HostReads, s) && step.Transfer? && Enabled(HostReads, s, step)
    ensures Inv(HostReads, Do(HostReads, gran, s, step))
  {
    assert s.consumed + s.q[..s.host.len] + s.q[s.host.len..] == s.produced;
  }

  lemma InvWriteTransfer(gran: nat, s: State, step: Step)
    requires gran > 0 && Inv(HostWrites, s) && step.Transfer? && Enabled(HostWrites, s, step)
    ensures Inv(HostWrites, Do(HostWrites, gran, s, step))
  {
    assert s.consumed + (s.q + step.bytes) == s.produced + step.bytes;
  }

  lemma InvMcuMoves(role: Role, gran: nat, s: State, step: Step)
    requires gran > 0 && Inv(role, s) && step.McuMoves? && Enabled(role, s, step)
    ensures Inv(role, Do(role, gran, s, step))
  {
    if role == HostWrites {
      assert s.consumed + s.q[..step.n] + s.q[step.n..] == s.produced;
    }
  }

  lemma InvStep(role: Role, gran: nat, s: State, step: Step)
    requires gran > 0 && Inv(role, s) && Enabled(role, s, step)
    ensures Inv(role, Do(role, gran, s, step)) && Do(role, gran, s, step).cap == s.cap
  {
    match step
    case McuMoves(_, _) => InvMcuMoves(role, gran, s, step);
    case Query(nmemb) => GranFits(Available(role, s), gran, nmemb);
    case QueryFails =>
    case Transfer(_, _) =>
      if role == HostReads { InvReadTransfer(gran, s, step); } else { InvWriteTransfer(gran, s, step); }
  }

  lemma {:induction false} InvRun(role: Role, gran: nat, s: State, steps: seq<Step>)
    requires gran > 0 && Inv(role, s) && Possible(role, gran, s, steps)
    ensures Inv(role, Run(role, gran, s, steps)) && Run(role, gran, s, steps).cap == s.cap
    decreases steps
  {
    if steps == [] {
    } else {
      InvStep(role, gran, s, steps[0]);
      InvRun(role, gran, Do(role, gran, s, steps[0]), steps[1..]);
    }
  }

  /** No interleaving makes a host transfer ask for more than the ring then holds, or has room for. */
  lemma NeverOverruns(role: Role, gran: nat, cap: nat, steps: seq<Step>)
    requires gran > 0 && Possible(role, gran, Init(cap), steps)
    ensures !Run(role, gran, Init(cap), steps).overran
    ensures |Run(role, gran, Init(cap), steps).q| <= cap
  {
    InvRun(role, gran, Init(cap), steps);
  }

  // ------------------------------------------------------------ in order, once

  lemma {:induction false} LostGrows(role: Role, gran: nat, s: State, steps: seq<Step>)
    requires gran > 0 && Possible(role, gran, s, steps)
    requires forall i :: 0 <= i < |steps| && steps[i].Transfer? ==> steps[i].fate != ReplyLost
    ensures Run(role, gran, s, steps).lost == s.lost
    decreases steps
  {
    if steps == [] {
    } else {
      LostGrows(role, gran, Do(role, gran, s, steps[0]), steps[1..]);
    }
  }

  /** While no reply is lost, the bytes the host has read are a prefix of the bytes the MCU has produced. */
  lemma ReadsInOrder(gran: nat, cap: nat, steps: seq<Step>)
    requires gran > 0 && Possible(HostReads, gran, Init(cap), steps)
    requires forall i :: 0 <= i < |steps| && steps[i].Transfer? ==> steps[i].fate != ReplyLost
    ensures var s := Run(HostReads, gran, Init(cap), steps); s.acked <= s.produced && s.produced == s.acked + s.q
  {
    InvRun(HostReads, gran, Init(cap), steps);
    LostGrows(HostReads, gran, Init(cap), steps);
  }

  /** While no reply is lost, the bytes the MCU has consumed are a prefix of the bytes the host has written. */
  lemma WritesInOrder(gran: nat, cap: nat, steps: seq<Step>)
    requires gran > 0 && Possible(HostWrites, gran, Init(cap), steps)
    requires forall i :: 0 <= i < |steps| && steps[i].Transfer? ==> steps[i].fate != ReplyLost
    ensures var s := Run(HostWrites, gran, Init(cap), steps); s.consumed <= s.acked && s.acked == s.consumed + s.q
  {
    InvRun(HostWrites, gran, Init(cap), steps);
    LostGrows(HostWrites, gran, Init(cap), steps);
  }

  /** In any run, what the host was told differs from what its end of the ring saw exactly when a reply
      carrying data was lost; the byte counts differ by precisely the lost amount. */
  lemma LossAccounting(role: Role, gran: nat, cap: nat, steps: seq<Step>)
    requires gran > 0 && Possible(role, gran, Init(cap), steps)
    ensures var s := Run(role, gran, Init(cap), steps);
            && |HostEnd(role, s)| == |s.acked| + s.lost
            && (HostEnd(role, s) == s.acked <==> s.lost == 0)
  {
    InvRun(role, gran, Init(cap), steps);
  }

  /** One lost read reply is enough: the bytes are gone from the ring and were never delivered. */
  lemma LostReplyDropsData(x: byte)
    ensures var steps := [McuMoves([x], 0), Query(1), Transfer([], ReplyLost)];
            && Possible(HostReads, 1, Init(1), steps)
            && Run(HostReads, 1, Init(1), steps).consumed == [x]
            && Run(HostReads, 1, Init(1), steps).acked == []
  {
    var steps := [McuMoves([x], 0), Query(1), Transfer([], ReplyLost)];
    var s0 := Init(1);
    var s1 := Do(HostReads, 1, s0, steps[0]);
    var s2 := Do(HostReads, 1, s1, steps[1]);
    var s3 := Do(HostReads, 1, s2, steps[2]);
    assert s2.host == Granted(1);
    assert s3.consumed == [x] && s3.acked == [];
    assert steps[1..] == [steps[1], steps[2]] && steps[1..][1..] == [steps[2]] && [steps[2]][1..] == [];
    assert Possible(HostReads, 1, s3, []);
    assert Possible(HostReads, 1, s2, [steps[2]]) && Run(HostReads, 1, s2, [steps[2]]) == s3;
    assert Possible(HostReads, 1, s1, steps[1..]) && Run(HostReads, 1, s1, steps[1..]) == s3;
  }

  // ------------------------------------------------------------ whole records

  /** Every request is one that keeps to whole records. */
  ghost predicate SafeRequests(gran: nat, steps: seq<Step>)
    requires gran > 0
  {
    forall i :: 0 <= i < |steps| && steps[i].Query? ==> KeepsBoundaries(gran, steps[i].nmemb)
  }

  ghost predicate Aligned(role: Role, gran: nat, s: State, records: nat) {
    && |HostEnd(role, s)| == records * gran
    && (s.host.Granted? ==> exists k: nat :: s.host.len == k * gran)
  }

  /** A step moves the host's end by the granted length or not at all. */
  lemma EndMoves(role: Role, gran: nat, s: State, step: Step)
    requires gran > 0 && Inv(role, s) && Enabled(role, s, step)
    ensures var s' := Do(role, gran, s, step);
            var d := |HostEnd(role, s')| - |HostEnd(role, s)|;
            && (d == 0 || (step.Transfer? && d == s.host.len))
            && (s'.host.Granted? && !step.Query? ==> s'.host == s.host)
  {
  }

  lemma AlignedStep(role: Role, gran: nat, s: State, step: Step, records: nat) returns (records': nat)
    requires gran > 0 && Inv(role, s) && s.cap <= INT_MAX && Enabled(role, s, step) && Aligned(role, gran, s, records)
    requires step.Query? ==> KeepsBoundaries(gran, step.nmemb)
    ensures Aligned(role, gran, Do(role, gran, s, step), records')
  {
    var s' := Do(role, gran, s, step);
    EndMoves(role, gran, s, step);
    records' := records;
    if step.Query? {
      var k := QueryAligned(role, gran, s, step);
    } else {
      hide Do, HostEnd, Inv;
      if |HostEnd(role, s')| != |HostEnd(role, s)| {
        var k: nat :| s.host.len == k * gran;
        records' := records + k;
        assert records' * gran == records * gran + k * gran;
      }
    }
  }

  lemma QueryAligned(role: Role, gran: nat, s: State, step: Step) returns (k: nat)
    requires gran > 0 && step.Query? && Enabled(role, s, step) && KeepsBoundaries(gran, step.nmemb)
    requires |s.q| <= s.cap <= INT_MAX
    ensures var h := Do(role, gran, s, step).host; h == Resting || h == Granted(k * gran)
  {
    hide GranCount, GranLen, KeepsBoundaries;
    k := WholeMultiple(Available(role, s), gran, step.nmemb);
  }

  lemma {:induction false} AlignedRun(role: Role, gran: nat, s: State, steps: seq<Step>, records: nat)
    returns (records': nat)
    requires gran > 0 && Inv(role, s) && s.cap <= INT_MAX && Possible(role, gran, s, steps)
    requires Aligned(role, gran, s, records) && SafeRequests(gran, steps)
    ensures Aligned(role, gran, Run(role, gran, s, steps), records')
    decreases steps
  {
    hide KeepsBoundaries, Do, Inv, Aligned;
    records' := records;
    if steps == [] {
    } else {
      assert steps[0].Query? ==> KeepsBoundaries(gran, steps[0].nmemb);
      records' := AlignedStep(role, gran, s, steps[0], records);
      InvStep(role, gran, s, steps[0]);
      assert forall i :: 0 <= i < |steps[1..]| ==> steps[1..][i] == steps[i + 1];
      records' := AlignedRun(role, gran, Do(role, gran, s, steps[0]), steps[1..], records');
    }
  }

  /** While every request keeps to whole records, the host's end of the ring always stands between two of them, lost
      replies included. */
  lemma RecordBoundaries(role: Role, gran: nat, cap: nat, steps: seq<Step>) returns (records: nat)
    requires gran > 0 && cap <= INT_MAX && Possible(role, gran, Init(cap), steps) && SafeRequests(gran, steps)
    ensures |HostEnd(role, Run(role, gran, Init(cap), steps))| == records * gran
  {
    assert Aligned(role, gran, Init(cap), 0);
    records := AlignedRun(role, gran, Init(cap), steps, 0);
  }

  function Bytes(n: nat): (s: seq<byte>)
    ensures |s| == n
  {
    seq(n, _ => 0)
  }

  /** For any other request there is a run that leaves the host's end inside a record. */
  lemma MisalignedRun(role: Role, gran: nat, nmemb: nat) returns (cap: nat, steps: seq<Step>)
    requires gran > 0 && !KeepsBoundaries(gran, nmemb)
    ensures cap <= INT_MAX && Possible(role, gran, Init(cap), steps)
    ensures forall i :: 0 <= i < |steps| && steps[i].Query? ==> steps[i].nmemb == nmemb
    ensures |HostEnd(role, Run(role, gran, Init(cap), steps))| % gran != 0
  {
    hide GranLen, GranCount, KeepsBoundaries;
    cap := EndsInside(gran, nmemb);
    var len := GranLen(cap, gran, nmemb);
    GranFits(cap, gran, nmemb);
    var fill, query := McuMoves(if role == HostReads then Bytes(cap) else [], 0), Query(nmemb);
    var transfer := Transfer(if role == HostReads then [] else Bytes(len), Done);
    steps := [fill, query, transfer];
    var s1 := Do(role, gran, Init(cap), fill);
    var s2 := Do(role, gran, s1, query);
    assert s2.host == Granted(len);
    var s3 := Do(role, gran, s2, transfer);
    assert |HostEnd(role, s3)| == len;
    RunThree(role, gran, Init(cap), fill, query, transfer);
  }

  lemma RunThree(role: Role, gran: nat, s: State, a: Step, b: Step, c: Step)
    requires gran > 0 && Enabled(role, s, a) && Enabled(role, Do(role, gran, s, a), b)
    requires Enabled(role, Do(role, gran, Do(role, gran, s, a), b), c)
    ensures Possible(role, gran, s, [a, b, c])
    ensures Run(role, gran, s, [a, b, c]) == Do(role, gran, Do(role, gran, Do(role, gran, s, a), b), c)
  {
    hide Enabled, Do;
    assert [a, b, c][1..] == [b, c] && [b, c][1..] == [c] && [c][1..] == [];
    var s1 := Do(role, gran, s, a);
    var s2 := Do(role, gran, s1, b);
    assert Possible(role, gran, Do(role, gran, s2, c), []);
    assert Possible(role, gran, s2, [c]) && Run(role, gran, s2, [c]) == Do(role, gran, s2, c);
    assert Possible(role, gran, s1, [b, c]) && Run(role, gran, s1, [b, c]) == Run(role, gran, s2, [c]);
  }

  /** Requests for `nmemb` records keep the host's end between records in every run exactly when the byte count cannot
      wrap, or wraps by whole records, or no record can be queued at all. */
  lemma BoundariesExactly(role: Role, gran: nat, nmemb: nat)
    requires gran > 0
    ensures (forall cap: nat, steps: seq<Step> ::
               && cap <= INT_MAX && Possible(role, gran, Init(cap), steps)
               && (forall i :: 0 <= i < |steps| && steps[i].Query? ==> steps[i].nmemb == nmemb)
               ==> |HostEnd(role, Run(role, gran, Init(cap), steps))| % gran == 0)
            <==> KeepsBoundaries(gran, nmemb)
  {
    hide KeepsBoundaries, HostEnd, Run, Possible;
    if KeepsBoundaries(gran, nmemb) {
      forall cap: nat, steps: seq<Step> | && cap <= INT_MAX && Possible(role, gran, Init(cap), steps)
                                && (forall i :: 0 <= i < |steps| && steps[i].Query? ==> steps[i].nmemb == nmemb)
        ensures |HostEnd(role, Run(role, gran, Init(cap), steps))| % gran == 0
      {
        assert SafeRequests(gran, steps);
        var records := RecordBoundaries(role, gran, cap, steps);
        DivModUnique(records * gran, records, 0, gran);
      }
    } else {
      var cap, steps := MisalignedRun(role, gran, nmemb);
    }
  }

  /** The sixteen-byte records of this program keep their boundaries in every run, whatever is asked for. */
  lemma SixteenAlways(role: Role, cap: nat, steps: seq<Step>) returns (records: nat)
    requires cap <= INT_MAX && Possible(role, 16, Init(cap), steps)
    ensures |HostEnd(role, Run(role, 16, Init(cap), steps))| == records * 16
  {
    forall i | 0 <= i < |steps| && steps[i].Query?
      ensures KeepsBoundaries(16, steps[i].nmemb)
    {
      SixteenAndTwelve(steps[i].nmemb);
    }
    records := RecordBoundaries(role, 16, cap, steps);
  }

  /** A request for 5462 records of twelve bytes can lose them. */
  lemma TwelveMisaligns(role: Role) returns (cap: nat, steps: seq<Step>)
    ensures cap <= INT_MAX && Possible(role, 12, Init(cap), steps)
    ensures forall i :: 0 <= i < |steps| && steps[i].Query? ==> steps[i].nmemb == 5462
    ensures |HostEnd(role, Run(role, 12, Init(cap), steps))| % 12 != 0
  {
    SixteenAndTwelve(0);
    hide KeepsBoundaries;
    cap, steps := MisalignedRun(role, 12, 5462);
  }

  // ------------------------------------------------------------ one call

  /** The host's own steps of a run. */
  function HostSteps(steps: seq<Step>): seq<Step> {
    if steps == [] then []
    else (if steps[0].McuMoves? then [] else [steps[0]]) + HostSteps(steps[1..])
  }

  /** A call asks once, and transfers at most once if it was answered. */
  predicate OneCall(nmemb: nat, host: seq<Step>) {
    || host == [QueryFails] || host == [Query(nmemb)]
    || (|host| == 2 && host[0] == Query(nmemb) && host[1].Transfer?)
  }

  /** From s to t is one call of a ring operation for `nmemb` records, with the MCU running meanwhile. */
  ghost predicate IsCall(role: Role, gran: nat, nmemb: nat, s: State, t: State)
    requires gran > 0
  {
    exists steps ::
      Possible(role, gran, s, steps) && Run(role, gran, s, steps) == t && OneCall(nmemb, HostSteps(steps))
  }

  /** The state seen from outside between two calls. */
  function View(cap: nat, q: seq<byte>, produced: seq<byte>, consumed: seq<byte>, acked: seq<byte>, lost: nat): State {
    State(cap, q, produced, consumed, Resting, acked, lost, false)
  }

  lemma RunOne(role: Role, gran: nat, s: State, a: Step)
    requires gran > 0 && Enabled(role, s, a)
    ensures Possible(role, gran, s, [a]) && Run(role, gran, s, [a]) == Do(role, gran, s, a)
  {
    hide Enabled, Do;
    assert [a][1..] == [];
    assert Possible(role, gran, Do(role, gran, s, a), []);
  }

  lemma {:induction false} RunConcat(role: Role, gran: nat, s: State, a: seq<Step>, b: seq<Step>)
    requires gran > 0 && Possible(role, gran, s, a) && Possible(role, gran, Run(role, gran, s, a), b)
    ensures Possible(role, gran, s, a + b) && Run(role, gran, s, a + b) == Run(role, gran, Run(role, gran, s, a), b)
    decreases a
  {
    hide Enabled, Do;
    if a == [] {
      assert a + b == b;
    } else {
      assert (a + b)[1..] == a[1..] + b;
      RunConcat(role, gran, Do(role, gran, s, a[0]), a[1..], b);
    }
  }

  /** A call whose query fails. */
  lemma FailedQueryIsCall(role: Role, gran: nat, nmemb: nat, s: State, m: Step)
    requires gran > 0 && s.host.Resting? && m.McuMoves? && Enabled(role, s, m)
    ensures IsCall(role, gran, nmemb, s, Do(role, gran, s, m))
  {
    var t := Do(role, gran, s, m);
    RunOne(role, gran, s, m);
    RunOne(role, gran, t, QueryFails);
    RunConcat(role, gran, s, [m], [QueryFails]);
    assert [m] + [QueryFails] == [m, QueryFails] && [m, QueryFails][1..] == [QueryFails] && [QueryFails][1..] == [];
    assert HostSteps([QueryFails]) == [QueryFails] + HostSteps([]);
    assert HostSteps([m, QueryFails]) == [] + [QueryFails];
  }

  /** A call that finds nothing to transfer; the MCU may run on. */
  lemma EmptyAnswerIsCall(role: Role, gran: nat, nmemb: nat, s: State, m: Step, later: Step)
    requires gran > 0 && s.host.Resting? && m.McuMoves? && Enabled(role, s, m)
    requires GranCount(Available(role, Do(role, gran, s, m)), gran, nmemb) == 0
    requires later.McuMoves? && Enabled(role, Do(role, gran, s, m), later)
    ensures IsCall(role, gran, nmemb, s, Do(role, gran, Do(role, gran, s, m), later))
  {
    var t, query := Do(role, gran, s, m), Query(nmemb);
    RunThree(role, gran, s, m, query, later);
    var steps := [m, query, later];
    assert steps[1..] == [query, later] && [query, later][1..] == [later] && [later][1..] == [];
    assert HostSteps([later]) == [] + HostSteps([]);
    assert HostSteps([query, later]) == [query] + HostSteps([later]);
    assert HostSteps(steps) == [] + HostSteps([query, later]);
  }

  /** A call that transfers, with the MCU running before its query and after. */
  lemma TransferIsCall(role: Role, gran: nat, nmemb: nat, s: State, m: Step, transfer: Step, later: Step)
    requires gran > 0 && s.host.Resting? && m.McuMoves? && Enabled(role, s, m)
    requires var seen := Available(role, Do(role, gran, s, m));
             GranCount(seen, gran, nmemb) > 0
             && transfer.Transfer? && later.McuMoves?
             && var asked := Do(role, gran, s, m).(host := Granted(GranLen(seen, gran, nmemb)));
                Enabled(role, asked, transfer) && Enabled(role, Do(role, gran, asked, transfer), later)
    ensures var seen := Available(role, Do(role, gran, s, m));
            var asked := Do(role, gran, s, m).(host := Granted(GranLen(seen, gran, nmemb)));
            IsCall(role, gran, nmemb, s, Do(role, gran, Do(role, gran, asked, transfer), later))
  {
    hide GranLen, GranCount;
    var query := Query(nmemb);
    RunThree(role, gran, s, m, query, transfer);
    var moved := Run(role, gran, s, [m, query, transfer]);
    hide Do, Enabled, Available;
    RunOne(role, gran, moved, later);
    RunConcat(role, gran, s, [m, query, transfer], [later]);
    var steps := [m, query, transfer, later];
    assert [m, query, transfer] + [later] == steps;
    assert steps[1..] == [query, transfer, later] && steps[1..][1..] == [transfer, later];
    assert [transfer, later][1..] == [later] && [later][1..] == [];
    assert HostSteps([later]) == [] + HostSteps([]);
    assert HostSteps([transfer, later]) == [transfer] + HostSteps([later]);
    assert HostSteps([query, transfer, later]) == [query] + HostSteps([transfer, later]);
    assert HostSteps(steps) == [] + HostSteps([query, transfer, later]);
  }

  // ------------------------------------------------------------ calls from what they leave behind

  /** The ring between two calls, before anything is told. */
  predicate Between(s: State) {
    && |s.q| <= s.cap && s.produced == s.consumed + s.q
    && s.host == Resting && s.acked == [] && s.lost == 0 && !s.overran
  }

  predicate Settled(s: State, t: State) {
    t.cap == s.cap && |t.q| <= t.cap && t.produced == t.consumed + t.q && t.host == Resting && !t.overran
  }

  /** What the transfer of a call did to the host's end, which gained `got`. */
  predicate Outcome(s: State, t: State, fate: Fate, got: seq<byte>) {
    match fate
    case Done => t.acked == got && t.lost == 0
    case NoEffect => got == [] && t.acked == [] && t.lost == 0
    case ReplyLost => t.acked == [] && t.lost == |got|
  }

  lemma McuFills(gran: nat, s: State, bytes: seq<byte>)
    requires gran > 0 && |s.q| + |bytes| <= s.cap
    ensures var m := McuMoves(bytes, 0);
            && Enabled(HostReads, s, m)
            && Do(HostReads, gran, s, m) == s.(q := s.q + bytes, produced := s.produced + bytes)
  {
  }

  lemma McuDrains(gran: nat, s: State, n: nat)
    requires gran > 0 && n <= |s.q|
    ensures var m := McuMoves([], n);
            && Enabled(HostWrites, s, m)
            && Do(HostWrites, gran, s, m) == s.(q := s.q[n..], consumed := s.consumed + s.q[..n])
  {
  }

  lemma HostTakes(gran: nat, s: State, len: nat, fate: Fate)
    requires gran > 0 && len <= |s.q| && s.acked == [] && s.lost == 0
    ensures var t, got := s.(host := Granted(len)), s.q[..len];
            var u := s.(host := Resting, q := s.q[len..], consumed := s.consumed + got);
            && Enabled(HostReads, t, Transfer([], fate))
            && Do(HostReads, gran, t, Transfer([], fate))
               == match fate
                  case Done => u.(acked := got)
                  case NoEffect => s.(host := Resting)
                  case ReplyLost => u.(lost := len)
  {
  }

  lemma HostPuts(gran: nat, s: State, bytes: seq<byte>, fate: Fate)
    requires gran > 0 && |s.q| + |bytes| <= s.cap && s.acked == [] && s.lost == 0
    ensures var t := s.(host := Granted(|bytes|));
            var u := s.(host := Resting, q := s.q + bytes, produced := s.produced + bytes);
            && Enabled(HostWrites, t, Transfer(bytes, fate))
            && Do(HostWrites, gran, t, Transfer(bytes, fate))
               == match fate
                  case Done => u.(acked := bytes)
                  case NoEffect => s.(host := Resting)
                  case ReplyLost => u.(lost := |bytes|)
  {
  }

  /** A reading call, from the produced bytes at its query. */
  lemma ReadIsCall(gran: nat, nmemb: nat, s: State, asked: seq<byte>, t: State, fate: Fate, got: seq<byte>)
    requires gran > 0 && Between(s) && Settled(s, t) && Outcome(s, t, fate, got)
    requires s.produced <= asked <= t.produced && |asked| - |s.consumed| <= s.cap && t.consumed == s.consumed + got
    requires var seen := |asked| - |s.consumed|;
             GranCount(seen, gran, nmemb) > 0 && (fate != NoEffect ==> |got| == GranLen(seen, gran, nmemb))
    ensures IsCall(HostReads, gran, nmemb, s, t)
  {
    hide GranLen, GranCount, IsCall, Do, Enabled, Outcome;
    var seen, len := |asked| - |s.consumed|, GranLen(|asked| - |s.consumed|, gran, nmemb);
    GranFits(seen, gran, nmemb);
    var filled, more := asked[|s.produced|..], t.produced[|asked|..];
    McuFills(gran, s, filled);
    var s1 := s.(q := s.q + filled, produced := s.produced + filled);
    assert s1.produced == asked && s1.q == asked[|s.consumed|..];
    hide Between, Settled;
    Taken(gran, s, s1, asked, t, fate, got, len);
    var s2 := Do(HostReads, gran, s1.(host := Granted(len)), Transfer([], fate));
    McuFills(gran, s2, more);
    TransferIsCall(HostReads, gran, nmemb, s, McuMoves(filled, 0), Transfer([], fate), McuMoves(more, 0));
  }

  /** The state after the transfer of a reading call, and what the MCU still has to add. */
  lemma Taken(gran: nat, s: State, s1: State, asked: seq<byte>, t: State, fate: Fate, got: seq<byte>, len: nat)
    requires gran > 0 && Between(s) && Settled(s, t) && Outcome(s, t, fate, got)
    requires s.produced <= asked <= t.produced && t.consumed == s.consumed + got && len <= |asked| - |s.consumed|
    requires s1 == s.(q := asked[|s.consumed|..], produced := asked) && (fate != NoEffect ==> |got| == len)
    ensures Enabled(HostReads, s1.(host := Granted(len)), Transfer([], fate))
    ensures var s2 := Do(HostReads, gran, s1.(host := Granted(len)), Transfer([], fate));
            var more := t.produced[|asked|..];
            s2.(q := s2.q + more, produced := s2.produced + more) == t && |s2.q| + |more| <= s2.cap
  {
    hide Do, Enabled;
    HostTakes(gran, s1, len, fate);
    ReadLeaves(s, asked, t, fate, got, len);
  }

  lemma ReadLeaves(s: State, asked: seq<byte>, t: State, fate: Fate, got: seq<byte>, len: nat)
    requires Between(s) && Settled(s, t) && Outcome(s, t, fate, got)
    requires s.produced <= asked <= t.produced && t.consumed == s.consumed + got && len <= |asked| - |s.consumed|
    requires fate != NoEffect ==> |got| == len
    ensures var q1 := asked[|s.consumed|..];
            && asked + t.produced[|asked|..] == t.produced
            && (fate == NoEffect ==> q1 + t.produced[|asked|..] == t.q && t.consumed == s.consumed)
            && (fate != NoEffect ==> q1[..len] == got && q1[len..] + t.produced[|asked|..] == t.q)
  {
    var q1, more := asked[|s.consumed|..], t.produced[|asked|..];
    assert t.q == t.produced[|t.consumed|..];
    assert asked + more == t.produced;
    if fate != NoEffect {
      assert q1[..len] == t.produced[|s.consumed|..|s.consumed| + len] == got;
      assert q1[len..] == asked[|s.consumed| + len..];
    }
  }

  /** A writing call, from the consumed bytes at its query. */
  lemma WriteIsCall(gran: nat, nmemb: nat, s: State, asked: seq<byte>, t: State, fate: Fate, got: seq<byte>)
    requires gran > 0 && Between(s) && Settled(s, t) && Outcome(s, t, fate, got)
    requires s.consumed <= asked <= t.consumed && |asked| <= |s.produced| && t.produced == s.produced + got
    requires var seen := s.cap - (|s.produced| - |asked|);
             && seen >= 0 && GranCount(seen, gran, nmemb) > 0
             && (fate != NoEffect ==> |got| == GranLen(seen, gran, nmemb))
    ensures IsCall(HostWrites, gran, nmemb, s, t)
  {
    hide GranLen, GranCount, IsCall, Do, Enabled;
    var seen := s.cap - (|s.produced| - |asked|);
    var len := GranLen(seen, gran, nmemb);
    GranFits(seen, gran, nmemb);
    var bytes := if fate == NoEffect then Bytes(len) else got;
    var n, k := |asked| - |s.consumed|, |t.consumed| - |asked|;
    WriteLeaves(s, asked, t, got);
    McuDrains(gran, s, n);
    var s1 := s.(q := s.q[n..], consumed := s.consumed + s.q[..n]);
    assert s1.consumed == asked && s1.q == s.produced[|asked|..];
    HostPuts(gran, s1, bytes, fate);
    var s2 := Do(HostWrites, gran, s1.(host := Granted(len)), Transfer(bytes, fate));
    assert s1.q + [] == s1.q && s.produced + [] == s.produced;
    assert s2.q == s.produced[|asked|..] + got;
    McuDrains(gran, s2, k);
    TransferIsCall(HostWrites, gran, nmemb, s, McuMoves([], n), Transfer(bytes, fate), McuMoves([], k));
    assert s2.(q := s2.q[k..], consumed := s2.consumed + s2.q[..k]) == t;
  }

  lemma WriteLeaves(s: State, asked: seq<byte>, t: State, got: seq<byte>)
    requires Between(s) && Settled(s, t) && s.consumed <= asked <= t.consumed && |asked| <= |s.produced|
    requires t.produced == s.produced + got
    ensures var n, k := |asked| - |s.consumed|, |t.consumed| - |asked|;
            var q2 := s.produced[|asked|..] + got;
            && s.consumed + s.q[..n] == asked && s.q[n..] == s.produced[|asked|..]
            && k <= |q2| && asked + q2[..k] == t.consumed && q2[k..] == t.q
  {
    var n, k := |asked| - |s.consumed|, |t.consumed| - |asked|;
    var q2 := s.produced[|asked|..] + got;
    assert s.produced[..|asked|] == t.produced[..|asked|] == asked;
    assert s.consumed + s.q[..n] == s.produced[..|asked|];
    assert asked + q2 == t.produced == t.consumed + t.q;
    assert (asked + q2)[|asked|..] == q2;
    assert t.produced[|t.consumed|..] == t.q;
  }

  /** A reading call during which only the MCU moved: its query failed, or found nothing to transfer. */
  lemma QuietReadIsCall(gran: nat, nmemb: nat, s: State, asked: seq<byte>, t: State, failed: bool)
    requires gran > 0 && Between(s) && Settled(s, t) && t.acked == [] && t.lost == 0 && t.consumed == s.consumed
    requires s.produced <= asked <= t.produced && |asked| - |s.consumed| <= s.cap
    requires if failed then asked == t.produced else GranCount(|asked| - |s.consumed|, gran, nmemb) == 0
    ensures IsCall(HostReads, gran, nmemb, s, t)
  {
    hide GranLen, GranCount, IsCall, Do, Enabled;
    var filled, more := asked[|s.produced|..], t.produced[|asked|..];
    assert t.consumed == s.consumed + [];
    ReadLeaves(s, asked, t, NoEffect, [], 0);
    McuFills(gran, s, filled);
    var s1 := s.(q := s.q + filled, produced := s.produced + filled);
    assert s1.produced == asked && s1.q == asked[|s.consumed|..];
    if failed {
      assert more == [] && s1.q + [] == s1.q;
      FailedQueryIsCall(HostReads, gran, nmemb, s, McuMoves(filled, 0));
    } else {
      McuFills(gran, s1, more);
      EmptyAnswerIsCall(HostReads, gran, nmemb, s, McuMoves(filled, 0), McuMoves(more, 0));
    }
  }

  lemma QuietWriteIsCall(gran: nat, nmemb: nat, s: State, asked: seq<byte>, t: State, failed: bool)
    requires gran > 0 && Between(s) && Settled(s, t) && t.acked == [] && t.lost == 0 && t.produced == s.produced
    requires s.consumed <= asked <= t.consumed && |asked| <= |s.produced|
    requires if failed then asked == t.consumed
             else s.cap - (|s.produced| - |asked|) >= 0 && GranCount(s.cap - (|s.produced| - |asked|), gran, nmemb) == 0
    ensures IsCall(HostWrites, gran, nmemb, s, t)
  {
    hide GranLen, GranCount, IsCall, Do, Enabled;
    var n, k := |asked| - |s.consumed|, |t.consumed| - |asked|;
    var s1 := s.(q := s.produced[|asked|..], consumed := asked);
    Drained(s, asked, t);
    McuDrains(gran, s, n);
    if failed {
      FailedQueryIsCall(HostWrites, gran, nmemb, s, McuMoves([], n));
    } else {
      assert |s1.q| <= s1.cap;
      hide Between, Settled;
      McuDrains(gran, s1, k);
      EmptyAnswerIsCall(HostWrites, gran, nmemb, s, McuMoves([], n), McuMoves([], k));
    }
  }

  /** What is left when the MCU alone has moved, up to the query and after it. */
  lemma Drained(s: State, asked: seq<byte>, t: State)
    requires Between(s) && Settled(s, t) && t.acked == [] && t.lost == 0 && t.produced == s.produced
    requires s.consumed <= asked <= t.consumed && |asked| <= |s.produced|
    ensures var n, k := |asked| - |s.consumed|, |t.consumed| - |asked|;
            var s1 := s.(q := s.produced[|asked|..], consumed := asked);
            && n <= |s.q| && k <= |s1.q|
            && s.(q := s.q[n..], consumed := s.consumed + s.q[..n]) == s1
            && s1.(q := s1.q[k..], consumed := s1.consumed + s1.q[..k]) == t
            && (asked == t.consumed ==> s1 == t)
  {
    assert t.produced == s.produced + [] && s.produced[|asked|..] + [] == s.produced[|asked|..];
    WriteLeaves(s, asked, t, []);
    assert t.q == t.produced[|t.consumed|..];
  }

  /** A reading call that was answered, by what it left: on success the host holds what it took, on failure it
      holds nothing and what was taken is lost. */
  lemma AnsweredReadIsCall(gran: nat, nmemb: nat, s: State, asked: seq<byte>, t: State, got: seq<byte>, done: bool)
    requires gran > 0 && Between(s) && Settled(s, t)
    requires s.produced <= asked <= t.produced && |asked| - |s.consumed| <= s.cap && t.consumed == s.consumed + got
    requires (done && t.acked == got && t.lost == 0) || (!done && t.acked == [] && t.lost == |got|)
    requires |got| == GranLen(|asked| - |s.consumed|, gran, nmemb) || (!done && got == [])
    ensures IsCall(HostReads, gran, nmemb, s, t)
  {
    hide GranLen, IsCall;
    var seen := |asked| - |s.consumed|;
    if GranCount(seen, gran, nmemb) == 0 {
      NothingAsked(seen, gran, nmemb);
      QuietReadIsCall(gran, nmemb, s, asked, t, false);
    } else {
      ReadIsCall(gran, nmemb, s, asked, t, if done then Done else if got == [] then NoEffect else ReplyLost, got);
    }
  }

  lemma AnsweredWriteIsCall(gran: nat, nmemb: nat, s: State, asked: seq<byte>, t: State, got: seq<byte>, done: bool)
    requires gran > 0 && Between(s) && Settled(s, t)
    requires s.consumed <= asked <= t.consumed && |asked| <= |s.produced| && t.produced == s.produced + got
    requires (done && t.acked == got && t.lost == 0) || (!done && t.acked == [] && t.lost == |got|)
    requires s.cap - (|s.produced| - |asked|) >= 0
    requires |got| == GranLen(s.cap - (|s.produced| - |asked|), gran, nmemb) || (!done && got == [])
    ensures IsCall(HostWrites, gran, nmemb, s, t)
  {
    hide GranLen, IsCall;
    var seen := s.cap - (|s.produced| - |asked|);
    if GranCount(seen, gran, nmemb) == 0 {
      NothingAsked(seen, gran, nmemb);
      QuietWriteIsCall(gran, nmemb, s, asked, t, false);
    } else {
      WriteIsCall(gran, nmemb, s, asked, t, if done then Done else if got == [] then NoEffect else ReplyLost, got);
    }
  }

  lemma NothingAsked(seen: nat, gran: nat, nmemb: nat)
    requires gran > 0 && GranCount(seen, gran, nmemb) == 0
    ensures GranLen(seen, gran, nmemb) == 0
  {
  }

  // ------------------------------------------------------------ calls in succession

  /** The same state with more already told to the host. */
  function After(acked: seq<byte>, lost: nat, s: State): State {
    s.(acked := acked + s.acked, lost := lost + s.lost)
  }

  lemma AfterStep(role: Role, gran: nat, acked: seq<byte>, lost: nat, s: State, step: Step)
    requires gran > 0 && Enabled(role, s, step)
    ensures Enabled(role, After(acked, lost, s), step)
    ensures Do(role, gran, After(acked, lost, s), step) == After(acked, lost, Do(role, gran, s, step))
  {
    hide GranLen, GranCount;
  }

  lemma {:induction false} AfterRun(role: Role, gran: nat, acked: seq<byte>, lost: nat, s: State, steps: seq<Step>)
    requires gran > 0 && Possible(role, gran, s, steps)
    ensures Possible(role, gran, After(acked, lost, s), steps)
    ensures Run(role, gran, After(acked, lost, s), steps) == After(acked, lost, Run(role, gran, s, steps))
    decreases steps
  {
    hide Enabled, Do, After;
    if steps == [] {
    } else {
      AfterStep(role, gran, acked, lost, s, steps[0]);
      AfterRun(role, gran, acked, lost, Do(role, gran, s, steps[0]), steps[1..]);
    }
  }

  /** Any sequence of calls is a run: a run that ends between calls can be continued by any call. */
  lemma CallContinues(role: Role, gran: nat, nmemb: nat, cap: nat, before: seq<Step>, t: State) returns (more: seq<Step>)
    requires gran > 0 && Possible(role, gran, Init(cap), before)
    requires var s := Run(role, gran, Init(cap), before); IsCall(role, gran, nmemb, s.(acked := [], lost := 0), t)
    ensures var s := Run(role, gran, Init(cap), before);
            && Possible(role, gran, Init(cap), before + more)
            && Run(role, gran, Init(cap), before + more) == After(s.acked, s.lost, t)
  {
    var s := Run(role, gran, Init(cap), before);
    var fresh0 := s.(acked := [], lost := 0);
    more :| Possible(role, gran, fresh0, more) && Run(role, gran, fresh0, more) == t && OneCall(nmemb, HostSteps(more));
    assert After(s.acked, s.lost, fresh0) == s;
    AfterRun(role, gran, s.acked, s.lost, fresh0, more);
    RunConcat(role, gran, Init(cap), before, more);
  }
}
