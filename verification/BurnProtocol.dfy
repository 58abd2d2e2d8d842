/**
 * The firmware burn of src/rearview_mcu.c as an automaton over the host's visible actions
 * and the replies they met. Every run of RVMcu_BurnMcu and RVMcu_ForceBurnMcu, finished or
 * not, is a legal trace of it (see BurnMcu); the lemmas here hold of all legal traces.
 */
module BurnProtocol {
  import opened Bits

  // MBMBurnMode
  const WAIT_BURN: byte := 1
  const START_ERASE: byte := 2
  const ERASE_OK: byte := 3
  const START_BURN: byte := 4
  const FINISH_TRANSFER: byte := 5
  const FINISH_BURN: byte := 6
  const BURN_ERROR: byte := 7
  const EXIT_BURN: byte := 8
  const APP_GOTO_BOOTLOADER: byte := 0xFF

  const BFP_BOOT := 0
  const BFP_APP_A := 1
  const BFP_APP_B := 2

  const MAX_RETRY := 5
  const PARTICLE := 512

  datatype Event =
    | Info(ret: int, partition: nat)
    | ModeWrite(mode: byte, ret: int)
    | Status(ret: int, mode: byte, parameter: byte)
    | ImagePart(part: int)
    | RingClean(ret: int)
    | Open(fd: int)
    | FileRead(ret: int, bytes: seq<byte>)
    | RingWrite(ret: int, accepted: seq<byte>)  // `accepted`: what the ring took, whatever the host was told

  datatype Pc =
    | AskInfo(force: bool)
    | GotoBootloader
    | AskMode
    | AskPart(wanted: byte)
    | Refuse
    | Erase
    | EraseResult
    | StartBurn
    | CleanRing
    | OpenFile
    | ReadChunk
    | Sending(rest: seq<byte>, failures: nat)
    | FullRing(rest: seq<byte>, failures: nat)  // the ring took nothing; ask the MCU why
    | Finish
    | Poll
    | ExitBurn
    | Done(ret: int)
    | Stuck  // the events are not those of a run

  /** `read` is all firmware read so far, `accepted` all the ring took, `lost` the part of it the host
      believes failed; `chunk` and `attempts` count bytes and ring writes since the last file read. */
  datatype State = State(pc: Pc, read: seq<byte>, accepted: seq<byte>, lost: nat, chunk: nat, attempts: nat)

  function Init(force: bool): State { State(AskInfo(force), [], [], 0, 0, 0) }

  function Retry(rest: seq<byte>, failures: nat, ret: int): Pc {
    if failures > MAX_RETRY then Done(ret) else Sending(rest, failures + 1)
  }

  /** A status parameter as the error code the host returns. */
  function Negated(parameter: byte): int {
    var code: int := parameter;
    -code
  }

  function OnStatus(pc: Pc, ev: Event): Pc
    requires ev.Status?
  {
    match pc
    case AskMode =>
      if ev.ret < 0 then Done(ev.ret)
      else if ev.mode != WAIT_BURN then Done(-1)
      else if ev.parameter == BFP_APP_A || ev.parameter == BFP_APP_B then AskPart(ev.parameter)
      else Erase
    case EraseResult =>
      if ev.ret < 0 then Done(ev.ret)
      else if ev.mode != ERASE_OK then Done(Negated(ev.parameter))
      else StartBurn
    case FullRing(rest, failures) =>
      if ev.ret < 0 then Done(ev.ret)
      else if ev.mode == BURN_ERROR then Done(Negated(ev.parameter))
      else Retry(rest, failures, ev.ret)
    case Poll =>
      if ev.ret < 0 then Done(ev.ret)
      else if ev.mode == FINISH_TRANSFER then Poll
      else if ev.parameter > 0 then Done(Negated(ev.parameter))
      else ExitBurn
    case _ => Stuck
  }

  function OnModeWrite(pc: Pc, ev: Event): Pc
    requires ev.ModeWrite?
  {
    match pc
    case GotoBootloader =>
      if ev.mode != APP_GOTO_BOOTLOADER then Stuck else if ev.ret < 0 then Done(ev.ret) else AskMode
    case Refuse => if ev.mode != EXIT_BURN then Stuck else Done(-1)
    case Erase => if ev.mode != START_ERASE then Stuck else if ev.ret < 0 then Done(ev.ret) else EraseResult
    case StartBurn => if ev.mode != START_BURN then Stuck else if ev.ret < 0 then Done(ev.ret) else CleanRing
    case Finish => if ev.mode != FINISH_TRANSFER then Stuck else Poll
    case ExitBurn => if ev.mode != EXIT_BURN then Stuck else Done(0)
    case _ => Stuck
  }

  function OnRingWrite(s: State, ev: Event): State
    requires ev.RingWrite?
  {
    if !s.pc.Sending? || !(ev.accepted <= s.pc.rest) || (ev.ret >= 0 && ev.ret != |ev.accepted|) then
      s.(pc := Stuck)
    else
      var t := s.(accepted := s.accepted + ev.accepted, attempts := s.attempts + 1);
      if ev.ret > 0 then
        var rest := s.pc.rest[ev.ret..];
        t.(pc := if rest == [] then ReadChunk else Sending(rest, s.pc.failures))
      else if ev.ret == 0 then t.(pc := FullRing(s.pc.rest, s.pc.failures))
      else t.(pc := Retry(s.pc.rest, s.pc.failures, ev.ret), lost := s.lost + |ev.accepted|)
  }

  /** The host's next control point; Stuck when the event is not what the code does here. */
  function Step(s: State, ev: Event): State {
    match ev
    case Status(ret, _, _) => if ret > 0 then s.(pc := Stuck) else s.(pc := OnStatus(s.pc, ev))
    case ModeWrite(_, _) => s.(pc := OnModeWrite(s.pc, ev))
    case RingWrite(_, _) => OnRingWrite(s, ev)
    case Info(ret, partition) =>
      (match s.pc
       case AskInfo(force) =>
         if force then s.(pc := if ret == 0 && partition == BFP_BOOT then AskMode else s.pc)
         else if ret < 0 then s.(pc := Done(ret))
         else s.(pc := if partition != BFP_BOOT then GotoBootloader else AskMode)
       case _ => s.(pc := Stuck))
    case ImagePart(part) =>
      if s.pc.AskPart? then s.(pc := if part == s.pc.wanted then Erase else Refuse) else s.(pc := Stuck)
    case RingClean(_) => s.(pc := if s.pc == CleanRing then OpenFile else Stuck)
    case Open(fd) => s.(pc := if s.pc != OpenFile then Stuck else if fd < 0 then Done(fd) else ReadChunk)
    case FileRead(ret, bytes) =>
      if s.pc != ReadChunk || (ret > 0 && ret != |bytes|) || ret > PARTICLE then s.(pc := Stuck)
      else if ret <= 0 then s.(pc := Finish)
      else s.(pc := Sending(bytes, 0), read := s.read + bytes, chunk := |bytes|, attempts := 0)
  }

  function Exec(force: bool, trace: seq<Event>): State {
    if trace == [] then Init(force) else Step(Exec(force, trace[..|trace| - 1]), trace[|trace| - 1])
  }

  predicate Legal(force: bool, trace: seq<Event>) { Exec(force, trace).pc != Stuck }

  lemma StuckStays(s: State, ev: Event)
    requires s.pc == Stuck || s.pc.Done?
    ensures Step(s, ev).pc == Stuck
  {
  }

  lemma ExecSnoc(force: bool, trace: seq<Event>, ev: Event)
    ensures Exec(force, trace + [ev]) == Step(Exec(force, trace), ev)
  {
    assert (trace + [ev])[..|trace|] == trace;
  }

  lemma {:induction false} PrefixLegal(force: bool, trace: seq<Event>, n: nat)
    requires Legal(force, trace) && n <= |trace|
    ensures Legal(force, trace[..n])
    ensures n < |trace| ==> !Exec(force, trace[..n]).pc.Done? && Step(Exec(force, trace[..n]), trace[n]).pc != Stuck
  {
    if n < |trace| {
      var last := |trace| - 1;
      var before := Exec(force, trace[..last]);
      if before.pc == Stuck || before.pc.Done? { StuckStays(before, trace[last]); }
      if n < last {
        PrefixLegal(force, trace[..last], n);
        assert trace[..last][..n] == trace[..n] && trace[..last][n] == trace[n];
      }
    } else {
      assert trace[..n] == trace;
    }
  }

  // ------------------------------------------------------------ the stream

  function Rest(pc: Pc): seq<byte> {
    match pc
    case Sending(rest, _) => rest
    case FullRing(rest, _) => rest
    case _ => []
  }

  ghost predicate StreamInv(s: State) {
    && (s.lost == 0 ==> s.accepted <= s.read)
    && (!s.pc.Done? ==> |s.accepted| + |Rest(s.pc)| == |s.read| + s.lost)
    && (!s.pc.Done? && s.lost == 0 ==> s.read == s.accepted + Rest(s.pc))
  }

  lemma StreamRingWrite(s: State, ev: Event)
    requires StreamInv(s) && ev.RingWrite? && Step(s, ev).pc != Stuck
    ensures StreamInv(Step(s, ev))
  {
    var rest, n := s.pc.rest, |ev.accepted|;
    assert s.accepted + ev.accepted + rest[n..] == s.accepted + rest;
    assert s.lost == 0 ==> s.accepted + ev.accepted <= s.accepted + rest;
  }

  lemma StreamOther(s: State, ev: Event)
    requires StreamInv(s) && !ev.RingWrite? && !s.pc.Done? && Step(s, ev).pc != Stuck
    ensures StreamInv(Step(s, ev))
  {
  }

  lemma StreamStep(s: State, ev: Event)
    requires StreamInv(s) && Step(s, ev).pc != Stuck
    ensures StreamInv(Step(s, ev))
  {
    hide StreamInv;
    if s.pc.Done? {
      StuckStays(s, ev);
    } else if ev.RingWrite? {
      StreamRingWrite(s, ev);
    } else {
      StreamOther(s, ev);
    }
  }

  lemma {:induction false} StreamHolds(force: bool, trace: seq<Event>)
    requires Legal(force, trace)
    ensures StreamInv(Exec(force, trace))
  {
    if trace == [] {
    } else {
      var n := |trace| - 1;
      PrefixLegal(force, trace, n);
      StreamHolds(force, trace[..n]);
      StreamStep(Exec(force, trace[..n]), trace[n]);
    }
  }

  /** While failed writes enqueue nothing, what the ring took is a prefix of the firmware read so far. */
  lemma AcceptedIsPrefix(force: bool, trace: seq<Event>)
    requires Legal(force, trace) && Exec(force, trace).lost == 0
    ensures Exec(force, trace).accepted <= Exec(force, trace).read
  {
    StreamHolds(force, trace);
  }

  /** When FINISH_TRANSFER is written, the ring took everything read, once and in order, exactly when
      no write that was reported failed had put data into it. */
  lemma FinishMeansAll(force: bool, trace: seq<Event>, i: nat)
    requires Legal(force, trace) && i < |trace| && trace[i].ModeWrite? && trace[i].mode == FINISH_TRANSFER
    ensures var s := Exec(force, trace[..i]);
            && |s.accepted| == |s.read| + s.lost
            && (s.accepted == s.read <==> s.lost == 0)
  {
    PrefixLegal(force, trace, i);
    StreamHolds(force, trace[..i]);
    assert Exec(force, trace[..i]).pc == Finish;
  }

  // ------------------------------------------------------------ the send loop

  ghost predicate AttemptsInv(s: State) {
    match s.pc
    case Sending(rest, failures) =>
      && 0 < |rest| && failures <= MAX_RETRY + 1
      && s.attempts + |rest| <= s.chunk + failures
    case FullRing(rest, failures) =>
      && 0 < |rest| && failures <= MAX_RETRY + 1
      && s.attempts + |rest| <= s.chunk + failures + 1
    case _ => s.attempts <= s.chunk + MAX_RETRY + 1
  }

  lemma AttemptsStep(s: State, ev: Event)
    requires AttemptsInv(s) && Step(s, ev).pc != Stuck
    ensures AttemptsInv(Step(s, ev))
  {
  }

  lemma {:induction false} AttemptsHold(force: bool, trace: seq<Event>)
    requires Legal(force, trace)
    ensures AttemptsInv(Exec(force, trace))
  {
    if trace == [] {
    } else {
      var n := |trace| - 1;
      PrefixLegal(force, trace, n);
      AttemptsHold(force, trace[..n]);
      AttemptsStep(Exec(force, trace[..n]), trace[n]);
    }
  }

  /** A chunk of r bytes is attempted at most r + 6 times, whatever the replies. */
  lemma AttemptsBounded(force: bool, trace: seq<Event>)
    requires Legal(force, trace)
    ensures Exec(force, trace).attempts <= Exec(force, trace).chunk + 6
  {
    AttemptsHold(force, trace);
  }

  /** The firmware is read at most 512 bytes at a time. */
  lemma ChunkLimit(force: bool, trace: seq<Event>, i: nat)
    requires Legal(force, trace) && i < |trace| && trace[i].FileRead?
    ensures trace[i].ret <= 512 && (trace[i].ret > 0 ==> |trace[i].bytes| == trace[i].ret)
  {
    hide Exec;
    PrefixLegal(force, trace, i);
  }

  // ------------------------------------------------------------ the command language

  /** The burn_mode values written, in order. */
  function Modes(trace: seq<Event>): seq<byte> {
    if trace == [] then []
    else
      var last := trace[|trace| - 1];
      Modes(trace[..|trace| - 1]) + if last.ModeWrite? then [last.mode] else []
  }

  lemma ModesSnoc(trace: seq<Event>, ev: Event)
    ensures Modes(trace + [ev]) == Modes(trace) + if ev.ModeWrite? then [ev.mode] else []
  {
    assert (trace + [ev])[..|trace|] == trace;
  }

  const BURN_COMMANDS: seq<byte> := [START_ERASE, START_BURN, FINISH_TRANSFER, EXIT_BURN]

  /** The optional first command and what remains. */
  function AfterGoto(ms: seq<byte>): seq<byte> {
    if ms != [] && ms[0] == APP_GOTO_BOOTLOADER then ms[1..] else ms
  }

  /** How many of the burn commands have been written at each control point. */
  function Progress(pc: Pc): nat {
    match pc
    case EraseResult => 1
    case StartBurn => 1
    case CleanRing => 2
    case OpenFile => 2
    case ReadChunk => 2
    case Sending(_, _) => 2
    case FullRing(_, _) => 2
    case Finish => 2
    case Poll => 3
    case ExitBurn => 3
    case _ => 0
  }

  ghost predicate ModesInv(s: State, ms: seq<byte>) {
    var tail := AfterGoto(ms);
    if s.pc.Done? then tail <= BURN_COMMANDS || tail == [EXIT_BURN]
    else if s.pc.AskInfo? || s.pc.GotoBootloader? then ms == []
    else tail == BURN_COMMANDS[..Progress(s.pc)]
  }

  lemma AfterGotoSnoc(ms: seq<byte>, m: byte)
    requires m != APP_GOTO_BOOTLOADER
    ensures AfterGoto(ms + [m]) == AfterGoto(ms) + [m]
  {
  }

  lemma ModesStep(s: State, ms: seq<byte>, ev: Event)
    requires ModesInv(s, ms) && Step(s, ev).pc != Stuck
    ensures ModesInv(Step(s, ev), ms + if ev.ModeWrite? then [ev.mode] else [])
  {
    if s.pc == Stuck || s.pc.Done? { StuckStays(s, ev); }
    if ev.ModeWrite? {
      if ev.mode != APP_GOTO_BOOTLOADER {
        AfterGotoSnoc(ms, ev.mode);
        ModeWriteStep(s, ms, ev);
      }
    } else {
      assert ms + [] == ms;
      NoModeWriteStep(s, ms, ev);
    }
  }

  lemma ModeWriteStep(s: State, ms: seq<byte>, ev: Event)
    requires ModesInv(s, ms) && Step(s, ev).pc != Stuck && ev.ModeWrite? && ev.mode != APP_GOTO_BOOTLOADER
    requires AfterGoto(ms + [ev.mode]) == AfterGoto(ms) + [ev.mode]
    ensures ModesInv(Step(s, ev), ms + [ev.mode])
  {
    hide AfterGoto;
    var n := Progress(s.pc);
    assert n < |BURN_COMMANDS| ==> BURN_COMMANDS[..n + 1] == BURN_COMMANDS[..n] + [BURN_COMMANDS[n]];
    assert BURN_COMMANDS[..0] == [] && BURN_COMMANDS[..4] == BURN_COMMANDS;
  }

  lemma NoModeWriteStep(s: State, ms: seq<byte>, ev: Event)
    requires ModesInv(s, ms) && Step(s, ev).pc != Stuck && !ev.ModeWrite? && !s.pc.Done?
    ensures ModesInv(Step(s, ev), ms)
  {
    hide AfterGoto;
    assert AfterGoto([]) == [] by { EmptyAfterGoto(); }
    assert BURN_COMMANDS[..0] == [];
  }

  lemma EmptyAfterGoto()
    ensures AfterGoto([]) == []
  {
  }

  lemma {:induction false} ModesHold(force: bool, trace: seq<Event>)
    requires Legal(force, trace)
    ensures ModesInv(Exec(force, trace), Modes(trace))
  {
    if trace == [] {
    } else {
      var n := |trace| - 1;
      PrefixLegal(force, trace, n);
      ModesHold(force, trace[..n]);
      ModesStep(Exec(force, trace[..n]), Modes(trace[..n]), trace[n]);
    }
  }

  /** The modes written are an optional APP_GOTO_BOOTLOADER and then EXIT_BURN alone, or a prefix of
      START_ERASE, START_BURN, FINISH_TRANSFER, EXIT_BURN. */
  lemma CommandLanguage(force: bool, trace: seq<Event>)
    requires Legal(force, trace)
    ensures var ms := Modes(trace);
            var tail := if ms != [] && ms[0] == 0xFF then ms[1..] else ms;
            tail <= [2, 4, 5, 8] || tail == [8]
  {
    ModesHold(force, trace);
    var s := Exec(force, trace);
    assert !s.pc.Done? ==> AfterGoto(Modes(trace)) <= BURN_COMMANDS;
  }

  predicate OffGoto(pc: Pc) { pc != GotoBootloader && pc != AskInfo(false) }

  lemma OffGotoStep(s: State, ev: Event)
    requires OffGoto(s.pc) && Step(s, ev).pc != Stuck
    ensures OffGoto(Step(s, ev).pc) && !(ev.ModeWrite? && ev.mode == APP_GOTO_BOOTLOADER)
  {
  }

  /** A forced burn never sends APP_GOTO_BOOTLOADER. */
  lemma {:induction false} ForcedSkipsGoto(trace: seq<Event>)
    requires Legal(true, trace)
    ensures APP_GOTO_BOOTLOADER !in Modes(trace) && OffGoto(Exec(true, trace).pc)
  {
    if trace == [] {
    } else {
      hide Step, OffGoto;
      var n := |trace| - 1;
      PrefixLegal(true, trace, n);
      ForcedSkipsGoto(trace[..n]);
      OffGotoStep(Exec(true, trace[..n]), trace[n]);
    }
  }

  // ------------------------------------------------------------ what precedes erase and data

  predicate SawWaitBurn(ev: Event) { ev.Status? && ev.ret == 0 && ev.mode == 1 }

  predicate TargetsApp(ev: Event)
    requires ev.Status?
  {
    ev.parameter == 1 || ev.parameter == 2
  }

  lemma IntoErase(s: State, ev: Event)
    requires Step(s, ev).pc == Erase
    ensures (SawWaitBurn(ev) && !TargetsApp(ev)) || (ev.ImagePart? && s.pc == AskPart(ev.part))
  {
  }

  lemma IntoAskPart(s: State, ev: Event)
    requires Step(s, ev).pc.AskPart? && Step(s, ev).pc != s.pc
    ensures SawWaitBurn(ev) && TargetsApp(ev) && Step(s, ev).pc.wanted == ev.parameter
  {
  }

  lemma AskPartOnce(s: State, ev: Event)
    requires Step(s, ev).pc.AskPart?
    ensures Step(s, ev).pc != s.pc
  {
  }

  /** START_ERASE directly follows an observed WAIT_BURN or, exactly when the MCU names application partition
      A or B as its target, the check that the image is built for that partition. */
  lemma EraseFollowsWaitBurn(force: bool, trace: seq<Event>, i: nat)
    requires Legal(force, trace) && i < |trace| && trace[i].ModeWrite? && trace[i].mode == START_ERASE
    ensures i >= 2
    ensures if trace[i - 1].ImagePart?
            then SawWaitBurn(trace[i - 2]) && TargetsApp(trace[i - 2]) && trace[i - 1].part == trace[i - 2].parameter
            else SawWaitBurn(trace[i - 1]) && !TargetsApp(trace[i - 1])
  {
    PrefixLegal(force, trace, i);
    LastInto(force, trace, i);
    assert Exec(force, trace[..i]).pc == Erase;
    hide Step, Exec;
    assert i > 0 by { InitPc(force); }
    IntoErase(Exec(force, trace[..i - 1]), trace[i - 1]);
    LastInto(force, trace, i - 1);
    InitPc(force);
    if i == 1 {
      EraseNotFirst(force, trace[0]);
    } else if trace[i - 1].ImagePart? {
      AskPartOnce(Exec(force, trace[..i - 2]), trace[i - 2]);
      IntoAskPart(Exec(force, trace[..i - 2]), trace[i - 2]);
    }
  }

  lemma InitPc(force: bool)
    ensures Init(force).pc == AskInfo(force)
  {
  }

  lemma EraseNotFirst(force: bool, ev: Event)
    ensures Step(Init(force), ev).pc != Erase
  {
  }

  /** Unfolds the state after the first n events by one event. */
  lemma LastInto(force: bool, trace: seq<Event>, n: nat)
    requires n <= |trace|
    ensures n > 0 ==> Exec(force, trace[..n]) == Step(Exec(force, trace[..n - 1]), trace[n - 1])
    ensures n == 0 ==> Exec(force, trace[..n]) == Init(force)
  {
    if n > 0 {
      assert trace[..n][..n - 1] == trace[..n - 1];
    }
  }

  ghost predicate SawEraseOk(trace: seq<Event>) {
    exists j :: 0 <= j < |trace| && trace[j].Status? && trace[j].ret == 0 && trace[j].mode == ERASE_OK
  }

  lemma {:induction false} BurnNeedsEraseOk(force: bool, trace: seq<Event>)
    requires Legal(force, trace) && (Progress(Exec(force, trace).pc) >= 2 || Exec(force, trace).pc == StartBurn)
    ensures SawEraseOk(trace)
  {
    var n := |trace| - 1;
    PrefixLegal(force, trace, n);
    var s := Exec(force, trace[..n]);
    if Progress(s.pc) >= 2 || s.pc == StartBurn {
      BurnNeedsEraseOk(force, trace[..n]);
      var j :| 0 <= j < n && trace[..n][j].Status? && trace[..n][j].ret == 0 && trace[..n][j].mode == ERASE_OK;
      assert trace[j] == trace[..n][j];
    } else {
      assert trace[n].Status? && trace[n].ret == 0 && trace[n].mode == ERASE_OK;
    }
  }

  /** Data flows only after an observed ERASE_OK, after START_BURN and before FINISH_TRANSFER. */
  lemma DataWindow(force: bool, trace: seq<Event>, i: nat)
    requires Legal(force, trace) && i < |trace| && trace[i].RingWrite?
    ensures SawEraseOk(trace[..i])
    ensures AfterGoto(Modes(trace[..i])) == [START_ERASE, START_BURN]
  {
    PrefixLegal(force, trace, i);
    BurnNeedsEraseOk(force, trace[..i]);
    ModesHold(force, trace[..i]);
  }

  /** The transfer was opened: START_BURN taken, the ring cleaned and the file opened, one right after the other. */
  ghost predicate OpenedAt(trace: seq<Event>, j: nat) {
    && j + 2 < |trace|
    && trace[j].ModeWrite? && trace[j].mode == 4 && trace[j].ret >= 0
    && trace[j + 1].RingClean?
    && trace[j + 2].Open? && trace[j + 2].fd >= 0
  }

  predicate Transferring(pc: Pc) { pc.ReadChunk? || pc.Sending? || pc.FullRing? || pc.Finish? || pc.Poll? || pc.ExitBurn? }

  lemma IntoTransfer(s: State, ev: Event)
    requires Step(s, ev).pc != Stuck
    ensures Transferring(Step(s, ev).pc) ==> Transferring(s.pc) || (s.pc == OpenFile && ev.Open? && ev.fd >= 0)
    ensures Step(s, ev).pc == OpenFile ==> s.pc == CleanRing && ev.RingClean?
    ensures Step(s, ev).pc == CleanRing ==> ev.ModeWrite? && ev.mode == 4 && ev.ret >= 0
  {
  }

  lemma {:induction false} TransferOpened(force: bool, trace: seq<Event>) returns (j: nat)
    requires Legal(force, trace) && Transferring(Exec(force, trace).pc)
    ensures OpenedAt(trace, j)
  {
    hide Step, Exec, Transferring;
    var n := |trace| - 1;
    StartsOutside(force);
    LastInto(force, trace, |trace|);
    assert trace[..|trace|] == trace;
    PrefixLegal(force, trace, n);
    IntoTransfer(Exec(force, trace[..n]), trace[n]);
    if Transferring(Exec(force, trace[..n]).pc) {
      j := TransferOpened(force, trace[..n]);
    } else {
      LastInto(force, trace, n);
      PrefixLegal(force, trace, n - 1);
      IntoTransfer(Exec(force, trace[..n - 1]), trace[n - 1]);
      LastInto(force, trace, n - 1);
      PrefixLegal(force, trace, n - 2);
      IntoTransfer(Exec(force, trace[..n - 2]), trace[n - 2]);
      j := n - 2;
    }
  }

  lemma StartsOutside(force: bool)
    ensures !Transferring(Init(force).pc) && Init(force).pc != OpenFile && Init(force).pc != CleanRing
  {
  }

  /** No data is sent, and FINISH_TRANSFER is not written, before that; and FINISH_TRANSFER directly follows a read that
      found the end of the file or failed. */
  lemma TransferInOrder(force: bool, trace: seq<Event>, i: nat)
    requires Legal(force, trace) && i < |trace|
    requires trace[i].RingWrite? || (trace[i].ModeWrite? && trace[i].mode == 5)
    ensures exists j :: OpenedAt(trace[..i], j)
    ensures trace[i].ModeWrite? ==> i > 0 && trace[i - 1].FileRead? && trace[i - 1].ret <= 0
  {
    hide Exec;
    PrefixLegal(force, trace, i);
    var j := TransferOpened(force, trace[..i]);
    LastInto(force, trace, i);
    if trace[i].ModeWrite? {
      assert Exec(force, trace[..i]).pc == Finish;
    }
  }

  /** APP_GOTO_BOOTLOADER is written exactly when an unforced burn first reads that the bootloader is not running. */
  lemma GotoExactly(trace: seq<Event>)
    requires Legal(false, trace) && |trace| >= 2
    ensures trace[0].Info? && trace[0].ret >= 0
    ensures trace[1].ModeWrite? && trace[1].mode == 0xFF <==> trace[0].partition != 0
  {
    hide Exec;
    PrefixLegal(false, trace, 0);
    PrefixLegal(false, trace, 1);
    LastInto(false, trace, 0);
    LastInto(false, trace, 1);
  }

  /** Control points from which image data may be in the ring. */
  predicate Flowing(pc: Pc) {
    pc.OpenFile? || pc.ReadChunk? || pc.Sending? || pc.FullRing? || pc.Finish? || pc.Poll? || pc.ExitBurn?
  }

  /** The ring is cleaned once, on the way into the transfer. */
  lemma {:induction false} NotCleanedYet(force: bool, trace: seq<Event>)
    requires Legal(force, trace) && !Flowing(Exec(force, trace).pc) && !Exec(force, trace).pc.Done?
    ensures forall k :: 0 <= k < |trace| ==> !trace[k].RingClean?
  {
    hide Step, Exec, Flowing;
    if trace == [] {
    } else {
      var n := |trace| - 1;
      PrefixLegal(force, trace, n);
      LastInto(force, trace, n + 1);
      assert trace[..n + 1] == trace;
      BackFromFlow(Exec(force, trace[..n]), trace[n]);
      NotCleanedYet(force, trace[..n]);
      assert forall k :: 0 <= k < n ==> trace[k] == trace[..n][k];
    }
  }

  lemma BackFromFlow(s: State, ev: Event)
    requires Step(s, ev).pc != Stuck && !Flowing(Step(s, ev).pc) && !Step(s, ev).pc.Done?
    ensures !Flowing(s.pc) && !s.pc.Done? && !ev.RingClean?
  {
  }

  // ------------------------------------------------------------ what a return of 0 means

  lemma FinishCount(s: State, ms: seq<byte>)
    requires ModesInv(s, ms) && !s.pc.Done?
    ensures FINISH_TRANSFER in ms <==> Progress(s.pc) >= 3
  {
    assert BURN_COMMANDS[..0] == [] && BURN_COMMANDS[..1] == [START_ERASE];
    assert BURN_COMMANDS[..2] == [START_ERASE, START_BURN];
    assert BURN_COMMANDS[..3] == [START_ERASE, START_BURN, FINISH_TRANSFER];
    assert forall m :: m in ms && m != APP_GOTO_BOOTLOADER ==> m in AfterGoto(ms);
    assert forall m :: m in AfterGoto(ms) ==> m in ms;
    if Progress(s.pc) == 3 {
      assert AfterGoto(ms)[2] == FINISH_TRANSFER;
    }
  }

  /** What the FINISH_TRANSFER writes of a trace were answered. */
  function FinishReplies(trace: seq<Event>): seq<int> {
    if trace == [] then []
    else
      var last := trace[|trace| - 1];
      FinishReplies(trace[..|trace| - 1]) + if last.ModeWrite? && last.mode == FINISH_TRANSFER then [last.ret] else []
  }

  /** The MCU has acknowledged FINISH_TRANSFER. */
  predicate FinishTaken(trace: seq<Event>) {
    exists i :: 0 <= i < |FinishReplies(trace)| && FinishReplies(trace)[i] >= 0
  }

  /** A FINISH_TRANSFER write was reported failed. */
  predicate FinishFailed(trace: seq<Event>) {
    exists i :: 0 <= i < |FinishReplies(trace)| && FinishReplies(trace)[i] < 0
  }

  /** Ring writes since the last file read that took nothing or were reported failed. */
  function Failures(trace: seq<Event>): nat {
    if trace == [] then 0
    else
      var last, before := trace[|trace| - 1], Failures(trace[..|trace| - 1]);
      if last.FileRead? then 0 else if last.RingWrite? && last.ret <= 0 then before + 1 else before
  }

  predicate EraseStarted(ev: Event) { ev.ModeWrite? && ev.mode == START_ERASE }

  predicate RingFull(ev: Event) { ev.RingWrite? && ev.ret == 0 }

  /** The erase was answered with something other than ERASE_OK and the error code 0. */
  predicate EraseZero(trace: seq<Event>) {
    && |trace| >= 2 && EraseStarted(trace[|trace| - 2])
    && var ev := trace[|trace| - 1];
       ev.Status? && ev.ret == 0 && ev.mode != ERASE_OK && ev.parameter == 0
  }

  /** The ring was full and the MCU reported BURN_ERROR with the error code 0. */
  predicate BurnErrorZero(trace: seq<Event>) {
    && |trace| >= 2 && RingFull(trace[|trace| - 2])
    && var ev := trace[|trace| - 1];
       ev.Status? && ev.ret == 0 && ev.mode == BURN_ERROR && ev.parameter == 0
  }

  /** The seventh failure on one chunk was a full ring with a status that named no error. */
  predicate FullRingZero(trace: seq<Event>) {
    && |trace| >= 2 && RingFull(trace[|trace| - 2]) && Failures(trace) == MAX_RETRY + 2
    && var ev := trace[|trace| - 1];
       ev.Status? && ev.ret == 0 && ev.mode != BURN_ERROR
  }

  /** EXIT_BURN was reached although the FINISH_TRANSFER write had failed. */
  predicate UntakenZero(trace: seq<Event>) {
    |trace| > 0 && trace[|trace| - 1].ModeWrite? && trace[|trace| - 1].mode == EXIT_BURN && FinishFailed(trace)
  }

  ghost predicate CountsInv(s: State, trace: seq<Event>) {
    && (s.pc.Sending? ==> Failures(trace) == s.pc.failures)
    && (s.pc.FullRing? ==> Failures(trace) == s.pc.failures + 1)
    && (!s.pc.Done? ==> |FinishReplies(trace)| == if Progress(s.pc) >= 3 then 1 else 0)
  }

  lemma CountsStep(s: State, trace: seq<Event>)
    requires trace != [] && CountsInv(s, trace[..|trace| - 1]) && Step(s, trace[|trace| - 1]).pc != Stuck && !s.pc.Done?
    ensures CountsInv(Step(s, trace[|trace| - 1]), trace)
  {
  }

  lemma {:induction false} CountsHold(force: bool, trace: seq<Event>)
    requires Legal(force, trace)
    ensures CountsInv(Exec(force, trace), trace)
  {
    if trace == [] {
    } else {
      hide Step, CountsInv;
      var n := |trace| - 1;
      PrefixLegal(force, trace, n);
      CountsHold(force, trace[..n]);
      CountsStep(Exec(force, trace[..n]), trace);
    }
  }

  /** Where a burn can end with 0. */
  lemma ZeroStep(s: State, ev: Event)
    requires Step(s, ev).pc.Done? && !s.pc.Done?
    ensures Step(s, ev).pc.ret <= 0
    ensures Step(s, ev).pc.ret == 0 <==>
            || (s.pc.EraseResult? && ev.Status? && ev.ret == 0 && ev.mode != ERASE_OK && ev.parameter == 0)
            || (s.pc.FullRing? && ev.Status? && ev.ret == 0 && ev.mode == BURN_ERROR && ev.parameter == 0)
            || (s.pc.FullRing? && s.pc.failures > MAX_RETRY && ev.Status? && ev.ret == 0 && ev.mode != BURN_ERROR)
            || (s.pc.ExitBurn? && ev.ModeWrite? && ev.mode == EXIT_BURN)
    ensures ev.ModeWrite? && ev.mode == EXIT_BURN ==> s.pc.ExitBurn? || s.pc.Refuse?
    ensures !(ev.ModeWrite? && ev.mode == FINISH_TRANSFER)
  {
  }

  lemma IntoAsking(s: State, ev: Event)
    requires Step(s, ev).pc != Stuck && !Step(s, ev).pc.Done?
    ensures Step(s, ev).pc.EraseResult? <==> EraseStarted(ev)
    ensures Step(s, ev).pc.FullRing? <==> RingFull(ev)
  {
  }

  /** The state before the last event was reached by the event before it. */
  lemma LastButOne(force: bool, trace: seq<Event>)
    requires Legal(force, trace) && |trace| >= 1
    ensures var s := Exec(force, trace[..|trace| - 1]);
            && (s.pc.EraseResult? <==> |trace| >= 2 && EraseStarted(trace[|trace| - 2]))
            && (s.pc.FullRing? <==> |trace| >= 2 && RingFull(trace[|trace| - 2]))
  {
    hide Step, Exec;
    var n := |trace| - 1;
    PrefixLegal(force, trace, n);
    LastInto(force, trace, n);
    InitPc(force);
    if n > 0 {
      IntoAsking(Exec(force, trace[..n - 1]), trace[n - 1]);
    }
  }

  /** A burn never reports a positive number. It reports 0 although the MCU has not acknowledged FINISH_TRANSFER
      exactly in four cases, each told by the replies the host has seen; every other 0 follows EXIT_BURN. */
  lemma FalseZero(force: bool, trace: seq<Event>)
    requires Legal(force, trace) && Exec(force, trace).pc.Done?
    ensures Exec(force, trace).pc.ret <= 0
    ensures Exec(force, trace).pc.ret == 0 && !FinishTaken(trace)
            <==> EraseZero(trace) || BurnErrorZero(trace) || FullRingZero(trace) || UntakenZero(trace)
    ensures Exec(force, trace).pc.ret == 0 && FinishTaken(trace) ==>
              trace[|trace| - 1].ModeWrite? && trace[|trace| - 1].mode == EXIT_BURN
  {
    hide Step, Progress;
    var n := |trace| - 1;
    assert n >= 0 by { InitPc(force); }
    var s, ev := Exec(force, trace[..n]), trace[n];
    PrefixLegal(force, trace, n);
    CountsHold(force, trace[..n]);
    LastInto(force, trace, n + 1);
    assert trace[..n + 1] == trace;
    hide Exec;
    ZeroStep(s, ev);
    LastButOne(force, trace);
    FinishesSoFar(s.pc);
    CountsAtEnd(trace);
    OneReply(trace);
    AttemptsHold(force, trace[..n]);
    assert s.pc.FullRing? ==> s.pc.failures <= MAX_RETRY + 1 && Failures(trace[..n]) == s.pc.failures + 1;
    hide FinishTaken, FinishFailed, FinishReplies, Failures;
  }

  lemma CountsAtEnd(trace: seq<Event>)
    requires trace != []
    ensures var n := |trace| - 1;
            && (!(trace[n].ModeWrite? && trace[n].mode == FINISH_TRANSFER) ==>
                  FinishReplies(trace) == FinishReplies(trace[..n]))
            && (trace[n].Status? ==> Failures(trace) == Failures(trace[..n]))
  {
  }

  lemma OneReply(trace: seq<Event>)
    requires |FinishReplies(trace)| <= 1
    ensures FinishTaken(trace) ==> |FinishReplies(trace)| == 1 && !FinishFailed(trace)
    ensures |FinishReplies(trace)| == 1 && !FinishTaken(trace) ==> FinishFailed(trace)
    ensures FinishReplies(trace) == [] ==> !FinishFailed(trace)
  {
    var rs := FinishReplies(trace);
    if |rs| == 1 {
      assert rs[0] >= 0 || rs[0] < 0;
    }
  }

  /** A returned 0 follows an attempt to write FINISH_TRANSFER, taken or not, exactly if the last act was EXIT_BURN. */
  lemma FinishAttempted(force: bool, trace: seq<Event>)
    requires Legal(force, trace) && Exec(force, trace).pc == Done(0)
    ensures FINISH_TRANSFER in Modes(trace)
            <==> trace[|trace| - 1].ModeWrite? && trace[|trace| - 1].mode == EXIT_BURN
  {
    hide Step, ModesInv, Progress;
    var n := |trace| - 1;
    assert n >= 0 by { InitPc(force); }
    PrefixLegal(force, trace, n);
    ModesHold(force, trace[..n]);
    var s := Exec(force, trace[..n]);
    ZeroStep(s, trace[n]);
    FinishesSoFar(s.pc);
    FinishCount(s, Modes(trace[..n]));
  }

  lemma FinishesSoFar(pc: Pc)
    ensures pc.ExitBurn? ==> Progress(pc) == 3
    ensures pc.EraseResult? || pc.FullRing? || pc.Refuse? ==> Progress(pc) < 3
  {
  }

  lemma NoFinishYet(force: bool, trace: seq<Event>, ev: Event)
    requires Legal(force, trace) && !Exec(force, trace).pc.Done? && Progress(Exec(force, trace).pc) < 3
    requires Legal(force, trace + [ev]) && Exec(force, trace + [ev]).pc.Done?
    ensures FINISH_TRANSFER !in Modes(trace + [ev])
  {
    hide Step, ModesInv, Progress;
    ModesHold(force, trace);
    FinishCount(Exec(force, trace), Modes(trace));
    ExecSnoc(force, trace, ev);
    ZeroStep(Exec(force, trace), ev);
    ModesSnoc(trace, ev);
  }

  /** The verdict before the final EXIT_BURN. */
  predicate ExitAfter(trace: seq<Event>, finished: bool) {
    && |trace| >= 2 && trace[|trace| - 1].ModeWrite? && trace[|trace| - 1].mode == EXIT_BURN
    && trace[|trace| - 2].Status? && trace[|trace| - 2].ret == 0
    && (trace[|trace| - 2].mode == FINISH_BURN <==> finished)
  }

  lemma IntoExitBurn(s: State, ev: Event)
    requires Step(s, ev).pc != Stuck && !Step(s, ev).pc.Done?
    ensures Step(s, ev).pc.ExitBurn? ==> ev.Status? && ev.ret == 0 && ev.mode != FINISH_TRANSFER && ev.parameter == 0
    ensures Step(s, ev).pc.Refuse? ==> ev.ImagePart?
  {
  }

  /** A burn reports 0 without the MCU having named FINISH_BURN as its verdict exactly in four cases: the first three
      above, and EXIT_BURN after any other verdict with the error code 0, which the code does not tell apart. */
  lemma UnfinishedZero(force: bool, trace: seq<Event>)
    requires Legal(force, trace) && Exec(force, trace).pc.Done?
    ensures Exec(force, trace).pc.ret == 0 && !ExitAfter(trace, true)
            <==> EraseZero(trace) || BurnErrorZero(trace) || FullRingZero(trace) || ExitAfter(trace, false)
  {
    hide Step, Exec, FinishTaken, FinishFailed, FinishReplies, Failures;
    var n := |trace| - 1;
    assert n >= 0 by { LastInto(force, [], 0); InitPc(force); }
    var s, ev := Exec(force, trace[..n]), trace[n];
    PrefixLegal(force, trace, n);
    LastInto(force, trace, n + 1);
    assert trace[..n + 1] == trace;
    ZeroStep(s, ev);
    LastButOne(force, trace);
    CountsHold(force, trace[..n]);
    CountsAtEnd(trace);
    AttemptsHold(force, trace[..n]);
    LastInto(force, trace, n);
    InitPc(force);
    if n > 0 {
      IntoExitBurn(Exec(force, trace[..n - 1]), trace[n - 1]);
    }
  }

  // ------------------------------------------------------------ what any return code means

  /** What the last step of a burn makes of its event. */
  predicate LastActs(pc: Pc, ev: Event, ret: int) {
    match ev
    case Info(r, _) => ret == r < 0
    case Status(r, mode, parameter) =>
      if r < 0 then ret == r
      else
        || (pc.EraseResult? && mode != 3 && ret + parameter == 0)
        || (pc.FullRing? && if mode == 7 then ret + parameter == 0 else ret == 0 && pc.failures > MAX_RETRY)
        || (pc.Poll? && mode != 5 && parameter > 0 && ret + parameter == 0)
        || (pc.AskMode? && mode != 1 && ret == -1)
    case ModeWrite(mode, r) =>
      if mode == 8 then (pc.Refuse? && ret == -1) || (pc.ExitBurn? && ret == 0) else ret == r < 0
    case Open(fd) => ret == fd < 0
    case RingWrite(r, _) => pc.Sending? && ret == r < 0 && pc.failures > MAX_RETRY
    case _ => false
  }

  lemma LastStep(s: State, ev: Event)
    requires Step(s, ev).pc.Done? && !s.pc.Done?
    ensures LastActs(s.pc, ev, Step(s, ev).pc.ret)
  {
  }

  /** What came before it. */
  predicate CameBy(pc: Pc, ev: Event) {
    && (pc.EraseResult? <==> ev.ModeWrite? && ev.mode == 2)
    && (pc.FullRing? ==> ev.RingWrite? && ev.ret == 0)
    && (pc.Poll? ==> (ev.ModeWrite? && ev.mode == 5) || (ev.Status? && ev.ret == 0 && ev.mode == 5))
    && (pc.AskMode? ==> ev.Info? || (ev.ModeWrite? && ev.mode == 0xFF))
    && (pc.Refuse? ==> ev.ImagePart?)
    && (pc.ExitBurn? ==> ev.Status? && ev.ret == 0 && ev.mode != 5 && ev.parameter == 0)
  }

  lemma StepCameBy(s: State, ev: Event)
    requires Step(s, ev).pc != Stuck && !Step(s, ev).pc.Done?
    ensures CameBy(Step(s, ev).pc, ev)
  {
  }

  /** What every finished burn returns, read off its last two events and the failures of the current chunk. */
  predicate CodeExplained(trace: seq<Event>, ret: int) {
    && |trace| >= 1
    && var last := trace[|trace| - 1];
       match last
       case Info(r, _) => ret == r < 0
       case Status(r, mode, parameter) =>
         if r < 0 then ret == r
         else
           && |trace| >= 2
           && var prev := trace[|trace| - 2];
              if prev.RingWrite? then
                prev.ret == 0 && if mode == 7 then ret + parameter == 0 else ret == 0 && Failures(trace) == 7
              else if prev.ModeWrite? && prev.mode == 2 then mode != 3 && ret + parameter == 0
              else if (prev.ModeWrite? && prev.mode == 5) || prev.Status? then
                mode != 5 && parameter > 0 && ret + parameter == 0
              else mode != 1 && ret == -1
       case ModeWrite(mode, r) =>
         if mode == 8 then |trace| >= 2 && ret == if trace[|trace| - 2].ImagePart? then -1 else 0 else ret == r < 0
       case Open(fd) => ret == fd < 0
       case RingWrite(r, _) => ret == r < 0 && Failures(trace) == 7
       case _ => false
  }

  lemma ReturnCode(force: bool, trace: seq<Event>)
    requires Legal(force, trace) && Exec(force, trace).pc.Done?
    ensures CodeExplained(trace, Exec(force, trace).pc.ret)
  {
    hide Step, Exec, FinishReplies, Failures, FinishTaken, FinishFailed;
    var n := |trace| - 1;
    assert n >= 0 by { LastInto(force, [], 0); InitPc(force); }
    var s, ev := Exec(force, trace[..n]), trace[n];
    PrefixLegal(force, trace, n);
    LastInto(force, trace, n + 1);
    assert trace[..n + 1] == trace;
    LastStep(s, ev);
    CountsHold(force, trace[..n]);
    FailuresAtEnd(trace);
    AttemptsHold(force, trace[..n]);
    LastInto(force, trace, n);
    InitPc(force);
    if n > 0 {
      StepCameBy(Exec(force, trace[..n - 1]), trace[n - 1]);
    }
  }

  lemma FailuresAtEnd(trace: seq<Event>)
    requires trace != []
    ensures var n := |trace| - 1;
            && (trace[n].Status? ==> Failures(trace) == Failures(trace[..n]))
            && (trace[n].RingWrite? && trace[n].ret < 0 ==> Failures(trace) == Failures(trace[..n]) + 1)
  {
  }

  // ------------------------------------------------------------ each of them is reached

  lemma ExecTwo(force: bool, trace: seq<Event>, a: Event, b: Event)
    ensures Exec(force, trace + [a, b]) == Step(Step(Exec(force, trace), a), b)
  {
    hide Step;
    ExecSnoc(force, trace, a);
    ExecSnoc(force, trace + [a], b);
    assert trace + [a] + [b] == trace + [a, b];
  }

  /** For every verdict other than ERASE_OK. */
  lemma EraseZeroReached(force: bool, mode: byte) returns (trace: seq<Event>)
    requires mode != ERASE_OK
    ensures Legal(force, trace) && Exec(force, trace).pc == Done(0) && EraseZero(trace) && !FinishTaken(trace)
  {
    hide Exec, Step;
    var a, b, c, d := Info(0, BFP_BOOT), Status(0, WAIT_BURN, 0), ModeWrite(START_ERASE, 0), Status(0, mode, 0);
    trace := [a, b, c, d];
    ExecTwo(force, [], a, b);
    ExecTwo(force, [a, b], c, d);
    assert [] + [a, b] == [a, b] && [a, b] + [c, d] == trace;
    assert Exec(force, []) == Init(force) by { LastInto(force, [], 0); }
    EraseSteps(force, mode);
    FalseZero(force, trace);
  }

  lemma EraseSteps(force: bool, mode: byte)
    requires mode != ERASE_OK
    ensures var t := Step(Step(Init(force), Info(0, BFP_BOOT)), Status(0, WAIT_BURN, 0));
            t.pc == Erase && Step(Step(t, ModeWrite(START_ERASE, 0)), Status(0, mode, 0)).pc == Done(0)
  {
  }

  /** From every point of the transfer. */
  lemma BurnErrorZeroReached(force: bool, trace: seq<Event>) returns (more: seq<Event>)
    requires Legal(force, trace) && Exec(force, trace).pc.Sending?
    ensures Legal(force, trace + more) && Exec(force, trace + more).pc == Done(0)
    ensures BurnErrorZero(trace + more) && !FinishTaken(trace + more)
  {
    more := [RingWrite(0, []), Status(0, BURN_ERROR, 0)];
    ExecTwo(force, trace, RingWrite(0, []), Status(0, BURN_ERROR, 0));
    hide Exec, Step;
    assert (trace + more)[|trace|] == more[0] && (trace + more)[|trace| + 1] == more[1];
    FalseZero(force, trace + more);
  }

  /** Whenever the end of the file is reached, for every failing FINISH_TRANSFER write and later status. */
  lemma UntakenZeroReached(force: bool, trace: seq<Event>, failure: int, mode: byte) returns (more: seq<Event>)
    requires Legal(force, trace) && Exec(force, trace).pc.ReadChunk? && failure < 0 && mode != FINISH_TRANSFER
    ensures Legal(force, trace + more) && Exec(force, trace + more).pc == Done(0)
    ensures UntakenZero(trace + more) && !FinishTaken(trace + more)
  {
    hide Exec, Step;
    var a, b, c, d := FileRead(0, []), ModeWrite(FINISH_TRANSFER, failure), Status(0, mode, 0), ModeWrite(EXIT_BURN, 0);
    more := [a, b, c, d];
    ExecTwo(force, trace, a, b);
    ExecTwo(force, trace + [a, b], c, d);
    assert trace + [a, b] + [c, d] == trace + more;
    UntakenSteps(Exec(force, trace), failure, mode);
    FinishFails(trace, failure, mode, more);
    FalseZero(force, trace + more);
  }

  lemma UntakenSteps(s: State, failure: int, mode: byte)
    requires s.pc.ReadChunk? && mode != FINISH_TRANSFER
    ensures var t := Step(Step(s, FileRead(0, [])), ModeWrite(FINISH_TRANSFER, failure));
            t.pc == Poll && Step(Step(t, Status(0, mode, 0)), ModeWrite(EXIT_BURN, 0)).pc == Done(0)
  {
  }

  lemma RepliesSnoc(trace: seq<Event>, ev: Event)
    ensures FinishReplies(trace + [ev])
         == FinishReplies(trace) + if ev.ModeWrite? && ev.mode == FINISH_TRANSFER then [ev.ret] else []
  {
    assert (trace + [ev])[..|trace|] == trace;
  }

  /** Whenever the end of the file is reached: FINISH_TRANSFER acknowledged, and any verdict that names neither success
      nor an error code, BURN_ERROR included. */
  lemma UnfinishedZeroReached(force: bool, trace: seq<Event>, mode: byte) returns (more: seq<Event>)
    requires Legal(force, trace) && Exec(force, trace).pc.ReadChunk? && mode != FINISH_TRANSFER && mode != FINISH_BURN
    ensures Legal(force, trace + more) && Exec(force, trace + more).pc == Done(0)
    ensures ExitAfter(trace + more, false) && FinishTaken(trace + more)
  {
    hide Exec, Step, FinishReplies;
    var a, b, c, d := FileRead(0, []), ModeWrite(FINISH_TRANSFER, 0), Status(0, mode, 0), ModeWrite(EXIT_BURN, 0);
    more := [a, b, c, d];
    ExecTwo(force, trace, a, b);
    ExecTwo(force, trace + [a, b], c, d);
    assert trace + [a, b] + [c, d] == trace + more;
    UntakenSteps(Exec(force, trace), 0, mode);
    RepliesSnoc(trace + [a], b);
    RepliesSnoc(trace + [a] + [b], c);
    RepliesSnoc(trace + [a] + [b] + [c], d);
    assert trace + [a] + [b] + [c] + [d] == trace + more;
    var rs := FinishReplies(trace + more);
    assert rs == FinishReplies(trace + [a]) + [0] + [] + [];
    assert rs[|rs| - 1] == 0;
    assert (trace + more)[|trace| + 3] == d && (trace + more)[|trace| + 2] == c;
  }

  lemma FinishFails(trace: seq<Event>, failure: int, mode: byte, more: seq<Event>)
    requires more == [FileRead(0, []), ModeWrite(FINISH_TRANSFER, failure), Status(0, mode, 0), ModeWrite(EXIT_BURN, 0)]
    requires failure < 0
    ensures FinishFailed(trace + more)
  {
    hide FinishReplies;
    var read := trace + [more[0]];
    var finish := read + [more[1]];
    var polled := finish + [more[2]];
    RepliesSnoc(read, more[1]);
    RepliesSnoc(finish, more[2]);
    RepliesSnoc(polled, more[3]);
    assert polled + [more[3]] == trace + more;
    var rs := FinishReplies(trace + more);
    assert rs == FinishReplies(read) + [failure] + [] + [];
    assert rs[|rs| - 1] == failure;
  }

  /** The ring stays full and the MCU reports nothing wrong, n times over. */
  function FullRounds(n: nat): seq<Event> {
    if n == 0 then [] else FullRounds(n - 1) + [RingWrite(0, []), Status(0, START_BURN, 0)]
  }

  lemma {:induction false} FullRoundsFrom(force: bool, trace: seq<Event>, n: nat)
    requires Legal(force, trace) && Exec(force, trace).pc.Sending?
    requires Exec(force, trace).pc.failures + n <= MAX_RETRY + 1
    ensures var s, t := Exec(force, trace), Exec(force, trace + FullRounds(n));
            t.pc == Sending(s.pc.rest, s.pc.failures + n) && t.read == s.read && t.accepted == s.accepted
    decreases n
  {
    hide Step, Exec;
    if n == 0 {
      assert trace + FullRounds(0) == trace;
    } else {
      FullRoundsFrom(force, trace, n - 1);
      OneFullRound(force, trace + FullRounds(n - 1));
      assert trace + FullRounds(n - 1) + [RingWrite(0, []), Status(0, START_BURN, 0)] == trace + FullRounds(n);
    }
  }

  lemma OneFullRound(force: bool, trace: seq<Event>)
    requires Exec(force, trace).pc.Sending?
    ensures var s, t := Exec(force, trace), Exec(force, trace + [RingWrite(0, []), Status(0, START_BURN, 0)]);
            && t.pc == Retry(s.pc.rest, s.pc.failures, 0)
            && t.read == s.read && t.accepted == s.accepted
  {
    ExecSnoc(force, trace, RingWrite(0, []));
    ExecSnoc(force, trace + [RingWrite(0, [])], Status(0, START_BURN, 0));
    assert trace + [RingWrite(0, [])] + [Status(0, START_BURN, 0)]
        == trace + [RingWrite(0, []), Status(0, START_BURN, 0)];
  }

  /** Every non-empty first chunk does get to be sent. */
  lemma SendingReachable(chunk: seq<byte>) returns (trace: seq<Event>)
    requires 0 < |chunk| <= PARTICLE
    ensures Exec(false, trace) == State(Sending(chunk, 0), chunk, [], 0, |chunk|, 0)
  {
    hide Exec;
    trace := [];
    assert Exec(false, trace) == Init(false) by { LastInto(false, [], 0); }
    var events := [Info(0, BFP_BOOT), Status(0, WAIT_BURN, 0), ModeWrite(START_ERASE, 0), Status(0, ERASE_OK, 0)];
    var i := 0;
    while i < 4
      invariant 0 <= i <= 4
      invariant Exec(false, trace) == State([AskInfo(false), AskMode, Erase, EraseResult, StartBurn][i], [], [], 0, 0, 0)
    {
      ExecSnoc(false, trace, events[i]);
      trace := trace + [events[i]];
      i := i + 1;
    }
    events := [ModeWrite(START_BURN, 0), RingClean(0), Open(0)];
    i := 0;
    while i < 3
      invariant 0 <= i <= 3 && Exec(false, trace) == State([StartBurn, CleanRing, OpenFile, ReadChunk][i], [], [], 0, 0, 0)
    {
      ExecSnoc(false, trace, events[i]);
      trace := trace + [events[i]];
      i := i + 1;
    }
    ExecSnoc(false, trace, FileRead(|chunk|, chunk));
    trace := trace + [FileRead(|chunk|, chunk)];
  }

  /** From every point of the transfer, a ring that stays full while the status register stays healthy makes the
      burn return 0 with the rest of the chunk unsent. */
  lemma GivesUpWithZero(force: bool, trace: seq<Event>) returns (more: seq<Event>)
    requires Legal(force, trace) && Exec(force, trace).pc.Sending?
    ensures Exec(force, trace + more).pc == Done(0) && FullRingZero(trace + more)
    ensures |Exec(force, trace + more).accepted| < |Exec(force, trace + more).read| + Exec(force, trace).lost
    ensures FINISH_TRANSFER !in Modes(trace + more)
  {
    hide Step, Modes;
    AttemptsHold(force, trace);
    StreamHolds(force, trace);
    var n := MAX_RETRY + 1 - Exec(force, trace).pc.failures;
    FullRoundsFrom(force, trace, n);
    hide Exec;
    var now := trace + FullRounds(n);
    LastRound(force, now);
    more := FullRounds(n) + [RingWrite(0, []), Status(0, START_BURN, 0)];
    assert now + [RingWrite(0, []), Status(0, START_BURN, 0)] == trace + more;
  }

  /** The seventh failure. */
  lemma LastRound(force: bool, trace: seq<Event>)
    requires Legal(force, trace) && Exec(force, trace).pc.Sending? && Exec(force, trace).pc.failures == MAX_RETRY + 1
    ensures var s, t := Exec(force, trace), trace + [RingWrite(0, []), Status(0, START_BURN, 0)];
            && Exec(force, t).pc == Done(0) && FullRingZero(t) && FINISH_TRANSFER !in Modes(t)
            && Exec(force, t).accepted == s.accepted && Exec(force, t).read == s.read
  {
    OneFullRound(force, trace);
    var full := trace + [RingWrite(0, [])];
    assert full + [Status(0, START_BURN, 0)] == trace + [RingWrite(0, []), Status(0, START_BURN, 0)];
    ExecSnoc(force, trace, RingWrite(0, []));
    hide Exec, Step, Modes, FinishReplies;
    CountsHold(force, trace);
    SevenFailures(trace);
    NoFinishYet(force, full, Status(0, START_BURN, 0));
  }

  lemma SevenFailures(trace: seq<Event>)
    ensures var t := trace + [RingWrite(0, []), Status(0, START_BURN, 0)];
            && Failures(t) == Failures(trace) + 1 && |t| == |trace| + 2
            && t[|t| - 2] == RingWrite(0, []) && t[|t| - 1] == Status(0, START_BURN, 0)
  {
    var t := trace + [RingWrite(0, []), Status(0, START_BURN, 0)];
    assert t[..|t| - 1] == trace + [RingWrite(0, [])] && (trace + [RingWrite(0, [])])[..|trace|] == trace;
  }
}
