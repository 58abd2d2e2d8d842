/**
 * RVMcu_BurnMcu and RVMcu_ForceBurnMcu of src/rearview_mcu.c, run against a burn ring, a
 * status register and a firmware file that may each fail at any access. What each answers
 * is an input. Every access is recorded in a trace; the code is proved to produce only
 * legal traces of BurnProtocol, in which every reply is the one that was given.
 */
module BurnMcu {
  import opened Bits
  import opened LittleEndian
  import opened Options
  import opened Records
  import opened RemoteRing
  import RegWrCb
  import RingRuns
  import opened BurnProtocol

  /** What the MCU or the file system answers when the trace has some number of events. */
  datatype Reply = Reply(ret: int, partition: nat, mode: byte, parameter: byte)

  type Replies = nat -> Reply

  /** A register access reports 0 or a negative code. */
  function NotPositive(ret: int): int { if ret < 0 then ret else 0 }

  /** What read(2) gives when asked for `most` with `left` bytes before the end of the file: an error, the end of file,
      or some bytes. */
  function ReadLen(ret: int, left: nat, most: nat): int {
    if ret < 0 then ret else Min(left, Min(most, if ret == 0 then 1 else ret))
  }

  /** Where an image describes itself: a mark, and the partition it is built for. */
  const HEAD_LEN := 0x1000
  const PROGRAM_INFO := 0x410
  const PROGRAM_MAGIC: seq<byte> := [0x70, 0x69, 0x5F, 0x5F]
  const PART_OFFSET := 20

  /** A C int from its four bytes. */
  function IntFromLe(s: seq<byte>): int
    requires |s| == 4
  {
    var w: int := FromLe(s);
    if w < 0x8000_0000 then w else w - WORD
  }

  /** What _GetBurnFirmwarePart returns when its read of the head of the file returned n. */
  function PartNamed(firmware: seq<byte>, n: int): int
    requires n <= |firmware|
  {
    if n != HEAD_LEN then n
    else if firmware[PROGRAM_INFO..PROGRAM_INFO + 4] != PROGRAM_MAGIC then -1
    else IntFromLe(firmware[PROGRAM_INFO + PART_OFFSET..PROGRAM_INFO + PART_OFFSET + 4])
  }

  /** The image passes for partition A (1) or B (2) if a full head carries the mark and names it; and also if the read
      came back with just that many bytes. */
  lemma PartPasses(firmware: seq<byte>, ret: int, wanted: nat)
    requires wanted == 1 || wanted == 2
    ensures var n := ReadLen(ret, |firmware|, HEAD_LEN);
            PartNamed(firmware, n) == wanted
            <==> || n == wanted
                 || (n == 4096 && firmware[0x410..0x414] == [0x70, 0x69, 0x5F, 0x5F]
                     && firmware[0x424..0x428] == [wanted, 0, 0, 0])
  {
    var n := ReadLen(ret, |firmware|, HEAD_LEN);
    if n == HEAD_LEN {
      FromLeIs(firmware[0x424..0x428], wanted);
    }
  }

  lemma FromLeIs(s: seq<byte>, wanted: byte)
    requires |s| == 4
    ensures FromLe(s) == wanted <==> s == [wanted, 0, 0, 0]
  {
    assert s == [s[0], s[1], s[2], s[3]];
  }

  /** So a file of a single byte passes for partition A, and one of two bytes for B, when it is read whole. */
  lemma TinyFilePasses(firmware: seq<byte>, ret: int)
    requires 1 <= |firmware| <= 2 && ret >= |firmware|
    ensures PartNamed(firmware, ReadLen(ret, |firmware|, HEAD_LEN)) == |firmware|
  {
  }

  /** The transactions the ring has made, and the room it has. */
  datatype Mark = Mark(tick: nat, room: nat)

  /** Event k, met in state s of the protocol, is what was answered: the reply to an access, or what the ring's own
      transactions came to. A ring write takes nothing only if the ring had no room. */
  ghost predicate Genuine(replies: Replies, plan: Plan, firmware: seq<byte>, k: nat, s: State, ev: Event,
                          before: Mark, after: Mark) {
    match ev
    case RingClean(ret) => after.tick == before.tick + 1 && ret == Told(plan(before.tick))
    case RingWrite(ret, accepted) =>
      && ToldBy(plan, before.tick, after.tick, ret) && after.tick <= before.tick + (if ret == 0 then 1 else 2)
      && s.pc.Sending? && (ret >= 0 ==> ret >= Min(|s.pc.rest|, before.room))
      && (ret < 0 && accepted != [] ==> plan(after.tick - 1).Unanswered?)
    case _ => before == after && Answered(replies(k), |s.read|, firmware, ev)
  }

  predicate Answered(reply: Reply, read: nat, firmware: seq<byte>, ev: Event) {
    match ev
    case Info(ret, partition) => ret == NotPositive(reply.ret) && partition == reply.partition
    case ModeWrite(_, ret) => ret == NotPositive(reply.ret)
    case Status(ret, mode, parameter) =>
      ret == NotPositive(reply.ret) && mode == reply.mode && parameter == reply.parameter
    case ImagePart(part) => part == PartNamed(firmware, ReadLen(reply.ret, |firmware|, HEAD_LEN))
    case Open(fd) => fd == reply.ret
    case FileRead(ret, _) => read <= |firmware| && ret == ReadLen(reply.ret, |firmware| - read, PARTICLE)
    case _ => true
  }

  /** Every event of the trace is what was answered. */
  ghost predicate Honest(replies: Replies, plan: Plan, firmware: seq<byte>, forced: bool,
                         trace: seq<Event>, marks: seq<Mark>) {
    && |marks| == |trace| + 1
    && forall k :: 0 <= k < |trace| ==>
         Genuine(replies, plan, firmware, k, Exec(forced, trace[..k]), trace[k], marks[k], marks[k + 1])
  }

  lemma HonestSnoc(replies: Replies, plan: Plan, firmware: seq<byte>, forced: bool,
                   trace: seq<Event>, marks: seq<Mark>, ev: Event, after: Mark)
    requires Honest(replies, plan, firmware, forced, trace, marks)
    requires Genuine(replies, plan, firmware, |trace|, Exec(forced, trace), ev, marks[|trace|], after)
    ensures Honest(replies, plan, firmware, forced, trace + [ev], marks + [after])
  {
    hide Genuine, Exec;
    forall k | 0 <= k <= |trace|
      ensures var longer, m := trace + [ev], marks + [after];
              Genuine(replies, plan, firmware, k, Exec(forced, longer[..k]), longer[k], m[k], m[k + 1])
    {
      assert (trace + [ev])[..k] == trace[..k];
      assert k == |trace| ==> trace[..k] == trace;
    }
  }

  /** Reading the firmware reported an error. */
  ghost predicate ReadFailed(trace: seq<Event>) {
    exists k :: 0 <= k < |trace| && trace[k].FileRead? && trace[k].ret < 0
  }

  lemma ReadFailedStays(trace: seq<Event>, longer: seq<Event>)
    requires trace <= longer && ReadFailed(trace)
    ensures ReadFailed(longer)
  {
    var k :| 0 <= k < |trace| && trace[k].FileRead? && trace[k].ret < 0;
    assert longer[k] == trace[k];
  }

  /** The MCU answered that the transfer is still being taken in. */
  predicate Busy(ev: Event) { ev.Status? && ev.ret == 0 && ev.mode == 5 }

  /** The trace ends with FINISH_TRANSFER and then exactly `polls` busy answers. */
  ghost predicate BusyFor(trace: seq<Event>, polls: nat) {
    var n := |trace| - polls;
    && n > 0 && trace[n - 1].ModeWrite? && trace[n - 1].mode == 5
    && forall k :: n <= k < |trace| ==> Busy(trace[k])
  }

  lemma BusyOnce(trace: seq<Event>, polls: nat, ev: Event)
    requires BusyFor(trace, polls) && Busy(ev)
    ensures BusyFor(trace + [ev], polls + 1)
  {
  }

  /** Exactly `tries` events followed, each a reading of the MCU's information that did not name the bootloader. */
  ghost predicate NoBootloader(before: seq<Event>, trace: seq<Event>, tries: nat) {
    && before <= trace && |trace| == |before| + tries
    && forall k :: |before| <= k < |trace| ==> trace[k].Info? && !(trace[k].ret == 0 && trace[k].partition == 0)
  }

  class Burner {
    const ring: Ring
    const firmware: seq<byte>
    const forced: bool
    const replies: Replies
    var pos: nat                    // file offset
    var tick: nat                   // accesses made so far
    ghost var marks: seq<Mark>      // the ring before each event, and now
    ghost var trace: seq<Event>
    ghost var st: State
    ghost var residue: seq<byte>    // ring history a failed clean left in front of the image

    /** The record so far is a run's, and every reply in it is the one given. */
    ghost predicate Recording()
      reads this
    {
      && st == Exec(forced, trace) && tick == |trace| && |marks| == tick + 1
      && Honest(replies, ring.plan, firmware, forced, trace, marks)
    }

    ghost predicate Valid()
      reads this, ring
    {
      && ring.Valid() && ring.hostProduces
      && Recording() && st.pc != Stuck && marks[tick] == RingMark()
      && pos <= |firmware| && st.read == firmware[..pos]
      && (Flowing(st.pc) ==> ring.produced == residue + st.accepted)
      && (RingClean(0) in trace ==> residue == [])
      && (!ring.repliesMayVanish ==> st.lost == 0)
    }

    /** The record is only added to. */
    twostate predicate Extends()
      reads this
    {
      old(trace) <= trace && old(marks) <= marks
    }

    ghost function RingMark(): Mark
      requires ring.Valid()
      reads ring
    {
      Mark(ring.tick, ring.cap - |ring.q|)
    }

    constructor (ring: Ring, firmware: seq<byte>, forced: bool, replies: Replies)
      requires ring.Valid() && ring.hostProduces
      ensures Valid() && trace == [] && this.ring == ring && this.firmware == firmware && this.forced == forced
      ensures this.replies == replies
    {
      this.ring, this.firmware, this.forced, this.replies := ring, firmware, forced, replies;
      tick, marks := 0, [Mark(ring.tick, ring.cap - |ring.q|)];
      pos, trace, st, residue := 0, [], Init(forced), [];
    }

    // ---------------------------------------------------------- recorded accesses

    /** FINISH_TRANSFER has been written. */
    ghost predicate Finished()
      reads this
    {
      FINISH_TRANSFER in Modes(trace)
    }

    /** Appends an event; it must be one the protocol expects here, and what was answered. */
    method Record(ghost ev: Event)
      requires Recording() && st.pc != Stuck && !st.pc.Done? && ring.Valid()
      requires Genuine(replies, ring.plan, firmware, tick, st, ev, marks[tick], RingMark())
      modifies this`trace, this`st, this`tick, this`marks
      ensures Extends()
      ensures trace == old(trace) + [ev] && st == Step(old(st), ev) && Recording()
      ensures marks[tick] == RingMark()
      ensures Finished() <==> Progress(old(st).pc) >= 3 || (ev.ModeWrite? && ev.mode == FINISH_TRANSFER)
    {
      ExecSnoc(forced, trace, ev);
      ModesHold(forced, trace);
      FinishCount(st, Modes(trace));
      ModesSnoc(trace, ev);
      HonestSnoc(replies, ring.plan, firmware, forced, trace, marks, ev, RingMark());
      trace, marks := trace + [ev], marks + [RingMark()];
      st, tick := Step(st, ev), tick + 1;
    }

    method ReadInfo() returns (ret: int, partition: nat)
      requires Valid() && st.pc.AskInfo?
      modifies this`trace, this`st, this`tick, this`marks
      ensures Extends()
      ensures !Finished()
      ensures Valid() && ret <= 0 && trace == old(trace) + [Info(ret, partition)]
      ensures st == old(st).(pc :=
                if old(st).pc.force then (if ret == 0 && partition == BFP_BOOT then AskMode else old(st).pc)
                else if ret < 0 then Done(ret)
                else if partition != BFP_BOOT then GotoBootloader else AskMode)
    {
      hide Exec, Honest;
      ret, partition := NotPositive(replies(tick).ret), replies(tick).partition;
      Record(Info(ret, partition));
    }

    method ReadStatus() returns (ret: int, mode: byte, parameter: byte)
      requires Valid() && (st.pc.AskMode? || st.pc.EraseResult? || st.pc.FullRing? || st.pc.Poll?)
      modifies this`trace, this`st, this`tick, this`marks
      ensures Extends()
      ensures Finished() <==> old(st).pc.Poll?
      ensures Valid() && ret <= 0 && st == old(st).(pc := OnStatus(old(st).pc, Status(ret, mode, parameter)))
      ensures trace == old(trace) + [Status(ret, mode, parameter)]
    {
      hide Exec, Honest;
      ret, mode, parameter := NotPositive(replies(tick).ret), replies(tick).mode, replies(tick).parameter;
      Record(Status(ret, mode, parameter));
    }

    method WriteMode(mode: byte) returns (ret: int)
      requires Valid() && OnModeWrite(st.pc, ModeWrite(mode, 0)) != Stuck
      modifies this`trace, this`st, this`tick, this`marks
      ensures Extends()
      ensures Finished() <==> old(st).pc.ExitBurn? || mode == FINISH_TRANSFER
      ensures Valid() && ret <= 0 && st == old(st).(pc := OnModeWrite(old(st).pc, ModeWrite(mode, ret)))
      ensures trace == old(trace) + [ModeWrite(mode, ret)]
    {
      hide Exec, Honest;
      ret := NotPositive(replies(tick).ret);
      Record(ModeWrite(mode, ret));
    }

    /** _GetBurnFirmwarePart: the partition the image names, or a negative number. */
    method GetBurnFirmwarePart() returns (part: int)
      requires Valid() && st.pc.AskPart?
      modifies this`trace, this`st, this`tick, this`marks
      ensures Extends()
      ensures !Finished()
      ensures Valid() && st == old(st).(pc := if part == old(st).pc.wanted then Erase else Refuse)
    {
      hide Exec, Honest;
      var n := ReadLen(replies(tick).ret, |firmware|, HEAD_LEN);
      part := n;
      if n == HEAD_LEN {
        part := -1;
        if firmware[PROGRAM_INFO..PROGRAM_INFO + 4] == PROGRAM_MAGIC {
          part := IntFromLe(firmware[PROGRAM_INFO + PART_OFFSET..PROGRAM_INFO + PART_OFFSET + 4]);
        }
      }
      Record(ImagePart(part));
    }

    /** The clean's result is not looked at. */
    method CleanRing()
      requires Valid() && st.pc.CleanRing? && st.accepted == []
      modifies this`trace, this`st, this`tick, this`marks, this`residue, ring
      ensures Extends()
      ensures !Finished()
      ensures Valid() && st == old(st).(pc := OpenFile)
    {
      hide Exec, Honest;
      NotCleanedYet(forced, trace);
      var ret := RegWrCb.Clean(ring);
      residue := ring.produced;
      Record(RingClean(ret));
    }

    method OpenFirmware() returns (fd: int)
      requires Valid() && st.pc.OpenFile?
      modifies this`trace, this`st, this`tick, this`marks
      ensures Extends()
      ensures !Finished()
      ensures Valid() && st == old(st).(pc := if fd < 0 then Done(fd) else ReadChunk)
    {
      hide Exec, Honest;
      fd := replies(tick).ret;
      Record(Open(fd));
    }

    method CopyFirmware(buf: array<byte>, n: nat)
      requires n <= buf.Length && pos + n <= |firmware|
      modifies buf
      ensures buf[..n] == firmware[pos..pos + n]
    {
      var i := 0;
      while i < n
        invariant 0 <= i <= n && buf[..i] == firmware[pos..pos + i]
      {
        buf[i] := firmware[pos + i];
        i := i + 1;
      }
    }

    /** read(firmware_fd, firmware_data, 512): an error, end of file, or some bytes. */
    method ReadFirmware(buf: array<byte>) returns (rLen: int)
      requires Valid() && st.pc.ReadChunk? && buf.Length == PARTICLE
      modifies this`pos, this`trace, this`st, this`tick, this`marks, buf
      ensures Extends()
      ensures !Finished()
      ensures Valid() && rLen <= PARTICLE
      ensures rLen <= 0 ==> st == old(st).(pc := Finish) && pos == old(pos) && (ReadFailed(trace) || pos == |firmware|)
      ensures rLen > 0 ==> st.pc == Sending(buf[..rLen], 0) && pos == old(pos) + rLen
    {
      hide Exec, Honest, Genuine, Step, OnRingWrite, Modes;
      rLen := ReadLen(replies(tick).ret, |firmware| - pos, PARTICLE);
      ghost var bytes := [];
      if rLen > 0 {
        CopyFirmware(buf, rLen);
        bytes := buf[..rLen];
        assert firmware[..pos] + bytes == firmware[..pos + rLen];
        pos := pos + rLen;
      }
      RecordRead(rLen, bytes);
      assert rLen < 0 ==> trace[|trace| - 1].FileRead? && trace[|trace| - 1].ret < 0;
    }

    method RecordRead(rLen: int, ghost bytes: seq<byte>)
      requires Recording() && st.pc.ReadChunk? && rLen <= PARTICLE && ring.Valid() && marks[tick] == RingMark()
      requires |st.read| <= |firmware| && rLen == ReadLen(replies(tick).ret, |firmware| - |st.read|, PARTICLE)
      requires rLen > 0 ==> |bytes| == rLen
      modifies this`trace, this`st, this`tick, this`marks
      ensures Extends()
      ensures !Finished() && trace == old(trace) + [FileRead(rLen, bytes)]
      ensures Recording() && marks[tick] == RingMark()
      ensures rLen <= 0 ==> st == old(st).(pc := Finish)
      ensures rLen > 0 ==>
                st == old(st).(pc := Sending(bytes, 0), read := old(st).read + bytes, chunk := rLen, attempts := 0)
    {
      Record(FileRead(rLen, bytes));
    }

    /** RegWrCb_Write of data[start..end]; `taken` is what the ring really took. */
    method SendToRing(data: array<byte>, start: nat, end: nat) returns (ret: int, ghost taken: seq<byte>)
      requires ring.Valid() && ring.hostProduces && start < end <= data.Length && end - start <= PARTICLE
      modifies ring
      ensures ring.Valid() && ring.produced == old(ring.produced) + taken
      ensures ring.Answered(ret) && ring.tick <= old(ring.tick) + (if ret == 0 then 1 else 2)
      ensures ret >= 0 ==> ret >= Min(end - start, old(ring.cap - |ring.q|))
      ensures ret < 0 && taken != [] ==> ring.plan(ring.tick - 1).Unanswered?
      ensures taken <= data[start..end] && (ret >= 0 ==> ret == |taken|)
      ensures ret < 0 && taken != [] ==> ring.repliesMayVanish
    {
      hide RingRuns.IsCall;
      ghost var before := ring.produced;
      ghost var seen;
      ret, seen := RegWrCb.Write(ring, data, start, end - start);
      ghost var n := |ring.produced| - |before|;
      taken := data[start..start + n];
      assert taken == data[start..end][..n];
    }

    method RingWrite(data: array<byte>, start: nat, end: nat) returns (ret: int)
      requires Valid() && start < end <= data.Length && end - start <= PARTICLE
      requires st.pc.Sending? && st.pc.rest == data[start..end]
      modifies this`trace, this`st, this`tick, this`marks, ring
      ensures Extends()
      ensures !Finished()
      ensures Valid() && ret <= end - start && st.read == old(st).read
      ensures ret > 0 ==>
                st.pc == if start + ret < end then Sending(data[start + ret..end], old(st).pc.failures) else ReadChunk
      ensures ret == 0 ==> st.pc == FullRing(data[start..end], old(st).pc.failures)
      ensures ret < 0 ==> st.pc == Retry(data[start..end], old(st).pc.failures, ret)
    {
      hide Exec, Honest, Genuine, Step, OnRingWrite, Modes;
      ghost var taken;
      ret, taken := SendToRing(data, start, end);
      RecordWrite(ret, taken);
      assert ret >= 0 ==> data[start..end][ret..] == data[start + ret..end];
    }

    method RecordWrite(ret: int, ghost taken: seq<byte>)
      requires Recording() && st.pc.Sending? && ring.Valid()
      requires Genuine(replies, ring.plan, firmware, tick, st, BurnProtocol.RingWrite(ret, taken), marks[tick], RingMark())
      requires taken <= st.pc.rest && (ret >= 0 ==> ret == |taken|)
      modifies this`trace, this`st, this`tick, this`marks
      ensures Extends()
      ensures !Finished() && trace == old(trace) + [BurnProtocol.RingWrite(ret, taken)]
      ensures Recording() && marks[tick] == RingMark()
      ensures st.read == old(st).read && st.accepted == old(st).accepted + taken
      ensures st.lost == old(st).lost + if ret < 0 then |taken| else 0
      ensures var rest, failures := old(st).pc.rest, old(st).pc.failures;
              st.pc == if ret > 0 then (if rest[ret..] == [] then ReadChunk else Sending(rest[ret..], failures))
                       else if ret == 0 then FullRing(rest, failures)
                       else Retry(rest, failures, ret)
    {
      Record(BurnProtocol.RingWrite(ret, taken));
    }

    /** What holds once FINISH_TRANSFER has been sent: the ring's history is the residue, then the image read,
        with nothing missing; it is exactly the file when reads worked, replies are not lost and the clean held. */
    ghost predicate Delivered()
      reads this, ring
    {
      && ring.produced == residue + st.accepted
      && |st.accepted| == |st.read| + st.lost
      && (st.lost == 0 ==> st.accepted == st.read)
      && (!ReadFailed(trace) ==> st.read == firmware)
      && (st.read == firmware ==> (ring.produced == firmware <==> residue == [] && st.lost == 0))
      && (!ReadFailed(trace) && !ring.repliesMayVanish && RingClean(0) in trace ==> ring.produced == firmware)
    }

    // ---------------------------------------------------------- _BurnMcu

    /** _BurnMcu. `polls` bounds how often the final status is read; None means the MCU is still busy then. */
    method Burn(polls: nat) returns (result: Option<int>)
      requires Valid() && st.pc.Erase? && st.accepted == [] && st.read == []
      modifies this, ring
      ensures Extends()
      ensures Valid()
      ensures match result case Some(ret) => st.pc == Done(ret) case None => st.pc.Poll? && BusyFor(trace, polls)
      ensures Finished() ==> Delivered()
    {
      hide Exec, Honest, Genuine, Step, OnRingWrite, Modes;
      result := Prepare();
      if result.Some? { return; }
      result := SendFile();
      if result.Some? { return; }
      var ignored := WriteMode(FINISH_TRANSFER);
      result := AwaitVerdict(polls);
    }

    /** _BurnMcu up to the open firmware file; Some is the code of an early exit. */
    method Prepare() returns (result: Option<int>)
      requires Valid() && st.pc.Erase? && st.accepted == [] && st.read == []
      modifies this, ring
      ensures Extends()
      ensures !Finished()
      ensures Valid()
      ensures match result case Some(ret) => st.pc == Done(ret) case None => st.pc.ReadChunk?
    {
      hide Exec, Honest, Genuine, Step, OnRingWrite, Modes;
      var ret := WriteMode(START_ERASE);
      if ret < 0 { return Some(ret); }
      var mode, parameter;
      ret, mode, parameter := ReadStatus();
      if ret < 0 { return Some(ret); }
      if mode != ERASE_OK { return Some(Negated(parameter)); }
      ret := WriteMode(START_BURN);
      if ret < 0 { return Some(ret); }
      CleanRing();
      var fd := OpenFirmware();
      if fd < 0 { return Some(fd); }
      return None;
    }

    /** The read-and-send loop; Some is the code of an early exit. */
    method SendFile() returns (gaveUp: Option<int>)
      requires Valid() && st.pc.ReadChunk? && !Finished()
      modifies this, ring
      ensures Extends()
      ensures !Finished()
      ensures Valid()
      ensures match gaveUp case Some(ret) => st.pc == Done(ret) case None => st.pc.Finish?
      ensures gaveUp == None ==> Delivered()
    {
      hide Exec, Honest, Genuine, Step, OnRingWrite, Modes;
      var data := new byte[PARTICLE](_ => 0);
      while true
        invariant Extends()
        invariant Valid() && st.pc.ReadChunk? && !Finished()
        decreases |firmware| - pos
      {
        var rLen := ReadFirmware(data);
        if rLen <= 0 {
          StreamHolds(forced, trace);
          return None;
        }
        gaveUp := SendChunk(data, rLen);
        if gaveUp.Some? { return; }
      }
    }

    /** One chunk, with its seven tolerated failures: terminates because bytes left plus failures left fall. */
    method SendChunk(data: array<byte>, rLen: nat) returns (gaveUp: Option<int>)
      requires Valid() && 0 < rLen <= data.Length == PARTICLE && st.pc == Sending(data[..rLen], 0) && !Finished()
      modifies this`trace, this`st, this`tick, this`marks, ring
      ensures Extends()
      ensures !Finished()
      ensures Valid() && st.read == old(st.read)
      ensures match gaveUp case Some(ret) => st.pc == Done(ret) case None => st.pc.ReadChunk?
    {
      hide Exec, Honest, Genuine, Step, OnRingWrite, OnStatus, Modes;
      var start, end, retry := 0, rLen, 0;
      while start < end
        invariant Extends()
        invariant Valid() && 0 <= start <= end == rLen && 0 <= retry <= MAX_RETRY + 1
        invariant st.read == old(st.read) && !Finished()
        invariant if start < end then st.pc == Sending(data[start..end], retry) else st.pc.ReadChunk?
        decreases end - start + (MAX_RETRY + 2 - retry)
      {
        var ret := RingWrite(data, start, end);
        if ret > 0 {
          start := start + ret;
          continue;
        }
        if ret == 0 {
          var failed;
          ret, failed := AskWhyFull();
          if failed { return Some(ret); }
        }
        if retry > MAX_RETRY { return Some(ret); }
        retry := retry + 1;
      }
      return None;
    }

    /** The status read made when the ring took nothing. */
    method AskWhyFull() returns (ret: int, failed: bool)
      requires Valid() && st.pc.FullRing?
      modifies this`trace, this`st, this`tick, this`marks
      ensures Extends()
      ensures Valid() && !Finished() && st.read == old(st.read)
      ensures st.pc == if failed then Done(ret) else Retry(old(st).pc.rest, old(st).pc.failures, ret)
    {
      hide Exec, Honest, Genuine, Step, OnRingWrite, Modes;
      var mode, parameter;
      ret, mode, parameter := ReadStatus();
      if ret < 0 { return ret, true; }
      if mode == BURN_ERROR { return Negated(parameter), true; }
      return ret, false;
    }

    /** The final status poll and EXIT_BURN. */
    method AwaitVerdict(polls: nat) returns (result: Option<int>)
      requires Valid() && st.pc.Poll? && Finished() && BusyFor(trace, 0)
      modifies this`trace, this`st, this`tick, this`marks
      ensures Extends()
      ensures Finished() && st.lost == old(st.lost)
      ensures Valid() && st.read == old(st.read) && st.accepted == old(st.accepted)
      ensures match result case Some(ret) => st.pc == Done(ret) case None => st.pc.Poll? && BusyFor(trace, polls)
    {
      hide Exec, Honest, Genuine, Step, OnRingWrite, Modes, BusyFor;
      var left: nat := polls;
      while left > 0
        invariant Extends()
        invariant Valid() && Finished() && st.pc.Poll? && st.(pc := old(st).pc) == old(st)
        invariant left <= polls && BusyFor(trace, polls - left)
      {
        left := left - 1;
        ghost var before := trace;
        var ret, mode, parameter := ReadStatus();
        if ret < 0 { return Some(ret); }
        if mode != FINISH_TRANSFER {
          ret := Negated(parameter);
          if ret < 0 { return Some(ret); }
          var ignored := WriteMode(EXIT_BURN);
          return Some(ret);
        }
        BusyOnce(before, polls - left - 1, Status(ret, mode, parameter));
      }
      return None;
    }

    // ---------------------------------------------------------- entry points

    /** RVMcu_BurnMcu */
    method BurnNormally(polls: nat) returns (result: Option<int>)
      requires Valid() && st == Init(false) && !forced
      modifies this, ring
      ensures Extends()
      ensures Valid()
      ensures match result case Some(ret) => st.pc == Done(ret) case None => st.pc.Poll? && BusyFor(trace, polls)
      ensures Finished() ==> Delivered()
    {
      hide Exec, Honest, Genuine, Step, OnRingWrite, Modes;
      var ret, partition := ReadInfo();
      if ret < 0 { return Some(ret); }
      if partition != BFP_BOOT {
        ret := WriteMode(APP_GOTO_BOOTLOADER);
        if ret < 0 { return Some(ret); }
      }
      result := BurnFromWait(polls);
    }

    /** RVMcu_ForceBurnMcu. `tries` bounds the wait for the bootloader; None is also the answer when it runs out. */
    method BurnForced(tries: nat, polls: nat) returns (result: Option<int>)
      requires Valid() && st == Init(true) && forced
      modifies this, ring
      ensures Extends()
      ensures Valid()
      ensures match result
              case Some(ret) => st.pc == Done(ret)
              case None =>
                (st.pc.Poll? && BusyFor(trace, polls)) || (st.pc.AskInfo? && NoBootloader(old(trace), trace, tries))
      ensures Finished() ==> Delivered()
    {
      hide Exec, Honest, Genuine, Step, OnRingWrite, Modes;
      ModesHold(forced, trace);
      var left: nat := tries;
      while left > 0
        invariant Extends()
        invariant Valid() && st == Init(true) && !Finished()
        invariant left <= tries && NoBootloader(old(trace), trace, tries - left)
      {
        left := left - 1;
        var ret, partition := ReadInfo();
        if ret == 0 && partition == BFP_BOOT {
          result := BurnFromWait(polls);
          return;
        }
      }
      return None;
    }

    /** The part both entry points share: status, partition check, burn. */
    method BurnFromWait(polls: nat) returns (result: Option<int>)
      requires Valid() && st.pc.AskMode? && st.accepted == [] && st.read == []
      modifies this, ring
      ensures Extends()
      ensures Valid()
      ensures match result case Some(ret) => st.pc == Done(ret) case None => st.pc.Poll? && BusyFor(trace, polls)
      ensures Finished() ==> Delivered()
    {
      hide Exec, Honest, Genuine, Step, OnRingWrite, Modes;
      var ret, mode, parameter := ReadStatus();
      if ret < 0 { return Some(ret); }
      if mode != WAIT_BURN { return Some(-1); }
      if parameter == BFP_APP_A || parameter == BFP_APP_B {
        var part := GetBurnFirmwarePart();
        if parameter != part {
          var ignored := WriteMode(EXIT_BURN);
          return Some(-1);
        }
      }
      result := Burn(polls);
    }
  }
}
