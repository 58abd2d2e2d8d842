/**
 * The host's ring-buffer operations of src/regwr_cb.c. Each is two separate register
 * transactions, a size query and a transfer, with the MCU running in between.
 */
module RegWrCb {
  import opened Bits
  import opened LittleEndian
  import opened Records
  import opened RemoteRing
  import opened RingRuns

  // ------------------------------------------------------------ queries

  /** RegWrCb_Size */
  method Size(h: Ring) returns (ret: int)
    requires h.Valid()
    modifies h
    ensures h.Valid() && h.McuOnly() && h.tick == old(h.tick) + 1
    ensures Told(h.plan(old(h.tick))) == if ret < 0 then ret else 0
    ensures ret >= 0 ==> ret == |h.q|
  {
    var size := new byte[4];
    ret := h.ReadReg(GET_SIZE, size, 4);
    if ret < 0 { return; }
    ret := FromLe(size[..4]);
  }

  /** RegWrCb_FreeSize */
  method FreeSize(h: Ring) returns (ret: int)
    requires h.Valid()
    modifies h
    ensures h.Valid() && h.McuOnly() && h.tick == old(h.tick) + 1
    ensures Told(h.plan(old(h.tick))) == if ret < 0 then ret else 0
    ensures ret >= 0 ==> ret == h.cap - |h.q|
  {
    var size := new byte[4];
    ret := h.ReadReg(GET_FREESIZE, size, 4);
    if ret < 0 { return; }
    ret := FromLe(size[..4]);
  }

  // ------------------------------------------------------------ the consuming end

  /** The ring as it stands between two calls of the host, with what the host was told and what replies were lost
      since the first of them. */
  ghost function Outside(h: Ring, acked: seq<byte>, lost: nat): State
    reads h
  {
    View(h.cap, h.q, h.produced, h.consumed, acked, lost)
  }

  /** The query that opens a reading call, transaction `at`, failed, or `seen` is a size the ring had during the call. */
  twostate predicate SizeSeen(h: Ring, at: nat, seen: nat)
    reads h
  {
    if h.plan(at).Works? then old(|h.q|) <= seen <= h.cap && seen <= |h.produced| - |old(h.consumed)| else seen == 0
  }

  /** The same of the room that a writing call asks for. */
  twostate predicate RoomSeen(h: Ring, at: nat, seen: nat)
    reads h
  {
    if h.plan(at).Works? then
      old(h.cap - |h.q|) <= seen <= h.cap && seen <= h.cap - (|old(h.produced)| - |h.consumed|)
    else
      seen == 0
  }

  lemma OutsideOk(h: Ring)
    requires h.Valid()
    ensures Between(Outside(h, [], 0))
  {
  }

  lemma SettledOk(s: State, h: Ring, acked: seq<byte>, lost: nat)
    requires h.Valid() && s.cap == h.cap
    ensures Settled(s, Outside(h, acked, lost))
  {
  }

  /** Byte operations are record operations at a granularity of one. */
  lemma BytesAreRecords(seen: nat, want: nat)
    ensures GranLen(seen, 1, want) == GranCount(seen, 1, want) == TakeLen(seen, want)
    ensures seen == 0 ==> TakeLen(seen, want) == 0
    ensures TakeLen(seen, want) == if U16(want) > seen then seen else U16(want)
  {
  }

  /** The query that opens a reading call. A call that ends with it, because it failed or leaves nothing to move, is
      one of the ring machine's. */
  method AskSize(h: Ring, ghost gran: nat, ghost nmemb: nat) returns (ret: int, ghost seen: nat)
    requires h.Valid() && !h.hostProduces && gran > 0
    modifies h
    ensures h.Valid() && h.McuOnly() && h.tick == old(h.tick) + 1
    ensures Told(h.plan(old(h.tick))) == (if ret < 0 then ret else 0) && seen == if ret < 0 then 0 else ret
    ensures SizeSeen(h, old(h.tick), seen) && (ret >= 0 ==> ret == |h.q|)
    ensures ret < 0 || GranCount(seen, gran, nmemb) == 0 ==>
              IsCall(HostReads, gran, nmemb, old(Outside(h, [], 0)), Outside(h, [], 0))
  {
    OutsideOk(h);
    hide IsCall, GranCount, GranLen, Between, Settled;
    ghost var before := Outside(h, [], 0);
    ret := Size(h);
    seen := if ret < 0 then 0 else ret;
    SettledOk(before, h, [], 0);
    if ret < 0 || GranCount(seen, gran, nmemb) == 0 {
      QuietReadIsCall(gran, nmemb, before, h.produced, Outside(h, [], 0), ret < 0);
    }
  }

  /** The reading transaction: the ring gives up all of `len` bytes or nothing, and the buffer holds them on success. */
  method Take(h: Ring, buf: array<byte>, len: u16) returns (ret: int, ghost got: seq<byte>)
    requires h.Valid() && !h.hostProduces && len <= buf.Length && len <= |h.q|
    modifies h, buf
    ensures h.Valid() && h.overruns == old(h.overruns) && old(h.produced) <= h.produced
    ensures ret == Told(h.plan(old(h.tick))) && h.tick == old(h.tick) + 1
    ensures h.consumed == old(h.consumed) + got && |got| == if h.plan(old(h.tick)).Unheard? then 0 else len
    ensures if ret == 0 then buf[..len] == got && buf[len..] == old(buf[len..]) else buf[..] == old(buf[..])
    ensures ret < 0 && got != [] ==> h.repliesMayVanish
  {
    ghost var before := h.consumed;
    ret := h.ReadReg(READ, buf, len);
    got := if ret == 0 then buf[..len] else h.consumed[|before|..];
  }

  /** The reading transaction as the end of a call that began in `s` and found `asked` produced at its query. */
  method TakeAnswered(h: Ring, buf: array<byte>, len: u16,
                      ghost s: State, ghost asked: seq<byte>, ghost gran: nat, ghost nmemb: nat)
    returns (ret: int, ghost got: seq<byte>)
    requires h.Valid() && !h.hostProduces && len <= buf.Length && len <= |h.q|
    requires gran > 0 && Between(s) && s.cap == h.cap && s.consumed == h.consumed
    requires s.produced <= asked == h.produced && len == GranLen(|asked| - |s.consumed|, gran, nmemb)
    modifies h, buf
    ensures h.Valid() && h.overruns == old(h.overruns) && asked <= h.produced
    ensures ret == Told(h.plan(old(h.tick))) && h.tick == old(h.tick) + 1
    ensures h.consumed == s.consumed + got && |got| == if h.plan(old(h.tick)).Unheard? then 0 else len
    ensures if ret == 0 then buf[..len] == got && buf[len..] == old(buf[len..]) else buf[..] == old(buf[..])
    ensures ret < 0 && got != [] ==> h.repliesMayVanish
    ensures IsCall(HostReads, gran, nmemb, s, if ret == 0 then Outside(h, got, 0) else Outside(h, [], |got|))
  {
    hide IsCall, GranLen;
    ret, got := Take(h, buf, len);
    if ret == 0 {
      AnsweredReadIsCall(gran, nmemb, s, asked, Outside(h, got, 0), got, true);
    } else {
      AnsweredReadIsCall(gran, nmemb, s, asked, Outside(h, [], |got|), got, false);
    }
  }

  /** RegWrCb_Read. `seen` is the size the query answered. */
  method Read(h: Ring, buf: array<byte>, bufSize: nat) returns (ret: int, ghost seen: nat)
    requires h.Valid() && !h.hostProduces && U16(bufSize) <= buf.Length
    modifies h, buf
    ensures h.Valid() && h.overruns == old(h.overruns) && old(h.produced) <= h.produced && old(h.consumed) <= h.consumed
    ensures h.Answered(ret) && h.tick == old(h.tick) + (if seen == 0 then 1 else 2) && SizeSeen(h, old(h.tick), seen)
    ensures ret >= 0 ==>
              && ret == TakeLen(seen, bufSize)
              && h.consumed == old(h.consumed) + buf[..ret] && buf[ret..] == old(buf[ret..])
    ensures ret < 0 ==>
              && buf[..] == old(buf[..])
              && |h.consumed| == |old(h.consumed)| + if h.plan(h.tick - 1).Unanswered? then TakeLen(seen, bufSize) else 0
    ensures IsCall(HostReads, 1, bufSize, old(Outside(h, [], 0)),
                   if ret >= 0 then Outside(h, buf[..ret], 0) else Outside(h, [], |h.consumed| - |old(h.consumed)|))
  {
    OutsideOk(h);
    hide IsCall, GranLen, GranCount, TakeLen, U16, Between, Settled;
    seen := 0;
    ghost var before := Outside(h, [], 0);
    var rLen := U16(bufSize);
    ret, seen := AskSize(h, 1, bufSize);
    BytesAreRecords(seen, bufSize);
    if ret < 0 { return; }
    ghost var asked := h.produced;
    if ret == 0 {
      assert buf[..0] == [];
      return;
    }
    rLen := if rLen > ret then ret else rLen;
    ghost var got;
    ret, got := TakeAnswered(h, buf, rLen, before, asked, 1, bufSize);
    if ret < 0 { return; }
    return rLen, seen;
  }

  /** RegWrCb_GranRead */
  method GranRead(h: Ring, data: array<byte>, gran: nat, nmemb: nat) returns (ret: int, ghost seen: nat)
    requires h.Valid() && !h.hostProduces && 0 < gran && U16(nmemb) * gran <= data.Length
    modifies h, data
    ensures h.Valid() && h.overruns == old(h.overruns) && old(h.produced) <= h.produced && old(h.consumed) <= h.consumed
    ensures h.Answered(ret) && SizeSeen(h, old(h.tick), seen)
    ensures h.tick == old(h.tick) + if GranCount(seen, gran, nmemb) == 0 then 1 else 2
    ensures ret >= 0 ==>
              && ret == GranCount(seen, gran, nmemb)
              && var len := GranLen(seen, gran, nmemb);
                 && len <= data.Length
                 && h.consumed == old(h.consumed) + data[..len] && data[len..] == old(data[len..])
    ensures ret < 0 ==>
              && data[..] == old(data[..])
              && |h.consumed| == |old(h.consumed)|
                                 + if h.plan(h.tick - 1).Unanswered? then GranLen(seen, gran, nmemb) else 0
    ensures IsCall(HostReads, gran, nmemb, old(Outside(h, [], 0)),
                   if ret >= 0 then Outside(h, data[..GranLen(seen, gran, nmemb)], 0)
                   else Outside(h, [], |h.consumed| - |old(h.consumed)|))
  {
    OutsideOk(h);
    hide IsCall, U16, GranCount, GranLen, Between, Settled;
    seen := 0;
    ghost var before := Outside(h, [], 0);
    var rNum := U16(nmemb);
    ret, seen := AskSize(h, gran, nmemb);
    Computed(seen, gran, nmemb);
    if ret < 0 { return; }
    ghost var asked := h.produced;
    rNum := if ret / gran > rNum then rNum else ret / gran;
    if rNum == 0 {
      assert data[..0] == [];
      return 0, seen;
    }
    var rLen := U16(rNum * gran);
    ghost var got;
    ret, got := TakeAnswered(h, data, rLen, before, asked, gran, nmemb);
    if ret < 0 { return; }
    return rNum, seen;
  }

  /** RegWrCb_Peep: even a reply that vanishes takes nothing out of the ring. */
  method Peep(h: Ring, buf: array<byte>, bufSize: nat) returns (ret: int, ghost seen: nat)
    requires h.Valid() && !h.hostProduces && U16(bufSize) <= buf.Length
    modifies h, buf
    ensures h.Valid() && h.McuOnly()
    ensures h.Answered(ret) && h.tick == old(h.tick) + (if seen == 0 then 1 else 2) && SizeSeen(h, old(h.tick), seen)
    ensures ret >= 0 ==>
              && ret == TakeLen(seen, bufSize) && ret <= |h.q|
              && buf[..ret] == h.q[..ret] && buf[ret..] == old(buf[ret..])
    ensures ret < 0 ==> buf[..] == old(buf[..])
  {
    seen := 0;
    var rLen := U16(bufSize);
    ret := Size(h);
    if ret < 0 { return; }
    seen := ret;
    if ret == 0 { return; }
    rLen := if rLen > ret then ret else rLen;
    ret := h.ReadReg(PEEP, buf, rLen);
    if ret < 0 { return; }
    return rLen, seen;
  }

  /** RegWrCb_ReadAir: drops bytes from the front without delivering them. */
  method ReadAir(h: Ring, readSize: nat) returns (ret: int, ghost seen: nat)
    requires h.Valid() && !h.hostProduces
    modifies h
    ensures h.Valid() && h.overruns == old(h.overruns) && old(h.produced) <= h.produced && old(h.consumed) <= h.consumed
    ensures h.Answered(ret) && h.tick == old(h.tick) + (if seen == 0 then 1 else 2) && SizeSeen(h, old(h.tick), seen)
    ensures ret < 0 ==>
              |h.consumed| == |old(h.consumed)| + if h.plan(h.tick - 1).Unanswered? then TakeLen(seen, readSize) else 0
    ensures ret >= 0 ==>
              && ret == TakeLen(seen, readSize)
              && |h.consumed| == |old(h.consumed)| + ret
  {
    seen := 0;
    var rLen := U16(readSize);
    ret := Size(h);
    if ret < 0 { return; }
    seen := ret;
    if ret == 0 { return; }
    rLen := if rLen > ret then ret else rLen;
    RoundTrip32(rLen);
    ret := h.WriteReg(READAIR, LeBytes(rLen, 4));
    if ret < 0 { return; }
    return rLen, seen;
  }

  /** The use recommended at Peep: look first, then drop what was looked at. When both report success
      the caller holds exactly the bytes removed, those one Read at Peep's query would have delivered. */
  method PeepThenReadAir(h: Ring, buf: array<byte>, bufSize: nat)
    returns (peeped: int, dropped: int, ghost seen: nat)
    requires h.Valid() && !h.hostProduces && U16(bufSize) <= buf.Length
    modifies h, buf
    ensures h.Valid() && h.overruns == old(h.overruns) && old(h.produced) <= h.produced
    ensures h.Answered(if peeped < 0 then peeped else dropped) && h.tick <= old(h.tick) + 4
    ensures peeped < 0 ==> dropped == 0 && h.consumed == old(h.consumed) && buf[..] == old(buf[..])
    ensures peeped >= 0 ==>
              && peeped == TakeLen(seen, bufSize) && old(|h.q|) <= seen <= h.cap
              && old(h.consumed) + buf[..peeped] <= h.produced
    ensures peeped >= 0 && dropped >= 0 ==> dropped == peeped && h.consumed == old(h.consumed) + buf[..peeped]
    ensures peeped >= 0 && dropped < 0 ==>
              h.consumed == old(h.consumed) || (h.repliesMayVanish && h.consumed <= old(h.consumed) + buf[..peeped])
  {
    dropped := 0;
    peeped, seen := Peep(h, buf, bufSize);
    if peeped < 0 { return; }
    assert h.produced == h.consumed + h.q && h.consumed + buf[..peeped] <= h.produced;
    ghost var taken, mid := h.consumed + buf[..peeped], h.tick;
    label Between:
    ghost var seenAir;
    dropped, seenAir := ReadAir(h, peeped);
    ToldOn(h.plan, old(h.tick), mid, h.tick, peeped, dropped);
    assert taken <= old@Between(h.produced) <= h.produced && h.consumed <= h.produced;
  }

  // ------------------------------------------------------------ the producing end

  /** The query that opens a writing call. A call that ends with it, because it failed or leaves nothing to move, is
      one of the ring machine's. */
  method AskRoom(h: Ring, ghost gran: nat, ghost nmemb: nat) returns (ret: int, ghost seen: nat)
    requires h.Valid() && h.hostProduces && gran > 0
    modifies h
    ensures h.Valid() && h.McuOnly() && h.tick == old(h.tick) + 1
    ensures Told(h.plan(old(h.tick))) == (if ret < 0 then ret else 0) && seen == if ret < 0 then 0 else ret
    ensures RoomSeen(h, old(h.tick), seen) && (ret >= 0 ==> ret == h.cap - |h.q|)
    ensures ret < 0 || GranCount(seen, gran, nmemb) == 0 ==>
              IsCall(HostWrites, gran, nmemb, old(Outside(h, [], 0)), Outside(h, [], 0))
  {
    OutsideOk(h);
    hide IsCall, GranCount, GranLen, Between, Settled;
    ghost var before := Outside(h, [], 0);
    ret := FreeSize(h);
    seen := if ret < 0 then 0 else ret;
    SettledOk(before, h, [], 0);
    if ret < 0 || GranCount(seen, gran, nmemb) == 0 {
      QuietWriteIsCall(gran, nmemb, before, h.consumed, Outside(h, [], 0), ret < 0);
    }
  }

  /** The writing transaction on data[at..at + len]: the ring gains all of it or nothing. */
  method Put(h: Ring, data: array<byte>, at: nat, len: u16) returns (ret: int, ghost gained: seq<byte>)
    requires h.Valid() && h.hostProduces && at + len <= data.Length && len <= h.cap - |h.q|
    modifies h
    ensures h.Valid() && h.overruns == old(h.overruns) && old(h.consumed) <= h.consumed
    ensures ret == Told(h.plan(old(h.tick))) && h.tick == old(h.tick) + 1
    ensures h.produced == old(h.produced) + gained && h.produced[|old(h.produced)|..] == gained
    ensures gained == if h.plan(old(h.tick)).Unheard? then [] else data[at..at + len]
    ensures ret < 0 && gained != [] ==> h.repliesMayVanish
  {
    ghost var before := h.produced;
    ret := h.WriteReg(WRITE, data[at..at + len]);
    gained := h.produced[|before|..];
    assert (before + data[at..at + len])[|before|..] == data[at..at + len];
  }

  /** The writing transaction as the end of a call that began in `s` and found `asked` consumed at its query. */
  method PutAnswered(h: Ring, data: array<byte>, at: nat, len: u16,
                     ghost s: State, ghost asked: seq<byte>, ghost gran: nat, ghost nmemb: nat)
    returns (ret: int, ghost gained: seq<byte>)
    requires h.Valid() && h.hostProduces && at + len <= data.Length && len <= h.cap - |h.q|
    requires gran > 0 && Between(s) && s.cap == h.cap && s.produced == h.produced
    requires s.consumed <= asked == h.consumed && len == GranLen(h.cap - |h.q|, gran, nmemb)
    modifies h
    ensures h.Valid() && h.overruns == old(h.overruns) && asked <= h.consumed
    ensures ret == Told(h.plan(old(h.tick))) && h.tick == old(h.tick) + 1
    ensures h.produced == s.produced + gained
    ensures gained == if h.plan(old(h.tick)).Unheard? then [] else data[at..at + len]
    ensures ret < 0 && gained != [] ==> h.repliesMayVanish
    ensures IsCall(HostWrites, gran, nmemb, s, if ret == 0 then Outside(h, gained, 0) else Outside(h, [], |gained|))
  {
    hide IsCall, GranLen;
    assert h.cap - |h.q| == s.cap - (|s.produced| - |asked|);
    ret, gained := Put(h, data, at, len);
    if ret == 0 {
      AnsweredWriteIsCall(gran, nmemb, s, asked, Outside(h, gained, 0), gained, true);
    } else {
      AnsweredWriteIsCall(gran, nmemb, s, asked, Outside(h, [], |gained|), gained, false);
    }
  }

  /** RegWrCb_Write: the source bytes are data[at..at + dataSize]. */
  method Write(h: Ring, data: array<byte>, at: nat, dataSize: nat) returns (ret: int, ghost seen: nat)
    requires h.Valid() && h.hostProduces && at + U16(dataSize) <= data.Length
    modifies h
    ensures h.Valid() && h.overruns == old(h.overruns) && old(h.consumed) <= h.consumed && old(h.produced) <= h.produced
    ensures h.Answered(ret) && h.tick == old(h.tick) + (if seen == 0 then 1 else 2) && RoomSeen(h, old(h.tick), seen)
    ensures ret >= 0 ==> ret == TakeLen(seen, dataSize)
    ensures var len := if ret >= 0 || h.plan(h.tick - 1).Unanswered? then TakeLen(seen, dataSize) else 0;
            at + len <= data.Length && h.produced == old(h.produced) + data[at..at + len]
    ensures IsCall(HostWrites, 1, dataSize, old(Outside(h, [], 0)),
                   if ret >= 0 then Outside(h, data[at..at + ret], 0) else Outside(h, [], |h.produced| - |old(h.produced)|))
  {
    OutsideOk(h);
    hide IsCall, GranLen, GranCount, TakeLen, U16, Between, Settled;
    seen := 0;
    ghost var before := Outside(h, [], 0);
    var wLen := U16(dataSize);
    ret, seen := AskRoom(h, 1, dataSize);
    BytesAreRecords(seen, dataSize);
    if ret < 0 { return; }
    ghost var asked := h.consumed;
    if ret == 0 {
      assert data[at..at] == [];
      return;
    }
    wLen := if wLen > ret then ret else wLen;
    ghost var gained;
    ret, gained := PutAnswered(h, data, at, wLen, before, asked, 1, dataSize);
    if ret < 0 { return; }
    return wLen, seen;
  }

  /** RegWrCb_GranWrite */
  method GranWrite(h: Ring, data: array<byte>, at: nat, gran: nat, nmemb: nat) returns (ret: int, ghost seen: nat)
    requires h.Valid() && h.hostProduces && 0 < gran && at + U16(nmemb) * gran <= data.Length
    modifies h
    ensures h.Valid() && h.overruns == old(h.overruns) && old(h.consumed) <= h.consumed && old(h.produced) <= h.produced
    ensures h.Answered(ret) && RoomSeen(h, old(h.tick), seen)
    ensures h.tick == old(h.tick) + if GranCount(seen, gran, nmemb) == 0 then 1 else 2
    ensures ret >= 0 ==> ret == GranCount(seen, gran, nmemb)
    ensures var len := if ret >= 0 || h.plan(h.tick - 1).Unanswered? then GranLen(seen, gran, nmemb) else 0;
            at + len <= data.Length && h.produced == old(h.produced) + data[at..at + len]
    ensures IsCall(HostWrites, gran, nmemb, old(Outside(h, [], 0)),
                   if ret >= 0 then Outside(h, data[at..at + GranLen(seen, gran, nmemb)], 0)
                   else Outside(h, [], |h.produced| - |old(h.produced)|))
  {
    OutsideOk(h);
    hide IsCall, U16, GranCount, GranLen, Between, Settled;
    seen := 0;
    ghost var before := Outside(h, [], 0);
    var wNum := U16(nmemb);
    ret, seen := AskRoom(h, gran, nmemb);
    Computed(seen, gran, nmemb);
    if ret < 0 { return; }
    ghost var asked := h.consumed;
    wNum := if ret / gran > wNum then wNum else ret / gran;
    if wNum == 0 {
      assert data[at..at] == [];
      return 0, seen;
    }
    var wLen := U16(wNum * gran);
    ghost var gained;
    ret, gained := PutAnswered(h, data, at, wLen, before, asked, gran, nmemb);
    if ret < 0 { return; }
    return wNum, seen;
  }

  /** RegWrCb_Clean: success means the ring was empty at that instant and its history restarts. */
  method Clean(h: Ring) returns (ret: int)
    requires h.Valid()
    modifies h
    ensures h.Valid() && h.overruns == old(h.overruns)
    ensures ret == Told(h.plan(old(h.tick))) && h.tick == old(h.tick) + 1
    ensures if h.plan(old(h.tick)).Unheard? then h.McuOnly() else h.q == h.produced == h.consumed == []
  {
    ret := h.WriteReg(CLEAN, [0x00]);
  }
}
