/** What the platform gets back for each packet: which event, which error code, and what it can read
    in the packets sent. */
module HidAnswers {
  import opened Octets
  import opened HidFraming
  import opened HidReceiver
  import opened HidDelivery

  /** A message is under way on the packet's own channel. */
  predicate OwnTransaction(s: Receiver, p: Packet) {
    s.asm.Status() == BUFFERING && s.asm.cid == CidOf(p)
  }

  /** The code a packet other than CTAPHID_INIT is refused with, 0 when it is not refused. A
      continuation without a transaction is not refused but ignored. */
  function RefusalCode(s: Receiver, p: Packet): u8 {
    if CidOf(p) == 0xffff_ffff then 0x0b
    else if OwnTransaction(s, p) then
      if !IsCont(p) || SeqOf(p) != s.asm.seqNo + 1 then 0x04 else 0
    else if IsCont(p) then 0
    else if s.asm.Status() == BUFFERING || !HasRoom(s.table, CidOf(p)) then 0x06
    else if LengthOf(p) > 7609 || (LengthOf(p) == 0 && CmdOf(p) in {0x90, 0x83}) then 0x03
    else 0
  }

  /** Every packet but CTAPHID_INIT is answered by the table above; one that is not refused is ignored
      exactly when it is a continuation of nothing, and otherwise taken. */
  lemma AnswerIsExact(s: Receiver, p: Packet, now: u64)
    requires Inv(s) && !IsInit(p)
    ensures var (e, code) := (Handle(s, p, now).event, RefusalCode(s, p));
            if code != 0 then e == Refused(code)
            else if IsCont(p) && !OwnTransaction(s, p) then e == Ignored
            else e == Pending || (e.Delivered? && e.cid == CidOf(p))
  {
    hide Take, Refresh, Release, SlotOf, FreeSlot;
    if IsCont(p) || LengthOf(p) <= BUFFER_SIZE {
      TakeFields(s.asm, p);
      TakeSucceeds(s.asm, p);
    }
    AddedIsKnown(s.table, CidOf(p), now);
  }

  lemma TakeSucceeds(a: Assembly, p: Packet)
    requires IsCont(p) || LengthOf(p) <= BUFFER_SIZE
    ensures Take(a, p).1 <==> !IsCont(p) || a.seqNo + 1 == SeqOf(p)
    ensures Take(a, p).1 ==> Take(a, p).0.bcnt == if IsCont(p) then a.bcnt else LengthOf(p)
  {
    hide Splice;
  }

  lemma AddedIsKnown(t: Table, cid: u32, now: u64)
    ensures !Known(t, cid) ==> (Known(Add(t, cid, now), cid) <==> FreeSlot(t) >= 0)
  {
    hide SlotOf, FreeSlot;
    if FreeSlot(t) >= 0 { assert Add(t, cid, now)[FreeSlot(t)].cid == cid; }
  }

  /** What is refused is answered by one error packet on the packet's channel with the code in it. */
  lemma ErrorIsReadable(s: Receiver, p: Packet, now: u64)
    requires Handle(s, p, now).event.Refused?
    ensures var o := Handle(s, p, now);
            && |o.sent| == 1 && CidOf(o.sent[0]) == CidOf(p) && CmdOf(o.sent[0]) == 0xbf
            && LengthOf(o.sent[0]) == 1 && o.sent[0][7] == o.event.code
  {
    hide Buffer, Release;
    var code := Handle(s, p, now).event.code;
    PacketFields(CidOf(p), CMD_ERROR, 1, [code], 0);
    var q := PacketAt(CidOf(p), CMD_ERROR, 1, [code], 0);
    assert q[7..8][0] == q[7];
  }

  /** A sequence error ends the transaction; any other refusal leaves one under way as it is, and an
      idle receiver idle. */
  lemma RefusalKeepsOthers(s: Receiver, p: Packet, now: u64)
    requires Inv(s) && !IsInit(p) && RefusalCode(s, p) != 0
    ensures var asm := Handle(s, p, now).state.asm;
            if RefusalCode(s, p) == 0x04 || s.asm.Status() == EMPTY then asm.Status() == EMPTY else asm == s.asm
  {
    hide Take, Refresh, Release, SlotOf, FreeSlot;
    if IsCont(p) || LengthOf(p) <= BUFFER_SIZE {
      TakeFields(s.asm, p);
      TakeSucceeds(s.asm, p);
    }
    AddedIsKnown(s.table, CidOf(p), now);
  }

  /** A ping comes back whole, a wink is confirmed by an empty message, and to no other command does
      the transport itself answer. */
  lemma EchoIsExact(s: Receiver, p: Packet, now: u64)
    requires Handle(s, p, now).event.Delivered?
    ensures var o := Handle(s, p, now);
            && (o.event.cmd == 0x81 ==> o.sent == Packets(CidOf(p), 0x81, |o.event.msg|, o.event.msg))
            && (o.event.cmd == 0x88 ==> o.sent == Packets(CidOf(p), 0x88, 0, []))
            && (o.event.cmd != 0x81 && o.event.cmd != 0x88 ==> o.sent == [])
  {
    hide Buffer, Release;
  }

  /** Whatever ends an exchange leaves its channel's slot free, but for the refusal of an empty CBOR or
      MSG message, which leaves it busy until it times out. */
  lemma EndsAreReleased(s: Receiver, p: Packet, now: u64)
    requires !Handle(s, p, now).event.Pending? && !Handle(s, p, now).event.Ignored?
    requires !Handle(s, p, now).event.Stopped?
    ensures var (e, t) := (Handle(s, p, now).event, Handle(s, p, now).state.table);
            var cid := if e.Synced? then e.channel else CidOf(p);
            Known(t, cid) ==> (t[SlotOf(t, cid)].busy <==> !IsInit(p) && e == Refused(0x03) && LengthOf(p) == 0)
  {
    hide Buffer, Refresh, Release, Add, Packets;
    var (s1, verdict) := Buffer(s, p, now);
    if IsInit(p) { SyncedIsFree(s, p, now); } else { AcceptedIsBusy(s, p, now); }
    ReleasedIsFree(s1.table, CidOf(p));
  }

  lemma SyncedIsFree(s: Receiver, p: Packet, now: u64)
    requires IsInit(p)
    ensures var (s1, v) := Buffer(s, p, now);
            && (v.Sync? || v.Reject?)
            && (v.Sync? ==> Known(s1.table, v.channel) ==> !s1.table[SlotOf(s1.table, v.channel)].busy)
  {
    hide SlotOf, FreeSlot, Refresh, Release, Add;
    var cid := if CidOf(p) == BROADCAST_CID then NextCid(s.lastCid) else CidOf(p);
    ReleasedIsFree(Refresh(s.table, cid, now), cid);
    ReleasedIsFree(Add(s.table, cid, now), cid);
  }

  lemma AcceptedIsBusy(s: Receiver, p: Packet, now: u64)
    requires !IsInit(p)
    ensures var (s1, v) := Buffer(s, p, now);
            && !v.Sync? && (v == Reject(0x03) ==> LengthOf(p) != 0)
            && (v.Accept? ==>
                  && Known(s1.table, CidOf(p)) && s1.table[SlotOf(s1.table, CidOf(p))].busy
                  && (s1.asm.bcnt == 0 <==> !IsCont(p) && LengthOf(p) == 0))
  {
    hide Splice, SlotOf, Refresh, Add;
    RefreshedIsBusy(s.table, CidOf(p), now);
    RefreshedIsBusy(Add(s.table, CidOf(p), now), CidOf(p), now);
  }

  lemma ReleasedIsFree(t: Table, cid: u32)
    ensures var u := Release(t, cid); Known(u, cid) ==> !u[SlotOf(u, cid)].busy
  {
    if Known(t, cid) { assert Release(t, cid)[SlotOf(t, cid)].cid == cid; }
  }

  lemma RefreshedIsBusy(t: Table, cid: u32, now: u64)
    ensures var u := Refresh(t, cid, now); Known(t, cid) ==> Known(u, cid) && u[SlotOf(u, cid)].busy
  {
    if Known(t, cid) { assert Refresh(t, cid, now)[SlotOf(t, cid)].cid == cid; }
  }

  /** A packet leaves every slot in use by a channel other than its own and the one it is given alone. */
  lemma OthersAreUntouched(s: Receiver, p: Packet, now: u64, i: nat)
    requires i < CID_MAX && s.table[i].busy && s.table[i].cid != CidOf(p)
    requires IsInit(p) ==> s.table[i].cid != Given(s, p)
    ensures Handle(s, p, now).state.table[i] == s.table[i]
  {
    hide Buffer, Refresh, Release, Add, SlotOf, FreeSlot, Packets, Echo;
    BufferLeavesOthers(s, p, now, i);
    OtherSlot(Buffer(s, p, now).0.table, CidOf(p), now, i);
  }

  lemma BufferLeavesOthers(s: Receiver, p: Packet, now: u64, i: nat)
    requires i < CID_MAX && s.table[i].busy && s.table[i].cid != CidOf(p)
    requires IsInit(p) ==> s.table[i].cid != Given(s, p)
    ensures Buffer(s, p, now).0.table[i] == s.table[i]
  {
    hide Take, Refresh, Release, Add, SlotOf, FreeSlot;
    var cid := if IsInit(p) then Given(s, p) else CidOf(p);
    OtherSlot(s.table, cid, now, i);
    OtherSlot(Add(s.table, cid, now), cid, now, i);
    OtherSlot(Refresh(s.table, cid, now), cid, now, i);
  }

  lemma OtherSlot(t: Table, cid: u32, now: u64, i: nat)
    requires i < CID_MAX && t[i].busy && t[i].cid != cid
    ensures Add(t, cid, now)[i] == Refresh(t, cid, now)[i] == Release(t, cid)[i] == t[i]
  {
  }

  // ----- CTAPHID_INIT -----

  /** The channel that a CTAPHID_INIT is given: a new one on the broadcast channel, else its own. */
  function Given(s: Receiver, p: Packet): u32 {
    if CidOf(p) != 0xffff_ffff then CidOf(p) else if s.lastCid >= 0xffff_fffe then 1 else s.lastCid + 1
  }

  /** CTAPHID_INIT ends any transaction. It is refused for a wrong length, channel 0, or a full table
      in which its channel has no slot; else its channel is known from then on. */
  lemma InitIsExact(s: Receiver, p: Packet, now: u64)
    requires IsInit(p)
    ensures var o := Handle(s, p, now);
            if LengthOf(p) != 8 then o.event == Refused(0x03)
            else if CidOf(p) == 0 then o.event == Refused(0x0b)
            else && o.state.asm.Status() == EMPTY
                 && o.state.lastCid == (if CidOf(p) == 0xffff_ffff then Given(s, p) else s.lastCid)
                 && (if FreeSlot(s.table) >= 0 || (CidOf(p) != 0xffff_ffff && Known(s.table, CidOf(p)))
                     then o.event == Synced(Given(s, p)) && Known(o.state.table, Given(s, p))
                     else o.event == Refused(0x06))
  {
    hide SlotOf, FreeSlot, Refresh, Release, Add;
    AddedOrKnown(s.table, Given(s, p), now);
  }

  lemma AddedOrKnown(t: Table, cid: u32, now: u64)
    ensures Known(t, cid) ==> Known(Release(Refresh(t, cid, now), cid), cid)
    ensures FreeSlot(t) >= 0 ==> Known(Release(Add(t, cid, now), cid), cid)
  {
    hide SlotOf, FreeSlot;
    if Known(t, cid) {
      KnownStays(t, cid, cid, now);
      KnownStays(Refresh(t, cid, now), cid, cid, now);
    }
    if FreeSlot(t) >= 0 {
      assert Add(t, cid, now)[FreeSlot(t)].cid == cid;
      KnownStays(Add(t, cid, now), cid, cid, now);
    }
  }

  /** The platform finds its nonce and its channel in the one packet that answers, with the protocol
      version 2 and the capabilities wink and CBOR. */
  lemma InitIsReadable(s: Receiver, p: Packet, now: u64)
    requires Handle(s, p, now).event.Synced?
    ensures var o := Handle(s, p, now);
            && |o.sent| == 1 && CidOf(o.sent[0]) == CidOf(p) && CmdOf(o.sent[0]) == 0x86 && LengthOf(o.sent[0]) == 17
            && o.sent[0][7..15] == p[7..15]
            && LittleEndian32(o.sent[0][15], o.sent[0][16], o.sent[0][17], o.sent[0][18]) == o.event.channel
            && o.sent[0][19..24] == [2, 0, 0, 0, 5]
  {
    hide Buffer, PacketAt, WordBytes;
    var channel := Handle(s, p, now).event.channel;
    var msg := InitResponse(p[7..15], channel);
    PacketFields(CidOf(p), CMD_INIT, 17, msg, 0);
    var q := PacketAt(CidOf(p), CMD_INIT, 17, msg, 0);
    assert q[7..24] == msg;
    InitParts(p[7..15], channel, q);
  }

  lemma InitParts(nonce: seq<u8>, channel: u32, q: Packet)
    requires |nonce| == 8 && q[7..24] == InitResponse(nonce, channel)
    ensures q[7..15] == nonce && q[19..24] == [2, 0, 0, 0, 5]
    ensures LittleEndian32(q[15], q[16], q[17], q[18]) == channel
  {
    var msg := InitResponse(nonce, channel);
    assert q[7..15] == q[7..24][..8] && q[19..24] == q[7..24][12..];
    assert q[7..24][8] == q[15] && q[7..24][9] == q[16] && q[7..24][10] == q[17] && q[7..24][11] == q[18];
    WordRoundTrip(channel);
  }

  // ----- timeouts -----

  /** Busy, and last used 750 ms ago or longer, on a clock of 64 bits. */
  predicate Overdue(slot: Slot, now: u64) {
    slot.busy && (now - slot.lastUsed) % 0x1_0000_0000_0000_0000 >= 750
  }

  /** Exactly the overdue slots are released, and a transaction on the channel of one of them ends. */
  lemma TimeoutsAreExact(s: Receiver, now: u64)
    ensures var t := CheckTimeouts(s, now).0;
            && t.lastCid == s.lastCid
            && (forall i :: 0 <= i < CID_MAX ==>
                  t.table[i] == Slot(s.table[i].cid, s.table[i].lastUsed, s.table[i].busy && !Overdue(s.table[i], now)))
            && (if exists i :: 0 <= i < CID_MAX && Overdue(s.table[i], now) && s.table[i].cid == s.asm.cid
                then t.asm.Status() == EMPTY else t.asm == s.asm)
  {
    var t := CheckTimeouts(s, now).0;
    forall i | 0 <= i < CID_MAX
      ensures Overdue(s.table[i], now) == Expired(s.table[i], now)
    {
    }
  }

  /** One error packet with code 5 for each overdue slot, and none else. */
  lemma TimeoutErrorsAreExact(s: Receiver, now: u64, q: Packet)
    ensures q in CheckTimeouts(s, now).1 <==>
              exists i :: 0 <= i < CID_MAX && Overdue(s.table[i], now)
                          && q == PacketAt(s.table[i].cid, 0xbf, 1, [0x05], 0)
  {
    ErrorsAmong(s.table, now, CID_MAX, q);
  }

  lemma {:induction false} ErrorsAmong(t: Table, now: u64, n: nat, q: Packet)
    requires n <= CID_MAX
    ensures q in TimeoutErrors(t, now, n) <==>
              exists i :: 0 <= i < n && Overdue(t[i], now) && q == PacketAt(t[i].cid, 0xbf, 1, [0x05], 0)
  {
    hide PacketAt;
    if n > 0 {
      ErrorsAmong(t, now, n - 1, q);
      var e := TimeoutError(t[n - 1], now);
      assert q in e <==> Overdue(t[n - 1], now) && q == PacketAt(t[n - 1].cid, 0xbf, 1, [0x05], 0);
    }
  }
}
