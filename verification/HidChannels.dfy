/** When each channel has a slot of the channel table to itself. */
module HidChannels {
  import opened Octets
  import opened HidFraming
  import opened HidReceiver
  import opened HidDelivery
  import opened Runs

  /** Where a channel is found depends on the channel ids only. */
  lemma SameSlot(t: Table, u: Table, c: u32)
    requires forall i :: 0 <= i < CID_MAX ==> u[i].cid == t[i].cid
    ensures SlotOf(u, c) == SlotOf(t, c)
  {
  }

  /** No channel is busy in two slots, and no channel id is one that has yet to be handed out. */
  ghost predicate Separate(s: Receiver) {
    && (forall i :: 0 <= i < CID_MAX && s.table[i].busy ==> i == SlotOf(s.table, s.table[i].cid))
    && (forall i :: 0 <= i < CID_MAX ==> s.table[i].cid <= s.lastCid)
  }

  /** Platforms use the channels they were given: packets are broadcasts or on an id that has been
      handed out, and ids are left. */
  predicate Mannered(s: Receiver, input: Input) {
    s.lastCid < BROADCAST_CID - 1 && (input.Arrive? ==> CidOf(input.p) == BROADCAST_CID || CidOf(input.p) <= s.lastCid)
  }

  lemma AddSeparates(t: Table, cid: u32, now: u64, last: u32)
    requires Separate(Receiver(t, EMPTY_BUFFER, last)) && !Known(t, cid) && cid <= last
    ensures Separate(Receiver(Add(t, cid, now), EMPTY_BUFFER, last))
    ensures FreeSlot(t) >= 0 ==> Known(Add(t, cid, now), cid)
  {
    var u, f := Add(t, cid, now), FreeSlot(t);
    if f >= 0 {
      assert u[f].cid == cid;
      forall i | 0 <= i < CID_MAX && u[i].busy ensures i == SlotOf(u, u[i].cid) {
        if i != f { assert i == SlotOf(t, t[i].cid); }
      }
    }
  }

  lemma SameIdsSeparate(t: Table, u: Table, last: u32)
    requires Separate(Receiver(t, EMPTY_BUFFER, last))
    requires forall i :: 0 <= i < CID_MAX ==> u[i].cid == t[i].cid
    requires forall i :: 0 <= i < CID_MAX && u[i].busy ==> t[i].busy || i == SlotOf(t, t[i].cid)
    ensures Separate(Receiver(u, EMPTY_BUFFER, last))
  {
    forall i | 0 <= i < CID_MAX && u[i].busy ensures i == SlotOf(u, u[i].cid) { SameSlot(t, u, t[i].cid); }
  }

  lemma RefreshSeparates(t: Table, cid: u32, now: u64, last: u32)
    requires Separate(Receiver(t, EMPTY_BUFFER, last))
    ensures Separate(Receiver(Refresh(t, cid, now), EMPTY_BUFFER, last))
    ensures Separate(Receiver(Release(t, cid), EMPTY_BUFFER, last))
  {
    SameIdsSeparate(t, Refresh(t, cid, now), last);
    SameIdsSeparate(t, Release(t, cid), last);
  }

  lemma SynchronizeSeparates(s: Receiver, p: Packet, now: u64)
    requires Separate(s) && Mannered(s, Arrive(p, now)) && WellFormedInit(p)
    ensures Separate(Synchronize(s, p, now).0)
  {
    hide Separate, SlotOf, FreeSlot, Add, Refresh, Release;
    var broadcast := CidOf(p) == BROADCAST_CID;
    var cid := if broadcast then NextCid(s.lastCid) else CidOf(p);
    var last := if broadcast then cid else s.lastCid;
    Rebased(s, EMPTY_BUFFER, s.lastCid);
    if broadcast { NewIdIsUnknown(s); }
    Rebased(s, EMPTY_BUFFER, last);
    if Known(s.table, cid) {
      RefreshSeparates(s.table, cid, now, last);
      RefreshSeparates(Refresh(s.table, cid, now), cid, now, last);
    } else {
      AddSeparates(s.table, cid, now, last);
      RefreshSeparates(Add(s.table, cid, now), cid, now, last);
    }
    var t := Synchronize(s, p, now).0;
    Rebased(Receiver(t.table, EMPTY_BUFFER, last), t.asm, last);
  }

  /** The buffer does not matter, and more ids may have been handed out. */
  lemma Rebased(s: Receiver, asm: Assembly, last: u32)
    requires Separate(s) && last >= s.lastCid
    ensures Separate(Receiver(s.table, asm, last))
  {
  }

  lemma NewIdIsUnknown(s: Receiver)
    requires Separate(s) && s.lastCid < BROADCAST_CID - 1
    ensures !Known(s.table, NextCid(s.lastCid)) && NextCid(s.lastCid) > s.lastCid
  {
  }

  lemma BufferSeparates(s: Receiver, p: Packet, now: u64)
    requires Separate(s) && Mannered(s, Arrive(p, now))
    ensures Separate(Buffer(s, p, now).0)
  {
    hide Separate, SlotOf, FreeSlot, Add, Refresh, Release, Take, Synchronize;
    var cid, last := CidOf(p), s.lastCid;
    if WellFormedInit(p) {
      SynchronizeSeparates(s, p, now);
    } else if !IsInit(p) && cid != BROADCAST_CID {
      Rebased(s, EMPTY_BUFFER, last);
      if !Known(s.table, cid) { AddSeparates(s.table, cid, now, last); }
      RefreshSeparates(s.table, cid, now, last);
      if !Known(s.table, cid) { RefreshSeparates(Add(s.table, cid, now), cid, now, last); }
      var t := Buffer(s, p, now).0;
      assert Separate(Receiver(t.table, EMPTY_BUFFER, last));
      Rebased(Receiver(t.table, EMPTY_BUFFER, last), t.asm, last);
    }
  }

  lemma StepSeparates(s: Receiver, input: Input)
    requires Separate(s) && Mannered(s, input)
    ensures Separate(Next(s, input))
  {
    hide Separate, Buffer, Release;
    var t := Next(s, input);
    match input {
      case Arrive(p, now) =>
        BufferSeparates(s, p, now);
        var s1 := Buffer(s, p, now).0;
        Rebased(s1, EMPTY_BUFFER, s1.lastCid);
        RefreshSeparates(s1.table, CidOf(p), now, s1.lastCid);
        Rebased(Receiver(t.table, EMPTY_BUFFER, s1.lastCid), t.asm, s1.lastCid);
      case Tick(now) =>
        Rebased(s, EMPTY_BUFFER, s.lastCid);
        SameIdsSeparate(s.table, t.table, s.lastCid);
        Rebased(Receiver(t.table, EMPTY_BUFFER, s.lastCid), t.asm, s.lastCid);
    }
  }

  ghost predicate ManneredRun(s: Receiver, ins: seq<Input>) {
    forall i :: 0 <= i < |ins| ==> Mannered(Run(Next, s, ins[..i]), ins[i])
  }

  /** From power-on no channel gets into two slots, as long as packets come on channels that have
      been handed out. */
  lemma {:induction false} ChannelsStaySeparate(ins: seq<Input>)
    requires ManneredRun(POWER_ON, ins)
    ensures Separate(Run(Next, POWER_ON, ins))
  {
    hide Next, Mannered;
    if ins != [] {
      var n := |ins| - 1;
      assert forall i :: 0 <= i < n ==> ins[..n][..i] == ins[..i];
      ChannelsStaySeparate(ins[..n]);
      StepSeparates(Run(Next, POWER_ON, ins[..n]), ins[n]);
    }
  }
}
