/** When a transaction does not time out, in terms of when packets arrive and when the clock is
    looked at. */
module HidTiming {
  import opened Octets
  import opened HidFraming
  import opened HidReceiver
  import opened HidDelivery
  import opened HidChannels
  import opened HidTimeouts
  import opened Runs

  /** When the last packet of channel `c` arrived. */
  function Since(ins: seq<Input>, c: u32): u64 {
    if ins == [] then 0
    else if Own(ins[|ins| - 1], c) then ins[|ins| - 1].now
    else Since(ins[..|ins| - 1], c)
  }

  /** The clock is never looked at 750 ms or more after the last own packet. */
  ghost predicate Timely(ins: seq<Input>, c: u32) {
    forall i :: 0 <= i < |ins| && ins[i].Tick? ==>
      (ins[i].now - Since(ins[..i], c)) % 0x1_0000_0000_0000_0000 < TIMEOUT_MS
  }

  /** No busy slot holds `c` but the one that is found for it. */
  ghost predicate Alone(t: Table, c: u32) {
    forall i :: 0 <= i < CID_MAX && t[i].cid == c && t[i].busy ==> i == SlotOf(t, c)
  }

  /** The slot of `c` was last used at `at`. */
  ghost predicate UsedAt(t: Table, c: u32, at: u64) {
    Known(t, c) && Alone(t, c) && t[SlotOf(t, c)].busy && t[SlotOf(t, c)].lastUsed == at
  }

  lemma FreshIsNotLost(t: Table, c: u32, at: u64, now: u64)
    requires UsedAt(t, c, at) && (now - at) % 0x1_0000_0000_0000_0000 < TIMEOUT_MS
    ensures !Lost(t, c, now, CID_MAX)
  {
  }

  lemma RefreshIsUse(t: Table, c: u32, now: u64)
    requires Alone(t, c)
    ensures Known(t, c) ==> UsedAt(Refresh(t, c, now), c, now)
    ensures !Known(t, c) && Known(Add(t, c, now), c) ==> UsedAt(Refresh(Add(t, c, now), c, now), c, now)
  {
    hide SlotOf, FreeSlot;
    var u := Add(t, c, now);
    if !Known(t, c) && FreeSlot(t) >= 0 {
      assert u[FreeSlot(t)].cid == c;
      SameSlot(u, Refresh(u, c, now), c);
    }
    if Known(t, c) { SameSlot(t, Refresh(t, c, now), c); }
  }

  lemma OwnPacketIsUse(s: Receiver, c: u32, p: Packet, now: u64)
    requires CidOf(p) == c && Handle(s, p, now).event == Pending
    requires Alone(s.table, c)
    ensures UsedAt(Handle(s, p, now).state.table, c, now)
  {
    hide Take, SlotOf, FreeSlot, UsedAt, Alone, Refresh, Add, Release;
    RefreshIsUse(s.table, c, now);
  }

  lemma UsedIsAlone(t: Table, c: u32, at: u64)
    requires UsedAt(t, c, at)
    ensures Alone(t, c)
  {
  }

  lemma ForeignPacketIsNoUse(s: Receiver, c: u32, p: Packet, now: u64, at: u64)
    requires s.asm.Status() == BUFFERING && s.asm.cid == c
    requires CidOf(p) != c && !WellFormedInit(p) && UsedAt(s.table, c, at)
    ensures UsedAt(Handle(s, p, now).state.table, c, at)
  {
    hide UsedAt, Take, Release, SlotOf, FreeSlot, Add, Refresh;
    ForeignReleaseIsNoUse(s.table, c, CidOf(p), at);
  }

  lemma ForeignReleaseIsNoUse(t: Table, c: u32, other: u32, at: u64)
    requires UsedAt(t, c, at) && other != c
    ensures UsedAt(Release(t, other), c, at) && Known(t, c)
  {
    hide SlotOf;
    SameSlot(t, Release(t, other), c);
  }

  lemma TickIsNoUse(s: Receiver, c: u32, now: u64, at: u64)
    requires UsedAt(s.table, c, at) && !Lost(s.table, c, now, CID_MAX)
    ensures UsedAt(CheckTimeouts(s, now).0.table, c, at)
  {
    SameSlot(s.table, CheckTimeouts(s, now).0.table, c);
  }

  /** If the clock is looked at in time, the channel does not time out. */
  lemma {:induction false} TimelyHasNoTimeout(s: Receiver, c: u32, cmd: u8, msg: seq<u8>, ins: seq<Input>, n: nat)
    requires Sendable(c, cmd, msg) && Admits(s, c) && Carries(ins, c, cmd, msg)
    requires Alone(s.table, c) && Timely(ins, c) && n <= |ins|
    ensures NoTimeout(s, c, ins, n)
    ensures 0 < n < |ins| ==> UsedAt(Run(Next, s, ins[..n]).table, c, Since(ins[..n], c))
  {
    hide Step, Packets, OwnPackets, UsedAt, Alone, Lost, Run, Carries, Admits, Sendable, Since, Own;
    if n > 0 {
      var i := n - 1;
      TimelyHasNoTimeout(s, c, cmd, msg, ins, i);
      FirstIsOwn(ins, c, cmd, msg);
      if ins[i].Tick? { FreshIsNotLost(Run(Next, s, ins[..i]).table, c, Since(ins[..i], c), ins[i].now); }
      if n < |ins| { UseAfter(s, c, cmd, msg, ins, i); }
    }
  }

  lemma SinceStep(ins: seq<Input>, c: u32, i: nat)
    requires i < |ins|
    ensures Since(ins[..i + 1], c) == if Own(ins[i], c) then ins[i].now else Since(ins[..i], c)
  {
    assert ins[..i + 1][..i] == ins[..i];
  }

  lemma Beginning(s: Receiver, ins: seq<Input>)
    ensures Run(Next, s, ins[..0]) == s
  {
  }

  lemma UseAfter(s: Receiver, c: u32, cmd: u8, msg: seq<u8>, ins: seq<Input>, i: nat)
    requires Sendable(c, cmd, msg) && Admits(s, c) && Carries(ins, c, cmd, msg)
    requires Alone(s.table, c) && i + 1 < |ins| && NoTimeout(s, c, ins, i + 1)
    requires i > 0 ==> UsedAt(Run(Next, s, ins[..i]).table, c, Since(ins[..i], c))
    ensures UsedAt(Run(Next, s, ins[..i + 1]).table, c, Since(ins[..i + 1], c))
  {
    hide Handle, Packets, OwnPackets, Alone, Lost, CheckTimeouts, UsedAt, Admits, Sendable, Run;
    var t := Run(Next, s, ins[..i]);
    SinceStep(ins, c, i);
    Beginning(s, ins);
    InterleavedState(s, c, cmd, msg, ins, i);
    CarriedSoFar(c, cmd, msg, ins, i);
    CarriedSoFar(c, cmd, msg, ins, i + 1);
    CarriedStep(s, c, cmd, msg, ins, i);
    RunStep(Next, s, ins, i);
    if i > 0 { UsedIsAlone(t.table, c, Since(ins[..i], c)); }
    if Own(ins[i], c) {
      OwnPacketIsUse(t, c, ins[i].p, ins[i].now);
    } else if ins[i].Tick? {
      TickIsNoUse(t, c, ins[i].now, Since(ins[..i], c));
    } else {
      PacketStarts(|msg|, |OwnPackets(ins[..i], c)|);
      ForeignPacketIsNoUse(t, c, ins[i].p, ins[i].now, Since(ins[..i], c));
    }
  }

  // ----- delivery in time -----

  lemma SeparateIsAlone(s: Receiver, c: u32)
    requires Separate(s)
    ensures Alone(s.table, c)
  {
  }

  /** A message is delivered whole and once, whatever other channels send in between, if the clock
      is never looked at 750 ms or more after its last packet and its channel is in one slot. */
  lemma TimelyInOneSlot(s: Receiver, c: u32, cmd: u8, msg: seq<u8>, ins: seq<Input>)
    requires Sendable(c, cmd, msg) && Admits(s, c) && Carries(ins, c, cmd, msg)
    requires Alone(s.table, c) && Timely(ins, c)
    ensures OutcomeAt(s, ins, |ins| - 1).event == Delivered(c, cmd, msg)
    ensures forall k :: 0 <= k < |ins| - 1 ==> !OutcomeAt(s, ins, k).event.Delivered?
  {
    hide Step, Packets, OwnPackets, Carries, Alone, NoTimeout;
    TimelyHasNoTimeout(s, c, cmd, msg, ins, |ins|);
    InterleavedDelivery(s, c, cmd, msg, ins);
  }

  /** After any history from power-on in which packets came on channels that had been handed out,
      that is a condition on arrival and clock times only. */
  lemma TimelyDelivery(before: seq<Input>, c: u32, cmd: u8, msg: seq<u8>, ins: seq<Input>)
    requires ManneredRun(POWER_ON, before) && Admits(Run(Next, POWER_ON, before), c)
    requires Sendable(c, cmd, msg) && Carries(ins, c, cmd, msg) && Timely(ins, c)
    ensures var s := Run(Next, POWER_ON, before);
            && OutcomeAt(s, ins, |ins| - 1).event == Delivered(c, cmd, msg)
            && forall k :: 0 <= k < |ins| - 1 ==> !OutcomeAt(s, ins, k).event.Delivered?
  {
    hide Step, Packets, OwnPackets, Carries, Alone, Separate, ManneredRun, Timely, Admits, Sendable;
    ChannelsStaySeparate(before);
    var s := Run(Next, POWER_ON, before);
    SeparateIsAlone(s, c);
    TimelyInOneSlot(s, c, cmd, msg, ins);
  }

  // ----- a channel in two slots -----

  /** The two packets of a message on channel 2, with a look at the clock between them, 750 ms after
      power-on and 1 ms after the first packet. */
  function Late(cmd: u8, msg: seq<u8>): seq<Input>
    requires INIT_PAYLOAD_SIZE < |msg| <= INIT_PAYLOAD_SIZE + CONT_PAYLOAD_SIZE
  {
    var ps := Packets(2, cmd, |msg|, msg);
    [Arrive(ps[0], 749), Tick(750), Arrive(ps[1], 750)]
  }

  lemma TakePending(a: Assembly, p: Packet)
    requires !IsCont(p) && INIT_PAYLOAD_SIZE < LengthOf(p) <= BUFFER_SIZE
    ensures Take(a, p).1 && Take(a, p).0.Status() == BUFFERING
  {
    hide Splice;
  }

  /** The first packet of a message on channel 2, which has not been handed out yet. */
  lemma ChannelAdopted(cmd: u8, msg: seq<u8>)
    requires Sendable(2, cmd, msg) && |msg| > INIT_PAYLOAD_SIZE
    ensures var t := Next(POWER_ON, Arrive(Packets(2, cmd, |msg|, msg)[0], 0));
            t.table == POWER_ON.table[0 := Slot(2, 0, true)] && t.lastCid == 1
  {
    hide Take, SlotOf, FreeSlot, PacketAt;
    var p := Packets(2, cmd, |msg|, msg)[0];
    PacketFields(2, cmd, |msg|, msg, 0);
    TakePending(POWER_ON.asm, p);
    var u := Add(POWER_ON.table, 2, 0);
    assert !POWER_ON.table[0].busy;
    assert FreeSlot(POWER_ON.table) == 0;
    assert u[0].cid == 2;
    assert SlotOf(u, 2) == 0;
  }

  /** A CTAPHID_INIT then hands out id 2, for a second slot. */
  lemma ChannelShared(s: Receiver, p: Packet)
    requires s.table == POWER_ON.table[0 := Slot(2, 0, true)] && s.lastCid == 1
    requires WellFormedInit(p) && CidOf(p) == BROADCAST_CID
    ensures var t := Next(s, Arrive(p, 0));
            t.table == POWER_ON.table[0 := Slot(2, 0, false)][1 := Slot(2, 0, true)] && t.asm.Status() == EMPTY
  {
    assert FreeSlot(s.table) == 1;
    var u := Add(s.table, 2, 0);
    assert u[0].cid == 2;
    assert SlotOf(u, 2) == 0;
  }

  const SHARED := POWER_ON.table[0 := Slot(2, 0, false)][1 := Slot(2, 0, true)]

  lemma SharedSlotExpires(s: Receiver, cmd: u8, msg: seq<u8>)
    requires s.table == SHARED && s.asm.Status() == EMPTY
    requires Sendable(2, cmd, msg) && |msg| > INIT_PAYLOAD_SIZE
    ensures var t := Next(s, Arrive(Packets(2, cmd, |msg|, msg)[0], 749)); Lost(t.table, 2, 750, CID_MAX)
  {
    hide Take, SlotOf, PacketAt, Lost;
    var p := Packets(2, cmd, |msg|, msg)[0];
    PacketFields(2, cmd, |msg|, msg, 0);
    TakePending(s.asm, p);
    assert s.table[0].cid == 2;
    assert SlotOf(s.table, 2) == 0;
    var t := Next(s, Arrive(p, 749));
    assert t.table[1] == Slot(2, 0, true);
    ExpiredIsLost(t.table, 1, 2, 750);
  }

  lemma ExpiredIsLost(t: Table, i: nat, c: u32, now: u64)
    requires i < CID_MAX && Expired(t[i], now) && t[i].cid == c
    ensures Lost(t, c, now, CID_MAX)
  {
  }

  lemma SharedState(cmd: u8, msg: seq<u8>, init: Packet)
    requires Sendable(2, cmd, msg) && |msg| > INIT_PAYLOAD_SIZE
    requires WellFormedInit(init) && CidOf(init) == BROADCAST_CID
    ensures var before := [Arrive(Packets(2, cmd, |msg|, msg)[0], 0), Arrive(init, 0)];
            var s := Run(Next, POWER_ON, before);
            s.table == SHARED && s.asm.Status() == EMPTY && Inv(s) && Admits(s, 2)
  {
    hide Step, Packets, Inv;
    var before := [Arrive(Packets(2, cmd, |msg|, msg)[0], 0), Arrive(init, 0)];
    assert before[..2] == before && before[..0] == [];
    RunStep(Next, POWER_ON, before, 0);
    RunStep(Next, POWER_ON, before, 1);
    ChannelAdopted(cmd, msg);
    ChannelShared(Next(POWER_ON, before[0]), init);
    PowerOnIsSafe();
    RunKeepsInv(POWER_ON, before);
    assert SHARED[0].cid == 2;
  }

  lemma PowerOnIsSafe()
    ensures Inv(POWER_ON)
  {
  }

  /** A platform that uses an id before it is handed out can so get into two slots, of which one is
      never refreshed: its next message, sent in time, is dropped. */
  lemma SharedChannelTimesOut(cmd: u8, msg: seq<u8>, init: Packet)
    requires Sendable(2, cmd, msg) && INIT_PAYLOAD_SIZE < |msg| <= INIT_PAYLOAD_SIZE + CONT_PAYLOAD_SIZE
    requires WellFormedInit(init) && CidOf(init) == BROADCAST_CID
    ensures var s := Run(Next, POWER_ON, [Arrive(Packets(2, cmd, |msg|, msg)[0], 0), Arrive(init, 0)]);
            && Admits(s, 2) && Carries(Late(cmd, msg), 2, cmd, msg) && Timely(Late(cmd, msg), 2)
            && OutcomeAt(s, Late(cmd, msg), 2).event != Delivered(2, cmd, msg)
  {
    hide Step, Packets, Inv, Carries, Timely, Admits, Lost, Sendable;
    var ins := Late(cmd, msg);
    SharedState(cmd, msg, init);
    var s := Run(Next, POWER_ON, [Arrive(Packets(2, cmd, |msg|, msg)[0], 0), Arrive(init, 0)]);
    LateIsTimely(cmd, msg);
    assert ins[..1] == [ins[0]] && [ins[0]][..0] == [];
    assert Run(Next, s, ins[..1]) == Next(s, ins[0]);
    SharedSlotExpires(s, cmd, msg);
    assert ins[1].Tick? && !NoTimeout(s, 2, ins, |ins|);
    DeliveredExactly(s, 2, cmd, msg, ins);
  }

  lemma LateIsTimely(cmd: u8, msg: seq<u8>)
    requires Sendable(2, cmd, msg) && INIT_PAYLOAD_SIZE < |msg| <= INIT_PAYLOAD_SIZE + CONT_PAYLOAD_SIZE
    ensures Carries(Late(cmd, msg), 2, cmd, msg) && Timely(Late(cmd, msg), 2)
  {
    hide PacketAt, OwnPackets, Since, CidOf;
    var ps, ins := Packets(2, cmd, |msg|, msg), Late(cmd, msg);
    PacketFields(2, cmd, |msg|, msg, 0);
    PacketFields(2, cmd, |msg|, msg, 1);
    assert ps == [ps[0], ps[1]];
    ThreeInputs(ins, 2);
    assert OwnPackets(ins, 2) == [ps[0]] + [ps[1]] == ps;
  }

  /** An own packet, a look at the clock, and an own packet. */
  lemma ThreeInputs(ins: seq<Input>, c: u32)
    requires |ins| == 3 && Own(ins[0], c) && ins[1].Tick? && Own(ins[2], c)
    ensures OwnPackets(ins, c) == [ins[0].p] + [ins[2].p]
    ensures Since(ins[..1], c) == ins[0].now
  {
    hide CidOf;
    assert ins[..3] == ins && ins[..0] == [];
    OwnPacketsStep(ins, c, 0);
    OwnPacketsStep(ins, c, 1);
    OwnPacketsStep(ins, c, 2);
    SinceStep(ins, c, 0);
  }
}
