/** What runs of the CTAPHID receiver guarantee (CTAP 2.0 sections 8.1.4 and 8.1.5). */
module HidDelivery {
  import opened Octets
  import opened HidFraming
  import opened HidReceiver
  import opened Runs

  datatype Input = Arrive(p: Packet, now: u64) | Tick(now: u64)

  function Step(s: Receiver, input: Input): Outcome {
    match input
    case Arrive(p, now) => Handle(s, p, now)
    case Tick(now) => var (s1, errors) := CheckTimeouts(s, now); Outcome(s1, Ignored, errors)
  }

  function Next(s: Receiver, input: Input): Receiver {
    Step(s, input).state
  }

  /** What input `i` of a run leads to. */
  function OutcomeAt(s: Receiver, ins: seq<Input>, i: nat): Outcome
    requires i < |ins|
  {
    Step(Run(Next, s, ins[..i]), ins[i])
  }

  const POWER_ON := Receiver(seq(CID_MAX, _ => Slot(0, 0, false)), EMPTY_BUFFER, 1)

  // ----- safety -----

  /** Holds between packets in every run from power-on. */
  predicate Inv(s: Receiver) {
    && s.asm.cmd != CMD_INIT
    && s.asm.Status() != BUFFERED
    && (s.asm.Status() == BUFFERING ==> s.asm.cid != BROADCAST_CID && Known(s.table, s.asm.cid))
  }

  /** Releasing or refreshing a slot forgets no channel. */
  lemma KnownStays(t: Table, cid: u32, c: u32, now: u64)
    requires Known(t, c)
    ensures Known(Release(t, cid), c) && Known(Refresh(t, cid, now), c)
  {
    var i := SlotOf(t, c);
    assert Release(t, cid)[i].cid == c && Refresh(t, cid, now)[i].cid == c;
  }

  lemma TakeFields(a: Assembly, p: Packet)
    requires IsCont(p) || LengthOf(p) <= BUFFER_SIZE
    ensures var (b, ok) := Take(a, p);
            && b.cid == (if IsCont(p) then a.cid else CidOf(p)) && b.cmd == (if IsCont(p) then a.cmd else CmdOf(p))
            && (!ok ==> b == a.(seqNo := b.seqNo))
  {
    hide Splice;
  }

  lemma AssembleKeepsInv(s: Receiver, p: Packet, now: u64)
    requires Inv(s) && Known(s.table, CidOf(p)) && CidOf(p) != BROADCAST_CID && !IsInit(p)
    ensures var (s1, v) := Assemble(s, p, now);
            && v != Halt
            && s1.asm.cmd != CMD_INIT
            && (v == Accept ==> s1.asm.cid == CidOf(p) && Known(s1.table, CidOf(p)))
            && (v != Accept ==> s1.table == s.table && s1.asm == s.asm.(seqNo := s1.asm.seqNo))
  {
    hide Take, Refresh, SlotOf, FreeSlot;
    if IsCont(p) || LengthOf(p) <= BUFFER_SIZE { TakeFields(s.asm, p); }
    KnownStays(s.table, CidOf(p), CidOf(p), now);
  }

  lemma BufferKeepsInv(s: Receiver, p: Packet, now: u64)
    requires Inv(s)
    ensures var (s1, v) := Buffer(s, p, now);
            && v != Halt
            && s1.asm.cmd != CMD_INIT
            && (v == Accept ==> s1.asm.cid == CidOf(p) != BROADCAST_CID && Known(s1.table, CidOf(p)))
            && (v != Accept && s1.asm.Status() != EMPTY ==>
                  s1.table == s.table && s1.asm == s.asm.(seqNo := s1.asm.seqNo))
  {
    var cid := CidOf(p);
    if !IsInit(p) && cid != BROADCAST_CID {
      var adopt := !Known(s.table, cid) && !IsCont(p) && s.asm.Status() == EMPTY;
      var s1 := if adopt then s.(table := Add(s.table, cid, now)) else s;
      if Known(s1.table, cid) { AssembleKeepsInv(s1, p, now); }
    }
  }

  lemma HandleKeepsInv(s: Receiver, p: Packet, now: u64)
    requires Inv(s)
    ensures Inv(Handle(s, p, now).state) && Handle(s, p, now).event != Stopped
  {
    hide Buffer, Release, SlotOf;
    BufferKeepsInv(s, p, now);
    var (s1, v) := Buffer(s, p, now);
    if Known(s1.table, s1.asm.cid) { KnownStays(s1.table, CidOf(p), s1.asm.cid, now); }
  }

  lemma TimeoutsKeepInv(s: Receiver, now: u64)
    requires Inv(s)
    ensures Inv(CheckTimeouts(s, now).0)
  {
    var s1 := CheckTimeouts(s, now).0;
    if s1.asm.Status() == BUFFERING {
      assert s1.table[SlotOf(s.table, s.asm.cid)].cid == s.asm.cid;
    }
  }

  lemma StepKeepsInv()
    ensures Inductive(Next, Inv)
  {
    forall s: Receiver, input: Input | Inv(s) ensures Inv(Next(s, input)) {
      match input
      case Arrive(p, now) => HandleKeepsInv(s, p, now);
      case Tick(now) => TimeoutsKeepInv(s, now);
    }
  }

  /** Transport safety: from power-on, no sequence of packets and timeouts lets an offset leave
      the buffer, and neither `exit` of the transport is ever reached. */
  lemma TransportSafety(ins: seq<Input>, i: nat)
    requires i < |ins|
    ensures var s := Run(Next, POWER_ON, ins[..i]);
            Inv(s) && s.asm.Valid() && OutcomeAt(POWER_ON, ins, i).event != Stopped
  {
    StepKeepsInv();
    Invariant(Next, Inv, POWER_ON, ins[..i]);
    var s := Run(Next, POWER_ON, ins[..i]);
    if ins[i].Arrive? { HandleKeepsInv(s, ins[i].p, ins[i].now); }
  }

  // ----- reassembly inverts fragmentation -----

  predicate Sendable(c: u32, cmd: u8, msg: seq<u8>) {
    && c != BROADCAST_CID
    && TYPE_INIT <= cmd && cmd != CMD_INIT
    && 1 <= |msg| <= BUFFER_SIZE
  }

  /** The buffer after the first `j` packets of `msg` on channel `c`. */
  predicate Holds(a: Assembly, c: u32, cmd: u8, msg: seq<u8>, j: nat) {
    && a.cid == c && a.cmd == cmd && a.bcnt == |msg|
    && 1 <= j && a.offset == Min(Start(j), |msg|)
    && a.data[..a.offset] == msg[..a.offset]
    && a.seqNo == j - 2
  }

  /** The receiver has taken the first `j` packets of `msg` on channel `c`, and no more. */
  predicate Partial(s: Receiver, c: u32, cmd: u8, msg: seq<u8>, j: nat) {
    Known(s.table, c) && Holds(s.asm, c, cmd, msg, j)
  }

  /** Which channels an idle receiver takes a message from. */
  predicate Admits(s: Receiver, c: u32) {
    s.asm.Status() == EMPTY && HasRoom(s.table, c)
  }

  lemma TakeFirst(a: Assembly, c: u32, cmd: u8, msg: seq<u8>, p: Packet)
    requires Sendable(c, cmd, msg) && p == PacketAt(c, cmd, |msg|, msg, 0)
    ensures CidOf(p) == c && CmdOf(p) == cmd && LengthOf(p) == |msg|
    ensures Take(a, p).1 && Holds(Take(a, p).0, c, cmd, msg, 1)
  {
    PacketFields(c, cmd, |msg|, msg, 0);
  }

  lemma TakeNext(a: Assembly, c: u32, cmd: u8, msg: seq<u8>, j: nat, p: Packet)
    requires Sendable(c, cmd, msg) && 1 <= j < PacketCount(|msg|) && Holds(a, c, cmd, msg, j)
    requires Start(j) <= |msg| && p == PacketAt(c, cmd, |msg|, msg, j)
    ensures CidOf(p) == c && IsCont(p) && a.Status() == BUFFERING
    ensures Take(a, p).1 && Holds(Take(a, p).0, c, cmd, msg, j + 1)
  {
    hide Splice, PacketAt;
    PacketStarts(|msg|, j);
    PacketFields(c, cmd, |msg|, msg, j);
    var n := Stop(j, |msg|) - Start(j);
    SplicedFront(a.data, a.offset, p[5..5 + n]);
    assert msg[..Start(j)] + msg[Start(j)..Stop(j, |msg|)] == msg[..Stop(j, |msg|)];
  }

  lemma BufferFirst(s: Receiver, c: u32, cmd: u8, msg: seq<u8>, p: Packet, now: u64)
    requires Sendable(c, cmd, msg) && Admits(s, c)
    requires p == PacketAt(c, cmd, |msg|, msg, 0)
    ensures var (s1, v) := Buffer(s, p, now); v == Accept && Partial(s1, c, cmd, msg, 1)
  {
    TakeFirst(s.asm, c, cmd, msg, p);
    var t := if Known(s.table, c) then s.table else Add(s.table, c, now);
    if !Known(s.table, c) { assert t[FreeSlot(s.table)].cid == c; }
    KnownStays(t, c, c, now);
  }

  lemma BufferNext(s: Receiver, c: u32, cmd: u8, msg: seq<u8>, j: nat, p: Packet, now: u64)
    requires Sendable(c, cmd, msg) && 1 <= j < PacketCount(|msg|) && Partial(s, c, cmd, msg, j)
    requires Start(j) <= |msg| && p == PacketAt(c, cmd, |msg|, msg, j)
    ensures var (s1, v) := Buffer(s, p, now); v == Accept && Partial(s1, c, cmd, msg, j + 1)
  {
    TakeNext(s.asm, c, cmd, msg, j, p);
    KnownStays(s.table, c, c, now);
  }

  /** The outcome of taking packet `j - 1`: the message is delivered exactly when it was the last. */
  predicate Taken(o: Outcome, c: u32, cmd: u8, msg: seq<u8>, j: nat)
    requires |msg| <= BUFFER_SIZE
  {
    if j < PacketCount(|msg|) then o.event == Pending && Partial(o.state, c, cmd, msg, j)
    else o.event == Delivered(c, cmd, msg) && o.sent == Echo(c, cmd, msg) && o.state.asm.Status() == EMPTY
  }

  lemma DispatchTaken(s: Receiver, c: u32, cmd: u8, msg: seq<u8>, j: nat)
    requires Sendable(c, cmd, msg) && Partial(s, c, cmd, msg, j) && j <= PacketCount(|msg|)
    ensures Taken(Dispatch(s, c), c, cmd, msg, j)
  {
    if j < PacketCount(|msg|) { PacketStarts(|msg|, j); } else { PacketStarts(|msg|, j - 1); }
  }

  /** The receiver before packet `j` of a message: idle and willing, or holding `j` packets. */
  predicate Awaits(s: Receiver, c: u32, cmd: u8, msg: seq<u8>, j: nat) {
    if j == 0 then Admits(s, c) else Partial(s, c, cmd, msg, j)
  }

  lemma TakePacket(s: Receiver, c: u32, cmd: u8, msg: seq<u8>, j: nat, p: Packet, now: u64)
    requires Sendable(c, cmd, msg) && j < PacketCount(|msg|) && Awaits(s, c, cmd, msg, j)
    requires p == Packets(c, cmd, |msg|, msg)[j]
    ensures Taken(Handle(s, p, now), c, cmd, msg, j + 1)
  {
    PacketStarts(|msg|, j);
    PacketFields(c, cmd, |msg|, msg, j);
    if j == 0 { BufferFirst(s, c, cmd, msg, p, now); } else { BufferNext(s, c, cmd, msg, j, p, now); }
    DispatchTaken(Buffer(s, p, now).0, c, cmd, msg, j + 1);
  }

  // ----- isolation of a transaction -----

  predicate Own(input: Input, c: u32) {
    input.Arrive? && CidOf(input.p) == c
  }

  /** A packet of another channel that is not a well-formed CTAPHID_INIT. */
  predicate Foreign(input: Input, c: u32) {
    input.Arrive? && CidOf(input.p) != c && !WellFormedInit(input.p)
  }

  function OwnPackets(ins: seq<Input>, c: u32): seq<Packet> {
    if ins == [] then []
    else OwnPackets(ins[..|ins| - 1], c) + if Own(ins[|ins| - 1], c) then [ins[|ins| - 1].p] else []
  }

  /** While a message is partly received, a foreign packet leaves the buffer as it is. */
  lemma ForeignPacketStutters(s: Receiver, c: u32, p: Packet, now: u64)
    requires s.asm.Status() == BUFFERING && s.asm.cid == c && Known(s.table, c)
    requires CidOf(p) != c && !WellFormedInit(p)
    ensures var o := Handle(s, p, now);
            && o.state.asm == s.asm
            && Known(o.state.table, c)
            && (o.event == Ignored || o.event.Refused?)
  {
    KnownStays(s.table, CidOf(p), c, now);
  }

  /** `ins` carries the packets of `msg` in order, possibly mixed with foreign packets and looks at
      the clock. */
  ghost predicate Carries(ins: seq<Input>, c: u32, cmd: u8, msg: seq<u8>) {
    && ins != [] && Own(ins[0], c) && Own(ins[|ins| - 1], c)
    && (forall i :: 0 <= i < |ins| ==> Own(ins[i], c) || Foreign(ins[i], c) || ins[i].Tick?)
    && |msg| <= BUFFER_SIZE && OwnPackets(ins, c) == Packets(c, cmd, |msg|, msg)
  }

  /** Whenever the clock is looked at in the first `n` inputs, channel `c` has not timed out. */
  ghost predicate NoTimeout(s: Receiver, c: u32, ins: seq<Input>, n: nat)
    requires n <= |ins|
  {
    forall i :: 0 <= i < n && ins[i].Tick? ==> !Lost(Run(Next, s, ins[..i]).table, c, ins[i].now, CID_MAX)
  }

  /** While a message is partly received, a look at the clock leaves the buffer as it is, unless
      its channel has timed out. */
  lemma TickStutters(s: Receiver, c: u32, now: u64)
    requires s.asm.cid == c && Known(s.table, c) && !Lost(s.table, c, now, CID_MAX)
    ensures var o := Step(s, Tick(now));
            o.state.asm == s.asm && Known(o.state.table, c) && o.event == Ignored
  {
    var t := CheckTimeouts(s, now).0.table;
    assert t[SlotOf(s.table, c)].cid == c;
  }

  lemma OwnPacketsStep(ins: seq<Input>, c: u32, i: nat)
    requires i < |ins|
    ensures OwnPackets(ins[..i + 1], c) == OwnPackets(ins[..i], c) + if Own(ins[i], c) then [ins[i].p] else []
  {
    assert ins[..i + 1][..i] == ins[..i];
  }

  lemma {:induction false} OwnPacketsGrow(ins: seq<Input>, c: u32, i: nat, k: nat)
    requires i <= k <= |ins|
    ensures OwnPackets(ins[..i], c) <= OwnPackets(ins[..k], c)
    decreases k
  {
    if i < k {
      OwnPacketsStep(ins, c, k - 1);
      OwnPacketsGrow(ins, c, i, k - 1);
    }
  }

  /** How far a carried message has got before input `i`. */
  lemma CarriedSoFar(c: u32, cmd: u8, msg: seq<u8>, ins: seq<Input>, i: nat)
    requires Carries(ins, c, cmd, msg) && i < |ins|
    ensures var j := |OwnPackets(ins[..i], c)|;
            && (i > 0 ==> j > 0) && j < PacketCount(|msg|)
            && (Own(ins[i], c) ==> ins[i].p == Packets(c, cmd, |msg|, msg)[j])
            && |OwnPackets(ins[..i + 1], c)| == if Own(ins[i], c) then j + 1 else j
  {
    var last := |ins| - 1;
    assert ins[..last + 1] == ins;
    OwnPacketsStep(ins, c, 0);
    OwnPacketsStep(ins, c, i);
    OwnPacketsStep(ins, c, last);
    if i > 0 { OwnPacketsGrow(ins, c, 1, i); }
    OwnPacketsGrow(ins, c, i, last);
    OwnPacketsGrow(ins, c, i + 1, last + 1);
  }

  lemma TakeOrStutter(s: Receiver, c: u32, cmd: u8, msg: seq<u8>, j: nat, input: Input)
    requires Sendable(c, cmd, msg) && j < PacketCount(|msg|) && Awaits(s, c, cmd, msg, j)
    requires if Own(input, c) then input.p == Packets(c, cmd, |msg|, msg)[j]
             else j > 0 && (Foreign(input, c) || input.Tick?)
    requires input.Tick? ==> !Lost(s.table, c, input.now, CID_MAX)
    ensures var o := Step(s, input);
            if Own(input, c) then Taken(o, c, cmd, msg, j + 1)
            else (o.event == Ignored || o.event.Refused?) && Awaits(o.state, c, cmd, msg, j)
  {
    hide Handle, CheckTimeouts;
    if Own(input, c) {
      TakePacket(s, c, cmd, msg, j, input.p, input.now);
    } else if input.Tick? {
      TickStutters(s, c, input.now);
    } else {
      PacketStarts(|msg|, j);
      ForeignPacketStutters(s, c, input.p, input.now);
    }
  }

  /** One input of a carried message. */
  lemma CarriedStep(s: Receiver, c: u32, cmd: u8, msg: seq<u8>, ins: seq<Input>, i: nat)
    requires Sendable(c, cmd, msg) && Carries(ins, c, cmd, msg) && i < |ins| && NoTimeout(s, c, ins, i + 1)
    requires Awaits(Run(Next, s, ins[..i]), c, cmd, msg, |OwnPackets(ins[..i], c)|)
    ensures var (o, j) := (OutcomeAt(s, ins, i), |OwnPackets(ins[..i + 1], c)|);
            if Own(ins[i], c) then Taken(o, c, cmd, msg, j)
            else (o.event == Ignored || o.event.Refused?) && Awaits(o.state, c, cmd, msg, j)
  {
    hide Step, Packets, OwnPackets, Awaits, Taken, Lost;
    CarriedSoFar(c, cmd, msg, ins, i);
    TakeOrStutter(Run(Next, s, ins[..i]), c, cmd, msg, |OwnPackets(ins[..i], c)|, ins[i]);
  }

  /** Before every input of an interleaved transmission the receiver awaits the own packet that
      comes next. */
  lemma {:induction false} InterleavedState(s: Receiver, c: u32, cmd: u8, msg: seq<u8>, ins: seq<Input>, i: nat)
    requires Sendable(c, cmd, msg) && Admits(s, c) && Carries(ins, c, cmd, msg)
    requires i < |ins| && NoTimeout(s, c, ins, i)
    ensures Awaits(Run(Next, s, ins[..i]), c, cmd, msg, |OwnPackets(ins[..i], c)|)
    decreases i
  {
    hide Step, Packets, OwnPackets, Partial, Taken, Carries, Own, Admits, Lost;
    if i == 0 {
      assert ins[..0] == [];
      NoOwnPackets(c);
    } else {
      InterleavedState(s, c, cmd, msg, ins, i - 1);
      CarriedStep(s, c, cmd, msg, ins, i - 1);
      CarriedSoFar(c, cmd, msg, ins, i);
      RunStep(Next, s, ins, i - 1);
      TakenAwaits(OutcomeAt(s, ins, i - 1), c, cmd, msg, |OwnPackets(ins[..i], c)|);
    }
  }

  lemma NoOwnPackets(c: u32)
    ensures OwnPackets([], c) == []
  {
  }

  lemma TakenAwaits(o: Outcome, c: u32, cmd: u8, msg: seq<u8>, j: nat)
    requires 0 < j < PacketCount(|msg|) && |msg| <= BUFFER_SIZE
    ensures Taken(o, c, cmd, msg, j) ==> Awaits(o.state, c, cmd, msg, j)
  {
  }

  /** Fragmentation and reassembly are inverse, whatever other channels send in between and however
      often the clock is looked at: the packets of a message, fed to an idle receiver that has or
      can make a slot for the channel, are pending up to the last, which delivers the same
      channel, command and bytes; nothing else is delivered. */
  lemma InterleavedDelivery(s: Receiver, c: u32, cmd: u8, msg: seq<u8>, ins: seq<Input>)
    requires Sendable(c, cmd, msg) && Admits(s, c) && Carries(ins, c, cmd, msg) && NoTimeout(s, c, ins, |ins|)
    ensures var last := |ins| - 1;
            && OutcomeAt(s, ins, last).event == Delivered(c, cmd, msg)
            && OutcomeAt(s, ins, last).sent == Echo(c, cmd, msg)
            && Run(Next, s, ins).asm.Status() == EMPTY
    ensures forall k :: 0 <= k < |ins| - 1 ==>
              if Own(ins[k], c) then OutcomeAt(s, ins, k).event == Pending
              else OutcomeAt(s, ins, k).event == Ignored || OutcomeAt(s, ins, k).event.Refused?
  {
    hide Step, Packets, OwnPackets, Partial, Carries, Admits, NoTimeout, Own, Run, Sendable;
    CarriesIsLong(ins, c, cmd, msg);
    forall k | 0 <= k < |ins| - 1
      ensures if Own(ins[k], c) then OutcomeAt(s, ins, k).event == Pending
              else OutcomeAt(s, ins, k).event == Ignored || OutcomeAt(s, ins, k).event.Refused?
    {
      InterleavedOutcome(s, c, cmd, msg, ins, k);
    }
    InterleavedOutcome(s, c, cmd, msg, ins, |ins| - 1);
    assert ins[..|ins|] == ins;
    RunStep(Next, s, ins, |ins| - 1);
  }

  lemma CarriesIsLong(ins: seq<Input>, c: u32, cmd: u8, msg: seq<u8>)
    requires Carries(ins, c, cmd, msg)
    ensures ins != [] && Own(ins[|ins| - 1], c) && |msg| <= BUFFER_SIZE
  {
    hide OwnPackets, Packets;
  }

  lemma InterleavedOutcome(s: Receiver, c: u32, cmd: u8, msg: seq<u8>, ins: seq<Input>, k: nat)
    requires Sendable(c, cmd, msg) && Admits(s, c) && Carries(ins, c, cmd, msg) && NoTimeout(s, c, ins, |ins|)
    requires k < |ins| && |msg| <= BUFFER_SIZE
    ensures var o := OutcomeAt(s, ins, k);
            if !Own(ins[k], c) then o.event == Ignored || o.event.Refused?
            else if k < |ins| - 1 then o.event == Pending
            else Taken(o, c, cmd, msg, PacketCount(|msg|))
  {
    hide Step, Packets, OwnPackets, Partial, Carries, Admits, Own, Run, Sendable, Lost;
    InterleavedState(s, c, cmd, msg, ins, k);
    CarriedStep(s, c, cmd, msg, ins, k);
    if k < |ins| - 1 { CarriedSoFar(c, cmd, msg, ins, k + 1); } else { AllPackets(ins, c, cmd, msg); }
  }

  lemma AllPackets(ins: seq<Input>, c: u32, cmd: u8, msg: seq<u8>)
    requires Carries(ins, c, cmd, msg)
    ensures |OwnPackets(ins[..|ins| - 1 + 1], c)| == PacketCount(|msg|)
  {
    hide OwnPackets;
    assert ins[..|ins| - 1 + 1] == ins;
  }

  /** The first packet of a message is accepted by an idle receiver exactly when its channel
      is not the broadcast one, has or can get a slot, and the message fits the buffer. */
  lemma AdmissionIsExact(s: Receiver, p: Packet, now: u64)
    requires Inv(s) && s.asm.Status() == EMPTY
    requires !IsCont(p) && !IsInit(p)
    ensures Buffer(s, p, now).1 == Accept <==>
            CidOf(p) != BROADCAST_CID && HasRoom(s.table, CidOf(p)) && LengthOf(p) <= BUFFER_SIZE
  {
    var c := CidOf(p);
    if !Known(s.table, c) && FreeSlot(s.table) >= 0 {
      assert Add(s.table, c, now)[FreeSlot(s.table)].cid == c;
    }
  }
}
