/** What a timeout does to a transaction: it is over, so a message is delivered exactly when none
    occurs. */
module HidTimeouts {
  import opened Octets
  import opened HidFraming
  import opened HidReceiver
  import opened HidDelivery
  import opened Runs

  /** No transaction of channel `c` is under way. */
  predicate Gone(s: Receiver, c: u32) {
    s.asm.Status() == EMPTY || s.asm.cid != c
  }

  lemma TimeoutEnds(s: Receiver, c: u32, now: u64)
    requires Inv(s) && s.asm.cid == c && Lost(s.table, c, now, CID_MAX)
    ensures Gone(Next(s, Tick(now)), c)
  {
  }

  lemma TickKeepsGone(s: Receiver, c: u32, now: u64)
    requires Gone(s, c)
    ensures Gone(Next(s, Tick(now)), c)
  {
  }

  lemma ForeignKeepsGone(s: Receiver, c: u32, p: Packet, now: u64)
    requires Inv(s) && Gone(s, c) && CidOf(p) != c && !WellFormedInit(p)
    ensures Gone(Next(s, Arrive(p, now)), c)
  {
    hide Buffer, Inv, Release;
    BufferKeepsInv(s, p, now);
    NoSync(s, p, now);
  }

  lemma NoSync(s: Receiver, p: Packet, now: u64)
    ensures Buffer(s, p, now).1.Sync? ==> WellFormedInit(p)
  {
  }

  /** Without a transaction a continuation is ignored. */
  lemma ContinuationIgnored(s: Receiver, c: u32, p: Packet, now: u64)
    requires Inv(s) && Gone(s, c) && CidOf(p) == c != BROADCAST_CID && IsCont(p)
    ensures Handle(s, p, now).event == Ignored && Handle(s, p, now).state == s
  {
  }

  lemma StepKeepsGone(s: Receiver, c: u32, cmd: u8, msg: seq<u8>, ins: seq<Input>, i: nat)
    requires Inv(s) && Gone(s, c) && Sendable(c, cmd, msg) && Carries(ins, c, cmd, msg) && 0 < i < |ins|
    ensures Gone(Next(s, ins[i]), c) && Inv(Next(s, ins[i]))
    ensures Own(ins[i], c) ==> Step(s, ins[i]).event == Ignored
  {
    hide Handle, CheckTimeouts, Gone, Inv, Packets, OwnPackets;
    StepKeepsInv();
    CarriedSoFar(c, cmd, msg, ins, i);
    match ins[i] {
      case Tick(now) => TickKeepsGone(s, c, now);
      case Arrive(p, now) =>
        if CidOf(p) == c {
          var j := |OwnPackets(ins[..i], c)|;
          PacketStarts(|msg|, j);
          PacketFields(c, cmd, |msg|, msg, j);
          SequenceNumbersFit(c, cmd, |msg|, msg, j);
          ContinuationIgnored(s, c, p, now);
        } else {
          ForeignKeepsGone(s, c, p, now);
        }
    }
  }

  lemma {:induction false} GoneForGood(
      s: Receiver, c: u32, cmd: u8, msg: seq<u8>, ins: seq<Input>, i: nat, n: nat)
    requires Sendable(c, cmd, msg) && Carries(ins, c, cmd, msg) && 0 < i <= n <= |ins|
    requires Inv(Run(Next, s, ins[..i])) && Gone(Run(Next, s, ins[..i]), c)
    ensures Inv(Run(Next, s, ins[..n])) && Gone(Run(Next, s, ins[..n]), c)
    decreases n
  {
    hide Step, Next, Gone, Inv, Carries, Sendable, Run;
    if i < n {
      GoneForGood(s, c, cmd, msg, ins, i, n - 1);
      StepKeepsGone(Run(Next, s, ins[..n - 1]), c, cmd, msg, ins, n - 1);
      RunStep(Next, s, ins, n - 1);
    }
  }

  /** The first look at the clock at which the channel has timed out. */
  lemma {:induction false} FirstTimeout(s: Receiver, c: u32, ins: seq<Input>, n: nat) returns (i: nat)
    requires n <= |ins| && !NoTimeout(s, c, ins, n)
    ensures i < n && ins[i].Tick? && Lost(Run(Next, s, ins[..i]).table, c, ins[i].now, CID_MAX)
    ensures NoTimeout(s, c, ins, i)
  {
    hide Lost, Next, Run;
    if NoTimeout(s, c, ins, n - 1) { i := n - 1; } else { i := FirstTimeout(s, c, ins, n - 1); }
  }

  lemma TimeoutLoses(s: Receiver, c: u32, cmd: u8, msg: seq<u8>, ins: seq<Input>)
    requires Inv(s) && Sendable(c, cmd, msg) && Admits(s, c) && Carries(ins, c, cmd, msg)
    requires !NoTimeout(s, c, ins, |ins|)
    ensures OutcomeAt(s, ins, |ins| - 1).event == Ignored
  {
    hide Step, Lost, Inv, Gone, Admits, Sendable, Packets, OwnPackets, NoTimeout, Run;
    var i := FirstTimeout(s, c, ins, |ins|);
    FirstIsOwn(ins, c, cmd, msg);
    CarriedSoFar(c, cmd, msg, ins, i);
    InterleavedState(s, c, cmd, msg, ins, i);
    RunKeepsInv(s, ins[..i]);
    TimeoutEnds(Run(Next, s, ins[..i]), c, ins[i].now);
    RunStep(Next, s, ins, i);
    RunKeepsInv(s, ins[..i + 1]);
    var last := |ins| - 1;
    GoneForGood(s, c, cmd, msg, ins, i + 1, last);
    StepKeepsGone(Run(Next, s, ins[..last]), c, cmd, msg, ins, last);
  }

  lemma FirstIsOwn(ins: seq<Input>, c: u32, cmd: u8, msg: seq<u8>)
    requires Carries(ins, c, cmd, msg)
    ensures ins != [] && Own(ins[0], c) && !ins[0].Tick? && Own(ins[|ins| - 1], c)
  {
    hide OwnPackets, Packets;
  }

  lemma RunKeepsInv(s: Receiver, ins: seq<Input>)
    requires Inv(s)
    ensures Inv(Run(Next, s, ins))
  {
    hide Inv, Step;
    StepKeepsInv();
    Invariant(Next, Inv, s, ins);
  }

  /** A message that is carried to a willing receiver is delivered exactly when its channel has not
      timed out at any look at the clock. */
  lemma DeliveredExactly(s: Receiver, c: u32, cmd: u8, msg: seq<u8>, ins: seq<Input>)
    requires Inv(s) && Sendable(c, cmd, msg) && Admits(s, c) && Carries(ins, c, cmd, msg)
    ensures OutcomeAt(s, ins, |ins| - 1).event == Delivered(c, cmd, msg) <==> NoTimeout(s, c, ins, |ins|)
  {
    hide Step, Lost, Inv, Admits, Sendable, Carries, NoTimeout, Run;
    if NoTimeout(s, c, ins, |ins|) {
      InterleavedDelivery(s, c, cmd, msg, ins);
    } else {
      TimeoutLoses(s, c, cmd, msg, ins);
    }
  }
}
