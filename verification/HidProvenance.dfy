/** The converse of delivery: in every run from power-on, whatever the channels send and whenever
    timeouts fire, a delivered message is exactly what its channel sent since its last initial
    packet, in sequence and complete. */
module HidProvenance {
  import opened Octets
  import opened HidFraming
  import opened HidReceiver
  import opened HidDelivery
  import opened Runs

  /** The packets of channel `c` since its last initial packet; CTAPHID_INIT carries no message. */
  function Heard(ins: seq<Input>, c: u32): seq<Packet> {
    if ins == [] then []
    else
      var before, input := Heard(ins[..|ins| - 1], c), ins[|ins| - 1];
      if !Own(input, c) || IsInit(input.p) then before
      else if !IsCont(input.p) then [input.p]
      else if before == [] then []
      else before + [input.p]
  }

  /** The payload bytes of an initial packet and its continuations. */
  function Payload(ps: seq<Packet>): (bytes: seq<u8>)
    ensures |bytes| == Start(|ps|)
  {
    if ps == [] then []
    else if |ps| == 1 then ps[0][7..]
    else Payload(ps[..|ps| - 1]) + ps[|ps| - 1][5..]
  }

  /** An initial packet with this command and length, and continuations numbered 0, 1, 2, ... */
  predicate InSequence(ps: seq<Packet>, cmd: u8, length: u16) {
    && ps != [] && !IsCont(ps[0]) && CmdOf(ps[0]) == cmd && LengthOf(ps[0]) == length
    && forall i :: 1 <= i < |ps| ==> IsCont(ps[i]) && SeqOf(ps[i]) == i - 1
  }

  /** The buffer of a transaction in progress holds what its channel has sent so far. */
  predicate Traced(a: Assembly, heard: seq<Packet>) {
    && InSequence(heard, a.cmd, a.bcnt)
    && a.seqNo == |heard| - 2
    && (|heard| == 1 || Start(|heard| - 1) < a.bcnt)
    && a.offset == Min(Start(|heard|), a.bcnt)
    && a.data[..a.offset] == Payload(heard)[..a.offset]
  }

  lemma TakeTraced(a: Assembly, p: Packet, heard: seq<Packet>)
    requires IsCont(p) || LengthOf(p) <= BUFFER_SIZE
    requires IsCont(p) ==> a.Status() == BUFFERING && Traced(a, heard)
    ensures var (a1, ok) := Take(a, p);
            ok ==> Traced(a1, if IsCont(p) then heard + [p] else [p])
  {
    hide Payload, Splice, Traced;
    if IsCont(p) { TakeNextTraced(a, p, heard); } else { TakeFirstTraced(a, p); }
  }

  lemma TakeFirstTraced(a: Assembly, p: Packet)
    requires !IsCont(p) && LengthOf(p) <= BUFFER_SIZE
    ensures Traced(Take(a, p).0, [p])
  {
    hide Splice;
    var n := Min(LengthOf(p), INIT_PAYLOAD_SIZE);
    SplicedFront(a.data, 0, p[7..7 + n]);
    assert a.data[..0] + p[7..7 + n] == p[7..7 + n] == p[7..][..n];
  }

  lemma TakeNextTraced(a: Assembly, p: Packet, heard: seq<Packet>)
    requires IsCont(p) && a.Status() == BUFFERING && Traced(a, heard)
    ensures Take(a, p).1 ==> Traced(Take(a, p).0, heard + [p])
  {
    hide Payload, Splice;
    var n := Min(a.bcnt - a.offset, CONT_PAYLOAD_SIZE);
    SplicedFront(a.data, a.offset, p[5..5 + n]);
    if Take(a, p).1 { PayloadGrows(heard, p, a.offset, n); }
  }

  lemma PayloadGrows(ps: seq<Packet>, p: Packet, at: nat, n: nat)
    requires ps != [] && at == Start(|ps|) && n <= CONT_PAYLOAD_SIZE
    ensures Payload(ps + [p])[..at + n] == Payload(ps)[..at] + p[5..5 + n]
  {
    hide Payload;
    PayloadSnoc(ps, p);
    Front(Payload(ps), p[5..], n);
    assert p[5..][..n] == p[5..5 + n];
  }

  lemma PayloadSnoc(ps: seq<Packet>, p: Packet)
    requires ps != []
    ensures Payload(ps + [p]) == Payload(ps) + p[5..]
  {
    var all := ps + [p];
    assert all[..|all| - 1] == ps;
  }

  lemma Front(x: seq<u8>, y: seq<u8>, n: nat)
    requires n <= |y|
    ensures (x + y)[..|x| + n] == x[..|x|] + y[..n]
  {
  }

  /** What the buffer of `s` owes to the inputs so far. */
  ghost predicate Explained(s: Receiver, ins: seq<Input>) {
    s.asm.Status() == BUFFERING ==> Traced(s.asm, Heard(ins, s.asm.cid))
  }

  /** `ps` is a whole message: in sequence, complete, and carrying `msg`. */
  predicate WholeMessage(ps: seq<Packet>, cmd: u8, msg: seq<u8>) {
    && |msg| <= BUFFER_SIZE
    && InSequence(ps, cmd, |msg|)
    && |ps| == PacketCount(|msg|)
    && msg == Payload(ps)[..|msg|]
  }

  ghost predicate Genuine(e: Event, ins: seq<Input>) {
    e.Delivered? ==> WholeMessage(Heard(ins, e.cid), e.cmd, e.msg)
  }

  lemma DispatchGenuine(s: Receiver, c: u32, ins: seq<Input>)
    requires Traced(s.asm, Heard(ins, c)) && s.asm.cid == c
    ensures Genuine(Dispatch(s, c).event, ins) && Explained(Dispatch(s, c).state, ins)
  {
  }

  lemma AcceptTraced(s: Receiver, ins: seq<Input>, p: Packet, now: u64)
    requires Inv(s) && Explained(s, ins)
    ensures var (s1, v) := Buffer(s, p, now);
            v == Accept ==> Traced(s1.asm, Heard(ins + [Arrive(p, now)], CidOf(p)))
  {
    var more := ins + [Arrive(p, now)];
    assert more[..|more| - 1] == ins;
    if Buffer(s, p, now).1 == Accept {
      TakeTraced(s.asm, p, Heard(ins, CidOf(p)));
    }
  }

  /** A packet that is not accepted either ends the transaction or is not heard by it. */
  lemma RejectFrame(s: Receiver, p: Packet, now: u64)
    requires Inv(s) && Buffer(s, p, now).1 != Accept
    ensures var s1 := Handle(s, p, now).state;
            s1.asm.Status() == BUFFERING ==> s1.asm == s.asm && (CidOf(p) != s.asm.cid || IsInit(p))
  {
    hide Take, SlotOf, FreeSlot, Release, Refresh;
    if IsCont(p) || LengthOf(p) <= BUFFER_SIZE { TakeFields(s.asm, p); }
  }

  lemma RejectExplained(s: Receiver, ins: seq<Input>, p: Packet, now: u64)
    requires Inv(s) && Explained(s, ins) && Buffer(s, p, now).1 != Accept
    ensures Explained(Handle(s, p, now).state, ins + [Arrive(p, now)])
  {
    hide Handle, Buffer, Traced;
    var more := ins + [Arrive(p, now)];
    assert more[..|more| - 1] == ins;
    RejectFrame(s, p, now);
    if CidOf(p) != s.asm.cid || IsInit(p) { assert Heard(more, s.asm.cid) == Heard(ins, s.asm.cid); }
  }

  lemma StepExplained(s: Receiver, ins: seq<Input>, input: Input)
    requires Inv(s) && Explained(s, ins)
    ensures Explained(Next(s, input), ins + [input])
    ensures Genuine(Step(s, input).event, ins + [input])
  {
    var more := ins + [input];
    assert more[..|more| - 1] == ins;
    if input.Arrive? {
      var p, now := input.p, input.now;
      var (s1, v) := Buffer(s, p, now);
      if v == Accept {
        AcceptTraced(s, ins, p, now);
        BufferKeepsInv(s, p, now);
        DispatchGenuine(s1, CidOf(p), more);
      } else {
        RejectExplained(s, ins, p, now);
      }
    }
  }

  lemma {:induction false} RunExplained(ins: seq<Input>)
    ensures var s := Run(Next, POWER_ON, ins); Inv(s) && Explained(s, ins)
  {
    hide Step, Inv, Explained, Genuine;
    StepKeepsInv();
    if ins != [] {
      var before, last := ins[..|ins| - 1], ins[|ins| - 1];
      RunExplained(before);
      StepExplained(Run(Next, POWER_ON, before), before, last);
      assert before + [last] == ins;
    } else {
      PowerOnExplained();
    }
  }

  lemma PowerOnExplained()
    ensures Inv(POWER_ON) && Explained(POWER_ON, [])
  {
  }

  /** Every delivered message is genuine: it is the payload of an in-sequence initial packet and
      all its continuations, sent on the channel it is delivered for. */
  lemma DeliveredIsGenuine(ins: seq<Input>, i: nat)
    requires i < |ins|
    ensures Genuine(OutcomeAt(POWER_ON, ins, i).event, ins[..i + 1])
  {
    hide Step, Inv, Explained, Genuine;
    RunExplained(ins[..i]);
    StepExplained(Run(Next, POWER_ON, ins[..i]), ins[..i], ins[i]);
    assert ins[..i] + [ins[i]] == ins[..i + 1];
  }
}
