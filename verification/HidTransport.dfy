/** `ctaphid.c` over its own statics: the CIDS table and the receive buffer are updated in
    place. Every method is proved against the corresponding function of `HidReceiver`. */
module HidTransport {
  import opened CtapErrors
  import opened Octets
  import opened HidFraming
  import opened HidReceiver
  import HidWriter

  class Transport {
    const cids: array<Slot>
    const buffer: array<u8>
    var bufferCid: u32
    var bufferCmd: u8
    var bufferBcnt: u16
    var bufferOffset: int
    var packetSeq: int
    var lastCid: u32
    /** Every packet handed to `usbhid_send`, oldest first. */
    var sent: seq<Packet>

    ghost predicate Valid()
      reads this, buffer
    {
      && cids.Length == CID_MAX
      && buffer.Length == BUFFER_SIZE
      && 0 <= bufferOffset <= bufferBcnt <= BUFFER_SIZE
      && -1 <= packetSeq
    }

    ghost function Asm(): Assembly
      reads this, buffer
      requires buffer.Length == BUFFER_SIZE && 0 <= bufferOffset <= bufferBcnt <= BUFFER_SIZE && -1 <= packetSeq
    {
      RxBuffer(buffer[..], bufferCid, bufferCmd, bufferBcnt, bufferOffset, packetSeq)
    }

    ghost function State(): Receiver
      reads this, cids, buffer
      requires Valid()
    {
      Receiver(cids[..], Asm(), lastCid)
    }

    constructor ()
      ensures Valid() && fresh(cids) && fresh(buffer)
      ensures State() == Receiver(seq(CID_MAX, _ => Slot(0, 0, false)),
                                  EMPTY_BUFFER, 1)
      ensures sent == []
    {
      cids := new Slot[CID_MAX](_ => Slot(0, 0, false));
      buffer := new u8[BUFFER_SIZE](_ => 0);
      bufferCid, bufferCmd, bufferBcnt, bufferOffset, packetSeq, lastCid, sent := 0, 0, 0, 0, 0, 1, [];
    }

    // ----- the channel table -----

    method FindSlot(cid: u32) returns (i: int)
      requires Valid()
      ensures i == SlotOf(cids[..], cid)
    {
      for k := 0 to CID_MAX - 1
        invariant SlotOf(cids[..], cid) == SlotOf(cids[..], cid, k)
      {
        if cids[k].cid == cid { return k; }
      }
      return -1;
    }

    method AddCid(cid: u32, now: u64) returns (ok: bool)
      requires Valid()
      modifies cids
      ensures cids[..] == Add(old(cids[..]), cid, now)
      ensures ok == (FreeSlot(old(cids[..])) >= 0)
    {
      for k := 0 to CID_MAX - 1
        invariant cids[..] == old(cids[..])
        invariant FreeSlot(cids[..]) == FreeSlot(cids[..], k)
      {
        if !cids[k].busy {
          cids[k] := Slot(cid, now, true);
          return true;
        }
      }
      return false;
    }

    method CidExists(cid: u32) returns (known: bool)
      requires Valid()
      ensures known == Known(cids[..], cid)
    {
      var i := FindSlot(cid);
      known := i >= 0;
    }

    method CidRefresh(cid: u32, now: u64) returns (ok: bool)
      requires Valid()
      modifies cids
      ensures cids[..] == Refresh(old(cids[..]), cid, now)
      ensures ok == Known(old(cids[..]), cid)
    {
      var i := FindSlot(cid);
      ok := i >= 0;
      if ok { cids[i] := cids[i].(lastUsed := now, busy := true); }
    }

    method CidDel(cid: u32)
      requires Valid()
      modifies cids
      ensures cids[..] == Release(old(cids[..]), cid)
    {
      var i := FindSlot(cid);
      if i >= 0 { cids[i] := cids[i].(busy := false); }
    }

    method GetNewCid() returns (cid: u32)
      modifies this`lastCid
      ensures cid == lastCid == NextCid(old(lastCid))
    {
      cid := (lastCid + 1) % 0x1_0000_0000;
      while cid == 0 || cid == BROADCAST_CID
        invariant cid == BROADCAST_CID ==> NextCid(old(lastCid)) == 1
        invariant cid == 0 ==> NextCid(old(lastCid)) == 1
        invariant cid != 0 && cid != BROADCAST_CID ==> cid == NextCid(old(lastCid))
        decreases if cid == BROADCAST_CID then 2 else if cid == 0 then 1 else 0
      {
        cid := (cid + 1) % 0x1_0000_0000;
      }
      lastCid := cid;
    }

    // ----- the reassembly buffer -----

    method BufferReset()
      requires Valid()
      modifies this`bufferBcnt, this`bufferOffset, this`packetSeq, this`bufferCid
      ensures Valid() && Asm() == old(Asm()).Cleared()
    {
      bufferBcnt, bufferOffset, packetSeq, bufferCid := 0, 0, 0, 0;
    }

    method BufferStatus() returns (status: Status)
      requires Valid()
      ensures status == Asm().Status()
    {
      if bufferBcnt == 0 {
        status := EMPTY;
      } else if bufferOffset == bufferBcnt {
        status := BUFFERED;
      } else {
        status := BUFFERING;
      }
    }

    /** memmove into the buffer. */
    method CopyIn(at: nat, bytes: seq<u8>)
      requires at + |bytes| <= buffer.Length
      modifies buffer
      ensures buffer[..] == Splice(old(buffer[..]), at, bytes)
    {
      forall i | 0 <= i < |bytes| { buffer[at + i] := bytes[i]; }
      assert buffer[..] == Splice(old(buffer[..]), at, bytes);
    }

    method BufferPacket(p: Packet) returns (ok: bool)
      requires Valid()
      requires IsCont(p) || LengthOf(p) <= BUFFER_SIZE
      modifies this`bufferCid, this`bufferCmd, this`bufferBcnt, this`bufferOffset, this`packetSeq, buffer
      ensures Valid()
      ensures (Asm(), ok) == Take(old(Asm()), p)
    {
      ok := true;
      if CmdOf(p) >= TYPE_INIT {
        bufferBcnt := LengthOf(p);
        var pktLen := if bufferBcnt < INIT_PAYLOAD_SIZE then bufferBcnt else INIT_PAYLOAD_SIZE;
        bufferCmd := CmdOf(p);
        bufferCid := CidOf(p);
        bufferOffset := pktLen;
        packetSeq := -1;
        CopyIn(0, p[7..7 + pktLen]);
      } else {
        var leftover := bufferBcnt - bufferOffset;
        var diff := leftover - CONT_PAYLOAD_SIZE;
        packetSeq := packetSeq + 1;
        if packetSeq != SeqOf(p) { return false; }
        if diff <= 0 {
          CopyIn(bufferOffset, p[5..5 + leftover]);
          bufferOffset := bufferOffset + leftover;
        } else {
          CopyIn(bufferOffset, p[5..5 + CONT_PAYLOAD_SIZE]);
          bufferOffset := bufferOffset + CONT_PAYLOAD_SIZE;
        }
      }
    }

    // ----- packets -----

    method Send(cid: u32, cmd: u8, bcnt: u16, pieces: seq<seq<u8>>)
      modifies this`sent
      ensures sent == old(sent) + Packets(cid, cmd, bcnt, Concat(pieces))
    {
      var ps := HidWriter.Transmit(cid, cmd, bcnt, pieces);
      sent := sent + ps;
    }

    method SendMessage(cid: u32, cmd: u8, bcnt: u16, msg: seq<u8>)
      modifies this`sent
      ensures sent == old(sent) + Packets(cid, cmd, bcnt, msg)
    {
      Send(cid, cmd, bcnt, [msg]);
      assert Concat([msg]) == msg by { assert [msg][..0] == []; assert [] + msg == msg; }
    }

    method SendError(cid: u32, code: u8)
      modifies this`sent
      ensures sent == old(sent) + ErrorPackets(cid, code)
    {
      SendMessage(cid, CMD_ERROR, 1, [code]);
    }

    /** The INIT branch of `ctaphid_buffer_packet`. */
    method HandleInit(p: Packet, now: u64) returns (v: Verdict)
      requires Valid() && WellFormedInit(p)
      modifies this, cids, buffer
      ensures Valid()
      ensures (State(), v) == Synchronize(old(State()), p, now)
      ensures sent == old(sent) + if v.Sync? then
                Packets(CidOf(p), CMD_INIT, 17, InitResponse(p[7..15], v.channel))
                else []
    {
      BufferReset();
      var cid, ok := CidOf(p), false;
      if cid == BROADCAST_CID {
        cid := GetNewCid();
        ok := AddCid(cid, now);
      } else {
        var known := CidExists(cid);
        if known {
          ok := CidRefresh(cid, now);
        } else {
          ok := AddCid(cid, now);
        }
      }
      if !ok { return Reject(ERR_CHANNEL_BUSY); }
      SendMessage(CidOf(p), CMD_INIT, 17, InitResponse(p[7..15], cid));
      CidDel(cid);
      return Sync(cid);
    }

    /** The body of the `cid_exists` branch of `ctaphid_buffer_packet`. */
    method HandleKnown(p: Packet, now: u64) returns (v: Verdict)
      requires Valid()
      modifies this`bufferCid, this`bufferCmd, this`bufferBcnt, this`bufferOffset, this`packetSeq, cids, buffer
      ensures Valid()
      ensures (State(), v) == Assemble(old(State()), p, now)
    {
      var status := BufferStatus();
      if status == BUFFERING {
        if CidOf(p) == bufferCid && !IsCont(p) {
          return Reject(ERR_INVALID_SEQ);
        } else if CidOf(p) != bufferCid {
          if !IsCont(p) { return Reject(ERR_CHANNEL_BUSY); } else { return Ignore; }
        }
      }
      if !IsCont(p) {
        if LengthOf(p) > BUFFER_SIZE { return Reject(ERR_INVALID_LENGTH); }
      } else {
        if status == EMPTY || CidOf(p) != bufferCid { return Ignore; }
      }
      var ok := BufferPacket(p);
      if !ok { return Reject(ERR_INVALID_SEQ); }
      ok := CidRefresh(CidOf(p), now);
      if !ok { return Halt; }
      return Accept;
    }

    method BufferAny(p: Packet, now: u64) returns (v: Verdict)
      requires Valid()
      modifies this, cids, buffer
      ensures Valid()
      ensures (State(), v) == Buffer(old(State()), p, now)
      ensures sent == old(sent) + if v.Sync? then
                Packets(CidOf(p), CMD_INIT, 17, InitResponse(p[7..15], v.channel))
                else []
    {
      hide Synchronize, Take, Refresh, SlotOf, FreeSlot, Add;
      if IsInit(p) {
        if LengthOf(p) != 8 { return Reject(ERR_INVALID_LENGTH); }
        if CidOf(p) == 0 { return Reject(ERR_INVALID_CHANNEL); }
        v := HandleInit(p, now);
        return;
      }
      if CidOf(p) == BROADCAST_CID { return Reject(ERR_INVALID_CHANNEL); }
      var known := CidExists(CidOf(p));
      if !known && !IsCont(p) {
        var status := BufferStatus();
        if status == EMPTY {
          var _ := AddCid(CidOf(p), now);
        }
      }
      known := CidExists(CidOf(p));
      if known {
        v := HandleKnown(p, now);
      } else if IsCont(p) {
        v := Ignore;
      } else {
        v := Reject(ERR_CHANNEL_BUSY);
      }
    }

    /** `ctaphid_handle_packet`: the event says what became of the packet. */
    method HandlePacket(p: Packet, now: u64) returns (e: Event)
      requires Valid()
      modifies this, cids, buffer
      ensures Valid()
      ensures old(sent) <= sent
      ensures Handle(old(State()), p, now) == Outcome(State(), e, sent[|old(sent)|..])
    {
      var cid := CidOf(p);
      var v := BufferAny(p, now);
      match v
      case Ignore => return Ignored;
      case Halt => return Stopped;
      case Sync(channel) => return Synced(channel);
      case Reject(code) =>
        CidDel(cid);
        if code == ERR_INVALID_SEQ { BufferReset(); }
        SendError(cid, code);
        return Refused(code);
      case Accept =>
        var status := BufferStatus();
        if status == BUFFERING { return Pending; }
        if bufferCmd == CMD_INIT { return Stopped; }
        if bufferBcnt == 0 && (bufferCmd == CMD_CBOR || bufferCmd == CMD_MSG) {
          SendError(cid, ERR_INVALID_LENGTH);
          return Refused(ERR_INVALID_LENGTH);
        }
        var cmd, msg := bufferCmd, buffer[..bufferBcnt];
        if cmd == CMD_PING {
          SendMessage(cid, cmd, |msg|, msg);
        } else if cmd == CMD_WINK {
          SendMessage(cid, cmd, 0, []);
        }
        CidDel(cid);
        BufferReset();
        return Delivered(cid, cmd, msg);
    }

    /** One iteration of the loop of `ctaphid_check_timeouts`. */
    method ExpireSlot(i: nat, now: u64)
      requires Valid() && i < CID_MAX
      modifies this`sent, this`bufferBcnt, this`bufferOffset, this`packetSeq, this`bufferCid, cids
      ensures Valid()
      ensures cids[..] == old(cids[..])[i := ExpiredSlot(old(cids[i]), now)]
      ensures Asm() == if Expired(old(cids[i]), now) && old(cids[i].cid == bufferCid) then old(Asm()).Cleared()
                else old(Asm())
      ensures sent == old(sent) + TimeoutError(old(cids[i]), now)
    {
      if cids[i].busy && (now - cids[i].lastUsed) % 0x1_0000_0000_0000_0000 >= TIMEOUT_MS {
        SendError(cids[i].cid, ERR_TIMEOUT);
        cids[i] := cids[i].(busy := false);
        if cids[i].cid == bufferCid {
          BufferReset();
        }
      }
    }

    /** `ctaphid_check_timeouts`. */
    method CheckTimeouts(now: u64)
      requires Valid()
      modifies this, cids
      ensures Valid()
      ensures old(sent) <= sent
      ensures HidReceiver.CheckTimeouts(old(State()), now) == (State(), sent[|old(sent)|..])
    {
      ghost var was, asm := cids[..], Asm();
      for i := 0 to CID_MAX
        invariant Valid() && lastCid == old(lastCid)
        invariant forall k :: i <= k < CID_MAX ==> cids[k] == was[k]
        invariant forall k :: 0 <= k < i ==> cids[k] == ExpiredSlot(was[k], now)
        invariant Asm() == if Lost(was, asm.cid, now, i) then asm.Cleared() else asm
        invariant sent == old(sent) + TimeoutErrors(was, now, i)
      {
        ExpireSlot(i, now);
      }
      assert cids[..] == HidReceiver.CheckTimeouts(old(State()), now).0.table;
    }
  }
}
