/** The CTAPHID receiver as a state machine over packets: channel table, reassembly buffer and
    the dispatch skeleton. `HidTransport.Transport` is the code that implements these functions
    in place; `HidDelivery` proves what runs of them guarantee. */
module HidReceiver {
  import opened CtapErrors
  import opened Octets
  import opened HidFraming

  const CID_MAX := 10
  const TIMEOUT_MS := 750
  const CMD_PING := 0x81
  const CMD_WINK := 0x88

  // ----- the channel table -----

  datatype Slot = Slot(cid: u32, lastUsed: u64, busy: bool)

  type Table = t: seq<Slot> | |t| == CID_MAX witness seq(CID_MAX, _ => Slot(0, 0, false))

  /** First of the searched slots that holds `cid`, or -1. The last slot is never searched. */
  function SlotOf(t: Table, cid: u32, from: nat := 0): (i: int)
    requires from <= CID_MAX - 1
    ensures i == -1 || from <= i < CID_MAX - 1
    ensures i >= 0 ==> t[i].cid == cid
    ensures forall j :: from <= j < (if i >= 0 then i else CID_MAX - 1) ==> t[j].cid != cid
    decreases CID_MAX - from
  {
    if from == CID_MAX - 1 then -1
    else if t[from].cid == cid then from
    else SlotOf(t, cid, from + 1)
  }

  /** First of the searched slots that is not busy, or -1. */
  function FreeSlot(t: Table, from: nat := 0): (i: int)
    requires from <= CID_MAX - 1
    ensures i == -1 || from <= i < CID_MAX - 1
    ensures i >= 0 ==> !t[i].busy
    ensures forall j :: from <= j < (if i >= 0 then i else CID_MAX - 1) ==> t[j].busy
    decreases CID_MAX - from
  {
    if from == CID_MAX - 1 then -1
    else if !t[from].busy then from
    else FreeSlot(t, from + 1)
  }

  predicate Known(t: Table, cid: u32) { SlotOf(t, cid) >= 0 }

  predicate HasRoom(t: Table, cid: u32) { Known(t, cid) || FreeSlot(t) >= 0 }

  function Add(t: Table, cid: u32, now: u64): Table {
    var i := FreeSlot(t);
    if i >= 0 then t[i := Slot(cid, now, true)] else t
  }

  function Refresh(t: Table, cid: u32, now: u64): Table {
    var i := SlotOf(t, cid);
    if i >= 0 then t[i := t[i].(lastUsed := now, busy := true)] else t
  }

  function Release(t: Table, cid: u32): Table {
    var i := SlotOf(t, cid);
    if i >= 0 then t[i := t[i].(busy := false)] else t
  }

  // ----- the reassembly buffer -----

  datatype Status = EMPTY | BUFFERING | BUFFERED

  datatype RxBuffer = RxBuffer(data: seq<u8>, cid: u32, cmd: u8, bcnt: u16, offset: int, seqNo: int) {
    /** What keeps every copy inside the 7609-byte buffer. */
    predicate Valid() {
      && |data| == BUFFER_SIZE
      && 0 <= offset <= bcnt <= BUFFER_SIZE
      && -1 <= seqNo
    }

    function Status(): Status {
      if bcnt == 0 then EMPTY else if offset == bcnt then BUFFERED else BUFFERING
    }

    function Cleared(): RxBuffer {
      this.(bcnt := 0, offset := 0, seqNo := 0, cid := 0)
    }
  }

  const EMPTY_BUFFER := RxBuffer(Zeros(BUFFER_SIZE), 0, 0, 0, 0, 0)

  type Assembly = a: RxBuffer | a.Valid() witness EMPTY_BUFFER

  function Splice(data: seq<u8>, at: nat, bytes: seq<u8>): (r: seq<u8>)
    requires at + |bytes| <= |data|
    ensures |r| == |data|
  {
    data[..at] + bytes + data[at + |bytes|..]
  }

  lemma SplicedFront(data: seq<u8>, at: nat, bytes: seq<u8>)
    requires at + |bytes| <= |data|
    ensures Splice(data, at, bytes)[..at + |bytes|] == data[..at] + bytes
  {
  }

  /** `buffer_packet`: the new buffer, and false for a packet out of sequence. */
  function Take(a: Assembly, p: Packet): (Assembly, bool)
    requires IsCont(p) || LengthOf(p) <= BUFFER_SIZE
  {
    if !IsCont(p) then
      var n := Min(LengthOf(p), INIT_PAYLOAD_SIZE);
      (RxBuffer(Splice(a.data, 0, p[7..7 + n]), CidOf(p), CmdOf(p), LengthOf(p), n, -1), true)
    else if a.seqNo + 1 != SeqOf(p) then
      (a.(seqNo := a.seqNo + 1), false)
    else
      var n := Min(a.bcnt - a.offset, CONT_PAYLOAD_SIZE);
      (a.(seqNo := a.seqNo + 1, data := Splice(a.data, a.offset, p[5..5 + n]), offset := a.offset + n), true)
  }

  // ----- packets -----

  datatype Receiver = Receiver(table: Table, asm: Assembly, lastCid: u32)

  /** `get_new_cid`: 0 and the broadcast id are skipped. */
  function NextCid(c: u32): u32 {
    if c >= BROADCAST_CID - 1 then 1 else c + 1
  }

  datatype Verdict =
    | Ignore
    | Reject(code: u8)
    | Sync(channel: u32)
    | Accept
    | Halt

  predicate WellFormedInit(p: Packet) {
    IsInit(p) && LengthOf(p) == 8 && CidOf(p) != 0
  }

  /** The INIT branch of `ctaphid_buffer_packet`. */
  function Synchronize(s: Receiver, p: Packet, now: u64): (Receiver, Verdict)
    requires WellFormedInit(p)
  {
    var broadcast := CidOf(p) == BROADCAST_CID;
    var cid := if broadcast then NextCid(s.lastCid) else CidOf(p);
    var s1 := Receiver(s.table, s.asm.Cleared(), if broadcast then cid else s.lastCid);
    if !broadcast && Known(s.table, cid) then
      (s1.(table := Release(Refresh(s.table, cid, now), cid)), Sync(cid))
    else if FreeSlot(s.table) >= 0 then
      (s1.(table := Release(Add(s.table, cid, now), cid)), Sync(cid))
    else
      (s1, Reject(ERR_CHANNEL_BUSY))
  }

  /** The part of `ctaphid_buffer_packet` for a packet whose channel is in the table. */
  function Assemble(s: Receiver, p: Packet, now: u64): (Receiver, Verdict)
  {
    var status := s.asm.Status();
    var own := CidOf(p) == s.asm.cid;
    if status == BUFFERING && own && !IsCont(p) then (s, Reject(ERR_INVALID_SEQ))
    else if status == BUFFERING && !own then (s, if IsCont(p) then Ignore else Reject(ERR_CHANNEL_BUSY))
    else if !IsCont(p) && LengthOf(p) > BUFFER_SIZE then (s, Reject(ERR_INVALID_LENGTH))
    else if IsCont(p) && (status == EMPTY || !own) then (s, Ignore)
    else
      var (asm, ok) := Take(s.asm, p);
      if !ok then (s.(asm := asm), Reject(ERR_INVALID_SEQ))
      else if !Known(s.table, CidOf(p)) then (s.(asm := asm), Halt)
      else (s.(asm := asm, table := Refresh(s.table, CidOf(p), now)), Accept)
  }

  /** `ctaphid_buffer_packet`. */
  function Buffer(s: Receiver, p: Packet, now: u64): (Receiver, Verdict)
  {
    var cid := CidOf(p);
    if IsInit(p) then
      if LengthOf(p) != 8 then (s, Reject(ERR_INVALID_LENGTH))
      else if cid == 0 then (s, Reject(ERR_INVALID_CHANNEL))
      else Synchronize(s, p, now)
    else if cid == BROADCAST_CID then (s, Reject(ERR_INVALID_CHANNEL))
    else
      var adopt := !Known(s.table, cid) && !IsCont(p) && s.asm.Status() == EMPTY;
      var s1 := if adopt then s.(table := Add(s.table, cid, now)) else s;
      if Known(s1.table, cid) then Assemble(s1, p, now)
      else (s1, if IsCont(p) then Ignore else Reject(ERR_CHANNEL_BUSY))
  }

  /** What one packet led to. `Delivered` hands a whole message to its command. */
  datatype Event =
    | Ignored
    | Synced(channel: u32)
    | Refused(code: u8)
    | Pending
    | Delivered(cid: u32, cmd: u8, msg: seq<u8>)
    | Stopped

  datatype Outcome = Outcome(state: Receiver, event: Event, sent: seq<Packet>)

  function ErrorPackets(cid: u32, code: u8): seq<Packet> {
    Packets(cid, CMD_ERROR, 1, [code])
  }

  /** Nonce, channel id, protocol version 2, device version 0.0.0, capabilities wink and CBOR. */
  function InitResponse(nonce: seq<u8>, cid: u32): seq<u8> {
    nonce + WordBytes(cid) + [2, 0, 0, 0, 5]
  }

  /** What the transport itself sends when it hands a message over. */
  function Echo(cid: u32, cmd: u8, msg: seq<u8>): seq<Packet>
    requires |msg| <= BUFFER_SIZE
  {
    if cmd == CMD_PING then Packets(cid, cmd, |msg|, msg)
    else if cmd == CMD_WINK then Packets(cid, cmd, 0, [])
    else []
  }

  /** `ctaphid_handle_packet`, up to and after the command that consumes the message. */
  function Handle(s: Receiver, p: Packet, now: u64): Outcome
  {
    var cid := CidOf(p);
    var (s1, verdict) := Buffer(s, p, now);
    match verdict
    case Ignore => Outcome(s1, Ignored, [])
    case Halt => Outcome(s1, Stopped, [])
    case Sync(channel) => Outcome(s1, Synced(channel), Packets(cid, CMD_INIT, 17, InitResponse(p[7..15], channel)))
    case Reject(code) =>
      Outcome(Receiver(Release(s1.table, cid), if code == ERR_INVALID_SEQ then s1.asm.Cleared() else s1.asm,
              s1.lastCid),
              Refused(code), ErrorPackets(cid, code))
    case Accept => Dispatch(s1, cid)
  }

  function Dispatch(s: Receiver, cid: u32): Outcome
  {
    var a := s.asm;
    if a.Status() == BUFFERING then Outcome(s, Pending, [])
    else if a.cmd == CMD_INIT then Outcome(s, Stopped, [])
    else if a.cmd in {CMD_CBOR, CMD_MSG} && a.bcnt == 0 then
      Outcome(s, Refused(ERR_INVALID_LENGTH), ErrorPackets(cid, ERR_INVALID_LENGTH))
    else
      var msg := a.data[..a.bcnt];
      Outcome(Receiver(Release(s.table, cid), a.Cleared(), s.lastCid),
              Delivered(cid, a.cmd, msg), Echo(cid, a.cmd, msg))
  }

  // ----- timeouts -----

  predicate Expired(slot: Slot, now: u64) {
    slot.busy && (now - slot.lastUsed) % 0x1_0000_0000_0000_0000 >= TIMEOUT_MS
  }

  function ExpiredSlot(slot: Slot, now: u64): Slot {
    if Expired(slot, now) then slot.(busy := false) else slot
  }

  function TimeoutError(slot: Slot, now: u64): seq<Packet> {
    if Expired(slot, now) then ErrorPackets(slot.cid, ERR_TIMEOUT) else []
  }

  function TimeoutErrors(t: Table, now: u64, n: nat): seq<Packet>
    requires n <= CID_MAX
  {
    if n == 0 then [] else TimeoutErrors(t, now, n - 1) + TimeoutError(t[n - 1], now)
  }

  /** One of the first `n` slots has expired and holds `cid`. */
  predicate Lost(t: Table, cid: u32, now: u64, n: nat)
    requires n <= CID_MAX
  {
    exists i :: 0 <= i < n && Expired(t[i], now) && t[i].cid == cid
  }

  /** `ctaphid_check_timeouts`: all ten slots are looked at here. */
  function CheckTimeouts(s: Receiver, now: u64): (Receiver, seq<Packet>) {
    var table := seq(CID_MAX, i requires 0 <= i < CID_MAX => ExpiredSlot(s.table[i], now));
    var lost := Lost(s.table, s.asm.cid, now, CID_MAX);
    (s.(table := table, asm := if lost then s.asm.Cleared() else s.asm), TimeoutErrors(s.table, now, CID_MAX))
  }
}
