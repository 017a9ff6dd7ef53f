/** CTAPHID packets (CTAP 2.0 section 8.1.4) and the packets a message is cut into.

    A packet is the raw 64 bytes that `usbhid_send` and `usbhid_recv` carry: four bytes of
    channel id, then either command, 16-bit length and 57 payload bytes, or a sequence
    number and 59 payload bytes. */
module HidFraming {
  import opened Octets

  const MESSAGE_SIZE := 64
  const INIT_PAYLOAD_SIZE := 57
  const CONT_PAYLOAD_SIZE := 59
  const BUFFER_SIZE := 7609
  const TYPE_INIT := 0x80
  const CMD_INIT := 0x86
  const CMD_MSG := 0x83
  const CMD_CBOR := 0x90
  const CMD_ERROR := 0xbf
  const BROADCAST_CID := 0xffff_ffff

  type Packet = p: seq<u8> | |p| == MESSAGE_SIZE witness Zeros(MESSAGE_SIZE)

  function CidOf(p: Packet): u32 {
    LittleEndian32(p[0], p[1], p[2], p[3])
  }

  function CmdOf(p: Packet): u8 { p[4] }

  function SeqOf(p: Packet): u8 { p[4] }

  function LengthOf(p: Packet): u16 { BigEndian16(p[5], p[6]) }

  predicate IsCont(p: Packet) { CmdOf(p) < TYPE_INIT }

  predicate IsInit(p: Packet) { CmdOf(p) == CMD_INIT }

  /** Index of the first message byte that packet `i` carries. */
  function Start(i: nat): nat {
    if i == 0 then 0 else INIT_PAYLOAD_SIZE + CONT_PAYLOAD_SIZE * (i - 1)
  }

  /** Index one past the last message byte that packet `i` of an `n`-byte message carries. */
  function Stop(i: nat, n: nat): nat {
    Min(Start(i + 1), n)
  }

  /** How many packets an `n`-byte message takes; an empty message still takes one. */
  function PacketCount(n: nat): nat {
    if n <= INIT_PAYLOAD_SIZE then 1
    else 1 + (n - INIT_PAYLOAD_SIZE + CONT_PAYLOAD_SIZE - 1) / CONT_PAYLOAD_SIZE
  }

  function Header(cid: u32, cmd: u8, bcnt: u16, i: nat): (h: seq<u8>)
    ensures |h| == if i == 0 then 7 else 5
  {
    WordBytes(cid) + if i == 0 then [cmd, bcnt / 0x100, bcnt % 0x100] else [(i - 1) % 0x100]
  }

  /** Packet `i` of the message `msg` on channel `cid`, padded with zeros to 64 bytes. */
  function PacketAt(cid: u32, cmd: u8, bcnt: u16, msg: seq<u8>, i: nat): Packet
    requires Start(i) <= |msg|
  {
    var body := Header(cid, cmd, bcnt, i) + msg[Start(i)..Stop(i, |msg|)];
    body + Zeros(MESSAGE_SIZE - |body|)
  }

  lemma PacketStarts(n: nat, i: nat)
    requires i < PacketCount(n)
    ensures Start(i) <= n
    ensures Start(PacketCount(n)) >= n
    ensures i > 0 ==> Start(i) < n
  {
  }

  /** All packets of a message, in order: the specification of the fragmenter. */
  function Packets(cid: u32, cmd: u8, bcnt: u16, msg: seq<u8>): (ps: seq<Packet>)
    ensures |ps| == PacketCount(|msg|)
    ensures forall i :: 0 <= i < |ps| ==> Start(i) <= |msg| && ps[i] == PacketAt(cid, cmd, bcnt, msg, i)
  {
    seq(PacketCount(|msg|), i requires 0 <= i < PacketCount(|msg|) =>
      PacketStarts(|msg|, i);
      PacketAt(cid, cmd, bcnt, msg, i))
  }

  /** What a receiver reads back from packet `i`. */
  lemma PacketFields(cid: u32, cmd: u8, bcnt: u16, msg: seq<u8>, i: nat)
    requires Start(i) <= |msg|
    ensures var p := PacketAt(cid, cmd, bcnt, msg, i);
            && CidOf(p) == cid
            && (i == 0 ==> CmdOf(p) == cmd && LengthOf(p) == bcnt && p[7..7 + Stop(0, |msg|)] == msg[..Stop(0, |msg|)])
            && (i > 0 ==> SeqOf(p) == (i - 1) % 0x100
                          && p[5..5 + Stop(i, |msg|) - Start(i)] == msg[Start(i)..Stop(i, |msg|)])
  {
    var p := PacketAt(cid, cmd, bcnt, msg, i);
    var h, d := Header(cid, cmd, bcnt, i), msg[Start(i)..Stop(i, |msg|)];
    assert p[..|h|] == h;
    assert p[|h|..|h| + |d|] == d;
    assert forall k :: 0 <= k < 4 ==> p[k] == h[k] == WordBytes(cid)[k];
    WordRoundTrip(cid);
  }

  /** A complete packet depends only on the message bytes up to its end. */
  lemma CompletePacketPrefix(cid: u32, cmd: u8, bcnt: u16, m: seq<u8>, more: seq<u8>, i: nat)
    requires Start(i + 1) <= |m|
    ensures PacketAt(cid, cmd, bcnt, m, i) == PacketAt(cid, cmd, bcnt, m + more, i)
  {
    assert m[Start(i)..Stop(i, |m|)] == (m + more)[Start(i)..Stop(i, |m + more|)];
  }

  /** Hence packets already sent stay right as the message grows. */
  lemma SentPacketsStay(cid: u32, cmd: u8, bcnt: u16, m: seq<u8>, more: seq<u8>, sent: seq<Packet>)
    requires Start(|sent|) <= |m|
    requires forall i :: 0 <= i < |sent| ==> sent[i] == PacketAt(cid, cmd, bcnt, m, i)
    ensures forall i :: 0 <= i < |sent| ==> sent[i] == PacketAt(cid, cmd, bcnt, m + more, i)
  {
    forall i | 0 <= i < |sent| ensures sent[i] == PacketAt(cid, cmd, bcnt, m + more, i) {
      CompletePacketPrefix(cid, cmd, bcnt, m, more, i);
    }
  }

  /** A message that fits the receive buffer never needs a sequence number that looks like
      an initial packet: 57 + 128 * 59 == 7609. */
  lemma SequenceNumbersFit(cid: u32, cmd: u8, bcnt: u16, msg: seq<u8>, i: nat)
    requires |msg| <= BUFFER_SIZE
    requires 0 < i < PacketCount(|msg|)
    ensures IsCont(Packets(cid, cmd, bcnt, msg)[i])
    ensures SeqOf(Packets(cid, cmd, bcnt, msg)[i]) == i - 1 <= 127
  {
    PacketStarts(|msg|, i);
    PacketFields(cid, cmd, bcnt, msg, i);
  }
}
