/** The fragmenter `ctaphid_write`: message bytes arrive in pieces of any size, full 64-byte
    packets leave as soon as they are complete, a flush sends what is left. */
module HidWriter {
  import opened Octets
  import opened HidFraming

  class WriteBuffer {
    const cmd: u8
    const cid: u32
    const bcnt: u16
    var offset: nat
    var bytesWritten: nat
    var seqNo: u8
    const buf: array<u8>
    /** Everything handed to `usbhid_send`, oldest first. */
    var sent: seq<Packet>
    /** The message bytes accepted so far. */
    ghost var written: seq<u8>

    /** `sent` holds exactly the complete packets of `written`. */
    ghost predicate SentComplete()
      reads this, buf
    {
      && buf.Length == MESSAGE_SIZE
      && bytesWritten == |written|
      && Start(|sent|) <= |written| <= Start(|sent| + 1)
      && (forall i :: 0 <= i < |sent| ==> sent[i] == PacketAt(cid, cmd, bcnt, written, i))
    }

    /** `buf` holds the header and the bytes so far of the packet under construction. */
    ghost predicate Building()
      reads this, buf
    {
      var k := |sent|;
      && SentComplete()
      && seqNo == k % 0x100
      && offset == |Header(cid, cmd, bcnt, k)| + |written| - Start(k)
      && buf[..offset] == Header(cid, cmd, bcnt, k) + written[Start(k)..]
    }

    /** Between calls: no packet under construction, or one that is neither empty nor full. */
    ghost predicate Valid()
      reads this, buf
    {
      var k := |sent|;
      if offset == 0
      then SentComplete() && |written| == Start(k) && seqNo == (if k == 0 then 0 else (k - 1) % 0x100)
      else Building() && Start(k) < |written| < Start(k + 1)
    }

    constructor (cid: u32, cmd: u8, bcnt: u16)
      ensures Valid() && fresh(buf)
      ensures this.cid == cid && this.cmd == cmd && this.bcnt == bcnt
      ensures written == [] && sent == []
    {
      this.cid, this.cmd, this.bcnt := cid, cmd, bcnt;
      buf := new u8[MESSAGE_SIZE](_ => 0);
      offset, bytesWritten, seqNo, sent, written := 0, 0, 0, [], [];
    }

    method PutCid()
      requires buf.Length == MESSAGE_SIZE && offset == 0
      modifies this`offset, buf
      ensures offset == 4 && buf[..4] == WordBytes(cid)
    {
      var b := WordBytes(cid);
      buf[0], buf[1], buf[2], buf[3] := b[0], b[1], b[2], b[3];
      offset := 4;
    }

    method PutInitHeader()
      requires buf.Length == MESSAGE_SIZE && offset == 4 && buf[..4] == WordBytes(cid)
      modifies this`offset, buf
      ensures offset == 7 && buf[..7] == Header(cid, cmd, bcnt, 0)
    {
      buf[4] := cmd;
      buf[5] := bcnt / 0x100;
      buf[6] := bcnt % 0x100;
      offset := offset + 3;
      assert buf[..7] == buf[..4] + [buf[4], buf[5], buf[6]];
    }

    method PutContHeader()
      requires buf.Length == MESSAGE_SIZE && offset == 4 && buf[..4] == WordBytes(cid)
      requires |sent| > 0 && seqNo == (|sent| - 1) % 0x100
      modifies this`offset, this`seqNo, buf
      ensures offset == 5 && buf[..5] == Header(cid, cmd, bcnt, |sent|) && seqNo == |sent| % 0x100
    {
      buf[4] := seqNo;
      NextSeqNo(|sent|);
      seqNo := (seqNo + 1) % 0x100;
      offset := offset + 1;
      assert buf[..5] == buf[..4] + [buf[4]];
    }

    /** The header that a packet gets when its first payload byte arrives. */
    method StartPacket()
      requires Valid() && offset == 0
      modifies this`offset, this`seqNo, buf
      ensures Building() && |written| == Start(|sent|)
    {
      hide Header;
      PutCid();
      if bytesWritten == 0 {
        PutInitHeader();
      } else {
        PutContHeader();
      }
      NothingBehind(buf[..offset], written);
    }

    method Append(b: u8)
      requires Building() && |written| < Start(|sent| + 1)
      modifies this`offset, this`bytesWritten, this`written, buf
      ensures Building()
      ensures written == old(written) + [b]
      ensures offset == old(offset) + 1
    {
      ghost var was, body := written, buf[..offset];
      buf[offset] := b;
      offset := offset + 1;
      bytesWritten := bytesWritten + 1;
      written := written + [b];
      assert buf[..offset] == body + [b];
      assert written[Start(|sent|)..] == was[Start(|sent|)..] + [b];
      SentPacketsStay(cid, cmd, bcnt, was, [b], sent);
    }

    method SendFull()
      requires Building() && offset == MESSAGE_SIZE
      modifies this`sent, this`offset
      ensures Valid()
    {
      assert buf[..] == PacketAt(cid, cmd, bcnt, written, |sent|);
      sent := sent + [buf[..]];
      offset := 0;
    }

    /** One iteration of the byte loop. */
    method PutByte(b: u8)
      requires Valid()
      modifies this, buf
      ensures Valid()
      ensures written == old(written) + [b]
    {
      if offset == 0 {
        StartPacket();
      }
      Append(b);
      if offset == MESSAGE_SIZE {
        SendFull();
      }
    }

    method Write(data: seq<u8>)
      requires Valid()
      modifies this, buf
      ensures Valid()
      ensures written == old(written) + data
    {
      for i := 0 to |data|
        invariant Valid()
        invariant written == old(written) + data[..i]
      {
        PutByte(data[i]);
        assert data[..i + 1] == data[..i] + [data[i]];
      }
      assert data[..|data|] == data;
    }

    method Flush()
      requires Valid()
      modifies this, buf
      ensures written == old(written)
      ensures sent == Packets(cid, cmd, bcnt, written)
    {
      ghost var k := |sent|;
      if offset == 0 && bytesWritten == 0 {
        PutCid();
        PutInitHeader();
        assert buf[..offset] == Header(cid, cmd, bcnt, k) + written[Start(k)..];
      }
      if offset > 0 {
        ghost var body := buf[..offset];
        forall i | offset <= i < MESSAGE_SIZE { buf[i] := 0; }
        assert buf[..] == body + Zeros(MESSAGE_SIZE - |body|);
        assert written[Start(k)..Stop(k, |written|)] == written[Start(k)..];
        assert buf[..] == PacketAt(cid, cmd, bcnt, written, k);
        sent := sent + [buf[..]];
      }
      assert sent == Packets(cid, cmd, bcnt, written);
    }
  }

  lemma NextSeqNo(k: nat)
    requires k > 0
    ensures ((k - 1) % 0x100 + 1) % 0x100 == k % 0x100
  {
  }

  lemma NothingBehind(header: seq<u8>, written: seq<u8>)
    ensures header == header + written[|written|..]
  {
  }

  /** However the caller splits the bytes over `ctaphid_write` calls, the packets sent are those
      of the whole message. */
  method Transmit(cid: u32, cmd: u8, bcnt: u16, pieces: seq<seq<u8>>) returns (sent: seq<Packet>)
    ensures sent == Packets(cid, cmd, bcnt, Concat(pieces))
  {
    var wb := new WriteBuffer(cid, cmd, bcnt);
    for i := 0 to |pieces|
      invariant wb.Valid() && fresh(wb) && fresh(wb.buf)
      invariant wb.cid == cid && wb.cmd == cmd && wb.bcnt == bcnt
      invariant wb.written == Concat(pieces[..i])
    {
      wb.Write(pieces[i]);
      assert pieces[..i + 1][..i] == pieces[..i];
    }
    assert pieces[..|pieces|] == pieces;
    wb.Flush();
    sent := wb.sent;
  }
}
