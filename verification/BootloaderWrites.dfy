/** What is in the application when BootDone hashes it: the payloads written since the last erase,
    over erased flash, byte by byte. */
module BootloaderWrites {
  import opened CtapErrors
  import opened Octets
  import opened Sha256Spec
  import opened Bootloader
  import opened BootloaderRuns

  // ----- one write -----

  predicate AuthWordIsZero(f: Flash) {
    f[AUTH_WORD] == 0 && f[AUTH_WORD + 1] == 0 && f[AUTH_WORD + 2] == 0 && f[AUTH_WORD + 3] == 0
  }

  lemma AuthorisedIsZeroWord(f: Flash)
    ensures Authorised(f) <==> AuthWordIsZero(f)
  {
    var w := f[AUTH_WORD..AUTH_WORD + 4];
    assert w == [f[AUTH_WORD], f[AUTH_WORD + 1], f[AUTH_WORD + 2], f[AUTH_WORD + 3]];
  }

  /** The application is erased before the write of a session that has not erased it yet, or of one
      that finds an authorised image. */
  predicate MustErase(s: Boot) {
    !s.hasErased || AuthWordIsZero(s.flash)
  }

  /** Byte `p` of the write `w`: it starts on the double word of its address, carries the payload, and
      fills up its last double word. -1 where it does not reach. */
  function WrittenByte(w: Request, p: int): int
    requires w.len <= |w.payload|
  {
    var k := p - (w.addr - w.addr % 8);
    if 0 <= k < w.len then w.payload[k]
    else if w.len <= k < (w.len + 7) / 8 * 8 then 0xff
    else -1
  }

  lemma PaddedLength(n: nat)
    ensures n + (8 - n % 8) % 8 == (n + 7) / 8 * 8
  {
  }

  lemma PutWritten(f: Flash, w: Request, p: nat)
    requires w.len <= |w.payload| && p < FLASH_SIZE
    requires Aligned(w.addr) + |Padded(w.payload[..w.len])| <= FLASH_SIZE
    ensures Put(f, Aligned(w.addr), Padded(w.payload[..w.len]))[p]
            == if WrittenByte(w, p) >= 0 then WrittenByte(w, p) else f[p]
  {
    hide Put, Padded, Aligned;
    PaddedLength(w.len);
    PutAt(f, Aligned(w.addr), Padded(w.payload[..w.len]), p);
    AlignedIs(w.addr);
    var k := p - Aligned(w.addr);
    if 0 <= k < |Padded(w.payload[..w.len])| { PaddedAt(w.payload[..w.len], k); }
    PaddedSize(w.payload[..w.len]);
  }

  lemma PutAt(f: Flash, at: nat, data: Bytes, p: nat)
    requires at + |data| <= FLASH_SIZE && p < FLASH_SIZE
    ensures Put(f, at, data)[p] == if at <= p < at + |data| then data[p - at] else f[p]
  {
    hide Put;
    if at <= p < at + |data| { assert Put(f, at, data)[at..at + |data|][p - at] == data[p - at]; }
  }

  lemma AlignedIs(at: nat)
    ensures Aligned(at) == at - at % 8
  {
  }

  lemma PaddedSize(data: Bytes)
    ensures |Padded(data)| == |data| + (8 - |data| % 8) % 8
  {
  }

  lemma PaddedAt(data: Bytes, k: nat)
    requires k < |Padded(data)|
    ensures Padded(data)[k] == if k < |data| then data[k] else 0xff
  {
  }

  /** A write is granted exactly when it states no more bytes than it brings, lies in the application,
      and does not end below an earlier write since the last erase. */
  lemma WriteIsExact(verify: (Bytes, Bytes) -> bool, s: Boot, w: Request)
    requires w.op == Write
    ensures Handle(verify, s, w).status == OK <==>
              && w.len <= w.size - 10
              && 0x5000 <= w.addr < 0x35ff8 && w.addr + w.len <= 0x35ff8
              && (MustErase(s) || w.addr + w.len >= s.lastWritten)
  {
    hide Put, Padded, Aligned, Authorised;
    AuthorisedIsZeroWord(s.flash);
  }

  /** After a granted write every byte of the application is the one written, or what was there, which
      is 0xff where the write had to erase first. */
  lemma WriteEffectIsExact(verify: (Bytes, Bytes) -> bool, s: Boot, w: Request, p: nat)
    requires w.op == Write && Handle(verify, s, w).status == OK && 0x5000 <= p < 0x35ff8
    ensures w.len <= |w.payload|
    ensures var t := Handle(verify, s, w).state;
            && t.flash[p] == (if WrittenByte(w, p) >= 0 then WrittenByte(w, p)
                              else if MustErase(s) then 0xff else s.flash[p])
            && t.hasErased && t.lastWritten == w.addr + w.len
  {
    hide Put, Padded, Aligned, Authorised, WrittenByte;
    AuthorisedIsZeroWord(s.flash);
    WriteStaysInside(w);
    PutWritten(s.flash, w, p);
    PutWritten(Erased(s).flash, w, p);
    ErasedByte(s, p);
  }

  lemma ErasedByte(s: Boot, p: nat)
    requires APPLICATION_START <= p < APPLICATION_END
    ensures Erased(s).flash[p] == 0xff
  {
    hide Put;
    var n := (APPLICATION_END_PAGE - APPLICATION_START_PAGE) * PAGE_SIZE;
    var f := Put(s.flash, APPLICATION_START, Ones(n));
    assert f[APPLICATION_START..APPLICATION_START + n][p - APPLICATION_START] == 0xff;
  }

  // ----- runs -----

  /** The granted writes since the last erase since power-up, `Fresh` before the first. */
  datatype Session = Fresh | Upload(writes: seq<Request>)

  predicate WellLengthed(ws: seq<Request>) {
    forall i :: 0 <= i < |ws| ==> ws[i].len <= |ws[i].payload|
  }

  ghost function SessionAfter(verify: (Bytes, Bytes) -> bool, s: Boot, u: Session, e: Event): Session {
    match e
    case PowerCycle => Fresh
    case Ask(q) =>
      if q.op == Erase && q.len <= q.size - 10 then Upload([])
      else if q.op == Write && Handle(verify, s, q).status == OK then
        if MustErase(s) then Upload([q]) else if u.Upload? then Upload(u.writes + [q]) else Fresh
      else u
  }

  ghost function SessionOf(verify: (Bytes, Bytes) -> bool, s: Boot, es: seq<Event>): Session {
    if es == [] then Fresh
    else
      var n := |es| - 1;
      SessionAfter(verify, After(verify, s, es[..n]), SessionOf(verify, s, es[..n]), es[n])
  }

  /** Byte `p` after these writes over erased flash: the last one that reaches it decides. */
  function Overlaid(ws: seq<Request>, p: int): int
    requires WellLengthed(ws)
  {
    if ws == [] then 0xff
    else
      var n := |ws| - 1;
      if WrittenByte(ws[n], p) >= 0 then WrittenByte(ws[n], p) else Overlaid(ws[..n], p)
  }

  /** The application holds the session's writes; a write is known only within a session. */
  ghost predicate Holds(s: Boot, u: Session) {
    && (s.hasErased || s.lastWritten != 0 ==> u.Upload?)
    && (u.Upload? ==>
          && WellLengthed(u.writes)
          && (s.lastWritten != 0 ==> u.writes != [])
          && forall p :: APPLICATION_START <= p < APPLICATION_END ==> s.flash[p] == Overlaid(u.writes, p))
  }

  lemma OverlaidSnoc(ws: seq<Request>, w: Request, p: int)
    requires WellLengthed(ws) && w.len <= |w.payload|
    ensures WellLengthed(ws + [w])
    ensures Overlaid(ws + [w], p) == if WrittenByte(w, p) >= 0 then WrittenByte(w, p) else Overlaid(ws, p)
  {
    assert (ws + [w])[..|ws|] == ws;
  }

  lemma WriteHolds(verify: (Bytes, Bytes) -> bool, s: Boot, u: Session, w: Request)
    requires Holds(s, u) && w.op == Write
    ensures Holds(Handle(verify, s, w).state, SessionAfter(verify, s, u, Ask(w)))
  {
    hide Handle, WrittenByte, Overlaid, MustErase;
    var t := Handle(verify, s, w).state;
    if Handle(verify, s, w).status == OK {
      NotErasing(s);
      var ws := if MustErase(s) then [] else u.writes;
      NothingWritten();
      WriteEffectIsExact(verify, s, w, APPLICATION_START);
      assert [] + [w] == [w];
      forall p | APPLICATION_START <= p < APPLICATION_END ensures t.flash[p] == Overlaid(ws + [w], p) {
        WriteEffectIsExact(verify, s, w, p);
        OverlaidSnoc(ws, w, p);
      }
      OverlaidSnoc(ws, w, 0);
    } else {
      RefusedWrite(verify, s, w);
    }
  }

  lemma NotErasing(s: Boot)
    ensures !MustErase(s) ==> s.hasErased
  {
  }

  lemma NothingWritten()
    ensures forall p: int :: Overlaid([], p) == 0xff
  {
  }

  /** A refused write leaves the flash alone and only forgets that it had been erased. */
  lemma RefusedWrite(verify: (Bytes, Bytes) -> bool, s: Boot, w: Request)
    requires w.op == Write && Handle(verify, s, w).status != OK
    ensures var t := Handle(verify, s, w).state;
            t.flash == s.flash && t.lastWritten == s.lastWritten && (t.hasErased ==> s.hasErased)
  {
    hide Put, Padded, Aligned, Authorised;
  }

  /** Nothing but a write or an erase touches the application. */
  lemma OtherKeepsApplication(verify: (Bytes, Bytes) -> bool, s: Boot, q: Request)
    requires q.op != Write && !(q.op == Erase && q.len <= q.size - 10)
    ensures var t := Handle(verify, s, q).state;
            && (forall p :: APPLICATION_START <= p < APPLICATION_END ==> t.flash[p] == s.flash[p])
            && t.lastWritten == s.lastWritten && (t.hasErased ==> s.hasErased)
  {
    hide Put, Accepts, Claimed;
  }

  lemma StepHolds(verify: (Bytes, Bytes) -> bool, s: Boot, u: Session, e: Event)
    requires Holds(s, u)
    ensures Holds(Next(verify, s, e), SessionAfter(verify, s, u, e))
  {
    hide Handle, Overlaid, Put, MustErase;
    match e {
      case PowerCycle =>
      case Ask(q) =>
        if q.op == Write {
          WriteHolds(verify, s, u, q);
        } else if q.op == Erase && q.len <= q.size - 10 {
          EraseHolds(verify, s, q);
        } else {
          OtherKeepsApplication(verify, s, q);
        }
    }
  }

  lemma EraseHolds(verify: (Bytes, Bytes) -> bool, s: Boot, q: Request)
    requires q.op == Erase && q.len <= q.size - 10
    ensures Holds(Handle(verify, s, q).state, Upload([]))
  {
    hide Put;
    forall p | APPLICATION_START <= p < APPLICATION_END ensures Erased(s).flash[p] == 0xff { ErasedByte(s, p); }
  }

  lemma {:induction false} RunHolds(verify: (Bytes, Bytes) -> bool, s: Boot, es: seq<Event>)
    requires !s.hasErased && s.lastWritten == 0
    ensures Holds(After(verify, s, es), SessionOf(verify, s, es))
  {
    hide Holds, Next, SessionAfter, After;
    AfterStep(verify, s, es);
    if es == [] {
      FreshHolds(s);
    } else {
      var n := |es| - 1;
      RunHolds(verify, s, es[..n]);
      StepHolds(verify, After(verify, s, es[..n]), SessionOf(verify, s, es[..n]), es[n]);
    }
  }

  lemma FreshHolds(s: Boot)
    requires !s.hasErased && s.lastWritten == 0
    ensures Holds(s, Fresh)
  {
  }

  /** From power-up, whatever is asked, an update is granted only for the writes made since the last
      erase: what BootDone hashes, approves and leaves in place is erased flash with their payloads
      over it in order. */
  lemma ApprovedIsUploaded(verify: (Bytes, Bytes) -> bool, s: Boot, es: seq<Event>, q: Request)
    requires !s.hasErased && s.lastWritten == 0
    requires q.op == Done && Handle(verify, After(verify, s, es), q).status == OK
    ensures var (t, u) := (After(verify, s, es), SessionOf(verify, s, es));
            && u.Upload? && u.writes != [] && WellLengthed(u.writes)
            && verify(Digest(t.flash[0x5000..0x35ff8]), q.payload[..64])
            && (forall p :: 0x5000 <= p < 0x35ff8 ==> t.flash[p] == Overlaid(u.writes, p))
            && Handle(verify, t, q).state.flash[0x5000..0x35ff8] == t.flash[0x5000..0x35ff8]
  {
    hide Handle, Overlaid, After, SessionOf, Digest, Claimed, Allowed;
    RunHolds(verify, s, es);
    var t := After(verify, s, es);
    GrantIsExact(verify, t, q);
    GrantEffect(verify, t, Ask(q));
  }

  /** The magic payload, and nothing else, clears the disable word, and no other byte. */
  lemma DisableIsExact(verify: (Bytes, Bytes) -> bool, s: Boot, q: Request, p: nat)
    requires q.op == Disable && q.len <= q.size - 10 && p < FLASH_SIZE
    ensures var t := Handle(verify, s, q).state;
            t.flash[p] == if q.payload[..4] == [0xcd, 0xde, 0xba, 0xaa] && 0x35ffc <= p < 0x36000 then 0 else s.flash[p]
  {
  }

  /** BootErase makes every byte of the application pages, the two flag words included, 0xff. */
  lemma EraseIsExact(verify: (Bytes, Bytes) -> bool, s: Boot, q: Request, p: nat)
    requires q.op == Erase && q.len <= q.size - 10 && p < FLASH_SIZE
    ensures var o := Handle(verify, s, q);
            && o.status == OK && o.state.lastWritten == 0 && o.state.hasErased == s.hasErased
            && o.state.flash[p] == if 0x5000 <= p < 0x36000 then 0xff else s.flash[p]
  {
    hide Put;
    PutAt(s.flash, APPLICATION_START, Ones((APPLICATION_END_PAGE - APPLICATION_START_PAGE) * PAGE_SIZE), p);
  }

  /** A session lasts from the write that erases to the next request for version or public key, write
      that does not ascend, or power cycle; it is not ended by BootErase or BootDone. */
  lemma SessionIsExact(verify: (Bytes, Bytes) -> bool, s: Boot, e: Event)
    ensures Next(verify, s, e).hasErased ==
              (e.Ask? && if e.request.len > e.request.size - 10 || e.request.op !in {Write, GetVersion, GetPubkey}
                         then s.hasErased
                         else e.request.op == Write
                              && (Handle(verify, s, e.request).status == OK
                                  || (s.hasErased && (e.request.addr < 0x5000
                                                      || e.request.addr >= 0x35ff8
                                                      || e.request.addr + e.request.len > 0x35ff8))))
  {
    hide Put, Padded, Aligned, Authorised, Accepts, Claimed;
  }

  /** What the flag for a reboot is set by; a power cycle clears it. */
  lemma RebootIsExact(verify: (Bytes, Bytes) -> bool, s: Boot, e: Event)
    ensures Next(verify, s, e).rebootFlag ==
              (e.Ask? && (s.rebootFlag || (e.request.len <= e.request.size - 10
                                           && (e.request.op == Reboot
                                               || (e.request.op == Done && e.request.len == 64)))))
  {
    hide Put, Padded, Aligned, Authorised, Accepts, Claimed;
  }

  /** A granted update clears the auth word, stores the claimed version behind 8 erased bytes, and
      changes no other byte. */
  lemma GrantChangesOnly(verify: (Bytes, Bytes) -> bool, s: Boot, q: Request, p: nat)
    requires q.op == Done && Handle(verify, s, q).status == OK && p < FLASH_SIZE
    ensures var (t, v) := (Handle(verify, s, q).state, Claimed(s));
            && t.rebootFlag
            && t.flash[p] == if 0x35ff8 <= p < 0x35ffc then 0
                             else if 0x36000 <= p < 0x36008 then 0xff
                             else if 0x36008 <= p < 0x3600c then [v.major, v.minor, v.patch, v.reserved][p - 0x36008]
                             else s.flash[p]
  {
    hide Put, Claimed, Allowed, Digest, App;
    GrantIsExact(verify, s, q);
    var v := Claimed(s);
    var data := Ones(8) + [v.major, v.minor, v.patch, v.reserved];
    PutAt(s.flash, BOOT_VERSION_PAGE * PAGE_SIZE, data, p);
    PutAt(StoreVersion(s.flash, v), AUTH_WORD, [0, 0, 0, 0], p);
  }

  /** The status of every request that is not granted, and what it leaves as it was. */
  lemma RefusalsAreExact(verify: (Bytes, Bytes) -> bool, s: Boot, q: Request)
    requires Handle(verify, s, q).status != OK
    ensures var o := Handle(verify, s, q);
            && o.state.flash == s.flash
            && (if q.len > q.size - 10 then o.status == 0x03 && o.state == s
                else if q.op == Write then o.status == 0x30
                else if q.op == Done && q.len != 64 then o.status == 0x03 && o.state == s
                else if q.op == Done then o.status == 0x27 && o.state.rebootFlag
                else q.op == OtherOp && o.status == 0x01 && o.state == s)
  {
    hide Put, Claimed, Digest, Allowed, App, Padded, Aligned, Authorised;
  }
}
