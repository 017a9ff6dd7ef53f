/** Which bytes the bootloader takes for the version of an update, and when the stored version can
    go back. */
module BootloaderVersions {
  import opened CtapErrors
  import opened Octets
  import opened Sha256Spec
  import opened Bootloader
  import opened BootloaderRuns
  import opened Runs

  // ----- where the version is looked for -----

  /** Does the event forget how far the application was written? */
  ghost predicate StartsOver(s: Boot, e: Event) {
    match e
    case PowerCycle => true
    case Ask(q) => q.len <= q.size - 10 && (q.op == Erase || (q.op == Write && InRange(q) && ErasesFirst(s)))
  }

  ghost predicate Writes(verify: (Bytes, Bytes) -> bool, s: Boot, e: Event) {
    e.Ask? && e.request.op == Write && Handle(verify, s, e.request).status == OK
  }

  /** The ends of the writes since the application was last erased or the power went. */
  ghost function Ends(verify: (Bytes, Bytes) -> bool, s: Boot, es: seq<Event>): seq<nat> {
    if es == [] then []
    else
      var t, e := After(verify, s, es[..|es| - 1]), es[|es| - 1];
      var kept := if StartsOver(t, e) then [] else Ends(verify, s, es[..|es| - 1]);
      if Writes(verify, t, e) then kept + [e.request.addr + e.request.len] else kept
  }

  lemma StepLastWritten(verify: (Bytes, Bytes) -> bool, s: Boot, e: Event)
    ensures var kept := if StartsOver(s, e) then 0 else s.lastWritten;
            if Writes(verify, s, e)
            then e.request.addr + e.request.len >= kept
                 && Next(verify, s, e).lastWritten == e.request.addr + e.request.len
            else Next(verify, s, e).lastWritten == kept
  {
    hide Accepts, Claimed, Put, Padded, Aligned, Authorised;
  }

  ghost predicate Ascending(ends: seq<nat>) {
    forall i, j :: 0 <= i <= j < |ends| ==> ends[i] <= ends[j]
  }

  /** The version that BootDone examines ends where the writes since the last erase reached
      furthest, and that end only moves up. */
  lemma {:induction false} ExaminedAtHighestEnd(verify: (Bytes, Bytes) -> bool, s: Boot, es: seq<Event>)
    requires s.lastWritten == 0
    ensures var ends := Ends(verify, s, es);
            && Ascending(ends)
            && After(verify, s, es).lastWritten == if ends == [] then 0 else ends[|ends| - 1]
  {
    hide StartsOver, Writes, Next, After;
    AfterStep(verify, s, es);
    if es != [] {
      var n := |es| - 1;
      ExaminedAtHighestEnd(verify, s, es[..n]);
      StepLastWritten(verify, After(verify, s, es[..n]), es[n]);
    }
  }

  // ----- what is found there -----

  /** The flash that a write finds, after the erase it may start with. */
  function Found(s: Boot): Flash {
    if ErasesFirst(s) then Erased(s).flash else s.flash
  }

  /** The byte at `p` after the write `q` over `f`: from the payload, from the filling up of the
      last double word, or what was there. */
  function ByteAfter(f: Flash, q: Request, p: nat): u8
    requires q.len <= |q.payload| && p < FLASH_SIZE
  {
    var k := p - Aligned(q.addr);
    if 0 <= k < q.len then q.payload[k]
    else if 0 <= k < |Padded(q.payload[..q.len])| then 0xff
    else f[p]
  }

  lemma PutByte(f: Flash, q: Request, p: nat)
    requires InRange(q) && q.len <= |q.payload| && p < FLASH_SIZE
    requires Aligned(q.addr) + |Padded(q.payload[..q.len])| <= FLASH_SIZE
    ensures Put(f, Aligned(q.addr), Padded(q.payload[..q.len]))[p] == ByteAfter(f, q, p)
  {
    hide Aligned;
  }

  /** The version claimed after any write, however aligned and however short. */
  lemma ClaimAfterWrite(verify: (Bytes, Bytes) -> bool, s: Boot, q: Request)
    requires Writes(verify, s, Ask(q))
    ensures q.len <= |q.payload| && InRange(q)
    ensures var (f, end) := (Found(s), q.addr + q.len);
            Claimed(Handle(verify, s, q).state)
            == Version(ByteAfter(f, q, end - 4), ByteAfter(f, q, end - 3),
                       ByteAfter(f, q, end - 2), ByteAfter(f, q, end - 1))
  {
    hide Put, Erased, Authorised, Aligned, Padded, ByteAfter;
    var end := q.addr + q.len;
    WriteStaysInside(q);
    PutByte(Found(s), q, end - 4);
    PutByte(Found(s), q, end - 3);
    PutByte(Found(s), q, end - 2);
    PutByte(Found(s), q, end - 1);
  }

  /** It is four 0xff bytes exactly when each of the last four bytes before the end was uploaded as
      0xff, or filled up, or not reached by the write and 0xff before it. */
  lemma ClaimIsNoVersion(verify: (Bytes, Bytes) -> bool, s: Boot, q: Request)
    requires Writes(verify, s, Ask(q))
    ensures q.len <= |q.payload| && InRange(q)
    ensures Claimed(Handle(verify, s, q).state) == NO_VERSION
            <==> forall p :: q.addr + q.len - 4 <= p < q.addr + q.len ==> ByteAfter(Found(s), q, p) == 0xff
  {
    hide Found, ByteAfter, Handle, Claimed;
    ClaimAfterWrite(verify, s, q);
  }

  /** After an aligned write of at least four bytes it is the last four uploaded. */
  lemma ExaminedIsUploaded(verify: (Bytes, Bytes) -> bool, s: Boot, q: Request)
    requires Writes(verify, s, Ask(q)) && q.addr % 8 == 0 && q.len >= 4
    ensures q.len <= |q.payload|
    ensures var v := q.payload[q.len - 4..q.len];
            Claimed(Handle(verify, s, q).state) == Version(v[0], v[1], v[2], v[3])
  {
    hide Found, Handle, Claimed;
    ClaimAfterWrite(verify, s, q);
  }

  // ----- the order of versions -----

  /** Where a version stands: its bytes as the digits of a number, but for the reserved one. */
  function Rank(v: Version): nat {
    0x1_0000 * v.major + 0x100 * v.minor + v.patch
  }

  /** The order of versions is a total preorder: that of the triples, reserved bytes ignored. */
  lemma NewerIsLexicographic(a: Version, b: Version, c: Version)
    ensures IsNewer(a, b) <==> Rank(a) >= Rank(b)
    ensures IsNewer(a, a)
    ensures IsNewer(a, b) || IsNewer(b, a)
    ensures IsNewer(a, b) && IsNewer(b, c) ==> IsNewer(a, c)
  {
  }

  /** The version that four bytes in flash stand for. */
  function VersionIn(w: Bytes): Version
    requires |w| == 4
  {
    Version(w[0], w[1], w[2], w[3])
  }

  /** Exactly which updates are granted: those with a signature of 64 bytes that verifies for the
      application, something written since the last erase, and the version in the four bytes before
      the end of the last write not below the stored one, unless that is four 0xff bytes. */
  lemma DoneIsExact(verify: (Bytes, Bytes) -> bool, s: Boot, q: Request)
    requires q.op == Done
    ensures Handle(verify, s, q).status == OK <==>
              && q.len == 64 && q.size >= 74 && s.lastWritten != 0
              && verify(Digest(s.flash[0x5000..0x35ff8]), q.payload[..64])
              && (Rank(VersionIn(s.flash[s.lastWritten - 4..s.lastWritten]))
                  >= Rank(VersionIn(s.flash[0x36008..0x3600c]))
                  || s.flash[0x36008..0x3600c] == [0xff, 0xff, 0xff, 0xff])
  {
    hide Digest, IsNewer, Rank;
    GrantIsExact(verify, s, q);
    VersionInSlice(s.flash);
    var v, w := Claimed(s), s.flash[0x36008..0x3600c];
    NewerIsLexicographic(v, Stored(s.flash), v);
    assert w == [w[0], w[1], w[2], w[3]];
  }

  /** An event takes the stored version back exactly when it is a correctly signed update, over a
      stored version of four 0xff bytes, to a version other than 255.255.255. */
  ghost predicate TakesBack(verify: (Bytes, Bytes) -> bool, s: Boot, e: Event) {
    && e.Ask? && e.request.op == Done && e.request.len <= e.request.size - 10 && Accepts(verify, s, e.request)
    && Stored(s.flash) == NO_VERSION
    && !(Claimed(s).major == Claimed(s).minor == Claimed(s).patch == 0xff)
  }

  lemma RollbackIsExact(verify: (Bytes, Bytes) -> bool, s: Boot, e: Event)
    ensures !IsNewer(Stored(Next(verify, s, e).flash), Stored(s.flash)) <==> TakesBack(verify, s, e)
  {
    hide Handle, Accepts, Stored, Next, Claimed;
    if e.Ask? && e.request.op == Done { GrantIsExact(verify, s, e.request); }
    if Grants(verify, s, e) { GrantEffect(verify, s, e); } else { OtherEffect(verify, s, e); }
  }

  /** The stored version after the first `i` events of a run. */
  ghost function StoredAt(verify: (Bytes, Bytes) -> bool, s: Boot, es: seq<Event>, i: nat): Version
    requires i <= |es|
  {
    Stored(After(verify, s, es[..i]).flash)
  }

  lemma {:induction false} RisesBetween(verify: (Bytes, Bytes) -> bool, s: Boot, es: seq<Event>, i: nat, j: nat)
    requires i <= j <= |es|
    requires forall k :: i <= k < j ==> !TakesBack(verify, After(verify, s, es[..k]), es[k])
    ensures IsNewer(StoredAt(verify, s, es, j), StoredAt(verify, s, es, i))
  {
    hide TakesBack, IsNewer, Next, After;
    if i == j {
      NewerIsLexicographic(StoredAt(verify, s, es, i), StoredAt(verify, s, es, i), StoredAt(verify, s, es, i));
    } else {
      RisesBetween(verify, s, es, i, j - 1);
      StepAt(verify, s, es, j - 1);
      RollbackIsExact(verify, After(verify, s, es[..j - 1]), es[j - 1]);
      NewerIsLexicographic(StoredAt(verify, s, es, j), StoredAt(verify, s, es, j - 1), StoredAt(verify, s, es, i));
    }
  }

  lemma StepAt(verify: (Bytes, Bytes) -> bool, s: Boot, es: seq<Event>, i: nat)
    requires i < |es|
    ensures After(verify, s, es[..i + 1]) == Next(verify, After(verify, s, es[..i]), es[i])
  {
    hide Next;
    RunStep(Machine(verify), s, es, i);
  }

  /** Over a run the stored version never goes back, between any two points, exactly when no event
      takes it back. */
  lemma NeverBackExactly(verify: (Bytes, Bytes) -> bool, s: Boot, es: seq<Event>)
    ensures (forall i, j :: 0 <= i <= j <= |es| ==> IsNewer(StoredAt(verify, s, es, j), StoredAt(verify, s, es, i)))
            <==> forall k :: 0 <= k < |es| ==> !TakesBack(verify, After(verify, s, es[..k]), es[k])
  {
    hide TakesBack, IsNewer, Next, After, StoredAt;
    if forall k :: 0 <= k < |es| ==> !TakesBack(verify, After(verify, s, es[..k]), es[k]) {
      forall i, j | 0 <= i <= j <= |es| ensures IsNewer(StoredAt(verify, s, es, j), StoredAt(verify, s, es, i)) {
        RisesBetween(verify, s, es, i, j);
      }
    } else {
      var k :| 0 <= k < |es| && TakesBack(verify, After(verify, s, es[..k]), es[k]);
      TakenBackAt(verify, s, es, k);
    }
  }

  lemma TakenBackAt(verify: (Bytes, Bytes) -> bool, s: Boot, es: seq<Event>, k: nat)
    requires k < |es| && TakesBack(verify, After(verify, s, es[..k]), es[k])
    ensures !IsNewer(StoredAt(verify, s, es, k + 1), StoredAt(verify, s, es, k))
  {
    hide TakesBack, IsNewer, Next, After;
    StepAt(verify, s, es, k);
    RollbackIsExact(verify, After(verify, s, es[..k]), es[k]);
  }

  // ----- which requests keep it from going back -----

  /** A write that starts on a double word and uploads the last four bytes before its end, which
      are not all 0xff. */
  predicate Careful(e: Event) {
    e.Ask? && e.request.op == Write && e.request.len <= e.request.size - 10 ==>
      var q := e.request;
      q.addr % 8 == 0 && q.len >= 4 && q.payload[q.len - 4..q.len] != [0xff, 0xff, 0xff, 0xff]
  }

  ghost predicate Claims(s: Boot) {
    s.lastWritten != 0 ==> Claimed(s) != NO_VERSION
  }

  lemma ClaimElsewhere(s: Boot, at: nat, data: Bytes)
    requires APPLICATION_END <= at && at + |data| <= FLASH_SIZE
    ensures Claimed(WithFlash(s, Put(s.flash, at, data))) == Claimed(s)
  {
    hide Put;
  }

  lemma ClaimOfSame(s: Boot, t: Boot)
    ensures t.flash == s.flash && t.lastWritten == s.lastWritten ==> Claimed(t) == Claimed(s)
  {
  }

  lemma StepKeepsClaim(verify: (Bytes, Bytes) -> bool, s: Boot, e: Event)
    requires Claims(s) && Careful(e)
    ensures Claims(Next(verify, s, e))
  {
    hide Claimed, Put, Accepts, Authorised, Padded, Aligned;
    ClaimOfSame(s, Next(verify, s, e));
    if e.Ask? {
      var q := e.request;
      match q.op {
        case Write => if Writes(verify, s, e) { ExaminedIsUploaded(verify, s, q); }
        case Done =>
          var v := Claimed(s);
          var w := Ones(8) + [v.major, v.minor, v.patch, v.reserved];
          ClaimElsewhere(s, BOOT_VERSION_PAGE * PAGE_SIZE, w);
          var s1 := WithFlash(s, StoreVersion(s.flash, v));
          ClaimElsewhere(s1, AUTH_WORD, [0, 0, 0, 0]);
          ClaimOfSame(WithFlash(s1, Authorise(s1.flash)), Next(verify, s, e));
        case Disable => ClaimElsewhere(s, DISABLED_WORD, [0, 0, 0, 0]);
        case _ =>
      }
    }
  }

  /** Over every run whose writes start on a double word and end in four uploaded bytes that are
      not all 0xff, the stored version never goes back. */
  lemma {:induction false} VersionsNeverGoBack(verify: (Bytes, Bytes) -> bool, s: Boot, es: seq<Event>)
    requires Stored(s.flash) != NO_VERSION && Claims(s)
    requires forall i :: 0 <= i < |es| ==> Careful(es[i])
    ensures var t := After(verify, s, es);
            IsNewer(Stored(t.flash), Stored(s.flash)) && Stored(t.flash) != NO_VERSION && Claims(t)
  {
    hide Grants, Stored, Next, IsNewer, Claimed, Careful, After;
    AfterStep(verify, s, es);
    if es == [] {
      NewerIsLexicographic(Stored(s.flash), Stored(s.flash), Stored(s.flash));
    } else {
      var n := |es| - 1;
      var t, e := After(verify, s, es[..n]), es[n];
      VersionsNeverGoBack(verify, s, es[..n]);
      StepKeepsClaim(verify, t, e);
      if Grants(verify, t, e) {
        GrantEffect(verify, t, e);
        GrantHasWritten(verify, t, e);
      } else {
        OtherEffect(verify, t, e);
      }
      RollbackIsExact(verify, t, e);
      NewerIsLexicographic(Stored(Next(verify, t, e).flash), Stored(t.flash), Stored(s.flash));
    }
  }

  lemma GrantHasWritten(verify: (Bytes, Bytes) -> bool, s: Boot, e: Event)
    requires Grants(verify, s, e)
    ensures s.lastWritten != 0
  {
    hide Handle, Claimed, Digest, App, Allowed;
    GrantIsExact(verify, s, e.request);
  }

  /** Without that, not uploading 0xff is not enough: an empty write behind erased bytes uploads
      nothing, leaves a signed application as it is, and makes four 0xff bytes its version. Every
      stored version admits that, and afterwards any version is admitted. */
  lemma EmptyWriteStoresNoVersion(verify: (Bytes, Bytes) -> bool, s: Boot, w: Request, d: Request)
    requires !ErasesFirst(s)
    requires w.op == Write && w.len == 0 <= w.size - 10 && InRange(w) && w.addr % 8 == 0 && w.addr >= s.lastWritten
    requires s.flash[w.addr - 4..w.addr] == [0xff, 0xff, 0xff, 0xff]
    requires d.op == Done && d.len == 64 <= d.size - 10 && verify(Digest(App(s.flash)), d.payload[..64])
    ensures var t := After(verify, s, [Ask(w), Ask(d)]);
            && Grants(verify, After(verify, s, [Ask(w)]), Ask(d))
            && App(t.flash) == App(s.flash) && Authorised(t.flash) && Stored(t.flash) == NO_VERSION
  {
    hide Grants, Claimed, Digest, App, Authorised, Next, Handle, Stored;
    var s1 := Next(verify, s, Ask(w));
    EmptyWrite(verify, s, w);
    assert [Ask(w), Ask(d)][..1] == [Ask(w)] && [Ask(w)][..0] == [];
    AfterStep(verify, s, [Ask(w)]);
    AfterStep(verify, s, [Ask(w), Ask(d)]);
    AfterStep(verify, s, []);
    GrantIsExact(verify, s1, d);
    GrantEffect(verify, s1, Ask(d));
  }

  lemma NothingPadded()
    ensures Padded([]) == []
  {
  }

  lemma EmptyWrite(verify: (Bytes, Bytes) -> bool, s: Boot, w: Request)
    requires !ErasesFirst(s)
    requires w.op == Write && w.len == 0 <= w.size - 10 && InRange(w) && w.addr % 8 == 0 && w.addr >= s.lastWritten
    requires s.flash[w.addr - 4..w.addr] == [0xff, 0xff, 0xff, 0xff]
    ensures var t := Next(verify, s, Ask(w));
            t.flash == s.flash && t.lastWritten == w.addr && Claimed(t) == NO_VERSION
  {
    hide Authorised, Put, Padded;
    var bytes := s.flash[w.addr - 4..w.addr];
    assert bytes[0] == s.flash[w.addr - 4] && bytes[1] == s.flash[w.addr - 3]
        && bytes[2] == s.flash[w.addr - 2] && bytes[3] == s.flash[w.addr - 1];
    assert Padded(w.payload[..0]) == [] by { assert w.payload[..0] == []; NothingPadded(); }
    PutNothing(s.flash, w.addr);
  }
}
