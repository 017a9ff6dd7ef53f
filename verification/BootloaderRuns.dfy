/** Whole runs of the bootloader: what an authorised image is, and which versions get in. */
module BootloaderRuns {
  import opened Wrappers
  import opened CtapErrors
  import opened Octets
  import opened Sha256Spec
  import opened Bootloader
  import opened Runs

  // ----- what one event does -----

  /** Is the event a BootDone that is answered with success? */
  ghost predicate Grants(verify: (Bytes, Bytes) -> bool, s: Boot, e: Event) {
    e.Ask? && e.request.op == Done && Handle(verify, s, e.request).status == OK
  }

  /** Success needs a valid signature of the application and an allowed version claim. */
  lemma GrantIsExact(verify: (Bytes, Bytes) -> bool, s: Boot, q: Request)
    requires q.op == Done
    ensures Grants(verify, s, Ask(q)) <==> q.len <= q.size - 10 && Accepts(verify, s, q)
  {
    hide Claimed, Digest, App, Allowed;
  }

  /** The regions that the invariants are about, as one event leaves them. */
  ghost predicate SameRegions(f: Flash, g: Flash) {
    && App(g) == App(f)
    && g[AUTH_WORD..AUTH_WORD + 4] == f[AUTH_WORD..AUTH_WORD + 4]
    && Stored(g) == Stored(f)
  }

  lemma SameSlices(f: Flash, g: Flash)
    requires g[APPLICATION_START..APPLICATION_END] == f[APPLICATION_START..APPLICATION_END]
    requires g[AUTH_WORD..AUTH_WORD + 4] == f[AUTH_WORD..AUTH_WORD + 4]
    requires g[BOOT_VERSION..BOOT_VERSION + 4] == f[BOOT_VERSION..BOOT_VERSION + 4]
    ensures SameRegions(f, g)
  {
    VersionInSlice(f);
    VersionInSlice(g);
  }

  lemma VersionInSlice(f: Flash)
    ensures var w := f[BOOT_VERSION..BOOT_VERSION + 4]; Stored(f) == Version(w[0], w[1], w[2], w[3])
  {
  }

  /** Granting approves the application as it is and stores the version it claims. */
  lemma GrantEffect(verify: (Bytes, Bytes) -> bool, s: Boot, e: Event)
    requires Grants(verify, s, e)
    ensures var t := Next(verify, s, e);
            && Authorised(t.flash) && App(t.flash) == App(s.flash)
            && Stored(t.flash) == Claimed(s) && Allowed(Claimed(s), Stored(s.flash))
            && verify(Digest(App(t.flash)), e.request.payload[..64])
  {
    hide Claimed, Allowed, Digest, Put;
    GrantIsExact(verify, s, e.request);
    var v := Claimed(s);
    var f := StoreVersion(s.flash, v);
    PutElsewhere(s.flash, BOOT_VERSION_PAGE * PAGE_SIZE, Ones(8) + [v.major, v.minor, v.patch, v.reserved],
      APPLICATION_START, APPLICATION_END);
    PutElsewhere(f, AUTH_WORD, [0, 0, 0, 0], APPLICATION_START, APPLICATION_END);
    PutElsewhere(f, AUTH_WORD, [0, 0, 0, 0], BOOT_VERSION, BOOT_VERSION + 4);
    VersionStored(s.flash, v);
    VersionInSlice(f);
    VersionInSlice(Authorise(f));
  }

  lemma VersionStored(f: Flash, v: Version)
    ensures Stored(StoreVersion(f, v)) == v
  {
    var g := StoreVersion(f, v);
    var p := BOOT_VERSION_PAGE * PAGE_SIZE;
    var data := Ones(8) + [v.major, v.minor, v.patch, v.reserved];
    assert g[p..p + 12] == data;
    forall k | 0 <= k < 12 ensures g[p + k] == data[k] { assert g[p..p + 12][k] == g[p + k]; }
  }

  /** A write leaves the flags and the version alone, and an authorised image it erases. */
  lemma WriteEffect(s: Boot, q: Request)
    requires q.len <= |q.payload|
    ensures var t := DoWrite(s, q).state;
            && Stored(t.flash) == Stored(s.flash)
            && (Authorised(t.flash) ==> t == s)
  {
    hide Put, Padded, Aligned;
    if InRange(q) {
      var e := Erased(s);
      ErasedIsNotAuthorised(s);
      EraseKeepsVersion(s);
      var s1 := if ErasesFirst(s) then Boot(e.flash, true, 0, e.rebootFlag) else s;
      WriteStaysInside(q);
      var at, data := Aligned(q.addr), Padded(q.payload[..q.len]);
      PutElsewhere(s1.flash, at, data, AUTH_WORD, AUTH_WORD + 4);
      PutElsewhere(s1.flash, at, data, BOOT_VERSION, BOOT_VERSION + 4);
      VersionInSlice(s1.flash);
      VersionInSlice(Put(s1.flash, at, data));
    }
  }

  lemma EraseKeepsVersion(s: Boot)
    ensures Stored(Erased(s).flash) == Stored(s.flash)
  {
    hide Put;
    var n := (APPLICATION_END_PAGE - APPLICATION_START_PAGE) * PAGE_SIZE;
    PutElsewhere(s.flash, APPLICATION_START, Ones(n), BOOT_VERSION, BOOT_VERSION + 4);
    VersionInSlice(s.flash);
    VersionInSlice(Erased(s).flash);
  }

  /** Any other event changes neither the version nor an image that stays authorised. */
  lemma OtherEffect(verify: (Bytes, Bytes) -> bool, s: Boot, e: Event)
    requires !Grants(verify, s, e)
    ensures var t := Next(verify, s, e);
            && Stored(t.flash) == Stored(s.flash)
            && (Authorised(t.flash) ==> Authorised(s.flash) && App(t.flash) == App(s.flash))
  {
    hide DoWrite, Accepts, Erased, Put, Stored, App, Grants;
    if e.Ask? {
      var q := e.request;
      match q.op {
        case Done => GrantIsExact(verify, s, q);
        case Write => if q.len <= |q.payload| { WriteEffect(s, q); }
        case Erase => ErasedIsNotAuthorised(s); EraseKeepsVersion(s);
        case Disable => DisableEffect(s);
        case _ =>
      }
    }
  }

  lemma DisableEffect(s: Boot)
    ensures SameRegions(s.flash, Put(s.flash, DISABLED_WORD, [0, 0, 0, 0]))
  {
    hide Put;
    PutElsewhere(s.flash, DISABLED_WORD, [0, 0, 0, 0], APPLICATION_START, APPLICATION_END);
    PutElsewhere(s.flash, DISABLED_WORD, [0, 0, 0, 0], AUTH_WORD, AUTH_WORD + 4);
    PutElsewhere(s.flash, DISABLED_WORD, [0, 0, 0, 0], BOOT_VERSION, BOOT_VERSION + 4);
    SameSlices(s.flash, Put(s.flash, DISABLED_WORD, [0, 0, 0, 0]));
  }

  // ----- runs -----

  function Machine(verify: (Bytes, Bytes) -> bool): (Boot, Event) -> Boot {
    (s, e) => Next(verify, s, e)
  }

  function After(verify: (Bytes, Bytes) -> bool, s: Boot, es: seq<Event>): Boot {
    Run(Machine(verify), s, es)
  }

  lemma AfterStep(verify: (Bytes, Bytes) -> bool, s: Boot, es: seq<Event>)
    ensures es == [] ==> After(verify, s, es) == s
    ensures es != [] ==> After(verify, s, es) == Next(verify, After(verify, s, es[..|es| - 1]), es[|es| - 1])
  {
    hide Next;
  }

  /** The application that the last granted BootDone of the run approved, or `before` the run. */
  ghost function LastApproved(verify: (Bytes, Bytes) -> bool, s: Boot,
      before: Option<Bytes>, es: seq<Event>): Option<Bytes> {
    if es == [] then before
    else
      var t := After(verify, s, es[..|es| - 1]);
      if Grants(verify, t, es[|es| - 1]) then Some(App(t.flash)) else LastApproved(verify, s, before, es[..|es| - 1])
  }

  /** Authorisation invariant: at every point of every run, while the auth word is zero the
      application is byte for byte the one approved last. */
  lemma {:induction false} AuthorisedIsApproved(verify: (Bytes, Bytes) -> bool, s: Boot,
      before: Option<Bytes>, es: seq<Event>)
    requires Authorised(s.flash) ==> before == Some(App(s.flash))
    ensures var f := After(verify, s, es).flash;
            Authorised(f) ==> LastApproved(verify, s, before, es) == Some(App(f))
  {
    hide Grants, Authorised, App, Next, After;
    AfterStep(verify, s, es);
    if es != [] {
      var t, e := After(verify, s, es[..|es| - 1]), es[|es| - 1];
      AuthorisedIsApproved(verify, s, before, es[..|es| - 1]);
      if Grants(verify, t, e) { GrantEffect(verify, t, e); } else { OtherEffect(verify, t, e); }
    }
  }

  /** Hence what an unauthorised device ever authorises was signed: some request of the run carried
      a valid signature of exactly the application in flash. */
  lemma {:induction false} AuthorisedIsSigned(verify: (Bytes, Bytes) -> bool, s: Boot, es: seq<Event>)
    requires !Authorised(s.flash)
    ensures var f := After(verify, s, es).flash;
            Authorised(f) ==> exists i :: 0 <= i < |es| && es[i].Ask? && es[i].request.op == Done
                                          && verify(Digest(App(f)), es[i].request.payload[..64])
  {
    hide Authorised, App, Next, Digest, Handle, After;
    AfterStep(verify, s, es);
    if es != [] {
      var n := |es| - 1;
      var t, e := After(verify, s, es[..n]), es[n];
      AuthorisedIsSigned(verify, s, es[..n]);
      if Grants(verify, t, e) { GrantEffect(verify, t, e); } else { OtherEffect(verify, t, e); }
    }
  }
}
