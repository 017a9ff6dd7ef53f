/** The enumeration cursors across other commands: which runs keep them on stored keys. */
module Cursors {
  import opened CtapErrors
  import opened Octets
  import opened Sha256Spec
  import opened CredentialTags
  import opened ResidentKeys
  import opened Enumeration
  import opened KeyStoreRuns
  import opened Runs

  datatype Session = Session(device: Device, cursor: Cursor)

  datatype Input = Touch(command: Command) | Ask(request: Request)

  function Answer(s: Session, q: Request): Result {
    Enumeration.Handle(s.device.store, s.cursor, q)
  }

  function Advance(s: Session, i: Input): Session {
    match i
    case Touch(c) => Session(Next(s.device, c), s.cursor)
    case Ask(q) => var r := Answer(s, q); Session(Device(s.device.secret, r.store), r.cursor)
  }

  /** A slot that a Next command may report: it holds a key, or it is the one that the first key
      of an empty store will be put in. */
  ghost predicate OnKey(st: Store, at: Place) {
    at >= 0 ==> IsValid(st.slots[at]) || (at == 0 && st.stored == 0)
  }

  ghost predicate Safe(s: Session) {
    && StoreInv(s.device.store)
    && (s.cursor.rkAuth ==> OnKey(s.device.store, s.cursor.rk))
    && (s.cursor.rpAuth ==> OnKey(s.device.store, s.cursor.rp))
  }

  /** No enumeration has got past the first slot. */
  predicate AtStart(c: Cursor) {
    (c.rkAuth ==> c.rk <= 0) && (c.rpAuth ==> c.rp <= 0)
  }

  /** Inputs that cannot lead to the report of an empty slot. A CTAP reset must find no enumeration
      under way; the hash of erased flash must not be asked for while a slot is erased. Deleting
      is credential management's own business. */
  ghost predicate Proper(s: Session, i: Input) {
    match i
    case Touch(c) => Admissible(c) && !c.Remove? && (c.Wipe? ==> AtStart(s.cursor))
    case Ask(q) => q == RkBegin(ERASED_HASH) ==> s.device.store.stored == 0 || FindEmpty(s.device.store.slots) < 0
  }

  ghost predicate ReportsKeys(s: Slots, r: Reply) {
    match r
    case Rp(slot, _) => slot < RK_NUM && IsValid(s[slot])
    case Rk(slot, _) => slot < RK_NUM && IsValid(s[slot])
    case _ => true
  }

  // ----- one input -----

  /** No scan stops at an empty slot, unless it looks for what empty slots show. */
  lemma MarkedScans(s: Slots, h: Hash, from: nat)
    requires Marked(s) && from <= RK_NUM
    ensures -1 <= NextRp(s, from) < RK_NUM && -1 <= NextRk(s, h, from) < RK_NUM
    ensures NextRp(s, from) >= 0 ==> IsValid(s[NextRp(s, from)])
    ensures NextRk(s, h, from) >= 0 ==> (IsValid(s[NextRk(s, h, from)]) <==> h != ERASED_HASH)
    ensures NextRk(s, ERASED_HASH, 0) >= 0 <==> FindEmpty(s) >= 0
  {
    hide IsValid;
  }

  lemma ReportRpIsSafe(s: Session, c: Cursor, total: nat)
    requires StoreInv(s.device.store) && s.device.store.stored > 0
    requires c.rkAuth ==> OnKey(s.device.store, c.rk)
    requires c.rpAuth ==> OnKey(s.device.store, c.rp)
    ensures var r := ReportRp(s.device.store, c, total);
            Safe(Session(Device(s.device.secret, r.store), r.cursor)) && ReportsKeys(r.store.slots, r.reply)
  {
    hide IsValid, StoreInv, Marked, NextRp;
    InvIsMarked(s.device.store);
    if c.rp >= 0 { MarkedScans(s.device.store.slots, ERASED_HASH, c.rp + 1); }
  }

  lemma ReportRkIsSafe(s: Session, c: Cursor, total: nat)
    requires StoreInv(s.device.store) && s.device.store.stored > 0
    requires c.rkAuth ==> OnKey(s.device.store, c.rk)
    requires c.rpAuth ==> OnKey(s.device.store, c.rp)
    ensures var r := ReportRk(s.device.store, c, total);
            Safe(Session(Device(s.device.secret, r.store), r.cursor)) && ReportsKeys(r.store.slots, r.reply)
  {
    hide IsValid, StoreInv, NextRk;
    var s0 := s.device.store.slots;
    InvIsMarked(s.device.store);
    if c.rk >= 0 && c.rkAuth {
      MarkedScans(s0, s0[c.rk].id.rpIdHash, c.rk + 1);
      assert s0[c.rk].id.rpIdHash != ERASED_HASH;
    }
  }

  /** The question is answered with keys only, and everything stays safe. */
  ghost predicate AnsweredWell(s: Session, q: Request) {
    && ReportsKeys(s.device.store.slots, Answer(s, q).reply)
    && Safe(Advance(s, Ask(q)))
  }

  lemma RpBeginIsSafe(s: Session)
    requires Safe(s) && s.device.store.stored > 0
    ensures AnsweredWell(s, RpBegin)
  {
    hide IsValid, StoreInv, ReportRp, NextRp, RpCount, Safe, Marked;
    var st := s.device.store;
    SafeParts(s);
    InvIsMarked(st);
    MarkedScans(st.slots, ERASED_HASH, 0);
    ReportFrame(st);
    ReportRpIsSafe(s, Cursor(NextRp(st.slots, 0), -1, true, false), RpCount(st.slots, 0));
  }

  function KeyCursor(s: Session, h: Hash): Cursor {
    Cursor(s.cursor.rp, NextRk(s.device.store.slots, h, 0), s.cursor.rpAuth, true)
  }

  lemma RkBeginAnswer(s: Session, h: Hash)
    requires s.device.store.stored > 0
    ensures Answer(s, RkBegin(h)) == ReportRk(s.device.store, KeyCursor(s, h), RkCount(s.device.store.slots, h, 0))
    ensures Answer(s, RkBegin(h)).store == s.device.store
  {
    hide NextRk, RkCount;
  }

  lemma RkBeginIsSafe(s: Session, h: Hash)
    requires Safe(s) && s.device.store.stored > 0
    requires h != ERASED_HASH || FindEmpty(s.device.store.slots) < 0
    ensures AnsweredWell(s, RkBegin(h))
  {
    hide IsValid, StoreInv, ReportRk, NextRk, RkCount, Safe, Marked, FindEmpty, OnKey, Answer;
    var st, c := s.device.store, KeyCursor(s, h);
    SafeParts(s);
    InvIsMarked(st);
    MarkedScans(st.slots, h, 0);
    RkBeginAnswer(s, h);
    PlacedOnKey(st, c.rk);
    ReportRkIsSafe(s, c, RkCount(st.slots, h, 0));
  }

  lemma ErasedHashReportsEmptySlot(s: Session)
    requires Safe(s) && s.device.store.stored > 0 && FindEmpty(s.device.store.slots) >= 0
    ensures !ReportsKeys(s.device.store.slots, Answer(s, RkBegin(ERASED_HASH)).reply)
  {
    hide IsValid, StoreInv, ReportRk, NextRk, RkCount, Safe, Marked, FindEmpty, OnKey, Answer;
    var st, c := s.device.store, KeyCursor(s, ERASED_HASH);
    SafeParts(s);
    InvIsMarked(st);
    MarkedScans(st.slots, ERASED_HASH, 0);
    RkBeginAnswer(s, ERASED_HASH);
    ReportRkAt(st, c, RkCount(st.slots, ERASED_HASH, 0));
  }

  lemma NextIsSafe(s: Session, q: Request)
    requires Safe(s) && s.device.store.stored > 0 && (q == RpNext || q == RkNext)
    ensures AnsweredWell(s, q)
  {
    hide IsValid, StoreInv, ReportRp, ReportRk, Safe, OnKey;
    SafeParts(s);
    ReportFrame(s.device.store);
    if q == RpNext { ReportRpIsSafe(s, s.cursor, 0); } else { ReportRkIsSafe(s, s.cursor, 0); }
  }

  lemma SafeParts(s: Session)
    requires Safe(s)
    ensures StoreInv(s.device.store)
    ensures s.cursor.rkAuth ==> OnKey(s.device.store, s.cursor.rk)
    ensures s.cursor.rpAuth ==> OnKey(s.device.store, s.cursor.rp)
  {
    hide StoreInv, OnKey;
  }

  lemma DeleteIsSafe(s: Session, id: CredentialId)
    requires Safe(s)
    ensures AnsweredWell(s, Request.Remove(id)) && Answer(s, Request.Remove(id)).store.counter == s.device.store.counter
  {
    hide IsValid, StoreInv, Delete;
    DeleteKeepsInv(s.device.store, id);
    DeleteCounter(s.device.store, id);
  }

  /** A question is answered with keys only exactly when it is proper, and then keeps it so. */
  lemma AskIsExact(s: Session, q: Request)
    requires Safe(s)
    ensures ReportsKeys(s.device.store.slots, Answer(s, q).reply) <==> Proper(s, Ask(q))
    ensures Proper(s, Ask(q)) ==> Safe(Advance(s, Ask(q)))
    ensures Answer(s, q).store.counter == s.device.store.counter
  {
    hide Safe, Advance, Answer, ReportsKeys, FindEmpty;
    AskKeepsCounter(s, q);
    if s.device.store.stored > 0 {
      match q {
        case RpBegin => RpBeginIsSafe(s);
        case RkBegin(h) =>
          if h == ERASED_HASH && FindEmpty(s.device.store.slots) >= 0 {
            ErasedHashReportsEmptySlot(s);
          } else {
            RkBeginIsSafe(s, h);
          }
        case Remove(id) => DeleteIsSafe(s, id);
        case RpNext => NextIsSafe(s, q);
        case RkNext => NextIsSafe(s, q);
        case _ => IdleIsSafe(s, q);
      }
    } else {
      IdleIsSafe(s, q);
    }
  }

  lemma AskKeepsCounter(s: Session, q: Request)
    ensures Answer(s, q).store.counter == s.device.store.counter
  {
    hide Delete;
    ReportFrame(s.device.store);
    if q.Remove? { DeleteCounter(s.device.store, q.id); }
  }

  lemma IdleIsSafe(s: Session, q: Request)
    requires Safe(s) && (s.device.store.stored == 0 || q == Metadata || q == Other)
    ensures AnsweredWell(s, q)
  {
    hide StoreInv, IsValid;
  }

  lemma PlacedOnKey(st: Store, at: Place)
    ensures (at >= 0 ==> IsValid(st.slots[at])) ==> OnKey(st, at)
    ensures OnKey(st, -1)
  {
  }

  lemma ReportFrame(st: Store)
    ensures forall c: Cursor, n: nat :: ReportRp(st, c, n).store == st && ReportRk(st, c, n).store == st
  {
  }

  lemma ReportRkAt(st: Store, c: Cursor, total: nat)
    requires c.rk >= 0 && c.rkAuth
    ensures ReportRk(st, c, total).reply == Rk(c.rk, total)
  {
  }

  /** Storing a key empties no slot, and fills the first of an empty store. */
  lemma MakeKeepsSlots(secret: Hash, st: Store, r: MakeRequest, at: Place)
    requires StoreInv(st) && OnKey(st, at) && st.counter < ERASED_COUNT - 1
    ensures OnKey(Make(secret, st, r).0, at)
  {
    hide AuthTag, WithMetadata, Upsert, StoreInv;
    if r.status == OK && GoesOn(r.presence) && r.residentKey {
      var rk := NewKey(secret, r, NextCount(st.counter));
      MakeIsUpsert(secret, st, r);
      if st.stored == 0 { UpsertFillsFirst(st, rk); }
      if at >= 0 { UpsertKeepsValid(Counted(st), rk, at); }
    }
  }

  lemma UpsertKeepsValid(st: Store, rk: ResidentKey, at: nat)
    requires at < RK_NUM && IsValid(rk)
    ensures IsValid(st.slots[at]) ==> IsValid(Upsert(st, rk).0.slots[at])
  {
    hide IsValid, AccountOf;
  }

  lemma UpsertFillsFirst(st: Store, rk: ResidentKey)
    requires StoreInv(st) && st.stored == 0 && IsValid(rk)
    ensures IsValid(Upsert(Counted(st), rk).0.slots[0])
  {
    hide IsValid, AccountOf, StoreInv;
    NoneStored(st);
  }

  lemma NoneStored(st: Store)
    requires StoreInv(st) && st.stored == 0
    ensures forall i :: 0 <= i < RK_NUM ==> !IsValid(st.slots[i])
  {
    hide NumValid, AccountOf, DistinctAccounts, DistinctCounts, WellKept;
    forall i | 0 <= i < RK_NUM ensures !IsValid(st.slots[i]) {
      if IsValid(st.slots[i]) { NumValidPositive(st.slots, i, RK_NUM); }
    }
  }

  lemma TouchIsSafe(s: Session, c: Command)
    requires Safe(s) && Proper(s, Touch(c)) && s.device.store.counter < ERASED_COUNT - 1
    ensures Safe(Advance(s, Touch(c))) && Next(s.device, c).store.counter <= s.device.store.counter + 1
  {
    hide IsValid, StoreInv, Make, NumValid;
    StepKeepsInv(s.device, c);
    if c.MakeCredential? {
      if s.cursor.rkAuth { MakeKeepsSlots(s.device.secret, s.device.store, c.request, s.cursor.rk); }
      if s.cursor.rpAuth { MakeKeepsSlots(s.device.secret, s.device.store, c.request, s.cursor.rp); }
    }
  }

  // ----- runs -----

  /** A run of proper inputs below the end of the counter. */
  ghost predicate ProperRun(s: Session, ins: seq<Input>) {
    && s.device.store.counter + |ins| < ERASED_COUNT
    && forall i :: 0 <= i < |ins| ==> Proper(Run(Advance, s, ins[..i]), ins[i])
  }

  lemma {:induction false} ProperRunIsSafe(s: Session, ins: seq<Input>)
    requires Safe(s) && ProperRun(s, ins)
    ensures Safe(Run(Advance, s, ins)) && Run(Advance, s, ins).device.store.counter <= s.device.store.counter + |ins|
  {
    hide Safe, Proper, Advance, Answer;
    if ins != [] {
      var n := |ins| - 1;
      assert forall i :: 0 <= i < n ==> ins[..n][..i] == ins[..i];
      ProperRunIsSafe(s, ins[..n]);
      var t := Run(Advance, s, ins[..n]);
      match ins[n] {
        case Touch(c) => TouchIsSafe(t, c); TouchDevice(t, c);
        case Ask(p) => AskIsExact(t, p); AskDevice(t, p);
      }
    }
  }

  lemma TouchDevice(s: Session, c: Command)
    ensures Advance(s, Touch(c)).device == Next(s.device, c)
  {
    hide Next;
  }

  lemma AskDevice(s: Session, q: Request)
    ensures Advance(s, Ask(q)).device.store == Answer(s, q).store
  {
    hide Answer;
  }

  /** However enumerations, deletions, new credentials and resets are interleaved, as long as they
      are proper, every slot that credential management reports holds a key at that moment; and
      only a proper question is so answered. */
  lemma ReportsAreKeys(s: Session, ins: seq<Input>, q: Request)
    requires Safe(s) && ProperRun(s, ins)
    ensures var t := Run(Advance, s, ins);
            ReportsKeys(t.device.store.slots, Answer(t, q).reply) <==> Proper(t, Ask(q))
  {
    hide Safe, ProperRun, Proper, Advance, ReportsKeys, Answer;
    ProperRunIsSafe(s, ins);
    AskIsExact(Run(Advance, s, ins), q);
  }

  // ----- resets -----

  /** Whatever properly follows `s`, only slots with keys are reported. */
  ghost predicate AlwaysReportsKeys(s: Session) {
    forall ins: seq<Input>, q: Request | ProperRun(s, ins) && Proper(Run(Advance, s, ins), Ask(q)) ::
      ReportsKeys(Run(Advance, s, ins).device.store.slots, Answer(Run(Advance, s, ins), q).reply)
  }

  /** A CTAP reset leaves the cursors alone. Afterwards only keys are reported, in every proper run,
      exactly when no enumeration had got past the first slot. */
  lemma ResetIsExact(s: Session, secret: Hash)
    requires Safe(s) && s.device.store.counter < ERASED_COUNT - 1
    ensures AlwaysReportsKeys(Advance(s, Touch(Wipe(secret)))) <==> AtStart(s.cursor)
  {
    hide Safe, ProperRun, ReportsKeys, Answer, Advance, Proper;
    var t := Advance(s, Touch(Wipe(secret)));
    if AtStart(s.cursor) {
      ResetIsProper(s, secret);
      TouchIsSafe(s, Wipe(secret));
      forall ins: seq<Input>, q: Request | ProperRun(t, ins) && Proper(Run(Advance, t, ins), Ask(q))
        ensures ReportsKeys(Run(Advance, t, ins).device.store.slots, Answer(Run(Advance, t, ins), q).reply)
      {
        ReportsAreKeys(t, ins, q);
      }
    } else {
      var r := SOME_REQUEST;
      SomeRequestIsProper(s, secret);
      var q := if s.cursor.rkAuth && s.cursor.rk > 0 then RkNext else RpNext;
      StaleCursorReportsEmptySlot(s, secret, r);
      OneInput(t, Touch(MakeCredential(r)));
      NextIsProper(Advance(t, Touch(MakeCredential(r))), q);
    }
  }

  lemma ResetIsProper(s: Session, secret: Hash)
    requires AtStart(s.cursor)
    ensures Proper(s, Touch(Wipe(secret)))
  {
  }

  lemma NextIsProper(s: Session, q: Request)
    requires q == RkNext || q == RpNext
    ensures Proper(s, Ask(q))
  {
  }

  lemma OneInput(s: Session, i: Input)
    ensures Run(Advance, s, [i]) == Advance(s, i)
  {
    hide Advance;
    assert [i][..0] == [];
  }

  const SOME_REQUEST := MakeRequest(OK, OK, true, Zeros(32), Zeros(NONCE_SIZE), 0,
    UserEntity(Zeros(USER_ID_MAX_SIZE), 0, []), [], 0)

  lemma SomeRequestIsProper(s: Session, secret: Hash)
    requires s.device.store.counter < ERASED_COUNT - 1
    ensures ProperRun(Advance(s, Touch(Wipe(secret))), [Touch(MakeCredential(SOME_REQUEST))]) && Storable(SOME_REQUEST)
  {
    assert Zeros(DIGEST_SIZE)[0] != ERASED_HASH[0];
  }

  /** With a cursor on a later slot, the Next command reports that slot, empty, once any key has been
      stored: of an RP enumeration no less than of a key enumeration. */
  lemma StaleCursorReportsEmptySlot(s: Session, secret: Hash, r: MakeRequest)
    requires Storable(r) && r.status == OK && GoesOn(r.presence) && r.residentKey
    ensures var t := Advance(Advance(s, Touch(Wipe(secret))), Touch(MakeCredential(r)));
            && (s.cursor.rkAuth && s.cursor.rk > 0 ==>
                  Answer(t, RkNext).reply == Rk(s.cursor.rk, 0)
                  && !ReportsKeys(t.device.store.slots, Rk(s.cursor.rk, 0)))
            && (s.cursor.rpAuth && s.cursor.rp > 0 ==>
                  Answer(t, RpNext).reply == Rp(s.cursor.rp, 0)
                  && !ReportsKeys(t.device.store.slots, Rp(s.cursor.rp, 0)))
  {
    hide Make, StoreInv, Upsert, NewKey, NextRk, NextRp, Empty, IsValid;
    var st := Wiped(s.device.store);
    MakeIsUpsert(secret, st, r);
    UpsertIntoEmpty(st, NewKey(secret, r, NextCount(st.counter)));
  }

  lemma UpsertIntoEmpty(st: Store, rk: ResidentKey)
    requires st.slots == Empty() && st.stored == 0
    ensures Upsert(Counted(st), rk).0 == Store(Empty()[0 := rk], 1, NextCount(st.counter))
    ensures var s: Slots := Empty()[0 := rk]; forall i :: 0 < i < RK_NUM ==> !IsValid(s[i])
  {
    hide AccountOf;
  }
}
