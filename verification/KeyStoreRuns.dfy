/** Whole runs of the resident-key store, and what happens when its counter runs out. */
module KeyStoreRuns {
  import opened CtapErrors
  import opened Octets
  import opened Sha256Spec
  import opened CredentialTags
  import opened ResidentKeys
  import opened KeyStore
  import opened Runs

  /** The commands that touch the store or its counter. */
  datatype Command = MakeCredential(request: MakeRequest) | Remove(id: CredentialId) | Sign | Wipe(secret: Hash)

  datatype Device = Device(secret: Hash, store: Store)

  function Next(d: Device, c: Command): Device {
    match c
    case MakeCredential(r) => Device(d.secret, Make(d.secret, d.store, r).0)
    case Remove(id) => Device(d.secret, Delete(d.store, id).0)
    case Sign => Device(d.secret, Counted(d.store))
    case Wipe(secret) => Device(secret, Wiped(d.store))
  }

  ghost predicate Admissible(c: Command) {
    c.MakeCredential? ==> Storable(c.request)
  }

  lemma StepKeepsInv(d: Device, c: Command)
    requires StoreInv(d.store) && Admissible(c) && d.store.counter < ERASED_COUNT - 1
    ensures StoreInv(Next(d, c).store) && Next(d, c).store.counter <= d.store.counter + 1
  {
    hide Make, Delete, NumValid;
    match c
    case MakeCredential(r) => MakeKeepsInv(d.secret, d.store, r);
    case Remove(id) => DeleteKeepsInv(d.store, id); DeleteCounter(d.store, id);
    case Sign =>
    case Wipe(_) => EmptyHasNone(RK_NUM);
  }

  lemma DeleteCounter(st: Store, id: CredentialId)
    ensures Delete(st, id).0.counter == st.counter
  {
  }

  /** Store invariant over every run: as long as the counter cannot reach the erased-slot mark,
      the separate count is the number of valid slots, no two keys share an account or a count,
      every count has been given out, every other slot is erased, and the code's searches by
      number may be relied on. */
  lemma {:induction false} StoreInvariant(d: Device, cs: seq<Command>)
    requires StoreInv(d.store) && d.store.counter + |cs| < ERASED_COUNT
    requires forall i :: 0 <= i < |cs| ==> Admissible(cs[i])
    ensures StoreInv(Run(Next, d, cs).store)
    ensures Run(Next, d, cs).store.counter <= d.store.counter + |cs|
    ensures var st := Run(Next, d, cs).store; st.stored == |ValidSlots(st.slots)| && Tidy(st)
  {
    hide Next, StoreInv, Admissible, NumValid;
    if cs != [] {
      var n := |cs| - 1;
      StoreInvariant(d, cs[..n]);
      StepKeepsInv(Run(Next, d, cs[..n]), cs[n]);
    }
    StoredIsCardinality(Run(Next, d, cs).store);
    InvIsTidy(Run(Next, d, cs).store);
  }

  lemma StoredIsCardinality(st: Store)
    requires StoreInv(st)
    ensures st.stored == |ValidSlots(st.slots)|
  {
    NumValidIsCardinality(st.slots, RK_NUM);
  }

  // ----- the counter runs out -----

  /** The counts a request can still get: below the erased-slot mark, or wrapped around to 1 with
      no other account left in the store. At the mark itself only a refused request is harmless. */
  ghost predicate CountFits(st: Store, a: Account) {
    || st.counter < ERASED_COUNT - 1
    || (st.counter == ERASED_COUNT - 1 && FindAccount(st.slots, a) < 0 && FindEmpty(st.slots) < 0)
    || (st.counter == ERASED_COUNT && OnlyAccount(st.slots, a))
  }

  /** A request that gets as far as the store keeps the invariant exactly when the count fits. */
  lemma MakeKeepsInvExactly(secret: Hash, st: Store, r: MakeRequest)
    requires StoreInv(st) && Storable(r)
    requires r.status == OK && GoesOn(r.presence) && r.residentKey
    ensures StoreInv(Make(secret, st, r).0) <==> CountFits(st, AccountOf(NewKey(secret, r, NextCount(st.counter))))
  {
    hide NumValid, AccountOf, Upsert, StoreInv, Make, NewKey;
    var rk := NewKey(secret, r, NextCount(st.counter));
    MakeIsUpsert(secret, st, r);
    if st.counter < ERASED_COUNT - 1 {
      MakeKeepsInv(secret, st, r);
    } else if st.counter == ERASED_COUNT - 1 {
      MarkedCount(st, rk);
    } else {
      if CountFits(st, AccountOf(rk)) { WrappedCount(st, rk); } else { WrappedCountClashes(st, rk); }
    }
  }

  lemma MakeIsUpsert(secret: Hash, st: Store, r: MakeRequest)
    requires r.status == OK && GoesOn(r.presence) && r.residentKey
    ensures var rk := NewKey(secret, r, NextCount(st.counter));
            && Make(secret, st, r) == Upsert(Counted(st), rk)
            && rk.id.count == NextCount(st.counter) && rk.id.rpIdHash == r.rpIdHash && rk.user == r.user
  {
    hide AuthTag, WithMetadata, Upsert;
  }

  /** A key numbered with the erased-slot mark is stored but not valid. */
  lemma MarkedCount(st: Store, rk: ResidentKey)
    requires StoreInv(st) && st.counter == ERASED_COUNT - 1
    requires rk.id.count == ERASED_COUNT && rk.id.rpIdHash != ERASED_HASH
    ensures StoreInv(Upsert(Counted(st), rk).0) <==> FindAccount(st.slots, AccountOf(rk)) < 0 && FindEmpty(st.slots) < 0
  {
    hide NumValid, AccountOf, StoreInv;
    var st2 := Upsert(Counted(st), rk).0;
    var i, e := FindAccount(st.slots, AccountOf(rk)), FindEmpty(st.slots);
    if i < 0 && e < 0 {
      CounterMayGrow(st, Counted(st));
    } else {
      assert st2.slots[if i >= 0 then i else e] == rk;
      MarkIsNotKept(st2, rk);
    }
  }

  lemma MarkIsNotKept(st: Store, rk: ResidentKey)
    requires rk in st.slots && rk.id.count == ERASED_COUNT && rk.id.rpIdHash != ERASED_HASH
    ensures !StoreInv(st)
  {
    hide StoreInv;
    if StoreInv(st) {
      UncountedAreErased(st, rk);
      assert false;
    }
  }

  lemma CounterMayGrow(st: Store, st1: Store)
    requires StoreInv(st) && st1.slots == st.slots && st1.stored == st.stored && st1.counter >= st.counter
    ensures StoreInv(st1)
  {
    hide NumValid, AccountOf, IsValid;
  }

  lemma UncountedAreErased(st: Store, rk: ResidentKey)
    requires StoreInv(st) && rk in st.slots && !IsValid(rk)
    ensures rk == ERASED
  {
    hide NumValid, AccountOf, DistinctAccounts, DistinctCounts, IsValid;
  }

  ghost predicate OnlyAccount(s: Slots, a: Account) {
    forall i :: 0 <= i < RK_NUM && IsValid(s[i]) ==> AccountOf(s[i]) == a
  }

  /** A count that wrapped around to 1 is the only one the counter vouches for. */
  lemma WrappedCount(st: Store, rk: ResidentKey)
    requires StoreInv(st) && OnlyAccount(st.slots, AccountOf(rk))
    requires rk.id.count == 1 && rk.id.rpIdHash != ERASED_HASH && rk.user.idSize <= USER_ID_MAX_SIZE
    ensures StoreInv(Upsert(Store(st.slots, st.stored, 1), rk).0)
  {
    hide NumValid, AccountOf, StoreInv, WellKept;
    OthersAreErased(st, AccountOf(rk));
    var i, e := FindAccount(st.slots, AccountOf(rk)), FindEmpty(st.slots);
    var at := if i >= 0 then i else e;
    NumValidUpdate(st.slots, at, rk, RK_NUM);
    OneKey(st.slots[at := rk], at, Upsert(Store(st.slots, st.stored, 1), rk).0.stored);
  }

  /** With one account there is at most one key; the slot an upsert takes is its own or a free one,
      and all others are erased. */
  lemma OthersAreErased(st: Store, a: Account)
    requires StoreInv(st) && OnlyAccount(st.slots, a)
    ensures st.stored == NumValid(st.slots)
    ensures var (i, e) := (FindAccount(st.slots, a), FindEmpty(st.slots));
            var at := if i >= 0 then i else e;
            at >= 0 && forall j :: 0 <= j < RK_NUM && j != at ==> st.slots[j] == ERASED
  {
    hide NumValid, AccountOf, DistinctCounts, IsValid;
  }

  lemma OneKey(s: Slots, at: nat, stored: nat)
    requires at < RK_NUM && s[at].id.count == 1 && s[at].id.rpIdHash != ERASED_HASH
      && s[at].user.idSize <= USER_ID_MAX_SIZE
    requires forall j :: 0 <= j < RK_NUM && j != at ==> s[j] == ERASED
    requires stored == NumValid(s)
    ensures StoreInv(Store(s, stored, 1))
  {
    hide NumValid, AccountOf;
  }

  lemma WrappedCountClashes(st: Store, rk: ResidentKey)
    requires StoreInv(st) && !OnlyAccount(st.slots, AccountOf(rk)) && rk.id.count == 1
    ensures !StoreInv(Upsert(Store(st.slots, st.stored, 1), rk).0)
  {
    hide NumValid, AccountOf, StoreInv;
    var j :| 0 <= j < RK_NUM && IsValid(st.slots[j]) && AccountOf(st.slots[j]) != AccountOf(rk);
    var st2 := Upsert(Store(st.slots, st.stored, 1), rk).0;
    var i, e := FindAccount(st.slots, AccountOf(rk)), FindEmpty(st.slots);
    var k := if i >= 0 then i else if e >= 0 then e else if j == 0 then 1 else 0;
    assert k != j && IsValid(st2.slots[j]) && IsValid(st2.slots[k]);
    if StoreInv(st2) {
      CountsInRange(st2, j, k);
      assert false;
    }
  }

  lemma CountsInRange(st: Store, j: nat, k: nat)
    requires StoreInv(st) && j < RK_NUM && k < RK_NUM && j != k
    requires IsValid(st.slots[j]) && IsValid(st.slots[k])
    ensures st.counter >= 2
  {
    hide NumValid, AccountOf;
  }

  /** For instance an empty store whose counter is two short of wrapping counts one key and has
      none. */
  lemma ExhaustedCounterExample(secret: Hash, r: MakeRequest)
    requires Storable(r) && r.status == OK && GoesOn(r.presence) && r.residentKey
    ensures var st := Store(Empty(), 0, ERASED_COUNT - 1);
            StoreInv(st) && !StoreInv(Make(secret, st, r).0)
  {
    hide AuthTag, WithMetadata, NumValid;
    EmptyHasNone(RK_NUM);
    MakeKeepsInvExactly(secret, Store(Empty(), 0, ERASED_COUNT - 1), r);
    assert !IsValid(Empty()[0]);
  }

  // ----- what making a credential does -----

  /** The slots and their count are as they were. */
  predicate SameKeys(st: Store, st1: Store) {
    st1.slots == st.slots && st1.stored == st.stored
  }

  /** Slot `rk` holds the key asked for: its id names the RP, carries the new count, and is one that
      the authenticator recognises, with the protection asked for. */
  predicate AsRequested(secret: Hash, r: MakeRequest, count: u32, rk: ResidentKey) {
    && rk.id.rpIdHash == r.rpIdHash && rk.id.count == count && rk.user == r.user
    && rk.rpId == r.rpId && rk.rpIdSize == r.rpIdSize
    && Authenticates(secret, r.rpIdHash, rk.id) && ReadMetadata(secret, rk.id.entropy) == r.credProtect
  }

  /** Every outcome of makeCredential past its own checks: the counter goes up by one whatever the
      user says; a key is stored only for a resident-key request that the user lets pass, as asked
      for and without touching the keys of other accounts; only a store full of those refuses it. */
  lemma MakeIsExact(secret: Hash, st: Store, r: MakeRequest)
    requires StoreInv(st) && Storable(r) && st.counter < 0xffff_fffe
    ensures var (st1, status) := Make(secret, st, r);
            if r.status != OK then st1 == st && status == r.status
            else
              && st1.counter == st.counter + 1
              && (if r.presence != 0 && r.presence != 0x21 then SameKeys(st, st1) && status == r.presence
                  else if !r.residentKey then SameKeys(st, st1) && status == OK
                  else if status == OK then
                    && (exists i :: 0 <= i < RK_NUM && AsRequested(secret, r, st1.counter, st1.slots[i]))
                    && (forall k :: IsValid(k) && AccountOf(k) != Account(r.rpIdHash, r.user.id[..r.user.idSize]) ==>
                          (k in st1.slots <==> k in st.slots))
                  else
                    && SameKeys(st, st1) && status == ERR_KEY_STORE_FULL && st.stored == RK_NUM
                    && forall i :: 0 <= i < RK_NUM ==>
                         AccountOf(st.slots[i]) != Account(r.rpIdHash, r.user.id[..r.user.idSize]))
  {
    hide MakeId, NumValid, Authenticates, ReadMetadata, FindAccount, FindEmpty, StoreInv;
    if r.status == OK && GoesOn(r.presence) && r.residentKey {
      var rk := NewKey(secret, r, NextCount(st.counter));
      MakeIsUpsert(secret, st, r);
      CounterMayGrow(st, Counted(st));
      NewKeyAsRequested(secret, r, NextCount(st.counter));
      FullIsExact(Counted(st), rk);
      if Upsert(Counted(st), rk).1 == OK { UpsertIsMapUpdate(Counted(st), rk); }
    }
  }

  lemma NewKeyAsRequested(secret: Hash, r: MakeRequest, count: u32)
    ensures AsRequested(secret, r, count, NewKey(secret, r, count))
  {
    hide MakeId, Authenticates, ReadMetadata;
    MadeIdIsRecognised(secret, r.rpIdHash, r.random, r.credProtect, count);
    MadeIdFields(secret, r.rpIdHash, r.random, r.credProtect, count);
  }

  lemma MadeIdFields(secret: Hash, rpIdHash: Hash, random: Nonce, credProtect: u32, count: u32)
    ensures var id := MakeId(secret, rpIdHash, random, credProtect, count); id.rpIdHash == rpIdHash && id.count == count
  {
    hide AuthTag, WithMetadata;
  }
}
