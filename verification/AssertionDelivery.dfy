/** What the assertion queue promises over a whole exchange: every permitted key of the RP exactly
    once, newest first. */
module AssertionDelivery {
  import opened CtapErrors
  import opened Octets
  import opened Sha256Spec
  import opened CredentialTags
  import opened ResidentKeys
  import opened AssertionQueue
  import KeyStoreRuns

  ghost predicate From(secret: Hash, s: Slots, rpIdHash: Hash, verified: bool, i: int, c: Credential) {
    0 <= i < RK_NUM && Accepts(secret, s[i], rpIdHash, verified) && c == CredentialOf(s[i])
  }

  function AcceptedSlots(secret: Hash, s: Slots, rpIdHash: Hash, verified: bool, n: nat): set<int>
    requires n <= RK_NUM
  {
    set i | 0 <= i < n && Accepts(secret, s[i], rpIdHash, verified)
  }

  lemma AcceptedSlotsStep(secret: Hash, s: Slots, h: Hash, v: bool, n: nat)
    requires n < RK_NUM
    ensures |AcceptedSlots(secret, s, h, v, n + 1)|
            == |AcceptedSlots(secret, s, h, v, n)| + if Accepts(secret, s[n], h, v) then 1 else 0
  {
    hide Accepts;
    assert AcceptedSlots(secret, s, h, v, n + 1)
        == AcceptedSlots(secret, s, h, v, n) + if Accepts(secret, s[n], h, v) then {n} else {};
  }

  /** The accepted list has one entry for each accepted slot and no other entries. */
  lemma {:induction false} AcceptedIsExact(secret: Hash, s: Slots, h: Hash, v: bool, n: nat)
    requires n <= RK_NUM
    ensures var q := Accepted(secret, s, h, v, n);
            && |q| == |AcceptedSlots(secret, s, h, v, n)|
            && (forall i :: 0 <= i < n && Accepts(secret, s[i], h, v) ==> CredentialOf(s[i]) in q)
            && (forall c :: c in q ==> exists i :: i < n && From(secret, s, h, v, i, c))
  {
    hide Accepts, CredentialOf;
    if n > 0 {
      AcceptedIsExact(secret, s, h, v, n - 1);
      AcceptedSlotsStep(secret, s, h, v, n - 1);
      if Accepts(secret, s[n - 1], h, v) { assert From(secret, s, h, v, n - 1, CredentialOf(s[n - 1])); }
    }
  }

  /** Counts tell the entries apart, because they tell the valid slots apart. */
  lemma {:induction false} AcceptedDiffer(secret: Hash, s: Slots, h: Hash, v: bool, n: nat)
    requires n <= RK_NUM && DistinctCounts(s)
    ensures DifferentCounts(Accepted(secret, s, h, v, n))
  {
    hide Accepted, CheckMetadata;
    if n > 0 {
      AcceptedDiffer(secret, s, h, v, n - 1);
      AcceptedStep(secret, s, h, v, n - 1);
      AcceptedIsExact(secret, s, h, v, n - 1);
      var q := Accepted(secret, s, h, v, n - 1);
      if Accepts(secret, s[n - 1], h, v) {
        forall k | 0 <= k < |q| ensures q[k].id.count != s[n - 1].id.count {
          assert q[k] in q;
          var i :| i < n - 1 && From(secret, s, h, v, i, q[k]);
        }
      }
    }
  }

  lemma AcceptedStep(secret: Hash, s: Slots, h: Hash, v: bool, n: nat)
    requires n < RK_NUM
    ensures Accepted(secret, s, h, v, n + 1)
            == Accepted(secret, s, h, v, n) + if Accepts(secret, s[n], h, v) then [CredentialOf(s[n])] else []
  {
    hide Accepts, CredentialOf;
  }

  /** No two stored counts are half the range apart. */
  ghost predicate CloseSlots(s: Slots) {
    forall i, j :: 0 <= i < RK_NUM && 0 <= j < RK_NUM && IsValid(s[i]) && IsValid(s[j]) ==>
      s[i].id.count - s[j].id.count < 0x8000_0000
  }

  /** As long as the counter is below 2^31 that is so. */
  lemma SmallCounterIsClose(st: Store)
    requires StoreInv(st) && st.counter < 0x8000_0000
    ensures CloseSlots(st.slots)
  {
    hide NumValid, AccountOf;
  }

  lemma AcceptedAreClose(s: Slots, secret: Hash, h: Hash, v: bool)
    requires CloseSlots(s)
    ensures CloseCounts(Accepted(secret, s, h, v))
  {
    hide Accepted, CheckMetadata;
    AcceptedIsExact(secret, s, h, v, RK_NUM);
    var q := Accepted(secret, s, h, v);
    forall k, l | 0 <= k < |q| && 0 <= l < |q| ensures q[k].id.count - q[l].id.count < 0x8000_0000 {
      assert q[k] in q && q[l] in q;
      var i :| From(secret, s, h, v, i, q[k]);
      var j :| From(secret, s, h, v, j, q[l]);
    }
  }

  /** A platform that gets an answer and then asks for the rest. */
  function Deliver(a: Authenticator, r: Request): seq<Credential> {
    var (b, first) := Step(a, Get(OK, r));
    if first.Assertion? && first.total > 0 then [first.credential] + Drain(b, first.total - 1).1 else []
  }

  lemma DeliverIsSorted(a: Authenticator, r: Request)
    requires Step(a, Get(OK, r)).1.Assertion?
    ensures Deliver(a, r) == Sort(Candidates(a.secret, a.store.slots, r.rpIdHash, r.pinAuthPresent))
    ensures multiset(Deliver(a, r)) == multiset(Candidates(a.secret, a.store.slots, r.rpIdHash, r.pinAuthPresent))
  {
    hide Step, Sort, Candidates, Drain;
    QueueDelivers(a, r);
    SuccessQueues(a, r);
    SortKeepsAll(Candidates(a.secret, a.store.slots, r.rpIdHash, r.pinAuthPresent));
  }

  /** While no two stored counts are half the range apart, the answers come in strictly descending
      creation counter, so none comes twice. */
  lemma DeliveryDescends(a: Authenticator, r: Request)
    requires StoreInv(a.store) && CloseSlots(a.store.slots)
    requires Step(a, Get(OK, r)).1.Assertion?
    ensures Descending(Deliver(a, r))
  {
    hide Step, Sort, Accepted, Drain, StoreInv, Deliver, CloseSlots;
    var all := Accepted(a.secret, a.store.slots, r.rpIdHash, r.pinAuthPresent);
    var c := Candidates(a.secret, a.store.slots, r.rpIdHash, r.pinAuthPresent);
    DeliverIsSorted(a, r);
    AcceptedAreClose(a.store.slots, a.secret, r.rpIdHash, r.pinAuthPresent);
    InvHasDistinctCounts(a.store);
    AcceptedDiffer(a.secret, a.store.slots, r.rpIdHash, r.pinAuthPresent, RK_NUM);
    assert c == all[..|c|];
    SortDescends(c);
  }

  lemma InvHasDistinctCounts(st: Store)
    requires StoreInv(st)
    ensures DistinctCounts(st.slots)
  {
  }

  /** Only accepted keys are delivered. */
  lemma DeliveryIsGenuine(a: Authenticator, r: Request, c: Credential)
    requires Step(a, Get(OK, r)).1.Assertion? && c in Deliver(a, r)
    ensures exists i :: From(a.secret, a.store.slots, r.rpIdHash, r.pinAuthPresent, i, c)
  {
    hide Step, Accepted, Drain, Deliver, From, StoreInv;
    var s, h, v := a.store.slots, r.rpIdHash, r.pinAuthPresent;
    var all, some := Accepted(a.secret, s, h, v), Candidates(a.secret, s, h, v);
    DeliverIsSorted(a, r);
    SameElements(Deliver(a, r), some);
    assert c in some;
    assert some == all[..|some|];
    assert c in all;
    AcceptedIsExact(a.secret, s, h, v, RK_NUM);
    assert exists i :: i < RK_NUM && From(a.secret, s, h, v, i, c);
  }

  /** All accepted keys are delivered exactly when there are at most 20. */
  lemma DeliveryIsComplete(a: Authenticator, r: Request)
    requires StoreInv(a.store) && Step(a, Get(OK, r)).1.Assertion?
    ensures (forall i :: 0 <= i < RK_NUM && Accepts(a.secret, a.store.slots[i], r.rpIdHash, r.pinAuthPresent) ==>
               CredentialOf(a.store.slots[i]) in Deliver(a, r))
            <==> |AcceptedSlots(a.secret, a.store.slots, r.rpIdHash, r.pinAuthPresent, RK_NUM)| <= ALLOW_LIST_MAX_SIZE
  {
    hide Step, Accepted, Drain, StoreInv, Deliver, AcceptedSlots, Accepts, CredentialOf;
    var s, h, v := a.store.slots, r.rpIdHash, r.pinAuthPresent;
    var all, some := Accepted(a.secret, s, h, v), Candidates(a.secret, s, h, v);
    DeliverIsSorted(a, r);
    SameElements(Deliver(a, r), some);
    AcceptedIsExact(a.secret, s, h, v, RK_NUM);
    assert some == all[..|some|];
    if |all| > ALLOW_LIST_MAX_SIZE {
      InvHasDistinctCounts(a.store);
      AcceptedDiffer(a.secret, s, h, v, RK_NUM);
      var late := all[ALLOW_LIST_MAX_SIZE];
      assert late in all;
      var i :| From(a.secret, s, h, v, i, late);
      assert late !in some;
    }
  }

  lemma SameElements(q: seq<Credential>, r: seq<Credential>)
    requires multiset(q) == multiset(r)
    ensures forall c :: c in q <==> c in r
  {
    forall c ensures c in q <==> c in r {
      assert c in q <==> c in multiset(q);
      assert c in r <==> c in multiset(r);
    }
  }

  /** The request itself is in order: nothing but the keys decides. */
  predicate InOrder(r: Request) {
    && r.parseStatus == OK && !r.pinAuthEmpty && (r.pinAuthPresent ==> r.pinAuthStatus == OK)
    && r.hasRp && r.hasClientData && GoesOn(r.presence) && r.signStatus == OK
  }

  /** An assertion is answered exactly when the request is in order and some key is accepted. */
  lemma AnsweredExactly(a: Authenticator, r: Request)
    ensures Step(a, Get(OK, r)).1.Assertion?
            <==> InOrder(r)
                 && exists i :: 0 <= i < RK_NUM && Accepts(a.secret, a.store.slots[i], r.rpIdHash, r.pinAuthPresent)
  {
    hide Accepted, Accepts, CredentialOf, Counted, Sort;
    var (s, v) := (a.store.slots, r.pinAuthPresent);
    AcceptedIsExact(a.secret, s, r.rpIdHash, v, RK_NUM);
    var all := Accepted(a.secret, s, r.rpIdHash, v);
    if all != [] { assert all[0] in all; }
  }

  // ----- from making a credential to using it -----

  /** The user is verified, or the key was made without protection. */
  predicate Permitted(r: Request, credProtect: u32) {
    r.pinAuthPresent || (credProtect != OPTIONAL_WITH_CREDID && credProtect != REQUIRED)
  }

  /** A key that was stored is in some slot, carries the counter value, and is accepted. */
  lemma MadeKeyIsAccepted(secret: Hash, st: Store, m: MakeRequest, r: Request) returns (i: nat)
    requires StoreInv(st) && Storable(m) && st.counter < ERASED_COUNT - 1
    requires m.status == OK && GoesOn(m.presence) && m.residentKey && Make(secret, st, m).1 == OK
    requires r.rpIdHash == m.rpIdHash && Permitted(r, m.credProtect)
    ensures var (st1, rk) := (Make(secret, st, m).0, NewKey(secret, m, st.counter + 1));
            && StoreInv(st1) && i < RK_NUM && st1.slots[i] == rk && rk.id.count == st1.counter
            && Accepts(secret, rk, r.rpIdHash, r.pinAuthPresent)
  {
    hide Upsert, StoreInv, MakeId, CheckMetadata, AccountOf;
    var rk := NewKey(secret, m, st.counter + 1);
    MakeKeepsInv(secret, st, m);
    KeyStoreRuns.CounterMayGrow(st, Counted(st));
    KeyStoreRuns.MakeIsUpsert(secret, st, m);
    UpsertIsMapUpdate(Counted(st), rk);
    UpsertKeepsCounter(Counted(st), rk);
    ProtectionIsKept(secret, m.rpIdHash, m.random, m.credProtect, st.counter + 1, r.pinAuthPresent, false);
    i :| 0 <= i < RK_NUM && Upsert(Counted(st), rk).0.slots[i] == rk;
  }

  lemma UpsertKeepsCounter(st: Store, rk: ResidentKey)
    ensures Upsert(st, rk).0.counter == st.counter
  {
    hide AccountOf;
  }

  /** A resident key just made is the first that a getAssertion for its RP answers with, if it is
      permitted and there are at most 20 such keys. */
  lemma NewestComesFirst(a: Authenticator, m: MakeRequest, r: Request)
    requires StoreInv(a.store) && Storable(m) && a.store.counter < ERASED_COUNT - 1
    requires CloseSlots(Make(a.secret, a.store, m).0.slots)
    requires m.status == OK && GoesOn(m.presence) && m.residentKey && Make(a.secret, a.store, m).1 == OK
    requires r.rpIdHash == m.rpIdHash && Permitted(r, m.credProtect) && InOrder(r)
    requires |AcceptedSlots(a.secret, Make(a.secret, a.store, m).0.slots, r.rpIdHash, r.pinAuthPresent, RK_NUM)|
             <= ALLOW_LIST_MAX_SIZE
    ensures var b := Authenticator(a.secret, Make(a.secret, a.store, m).0, a.queue);
            var reply := Step(b, Get(OK, r)).1;
            reply.Assertion? && reply.credential == CredentialOf(NewKey(a.secret, m, a.store.counter + 1))
  {
    hide Step, StoreInv, Deliver, AcceptedSlots, Accepts, Make, NewKey, CloseSlots;
    var b := Authenticator(a.secret, Make(a.secret, a.store, m).0, a.queue);
    var i := MadeKeyIsAccepted(a.secret, a.store, m, r);
    var c := CredentialOf(b.store.slots[i]);
    AnsweredExactly(b, r);
    DeliveryIsComplete(b, r);
    DeliveryDescends(b, r);
    var d := Deliver(b, r);
    assert c in d;
    FirstIsDelivered(b, r);
    DeliveryIsGenuine(b, r, d[0]);
    var j :| From(b.secret, b.store.slots, r.rpIdHash, r.pinAuthPresent, j, d[0]);
    CountIsGivenOut(b.store, b.secret, r, j);
    var k :| 0 <= k < |d| && d[k] == c;
    assert k == 0;
  }

  lemma FirstIsDelivered(a: Authenticator, r: Request)
    requires Step(a, Get(OK, r)).1.Assertion?
    ensures Deliver(a, r) != [] && Deliver(a, r)[0] == Step(a, Get(OK, r)).1.credential
  {
    hide Sort, Candidates, Step;
    SuccessQueues(a, r);
  }

  lemma CountIsGivenOut(st: Store, secret: Hash, r: Request, i: int)
    requires StoreInv(st) && 0 <= i < RK_NUM && Accepts(secret, st.slots[i], r.rpIdHash, r.pinAuthPresent)
    ensures st.slots[i].id.count <= st.counter
  {
    hide NumValid, AccountOf, CheckMetadata;
  }
}
