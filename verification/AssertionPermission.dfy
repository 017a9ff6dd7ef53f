/** What getAssertion without an allow list gives out, in terms of the slots, their RP hashes and
    the credProtect levels they were made with. */
module AssertionPermission {
  import opened CtapErrors
  import opened Octets
  import opened Sha256Spec
  import opened CredentialTags
  import opened ResidentKeys
  import opened AssertionQueue
  import opened AssertionDelivery

  const LEVEL_OPTIONAL_WITH_CREDID := 2
  const LEVEL_REQUIRED := 3

  /** A key in use, of this RP, that needs no verification of the user or has it: levels 2 and 3
      ask for it when there is no allow list. */
  predicate Offered(secret: Hash, rk: ResidentKey, rpIdHash: Hash, verified: bool) {
    && 0 < rk.id.count < 0xffff_ffff
    && rk.id.rpIdHash == rpIdHash
    && (verified || ReadMetadata(secret, rk.id.entropy) !in {LEVEL_OPTIONAL_WITH_CREDID, LEVEL_REQUIRED})
  }

  function OfferedSlots(a: Authenticator, r: Request): set<int> {
    set i | 0 <= i < RK_NUM && Offered(a.secret, a.store.slots[i], r.rpIdHash, r.pinAuthPresent)
  }

  lemma AcceptsIsOffered(secret: Hash, rk: ResidentKey, rpIdHash: Hash, verified: bool)
    ensures Accepts(secret, rk, rpIdHash, verified) <==> Offered(secret, rk, rpIdHash, verified)
  {
    hide ReadMetadata;
  }

  lemma SameSlots(a: Authenticator, r: Request)
    ensures OfferedSlots(a, r) == AcceptedSlots(a.secret, a.store.slots, r.rpIdHash, r.pinAuthPresent, RK_NUM)
  {
    hide Accepts, Offered;
    forall i | 0 <= i < RK_NUM
      ensures Accepts(a.secret, a.store.slots[i], r.rpIdHash, r.pinAuthPresent)
              <==> Offered(a.secret, a.store.slots[i], r.rpIdHash, r.pinAuthPresent)
    {
      AcceptsIsOffered(a.secret, a.store.slots[i], r.rpIdHash, r.pinAuthPresent);
    }
  }

  /** Every credential given out is that of a key in use, belongs to the RP that asks, and without
      verification of the user has neither of the two protecting levels. */
  lemma DeliveredBelongs(a: Authenticator, r: Request, c: Credential)
    requires Step(a, Get(OK, r)).1.Assertion? && c in Deliver(a, r)
    ensures c.id.rpIdHash == r.rpIdHash && 0 < c.id.count < 0xffff_ffff
    ensures !r.pinAuthPresent ==>
              ReadMetadata(a.secret, c.id.entropy) !in {LEVEL_OPTIONAL_WITH_CREDID, LEVEL_REQUIRED}
    ensures exists i :: 0 <= i < RK_NUM && a.store.slots[i].id == c.id && a.store.slots[i].user == c.user
  {
    hide Step, Deliver, ReadMetadata, Accepts;
    DeliveryIsGenuine(a, r, c);
    var i :| From(a.secret, a.store.slots, r.rpIdHash, r.pinAuthPresent, i, c);
    AcceptsIsOffered(a.secret, a.store.slots[i], r.rpIdHash, r.pinAuthPresent);
    assert a.store.slots[i].id == c.id && a.store.slots[i].user == c.user;
  }

  /** And every such key is given out, exactly when there are at most 20 of them. */
  lemma OfferedAreDelivered(a: Authenticator, r: Request)
    requires StoreInv(a.store) && Step(a, Get(OK, r)).1.Assertion?
    ensures (forall i :: i in OfferedSlots(a, r) ==>
               Credential(a.store.slots[i].id, a.store.slots[i].user) in Deliver(a, r))
            <==> |OfferedSlots(a, r)| <= 20
  {
    hide Step, Deliver, Accepts, Offered, StoreInv;
    var s := a.store.slots;
    DeliveryIsComplete(a, r);
    SameSlots(a, r);
    forall i | 0 <= i < RK_NUM
      ensures i in OfferedSlots(a, r) <==> Accepts(a.secret, s[i], r.rpIdHash, r.pinAuthPresent)
      ensures CredentialOf(s[i]) == Credential(s[i].id, s[i].user)
    {
      AcceptsIsOffered(a.secret, s[i], r.rpIdHash, r.pinAuthPresent);
    }
    if forall i :: i in OfferedSlots(a, r) ==> Credential(s[i].id, s[i].user) in Deliver(a, r) {
      assert forall i :: 0 <= i < RK_NUM && Accepts(a.secret, s[i], r.rpIdHash, r.pinAuthPresent) ==>
          i in OfferedSlots(a, r);
    }
  }

  /** What the request itself and the user answer: the status of the first check that fails. */
  function OwnStatus(r: Request): u8 {
    if r.parseStatus != OK then r.parseStatus
    else if r.pinAuthEmpty && r.emptyPresence != OK then r.emptyPresence
    else if r.pinAuthEmpty then if r.pinIsSet then ERR_PIN_AUTH_INVALID else ERR_PIN_NOT_SET
    else if r.pinAuthPresent && r.pinAuthStatus != OK then r.pinAuthStatus
    else if !(r.hasRp && r.hasClientData) then ERR_MISSING_PARAMETER
    else OK
  }

  /** Every status of getAssertion: a request that is in order is answered with NO_CREDENTIALS exactly
      when no key is offered; otherwise the signature counter goes up by one and the user and the
      encoders have the last word. A refused request leaves the store's keys alone. */
  lemma StatusIsExact(a: Authenticator, r: Request)
    requires a.store.counter < 0xffff_ffff
    ensures var (b, reply) := Step(a, Get(OK, r));
            && b.store.slots == a.store.slots && b.store.stored == a.store.stored && b.secret == a.secret
            && (if OwnStatus(r) != OK || OfferedSlots(a, r) == {} then
                  && reply == Refused(if OwnStatus(r) != OK then OwnStatus(r) else ERR_NO_CREDENTIALS)
                  && b.store.counter == a.store.counter
                else
                  && b.store.counter == a.store.counter + 1
                  && (if r.presence != 0 && r.presence != 0x21 then reply == Refused(r.presence)
                      else if r.signStatus != OK then reply == Refused(r.signStatus)
                      else reply.Assertion? && reply.total == Min(|OfferedSlots(a, r)|, 20)))
  {
    hide Candidates, Sort, OfferedSlots, GetAssertion;
    CandidatesAreOffered(a, r);
    NoneOffered(OfferedSlots(a, r));
    if OwnStatus(r) != OK { RefusedByItself(a, r); } else { InOrderAnswer(a, r); }
  }

  lemma CandidatesAreOffered(a: Authenticator, r: Request)
    ensures |Candidates(a.secret, a.store.slots, r.rpIdHash, r.pinAuthPresent)| == Min(|OfferedSlots(a, r)|, 20)
  {
    hide Accepted, OfferedSlots;
    SameSlots(a, r);
    AcceptedIsExact(a.secret, a.store.slots, r.rpIdHash, r.pinAuthPresent, RK_NUM);
  }

  lemma RefusedByItself(a: Authenticator, r: Request)
    requires OwnStatus(r) != OK
    ensures GetAssertion(a, r).1 == Refused(OwnStatus(r))
    ensures GetAssertion(a, r).0.store == a.store && GetAssertion(a, r).0.secret == a.secret
  {
    hide Candidates, Filter, Answer;
  }

  lemma InOrderAnswer(a: Authenticator, r: Request)
    requires OwnStatus(r) == OK
    ensures var n := |Candidates(a.secret, a.store.slots, r.rpIdHash, r.pinAuthPresent)|;
            var (b, reply) := GetAssertion(a, r);
            if n == 0 then b.store == a.store && b.secret == a.secret && reply == Refused(ERR_NO_CREDENTIALS)
            else && b.store == Counted(a.store) && b.secret == a.secret
                 && (if !GoesOn(r.presence) then reply == Refused(r.presence)
                     else if r.signStatus != OK then reply == Refused(r.signStatus)
                     else reply.Assertion? && reply.total == n)
  {
    hide Candidates, Sort, Counted;
  }

  lemma NoneOffered(s: set<int>)
    ensures s == {} <==> |s| == 0
  {
  }
}
