/** `ctap_cred_mgmt` and its scans over the slot array, with the static cursors as fields, proved
    against `Enumeration`. */
module CredMgmt {
  import opened CtapErrors
  import opened Sha256Spec
  import opened CredentialTags
  import opened ResidentKeys
  import opened KeyStore
  import opened Enumeration

  class Manager {
    const store: ResidentKeyStore
    var currRp: int
    var currRk: int
    var rpAuth: bool
    var rkAuth: bool

    ghost predicate Valid()
      reads this, store, store.rks
    {
      store.Shaped() && Tidy(store.State()) && -1 <= currRp < RK_NUM && -1 <= currRk < RK_NUM
    }

    ghost function Slots(): ResidentKeys.Slots
      requires store.Shaped()
      reads store, store.rks
    {
      store.State().slots
    }

    ghost function Cursor(): Enumeration.Cursor
      requires Valid()
      reads this, store, store.rks
    {
      Enumeration.Cursor(currRp, currRk, rpAuth, rkAuth)
    }

    /** The statics at power-up. */
    constructor (store: ResidentKeyStore)
      requires store.Shaped() && Tidy(store.State())
      ensures this.store == store && Valid() && Cursor() == Enumeration.Cursor(0, 0, false, false)
    {
      this.store := store;
      currRp, currRk, rpAuth, rkAuth := 0, 0, false, false;
    }

    // ----- scans -----

    /** The inner loop of `scan_for_next_rp`. */
    method OccursBefore(index: nat, h: Hash) returns (occurs: bool)
      requires store.Shaped() && index < RK_NUM
      ensures occurs <==> exists i :: 0 <= i < index && Slots()[i].id.rpIdHash == h
    {
      var i := 0;
      while i < index
        invariant 0 <= i <= index
        invariant forall j :: 0 <= j < i ==> Slots()[j].id.rpIdHash != h
      {
        if store.rks[i].id.rpIdHash == h {
          assert Slots()[i].id.rpIdHash == h;
          return true;
        }
        i := i + 1;
      }
      return false;
    }

    method ScanForNextRp(from: int) returns (index: int)
      requires store.Shaped() && -1 <= from < RK_NUM
      ensures index == NextRp(Slots(), from + 1)
    {
      hide IsValid;
      index := from;
      if index == -1 {
        if IsValid(store.rks[0]) { return 0; }
        index := 0;
      }
      while true
        invariant from <= index < RK_NUM && 0 <= index
        invariant forall j :: from < j <= index ==> !FirstAt(Slots(), j)
        decreases RK_NUM - index
      {
        index := index + 1;
        if index >= RK_NUM { return -1; }
        if IsValid(store.rks[index]) {
          var occurs := OccursBefore(index, store.rks[index].id.rpIdHash);
          if !occurs {
            assert FirstAt(Slots(), index);
            return;
          }
        }
      }
    }

    /** `scan_for_next_rk` with a hash given, and from slot `from` on that slot's hash. */
    method ScanForHash(h: Hash, from: int) returns (index: int)
      requires store.Shaped() && -1 <= from < RK_NUM
      ensures index == NextRk(Slots(), h, from + 1)
    {
      index := from;
      while true
        invariant from <= index < RK_NUM
        invariant forall j :: from < j <= index ==> Slots()[j].id.rpIdHash != h
        decreases RK_NUM - index
      {
        index := index + 1;
        if index >= RK_NUM { return -1; }
        if store.rks[index].id.rpIdHash == h { return; }
      }
    }

    method ScanForNextRk(from: nat) returns (index: int)
      requires store.Shaped() && from < RK_NUM
      ensures index == NextRk(Slots(), Slots()[from].id.rpIdHash, from + 1)
    {
      index := ScanForHash(store.rks[from].id.rpIdHash, from);
    }

    // ----- counting -----

    /** The counting loop of the RPBegin sub-command. */
    method CountRps() returns (count: nat)
      requires store.Shaped()
      ensures count == RpCount(Slots(), 0)
    {
      hide NextRp, RpCount, FirstAt;
      var index := ScanForNextRp(-1);
      RpCountSkips(Slots(), 0);
      count := 0;
      while index >= 0
        invariant -1 <= index < RK_NUM
        invariant RpCount(Slots(), 0) == count + if index >= 0 then 1 + RpCount(Slots(), index + 1) else 0
        decreases if index >= 0 then RK_NUM - index else 0
      {
        RpCountSkips(Slots(), index + 1);
        index := ScanForNextRp(index);
        count := count + 1;
      }
    }

    method CountRks(h: Hash) returns (count: nat)
      requires store.Shaped()
      ensures count == RkCount(Slots(), h, 0)
    {
      hide NextRk, RkCount;
      var index := ScanForHash(h, -1);
      RkCountSkips(Slots(), h, 0);
      count := 0;
      while index >= 0
        invariant -1 <= index < RK_NUM
        invariant index >= 0 ==> Slots()[index].id.rpIdHash == h
        invariant RkCount(Slots(), h, 0) == count + if index >= 0 then 1 + RkCount(Slots(), h, index + 1) else 0
        decreases if index >= 0 then RK_NUM - index else 0
      {
        RkCountSkips(Slots(), h, index + 1);
        index := ScanForNextRk(index);
        count := count + 1;
      }
    }

    // ----- answers -----

    method AnswerRp(total: nat) returns (reply: Reply)
      requires Valid()
      modifies this
      ensures Valid()
      ensures Result(store.State(), Cursor(), reply) == ReportRp(store.State(), old(Cursor()), total)
    {
      hide NextRp, Tidy;
      if currRp < 0 || !rpAuth {
        rpAuth, rkAuth := false, false;
        return Refused(ERR_NO_CREDENTIALS);
      }
      reply := Rp(currRp, total);
      var next := ScanForNextRp(currRp);
      NextRpInRange(Slots(), currRp + 1);
      currRp := next;
    }

    method AnswerRk(total: nat) returns (reply: Reply)
      requires Valid()
      modifies this
      ensures Valid()
      ensures Result(store.State(), Cursor(), reply) == ReportRk(store.State(), old(Cursor()), total)
    {
      hide NextRk, Tidy;
      if currRk < 0 || !rkAuth {
        rpAuth, rkAuth := false, false;
        return Refused(ERR_NO_CREDENTIALS);
      }
      reply := Rk(currRk, total);
      var next := ScanForNextRk(currRk);
      NextRkInRange(Slots(), Slots()[currRk].id.rpIdHash, currRk + 1);
      currRk := next;
    }

    /** `ctap_cred_mgmt` after parsing and PIN authentication. */
    method Handle(q: Request) returns (reply: Reply)
      requires Valid()
      modifies this, store`stored, store.rks
      ensures Valid()
      ensures Result(store.State(), Cursor(), reply) == Enumeration.Handle(old(store.State()), old(Cursor()), q)
    {
      hide NextRp, NextRk, RpCount, RkCount, Tidy, Delete;
      if store.stored == 0 && q != Metadata { return Nothing; }
      match q {
        case Metadata =>
          Forget();
          reply := Counts(store.stored, RK_NUM - store.stored);
        case RpBegin =>
          var total := CountRps();
          var first := ScanForNextRp(-1);
          NextRpInRange(Slots(), 0);
          currRk, rpAuth, rkAuth, currRp := -1, true, false, first;
          reply := AnswerRp(total);
        case RpNext => reply := AnswerRp(0);
        case RkBegin(h) =>
          var total := CountRks(h);
          var first := ScanForHash(h, -1);
          NextRkInRange(Slots(), h, 0);
          rkAuth, currRk := true, first;
          reply := AnswerRk(total);
        case RkNext => reply := AnswerRk(0);
        case Remove(id) =>
          Forget();
          ghost var st := store.State();
          var status := store.Remove(id);
          DeleteKeepsTidy(st, id);
          reply := if status == OK then Nothing else Refused(status);
        case Other =>
          Forget();
          reply := Refused(ERR_INVALID_COMMAND);
      }
    }

    method Forget()
      modifies this
      ensures currRp == currRk == -1 && !rpAuth && !rkAuth
    {
      rkAuth, rpAuth, currRk, currRp := false, false, -1, -1;
    }
  }

  lemma NextRpInRange(s: ResidentKeys.Slots, from: nat)
    requires from <= RK_NUM
    ensures -1 <= NextRp(s, from) < RK_NUM
  {
  }

  lemma NextRkInRange(s: ResidentKeys.Slots, h: Hash, from: nat)
    requires from <= RK_NUM
    ensures -1 <= NextRk(s, h, from) < RK_NUM
  {
  }

  lemma DeleteKeepsTidy(st: Store, id: CredentialId)
    requires Tidy(st)
    ensures Tidy(Delete(st, id).0)
  {
    var i := FindId(st.slots, id);
    if i >= 0 {
      NumValidUpdate(st.slots, i, ERASED, RK_NUM);
      NumValidPositive(st.slots, i, RK_NUM);
    }
  }
}
