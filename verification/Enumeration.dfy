/** Credential management (CTAP 2.1 section 6.8): the scans over the slots, the two cursors that
    commands leave for each other, and what enumerations report. */
module Enumeration {
  import opened CtapErrors
  import opened Octets
  import opened Sha256Spec
  import opened CredentialTags
  import opened ResidentKeys

  // ----- scans -----

  /** A valid slot whose RP hash no earlier slot shows, valid or not. */
  predicate FirstAt(s: Slots, i: nat)
    requires i < RK_NUM
  {
    IsValid(s[i]) && forall j :: 0 <= j < i ==> s[j].id.rpIdHash != s[i].id.rpIdHash
  }

  /** `scan_for_next_rp(from - 1)`. */
  function NextRp(s: Slots, from: nat): (i: int)
    requires from <= RK_NUM
    ensures i == -1 || from <= i < RK_NUM
    ensures i >= 0 ==> FirstAt(s, i)
    ensures forall j :: from <= j < (if i >= 0 then i else RK_NUM) ==> !FirstAt(s, j)
    decreases RK_NUM - from
  {
    if from == RK_NUM then -1 else if FirstAt(s, from) then from else NextRp(s, from + 1)
  }

  /** `scan_for_next_rk(from - 1)`: validity is not looked at. */
  function NextRk(s: Slots, h: Hash, from: nat): (i: int)
    requires from <= RK_NUM
    ensures i == -1 || from <= i < RK_NUM
    ensures i >= 0 ==> s[i].id.rpIdHash == h
    ensures forall j :: from <= j < (if i >= 0 then i else RK_NUM) ==> s[j].id.rpIdHash != h
    decreases RK_NUM - from
  {
    if from == RK_NUM then -1 else if s[from].id.rpIdHash == h then from else NextRk(s, h, from + 1)
  }

  /** How many RPs, and how many slots of RP `h`, the scans find from `from` on. */
  function RpCount(s: Slots, from: nat): nat
    requires from <= RK_NUM
    decreases RK_NUM - from
  {
    if from == RK_NUM then 0 else (if FirstAt(s, from) then 1 else 0) + RpCount(s, from + 1)
  }

  function RkCount(s: Slots, h: Hash, from: nat): nat
    requires from <= RK_NUM
    decreases RK_NUM - from
  {
    if from == RK_NUM then 0 else (if s[from].id.rpIdHash == h then 1 else 0) + RkCount(s, h, from + 1)
  }

  lemma {:induction false} RpCountSkips(s: Slots, from: nat)
    requires from <= RK_NUM
    ensures var i := NextRp(s, from);
            RpCount(s, from) == (if i < 0 then 0 else 1 + RpCount(s, i + 1))
            && -1 <= i < RK_NUM && (i >= 0 ==> i >= from)
    decreases RK_NUM - from
  {
    hide FirstAt;
    if from < RK_NUM && !FirstAt(s, from) { RpCountSkips(s, from + 1); }
  }

  lemma {:induction false} RkCountSkips(s: Slots, h: Hash, from: nat)
    requires from <= RK_NUM
    ensures var i := NextRk(s, h, from);
            && RkCount(s, h, from) == (if i < 0 then 0 else 1 + RkCount(s, h, i + 1))
            && -1 <= i < RK_NUM && (i >= 0 ==> i >= from && s[i].id.rpIdHash == h)
    decreases RK_NUM - from
  {
    if from < RK_NUM && s[from].id.rpIdHash != h { RkCountSkips(s, h, from + 1); }
  }

  // ----- commands -----

  /** The static variables of `ctap_cred_mgmt`. */
  datatype Cursor = Cursor(rp: Place, rk: Place, rpAuth: bool, rkAuth: bool)

  type Place = i: int | -1 <= i < RK_NUM

  datatype Request = Metadata | RpBegin | RpNext | RkBegin(rpIdHash: Hash) | RkNext | Remove(id: CredentialId) | Other

  /** What is encoded: `Rp` and `Rk` name the slot that is reported, with the total when it is
      positive, as it is in the first answer. */
  datatype Reply =
    | Counts(existing: nat, remaining: int)
    | Rp(slot: nat, total: nat)
    | Rk(slot: nat, total: nat)
    | Nothing
    | Refused(status: u8)

  datatype Result = Result(store: Store, cursor: Cursor, reply: Reply)

  const IDLE := Cursor(-1, -1, false, false)

  function ReportRp(st: Store, c: Cursor, total: nat): Result {
    if c.rp < 0 || !c.rpAuth then Result(st, Cursor(c.rp, c.rk, false, false), Refused(ERR_NO_CREDENTIALS))
    else Result(st, Cursor(NextRp(st.slots, c.rp + 1), c.rk, c.rpAuth, c.rkAuth), Rp(c.rp, total))
  }

  function ReportRk(st: Store, c: Cursor, total: nat): Result {
    if c.rk < 0 || !c.rkAuth then Result(st, Cursor(c.rp, c.rk, false, false), Refused(ERR_NO_CREDENTIALS))
    else Result(st, Cursor(c.rp, NextRk(st.slots, st.slots[c.rk].id.rpIdHash, c.rk + 1), c.rpAuth, c.rkAuth),
           Rk(c.rk, total))
  }

  /** `ctap_cred_mgmt` after parsing and PIN authentication. */
  function Handle(st: Store, c: Cursor, q: Request): Result {
    if st.stored == 0 && q != Metadata then Result(st, c, Nothing)
    else match q
      case Metadata => Result(st, IDLE, Counts(st.stored, RK_NUM - st.stored))
      case RpBegin => ReportRp(st, Cursor(NextRp(st.slots, 0), -1, true, false), RpCount(st.slots, 0))
      case RpNext => ReportRp(st, c, 0)
      case RkBegin(h) => ReportRk(st, Cursor(c.rp, NextRk(st.slots, h, 0), c.rpAuth, true), RkCount(st.slots, h, 0))
      case RkNext => ReportRk(st, c, 0)
      case Remove(id) =>
        var (st1, status) := Delete(st, id);
        Result(st1, IDLE, if status == OK then Nothing else Refused(status))
      case Other => Result(st, IDLE, Refused(ERR_INVALID_COMMAND))
  }

  // ----- deletion -----

  /** The delete sub-command removes exactly the key with the credential id and says so; without such
      a key it answers NO_CREDENTIALS and removes nothing. Either way enumerations are over. On an
      empty store nothing is answered or done. */
  lemma RemoveIsExact(st: Store, c: Cursor, id: CredentialId)
    requires StoreInv(st)
    ensures var r := Handle(st, c, Remove(id));
            if st.stored == 0 then r == Result(st, c, Nothing)
            else if exists i :: 0 <= i < RK_NUM && IsValid(st.slots[i]) && st.slots[i].id == id
            then && r.reply == Nothing && r.store.stored == st.stored - 1 && r.store.counter == st.counter
                 && (forall k :: IsValid(k) ==> (k in r.store.slots <==> k in st.slots && k.id != id))
            else r.store == st && r.reply == Refused(ERR_NO_CREDENTIALS)
    ensures st.stored > 0 ==> var e := Handle(st, c, Remove(id)).cursor; !e.rpAuth && !e.rkAuth
  {
    hide Delete, StoreInv, IsValid;
    DeleteIsMapRemoval(st, id);
  }

  /** No other sub-command changes the store. */
  lemma OnlyRemoveChanges(st: Store, c: Cursor, q: Request)
    requires !q.Remove?
    ensures Handle(st, c, q).store == st
  {
  }

  /** A Next command is refused right after every other kind of sub-command but the Begin and Next of
      its own enumeration and, for RPs, a key enumeration that has not failed. */
  lemma NextNeedsBegin(st: Store, c: Cursor, q: Request)
    requires StoreInv(st) && st.stored > 0 && (q in {Metadata, RpBegin, Other} || q.Remove?)
    ensures var r := Handle(st, c, q);
            && (r.store.stored > 0 ==> Handle(r.store, r.cursor, RkNext).reply == Refused(ERR_NO_CREDENTIALS))
            && (r.store.stored > 0 && q != RpBegin ==>
                  Handle(r.store, r.cursor, RpNext).reply == Refused(ERR_NO_CREDENTIALS))
  {
    hide Delete, StoreInv, NextRp, NextRk, RpCount, RkCount;
  }

  // ----- totals -----

  function Hashes(s: Slots, n: nat): set<Hash>
    requires n <= RK_NUM
  {
    set i | 0 <= i < n && IsValid(s[i]) :: s[i].id.rpIdHash
  }

  /** Erased slots show a hash that no valid key has. */
  ghost predicate Marked(s: Slots) {
    forall i :: 0 <= i < RK_NUM ==> (IsValid(s[i]) <==> s[i].id.rpIdHash != ERASED_HASH)
  }

  lemma InvIsMarked(st: Store)
    requires StoreInv(st)
    ensures Marked(st.slots)
  {
    hide NumValid, AccountOf, DistinctAccounts, DistinctCounts;
  }

  lemma HashesStep(s: Slots, i: nat)
    requires Marked(s) && i < RK_NUM
    ensures |Hashes(s, i + 1)| == |Hashes(s, i)| + if FirstAt(s, i) then 1 else 0
  {
    hide IsValid;
    var h := s[i].id.rpIdHash;
    assert Hashes(s, i + 1) == Hashes(s, i) + if IsValid(s[i]) then {h} else {};
    if FirstAt(s, i) {
      assert h !in Hashes(s, i);
    } else if IsValid(s[i]) {
      var j :| 0 <= j < i && s[j].id.rpIdHash == h;
      assert IsValid(s[j]);
      assert s[j].id.rpIdHash in Hashes(s, i);
      assert Hashes(s, i + 1) == Hashes(s, i);
    }
  }

  lemma {:induction false} RpCountIsHashes(s: Slots, from: nat)
    requires Marked(s) && from <= RK_NUM
    ensures |Hashes(s, from)| + RpCount(s, from) == |Hashes(s, RK_NUM)|
    decreases RK_NUM - from
  {
    hide Hashes, Marked, FirstAt;
    if from < RK_NUM {
      RpCountIsHashes(s, from + 1);
      HashesStep(s, from);
    }
  }

  /** The first answer to an RP enumeration carries the number of different RPs in the store. */
  lemma RpTotalIsExact(st: Store, c: Cursor)
    requires StoreInv(st) && st.stored > 0
    ensures var r := Handle(st, c, RpBegin).reply;
            r.Rp? && r.total == |set i | 0 <= i < RK_NUM && IsValid(st.slots[i]) :: st.slots[i].id.rpIdHash|
  {
    hide NumValid, IsValid, NextRk, NextRp, RkCount, FirstAt, RpCount, StoreInv;
    InvIsMarked(st);
    RpCountIsHashes(st.slots, 0);
    SomeFirst(st);
    assert Hashes(st.slots, RK_NUM) == set i | 0 <= i < RK_NUM && IsValid(st.slots[i]) :: st.slots[i].id.rpIdHash;
  }

  lemma SomeFirst(st: Store)
    requires StoreInv(st) && st.stored > 0
    ensures NextRp(st.slots, 0) >= 0
  {
    hide NumValid, AccountOf, IsValid, DistinctAccounts, DistinctCounts;
    if forall i :: 0 <= i < RK_NUM ==> !IsValid(st.slots[i]) {
      NoneValid(st.slots, RK_NUM);
      assert false;
    }
    var i :| 0 <= i < RK_NUM && IsValid(st.slots[i]);
    InvIsMarked(st);
    var _ := FirstOf(st.slots, i);
  }

  lemma {:induction false} NoneValid(s: Slots, n: nat)
    requires n <= RK_NUM && forall i :: 0 <= i < n ==> !IsValid(s[i])
    ensures NumValid(s, n) == 0
  {
    if n > 0 { NoneValid(s, n - 1); }
  }

  /** The first slot with the RP of a valid slot. */
  lemma {:induction false} FirstOf(s: Slots, i: nat) returns (f: nat)
    requires Marked(s) && i < RK_NUM && IsValid(s[i])
    ensures f <= i && FirstAt(s, f) && s[f].id.rpIdHash == s[i].id.rpIdHash
  {
    if FirstAt(s, i) { return i; }
    var j :| 0 <= j < i && s[j].id.rpIdHash == s[i].id.rpIdHash;
    f := FirstOf(s, j);
  }

  function SlotsOf(s: Slots, h: Hash, from: nat): set<int> {
    set i | from <= i < RK_NUM && s[i].id.rpIdHash == h
  }

  lemma {:induction false} RkCountIsCardinality(s: Slots, h: Hash, from: nat)
    requires from <= RK_NUM
    ensures RkCount(s, h, from) == |SlotsOf(s, h, from)|
    decreases RK_NUM - from
  {
    if from < RK_NUM {
      RkCountIsCardinality(s, h, from + 1);
      SlotsOfStep(s, h, from);
    } else {
      assert |SlotsOf(s, h, from)| == 0;
    }
  }

  lemma SlotsOfStep(s: Slots, h: Hash, from: nat)
    requires from < RK_NUM
    ensures SlotsOf(s, h, from) == SlotsOf(s, h, from + 1) + (if s[from].id.rpIdHash == h then {from} else {})
    ensures |SlotsOf(s, h, from)| == |SlotsOf(s, h, from + 1)| + if s[from].id.rpIdHash == h then 1 else 0
  {
  }

  function KeysOf(s: Slots, h: Hash): set<int> {
    set i | 0 <= i < RK_NUM && IsValid(s[i]) && s[i].id.rpIdHash == h
  }

  /** The scan counts exactly the valid keys of an RP, unless the hash asked for is that of an
      erased slot and one is free. */
  lemma RkCountIsExact(st: Store, h: Hash)
    requires StoreInv(st)
    ensures h != ERASED_HASH || FindEmpty(st.slots) < 0 ==> RkCount(st.slots, h, 0) == |KeysOf(st.slots, h)|
    ensures h == ERASED_HASH && FindEmpty(st.slots) >= 0 ==> RkCount(st.slots, h, 0) > |KeysOf(st.slots, h)| == 0
  {
    hide NumValid, IsValid, NextRk, NextRp, AccountOf, RkCount, StoreInv;
    InvIsMarked(st);
    RkCountIsCardinality(st.slots, h, 0);
    var all, valid := SlotsOf(st.slots, h, 0), KeysOf(st.slots, h);
    if h != ERASED_HASH || FindEmpty(st.slots) < 0 {
      assert all == valid;
    } else {
      var e := FindEmpty(st.slots);
      assert valid == {};
      assert e in all;
      SubsetSize(valid, all, e);
    }
  }

  /** The first answer to a key enumeration carries the number of valid keys of that RP, or refuses
      when there are none, exactly when the hash asked for is not that of an erased slot, or no
      slot is free; otherwise the free slots are counted and reported. */
  lemma RkTotalIsExact(st: Store, c: Cursor, h: Hash)
    requires StoreInv(st) && st.stored > 0
    ensures var (reply, n) := (Handle(st, c, RkBegin(h)).reply, |KeysOf(st.slots, h)|);
            (if n == 0 then reply == Refused(ERR_NO_CREDENTIALS) else reply.Rk? && reply.total == n)
            <==> h != ERASED_HASH || FindEmpty(st.slots) < 0
  {
    hide KeysOf, RkCount, NextRk, FindEmpty, StoreInv;
    RkCountIsExact(st, h);
    RkCountSkips(st.slots, h, 0);
  }

  lemma SubsetSize<T>(a: set<T>, b: set<T>, x: T)
    requires a <= b && x in b && x !in a
    ensures |a| < |b|
  {
    assert b == a + (b - a);
    assert x in b - a;
  }

  /** Metadata reports how many slots are taken and how many are free. */
  lemma MetadataIsExact(st: Store, c: Cursor)
    requires StoreInv(st)
    ensures Handle(st, c, Metadata).reply
            == Counts(|set i | 0 <= i < RK_NUM && IsValid(st.slots[i])|,
                      |set i | 0 <= i < RK_NUM && !IsValid(st.slots[i])|)
  {
    hide IsValid, AccountOf;
    NumValidIsCardinality(st.slots, RK_NUM);
    FreeSlots(st.slots, RK_NUM);
  }

  lemma {:induction false} FreeSlots(s: Slots, n: nat)
    requires n <= RK_NUM
    ensures |FreeAmong(s, n)| == n - NumValid(s, n)
  {
    hide FreeAmong;
    if n > 0 {
      FreeSlots(s, n - 1);
      FreeAmongStep(s, n - 1);
    } else {
      assert |FreeAmong(s, 0)| == 0 by { NoneFree(s); }
    }
  }

  function FreeAmong(s: Slots, n: nat): set<int>
    requires n <= RK_NUM
  {
    set i | 0 <= i < n && !IsValid(s[i])
  }

  lemma FreeAmongStep(s: Slots, n: nat)
    requires n < RK_NUM
    ensures |FreeAmong(s, n + 1)| == |FreeAmong(s, n)| + if IsValid(s[n]) then 0 else 1
  {
    hide IsValid;
    assert FreeAmong(s, n + 1) == FreeAmong(s, n) + if IsValid(s[n]) then {} else {n};
  }

  lemma NoneFree(s: Slots)
    ensures FreeAmong(s, 0) == {}
  {
  }
}
