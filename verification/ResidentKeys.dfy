/** The resident-key store: 50 slots with holes, a separate count of the valid ones, and the
    signature counter that numbers credentials. */
module ResidentKeys {
  import opened CtapErrors
  import opened Octets
  import opened Sha256Spec
  import opened CredentialTags

  const RK_NUM := 50
  const USER_ID_MAX_SIZE := 64
  const ERASED_COUNT: u32 := 0xffff_ffff

  type UserId = b: Bytes | |b| == USER_ID_MAX_SIZE witness Zeros(USER_ID_MAX_SIZE)

  /** `details` stands for name, display name and icon. */
  datatype UserEntity = UserEntity(id: UserId, idSize: u8, details: Bytes)

  datatype ResidentKey = ResidentKey(id: CredentialId, user: UserEntity, rpId: Bytes, rpIdSize: u8)

  const ERASED_HASH: Hash := Ones(32)

  /** A slot of erased flash: every byte is 0xff. */
  const ERASED := ResidentKey(
    CredentialId(Ones(TAG_SIZE), Ones(NONCE_SIZE), ERASED_HASH, ERASED_COUNT),
    UserEntity(Ones(USER_ID_MAX_SIZE), 0xff, Ones(225)), Ones(48), 0xff)

  type Slots = s: seq<ResidentKey> | |s| == RK_NUM witness seq(RK_NUM, _ => ERASED)

  function Empty(): (s: Slots)
    ensures forall i :: 0 <= i < RK_NUM ==> s[i] == ERASED
  {
    seq(RK_NUM, _ => ERASED)
  }

  predicate IsValid(rk: ResidentKey) {
    rk.id.count > 0 && rk.id.count != ERASED_COUNT
  }

  /** Who a key is for: the upsert key of the store. */
  datatype Account = Account(rpIdHash: Hash, userId: Bytes)

  function AccountOf(rk: ResidentKey): Account {
    Account(rk.id.rpIdHash, rk.user.id[..Min(rk.user.idSize, USER_ID_MAX_SIZE)])
  }

  /** `is_matching_rk`: the comparison runs over `id_size` bytes of the first key. */
  predicate Matches(rk: ResidentKey, rk2: ResidentKey)
    requires rk.user.idSize <= USER_ID_MAX_SIZE
  {
    && rk.id.rpIdHash == rk2.id.rpIdHash
    && rk.user.id[..rk.user.idSize] == rk2.user.id[..rk.user.idSize]
    && rk.user.idSize == rk2.user.idSize
  }

  lemma MatchesIsSameAccount(rk: ResidentKey, rk2: ResidentKey)
    requires rk.user.idSize <= USER_ID_MAX_SIZE && rk2.user.idSize <= USER_ID_MAX_SIZE
    ensures Matches(rk, rk2) <==> AccountOf(rk) == AccountOf(rk2)
  {
    var a, b := AccountOf(rk), AccountOf(rk2);
    if a == b { assert |a.userId| == |b.userId|; }
  }

  // ----- counting and searching -----

  /** Number of valid slots among the first `n`. */
  function NumValid(s: Slots, n: nat := RK_NUM): (c: nat)
    requires n <= RK_NUM
    ensures c <= n
  {
    if n == 0 then 0 else NumValid(s, n - 1) + if IsValid(s[n - 1]) then 1 else 0
  }

  function ValidSlots(s: Slots): set<int> {
    ValidAmong(s, RK_NUM)
  }

  function ValidAmong(s: Slots, n: nat): set<int>
    requires n <= RK_NUM
  {
    set i | 0 <= i < n && IsValid(s[i])
  }

  lemma ValidAmongStep(s: Slots, n: nat)
    requires n < RK_NUM
    ensures |ValidAmong(s, n + 1)| == |ValidAmong(s, n)| + if IsValid(s[n]) then 1 else 0
  {
    hide IsValid;
    assert ValidAmong(s, n + 1) == ValidAmong(s, n) + if IsValid(s[n]) then {n} else {};
  }

  lemma {:induction false} NumValidIsCardinality(s: Slots, n: nat)
    requires n <= RK_NUM
    ensures NumValid(s, n) == |ValidAmong(s, n)|
  {
    if n > 0 {
      hide ValidAmong;
      NumValidIsCardinality(s, n - 1);
      ValidAmongStep(s, n - 1);
    }
  }

  /** First slot from `from` on that holds a valid key for `a`, or -1. */
  function FindAccount(s: Slots, a: Account, from: nat := 0): (i: int)
    requires from <= RK_NUM
    ensures i == -1 || from <= i < RK_NUM
    ensures i >= 0 ==> IsValid(s[i]) && AccountOf(s[i]) == a
    ensures forall j :: from <= j < (if i >= 0 then i else RK_NUM) ==> !(IsValid(s[j]) && AccountOf(s[j]) == a)
    decreases RK_NUM - from
  {
    if from == RK_NUM then -1
    else if IsValid(s[from]) && AccountOf(s[from]) == a then from
    else FindAccount(s, a, from + 1)
  }

  /** First slot from `from` on that is not valid, or -1. */
  function FindEmpty(s: Slots, from: nat := 0): (i: int)
    requires from <= RK_NUM
    ensures i == -1 || from <= i < RK_NUM
    ensures i >= 0 ==> !IsValid(s[i])
    ensures forall j :: from <= j < (if i >= 0 then i else RK_NUM) ==> IsValid(s[j])
    decreases RK_NUM - from
  {
    if from == RK_NUM then -1 else if !IsValid(s[from]) then from else FindEmpty(s, from + 1)
  }

  /** First valid slot from `from` on with exactly this credential id, or -1. */
  function FindId(s: Slots, id: CredentialId, from: nat := 0): (i: int)
    requires from <= RK_NUM
    ensures i == -1 || from <= i < RK_NUM
    ensures i >= 0 ==> IsValid(s[i]) && s[i].id == id
    ensures forall j :: from <= j < (if i >= 0 then i else RK_NUM) ==> !(IsValid(s[j]) && s[j].id == id)
    decreases RK_NUM - from
  {
    if from == RK_NUM then -1
    else if IsValid(s[from]) && s[from].id == id then from
    else FindId(s, id, from + 1)
  }

  // ----- the store -----

  datatype Store = Store(slots: Slots, stored: nat, counter: u32)

  /** `auth_data_update_count` over the counter of `device.c`: a count of 0 is skipped. */
  function NextCount(counter: u32): u32 {
    var c := (counter + 1) % 0x1_0000_0000;
    if c == 0 then 1 else c
  }

  /** Insert or replace the key of an account; a full store refuses a new account. */
  function Upsert(st: Store, rk: ResidentKey): (Store, u8) {
    var i, e := FindAccount(st.slots, AccountOf(rk)), FindEmpty(st.slots);
    if i >= 0 then (Store(st.slots[i := rk], st.stored, st.counter), OK)
    else if e >= 0 then (Store(st.slots[e := rk], st.stored + 1, st.counter), OK)
    else (st, ERR_KEY_STORE_FULL)
  }

  function Delete(st: Store, id: CredentialId): (Store, u8) {
    var i := FindId(st.slots, id);
    if i >= 0 && st.stored > 0 then (Store(st.slots[i := ERASED], st.stored - 1, st.counter), OK)
    else (st, ERR_NO_CREDENTIALS)
  }

  /** `ctap_state_init`: the slots are erased, the counter keeps counting. */
  function Wiped(st: Store): Store {
    Store(Empty(), 0, st.counter)
  }

  /** A parsed makeCredential request. `status` is what the checks before `ctap_make_auth_data`
      return, `presence` what the user-presence test returns; `rpId` is cropped to its field. */
  datatype MakeRequest = MakeRequest(
    status: u8,
    presence: u8,
    residentKey: bool,
    rpIdHash: Hash,
    random: Nonce,
    credProtect: u32,
    user: UserEntity,
    rpId: Bytes,
    rpIdSize: u8)

  function NewKey(secret: Hash, r: MakeRequest, count: u32): ResidentKey {
    ResidentKey(MakeId(secret, r.rpIdHash, r.random, r.credProtect, count), r.user, r.rpId, r.rpIdSize)
  }

  /** A disabled presence test answers `ERR_PROCESSING` and lets the command go on. */
  predicate GoesOn(presence: u8) {
    presence == OK || presence == ERR_PROCESSING
  }

  function Counted(st: Store): Store {
    Store(st.slots, st.stored, NextCount(st.counter))
  }

  function Make(secret: Hash, st: Store, r: MakeRequest): (Store, u8) {
    if r.status != OK then (st, r.status)
    else
      var st1 := Counted(st);
      if !GoesOn(r.presence) then (st1, r.presence)
      else if !r.residentKey then (st1, OK)
      else Upsert(st1, NewKey(secret, r, st1.counter))
  }

  // ----- what every operation keeps -----

  ghost predicate DistinctAccounts(s: Slots) {
    forall i, j :: 0 <= i < j < RK_NUM && IsValid(s[i]) && IsValid(s[j]) ==> AccountOf(s[i]) != AccountOf(s[j])
  }

  ghost predicate DistinctCounts(s: Slots) {
    forall i, j :: 0 <= i < j < RK_NUM && IsValid(s[i]) && IsValid(s[j]) ==> s[i].id.count != s[j].id.count
  }

  /** A slot is erased, or holds a key whose count has been given out and whose RP is not the
      hash that erased slots show. */
  ghost predicate WellKept(rk: ResidentKey, counter: u32) {
    if IsValid(rk) then rk.id.count <= counter && rk.user.idSize <= USER_ID_MAX_SIZE && rk.id.rpIdHash != ERASED_HASH
    else rk == ERASED
  }

  ghost predicate StoreInv(st: Store) {
    && st.stored == NumValid(st.slots)
    && DistinctAccounts(st.slots)
    && DistinctCounts(st.slots)
    && (forall i :: 0 <= i < RK_NUM ==> WellKept(st.slots[i], st.counter))
  }

  lemma {:induction false} NumValidUpdate(s: Slots, i: nat, rk: ResidentKey, n: nat)
    requires i < RK_NUM && n <= RK_NUM
    ensures NumValid(s[i := rk], n) == NumValid(s, n)
              + if i < n then (if IsValid(rk) then 1 else 0) - (if IsValid(s[i]) then 1 else 0) else 0
  {
    if n > 0 { NumValidUpdate(s, i, rk, n - 1); }
  }

  lemma {:induction false} AllValid(s: Slots, n: nat)
    requires n <= RK_NUM
    ensures NumValid(s, n) == n <==> forall i :: 0 <= i < n ==> IsValid(s[i])
  {
    if n > 0 { AllValid(s, n - 1); }
  }

  /** What a request must satisfy: the parser limits user ids to 64 bytes, and no RP id hashes to
      the value that erased flash shows. */
  predicate Storable(r: MakeRequest) {
    r.user.idSize <= USER_ID_MAX_SIZE && r.rpIdHash != ERASED_HASH
  }

  /** Writing a key over a free slot, or over the key of its own account. */
  lemma PutKeepsInv(st: Store, at: nat, rk: ResidentKey)
    requires StoreInv(st) && at < RK_NUM && IsValid(rk) && WellKept(rk, st.counter)
    requires forall j :: 0 <= j < RK_NUM && j != at && IsValid(st.slots[j]) ==>
               AccountOf(st.slots[j]) != AccountOf(rk) && st.slots[j].id.count != rk.id.count
    ensures StoreInv(st.(slots := st.slots[at := rk], stored := st.stored + if IsValid(st.slots[at]) then 0 else 1))
  {
    hide AccountOf, IsValid, NumValid, WellKept;
    NumValidUpdate(st.slots, at, rk, RK_NUM);
  }

  lemma UpsertKeepsInv(st: Store, rk: ResidentKey)
    requires StoreInv(st) && IsValid(rk) && WellKept(rk, st.counter)
    requires forall i :: 0 <= i < RK_NUM && IsValid(st.slots[i]) ==> st.slots[i].id.count != rk.id.count
    ensures StoreInv(Upsert(st, rk).0)
    ensures Upsert(st, rk).0.counter == st.counter
  {
    hide AccountOf, NumValid, IsValid, WellKept, DistinctCounts;
    var i, e := FindAccount(st.slots, AccountOf(rk)), FindEmpty(st.slots);
    if i >= 0 {
      PutKeepsInv(st, i, rk);
    } else if e >= 0 {
      PutKeepsInv(st, e, rk);
    }
  }

  /** The counter must not have reached the numbers that mark an erased slot. */
  lemma MakeKeepsInv(secret: Hash, st: Store, r: MakeRequest)
    requires StoreInv(st) && Storable(r) && st.counter < ERASED_COUNT - 1
    ensures StoreInv(Make(secret, st, r).0)
    ensures Make(secret, st, r).0.counter <= st.counter + 1
  {
    hide AuthTag, WithMetadata, Upsert, AccountOf, NumValid;
    var st1 := Counted(st);
    assert StoreInv(st1);
    if r.status == OK && GoesOn(r.presence) && r.residentKey {
      UpsertKeepsInv(st1, NewKey(secret, r, st1.counter));
    }
  }

  lemma DeleteKeepsInv(st: Store, id: CredentialId)
    requires StoreInv(st)
    ensures StoreInv(Delete(st, id).0)
    ensures Delete(st, id).1 == OK <==> FindId(st.slots, id) >= 0
  {
    var i := FindId(st.slots, id);
    if i >= 0 {
      NumValidUpdate(st.slots, i, ERASED, RK_NUM);
      NumValidPositive(st.slots, i, RK_NUM);
    }
  }

  /** A successful deletion removes exactly the key with this credential id; a refused one changes
      nothing. */
  lemma DeleteIsMapRemoval(st: Store, id: CredentialId)
    requires StoreInv(st)
    ensures var (st1, status) := Delete(st, id);
            if status == OK
            then && (exists i :: 0 <= i < RK_NUM && IsValid(st.slots[i]) && st.slots[i].id == id)
                 && (forall k :: IsValid(k) ==> (k in st1.slots <==> k in st.slots && k.id != id))
                 && st1.stored == st.stored - 1 && st1.counter == st.counter
            else st1 == st && status == ERR_NO_CREDENTIALS
                 && forall i :: 0 <= i < RK_NUM && IsValid(st.slots[i]) ==> st.slots[i].id != id
  {
    hide AccountOf, NumValid, FindId, IsValid, DistinctAccounts, WellKept;
    var i := FindId(st.slots, id);
    DeleteKeepsInv(st, id);
    if i >= 0 {
      var s: Slots := st.slots[i := ERASED];
      ErasedIsNotValid();
      forall k | IsValid(k) ensures k in s <==> k in st.slots && k.id != id {
        if k in s {
          var j :| 0 <= j < RK_NUM && s[j] == k;
          assert st.slots[j] == k && j != i;
        }
        if k in st.slots && k.id != id {
          var j :| 0 <= j < RK_NUM && st.slots[j] == k;
          assert s[j] == k;
        }
      }
    }
  }

  lemma ErasedIsNotValid()
    ensures !IsValid(ERASED)
  {
  }

  lemma {:induction false} NumValidPositive(s: Slots, i: nat, n: nat)
    requires i < n <= RK_NUM && IsValid(s[i])
    ensures NumValid(s, n) > 0
  {
    if i < n - 1 { NumValidPositive(s, i, n - 1); }
  }

  lemma {:induction false} EmptyHasNone(n: nat)
    requires n <= RK_NUM
    ensures NumValid(Empty(), n) == 0
  {
    if n > 0 { EmptyHasNone(n - 1); }
  }

  /** The store is refused exactly when it has no empty slot and no key for the account, that is
      when all 50 slots are taken by others. */
  lemma FullIsExact(st: Store, rk: ResidentKey)
    requires StoreInv(st)
    ensures Upsert(st, rk).1 == ERR_KEY_STORE_FULL
            <==> st.stored == RK_NUM && forall i :: 0 <= i < RK_NUM ==> AccountOf(st.slots[i]) != AccountOf(rk)
  {
    hide AccountOf, NumValid, IsValid, DistinctAccounts, DistinctCounts, WellKept;
    AllValid(st.slots, RK_NUM);
  }

  /** After a successful upsert the account has exactly the new key, and every other account has
      the key it had. */
  lemma UpsertIsMapUpdate(st: Store, rk: ResidentKey)
    requires StoreInv(st) && IsValid(rk) && Upsert(st, rk).1 == OK
    ensures var s := Upsert(st, rk).0.slots;
            && (exists i :: 0 <= i < RK_NUM && s[i] == rk)
            && (forall i :: 0 <= i < RK_NUM && IsValid(s[i]) && AccountOf(s[i]) == AccountOf(rk) ==> s[i] == rk)
            && (forall k :: IsValid(k) && AccountOf(k) != AccountOf(rk) ==> (k in s <==> k in st.slots))
  {
    hide AccountOf, NumValid, FindAccount, FindEmpty;
    var s := Upsert(st, rk).0.slots;
    var i := FindAccount(st.slots, AccountOf(rk));
    var at := if i >= 0 then i else FindEmpty(st.slots);
    assert s[at] == rk;
    forall k | IsValid(k) && AccountOf(k) != AccountOf(rk) ensures k in s <==> k in st.slots {
      if k in st.slots { var j :| 0 <= j < RK_NUM && st.slots[j] == k; assert s[j] == k; }
      if k in s { var j :| 0 <= j < RK_NUM && s[j] == k; assert st.slots[j] == k; }
    }
  }
}
