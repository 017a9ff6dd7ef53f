/** The resident-key functions of `ctap.c` over the slot array and counters of `device.c`, proved
    against `ResidentKeys`. */
module KeyStore {
  import opened CtapErrors
  import opened Octets
  import opened Hmac
  import opened CredentialTags
  import opened ResidentKeys

  class ResidentKeyStore {
    const rks: array<ResidentKey>
    var stored: nat
    var counter: u32

    ghost predicate Shaped() {
      rks.Length == RK_NUM
    }

    ghost function State(): Store
      requires Shaped()
      reads this, rks
    {
      Store(rks[..], stored, counter)
    }

    constructor ()
      ensures Shaped() && fresh(rks) && State() == Store(Empty(), 0, 25) && StoreInv(State())
    {
      rks := new ResidentKey[RK_NUM](_ => ERASED);
      stored, counter := 0, 25;
      new;
      assert rks[..] == Empty();
      EmptyHasNone(RK_NUM);
    }

    // ----- the counter -----

    /** `ctap_atomic_count` of `device.c`. */
    method AtomicCount(amount: u32) returns (count: u32)
      requires Shaped()
      modifies this`counter
      ensures count == counter == (old(counter) + amount + 1) % 0x1_0000_0000
    {
      counter := (counter + (amount + 1) % 0x1_0000_0000) % 0x1_0000_0000;
      return counter;
    }

    /** `auth_data_update_count`: 0 would mark an invalid credential. */
    method UpdateCount() returns (count: u32)
      requires Shaped()
      modifies this`counter
      ensures count > 0 && count == counter == NextCount(old(counter))
    {
      count := AtomicCount(0);
      if count == 0 { count := AtomicCount(0); }
    }

    // ----- searching -----

    /** `load_nth_valid_rk`: it fails exactly when there are not that many. */
    method LoadNthValid(n: nat) returns (i: int)
      requires Shaped()
      ensures i == -1 <==> n >= NumValid(State().slots)
      ensures i != -1 ==> 0 <= i < RK_NUM && IsValid(rks[i]) && NumValid(State().slots, i) == n
    {
      ghost var s: Slots := rks[..];
      var validCount := 0;
      i := 0;
      while i < RK_NUM
        invariant 0 <= i <= RK_NUM && validCount == NumValid(s, i) <= n
      {
        if IsValid(rks[i]) {
          if validCount == n {
            CountGrows(s, i, RK_NUM);
            return;
          }
          validCount := validCount + 1;
        }
        i := i + 1;
      }
      return -1;
    }

    /** The first loop of the upsert, over as many valid keys as `rk_stored` says. */
    method FindSame(rk: ResidentKey) returns (i: int)
      requires Shaped() && Tidy(State()) && rk.user.idSize <= USER_ID_MAX_SIZE
      ensures i == FindAccount(State().slots, AccountOf(rk))
    {
      hide NumValid, AccountOf, DistinctCounts, DistinctAccounts, IsValid;
      ghost var s: Slots := rks[..];
      var n := 0;
      while n < stored
        invariant n <= stored
        invariant forall j :: 0 <= j < RK_NUM && IsValid(s[j]) && AccountOf(s[j]) == AccountOf(rk) ==>
          NumValid(s, j) >= n
      {
        i := LoadNthValid(n);
        MatchesIsSameAccount(rk, rks[i]);
        forall j | 0 <= j < RK_NUM && IsValid(s[j]) && j != i ensures NumValid(s, j) != n {
          if j < i { CountGrows(s, j, i); } else { CountGrows(s, i, j); }
        }
        if Matches(rk, rks[i]) {
          forall j | 0 <= j < i && IsValid(s[j]) ensures NumValid(s, j) < n { CountGrows(s, j, i); }
          return;
        }
        n := n + 1;
      }
      forall j | 0 <= j < RK_NUM && IsValid(s[j]) ensures NumValid(s, j) < stored { CountGrows(s, j, RK_NUM); }
      return -1;
    }

    method FindFree() returns (i: int)
      requires Shaped()
      ensures i == FindEmpty(State().slots)
    {
      hide IsValid;
      i := 0;
      while i < RK_NUM
        invariant 0 <= i <= RK_NUM
        invariant forall j :: 0 <= j < i ==> IsValid(rks[j])
      {
        if !IsValid(rks[i]) { return; }
        i := i + 1;
      }
      return -1;
    }

    /** `credentialId_to_rk_index`. */
    method IndexOf(id: CredentialId) returns (i: int)
      requires Shaped()
      ensures i == FindId(State().slots, id)
    {
      hide IsValid;
      i := 0;
      while i < RK_NUM
        invariant 0 <= i <= RK_NUM
        invariant forall j :: 0 <= j < i ==> !(IsValid(rks[j]) && rks[j].id == id)
      {
        if IsValid(rks[i]) && rks[i].id == id { return; }
        i := i + 1;
      }
      return -1;
    }

    // ----- changing -----

    /** The resident-key part of `ctap_make_auth_data`. */
    method Keep(rk: ResidentKey) returns (status: u8)
      requires Shaped() && Tidy(State()) && rk.user.idSize <= USER_ID_MAX_SIZE
      modifies this`stored, rks
      ensures (State(), status) == Upsert(old(State()), rk)
    {
      hide Tidy, AccountOf, FindAccount, FindEmpty, IsValid;
      var i := FindSame(rk);
      if i >= 0 {
        rks[i] := rk;
        return OK;
      }
      i := FindFree();
      if i >= 0 {
        stored := stored + 1;
        rks[i] := rk;
        return OK;
      }
      return ERR_KEY_STORE_FULL;
    }

    /** The delete sub-command, past the check that something is stored. */
    method Remove(id: CredentialId) returns (status: u8)
      requires Shaped() && Tidy(State())
      modifies this`stored, rks
      ensures (State(), status) == Delete(old(State()), id)
    {
      hide NumValid, IsValid, FindId;
      var i := IndexOf(id);
      if i < 0 { return ERR_NO_CREDENTIALS; }
      NumValidPositive(State().slots, i, RK_NUM);
      rks[i] := ERASED;
      stored := stored - 1;
      return OK;
    }

    /** `ctap_reset_rk` and the part of `ctap_state_init` that concerns the store. */
    method Wipe()
      requires Shaped()
      modifies this`stored, rks
      ensures State() == Wiped(old(State()))
    {
      stored := 0;
      forall i | 0 <= i < RK_NUM { rks[i] := ERASED; }
      assert rks[..] == Empty();
    }

    /** `ctap_make_auth_data` for a new credential, after the request's own checks. */
    method MakeAuthData(creds: Credentials, r: MakeRequest) returns (status: u8)
      requires Shaped() && Tidy(State()) && creds.Valid() && r.user.idSize <= USER_ID_MAX_SIZE && r.status == OK
      requires rks as object != creds.crypto.ctx.data && rks as object != creds.crypto.ctx.state
      requires rks as object != creds.crypto.transportSecret
      modifies this, rks, creds.crypto.ctx, creds.crypto.ctx.state, creds.crypto.ctx.data
      ensures (State(), status) == Make(old(creds.crypto.transportSecret[..]), old(State()), r)
      ensures creds.Valid()
    {
      hide AuthTag, WithMetadata, Upsert, NumValid, IsValid;
      ghost var secret, st := creds.crypto.transportSecret[..], State();
      var count := UpdateCount();
      assert State() == Counted(st);
      if !GoesOn(r.presence) { return r.presence; }
      var entropy := creds.AddMaskedMetadata(r.random, r.credProtect);
      var tag := creds.MakeAuthTag(r.rpIdHash, entropy, count);
      if !r.residentKey { return OK; }
      var rk := ResidentKey(CredentialId(tag, entropy, r.rpIdHash, count), r.user, r.rpId, r.rpIdSize);
      assert rk == NewKey(secret, r, count);
      status := Keep(rk);
    }
  }

  /** The part of the store invariant that the upsert loop relies on. */
  ghost predicate Tidy(st: Store) {
    && st.stored == NumValid(st.slots)
    && forall i :: 0 <= i < RK_NUM && IsValid(st.slots[i]) ==> st.slots[i].user.idSize <= USER_ID_MAX_SIZE
  }

  lemma InvIsTidy(st: Store)
    requires StoreInv(st)
    ensures Tidy(st)
  {
  }

  /** A valid slot is counted by every longer prefix. */
  lemma {:induction false} CountGrows(s: Slots, i: nat, n: nat)
    requires i < n <= RK_NUM && IsValid(s[i])
    ensures NumValid(s, i) < NumValid(s, n)
  {
    if i < n - 1 { CountGrows(s, i, n - 1); }
  }
}
