/** The getAssertion part of `ctap.c` over the global credential list, proved against
    `AssertionQueue`. The request's list and the saved list are the same array. */
module Assertions {
  import opened CtapErrors
  import opened Octets
  import opened Sha256Spec
  import opened CredentialTags
  import opened ResidentKeys
  import opened KeyStore
  import opened AssertionQueue

  class AssertionState {
    var secret: Hash
    const store: ResidentKeyStore
    const creds: array<Credential>
    var count: Fill
    var index: nat
    var lastCmd: u8
    var verified: bool

    ghost predicate Shaped() {
      store.Shaped() && creds.Length == ALLOW_LIST_MAX_SIZE
    }

    ghost function State(): Authenticator
      requires Shaped()
      reads this, creds, store, store.rks
    {
      Authenticator(secret, store.State(), Queue(creds[..], count, index, lastCmd, verified))
    }

    /** Power-up: no list, no last command. */
    constructor (secret: Hash, store: ResidentKeyStore)
      requires store.Shaped()
      ensures Shaped() && fresh(creds) && this.store == store
      ensures State().queue == Queue(creds[..], 0, 0, 0, false) && State().secret == secret
    {
      this.secret, this.store := secret, store;
      creds := new Credential[ALLOW_LIST_MAX_SIZE](_ => NO_CREDENTIAL);
      count, index, lastCmd, verified := 0, 0, 0, false;
    }

    /** `qsort` with `cred_cmp_func`, as an insertion sort. */
    method SortCreds(n: nat)
      requires Shaped() && n <= ALLOW_LIST_MAX_SIZE
      modifies creds
      ensures creds[..] == Sort(old(creds[..n])) + old(creds[n..])
    {
      hide Insert, Compare;
      ghost var was := creds[..];
      for i := 0 to n
        invariant creds[..i] == Sort(was[..i])
        invariant creds[i..] == was[i..]
      {
        assert creds[i] == was[i] by { assert creds[i..][0] == was[i..][0]; }
        InsertInPlace(i);
        assert was[..i + 1][..i] == was[..i];
        assert creds[..i + 1] == Sort(was[..i + 1]);
        assert creds[i + 1..] == was[i + 1..];
      }
      assert creds[..] == creds[..n] + creds[n..];
    }

    /** Moves the element at `i` into the sorted part below it. */
    method InsertInPlace(i: nat)
      requires Shaped() && i < ALLOW_LIST_MAX_SIZE
      modifies creds
      ensures creds[..i + 1] == Insert(old(creds[..i]), old(creds[i]))
      ensures creds[i + 1..] == old(creds[i + 1..])
    {
      hide Compare, Insert;
      ghost var was := creds[..];
      var x := creds[i];
      var j := i;
      while j > 0 && Compare(creds[j - 1], x) > 0
        invariant 0 <= j <= i
        invariant forall k :: 0 <= k < j ==> creds[k] == was[k]
        invariant forall k :: j <= k < i ==> creds[k + 1] == was[k] && Compare(was[k], x) > 0
        invariant forall k :: i < k < ALLOW_LIST_MAX_SIZE ==> creds[k] == was[k]
      {
        creds[j] := creds[j - 1];
        j := j - 1;
      }
      creds[j] := x;
      InsertAt(was[..i], j, x);
      Shifted(creds[..], was, j, i, x);
    }

    /** The resident-key loop of `ctap_filter_invalid_credentials`; `break` ends it when the list
        is full. */
    method CollectKeys(rpIdHash: Hash) returns (n: nat)
      requires Shaped()
      modifies creds
      ensures n <= ALLOW_LIST_MAX_SIZE
      ensures creds[..] == Candidates(secret, store.State().slots, rpIdHash, verified) + old(creds[n..])
    {
      hide CheckMetadata, IsValid;
      ghost var s, was := store.State().slots, creds[..];
      n := 0;
      for i := 0 to RK_NUM
        invariant n == |Accepted(secret, s, rpIdHash, verified, i)| <= ALLOW_LIST_MAX_SIZE
        invariant creds[..n] == Accepted(secret, s, rpIdHash, verified, i)
        invariant forall k :: n <= k < ALLOW_LIST_MAX_SIZE ==> creds[k] == was[k]
      {
        var rk := store.rks[i];
        if !IsValid(rk) { continue; }
        if CheckMetadata(secret, rk.id, verified, false) != 0 { continue; }
        if rk.id.rpIdHash == rpIdHash {
          if n >= ALLOW_LIST_MAX_SIZE {
            AcceptedGrows(secret, s, rpIdHash, verified, i + 1);
            AcceptedGrows(secret, s, rpIdHash, verified, i);
            assert creds[..] == creds[..n] + was[n..];
            return;
          }
          creds[n] := CredentialOf(rk);
          n := n + 1;
          assert creds[..n] == creds[..n - 1] + [creds[n - 1]];
        }
      }
      assert creds[..] == creds[..n] + was[n..];
    }

    method FilterCredentials(rpIdHash: Hash) returns (n: nat)
      requires Shaped()
      modifies creds
      ensures n == |Candidates(secret, store.State().slots, rpIdHash, verified)|
      ensures State().queue == Filter(old(State()), rpIdHash)
    {
      hide Sort, Candidates;
      n := CollectKeys(rpIdHash);
      ghost var c, mid := Candidates(secret, store.State().slots, rpIdHash, verified), creds[..];
      assert n == |c| && mid[..n] == c && mid[n..] == old(creds[n..]);
      SortCreds(n);
    }

    /** The overlapping move of `n` entries by one place. */
    method MoveDown(n: nat)
      requires Shaped() && n < ALLOW_LIST_MAX_SIZE
      modifies creds
      ensures creds[..] == old(creds[1..n + 1]) + old(creds[n..])
    {
      ghost var was := creds[..];
      for k := 0 to n
        invariant forall i :: 0 <= i < k ==> creds[i] == was[i + 1]
        invariant forall i :: k <= i < ALLOW_LIST_MAX_SIZE ==> creds[i] == was[i]
      {
        creds[k] := creds[k + 1];
      }
      assert creds[..] == was[1..n + 1] + was[n..];
    }

    /** `save_credential_list` where the list to save is the global list from its second entry on:
        a move onto overlapping memory. */
    method SaveCredentialList(n: nat) returns (status: u8)
      requires Shaped() && 1 <= n <= ALLOW_LIST_MAX_SIZE
      modifies this`count, this`index, creds
      ensures status == OK && State().queue == SaveRest(old(State()).queue, n)
    {
      var rest := n - 1;
      if rest > 0 {
        if rest > ALLOW_LIST_MAX_SIZE - 1 { return ERR_TOO_MANY_ELEMENTS; }
        MoveDown(rest);
      }
      count := rest;
      index := 0;
      return OK;
    }

    /** `pop_credential`: the place of the next credential, or -1. */
    method PopCredential() returns (at: int)
      requires Shaped()
      modifies this`index
      ensures if old(index) < count then at == old(index) && index == old(index) + 1
              else at == -1 && index == old(index)
    {
      if count > 0 && index < count {
        index := index + 1;
        return index - 1;
      }
      return -1;
    }

    /** `ctap_get_assertion`. */
    method GetAssertion(r: AssertionQueue.Request) returns (reply: Reply)
      requires Shaped()
      modifies this, creds, store`counter
      ensures (State(), reply) == AssertionQueue.GetAssertion(old(State()), r)
    {
      hide Filter, Candidates, NextCount;
      if r.parseStatus != OK { return Refused(r.parseStatus); }
      if r.pinAuthEmpty {
        if r.emptyPresence != OK { return Refused(r.emptyPresence); }
        return Refused(if r.pinIsSet then ERR_PIN_AUTH_INVALID else ERR_PIN_NOT_SET);
      }
      if r.pinAuthPresent {
        if r.pinAuthStatus != OK { return Refused(r.pinAuthStatus); }
        verified := true;
      } else {
        verified := false;
      }
      if !r.hasRp || !r.hasClientData { return Refused(ERR_MISSING_PARAMETER); }
      ghost var a1 := State();
      var n := FilterCredentials(r.rpIdHash);
      assert State() == Authenticator(a1.secret, a1.store, Filter(a1, r.rpIdHash));
      if n == 0 { return Refused(ERR_NO_CREDENTIALS); }
      reply := AnswerFirst(n, r);
    }

    method AnswerFirst(n: nat, r: AssertionQueue.Request) returns (reply: Reply)
      requires Shaped() && 1 <= n <= ALLOW_LIST_MAX_SIZE
      modifies this`count, this`index, creds, store`counter
      ensures (State(), reply) == Answer(old(State()), n, r)
    {
      hide NextCount, SaveRest;
      var _ := store.UpdateCount();
      if !GoesOn(r.presence) { return Refused(r.presence); }
      if r.signStatus != OK { return Refused(r.signStatus); }
      reply := Assertion(creds[0], n);
      var _ := SaveCredentialList(n);
    }

    /** `ctap_get_next_assertion`. */
    method GetNextAssertion(signStatus: u8) returns (reply: Reply)
      requires Shaped()
      modifies this`index, store`counter
      ensures (State(), reply) == AssertionQueue.GetNextAssertion(old(State()), signStatus)
    {
      hide NextCount;
      var at := PopCredential();
      if at < 0 { return Refused(ERR_NOT_ALLOWED); }
      var _ := store.UpdateCount();
      reply := if signStatus == OK then Assertion(creds[at], 0) else Refused(signStatus);
    }

    /** `ctap_reset`, as far as it concerns the secret, the store and `getAssertionState`. */
    method CtapReset(secret: Hash)
      requires Shaped()
      modifies this, creds, store`stored, store.rks
      ensures State() == AfterReset(old(State()), secret)
    {
      hide Empty;
      store.Wipe();
      this.secret := secret;
      forall i | 0 <= i < ALLOW_LIST_MAX_SIZE { creds[i] := CLEARED; }
      count, index, lastCmd, verified := 0, 0, 0, false;
      assert creds[..] == NewList();
    }

    /** `ctap_request`. */
    method Handle(c: Command) returns (reply: Reply)
      requires Shaped()
      modifies this, creds, store`counter, store`stored, store.rks
      ensures (State(), reply) == Step(old(State()), c)
    {
      hide AssertionQueue.GetAssertion, AssertionQueue.GetNextAssertion, AfterReset;
      var cmd;
      match c {
        case Get(gate, r) =>
          cmd := CTAP_GET_ASSERTION;
          if gate != OK { reply := Refused(gate); } else { reply := GetAssertion(r); }
        case GetNext(signStatus) =>
          cmd := GET_NEXT_ASSERTION;
          if lastCmd == CTAP_GET_ASSERTION {
            reply := GetNextAssertion(signStatus);
            if reply.Assertion? { cmd := CTAP_GET_ASSERTION; }
          } else {
            reply := Refused(ERR_NOT_ALLOWED);
          }
        case Reset(presence, newSecret) =>
          cmd := CTAP_RESET;
          if presence != OK {
            reply := Refused(presence);
          } else {
            CtapReset(newSecret);
            reply := Unrelated;
          }
        case Other(other) =>
          cmd := other;
          reply := Unrelated;
      }
      lastCmd := cmd;
    }
  }

  /** Where the comparison stops is where the sorted list takes `x`. */
  lemma {:induction false} InsertAt(q: seq<Credential>, j: nat, x: Credential)
    requires j <= |q| && (j > 0 ==> Compare(q[j - 1], x) <= 0)
    requires forall k :: j <= k < |q| ==> Compare(q[k], x) > 0
    ensures Insert(q, x) == q[..j] + [x] + q[j..]
  {
    hide Compare;
    if j < |q| {
      var front := q[..|q| - 1];
      InsertAt(front, j, x);
      assert q[j..] == front[j..] + [q[|q| - 1]];
    } else {
      assert q[..j] == q && q[j..] == [];
    }
  }

  /** `x` at `j`, what was from `j` on one place further up, and the rest as it was. */
  lemma Shifted(now: seq<Credential>, was: seq<Credential>, j: nat, i: nat, x: Credential)
    requires j <= i < |now| == |was| && now[j] == x
    requires forall k :: 0 <= k < j ==> now[k] == was[k]
    requires forall k :: j <= k < i ==> now[k + 1] == was[k]
    requires forall k :: i < k < |was| ==> now[k] == was[k]
    ensures now[..i + 1] == was[..i][..j] + [x] + was[..i][j..]
    ensures now[i + 1..] == was[i + 1..]
  {
  }

  /** What was collected from the first slots stays at the front. */
  lemma {:induction false} AcceptedGrows(secret: Hash, s: Slots, h: Hash, v: bool, n: nat)
    requires n <= RK_NUM
    ensures Accepted(secret, s, h, v, n) <= Accepted(secret, s, h, v)
    decreases RK_NUM - n
  {
    hide Accepts, CredentialOf;
    if n < RK_NUM { AcceptedGrows(secret, s, h, v, n + 1); }
  }
}
