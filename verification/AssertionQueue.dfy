/** getAssertion without an allow list and getNextAssertion: the accepted resident keys are
    sorted in the global credential list, the first is answered, the rest is shifted down over it
    and handed out one command at a time. */
module AssertionQueue {
  import opened CtapErrors
  import opened Octets
  import opened Sha256Spec
  import opened CredentialTags
  import opened ResidentKeys

  const ALLOW_LIST_MAX_SIZE := 20
  const CTAP_GET_ASSERTION: u8 := 0x02
  const CTAP_RESET: u8 := 0x07
  const GET_NEXT_ASSERTION: u8 := 0x08

  /** `struct Credential`. */
  datatype Credential = Credential(id: CredentialId, user: UserEntity)

  const NO_CREDENTIAL := Credential(ERASED.id, ERASED.user)

  /** All bytes zero. */
  const CLEARED := Credential(
    CredentialId(Zeros(TAG_SIZE), Zeros(NONCE_SIZE), Zeros(DIGEST_SIZE), 0),
    UserEntity(Zeros(USER_ID_MAX_SIZE), 0, Zeros(225)))

  type List = q: seq<Credential> | |q| == ALLOW_LIST_MAX_SIZE witness seq(ALLOW_LIST_MAX_SIZE, _ => NO_CREDENTIAL)

  // ----- which keys -----

  /** Does the key belong to the RP and may it be used? */
  predicate Accepts(secret: Hash, rk: ResidentKey, rpIdHash: Hash, verified: bool) {
    IsValid(rk) && CheckMetadata(secret, rk.id, verified, false) == 0 && rk.id.rpIdHash == rpIdHash
  }

  function CredentialOf(rk: ResidentKey): Credential {
    Credential(rk.id, rk.user)
  }

  /** All accepted keys among the first `n` slots, in slot order. */
  function Accepted(secret: Hash, s: Slots, rpIdHash: Hash, verified: bool, n: nat := RK_NUM): (q: seq<Credential>)
    requires n <= RK_NUM
    ensures |q| <= n
  {
    if n == 0 then []
    else if Accepts(secret, s[n - 1], rpIdHash, verified)
    then Accepted(secret, s, rpIdHash, verified, n - 1) + [CredentialOf(s[n - 1])]
    else Accepted(secret, s, rpIdHash, verified, n - 1)
  }

  /** As many as there is room for. */
  function Candidates(secret: Hash, s: Slots, rpIdHash: Hash, verified: bool): (q: seq<Credential>)
    ensures |q| <= ALLOW_LIST_MAX_SIZE
  {
    var all := Accepted(secret, s, rpIdHash, verified);
    all[..Min(|all|, ALLOW_LIST_MAX_SIZE)]
  }

  // ----- sorting -----

  /** `cred_cmp_func`: the difference of two 32-bit counts as a 32-bit int. */
  function Compare(a: Credential, b: Credential): int {
    var d := (b.id.count - a.id.count) % 0x1_0000_0000;
    if d < 0x8000_0000 then d else d - 0x1_0000_0000
  }

  /** The comparison puts the greater count first exactly when the counts are less than half the
      range apart. */
  lemma ComparatorIsExact(a: Credential, b: Credential)
    ensures (Compare(a, b) > 0 <==> b.id.count > a.id.count) && (Compare(a, b) < 0 <==> b.id.count < a.id.count)
            <==> -0x8000_0000 <= b.id.count - a.id.count < 0x8000_0000
  {
  }

  function Insert(q: seq<Credential>, c: Credential): (r: seq<Credential>)
    ensures |r| == |q| + 1
  {
    if q != [] && Compare(q[|q| - 1], c) > 0 then Insert(q[..|q| - 1], c) + [q[|q| - 1]] else q + [c]
  }

  function Sort(q: seq<Credential>): (r: seq<Credential>)
    ensures |r| == |q|
  {
    if q == [] then [] else Insert(Sort(q[..|q| - 1]), q[|q| - 1])
  }

  ghost predicate Descending(q: seq<Credential>) {
    forall i, j :: 0 <= i < j < |q| ==> q[i].id.count > q[j].id.count
  }

  /** No two counts are half the range apart or more. */
  ghost predicate CloseCounts(q: seq<Credential>) {
    forall i, j :: 0 <= i < |q| && 0 <= j < |q| ==> q[i].id.count - q[j].id.count < 0x8000_0000
  }

  ghost predicate DifferentCounts(q: seq<Credential>) {
    forall i, j :: 0 <= i < j < |q| ==> q[i].id.count != q[j].id.count
  }

  lemma {:induction false} InsertKeepsAll(q: seq<Credential>, c: Credential)
    ensures multiset(Insert(q, c)) == multiset(q) + multiset{c}
  {
    if q != [] && Compare(q[|q| - 1], c) > 0 {
      InsertKeepsAll(q[..|q| - 1], c);
      assert q == q[..|q| - 1] + [q[|q| - 1]];
    }
  }

  lemma SortSnoc(q: seq<Credential>, c: Credential)
    ensures Sort(q + [c]) == Insert(Sort(q), c)
  {
    assert (q + [c])[..|q|] == q;
  }

  lemma LastOf(q: seq<Credential>)
    requires q != []
    ensures q == q[..|q| - 1] + [q[|q| - 1]]
  {
  }

  lemma {:induction false} SortKeepsAll(q: seq<Credential>)
    ensures multiset(Sort(q)) == multiset(q)
  {
    hide Insert;
    if q != [] {
      hide Sort;
      var front, last := q[..|q| - 1], q[|q| - 1];
      LastOf(q);
      SortKeepsAll(front);
      SortSnoc(front, last);
      InsertKeepsAll(Sort(front), last);
    }
  }

  lemma {:induction false} InsertMembers(q: seq<Credential>, c: Credential)
    ensures forall x :: x in Insert(q, c) <==> x in q || x == c
  {
    InsertKeepsAll(q, c);
    forall x ensures x in Insert(q, c) <==> x in q || x == c {
      assert x in Insert(q, c) <==> x in multiset(Insert(q, c));
      assert x in q <==> x in multiset(q);
    }
  }

  /** `c` differs from every count in `q`, by less than half the range. */
  ghost predicate Fits(q: seq<Credential>, c: Credential) {
    forall x :: x in q ==> x.id.count != c.id.count && -0x8000_0000 < x.id.count - c.id.count < 0x8000_0000
  }

  lemma DescendingSnoc(q: seq<Credential>, c: Credential)
    requires Descending(q) && forall x :: x in q ==> x.id.count > c.id.count
    ensures Descending(q + [c])
  {
  }

  lemma {:induction false} InsertDescends(q: seq<Credential>, c: Credential)
    requires Descending(q) && Fits(q, c)
    ensures Descending(Insert(q, c))
  {
    if q == [] { return; }
    var front, last := q[..|q| - 1], q[|q| - 1];
    assert last in q;
    ComparatorIsExact(last, c);
    if Compare(last, c) > 0 {
      InsertDescends(front, c);
      InsertMembers(front, c);
      DescendingSnoc(Insert(front, c), last);
    } else {
      DescendingSnoc(q, c);
    }
  }

  /** Accepted keys come out newest first, if no two counts are half the range apart. */
  lemma {:induction false} SortDescends(q: seq<Credential>)
    requires CloseCounts(q) && DifferentCounts(q)
    ensures Descending(Sort(q))
  {
    if q != [] {
      var front, last := q[..|q| - 1], q[|q| - 1];
      var sorted := Sort(front);
      SortDescends(front);
      SortKeepsAll(front);
      forall x | x in sorted
        ensures x.id.count != last.id.count && -0x8000_0000 < x.id.count - last.id.count < 0x8000_0000
      {
        assert x in multiset(sorted);
        assert x in front;
      }
      InsertDescends(sorted, last);
    }
  }

  /** For two keys that is also necessary: otherwise the older is put first. */
  lemma PairDescendsExactly(a: Credential, b: Credential)
    requires a.id.count < b.id.count
    ensures Descending(Sort([a, b])) <==> b.id.count - a.id.count < 0x8000_0000
    ensures b.id.count - a.id.count >= 0x8000_0000 ==> Sort([a, b]) == [a, b]
  {
    hide Compare, Sort, Insert;
    CompareOlder(a, b);
    SortPair(a, b);
    PairDescends(a, b);
    PairDescends(b, a);
  }

  lemma PairDescends(x: Credential, y: Credential)
    ensures Descending([x, y]) <==> x.id.count > y.id.count
  {
    var q := [x, y];
    assert q[0] == x && q[1] == y;
  }

  lemma SortPair(a: Credential, b: Credential)
    ensures Sort([a, b]) == if Compare(a, b) > 0 then [b, a] else [a, b]
  {
    hide Compare, Sort;
    assert Sort([]) == [] by { SortNone(); }
    SortSnoc([], a);
    SortSnoc([a], b);
    assert [] + [a] == [a] && [a] + [b] == [a, b];
    assert [a][..0] == [];
  }

  lemma SortNone()
    ensures Sort([]) == []
  {
  }

  lemma CompareOlder(a: Credential, b: Credential)
    requires a.id.count < b.id.count
    ensures Compare(a, b) > 0 <==> b.id.count - a.id.count < 0x8000_0000
  {
  }

  // ----- commands -----

  /** `getAssertionState`, as far as it decides which credential is answered. */
  datatype Queue = Queue(creds: List, count: Fill, index: nat, lastCmd: u8, verified: bool)

  type Fill = n: nat | n < ALLOW_LIST_MAX_SIZE

  /** The authenticator as these commands see it. */
  datatype Authenticator = Authenticator(secret: Hash, store: Store, queue: Queue)

  /** A parsed getAssertion request without an allow list, with the answers of the PIN check, the
      two presence tests and the encoders. */
  datatype Request = Request(
    parseStatus: u8,
    pinAuthEmpty: bool,
    emptyPresence: u8,
    pinIsSet: bool,
    pinAuthPresent: bool,
    pinAuthStatus: u8,
    hasRp: bool,
    hasClientData: bool,
    rpIdHash: Hash,
    presence: u8,
    signStatus: u8)

  /** `gate` is the lock status that `ctap_request` checks first, `presence` the answer of the
      presence test before a reset, `secret` the new secret. */
  datatype Command =
    | Get(gate: u8, request: Request)
    | GetNext(signStatus: u8)
    | Reset(presence: u8, secret: Hash)
    | Other(cmd: OtherCmd)

  type OtherCmd = c: u8 | c !in {CTAP_GET_ASSERTION, CTAP_RESET, GET_NEXT_ASSERTION} witness 0

  /** `total` is the numberOfCredentials member, left out when it is 1 and in later answers. */
  datatype Reply = Assertion(credential: Credential, total: nat) | Refused(status: u8) | Unrelated

  function WithVerified(q: Queue, verified: bool): Queue {
    Queue(q.creds, q.count, q.index, q.lastCmd, verified)
  }

  function WithCreds(q: Queue, creds: List): Queue {
    Queue(creds, q.count, q.index, q.lastCmd, q.verified)
  }

  function WithLast(q: Queue, cmd: u8): Queue {
    Queue(q.creds, q.count, q.index, cmd, q.verified)
  }

  /** `ctap_filter_invalid_credentials`: the sorted candidates at the front of the list. */
  function Filter(a: Authenticator, rpIdHash: Hash): Queue {
    var sorted := Sort(Candidates(a.secret, a.store.slots, rpIdHash, a.queue.verified));
    WithCreds(a.queue, sorted + a.queue.creds[|sorted|..])
  }

  /** `save_credential_list` of the list itself from its second entry on. */
  function SaveRest(q: Queue, n: nat): (r: Queue)
    requires 1 <= n <= ALLOW_LIST_MAX_SIZE
  {
    Queue(if n == 1 then q.creds else q.creds[1..n] + q.creds[n - 1..], n - 1, 0, q.lastCmd, q.verified)
  }

  function Answer(a: Authenticator, n: nat, r: Request): (Authenticator, Reply)
    requires 1 <= n <= ALLOW_LIST_MAX_SIZE
  {
    var counted := Authenticator(a.secret, Counted(a.store), a.queue);
    if !GoesOn(r.presence) then (counted, Refused(r.presence))
    else if r.signStatus != OK then (counted, Refused(r.signStatus))
    else (Authenticator(a.secret, counted.store, SaveRest(a.queue, n)), Assertion(a.queue.creds[0], n))
  }

  /** `ctap_get_assertion`. */
  function GetAssertion(a: Authenticator, r: Request): (Authenticator, Reply) {
    if r.parseStatus != OK then (a, Refused(r.parseStatus))
    else if r.pinAuthEmpty then
      (a, Refused(if r.emptyPresence != OK then r.emptyPresence
                 else if r.pinIsSet then ERR_PIN_AUTH_INVALID else ERR_PIN_NOT_SET))
    else if r.pinAuthPresent && r.pinAuthStatus != OK then (a, Refused(r.pinAuthStatus))
    else
      var a1 := Authenticator(a.secret, a.store, WithVerified(a.queue, r.pinAuthPresent));
      if !r.hasRp || !r.hasClientData then (a1, Refused(ERR_MISSING_PARAMETER))
      else
        var n := |Candidates(a.secret, a.store.slots, r.rpIdHash, r.pinAuthPresent)|;
        var a2 := Authenticator(a.secret, a.store, Filter(a1, r.rpIdHash));
        if n == 0 then (a2, Refused(ERR_NO_CREDENTIALS)) else Answer(a2, n, r)
  }

  /** `ctap_get_next_assertion`. */
  function GetNextAssertion(a: Authenticator, signStatus: u8): (Authenticator, Reply) {
    var q := a.queue;
    if q.index >= q.count then (a, Refused(ERR_NOT_ALLOWED))
    else (Popped(a), if signStatus == OK then Assertion(q.creds[q.index], 0) else Refused(signStatus))
  }

  function SetLast(a: Authenticator, cmd: u8): Authenticator {
    Authenticator(a.secret, a.store, WithLast(a.queue, cmd))
  }

  function NewList(): (q: List)
    ensures forall i :: 0 <= i < ALLOW_LIST_MAX_SIZE ==> q[i] == CLEARED
  {
    seq(ALLOW_LIST_MAX_SIZE, _ => CLEARED)
  }

  /** What `ctap_reset` leaves: nothing stored, nothing queued. */
  function AfterReset(a: Authenticator, secret: Hash): Authenticator {
    Authenticator(secret, Wiped(a.store), Queue(NewList(), 0, 0, 0, false))
  }

  /** `ctap_request`: a next assertion is only given right after an assertion or another one. */
  function Step(a: Authenticator, c: Command): (Authenticator, Reply) {
    match c
    case Get(gate, r) =>
      if gate != OK then (SetLast(a, CTAP_GET_ASSERTION), Refused(gate))
      else var (a1, reply) := GetAssertion(a, r); (SetLast(a1, CTAP_GET_ASSERTION), reply)
    case GetNext(signStatus) =>
      if a.queue.lastCmd != CTAP_GET_ASSERTION then (SetLast(a, GET_NEXT_ASSERTION), Refused(ERR_NOT_ALLOWED))
      else
        var (a1, reply) := GetNextAssertion(a, signStatus);
        (SetLast(a1, if reply.Assertion? then CTAP_GET_ASSERTION else GET_NEXT_ASSERTION), reply)
    case Reset(presence, secret) =>
      if presence != OK then (SetLast(a, CTAP_RESET), Refused(presence))
      else (SetLast(AfterReset(a, secret), CTAP_RESET), Unrelated)
    case Other(cmd) => (SetLast(a, cmd), Unrelated)
  }

  // ----- what a platform is given -----

  /** `n` getNextAssertion commands in a row, up to the first that is refused. */
  function Drain(a: Authenticator, n: nat): (Authenticator, seq<Credential>)
    decreases n
  {
    if n == 0 then (a, [])
    else
      var (a1, reply) := Step(a, GetNext(OK));
      if !reply.Assertion? then (a1, [])
      else var (a2, more) := Drain(a1, n - 1); (a2, [reply.credential] + more)
  }

  function Popped(a: Authenticator): Authenticator
    requires a.queue.index < a.queue.count
  {
    var q := a.queue;
    Authenticator(a.secret, Counted(a.store), Queue(q.creds, q.count, q.index + 1, q.lastCmd, q.verified))
  }

  lemma PopStep(a: Authenticator)
    requires a.queue.lastCmd == CTAP_GET_ASSERTION
    ensures if a.queue.index < a.queue.count
            then Step(a, GetNext(OK)) == (Popped(a), Assertion(a.queue.creds[a.queue.index], 0))
            else Step(a, GetNext(OK)).1 == Refused(ERR_NOT_ALLOWED)
  {
    hide Counted;
  }

  lemma {:induction false} DrainPopsAll(a: Authenticator, n: nat)
    requires a.queue.lastCmd == CTAP_GET_ASSERTION
    requires a.queue.index + n == a.queue.count
    ensures Drain(a, n).1 == a.queue.creds[a.queue.index..a.queue.count]
    ensures Step(Drain(a, n).0, GetNext(OK)).1 == Refused(ERR_NOT_ALLOWED)
    decreases n
  {
    hide Counted, Step;
    PopStep(a);
    if n > 0 { DrainPopsAll(Popped(a), n - 1); }
  }

  lemma SuccessQueues(a: Authenticator, r: Request)
    requires Step(a, Get(OK, r)).1.Assertion?
    ensures var (b, reply) := Step(a, Get(OK, r));
            var sorted := Sort(Candidates(a.secret, a.store.slots, r.rpIdHash, r.pinAuthPresent));
            && |sorted| == reply.total >= 1 && reply.credential == sorted[0]
            && b.queue.lastCmd == CTAP_GET_ASSERTION && b.queue.index == 0 && b.queue.count == reply.total - 1
            && b.queue.creds[..b.queue.count] == sorted[1..]
  {
    hide Sort, Candidates, Counted;
    var sorted := Sort(Candidates(a.secret, a.store.slots, r.rpIdHash, r.pinAuthPresent));
    var n := |sorted|;
    assert Step(a, Get(OK, r)).1.total == n;
    var mem := sorted + a.queue.creds[n..];
    assert mem[1..n] == sorted[1..];
    assert n > 1 ==> (mem[1..n] + mem[n - 1..])[..n - 1] == mem[1..n];
  }

  /** After a successful getAssertion, that answer and as many getNextAssertion commands as its
      total announces deliver the sorted candidates in order, and then no more are allowed. */
  lemma QueueDelivers(a: Authenticator, r: Request)
    requires Step(a, Get(OK, r)).1.Assertion?
    ensures var (b, first) := Step(a, Get(OK, r));
            var (c, rest) := Drain(b, first.total - 1);
            && [first.credential] + rest == Sort(Candidates(a.secret, a.store.slots, r.rpIdHash, r.pinAuthPresent))
            && Step(c, GetNext(OK)).1 == Refused(ERR_NOT_ALLOWED)
  {
    hide Step, Sort, Candidates, Drain;
    SuccessQueues(a, r);
    var (b, first) := Step(a, Get(OK, r));
    DrainPopsAll(b, first.total - 1);
    assert b.queue.creds[0..b.queue.count] == b.queue.creds[..b.queue.count];
  }
}
