/** Whole runs of getAssertion and getNextAssertion, with failures, resets and changes of the store
    in between: which list the next assertions come from. */
module AssertionRuns {
  import opened CtapErrors
  import opened Octets
  import opened Sha256Spec
  import opened ResidentKeys
  import opened AssertionQueue
  import opened Runs

  /** A command, or what other commands do to the store. */
  datatype Event = Do(command: Command) | Change(store: Store)

  function Advance(a: Authenticator, e: Event): Authenticator {
    match e
    case Do(c) => Step(a, c).0
    case Change(st) => Authenticator(a.secret, st, a.queue)
  }

  function SortedFor(a: Authenticator, r: Request): seq<Credential> {
    Sort(Candidates(a.secret, a.store.slots, r.rpIdHash, r.pinAuthPresent))
  }

  /** What a list of promised credentials becomes: a successful getAssertion promises its sorted
      candidates, a reset none. */
  function PromisedAfter(a: Authenticator, promised: seq<Credential>, e: Event): seq<Credential> {
    match e
    case Do(Get(gate, r)) => if Step(a, Get(gate, r)).1.Assertion? then SortedFor(a, r) else promised
    case Do(Reset(presence, _)) => if presence == OK then [] else promised
    case _ => promised
  }

  /** The credentials promised by the last successful getAssertion of the run, or `before` it. */
  function Promised(a: Authenticator, before: seq<Credential>, es: seq<Event>): seq<Credential> {
    if es == [] then before
    else
      var n := |es| - 1;
      PromisedAfter(Run(Advance, a, es[..n]), Promised(a, before, es[..n]), es[n])
  }

  /** A getAssertion that finds keys and then fails, for want of the user or of a signature. */
  ghost predicate Spoils(a: Authenticator, e: Event) {
    && e.Do? && e.command.Get? && e.command.gate == OK
    && var r := e.command.request;
       && r.parseStatus == OK && !r.pinAuthEmpty && (r.pinAuthPresent ==> r.pinAuthStatus == OK)
       && r.hasRp && r.hasClientData && SortedFor(a, r) != []
       && !(GoesOn(r.presence) && r.signStatus == OK)
  }

  /** The queue holds what is promised after the first. */
  ghost predicate Follows(q: Queue, promised: seq<Credential>) {
    q.count == 0 || (|promised| == q.count + 1 && q.creds[..q.count] == promised[1..])
  }

  /** A getAssertion that is refused without spoiling leaves the queue as it is. */
  lemma RefusedKeepsQueue(a: Authenticator, gate: u8, r: Request)
    requires !Spoils(a, Do(Get(gate, r))) && !Step(a, Get(gate, r)).1.Assertion?
    ensures var q := Step(a, Get(gate, r)).0.queue;
            q.creds == a.queue.creds && q.count == a.queue.count && q.index == a.queue.index
  {
    hide Sort, Candidates, Counted;
  }

  lemma StepFollows(a: Authenticator, promised: seq<Credential>, e: Event)
    requires Follows(a.queue, promised) && !Spoils(a, e)
    ensures Follows(Advance(a, e).queue, PromisedAfter(a, promised, e))
  {
    hide Sort, Candidates, GetAssertion, Counted, Spoils;
    match e {
      case Do(Get(gate, r)) =>
        if Step(a, e.command).1.Assertion? {
          assert gate == OK;
          SuccessQueues(a, r);
        } else {
          RefusedKeepsQueue(a, gate, r);
        }
      case _ =>
    }
  }

  lemma {:induction false} RunFollows(a: Authenticator, before: seq<Credential>, es: seq<Event>)
    requires Follows(a.queue, before)
    requires forall i :: 0 <= i < |es| ==> !Spoils(Run(Advance, a, es[..i]), es[i])
    ensures Follows(Run(Advance, a, es).queue, Promised(a, before, es))
  {
    hide Advance, PromisedAfter, Spoils, Follows;
    if es != [] {
      var n := |es| - 1;
      assert forall i :: 0 <= i < n ==> es[..n][..i] == es[..i];
      RunFollows(a, before, es[..n]);
      StepFollows(Run(Advance, a, es[..n]), Promised(a, before, es[..n]), es[n]);
    }
  }

  /** In every run without such failures, whatever else fails or changes, a getNextAssertion that
      is answered hands out the next of the credentials that the last successful getAssertion
      promised. */
  lemma NextIsPromised(a: Authenticator, before: seq<Credential>, es: seq<Event>, signStatus: u8)
    requires Follows(a.queue, before)
    requires forall i :: 0 <= i < |es| ==> !Spoils(Run(Advance, a, es[..i]), es[i])
    ensures var (t, promised) := (Run(Advance, a, es), Promised(a, before, es));
            var reply := Step(t, GetNext(signStatus)).1;
            reply.Assertion? ==>
              t.queue.index + 1 < |promised| && reply.credential == promised[t.queue.index + 1]
  {
    hide Advance, PromisedAfter, Spoils, Promised, Run;
    RunFollows(a, before, es);
    var t, promised := Run(Advance, a, es), Promised(a, before, es);
    var q := t.queue;
    if q.index < q.count { assert q.creds[q.index] == q.creds[..q.count][q.index] == promised[1..][q.index]; }
  }

  /** When a getNextAssertion is answered at all, and what it counts. */
  lemma NextIsExact(a: Authenticator, signStatus: u8)
    requires a.store.counter < 0xffff_ffff
    ensures var (b, reply) := Step(a, GetNext(signStatus));
            if a.queue.lastCmd != 0x02 || a.queue.index >= a.queue.count
            then reply == Refused(ERR_NOT_ALLOWED) && b.store == a.store
            else && b.store == Store(a.store.slots, a.store.stored, a.store.counter + 1)
                 && (if signStatus == OK then reply.Assertion? else reply == Refused(signStatus))
  {
  }

  /** A next assertion is not allowed right after any other command, a reset, or one that was
      refused. */
  lemma InterruptedQueueIsClosed(a: Authenticator, c: Command, signStatus: u8)
    requires c.Other? || c.Reset? || (c.GetNext? && Step(a, c).1.Refused?)
    ensures Step(Step(a, c).0, GetNext(signStatus)).1 == Refused(ERR_NOT_ALLOWED)
  {
    hide Counted;
  }

  /** A reset that is granted leaves no key, no queue and a new secret. */
  lemma ResetForgetsAll(a: Authenticator, secret: Hash)
    ensures var b := Step(a, Reset(OK, secret)).0;
            && b.secret == secret && b.store.stored == 0 && b.store.counter == a.store.counter
            && (forall i :: 0 <= i < RK_NUM ==> !IsValid(b.store.slots[i]))
            && b.queue.count == 0 && !b.queue.verified
  {
  }

  /** After such a failure, what is left of the queue has been overwritten: the next assertion is of
      a key found for the failed request, as far as there were that many. */
  lemma SpoiledQueue(a: Authenticator, r: Request)
    requires Spoils(a, Do(Get(OK, r))) && a.queue.index < a.queue.count
    ensures var (i, found) := (a.queue.index, SortedFor(a, r));
            Step(Step(a, Get(OK, r)).0, GetNext(OK)).1
            == Assertion(if i < |found| then found[i] else a.queue.creds[i], 0)
  {
    hide Sort, Candidates, Counted;
  }
}
