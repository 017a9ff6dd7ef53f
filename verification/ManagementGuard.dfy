/** Credential management behind the PIN: who may list and delete keys. */
module ManagementGuard {
  import opened CtapErrors
  import opened Octets
  import Hmac
  import opened ResidentKeys
  import Enumeration
  import PinMachine
  import PinAuthority
  import CredMgmt
  import opened Runs

  /** What `ctap_cred_mgmt` reads and writes. */
  datatype Device = Device(pin: PinMachine.PinState, store: Store, cursor: Enumeration.Cursor)

  /** A credential-management command, or any other with what it does to the store. Fresh random
      bytes may be drawn by each. */
  datatype Event =
    | Manage(parseStatus: u8, request: Enumeration.Request, pinAuth: PinMachine.Token, hashed: Bytes,
        rng: PinMachine.Random)
    | Elsewhere(command: PinMachine.Command, store: Store, rng: PinMachine.Random)

  /** The sub-commands that `ctap_cred_mgmt_pinauth` checks; the Next commands go on from a Begin. */
  predicate NeedsAuth(q: Enumeration.Request) {
    q.Metadata? || q.RpBegin? || q.RkBegin? || q.Remove?
  }

  function PinStep(d: Device, e: Event): PinMachine.Outcome
    requires e.Manage?
  {
    PinMachine.Step(d.pin, PinMachine.CredMgmt(e.parseStatus, NeedsAuth(e.request), e.pinAuth, e.hashed, OK), e.rng)
  }

  function Reply(d: Device, e: Event): Enumeration.Reply
    requires e.Manage?
  {
    var o := PinStep(d, e);
    if o.status != OK then Enumeration.Refused(o.status) else Enumeration.Handle(d.store, d.cursor, e.request).reply
  }

  function Next(d: Device, e: Event): Device {
    match e
    case Manage(_, q, _, _, _) =>
      var o := PinStep(d, e);
      if o.status != OK then Device(o.state, d.store, d.cursor)
      else var r := Enumeration.Handle(d.store, d.cursor, q); Device(o.state, r.store, r.cursor)
    case Elsewhere(c, store, rng) =>
      Device(PinMachine.Step(d.pin, c, rng).state, store,
             if c.PowerCycle? then Enumeration.Cursor(0, 0, false, false) else d.cursor)
  }

  /** The PIN part and the enumeration part of the code, one behind the other. */
  class Management {
    const authority: PinAuthority.Authority
    const manager: CredMgmt.Manager

    constructor (authority: PinAuthority.Authority, manager: CredMgmt.Manager)
      ensures this.authority == authority && this.manager == manager
    {
      this.authority, this.manager := authority, manager;
    }

    ghost predicate Valid()
      reads manager, manager.store, manager.store.rks
    {
      manager.Valid()
    }

    ghost function State(): Device
      requires Valid()
      reads authority, manager, manager.store, manager.store.rks
    {
      Device(authority.State(), manager.store.State(), manager.Cursor())
    }

    /** `ctap_request` and `ctap_cred_mgmt` for a credential-management command. */
    method Handle(e: Event) returns (reply: Enumeration.Reply)
      requires Valid() && e.Manage?
      modifies authority, manager, manager.store`stored, manager.store.rks
      ensures Valid() && State() == Next(old(State()), e) && reply == Reply(old(State()), e)
    {
      hide PinMachine.Step, Enumeration.Handle;
      var c := PinMachine.CredMgmt(e.parseStatus, NeedsAuth(e.request), e.pinAuth, e.hashed, OK);
      var status := authority.Request(c, e.rng);
      if status != OK { return Enumeration.Refused(status); }
      reply := manager.Handle(e.request);
    }
  }

  /** The command carries the first 16 bytes of the HMAC under the token, on a device whose tries are
      not used up. */
  predicate Authorised(d: Device, e: Event)
    requires e.Manage?
  {
    d.pin.ram.remainingTries > 0 && d.pin.bootLeft > 0 && Hmac.Hmac(d.pin.pinToken, e.hashed)[..16] == e.pinAuth
  }

  predicate Reports(reply: Enumeration.Reply) {
    reply.Counts? || reply.Rp? || reply.Rk?
  }

  /** One command tells nothing about the keys and deletes none unless it is authorised, or goes on
      with an enumeration that is open. */
  lemma OneCommandIsGuarded(d: Device, e: Event)
    requires e.Manage? && (Reports(Reply(d, e)) || Next(d, e).store != d.store)
    ensures if NeedsAuth(e.request) then Authorised(d, e)
            else if e.request.RpNext? then d.cursor.rpAuth
            else e.request.RkNext? && d.cursor.rkAuth
  {
    hide Hmac.Hmac, Enumeration.NextRp, Enumeration.NextRk, Enumeration.RpCount, Enumeration.RkCount, Delete;
    AuthorisedGoesOn(d, e);
  }

  lemma AuthorisedGoesOn(d: Device, e: Event)
    requires e.Manage?
    ensures PinStep(d, e).status == OK && NeedsAuth(e.request) ==> Authorised(d, e)
  {
    hide Hmac.Hmac;
  }

  /** Event `i` of a run began an enumeration of RPs, or of keys, with authorisation. */
  ghost predicate Began(d: Device, es: seq<Event>, i: int, rps: bool) {
    && 0 <= i < |es| && es[i].Manage?
    && (if rps then es[i].request.RpBegin? else es[i].request.RkBegin?)
    && Authorised(Run(Next, d, es[..i]), es[i])
  }

  ghost predicate PowerStays(es: seq<Event>, i: int) {
    forall k :: i <= k < |es| && k >= 0 && es[k].Elsewhere? ==> !es[k].command.PowerCycle?
  }

  /** An enumeration is open only if it was begun with authorisation since power-up. */
  ghost predicate Explained(d: Device, es: seq<Event>) {
    var c := Run(Next, d, es).cursor;
    && (c.rpAuth ==> exists i :: Began(d, es, i, true) && PowerStays(es, i))
    && (c.rkAuth ==> exists i :: Began(d, es, i, false) && PowerStays(es, i))
  }

  /** One command opens an enumeration only if it begins it with authorisation. */
  lemma OpensOnlyAuthorised(d: Device, e: Event)
    ensures var c := Next(d, e).cursor;
            && (c.rpAuth && !(e.Manage? && e.request.RpBegin? && Authorised(d, e)) ==>
                  d.cursor.rpAuth && !(e.Elsewhere? && e.command.PowerCycle?))
            && (c.rkAuth && !(e.Manage? && e.request.RkBegin? && Authorised(d, e)) ==>
                  d.cursor.rkAuth && !(e.Elsewhere? && e.command.PowerCycle?))
  {
    hide Hmac.Hmac, Enumeration.NextRp, Enumeration.NextRk, Enumeration.RpCount, Enumeration.RkCount, Delete;
    hide PinMachine.Step, Authorised;
    if e.Manage? { AuthorisedGoesOn(d, e); }
  }

  lemma BeganStays(d: Device, es: seq<Event>, e: Event, i: int, rps: bool)
    requires Began(d, es, i, rps) && PowerStays(es, i) && !(e.Elsewhere? && e.command.PowerCycle?)
    ensures Began(d, es + [e], i, rps) && PowerStays(es + [e], i)
  {
    hide Authorised, Next;
    assert (es + [e])[..i] == es[..i];
  }

  lemma BeganNow(d: Device, es: seq<Event>, e: Event, rps: bool)
    requires e.Manage? && (if rps then e.request.RpBegin? else e.request.RkBegin?) && Authorised(Run(Next, d, es), e)
    ensures Began(d, es + [e], |es|, rps) && PowerStays(es + [e], |es|)
  {
    hide Authorised, Next;
    assert (es + [e])[..|es|] == es;
  }

  lemma {:induction false} RunExplained(d: Device, es: seq<Event>)
    requires !d.cursor.rpAuth && !d.cursor.rkAuth
    ensures Explained(d, es)
  {
    hide Next, Authorised, Began, PowerStays;
    if es != [] {
      var before, e := es[..|es| - 1], es[|es| - 1];
      assert es == before + [e];
      RunExplained(d, before);
      var t := Run(Next, d, before);
      OpensOnlyAuthorised(t, e);
      var c := Run(Next, d, es).cursor;
      if c.rpAuth { StillExplained(d, before, e, true); }
      if c.rkAuth { StillExplained(d, before, e, false); }
    }
  }

  lemma StillExplained(d: Device, es: seq<Event>, e: Event, rps: bool)
    requires if e.Manage? && (if rps then e.request.RpBegin? else e.request.RkBegin?) && Authorised(Run(Next, d, es), e)
             then true
             else !(e.Elsewhere? && e.command.PowerCycle?) && exists i :: Began(d, es, i, rps) && PowerStays(es, i)
    ensures exists i :: Began(d, es + [e], i, rps) && PowerStays(es + [e], i)
  {
    hide Next, Authorised, Began, PowerStays;
    if e.Manage? && (if rps then e.request.RpBegin? else e.request.RkBegin?) && Authorised(Run(Next, d, es), e) {
      BeganNow(d, es, e, rps);
    } else {
      var i :| Began(d, es, i, rps) && PowerStays(es, i);
      BeganStays(d, es, e, i, rps);
    }
  }

  /** In every run from power-up, whatever else happens in between, credential management reports
      nothing and deletes nothing without the PIN token: the command itself is authorised, or goes
      on with an enumeration that was begun with authorisation since power-up. */
  lemma NothingWithoutToken(d: Device, es: seq<Event>, e: Event)
    requires !d.cursor.rpAuth && !d.cursor.rkAuth && e.Manage?
    ensures var t := Run(Next, d, es);
            Reports(Reply(t, e)) || Next(t, e).store != t.store ==>
              || (NeedsAuth(e.request) && Authorised(t, e))
              || (e.request.RpNext? && exists i :: Began(d, es, i, true) && PowerStays(es, i))
              || (e.request.RkNext? && exists i :: Began(d, es, i, false) && PowerStays(es, i))
  {
    hide Next, Reply, Authorised, Began, PowerStays, Reports;
    RunExplained(d, es);
    var t := Run(Next, d, es);
    if Reports(Reply(t, e)) || Next(t, e).store != t.store { OneCommandIsGuarded(t, e); }
  }
}
