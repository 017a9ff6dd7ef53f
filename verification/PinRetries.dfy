/** What every run of the PIN machine guarantees: tries are conserved across commands and power
    cycles, a permanent lock is absorbing, and the PIN that was set is the PIN that opens. */
module PinRetries {
  import opened Wrappers
  import opened CtapErrors
  import opened Octets
  import opened Sha256Spec
  import opened PinMachine
  import opened Runs

  datatype Input = Input(command: Command, rng: Random)

  /** Ghost account of a run, kept from verdicts alone: wrong guesses since the last right one or
      reset, and since the last right one or power-up. */
  datatype Tally = Tally(sinceClear: nat, sinceBoot: nat)

  function Count(t: Tally, v: Verdict): Tally {
    match v
    case Wrong(_, _) => Tally(t.sinceClear + 1, t.sinceBoot + 1)
    case Right => Tally(0, 0)
    case Wiped => t.(sinceClear := 0)
    case Restarted => t.(sinceBoot := 0)
    case _ => t
  }

  datatype Account = Account(state: PinState, tally: Tally)

  function Next(a: Account, i: Input): Account {
    Account(Step(a.state, i.command, i.rng).state, Count(a.tally, Judge(a.state, i.command)))
  }

  /** The first power-up of a device with blank storage. */
  function FirstBoot(rng: Random): Account {
    Account(Restart(PinState(Blank(rng.salt), None, 0, rng.token, rng.keyAgreement), rng), Tally(0, 0))
  }

  // ----- conservation -----

  predicate Conserved(a: Account) {
    && a.state.ram.remainingTries == PIN_LOCKOUT_ATTEMPTS - a.tally.sinceClear >= 0
    && a.state.bootLeft == PIN_BOOT_ATTEMPTS - a.tally.sinceBoot >= 0
    && a.state.nv == Some(a.state.ram)
  }

  /** A secret is compared only while neither counter is used up. */
  lemma JudgedWhileOpen(s: PinState, c: Command)
    ensures var v := Judge(s, c); v.Wrong? || v == Right ==> !Locked(s) && !BootLocked(s)
    ensures Judge(s, c) == Wiped ==> c.Reset?
    ensures Judge(s, c) == Restarted ==> c == PowerCycle
    ensures Judge(s, c) == FirstPin ==> c.ClientPin? && !s.ram.isPinSet
  {
    hide TagMatches, PinHashMatches, PinLength;
  }

  lemma StepConserves(a: Account, i: Input)
    requires Conserved(a)
    ensures Conserved(Next(a, i))
  {
    hide Judge, StoredHash, PinLength;
    JudgedWhileOpen(a.state, i.command);
  }

  lemma ConservationIsInductive()
    ensures Inductive(Next, Conserved)
  {
    hide Step, Judge, Conserved;
    forall a: Account, i: Input | Conserved(a) ensures Conserved(Next(a, i)) {
      StepConserves(a, i);
    }
  }

  /** In every run from first power-up, `remaining_tries` is 8 minus the wrong guesses since the
      last right one or reset, the boot counter is 3 minus those since the last right one or
      power-up, and storage agrees with RAM after every command: no sequence of power cycles gives
      back a spent try, and no more than 8 wrong guesses, 3 per boot, are ever judged. */
  lemma {:induction false} TriesAreConserved(rng: Random, ins: seq<Input>)
    ensures Conserved(Run(Next, FirstBoot(rng), ins))
  {
    hide Step, Judge, Run;
    ConservationIsInductive();
    Invariant(Next, Conserved, FirstBoot(rng), ins);
  }

  // ----- the permanent lock -----

  /** The commands that a locked device must refuse. */
  predicate NeedsOpenDevice(c: Command) {
    match c
    case MakeCredential(_) => true
    case GetAssertion(_) => true
    case CredMgmt(_, _, _, _, _) => true
    case ClientPin(r) => r.sub in {SetPin, ChangePin, GetPinToken}
    case _ => false
  }

  lemma LockedStep(s: PinState, i: Input)
    requires Locked(s) && s.nv == Some(s.ram) && !i.command.Reset?
    ensures var o := Step(s, i.command, i.rng);
            && o.state.ram == s.ram && o.state.nv == s.nv
            && (NeedsOpenDevice(i.command) ==> o.status == ERR_PIN_BLOCKED)
  {
    hide TagMatches, PinHashMatches, PinLength;
  }

  /** The lock is absorbing: without a reset, no commands and power cycles change anything
      persistent, and every command that needs an open device is refused. */
  lemma {:induction false} LockIsAbsorbing(a: Account, ins: seq<Input>)
    requires Locked(a.state) && a.state.nv == Some(a.state.ram)
    requires forall k :: 0 <= k < |ins| ==> !ins[k].command.Reset?
    ensures var s := Run(Next, a, ins).state; s.ram == a.state.ram && s.nv == a.state.nv
    ensures forall k :: 0 <= k < |ins| && NeedsOpenDevice(ins[k].command) ==>
              Step(Run(Next, a, ins[..k]).state, ins[k].command, ins[k].rng).status == ERR_PIN_BLOCKED
  {
    hide Step, NeedsOpenDevice;
    if ins != [] {
      var n := |ins| - 1;
      LockIsAbsorbing(a, ins[..n]);
      var s := Run(Next, a, ins[..n]).state;
      LockedStep(s, ins[n]);
      forall k | 0 <= k < |ins| && NeedsOpenDevice(ins[k].command)
        ensures Step(Run(Next, a, ins[..k]).state, ins[k].command, ins[k].rng).status == ERR_PIN_BLOCKED
      {
        if k < n {
          assert ins[..n][k] == ins[k] && ins[..n][..k] == ins[..k];
        }
      }
    }
  }

  // ----- the PIN that was set is the PIN that opens -----

  predicate Remembers(s: PinState, pin: Bytes) {
    && s.nv == Some(s.ram)
    && s.ram.isPinSet
    && s.ram.pinCodeHash == StoredHash(pin, s.ram.pinSalt)
  }

  /** A request that sets a PIN and is granted makes the device remember exactly that PIN. */
  lemma GrantedPinIsRemembered(s: PinState, r: ClientPinRequest, rng: Random)
    requires s.nv == Some(s.ram)
    requires r.sub in {SetPin, ChangePin}
    ensures var o := Step(s, ClientPin(r), rng);
            o.status == OK && r.parseStatus == OK ==>
              var pin := r.newPin[..PinLength(r.newPin)];
              NEW_PIN_MIN_SIZE <= |pin| < NEW_PIN_ENC_MIN_SIZE && Remembers(o.state, pin)
  {
    hide TagMatches, PinHashMatches, PinLength, StoredHash;
  }

  /** Nothing but a reset, a granted change or the permanent lock makes it forget. */
  lemma PinIsKept(s: PinState, i: Input, pin: Bytes)
    requires Remembers(s, pin) && !Locked(s)
    ensures var o := Step(s, i.command, i.rng);
            Remembers(o.state, pin) || Locked(o.state) || i.command.Reset?
            || (i.command.ClientPin? && i.command.request.sub == ChangePin && o.status == OK)
  {
    hide TagMatches, PinHashMatches, PinLength, StoredHash;
  }

  /** No reset, and no change of the PIN that is granted. */
  ghost predicate LeavesPin(s: PinState, i: Input) {
    && !i.command.Reset?
    && !(i.command.ClientPin? && i.command.request.sub == ChangePin && Step(s, i.command, i.rng).status == OK)
  }

  /** Over every run of commands and power cycles without those, the PIN is remembered until the
      device is locked for good. */
  lemma {:induction false} PinIsKeptOverRuns(a: Account, ins: seq<Input>, pin: Bytes)
    requires Remembers(a.state, pin)
    requires forall k :: 0 <= k < |ins| ==> LeavesPin(Run(Next, a, ins[..k]).state, ins[k])
    ensures var s := Run(Next, a, ins).state; s.nv == Some(s.ram) && (Remembers(s, pin) || Locked(s))
  {
    hide Step, StoredHash, LeavesPin;
    if ins != [] {
      var n := |ins| - 1;
      assert forall k :: 0 <= k < n ==> ins[..n][k] == ins[k] && ins[..n][..k] == ins[..k];
      PinIsKeptOverRuns(a, ins[..n], pin);
      var s := Run(Next, a, ins[..n]).state;
      KeptOrLocked(s, ins[n], pin);
    }
  }

  lemma KeptOrLocked(s: PinState, i: Input, pin: Bytes)
    requires LeavesPin(s, i) && s.nv == Some(s.ram) && (Remembers(s, pin) || Locked(s))
    ensures var t := Step(s, i.command, i.rng).state; t.nv == Some(t.ram) && (Remembers(t, pin) || Locked(t))
  {
    hide Step, StoredHash;
    if Locked(s) {
      LockedStep(s, i);
    } else {
      PinIsKept(s, i, pin);
      StepSaves(s, i);
    }
  }

  lemma StepSaves(s: PinState, i: Input)
    requires s.nv == Some(s.ram)
    ensures var t := Step(s, i.command, i.rng).state; t.nv == Some(t.ram)
  {
    hide Judge, StoredHash, PinLength;
  }

  /** Hence, unless the device has been locked for good, the PIN that was set still opens it, at the
      latest after a power cycle. */
  lemma PinStillOpens(a: Account, ins: seq<Input>, rng: Random, r: ClientPinRequest, pin: Bytes)
    requires Remembers(a.state, pin)
    requires forall k :: 0 <= k < |ins| ==> LeavesPin(Run(Next, a, ins[..k]).state, ins[k])
    requires r.sub == GetPinToken && r.parseStatus == OK && r.pinProtocol == 1
    requires r.keyAgreementPresent && r.pinHashEncPresent && r.pinHash == Digest(pin)[..16]
    ensures var s := Run(Next, a, ins).state;
            && (!Locked(s) && !BootLocked(s) ==> Step(s, ClientPin(r), rng) == Outcome(Cleared(s), OK))
            && (!Locked(s) ==>
                  var t := Step(s, PowerCycle, rng).state;
                  Step(t, ClientPin(r), rng) == Outcome(Cleared(t), OK))
  {
    hide Step, StoredHash, Cleared, Digest;
    PinIsKeptOverRuns(a, ins, pin);
    var s := Run(Next, a, ins).state;
    if !Locked(s) {
      var t := Step(s, PowerCycle, rng).state;
      PowerCycleUnlocksBoot(s, rng, pin);
      RememberedPinOpens(t, r, rng, pin);
      if !BootLocked(s) { RememberedPinOpens(s, r, rng, pin); }
    }
  }

  lemma PowerCycleUnlocksBoot(s: PinState, rng: Random, pin: Bytes)
    requires Remembers(s, pin) && !Locked(s)
    ensures var t := Step(s, PowerCycle, rng).state; Remembers(t, pin) && !Locked(t) && !BootLocked(t)
  {
    hide StoredHash;
  }

  /** While the device is open, the hash of the remembered PIN obtains the token, clearing both
      counters, and a hash that does not match is charged. */
  lemma RememberedPinOpens(s: PinState, r: ClientPinRequest, rng: Random, pin: Bytes)
    requires Remembers(s, pin) && !Locked(s) && !BootLocked(s)
    requires r.sub == GetPinToken && r.parseStatus == OK && r.pinProtocol == 1
    requires r.keyAgreementPresent && r.pinHashEncPresent
    ensures r.pinHash == Digest(pin)[..16] ==> Step(s, ClientPin(r), rng) == Outcome(Cleared(s), OK)
    ensures Digest(r.pinHash + s.ram.pinSalt)[..16] != StoredHash(pin, s.ram.pinSalt)[..16] ==>
              var o := Step(s, ClientPin(r), rng);
              o.status in {ERR_PIN_INVALID, ERR_PIN_AUTH_BLOCKED}
              && o.state.ram.remainingTries == s.ram.remainingTries - 1
              && o.state.bootLeft == s.bootLeft - 1
  {
    hide Digest;
  }
}
