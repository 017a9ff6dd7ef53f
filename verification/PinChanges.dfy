/** When a PIN is set or changed, a token given out or a guess charged, in terms of the request,
    the hashes and the counters; and what resets, power cycles and the last try do. */
module PinChanges {
  import opened CtapErrors
  import opened Wrappers
  import opened Octets
  import opened Sha256Spec
  import Hmac
  import opened PinMachine
  import opened PinRetries
  import opened Runs

  /** Tries are left, over all and since power-up. */
  predicate Open(s: PinState) {
    s.ram.remainingTries > 0 && s.bootLeft > 0
  }

  /** The platform knows the shared secret: it sent the first 16 bytes of the HMAC. */
  predicate TagIsRight(r: ClientPinRequest, text: Bytes) {
    Hmac.Hmac(r.sharedSecret, text)[..16] == r.pinAuth
  }

  /** The platform knows the current PIN: the salted hash agrees in 16 bytes. */
  predicate KnowsPin(s: PinState, r: ClientPinRequest) {
    Digest(r.pinHash + s.ram.pinSalt)[..16] == s.ram.pinCodeHash[..16]
  }

  predicate GoodNewPin(r: ClientPinRequest) {
    |r.newPinEnc| >= 64 && 4 <= PinLength(r.newPin) < 64
  }

  /** A parsed request of the only protocol, with the parameters its sub-command needs. */
  predicate Complete(r: ClientPinRequest) {
    && r.parseStatus == OK && r.pinProtocol == 1 && r.keyAgreementPresent
    && (r.sub == SetPin ==> r.pinAuthPresent)
    && (r.sub == ChangePin ==> r.pinAuthPresent && r.pinHashEncPresent)
    && (r.sub == GetPinToken ==> r.pinHashEncPresent)
  }

  // ----- exact conditions -----

  /** A first PIN is set exactly on a device without one, for a complete request with the right tag
      and a PIN of 4 to 63 bytes. */
  lemma SetPinIsExact(s: PinState, r: ClientPinRequest, rng: Random)
    requires r.sub == SetPin
    ensures var o := Step(s, ClientPin(r), rng);
            && (o.status == OK <==>
                  Open(s) && Complete(r) && !s.ram.isPinSet && GoodNewPin(r) && TagIsRight(r, r.newPinEnc))
            && (o.status != OK ==> o.state == s)
  {
    hide Hmac.Hmac, PinLength, StoredHash;
    assert r.newPinEnc + [] == r.newPinEnc;
  }

  /** A PIN is changed exactly on a device that has one, for a complete request with the right tag, a
      PIN of 4 to 63 bytes, and the hash of the current PIN. */
  lemma ChangePinIsExact(s: PinState, r: ClientPinRequest, rng: Random)
    requires r.sub == ChangePin
    ensures Step(s, ClientPin(r), rng).status == OK <==>
              Open(s) && Complete(r) && s.ram.isPinSet && GoodNewPin(r)
              && TagIsRight(r, r.newPinEnc + r.pinHashEnc) && KnowsPin(s, r)
  {
    hide Hmac.Hmac, PinLength, StoredHash, Digest;
  }

  /** A token is given out exactly to a complete request with the hash of the current PIN. */
  lemma GetPinTokenIsExact(s: PinState, r: ClientPinRequest, rng: Random)
    requires r.sub == GetPinToken
    ensures Step(s, ClientPin(r), rng).status == OK <==> Open(s) && Complete(r) && s.ram.isPinSet && KnowsPin(s, r)
  {
    hide Hmac.Hmac, PinLength, StoredHash, Digest;
  }

  /** The hash of the current PIN refills and saves both counters; a first PIN leaves them as they
      are. */
  lemma GrantsRefill(s: PinState, r: ClientPinRequest, rng: Random)
    requires r.sub in {SetPin, ChangePin, GetPinToken}
    ensures var o := Step(s, ClientPin(r), rng);
            o.status == OK ==>
              && o.state.nv == Some(o.state.ram) && o.state.ram.isPinSet && o.state.ram.pinSalt == s.ram.pinSalt
              && o.state.pinToken == s.pinToken && o.state.keyAgreement == s.keyAgreement
              && (if r.sub == SetPin
                  then o.state.ram.remainingTries == s.ram.remainingTries && o.state.bootLeft == s.bootLeft
                  else o.state.ram.remainingTries == 8 && o.state.bootLeft == 3)
              && (r.sub == GetPinToken ==> o.state.ram.pinCodeHash == s.ram.pinCodeHash)
  {
    hide Hmac.Hmac, PinLength, StoredHash, Digest;
    if r.sub == ChangePin { ChangePinIsExact(s, r, rng); }
    if r.sub == GetPinToken { GetPinTokenIsExact(s, r, rng); }
    if r.sub == SetPin { SetPinIsExact(s, r, rng); }
  }

  /** A wrong tag changes nothing: no PIN is set and no try is spent. */
  lemma WrongTagChangesNothing(s: PinState, r: ClientPinRequest, rng: Random)
    requires r.sub == SetPin || r.sub == ChangePin
    requires !TagIsRight(r, r.newPinEnc + if r.sub == ChangePin then r.pinHashEnc else [])
    ensures var o := Step(s, ClientPin(r), rng); o.state == s && o.status != OK
  {
    hide Hmac.Hmac, PinLength, StoredHash, Digest;
  }

  /** What one wrong guess costs: a try of each counter, saved at once; the last one also destroys the
      PIN and the token. */
  ghost predicate CostsOneTry(s: PinState, t: PinState) {
    && t.ram.remainingTries == s.ram.remainingTries - 1 && t.bootLeft == s.bootLeft - 1
    && t.nv == Some(t.ram) && t.ram.isPinSet == s.ram.isPinSet && t.ram.pinSalt == s.ram.pinSalt
    && (if t.ram.remainingTries == 0
        then t.ram.pinCodeHash == Zeros(32) && t.pinToken == Zeros(16)
        else t.ram.pinCodeHash == s.ram.pinCodeHash && t.pinToken == s.pinToken)
  }

  /** With the hash of a wrong PIN neither a change nor a token is granted, and the PIN is not
      replaced. A request that is otherwise right costs one try and the agreed key; any other changes
      nothing. */
  lemma WrongPinIsCharged(s: PinState, r: ClientPinRequest, rng: Random)
    requires r.sub == ChangePin || r.sub == GetPinToken
    requires !KnowsPin(s, r)
    ensures var o := Step(s, ClientPin(r), rng);
            && o.status != OK
            && (if Open(s) && Complete(r) && s.ram.isPinSet
                   && (r.sub == ChangePin ==> GoodNewPin(r) && TagIsRight(r, r.newPinEnc + r.pinHashEnc))
                then CostsOneTry(s, o.state) && o.state.keyAgreement == rng.keyAgreement
                     && o.status == if o.state.bootLeft == 0 then ERR_PIN_AUTH_BLOCKED else ERR_PIN_INVALID
                else o.state == s)
  {
    hide Hmac.Hmac, PinLength, StoredHash, Digest;
  }

  /** Credential management past the locks: the right tag under the token refills the counters and
      lets the command go on, a wrong one costs a try. */
  lemma ManagementIsCharged(s: PinState, pinAuth: Token, hashed: Bytes, body: u8, rng: Random)
    requires Open(s)
    ensures var o := Step(s, CredMgmt(OK, true, pinAuth, hashed, body), rng);
            if Hmac.Hmac(s.pinToken, hashed)[..16] == pinAuth
            then && o.status == body && o.state.ram.remainingTries == 8 && o.state.bootLeft == 3
                 && o.state.ram.pinCodeHash == s.ram.pinCodeHash && o.state.nv == Some(o.state.ram)
            else && CostsOneTry(s, o.state)
                 && o.status == if o.state.bootLeft == 0 then ERR_PIN_AUTH_BLOCKED else ERR_PIN_AUTH_INVALID
  {
    hide Hmac.Hmac, StoredHash, Digest;
  }

  /** Every other command leaves PIN, tries, token and agreed key alone. */
  lemma OthersChangeNothing(s: PinState, c: Command, rng: Random)
    requires c.MakeCredential? || c.GetAssertion? || c.Ungated? || (c.Reset? && c.presence != OK)
             || (c.CredMgmt? && (c.parseStatus != OK || !c.needsAuth))
             || (c.ClientPin? && c.request.sub !in {SetPin, ChangePin, GetPinToken})
    ensures Step(s, c, rng).state == s
  {
  }

  // ----- resets, power cycles, locks -----

  /** No PIN, all tries, and this salt. */
  predicate BlankWith(p: Persistent, salt: Hash) {
    !p.isPinSet && p.remainingTries == 8 && p.pinSalt == salt && forall i :: 0 <= i < 32 ==> p.pinCodeHash[i] == 0xff
  }

  /** A reset forgets the PIN, draws a new salt and refills the tries, but not the boot counter; a
      power cycle brings back what was stored, or starts blank, and refills the boot counter. */
  lemma ResetAndPowerCycle(s: PinState, rng: Random)
    ensures var o := Step(s, Reset(OK), rng).state;
            && BlankWith(o.ram, rng.salt) && o.nv == Some(o.ram)
            && o.bootLeft == s.bootLeft && o.pinToken == rng.token && o.keyAgreement == rng.keyAgreement
    ensures var o := Step(s, PowerCycle, rng).state;
            && (if s.nv.Some? then o.ram == s.nv.value else BlankWith(o.ram, rng.salt)) && o.nv == Some(o.ram)
            && o.bootLeft == 3 && o.pinToken == rng.token && o.keyAgreement == rng.keyAgreement
  {
    hide StoredHash;
  }

  lemma BootLockedStep(s: PinState, i: Input)
    requires s.bootLeft <= 0 && i.command != PowerCycle
    ensures var o := Step(s, i.command, i.rng);
            && o.state.bootLeft == s.bootLeft
            && (NeedsOpenDevice(i.command) ==>
                  o.status == (if s.ram.remainingTries <= 0 then ERR_PIN_BLOCKED else ERR_PIN_AUTH_BLOCKED)
                  && o.state == s)
  {
    hide TagMatches, PinHashMatches, PinLength, StoredHash;
  }

  /** Once the three attempts since power-up are used up, every command that needs an open device is
      refused and changes nothing until a power cycle, whatever comes in between. */
  lemma {:induction false} BootLockHolds(a: Account, ins: seq<Input>, k: nat)
    requires a.state.bootLeft <= 0 && k < |ins|
    requires forall j :: 0 <= j < |ins| ==> ins[j].command != PowerCycle
    ensures var s := Run(Next, a, ins[..k]).state;
            && s.bootLeft == a.state.bootLeft
            && (NeedsOpenDevice(ins[k].command) ==>
                  var o := Step(s, ins[k].command, ins[k].rng);
                  o.status == (if s.ram.remainingTries <= 0 then ERR_PIN_BLOCKED else ERR_PIN_AUTH_BLOCKED)
                  && o.state == s)
  {
    hide Step, NeedsOpenDevice;
    if k > 0 {
      BootLockHolds(a, ins, k - 1);
      RunStep(Next, a, ins, k - 1);
      BootLockedStep(Run(Next, a, ins[..k - 1]).state, ins[k - 1]);
    } else {
      assert ins[..0] == [];
    }
    BootLockedStep(Run(Next, a, ins[..k]).state, ins[k]);
  }
}
