/** The PIN functions of `ctap.c` over the globals they update: `STATE`, its non-volatile copy,
    `PIN_BOOT_ATTEMPTS_LEFT`, `PIN_TOKEN` and the key-agreement key. The command methods are
    proved to take the steps of `PinMachine`. */
module PinAuthority {
  import opened Wrappers
  import opened CtapErrors
  import opened Octets
  import opened Sha256Spec
  import opened Hmac
  import opened PinMachine

  class Authority {
    var isPinSet: bool
    var pinCodeHash: Hash
    var pinSalt: Hash
    var remainingTries: int
    var stored: Option<Persistent>
    var bootAttemptsLeft: int
    var pinToken: Token
    var keyAgreement: Hash

    ghost function State(): PinState
      reads this
    {
      PinState(Persistent(isPinSet, pinCodeHash, pinSalt, remainingTries),
        stored, bootAttemptsLeft, pinToken, keyAgreement)
    }

    /** Power-up with the given content of non-volatile storage. */
    constructor (nv: Option<Persistent>, rng: Random)
      ensures State() == Restart(PinState(Blank(rng.salt), nv, 0, rng.token, rng.keyAgreement), rng)
    {
      var p := if nv.Some? then nv.value else Blank(rng.salt);
      isPinSet, pinCodeHash, pinSalt, remainingTries := p.isPinSet, p.pinCodeHash, p.pinSalt, p.remainingTries;
      stored := Some(p);
      bootAttemptsLeft := PIN_BOOT_ATTEMPTS;
      pinToken, keyAgreement := rng.token, rng.keyAgreement;
    }

    // ----- state -----

    method WriteState()
      modifies this`stored
      ensures stored == Some(State().ram)
    {
      stored := Some(Persistent(isPinSet, pinCodeHash, pinSalt, remainingTries));
    }

    /** `ctap_state_init`. */
    method StateInit(rng: Random)
      modifies this`isPinSet, this`pinCodeHash, this`pinSalt, this`remainingTries
      ensures State().ram == Blank(rng.salt)
    {
      pinCodeHash, pinSalt := seq(DIGEST_SIZE, _ => 0xff), seq(DIGEST_SIZE, _ => 0xff);
      remainingTries := PIN_LOCKOUT_ATTEMPTS;
      isPinSet := false;
      pinSalt := rng.salt;
    }

    /** A power cycle: globals get their initial values, then `ctap_init` runs. */
    method PowerUp(rng: Random)
      modifies this
      ensures State() == Restart(old(State()), rng)
    {
      bootAttemptsLeft := PIN_BOOT_ATTEMPTS;
      match stored {
        case Some(p) =>
          isPinSet, pinCodeHash, pinSalt, remainingTries := p.isPinSet, p.pinCodeHash, p.pinSalt, p.remainingTries;
        case None =>
          StateInit(rng);
          WriteState();
      }
      pinToken := rng.token;
      keyAgreement := rng.keyAgreement;
    }

    /** `ctap_reset`. */
    method CtapReset(rng: Random)
      modifies this
      ensures State() == Wipe(old(State()), rng)
    {
      StateInit(rng);
      WriteState();
      pinToken := rng.token;
      keyAgreement := rng.keyAgreement;
    }

    // ----- counters -----

    method DeviceLocked() returns (locked: bool)
      ensures locked == Locked(State())
    {
      locked := remainingTries <= 0;
    }

    method DeviceBootLocked() returns (locked: bool)
      ensures locked == BootLocked(State())
    {
      locked := bootAttemptsLeft <= 0;
    }

    method LockDevicePermanently()
      modifies this`pinToken, this`pinCodeHash, this`stored
      ensures pinToken == Zeros(PIN_TOKEN_SIZE) && pinCodeHash == Zeros(DIGEST_SIZE)
      ensures stored == Some(State().ram)
    {
      pinToken := Zeros(PIN_TOKEN_SIZE);
      pinCodeHash := Zeros(DIGEST_SIZE);
      WriteState();
    }

    /** `ctap_decrement_pin_attempts`; it fails on a locked device. */
    method DecrementPinAttempts() returns (ok: bool)
      modifies this
      ensures State() == Charged(old(State())) && ok == !old(Locked(State()))
    {
      if bootAttemptsLeft > 0 {
        bootAttemptsLeft := bootAttemptsLeft - 1;
      }
      var locked := DeviceLocked();
      if locked { return false; }
      remainingTries := remainingTries - 1;
      WriteState();
      locked := DeviceLocked();
      if locked {
        LockDevicePermanently();
      }
      return true;
    }

    method ResetPinAttempts()
      modifies this`remainingTries, this`bootAttemptsLeft, this`stored
      ensures State() == Cleared(old(State()))
    {
      remainingTries := PIN_LOCKOUT_ATTEMPTS;
      bootAttemptsLeft := PIN_BOOT_ATTEMPTS;
      WriteState();
    }

    // ----- PIN and token -----

    /** The length computation of `ctap_update_pin_if_verified` over `trailing_zeros`. */
    method NewPinLength(pin: NewPin) returns (len: nat)
      ensures len == PinLength(pin)
    {
      var c, i := 0, NEW_PIN_ENC_MIN_SIZE - 1;
      while pin[i] == 0 && i > 0
        invariant 0 <= i < NEW_PIN_ENC_MIN_SIZE && c == NEW_PIN_ENC_MIN_SIZE - 1 - i
        invariant PinLength(pin) == PinLength(pin, i + 1)
        decreases i
      {
        i := i - 1;
        c := c + 1;
      }
      len := NEW_PIN_ENC_MIN_SIZE - c;
    }

    /** `ctap_update_pin`; the caller has checked the length. */
    method UpdatePin(pin: NewPin, len: nat)
      requires len == PinLength(pin) && NEW_PIN_MIN_SIZE <= len < NEW_PIN_ENC_MIN_SIZE
      modifies this`pinCodeHash, this`isPinSet, this`stored
      ensures State() == WithPin(old(State()), pin)
    {
      var intermediate := Digest(pin[..len]);
      pinCodeHash := Digest(intermediate[..16] + pinSalt);
      isPinSet := true;
      WriteState();
    }

    /** A PIN comparison failed: new key agreement, and the guess is charged. */
    method WrongPin(rng: Random) returns (status: u8)
      requires !Locked(State()) && !BootLocked(State())
      modifies this
      ensures State() == Charged(old(State()).(keyAgreement := rng.keyAgreement))
      ensures status == if BootLocked(State()) then ERR_PIN_AUTH_BLOCKED else ERR_PIN_INVALID
    {
      keyAgreement := rng.keyAgreement;
      var _ := DecrementPinAttempts();
      var locked := DeviceBootLocked();
      status := if locked then ERR_PIN_AUTH_BLOCKED else ERR_PIN_INVALID;
    }

    /** `ctap_update_pin_if_verified`. */
    method UpdatePinIfVerified(r: ClientPinRequest, withHash: bool, rng: Random) returns (status: u8)
      requires r.sub == if withHash then ChangePin else SetPin
      requires isPinSet == withHash
      requires r.parseStatus == OK && r.pinProtocol == 1 && r.newPinEnc != []
      requires r.pinAuthPresent && r.keyAgreementPresent && (withHash ==> r.pinHashEncPresent)
      requires LockStatus(State()) == OK
      modifies this
      ensures Outcome(State(), status) == Step(old(State()), ClientPin(r), rng)
    {
      hide Hmac.Hmac, Digest, PinLength, StoredHash;
      if |r.newPinEnc| < NEW_PIN_ENC_MIN_SIZE { return ERR_OTHER; }
      if isPinSet {
        var locked := DeviceLocked();
        if locked { return ERR_PIN_BLOCKED; }
        locked := DeviceBootLocked();
        if locked { return ERR_PIN_AUTH_BLOCKED; }
      }
      var tag := Hmac.Hmac(r.sharedSecret, r.newPinEnc + if withHash then r.pinHashEnc else []);
      if tag[..16] != r.pinAuth { return ERR_PIN_AUTH_INVALID; }
      var len := NewPinLength(r.newPin);
      if len < NEW_PIN_MIN_SIZE || len >= NEW_PIN_ENC_MIN_SIZE { return ERR_PIN_POLICY_VIOLATION; }
      if isPinSet {
        if Digest(r.pinHash + pinSalt)[..16] != pinCodeHash[..16] {
          status := WrongPin(rng);
          return;
        }
        ResetPinAttempts();
      }
      UpdatePin(r.newPin, len);
      return OK;
    }

    /** `ctap_add_pin_if_verified`; on success the token goes out encrypted. */
    method AddPinIfVerified(r: ClientPinRequest, rng: Random) returns (status: u8, released: Option<Token>)
      requires !Locked(State()) && !BootLocked(State())
      modifies this
      ensures if PinHashMatches(old(State()).ram, r.pinHash)
              then State() == Cleared(old(State())) && status == OK && released == Some(old(pinToken))
              else && State() == Charged(old(State()).(keyAgreement := rng.keyAgreement))
                   && status == (if BootLocked(State()) then ERR_PIN_AUTH_BLOCKED else ERR_PIN_INVALID)
                   && released == None
    {
      if Digest(r.pinHash + pinSalt)[..16] != pinCodeHash[..16] {
        status := WrongPin(rng);
        return status, None;
      }
      ResetPinAttempts();
      return OK, Some(pinToken);
    }

    /** `ctap_client_pin`. */
    method HandleClientPin(r: ClientPinRequest, rng: Random) returns (status: u8, released: Option<Token>)
      modifies this
      ensures Outcome(State(), status) == Step(old(State()), ClientPin(r), rng)
      ensures released.Some? ==> released == Some(old(pinToken)) && r.sub == GetPinToken
                                 && Judge(old(State()), ClientPin(r)) == Right
    {
      hide TagMatches, PinHashMatches, PinLength, StoredHash;
      released := None;
      match r.sub {
        case SetPin | ChangePin | GetPinToken =>
          var locked := DeviceLocked();
          if locked { return ERR_PIN_BLOCKED, None; }
          locked := DeviceBootLocked();
          if locked { return ERR_PIN_AUTH_BLOCKED, None; }
        case _ =>
      }
      if r.parseStatus != OK { return r.parseStatus, None; }
      if r.pinProtocol != 1 || r.sub == Missing { return ERR_OTHER, None; }
      match r.sub {
        case GetRetries => status := OK;
        case GetKeyAgreement => status := OK;
        case SetPin =>
          if isPinSet { return ERR_NOT_ALLOWED, None; }
          if r.newPinEnc == [] || !r.pinAuthPresent || !r.keyAgreementPresent { return ERR_MISSING_PARAMETER, None; }
          status := UpdatePinIfVerified(r, false, rng);
        case ChangePin =>
          if !isPinSet { return ERR_PIN_NOT_SET, None; }
          if r.newPinEnc == [] || !r.pinAuthPresent || !r.keyAgreementPresent || !r.pinHashEncPresent {
            return ERR_MISSING_PARAMETER, None;
          }
          status := UpdatePinIfVerified(r, true, rng);
        case GetPinToken =>
          if !isPinSet { return ERR_PIN_NOT_SET, None; }
          if !r.keyAgreementPresent || !r.pinHashEncPresent { return ERR_MISSING_PARAMETER, None; }
          status, released := AddPinIfVerified(r, rng);
        case _ => status := ERR_OTHER;
      }
    }

    /** `ctap_cred_mgmt_pinauth` for the sub-commands that need it. */
    method CredMgmtPinAuth(pinAuth: Token, hashed: Bytes) returns (status: u8)
      requires !Locked(State()) && !BootLocked(State())
      modifies this
      ensures if TagMatches(old(pinToken), hashed, pinAuth)
              then State() == Cleared(old(State())) && status == OK
              else && State() == Charged(old(State()))
                   && status == if BootLocked(State()) then ERR_PIN_AUTH_BLOCKED else ERR_PIN_AUTH_INVALID
    {
      var tag := Hmac.Hmac(pinToken, hashed);
      if tag[..16] != pinAuth {
        var _ := DecrementPinAttempts();
        var locked := DeviceBootLocked();
        return if locked then ERR_PIN_AUTH_BLOCKED else ERR_PIN_AUTH_INVALID;
      }
      ResetPinAttempts();
      return OK;
    }

    /** `ctap_request`, with the parts of the commands that do not touch this state as given. */
    method Request(c: Command, rng: Random) returns (status: u8)
      modifies this
      ensures Outcome(State(), status) == Step(old(State()), c, rng)
    {
      hide TagMatches, JudgeClientPin, WithPin;
      match c {
        case MakeCredential(_) | GetAssertion(_) | CredMgmt(_, _, _, _, _) =>
          var locked := DeviceLocked();
          if locked { return ERR_PIN_BLOCKED; }
          locked := DeviceBootLocked();
          if locked { return ERR_PIN_AUTH_BLOCKED; }
        case _ =>
      }
      match c {
        case MakeCredential(body) => status := body;
        case GetAssertion(body) => status := body;
        case CredMgmt(parseStatus, needsAuth, pinAuth, hashed, body) =>
          if parseStatus != OK { return parseStatus; }
          if needsAuth {
            status := CredMgmtPinAuth(pinAuth, hashed);
            if status != OK { return; }
          }
          status := body;
        case ClientPin(r) =>
          var released;
          status, released := HandleClientPin(r, rng);
        case Reset(presence) =>
          status := presence;
          if presence == OK { CtapReset(rng); }
        case Ungated(body) => status := body;
        case PowerCycle =>
          PowerUp(rng);
          status := OK;
      }
    }
  }
}
