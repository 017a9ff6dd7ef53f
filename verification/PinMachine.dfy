/** The PIN retry and lockout machine of `ctap.c` (CTAP 2.0 section 5.5) as a state machine over
    commands and power cycles. `PinAuthority.Authority` is the code that implements it in place;
    `PinRetries` proves what runs of it guarantee. */
module PinMachine {
  import opened Wrappers
  import opened CtapErrors
  import opened Octets
  import opened Sha256Spec
  import opened Hmac

  const PIN_LOCKOUT_ATTEMPTS := 8
  const PIN_BOOT_ATTEMPTS := 3
  const NEW_PIN_ENC_MIN_SIZE := 64
  const NEW_PIN_MIN_SIZE := 4
  const PIN_TOKEN_SIZE := 16

  type Token = t: Bytes | |t| == PIN_TOKEN_SIZE witness Zeros(PIN_TOKEN_SIZE)

  /** The part of `AuthenticatorState` that PIN handling reads and writes. */
  datatype Persistent = Persistent(isPinSet: bool, pinCodeHash: Hash, pinSalt: Hash, remainingTries: int)

  /** `STATE`, its non-volatile copy, and the PIN globals that a power cycle loses. */
  datatype PinState = PinState(
    ram: Persistent,
    nv: Option<Persistent>,
    bootLeft: int,
    pinToken: Token,
    keyAgreement: Hash)

  predicate Locked(s: PinState) { s.ram.remainingTries <= 0 }

  predicate BootLocked(s: PinState) { s.bootLeft <= 0 }

  datatype SubCommand = GetRetries | GetKeyAgreement | SetPin | ChangePin | GetPinToken | Unknown | Missing

  /** A parsed clientPIN request, with what ECDH and AES make of it: `sharedSecret` is the hashed
      shared point, `newPin` and `pinHash` are the decryptions of `newPinEnc` and `pinHashEnc`. */
  datatype ClientPinRequest = ClientPinRequest(
    parseStatus: u8,
    pinProtocol: int,
    sub: SubCommand,
    keyAgreementPresent: bool,
    pinAuthPresent: bool,
    pinAuth: Token,
    newPinEnc: Bytes,
    pinHashEncPresent: bool,
    pinHashEnc: Token,
    sharedSecret: Hash,
    newPin: NewPin,
    pinHash: Token)

  type NewPin = p: Bytes | |p| >= NEW_PIN_ENC_MIN_SIZE witness Zeros(NEW_PIN_ENC_MIN_SIZE)

  /** Fresh random bytes: every command may draw them. */
  datatype Random = Random(salt: Hash, token: Token, keyAgreement: Hash)

  /** `body` is the status of the part of a command that does not touch the PIN state. */
  datatype Command =
    | MakeCredential(body: u8)
    | GetAssertion(body: u8)
    | CredMgmt(parseStatus: u8, needsAuth: bool, pinAuth: Token, hashed: Bytes, body: u8)
    | ClientPin(request: ClientPinRequest)
    | Reset(presence: u8)
    | Ungated(body: u8)
    | PowerCycle

  // ----- comparisons -----

  /** The hash a PIN is remembered by. */
  function StoredHash(pin: Bytes, salt: Hash): Hash {
    Digest(Digest(pin)[..16] + salt)
  }

  /** Does the platform's PIN hash match the stored one? 16 bytes are compared. */
  predicate PinHashMatches(p: Persistent, pinHash: Token) {
    Digest(pinHash + p.pinSalt)[..16] == p.pinCodeHash[..16]
  }

  predicate TagMatches(key: Bytes, text: Bytes, tag: Token)
    requires |key| <= BLOCK_SIZE
  {
    Hmac.Hmac(key, text)[..16] == tag
  }

  /** Length of a zero-padded PIN: up to its last nonzero byte among the first `n`; the first byte
      always counts. */
  function PinLength(pin: Bytes, n: nat := NEW_PIN_ENC_MIN_SIZE): (len: nat)
    requires 1 <= n <= |pin|
    ensures 1 <= len <= n
    ensures forall i :: len <= i < n ==> pin[i] == 0
    ensures len > 1 ==> pin[len - 1] != 0
  {
    if n == 1 || pin[n - 1] != 0 then n else PinLength(pin, n - 1)
  }

  // ----- what a command amounts to -----

  /** `Refused` changes nothing; `Wrong` and `Right` are comparisons with a secret that failed and
      succeeded, `Wrong` with the status it has unless the last boot attempt is used up. */
  datatype Verdict =
    | Refused(status: u8)
    | Wrong(status: u8, rekey: bool)
    | Right
    | FirstPin
    | Wiped
    | Restarted

  function LockStatus(s: PinState): u8 {
    if Locked(s) then ERR_PIN_BLOCKED else if BootLocked(s) then ERR_PIN_AUTH_BLOCKED else OK
  }

  function JudgeUpdatePin(s: PinState, r: ClientPinRequest, withHash: bool): Verdict {
    if |r.newPinEnc| < NEW_PIN_ENC_MIN_SIZE then Refused(ERR_OTHER)
    else if s.ram.isPinSet && LockStatus(s) != OK then Refused(LockStatus(s))
    else if !TagMatches(r.sharedSecret, r.newPinEnc + if withHash then r.pinHashEnc else [], r.pinAuth)
    then Refused(ERR_PIN_AUTH_INVALID)
    else if PinLength(r.newPin) < NEW_PIN_MIN_SIZE || PinLength(r.newPin) >= NEW_PIN_ENC_MIN_SIZE
    then Refused(ERR_PIN_POLICY_VIOLATION)
    else if !s.ram.isPinSet then FirstPin
    else if PinHashMatches(s.ram, r.pinHash) then Right
    else Wrong(ERR_PIN_INVALID, true)
  }

  function JudgeClientPin(s: PinState, r: ClientPinRequest): Verdict {
    if r.sub in {SetPin, ChangePin, GetPinToken} && LockStatus(s) != OK then Refused(LockStatus(s))
    else if r.parseStatus != OK then Refused(r.parseStatus)
    else if r.pinProtocol != 1 || r.sub == Missing then Refused(ERR_OTHER)
    else match r.sub
      case GetRetries => Refused(OK)
      case GetKeyAgreement => Refused(OK)
      case SetPin =>
        if s.ram.isPinSet then Refused(ERR_NOT_ALLOWED)
        else if r.newPinEnc == [] || !r.pinAuthPresent || !r.keyAgreementPresent then Refused(ERR_MISSING_PARAMETER)
        else JudgeUpdatePin(s, r, false)
      case ChangePin =>
        if !s.ram.isPinSet then Refused(ERR_PIN_NOT_SET)
        else if r.newPinEnc == [] || !r.pinAuthPresent || !r.keyAgreementPresent || !r.pinHashEncPresent
        then Refused(ERR_MISSING_PARAMETER)
        else JudgeUpdatePin(s, r, true)
      case GetPinToken =>
        if !s.ram.isPinSet then Refused(ERR_PIN_NOT_SET)
        else if !r.keyAgreementPresent || !r.pinHashEncPresent then Refused(ERR_MISSING_PARAMETER)
        else if PinHashMatches(s.ram, r.pinHash) then Right
        else Wrong(ERR_PIN_INVALID, true)
      case _ => Refused(ERR_OTHER)
  }

  function Judge(s: PinState, c: Command): Verdict {
    match c
    case MakeCredential(body) => Refused(if LockStatus(s) != OK then LockStatus(s) else body)
    case GetAssertion(body) => Refused(if LockStatus(s) != OK then LockStatus(s) else body)
    case CredMgmt(parseStatus, needsAuth, pinAuth, hashed, body) =>
      if LockStatus(s) != OK then Refused(LockStatus(s))
      else if parseStatus != OK then Refused(parseStatus)
      else if !needsAuth then Refused(body)
      else if TagMatches(s.pinToken, hashed, pinAuth) then Right
      else Wrong(ERR_PIN_AUTH_INVALID, false)
    case ClientPin(r) => JudgeClientPin(s, r)
    case Reset(presence) => if presence == OK then Wiped else Refused(presence)
    case Ungated(body) => Refused(body)
    case PowerCycle => Restarted
  }

  // ----- what a verdict does -----

  function Saved(s: PinState, p: Persistent): PinState {
    s.(ram := p, nv := Some(p))
  }

  /** One wrong guess: both counters go down, as far as they can; the last try also destroys the PIN
      and the token. */
  function Charged(s: PinState): PinState {
    var tries := s.ram.remainingTries - 1;
    var s1 := s.(bootLeft := if s.bootLeft > 0 then s.bootLeft - 1 else s.bootLeft);
    if Locked(s) then s1
    else if tries <= 0
    then Saved(s1.(pinToken := Zeros(PIN_TOKEN_SIZE)),
               s.ram.(remainingTries := tries, pinCodeHash := Zeros(DIGEST_SIZE)))
    else Saved(s1, s.ram.(remainingTries := tries))
  }

  function Cleared(s: PinState): PinState {
    Saved(s.(bootLeft := PIN_BOOT_ATTEMPTS), s.ram.(remainingTries := PIN_LOCKOUT_ATTEMPTS))
  }

  function Blank(salt: Hash): Persistent {
    Persistent(false, seq(DIGEST_SIZE, _ => 0xff), salt, PIN_LOCKOUT_ATTEMPTS)
  }

  function WithPin(s: PinState, newPin: NewPin): PinState {
    Saved(s, s.ram.(pinCodeHash := StoredHash(newPin[..PinLength(newPin)], s.ram.pinSalt), isPinSet := true))
  }

  /** A CTAP reset gives new persistent state but leaves the boot counter alone. */
  function Wipe(s: PinState, rng: Random): PinState {
    Saved(s, Blank(rng.salt)).(pinToken := rng.token, keyAgreement := rng.keyAgreement)
  }

  /** Power-up: what is not in non-volatile storage starts afresh. */
  function Restart(s: PinState, rng: Random): PinState {
    var p := if s.nv.Some? then s.nv.value else Blank(rng.salt);
    PinState(p, Some(p), PIN_BOOT_ATTEMPTS, rng.token, rng.keyAgreement)
  }

  datatype Outcome = Outcome(state: PinState, status: u8)

  function Apply(s: PinState, c: Command, v: Verdict, rng: Random): Outcome
    requires v == Judge(s, c)
  {
    match v
    case Refused(status) => Outcome(s, status)
    case Wrong(status, rekey) =>
      var s1 := Charged(if rekey then s.(keyAgreement := rng.keyAgreement) else s);
      Outcome(s1, if BootLocked(s1) then ERR_PIN_AUTH_BLOCKED else status)
    case Right =>
      var s1 := Cleared(s);
      if c.ClientPin? && c.request.sub == ChangePin then Outcome(WithPin(s1, c.request.newPin), OK)
      else Outcome(s1, if c.CredMgmt? then c.body else OK)
    case FirstPin => Outcome(WithPin(s, c.request.newPin), OK)
    case Wiped => Outcome(Wipe(s, rng), OK)
    case Restarted => Outcome(Restart(s, rng), OK)
  }

  function Step(s: PinState, c: Command, rng: Random): Outcome {
    Apply(s, c, Judge(s, c), rng)
  }
}
