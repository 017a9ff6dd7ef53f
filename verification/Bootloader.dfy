/** The firmware-update bootloader over 128 flash pages: what each request does to the flash. Flash
    addresses are offsets from 0x08000000, the memory layout is that of the 128-page part. */
module Bootloader {
  import opened CtapErrors
  import opened Octets
  import opened Sha256Spec

  const PAGE_SIZE := 2048
  const PAGES := 128
  const FLASH_SIZE := PAGE_SIZE * PAGES
  const APPLICATION_START_PAGE := 10
  const APPLICATION_END_PAGE := 108
  const APPLICATION_START := APPLICATION_START_PAGE * PAGE_SIZE
  /** The application ends 8 bytes before its last page does: there the two flag words are. */
  const APPLICATION_END := APPLICATION_END_PAGE * PAGE_SIZE - 8
  const AUTH_WORD := APPLICATION_END
  const DISABLED_WORD := AUTH_WORD + 4
  const LAST_PAGE := APPLICATION_END_PAGE - 1
  const BOOT_VERSION_PAGE := APPLICATION_END_PAGE
  const BOOT_VERSION := BOOT_VERSION_PAGE * PAGE_SIZE + 8

  type Flash = f: Bytes | |f| == FLASH_SIZE witness Zeros(FLASH_SIZE)

  /** `f` with `data` at `at`. */
  function Put(f: Flash, at: nat, data: Bytes): (r: Flash)
    requires at + |data| <= FLASH_SIZE
    ensures r[at..at + |data|] == data
    ensures forall i :: 0 <= i < FLASH_SIZE && !(at <= i < at + |data|) ==> r[i] == f[i]
  {
    f[..at] + data + f[at + |data|..]
  }

  /** `flash_write`: the address is aligned down to 8, the data filled up to whole double words. */
  function Padded(data: Bytes): (p: Bytes)
    ensures |p| % 8 == 0 && |data| <= |p| < |data| + 8 && p[..|data|] == data
  {
    data + Ones((8 - |data| % 8) % 8)
  }

  function Aligned(at: nat): (a: nat)
    ensures a % 8 == 0 && a <= at < a + 8
  {
    at - at % 8
  }

  // ----- flags and versions -----

  function App(f: Flash): Bytes { f[APPLICATION_START..APPLICATION_END] }

  predicate Authorised(f: Flash) { f[AUTH_WORD..AUTH_WORD + 4] == [0, 0, 0, 0] }

  datatype Version = Version(major: u8, minor: u8, patch: u8, reserved: u8)

  const NO_VERSION := Version(0xff, 0xff, 0xff, 0xff)

  function VersionAt(f: Flash, at: nat): Version
    requires at + 4 <= FLASH_SIZE
  {
    Version(f[at], f[at + 1], f[at + 2], f[at + 3])
  }

  function Stored(f: Flash): Version { VersionAt(f, BOOT_VERSION) }

  /** `is_newer`. */
  predicate IsNewer(newer: Version, older: Version) {
    || newer.major > older.major
    || (newer.major == older.major && newer.minor > older.minor)
    || (newer.major == older.major && newer.minor == older.minor && newer.patch >= older.patch)
  }

  predicate Allowed(new_: Version, current: Version) {
    IsNewer(new_, current) || current == NO_VERSION
  }

  // ----- requests -----

  datatype Op = Write | Done | Check | Erase | GetVersion | Reboot | Disable | GetPubkey | OtherOp

  /** `payload` is everything behind the 10-byte header, `len` the length that the header states. */
  datatype Frame = Frame(op: Op, addr: nat, len: u16, size: int, payload: Bytes)

  type Request = q: Frame | q.addr < 0x100_0000 && |q.payload| >= 64 && |q.payload| >= q.size - 10
    witness Frame(Check, 0, 0, 0, Zeros(64))

  /** `lastWritten` is the end of the last write, 0 for the null pointer. */
  datatype Boot = Boot(flash: Flash, hasErased: bool, lastWritten: LastWritten, rebootFlag: bool)

  type LastWritten = n: nat | n == 0 || APPLICATION_START <= n <= APPLICATION_END

  datatype Outcome = Outcome(state: Boot, status: u8)

  function Erased(s: Boot): Boot {
    Boot(Put(s.flash, APPLICATION_START, Ones((APPLICATION_END_PAGE - APPLICATION_START_PAGE) * PAGE_SIZE)),
         s.hasErased, 0, s.rebootFlag)
  }

  predicate InRange(q: Request) {
    APPLICATION_START <= q.addr < APPLICATION_END && q.addr + q.len <= APPLICATION_END
  }

  /** The write proper, past the range check and the erase it may start with. */
  function WriteAfterErase(s: Boot, q: Request): Outcome
    requires InRange(q) && q.len <= |q.payload|
  {
    var end := q.addr + q.len;
    if end < s.lastWritten then Outcome(Boot(s.flash, false, s.lastWritten, s.rebootFlag), ERR_NOT_ALLOWED)
    else
      var data := Padded(q.payload[..q.len]);
      Outcome(Boot(Put(s.flash, Aligned(q.addr), data), s.hasErased, end, s.rebootFlag), OK)
  }

  predicate ErasesFirst(s: Boot) {
    !s.hasErased || Authorised(s.flash)
  }

  function DoWrite(s: Boot, q: Request): Outcome
    requires q.len <= |q.payload|
  {
    if !InRange(q) then Outcome(s, ERR_NOT_ALLOWED)
    else
      var s1 := if ErasesFirst(s) then var e := Erased(s); Boot(e.flash, true, e.lastWritten, e.rebootFlag) else s;
      WriteAfterErase(s1, q)
  }

  function Rebooting(s: Boot): Boot {
    Boot(s.flash, s.hasErased, s.lastWritten, true)
  }

  function WithFlash(s: Boot, f: Flash): Boot {
    Boot(f, s.hasErased, s.lastWritten, s.rebootFlag)
  }

  /** The version page is erased and rewritten with the new version. */
  function StoreVersion(f: Flash, v: Version): Flash {
    Put(f, BOOT_VERSION_PAGE * PAGE_SIZE, Ones(8) + [v.major, v.minor, v.patch, v.reserved])
  }

  function Authorise(f: Flash): Flash { Put(f, AUTH_WORD, [0, 0, 0, 0]) }

  /** The version that an update claims: the last four bytes before the end of the last write. */
  function Claimed(s: Boot): Version { VersionAt(s.flash, if s.lastWritten == 0 then 0 else s.lastWritten - 4) }

  predicate Accepts(verify: (Bytes, Bytes) -> bool, s: Boot, q: Request) {
    && q.len == 64
    && verify(Digest(App(s.flash)), q.payload[..64])
    && s.lastWritten != 0
    && Allowed(Claimed(s), Stored(s.flash))
  }

  function DoDone(verify: (Bytes, Bytes) -> bool, s: Boot, q: Request): Outcome {
    if q.len != 64 then Outcome(s, ERR_INVALID_LENGTH)
    else if !Accepts(verify, s, q) then Outcome(Rebooting(s), ERR_OPERATION_DENIED)
    else Outcome(Rebooting(WithFlash(s, Authorise(StoreVersion(s.flash, Claimed(s))))), OK)
  }

  function DoDisable(s: Boot, q: Request): Outcome {
    if q.payload[..4] == [0xcd, 0xde, 0xba, 0xaa]
    then Outcome(WithFlash(s, Put(s.flash, DISABLED_WORD, [0, 0, 0, 0])), OK)
    else Outcome(s, OK)
  }

  function ForgetErased(s: Boot): Boot {
    Boot(s.flash, false, s.lastWritten, s.rebootFlag)
  }

  /** `bootloader_bridge`; `verify` is the signature check under the boot key. */
  function Handle(verify: (Bytes, Bytes) -> bool, s: Boot, q: Request): Outcome {
    if q.len > q.size - 10 then Outcome(s, ERR_INVALID_LENGTH)
    else match q.op
      case Write => DoWrite(s, q)
      case Done => DoDone(verify, s, q)
      case Check => Outcome(s, OK)
      case Erase => Outcome(Erased(s), OK)
      case GetVersion => Outcome(ForgetErased(s), OK)
      case Reboot => Outcome(Rebooting(s), OK)
      case Disable => DoDisable(s, q)
      case GetPubkey => Outcome(ForgetErased(s), OK)
      case OtherOp => Outcome(s, ERR_INVALID_COMMAND)
  }

  datatype Event = Ask(request: Request) | PowerCycle

  function Next(verify: (Bytes, Bytes) -> bool, s: Boot, e: Event): Boot {
    match e
    case Ask(q) => Handle(verify, s, q).state
    case PowerCycle => Boot(s.flash, false, 0, false)
  }

  // ----- what writes can reach -----

  /** A write stays inside the application, in spite of alignment and padding. */
  lemma WriteStaysInside(q: Request)
    requires InRange(q) && q.len <= |q.payload|
    ensures APPLICATION_START <= Aligned(q.addr)
    ensures Aligned(q.addr) + |Padded(q.payload[..q.len])| <= APPLICATION_END
  {
    hide Aligned, Padded;
    var a, n := Aligned(q.addr), |Padded(q.payload[..q.len])|;
    var k, m := a / 8, n / 8;
    assert a == 8 * k && n == 8 * m && APPLICATION_END == 8 * (APPLICATION_END / 8);
    assert a + n < q.addr + q.len + 8;
  }

  lemma ErasedIsNotAuthorised(s: Boot)
    ensures !Authorised(Erased(s).flash)
  {
    assert Erased(s).flash[AUTH_WORD] == 0xff;
    assert Erased(s).flash[AUTH_WORD..AUTH_WORD + 4][0] == 0xff;
  }

  /** What is put elsewhere leaves a region alone. */
  lemma PutElsewhere(f: Flash, at: nat, data: Bytes, from: nat, to: nat)
    requires at + |data| <= FLASH_SIZE && from <= to <= FLASH_SIZE
    requires to <= at || at + |data| <= from
    ensures Put(f, at, data)[from..to] == f[from..to]
  {
    hide Put;
    forall i | from <= i < to ensures Put(f, at, data)[i] == f[i] {}
  }

  lemma PutNothing(f: Flash, at: nat)
    requires at <= FLASH_SIZE
    ensures Put(f, at, []) == f
  {
  }
}
