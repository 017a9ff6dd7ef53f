/** `bootloader.c` over a flash array erased by pages and written by double words, proved against
    `Bootloader`. */
module BootloaderFlash {
  import opened CtapErrors
  import opened Octets
  import opened Sha256Spec
  import opened Bootloader

  class Device {
    const flash: array<u8>
    var hasErased: bool
    var lastWritten: LastWritten
    var rebootFlag: bool

    ghost predicate Shaped() {
      flash.Length == FLASH_SIZE
    }

    ghost function State(): Boot
      requires Shaped()
      reads this, flash
    {
      Boot(flash[..], hasErased, lastWritten, rebootFlag)
    }

    /** Power-up over what is in flash. */
    constructor (content: Flash)
      ensures Shaped() && fresh(flash) && State() == Boot(content, false, 0, false)
    {
      flash := new u8[FLASH_SIZE](i requires 0 <= i < FLASH_SIZE => content[i]);
      hasErased, lastWritten, rebootFlag := false, 0, false;
      new;
      assert flash[..] == content;
    }

    // ----- flash -----

    method ErasePage(page: nat)
      requires Shaped() && page < PAGES
      modifies flash
      ensures flash[..] == Put(old(flash[..]), page * PAGE_SIZE, Ones(PAGE_SIZE))
    {
      ghost var was := flash[..];
      var at := page * PAGE_SIZE;
      forall i | at <= i < at + PAGE_SIZE { flash[i] := 0xff; }
      assert flash[..] == Put(was, at, Ones(PAGE_SIZE));
    }

    /** `flash_write_dword`. */
    method WriteDword(at: nat, dword: Bytes)
      requires Shaped() && at + 8 <= FLASH_SIZE && |dword| == 8
      modifies flash
      ensures flash[..] == Put(old(flash[..]), at, dword)
    {
      ghost var was := flash[..];
      forall i | at <= i < at + 8 { flash[i] := dword[i - at]; }
      assert flash[..] == Put(was, at, dword);
    }

    /** `flash_write`. */
    method FlashWrite(addr: nat, data: Bytes)
      requires Shaped() && Aligned(addr) + |Padded(data)| <= FLASH_SIZE
      modifies flash
      ensures flash[..] == Put(old(flash[..]), Aligned(addr), Padded(data))
    {
      hide Put, Padded, Aligned;
      ghost var was, p := flash[..], Padded(data);
      var base := addr - addr % 8;
      assert base == Aligned(addr) by { AlignedDown(addr); }
      PutNothing(was, base);
      var i := 0;
      while i < |data|
        invariant i % 8 == 0 && 0 <= i <= |p|
        invariant flash[..] == Put(was, base, p[..i])
        decreases |p| - i
      {
        var rest := |data| - i;
        var dword := if rest > 8 then data[i..i + 8] else data[i..] + Ones(8 - rest);
        PaddedChunk(data, i);
        PutMore(was, base, p, i);
        WriteDword(base + i, dword);
        i := i + 8;
      }
      assert p[..i] == p;
    }

    method EraseApplication()
      requires Shaped()
      modifies this`lastWritten, flash
      ensures State() == Erased(old(State()))
    {
      hide Put;
      ghost var was := flash[..];
      lastWritten := 0;
      var page := APPLICATION_START_PAGE;
      PutNothing(was, APPLICATION_START);
      assert Ones(0) == [];
      while page < APPLICATION_END_PAGE
        invariant APPLICATION_START_PAGE <= page <= APPLICATION_END_PAGE && lastWritten == 0
        invariant flash[..] == Put(was, APPLICATION_START, Ones((page - APPLICATION_START_PAGE) * PAGE_SIZE))
      {
        ErasedMore(was, page);
        ErasePage(page);
        page := page + 1;
      }
      assert page == APPLICATION_END_PAGE;
    }

    /** Rewrites page 107 with its flag word at `offset` cleared. */
    method ClearFlag(offset: nat)
      requires Shaped() && offset in {PAGE_SIZE - 8, PAGE_SIZE - 4}
      modifies flash
      ensures flash[..] == Put(old(flash[..]), LAST_PAGE * PAGE_SIZE + offset, [0, 0, 0, 0])
    {
      hide Put;
      ghost var was := flash[..];
      var at := LAST_PAGE * PAGE_SIZE;
      var page := flash[at..at + PAGE_SIZE];
      page := page[..offset] + [0, 0, 0, 0] + page[offset + 4..];
      ErasePage(LAST_PAGE);
      WholeDwords(page);
      assert Aligned(at) == at;
      FlashWrite(at, page);
      PageRewritten(was, at, offset);
    }

    method DisableBootloader()
      requires Shaped()
      modifies flash
      ensures flash[..] == Put(old(flash[..]), DISABLED_WORD, [0, 0, 0, 0])
    {
      hide Put;
      ClearFlag(PAGE_SIZE - 4);
    }

    method IsAuthorizedToBoot() returns (yes: bool)
      requires Shaped()
      ensures yes == Authorised(flash[..])
    {
      yes := flash[AUTH_WORD..AUTH_WORD + 4] == [0, 0, 0, 0];
      assert flash[AUTH_WORD..AUTH_WORD + 4] == flash[..][AUTH_WORD..AUTH_WORD + 4];
    }

    /** Does nothing when the word is already zero. */
    method AuthorizeApplication()
      requires Shaped()
      modifies flash
      ensures flash[..] == Authorise(old(flash[..]))
    {
      hide Put;
      var authorised := IsAuthorizedToBoot();
      if authorised {
        PutSame(flash[..], AUTH_WORD, [0, 0, 0, 0]);
        return;
      }
      ClearFlag(PAGE_SIZE - 8);
    }

    /** `is_firmware_version_newer_or_equal`: it stores the version when it allows it. */
    method IsFirmwareVersionNewerOrEqual() returns (allowed: bool)
      requires Shaped()
      modifies flash
      ensures allowed == old(lastWritten != 0 && Allowed(Claimed(State()), Stored(flash[..])))
      ensures flash[..] == if allowed then StoreVersion(old(flash[..]), old(Claimed(State()))) else old(flash[..])
    {
      hide Put, Allowed;
      if lastWritten == 0 { return false; }
      ghost var was := flash[..];
      var at := lastWritten - 4;
      var claimed := Version(flash[at], flash[at + 1], flash[at + 2], flash[at + 3]);
      var current := Version(flash[BOOT_VERSION], flash[BOOT_VERSION + 1],
        flash[BOOT_VERSION + 2], flash[BOOT_VERSION + 3]);
      assert claimed == Claimed(State()) && current == Stored(was);
      allowed := Allowed(claimed, current);
      if allowed {
        var page := flash[BOOT_VERSION..BOOT_VERSION + PAGE_SIZE];
        page := [claimed.major, claimed.minor, claimed.patch, claimed.reserved] + page[4..];
        ErasePage(BOOT_VERSION_PAGE);
        WholeDwords(page);
        assert Aligned(BOOT_VERSION) == BOOT_VERSION;
        FlashWrite(BOOT_VERSION, page);
        VersionRewritten(was, claimed);
      }
    }

    // ----- requests -----

    method BootWrite(q: Request) returns (status: u8)
      requires Shaped() && q.len <= |q.payload|
      modifies this, flash
      ensures Outcome(State(), status) == DoWrite(old(State()), q)
    {
      hide Put, Padded, Aligned, Erased, Authorised;
      if q.addr < APPLICATION_START || q.addr >= APPLICATION_END || q.addr + q.len > APPLICATION_END {
        return ERR_NOT_ALLOWED;
      }
      var authorised := IsAuthorizedToBoot();
      if !hasErased || authorised {
        ErasedIsNotAuthorised(State());
        EraseApplication();
        hasErased := true;
      }
      authorised := IsAuthorizedToBoot();
      if authorised {
        assert false;
      }
      var end := q.addr + q.len;
      if end < lastWritten {
        hasErased := false;
        return ERR_NOT_ALLOWED;
      }
      lastWritten := end;
      WriteStaysInside(q);
      FlashWrite(q.addr, q.payload[..q.len]);
      return OK;
    }

    method BootDone(verify: (Bytes, Bytes) -> bool, q: Request) returns (status: u8)
      requires Shaped()
      modifies this, flash
      ensures Outcome(State(), status) == DoDone(verify, old(State()), q)
    {
      hide Put, Allowed, Claimed, Digest;
      if q.len != 64 { return ERR_INVALID_LENGTH; }
      assert flash[APPLICATION_START..APPLICATION_END] == App(flash[..]);
      if !verify(Digest(flash[APPLICATION_START..APPLICATION_END]), q.payload[..64]) {
        rebootFlag := true;
        return ERR_OPERATION_DENIED;
      }
      var allowed := IsFirmwareVersionNewerOrEqual();
      if !allowed {
        rebootFlag := true;
        return ERR_OPERATION_DENIED;
      }
      AuthorizeApplication();
      rebootFlag := true;
      return OK;
    }

    /** `bootloader_bridge`. */
    method Bridge(verify: (Bytes, Bytes) -> bool, q: Request) returns (status: u8)
      requires Shaped()
      modifies this, flash
      ensures Outcome(State(), status) == Handle(verify, old(State()), q)
    {
      hide DoWrite, DoDone, Put, Erased;
      if q.len > q.size - 10 { return ERR_INVALID_LENGTH; }
      match q.op {
        case Write => status := BootWrite(q);
        case Done => status := BootDone(verify, q);
        case Check => status := OK;
        case Erase =>
          EraseApplication();
          status := OK;
        case GetVersion | GetPubkey =>
          hasErased := false;
          status := OK;
        case Reboot =>
          rebootFlag := true;
          status := OK;
        case Disable =>
          if q.payload[..4] == [0xcd, 0xde, 0xba, 0xaa] { DisableBootloader(); }
          status := OK;
        case OtherOp => status := ERR_INVALID_COMMAND;
      }
    }
  }

  // ----- rewriting parts of the flash -----

  lemma AlignedDown(addr: nat)
    ensures Aligned(addr) == addr - addr % 8
  {
  }

  lemma PutSame(f: Flash, at: nat, data: Bytes)
    requires at + |data| <= FLASH_SIZE && f[at..at + |data|] == data
    ensures Put(f, at, data) == f
  {
  }

  /** Two adjacent pieces make one. */
  lemma PutTwice(f: Flash, at: nat, a: Bytes, b: Bytes)
    requires at + |a| + |b| <= FLASH_SIZE
    ensures Put(Put(f, at, a), at + |a|, b) == Put(f, at, a + b)
  {
    hide Put;
    var r, t := Put(Put(f, at, a), at + |a|, b), Put(f, at, a + b);
    PutElsewhere(Put(f, at, a), at + |a|, b, at, at + |a|);
    forall i | 0 <= i < FLASH_SIZE ensures r[i] == t[i] {
      if at <= i < at + |a| {
        assert r[i] == r[at..at + |a|][i - at] && t[i] == t[at..at + |a + b|][i - at];
      } else if at + |a| <= i < at + |a| + |b| {
        assert r[i] == r[at + |a|..at + |a| + |b|][i - at - |a|] && t[i] == t[at..at + |a + b|][i - at];
      }
    }
  }

  lemma PutMore(f: Flash, at: nat, p: Bytes, i: nat)
    requires at + |p| <= FLASH_SIZE && i + 8 <= |p|
    ensures Put(Put(f, at, p[..i]), at + i, p[i..i + 8]) == Put(f, at, p[..i + 8])
  {
    hide Put;
    PutTwice(f, at, p[..i], p[i..i + 8]);
    assert p[..i] + p[i..i + 8] == p[..i + 8];
  }

  lemma PaddedChunk(data: Bytes, i: nat)
    requires i % 8 == 0 && i < |data|
    ensures i + 8 <= |Padded(data)|
    ensures Padded(data)[i..i + 8]
            == if |data| - i > 8 then data[i..i + 8] else data[i..] + Ones(8 - (|data| - i))
  {
    var n := |data| - i;
    assert n % 8 == |data| % 8;
  }

  lemma WholeDwords(data: Bytes)
    requires |data| % 8 == 0
    ensures Padded(data) == data
  {
  }

  lemma ErasedMore(f: Flash, page: nat)
    requires APPLICATION_START_PAGE <= page < APPLICATION_END_PAGE
    ensures var n := (page - APPLICATION_START_PAGE) * PAGE_SIZE;
            Put(Put(f, APPLICATION_START, Ones(n)), page * PAGE_SIZE, Ones(PAGE_SIZE))
            == Put(f, APPLICATION_START, Ones(n + PAGE_SIZE))
  {
    hide Put;
    var n := (page - APPLICATION_START_PAGE) * PAGE_SIZE;
    PutTwice(f, APPLICATION_START, Ones(n), Ones(PAGE_SIZE));
    assert Ones(n) + Ones(PAGE_SIZE) == Ones(n + PAGE_SIZE);
  }

  /** Rewriting a page with one word changed changes that word. */
  lemma PageRewritten(f: Flash, at: nat, offset: nat)
    requires at + PAGE_SIZE <= FLASH_SIZE && offset + 4 <= PAGE_SIZE
    ensures var page := f[at..at + PAGE_SIZE];
            Put(Put(f, at, Ones(PAGE_SIZE)), at, page[..offset] + [0, 0, 0, 0] + page[offset + 4..])
            == Put(f, at + offset, [0, 0, 0, 0])
  {
  }

  /** The version page starts 8 bytes before the version, which the copy leaves erased. */
  lemma VersionRewritten(f: Flash, v: Version)
    ensures var word := [v.major, v.minor, v.patch, v.reserved];
            var page := word + f[BOOT_VERSION..BOOT_VERSION + PAGE_SIZE][4..];
            Put(Put(f, BOOT_VERSION_PAGE * PAGE_SIZE, Ones(PAGE_SIZE)), BOOT_VERSION, page) == StoreVersion(f, v)
  {
  }
}
