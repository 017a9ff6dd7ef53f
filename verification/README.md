# A verified model of the authenticator core

Dafny models of the stateful core of the FIDO2 security-key firmware and of the algorithms under
it. Each component has a specification (pure functions over records), a class or method that
works in place as the C code does and is proved to refine that specification, and theorems about
whole runs of the specification.

| component | specification | code | theorems |
|---|---|---|---|
| CTAPHID transport | `HidFraming`, `HidReceiver` | `HidWriter.WriteBuffer`, `HidTransport.Transport` | `HidDelivery`, `HidTimeouts`, `HidChannels`, `HidTiming`, `HidProvenance`, `HidAnswers` |
| SHA-256 and HMAC | `Sha256Spec`, `Hmac` | `Sha256.Context`, `Hmac.Crypto` | in the methods' contracts, `Hmac`, `Sha256Words`, `Sha256Example` |
| PIN retries and lockout | `PinMachine` | `PinAuthority.Authority` | `PinRetries`, `PinChanges` |
| DER signatures | `DerSignature` | `DerSignature.EncodeDerSig` | `DerSignature` |
| credential ids | `CredentialTags` | `CredentialTags.Credentials` | `CredentialTags` |
| resident-key store | `ResidentKeys` | `KeyStore.ResidentKeyStore` | `ResidentKeys`, `KeyStoreRuns` |
| credential management | `Enumeration`, `ManagementGuard` | `CredMgmt.Manager`, `ManagementGuard.Management` | `Enumeration`, `Sweeps`, `Cursors`, `ManagementGuard` |
| assertion queue | `AssertionQueue` | `Assertions.AssertionState` | `AssertionQueue`, `AssertionDelivery`, `AssertionPermission`, `AssertionRuns` |
| bootloader | `Bootloader` | `BootloaderFlash.Device` | `BootloaderRuns`, `BootloaderWrites`, `BootloaderVersions` |
| APDU decoder | `Apdu` | `Apdu.ApduStruct` | `Apdu` |

`Octets` holds machine integers and byte strings, `CtapErrors` status codes, `Wrappers` optional
values, `Runs` runs of a deterministic state machine.
Random bytes, user presence, clocks, parsed requests and the results of elliptic-curve and AES
operations are parameters. HMAC and SHA-256 are the proved functions wherever they occur. The
bootloader's signature check is a function parameter about which nothing is assumed.

Where the code does something other than its comments, its documentation or its standard, the
model follows the code and a lemma says exactly when the two agree:

- The DER printer decides the pad byte of r by the first nonzero byte it finds, which lies in s
  when r is zero: `DerSignature.PrintedRoundTrip`.
- The two transport-key sentinels of HMAC key only the inner or only the outer hash. Their tags
  are those of RFC 2104 exactly for a zero secret or where two given texts collide:
  `Hmac.TransportKeyIsExact`, `Hmac.TransportKey2IsExact`.
- The credential counter wraps, and the two numbers at the wrap mark empty slots:
  `KeyStoreRuns.MakeKeepsInvExactly`, `KeyStoreRuns.ExhaustedCounterExample`.
- Counts are compared as 32-bit differences: `AssertionQueue.ComparatorIsExact`,
  `AssertionQueue.PairDescendsExactly`.
- The scan for the keys of an RP does not look at validity: `Enumeration.RkTotalIsExact`,
  `Cursors.AskIsExact`.
- A CTAP reset does not touch the enumeration cursors: `Cursors.ResetIsExact`,
  `Cursors.StaleCursorReportsEmptySlot`. Nor does it touch the per-boot PIN counter
  (`PinMachine.Wipe`).
- At most 20 resident keys are offered: `AssertionDelivery.DeliveryIsComplete`.
- A stored version of four 0xff bytes admits every version, and such a version can be stored
  without being uploaded, by an empty write behind erased bytes:
  `BootloaderVersions.RollbackIsExact`, `BootloaderVersions.NeverBackExactly`,
  `BootloaderVersions.EmptyWriteStoresNoVersion`, `BootloaderVersions.ClaimIsNoVersion`.
- APDU case 2E is refused or taken for case 3E: `Apdu.Case2EIsMisread`.
- The channel table has ten slots, of which the last is never searched or filled
  (`HidReceiver.SlotOf`). A channel id that is used before it is handed out gets into two slots,
  and its messages may then be dropped although sent in time: `HidTiming.SharedChannelTimesOut`,
  `HidChannels.ChannelsStaySeparate`.
- An empty CBOR or MSG message is refused without freeing its channel's slot, which stays busy until
  it times out: `HidAnswers.EndsAreReleased`.
- A getAssertion that fails after it has found keys overwrites what is queued:
  `AssertionRuns.SpoiledQueue`.

## Model

| member | source | states |
|---|---|---|
| `HidWriter.WriteBuffer.Write` | fido2/ctaphid.c:282-310 | writing appends the bytes to the message, whatever the split; what was sent stays a prefix of the packets of the message |
| `HidWriter.WriteBuffer.Flush` | fido2/ctaphid.c:262-281 | after a flush exactly the packets of the whole message have been sent |
| `HidWriter.Transmit` | fido2/ctaphid.c:259-311 | any sequence of writes and a flush sends the packets of the concatenation: the split does not matter |
| `HidFraming.PacketFields` | fido2/ctaphid.c:285-304 | a receiver reads back channel, command, length, sequence number and payload from each packet |
| `HidFraming.SequenceNumbersFit` | fido2/ctaphid.c:297-301 | for messages of at most 7609 bytes sequence numbers are 0, 1, ... and at most 127, so no continuation looks like an initial packet |
| `HidTransport.Transport.GetNewCid` | fido2/ctaphid.c:96-104 | the next channel id, never 0 or broadcast |
| `HidTransport.Transport.AddCid` | fido2/ctaphid.c:106-120 | the first free searched slot is taken, otherwise nothing changes |
| `HidTransport.Transport.CidExists` | fido2/ctaphid.c:122-133 | whether a searched slot holds the channel, busy or not |
| `HidTransport.Transport.CidRefresh` | fido2/ctaphid.c:135-148 | the slot's time and busy flag, and nothing else |
| `HidTransport.Transport.CidDel` | fido2/ctaphid.c:150-162 | the slot's busy flag, and nothing else |
| `HidTransport.Transport.BufferPacket` | fido2/ctaphid.c:180-215 | the new reassembly buffer, in its bounds; refused when out of sequence |
| `HidTransport.Transport.BufferReset` | fido2/ctaphid.c:217-223 | the buffer is empty again |
| `HidTransport.Transport.BufferAny` | fido2/ctaphid.c:383-533 | state, verdict and packets sent for every kind of packet |
| `HidTransport.Transport.HandlePacket` | fido2/ctaphid.c:546-690 | state, event and packets sent when a packet is handled, for the dispatch skeleton |
| `HidTransport.Transport.CheckTimeouts` | fido2/ctaphid.c:349-367 | slots unused for 750 ms are released with an error packet each, and their transaction is dropped |
| `HidDelivery.TransportSafety` | fido2/ctaphid.c:193-212 | from power-on, in every run: 0 <= offset <= bcnt <= 7609, and no `exit` of the transport is reached |
| `HidDelivery.HandleKeepsInv` | fido2/ctaphid.c:509-514 | one packet keeps the invariant and reaches no `exit` |
| `HidDelivery.ForeignPacketStutters` | fido2/ctaphid.c:462-483 | a packet of another channel that is no well-formed INIT leaves a transaction in progress as it is |
| `HidDelivery.TickStutters` | fido2/ctaphid.c:349-367 | a look at the clock at which the channel has not timed out leaves its transaction as it is |
| `HidDelivery.InterleavedDelivery` | fido2/ctaphid.c:443-533 | the packets of a message, mixed with any foreign ones and any looks at the clock at which the channel has not timed out, are pending up to the last, which delivers the same channel, command and bytes; nothing else is delivered |
| `HidTiming.TimelyHasNoTimeout` | fido2/ctaphid.c:349-367 | a channel with one busy slot does not time out while the clock is looked at less than 750 ms after its last packet |
| `HidTimeouts.DeliveredExactly` | fido2/ctaphid.c:349-367 | a message carried to a willing receiver is delivered exactly when its channel has not timed out at any look at the clock |
| `HidChannels.ChannelsStaySeparate` | fido2/ctaphid.c:106-162 | from power-on no channel is busy in two slots, in every run whose packets are broadcasts or on ids handed out before |
| `HidTiming.TimelyDelivery` | fido2/ctaphid.c:443-533 | after every such run a message is delivered, and nothing else, if the clock is never looked at 750 ms or more after its channel's last packet |
| `HidTiming.SharedChannelTimesOut` | fido2/ctaphid.c:410-441 | without that a timely message may be dropped: on id 2 used before a broadcast INIT hands it out |
| `HidDelivery.AdmissionIsExact` | fido2/ctaphid.c:443-492 | exactly when an idle receiver accepts the first packet of a message |
| `HidProvenance.DeliveredIsGenuine` | fido2/ctaphid.c:494-533 | in every run with any channels and timeouts, a delivered message is the complete, in-sequence payload sent on its channel since that channel's last initial packet |
| `HidAnswers.AnswerIsExact` | fido2/ctaphid.c:443-533 | which packets are taken, ignored or refused, and with which code: 3, 4, 6 or 0x0b |
| `HidAnswers.RefusalKeepsOthers` | fido2/ctaphid.c:570-579 | a sequence error ends the transaction, any other refusal leaves one under way as it is |
| `HidAnswers.ErrorIsReadable` | fido2/ctaphid.c:314-325 | one error packet on the packet's channel, with the code in it |
| `HidAnswers.EchoIsExact` | fido2/ctaphid.c:596-614 | a ping comes back whole, a wink is confirmed, nothing else is answered by the transport itself |
| `HidAnswers.EndsAreReleased` | fido2/ctaphid.c:570-689 | whatever ends an exchange frees its channel's slot, exactly but for the refusal of an empty CBOR or MSG message |
| `HidAnswers.OthersAreUntouched` | fido2/ctaphid.c:370-533 | a packet leaves alone the slots in use by other channels |
| `HidAnswers.InitIsExact` | fido2/ctaphid.c:398-441 | when CTAPHID_INIT is refused, and which channel it is given, which is known afterwards |
| `HidAnswers.InitIsReadable` | fido2/ctaphid.c:327-346 | the platform finds its nonce, its channel, version and capabilities in the one answer |
| `HidAnswers.TimeoutsAreExact` | fido2/ctaphid.c:349-367 | exactly the slots unused for 750 ms are released, and a transaction on the channel of one ends |
| `HidAnswers.TimeoutErrorsAreExact` | fido2/ctaphid.c:349-367 | one error packet with code 5 for each of them and no other |
| `Sha256.Context.Init` | crypto/sha256/sha256.c:85-97 | the context of the empty message |
| `Sha256.Context.Schedule` | crypto/sha256/sha256.c:46-51 | the message schedule of FIPS 180-4 section 6.2.2 |
| `Sha256.Context.Transform` | crypto/sha256/sha256.c:44-83 | one compression of FIPS 180-4 section 6.2.2 |
| `Sha256.Context.Update` | crypto/sha256/sha256.c:99-112 | the bytes are appended to the message so far |
| `Sha256.Context.Final` | crypto/sha256/sha256.c:114-158 | the digest of the message, for one-block and two-block padding |
| `Sha256.PadIsOneBlock` | crypto/sha256/sha256.c:120-125 | padding of section 5.1.1 when the length still fits |
| `Sha256.PadIsTwoBlocks` | crypto/sha256/sha256.c:126-132 | padding of section 5.1.1 when it does not |
| `Sha256.Hash` | crypto/sha256/sha256.c:85-158 | any sequence of updates gives the one-shot digest of the concatenation |
| `Sha256Words.SigmasRotate` | crypto/sha256/sha256.c:26-29 | the four rotating functions by rotations |
| `Sha256Words.ChoiceOnes` | crypto/sha256/sha256.c:24-24 | where x has a one, Ch takes the bit of y |
| `Sha256Words.ChoiceZeros` | crypto/sha256/sha256.c:24-24 | elsewhere that of z |
| `Sha256Words.MajorityIs` | crypto/sha256/sha256.c:25-25 | Maj is the majority of the bits |
| `Sha256Words.BytesOfWord` | crypto/sha256/sha256.c:146-157 | the four bytes of a word, most significant first, give it back |
| `Sha256Words.ConstantsAreRoots` | crypto/sha256/sha256.c:32-41 | the 64 constants are the fractions of the cube roots of the first 64 primes |
| `Sha256Words.InitialHashIsRoots` | crypto/sha256/sha256.c:85-97 | the initial hash value, of the square roots of the first 8 |
| `Sha256Example.DigestOfAbc` | crypto/sha256/sha256.c:44-158 | the digest of the three bytes "abc", as FIPS 180-4's example has it |
| `Octets.XorIsBitwise` | fido2/crypto.c:142-145 | exclusive or of bytes, bit by bit |
| `Hmac.HmacWrittenOut` | fido2/crypto.c:117-185 | HMAC as RFC 2104 writes it out, with 0x36 and 0x5c |
| `Hmac.Crypto.LoadMasterSecret` | fido2/crypto.c:74-81 | 64 bytes master and 32 bytes transport secret |
| `Hmac.Crypto.HmacInit` | fido2/crypto.c:117-149 | the inner hash is started with the padded inner key; keys over 64 bytes are refused |
| `Hmac.Crypto.HmacFinal` | fido2/crypto.c:151-185 | the outer hash over the inner one, with the outer key |
| `Hmac.Crypto.Tag` | fido2/crypto.c:117-185 | init, any updates and final give HMAC of RFC 2104 section 2 for explicit keys and the master key, and the two-key form for every sentinel |
| `Hmac.TransportKeyIsExact` | fido2/crypto.c:123-132 | the tag under the first transport-key sentinel is that of RFC 2104 exactly for an all-zero secret or colliding outer texts |
| `Hmac.TransportKey2IsExact` | fido2/crypto.c:157-166 | that under the second exactly for an all-zero secret, colliding inner or colliding outer texts |
| `DerSignature.Encode` | fido2/ctap.c:797-797 | the DER form of two 256-bit numbers has 8 to 72 bytes |
| `DerSignature.ParseInvertsEncode` | fido2/ctap.c:748-798 | the DER parser recovers r and s from it, for all 32-byte r and s |
| `DerSignature.EncodeInvertsParse` | fido2/ctap.c:748-798 | whatever the parser accepts is the one encoding, so both INTEGERs are minimal and non-negative |
| `DerSignature.PrintedRoundTrip` | fido2/ctap.c:757-790 | what is printed reads back as r and s exactly when r is nonzero or s has its first bit set; otherwise the parser refuses it |
| `DerSignature.EncodeDerSig` | fido2/ctap.c:748-798 | the overlapping writes give the printed form, zero-filled to 72 bytes and nothing beyond |
| `PinAuthority.Authority.PowerUp` | fido2/ctap.c:2421-2467 | state after a power cycle: storage or a blank state, full boot counter |
| `PinAuthority.Authority.CtapReset` | fido2/ctap.c:2670-2686 | state after a reset |
| `PinAuthority.Authority.LockDevicePermanently` | fido2/ctap.c:2688-2695 | PIN hash and token zeroed and stored |
| `PinAuthority.Authority.DecrementPinAttempts` | fido2/ctap.c:2514-2537 | in any state: each counter goes down if it can, is stored, and the last try destroys the PIN; a locked device answers failure |
| `PinAuthority.Authority.ResetPinAttempts` | fido2/ctap.c:2554-2559 | both counters are full again and stored |
| `PinAuthority.Authority.NewPinLength` | fido2/ctap.c:1926-1935 | length of a zero-padded PIN |
| `PinAuthority.Authority.UpdatePin` | fido2/ctap.c:2487-2512 | the salted hash of the new PIN is stored |
| `PinAuthority.Authority.UpdatePinIfVerified` | fido2/ctap.c:1937-2052 | setting and changing the PIN takes the step of the machine, with its status |
| `PinAuthority.Authority.AddPinIfVerified` | fido2/ctap.c:2054-2098 | the token is released exactly for a matching hash, which clears the counters; otherwise the guess is charged |
| `PinAuthority.Authority.HandleClientPin` | fido2/ctap.c:2100-2243 | the clientPIN command takes the step of the machine; a token leaves only for a matching hash |
| `PinAuthority.Authority.CredMgmtPinAuth` | fido2/ctap.c:1523-1551 | the charging path of credential management |
| `PinAuthority.Authority.Request` | fido2/ctap.c:2268-2285 | every command, with the lock checks in front, takes the step of the machine |
| `PinRetries.JudgedWhileOpen` | fido2/ctap.c:2108-2121 | a secret is compared only while neither counter is used up |
| `PinRetries.TriesAreConserved` | fido2/ctap.c:2514-2559 | in every run over commands and power cycles the counters are 8 and 3 minus the charged failures, and storage equals RAM |
| `PinRetries.LockIsAbsorbing` | fido2/ctap.c:2268-2285 | once locked, no run without a reset changes persistent state or gets a gated command through |
| `PinRetries.GrantedPinIsRemembered` | fido2/ctap.c:2487-2512 | a granted request makes the device remember exactly the PIN sent, of 4 to 63 bytes |
| `PinRetries.PinIsKept` | fido2/ctap.c:2032-2045 | only reset, a granted change or the permanent lock make it forget |
| `PinRetries.PinStillOpens` | fido2/ctap.c:2421-2467 | over every run of commands and power cycles without a reset or granted change, unless locked for good, the PIN that was set still opens, at the latest after a power cycle |
| `PinRetries.RememberedPinOpens` | fido2/ctap.c:2066-2098 | the remembered PIN opens and clears the counters, a mismatch is charged |
| `PinChanges.SetPinIsExact` | fido2/ctap.c:2163-2177 | exactly when a first PIN is set; otherwise nothing changes |
| `PinChanges.ChangePinIsExact` | fido2/ctap.c:1937-2052 | exactly when a PIN is changed |
| `PinChanges.GetPinTokenIsExact` | fido2/ctap.c:2054-2098 | exactly when a token is given out |
| `PinChanges.GrantsRefill` | fido2/ctap.c:2042-2051 | what a grant does to the counters |
| `PinChanges.WrongTagChangesNothing` | fido2/ctap.c:1969-1983 | without the shared secret nothing changes and nothing is granted |
| `PinChanges.WrongPinIsCharged` | fido2/ctap.c:2032-2045 | with the hash of a wrong PIN nothing is granted and the PIN is not replaced; a request otherwise right costs one try |
| `PinChanges.ManagementIsCharged` | fido2/ctap.c:1534-1550 | the tag decides between refilling and charging in credential management |
| `PinChanges.OthersChangeNothing` | fido2/ctap.c:2133-2162 | no other command touches PIN, tries, token or agreed key |
| `PinChanges.ResetAndPowerCycle` | fido2/ctap.c:2385-2474 | what each forgets and what it brings back |
| `PinChanges.BootLockHolds` | fido2/ctap.c:2268-2285 | once three attempts are used up, every command that needs an open device is refused until a power cycle |
| `CredentialTags.Credentials.AddMaskedMetadata` | fido2/ctap.c:44-51 | the masked metadata, computed with the keyed hash |
| `CredentialTags.Credentials.ReadMasked` | fido2/ctap.c:53-60 | the metadata read back |
| `CredentialTags.Credentials.MakeAuthTag` | fido2/ctap.c:342-353 | the tag over RP hash, nonce and count |
| `CredentialTags.MadeIdIsRecognised` | fido2/ctap.c:868-887 | a credential id the authenticator made is accepted for its RP and no other, and reads back its credProtect value |
| `CredentialTags.IdWrittenOut` | fido2/ctap.c:678-685 | a made id byte by byte: nonce, masked level, tag over RP, nonce and count |
| `CredentialTags.RecognisedIsMade` | fido2/ctap.c:868-887 | an accepted id is the one made for its RP from its nonce, level and count |
| `CredentialTags.TagsTellApart` | fido2/ctap.c:342-353 | two different credentials share a tag only where the keyed hashes of two different texts agree in 16 bytes |
| `CredentialTags.ProtectionIsKept` | fido2/ctap.c:64-84 | exactly when a made key may be used, with and without an allow list |
| `ResidentKeys.MatchesIsSameAccount` | fido2/ctap.c:412-417 | the upsert match is equality of RP hash and user id |
| `ResidentKeys.MakeKeepsInv` | fido2/ctap.c:618-720 | making a credential keeps the store invariant |
| `ResidentKeys.DeleteKeepsInv` | fido2/ctap.c:1765-1776 | deleting keeps it, and succeeds exactly when the id is stored |
| `ResidentKeys.DeleteIsMapRemoval` | fido2/ctap.c:1765-1776 | deleting removes exactly the key with the id; refused, it changes nothing |
| `KeyStoreRuns.MakeIsExact` | fido2/ctap.c:618-721 | every outcome of makeCredential: counter, stored key as asked for and recognised, other accounts' keys, refusals |
| `ResidentKeys.FullIsExact` | fido2/ctap.c:698-720 | the store is full for an account exactly when all 50 slots are taken by others |
| `ResidentKeys.UpsertIsMapUpdate` | fido2/ctap.c:698-717 | after an upsert the account has exactly the new key and all others have theirs |
| `ResidentKeys.NumValidIsCardinality` | fido2/ctap.c:395-410 | counting the valid slots one by one gives the size of their set |
| `KeyStoreRuns.StoreInvariant` | fido2/ctap.c:688-721 | in every run below the end of the counter `rk_stored` is the number of valid slots, accounts and counts are distinct, counts were given out, all other slots are erased, and the preconditions of the code hold |
| `KeyStoreRuns.MakeKeepsInvExactly` | fido2/ctap.c:360-376 | at any counter value, the exact condition under which a stored credential keeps the invariant |
| `KeyStoreRuns.ExhaustedCounterExample` | fido2/ctap.c:390-393 | a counter at 0xfffffffe yields a stored key that is counted but not valid |
| `KeyStore.ResidentKeyStore.AtomicCount` | fido2/device.c:120-125 | the counter modulo 2^32 |
| `KeyStore.ResidentKeyStore.UpdateCount` | fido2/ctap.c:360-376 | the next count, skipping 0 |
| `KeyStore.ResidentKeyStore.LoadNthValid` | fido2/ctap.c:395-410 | the n-th valid slot; -1 exactly when there are not that many |
| `KeyStore.ResidentKeyStore.FindSame` | fido2/ctap.c:698-708 | the first slot of the same account; inside the loop the search by number never fails |
| `KeyStore.ResidentKeyStore.FindFree` | fido2/ctap.c:709-711 | the first slot that is not valid |
| `KeyStore.ResidentKeyStore.IndexOf` | fido2/ctap.c:1553-1569 | the first valid slot with the credential id |
| `KeyStore.ResidentKeyStore.Keep` | fido2/ctap.c:698-720 | the upsert on the slot array |
| `KeyStore.ResidentKeyStore.Remove` | fido2/ctap.c:1765-1776 | the deletion on the slot array and the count |
| `KeyStore.ResidentKeyStore.Wipe` | fido2/device.c:165-168 | every slot erased, nothing stored, the counter kept |
| `KeyStore.ResidentKeyStore.MakeAuthData` | fido2/ctap.c:618-721 | count, presence, masking, tagging and upsert in the order of the code |
| `Enumeration.RpTotalIsExact` | fido2/ctap.c:1689-1705 | the first answer carries the number of different RP hashes |
| `Enumeration.RkTotalIsExact` | fido2/ctap.c:1706-1721 | the first answer carries the number of valid keys of the RP, or refuses when there is none, exactly when the hash is not that of an erased slot or no slot is free |
| `Enumeration.MetadataIsExact` | fido2/ctap.c:1400-1417 | existing and remaining are the numbers of valid and of free slots |
| `Enumeration.RemoveIsExact` | fido2/ctap.c:1681-1776 | the delete sub-command's answer, and which key is gone after it |
| `Enumeration.OnlyRemoveChanges` | fido2/ctap.c:1657-1782 | no other sub-command changes the store |
| `Enumeration.NextNeedsBegin` | fido2/ctap.c:1721-1757 | Next commands are refused right after anything that closes their enumeration |
| `ManagementGuard.Management.Handle` | fido2/ctap.c:1657-1685 | lock, parse status and PIN authentication in front of the sub-commands |
| `ManagementGuard.OneCommandIsGuarded` | fido2/ctap.c:1523-1551 | one command tells or deletes nothing unless authorised or within an open enumeration |
| `ManagementGuard.NothingWithoutToken` | fido2/ctap.c:1523-1551 | in every run from power-up nothing is reported or deleted without the PIN token, now or at the Begin of the enumeration since power-up |
| `CredMgmt.Manager.OccursBefore` | fido2/ctap.c:1610-1619 | whether an earlier slot, valid or not, shows the hash |
| `CredMgmt.Manager.ScanForNextRp` | fido2/ctap.c:1572-1624 | the next first occurrence of an RP hash, or -1 |
| `CredMgmt.Manager.ScanForHash` | fido2/ctap.c:1627-1653 | the next slot that shows the hash, or -1 |
| `CredMgmt.Manager.ScanForNextRk` | fido2/ctap.c:1636-1653 | the next slot with the hash of the given one, or -1 |
| `CredMgmt.Manager.CountRps` | fido2/ctap.c:1691-1698 | the counting loop ends with the number of first occurrences |
| `CredMgmt.Manager.CountRks` | fido2/ctap.c:1707-1715 | the counting loop ends with the number of slots that show the hash |
| `CredMgmt.Manager.Handle` | fido2/ctap.c:1657-1782 | store, cursors and answer after any sub-command |
| `Sweeps.KeysAreListed` | fido2/ctap.c:1706-1764 | RkBegin and total-1 RkNext commands report exactly the slots of the RP and leave the RP enumeration where it was |
| `Sweeps.RpsAreListed` | fido2/ctap.c:1689-1751 | the RPs are visited in the order of their first slots |
| `Sweeps.ByRpIsPartition` | fido2/ctap.c:1572-1653 | the slots grouped by RP are all valid slots, once each |
| `Sweeps.SweepIsPartition` | fido2/ctap.c:1571-1653 | a nested enumeration by the totals reports every valid slot exactly once and no empty one |
| `Cursors.AskIsExact` | fido2/ctap.c:1657-1782 | a question is answered with keys only exactly when it does not ask for the hash of erased slots while one is free |
| `Cursors.ReportsAreKeys` | fido2/ctap.c:1657-1782 | in every run of enumerations, deletions, new credentials and resets that find no enumeration past the first slot, the same holds of each answer |
| `Cursors.ResetIsExact` | fido2/ctap.c:2670-2686 | after a reset every proper run reports keys only exactly when neither cursor had got past the first slot |
| `Cursors.StaleCursorReportsEmptySlot` | fido2/ctap.c:1738-1764 | otherwise RkNext or RpNext reports an empty slot after the next credential is stored |
| `AssertionQueue.ComparatorIsExact` | fido2/ctap.c:1126-1131 | the sort order is that of the counts exactly when they are less than 2^31 apart |
| `AssertionQueue.SortKeepsAll` | fido2/ctap.c:1240-1241 | sorting loses and doubles nothing |
| `AssertionQueue.SortDescends` | fido2/ctap.c:1240-1241 | different counts, all less than 2^31 apart, come out strictly descending |
| `AssertionQueue.PairDescendsExactly` | fido2/ctap.c:1126-1131 | two keys given oldest first come out newest first exactly when their counts are less than 2^31 apart |
| `AssertionQueue.SuccessQueues` | fido2/ctap.c:1829-1919 | a successful getAssertion answers the first of the sorted candidates, announces their number and queues the others |
| `AssertionQueue.DrainPopsAll` | fido2/ctap.c:1270-1280 | getNextAssertion commands hand out the queue in order and are then not allowed |
| `AssertionQueue.QueueDelivers` | fido2/ctap.c:1339-1393 | the answer and total-1 next commands deliver the sorted candidates, then NOT_ALLOWED |
| `Assertions.AssertionState.SortCreds` | fido2/ctap.c:1240-1241 | the list is sorted in place, what is behind it untouched |
| `Assertions.AssertionState.CollectKeys` | fido2/ctap.c:1206-1236 | the first 20 accepted keys in slot order |
| `Assertions.AssertionState.FilterCredentials` | fido2/ctap.c:1154-1243 | the sorted candidates at the front of the global list |
| `Assertions.AssertionState.SaveCredentialList` | fido2/ctap.c:1246-1268 | the overlapping move by one keeps every credential but the first |
| `Assertions.AssertionState.PopCredential` | fido2/ctap.c:1270-1280 | the next credential while there is one |
| `Assertions.AssertionState.GetAssertion` | fido2/ctap.c:1784-1923 | state and answer of getAssertion, on every path |
| `Assertions.AssertionState.GetNextAssertion` | fido2/ctap.c:1339-1393 | state and answer of getNextAssertion |
| `Assertions.AssertionState.CtapReset` | fido2/ctap.c:2670-2686 | the list and its indices are cleared with the store |
| `Assertions.AssertionState.Handle` | fido2/ctap.c:2329-2371 | the last-command gate around both, and resets |
| `AssertionDelivery.AcceptedIsExact` | fido2/ctap.c:1206-1236 | the accepted list has one entry for each matching, permitted, valid slot and no others |
| `AssertionDelivery.DeliveryDescends` | fido2/ctap.c:1240-1241 | while stored counts are less than 2^31 apart answers come in strictly descending counter, so none twice |
| `AssertionDelivery.SmallCounterIsClose` | fido2/ctap.c:360-376 | a counter below 2^31 is enough for that |
| `AssertionDelivery.DeliveryIsGenuine` | fido2/ctap.c:1206-1236 | every credential delivered is that of an accepted slot |
| `AssertionDelivery.DeliveryIsComplete` | fido2/ctap.c:1227-1231 | all accepted keys are delivered exactly when there are at most 20 |
| `AssertionDelivery.AnsweredExactly` | fido2/ctap.c:1784-1829 | exactly when an assertion is answered |
| `AssertionPermission.DeliveredBelongs` | fido2/ctap.c:1206-1236 | every credential given out is of a key in use, of the RP that asks, and without verification of neither protecting level |
| `AssertionPermission.OfferedAreDelivered` | fido2/ctap.c:1206-1236 | every such key is given out, exactly when there are at most 20 |
| `AssertionPermission.StatusIsExact` | fido2/ctap.c:1784-1923 | every status of getAssertion, what it counts and what it leaves alone |
| `AssertionRuns.NextIsExact` | fido2/ctap.c:1339-1393 | when getNextAssertion is answered, with which status otherwise, and what it counts |
| `AssertionRuns.InterruptedQueueIsClosed` | fido2/ctap.c:2337-2371 | right after another command, a reset or a refusal it is not allowed |
| `AssertionRuns.ResetForgetsAll` | fido2/ctap.c:2670-2686 | after a reset no key, no queue and a new secret |
| `AssertionRuns.NextIsPromised` | fido2/ctap.c:1339-1393 | in every run, with store changes, resets and failures, except a getAssertion that fails after finding keys, an answered getNextAssertion hands out the next credential of the last successful getAssertion |
| `AssertionRuns.SpoiledQueue` | fido2/ctap.c:1829-1923 | after such a failure the next assertion is of a key found for the failed request |
| `AssertionDelivery.NewestComesFirst` | fido2/ctap.c:618-721 | a resident key just made is the first answer for its RP, if permitted and among at most 20 |
| `BootloaderFlash.Device.FlashWrite` | targets/stm32l432/src/flash.c:139-161 | the address is aligned down, the data padded with 0xff to double words |
| `BootloaderFlash.Device.EraseApplication` | targets/stm32l432/bootloader/bootloader.c:59-67 | all application pages and both flag words read 0xff |
| `BootloaderFlash.Device.DisableBootloader` | targets/stm32l432/bootloader/bootloader.c:69-77 | only the disable word changes |
| `BootloaderFlash.Device.AuthorizeApplication` | targets/stm32l432/bootloader/bootloader.c:79-96 | only the auth word changes |
| `BootloaderFlash.Device.IsFirmwareVersionNewerOrEqual` | targets/stm32l432/bootloader/bootloader.c:115-147 | whether the claimed version is allowed, which is then stored |
| `BootloaderFlash.Device.BootWrite` | targets/stm32l432/bootloader/bootloader.c:183-217 | range check, erase, ascending check and write; the `exit` is not reached |
| `BootloaderFlash.Device.BootDone` | targets/stm32l432/bootloader/bootloader.c:218-258 | signature and version checks, then authorisation |
| `BootloaderFlash.Device.Bridge` | targets/stm32l432/bootloader/bootloader.c:155-325 | state and status after any request |
| `Bootloader.WriteStaysInside` | targets/stm32l432/bootloader/bootloader.c:186-193 | a write in range never touches the flag words, in spite of alignment and padding |
| `BootloaderRuns.AuthorisedIsApproved` | targets/stm32l432/bootloader/bootloader.c:183-313 | in every run, while the auth word is zero the application is byte for byte what BootDone accepted last |
| `BootloaderRuns.AuthorisedIsSigned` | targets/stm32l432/bootloader/bootloader.c:229-245 | what gets authorised from an unauthorised state carried a valid signature of exactly that content |
| `BootloaderRuns.GrantIsExact` | targets/stm32l432/bootloader/bootloader.c:218-258 | BootDone succeeds exactly for a 64-byte valid signature of the application and an allowed version claim |
| `BootloaderWrites.WriteIsExact` | targets/stm32l432/bootloader/bootloader.c:183-217 | exactly which writes are granted |
| `BootloaderWrites.WriteEffectIsExact` | targets/stm32l432/bootloader/bootloader.c:195-217 | every byte of the application after a write, 0xff where it had to erase first |
| `BootloaderWrites.ApprovedIsUploaded` | targets/stm32l432/bootloader/bootloader.c:183-258 | in every run from power-up, what BootDone hashes and approves is erased flash with the payloads since the last erase over it in order |
| `BootloaderWrites.SessionIsExact` | targets/stm32l432/bootloader/bootloader.c:155-289 | which events end the session in which no further erase is done |
| `BootloaderWrites.RebootIsExact` | targets/stm32l432/bootloader/bootloader.c:218-301 | which requests set the reboot flag |
| `BootloaderWrites.EraseIsExact` | targets/stm32l432/bootloader/bootloader.c:262-266 | BootErase erases the application pages and flags and nothing else |
| `BootloaderWrites.DisableIsExact` | targets/stm32l432/bootloader/bootloader.c:298-313 | the magic payload and nothing else clears the disable word |
| `BootloaderWrites.GrantChangesOnly` | targets/stm32l432/bootloader/bootloader.c:79-147 | which bytes a granted update changes, and how |
| `BootloaderWrites.RefusalsAreExact` | targets/stm32l432/bootloader/bootloader.c:167-325 | the status of every request that is not granted; the flash stays as it is |
| `BootloaderVersions.NewerIsLexicographic` | targets/stm32l432/bootloader/version_check.c:4-8 | the version order is the lexicographic total preorder |
| `BootloaderVersions.ExaminedAtHighestEnd` | targets/stm32l432/bootloader/bootloader.c:206-213 | the version examined ends at the highest write end since the last erase, which never decreases |
| `BootloaderVersions.ClaimAfterWrite` | targets/stm32l432/bootloader/bootloader.c:126-126 | the version claimed after any write, aligned or not, of any length, byte by byte from payload, filling and the flash before it |
| `BootloaderVersions.ClaimIsNoVersion` | targets/stm32l432/bootloader/bootloader.c:126-132 | exactly when that is four 0xff bytes |
| `BootloaderVersions.DoneIsExact` | targets/stm32l432/bootloader/bootloader.c:104-257 | exactly which updates are granted, by signature, writes and the bytes of both versions |
| `BootloaderVersions.RollbackIsExact` | targets/stm32l432/bootloader/bootloader.c:132-132 | an event takes the stored version back exactly when it is a granted update from four 0xff bytes to a triple other than 255.255.255 |
| `BootloaderVersions.NeverBackExactly` | targets/stm32l432/bootloader/bootloader.c:132-141 | over a run the stored version never goes back exactly when no event takes it back |
| `BootloaderVersions.VersionsNeverGoBack` | targets/stm32l432/bootloader/bootloader.c:132-141 | nor does it in any run whose writes start on a double word and end in four uploaded bytes that are not all 0xff |
| `BootloaderVersions.EmptyWriteStoresNoVersion` | targets/stm32l432/bootloader/bootloader.c:207-216 | without that it can: an empty write behind erased bytes lets a signed image store four 0xff bytes |
| `Apdu.ApduStruct.Decode` | fido2/apdu.c:12-136 | status and fields, whichever tests overlap |
| `Apdu.WindowIsInside` | fido2/apdu.c:122-133 | the data of an accepted command lies inside the input |
| `Apdu.RestIsIgnored` | fido2/apdu.c:12-136 | bytes behind the input do not matter |
| `Apdu.UnchainedIsMasked` | fido2/apdu.c:16-16 | the chaining bit is cleared and every other bit of the class byte kept |
| `Apdu.RefusalIsExact` | fido2/apdu.c:64-121 | refused for its length is exactly what states more data than there is |
| `Apdu.DecodeInvertsEncode` | fido2/apdu.c:30-114 | decoding inverts encoding exactly for the forms other than 2E, with Le 0 read as 256 or 65536 |
| `Apdu.Case2EIsMisread` | fido2/apdu.c:66-82 | case 2E is refused unless Le is 65536 and is then reported as case 3E |
| `Apdu.EncodeInvertsDecode` | fido2/apdu.c:12-136 | nothing is accepted but encodings of what is reported, whatever is behind the input |

## Left out

- CBOR parsing and encoding, and the answers' CBOR layout: requests start parsed, answers are records.
- AES, elliptic curves and the random generator: their results are inputs.
- Migration of old stored state: runs start from a current state.
- CTAP1 and custom credentials, and allow lists: the assertion queue is that of the resident-key path.
- Blanking of user names in assertions, extensions such as hmac-secret, and flag bits of authenticator data.
- Assertions.AssertionState.FilterCredentials: the branch for requests with an allow list is not modelled, because the descriptors it reads are filled by the parser.
- Assertions.AssertionState.GetAssertion: requests with an allow list and the extension steps are not modelled; the encoders' failures are one status.
- Assertions.AssertionState.SortCreds: an insertion sort stands for the C library's `qsort`.
- Handling of packets that arrive while a command waits for the button, and what commands do between delivery and the reset of the buffer.
- CTAPHID keepalive, cancel, vendor and bootloader commands, U2F and NFC, wallet and key slots, LEDs and logging.
- The wear-levelled counter and state pages of the STM32 port: the counter and storage are those of `fido2/device.c`.
- Loss of power inside a command, in the store as in flash.
- BootloaderFlash.Device.FlashWrite: assigns the double words; that real flash only clears bits is not modelled. The SOLO_HACKER build and the bytes that bootloader requests write back are not modelled either.
- Hmac.Crypto.Tag: the key buffer is not part of the hash context and not the result buffer.
- ResidentKeys.MakeKeepsInv: RP hashes of 32 bytes 0xff, which erased slots show, are excluded (`ResidentKeys.Storable`) here and in the theorems over runs.
