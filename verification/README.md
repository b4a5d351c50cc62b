# Smart-lock key store, modelled in Dafny

This project models `KeyPersistenceService` and its `KeyID` value type. `KeyPersistenceService` is the access-control key store of a
smart lock. It keeps a list of 12-byte key identifiers in a fixed-size EEPROM region laid out as

    [0 .. 3)        guard signature "key"
    [3]             record count, one unsigned byte
    [4 .. 4+12n)    n key records of KEY_SIZE_BYTES = 12 bytes, in insertion order

The store answers two queries. "Is this key authorized?" means it is among the first `numberOfKeys` records. "Is this key an
admin?" means it is among the first `NUMBER_OF_ADMIN_KEYS` records. New keys are appended with `addKey`.

The model is a functional state machine:

- `KeyIds` holds the key type. The constructor copies the key's 12 bytes, and `operator==` compares them byte by byte.
- `Eeprom` holds the storage region as a sequence of bytes (`Byte`, the integers 0 to 255, declared in `KeyIds`) in which every read sees the latest write. `EEPROM.put` and `EEPROM.get` of
  a key copy exactly 12 bytes to and from an address.
- `Layout` holds the guard, the addresses and the record scan `keyExistsInFirstNEntries`.
- `KeyPersistence` holds the store, a pair of the region and the in-memory `numberOfKeys`. It also holds the constructor and
  `addKey` as pure transitions. Each storage commit's outcome is a boolean input to the transition.
- `KeyPersistenceProperties` holds the properties that relate several operations.
- `CapacityFindings` holds the capacity test exactly as written in the source, with two inputs where it goes wrong.

`INITGUARD_LENGTH` (3) and `KEY_SIZE_BYTES` (12) are fixed by the `"key"` literal and by the 12-byte seed arrays.
`NUMBER_OF_ADMIN_KEYS` and `EEPROM_LENGTH` come from a header that is not part of this model. They are the fields of a `Config`
parameter.

Two behaviours of the code are worth knowing:

- `keyIsAdmin` scans `NUMBER_OF_ADMIN_KEYS` slots whatever the count is. If the seed commits fail, a key can therefore be admin
  without being authorized. This is shown by `FailedSeedingLeavesUnauthorizedAdmin` and `AddKeyBelowAdminCountGrantsAdmin`.
- The constructor issues no commit of its own, because its commit call is commented out. The guard reaches a commit only through
  the seed `addKey` calls, and each of them first overwrites the zero count byte.

## Model

| member | source | states |
|---|---|---|
| KeyIds.NewKeyId | KeyPersistenceService.cpp:3-7 | the identifier holds exactly the first KEY_SIZE_BYTES bytes of the buffer; a buffer of exactly that length is reproduced unchanged |
| KeyIds.Equal | KeyPersistenceService.cpp:9-16 | two identifiers compare equal iff all KEY_SIZE_BYTES bytes match pairwise, which is exactly value equality (so reflexive, symmetric, and any single differing byte makes them unequal) |
| Layout.UsedSize | KeyPersistenceService.cpp:65 | `usedEEPROMSize` for n records is at least INITGUARD_LENGTH + 1, and what lies beyond that is exactly n whole records of KEY_SIZE_BYTES bytes |
| Layout.CountByte | KeyPersistenceService.cpp:72 | the byte `EEPROM.write` stores for a count (here and for the zero count at line 41) is that count modulo 256, so any count of at most 255 is stored without truncation |
| Layout.KeyExistsInFirstNEntries | KeyPersistenceService.cpp:79-94 | the scan answers true iff some slot i < n, at address INITGUARD_LENGTH + 1 + i*KEY_SIZE_BYTES, holds the key |
| KeyPersistence.KeyIsAuthorized | KeyPersistenceService.cpp:56-58 | true iff the key is in one of the first numberOfKeys slots |
| KeyPersistence.KeyIsAdmin | KeyPersistenceService.cpp:60-62 | true iff the key is in one of the first NUMBER_OF_ADMIN_KEYS slots, independent of numberOfKeys |
| KeyPersistence.CheckInitGuard | KeyPersistenceService.cpp:29-35 | the first-boot test answers true iff the first INITGUARD_LENGTH bytes equal "key" |
| KeyPersistence.Construct | KeyPersistenceService.cpp:20-54 | on a guard match nothing is written and numberOfKeys is the stored count byte; on a mismatch the guard is written afterwards, at most two keys are counted, and the counted records fit in the region |
| KeyPersistence.ResetRegion | KeyPersistenceService.cpp:37-41 | the first-boot reset leaves the guard in place, the count byte and the in-memory count at 0, and every record byte as it was |
| KeyPersistence.AddKey | KeyPersistenceService.cpp:64-77 | success iff there is room (corrected capacity test, see Findings) and the commit succeeds; without room nothing changes; with room the key occupies slot numberOfKeys, the count byte becomes numberOfKeys+1 and no other byte changes; numberOfKeys grows by exactly one on success and stays put otherwise; the layout bound is preserved |
| KeyPersistenceProperties.AddKeyKeepsOtherRecords | KeyPersistenceService.cpp:71-72 | an append, committed or not, leaves every slot other than slot numberOfKeys holding the same key |
| KeyPersistenceProperties.AddKeyAuthorizesExactlyNewKey | KeyPersistenceService.cpp:71-76 | after a successful append the authorized keys are exactly the previous ones plus the new key |
| KeyPersistenceProperties.FailedAddKeyAuthorizesNothingNew | KeyPersistenceService.cpp:66-76 | after a refused or uncommitted append, numberOfKeys and the set of authorized keys are unchanged, although, when there was room, the record and the count byte were written |
| KeyPersistenceProperties.RetryAfterFailedCommit | KeyPersistenceService.cpp:65-76 | after a failed commit the next successful append writes the same slot, overwriting the uncounted record, and authorizes exactly the old keys plus its own key |
| KeyPersistenceProperties.AddKeyKeepsAdmins | KeyPersistenceService.cpp:60-62 | once numberOfKeys is at least NUMBER_OF_ADMIN_KEYS, no append changes which keys are admins |
| KeyPersistenceProperties.AddKeyBelowAdminCountGrantsAdmin | KeyPersistenceService.cpp:60-77 | while numberOfKeys is below NUMBER_OF_ADMIN_KEYS, an append that finds room makes its key an admin even if the commit fails |
| KeyPersistenceProperties.AdminIsAuthorized | KeyPersistenceService.cpp:56-62 | with numberOfKeys at least NUMBER_OF_ADMIN_KEYS, every admin key is authorized |
| KeyPersistenceProperties.AddKeyKeepsSync | KeyPersistenceService.cpp:71-75 | after a successful append the guard is intact, the count byte equals numberOfKeys and the records fit |
| KeyPersistenceProperties.ReloadRestoresStore | KeyPersistenceService.cpp:29-53 | constructing over a region whose guard and count byte agree with a store reproduces that store exactly, without re-seeding |
| KeyPersistenceProperties.FirstBootSeedsAdmins | KeyPersistenceService.cpp:37-47 | first boot with both commits succeeding gives numberOfKeys 2, the seed keys in slots 0 and 1 in order, exactly those two keys authorized, both admin when NUMBER_OF_ADMIN_KEYS is at least 2 |
| KeyPersistenceProperties.FirstBootOnlyFirstSeedCommits | KeyPersistenceService.cpp:37-47 | first boot with only the first seed commit succeeding counts one key: the first seed key, in slot 0, the only authorized key |
| KeyPersistenceProperties.FirstBootOnlySecondSeedCommits | KeyPersistenceService.cpp:37-47 | first boot with only the second seed commit succeeding: the second seed key overwrites slot 0, one key is counted and it is the only authorized key |
| KeyPersistenceProperties.FailedSeedingLeavesUnauthorizedAdmin | KeyPersistenceService.cpp:37-47 | first boot with both commits failing counts no key, yet the second seed key sits in slot 0 and is admin, and the stored count byte reads 1, so storage no longer agrees with the in-memory count of 0 |
| KeyPersistenceProperties.FortyByteScenario | KeyPersistenceService.cpp:37-77 | in a 40-byte region: the seed key is admin and authorized; one more key is added as authorized but not admin; the next append is refused and the count stays 3 |
| CapacityFindings.RejectsAsWritten | KeyPersistenceService.cpp:66 | the unsigned test, modulo 2^32: while the counted records fit it rejects exactly when one more record would not fit; once they run past the end of the region (by at most 2^32 - KEY_SIZE_BYTES bytes) it never rejects |
| CapacityFindings.RejectsAsWrittenWithinLayout | KeyPersistenceService.cpp:65-66 | while the counted records fit, the source's wrapping capacity test rejects exactly when one more record would not fit |
| CapacityFindings.AddKeyAsWritten | KeyPersistenceService.cpp:64-77 | the source's addKey with its unsigned capacity test and 8-bit count byte: success iff that test passes and the commit succeeds; a rejected append changes nothing; otherwise the key is in slot numberOfKeys, the count byte is numberOfKeys+1 modulo 256 and no other byte changes; numberOfKeys grows by one exactly on success; the counted records still fit |
| CapacityFindings.AddKeyAgreesWithSource | KeyPersistenceService.cpp:64-77 | when the counted records fit and numberOfKeys is below 255, the corrected AddKey and the source's addKey give identical results |
| CapacityFindings.TrustedCountDefeatsCapacityTest | KeyPersistenceService.cpp:52-69 | a 40-byte region with the guard and a count byte of 255 is trusted, and the wrapping test then accepts an append at address 3064 |
| CapacityFindings.AddKeyRefusesBeyondCapacity | KeyPersistenceService.cpp:65-69 | whatever count was trusted, the corrected AddKey refuses and changes nothing when one more record does not fit |
| CapacityFindings.CountByteWrapLosesKeys | KeyPersistenceService.cpp:72-75 | in a 3076-byte region at count 255, the source's append succeeds and the count byte wraps to 0, so a reboot authorizes nothing |
| CapacityFindings.CommittedAddKeySurvivesReboot | KeyPersistenceService.cpp:51-53 | after a successful corrected AddKey from a synchronised store, a reboot restores exactly the same store; at count 255 the corrected AddKey refuses |

## Left out

- `EEPROM.begin` and the storage driver's internals are not modelled. Storage is a byte sequence whose reads see all earlier
  writes. `EEPROM.commit()` is a boolean input.
- Durability is not modelled as a second medium. A write is visible whether or not its commit succeeded. What survives a power
  loss after a failed commit is outside the model.
- The struct reinterpretation in `EEPROM.put` and `EEPROM.get` is modelled as copying exactly KEY_SIZE_BYTES bytes.
- Record reads past the end of the region are treated as "no match". The driver's behaviour on such reads is not part of this
  model. They happen when a trusted count byte, or `NUMBER_OF_ADMIN_KEYS`, reaches beyond the region.
- `numberOfKeys` is modelled as an unbounded counter. Its declared width is in the header, which is not part of this model.
  The count byte it is written to is truncated to 8 bits explicitly.
- The initial value of `currentKey` in `keyExistsInFirstNEntries` (`KeyID currentKey = {0};` at KeyPersistenceService.cpp:81) is
  not modelled; the scan reads each slot fresh. In the visible code the only `KeyID` constructor takes a byte pointer, so `{0}`
  would pass a null pointer whose 12 bytes are then read, unless the header (not part of this model) declares a better match.
  That initial value would also be what gets compared if the driver left the destination untouched for a slot past the end of
  the region; the model treats such slots as no match.
- The seed admin keys are the source's placeholder values, all 0xFF and all 0xCC. Their concrete values matter only in
  `FortyByteScenario`.
- CapacityFindings.AddKeyAsWritten: requires the counted records to fit in the region. The out-of-range write it would issue
  after trusting a too-large count is shown only by `TrustedCountDefeatsCapacityTest`, not executed as a write.

## Findings

| source | as written | input that shows it | evidently intended | confidence | as-written member | corrected member |
|---|---|---|---|---|---|---|
| KeyPersistenceService.cpp:52-69 | `EEPROM_LENGTH - usedEEPROMSize < KEY_SIZE_BYTES` on unsigned integers, after trusting the stored count byte unchecked | EEPROM_LENGTH 40, region "key" then count byte 255: usedEEPROMSize is 3064, the subtraction wraps, and the append targets address 3064 | refuse the append whenever usedEEPROMSize + KEY_SIZE_BYTES exceeds EEPROM_LENGTH | medium, not executed | CapacityFindings.TrustedCountDefeatsCapacityTest | CapacityFindings.AddKeyRefusesBeyondCapacity |
| KeyPersistenceService.cpp:72-75 | the new count is written to a single byte with no limit on the count | EEPROM_LENGTH 3076 (room for 256 records), count 255: the append succeeds and writes count byte 0, so after a reboot no key is authorized | never count more records than the one-byte count field can hold (refuse at 255) | low, not executed (needs EEPROM_LENGTH of at least 3076) | CapacityFindings.CountByteWrapLosesKeys | CapacityFindings.CommittedAddKeySurvivesReboot |

`KeyPersistence.AddKey` uses the corrected capacity test: room means `usedEEPROMSize + KEY_SIZE_BYTES <= EEPROM_LENGTH` and a
count below 255. `CapacityFindings.AddKeyAgreesWithSource` proves that the correction changes nothing else.
