/**
 The capacity test of `addKey` exactly as the source writes it, next to the
 corrected test that `KeyPersistence.AddKey` uses, with inputs that tell the
 two apart.

 As written, the test is `EEPROM_LENGTH - usedEEPROMSize < KEY_SIZE_BYTES` on
 32-bit unsigned integers, and the new count is stored in a single byte.
 */
module CapacityFindings {
  import opened KeyIds
  import opened Eeprom
  import opened Layout
  import opened KeyPersistence
  import KeyPersistenceProperties

  const UINT_RANGE: int := 0x1_0000_0000

  /**
   The source's rejection test, with the unsigned subtraction wrapping modulo
   2^32. While the counted records fit, it rejects exactly when one more
   record would not; once they run past the end of the region (by less than
   2^32 - KEY_SIZE_BYTES bytes), the wrapped difference is huge and it never
   rejects.
   */
  predicate RejectsAsWritten(cfg: Config, n: nat): (rej: bool)
    ensures UsedSize(n) <= cfg.eepromLength < UINT_RANGE ==>
              (rej <==> cfg.eepromLength < UsedSize(n) + KEY_SIZE_BYTES)
    ensures (cfg.eepromLength < UsedSize(n) < UINT_RANGE
             && UsedSize(n) - cfg.eepromLength <= UINT_RANGE - KEY_SIZE_BYTES) ==> !rej
  {
    (cfg.eepromLength - UsedSize(n) % UINT_RANGE) % UINT_RANGE < KEY_SIZE_BYTES
  }

  /**
   While the counted records fit in the region, the source's test rejects
   exactly when one more record would not fit.
   */
  lemma RejectsAsWrittenWithinLayout(cfg: Config, n: nat)
    requires cfg.Valid() && UsedSize(n) <= cfg.eepromLength
    ensures RejectsAsWritten(cfg, n) <==> cfg.eepromLength < UsedSize(n) + KEY_SIZE_BYTES
  {
  }

  /**
   `addKey` exactly as written: the capacity test above, then the record and
   the count byte (truncated to 8 bits), then the commit. Stated for stores
   whose counted records fit, where the writes stay inside the region.
   */
  function AddKeyAsWritten(cfg: Config, s: Store, key: KeyId, commitSucceeds: bool): (r: AddOutcome)
    requires LayoutHolds(cfg, s)
    ensures Wf(cfg, r.store)
    ensures r.added <==> !RejectsAsWritten(cfg, s.numberOfKeys) && commitSucceeds
    ensures r.store.numberOfKeys == if r.added then s.numberOfKeys + 1 else s.numberOfKeys
    ensures RejectsAsWritten(cfg, s.numberOfKeys) ==> r.store == s
    ensures !RejectsAsWritten(cfg, s.numberOfKeys) ==>
              && RecordHolds(r.store.mem, s.numberOfKeys, key)
              && r.store.mem[COUNT_ADDRESS] == CountByte(s.numberOfKeys + 1)
    ensures forall j :: 0 <= j < |s.mem| && j != COUNT_ADDRESS
                        && !(UsedSize(s.numberOfKeys) <= j < UsedSize(s.numberOfKeys) + KEY_SIZE_BYTES)
                        ==> r.store.mem[j] == s.mem[j]
    ensures LayoutHolds(cfg, r.store)
  {
    var used := UsedSize(s.numberOfKeys);
    RejectsAsWrittenWithinLayout(cfg, s.numberOfKeys);
    if RejectsAsWritten(cfg, s.numberOfKeys) then
      AddOutcome(s, false)
    else
      var written := PutKey(s.mem, used, key)[COUNT_ADDRESS := CountByte(s.numberOfKeys + 1)];
      GetAfterPut(s.mem, used, key);
      GetUnchangedOutsideWrite(PutKey(s.mem, used, key), written, used);
      if commitSucceeds then
        AddOutcome(Store(written, s.numberOfKeys + 1), true)
      else
        AddOutcome(Store(written, s.numberOfKeys), false)
  }

  /**
   The corrected append behaves exactly like the source's whenever the
   counted records fit and the count is below the byte limit: the
   correction only changes the cases shown below.
   */
  lemma AddKeyAgreesWithSource(cfg: Config, s: Store, key: KeyId, commitSucceeds: bool)
    requires LayoutHolds(cfg, s) && s.numberOfKeys < MAX_COUNT_BYTE
    ensures AddKey(cfg, s, key, commitSucceeds) == AddKeyAsWritten(cfg, s, key, commitSucceeds)
  {
    RejectsAsWrittenWithinLayout(cfg, s.numberOfKeys);
  }

  /** A 40-byte region whose guard matches and whose count byte reads 255. */
  function TrustedHugeCountRegion(): (mem: Memory)
    ensures |mem| == 40 && GuardMatches(mem) && mem[COUNT_ADDRESS] == 0xFF
  {
    var mem := INITGUARD + [0xFF] + seq(36, _ => 0);
    assert mem[..INITGUARD_LENGTH] == INITGUARD;
    mem
  }

  /**
   Finding 1 as written: construction trusts a count byte of 255 in a 40-byte
   region, so the counted records run past the end of the region; the
   unsigned subtraction then wraps to a huge value and the source's test lets
   the append through, targeting address 3064.
   */
  lemma TrustedCountDefeatsCapacityTest()
    ensures var cfg := Config(2, 40);
            var s := Construct(cfg, TrustedHugeCountRegion(), true, true);
            && s.numberOfKeys == 255
            && !RejectsAsWritten(cfg, s.numberOfKeys)
            && cfg.eepromLength < UsedSize(s.numberOfKeys) + KEY_SIZE_BYTES
  {
  }

  /**
   Finding 1 corrected: whenever one more record would not fit, whatever
   count was trusted, the corrected append refuses and changes nothing.
   */
  lemma AddKeyRefusesBeyondCapacity(cfg: Config, s: Store, key: KeyId, commitSucceeds: bool)
    requires Wf(cfg, s) && cfg.eepromLength < UsedSize(s.numberOfKeys) + KEY_SIZE_BYTES
    ensures AddKey(cfg, s, key, commitSucceeds) == AddOutcome(s, false)
  {
  }

  /** A 3076-byte region, synchronised with a count of 255: room for exactly one more record. */
  function FullCountRegion(): (mem: Memory)
    ensures |mem| == 3076 && GuardMatches(mem) && mem[COUNT_ADDRESS] == CountByte(255)
  {
    var mem := INITGUARD + [0xFF] + seq(3072, _ => 0);
    assert mem[..INITGUARD_LENGTH] == INITGUARD;
    mem
  }

  /**
   Finding 2 as written: with room for a 256th record, the source appends it
   and the count byte wraps to 0. The key is authorized in memory, but a
   reboot over the same region trusts the count byte and authorizes nothing.
   */
  lemma CountByteWrapLosesKeys(key: KeyId)
    ensures var cfg := Config(2, 3076);
            var s := Store(FullCountRegion(), 255);
            var r := AddKeyAsWritten(cfg, s, key, true);
            var rebooted := Construct(cfg, r.store.mem, true, true);
            && InSync(cfg, s)
            && r.added
            && IsAuthorized(r.store, key)
            && rebooted.numberOfKeys == 0
            && !IsAuthorized(rebooted, key)
  {
    var cfg := Config(2, 3076);
    var s := Store(FullCountRegion(), 255);
    var r := AddKeyAsWritten(cfg, s, key, true);
    assert RecordHolds(r.store.mem, 255, key);
    assert r.store.mem[..INITGUARD_LENGTH] == s.mem[..INITGUARD_LENGTH];
  }

  /**
   Finding 2 corrected: from any synchronised store, a committed append keeps
   storage synchronised, so a reboot restores exactly the same store; at a
   count of 255 the corrected append refuses instead.
   */
  lemma CommittedAddKeySurvivesReboot(cfg: Config, s: Store, key: KeyId, commit1: bool, commit2: bool)
    requires InSync(cfg, s)
    ensures s.numberOfKeys == MAX_COUNT_BYTE ==> !AddKey(cfg, s, key, true).added
    ensures var r := AddKey(cfg, s, key, true);
            r.added ==> Construct(cfg, r.store.mem, commit1, commit2) == r.store
  {
    var r := AddKey(cfg, s, key, true);
    if r.added {
      KeyPersistenceProperties.AddKeyKeepsSync(cfg, s, key, true);
      KeyPersistenceProperties.ReloadRestoresStore(cfg, r.store, commit1, commit2);
    }
  }
}
