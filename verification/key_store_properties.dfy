/**
 What the key store promises across operations: how an append changes the
 authorized and admin sets, what a failed commit leaves behind, what first
 boot establishes, and that re-reading a synchronised region restores the
 store.
 */
module KeyPersistenceProperties {
  import opened KeyIds
  import opened Eeprom
  import opened Layout
  import opened KeyPersistence

  /**
   An append (committed or not) rewrites only record slot numberOfKeys and
   the count byte, so every other slot keeps its key.
   */
  lemma AddKeyKeepsOtherRecords(cfg: Config, s: Store, key: KeyId, commitSucceeds: bool, i: nat, k: KeyId)
    requires Wf(cfg, s) && i != s.numberOfKeys
    ensures RecordHolds(AddKey(cfg, s, key, commitSucceeds).store.mem, i, k) <==> RecordHolds(s.mem, i, k)
  {
    var m := AddKey(cfg, s, key, commitSucceeds).store.mem;
    var n := s.numberOfKeys;
    if RecordAddress(i) + KEY_SIZE_BYTES <= |s.mem| {
      if i < n {
        RecordsDisjoint(i, n);
      } else {
        RecordsDisjoint(n, i);
        if n == 0 {
          assert COUNT_ADDRESS < RecordAddress(n);
        }
      }
      assert COUNT_ADDRESS < RecordAddress(i) by {
        if i == 0 {
        } else {
          RecordsDisjoint(0, i);
        }
      }
      GetUnchangedOutsideWrite(s.mem, m, RecordAddress(i));
    }
  }

  /**
   A committed append authorizes exactly the keys authorized before plus the
   new key.
   */
  lemma AddKeyAuthorizesExactlyNewKey(cfg: Config, s: Store, key: KeyId, commitSucceeds: bool)
    requires Wf(cfg, s) && AddKey(cfg, s, key, commitSucceeds).added
    ensures forall k :: IsAuthorized(AddKey(cfg, s, key, commitSucceeds).store, k)
                        <==> IsAuthorized(s, k) || k == key
  {
    var s' := AddKey(cfg, s, key, commitSucceeds).store;
    forall k
      ensures IsAuthorized(s', k) <==> IsAuthorized(s, k) || k == key
    {
      if IsAuthorized(s', k) {
        var i :| 0 <= i < s'.numberOfKeys && RecordHolds(s'.mem, i, k);
        if i != s.numberOfKeys {
          AddKeyKeepsOtherRecords(cfg, s, key, commitSucceeds, i, k);
        }
      }
      if IsAuthorized(s, k) {
        var i :| 0 <= i < s.numberOfKeys && RecordHolds(s.mem, i, k);
        AddKeyKeepsOtherRecords(cfg, s, key, commitSucceeds, i, k);
        assert RecordHolds(s'.mem, i, k);
      }
      if k == key {
        assert RecordHolds(s'.mem, s.numberOfKeys, k);
      }
    }
  }

  /**
   An append whose commit fails (or that finds the store full) leaves the
   authorized set as it was, although the record bytes may have been written.
   */
  lemma FailedAddKeyAuthorizesNothingNew(cfg: Config, s: Store, key: KeyId, commitSucceeds: bool)
    requires Wf(cfg, s) && !AddKey(cfg, s, key, commitSucceeds).added
    ensures AddKey(cfg, s, key, commitSucceeds).store.numberOfKeys == s.numberOfKeys
    ensures forall k :: IsAuthorized(AddKey(cfg, s, key, commitSucceeds).store, k) <==> IsAuthorized(s, k)
  {
    var s' := AddKey(cfg, s, key, commitSucceeds).store;
    forall k
      ensures IsAuthorized(s', k) <==> IsAuthorized(s, k)
    {
      if IsAuthorized(s', k) {
        var i :| 0 <= i < s'.numberOfKeys && RecordHolds(s'.mem, i, k);
        AddKeyKeepsOtherRecords(cfg, s, key, commitSucceeds, i, k);
      }
      if IsAuthorized(s, k) {
        var i :| 0 <= i < s.numberOfKeys && RecordHolds(s.mem, i, k);
        AddKeyKeepsOtherRecords(cfg, s, key, commitSucceeds, i, k);
        assert RecordHolds(s'.mem, i, k);
      }
    }
  }

  /**
   After a failed commit the next append targets the same slot: if it
   commits, its key overwrites the one that was written but never counted.
   */
  lemma RetryAfterFailedCommit(cfg: Config, s: Store, lost: KeyId, key: KeyId)
    requires Wf(cfg, s) && HasRoomFor(cfg, s.numberOfKeys)
    ensures var failed := AddKey(cfg, s, lost, false).store;
            var r := AddKey(cfg, failed, key, true);
            && failed.numberOfKeys == s.numberOfKeys
            && r.added
            && r.store.numberOfKeys == s.numberOfKeys + 1
            && GetKey(r.store.mem, UsedSize(s.numberOfKeys)) == key
            && (forall k :: IsAuthorized(r.store, k) <==> IsAuthorized(s, k) || k == key)
  {
    var failed := AddKey(cfg, s, lost, false).store;
    FailedAddKeyAuthorizesNothingNew(cfg, s, lost, false);
    AddKeyAuthorizesExactlyNewKey(cfg, failed, key, true);
  }

  /**
   Once numberOfKeys reaches NUMBER_OF_ADMIN_KEYS, appends (committed or not)
   never change who is an administrator.
   */
  lemma AddKeyKeepsAdmins(cfg: Config, s: Store, key: KeyId, commitSucceeds: bool)
    requires Wf(cfg, s) && cfg.numberOfAdminKeys <= s.numberOfKeys
    ensures forall k :: IsAdmin(cfg, AddKey(cfg, s, key, commitSucceeds).store, k) <==> IsAdmin(cfg, s, k)
  {
    var s' := AddKey(cfg, s, key, commitSucceeds).store;
    forall k
      ensures IsAdmin(cfg, s', k) <==> IsAdmin(cfg, s, k)
    {
      if IsAdmin(cfg, s', k) {
        var i :| 0 <= i < cfg.numberOfAdminKeys && RecordHolds(s'.mem, i, k);
        AddKeyKeepsOtherRecords(cfg, s, key, commitSucceeds, i, k);
      }
      if IsAdmin(cfg, s, k) {
        var i :| 0 <= i < cfg.numberOfAdminKeys && RecordHolds(s.mem, i, k);
        AddKeyKeepsOtherRecords(cfg, s, key, commitSucceeds, i, k);
        assert RecordHolds(s'.mem, i, k);
      }
    }
  }

  /**
   While numberOfKeys is below NUMBER_OF_ADMIN_KEYS, an append that finds
   room lands in an administrator slot, and the admin scan (which ignores the
   count) sees the key even when the commit failed and the key is not
   authorized.
   */
  lemma AddKeyBelowAdminCountGrantsAdmin(cfg: Config, s: Store, key: KeyId, commitSucceeds: bool)
    requires Wf(cfg, s) && s.numberOfKeys < cfg.numberOfAdminKeys && HasRoomFor(cfg, s.numberOfKeys)
    ensures IsAdmin(cfg, AddKey(cfg, s, key, commitSucceeds).store, key)
  {
    assert RecordHolds(AddKey(cfg, s, key, commitSucceeds).store.mem, s.numberOfKeys, key);
  }

  /** With at least NUMBER_OF_ADMIN_KEYS records counted, every admin is authorized. */
  lemma AdminIsAuthorized(cfg: Config, s: Store, key: KeyId)
    requires cfg.numberOfAdminKeys <= s.numberOfKeys && IsAdmin(cfg, s, key)
    ensures IsAuthorized(s, key)
  {
    KeyInFirstMonotone(s.mem, key, cfg.numberOfAdminKeys, s.numberOfKeys);
  }

  /** A committed append keeps storage and memory synchronised. */
  lemma AddKeyKeepsSync(cfg: Config, s: Store, key: KeyId, commitSucceeds: bool)
    requires Wf(cfg, s) && GuardMatches(s.mem) && AddKey(cfg, s, key, commitSucceeds).added
    ensures InSync(cfg, AddKey(cfg, s, key, commitSucceeds).store)
  {
    var s' := AddKey(cfg, s, key, commitSucceeds).store;
    assert s'.mem[..INITGUARD_LENGTH] == s.mem[..INITGUARD_LENGTH];
  }

  /**
   Constructing a store over a synchronised region trusts the stored count,
   rewrites nothing and reproduces the store exactly, whatever the commits
   would have answered.
   */
  lemma ReloadRestoresStore(cfg: Config, s: Store, commit1: bool, commit2: bool)
    requires InSync(cfg, s)
    ensures Construct(cfg, s.mem, commit1, commit2) == s
  {
  }

  /**
   First boot over an unrecognised region, when both seed commits succeed and
   two records fit: the two seed keys sit in slots 0 and 1 in order, they are
   the only authorized keys, storage is synchronised, and both are admins when
   NUMBER_OF_ADMIN_KEYS is at least 2.
   */
  lemma FirstBootSeedsAdmins(cfg: Config, mem: Memory)
    requires cfg.Valid() && |mem| == cfg.eepromLength && !GuardMatches(mem)
    requires UsedSize(2) <= cfg.eepromLength
    ensures var s := Construct(cfg, mem, true, true);
            && s.numberOfKeys == 2
            && GetKey(s.mem, RecordAddress(0)) == ADMIN_KEY_1
            && GetKey(s.mem, RecordAddress(1)) == ADMIN_KEY_2
            && InSync(cfg, s)
            && (forall k :: IsAuthorized(s, k) <==> k == ADMIN_KEY_1 || k == ADMIN_KEY_2)
            && (2 <= cfg.numberOfAdminKeys ==> IsAdmin(cfg, s, ADMIN_KEY_1) && IsAdmin(cfg, s, ADMIN_KEY_2))
  {
    var initialized := ResetRegion(mem);
    var first := AddKey(cfg, initialized, ADMIN_KEY_1, true).store;
    var s := AddKey(cfg, first, ADMIN_KEY_2, true).store;
    assert s == Construct(cfg, mem, true, true);
    AddKeyAuthorizesExactlyNewKey(cfg, initialized, ADMIN_KEY_1, true);
    AddKeyAuthorizesExactlyNewKey(cfg, first, ADMIN_KEY_2, true);
    AddKeyKeepsSync(cfg, initialized, ADMIN_KEY_1, true);
    AddKeyKeepsSync(cfg, first, ADMIN_KEY_2, true);
    AddKeyKeepsOtherRecords(cfg, first, ADMIN_KEY_2, true, 0, ADMIN_KEY_1);
    assert RecordHolds(first.mem, 0, ADMIN_KEY_1);
    assert RecordHolds(s.mem, 0, ADMIN_KEY_1);
    assert RecordHolds(s.mem, 1, ADMIN_KEY_2);
  }

  /**
   First boot when only the first seed commit succeeds and one record fits:
   one key is counted, the first seed key in slot 0, and it is the only
   authorized key.
   */
  lemma FirstBootOnlyFirstSeedCommits(cfg: Config, mem: Memory)
    requires cfg.Valid() && |mem| == cfg.eepromLength && !GuardMatches(mem)
    requires UsedSize(1) <= cfg.eepromLength
    ensures var s := Construct(cfg, mem, true, false);
            && s.numberOfKeys == 1
            && GetKey(s.mem, RecordAddress(0)) == ADMIN_KEY_1
            && (forall k :: IsAuthorized(s, k) <==> k == ADMIN_KEY_1)
  {
    var initialized := ResetRegion(mem);
    var first := AddKey(cfg, initialized, ADMIN_KEY_1, true).store;
    var s := AddKey(cfg, first, ADMIN_KEY_2, false).store;
    assert s == Construct(cfg, mem, true, false);
    AddKeyAuthorizesExactlyNewKey(cfg, initialized, ADMIN_KEY_1, true);
    FailedAddKeyAuthorizesNothingNew(cfg, first, ADMIN_KEY_2, false);
    assert RecordHolds(first.mem, 0, ADMIN_KEY_1);
    AddKeyKeepsOtherRecords(cfg, first, ADMIN_KEY_2, false, 0, ADMIN_KEY_1);
    assert RecordHolds(s.mem, 0, ADMIN_KEY_1);
  }

  /**
   First boot when only the second seed commit succeeds and one record fits:
   the second seed key overwrites slot 0, one key is counted, and the second
   seed key is the only authorized key.
   */
  lemma FirstBootOnlySecondSeedCommits(cfg: Config, mem: Memory)
    requires cfg.Valid() && |mem| == cfg.eepromLength && !GuardMatches(mem)
    requires UsedSize(1) <= cfg.eepromLength
    ensures var s := Construct(cfg, mem, false, true);
            && s.numberOfKeys == 1
            && GetKey(s.mem, RecordAddress(0)) == ADMIN_KEY_2
            && (forall k :: IsAuthorized(s, k) <==> k == ADMIN_KEY_2)
  {
    var initialized := ResetRegion(mem);
    var lost := AddKey(cfg, initialized, ADMIN_KEY_1, false).store;
    var s := AddKey(cfg, lost, ADMIN_KEY_2, true).store;
    assert s == Construct(cfg, mem, false, true);
    FailedAddKeyAuthorizesNothingNew(cfg, initialized, ADMIN_KEY_1, false);
    AddKeyAuthorizesExactlyNewKey(cfg, lost, ADMIN_KEY_2, true);
  }

  /**
   First boot when both seed commits fail: the count stays 0, so no key is
   authorized, yet the second seed key was written into slot 0, which the
   admin scan still reads, and the count byte left in storage reads 1.
   */
  lemma FailedSeedingLeavesUnauthorizedAdmin(cfg: Config, mem: Memory)
    requires cfg.Valid() && |mem| == cfg.eepromLength && !GuardMatches(mem)
    requires UsedSize(1) <= cfg.eepromLength && 1 <= cfg.numberOfAdminKeys
    ensures var s := Construct(cfg, mem, false, false);
            && s.numberOfKeys == 0
            && (forall k :: !IsAuthorized(s, k))
            && RecordHolds(s.mem, 0, ADMIN_KEY_2)
            && s.mem[COUNT_ADDRESS] == CountByte(1)
            && IsAdmin(cfg, s, ADMIN_KEY_2)
  {
    var initialized := ResetRegion(mem);
    var first := AddKey(cfg, initialized, ADMIN_KEY_1, false).store;
    AddKeyBelowAdminCountGrantsAdmin(cfg, first, ADMIN_KEY_2, false);
  }

  /**
   A worked scenario: a 40-byte region with two admin slots and room for one
   more record. After first boot the seed key is admin and authorized and a
   new key is neither; appending the new key authorizes it without making it
   admin; a further append is refused for lack of room.
   */
  lemma FortyByteScenario()
    ensures var cfg := Config(2, 40);
            var s := Construct(cfg, seq(40, _ => 0), true, true);
            var visitor := KeyId([1, 1, 1, 1, 1, 1, 1, 1, 1, 1, 1, 1]);
            var other := KeyId([2, 2, 2, 2, 2, 2, 2, 2, 2, 2, 2, 2]);
            var r1 := AddKey(cfg, s, visitor, true);
            var r2 := AddKey(cfg, r1.store, other, true);
            && IsAdmin(cfg, s, ADMIN_KEY_1) && IsAuthorized(s, ADMIN_KEY_1)
            && !IsAuthorized(s, visitor)
            && r1.added && r1.store.numberOfKeys == 3
            && IsAuthorized(r1.store, visitor) && !IsAdmin(cfg, r1.store, visitor)
            && !r2.added && r2.store.numberOfKeys == 3
  {
    var cfg := Config(2, 40);
    var mem: Memory := seq(40, _ => 0);
    assert mem[0] != INITGUARD[0];
    var s := Construct(cfg, mem, true, true);
    var visitor := KeyId([1, 1, 1, 1, 1, 1, 1, 1, 1, 1, 1, 1]);
    assert visitor != ADMIN_KEY_1 && visitor != ADMIN_KEY_2 by {
      assert visitor.bytes[0] != ADMIN_KEY_1.bytes[0] && visitor.bytes[0] != ADMIN_KEY_2.bytes[0];
    }
    FirstBootSeedsAdmins(cfg, mem);
    assert s.numberOfKeys == 2 && Wf(cfg, s);
    assert HasRoomFor(cfg, 2) && !HasRoomFor(cfg, 3);
    AddKeyAuthorizesExactlyNewKey(cfg, s, visitor, true);
    AddKeyKeepsAdmins(cfg, s, visitor, true);
    assert !IsAdmin(cfg, s, visitor) by {
      if IsAdmin(cfg, s, visitor) {
        AdminIsAuthorized(cfg, s, visitor);
      }
    }
  }
}
