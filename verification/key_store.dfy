/**
 `KeyPersistenceService` as a functional state machine. A store is the
 storage region together with the in-memory key count; construction and
 `addKey` are pure transitions that take the outcome of each storage commit
 as an input.
 */
module KeyPersistence {
  import opened KeyIds
  import opened Eeprom
  import opened Layout

  /** The storage region and the in-memory `numberOfKeys`. */
  datatype Store = Store(mem: Memory, numberOfKeys: nat)

  /** What `addKey` leaves behind, and what it returns. */
  datatype AddOutcome = AddOutcome(store: Store, added: bool)

  /** The two seed administrator keys written on first boot. */
  const ADMIN_KEY_1: KeyId := KeyId([0xFF, 0xFF, 0xFF, 0xFF, 0xFF, 0xFF, 0xFF, 0xFF, 0xFF, 0xFF, 0xFF, 0xFF])
  const ADMIN_KEY_2: KeyId := KeyId([0xCC, 0xCC, 0xCC, 0xCC, 0xCC, 0xCC, 0xCC, 0xCC, 0xCC, 0xCC, 0xCC, 0xCC])

  /** The store's region has the configured size. */
  predicate Wf(cfg: Config, s: Store) {
    cfg.Valid() && |s.mem| == cfg.eepromLength
  }

  /** Every record the count admits lies inside the region. */
  predicate LayoutHolds(cfg: Config, s: Store) {
    Wf(cfg, s) && UsedSize(s.numberOfKeys) <= cfg.eepromLength
  }

  /**
   Storage describes exactly the in-memory state: the guard is in place and
   the count byte equals the in-memory count.
   */
  predicate InSync(cfg: Config, s: Store) {
    && LayoutHolds(cfg, s)
    && GuardMatches(s.mem)
    && s.numberOfKeys <= MAX_COUNT_BYTE
    && s.mem[COUNT_ADDRESS] == CountByte(s.numberOfKeys)
  }

  /** `keyIsAuthorized`: key is one of the first numberOfKeys records. */
  predicate IsAuthorized(s: Store, key: KeyId) {
    KeyInFirst(s.mem, key, s.numberOfKeys)
  }

  /** `keyIsAdmin`: key is one of the first NUMBER_OF_ADMIN_KEYS records, whatever the count. */
  predicate IsAdmin(cfg: Config, s: Store, key: KeyId) {
    KeyInFirst(s.mem, key, cfg.numberOfAdminKeys)
  }

  /**
   The capacity test of `addKey`: one more record fits in the region, and the
   count byte can still describe the new count (see the findings module).
   */
  predicate HasRoomFor(cfg: Config, n: nat) {
    UsedSize(n) + KEY_SIZE_BYTES <= cfg.eepromLength && n < MAX_COUNT_BYTE
  }

  /**
   `addKey`: append key after the last trusted record, write the new count
   byte, then commit. The in-memory count advances only when the commit
   succeeds; a full store is left untouched.
   */
  function AddKey(cfg: Config, s: Store, key: KeyId, commitSucceeds: bool): (r: AddOutcome)
    requires Wf(cfg, s)
    ensures Wf(cfg, r.store)
    ensures r.added <==> HasRoomFor(cfg, s.numberOfKeys) && commitSucceeds
    ensures r.store.numberOfKeys == if r.added then s.numberOfKeys + 1 else s.numberOfKeys
    ensures !HasRoomFor(cfg, s.numberOfKeys) ==> r.store == s
    ensures HasRoomFor(cfg, s.numberOfKeys) ==>
              && RecordHolds(r.store.mem, s.numberOfKeys, key)
              && r.store.mem[COUNT_ADDRESS] == CountByte(s.numberOfKeys + 1)
    ensures forall j :: 0 <= j < |s.mem| && j != COUNT_ADDRESS
                        && !(UsedSize(s.numberOfKeys) <= j < UsedSize(s.numberOfKeys) + KEY_SIZE_BYTES)
                        ==> r.store.mem[j] == s.mem[j]
    ensures LayoutHolds(cfg, s) || r.added ==> LayoutHolds(cfg, r.store)
  {
    var used := UsedSize(s.numberOfKeys);
    if !HasRoomFor(cfg, s.numberOfKeys) then
      AddOutcome(s, false)
    else
      var written := PutKey(s.mem, used, key)[COUNT_ADDRESS := CountByte(s.numberOfKeys + 1)];
      GetAfterPut(s.mem, used, key);
      GetUnchangedOutsideWrite(PutKey(s.mem, used, key), written, used);
      if commitSucceeds then
        AddOutcome(Store(written, s.numberOfKeys + 1), true)
      else
        AddOutcome(Store(written, s.numberOfKeys), false)
  }

  /**
   The first-boot reset of the constructor: the guard and a zero count byte
   are written over an unrecognised region, and the in-memory count is 0.
   The record bytes are left as they were.
   */
  function ResetRegion(mem: Memory): (s: Store)
    requires FIRST_RECORD_ADDRESS <= |mem|
    ensures |s.mem| == |mem| && s.numberOfKeys == 0
    ensures GuardMatches(s.mem) && s.mem[COUNT_ADDRESS] == CountByte(0)
    ensures forall j :: FIRST_RECORD_ADDRESS <= j < |mem| ==> s.mem[j] == mem[j]
  {
    var m := WriteBytes(mem, 0, INITGUARD)[COUNT_ADDRESS := CountByte(0)];
    assert m[..INITGUARD_LENGTH] == INITGUARD;
    Store(m, 0)
  }

  /**
   The constructor. A region whose first bytes spell the guard is trusted,
   count byte included, and nothing is written. Otherwise the guard and a
   zero count are written and the two seed administrator keys appended in
   order, each append with its own commit outcome.
   */
  function Construct(cfg: Config, mem: Memory, commit1: bool, commit2: bool): (s: Store)
    requires cfg.Valid() && |mem| == cfg.eepromLength
    ensures Wf(cfg, s)
    ensures GuardMatches(mem) ==> s.mem == mem && s.numberOfKeys == mem[COUNT_ADDRESS] as nat
    ensures !GuardMatches(mem) ==> GuardMatches(s.mem) && LayoutHolds(cfg, s) && s.numberOfKeys <= 2
  {
    if GuardMatches(mem) then
      Store(mem, mem[COUNT_ADDRESS] as nat)
    else
      var initialized := ResetRegion(mem);
      var first := AddKey(cfg, initialized, ADMIN_KEY_1, commit1).store;
      AddKey(cfg, first, ADMIN_KEY_2, commit2).store
  }

  /**
   The guard comparison loop of the constructor: reads the first
   INITGUARD_LENGTH bytes and gives up at the first byte that differs.
   */
  method CheckInitGuard(mem: Memory) returns (isInitializedProperly: bool)
    requires |mem| >= INITGUARD_LENGTH
    ensures isInitializedProperly <==> forall i :: 0 <= i < INITGUARD_LENGTH ==> mem[i] == INITGUARD[i]
    ensures isInitializedProperly <==> GuardMatches(mem)
  {
    isInitializedProperly := true;
    var i := 0;
    while i < INITGUARD_LENGTH
      invariant 0 <= i <= INITGUARD_LENGTH
      invariant forall j :: 0 <= j < i ==> mem[j] == INITGUARD[j]
    {
      if mem[i] != INITGUARD[i] {
        isInitializedProperly := false;
        break;
      }
      i := i + 1;
    }
    if isInitializedProperly {
      assert mem[..INITGUARD_LENGTH] == INITGUARD;
    }
  }

  /** `keyIsAuthorized` as the source computes it, by the record scan. */
  method KeyIsAuthorized(s: Store, key: KeyId) returns (r: bool)
    ensures r <==> IsAuthorized(s, key)
  {
    r := KeyExistsInFirstNEntries(s.mem, key, s.numberOfKeys);
  }

  /** `keyIsAdmin` as the source computes it, by the record scan. */
  method KeyIsAdmin(cfg: Config, s: Store, key: KeyId) returns (r: bool)
    ensures r <==> IsAdmin(cfg, s, key)
  {
    r := KeyExistsInFirstNEntries(s.mem, key, cfg.numberOfAdminKeys);
  }
}
