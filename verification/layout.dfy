/**
 The on-storage layout of the key store:

   [0 .. INITGUARD_LENGTH)   the guard signature "key"
   [INITGUARD_LENGTH]        the record count, one unsigned byte
   [INITGUARD_LENGTH + 1 ..) consecutive KEY_SIZE_BYTES-byte key records

 and the record scan that both queries are built on.
 */
module Layout {
  import opened KeyIds
  import opened Eeprom

  const INITGUARD_LENGTH: nat := 3

  /** The guard signature, the ASCII bytes of "key". */
  const INITGUARD: seq<Byte> := [0x6B, 0x65, 0x79]

  /** Address of the one-byte record count. */
  const COUNT_ADDRESS: nat := INITGUARD_LENGTH

  /** Address of record 0. */
  const FIRST_RECORD_ADDRESS: nat := INITGUARD_LENGTH + 1

  /** The largest count the one-byte count field can hold. */
  const MAX_COUNT_BYTE: nat := 255

  /**
   The deployment constants that live in a header outside this model:
   NUMBER_OF_ADMIN_KEYS and EEPROM_LENGTH. The region must at least hold the
   guard and the count byte, and its size fits an `unsigned int`.
   */
  datatype Config = Config(numberOfAdminKeys: nat, eepromLength: nat) {
    predicate Valid() {
      FIRST_RECORD_ADDRESS <= eepromLength < 0x1_0000_0000
    }
  }

  /** Address of record i. */
  function RecordAddress(i: nat): nat {
    FIRST_RECORD_ADDRESS + i * KEY_SIZE_BYTES
  }

  /** `usedEEPROMSize`: the bytes taken by the guard, the count and n records. */
  function UsedSize(n: nat): (u: nat)
    ensures FIRST_RECORD_ADDRESS <= u
    ensures (u - FIRST_RECORD_ADDRESS) % KEY_SIZE_BYTES == 0
    ensures (u - FIRST_RECORD_ADDRESS) / KEY_SIZE_BYTES == n
  {
    RecordAddress(n)
  }

  /** The byte written to the count field for a count n (truncated to 8 bits). */
  function CountByte(n: nat): (b: Byte)
    ensures b as nat == n % 256
    ensures n <= MAX_COUNT_BYTE ==> b as nat == n
  {
    (n % 256) as Byte
  }

  /** The first INITGUARD_LENGTH bytes spell the guard signature. */
  predicate GuardMatches(mem: Memory) {
    |mem| >= INITGUARD_LENGTH && mem[..INITGUARD_LENGTH] == INITGUARD
  }

  /**
   Record slot i lies inside the region and holds key. A slot that would run
   past the end of the region holds no key.
   */
  predicate RecordHolds(mem: Memory, i: nat, key: KeyId) {
    RecordAddress(i) + KEY_SIZE_BYTES <= |mem| && GetKey(mem, RecordAddress(i)) == key
  }

  /** The reference meaning of `keyExistsInFirstNEntries(key, n)`. */
  predicate KeyInFirst(mem: Memory, key: KeyId, n: nat) {
    exists i :: 0 <= i < n && RecordHolds(mem, i, key)
  }

  /** Record slots follow each other without overlap, after the count byte. */
  lemma RecordsDisjoint(i: nat, j: nat)
    requires i < j
    ensures COUNT_ADDRESS < RecordAddress(i)
    ensures RecordAddress(i) + KEY_SIZE_BYTES <= RecordAddress(j)
  {
    assert (i + 1) * KEY_SIZE_BYTES <= j * KEY_SIZE_BYTES;
  }

  /** Scanning more slots can only find more keys. */
  lemma KeyInFirstMonotone(mem: Memory, key: KeyId, n: nat, m: nat)
    requires n <= m && KeyInFirst(mem, key, n)
    ensures KeyInFirst(mem, key, m)
  {
  }

  /**
   `keyExistsInFirstNEntries`: walks the first n record slots, the address
   advancing by KEY_SIZE_BYTES, and stops at the first slot equal to key.
   */
  method KeyExistsInFirstNEntries(mem: Memory, key: KeyId, n: nat) returns (found: bool)
    ensures found <==> KeyInFirst(mem, key, n)
  {
    var addr := FIRST_RECORD_ADDRESS;
    var i := 0;
    while i < n
      invariant i <= n
      invariant addr == RecordAddress(i)
      invariant forall j :: 0 <= j < i ==> !RecordHolds(mem, j, key)
    {
      if addr + KEY_SIZE_BYTES <= |mem| {
        var current := GetKey(mem, addr);
        var same := Equal(current, key);
        if same {
          assert RecordHolds(mem, i, key);
          return true;
        }
      }
      addr := addr + KEY_SIZE_BYTES;
      i := i + 1;
    }
    return false;
  }
}
