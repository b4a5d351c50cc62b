/**
 The byte-addressable storage region, as the key store sees it: a sequence of
 bytes of fixed length in which every read sees the latest write. Writing a
 key (`EEPROM.put`) copies its KEY_SIZE_BYTES bytes to an address; reading one
 (`EEPROM.get`) copies them back.
 */
module Eeprom {
  import opened KeyIds

  type Memory = seq<Byte>

  /** Overwrites |bytes| consecutive bytes starting at addr. */
  function WriteBytes(mem: Memory, addr: nat, bytes: seq<Byte>): (m: Memory)
    requires addr + |bytes| <= |mem|
    ensures |m| == |mem|
    ensures m[addr..addr + |bytes|] == bytes
    ensures forall j :: 0 <= j < |mem| && !(addr <= j < addr + |bytes|) ==> m[j] == mem[j]
  {
    mem[..addr] + bytes + mem[addr + |bytes|..]
  }

  /** `EEPROM.put` of a key record at addr. */
  function PutKey(mem: Memory, addr: nat, key: KeyId): Memory
    requires addr + KEY_SIZE_BYTES <= |mem|
  {
    WriteBytes(mem, addr, key.bytes)
  }

  /** `EEPROM.get` of a key record at addr. */
  function GetKey(mem: Memory, addr: nat): KeyId
    requires addr + KEY_SIZE_BYTES <= |mem|
  {
    KeyId(mem[addr..addr + KEY_SIZE_BYTES])
  }

  /** Reading a record back where it was written yields the written key. */
  lemma GetAfterPut(mem: Memory, addr: nat, key: KeyId)
    requires addr + KEY_SIZE_BYTES <= |mem|
    ensures GetKey(PutKey(mem, addr, key), addr) == key
  {
  }

  /**
   A record whose bytes all lie outside the range a write touched reads the
   same before and after the write.
   */
  lemma GetUnchangedOutsideWrite(mem: Memory, m: Memory, addr: nat)
    requires |m| == |mem| && addr + KEY_SIZE_BYTES <= |mem|
    requires forall j :: addr <= j < addr + KEY_SIZE_BYTES ==> m[j] == mem[j]
    ensures GetKey(m, addr) == GetKey(mem, addr)
  {
    assert m[addr..addr + KEY_SIZE_BYTES] == mem[addr..addr + KEY_SIZE_BYTES];
  }
}
