/**
 This module models the `KeyID` value type: a fixed-width opaque identifier
 of KEY_SIZE_BYTES bytes, compared byte by byte.
 */
module KeyIds {

  /** An unsigned 8-bit value, the unit of storage. */
  newtype Byte = x: int | 0 <= x < 256

  /** Width of one key identifier, and of one stored key record, in bytes. */
  const KEY_SIZE_BYTES: nat := 12

  /** Exactly KEY_SIZE_BYTES bytes; every bit pattern is a legal identifier. */
  type KeyBytes = s: seq<Byte> | |s| == KEY_SIZE_BYTES witness seq(KEY_SIZE_BYTES, _ => 0)

  datatype KeyId = KeyId(bytes: KeyBytes)

  /**
   The converting constructor: copies the first KEY_SIZE_BYTES bytes of the
   caller's buffer, one at a time, and keeps no reference to the buffer.
   */
  method NewKeyId(buffer: seq<Byte>) returns (k: KeyId)
    requires |buffer| >= KEY_SIZE_BYTES
    ensures forall i :: 0 <= i < KEY_SIZE_BYTES ==> k.bytes[i] == buffer[i]
    ensures |buffer| == KEY_SIZE_BYTES ==> k.bytes == buffer
  {
    var copied: seq<Byte> := [];
    var i := 0;
    while i < KEY_SIZE_BYTES
      invariant 0 <= i <= KEY_SIZE_BYTES
      invariant |copied| == i
      invariant forall j :: 0 <= j < i ==> copied[j] == buffer[j]
    {
      copied := copied + [buffer[i]];
      i := i + 1;
    }
    k := KeyId(copied);
  }

  /**
   `operator==`: scans the bytes pairwise and stops at the first mismatch.
   The answer is exactly value equality of the two identifiers.
   */
  method Equal(a: KeyId, b: KeyId) returns (r: bool)
    ensures r <==> (forall i :: 0 <= i < KEY_SIZE_BYTES ==> a.bytes[i] == b.bytes[i])
    ensures r <==> a == b
  {
    var i := 0;
    while i < KEY_SIZE_BYTES
      invariant 0 <= i <= KEY_SIZE_BYTES
      invariant forall j :: 0 <= j < i ==> a.bytes[j] == b.bytes[j]
    {
      if a.bytes[i] != b.bytes[i] {
        return false;
      }
      i := i + 1;
    }
    assert a.bytes == b.bytes;
    return true;
  }
}
