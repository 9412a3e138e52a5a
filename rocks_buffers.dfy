/**
 * The thread-local buffers the RocksDB index operations reuse
 * (`IndexBufferManager`) and the prefixed-key builders.  A `std::string`
 * used as a buffer is a `StringBuffer`: its bytes and its capacity.  The
 * capacity grows to exactly what is reserved or appended; a library's
 * geometric growth is not modelled.
 */
module RocksBuffers {
  import opened Bytes

  function Max(a: nat, b: nat): nat { if a < b then b else a }

  class StringBuffer {
    var contents: seq<byte>
    var capacity: nat

    predicate Valid()
      reads this
    {
      |contents| <= capacity
    }

    constructor()
      ensures Valid() && contents == [] && capacity == 0
    {
      contents, capacity := [], 0;
    }

    /** `clear()`: empties the buffer and keeps its storage. */
    method Clear()
      requires Valid()
      modifies this
      ensures Valid() && contents == [] && capacity == old(capacity)
    {
      contents := [];
    }

    /** `reserve(n)` as the sources call it, only to grow. */
    method Reserve(n: nat)
      requires Valid() && capacity < n
      modifies this
      ensures Valid() && contents == old(contents) && capacity == n
    {
      capacity := n;
    }

    /** `append`: the bytes at the end; storage grows only when they do not fit. */
    method Append(s: seq<byte>)
      requires Valid()
      modifies this
      ensures Valid() && contents == old(contents) + s
      ensures capacity == Max(old(capacity), |old(contents)| + |s|)
    {
      contents := contents + s;
      if capacity < |contents| {
        capacity := |contents|;
      }
    }
  }

  datatype KeyStringVersion = V0 | V1

  /** A `KeyString`: its encoded bytes and its type bits, of one format version. */
  class KeyString {
    const version: KeyStringVersion
    var buffer: seq<byte>
    var typeBits: seq<byte>

    constructor(version: KeyStringVersion)
      ensures this.version == version && buffer == [] && typeBits == []
    {
      this.version := version;
      buffer, typeBits := [], [];
    }

    /** `resetToKey`: the encoding of a key (computed by the caller) replaces the previous one. */
    method ResetToKey(encoded: seq<byte>, bits: seq<byte>)
      modifies this
      ensures buffer == encoded && typeBits == bits
    {
      buffer, typeBits := encoded, bits;
    }
  }

  /**
   * `IndexBufferManager`: one per thread, holding a `KeyString` and the
   * prefixed-key and value buffers.
   */
  class IndexBufferManager {
    var keyString: KeyString?
    var keyStringVersion: KeyStringVersion
    const prefixedKeyBuffer: StringBuffer
    const valueBuffer: StringBuffer

    predicate Valid()
      reads this, prefixedKeyBuffer, valueBuffer
    {
      prefixedKeyBuffer != valueBuffer && prefixedKeyBuffer.Valid() && valueBuffer.Valid() &&
      (keyString != null ==> keyString.version == keyStringVersion)
    }

    /** Starts with no `KeyString`, version V0, and 256 and 64 bytes reserved. */
    constructor()
      ensures Valid() && fresh(prefixedKeyBuffer) && fresh(valueBuffer)
      ensures keyString == null && keyStringVersion == V0
      ensures prefixedKeyBuffer.contents == [] && prefixedKeyBuffer.capacity == 256
      ensures valueBuffer.contents == [] && valueBuffer.capacity == 64
    {
      var p := new StringBuffer();
      var v := new StringBuffer();
      p.Reserve(256);
      v.Reserve(64);
      keyString, keyStringVersion := null, V0;
      prefixedKeyBuffer, valueBuffer := p, v;
    }

    /**
     * `getKeyString`: the same `KeyString` as before when one exists for
     * this version, otherwise a new one of this version.
     */
    method GetKeyString(version: KeyStringVersion) returns (ks: KeyString)
      requires Valid()
      modifies this
      ensures Valid()
      ensures keyString == ks && keyStringVersion == version && ks.version == version
      ensures old(keyString) != null && old(keyStringVersion) == version ==> ks == old(keyString)
      ensures old(keyString) == null || old(keyStringVersion) != version ==> fresh(ks)
    {
      if keyString == null || keyStringVersion != version {
        keyString := new KeyString(version);
        keyStringVersion := version;
      }
      ks := keyString;
    }

    /** `getPrefixedKeyBuffer`: the prefixed-key buffer, emptied. */
    method GetPrefixedKeyBuffer() returns (b: StringBuffer)
      requires Valid()
      modifies prefixedKeyBuffer
      ensures Valid() && b == prefixedKeyBuffer && b.contents == [] && b.capacity == old(b.capacity)
    {
      prefixedKeyBuffer.Clear();
      b := prefixedKeyBuffer;
    }

    /** `getValueBuffer`: the value buffer, emptied. */
    method GetValueBuffer() returns (b: StringBuffer)
      requires Valid()
      modifies valueBuffer
      ensures Valid() && b == valueBuffer && b.contents == [] && b.capacity == old(b.capacity)
    {
      valueBuffer.Clear();
      b := valueBuffer;
    }

    /** `reserveCapacity`: each buffer ends with at least the capacity asked for, and never less than it had. */
    method ReserveCapacity(prefixedKeySize: nat, valueSize: nat)
      requires Valid()
      modifies prefixedKeyBuffer, valueBuffer
      ensures Valid()
      ensures prefixedKeyBuffer.contents == old(prefixedKeyBuffer.contents) &&
              prefixedKeyBuffer.capacity == Max(old(prefixedKeyBuffer.capacity), prefixedKeySize)
      ensures valueBuffer.contents == old(valueBuffer.contents) &&
              valueBuffer.capacity == Max(old(valueBuffer.capacity), valueSize)
    {
      if prefixedKeyBuffer.capacity < prefixedKeySize {
        prefixedKeyBuffer.Reserve(prefixedKeySize);
      }
      if valueBuffer.capacity < valueSize {
        valueBuffer.Reserve(valueSize);
      }
    }
  }

  /**
   * `buildPrefixedKey` (and `_makePrefixedKeyDirect`, whose body is the
   * same): the buffer ends up holding exactly the prefix followed by the
   * key, whatever it held before, after at most one growth of its storage.
   */
  method BuildPrefixedKey(prefix: seq<byte>, encodedKey: KeyString, out: StringBuffer)
    requires out.Valid()
    modifies out
    ensures out.Valid() && out.contents == prefix + encodedKey.buffer
    ensures out.capacity == Max(old(out.capacity), |prefix| + |encodedKey.buffer|)
  {
    BuildPrefixedKeyInline(prefix, encodedKey.buffer, |encodedKey.buffer|, out);
  }

  /** `buildPrefixedKeyInline`: the same from a raw pointer and a size. */
  method BuildPrefixedKeyInline(prefix: seq<byte>, keyData: seq<byte>, keySize: nat, out: StringBuffer)
    requires keySize <= |keyData| && out.Valid()
    modifies out
    ensures out.Valid() && out.contents == prefix + keyData[..keySize]
    ensures out.capacity == Max(old(out.capacity), |prefix| + keySize)
  {
    out.Clear();
    var totalSize := |prefix| + keySize;
    if out.capacity < totalSize {
      out.Reserve(totalSize);
    }
    out.Append(prefix);
    out.Append(keyData[..keySize]);
  }
}
