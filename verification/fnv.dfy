/**
 The 32-bit FNV-1a hash of ble_uart_mx/fnv_hash.h. The running hash is a
 `uint32_t`, so the multiplication by the FNV prime wraps modulo 2^32; the
 model keeps it in `bv32`, whose multiplication wraps the same way.
 */
module FnvHash {
  import opened Words

  const FNV32_PRIME: u32 := 16777619
  const FNV32_OFFSET: u32 := 2166136261

  /** `fnv1a_up(b, h)`: xor the byte into the hash, then multiply by the prime modulo 2^32. */
  function Up(b: u8, h: u32): u32
  {
    (h ^ b as u32) * FNV32_PRIME
  }

  /** The hash of `s` continued from `h`: the bytes folded into `h` in order. */
  function Hash(s: seq<u8>, h: u32): u32
    decreases |s|
  {
    if |s| == 0 then h else Up(s[|s| - 1], Hash(s[..|s| - 1], h))
  }

  /** Folding the first byte in first and hashing the rest gives the same hash. */
  lemma {:induction false} HashCons(b: u8, s: seq<u8>, h: u32)
    ensures Hash([b] + s, h) == Hash(s, Up(b, h))
    decreases |s|
  {
    if |s| == 0 {
    } else {
      var init := s[..|s| - 1];
      assert ([b] + s)[..|s|] == [b] + init;
      HashCons(b, init, h);
    }
  }

  /** Hashing a concatenation is hashing the second part from the hash of the first. */
  lemma {:induction false} HashAppend(a: seq<u8>, b: seq<u8>, h: u32)
    ensures Hash(a + b, h) == Hash(b, Hash(a, h))
    decreases |b|
  {
    if |b| == 0 {
      assert a + b == a;
    } else {
      var init := b[..|b| - 1];
      assert (a + b)[..|a + b| - 1] == a + init;
      HashAppend(a, init, h);
    }
  }

  /** One more byte: `Hash(s + [b], h) == Up(b, Hash(s, h))`. */
  lemma HashSnoc(s: seq<u8>, b: u8, h: u32)
    ensures Hash(s + [b], h) == Up(b, Hash(s, h))
  {
    assert (s + [b])[..|s|] == s;
  }

  /** `fnv1a_(buff, len, hash)`: the loop over the first `len` bytes. */
  method Fnv1aFrom(buff: seq<u8>, len: nat, hash: u32) returns (r: u32)
    requires len <= |buff|
    ensures r == Hash(buff[..len], hash)
  {
    r := hash;
    var i := 0;
    while i < len
      invariant i <= len
      invariant r == Hash(buff[..i], hash)
    {
      assert buff[..i + 1][..i] == buff[..i];
      r := Up(buff[i], r);
      i := i + 1;
    }
  }

  /** `fnv1a(buff, len)`: the hash seeded with the FNV offset basis. */
  method Fnv1a(buff: seq<u8>, len: nat) returns (r: u32)
    requires len <= |buff|
    ensures r == Hash(buff[..len], FNV32_OFFSET)
  {
    r := Fnv1aFrom(buff, len, FNV32_OFFSET);
  }

  /**
   `fnv1a_copy_(buff, len, out, hash)`: hashes the first `len` bytes while
   copying them to `out`; the rest of `out` is left as it was.
   */
  method Fnv1aCopyFrom(buff: seq<u8>, len: nat, out: seq<u8>, hash: u32) returns (r: u32, written: seq<u8>)
    requires len <= |buff| && len <= |out|
    ensures r == Hash(buff[..len], hash)
    ensures |written| == |out|
    ensures written[..len] == buff[..len]
    ensures written[len..] == out[len..]
  {
    r := hash;
    written := out;
    var i := 0;
    while i < len
      invariant i <= len
      invariant r == Hash(buff[..i], hash)
      invariant |written| == |out|
      invariant written[..i] == buff[..i]
      invariant written[i..] == out[i..]
    {
      assert buff[..i + 1][..i] == buff[..i];
      r := Up(buff[i], r);
      written := written[i := buff[i]];
      i := i + 1;
    }
  }

  /** `fnv1a_copy(buff, len, out)`: the copying hash seeded with the offset basis. */
  method Fnv1aCopy(buff: seq<u8>, len: nat, out: seq<u8>) returns (r: u32, written: seq<u8>)
    requires len <= |buff| && len <= |out|
    ensures r == Hash(buff[..len], FNV32_OFFSET)
    ensures |written| == |out|
    ensures written[..len] == buff[..len]
    ensures written[len..] == out[len..]
  {
    r, written := Fnv1aCopyFrom(buff, len, out, FNV32_OFFSET);
  }

  /** The published FNV-1a test vectors for the empty string and for "a". */
  lemma KnownVectors()
    ensures Hash([], FNV32_OFFSET) == 0x811c9dc5
    ensures Hash([0x61], FNV32_OFFSET) == 0xe40c292c
  {
    assert [0x61 as u8][..0] == [];
  }
}
