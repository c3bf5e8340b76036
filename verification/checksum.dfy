/**
 The chunk checksum of ble_uart_mx/checksum.h: the FNV-1a hash of the data,
 sent as a 3-byte trailer. The hash is read through a union with a byte
 array, so on the little-endian target byte k of the array is bits
 8k..8k+7 of the word.
 */
module Checksum {
  import opened Words
  import opened FnvHash

  /** `CHKSUM_INI`: a checksum starts from the FNV offset basis. */
  const CHKSUM_INI: u32 := FNV32_OFFSET

  /** `chksum.byte[k]` of the union holding `v`. */
  function ByteOf(v: u32, k: nat): u8
    requires k < 4
  {
    if k == 0 then (v & 0xFF) as u8
    else if k == 1 then ((v >> 8) & 0xFF) as u8
    else if k == 2 then ((v >> 16) & 0xFF) as u8
    else ((v >> 24) & 0xFF) as u8
  }

  /** The three trailer bytes: the low byte, the second byte, and the third xor the fourth. */
  function Trailer(v: u32): (t: seq<u8>)
    ensures |t| == 3
  {
    [ByteOf(v, 0), ByteOf(v, 1), ByteOf(v, 2) ^ ByteOf(v, 3)]
  }

  /** The layout a checksummed chunk has: the data followed by the trailer of its hash from `ini`. */
  function Sealed(data: seq<u8>, ini: u32): (r: seq<u8>)
    ensures |r| == |data| + 3
    ensures r[..|data|] == data
  {
    data + Trailer(Hash(data, ini))
  }

  /** `chksum_up(byte, hash)`: one byte into the checksum, which is the FNV-1a step. */
  function ChksumUp(b: u8, h: u32): u32
  {
    Up(b, h)
  }

  /** Feeding one more byte with `chksum_up` continues the checksum `chksum_update` computes. */
  lemma ChksumUpFeeds(data: seq<u8>, b: u8, ini: u32)
    ensures ChksumUp(b, Hash(data, ini)) == Hash(data + [b], ini)
  {
    HashSnoc(data, b, ini);
  }

  /** `chksum_update(data, len, ini)`: continues the hash over the first `len` bytes. */
  method ChksumUpdate(data: seq<u8>, len: nat, ini: u32) returns (r: u32)
    requires len <= |data|
    ensures r == Hash(data[..len], ini)
  {
    r := Fnv1aFrom(data, len, ini);
  }

  /**
   `chksum_copy(data, len, out_buff, ini)`: copies the data to `out_buff`,
   appends the trailer, leaves the rest of `out_buff` alone and returns the
   full 32-bit hash.
   */
  method ChksumCopy(data: seq<u8>, len: nat, out: seq<u8>, ini: u32) returns (r: u32, written: seq<u8>)
    requires len <= |data| && len + 3 <= |out|
    ensures r == Hash(data[..len], ini)
    ensures |written| == |out|
    ensures written[..len + 3] == Sealed(data[..len], ini)
    ensures written[len + 3..] == out[len + 3..]
  {
    r, written := Fnv1aCopyFrom(data, len, out, ini);
    var t := Trailer(r);
    written := written[len := t[0]][len + 1 := t[1]][len + 2 := t[2]];
    assert written[..len + 3] == written[..len] + t;
  }

  /** What `chksum_validate` reports, and what it leaves in `*inout_chksum`. */
  datatype Validated = Validated(ok: bool, chksum: u32)

  /**
   `chksum_validate(buff, len, inout)`: stores the hash of the first `len`
   bytes continued from `inout` (whatever the outcome), and accepts exactly
   when the next three bytes are that hash's trailer.
   */
  function ChksumValidate(buff: seq<u8>, len: nat, inout: u32): (r: Validated)
    requires len + 3 <= |buff|
    ensures r.chksum == Hash(buff[..len], inout)
    ensures r.ok <==> buff[..len + 3] == Sealed(buff[..len], inout)
  {
    var v := Hash(buff[..len], inout);
    var t := Trailer(v);
    var ok := buff[len] == t[0] && buff[len + 1] == t[1] && buff[len + 2] == t[2];
    SealedPrefix(buff, len, inout);
    Validated(ok, v)
  }

  /** The buffer starts with its sealed first `len` bytes exactly when the three bytes after them match the trailer. */
  lemma SealedPrefix(buff: seq<u8>, len: nat, inout: u32)
    requires len + 3 <= |buff|
    ensures var t := Trailer(Hash(buff[..len], inout));
      buff[..len + 3] == Sealed(buff[..len], inout) <==>
      buff[len] == t[0] && buff[len + 1] == t[1] && buff[len + 2] == t[2]
  {
    var t := Trailer(Hash(buff[..len], inout));
    var w := buff[len..len + 3];
    assert buff[..len + 3] == buff[..len] + w;
    assert Sealed(buff[..len], inout) == buff[..len] + t;
    SameTail(buff[..len], w, t);
  }

  /** Two sequences with a common head are equal exactly when their tails are. */
  lemma SameTail(h: seq<u8>, w: seq<u8>, t: seq<u8>)
    requires |w| == 3 && |t| == 3
    ensures h + w == h + t <==> w[0] == t[0] && w[1] == t[1] && w[2] == t[2]
  {
    if h + w == h + t {
      assert w == (h + w)[|h|..];
      assert t == (h + t)[|h|..];
    }
  }

  /** A chunk laid out by `chksum_copy` from `ini` validates from `ini`, leaving the same hash. */
  lemma RoundTrip(data: seq<u8>, ini: u32, rest: seq<u8>)
    ensures ChksumValidate(Sealed(data, ini) + rest, |data|, ini) == Validated(true, Hash(data, ini))
  {
    var buff := Sealed(data, ini) + rest;
    assert buff[..|data|] == data;
    assert buff[..|data| + 3] == Sealed(data, ini);
  }

  /** Validating chunk `a` and then chunk `b` through `*inout` leaves the hash of both data parts together. */
  lemma Chained(a: seq<u8>, la: nat, b: seq<u8>, lb: nat, ini: u32)
    requires la + 3 <= |a| && lb + 3 <= |b|
    ensures ChksumValidate(b, lb, ChksumValidate(a, la, ini).chksum).chksum == Hash(a[..la] + b[..lb], ini)
  {
    HashAppend(a[..la], b[..lb], ini);
  }

  /** Validation depends only on the first `len + 3` bytes of the buffer. */
  lemma ReadsPrefix(b1: seq<u8>, b2: seq<u8>, len: nat, inout: u32)
    requires len + 3 <= |b1| && len + 3 <= |b2|
    requires b1[..len + 3] == b2[..len + 3]
    ensures ChksumValidate(b1, len, inout) == ChksumValidate(b2, len, inout)
  {
    assert b1[..len] == b1[..len + 3][..len];
    assert b2[..len] == b2[..len + 3][..len];
  }

  /** A corrupted first trailer byte is always caught. */
  lemma CorruptTrailer(data: seq<u8>, ini: u32, x: u8)
    requires x != 0
    ensures !ChksumValidate(Sealed(data, ini)[|data| := Sealed(data, ini)[|data|] ^ x], |data|, ini).ok
  {
    var s := Sealed(data, ini);
    var c := s[|data| := s[|data|] ^ x];
    assert c[..|data|] == data;
    assert c[|data|] != s[|data|];
  }
}
