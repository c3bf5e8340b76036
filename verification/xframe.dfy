/**
 The extended-frame chunk header of ble_uart_mx/xframe.h: one byte holding
 a 5-bit chunk sequence number and the binary, first and last flags. The C
 expression is evaluated in `int` and truncated to `uint8_t` on return.
 */
module XFrame {
  import opened Words

  const XH_BINARY_BIT: nat := 5
  const XH_FIRST_BIT: nat := 6
  const XH_LAST_BIT: nat := 7

  const XH_BINARY: u8 := 1 << XH_BINARY_BIT
  const XH_FIRST: u8 := 1 << XH_FIRST_BIT
  const XH_LAST: u8 := 1 << XH_LAST_BIT

  /** The sequence number takes the bits below the binary flag. */
  const XH_SN_BITS: nat := XH_BINARY_BIT
  const XH_SN_MASK: u8 := (1 << XH_SN_BITS) - 1

  /**
   `mk_xframe_hdr(sn, binary, first, last)`: each argument is promoted to
   `int`, shifted into place and or-ed; the result is cut back to 8 bits.
   */
  function MkXframeHdr(sn: u8, binary: u8, first: u8, last: u8): u8
  {
    var wide: u32 := (sn as u32 & XH_SN_MASK as u32) | (binary as u32 << XH_BINARY_BIT)
      | (first as u32 << XH_FIRST_BIT) | (last as u32 << XH_LAST_BIT);
    (wide & 0xFF) as u8
  }

  /** The fields read back from a header byte. */
  function SnOf(h: u8): u8 { h & XH_SN_MASK }
  predicate IsBinary(h: u8) { h & XH_BINARY != 0 }
  predicate IsFirst(h: u8) { h & XH_FIRST != 0 }
  predicate IsLast(h: u8) { h & XH_LAST != 0 }

  /** A C flag argument the callers pass: 0 or 1. */
  predicate IsFlag(x: u8) { x == 0 || x == 1 }

  /** The sequence-number mask and the three flag bits are pairwise disjoint and cover the byte. */
  lemma FieldsDisjoint()
    ensures XH_SN_MASK == 31
    ensures XH_SN_MASK & (XH_BINARY | XH_FIRST | XH_LAST) == 0
    ensures XH_BINARY & XH_FIRST == 0 && XH_BINARY & XH_LAST == 0 && XH_FIRST & XH_LAST == 0
    ensures XH_SN_MASK | XH_BINARY | XH_FIRST | XH_LAST == 0xFF
  {
  }

  /** The header's low 5 bits are the sequence number modulo 32, whatever the flags. */
  lemma SnBits(sn: u8, binary: u8, first: u8, last: u8)
    ensures SnOf(MkXframeHdr(sn, binary, first, last)) as int == sn as int % 32
  {
  }

  /** With 0/1 flags, bit 5 is `binary`, bit 6 is `first` and bit 7 is `last`. */
  lemma FlagBits(sn: u8, binary: u8, first: u8, last: u8)
    requires IsFlag(binary) && IsFlag(first) && IsFlag(last)
    ensures IsBinary(MkXframeHdr(sn, binary, first, last)) <==> binary == 1
    ensures IsFirst(MkXframeHdr(sn, binary, first, last)) <==> first == 1
    ensures IsLast(MkXframeHdr(sn, binary, first, last)) <==> last == 1
  {
  }

  /** With 0/1 flags, the header determines the sequence number modulo 32 and all three flags. */
  lemma Unique(sn: u8, binary: u8, first: u8, last: u8, sn': u8, binary': u8, first': u8, last': u8)
    requires IsFlag(binary) && IsFlag(first) && IsFlag(last)
    requires IsFlag(binary') && IsFlag(first') && IsFlag(last')
    requires MkXframeHdr(sn, binary, first, last) == MkXframeHdr(sn', binary', first', last')
    ensures sn as int % 32 == sn' as int % 32
    ensures binary == binary' && first == first' && last == last'
  {
    SnBits(sn, binary, first, last);
    SnBits(sn', binary', first', last');
    FlagBits(sn, binary, first, last);
    FlagBits(sn', binary', first', last');
  }

  /** Sequence numbers 32 apart give the same header: the chunk counter wraps modulo 32. */
  lemma SnWraps(sn: u8, binary: u8, first: u8, last: u8)
    ensures MkXframeHdr(sn + 32, binary, first, last) == MkXframeHdr(sn, binary, first, last)
  {
  }

  /** A flag argument other than 0 or 1 spills into the neighbouring flag: binary 2 reads as first. */
  lemma WideFlagSpills()
    ensures MkXframeHdr(0, 2, 0, 0) == MkXframeHdr(0, 0, 1, 0)
  {
  }
}
