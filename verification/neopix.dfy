/**
 `neopix_led_data_init` of ble_uart_mx/neopix.h: the 24 RMT pulse entries
 that send one colour to a NeoPixel LED, green first, then red, then blue,
 each colour most significant bit first. Durations are in RMT ticks.
 */
module NeoPix {
  import opened Words

  /** `NPX_LED_BITS`: three colours of eight bits. */
  const NPX_LED_BITS: nat := 3 * 8

  /** One `rmt_data_t` entry: a level held for a duration, then a second level and duration. */
  datatype RmtData = RmtData(level0: nat, duration0: nat, level1: nat, duration1: nat)

  /** The pulse for one bit: a long high for a 1 bit, a short high for a 0 bit. */
  function Pulse(high: bool): RmtData
  {
    if high then RmtData(1, 8, 0, 4) else RmtData(1, 4, 0, 8)
  }

  /** `color[col] & (1 << (7 - bit))`: bit number `bit` of `c`, counted from the most significant. */
  predicate BitOf(c: u8, bit: nat)
    requires bit < 8
  {
    c & Place(bit) != 0
  }

  /** `1 << (7 - bit)`: the mask of bit number `bit`, counted from the most significant. */
  function Place(bit: nat): u8
    requires bit < 8
  {
    1 << (7 - bit)
  }

  /** The colour sent in the `col`-th place: green, red, blue. */
  function ColorAt(r: u8, g: u8, b: u8, col: nat): u8
    requires col < 3
  {
    if col == 0 then g else if col == 1 then r else b
  }

  /** The entry the loops write at index `i`. */
  function Entry(r: u8, g: u8, b: u8, i: nat): RmtData
    requires i < NPX_LED_BITS
  {
    Pulse(BitOf(ColorAt(r, g, b, i / 8), i % 8))
  }

  /**
   The nested loops of `neopix_led_data_init(led_data, r, g, b)`; the entries
   are returned rather than stored through the array argument, which is
   overwritten whole.
   */
  method LedDataInit(r: u8, g: u8, b: u8) returns (led: seq<RmtData>)
    ensures |led| == NPX_LED_BITS
    ensures forall i :: 0 <= i < |led| ==> led[i] == Entry(r, g, b, i)
  {
    led := [];
    var color := [g, r, b];
    var col := 0;
    while col < 3
      invariant col <= 3 && |led| == 8 * col
      invariant forall i :: 0 <= i < |led| ==> led[i] == Entry(r, g, b, i)
    {
      var bit := 0;
      while bit < 8
        invariant bit <= 8 && |led| == 8 * col + bit
        invariant forall i :: 0 <= i < |led| ==> led[i] == Entry(r, g, b, i)
      {
        var e;
        if color[col] & (1 << (7 - bit)) != 0 {
          e := RmtData(1, 8, 0, 4);
        } else {
          e := RmtData(1, 4, 0, 8);
        }
        EntryAt(r, g, b, col, bit, e);
        Extend(r, g, b, led, e);
        led := led + [e];
        bit := bit + 1;
      }
      col := col + 1;
    }
  }

  /** The entry the loop body builds for colour `col`, bit `bit` is the one at index `8 * col + bit`. */
  lemma EntryAt(r: u8, g: u8, b: u8, col: nat, bit: nat, e: RmtData)
    requires col < 3 && bit < 8
    requires e == if [g, r, b][col] & (1 << (7 - bit)) != 0 then RmtData(1, 8, 0, 4) else RmtData(1, 4, 0, 8)
    ensures e == Entry(r, g, b, 8 * col + bit)
  {
    var i := 8 * col + bit;
    assert i / 8 == col && i % 8 == bit;
  }

  /** Appending the next entry keeps the written prefix right. */
  lemma Extend(r: u8, g: u8, b: u8, led: seq<RmtData>, e: RmtData)
    requires |led| < NPX_LED_BITS
    requires forall i :: 0 <= i < |led| ==> led[i] == Entry(r, g, b, i)
    requires e == Entry(r, g, b, |led|)
    ensures forall i :: 0 <= i < |led| + 1 ==> (led + [e])[i] == Entry(r, g, b, i)
  {
    forall i | 0 <= i < |led| + 1
      ensures (led + [e])[i] == Entry(r, g, b, i)
    {
      if i < |led| {
        assert (led + [e])[i] == led[i];
      }
    }
  }

  /** Every entry starts high, ends low and lasts 12 ticks in all. */
  lemma EntryShape(r: u8, g: u8, b: u8, i: nat)
    requires i < NPX_LED_BITS
    ensures Entry(r, g, b, i).level0 == 1 && Entry(r, g, b, i).level1 == 0
    ensures Entry(r, g, b, i).duration0 + Entry(r, g, b, i).duration1 == 12
  {
  }

  /** Reading an entry back: a high of 8 ticks is a 1 bit, worth `place` in its byte. */
  function BitValue(e: RmtData, place: u8): u8
  {
    if e.duration0 == 8 then place else 0
  }

  /** The byte that eight entries from `off` send, most significant bit first. */
  function ByteFrom(led: seq<RmtData>, off: nat): u8
    requires off + 8 <= |led|
  {
    BitValue(led[off], Place(0)) | BitValue(led[off + 1], Place(1)) | BitValue(led[off + 2], Place(2))
      | BitValue(led[off + 3], Place(3)) | BitValue(led[off + 4], Place(4)) | BitValue(led[off + 5], Place(5))
      | BitValue(led[off + 6], Place(6)) | BitValue(led[off + 7], Place(7))
  }

  /** The colour a 24-entry sequence sends, as (r, g, b). */
  function Decode(led: seq<RmtData>): (u8, u8, u8)
    requires |led| == NPX_LED_BITS
  {
    (ByteFrom(led, 8), ByteFrom(led, 0), ByteFrom(led, 16))
  }

  /** The entry for bit `k` of `c` reads back as that bit of `c` in its place. */
  lemma EntryValue(led: seq<RmtData>, off: nat, c: u8, k: nat)
    requires off + 8 <= |led| && k < 8
    requires forall k :: 0 <= k < 8 ==> led[off + k] == Pulse(BitOf(c, k))
    ensures BitValue(led[off + k], Place(k)) == c & Place(k)
  {
    assert led[off + k] == Pulse(BitOf(c, k));
  }

  /** A byte is the union of its eight bits. */
  lemma BitsCompose(c: u8)
    ensures (c & Place(0)) | (c & Place(1)) | (c & Place(2)) | (c & Place(3))
      | (c & Place(4)) | (c & Place(5)) | (c & Place(6)) | (c & Place(7)) == c
  {
  }

  /** Eight pulses of one colour read back as that colour. */
  lemma {:induction false} ByteRoundTrip(led: seq<RmtData>, off: nat, c: u8)
    requires off + 8 <= |led|
    requires forall k :: 0 <= k < 8 ==> led[off + k] == Pulse(BitOf(c, k))
    ensures ByteFrom(led, off) == c
  {
    EntryValue(led, off, c, 0);
    EntryValue(led, off, c, 1);
    EntryValue(led, off, c, 2);
    EntryValue(led, off, c, 3);
    EntryValue(led, off, c, 4);
    EntryValue(led, off, c, 5);
    EntryValue(led, off, c, 6);
    EntryValue(led, off, c, 7);
    BitsCompose(c);
  }

  /** The written entries decode to the colour given, so distinct colours give distinct entries. */
  lemma DecodeInit(r: u8, g: u8, b: u8, led: seq<RmtData>)
    requires |led| == NPX_LED_BITS
    requires forall i :: 0 <= i < |led| ==> led[i] == Entry(r, g, b, i)
    ensures Decode(led) == (r, g, b)
  {
    forall k | 0 <= k < 8
      ensures led[k] == Pulse(BitOf(g, k))
      ensures led[8 + k] == Pulse(BitOf(r, k))
      ensures led[16 + k] == Pulse(BitOf(b, k))
    {
      assert led[k] == Entry(r, g, b, k);
      assert led[8 + k] == Entry(r, g, b, 8 + k);
      assert led[16 + k] == Entry(r, g, b, 16 + k);
    }
    ByteRoundTrip(led, 0, g);
    ByteRoundTrip(led, 8, r);
    ByteRoundTrip(led, 16, b);
  }

  /** Two colours whose entries agree are the same colour. */
  lemma Injective(r: u8, g: u8, b: u8, r': u8, g': u8, b': u8, led: seq<RmtData>)
    requires |led| == NPX_LED_BITS
    requires forall i :: 0 <= i < |led| ==> led[i] == Entry(r, g, b, i)
    requires forall i :: 0 <= i < |led| ==> led[i] == Entry(r', g', b', i)
    ensures r == r' && g == g' && b == b'
  {
    DecodeInit(r, g, b, led);
    DecodeInit(r', g', b', led);
  }
}
