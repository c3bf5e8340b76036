/** The fixed-width C integer types the firmware computes with. */
module Words {
  /** `uint8_t`: a byte; arithmetic on it wraps modulo 2^8. */
  type u8 = bv8

  /** `uint32_t`: arithmetic on it wraps modulo 2^32. */
  type u32 = bv32
}
