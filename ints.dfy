/** The fixed-width unsigned integers of `<cstdint>` that the wrapper passes around. */
module Ints {
  /** `uint8_t`: one octet of an address. */
  type uint8 = x: int | 0 <= x < 0x100

  /** `uint16_t`: a port number. */
  type uint16 = x: int | 0 <= x < 0x1_0000

  /** `uint32_t`: an IPv4 address as one integer. */
  type uint32 = x: int | 0 <= x < 0x1_0000_0000

  /**
    On an unsigned 32-bit value, `(x >> 8k) & 0xFF` is `(x / 256^k) % 256`; these are the four
    bytes of `x`, least significant first, and they add back up to `x`.
  */
  lemma SplitBytes(x: uint32)
    ensures x == x % 0x100
               + ((x / 0x100) % 0x100) * 0x100
               + ((x / 0x1_0000) % 0x100) * 0x1_0000
               + ((x / 0x100_0000) % 0x100) * 0x100_0000
  {
  }

  /**
    Four bytes combined least significant first (`c0 | c1 << 8 | c2 << 16 | c3 << 24`, the
    parts do not overlap so `|` is `+`) are recovered by shifting and masking.
  */
  lemma JoinBytes(c0: uint8, c1: uint8, c2: uint8, c3: uint8)
    ensures var x := c0 + c1 * 0x100 + c2 * 0x1_0000 + c3 * 0x100_0000;
            && x < 0x1_0000_0000
            && x % 0x100 == c0
            && (x / 0x100) % 0x100 == c1
            && (x / 0x1_0000) % 0x100 == c2
            && (x / 0x100_0000) % 0x100 == c3
  {
    var x := c0 + c1 * 0x100 + c2 * 0x1_0000 + c3 * 0x100_0000;
    var q1 := c1 + c2 * 0x100 + c3 * 0x1_0000;
    var q2 := c2 + c3 * 0x100;
    assert x == q1 * 0x100 + c0;
    assert x / 0x100 == q1;
    assert q1 == q2 * 0x100 + c1;
    assert q1 / 0x100 == q2;
    assert x / 0x1_0000 == q2;
    assert q2 / 0x100 == c3;
    assert x / 0x100_0000 == c3;
  }
}
