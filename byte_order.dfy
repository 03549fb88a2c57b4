/**
  Host/network byte-order conversion (`htons`, `ntohs`, `htonl`, `ntohl` from `<arpa/inet.h>`).

  Network order is big-endian. On a big-endian host the four functions are the identity;
  on a little-endian host they reverse the bytes. The socket layer relies only on
  `htonX` and `ntohX` being mutually inverse and mapping 0 to 0, which hold for both hosts.
*/
module ByteOrder {
  import opened Ints

  datatype Endianness = LittleEndian | BigEndian

  /** The byte order of the machine the wrapper runs on (x86-64 and AArch64 Linux are little-endian). */
  const Host: Endianness := LittleEndian

  /** Exchanges the two bytes of a 16-bit value. */
  function Swap16(x: uint16): uint16
  {
    (x % 0x100) * 0x100 + x / 0x100
  }

  /** Reverses the four bytes of a 32-bit value. */
  function Swap32(x: uint32): uint32
  {
    (x % 0x100) * 0x100_0000
    + ((x / 0x100) % 0x100) * 0x1_0000
    + ((x / 0x1_0000) % 0x100) * 0x100
    + x / 0x100_0000
  }

  function Htons(h: Endianness, x: uint16): uint16
  {
    if h == BigEndian then x else Swap16(x)
  }

  function Ntohs(h: Endianness, x: uint16): uint16
  {
    if h == BigEndian then x else Swap16(x)
  }

  function Htonl(h: Endianness, x: uint32): uint32
  {
    if h == BigEndian then x else Swap32(x)
  }

  function Ntohl(h: Endianness, x: uint32): uint32
  {
    if h == BigEndian then x else Swap32(x)
  }

  /** `ntohs` undoes `htons` and vice versa, on either kind of host. */
  lemma PortOrderRoundTrip(h: Endianness, x: uint16)
    ensures Ntohs(h, Htons(h, x)) == x
    ensures Htons(h, Ntohs(h, x)) == x
  {
  }

  /** `ntohl` undoes `htonl` and vice versa, on either kind of host. */
  lemma AddressOrderRoundTrip(h: Endianness, x: uint32)
    ensures Ntohl(h, Htonl(h, x)) == x
    ensures Htonl(h, Ntohl(h, x)) == x
  {
    if h == LittleEndian {
      SwapTwice(x);
    }
  }

  /** All four conversions map 0 to 0, on either kind of host: a cleared record reads as zero. */
  lemma ZeroUnchanged(h: Endianness)
    ensures Htons(h, 0) == 0 && Ntohs(h, 0) == 0
    ensures Htonl(h, 0) == 0 && Ntohl(h, 0) == 0
  {
  }

  /** Reversing the bytes twice gives the value back. */
  lemma SwapTwice(x: uint32)
    ensures Swap32(Swap32(x)) == x
  {
    var c0, c1, c2, c3 := x % 0x100, (x / 0x100) % 0x100, (x / 0x1_0000) % 0x100, (x / 0x100_0000) % 0x100;
    SplitBytes(x);
    assert x / 0x100_0000 == c3;
    JoinBytes(c3, c2, c1, c0);
    JoinBytes(c0, c1, c2, c3);
  }
}
