/** Values shared by the network layer: C integer widths, family-tagged socket
    addresses and the interface descriptor that enumeration hands out. */
module NetTypes {

  datatype Option<+T> = None | Some(value: T)

  /** guint16, guint32 and gint as ranges of the mathematical integers. */
  type u16 = x: int | 0 <= x < 0x1_0000
  type u32 = x: int | 0 <= x < 0x1_0000_0000
  type i32 = x: int | -0x8000_0000 <= x < 0x8000_0000

  /** The 16 bytes of an in6_addr, in network byte order. */
  type Ipv6Bytes = s: seq<bv8> | |s| == 16 witness seq(16, _ => 0)

  /** A struct sockaddr as the network code reads it: the family tag and the host part.
      - Inet: AF_INET, with sin_addr converted to host byte order (what ntohl returns);
      - Inet6: AF_INET6, with the bytes of sin6_addr, and `trailing`, the byte stored
        right after them in memory (the first byte of sin6_scope_id);
      - OtherFamily: any other sa_family. */
  datatype SockAddr =
    | Inet(host: bv32)
    | Inet6(bytes: Ipv6Bytes, trailing: bv8)
    | OtherFamily(family: nat)

  /** ArvNetworkInterface: the address is always present, the other three may be NULL. */
  datatype NetworkInterface = NetworkInterface(
    addr: SockAddr,
    netmask: Option<SockAddr>,
    broadaddr: Option<SockAddr>,
    name: Option<string>)

  /** The IPv4 broadcast address of `addr` under `mask`: the host bits all set. */
  function Broadcast(addr: bv32, mask: bv32): (b: bv32)
    ensures b & mask == addr & mask
    ensures b & !mask == !mask
  {
    addr | !mask
  }

  /** Bit k of a 32-bit value (bit 0 is the least significant). */
  predicate BitSet(x: bv32, k: bv8)
    requires k < 32
  {
    x & (1 << k) != 0
  }

  /** The IPv4 netmask with `prefix` leading one bits, as `0xffffffff << (32 - prefix)`;
      the prefix length is a UINT8. Bit k is set exactly when it is among the top
      `prefix` bits, so the mask is also the complement of the host bits
      `0xffffffff >> prefix`. */
  function PrefixMask(prefix: bv8): (m: bv32)
    requires prefix <= 32
    ensures forall k: bv8 :: k < 32 ==> (BitSet(m, k) <==> k >= 32 - prefix)
    ensures m == !(0xffff_ffff >> prefix)
    ensures prefix == 8 ==> m == 0xff00_0000
    ensures prefix == 16 ==> m == 0xffff_0000
    ensures prefix == 24 ==> m == 0xffff_ff00
  {
    0xffff_ffff << (32 - prefix)
  }

  /** g_inet_address_equal: same family and same address bytes; the port and,
      for IPv6, whatever follows the address in memory do not take part. */
  predicate SameInetAddress(a: SockAddr, b: SockAddr)
  {
    match (a, b)
    case (Inet(x), Inet(y)) => x == y
    case (Inet6(x, _), Inet6(y, _)) => x == y
    case _ => false
  }
}
