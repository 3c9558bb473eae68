/** Loopback classification of an interface and the fake IPv4 loopback
    interface (arv_network_interface_is_loopback, arv_network_get_fake_ipv4_loopback). */
module Classify {
  import opened NetTypes

  const FAKE_LOOPBACK_NAME: string := "<fake IPv4 localhost>"

  /** ::1 in network byte order. */
  const IPV6_LOOPBACK: Ipv6Bytes := [0, 0, 0, 0, 0, 0, 0, 0, 0, 0, 0, 0, 0, 0, 0, 1]

  /** What arv_network_interface_is_loopback answers, as the code is written:
      an IPv4 address is loopback when its leading octet is 127; an IPv6 address
      is loopback when all 16 address bytes are zero and the byte one past them is 1. */
  predicate LoopbackAsWritten(a: Option<NetworkInterface>)
    ensures LoopbackAsWritten(a) ==> a.Some? && (a.value.addr.Inet? || a.value.addr.Inet6?)
    ensures LoopbackAsWritten(a) && a.value.addr.Inet? ==> 0x7f00_0000 <= a.value.addr.host <= 0x7fff_ffff
  {
    match a
    case None => false
    case Some(iface) =>
      match iface.addr
      case Inet(host) => host & 0xff00_0000 == 0x7f00_0000
      case Inet6(bytes, trailing) => (forall k :: 0 <= k < 16 ==> bytes[k] == 0) && trailing == 1
      case OtherFamily(_) => false
  }

  /** arv_network_interface_is_loopback, with the byte scan of the IPv6 branch. */
  method IsLoopback(a: Option<NetworkInterface>) returns (r: bool)
    ensures r == LoopbackAsWritten(a)
  {
    if a.None? {
      return false;
    }
    var addr := a.value.addr;
    if addr.Inet? {
      return (addr.host >> 24) == 0x7f;
    }
    if addr.Inet6? {
      for pos := 0 to 16
        invariant forall k :: 0 <= k < pos ==> addr.bytes[k] == 0
      {
        if addr.bytes[pos] != 0 {
          return false;
        }
      }
      // i6[16]: the byte after the address
      return addr.trailing == 1;
    }
    return false;
  }

  /** arv_network_get_fake_ipv4_loopback: 127.0.0.1/8 with broadcast 127.255.255.255. */
  function FakeIpv4Loopback(): (r: NetworkInterface)
    ensures r.addr == Inet(0x7f00_0001) && LoopbackAsWritten(Some(r))
    ensures r.broadaddr == Some(Inet(0x7fff_ffff))
    ensures r.name == Some(FAKE_LOOPBACK_NAME)
    ensures r.netmask == Some(Inet(PrefixMask(8)))
    ensures r.addr.Inet? && r.broadaddr == Some(Inet(Broadcast(r.addr.host, PrefixMask(8))))
  {
    NetworkInterface(
      Inet(0x7f00_0001),
      Some(Inet(0xff00_0000)),
      Some(Inet(0x7fff_ffff)),
      Some(FAKE_LOOPBACK_NAME))
  }

  /** The loopback test the comment on the IPv6 branch describes: ::1, that is
      fifteen zero bytes followed by a one; IPv4 and other families as written. */
  predicate IsLoopbackIntended(a: Option<NetworkInterface>)
  {
    match a
    case None => false
    case Some(iface) =>
      match iface.addr
      case Inet(host) => host & 0xff00_0000 == 0x7f00_0000
      case Inet6(bytes, _) => (forall k :: 0 <= k < 15 ==> bytes[k] == 0) && bytes[15] == 1
      case OtherFamily(_) => false
  }

  /** arv_network_interface_is_loopback with the IPv6 branch corrected: the first 15
      bytes must be zero and the last one 1; nothing past the address is read. */
  method IsLoopbackCorrected(a: Option<NetworkInterface>) returns (r: bool)
    ensures r == IsLoopbackIntended(a)
  {
    if a.None? {
      return false;
    }
    var addr := a.value.addr;
    if addr.Inet? {
      return (addr.host >> 24) == 0x7f;
    }
    if addr.Inet6? {
      for pos := 0 to 15
        invariant forall k :: 0 <= k < pos ==> addr.bytes[k] == 0
      {
        if addr.bytes[pos] != 0 {
          return false;
        }
      }
      return addr.bytes[15] == 1;
    }
    return false;
  }

  /** The intended test accepts exactly ::1 among IPv6 addresses, whatever lies after it. */
  lemma IntendedIpv6IsExactlyLoopback(iface: NetworkInterface)
    requires iface.addr.Inet6?
    ensures IsLoopbackIntended(Some(iface)) <==> iface.addr.bytes == IPV6_LOOPBACK
  {
    var b := iface.addr.bytes;
    if IsLoopbackIntended(Some(iface)) {
      assert forall k :: 0 <= k < 16 ==> b[k] == IPV6_LOOPBACK[k];
    }
  }

  /** As written, the IPv6 branch accepts only the unspecified address ::, and
      then only when the byte after the address happens to be 1; ::1 is refused. */
  lemma Ipv6LoopbackRejectedAsWritten(iface: NetworkInterface)
    requires iface.addr.Inet6?
    ensures LoopbackAsWritten(Some(iface)) ==> iface.addr.bytes == seq(16, _ => 0)
    ensures iface.addr.bytes == IPV6_LOOPBACK ==> !LoopbackAsWritten(Some(iface)) && IsLoopbackIntended(Some(iface))
  {
    var b := iface.addr.bytes;
    if LoopbackAsWritten(Some(iface)) {
      assert forall k :: 0 <= k < 16 ==> b[k] == seq(16, _ => 0 as bv8)[k];
    }
    if b == IPV6_LOOPBACK {
      assert b[15] != 0;
    }
  }

  /** The two tests differ only on IPv6 addresses. */
  lemma IntendedAgreesOutsideIpv6(a: Option<NetworkInterface>)
    requires a.None? || !a.value.addr.Inet6?
    ensures IsLoopbackIntended(a) == LoopbackAsWritten(a)
  {
  }

  /** The IPv4 test is membership of 127.0.0.0/8, the network of the fake loopback:
      an address is loopback exactly when it lies between 127.0.0.0 and 127.255.255.255,
      that is, between the network address and the broadcast address of the fake
      loopback. */
  lemma Ipv4LoopbackIsSlash8(host: bv32, rest: NetworkInterface)
    ensures LoopbackAsWritten(Some(rest.(addr := Inet(host))))
            <==> 0x7f00_0000 <= host <= 0x7fff_ffff
    ensures LoopbackAsWritten(Some(rest.(addr := Inet(host))))
            <==> host & 0xff00_0000 == FakeIpv4Loopback().addr.host & 0xff00_0000
  {
  }

  /** 127.0.0.1 and 127.5.5.5 are loopback, 10.0.0.1 is not. */
  lemma Ipv4Examples(rest: NetworkInterface)
    ensures LoopbackAsWritten(Some(rest.(addr := Inet(0x7f00_0001))))
    ensures LoopbackAsWritten(Some(rest.(addr := Inet(0x7f05_0505))))
    ensures !LoopbackAsWritten(Some(rest.(addr := Inet(0x0a00_0001))))
  {
  }

  /** ::2 is loopback under neither test; ::1 only under the intended one. */
  lemma Ipv6Examples(trailing: bv8)
    ensures var two := NetworkInterface(Inet6(IPV6_LOOPBACK[15 := 2], trailing), None, None, None);
            !LoopbackAsWritten(Some(two)) && !IsLoopbackIntended(Some(two))
    ensures var one := NetworkInterface(Inet6(IPV6_LOOPBACK, trailing), None, None, None);
            !LoopbackAsWritten(Some(one)) && IsLoopbackIntended(Some(one))
  {
    var two := IPV6_LOOPBACK[15 := 2];
    assert two[15] != 0;
    assert IPV6_LOOPBACK[15] != 0;
  }
}
