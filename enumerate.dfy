/** Interface enumeration (both variants of arv_enumerate_network_interfaces) and
    the lookups built on it (arv_network_get_interface_by_name,
    arv_network_get_interface_by_address).

    The operating system's lists (what getifaddrs, GetAdaptersAddresses and
    GetIpAddrTable hand back) are input sequences of records; the result list
    is a sequence of interfaces. */
module Enumerate {
  import opened NetTypes

  /** IFF_UP in ifa_flags. */
  const IFF_UP: bv32 := 0x1

  /** The first buffer size passed to GetAdaptersAddresses. */
  const INITIAL_BUFFER_LENGTH: nat := 15000

  /** How many times GetAdaptersAddresses is called at most. */
  const MAX_TRIES: nat := 3

  /** The netmask used when the address table has no row for an address: 255.255.0.0. */
  const FALLBACK_NETMASK: bv32 := 0xffff_0000

  /** The list reversed, as g_list_reverse leaves it. */
  function Reverse<T>(s: seq<T>): (r: seq<T>)
    ensures |r| == |s|
    ensures forall i :: 0 <= i < |s| ==> r[i] == s[|s| - 1 - i]
  {
    if s == [] then [] else [s[|s| - 1]] + Reverse(s[..|s| - 1])
  }

  /** Prepending to a list that is the reverse of `s` gives the reverse of `s` extended. */
  lemma ReverseSnoc<T>(s: seq<T>, x: T)
    ensures [x] + Reverse(s) == Reverse(s + [x])
  {
    var r := Reverse(s + [x]);
    assert forall i :: 0 <= i < |r| ==> r[i] == ([x] + Reverse(s))[i];
  }

  lemma ReverseSnocAfter<T>(before: seq<T>, done: seq<T>, x: T)
    ensures [x] + Reverse(before + done) == Reverse(before + (done + [x]))
  {
    ReverseSnoc(before + done, x);
    assert before + (done + [x]) == (before + done) + [x];
  }

  lemma ReverseReverse<T>(s: seq<T>)
    ensures Reverse(Reverse(s)) == s
  {
    var r := Reverse(Reverse(s));
    assert forall i :: 0 <= i < |s| ==> r[i] == s[i];
  }

  // ---------------------------------------------------------------- POSIX

  /** Whether ifa_broadaddr is taken as it is (Linux and other systems), or replaced by
      the address when it is missing or empty (macOS and the BSDs, where sockaddr
      carries its length sa_len). */
  datatype Platform = Linux | Bsd

  /** One struct ifaddrs of the getifaddrs list. `broadaddrLen` is the sa_len of
      ifa_broadaddr, which only the BSD variant reads. */
  datatype IfAddrs = IfAddrs(
    name: Option<string>,
    flags: bv32,
    addr: Option<SockAddr>,
    netmask: Option<SockAddr>,
    broadaddr: Option<SockAddr>,
    broadaddrLen: nat)

  /** The entries that make it into the list: up, with an address, and IPv4. */
  predicate Selected(e: IfAddrs)
  {
    e.flags & IFF_UP != 0 && e.addr.Some? && e.addr.value.Inet?
  }

  /** The interface built from a selected entry. */
  function Describe(e: IfAddrs, platform: Platform): (iface: NetworkInterface)
    requires Selected(e)
    ensures iface.addr == e.addr.value && iface.netmask == e.netmask && iface.name == e.name
    ensures platform == Linux ==> iface.broadaddr == e.broadaddr
    ensures platform == Bsd && e.broadaddr.Some? && e.broadaddrLen != 0 ==> iface.broadaddr == e.broadaddr
    ensures platform == Bsd && (e.broadaddr.None? || e.broadaddrLen == 0) ==> iface.broadaddr == e.addr
    ensures platform == Bsd ==> iface.broadaddr.Some?
  {
    var broadaddr :=
      match platform
      case Linux => e.broadaddr
      case Bsd => if e.broadaddr.Some? && e.broadaddrLen != 0 then e.broadaddr else e.addr;
    NetworkInterface(e.addr.value, e.netmask, broadaddr, e.name)
  }

  /** What entry `e` contributes to the result: its interface, or nothing. */
  function Contribution(e: IfAddrs, platform: Platform): seq<NetworkInterface>
  {
    if Selected(e) then [Describe(e, platform)] else []
  }

  /** The interfaces of a getifaddrs list, in the order the list gives them. */
  function PosixInterfaces(s: seq<IfAddrs>, platform: Platform): (r: seq<NetworkInterface>)
    ensures |r| <= |s|
  {
    if s == [] then []
    else PosixInterfaces(s[..|s| - 1], platform) + Contribution(s[|s| - 1], platform)
  }

  /** The POSIX arv_enumerate_network_interfaces: `ifap` is what getifaddrs returned
      (None when it failed). Each selected entry is prepended, and the list is
      reversed at the end. */
  method EnumeratePosix(ifap: Option<seq<IfAddrs>>, platform: Platform) returns (ret: seq<NetworkInterface>)
    ensures ifap.None? ==> ret == []
    ensures ifap.Some? ==> ret == PosixInterfaces(ifap.value, platform)
  {
    if ifap.None? {
      return [];
    }
    var s := ifap.value;
    var acc: seq<NetworkInterface> := [];
    for i := 0 to |s|
      invariant acc == Reverse(PosixInterfaces(s[..i], platform))
    {
      PosixInterfacesStep(s, i, platform);
      if Selected(s[i]) {
        ReverseSnoc(PosixInterfaces(s[..i], platform), Describe(s[i], platform));
        acc := [Describe(s[i], platform)] + acc;
      }
    }
    assert s[..|s|] == s;
    ReverseReverse(PosixInterfaces(s, platform));
    ret := Reverse(acc);
  }

  /** One more entry of the list adds its interface when it is selected and nothing otherwise. */
  lemma PosixInterfacesStep(s: seq<IfAddrs>, i: nat, platform: Platform)
    requires i < |s|
    ensures Selected(s[i]) ==>
              PosixInterfaces(s[..i + 1], platform) == PosixInterfaces(s[..i], platform) + [Describe(s[i], platform)]
    ensures !Selected(s[i]) ==> PosixInterfaces(s[..i + 1], platform) == PosixInterfaces(s[..i], platform)
  {
    assert s[..i + 1][..i] == s[..i];
    assert PosixInterfaces(s[..i], platform) + [] == PosixInterfaces(s[..i], platform);
  }

  /** Order: the interfaces of a list are those of its first part followed by those of the rest. */
  lemma {:induction false} PosixInterfacesAppend(a: seq<IfAddrs>, b: seq<IfAddrs>, platform: Platform)
    ensures PosixInterfaces(a + b, platform) == PosixInterfaces(a, platform) + PosixInterfaces(b, platform)
    decreases |b|
  {
    if b != [] {
      var b' := b[..|b| - 1];
      assert (a + b)[..|a + b| - 1] == a + b';
      assert (a + b)[|a + b| - 1] == b[|b| - 1];
      PosixInterfacesAppend(a, b', platform);
    } else {
      assert a + b == a;
    }
  }

  /** Exactly the selected entries appear: an interface is in the result if and only if
      some selected entry of the list describes it. */
  lemma {:induction false} PosixInterfacesMembers(s: seq<IfAddrs>, platform: Platform, x: NetworkInterface)
    ensures x in PosixInterfaces(s, platform)
            <==> exists k :: 0 <= k < |s| && Selected(s[k]) && Describe(s[k], platform) == x
  {
    if s != [] {
      var s' := s[..|s| - 1];
      PosixInterfacesMembers(s', platform, x);
      if x in PosixInterfaces(s, platform) && x !in PosixInterfaces(s', platform) {
        assert Selected(s[|s| - 1]) && Describe(s[|s| - 1], platform) == x;
      }
      if exists k :: 0 <= k < |s| && Selected(s[k]) && Describe(s[k], platform) == x {
        var k :| 0 <= k < |s| && Selected(s[k]) && Describe(s[k], platform) == x;
        if k < |s| - 1 {
          assert s'[k] == s[k];
        }
      }
    }
  }

  /** A list whose every entry is selected loses nothing and keeps its order. */
  lemma {:induction false} PosixKeepsAllSelected(s: seq<IfAddrs>, platform: Platform)
    requires forall k :: 0 <= k < |s| ==> Selected(s[k])
    ensures var r := PosixInterfaces(s, platform);
            |r| == |s| && forall k :: 0 <= k < |s| ==> r[k] == Describe(s[k], platform)
  {
    if s != [] {
      PosixKeepsAllSelected(s[..|s| - 1], platform);
    }
  }

  // ---------------------------------------------------------------- Win32

  /** The prefix length of a unicast IPv4 address, at most 32. */
  type PrefixLength = p: bv8 | p <= 32

  /** IP_ADAPTER_UNICAST_ADDRESS: the address and its OnLinkPrefixLength. */
  datatype UnicastAddress = UnicastAddress(address: SockAddr, onLinkPrefixLength: PrefixLength)

  /** IP_ADAPTER_ADDRESSES: whether OperStatus is IfOperStatusUp, FriendlyName as
      wcstombs converts it, and the FirstUnicastAddress list. The name is None when
      the conversion fails: wcstombs then returns (size_t)-1, the buffer size
      becomes 0, and g_malloc (0) returns NULL. */
  datatype Adapter = Adapter(operUp: bool, friendlyName: Option<string>, unicast: seq<UnicastAddress>)

  /** MIB_IPADDRROW: dwAddr and dwMask, in host byte order. */
  datatype IpAddrRow = IpAddrRow(addr: bv32, mask: bv32)

  /** Where netmasks come from: OnLinkPrefixLength (Windows Vista and later), or the
      GetIpAddrTable table (earlier versions). */
  datatype NetmaskSource = OnLinkPrefix | AddrTable(rows: seq<IpAddrRow>)

  /** The netmask the address table gives `host`: the mask of the first row whose
      address is `host`, else 255.255.0.0. */
  function LegacyNetmask(rows: seq<IpAddrRow>, host: bv32): (m: bv32)
    ensures (forall k :: 0 <= k < |rows| ==> rows[k].addr != host) ==> m == FALLBACK_NETMASK
    ensures forall k :: (0 <= k < |rows| && rows[k].addr == host
                         && forall j :: 0 <= j < k ==> rows[j].addr != host) ==> m == rows[k].mask
    ensures m == FALLBACK_NETMASK || exists k :: 0 <= k < |rows| && rows[k].addr == host && rows[k].mask == m
  {
    if rows == [] then FALLBACK_NETMASK
    else if rows[0].addr == host then rows[0].mask
    else
      var m := LegacyNetmask(rows[1..], host);
      assert forall k :: 1 <= k < |rows| ==> rows[k] == rows[1..][k - 1];
      m
  }

  /** The table search of the pre-Vista branch: stops at the first matching row. */
  method LookupNetmask(rows: seq<IpAddrRow>, host: bv32) returns (mask: bv32)
    ensures mask == LegacyNetmask(rows, host)
  {
    var found := false;
    var i := 0;
    while i < |rows|
      invariant i <= |rows|
      invariant forall j :: 0 <= j < i ==> rows[j].addr != host
    {
      if rows[i].addr == host {
        found := true;
        mask := rows[i].mask;
        break;
      }
      i := i + 1;
    }
    if !found {
      mask := FALLBACK_NETMASK;
    }
  }

  /** The netmask an IPv4 unicast address gets: on Vista and later the top `prefix`
      bits and no other; before, the mask of a table row for that very address, or
      the fallback when the table has none. */
  function Win32Netmask(source: NetmaskSource, host: bv32, prefix: PrefixLength): (m: bv32)
    ensures source.OnLinkPrefix? ==> forall k: bv8 :: k < 32 ==> (BitSet(m, k) <==> k >= 32 - prefix)
    ensures source.AddrTable? ==>
              m == FALLBACK_NETMASK
              || exists k :: 0 <= k < |source.rows| && source.rows[k].addr == host && source.rows[k].mask == m
    ensures source.AddrTable? && (forall k :: 0 <= k < |source.rows| ==> source.rows[k].addr != host)
            ==> m == FALLBACK_NETMASK
    ensures source.AddrTable? ==>
              forall k :: (0 <= k < |source.rows| && source.rows[k].addr == host
                           && forall j :: 0 <= j < k ==> source.rows[j].addr != host) ==> m == source.rows[k].mask
  {
    match source
    case OnLinkPrefix => PrefixMask(prefix)
    case AddrTable(rows) => LegacyNetmask(rows, host)
  }

  /** The unicast addresses that make it into the list: of an adapter that is up, and IPv4. */
  predicate Win32Selected(a: Adapter, u: UnicastAddress)
  {
    a.operUp && u.address.Inet?
  }

  /** The interface built for an IPv4 unicast address: its netmask, the broadcast
      address with every host bit set, and the adapter's friendly name. */
  function Win32Interface(a: Adapter, u: UnicastAddress, source: NetmaskSource): NetworkInterface
    requires u.address.Inet?
  {
    var host := u.address.host;
    var mask := Win32Netmask(source, host, u.onLinkPrefixLength);
    NetworkInterface(Inet(host), Some(Inet(mask)), Some(Inet(Broadcast(host, mask))), a.friendlyName)
  }

  /** The interfaces contributed by the unicast addresses `us` of adapter `a`, in order. */
  function AdapterInterfaces(a: Adapter, us: seq<UnicastAddress>, source: NetmaskSource): (r: seq<NetworkInterface>)
    ensures |r| <= |us|
    ensures forall i :: 0 <= i < |r| ==> r[i].addr.Inet? && r[i].netmask.Some?
  {
    if us == [] then []
    else
      var u := us[|us| - 1];
      AdapterInterfaces(a, us[..|us| - 1], source)
      + (if Win32Selected(a, u) then [Win32Interface(a, u, source)] else [])
  }

  /** The interfaces of an adapter list: adapter by adapter, address by address. */
  function Win32Interfaces(adapters: seq<Adapter>, source: NetmaskSource): (r: seq<NetworkInterface>)
    ensures forall i :: 0 <= i < |r| ==> r[i].addr.Inet? && r[i].netmask.Some?
  {
    if adapters == [] then []
    else
      var a := adapters[|adapters| - 1];
      Win32Interfaces(adapters[..|adapters| - 1], source) + AdapterInterfaces(a, a.unicast, source)
  }

  /** What one GetAdaptersAddresses call returns: the adapter list, ERROR_BUFFER_OVERFLOW
      with the buffer size it needs, or another error code. */
  datatype GaaReply = GaaSuccess(adapters: seq<Adapter>) | BufferOverflow(required: nat) | GaaFailure(code: nat)

  /** The adapter list obtained by calling `gaa` first with a buffer of `bufLen` bytes,
      with `tries` calls left; a buffer overflow is retried with the size asked for. */
  function Fetch(gaa: nat -> GaaReply, bufLen: nat, tries: nat): (r: Option<seq<Adapter>>)
    requires tries >= 1
    ensures r.Some? ==> exists n :: gaa(n) == GaaSuccess(r.value)
    ensures gaa(bufLen).GaaFailure? || (tries == 1 && gaa(bufLen).BufferOverflow?) ==> r.None?
    decreases tries
  {
    match gaa(bufLen)
    case GaaSuccess(adapters) => Some(adapters)
    case BufferOverflow(required) => if tries == 1 then None else Fetch(gaa, required, tries - 1)
    case GaaFailure(_) => None
  }

  /** The buffer sizes passed to GetAdaptersAddresses, one per call, under the same rule. */
  function FetchSizes(gaa: nat -> GaaReply, bufLen: nat, tries: nat): seq<nat>
    requires tries >= 1
    decreases tries
  {
    match gaa(bufLen)
    case BufferOverflow(required) =>
      if tries == 1 then [bufLen] else [bufLen] + FetchSizes(gaa, required, tries - 1)
    case _ => [bufLen]
  }

  /** The call sequence: at most `tries` calls, the first with `bufLen`; every call but
      the last reports an overflow and the next one uses the size it asked for; the
      list is obtained exactly when the last call succeeds, and it is that call's. */
  lemma {:induction false} FetchBounded(gaa: nat -> GaaReply, bufLen: nat, tries: nat)
    requires tries >= 1
    ensures var sizes := FetchSizes(gaa, bufLen, tries);
            && 1 <= |sizes| <= tries
            && sizes[0] == bufLen
            && (forall k :: 0 <= k < |sizes| - 1 ==> gaa(sizes[k]) == BufferOverflow(sizes[k + 1]))
            && (Fetch(gaa, bufLen, tries).Some? <==> gaa(sizes[|sizes| - 1]).GaaSuccess?)
            && (Fetch(gaa, bufLen, tries).Some? ==>
                  Fetch(gaa, bufLen, tries).value == gaa(sizes[|sizes| - 1]).adapters)
    decreases tries
  {
    if gaa(bufLen).BufferOverflow? && tries > 1 {
      var required := gaa(bufLen).required;
      FetchBounded(gaa, required, tries - 1);
      var rest := FetchSizes(gaa, required, tries - 1);
      var sizes := FetchSizes(gaa, bufLen, tries);
      assert sizes == [bufLen] + rest;
      assert forall k :: 1 <= k < |sizes| ==> sizes[k] == rest[k - 1];
    }
  }

  /** The GetAdaptersAddresses retry loop: a buffer overflow is retried with the size
      the call asked for, at most MAX_TRIES calls in all; None when no call succeeded.
      `sizes` records the buffer size of each call, in order. */
  method FetchAdapters(gaa: nat -> GaaReply) returns (adapters: Option<seq<Adapter>>, ghost sizes: seq<nat>)
    ensures adapters == Fetch(gaa, INITIAL_BUFFER_LENGTH, MAX_TRIES)
    ensures sizes == FetchSizes(gaa, INITIAL_BUFFER_LENGTH, MAX_TRIES)
  {
    var outBufLen := INITIAL_BUFFER_LENGTH;
    var iter := 0;
    var reply := gaa(outBufLen);
    sizes := [];
    while reply.BufferOverflow? && iter + 1 < MAX_TRIES
      invariant iter < MAX_TRIES
      invariant reply == gaa(outBufLen)
      invariant Fetch(gaa, INITIAL_BUFFER_LENGTH, MAX_TRIES) == Fetch(gaa, outBufLen, MAX_TRIES - iter)
      invariant FetchSizes(gaa, INITIAL_BUFFER_LENGTH, MAX_TRIES) == sizes + FetchSizes(gaa, outBufLen, MAX_TRIES - iter)
      decreases MAX_TRIES - iter
    {
      sizes := sizes + [outBufLen];
      outBufLen := reply.required;
      iter := iter + 1;
      reply := gaa(outBufLen);
    }
    sizes := sizes + [outBufLen];
    if reply.GaaSuccess? {
      adapters := Some(reply.adapters);
    } else {
      adapters := None;
    }
  }

  /** The netmask step: the prefix mask, or the search of the address table. */
  method ComputeNetmask(source: NetmaskSource, host: bv32, prefix: PrefixLength) returns (mask: bv32)
    ensures mask == Win32Netmask(source, host, prefix)
  {
    if source.OnLinkPrefix? {
      mask := PrefixMask(prefix);
    } else {
      mask := LookupNetmask(source.rows, host);
    }
  }

  lemma Win32InterfaceFromMask(a: Adapter, u: UnicastAddress, source: NetmaskSource, mask: bv32)
    requires u.address.Inet?
    requires mask == Win32Netmask(source, u.address.host, u.onLinkPrefixLength)
    ensures Win32Interface(a, u, source)
            == NetworkInterface(u.address, Some(Inet(mask)), Some(Inet(u.address.host | !mask)), a.friendlyName)
  {
  }

  /** The interface the Win32 enumeration allocates for one selected IPv4 unicast
      address: the netmask from the prefix length or the table, then the broadcast
      address as the address with the bits outside the netmask set. */
  method BuildInterface(a: Adapter, u: UnicastAddress, source: NetmaskSource) returns (iface: NetworkInterface)
    requires u.address.Inet?
    ensures iface == Win32Interface(a, u, source)
  {
    var host := u.address.host;
    var mask := ComputeNetmask(source, host, u.onLinkPrefixLength);
    var broadcast := host | !mask;
    iface := NetworkInterface(Inet(host), Some(Inet(mask)), Some(Inet(broadcast)), a.friendlyName);
    Win32InterfaceFromMask(a, u, source, mask);
  }

  /** One step of the inner loop: address j of the adapter adds its interface, if any,
      at the front of the reversed list. */
  lemma PrependStep(before: seq<NetworkInterface>, a: Adapter, j: nat, source: NetmaskSource)
    requires j < |a.unicast|
    ensures var u := a.unicast[j];
            var prev := Reverse(before + AdapterInterfaces(a, a.unicast[..j], source));
            var next := Reverse(before + AdapterInterfaces(a, a.unicast[..j + 1], source));
            if Win32Selected(a, u) then next == [Win32Interface(a, u, source)] + prev else next == prev
  {
    var u := a.unicast[j];
    var done := AdapterInterfaces(a, a.unicast[..j], source);
    assert a.unicast[..j + 1][..j] == a.unicast[..j];
    if Win32Selected(a, u) {
      ReverseSnocAfter(before, done, Win32Interface(a, u, source));
    } else {
      assert done + [] == done;
    }
  }

  /** The inner loop of the Win32 enumeration: the interfaces of the unicast addresses
      of adapter `a` are prepended, one by one, to `acc`, the reverse of the list so far. */
  method PrependAdapter(ghost before: seq<NetworkInterface>, acc: seq<NetworkInterface>, a: Adapter,
                        source: NetmaskSource) returns (out: seq<NetworkInterface>)
    requires acc == Reverse(before)
    ensures out == Reverse(before + AdapterInterfaces(a, a.unicast, source))
  {
    out := acc;
    for j := 0 to |a.unicast|
      invariant out == Reverse(before + AdapterInterfaces(a, a.unicast[..j], source))
    {
      var u := a.unicast[j];
      PrependStep(before, a, j, source);
      if a.operUp && u.address.Inet? {
        var iface := BuildInterface(a, u, source);
        out := [iface] + out;
      }
    }
    assert a.unicast[..|a.unicast|] == a.unicast;
  }

  /** The Win32 arv_enumerate_network_interfaces: the adapter list is fetched, then
      each selected unicast address is prepended, and the list is reversed at the end.
      A failed fetch gives the empty list. */
  method EnumerateWin32(gaa: nat -> GaaReply, source: NetmaskSource) returns (ret: seq<NetworkInterface>)
    ensures var fetched := Fetch(gaa, INITIAL_BUFFER_LENGTH, MAX_TRIES);
            ret == if fetched.None? then [] else Win32Interfaces(fetched.value, source)
  {
    var fetched, _ := FetchAdapters(gaa);
    if fetched.None? {
      return [];
    }
    var adapters := fetched.value;
    var acc: seq<NetworkInterface> := [];
    for i := 0 to |adapters|
      invariant acc == Reverse(Win32Interfaces(adapters[..i], source))
    {
      Win32InterfacesStep(adapters, i, source);
      acc := PrependAdapter(Win32Interfaces(adapters[..i], source), acc, adapters[i], source);
    }
    assert adapters[..|adapters|] == adapters;
    ReverseReverse(Win32Interfaces(adapters, source));
    ret := Reverse(acc);
  }

  /** One more adapter adds the interfaces of its addresses after those already listed. */
  lemma Win32InterfacesStep(adapters: seq<Adapter>, i: nat, source: NetmaskSource)
    requires i < |adapters|
    ensures Win32Interfaces(adapters[..i + 1], source)
            == Win32Interfaces(adapters[..i], source) + AdapterInterfaces(adapters[i], adapters[i].unicast, source)
  {
    assert adapters[..i + 1][..i] == adapters[..i];
  }

  /** Every Win32 interface is IPv4, has a netmask, its broadcast address is its
      address with all the bits outside the netmask set, and its name is the
      converted friendly name of one of the adapters (NULL when that conversion
      failed). */
  lemma {:induction false} Win32InterfacesShape(adapters: seq<Adapter>, source: NetmaskSource)
    ensures forall x :: x in Win32Interfaces(adapters, source) ==>
              && x.addr.Inet? && x.netmask.Some? && x.netmask.value.Inet?
              && x.broadaddr == Some(Inet(Broadcast(x.addr.host, x.netmask.value.host)))
              && exists a :: a in adapters && x.name == a.friendlyName
  {
    if adapters != [] {
      var before := adapters[..|adapters| - 1];
      var a := adapters[|adapters| - 1];
      Win32InterfacesShape(before, source);
      AdapterInterfacesShape(a, a.unicast, source);
      forall x | x in Win32Interfaces(adapters, source)
        ensures exists b :: b in adapters && x.name == b.friendlyName
      {
        if x in Win32Interfaces(before, source) {
          var b :| b in before && x.name == b.friendlyName;
          assert b in adapters;
        } else {
          assert a in adapters;
        }
      }
    }
  }

  lemma {:induction false} AdapterInterfacesShape(a: Adapter, us: seq<UnicastAddress>, source: NetmaskSource)
    ensures forall x :: x in AdapterInterfaces(a, us, source) ==>
              && x.addr.Inet? && x.netmask.Some? && x.netmask.value.Inet?
              && x.broadaddr == Some(Inet(Broadcast(x.addr.host, x.netmask.value.host)))
              && x.name == a.friendlyName
  {
    if us != [] {
      AdapterInterfacesShape(a, us[..|us| - 1], source);
    }
  }

  /** An adapter that is not up contributes nothing, whatever its addresses. */
  lemma {:induction false} DownAdapterContributesNothing(a: Adapter, us: seq<UnicastAddress>, source: NetmaskSource)
    requires !a.operUp
    ensures AdapterInterfaces(a, us, source) == []
  {
    if us != [] {
      DownAdapterContributesNothing(a, us[..|us| - 1], source);
    }
  }

  // ---------------------------------------------------------------- lookups

  /** arv_network_get_interface_by_name over the enumerated list: the first interface
      whose name equals `name` in the sense of g_strcmp0 (two NULLs are equal). */
  method GetInterfaceByName(ifaces: seq<NetworkInterface>, name: Option<string>) returns (r: Option<NetworkInterface>)
    ensures r.None? <==> forall k :: 0 <= k < |ifaces| ==> ifaces[k].name != name
    ensures r.Some? ==> exists k :: 0 <= k < |ifaces| && ifaces[k] == r.value && ifaces[k].name == name
                                    && forall j :: 0 <= j < k ==> ifaces[j].name != name
  {
    var i := 0;
    while i < |ifaces|
      invariant i <= |ifaces|
      invariant forall j :: 0 <= j < i ==> ifaces[j].name != name
    {
      if ifaces[i].name == name {
        break;
      }
      i := i + 1;
    }
    if i < |ifaces| {
      r := Some(ifaces[i]);
    } else {
      r := None;
    }
  }

  /** arv_network_get_interface_by_address over the enumerated list: `literal` is the
      parsed address, None when the string is not an IP address; the first interface
      whose address is the same host address is returned. */
  method GetInterfaceByAddress(ifaces: seq<NetworkInterface>, literal: Option<SockAddr>)
    returns (r: Option<NetworkInterface>)
    ensures literal.None? ==> r.None?
    ensures literal.Some? ==>
              (r.None? <==> forall k :: 0 <= k < |ifaces| ==> !SameInetAddress(literal.value, ifaces[k].addr))
    ensures r.Some? ==> literal.Some?
    ensures r.Some? && literal.Some? ==>
              exists k :: && 0 <= k < |ifaces| && ifaces[k] == r.value
                          && SameInetAddress(literal.value, ifaces[k].addr)
                          && forall j :: 0 <= j < k ==> !SameInetAddress(literal.value, ifaces[j].addr)
  {
    if literal.None? {
      return None;
    }
    var target := literal.value;
    var i := 0;
    while i < |ifaces|
      invariant i <= |ifaces|
      invariant forall j :: 0 <= j < i ==> !SameInetAddress(target, ifaces[j].addr)
    {
      if SameInetAddress(target, ifaces[i].addr) {
        break;
      }
      i := i + 1;
    }
    if i < |ifaces| {
      r := Some(ifaces[i]);
    } else {
      r := None;
    }
  }
}
