# Aravis network layer, modelled in Dafny

This project models the network substrate of the Aravis machine-vision library
(`src/arvnetwork.c`). It covers five parts:

- **The GigE Vision port-range registry.** The process-wide minimum, maximum and
  last-offset cursor form a class. Setting a range, numerically or from a
  `"<min>-<max>"` string, is modelled, and so is the range-constrained binder
  `arv_socket_bind_with_range`. That binder either binds the requested port once
  or scans the range round robin, with the cursor carried over from call to call.
- **Address classification.** `arv_network_interface_is_loopback` and the fake
  IPv4 loopback interface.
- **Interface enumeration on both platforms.**
  - The POSIX `getifaddrs` filter, which keeps interfaces that are up and IPv4, in
    the platform's order.
  - The Windows adapter walk: the netmask comes from the prefix length or from the
    legacy address table with a 255.255.0.0 fallback, and the broadcast address is
    `addr | ~mask`.
  - The bounded `GetAdaptersAddresses` retry.
  - The first-match lookups by name and by address.
- **The receive-buffer check** of `arv_socket_set_recv_buffer_size`.

The operating system is never called. What the system returns enters as input:

- `g_socket_bind` is a function from the port to its outcome.
- `getifaddrs` and `GetAdaptersAddresses` give sequences of records, and
  `GetAdaptersAddresses` is a function from the buffer size to its reply.
- `setsockopt` and `getsockopt` enter as their return values and the reported size.

IPv4 addresses are 32-bit bit-vectors in host byte order. The Windows code compares
and combines them in network byte order. Byte swapping is a bijection that commutes
with `|`, `~` and equality, so the two orders give the same results.

Modules:
- `NetTypes` (`net_types.dfy`): integer widths, tagged socket addresses, the interface record, the netmask and broadcast arithmetic.
- `Classify` (`classify.dfy`): the loopback test and the fake loopback.
- `RangeString` (`range_string.dfy`): the `^([\d]+)-([\d]+)$` match, `g_ascii_strtoull` and the `guint16` truncation.
- `PortRange` (`port_range.dfy`): the specification of a bind call and of a series of calls, and the class `PortRegistry`.
- `Enumerate` (`enumerate.dfy`): both enumerations and the lookups.
- `RecvBuffer` (`recv_buffer.dfy`): the receive-buffer decision.

## Model

| member | source | states |
|---|---|---|
| NetTypes.Broadcast | src/arvnetwork.c:238-239 | the broadcast address agrees with the address on the network bits and has every host bit set |
| NetTypes.PrefixMask | src/arvnetwork.c:210 | bit k of the mask is set exactly when k is among the top `prefix` bits, so the mask is the complement of `0xffffffff >> prefix`; /8, /16 and /24 give 255.0.0.0, 255.255.0.0 and 255.255.255.0 |
| Classify.LoopbackAsWritten | src/arvnetwork.c:608-635 | the test as written: NULL and families other than IPv4 and IPv6 are never loopback, and an IPv4 address that passes lies in 127.0.0.0 to 127.255.255.255 |
| Classify.IsLoopback | src/arvnetwork.c:608-635 | NULL gives FALSE; IPv4 gives TRUE iff the top octet of the host-order address is 127; IPv6 gives TRUE iff all 16 address bytes are zero and the byte after them is 1; other families give FALSE |
| Classify.IsLoopbackCorrected | src/arvnetwork.c:617-632 | with the IPv6 loop stopping at byte 15, the answer is the intended test: fifteen zero bytes followed by a 1 |
| Classify.FakeIpv4Loopback | src/arvnetwork.c:589-606 | the fake interface is 127.0.0.1 with broadcast 127.255.255.255, named "<fake IPv4 localhost>"; its mask is the /8 mask, its broadcast is its address with the host bits set, and it is loopback |
| Classify.IntendedIpv6IsExactlyLoopback | src/arvnetwork.c:619-620 | the loopback test described by the comment accepts an IPv6 address iff it is ::1 |
| Classify.Ipv6LoopbackRejectedAsWritten | src/arvnetwork.c:623-629 | as written, only the all-zero address can pass, and ::1 is always refused, though the intended test accepts it |
| Classify.IntendedAgreesOutsideIpv6 | src/arvnetwork.c:611-615 | the written and the intended test differ only on IPv6 addresses |
| Classify.Ipv4LoopbackIsSlash8 | src/arvnetwork.c:615 | an IPv4 address is loopback iff it lies between 127.0.0.0 and 127.255.255.255, that is, iff it shares its top octet with the fake loopback address |
| Classify.Ipv4Examples | src/arvnetwork.c:615 | 127.0.0.1 and 127.5.5.5 are loopback, 10.0.0.1 is not |
| Classify.Ipv6Examples | src/arvnetwork.c:617-632 | ::2 is loopback under neither test; ::1 only under the intended one |
| RangeString.StripFinalNewline | src/arvnetwork.c:664 | `$` also matches before one final newline sequence of the "any" convention GRegex selects by default ("\r\n", "\n", "\r", VT, FF, NEL, LS, PS): what is removed is nothing or exactly one such sequence: a final "\r\n" is removed whole, a subject ending in any other newline character loses it, and nothing is removed from a subject that does not end in a newline character |
| RangeString.MatchRange | src/arvnetwork.c:664-667 | a match yields two non-empty runs of `\d` characters (Unicode decimal digits), and the string is exactly "<a>-<b>" followed by nothing or one newline sequence |
| RangeString.MatchRangeComplete | src/arvnetwork.c:664-667 | every "<digits>-<digits>" string, followed by nothing or one newline sequence, matches and yields its two runs |
| RangeString.DecimalRoundTrip | src/arvnetwork.c:670-671 | reading the decimal notation of n gives n back |
| RangeString.StrToUll | src/arvnetwork.c:670-671 | g_ascii_strtoull reads the leading ASCII digits (0 when there are none): their value when it fits in 64 bits, G_MAXUINT64 when it does not |
| RangeString.LeadingDigits | src/arvnetwork.c:670-671 | what g_ascii_strtoull consumes is the longest prefix made of ASCII digits: a prefix, all ASCII digits, followed by a non-digit or the end |
| RangeString.LeadingDigitsOfDigits | src/arvnetwork.c:670-671 | a string of ASCII digits is consumed whole |
| RangeString.NoLeadingDigitReadsZero | src/arvnetwork.c:670-671 | a group that does not start with an ASCII digit reads as 0 |
| RangeString.TruncateU16 | src/arvnetwork.c:668-671 | storing into a guint16 reduces modulo 2^16: the stored value differs from the number by a multiple of 65536, and values below 65536 are kept |
| RangeString.ParseRange | src/arvnetwork.c:659-671 | a pair is obtained iff the argument is non-NULL and the regular expression matches it; the values of the pair are given by RangeString.ParseRangeOfGroups |
| RangeString.ParseRangeNeedsDash | src/arvnetwork.c:664-667 | a string without '-' is never a range |
| RangeString.ParseRangeOfGroups | src/arvnetwork.c:664-671 | a string of the accepted shape reads as its two groups, each converted by g_ascii_strtoull and then truncated to 16 bits |
| RangeString.ParseRangeOfDecimals | src/arvnetwork.c:664-671 | "<a>-<b>", with or without a final newline sequence, reads back as a and b, each saturated to 64 bits and then truncated to 16 bits |
| RangeString.RangeRoundTrip | src/arvnetwork.c:655-683 | a pair of guint16 written as "%u-%u" reads back unchanged |
| RangeString.DisablingRangeParses | src/arvnetwork.c:647-648 | "0-0", which switches the restriction off, reads as (0, 0) |
| RangeString.CrLfRangeParses | src/arvnetwork.c:664-671 | "100-200\r\n" reads as (100, 200): `$` matches before a final "\r\n" |
| RangeString.TruncationBeforeOrder | src/arvnetwork.c:668-674 | "65537-2" reads as (1, 2): the bounds are truncated to 16 bits before `min > max` compares them |
| RangeString.NonAsciiDigitsReadAsZero | src/arvnetwork.c:664-671 | groups of Unicode digits that do not start with an ASCII digit match `\d`, and g_ascii_strtoull reads each as 0 |
| RangeString.FullwidthRangeReadsAsDisabled | src/arvnetwork.c:664-671 | the fullwidth "１-２" reads as (0, 0), the pair that switches the restriction off |
| PortRange.NextOffsetIsWrap | src/arvnetwork.c:737 | the cursor update `(offset + 1) % width` is a single wrap-around of offset + 1 |
| PortRange.CandidateAt | src/arvnetwork.c:736-742 | the j-th port a scan tries, min plus the cursor advanced j + 1 times, lies in [min, max] |
| PortRange.CandidateIndex | src/arvnetwork.c:736-742 | every port of [min, max] is the j-th candidate for some j within the scan's max - min + 1 tries |
| PortRange.CandidatesAreTheRange | src/arvnetwork.c:736-742 | whatever the cursor, the candidates are pairwise distinct, and the index of the j-th candidate is j, so one scan covers the range once |
| PortRange.FreshCandidatesAscend | src/arvnetwork.c:705-707 | with the cursor a fresh range leaves (max - min), the candidates are min, min + 1, ..., max in order |
| PortRange.Scan | src/arvnetwork.c:736-767 | the loop: with left tries to go it tries 1 to left ports (none when left is 0), and the cursor it leaves is within the range |
| PortRange.ScanStep | src/arvnetwork.c:737-757 | one iteration: a port that is busy or fails without an error hands the reply and cursor over to the rest of the loop; any other outcome ends the loop with the cursor on that port |
| PortRange.ScanOrder | src/arvnetwork.c:736-742 | the j-th port the loop tries is the j-th candidate counted from the cursor at the start of the call |
| PortRange.ScanBusyBeforeLast | src/arvnetwork.c:743-758 | every port tried before the last failed with "address in use" or without an error |
| PortRange.ScanRunsOut | src/arvnetwork.c:736-767 | when the loop ends in PORT_EXHAUSTION, it made every try, every port tried was busy, and the cursor is back where the call found it |
| PortRange.ScanStopsOnLast | src/arvnetwork.c:743-758 | when the loop returns early, the last port tried neither was busy nor failed without an error, the cursor rests on it, and the reply is that port bound or that bind's error |
| PortRange.Attempt | src/arvnetwork.c:724-767 | the cursor one call leaves is within the range |
| PortRange.DirectBindTriesRequestedPortOnly | src/arvnetwork.c:724-734 | a requested port, or the range (0, 0), gives exactly one bind at that port: the cursor does not move, success iff that bind succeeds, and its error is passed on unchanged |
| PortRange.AttemptShape | src/arvnetwork.c:724-767 | one call tries either only the requested port or 1 to max - min + 1 ports of the range; every port tried is the requested one or in the range; a success returns the address with the last port tried, and that bind succeeded |
| PortRange.ScanOutcome | src/arvnetwork.c:736-767 | a scan tries a prefix of the candidates. All tries but the last failed with "address in use" or without an error. The cursor rests on the last port tried, which after exhaustion is where the call found it. A success returns that port, and any other error is passed on as is. |
| PortRange.ExhaustionIffEveryPortBusy | src/arvnetwork.c:761-767 | PORT_EXHAUSTION naming [min, max] comes back iff every port of the range is busy, and then every port of the range was tried |
| PortRange.ScanFirstCandidateFree | src/arvnetwork.c:737-747 | when the next port is free, the scan binds it at once and the cursor moves to it |
| PortRange.AttemptBindsInRange | src/arvnetwork.c:724-767 | a call for port 0 that binds returns the given address with a port of [min, max] |
| PortRange.Sessions | src/arvnetwork.c:714-768 | in a series of calls for port 0 with the cursor carried over, every reply that binds names the given address and a port of [min, max] |
| PortRange.SessionsFirstCandidateFree | src/arvnetwork.c:737-747 | in a series of calls, a first call whose next port is free binds it, and the next call starts from there |
| PortRange.SessionsLength | src/arvnetwork.c:714-768 | every call of a series gives exactly one reply |
| PortRange.RoundRobin | src/arvnetwork.c:736-747 | the reference sequence of n replies, each binding the port after the previous one, has length n |
| PortRange.SessionsRoundRobin | src/arvnetwork.c:736-747 | a series of calls in which each finds its next port free gives exactly the round-robin replies |
| PortRange.RoundRobinAt | src/arvnetwork.c:737-742 | the c-th round-robin reply binds min + (offset + 1 + c) mod (max - min + 1) |
| PortRange.EachFindsNextFreeByIndex | src/arvnetwork.c:737-747 | when the c-th bind finds port min + (offset + 1 + c) mod (max - min + 1) free, for every c, each call of the series finds its next port free |
| PortRange.SessionsAdvanceRoundRobin | src/arvnetwork.c:736-747 | the cursor carries over between calls: successive calls return successive ports of the range, wrapping around |
| PortRange.FreshRangeBindsInOrder | src/arvnetwork.c:705-747 | right after a range is set, calls that find their ports free return min, min + 1, ..., in order, covering the range before any repeat |
| PortRange.ScanRange | src/arvnetwork.c:736-767 | the for loop, run on the cursor, gives the reply and the final cursor of the loop specification PortRange.Scan |
| PortRange.PortRegistry.constructor | src/arvnetwork.c:639-641 | the registry starts at (0, 0, 0), the restriction off |
| PortRange.PortRegistry.SetRange | src/arvnetwork.c:698-712 | FALSE iff min > max, leaving the registry unchanged; otherwise stores min and max and sets the cursor to max - min |
| PortRange.PortRegistry.SetRangeFromString | src/arvnetwork.c:655-683 | TRUE iff the argument is non-NULL, matches, and its 16-bit truncated values are in order; then it installs that range, else nothing changes |
| PortRange.PortRegistry.BindWithRange | src/arvnetwork.c:714-768 | the reply and the new cursor are those of one call (PortRange.Attempt) from the cursor before the call; the registry invariant min <= max, cursor <= max - min is kept |
| Enumerate.Reverse | src/arvnetwork.c:403 | the reversed list has the same length and the i-th element is the i-th from the end |
| Enumerate.Describe | src/arvnetwork.c:372-395 | the interface carries the entry's address, netmask and name. On Linux the broadcast address is as reported. On the BSDs it is the reported one when present with a non-zero length, and the interface's own address otherwise. |
| Enumerate.PosixInterfaces | src/arvnetwork.c:366-399 | the result is never longer than the platform list |
| Enumerate.EnumeratePosix | src/arvnetwork.c:356-404 | a failed getifaddrs gives the empty list. Otherwise prepending and then reversing gives exactly the selected entries' interfaces, in list order. |
| Enumerate.PosixInterfacesStep | src/arvnetwork.c:366-399 | one more list entry adds its interface at the end when it is up, has an address and is AF_INET, and adds nothing otherwise |
| Enumerate.PosixInterfacesAppend | src/arvnetwork.c:366-403 | order is kept: the interfaces of a list are those of its first part followed by those of the rest |
| Enumerate.PosixInterfacesMembers | src/arvnetwork.c:367-369 | an interface is listed iff some entry that is up, has an address and is AF_INET describes it |
| Enumerate.PosixKeepsAllSelected | src/arvnetwork.c:366-399 | when every entry qualifies, none is lost and the i-th interface is the i-th entry's |
| Enumerate.LegacyNetmask | src/arvnetwork.c:212-236 | the mask of the first table row whose address matches; 255.255.0.0 when no row matches |
| Enumerate.LookupNetmask | src/arvnetwork.c:216-235 | the table search with its early break finds the mask of the first matching row, or 255.255.0.0 |
| Enumerate.Win32Netmask | src/arvnetwork.c:209-236 | on Vista and later the netmask has exactly the top `prefix` bits set; before, it is the mask of a table row whose address is the host, or 255.255.0.0; it is the mask of the first row whose address is the host, and 255.255.0.0 when no row has that address |
| Enumerate.ComputeNetmask | src/arvnetwork.c:208-236 | the mask stored for an address is the one its netmask source gives |
| Enumerate.BuildInterface | src/arvnetwork.c:198-252 | the allocated interface has the address, the netmask, the address with the bits outside the netmask set, and the converted friendly name (NULL when wcstombs fails) |
| Enumerate.AdapterInterfaces | src/arvnetwork.c:182-255 | an adapter contributes at most one interface per unicast address, each IPv4 with a netmask |
| Enumerate.PrependAdapter | src/arvnetwork.c:182-255 | the inner loop prepends the adapter's interfaces, so the list so far stays the reverse of the adapters' interfaces in order |
| Enumerate.Win32Interfaces | src/arvnetwork.c:180-262 | the adapter walk yields only IPv4 interfaces, each with a netmask |
| Enumerate.Win32InterfacesStep | src/arvnetwork.c:180-256 | one more adapter appends exactly that adapter's interfaces to those of the adapters before it |
| Enumerate.EnumerateWin32 | src/arvnetwork.c:112-264 | a failed fetch gives the empty list. Otherwise the result is the selected addresses' interfaces, adapter by adapter and address by address, in order. |
| Enumerate.Win32InterfacesShape | src/arvnetwork.c:199-252 | every Windows interface is IPv4, has a netmask, its broadcast is the address OR the complement of the mask, and its name is the converted friendly name of one of the adapters |
| Enumerate.AdapterInterfacesShape | src/arvnetwork.c:199-252 | each interface of an adapter carries that adapter's friendly name and the address OR the complement of the mask as broadcast |
| Enumerate.DownAdapterContributesNothing | src/arvnetwork.c:187-196 | an adapter whose status is not up contributes no interface |
| Enumerate.Fetch | src/arvnetwork.c:152-175 | an adapter list is obtained only as the list some call returned with success; a failing call, or an overflow on the last try, gives no list |
| Enumerate.FetchBounded | src/arvnetwork.c:152-175 | GetAdaptersAddresses is called 1 to 3 times, first with 15000 bytes. Every call but the last overflowed, and the next used the size it asked for. The list is obtained iff the last call succeeded, and it is that call's list. |
| Enumerate.FetchAdapters | src/arvnetwork.c:152-175 | the do-while retry loop gives the adapter list of the bounded retry specification, and the buffer sizes it passes are those of that specification (at most 3 calls, by Enumerate.FetchBounded) |
| Enumerate.GetInterfaceByName | src/arvnetwork.c:517-541 | NULL iff no interface's name equals the argument (two NULLs compare equal); otherwise the first interface with that name |
| Enumerate.GetInterfaceByAddress | src/arvnetwork.c:543-587 | NULL for a string that is not an IP address, or when no interface has that address; otherwise the first interface whose address equals it |
| RecvBuffer.AsSigned | src/arvnetwork.c:467-468 | the gint reading of a 32-bit pattern: unchanged below 2^31, negative above |
| RecvBuffer.AsUnsigned | src/arvnetwork.c:464-465 | the DWORD reading of a gint: unchanged when non-negative, at least 2^31 when negative |
| RecvBuffer.SignedRoundTrip | src/arvnetwork.c:473 | storing a gint into a DWORD and reading it back as a gint gives the gint back |
| RecvBuffer.UnsignedRoundTrip | src/arvnetwork.c:473 | reading a 32-bit pattern as a gint and storing it back gives the pattern back |
| RecvBuffer.SetRecvBufferSize | src/arvnetwork.c:460-514 | TRUE iff setsockopt succeeds, getsockopt succeeds and the reported size is at least the requested one. A setsockopt failure, a read-back failure and a shortfall are told apart. |
| RecvBuffer.PlatformsAgreeOnOrdinarySizes | src/arvnetwork.c:463-469 | for sizes below 2^31 the POSIX (gint) and Windows (DWORD) builds decide alike |
| RecvBuffer.NegativeRequest | src/arvnetwork.c:494 | for a negative request, POSIX accepts any non-negative reported size, while Windows accepts only a reported size of at least 2^32 plus the request |
| RecvBuffer.SmallerRequestStillSucceeds | src/arvnetwork.c:494 | a smaller non-negative request succeeds whenever a larger one does |

## Left out

- `GMutex` locking of the registry (`src/arvnetwork.c:637`, held across the whole scan) is not modelled; the registry is single-threaded here.
- WSAStartup/WSACleanup (`src/arvnetwork.c:52-110`) and the `inet_ntop` replacement (`src/arvnetwork.c:271-294`) are not modelled: they are start-up calls and a foreign formatting function.
- The poll-compatibility functions (`src/arvnetwork.c:322-351`, `408-422`) are not modelled: they are Windows event-handle calls on one platform and no-ops on the other.
- Memory handling is not modelled: allocation, `g_list_*` bookkeeping, `arv_memdup`, `g_clear_object` and `g_free`. Early returns that leak are left out too; `arv_network_get_interface_by_address` drops its list when the string is not an address.
- Logging (`arv_warning_*`, `arv_debug_*`) and the `g_return_val_if_fail` critical messages are left out; only the value returned on those paths is modelled.
- The GRegex engine is left out. The model writes out the language `^([\d]+)-([\d]+)$` has under GRegex's defaults: the "any" newline convention for `$`, and `\d` as the Unicode decimal digits. Which characters are Unicode decimal digits depends on the Unicode tables of the PCRE build, so PortRange.PortRegistry.SetRangeFromString takes that class as a parameter, required to contain '0' to '9' and no newline, space, sign or '-'.
- RangeString.MatchRange takes the subject as a sequence of code points. The UTF-8 decoding, and what GRegex does with a string that is not valid UTF-8, are not modelled.
- Enumerate.GetInterfaceByName and Enumerate.GetInterfaceByAddress take the enumerated list as a parameter. They do not enumerate themselves.
- Enumerate.GetInterfaceByAddress takes the address already parsed. `g_hostname_is_ip_address` and `g_inet_socket_address_new_from_string` are folded into one optional value.
- Enumerate.BuildInterface takes the adapter's friendly name already converted: Some(name) when `wcstombs` succeeds, None when it fails. On failure `wcstombs` returns `(size_t)-1`, the buffer size becomes 0, `g_malloc (0)` returns NULL, and the interface has no name. The conversion itself is not modelled.
- Enumerate.EnumerateWin32 takes the table rows as given. The `GetIpAddrTable` calls (`src/arvnetwork.c:135-150`) are not modelled. On their failure path the table is freed and then read by the search loop, which the model cannot express.
- NetTypes.PrefixMask gives 0 for a prefix length of 0. In C, `0xffffffffU << 32` is undefined behaviour, so the model fixes a value the source does not define.
- Enumerate.PrefixLength excludes lengths above 32. For them the C shift count would be negative, also undefined; an IPv4 address never has such a length.
- Enumerate.Describe takes the Linux `ifa_ifu` union as the broadcast address whatever the interface. On a point-to-point link it holds the peer address, which the model does not distinguish.
- IPv6 interfaces are never produced by either enumeration (`src/arvnetwork.c:190-192`, `242-244`), and the model keeps only IPv4 entries.
- Classify.IsLoopback models the out-of-bounds read `i6[16]` as the `trailing` byte stored after `sin6_addr`. That byte is the first byte of `sin6_scope_id`.
- RecvBuffer.SetRecvBufferSize does not model the `g_assert` on `optlen` (`src/arvnetwork.c:492`). The model takes getsockopt to write the whole 32-bit value, so that abort never fires.
- RecvBuffer.SetRecvBufferSize takes the syscall results as parameters. The value passed to setsockopt does not affect them here.
- PortRange.PortRegistry.BindWithRange takes `g_socket_bind` as one function from the port to its outcome. The socket, the address and `allow_reuse` are fixed for the call, and the model does not check that an earlier bind on the same socket changes later ones.
- PortRange.Sessions uses one such function per call for a series of calls.
- PortRange.PortRegistry.BindWithRange runs the loop on a local cursor and stores `arv_last_port_offset` once, before it returns. The source stores it on every iteration. Both leave the same value, and the mutex keeps anyone else from seeing the ones in between.
- PortRange.Scan tries port 0 like any other port when a range starts at 0 and is not (0, 0). The source does the same: binding port 0 lets the system pick any free port, outside the range.

## Findings

| source | as written | input that shows it | evidently intended | confidence | as-written member | corrected member |
|---|---|---|---|---|---|---|
| src/arvnetwork.c:623-629 | the loop refuses any non-zero byte among all 16 bytes of `sin6_addr`, and then reads `i6[16]`, the byte after the address | `::1` (15 zero bytes, then 1): the loop returns FALSE at byte 15, so the IPv6 loopback address is never loopback; `::` is accepted when the next byte in memory is 1 | loopback iff the first 15 bytes are 0 and byte 15 is 1, as the comment at lines 619-620 says | high, not executed | Classify.Ipv6LoopbackRejectedAsWritten | Classify.IsLoopbackCorrected |
