/** arv_socket_set_recv_buffer_size: ask for an SO_RCVBUF size, read back what the
    system granted, and report whether it is at least what was asked for.

    setsockopt and getsockopt are oracles: their return values, and the 32 bits
    getsockopt stores into buffer_size_reported, are parameters. */
module RecvBuffer {
  import opened NetTypes

  /** The two builds: gint variables on POSIX systems, DWORD variables on Windows. */
  datatype Platform = Posix | Windows

  /** How a call ends. Every outcome but Applied logs a warning and makes the call return FALSE. */
  datatype Outcome =
    | Applied
    | SetFailed
    | ReadBackFailed
    | Smaller(actual: int, expected: int)

  /** A 32-bit pattern, given by its unsigned value, read as a gint (two's complement). */
  function AsSigned(bits: u32): (x: i32)
    ensures bits < 0x8000_0000 ==> x == bits
    ensures bits >= 0x8000_0000 ==> x < 0
  {
    if bits < 0x8000_0000 then bits else bits - 0x1_0000_0000
  }

  /** A gint converted to DWORD (reduction modulo 2^32). */
  function AsUnsigned(x: i32): (u: u32)
    ensures x >= 0 ==> u == x
    ensures x < 0 ==> u >= 0x8000_0000
  {
    if x >= 0 then x else x + 0x1_0000_0000
  }

  /** The two conversions are inverse: a gint stored into a DWORD and read back as a
      gint is unchanged, and so is a bit pattern read as a gint and stored back. */
  lemma SignedRoundTrip(x: i32)
    ensures AsSigned(AsUnsigned(x)) == x
  {
  }

  lemma UnsignedRoundTrip(bits: u32)
    ensures AsUnsigned(AsSigned(bits)) == bits
  {
  }

  /** The reported size as the comparison sees it: a gint on POSIX, a DWORD on Windows. */
  function Reported(platform: Platform, bits: u32): int
  {
    match platform
    case Posix => AsSigned(bits)
    case Windows => bits
  }

  /** The requested size as the comparison sees it: on Windows `buffer_size_reported <
      buffer_size` compares a DWORD with a gint, so the gint is converted to DWORD. */
  function Requested(platform: Platform, bufferSize: i32): int
  {
    match platform
    case Posix => bufferSize
    case Windows => AsUnsigned(bufferSize)
  }

  /** arv_socket_set_recv_buffer_size: `setResult` and `getResult` are what setsockopt
      and getsockopt return, `reported` the 32 bits getsockopt stored, as an unsigned
      value. It succeeds only when both calls succeed and the granted size is not
      below the requested one. */
  function SetRecvBufferSize(platform: Platform, bufferSize: i32, setResult: int, getResult: int,
                             reported: u32): (o: Outcome)
    ensures o.Applied? <==> setResult == 0 && getResult == 0 && Reported(platform, reported) >= Requested(platform, bufferSize)
    ensures o.SetFailed? <==> setResult != 0
    ensures o.ReadBackFailed? <==> setResult == 0 && getResult != 0
    ensures o.Smaller? ==> o.actual < o.expected && o.actual == Reported(platform, reported)
  {
    if setResult != 0 then SetFailed
    else if getResult != 0 then ReadBackFailed
    else if Reported(platform, reported) < Requested(platform, bufferSize) then
      Smaller(Reported(platform, reported), Requested(platform, bufferSize))
    else Applied
  }

  /** The gboolean the function returns. */
  predicate Succeeded(o: Outcome)
  {
    o.Applied?
  }

  /** For sizes that are non-negative as a gint, both builds decide alike. */
  lemma PlatformsAgreeOnOrdinarySizes(bufferSize: i32, setResult: int, getResult: int, reported: u32)
    requires bufferSize >= 0 && reported < 0x8000_0000
    ensures Succeeded(SetRecvBufferSize(Posix, bufferSize, setResult, getResult, reported))
            == Succeeded(SetRecvBufferSize(Windows, bufferSize, setResult, getResult, reported))
  {
  }

  /** A negative request: the POSIX build accepts any non-negative granted size, while
      the Windows build, reading it as a DWORD near 2^32, accepts only a granted size
      at least that large. */
  lemma NegativeRequest(bufferSize: i32, reported: u32)
    requires bufferSize < 0
    ensures reported < 0x8000_0000 ==> Succeeded(SetRecvBufferSize(Posix, bufferSize, 0, 0, reported))
    ensures Succeeded(SetRecvBufferSize(Windows, bufferSize, 0, 0, reported))
            <==> reported >= bufferSize + 0x1_0000_0000
    ensures reported < 0x8000_0000 ==> !Succeeded(SetRecvBufferSize(Windows, bufferSize, 0, 0, reported))
  {
  }

  /** When both calls succeed, asking for less never turns success into failure. */
  lemma SmallerRequestStillSucceeds(platform: Platform, a: i32, b: i32, reported: u32)
    requires 0 <= a <= b
    requires Succeeded(SetRecvBufferSize(platform, b, 0, 0, reported))
    ensures Succeeded(SetRecvBufferSize(platform, a, 0, 0, reported))
  {
  }
}
