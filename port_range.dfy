/** The GigE Vision port-range registry and the range-constrained binder
    (arv_set_gv_port_range, arv_set_gv_port_range_from_string,
    arv_socket_bind_with_range).

    g_socket_bind is an oracle: for the socket, the address and the reuse flag
    of one call, a function from the port to what the bind reports. */
module PortRange {
  import opened NetTypes
  import RangeString

  /** G_IO_ERROR_ADDRESS_IN_USE in GLib's GIOErrorEnum. */
  const G_IO_ERROR_ADDRESS_IN_USE: int := 33

  /** A GError that g_socket_bind can set: one of the G_IO_ERROR domain, or of another domain. */
  datatype OsError = IoError(code: int) | ForeignError(domain: nat, code: int)

  /** The error arv_socket_bind_with_range reports: the bind's own, or
      ARV_NETWORK_ERROR_PORT_EXHAUSTION naming the range that was used up. */
  datatype BindError = Os(os: OsError) | PortExhaustion(minimum: u16, maximum: u16)

  /** What one g_socket_bind call does: succeed, fail with an error, or fail without setting one. */
  datatype BindStatus = BindOk | BindFailed(error: OsError) | BindFailedUnreported

  datatype SocketAddress = SocketAddress(address: SockAddr, port: u16)

  /** The returned GSocketAddress, or NULL together with the error left in *error (if any). */
  datatype BindReply = Bound(socketAddress: SocketAddress) | NotBound(error: Option<BindError>)

  /** A whole call: its reply, the cursor it leaves, and the ports it tried, in order. */
  datatype BindRun = BindRun(reply: BindReply, offset: nat, tried: seq<u16>)

  predicate IsAddressInUse(e: OsError)
  {
    e.IoError? && e.code == G_IO_ERROR_ADDRESS_IN_USE
  }

  /** The failures after which the scan goes on to the next port. */
  predicate MovesOn(s: BindStatus)
  {
    s.BindFailedUnreported? || (s.BindFailed? && IsAddressInUse(s.error))
  }

  /** (min, max) == (0, 0) switches the restriction off. */
  predicate RangeDisabled(min: u16, max: u16)
  {
    min == 0 && max == 0
  }

  /** x reduced once modulo width, for x below twice the width. */
  function Wrap(x: nat, width: nat): (r: nat)
    requires x < 2 * width
    ensures r < width
  {
    if x < width then x else x - width
  }

  lemma NextOffsetIsWrap(offset: nat, width: nat)
    requires offset < width
    ensures (offset + 1) % width == Wrap(offset + 1, width)
  {
    if offset + 1 == width {
      assert (offset + 1) % width == 0;
    }
  }

  /** The port tried after the cursor has advanced j + 1 times from `offset`:
      before each attempt the cursor moves to (cursor + 1) mod (max - min + 1)
      (see NextOffsetIsWrap) and port min + cursor is tried. */
  function CandidateAt(min: u16, max: u16, offset: nat, j: nat): (p: u16)
    requires min <= max && offset <= max - min && j <= max - min
    ensures min <= p <= max
  {
    min + Wrap(offset + 1 + j, max - min + 1)
  }

  /** Where port p comes among the candidates. */
  function CandidateIndex(min: u16, max: u16, offset: nat, p: u16): (j: nat)
    requires min <= max && offset <= max - min && min <= p <= max
    ensures j <= max - min && CandidateAt(min, max, offset, j) == p
  {
    var t := p - min;
    if t >= offset + 1 then t - offset - 1 else t + (max - min + 1) - offset - 1
  }

  /** Every port of the range is a candidate exactly once, whatever the cursor:
      distinct positions give distinct ports, and CandidateIndex finds the
      position of each port (so it is onto [min, max]). */
  lemma CandidatesAreTheRange(min: u16, max: u16, offset: nat)
    requires min <= max && offset <= max - min
    ensures forall j, k :: 0 <= j < k <= max - min ==>
              CandidateAt(min, max, offset, j) != CandidateAt(min, max, offset, k)
    ensures forall j :: 0 <= j <= max - min ==>
              CandidateIndex(min, max, offset, CandidateAt(min, max, offset, j)) == j
  {
    var w := max - min + 1;
    forall j, k | 0 <= j < k <= max - min
      ensures CandidateAt(min, max, offset, j) != CandidateAt(min, max, offset, k)
    {
      assert Wrap(offset + 1 + j, w) != Wrap(offset + 1 + k, w);
    }
  }

  /** Right after a range is installed the cursor stands at max - min, and the
      candidates are min, min + 1, ..., max in that order. */
  lemma FreshCandidatesAscend(min: u16, max: u16, offset: nat)
    requires min <= max && offset == max - min
    ensures forall j :: 0 <= j <= max - min ==> CandidateAt(min, max, offset, j) == min + j
  {
    forall j | 0 <= j <= max - min ensures CandidateAt(min, max, offset, j) == min + j {
      assert Wrap(max - min + 1 + j, max - min + 1) == j;
    }
  }

  /** The loop of arv_socket_bind_with_range with `left` iterations still to run and
      the cursor at `cursor`: advance the cursor, try port min + cursor, and stop on
      a success or on an error other than "address in use"; when no iteration is
      left, PORT_EXHAUSTION with the cursor where it is. A call runs it with
      max - min + 1 iterations. */
  function Scan(address: SockAddr, min: u16, max: u16, cursor: nat, left: nat,
                bind: u16 -> BindStatus): (run: BindRun)
    requires min <= max && cursor <= max - min
    ensures run.offset <= max - min
    ensures |run.tried| <= left && (left > 0 ==> |run.tried| >= 1)
    decreases left
  {
    if left == 0 then
      BindRun(NotBound(Some(PortExhaustion(min, max))), cursor, [])
    else
      var next := Wrap(cursor + 1, max - min + 1);
      var port: u16 := min + next;
      var status := bind(port);
      if MovesOn(status) then
        var rest := Scan(address, min, max, next, left - 1, bind);
        BindRun(rest.reply, rest.offset, [port] + rest.tried)
      else if status.BindOk? then
        BindRun(Bound(SocketAddress(address, port)), next, [port])
      else
        BindRun(NotBound(Some(Os(status.error))), next, [port])
  }

  predicate Exhausted(run: BindRun, min: u16, max: u16)
  {
    run.reply == NotBound(Some(PortExhaustion(min, max)))
  }

  /** One iteration of the loop: a busy port hands over to the remaining
      iterations, any other outcome ends the call on that port. */
  lemma ScanStep(address: SockAddr, min: u16, max: u16, cursor: nat, left: nat, bind: u16 -> BindStatus)
    requires min <= max && cursor <= max - min && left > 0
    ensures MovesOn(bind(min + Wrap(cursor + 1, max - min + 1))) ==>
              Scan(address, min, max, cursor, left, bind).reply
              == Scan(address, min, max, Wrap(cursor + 1, max - min + 1), left - 1, bind).reply
              && Scan(address, min, max, cursor, left, bind).offset
                 == Scan(address, min, max, Wrap(cursor + 1, max - min + 1), left - 1, bind).offset
    ensures !MovesOn(bind(min + Wrap(cursor + 1, max - min + 1))) ==>
              Scan(address, min, max, cursor, left, bind).offset == Wrap(cursor + 1, max - min + 1)
  {
  }

  /** Resumed after i iterations (the cursor i steps past `offset`), the loop tries
      the candidates from the i-th on, in order. */
  lemma {:induction false} ScanOrder(address: SockAddr, min: u16, max: u16, offset: nat,
                                     bind: u16 -> BindStatus, i: nat, cursor: nat, left: nat)
    requires min <= max && offset <= max - min && i + left == max - min + 1
    requires cursor == Wrap(offset + i, max - min + 1)
    ensures forall j :: 0 <= j < |Scan(address, min, max, cursor, left, bind).tried| ==>
              Scan(address, min, max, cursor, left, bind).tried[j] == CandidateAt(min, max, offset, i + j)
    decreases left
  {
    if left > 0 {
      var next := Wrap(cursor + 1, max - min + 1);
      assert next == Wrap(offset + 1 + i, max - min + 1);
      if MovesOn(bind(min + next)) {
        ScanOrder(address, min, max, offset, bind, i + 1, next, left - 1);
      }
    }
  }

  /** Every port the loop tries before the last one failed with "address in use"
      (or without an error). */
  lemma {:induction false} ScanBusyBeforeLast(address: SockAddr, min: u16, max: u16,
                                              bind: u16 -> BindStatus, cursor: nat, left: nat)
    requires min <= max && cursor <= max - min
    ensures forall j :: 0 <= j < |Scan(address, min, max, cursor, left, bind).tried| - 1 ==>
              MovesOn(bind(Scan(address, min, max, cursor, left, bind).tried[j]))
    decreases left
  {
    if left > 0 {
      var next := Wrap(cursor + 1, max - min + 1);
      if MovesOn(bind(min + next)) {
        ScanBusyBeforeLast(address, min, max, bind, next, left - 1);
      }
    }
  }

  /** A loop that runs out of iterations has tried one port per iteration, each
      busy, and the cursor has come back to where the call found it. */
  lemma {:induction false} ScanRunsOut(address: SockAddr, min: u16, max: u16, offset: nat,
                                       bind: u16 -> BindStatus, i: nat, cursor: nat, left: nat)
    requires min <= max && offset <= max - min && i + left == max - min + 1
    requires cursor == Wrap(offset + i, max - min + 1)
    ensures Exhausted(Scan(address, min, max, cursor, left, bind), min, max) ==>
              |Scan(address, min, max, cursor, left, bind).tried| == left
              && Scan(address, min, max, cursor, left, bind).offset == offset
              && forall j :: 0 <= j < left ==> MovesOn(bind(Scan(address, min, max, cursor, left, bind).tried[j]))
    decreases left
  {
    if left > 0 {
      var next := Wrap(cursor + 1, max - min + 1);
      if MovesOn(bind(min + next)) {
        ScanRunsOut(address, min, max, offset, bind, i + 1, next, left - 1);
      }
    }
  }

  /** A loop that ends before running out stops on the last port it tried: that
      bind did not fail with "address in use", the reply is its outcome and the
      cursor rests on it. */
  lemma {:induction false} ScanStopsOnLast(address: SockAddr, min: u16, max: u16,
                                           bind: u16 -> BindStatus, cursor: nat, left: nat)
    requires min <= max && cursor <= max - min
    ensures !Exhausted(Scan(address, min, max, cursor, left, bind), min, max) ==>
              Scan(address, min, max, cursor, left, bind).tried != []
              && !MovesOn(bind(Last(Scan(address, min, max, cursor, left, bind).tried)))
              && Scan(address, min, max, cursor, left, bind).offset
                 == Last(Scan(address, min, max, cursor, left, bind).tried) - min
              && Scan(address, min, max, cursor, left, bind).reply
                 == Stopped(address, Last(Scan(address, min, max, cursor, left, bind).tried),
                            bind(Last(Scan(address, min, max, cursor, left, bind).tried)))
    decreases left
  {
    if left > 0 {
      var next := Wrap(cursor + 1, max - min + 1);
      if MovesOn(bind(min + next)) {
        ScanStopsOnLast(address, min, max, bind, next, left - 1);
      }
    }
  }

  function Last(s: seq<u16>): u16
    requires s != []
  {
    s[|s| - 1]
  }

  /** The reply for a bind that ends the scan. */
  function Stopped(address: SockAddr, port: u16, status: BindStatus): BindReply
    requires !MovesOn(status)
  {
    if status.BindOk? then Bound(SocketAddress(address, port)) else NotBound(Some(Os(status.error)))
  }

  /** One call of arv_socket_bind_with_range: a single bind at the requested port
      when a port is given or the range is disabled, else the scan loop with
      max - min + 1 iterations from the stored cursor. */
  function Attempt(address: SockAddr, port: u16, min: u16, max: u16, offset: nat,
                   bind: u16 -> BindStatus): (run: BindRun)
    requires min <= max && offset <= max - min
    ensures run.offset <= max - min
  {
    if port != 0 || RangeDisabled(min, max) then
      var reply :=
        match bind(port)
        case BindOk => Bound(SocketAddress(address, port))
        case BindFailed(e) => NotBound(Some(Os(e)))
        case BindFailedUnreported => NotBound(None);
      BindRun(reply, offset, [port])
    else
      Scan(address, min, max, offset, max - min + 1, bind)
  }

  /** When a port is requested, or the range is (0, 0), exactly that port is tried
      once, its error comes back unchanged and the cursor does not move. */
  lemma DirectBindTriesRequestedPortOnly(address: SockAddr, port: u16, min: u16, max: u16, offset: nat,
                                         bind: u16 -> BindStatus)
    requires min <= max && offset <= max - min
    requires port != 0 || RangeDisabled(min, max)
    ensures var run := Attempt(address, port, min, max, offset, bind);
            && run.tried == [port] && run.offset == offset
            && (run.reply.Bound? <==> bind(port) == BindOk)
            && (forall e :: bind(port) == BindFailed(e) ==> run.reply == NotBound(Some(Os(e))))
  {
  }

  /** How an automatic scan ends: it tries the candidates in order, every try but
      the last failed with "address in use" (or without an error), the cursor is
      left on the last try, a success returns that port, and any other error is
      passed on unchanged. */
  lemma ScanOutcome(address: SockAddr, min: u16, max: u16, offset: nat, bind: u16 -> BindStatus)
    requires min <= max && offset <= max - min
    ensures var run := Scan(address, min, max, offset, max - min + 1, bind);
            var last := run.tried[|run.tried| - 1];
            && 1 <= |run.tried| <= max - min + 1
            && (forall j :: 0 <= j < |run.tried| ==> run.tried[j] == CandidateAt(min, max, offset, j))
            && (forall j :: 0 <= j < |run.tried| - 1 ==> MovesOn(bind(run.tried[j])))
            && run.offset == last - min
            && (run.reply.Bound? <==> bind(last) == BindOk)
            && (run.reply.Bound? ==> run.reply.socketAddress == SocketAddress(address, last))
            && (forall e :: run.reply == NotBound(Some(Os(e))) <==> bind(last) == BindFailed(e) && !IsAddressInUse(e))
            && run.reply != NotBound(None)
  {
    var w := max - min + 1;
    ScanOrder(address, min, max, offset, bind, 0, offset, w);
    ScanBusyBeforeLast(address, min, max, bind, offset, w);
    ScanRunsOut(address, min, max, offset, bind, 0, offset, w);
    ScanStopsOnLast(address, min, max, bind, offset, w);
    if Exhausted(Scan(address, min, max, offset, w, bind), min, max) {
      assert Wrap(offset + 1 + (max - min), w) == offset;
    }
  }

  /** An automatic scan ends in PORT_EXHAUSTION exactly when every port of
      [min, max] fails with "address in use" (or without an error), and then it
      has tried each port of the range once. */
  lemma ExhaustionIffEveryPortBusy(address: SockAddr, min: u16, max: u16, offset: nat,
                                   bind: u16 -> BindStatus)
    requires min <= max && offset <= max - min
    ensures Exhausted(Scan(address, min, max, offset, max - min + 1, bind), min, max)
            <==> forall p: u16 :: min <= p <= max ==> MovesOn(bind(p))
    ensures var run := Scan(address, min, max, offset, max - min + 1, bind);
            Exhausted(run, min, max) ==>
              |run.tried| == max - min + 1 && forall p: u16 :: min <= p <= max ==> p in run.tried
  {
    var w := max - min + 1;
    var run := Scan(address, min, max, offset, w, bind);
    ScanOrder(address, min, max, offset, bind, 0, offset, w);
    ScanRunsOut(address, min, max, offset, bind, 0, offset, w);
    ScanStopsOnLast(address, min, max, bind, offset, w);
    if Exhausted(run, min, max) {
      forall p: u16 | min <= p <= max ensures MovesOn(bind(p)) && p in run.tried {
        var j := CandidateIndex(min, max, offset, p);
        assert run.tried[j] == p;
      }
    } else {
      var last := Last(run.tried);
      assert last == CandidateAt(min, max, offset, |run.tried| - 1);
      assert min <= last <= max && !MovesOn(bind(last));
    }
  }

  /** Whatever the oracle, a call tries the requested port alone or between one and
      max - min + 1 ports of the range, and a socket address comes back only for
      the last port tried, whose bind succeeded. */
  lemma AttemptShape(address: SockAddr, port: u16, min: u16, max: u16, offset: nat, bind: u16 -> BindStatus)
    requires min <= max && offset <= max - min
    ensures var run := Attempt(address, port, min, max, offset, bind);
            && (run.tried == [port] || 1 <= |run.tried| <= max - min + 1)
            && (forall p :: p in run.tried ==> p == port || min <= p <= max)
            && (run.reply.Bound? ==>
                  run.tried != []
                  && run.reply.socketAddress == SocketAddress(address, run.tried[|run.tried| - 1])
                  && bind(run.tried[|run.tried| - 1]).BindOk?)
  {
    if !(port != 0 || RangeDisabled(min, max)) {
      ScanOutcome(address, min, max, offset, bind);
    }
  }

  /** A call whose first candidate is free binds it and stops there. */
  lemma ScanFirstCandidateFree(address: SockAddr, min: u16, max: u16, offset: nat, bind: u16 -> BindStatus)
    requires min <= max && offset <= max - min
    requires bind(min + Wrap(offset + 1, max - min + 1)) == BindOk
    ensures Scan(address, min, max, offset, max - min + 1, bind)
            == BindRun(Bound(SocketAddress(address, min + Wrap(offset + 1, max - min + 1))),
                       Wrap(offset + 1, max - min + 1), [min + Wrap(offset + 1, max - min + 1)])
  {
  }

  /** A call for port 0 that binds binds a port of the range, at the given address. */
  lemma AttemptBindsInRange(address: SockAddr, min: u16, max: u16, offset: nat, bind: u16 -> BindStatus)
    requires min <= max && offset <= max - min
    ensures var run := Attempt(address, 0, min, max, offset, bind);
            run.reply.Bound? ==> run.reply.socketAddress.address == address
                                 && min <= run.reply.socketAddress.port <= max
  {
    if RangeDisabled(min, max) {
      AttemptShape(address, 0, min, max, offset, bind);
    } else {
      ScanOutcome(address, min, max, offset, bind);
    }
  }

  /** Several calls in a row that ask for no particular port (port 0), one oracle
      per call, the cursor carried over from each call to the next. */
  function Sessions(address: SockAddr, min: u16, max: u16, offset: nat,
                    binds: seq<u16 -> BindStatus>): (r: seq<BindReply>)
    requires min <= max && offset <= max - min
    ensures forall i :: 0 <= i < |r| && r[i].Bound? ==>
              r[i].socketAddress.address == address && min <= r[i].socketAddress.port <= max
    decreases |binds|
  {
    if binds == [] then []
    else
      var run := Attempt(address, 0, min, max, offset, binds[0]);
      AttemptBindsInRange(address, min, max, offset, binds[0]);
      [run.reply] + Sessions(address, min, max, run.offset, binds[1..])
  }

  /** A first call that finds its first candidate free binds it, and the next
      call starts from there. */
  lemma SessionsFirstCandidateFree(address: SockAddr, min: u16, max: u16, offset: nat,
                                   binds: seq<u16 -> BindStatus>)
    requires min <= max && offset <= max - min && binds != []
    requires binds[0](min + Wrap(offset + 1, max - min + 1)) == BindOk
    ensures Sessions(address, min, max, offset, binds)
            == [Bound(SocketAddress(address, min + Wrap(offset + 1, max - min + 1)))]
               + Sessions(address, min, max, Wrap(offset + 1, max - min + 1), binds[1..])
  {
    if RangeDisabled(min, max) {
      assert Wrap(offset + 1, max - min + 1) == 0;
    } else {
      ScanFirstCandidateFree(address, min, max, offset, binds[0]);
    }
  }

  /** Each call of a series returns exactly one reply. */
  lemma {:induction false} SessionsLength(address: SockAddr, min: u16, max: u16, offset: nat,
                                          binds: seq<u16 -> BindStatus>)
    requires min <= max && offset <= max - min
    ensures |Sessions(address, min, max, offset, binds)| == |binds|
    decreases |binds|
  {
    if binds != [] {
      var run := Attempt(address, 0, min, max, offset, binds[0]);
      SessionsLength(address, min, max, run.offset, binds[1..]);
    }
  }

  /** What a series of n calls returns when each call finds the port after the
      previous one's free: the ports of the range in turn, wrapping around. */
  function RoundRobin(address: SockAddr, min: u16, max: u16, offset: nat, n: nat): (r: seq<BindReply>)
    requires min <= max && offset <= max - min
    ensures |r| == n
    decreases n
  {
    if n == 0 then []
    else
      var next := Wrap(offset + 1, max - min + 1);
      [Bound(SocketAddress(address, min + next))] + RoundRobin(address, min, max, next, n - 1)
  }

  /** Each call of the series finds free the port right after the one the
      previous call left the cursor on. */
  predicate EachFindsNextFree(min: u16, max: u16, offset: nat, binds: seq<u16 -> BindStatus>)
    requires min <= max && offset <= max - min
    decreases |binds|
  {
    binds != [] ==>
      && binds[0](min + Wrap(offset + 1, max - min + 1)) == BindOk
      && EachFindsNextFree(min, max, Wrap(offset + 1, max - min + 1), binds[1..])
  }

  /** Under that condition every call binds its first candidate. */
  lemma {:induction false} SessionsRoundRobin(address: SockAddr, min: u16, max: u16, offset: nat,
                                              binds: seq<u16 -> BindStatus>)
    requires min <= max && offset <= max - min
    requires EachFindsNextFree(min, max, offset, binds)
    ensures Sessions(address, min, max, offset, binds) == RoundRobin(address, min, max, offset, |binds|)
    decreases |binds|
  {
    if binds != [] {
      SessionsFirstCandidateFree(address, min, max, offset, binds);
      SessionsRoundRobin(address, min, max, Wrap(offset + 1, max - min + 1), binds[1..]);
    }
  }

  /** The c-th reply of the round robin is port min + (offset + 1 + c) mod (max - min + 1). */
  lemma {:induction false} RoundRobinAt(address: SockAddr, min: u16, max: u16, offset: nat, n: nat, c: nat)
    requires min <= max && offset <= max - min
    requires c < n && c <= max - min
    ensures RoundRobin(address, min, max, offset, n)[c]
            == Bound(SocketAddress(address, min + Wrap(offset + 1 + c, max - min + 1)))
    decreases c
  {
    if c > 0 {
      var next := Wrap(offset + 1, max - min + 1);
      RoundRobinAt(address, min, max, next, n - 1, c - 1);
      assert Wrap(next + 1 + (c - 1), max - min + 1) == Wrap(offset + 1 + c, max - min + 1);
    }
  }

  /** The condition, stated call by call. */
  lemma {:induction false} EachFindsNextFreeByIndex(min: u16, max: u16, offset: nat,
                                                    binds: seq<u16 -> BindStatus>)
    requires min <= max && offset <= max - min && |binds| <= max - min + 1
    requires forall c :: 0 <= c < |binds| ==> binds[c](min + Wrap(offset + 1 + c, max - min + 1)) == BindOk
    ensures EachFindsNextFree(min, max, offset, binds)
    decreases |binds|
  {
    if binds != [] {
      var w := max - min + 1;
      var next := Wrap(offset + 1, w);
      forall c | 0 <= c < |binds| - 1 ensures binds[1..][c](min + Wrap(next + 1 + c, w)) == BindOk {
        assert binds[1..][c] == binds[c + 1];
        assert Wrap(next + 1 + c, w) == Wrap(offset + 1 + (c + 1), w);
      }
      EachFindsNextFreeByIndex(min, max, next, binds[1..]);
    }
  }

  /** Round robin across calls: when each call finds the port after the previous
      call's free, successive calls return successive ports of the range. */
  lemma SessionsAdvanceRoundRobin(address: SockAddr, min: u16, max: u16, offset: nat,
                                  binds: seq<u16 -> BindStatus>)
    requires min <= max && offset <= max - min
    requires |binds| <= max - min + 1
    requires forall c :: 0 <= c < |binds| ==> binds[c](min + Wrap(offset + 1 + c, max - min + 1)) == BindOk
    ensures |Sessions(address, min, max, offset, binds)| == |binds|
    ensures forall c :: 0 <= c < |binds| ==>
              Sessions(address, min, max, offset, binds)[c]
              == Bound(SocketAddress(address, min + Wrap(offset + 1 + c, max - min + 1)))
  {
    EachFindsNextFreeByIndex(min, max, offset, binds);
    SessionsRoundRobin(address, min, max, offset, binds);
    forall c | 0 <= c < |binds|
      ensures RoundRobin(address, min, max, offset, |binds|)[c]
              == Bound(SocketAddress(address, min + Wrap(offset + 1 + c, max - min + 1)))
    {
      RoundRobinAt(address, min, max, offset, |binds|, c);
    }
  }

  /** Right after a range is installed, the c-th automatic bind returns port
      min + c when that port is free: the first call starts at min, and
      max - min + 1 calls cover the range once each, in order. */
  lemma FreshRangeBindsInOrder(address: SockAddr, min: u16, max: u16, binds: seq<u16 -> BindStatus>)
    requires min <= max && |binds| <= max - min + 1
    requires forall c :: 0 <= c < |binds| ==> binds[c](min + c) == BindOk
    ensures var replies := Sessions(address, min, max, max - min, binds);
            && |replies| == |binds|
            && forall c :: 0 <= c < |binds| ==> replies[c] == Bound(SocketAddress(address, min + c))
  {
    var w := max - min + 1;
    forall c | 0 <= c < |binds|
      ensures binds[c](min + Wrap(max - min + 1 + c, w)) == BindOk
    {
      assert Wrap(max - min + 1 + c, w) == c;
    }
    SessionsAdvanceRoundRobin(address, min, max, max - min, binds);
  }

  /** The loop of arv_socket_bind_with_range, from the cursor `start`: it returns
      what the call returns and the cursor it leaves in arv_last_port_offset. */
  method ScanRange(address: SockAddr, min: u16, max: u16, start: nat, bind: u16 -> BindStatus)
    returns (reply: BindReply, cursor: nat)
    requires min <= max && start <= max - min
    ensures reply == Scan(address, min, max, start, max - min + 1, bind).reply
    ensures cursor == Scan(address, min, max, start, max - min + 1, bind).offset
  {
    cursor := start;
    var i := 0;
    while i <= max - min
      invariant i <= max - min + 1 && cursor <= max - min
      invariant Scan(address, min, max, cursor, max - min + 1 - i, bind).reply
                == Scan(address, min, max, start, max - min + 1, bind).reply
      invariant Scan(address, min, max, cursor, max - min + 1 - i, bind).offset
                == Scan(address, min, max, start, max - min + 1, bind).offset
      decreases max - min + 1 - i
    {
      ScanStep(address, min, max, cursor, max - min + 1 - i, bind);
      NextOffsetIsWrap(cursor, max - min + 1);
      cursor := (cursor + 1) % (max - min + 1);
      var candidate: u16 := min + cursor;
      var status := bind(candidate);
      if !MovesOn(status) {
        if status.BindOk? {
          return Bound(SocketAddress(address, candidate)), cursor;
        }
        return NotBound(Some(Os(status.error))), cursor;
      }
      i := i + 1;
    }
    reply := NotBound(Some(PortExhaustion(min, max)));
  }

  /** The process-wide registry: arv_port_minimum, arv_port_maximum, arv_last_port_offset. */
  class PortRegistry {
    var minimum: u32
    var maximum: u32
    var lastOffset: u32

    ghost predicate Valid()
      reads this
    {
      minimum <= maximum < 0x1_0000 && lastOffset <= maximum - minimum
    }

    /** The static initial values: 0, 0, 0 (no restriction). */
    constructor ()
      ensures Valid()
      ensures minimum == 0 && maximum == 0 && lastOffset == 0
    {
      minimum, maximum, lastOffset := 0, 0, 0;
    }

    /** arv_set_gv_port_range: refuses min > max; otherwise installs the range and
        puts the cursor on its last offset, so the next scan begins at min. */
    method SetRange(min: u16, max: u16) returns (ok: bool)
      requires Valid()
      modifies this
      ensures Valid()
      ensures ok <==> min <= max
      ensures ok ==> minimum == min && maximum == max && lastOffset == max - min
      ensures !ok ==> minimum == old(minimum) && maximum == old(maximum) && lastOffset == old(lastOffset)
    {
      if !(min <= max) {
        return false;
      }
      minimum := min;
      maximum := max;
      lastOffset := maximum - minimum;
      return true;
    }

    /** arv_set_gv_port_range_from_string: installs the range read from "<min>-<max>";
        a NULL or malformed argument, or a reversed pair, changes nothing. `isDecimal`
        is the set of characters `\d` matches (see RangeString). */
    method SetRangeFromString(range: Option<string>, isDecimal: char -> bool) returns (ok: bool)
      requires Valid() && RangeString.DigitClass(isDecimal)
      modifies this
      ensures Valid()
      ensures ok <==> RangeString.ParseRange(range, isDecimal).Some?
                      && RangeString.ParseRange(range, isDecimal).value.0 <= RangeString.ParseRange(range, isDecimal).value.1
      ensures ok ==> minimum == RangeString.ParseRange(range, isDecimal).value.0
                     && maximum == RangeString.ParseRange(range, isDecimal).value.1
                     && lastOffset == maximum - minimum
      ensures !ok ==> minimum == old(minimum) && maximum == old(maximum) && lastOffset == old(lastOffset)
    {
      var parsed := RangeString.ParseRange(range, isDecimal);
      if parsed.None? {
        return false;
      }
      var (min, max) := parsed.value;
      if min > max {
        return false;
      }
      ok := SetRange(min, max);
    }

    /** arv_socket_bind_with_range. */
    method BindWithRange(address: SockAddr, port: u16, bind: u16 -> BindStatus) returns (reply: BindReply)
      requires Valid()
      modifies this`lastOffset
      ensures Valid()
      ensures reply == Attempt(address, port, minimum, maximum, old(lastOffset), bind).reply
      ensures lastOffset == Attempt(address, port, minimum, maximum, old(lastOffset), bind).offset
    {
      if port != 0 || (minimum == 0 && maximum == 0) {
        var status := bind(port);
        match status {
          case BindOk => reply := Bound(SocketAddress(address, port));
          case BindFailed(e) => reply := NotBound(Some(Os(e)));
          case BindFailedUnreported => reply := NotBound(None);
        }
        return;
      }
      var cursor;
      reply, cursor := ScanRange(address, minimum, maximum, lastOffset, bind);
      lastOffset := cursor;
    }
  }
}
