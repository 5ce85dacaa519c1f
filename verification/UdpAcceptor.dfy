/** The UDP acceptor: each completed operation arms the next one. */
module UdpAcceptor {
  import opened Wrappers
  import opened LittleEndian
  import opened Wire
  import opened Streams
  import opened Framing

  // An outstanding receive: the one-byte peek of `accept`, or the read of a whole packet, on the
  // socket it was started with.
  datatype Operation = Peek(socket: nat) | ReadBody(socket: nat, available: nat)

  datatype Completion = Aborted | Error | Ok

  // What the acceptor holds: the current socket, the sockets made so far, what is outstanding, and
  // the payloads its processor got.
  datatype Acceptor = Acceptor(
    socket: Option<nat>,
    sockets: nat,
    outstanding: seq<Operation>,
    delivered: seq<seq<Byte>>
  )

  const FRESH := Acceptor(None, 0, [], [])

  // ------------------------------------------------------------ the protocol, on values

  datatype Event =
    | Started // `start`, up to its accept
    | Reloaded // `reload`: the pointers are replaced, the old socket is not closed
    | Stopped // `stop`, and a `reload` that throws before it has a socket: the pointers are cleared
    | Peeked(op: nat, how: Completion, available: nat)
    | BodyRead(op: nat, how: Completion, packet: seq<Byte>)

  // While the pointers are cleared, the only completion that uses none of them is an aborted peek.
  predicate Enabled(a: Acceptor, e: Event) {
    match e
    case Started => true
    case Reloaded => true
    case Stopped => true
    case Peeked(op, how, _) =>
      (a.socket.Some? || how.Aborted?) && op < |a.outstanding| && a.outstanding[op].Peek?
    case BodyRead(op, how, packet) =>
      && a.socket.Some? && op < |a.outstanding| && a.outstanding[op].ReadBody?
      && (how.Ok? ==> |packet| == a.outstanding[op].available)
  }

  function Without(ops: seq<Operation>, op: nat): seq<Operation>
    requires op < |ops|
  {
    ops[..op] + ops[op + 1..]
  }

  function Armed(a: Acceptor, socket: nat): Acceptor {
    a.(socket := Some(socket), outstanding := a.outstanding + [Peek(socket)])
  }

  function Do(a: Acceptor, e: Event): Acceptor
    requires Enabled(a, e)
  {
    match e
    case Started => Armed(a, a.sockets).(sockets := a.sockets + 1)
    case Reloaded => Armed(a, a.sockets).(sockets := a.sockets + 1)
    case Stopped => a.(socket := None)
    case Peeked(op, how, available) =>
      var rest := a.(outstanding := Without(a.outstanding, op));
      (match how
       case Aborted => rest
       case Error => Armed(rest, a.socket.value)
       case Ok => rest.(outstanding := rest.outstanding + [ReadBody(a.outstanding[op].socket, available)]))
    case BodyRead(op, how, packet) =>
      var next := Armed(a.(outstanding := Without(a.outstanding, op)), a.socket.value);
      if how.Ok? && CheckSize(packet).Delivered?
      then next.(delivered := next.delivered + [CheckSize(packet).payload])
      else next
  }

  predicate Legal(a: Acceptor, es: seq<Event>)
    decreases |es|
  {
    es == [] || (Enabled(a, es[0]) && Legal(Do(a, es[0]), es[1..]))
  }

  function After(a: Acceptor, es: seq<Event>): Acceptor
    requires Legal(a, es)
    decreases |es|
  {
    if es == [] then a else After(Do(a, es[0]), es[1..])
  }

  lemma {:induction false} AfterSnoc(a: Acceptor, es: seq<Event>, e: Event)
    requires Legal(a, es) && Enabled(After(a, es), e)
    ensures Legal(a, es + [e]) && After(a, es + [e]) == Do(After(a, es), e)
    decreases |es|
  {
    if es == [] {
      assert (es + [e])[1..] == [];
    } else {
      assert (es + [e])[1..] == es[1..] + [e];
      AfterSnoc(Do(a, es[0]), es[1..], e);
    }
  }

  // ------------------------------------------------------------ how many operations are outstanding

  // Chains begun, less chains ended: an aborted peek is the only completion without a successor.
  function Chains(es: seq<Event>): int {
    if es == [] then 0 else
    Chains(es[1..]) + match es[0]
                      case Started => 1
                      case Reloaded => 1
                      case Stopped => 0
                      case Peeked(_, how, _) => if how.Aborted? then -1 else 0
                      case BodyRead(_, _, _) => 0
  }

  lemma {:induction false} OutstandingAreChains(a: Acceptor, es: seq<Event>)
    requires Legal(a, es)
    ensures |After(a, es).outstanding| == |a.outstanding| + Chains(es)
    decreases |es|
  {
    if es == [] {
      assert Chains(es) == 0;
    } else {
      OutstandingAreChains(Do(a, es[0]), es[1..]);
    }
  }

  // Over every run, stops included, exactly one receive is outstanding if and only if the starts and
  // reloads exceed the aborted peeks by one.
  lemma SingleOutstandingExactly(es: seq<Event>)
    requires Legal(FRESH, es)
    ensures |After(FRESH, es).outstanding| == 1 <==> Chains(es) == 1
  {
    OutstandingAreChains(FRESH, es);
  }

  // After a stop, the aborted peeks drain the acceptor.
  lemma StopDrains(a: Acceptor) returns (es: seq<Event>)
    requires forall o <- a.outstanding :: o.Peek?
    ensures Legal(a, [Stopped] + es) && (forall e <- es :: e.Peeked? && e.how.Aborted?)
    ensures After(a, [Stopped] + es) == a.(socket := None, outstanding := [])
  {
    var b := Do(a, Stopped);
    es := AbortAll(b);
    assert ([Stopped] + es)[1..] == es;
  }

  lemma AbortAll(a: Acceptor) returns (es: seq<Event>)
    requires forall o <- a.outstanding :: o.Peek?
    ensures Legal(a, es) && (forall e <- es :: e.Peeked? && e.how.Aborted?)
    ensures After(a, es) == a.(outstanding := [])
    decreases |a.outstanding|
  {
    if a.outstanding == [] {
      es := [];
    } else {
      var first := Peeked(0, Aborted, 0);
      var b := Do(a, first);
      assert b.outstanding == a.outstanding[1..];
      var rest := AbortAll(b);
      es := [first] + rest;
      assert es[1..] == rest;
    }
  }

  predicate Quiet(e: Event) {
    (e.Peeked? && !e.how.Aborted?) || e.BodyRead?
  }

  // Between a start and the next reload, stop or aborted peek: exactly one receive is outstanding, on the
  // current socket, whatever completes with success, error or a size mismatch.
  lemma {:induction false} SingleAcceptor(a: Acceptor, es: seq<Event>)
    requires Legal(a, es) && (forall e <- es :: Quiet(e))
    requires a.socket.Some? && |a.outstanding| == 1 && a.outstanding[0].socket == a.socket.value
    ensures var b := After(a, es);
            b.socket == a.socket && |b.outstanding| == 1 && b.outstanding[0].socket == b.socket.value
    decreases |es|
  {
    if es == [] {
      assert After(a, es) == a;
    } else {
      assert Quiet(es[0]);
      SingleAcceptor(Do(a, es[0]), es[1..]);
    }
  }

  // A packet that is a frame with its header in front.
  predicate IsFrame(packet: seq<Byte>) {
    HEADER_SIZE <= |packet| < UINT_VALUES && packet == MeantFrame(packet[HEADER_SIZE..])
  }

  // The length check accepts exactly the frames.
  lemma DeliveredExactly(packet: seq<Byte>)
    ensures CheckSize(packet).Delivered? <==> IsFrame(packet)
    ensures IsFrame(packet) ==> CheckSize(packet) == Delivered(packet[HEADER_SIZE..])
  {
    if IsFrame(packet) {
      MeantFrameDelivered(packet[HEADER_SIZE..]);
    } else if CheckSize(packet).Delivered? {
      UIntCanonical(packet);
    }
  }

  // A frame begins with its own size, in four bytes, and the payload is the rest of it.
  lemma FrameExactly(packet: seq<Byte>)
    ensures IsFrame(packet) <==>
            && 4 <= |packet| < 0x1_0000_0000
            && var n := |packet|;
               packet[..4] == [n % 256, n / 0x100 % 256, n / 0x1_0000 % 256, n / 0x100_0000]
  {
    if |packet| >= 4 {
      var payload := packet[4..];
      HeaderBytes(payload);
      assert packet == packet[..4] + payload;
      assert MeantFrame(payload)[..4] == Header(payload);
    }
  }

  // The payload of a frame that was read.
  function PayloadOf(e: Event): seq<seq<Byte>> {
    if e.BodyRead? && e.how.Ok? && IsFrame(e.packet) then [e.packet[HEADER_SIZE..]] else []
  }

  function Payloads(es: seq<Event>): seq<seq<Byte>> {
    if es == [] then [] else PayloadOf(es[0]) + Payloads(es[1..])
  }

  lemma EventDelivers(a: Acceptor, e: Event)
    requires Enabled(a, e)
    ensures Do(a, e).delivered == a.delivered + PayloadOf(e)
  {
    if e.BodyRead? {
      DeliveredExactly(e.packet);
    }
  }

  lemma AppendAssociates(a: seq<seq<Byte>>, b: seq<seq<Byte>>, c: seq<seq<Byte>>)
    ensures a + (b + c) == a + b + c
  {
  }

  // Over every run the processor gets exactly the payloads of the frames, in the order of the reads;
  // nothing comes of a packet that is not a frame, whatever its size.
  lemma {:induction false} FramesAreDelivered(a: Acceptor, es: seq<Event>)
    requires Legal(a, es)
    ensures After(a, es).delivered == a.delivered + Payloads(es)
    decreases |es|
  {
    if es == [] {
      assert a.delivered + [] == a.delivered;
    } else {
      EventDelivers(a, es[0]);
      FramesAreDelivered(Do(a, es[0]), es[1..]);
      AppendAssociates(a.delivered, PayloadOf(es[0]), Payloads(es[1..]));
    }
  }

  // A packet is read on the socket it was peeked on, also when the acceptor has moved to a new one.
  lemma ReadsWherePeeked(a: Acceptor, op: nat, available: nat)
    requires op < |a.outstanding| && a.outstanding[op].Peek?
    ensures var es := [Reloaded, Peeked(op, Ok, available)];
            && Legal(a, es)
            && var b := After(a, es);
            && b.socket == Some(a.sockets) && |b.outstanding| == |a.outstanding| + 1
            && b.outstanding[|a.outstanding|] == ReadBody(a.outstanding[op].socket, available)
  {
    var b := Do(a, Reloaded);
    var e := Peeked(op, Ok, available);
    assert b.outstanding[op] == a.outstanding[op];
    var es := [Reloaded, e];
    assert es[1..] == [e] && [e][1..] == [];
    assert Legal(b, [e]) && After(b, [e]) == Do(b, e);
  }

  // A reload of a running acceptor adds a chain: the operation on the old socket stays outstanding, and its
  // packet ends up in a second peek on the new socket.
  lemma ReloadDoubles(available: nat, packet: seq<Byte>)
    requires |packet| == available
    ensures var es := [Started, Reloaded, Peeked(0, Ok, available), BodyRead(1, Ok, packet)];
            Legal(FRESH, es) && After(FRESH, es).outstanding == [Peek(1), Peek(1)]
  {
    var s1 := Do(FRESH, Started);
    var s2 := Do(s1, Reloaded);
    assert s2.outstanding == [Peek(0), Peek(1)];
    var e3, e4 := Peeked(0, Ok, available), BodyRead(1, Ok, packet);
    var s3 := Do(s2, e3);
    assert s3.outstanding == [Peek(1), ReadBody(0, available)];
    var s4 := Do(s3, e4);
    assert s4.outstanding == [Peek(1), Peek(1)];
    var es := [Started, Reloaded, e3, e4];
    assert es[1..] == [Reloaded, e3, e4] && [Reloaded, e3, e4][1..] == [e3, e4];
    assert [e3, e4][1..] == [e4] && [e4][1..] == [];
    assert Legal(s3, [e4]) && After(s3, [e4]) == s4;
    assert Legal(s2, [e3, e4]) && After(s2, [e3, e4]) == s4;
    assert Legal(s1, [Reloaded, e3, e4]) && After(s1, [Reloaded, e3, e4]) == s4;
  }

  // ------------------------------------------------------------ the acceptor object

  // `c >> size`, the comparison with the packet's size, and what the processor is given.
  method Unpack(packet: seq<Byte>) returns (payload: Option<seq<Byte>>)
    ensures payload == match CheckSize(packet) { case Delivered(p) => Some(p) case _ => None }
  {
    var request := new StackRequest(Bare);
    request.data := packet;
    assert request.Available() == packet;
    var size := request.Get(TNum(UInt));
    if size.None? || size.value.n != |packet| {
      return None;
    }
    assert request.Available() == request.Unread();
    return Some(request.Unread());
  }

  class Udp {
    var socket: Option<nat>
    var sockets: nat
    var outstanding: seq<Operation>
    var delivered: seq<seq<Byte>>

    constructor ()
      ensures View() == FRESH
    {
      socket, sockets, outstanding, delivered := None, 0, [], [];
    }

    function View(): Acceptor
      reads this
    {
      Acceptor(socket, sockets, outstanding, delivered)
    }

    method Accept()
      requires socket.Some?
      modifies this`outstanding
      ensures outstanding == old(outstanding) + [Peek(socket.value)]
    {
      outstanding := outstanding + [Peek(socket.value)];
    }

    method Start()
      modifies this`socket, this`sockets, this`outstanding
      ensures View() == Do(old(View()), Started)
      ensures socket == Some(old(sockets)) && sockets == old(sockets) + 1
      ensures outstanding == old(outstanding) + [Peek(old(sockets))]
    {
      socket := Some(sockets);
      sockets := sockets + 1;
      Accept();
    }

    method Reload()
      modifies this`socket, this`sockets, this`outstanding
      ensures View() == Do(old(View()), Reloaded)
      ensures socket == Some(old(sockets)) && sockets == old(sockets) + 1
      ensures outstanding == old(outstanding) + [Peek(old(sockets))]
    {
      socket := None;
      Start();
    }

    // The socket is closed later, by a task that holds on to it.
    method Stop()
      modifies this`socket
      ensures View() == Do(old(View()), Stopped) && socket == None
    {
      socket := None;
    }

    // on_accpet; its parameter `socket_`, the bound socket, hides the member of that name.
    method OnAccept(op: nat, how: Completion, available: nat)
      requires op < |outstanding| && outstanding[op].Peek? && (socket.Some? || how.Aborted?)
      modifies this`outstanding
      ensures View() == Do(old(View()), Peeked(op, how, available))
      ensures outstanding == old(outstanding)[..op] + old(outstanding)[op + 1..]
                             + match how
                               case Aborted => []
                               case Error => [Peek(socket.value)]
                               case Ok => [ReadBody(old(outstanding)[op].socket, available)]
    {
      var bound := outstanding[op].socket;
      outstanding := Without(outstanding, op);
      match how
      case Aborted =>
      case Error => Accept();
      case Ok => outstanding := outstanding + [ReadBody(bound, available)];
    }

    // The callback of the packet's read.
    method OnBody(op: nat, how: Completion, packet: seq<Byte>)
      requires op < |outstanding| && outstanding[op].ReadBody? && socket.Some?
      requires how.Ok? ==> |packet| == outstanding[op].available
      modifies this`outstanding, this`delivered
      ensures View() == Do(old(View()), BodyRead(op, how, packet))
      ensures outstanding == old(outstanding)[..op] + old(outstanding)[op + 1..] + [Peek(socket.value)]
      ensures delivered == old(delivered) +
                           if how.Ok? && 4 <= |packet| < 0x1_0000_0000
                              && var n := |packet|;
                                 packet[..4] == [n % 256, n / 0x100 % 256, n / 0x1_0000 % 256, n / 0x100_0000]
                           then [packet[4..]] else []
    {
      EventDelivers(View(), BodyRead(op, how, packet));
      FrameExactly(packet);
      outstanding := Without(outstanding, op);
      Accept();
      if !how.Ok? {
        return;
      }
      var payload := Unpack(packet);
      if payload.Some? {
        delivered := delivered + [payload.value];
      }
    }
  }
}
