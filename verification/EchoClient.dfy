/** The client of the echo system is a session: its moves are the `<<`, `>>` and flushes of a raw
    connection, and what it holds, sends and reads is what `ClientSession` says of them. */
module EchoClient {
  import opened Wrappers
  import opened LittleEndian
  import opened Wire
  import opened Streams
  import opened ClientSession
  import opened EchoSystem

  const UNUSED := Outgoing([], []) // the outgoing side of a new connection

  // What passed between the client and its socket, and the calls its user made.
  datatype History = History(sent: seq<Byte>, received: seq<Byte>, ops: seq<Op>)

  const NOTHING := History([], [], [])

  function Record(h: History, s: System, move: Move): History
    requires Enabled(s, move)
  {
    match move
    case ClientWrite(m) => h.(ops := h.ops + [Write(Str(m))])
    case ClientFlush(thenRead) => h.(ops := h.ops + [if thenRead then Read(TStr) else Push])
    case ClientSend(n) => h.(sent := h.sent + s.phase.left[..n])
    case ClientReceive(n) => h.(received := h.received + s.down[..n])
    case _ => h
  }

  function Recorded(h: History, s: System, moves: seq<Move>): History
    requires Legal(s, moves)
    decreases |moves|
  {
    if moves == [] then h else Recorded(Record(h, s, moves[0]), Do(s, moves[0]), moves[1..])
  }

  // A `>>` was called and has not returned.
  predicate ReadPending(s: System) {
    s.phase.ReadingSize? || s.phase.ReadingChars? || (s.phase.Sending? && s.phase.thenRead)
  }

  // Taken from the output buffer, not yet given to the socket.
  function InFlight(s: System): seq<Byte> {
    if s.phase.Sending? then s.phase.left else []
  }

  function StringTypes(n: nat): (ts: seq<WireType>)
    ensures |ts| == n
  {
    seq(n, _ => TStr)
  }

  predicate OutTied(h: History, s: System) {
    Run(UNUSED, h.ops) == Outgoing(h.sent + InFlight(s), s.held)
  }

  predicate InTied(h: History, s: System) {
    h.received == Stream(s.read) + ClientPart(s)
  }

  predicate OpsTied(h: History, s: System) {
    && Writes(h.ops) == Strs(s.written)
    && Reads(h.ops) == StringTypes(|s.read| + if ReadPending(s) then 1 else 0)
  }

  predicate Tied(h: History, s: System) {
    OutTied(h, s) && InTied(h, s) && OpsTied(h, s)
  }

  lemma OpsSnoc(ops: seq<Op>, op: Op)
    ensures Run(UNUSED, ops + [op]) == Step(Run(UNUSED, ops), op)
    ensures Writes(ops + [op]) == Writes(ops) + if op.Write? then [op.v] else []
    ensures Reads(ops + [op]) == Reads(ops) + if op.Read? then [op.t] else []
  {
    assert (ops + [op])[..|ops|] == ops;
  }

  lemma WriteTied(h: History, s: System, m: Message)
    requires Tied(h, s) && Enabled(s, ClientWrite(m))
    ensures Tied(Record(h, s, ClientWrite(m)), Do(s, ClientWrite(m)))
  {
    OpsSnoc(h.ops, Write(Str(m)));
    StrsSnoc(s.written, m);
  }

  lemma FlushAll(o: Outgoing)
    requires |o.held| < UINT_VALUES
    ensures Flush(o) == Outgoing(o.sent + o.held, [])
  {
    assert o.held[..|o.held|] == o.held;
  }

  lemma FlushOutTied(h: History, s: System, thenRead: bool)
    requires OutTied(h, s) && Enabled(s, ClientFlush(thenRead))
    ensures OutTied(Record(h, s, ClientFlush(thenRead)), Do(s, ClientFlush(thenRead)))
  {
    OpsSnoc(h.ops, if thenRead then Read(TStr) else Push);
    assert h.sent + [] == h.sent;
    FlushAll(Outgoing(h.sent, s.held));
  }

  lemma FlushOpsTied(h: History, s: System, thenRead: bool)
    requires OpsTied(h, s) && Enabled(s, ClientFlush(thenRead))
    ensures OpsTied(Record(h, s, ClientFlush(thenRead)), Do(s, ClientFlush(thenRead)))
  {
    OpsSnoc(h.ops, if thenRead then Read(TStr) else Push);
    assert StringTypes(|s.read|) + (if thenRead then [TStr] else [])
           == StringTypes(|s.read| + if thenRead then 1 else 0);
    assert Writes(h.ops) + [] == Writes(h.ops);
  }

  lemma FlushTied(h: History, s: System, thenRead: bool)
    requires Tied(h, s) && Enabled(s, ClientFlush(thenRead))
    ensures Tied(Record(h, s, ClientFlush(thenRead)), Do(s, ClientFlush(thenRead)))
  {
    FlushOutTied(h, s, thenRead);
    FlushOpsTied(h, s, thenRead);
  }

  lemma SendTied(h: History, s: System, n: nat)
    requires Tied(h, s) && Enabled(s, ClientSend(n))
    ensures Tied(Record(h, s, ClientSend(n)), Do(s, ClientSend(n)))
  {
    assert h.sent + s.phase.left[..n] + s.phase.left[n..] == h.sent + s.phase.left;
  }

  lemma ReceiveTied(h: History, s: System, n: nat)
    requires Tied(h, s) && Enabled(s, ClientReceive(n))
    ensures Tied(Record(h, s, ClientReceive(n)), Do(s, ClientReceive(n)))
  {
    ConcatAssociates(Stream(s.read), ClientPart(s), s.down[..n]);
    if s.phase.ReadingChars? {
      ConcatAssociates(WriteUInt(s.phase.size), s.phase.got, s.down[..n]);
    }
  }

  lemma SizeBytes(got: seq<Byte>)
    requires |got| == 4
    ensures WriteUInt(FromLittle(got)) == got
  {
    UIntCanonical(got);
    assert got[..4] == got;
  }

  lemma SizeTied(h: History, s: System)
    requires Tied(h, s) && Enabled(s, ClientTakesSize)
    ensures Tied(Record(h, s, ClientTakesSize), Do(s, ClientTakesSize))
  {
    SizeBytes(s.phase.got);
    assert ClientPart(Do(s, ClientTakesSize)) == ClientPart(s);
  }

  lemma CharsTied(h: History, s: System)
    requires Tied(h, s) && Enabled(s, ClientTakesChars)
    ensures Tied(Record(h, s, ClientTakesChars), Do(s, ClientTakesChars))
  {
    StreamSnoc(s.read, s.phase.got);
    var t := Do(s, ClientTakesChars);
    assert Stream(t.read) + [] == Stream(t.read);
  }

  lemma MoveTied(h: History, s: System, move: Move)
    requires Tied(h, s) && Enabled(s, move)
    ensures Tied(Record(h, s, move), Do(s, move))
  {
    match move
    case ClientWrite(m) => WriteTied(h, s, m);
    case ClientFlush(thenRead) => FlushTied(h, s, thenRead);
    case ClientSend(n) => SendTied(h, s, n);
    case ClientReceive(n) => ReceiveTied(h, s, n);
    case ClientTakesSize => SizeTied(h, s);
    case ClientTakesChars => CharsTied(h, s);
    case _ =>
  }

  lemma {:induction false} RunTied(h: History, s: System, moves: seq<Move>)
    requires Tied(h, s) && Legal(s, moves)
    ensures Tied(Recorded(h, s, moves), After(s, moves))
    decreases |moves|
  {
    if moves == [] {
      assert After(s, moves) == s;
    } else {
      MoveTied(h, s, moves[0]);
      RunTied(Record(h, s, moves[0]), Do(s, moves[0]), moves[1..]);
    }
  }

  lemma {:induction false} StringsHaveTypes(ms: seq<Message>)
    ensures HaveTypes(StringTypes(|ms|), Strs(ms)) && AllBounded(Strs(ms)) && NarrowLeavesOf(Strs(ms)) == 0
    decreases |ms|
  {
    if ms == [] {
      assert Strs(ms) == [];
    } else {
      var n := |ms| - 1;
      StringsHaveTypes(ms[..n]);
      assert StringTypes(|ms|)[..n] == StringTypes(n);
      assert Strs(ms)[..n] == Strs(ms[..n]);
    }
  }

  // Strings at the front of a stream, read in turn.
  lemma StringsReadBack(ms: seq<Message>, rest: seq<Byte>)
    ensures DecodeAll(StringTypes(|ms|), Stream(ms) + rest) == Parsed(Strs(ms), rest)
  {
    StringsHaveTypes(ms);
    StreamIsEmitted(ms);
    SequenceRoundTrip(StringTypes(|ms|), Strs(ms), rest);
  }

  // What the reads called so far make of the bytes taken and the ones to come.
  function ReadsSoFar(s: System, rest: seq<Byte>): Parse<seq<Value>> {
    if !ReadPending(s) then Parsed(Strs(s.read), rest) else
    match Decode(TStr, ClientPart(s) + rest)
    case Parsed(v, left) => Parsed(Strs(s.read) + [v], left)
    case Starved(left) => Starved(left)
  }

  lemma TiedReads(h: History, s: System, rest: seq<Byte>)
    requires InTied(h, s) && OpsTied(h, s) && Inv(s)
    ensures DecodeAll(Reads(h.ops), h.received + rest) == ReadsSoFar(s, rest)
  {
    var n := |s.read|;
    ConcatAssociates(Stream(s.read), ClientPart(s), rest);
    StringsReadBack(s.written[..n], ClientPart(s) + rest);
    if ReadPending(s) {
      assert StringTypes(n + 1) == StringTypes(n) + [TStr];
      DecodeAllSnoc(StringTypes(n), TStr, h.received + rest);
    } else {
      assert ClientPart(s) + rest == rest;
    }
  }

  // At every point of every run, with whatever the peer sends after what the client has taken: the
  // client's calls, run as a session of a raw connection over the bytes it received, hold and send
  // exactly its bytes and read exactly its strings; and a `>>` under way is the decoding of a string
  // from the bytes it has taken so far and the ones to come.
  lemma ClientIsSession(moves: seq<Move>, rest: seq<Byte>)
    requires Legal(START, moves)
    ensures var s, h := After(START, moves), Recorded(NOTHING, START, moves);
            Effects(Client(UNUSED, h.received + rest, []), h.ops) ==
            match ReadsSoFar(s, rest)
            case Parsed(vs, left) => Some(Client(Outgoing(h.sent + InFlight(s), s.held), left, vs))
            case Starved(_) => None
  {
    var s, h := After(START, moves), Recorded(NOTHING, START, moves);
    assert Tied(NOTHING, START) by {
      assert StringTypes(0) == [];
    }
    RunTied(NOTHING, START, moves);
    RunKeepsInv(START, moves);
    StreamIsEmitted(s.written);
    TiedReads(h, s, rest);
    DirectionsIndependent(Client(UNUSED, h.received + rest, []), h.ops);
  }
}
