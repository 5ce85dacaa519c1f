/** A raw client and the no-close string echo server, joined by two byte queues.  Every send and
    every receive moves any number of bytes; all interleavings are considered. */
module EchoSystem {
  import opened LittleEndian
  import opened Wire
  import opened EchoServer

  type Message = m: seq<Byte> | |m| < UINT_VALUES

  // What the client is doing: free to call, sending its buffer (and then reading or not), or blocked
  // in `>>` on a string, waiting for the length or for the characters.
  datatype Phase =
    | Free
    | Sending(left: seq<Byte>, thenRead: bool)
    | ReadingSize(got: seq<Byte>)
    | ReadingChars(size: nat, got: seq<Byte>)

  datatype System = System(
    phase: Phase,
    held: seq<Byte>, // the client's output buffer
    up: seq<Byte>, // sent by the client, not yet received by the server
    server: Server,
    got: seq<Byte>, // what the server's outstanding read has received
    sentOf: nat, // how much of its reply the server has sent
    down: seq<Byte>, // sent by the server, not yet received by the client
    written: seq<Message>, // history: strings given to `<<`
    echoed: nat, // history: how many of them the server has read completely
    read: seq<seq<Byte>> // history: strings returned by `>>`
  )

  const START := System(Free, [], [], AwaitHeader, [], 0, [], [], 0, [])

  datatype Move =
    | ClientWrite(m: Message)
    | ClientFlush(thenRead: bool)
    | ClientSend(n: nat)
    | ClientSent
    | ClientReceive(n: nat)
    | ClientTakesSize
    | ClientTakesChars
    | ServerReceive(n: nat)
    | ServerReadCompleted
    | ServerSend(n: nat)
    | ServerWriteCompleted

  // A flush is only taken while the buffer is within its 32-bit byte count.
  predicate Enabled(s: System, move: Move) {
    match move
    case ClientWrite(_) => s.phase.Free?
    case ClientFlush(_) => s.phase.Free? && |s.held| < UINT_VALUES
    case ClientSend(n) => s.phase.Sending? && 1 <= n <= |s.phase.left|
    case ClientSent => s.phase.Sending? && s.phase.left == []
    case ClientReceive(n) =>
      && 1 <= n <= |s.down|
      && ((s.phase.ReadingSize? && |s.phase.got| + n <= 4)
          || (s.phase.ReadingChars? && |s.phase.got| + n <= s.phase.size))
    case ClientTakesSize => s.phase.ReadingSize? && |s.phase.got| == 4
    case ClientTakesChars => s.phase.ReadingChars? && |s.phase.got| == s.phase.size
    case ServerReceive(n) => 1 <= n <= |s.up| && |s.got| + n <= Wanted(s.server)
    case ServerReadCompleted => (s.server.AwaitHeader? || s.server.AwaitBody?) && |s.got| == Wanted(s.server)
    case ServerSend(n) => s.server.Replying? && 1 <= n && s.sentOf + n <= |s.server.reply|
    case ServerWriteCompleted => s.server.Replying? && s.sentOf == |s.server.reply|
  }

  function Do(s: System, move: Move): System
    requires Enabled(s, move)
  {
    match move
    case ClientWrite(m) => s.(held := s.held + Emit(Str(m)), written := s.written + [m])
    case ClientFlush(thenRead) => s.(phase := Sending(s.held, thenRead), held := [])
    case ClientSend(n) =>
      s.(phase := Sending(s.phase.left[n..], s.phase.thenRead), up := s.up + s.phase.left[..n])
    case ClientSent => s.(phase := if s.phase.thenRead then ReadingSize([]) else Free)
    case ClientReceive(n) =>
      s.(phase := if s.phase.ReadingSize? then ReadingSize(s.phase.got + s.down[..n])
                  else ReadingChars(s.phase.size, s.phase.got + s.down[..n]),
         down := s.down[n..])
    case ClientTakesSize => s.(phase := ReadingChars(FromLittle(s.phase.got), []))
    case ClientTakesChars => s.(phase := Free, read := s.read + [s.phase.got])
    case ServerReceive(n) => s.(got := s.got + s.up[..n], up := s.up[n..])
    case ServerReadCompleted =>
      s.(server := AfterRead(s.server, s.got), got := [], sentOf := 0,
         echoed := s.echoed + if s.server.AwaitBody? then 1 else 0)
    case ServerSend(n) => s.(sentOf := s.sentOf + n, down := s.down + s.server.reply[s.sentOf..s.sentOf + n])
    case ServerWriteCompleted => s.(server := AfterWrite(false), sentOf := 0)
  }

  predicate Legal(s: System, moves: seq<Move>)
    decreases |moves|
  {
    moves == [] || (Enabled(s, moves[0]) && Legal(Do(s, moves[0]), moves[1..]))
  }

  function After(s: System, moves: seq<Move>): System
    requires Legal(s, moves)
    decreases |moves|
  {
    if moves == [] then s else After(Do(s, moves[0]), moves[1..])
  }

  // ------------------------------------------------------------ streams of framed strings

  function Stream(ms: seq<seq<Byte>>): seq<Byte> {
    if ms == [] then [] else WriteUInt(|ms[0]|) + ms[0] + Stream(ms[1..])
  }

  lemma {:induction false} StreamSnoc(ms: seq<seq<Byte>>, m: seq<Byte>)
    ensures Stream(ms + [m]) == Stream(ms) + (WriteUInt(|m|) + m)
  {
    if ms == [] {
      assert [m][1..] == [];
    } else {
      assert (ms + [m])[1..] == ms[1..] + [m];
      StreamSnoc(ms[1..], m);
      ConcatAssociates(WriteUInt(|ms[0]|) + ms[0], Stream(ms[1..]), WriteUInt(|m|) + m);
    }
  }

  // Four bytes at the front of a stream are the length of its first string.
  lemma StreamHead(ms: seq<Message>, head: seq<Byte>, rest: seq<Byte>)
    requires Stream(ms) == head + rest && |head| == 4
    ensures ms != [] && FromLittle(head) == |ms[0]| && head == WriteUInt(|ms[0]|)
    ensures rest == ms[0] + Stream(ms[1..])
  {
    assert ms != [] by {
      assert |head + rest| >= 4;
    }
    ConcatAssociates(WriteUInt(|ms[0]|), ms[0], Stream(ms[1..]));
    SplitEqual(head, rest, WriteUInt(|ms[0]|), ms[0] + Stream(ms[1..]));
    UIntValue(|ms[0]|);
  }

  // ------------------------------------------------------------ the invariant

  // What the server has taken of a string it has not read completely.
  function ServerPart(s: System): seq<Byte> {
    match s.server
    case AwaitHeader => s.got
    case AwaitBody(size) => WriteUInt(size) + s.got
    case _ => []
  }

  // What the server still has to send of its reply.
  function ReplyLeft(s: System): seq<Byte> {
    if s.server.Replying? && s.sentOf <= |s.server.reply| then s.server.reply[s.sentOf..] else []
  }

  function ClientLeft(s: System): seq<Byte> {
    (if s.phase.Sending? then s.phase.left else []) + s.held
  }

  // What the client has taken of a string it has not returned yet.
  function ClientPart(s: System): seq<Byte> {
    match s.phase
    case ReadingSize(got) => got
    case ReadingChars(size, got) => WriteUInt(size) + got
    case _ => []
  }

  predicate Shape(s: System) {
    && (s.server.AwaitHeader? ==> |s.got| <= 4)
    && (s.server.AwaitBody? ==> |s.got| <= s.server.size < UINT_VALUES)
    && (s.server.Replying? ==> s.sentOf <= |s.server.reply| && s.got == [])
    && !s.server.Closed?
    && (s.phase.ReadingSize? ==> |s.phase.got| <= 4)
    && (s.phase.ReadingChars? ==> |s.phase.got| <= s.phase.size < UINT_VALUES)
    && (!s.phase.Free? ==> s.held == []) // everything written is flushed before the client blocks
  }

  // Strings under way: their stream is what the receiver took, what travels, what is left to send.
  predicate Carries(ms: seq<Message>, part: seq<Byte>, travelling: seq<Byte>, left: seq<Byte>) {
    Stream(ms) == part + (travelling + left)
  }

  // The strings the server has not read completely.
  function Unechoed(s: System): seq<Message>
    requires s.echoed <= |s.written|
  {
    s.written[s.echoed..]
  }

  // The strings the server has read completely and the client has not returned.
  function Unreturned(s: System): seq<Message>
    requires |s.read| <= s.echoed <= |s.written|
  {
    s.written[|s.read|..s.echoed]
  }

  predicate Inv(s: System) {
    && Shape(s)
    && |s.read| <= s.echoed <= |s.written|
    && s.read == s.written[..|s.read|]
    && Carries(Unechoed(s), ServerPart(s), s.up, ClientLeft(s))
    && Carries(Unreturned(s), ClientPart(s), s.down, ReplyLeft(s))
  }

  // The same bytes, with the border between two neighbours moved.
  lemma Shift(a: seq<Byte>, b: seq<Byte>, c: seq<Byte>, n: nat)
    requires n <= |b|
    ensures a + b[..n] + (b[n..] + c) == a + (b + c)
  {
    assert b == b[..n] + b[n..];
  }

  lemma WriteKeepsInv(s: System, m: Message)
    requires Inv(s) && Enabled(s, ClientWrite(m))
    ensures Inv(Do(s, ClientWrite(m)))
  {
    var t := Do(s, ClientWrite(m));
    var e := WriteUInt(|m|) + m;
    assert Unechoed(t) == Unechoed(s) + [m];
    StreamSnoc(Unechoed(s), m);
    ConcatAssociates(ServerPart(s), s.up + s.held, e);
    ConcatAssociates(s.up, s.held, e);
    assert ClientLeft(s) == s.held && ClientLeft(t) == s.held + e;
    assert Unreturned(t) == Unreturned(s);
    assert t.written[..|t.read|] == s.written[..|s.read|];
  }

  lemma SendKeepsInv(s: System, n: nat)
    requires Inv(s) && Enabled(s, ClientSend(n))
    ensures Inv(Do(s, ClientSend(n)))
  {
    var t := Do(s, ClientSend(n));
    Shift(s.up, s.phase.left, s.held, n);
    assert t.up + ClientLeft(t) == s.up + ClientLeft(s);
  }

  lemma FlushKeepsInv(s: System, move: Move)
    requires Inv(s) && Enabled(s, move) && (move.ClientFlush? || move.ClientSent?)
    ensures Inv(Do(s, move))
  {
    assert ClientLeft(Do(s, move)) == ClientLeft(s);
  }

  lemma ClientReceiveKeepsInv(s: System, n: nat)
    requires Inv(s) && Enabled(s, ClientReceive(n))
    ensures Inv(Do(s, ClientReceive(n)))
  {
    ClientReceiveCarries(s, n, Unreturned(s), ReplyLeft(s));
  }

  lemma ClientReceiveCarries(s: System, n: nat, ms: seq<Message>, left: seq<Byte>)
    requires Enabled(s, ClientReceive(n)) && Carries(ms, ClientPart(s), s.down, left)
    ensures var t := Do(s, ClientReceive(n)); Carries(ms, ClientPart(t), t.down, left)
  {
    Shift(ClientPart(s), s.down, left, n);
    if s.phase.ReadingChars? {
      ConcatAssociates(WriteUInt(s.phase.size), s.phase.got, s.down[..n]);
    }
  }

  lemma ServerReceiveKeepsInv(s: System, n: nat)
    requires Inv(s) && Enabled(s, ServerReceive(n))
    ensures Inv(Do(s, ServerReceive(n)))
  {
    var t := Do(s, ServerReceive(n));
    Shift(ServerPart(s), s.up, ClientLeft(s), n);
    assert ServerPart(t) == ServerPart(s) + s.up[..n];
    assert Carries(Unechoed(t), ServerPart(t), t.up, ClientLeft(t));
  }

  lemma ReplyKeepsInv(s: System, n: nat)
    requires Inv(s) && Enabled(s, ServerSend(n))
    ensures Inv(Do(s, ServerSend(n)))
  {
    var t := Do(s, ServerSend(n));
    Shift(s.down, ReplyLeft(s), [], n);
    assert ReplyLeft(s)[..n] == s.server.reply[s.sentOf..s.sentOf + n];
    assert ReplyLeft(s)[n..] == ReplyLeft(t);
    assert t.down + ReplyLeft(t) == s.down + ReplyLeft(s);
  }

  lemma ReplyDoneKeepsInv(s: System)
    requires Inv(s) && Enabled(s, ServerWriteCompleted)
    ensures Inv(Do(s, ServerWriteCompleted))
  {
    var t := Do(s, ServerWriteCompleted);
    assert ReplyLeft(s) == ReplyLeft(t) == [];
    assert ServerPart(s) == ServerPart(t) == [];
  }

  lemma ClientSizeKeepsInv(s: System)
    requires Inv(s) && Enabled(s, ClientTakesSize)
    ensures Inv(Do(s, ClientTakesSize))
  {
    StreamHead(Unreturned(s), s.phase.got, s.down + ReplyLeft(s));
    var t := Do(s, ClientTakesSize);
    assert ClientPart(t) == ClientPart(s) && ReplyLeft(t) == ReplyLeft(s) && ServerPart(t) == ServerPart(s);
  }

  lemma ServerSizeKeepsInv(s: System)
    requires Inv(s) && Enabled(s, ServerReadCompleted) && s.server.AwaitHeader?
    ensures Inv(Do(s, ServerReadCompleted))
  {
    StreamHead(Unechoed(s), s.got, s.up + ClientLeft(s));
    assert ServerPart(Do(s, ServerReadCompleted)) == ServerPart(s);
  }

  // A complete string at the front of a stream is its first element.
  lemma StreamFirst(ms: seq<Message>, m: seq<Byte>, rest: seq<Byte>)
    requires Stream(ms) == WriteUInt(|m|) + m + rest && |m| < UINT_VALUES
    ensures ms != [] && ms[0] == m && Stream(ms[1..]) == rest
  {
    var head := WriteUInt(|m|);
    ConcatAssociates(head, m, rest);
    StreamHead(ms, head, m + rest);
    assert |ms[0]| == |m| by { UIntValue(|m|); }
    SplitEqual(ms[0], Stream(ms[1..]), m, rest);
  }

  lemma ServerStringIsFirst(s: System)
    requires Inv(s) && Enabled(s, ServerReadCompleted) && s.server.AwaitBody?
    ensures s.echoed < |s.written| && s.written[s.echoed] == s.got
    ensures Stream(s.written[s.echoed + 1..]) == s.up + ClientLeft(s)
  {
    StreamFirst(Unechoed(s), s.got, s.up + ClientLeft(s));
    assert Unechoed(s)[1..] == s.written[s.echoed + 1..];
  }

  lemma ServerStringKeepsInv(s: System)
    requires Inv(s) && Enabled(s, ServerReadCompleted) && s.server.AwaitBody?
    ensures Inv(Do(s, ServerReadCompleted))
  {
    var t := Do(s, ServerReadCompleted);
    ServerStringIsFirst(s);
    assert Carries(Unechoed(t), ServerPart(t), t.up, ClientLeft(t));
    ServerStringIsReplied(s);
  }

  lemma ServerStringIsReplied(s: System)
    requires Inv(s) && Enabled(s, ServerReadCompleted) && s.server.AwaitBody?
    requires s.echoed < |s.written| && s.written[s.echoed] == s.got
    ensures var t := Do(s, ServerReadCompleted);
            Carries(Unreturned(t), ClientPart(t), t.down, ReplyLeft(t))
  {
    var t := Do(s, ServerReadCompleted);
    var e := WriteUInt(|s.got|) + s.got;
    assert Unreturned(t) == Unreturned(s) + [s.got];
    StreamSnoc(Unreturned(s), s.got);
    ReplyIsWhole(s);
    assert s.down + [] == s.down;
    ConcatAssociates(ClientPart(s), s.down, e);
  }

  lemma ReplyIsWhole(s: System)
    requires Shape(s) && Enabled(s, ServerReadCompleted) && s.server.AwaitBody?
    ensures ReplyLeft(s) == [] && ReplyLeft(Do(s, ServerReadCompleted)) == WriteUInt(|s.got|) + s.got
  {
    var reply := Emit(Str(s.got));
    assert Do(s, ServerReadCompleted).server == Replying(reply);
    assert reply[0..] == reply;
  }

  lemma ClientStringIsFirst(s: System)
    requires Inv(s) && Enabled(s, ClientTakesChars)
    ensures |s.read| < s.echoed && s.written[|s.read|] == s.phase.got
    ensures Stream(s.written[|s.read| + 1..s.echoed]) == s.down + ReplyLeft(s)
  {
    StreamFirst(Unreturned(s), s.phase.got, s.down + ReplyLeft(s));
    assert Unreturned(s)[1..] == s.written[|s.read| + 1..s.echoed];
  }

  lemma ClientStringKeepsInv(s: System)
    requires Inv(s) && Enabled(s, ClientTakesChars)
    ensures Inv(Do(s, ClientTakesChars))
  {
    var t := Do(s, ClientTakesChars);
    ClientStringIsFirst(s);
    ReadGrows(s);
    assert |t.read| == |s.read| + 1 && t.written == s.written && t.echoed == s.echoed;
    assert ClientPart(t) == [];
  }

  lemma ReadGrows(s: System)
    requires Inv(s) && Enabled(s, ClientTakesChars)
    requires |s.read| < s.echoed && s.written[|s.read|] == s.phase.got
    ensures var t := Do(s, ClientTakesChars); t.read == t.written[..|t.read|]
  {
    var t := Do(s, ClientTakesChars);
    assert t.written[..|t.read|] == s.written[..|s.read|] + [s.phase.got];
  }

  lemma DoKeepsInv(s: System, move: Move)
    requires Inv(s) && Enabled(s, move)
    ensures Inv(Do(s, move))
  {
    match move
    case ClientWrite(m) => WriteKeepsInv(s, m);
    case ClientFlush(_) => FlushKeepsInv(s, move);
    case ClientSend(n) => SendKeepsInv(s, n);
    case ClientSent => FlushKeepsInv(s, move);
    case ClientReceive(n) => ClientReceiveKeepsInv(s, n);
    case ClientTakesSize => ClientSizeKeepsInv(s);
    case ClientTakesChars => ClientStringKeepsInv(s);
    case ServerReceive(n) => ServerReceiveKeepsInv(s, n);
    case ServerReadCompleted =>
      if s.server.AwaitBody? { ServerStringKeepsInv(s); } else { ServerSizeKeepsInv(s); }
    case ServerSend(n) => ReplyKeepsInv(s, n);
    case ServerWriteCompleted => ReplyDoneKeepsInv(s);
  }

  lemma {:induction false} RunKeepsInv(s: System, moves: seq<Move>)
    requires Inv(s) && Legal(s, moves)
    ensures Inv(After(s, moves))
    decreases |moves|
  {
    if moves == [] {
    } else {
      DoKeepsInv(s, moves[0]);
      RunKeepsInv(Do(s, moves[0]), moves[1..]);
    }
  }

  // ------------------------------------------------------------ safety

  function Strs(ms: seq<seq<Byte>>): (vs: seq<Value>)
    ensures |vs| == |ms|
  {
    if ms == [] then [] else Strs(ms[..|ms| - 1]) + [Str(ms[|ms| - 1])]
  }

  lemma StrsSnoc(ms: seq<seq<Byte>>, m: seq<Byte>)
    ensures Strs(ms + [m]) == Strs(ms) + [Str(m)]
  {
    assert (ms + [m])[..|ms|] == ms;
  }

  lemma AcceptedSnoc(init: seq<Value>, last: Value)
    ensures AllAccepted(init + [last]) <==> AllAccepted(init) && Accepted(last)
  {
    assert (init + [last])[..|init|] == init;
  }

  lemma EmittedSnoc(ms: seq<Message>, m: Message)
    requires AllAccepted(Strs(ms)) && EmitItems(Strs(ms)) == Stream(ms)
    ensures AllAccepted(Strs(ms + [m])) && EmitItems(Strs(ms + [m])) == Stream(ms + [m])
  {
    StrsSnoc(ms, m);
    StreamSnoc(ms, m);
    EmitSnoc(Strs(ms), Str(m));
    AcceptedSnoc(Strs(ms), Str(m));
  }

  // The streams of this module are the wire encodings.
  lemma {:induction false} StreamIsEmitted(ms: seq<Message>)
    ensures AllAccepted(Strs(ms)) && EmitItems(Strs(ms)) == Stream(ms)
    decreases |ms|
  {
    if ms == [] {
      assert Strs(ms) == [];
    } else {
      var n := |ms| - 1;
      StreamIsEmitted(ms[..n]);
      EmittedSnoc(ms[..n], ms[n]);
      SplitLast(ms);
    }
  }

  lemma {:induction false} StreamConcat(a: seq<Message>, b: seq<Message>)
    ensures Stream(a + b) == Stream(a) + Stream(b)
  {
    if a == [] {
      assert a + b == b;
    } else {
      assert (a + b)[1..] == a[1..] + b;
      StreamConcat(a[1..], b);
      ConcatAssociates(WriteUInt(|a[0]|) + a[0], Stream(a[1..]), Stream(b));
    }
  }

  // In every reachable state: the strings the client has read are the first ones it wrote, in
  // order; and what the server has produced - the encodings of the strings returned, then the
  // bytes taken, under way and still to be sent - is the encoding of the first strings written.
  lemma EchoSafety(moves: seq<Move>)
    requires Legal(START, moves)
    ensures var s := After(START, moves);
            && s.read <= s.written
            && |s.read| <= s.echoed <= |s.written|
            && Stream(s.read) + (ClientPart(s) + (s.down + ReplyLeft(s))) == EmitItems(Strs(s.written[..s.echoed]))
  {
    RunKeepsInv(START, moves);
    var s := After(START, moves);
    StreamConcat(s.written[..|s.read|], Unreturned(s));
    assert s.written[..s.echoed] == s.written[..|s.read|] + Unreturned(s);
    StreamIsEmitted(s.written[..s.echoed]);
  }

  // ------------------------------------------------------------ progress

  predicate Waiting(s: System) {
    !s.phase.Free?
  }

  // The client can be stuck only when it asks for more strings than it wrote.
  lemma NoDeadlock(s: System) returns (move: Move)
    requires Inv(s) && Waiting(s) && |s.read| < |s.written|
    ensures Enabled(s, move)
  {
    if s.phase.Sending? {
      return if s.phase.left == [] then ClientSent else ClientSend(|s.phase.left|);
    }
    if Enabled(s, ClientTakesSize) { return ClientTakesSize; }
    if Enabled(s, ClientTakesChars) { return ClientTakesChars; }
    if s.down != [] { return ClientReceive(1); }
    move := ServerCanMove(s);
  }

  lemma ServerCanMove(s: System) returns (move: Move)
    requires Inv(s) && (s.phase.ReadingSize? || s.phase.ReadingChars?) && |s.read| < |s.written|
    requires !Enabled(s, ClientTakesSize) && !Enabled(s, ClientTakesChars) && s.down == []
    ensures Enabled(s, move)
  {
    if s.server.Replying? {
      return if s.sentOf == |s.server.reply| then ServerWriteCompleted else ServerSend(1);
    }
    if |s.got| == Wanted(s.server) { return ServerReadCompleted; }
    if s.up != [] { return ServerReceive(1); }
    NothingUnderWay(s);
    assert false;
  }

  lemma NothingUnderWay(s: System)
    requires Inv(s) && (s.phase.ReadingSize? || s.phase.ReadingChars?)
    requires !Enabled(s, ClientTakesSize) && !Enabled(s, ClientTakesChars)
    requires s.up == [] && s.down == [] && !s.server.Replying? && |s.got| < Wanted(s.server)
    ensures |s.read| == |s.written|
  {
    assert ClientLeft(s) == [] && ReplyLeft(s) == [];
    ServerHoldsNothing(s);
    ClientHoldsNothing(s);
  }

  lemma ServerHoldsNothing(s: System)
    requires Inv(s) && s.up == [] && ClientLeft(s) == [] && |s.got| < Wanted(s.server)
    ensures s.echoed == |s.written|
  {
    assert Stream(Unechoed(s)) == ServerPart(s);
    if s.server.AwaitHeader? {
      PartIsShort(Unechoed(s), true, 0, s.got);
    } else {
      PartIsShort(Unechoed(s), false, s.server.size, s.got);
    }
  }

  lemma ClientHoldsNothing(s: System)
    requires Inv(s) && (s.phase.ReadingSize? || s.phase.ReadingChars?)
    requires !Enabled(s, ClientTakesSize) && !Enabled(s, ClientTakesChars)
    requires s.down == [] && ReplyLeft(s) == []
    ensures |s.read| == s.echoed
  {
    assert Carries(Unreturned(s), ClientPart(s), [], []);
    PhaseIsShort(Unreturned(s), s.phase);
  }

  lemma PhaseIsShort(ms: seq<Message>, phase: Phase)
    requires phase.ReadingSize? ==> |phase.got| < 4 && Stream(ms) == phase.got
    requires phase.ReadingChars? ==>
               |phase.got| < phase.size < UINT_VALUES && Stream(ms) == WriteUInt(phase.size) + phase.got
    ensures phase.ReadingSize? || phase.ReadingChars? ==> ms == []
  {
    match phase
    case ReadingSize(got) => PartIsShort(ms, true, 0, got);
    case ReadingChars(size, got) => PartIsShort(ms, false, size, got);
    case _ =>
  }

  // An incomplete length or string is not a stream of strings, unless it is empty.
  lemma PartIsShort(ms: seq<Message>, inHeader: bool, size: nat, got: seq<Byte>)
    requires Stream(ms) == if inHeader then got else WriteUInt(size) + got
    requires if inHeader then |got| < 4 else |got| < size < UINT_VALUES
    ensures ms == []
  {
    if ms != [] && !inHeader {
      StreamHead(ms, WriteUInt(size), got);
      UIntValue(size);
    }
  }

  // The work left before everything written so far has come back.
  function Work(s: System): nat {
    (match s.phase
     case Free => 0
     case Sending(left, _) => 3 + 8 * |left|
     case ReadingSize(_) => 2
     case ReadingChars(_, _) => 1)
    + 6 * |s.up| + 4 * |ServerPart(s)| + 3 * |ReplyLeft(s)| + |s.down|
    + (match s.server case AwaitHeader => 1 case Replying(_) => 2 case _ => 0)
  }

  predicate Initiates(move: Move) {
    move.ClientWrite? || move.ClientFlush?
  }

  predicate OfServer(move: Move) {
    move.ServerReceive? || move.ServerReadCompleted? || move.ServerSend? || move.ServerWriteCompleted?
  }

  lemma ClientWorkDecreases(s: System, move: Move)
    requires Shape(s) && Enabled(s, move) && !Initiates(move) && !OfServer(move)
    ensures Work(Do(s, move)) < Work(s)
  {
    var t := Do(s, move);
    assert t.server == s.server && t.got == s.got && t.sentOf == s.sentOf;
    assert ServerPart(t) == ServerPart(s) && ReplyLeft(t) == ReplyLeft(s);
  }

  lemma ReceiveWorkDecreases(s: System, n: nat)
    requires Shape(s) && Enabled(s, ServerReceive(n))
    ensures Work(Do(s, ServerReceive(n))) < Work(s)
  {
    var t := Do(s, ServerReceive(n));
    assert |ServerPart(t)| == |ServerPart(s)| + n;
    assert ReplyLeft(t) == ReplyLeft(s);
  }

  lemma ReadWorkDecreases(s: System)
    requires Shape(s) && Enabled(s, ServerReadCompleted)
    ensures Work(Do(s, ServerReadCompleted)) < Work(s)
  {
    var t := Do(s, ServerReadCompleted);
    if s.server.AwaitBody? {
      ReplyIsWhole(s);
      assert ServerPart(t) == [];
    } else {
      assert ReplyLeft(s) == ReplyLeft(t) == [];
    }
  }

  lemma SendWorkDecreases(s: System, move: Move)
    requires Shape(s) && Enabled(s, move) && (move.ServerSend? || move.ServerWriteCompleted?)
    ensures Work(Do(s, move)) < Work(s)
  {
    var t := Do(s, move);
    assert ServerPart(t) == ServerPart(s) == [];
    if move.ServerWriteCompleted? {
      assert ReplyLeft(s) == ReplyLeft(t) == [];
    }
  }

  lemma WorkDecreases(s: System, move: Move)
    requires Inv(s) && Enabled(s, move) && !Initiates(move)
    ensures Work(Do(s, move)) < Work(s)
  {
    match move
    case ServerReceive(n) => ReceiveWorkDecreases(s, n);
    case ServerReadCompleted => ReadWorkDecreases(s);
    case ServerSend(_) => SendWorkDecreases(s, move);
    case ServerWriteCompleted => SendWorkDecreases(s, move);
    case _ => ClientWorkDecreases(s, move);
  }

  // Once the client waits, at most Work(s) further moves are possible, so with NoDeadlock every
  // wait for a string that was written ends.
  lemma {:induction false} WaitsAreBounded(s: System, moves: seq<Move>)
    requires Inv(s) && Legal(s, moves) && forall m <- moves :: !Initiates(m)
    ensures |moves| <= Work(s)
    decreases |moves|
  {
    if moves == [] {
    } else {
      DoKeepsInv(s, moves[0]);
      WorkDecreases(s, moves[0]);
      WaitsAreBounded(Do(s, moves[0]), moves[1..]);
    }
  }

  // A run that cannot go on without the client starting something new leaves the client free,
  // unless it asked for more strings than it wrote.
  lemma EveryWaitEnds(s: System, moves: seq<Move>)
    requires Inv(s) && Legal(s, moves)
    requires forall m :: Enabled(After(s, moves), m) ==> Initiates(m)
    ensures var t := After(s, moves); t.phase.Free? || |t.read| == |t.written|
  {
    RunKeepsInv(s, moves);
    var t := After(s, moves);
    if Waiting(t) && |t.read| < |t.written| {
      var m := NoDeadlock(t);
    }
  }

  // ------------------------------------------------------------ completion

  // The socket moves any number of bytes that are there and asked for, on both sides.
  lemma AnySplit(s: System, n: nat)
    requires n >= 1
    ensures s.phase.Sending? && n <= |s.phase.left| ==> Enabled(s, ClientSend(n))
    ensures s.phase.ReadingSize? && n <= |s.down| && |s.phase.got| + n <= 4 ==> Enabled(s, ClientReceive(n))
    ensures s.phase.ReadingChars? && n <= |s.down| && |s.phase.got| + n <= s.phase.size ==>
              Enabled(s, ClientReceive(n))
    ensures s.server.AwaitHeader? && n <= |s.up| && |s.got| + n <= 4 ==> Enabled(s, ServerReceive(n))
    ensures s.server.AwaitBody? && n <= |s.up| && |s.got| + n <= s.server.size ==> Enabled(s, ServerReceive(n))
    ensures s.server.Replying? && s.sentOf + n <= |s.server.reply| ==> Enabled(s, ServerSend(n))
  {
  }

  // A free client may write anything, and flush below 2^32 held bytes.
  lemma AnyCall(s: System, m: Message, thenRead: bool)
    requires s.phase.Free?
    ensures Enabled(s, ClientWrite(m))
    ensures |s.held| < 0x1_0000_0000 ==> Enabled(s, ClientFlush(thenRead))
  {
  }

  lemma {:induction false} AfterConcat(s: System, moves: seq<Move>, more: seq<Move>)
    requires Legal(s, moves) && Legal(After(s, moves), more)
    ensures Legal(s, moves + more) && After(s, moves + more) == After(After(s, moves), more)
    decreases |moves|
  {
    if moves == [] {
      assert moves + more == more;
    } else {
      assert (moves + more)[1..] == moves[1..] + more;
      AfterConcat(Do(s, moves[0]), moves[1..], more);
    }
  }

  lemma OneMove(s: System, move: Move)
    requires Enabled(s, move)
    ensures Legal(s, [move]) && After(s, [move]) == Do(s, move)
  {
    assert [move][1..] == [];
    assert Legal(Do(s, move), []);
  }

  // The client is inside `>>`.
  predicate InRead(phase: Phase) {
    phase.ReadingSize? || phase.ReadingChars? || (phase.Sending? && phase.thenRead)
  }

  lemma ReadGoesOn(s: System, move: Move)
    requires Shape(s) && Enabled(s, move) && InRead(s.phase)
    ensures !Initiates(move)
    ensures var t := Do(s, move);
            && t.written == s.written && t.held == []
            && (if t.phase.Free? then |t.read| == |s.read| + 1 else InRead(t.phase) && t.read == s.read)
  {
  }

  lemma WaitForString(s: System) returns (moves: seq<Move>)
    requires Inv(s) && InRead(s.phase) && |s.read| < |s.written|
    ensures Legal(s, moves)
    ensures var t := After(s, moves);
            t.phase.Free? && t.written == s.written && t.held == [] && |t.read| == |s.read| + 1
    decreases Work(s)
  {
    var move := NoDeadlock(s);
    var t := Do(s, move);
    ReadGoesOn(s, move);
    DoKeepsInv(s, move);
    WorkDecreases(s, move);
    OneMove(s, move);
    moves := [move];
    if !t.phase.Free? {
      var more := WaitForString(t);
      AfterConcat(s, moves, more);
      moves := moves + more;
    }
  }

  lemma WriteAndRead(s: System, m: Message) returns (moves: seq<Move>)
    requires Inv(s) && s.phase.Free? && s.held == [] && |s.read| == |s.written| && |m| < UINT_VALUES - 4
    ensures Legal(s, moves)
    ensures var t := After(s, moves);
            t.phase.Free? && t.held == [] && t.written == s.written + [m] && |t.read| == |s.read| + 1
  {
    var write, read := ClientWrite(m), ClientFlush(true);
    DoKeepsInv(s, write);
    OneMove(s, write);
    var t := Do(s, write);
    assert |t.held| == |m| + 4;
    DoKeepsInv(t, read);
    OneMove(t, read);
    var more := WaitForString(Do(t, read));
    AfterConcat(t, [read], more);
    AfterConcat(s, [write], [read] + more);
    moves := [write] + ([read] + more);
  }

  // Any strings a flush can carry can be written and read back one after the other: a run of the system
  // ends with the client having read exactly what it wrote.
  lemma EveryStringComesBack(ms: seq<Message>) returns (moves: seq<Move>)
    requires forall m <- ms :: |m| < UINT_VALUES - 4
    ensures Legal(START, moves)
    ensures var t := After(START, moves); t.phase.Free? && t.held == [] && t.written == ms && t.read == ms
    decreases |ms|
  {
    if ms == [] {
      moves := [];
    } else {
      var init, last := ms[..|ms| - 1], ms[|ms| - 1];
      var before := EveryStringComesBack(init);
      RunKeepsInv(START, before);
      var more := WriteAndRead(After(START, before), last);
      AfterConcat(START, before, more);
      moves := before + more;
      RunKeepsInv(START, moves);
      var t := After(START, moves);
      assert t.written == ms by { SplitLast(ms); }
      assert t.written[..|ms|] == t.written;
    }
  }
}
