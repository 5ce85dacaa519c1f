/** The string echo server: `echo_connection_processor_string` over `async_connection_fast`. */
module EchoServer {
  import opened LittleEndian
  import opened Wire
  import opened WireFormat
  import opened Streams

  // What a connection waits for; each state is one outstanding asynchronous operation, or none.
  datatype Server =
    | AwaitHeader
    | AwaitBody(size: nat)
    | Replying(reply: seq<Byte>)
    | Closed

  // ------------------------------------------------------------ the protocol, on values

  // Bytes the outstanding read still has to fill.
  function Wanted(s: Server): nat {
    match s
    case AwaitHeader => 4
    case AwaitBody(size) => size
    case _ => 0
  }

  function AfterRead(s: Server, bytes: seq<Byte>): Server
    requires (s.AwaitHeader? || s.AwaitBody?) && |bytes| == Wanted(s)
  {
    if s.AwaitHeader? then AwaitBody(FromLittle(bytes)) else Replying(Emit(Str(bytes)))
  }

  function AfterWrite(close: bool): Server {
    if close then Closed else AwaitHeader
  }

  // What completes the outstanding operation.
  datatype Event = ReadDone(bytes: seq<Byte>) | ReadError | WriteDone(error: bool)

  predicate Awaits(s: Server, e: Event) {
    match e
    case ReadDone(bytes) => (s.AwaitHeader? || s.AwaitBody?) && |bytes| == Wanted(s)
    case ReadError => s.AwaitHeader? || s.AwaitBody?
    case WriteDone(_) => s.Replying?
  }

  function OnEvent(s: Server, close: bool, e: Event): Server
    requires Awaits(s, e)
  {
    match e
    case ReadDone(bytes) => AfterRead(s, bytes)
    case ReadError => Closed
    case WriteDone(error) => AfterWrite(error || close)
  }

  predicate Lives(s: Server, close: bool, es: seq<Event>)
    decreases |es|
  {
    es == [] || (Awaits(s, es[0]) && Lives(OnEvent(s, close, es[0]), close, es[1..]))
  }

  function AfterEvents(s: Server, close: bool, es: seq<Event>): Server
    requires Lives(s, close, es)
    decreases |es|
  {
    if es == [] then s else AfterEvents(OnEvent(s, close, es[0]), close, es[1..])
  }

  predicate IsFailure(e: Event) {
    e.ReadError? || (e.WriteDone? && e.error)
  }

  // A failure ends the connection: nothing happens after it.
  lemma {:induction false} FailureIsLast(s: Server, close: bool, es: seq<Event>, i: nat)
    requires Lives(s, close, es) && i < |es| && IsFailure(es[i])
    ensures i == |es| - 1 && AfterEvents(s, close, es) == Closed
    decreases |es|
  {
    if i == 0 {
      assert OnEvent(s, close, es[0]) == Closed;
    } else {
      FailureIsLast(OnEvent(s, close, es[0]), close, es[1..], i - 1);
    }
  }

  function WritesDone(es: seq<Event>): nat {
    if es == [] then 0 else (if es[0].WriteDone? then 1 else 0) + WritesDone(es[1..])
  }

  // A closing connection makes at most one reply: a length, a string and a reply, and then it is closed.
  lemma ClosingRepliesOnce(es: seq<Event>)
    requires Lives(AwaitHeader, true, es)
    ensures |es| <= 3 && WritesDone(es) <= 1
    ensures WritesDone(es) == 1 <==> |es| == 3
    ensures |es| == 3 ==> AfterEvents(AwaitHeader, true, es) == Closed
  {
    if es != [] && es[0].ReadDone? {
      LivesClosed(OnEvent(AwaitHeader, true, es[0]), es[1..]);
    } else {
      LivesClosed(Closed, if es == [] then [] else es[1..]);
    }
  }

  lemma LivesClosed(s: Server, es: seq<Event>)
    requires Lives(s, true, es) && (s.Closed? || s.AwaitBody? || s.Replying?)
    ensures var most := match s case AwaitBody(_) => 2 case Replying(_) => 1 case _ => 0;
            |es| <= most && WritesDone(es) <= 1
            && (|es| == most && most > 0 <==> WritesDone(es) == 1)
            && (|es| == most ==> AfterEvents(s, true, es) == Closed)
    decreases |es|
  {
    if es == [] {
    } else {
      LivesClosed(OnEvent(s, true, es[0]), es[1..]);
    }
  }

  // One exchange: four bytes announce as many bytes as they say, and those come back behind the four bytes.
  lemma OneExchange(close: bool, h: seq<Byte>, body: seq<Byte>)
    requires |h| == 4
    requires |body| == h[0] + 0x100 * (h[1] as int) + 0x1_0000 * (h[2] as int) + 0x100_0000 * (h[3] as int)
    ensures var es := [ReadDone(h), ReadDone(body)];
            Lives(AwaitHeader, close, es) && AfterEvents(AwaitHeader, close, es) == Replying(h + body)
  {
    PrefixValue(h);
    HeaderComesBack(h, body);
    TwoEvents(AwaitHeader, close, ReadDone(h), ReadDone(body));
  }

  lemma TwoEvents(s: Server, close: bool, e: Event, f: Event)
    requires Awaits(s, e) && Awaits(OnEvent(s, close, e), f)
    ensures Lives(s, close, [e, f]) && AfterEvents(s, close, [e, f]) == OnEvent(OnEvent(s, close, e), close, f)
  {
    var t := OnEvent(s, close, e);
    assert [e, f][1..] == [f] && [f][1..] == [];
    assert Lives(OnEvent(t, close, f), close, []);
    assert Lives(t, close, [f]) && AfterEvents(t, close, [f]) == OnEvent(t, close, f);
  }

  lemma HeaderComesBack(h: seq<Byte>, body: seq<Byte>)
    requires |h| == 4 && FromLittle(h) == |body|
    ensures Emit(Str(body)) == h + body
  {
    UIntCanonical(h);
    assert h[..4] == h;
  }

  // An open one that meets no failure goes on for ever: after each reply it waits for a length again.
  lemma {:induction false} OpenGoesOn(s: Server, es: seq<Event>)
    requires Lives(s, false, es) && !s.Closed? && forall e <- es :: !IsFailure(e)
    ensures !AfterEvents(s, false, es).Closed?
    ensures es != [] && es[|es| - 1].WriteDone? ==> AfterEvents(s, false, es) == AwaitHeader
    decreases |es|
  {
    if es == [] {
    } else {
      assert es[0] in es;
      assert forall e <- es[1..] :: e in es;
      OpenGoesOn(OnEvent(s, false, es[0]), es[1..]);
      assert |es| > 1 ==> es[1..][|es| - 2] == es[|es| - 1];
    }
  }

  // ------------------------------------------------------------ the connection and its processor

  datatype Handler = OnRead1 | OnRead2 | OnWrite

  datatype Operation = Nothing | Read(size: nat, handler: Handler) | Write(handler: Handler)

  class AsyncConnection {
    const request: StackRequest
    const response: StackResponse
    var pending: Operation
    const closeAfterReply: bool // template parameter `Close` of the processor

    constructor (close: bool)
      ensures Valid() && fresh(request) && fresh(response)
      ensures closeAfterReply == close && pending == Read(4, OnRead1) && View() == AwaitHeader
    {
      request := new StackRequest(Bare);
      response := new StackResponse();
      closeAfterReply := close;
      new;
      AsyncRead(OnRead1, 4);
    }

    ghost function Objects(): set<object> {
      {this, request, response}
    }

    // The response is empty whenever no write is under way.
    ghost predicate Valid()
      reads Objects()
    {
      && request.link == Bare && request.extracted <= |request.data|
      && (match pending
          case Nothing => response.data == []
          case Read(size, h) =>
            && response.data == [] && |request.data| == size && request.extracted == 0
            && ((h == OnRead2 && size < UINT_VALUES) || (h == OnRead1 && size == 4))
          case Write(h) => h == OnWrite)
    }

    ghost function View(): Server
      requires Valid()
      reads Objects()
    {
      match pending
      case Nothing => Closed
      case Read(size, h) => if h == OnRead1 then AwaitHeader else AwaitBody(size)
      case Write(_) => Replying(response.data)
    }

    method AsyncRead(handler: Handler, size: nat)
      requires request.link == Bare
      modifies this`pending, request
      ensures pending == Read(size, handler)
      ensures |request.data| == size && request.extracted == 0
      ensures forall i | 0 <= i < size :: request.data[i] == 0
    {
      request.Clear();
      request.Resize(size);
      pending := Read(size, handler);
    }

    method AsyncWrite(handler: Handler)
      modifies this`pending
      ensures pending == Write(handler)
    {
      pending := Write(handler);
    }

    // Successful completion of the outstanding read, with the bytes it filled in.
    method ReadCompleted(bytes: seq<Byte>)
      requires Valid() && pending.Read? && |bytes| == pending.size
      modifies Objects()
      ensures Valid() && View() == OnEvent(old(View()), closeAfterReply, ReadDone(bytes))
      ensures old(pending).handler == OnRead1 ==>
                pending == Read(bytes[0] + 0x100 * (bytes[1] as int) + 0x1_0000 * (bytes[2] as int)
                                + 0x100_0000 * (bytes[3] as int), OnRead2)
      ensures old(pending).handler == OnRead2 ==>
                && pending == Write(OnWrite)
                && var n := |bytes|;
                response.data == [n % 256, n / 0x100 % 256, n / 0x1_0000 % 256, n / 0x100_0000] + bytes
    {
      if pending.handler == OnRead1 { PrefixValue(bytes); } else { StringFormat(bytes); }
      request.data := bytes;
      if pending.handler == OnRead1 {
        HandleHeader();
      } else {
        HandleBody();
      }
    }

    // A failed read: the processor returns without a further operation.
    method ReadFailed()
      requires Valid() && pending.Read?
      modifies this`pending
      ensures Valid() && pending == Nothing && View() == OnEvent(old(View()), closeAfterReply, ReadError)
    {
      pending := Nothing;
    }

    method HandleHeader()
      requires request.link == Bare && request.extracted == 0 && |request.data| == 4
      requires response.data == []
      modifies this`pending, request
      ensures Valid() && View() == AwaitBody(FromLittle(old(request.data)))
    {
      ghost var bytes := request.data;
      var size := request.Get(TNum(UInt));
      assert bytes[..4] == bytes;
      Pow256Values();
      AsyncRead(OnRead2, size.value.n);
    }

    method HandleBody()
      requires request.link == Bare && request.extracted == 0 && |request.data| < UINT_VALUES
      requires response.data == []
      modifies this`pending, response
      ensures Valid() && View() == Replying(Emit(Str(request.data)))
    {
      var s := request.Unread();
      var ok := response.Put(Str(s));
      AsyncWrite(OnWrite);
    }

    // Completion of the outstanding write.
    method WriteCompleted(error: bool)
      requires Valid() && pending.Write?
      modifies Objects()
      ensures Valid() && View() == OnEvent(old(View()), closeAfterReply, WriteDone(error))
      ensures response.data == []
      ensures pending == if error || closeAfterReply then Nothing else Read(4, OnRead1)
    {
      response.Clear();
      if error || closeAfterReply {
        pending := Nothing;
      } else {
        AsyncRead(OnRead1, 4);
      }
    }
  }
}
