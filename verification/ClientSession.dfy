/** Whole runs of a raw blocking connection: any sequence of `<<`, `>>` and flushes. */
module ClientSession {
  import opened Wrappers
  import opened LittleEndian
  import opened Wire
  import opened Streams

  // `c << v`, `c >> x` with x of type t, and `write()`, which `close()` performs too.
  datatype Op = Write(v: Value) | Read(t: WireType) | Push

  function Writes(ops: seq<Op>): seq<Value> {
    if ops == [] then [] else
    Writes(ops[..|ops| - 1]) + match ops[|ops| - 1] { case Write(v) => [v] case _ => [] }
  }

  function Reads(ops: seq<Op>): seq<WireType> {
    if ops == [] then [] else
    Reads(ops[..|ops| - 1]) + match ops[|ops| - 1] { case Read(t) => [t] case _ => [] }
  }

  // The outgoing side alone.
  function Step(o: Outgoing, op: Op): Outgoing {
    match op
    case Write(v) => o.(held := o.held + Emit(v))
    case _ => Flush(o)
  }

  function Run(o: Outgoing, ops: seq<Op>): Outgoing {
    if ops == [] then o else Step(Run(o, ops[..|ops| - 1]), ops[|ops| - 1])
  }

  function Bytes(o: Outgoing): seq<Byte> {
    o.sent + o.held
  }

  // No flush ever finds 2^32 bytes or more.
  predicate NoOverflow(o: Outgoing, ops: seq<Op>) {
    ops == [] ||
    var init, last := ops[..|ops| - 1], ops[|ops| - 1];
    NoOverflow(o, init) && (last.Write? || |Run(o, init).held| < UINT_VALUES)
  }

  lemma FlushExactly(o: Outgoing)
    ensures Flush(o).held == [] && o.sent <= Flush(o).sent
    ensures |o.held| < 0x1_0000_0000 ==> Flush(o) == Outgoing(o.sent + o.held, [])
    ensures Bytes(Flush(o)) <= Bytes(o)
    ensures Bytes(Flush(o)) == Bytes(o) <==> |o.held| < UINT_VALUES
  {
    var kept := |o.held| % UINT_VALUES;
    assert o.held == o.held[..kept] + o.held[kept..];
    assert |o.held| >= UINT_VALUES ==> kept < |o.held|;
    assert kept == |o.held| ==> o.held[..kept] == o.held;
    assert Bytes(Flush(o)) == o.sent + o.held[..kept];
    assert Bytes(o) == o.sent + o.held[..kept] + o.held[kept..];
  }

  // Four gigabytes of held data vanish in one flush.
  lemma FlushLosesData()
    ensures var o := Outgoing([], seq(UINT_VALUES, _ => 0)); Bytes(o) != [] && Bytes(Flush(o)) == []
  {
    var o := Outgoing([], seq(UINT_VALUES, _ => 0));
    assert |Bytes(o)| == UINT_VALUES;
  }

  // The bytes of all writes, in order; a write that throws contributes what it appended before.
  function Emitted(ops: seq<Op>): seq<Byte> {
    if ops == [] then [] else
    Emitted(ops[..|ops| - 1]) + match ops[|ops| - 1] { case Write(v) => Emit(v) case _ => [] }
  }

  // Conservation over all runs, with its exact condition: what was sent followed by what is still
  // held is everything ever written, if and only if no flush overflowed its 32-bit byte count.
  lemma {:induction false} ConservationExactly(o: Outgoing, ops: seq<Op>)
    ensures |Bytes(Run(o, ops))| <= |Bytes(o) + Emitted(ops)|
    ensures Bytes(Run(o, ops)) == Bytes(o) + Emitted(ops) <==> NoOverflow(o, ops)
  {
    if ops == [] {
      assert Bytes(o) + [] == Bytes(o);
    } else {
      var init, last := ops[..|ops| - 1], ops[|ops| - 1];
      var mid := Run(o, init);
      ConservationExactly(o, init);
      match last
      case Write(v) =>
        ConcatAssociates(Bytes(o), Emitted(init), Emit(v));
        ConcatAssociates(mid.sent, mid.held, Emit(v));
        SameTail(Bytes(mid), Bytes(o) + Emitted(init), Emit(v));
      case _ =>
        assert Emitted(ops) == Emitted(init);
        FlushExactly(mid);
    }
  }

  lemma {:induction false} RunConcat(o: Outgoing, a: seq<Op>, b: seq<Op>)
    ensures Run(o, a + b) == Run(Run(o, a), b)
    decreases |b|
  {
    if b == [] {
      assert a + b == a;
    } else {
      var n := |b| - 1;
      assert (a + b)[..|a + b| - 1] == a + b[..n];
      RunConcat(o, a, b[..n]);
    }
  }

  lemma {:induction false} WritesAreHeld(o: Outgoing, b: seq<Op>)
    requires forall op <- b :: op.Write?
    ensures Run(o, b) == Outgoing(o.sent, o.held + Emitted(b))
  {
    if b == [] {
      assert o.held + [] == o.held;
    } else {
      var init, last := b[..|b| - 1], b[|b| - 1];
      WritesAreHeld(o, init);
      ConcatAssociates(o.held, Emitted(init), Emit(last.v));
    }
  }

  // What is sent when: after a read or a flush everything written so far is sent, and what is written
  // after it is held.
  lemma SentExactly(o: Outgoing, a: seq<Op>, b: seq<Op>)
    requires a != [] && !a[|a| - 1].Write? && NoOverflow(o, a) && forall op <- b :: op.Write?
    ensures Run(o, a + b) == Outgoing(o.sent + o.held + Emitted(a), Emitted(b))
  {
    var before := Run(o, a[..|a| - 1]);
    FlushExactly(before);
    assert Run(o, a) == Flush(before);
    ConservationExactly(o, a);
    assert Run(o, a).sent + [] == Run(o, a).sent;
    RunConcat(o, a, b);
    WritesAreHeld(Run(o, a), b);
    assert [] + Emitted(b) == Emitted(b);
  }

  // When no write throws, these are the bytes of the written values as one sequence.
  lemma {:induction false} EmittedItems(ops: seq<Op>)
    requires AllAccepted(Writes(ops))
    ensures Emitted(ops) == EmitItems(Writes(ops))
  {
    if ops == [] {
      assert Writes(ops) == [];
    } else {
      var init, last := ops[..|ops| - 1], ops[|ops| - 1];
      match last
      case Write(v) =>
        assert Writes(ops)[..|Writes(init)|] == Writes(init);
        EmittedItems(init);
        EmitSnoc(Writes(init), v);
      case _ =>
        assert Writes(ops) == Writes(init);
        EmittedItems(init);
    }
  }

  lemma SameTail(a: seq<Byte>, b: seq<Byte>, tail: seq<Byte>)
    ensures a + tail == b + tail <==> a == b
  {
    if a + tail == b + tail {
      assert a == (a + tail)[..|a|] && b == (b + tail)[..|b|];
    }
  }

  // ------------------------------------------------------------ the incoming side

  // A connection as its user sees it: both directions, and the values read so far.
  datatype Client = Client(out: Outgoing, stream: seq<Byte>, results: seq<Value>)

  function Effect(s: Client, op: Op): Option<Client> {
    match op
    case Write(v) => if Accepted(v) then Some(s.(out := Step(s.out, op))) else None
    case Push => Some(s.(out := Step(s.out, op)))
    case Read(t) =>
      match Decode(t, s.stream)
      case Parsed(v, rest) => Some(Client(Step(s.out, op), rest, s.results + [v]))
      case Starved(_) => None
  }

  function Effects(s: Client, ops: seq<Op>): Option<Client> {
    if ops == [] then Some(s) else
    match Effects(s, ops[..|ops| - 1])
    case None => None
    case Some(mid) => Effect(mid, ops[|ops| - 1])
  }

  lemma {:induction false} EffectsPrefix(s: Client, ops: seq<Op>, i: nat)
    requires i <= |ops| && Effects(s, ops[..i]).None?
    ensures Effects(s, ops).None?
  {
    if i < |ops| {
      assert ops[..|ops| - 1][..i] == ops[..i];
      EffectsPrefix(s, ops[..|ops| - 1], i);
    } else {
      assert ops[..i] == ops;
    }
  }

  // The two directions are independent: the values read are the ones decoded from the peer's
  // stream whatever is written in between, and the bytes sent are those of the writes and flushes
  // whatever is received.
  lemma {:induction false} DirectionsIndependent(s: Client, ops: seq<Op>)
    requires s.results == []
    ensures var p := DecodeAll(Reads(ops), s.stream);
            Effects(s, ops) == if AllAccepted(Writes(ops)) && p.Parsed?
                               then Some(Client(Run(s.out, ops), p.rest, p.value)) else None
  {
    if ops == [] {
    } else {
      var init, last := ops[..|ops| - 1], ops[|ops| - 1];
      DirectionsIndependent(s, init);
      match last
      case Write(v) =>
        assert Reads(ops) == Reads(init);
        assert Writes(ops)[..|Writes(init)|] == Writes(init);
      case Read(t) =>
        assert Writes(ops) == Writes(init);
        DecodeAllSnoc(Reads(init), t, s.stream);
      case Push =>
        assert Reads(ops) == Reads(init) && Writes(ops) == Writes(init);
    }
  }

  ghost function View(c: StackRequest, results: seq<Value>): Client
    requires c.link.Linked? && c.extracted <= |c.data|
    reads c, c.Objects()
  {
    Client(c.Out(), c.Available(), results)
  }

  method Perform(c: StackRequest, op: Op, results: seq<Value>) returns (r: Option<seq<Value>>)
    requires c.Valid() && c.link.Linked?
    modifies c, c.Objects()
    ensures r.Some? ==> c.Valid() && Effect(old(View(c, results)), op) == Some(View(c, r.value))
    ensures r.None? ==> Effect(old(View(c, results)), op) == None
    ensures c.NoneHeld()
  {
    match op
    case Write(v) =>
      var ok := c.link.response.Put(v);
      r := if ok then Some(results) else None;
    case Read(t) =>
      var v := c.Get(t);
      r := if v.Some? then Some(results + [v.value]) else None;
    case Push =>
      WriteWithoutSize(c.link.socket, c.link.response);
      r := Some(results);
  }

  // Any client of a connection.  Whatever the socket does, the run completes exactly when every
  // written string fits and the peer's stream holds every value asked for; then the values read
  // are the ones decoded from the peer's stream, and the bytes sent and held are those of the
  // writes and flushes alone.  No receive is issued with data held back, whatever happens.
  method Session(c: StackRequest, ops: seq<Op>) returns (r: Option<seq<Value>>)
    requires c.Valid() && c.link.Linked?
    modifies c, c.Objects()
    ensures r.Some? == (AllAccepted(Writes(ops)) && DecodeAll(Reads(ops), old(c.Available())).Parsed?)
    ensures r.Some? ==>
              && c.Valid()
              && DecodeAll(Reads(ops), old(c.Available())) == Parsed(r.value, c.Available())
              && c.Out() == Run(old(c.Out()), ops)
    ensures forall held <- c.link.socket.heldAtReceive :: held == []
  {
    ghost var start := View(c, []);
    var results := [];
    for i := 0 to |ops|
      invariant c.Valid()
      invariant Effects(start, ops[..i]) == Some(View(c, results))
    {
      assert ops[..i + 1][..i] == ops[..i];
      var next := Perform(c, ops[i], results);
      if next.None? {
        EffectsPrefix(start, ops, i + 1);
        DirectionsIndependent(start, ops);
        return None;
      }
      results := next.value;
    }
    assert ops[..|ops|] == ops;
    DirectionsIndependent(start, ops);
    return Some(results);
  }
}
