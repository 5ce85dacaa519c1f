/** The buffers behind the streams (`stack_request`, `stack_response`), the decode and encode
    operators over them, and the blocking client connection `sync_connection` (raw TCP). */
module Streams {
  import opened Wrappers
  import opened LittleEndian
  import opened Wire

  // ------------------------------------------------------------ the socket

  /** A connected stream socket with an adversary behind it: every call moves some number of
      bytes of its choice, at least one, at most what was offered. */
  class Socket {
    var sent: seq<Byte> // everything handed to the peer so far
    var incoming: seq<Byte> // everything the peer will still deliver before it closes
    ghost var heldAtReceive: seq<seq<Byte>> // for each receive call, what its caller had not yet sent

    // A fresh connection, to a peer that will send the given bytes.
    constructor (incoming: seq<Byte>)
      ensures sent == [] && this.incoming == incoming && heldAtReceive == []
    {
      sent, this.incoming, heldAtReceive := [], incoming, [];
    }

    method Send(chunk: seq<Byte>) returns (n: nat)
      requires chunk != []
      modifies this`sent
      ensures 1 <= n <= |chunk| && sent == old(sent) + chunk[..n]
    {
      n :| 1 <= n <= |chunk|;
      sent := sent + chunk[..n];
    }

    // An empty chunk stands for the end-of-file error, thrown when nothing more will come.
    method Receive(max: nat, ghost held: seq<Byte>) returns (chunk: seq<Byte>)
      requires max > 0
      modifies this`incoming, this`heldAtReceive
      ensures |chunk| <= max && chunk + incoming == old(incoming)
      ensures chunk == [] <==> old(incoming) == []
      ensures heldAtReceive == old(heldAtReceive) + [held]
    {
      var n :| 0 <= n <= max && n <= |incoming| && (n == 0 <==> incoming == []);
      chunk, incoming := incoming[..n], incoming[n..];
      heldAtReceive := heldAtReceive + [held];
    }
  }

  // ------------------------------------------------------------ stack_response

  // `npos`, the default, lies behind every buffer.
  datatype Position = End | At(pos: nat)

  class StackResponse {
    var data: seq<Byte>

    constructor ()
      ensures data == []
    {
      data := [];
    }

    // An insertion inside the buffer goes to offset `size`, not to offset `pos`; when the buffer has
    // fewer bytes that is behind its end, which is undefined: the result is false.
    method PutData(bytes: seq<Byte>, pos: Position) returns (inside: bool)
      modifies this
      ensures inside <==> pos.End? || pos.pos >= |old(data)| || |bytes| <= |old(data)|
      ensures inside ==>
                data == if pos.End? || pos.pos >= |old(data)| then old(data) + bytes
                        else old(data)[..|bytes|] + bytes + old(data)[|bytes|..]
      ensures !inside ==> data == old(data)
    {
      var at := if pos.End? || pos.pos >= |data| then |data| else |bytes|;
      if at > |data| {
        return false;
      }
      data := data[..at] + bytes + data[at..];
      return true;
    }

    method Append(bytes: seq<Byte>)
      modifies this
      ensures data == old(data) + bytes
    {
      var inside := PutData(bytes, End);
    }

    method Clear()
      modifies this
      ensures data == []
    {
      data := [];
    }

    // `response << v`; false stands for the exception an oversized string throws.
    method Put(v: Value) returns (ok: bool)
      modifies this
      ensures ok == Accepted(v)
      ensures data == old(data) + Emit(v)
      decreases v, 0
    {
      match v
      case Num(k, n) =>
        Append(WriteScalar(k, n));
        return true;
      case Str(s) =>
        if |s| >= UINT_VALUES {
          return false;
        }
        ConcatAssociates(data, WriteUInt(|s|), s);
        Append(WriteUInt(|s|));
        Append(s);
        return true;
      case Vec(items) =>
        ConcatAssociates(data, WriteUInt(|items|), EmitItems(items));
        Append(WriteUInt(|items|));
        ok := PutItems(items);
    }

    method PutItems(items: seq<Value>) returns (ok: bool)
      modifies this
      ensures ok == AllAccepted(items)
      ensures data == old(data) + EmitItems(items)
      decreases items, 1
    {
      ghost var start := data;
      for i := 0 to |items|
        invariant AllAccepted(items[..i])
        invariant data == start + EmitItems(items[..i])
      {
        ghost var before := EmitItems(items[..i]);
        ok := Put(items[i]);
        assert items[..i + 1] == items[..i] + [items[i]];
        EmitSnoc(items[..i], items[i]);
        ConcatAssociates(start, before, Emit(items[i]));
        if !ok {
          EmitStops(items, i + 1);
          return;
        }
      }
      assert items[..|items|] == items;
      return true;
    }
  }

  // Nothing is appended after the item that threw.
  lemma {:induction false} EmitStops(vs: seq<Value>, i: nat)
    requires i <= |vs| && !AllAccepted(vs[..i])
    ensures !AllAccepted(vs) && EmitItems(vs) == EmitItems(vs[..i])
  {
    if i < |vs| {
      assert vs[..|vs| - 1][..i] == vs[..i];
      EmitStops(vs[..|vs| - 1], i);
    } else {
      assert vs[..i] == vs;
    }
  }

  // ------------------------------------------------------------ sending

  // What is left to send and what was sent.
  datatype Outgoing = Outgoing(sent: seq<Byte>, held: seq<Byte>)

  // The byte count goes through an `unsigned int`; whatever exceeds it is cleared unsent.
  function Flush(o: Outgoing): Outgoing {
    Outgoing(o.sent + o.held[..|o.held| % UINT_VALUES], [])
  }

  method WriteAll(socket: Socket, bytes: seq<Byte>)
    modifies socket`sent
    ensures socket.sent == old(socket.sent) + bytes
  {
    var offset := 0;
    while offset != |bytes|
      invariant 0 <= offset <= |bytes|
      invariant socket.sent == old(socket.sent) + bytes[..offset]
    {
      var n := socket.Send(bytes[offset..]);
      assert bytes[..offset] + bytes[offset..][..n] == bytes[..offset + n];
      offset := offset + n;
    }
  }

  method WriteWithoutSize(socket: Socket, response: StackResponse)
    modifies socket`sent, response
    ensures response.data == []
    ensures socket.sent == old(socket.sent) + old(response.data)[..|old(response.data)| % 0x1_0000_0000]
    ensures Outgoing(socket.sent, response.data) == Flush(old(Outgoing(socket.sent, response.data)))
  {
    var size := |response.data| % UINT_VALUES;
    WriteAll(socket, response.data[..size]);
    response.Clear();
  }

  // ------------------------------------------------------------ stack_request and sync_connection

  function Zeros(n: nat): (b: seq<Byte>)
    ensures |b| == n && forall i | 0 <= i < n :: b[i] == 0
  {
    seq(n, _ => 0)
  }

  // What `resize` makes of a buffer.
  function Resized(b: seq<Byte>, size: nat): (r: seq<Byte>)
    ensures |r| == size
  {
    if size <= |b| then b[..size] else b + Zeros(size - |b|)
  }

  // A bare `stack_request`, or the `stack_request` part of a `sync_connection`, whose
  // override of `extract_data` reads on demand.
  datatype Link = Bare | Linked(socket: Socket, response: StackResponse)

  class StackRequest {
    var data: seq<Byte>
    var extracted: nat
    const link: Link

    constructor (link: Link)
      ensures this.link == link && data == [] && extracted == 0
      ensures link.Bare? || link.socket.heldAtReceive == [] ==> Valid()
    {
      data, extracted, this.link := [], 0, link;
    }

    ghost function Objects(): set<object> {
      if link.Bare? then {} else {link.socket, link.response}
    }

    function Unread(): seq<Byte>
      requires extracted <= |data|
      reads this
    {
      data[extracted..]
    }

    // Everything a reader can still get: the unread bytes, then the stream.
    function Available(): seq<Byte>
      requires extracted <= |data|
      reads this, if link.Bare? then {} else {link.socket}
    {
      Unread() + if link.Bare? then [] else link.socket.incoming
    }

    function Out(): Outgoing
      requires link.Linked?
      reads link.socket, link.response
    {
      Outgoing(link.socket.sent, link.response.data)
    }

    // No receive was ever issued while written data was held back.
    ghost predicate NoneHeld()
      reads this, Objects()
    {
      link.Linked? ==> forall held <- link.socket.heldAtReceive :: held == []
    }

    // Between two extractions a connection holds no unread byte.
    ghost predicate Valid()
      reads this, Objects()
    {
      extracted <= |data| && (link.Linked? ==> extracted == |data|) && NoneHeld()
    }

    method Clear()
      modifies this
      ensures data == [] && extracted == 0
    {
      data, extracted := [], 0;
    }

    method Resize(size: nat)
      modifies this`data
      ensures data == Resized(old(data), size)
      ensures forall i | 0 <= i < size :: data[i] == if i < |old(data)| then old(data)[i] else 0
    {
      if size <= |data| {
        data := data[..size];
      } else {
        data := data + Zeros(size - |data|);
      }
    }

    method Shrink()
      requires extracted <= |data|
      modifies this
      ensures data == old(Unread()) && extracted == 0
    {
      data := data[extracted..];
      extracted := 0;
    }

    // stack_request::extract_data; None stands for the range_error.
    method BaseExtract(size: nat) returns (r: Option<seq<Byte>>)
      requires extracted <= |data|
      modifies this`extracted
      ensures extracted <= |data|
      ensures if size <= |old(Unread())|
              then r == Some(old(Unread())[..size]) && Unread() == old(Unread())[size..]
              else r == None && Unread() == old(Unread())
    {
      if |data| < size + extracted {
        return None;
      }
      r := Some(data[extracted..extracted + size]);
      assert Unread()[..size] == r.value && Unread()[size..] == data[extracted + size..];
      extracted := extracted + size;
    }

    // Fills the first `size` bytes of the buffer from the socket; false on end of file.
    method FillFromSocket(size: nat) returns (ok: bool)
      requires link.Linked? && extracted == 0 && |data| == size
      modifies this`data, link.socket`incoming, link.socket`heldAtReceive
      ensures |data| == size && extracted == 0
      ensures ok == (size <= |old(link.socket.incoming)|)
      ensures ok ==> data + link.socket.incoming == old(link.socket.incoming)
      ensures !ok ==> link.socket.incoming == [] && data == Overwritten(old(data), old(link.socket.incoming))
      ensures forall held <- link.socket.heldAtReceive ::
                held in old(link.socket.heldAtReceive) || held == link.response.data
    {
      var offset := 0;
      while offset != size
        invariant 0 <= offset <= size == |data|
        invariant data[..offset] + link.socket.incoming == old(link.socket.incoming)
        invariant data[offset..] == old(data)[offset..]
        invariant forall held <- link.socket.heldAtReceive ::
                    held in old(link.socket.heldAtReceive) || held == link.response.data
      {
        var chunk := link.socket.Receive(size - offset, link.response.data);
        if chunk == [] {
          assert data == data[..offset] + data[offset..];
          return false;
        }
        var was := data;
        data := data[..offset] + chunk + data[offset + |chunk|..];
        assert data[..offset + |chunk|] == was[..offset] + chunk;
        assert data[offset + |chunk|..] == was[offset..][|chunk|..];
        offset := offset + |chunk|;
      }
      assert data[..offset] == data;
      return true;
    }

    // sync_connection::read_without_size
    method ReadWithoutSize(size: nat) returns (ok: bool)
      requires link.Linked? && extracted <= |data|
      modifies this, link.socket, link.response
      ensures Out() == Flush(old(Out()))
      ensures |data| == size && extracted == 0
      ensures ok == (size <= |old(link.socket.incoming)|)
      ensures ok ==> data + link.socket.incoming == old(link.socket.incoming)
      ensures !ok ==> link.socket.incoming == [] &&
                      data == Overwritten(Resized(old(Unread()), size), old(link.socket.incoming))
      ensures forall held <- link.socket.heldAtReceive :: held in old(link.socket.heldAtReceive) || held == []
    {
      WriteWithoutSize(link.socket, link.response);
      Shrink();
      Resize(size);
      ok := FillFromSocket(size);
    }

    // sync_connection::extract_data, or the base one when there is no connection.  An extraction
    // that must read succeeds exactly when no unread byte is left over and the peer delivers enough:
    // with leftovers the resized buffer is too short, and the leftovers are gone.
    method ExtractData(size: nat) returns (r: Option<seq<Byte>>)
      requires extracted <= |data|
      modifies this, Objects()
      ensures extracted <= |data|
      ensures link.Bare? || size <= |old(Unread())| ==>
                && data == old(data)
                && (link.Linked? ==>
                      && Out() == old(Out()) && link.socket.incoming == old(link.socket.incoming)
                      && link.socket.heldAtReceive == old(link.socket.heldAtReceive))
                && (match Extract(old(Unread()), size)
                    case Parsed(bytes, rest) => r == Some(bytes) && Unread() == rest
                    case Starved(rest) => r == None && Unread() == rest)
      ensures link.Linked? && |old(Unread())| < size ==>
                && Out() == Flush(old(Out()))
                && (r.Some? <==> old(Unread()) == [] && size <= |old(link.socket.incoming)|)
                && (r.Some? ==>
                      && extracted == |data|
                      && |r.value| == size && r.value + link.socket.incoming == old(link.socket.incoming))
                && (r.None? ==>
                      && extracted == 0
                      && var missing := size - |old(Unread())|;
                      if missing <= |old(link.socket.incoming)|
                      then |data| == missing && data + link.socket.incoming == old(link.socket.incoming)
                      else && link.socket.incoming == []
                           && data == Overwritten(Resized(old(Unread()), missing), old(link.socket.incoming)))
                && (forall held <- link.socket.heldAtReceive ::
                      held in old(link.socket.heldAtReceive) || held == [])
    {
      if link.Linked? && |data| < size + extracted {
        var ok := ReadWithoutSize(size + extracted - |data|);
        if !ok {
          return None;
        }
      }
      r := BaseExtract(size);
    }

    // What a read does to the outgoing side of a connection: it sends what was held back.
    twostate predicate Flushed()
      reads this, Objects()
    {
      link.Linked? ==> Out() == Flush(old(Out()))
    }

    // What is left after an extraction that failed with the given bytes available.  A bare request keeps
    // them; a connection has them in a buffer that is filled up with zero bytes, all of them unread.
    predicate FailedWith(rest: seq<Byte>)
      reads this, Objects()
    {
      if link.Bare? then extracted <= |data| && Available() == rest
      else
        && link.socket.incoming == [] && extracted == 0
        && |rest| < |data| && data == rest + Zeros(|data| - |rest|)
    }

    // An extraction from a valid request, seen from its reader: the next bytes of what is
    // available, or a failure when there are too few.
    method Take(size: nat) returns (r: Option<seq<Byte>>)
      requires Valid()
      modifies this, Objects()
      ensures match Extract(old(Available()), size)
              case Parsed(bytes, rest) => r == Some(bytes) && Valid() && Available() == rest
              case Starved(rest) => r == None && FailedWith(rest)
      ensures NoneHeld()
      ensures size > 0 ==> Flushed()
      ensures size == 0 && link.Linked? ==> Out() == old(Out())
    {
      ghost var before := Available();
      assert link.Linked? ==> before == link.socket.incoming;
      assert link.Bare? ==> before == Unread();
      r := ExtractData(size);
      assert NoneHeld();
      assert link.Bare? ==> Available() == Unread();
      if r.Some? {
        assert r.value + Available() == before;
        ExtractConcat(r.value, Available());
      } else if link.Linked? {
        FilledWithZeros(size, before);
      }
    }

    // `request >> v` for a variable of the C++ type t; None stands for the exception.
    method Get(t: WireType) returns (r: Option<Value>)
      requires Valid()
      modifies this, Objects()
      ensures match Decode(t, old(Available()))
              case Parsed(v, rest) => r == Some(v) && Valid() && Available() == rest
              case Starved(rest) => r == None && FailedWith(rest)
      ensures NoneHeld()
      ensures Flushed()
      decreases t, 0
    {
      match t
      case TNum(k) =>
        var b := Take(ReadWidth(k));
        r := if b.None? then None else Some(Num(k, ReadScalar(k, b.value)));
      case TStr =>
        var header := Take(4);
        if header.None? {
          return None;
        }
        var s := Take(FromLittle(header.value));
        r := if s.None? then None else Some(Str(s.value));
      case TVec(e) =>
        var header := Take(4);
        if header.None? {
          return None;
        }
        var items := GetItems(e, FromLittle(header.value));
        r := if items.None? then None else Some(Vec(items.value));
    }

    // The loop of `>>` for vectors.
    method GetItems(t: WireType, size: nat) returns (r: Option<seq<Value>>)
      requires Valid()
      modifies this, Objects()
      ensures match DecodeItems(t, size, old(Available()))
              case Parsed(items, rest) => r == Some(items) && Valid() && Available() == rest
              case Starved(rest) => r == None && FailedWith(rest)
      ensures NoneHeld()
      ensures size > 0 ==> Flushed()
      ensures size == 0 && link.Linked? ==> Out() == old(Out())
      decreases t, 1
    {
      var val: seq<Value> := [];
      ghost var body := Available();
      for i := 0 to size
        invariant Valid()
        invariant if i == 0 then link.Linked? ==> Out() == old(Out()) else Flushed()
        invariant DecodeItems(t, i, body) == Parsed(val, Available())
      {
        var v := Get(t);
        if v.None? {
          DecodeItemsStarved(t, i + 1, size, body);
          return None;
        }
        val := val + [v.value];
      }
      return Some(val);
    }
  }

  // A buffer whose first bytes were replaced.
  function Overwritten(b: seq<Byte>, front: seq<Byte>): (r: seq<Byte>)
    requires |front| <= |b|
    ensures |r| == |b|
  {
    front + b[|front|..]
  }

  // The buffer of a connection when the stream ends during a read that found nothing unread.
  lemma FilledWithZeros(size: nat, front: seq<Byte>)
    requires |front| <= size
    ensures Overwritten(Resized([], size), front) == front + Zeros(size - |front|)
  {
    assert Resized([], size) == Zeros(size);
    assert Zeros(size)[|front|..] == Zeros(size - |front|);
  }

  // The public `read` of a raw connection ahead of extractions: the buffer of 8 bytes serves 4, and the
  // next 8 fail and lose the other 4, however much the peer delivers.
  method ReadAheadBreaksExtraction(c: StackRequest) returns (first: Option<seq<Byte>>, second: Option<seq<Byte>>)
    requires c.Valid() && c.link.Linked? && |c.link.socket.incoming| >= 16
    modifies c, c.Objects()
    ensures first == Some(old(c.link.socket.incoming)[..4]) && second == None
    ensures c.extracted == 0 && c.data + c.link.socket.incoming == old(c.link.socket.incoming)[8..]
  {
    ghost var stream := c.link.socket.incoming;
    var ok := c.ReadWithoutSize(8);
    assert c.Unread() == stream[..8] && c.link.socket.incoming == stream[8..];
    first := c.ExtractData(4);
    assert stream[..8][..4] == stream[..4] && c.Unread() == stream[..8][4..];
    second := c.ExtractData(8);
  }

  // After an extraction that failed because the stream ended, the next one of the same size returns the
  // end of the stream, filled up with zero bytes that were never sent.
  method EndOfFileBecomesZeros(c: StackRequest, size: nat)
    returns (first: Option<seq<Byte>>, second: Option<seq<Byte>>)
    requires c.Valid() && c.link.Linked? && |c.link.socket.incoming| < size
    modifies c, c.Objects()
    ensures first == None
    ensures second == Some(old(c.link.socket.incoming) + Zeros(size - |old(c.link.socket.incoming)|))
  {
    ghost var stream := c.link.socket.incoming;
    assert c.Unread() == [];
    first := c.ExtractData(size);
    FilledWithZeros(size, stream);
    assert c.Unread() == c.data == stream + Zeros(size - |stream|);
    assert c.data[..size] == c.data;
    second := c.ExtractData(size);
  }

  lemma {:induction false} DecodeItemsStarved(t: WireType, i: nat, count: nat, b: seq<Byte>)
    requires i <= count && DecodeItems(t, i, b).Starved?
    ensures DecodeItems(t, count, b) == DecodeItems(t, i, b)
    decreases count
  {
    if i == count {
    } else {
      DecodeItemsStarved(t, i, count - 1, b);
    }
  }
}
