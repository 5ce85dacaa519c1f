/** Length-prefixed frames: `write_with_size`, and the length check of their receivers. */
module Framing {
  import opened LittleEndian
  import opened Wire
  import opened WireFormat
  import opened Streams

  const HEADER_SIZE := 4 // sizeof(unsigned int)

  // The total length, header included, as an `unsigned int`.
  function Header(payload: seq<Byte>): (h: seq<Byte>)
    ensures |h| == HEADER_SIZE
  {
    WriteUInt(|payload| + HEADER_SIZE)
  }

  // The header in plain numbers.
  lemma HeaderBytes(payload: seq<Byte>)
    ensures var n := |payload| + 4;
            Header(payload) == [n % 256, n / 0x100 % 256, n / 0x1_0000 % 256, n / 0x100_0000 % 256]
    ensures MeantFrame(payload) == Header(payload) + payload
  {
    PrefixBytes(|payload| + 4);
  }

  function MeantFrame(payload: seq<Byte>): seq<Byte> {
    Header(payload) + payload
  }

  // What leaves the socket: the header sits behind the first four payload bytes, and the byte count
  // is an `unsigned int`.
  function SentFrame(payload: seq<Byte>): seq<Byte>
    requires |payload| >= HEADER_SIZE
  {
    var buffer := payload[..HEADER_SIZE] + Header(payload) + payload[HEADER_SIZE..];
    buffer[..|buffer| % UINT_VALUES]
  }

  // sync_connection::write_with_size.  With one to three bytes in the buffer the insertion point
  // lies behind the end of the buffer, which is undefined: the result is false.
  method WriteWithSize(socket: Socket, response: StackResponse) returns (inside: bool)
    modifies socket`sent, response
    ensures inside <==> old(response.data) == [] || |old(response.data)| >= HEADER_SIZE
    ensures inside ==> response.data == []
    ensures inside ==>
              socket.sent == old(socket.sent) + if old(response.data) == [] then [] else SentFrame(old(response.data))
    ensures !inside ==> socket.sent == old(socket.sent)
  {
    if |response.data| == 0 {
      return true;
    }
    ghost var payload := response.data;
    inside := response.PutData(WriteUInt(|response.data| + HEADER_SIZE), At(0));
    if !inside {
      return;
    }
    assert |response.data| == |payload| + HEADER_SIZE;
    WriteAll(socket, response.data[..|response.data| % UINT_VALUES]);
    response.Clear();
  }

  // As written, the frame is the meant one exactly when the payload fits and happens to start with
  // its own header.
  lemma SentFrameExactly(payload: seq<Byte>)
    requires |payload| >= HEADER_SIZE
    ensures SentFrame(payload) == MeantFrame(payload)
       <==> |payload| + HEADER_SIZE < UINT_VALUES && payload[..HEADER_SIZE] == Header(payload)
  {
    var h, first, others := Header(payload), payload[..HEADER_SIZE], payload[HEADER_SIZE..];
    var buffer := first + h + others;
    assert payload == first + others;
    if |buffer| < UINT_VALUES {
      assert SentFrame(payload) == buffer;
      assert buffer[..HEADER_SIZE] == first && MeantFrame(payload)[..HEADER_SIZE] == h;
      ConcatAssociates(h, first, others);
    } else {
      assert |SentFrame(payload)| < |MeantFrame(payload)|;
    }
  }

  // Four payload bytes leave as their own prefix, followed by the header.
  lemma SentFrameGarbled()
    ensures SentFrame([1, 2, 3, 4]) == [1, 2, 3, 4, 8, 0, 0, 0] != MeantFrame([1, 2, 3, 4])
  {
    Pow256Values();
    assert ToLittle(8, 4) == [8] + ToLittle(0, 3);
    assert ToLittle(0, 3) == [0] + ToLittle(0, 2);
    assert ToLittle(0, 2) == [0] + ToLittle(0, 1);
    assert Header([1, 2, 3, 4]) == [8, 0, 0, 0];
    var sent := SentFrame([1, 2, 3, 4]);
    assert sent == [1, 2, 3, 4, 8, 0, 0, 0];
    assert MeantFrame([1, 2, 3, 4])[0] == 8;
  }

  // ------------------------------------------------------------ the receiver

  datatype Receipt = TooShort | Mismatch(claimed: nat) | Delivered(payload: seq<Byte>)

  // `>> size` on a packet of `available` bytes, then the comparison of both.
  function CheckSize(packet: seq<Byte>): Receipt {
    match DecodeUInt(packet)
    case Starved(_) => TooShort
    case Parsed(size, rest) => if size == |packet| then Delivered(rest) else Mismatch(size)
  }

  lemma CheckHead(head: seq<Byte>, rest: seq<Byte>)
    requires |head| == HEADER_SIZE
    ensures CheckSize(head + rest) == if head == WriteUInt(|head + rest|) && |head + rest| < UINT_VALUES
                                      then Delivered(rest) else Mismatch(FromLittle(head))
  {
    ExtractConcat(head, rest);
    UIntCanonical(head + rest);
    UIntValue(|head + rest|);
    assert (head + rest)[..HEADER_SIZE] == head;
    assert WriteUInt(FromLittle(head)) == (WriteUInt(FromLittle(head)) + rest)[..HEADER_SIZE] == head;
  }

  // Had the header been inserted in front, every payload that fits would be delivered, and no other.
  lemma MeantFrameDelivered(payload: seq<Byte>)
    ensures CheckSize(MeantFrame(payload)) == Delivered(payload) <==> |payload| + HEADER_SIZE < UINT_VALUES
  {
    CheckHead(Header(payload), payload);
  }

  // As written, a receiver delivers anything exactly when the payload fits and starts with its own
  // header, and then it delivers the payload.
  lemma SentFrameDelivered(payload: seq<Byte>)
    requires |payload| >= HEADER_SIZE
    ensures CheckSize(SentFrame(payload)) == Delivered(payload)
       <==> |payload| + HEADER_SIZE < UINT_VALUES && payload[..HEADER_SIZE] == Header(payload)
    ensures |payload| + HEADER_SIZE < UINT_VALUES && payload[..HEADER_SIZE] != Header(payload) ==>
              CheckSize(SentFrame(payload)) == Mismatch(FromLittle(payload[..HEADER_SIZE]))
  {
    SentFrameExactly(payload);
    if |payload| + HEADER_SIZE < UINT_VALUES {
      var first := payload[..HEADER_SIZE];
      var rest := Header(payload) + payload[HEADER_SIZE..];
      assert SentFrame(payload) == first + rest;
      CheckHead(first, rest);
      MeantFrameDelivered(payload);
    } else {
      assert |SentFrame(payload)| < |payload|;
      if CheckSize(SentFrame(payload)).Delivered? {
        UIntCanonical(SentFrame(payload));
      }
    }
  }
}
