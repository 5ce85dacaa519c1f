/** The wire format of `response <<` and `request >>`: scalars, strings and arbitrarily
    nested vectors.  This module is the value-level meaning of the streams; the methods in
    `Streams` are proved to compute it. */
module Wire {
  import opened LittleEndian

  // The C++ scalar types with a stream operator (floating point left out).
  datatype Scalar =
    | Bool | Char | UChar
    | Short | UShort | Int | UInt | Long | ULong | LongLong | ULongLong

  predicate Signed(k: Scalar) {
    k.Char? || k.Short? || k.Int? || k.Long? || k.LongLong?
  }

  predicate Narrow(k: Scalar) {
    k.Bool? || k.Char? || k.UChar?
  }

  // sizeof of the type, which is what the reader extracts.
  function ReadWidth(k: Scalar): nat {
    if Narrow(k) then 1
    else if k.Short? || k.UShort? then 2
    else if k.Int? || k.UInt? then 4
    else 8
  }

  // `response` has no overload for `char` and `unsigned char`, and `bool` forwards to
  // `unsigned char`: overload resolution promotes all three to `int`.
  function WriteWidth(k: Scalar): nat {
    if Narrow(k) then 4 else ReadWidth(k)
  }

  predicate InRange(k: Scalar, n: int) {
    var m := Pow256(ReadWidth(k));
    if k.Bool? then 0 <= n <= 1
    else if Signed(k) then -(m / 2) <= n < m / 2
    else 0 <= n < m
  }

  datatype Value = Num(kind: Scalar, n: int) | Str(chars: seq<Byte>) | Vec(items: seq<Value>)

  datatype WireType = TNum(kind: Scalar) | TStr | TVec(element: WireType)

  predicate HasType(t: WireType, v: Value)
    decreases v, 0
  {
    match v
    case Num(k, n) => t == TNum(k) && InRange(k, n)
    case Str(_) => t == TStr
    case Vec(items) => t.TVec? && AllHaveType(t.element, items)
  }

  predicate AllHaveType(t: WireType, vs: seq<Value>)
    decreases vs, 0
  {
    vs == [] || (AllHaveType(t, vs[..|vs| - 1]) && HasType(t, vs[|vs| - 1]))
  }

  // ------------------------------------------------------------ writing

  // Two's complement at the width the writer uses.
  function WriteScalar(k: Scalar, n: int): (b: seq<Byte>)
    ensures |b| == WriteWidth(k)
  {
    ToLittle(n % Pow256(WriteWidth(k)), WriteWidth(k))
  }

  // Also what `const unsigned int size = val.size()` and `<< size` do with a longer length.
  function WriteUInt(n: nat): (b: seq<Byte>)
    ensures |b| == 4
  {
    WriteScalar(UInt, n)
  }

  // A string of 2^32 characters or more makes numeric_cast throw; an oversized vector does not.
  predicate Accepted(v: Value)
    decreases v, 0
  {
    match v
    case Num(_, _) => true
    case Str(s) => |s| < UINT_VALUES
    case Vec(items) => AllAccepted(items)
  }

  predicate AllAccepted(vs: seq<Value>)
    decreases vs, 0
  {
    vs == [] || (AllAccepted(vs[..|vs| - 1]) && Accepted(vs[|vs| - 1]))
  }

  // The bytes `<<` appends, up to the point where it throws if it does.
  function Emit(v: Value): seq<Byte>
    decreases v, 0
  {
    match v
    case Num(k, n) => WriteScalar(k, n)
    case Str(s) => if |s| < UINT_VALUES then WriteUInt(|s|) + s else []
    case Vec(items) => WriteUInt(|items|) + EmitItems(items)
  }

  function EmitItems(vs: seq<Value>): seq<Byte>
    decreases vs, 0
  {
    if vs == [] then [] else
    var init := vs[..|vs| - 1];
    if AllAccepted(init) then EmitItems(init) + Emit(vs[|vs| - 1]) else EmitItems(init)
  }

  // ------------------------------------------------------------ reading

  // The result of reading: the value and the bytes left, or the bytes that were left
  // when an extraction asked for more than there are.
  datatype Parse<+T> = Parsed(value: T, rest: seq<Byte>) | Starved(rest: seq<Byte>)

  function Extract(b: seq<Byte>, size: nat): Parse<seq<Byte>> {
    if |b| < size then Starved(b) else Parsed(b[..size], b[size..])
  }

  function ReadScalar(k: Scalar, b: seq<Byte>): int
    requires |b| == ReadWidth(k)
  {
    var u := FromLittle(b);
    if k.Bool? then (if u != 0 then 1 else 0)
    else if Signed(k) && Pow256(|b|) / 2 <= u then u - Pow256(|b|)
    else u
  }

  function DecodeUInt(b: seq<Byte>): Parse<nat> {
    match Extract(b, 4)
    case Starved(rest) => Starved(rest)
    case Parsed(h, rest) => Parsed(FromLittle(h), rest)
  }

  function Decode(t: WireType, b: seq<Byte>): Parse<Value>
    decreases t, 0
  {
    match t
    case TNum(k) =>
      (match Extract(b, ReadWidth(k))
       case Starved(rest) => Starved(rest)
       case Parsed(h, rest) => Parsed(Num(k, ReadScalar(k, h)), rest))
    case TStr =>
      (match DecodeUInt(b)
       case Starved(rest) => Starved(rest)
       case Parsed(size, body) =>
         match Extract(body, size)
         case Starved(rest) => Starved(rest)
         case Parsed(s, rest) => Parsed(Str(s), rest))
    case TVec(e) =>
      (match DecodeUInt(b)
       case Starved(rest) => Starved(rest)
       case Parsed(size, body) =>
         match DecodeItems(e, size, body)
         case Starved(rest) => Starved(rest)
         case Parsed(items, rest) => Parsed(Vec(items), rest))
  }

  function DecodeItems(t: WireType, count: nat, b: seq<Byte>): Parse<seq<Value>>
    decreases t, 1, count
  {
    if count == 0 then Parsed([], b) else
    match DecodeItems(t, count - 1, b)
    case Starved(rest) => Starved(rest)
    case Parsed(init, mid) =>
      match Decode(t, mid)
      case Starved(rest) => Starved(rest)
      case Parsed(last, rest) => Parsed(init + [last], rest)
  }

  // ------------------------------------------------------------ when reading undoes writing

  // Every string and vector length fits the 32-bit length prefix.
  predicate Bounded(v: Value)
    decreases v, 0
  {
    match v
    case Num(_, _) => true
    case Str(s) => |s| < UINT_VALUES
    case Vec(items) => |items| < UINT_VALUES && AllBounded(items)
  }

  predicate AllBounded(vs: seq<Value>)
    decreases vs, 0
  {
    vs == [] || (AllBounded(vs[..|vs| - 1]) && Bounded(vs[|vs| - 1]))
  }

  function NarrowLeaves(v: Value): nat
    decreases v, 0
  {
    match v
    case Num(k, _) => if Narrow(k) then 1 else 0
    case Str(_) => 0
    case Vec(items) => NarrowLeavesOf(items)
  }

  function NarrowLeavesOf(vs: seq<Value>): nat
    decreases vs, 0
  {
    if vs == [] then 0 else NarrowLeavesOf(vs[..|vs| - 1]) + NarrowLeaves(vs[|vs| - 1])
  }

  // Bytes the reader consumes for a value.
  function ReadSize(v: Value): nat
    decreases v, 0
  {
    match v
    case Num(k, _) => ReadWidth(k)
    case Str(s) => 4 + |s|
    case Vec(items) => 4 + ReadSizeOf(items)
  }

  function ReadSizeOf(vs: seq<Value>): nat
    decreases vs, 0
  {
    if vs == [] then 0 else ReadSizeOf(vs[..|vs| - 1]) + ReadSize(vs[|vs| - 1])
  }

  // Values that survive the wire.
  predicate Faithful(v: Value) {
    Bounded(v) && NarrowLeaves(v) == 0
  }

  lemma EvenPow256(w: nat)
    requires w > 0
    ensures Pow256(w) % 2 == 0
  {
  }

  lemma TwosComplement(n: int, m: int)
    requires 0 < m && -m <= n < m
    ensures n % m == if n < 0 then n + m else n
  {
  }

  lemma ScalarRoundTrip(k: Scalar, n: int)
    requires InRange(k, n) && !Narrow(k)
    ensures ReadScalar(k, WriteScalar(k, n)) == n
  {
    var w := ReadWidth(k);
    var m := Pow256(w);
    EvenPow256(w);
    TwosComplement(n, m);
    LittleRoundTrip(n % m, w);
    assert FromLittle(WriteScalar(k, n)) == n % m;
  }

  lemma ScalarCanonical(k: Scalar, b: seq<Byte>)
    requires |b| == ReadWidth(k)
    ensures InRange(k, ReadScalar(k, b))
    ensures !Narrow(k) ==> WriteScalar(k, ReadScalar(k, b)) == b
  {
    var m := Pow256(|b|);
    EvenPow256(|b|);
    if k.Bool? {
      assert Pow256(1) == 256;
    } else {
      var n := ReadScalar(k, b);
      TwosComplement(n, m);
      assert n % m == FromLittle(b);
      LittleCanonical(b);
    }
  }

  lemma ExtractConcat(head: seq<Byte>, rest: seq<Byte>)
    ensures Extract(head + rest, |head|) == Parsed(head, rest)
  {
    assert (head + rest)[..|head|] == head && (head + rest)[|head|..] == rest;
  }

  lemma UIntValue(n: nat)
    ensures FromLittle(WriteUInt(n)) == n % UINT_VALUES
    ensures n < UINT_VALUES ==> FromLittle(WriteUInt(n)) == n
  {
    Pow256Values();
    LittleRoundTrip(n % UINT_VALUES, 4);
  }

  lemma UIntRoundTrip(n: nat, rest: seq<Byte>)
    requires n < UINT_VALUES
    ensures DecodeUInt(WriteUInt(n) + rest) == Parsed(n, rest)
  {
    UIntValue(n);
    ExtractConcat(WriteUInt(n), rest);
  }

  lemma UIntCanonical(b: seq<Byte>)
    requires DecodeUInt(b).Parsed?
    ensures var p := DecodeUInt(b); p.value < UINT_VALUES && b == WriteUInt(p.value) + p.rest
  {
    Pow256Values();
    LittleCanonical(b[..4]);
    assert b == b[..4] + b[4..];
  }

  lemma DecodeNum(k: Scalar, n: int, rest: seq<Byte>)
    requires InRange(k, n) && !Narrow(k)
    ensures Decode(TNum(k), Emit(Num(k, n)) + rest) == Parsed(Num(k, n), rest)
  {
    ScalarRoundTrip(k, n);
    ExtractConcat(Emit(Num(k, n)), rest);
  }

  lemma DecodeStr(s: seq<Byte>, rest: seq<Byte>)
    requires |s| < UINT_VALUES
    ensures Decode(TStr, Emit(Str(s)) + rest) == Parsed(Str(s), rest)
  {
    UIntRoundTrip(|s|, s + rest);
    assert Emit(Str(s)) + rest == WriteUInt(|s|) + (s + rest);
    ExtractConcat(s, rest);
  }

  lemma DecodeVecAt(t: WireType, b: seq<Byte>)
    requires DecodeUInt(b).Parsed?
    requires DecodeItems(t, DecodeUInt(b).value, DecodeUInt(b).rest).Parsed?
    ensures var p := DecodeItems(t, DecodeUInt(b).value, DecodeUInt(b).rest);
            Decode(TVec(t), b) == Parsed(Vec(p.value), p.rest)
  {
  }

  // A vector reads back if its items do.
  lemma DecodeVec(t: WireType, items: seq<Value>, body: seq<Byte>, rest: seq<Byte>)
    requires |items| < UINT_VALUES
    requires DecodeItems(t, |items|, body + rest) == Parsed(items, rest)
    ensures Decode(TVec(t), WriteUInt(|items|) + body + rest) == Parsed(Vec(items), rest)
  {
    var b := WriteUInt(|items|) + body + rest;
    assert b == WriteUInt(|items|) + (body + rest);
    UIntRoundTrip(|items|, body + rest);
    assert DecodeUInt(b) == Parsed(|items|, body + rest);
    DecodeVecAt(t, b);
  }

  lemma EmitSnoc(init: seq<Value>, last: Value)
    ensures EmitItems(init + [last]) == if AllAccepted(init) then EmitItems(init) + Emit(last) else EmitItems(init)
  {
    assert (init + [last])[..|init|] == init;
  }

  // Reading back what was written.
  lemma {:induction false} DecodeEmit(t: WireType, v: Value, rest: seq<Byte>)
    requires HasType(t, v) && Faithful(v)
    ensures Accepted(v) && Decode(t, Emit(v) + rest) == Parsed(v, rest)
    decreases v, 1
  {
    match v
    case Num(k, n) => DecodeNum(k, n, rest);
    case Str(s) => DecodeStr(s, rest);
    case Vec(items) =>
      DecodeEmitItems(t.element, items, rest);
      DecodeVec(t.element, items, EmitItems(items), rest);
  }

  lemma {:induction false} DecodeEmitItems(t: WireType, vs: seq<Value>, rest: seq<Byte>)
    requires AllHaveType(t, vs) && AllBounded(vs) && NarrowLeavesOf(vs) == 0
    ensures AllAccepted(vs) && DecodeItems(t, |vs|, EmitItems(vs) + rest) == Parsed(vs, rest)
    decreases vs, 0
  {
    if vs == [] {
      assert EmitItems(vs) + rest == rest;
    } else {
      var n := |vs| - 1;
      DecodeEmit(t, vs[n], rest);
      DecodeEmitItems(t, vs[..n], Emit(vs[n]) + rest);
      DecodeItemsStep(t, vs[..n], vs[n], rest);
      SplitLast(vs);
    }
  }

  lemma DecodeItemsStep(t: WireType, init: seq<Value>, last: Value, rest: seq<Byte>)
    requires AllAccepted(init)
    requires DecodeItems(t, |init|, EmitItems(init) + (Emit(last) + rest)) == Parsed(init, Emit(last) + rest)
    requires Decode(t, Emit(last) + rest) == Parsed(last, rest)
    ensures DecodeItems(t, |init| + 1, EmitItems(init + [last]) + rest) == Parsed(init + [last], rest)
  {
    EmitSnoc(init, last);
    ConcatAssociates(EmitItems(init), Emit(last), rest);
  }

  lemma SplitLast<T>(s: seq<T>)
    requires s != []
    ensures s == s[..|s| - 1] + [s[|s| - 1]]
  {
  }

  lemma ConcatAssociates(a: seq<Byte>, b: seq<Byte>, c: seq<Byte>)
    ensures a + (b + c) == a + b + c
  {
  }

  lemma StrSound(b: seq<Byte>)
    requires Decode(TStr, b).Parsed?
    ensures var p := Decode(TStr, b);
            p.value.Str? && |p.value.chars| < UINT_VALUES && b == Emit(p.value) + p.rest
  {
    UIntCanonical(b);
    var header := DecodeUInt(b);
    var s, rest := header.rest[..header.value], header.rest[header.value..];
    assert header.rest == s + rest;
    ConcatAssociates(WriteUInt(|s|), s, rest);
  }

  // What any successful read yields: a well-typed bounded value and an exact consumption; and,
  // unless a narrow scalar was read, the bytes read are the encoding of the value.
  lemma {:induction false} DecodeSound(t: WireType, b: seq<Byte>)
    requires Decode(t, b).Parsed?
    ensures var p := Decode(t, b);
            && HasType(t, p.value) && Bounded(p.value) && Accepted(p.value)
            && |b| == ReadSize(p.value) + |p.rest|
            && (NarrowLeaves(p.value) == 0 ==> b == Emit(p.value) + p.rest)
    decreases t, 0
  {
    match t
    case TNum(k) =>
      ScalarCanonical(k, b[..ReadWidth(k)]);
      assert b == b[..ReadWidth(k)] + b[ReadWidth(k)..];
    case TStr =>
      StrSound(b);
    case TVec(e) =>
      UIntCanonical(b);
      var header := DecodeUInt(b);
      DecodeItemsSound(e, header.value, header.rest);
      var p := DecodeItems(e, header.value, header.rest);
      ConcatAssociates(WriteUInt(|p.value|), EmitItems(p.value), p.rest);
  }

  lemma {:induction false} DecodeItemsSound(t: WireType, count: nat, b: seq<Byte>)
    requires DecodeItems(t, count, b).Parsed?
    ensures var p := DecodeItems(t, count, b);
            && |p.value| == count
            && AllHaveType(t, p.value) && AllBounded(p.value) && AllAccepted(p.value)
            && |b| == ReadSizeOf(p.value) + |p.rest|
            && (NarrowLeavesOf(p.value) == 0 ==> b == EmitItems(p.value) + p.rest)
    decreases t, 1, count
  {
    if count == 0 {
    } else {
      DecodeItemsSound(t, count - 1, b);
      var q := DecodeItems(t, count - 1, b);
      DecodeSound(t, q.rest);
      var last := Decode(t, q.rest);
      SnocFacts(t, q.value, last.value);
      ConcatAssociates(EmitItems(q.value), Emit(last.value), last.rest);
    }
  }

  // What holds of a list of values with one more at the end.
  lemma SnocFacts(t: WireType, init: seq<Value>, last: Value)
    requires AllHaveType(t, init) && AllBounded(init) && AllAccepted(init)
    requires HasType(t, last) && Bounded(last) && Accepted(last)
    ensures var vs := init + [last];
            && AllHaveType(t, vs) && AllBounded(vs) && AllAccepted(vs)
            && ReadSizeOf(vs) == ReadSizeOf(init) + ReadSize(last)
            && NarrowLeavesOf(vs) == NarrowLeavesOf(init) + NarrowLeaves(last)
            && EmitItems(vs) == EmitItems(init) + Emit(last)
  {
    assert (init + [last])[..|init|] == init;
  }

  // Every narrow scalar costs the writer three bytes more than the reader takes.
  lemma {:induction false} EmitLength(v: Value)
    requires Accepted(v)
    ensures |Emit(v)| == ReadSize(v) + 3 * NarrowLeaves(v)
    decreases v, 1
  {
    if v.Vec? {
      EmitItemsLength(v.items);
    }
  }

  lemma {:induction false} EmitItemsLength(vs: seq<Value>)
    requires AllAccepted(vs)
    ensures |EmitItems(vs)| == ReadSizeOf(vs) + 3 * NarrowLeavesOf(vs)
    decreases vs, 0
  {
    if vs == [] {
    } else {
      EmitLength(vs[|vs| - 1]);
      EmitItemsLength(vs[..|vs| - 1]);
    }
  }

  // The central law, with its exact condition: over all types, all values and all following
  // bytes, writing succeeds and reading restores the value and leaves what follows exactly
  // when every length fits 32 bits and no `bool`, `char` or `unsigned char` is inside.
  lemma RoundTripExactly(t: WireType, v: Value, rest: seq<Byte>)
    requires HasType(t, v)
    ensures Accepted(v) && Decode(t, Emit(v) + rest) == Parsed(v, rest) <==> Faithful(v)
  {
    if Faithful(v) {
      DecodeEmit(t, v, rest);
    } else if Accepted(v) && Decode(t, Emit(v) + rest) == Parsed(v, rest) {
      DecodeSound(t, Emit(v) + rest);
      EmitLength(v);
    }
  }

  // Types without a narrow scalar inside.
  predicate Wide(t: WireType) {
    match t
    case TNum(k) => !Narrow(k)
    case TStr => true
    case TVec(e) => Wide(e)
  }

  lemma {:induction false} WideValue(t: WireType, v: Value)
    requires HasType(t, v) && Wide(t)
    ensures NarrowLeaves(v) == 0
    decreases v, 1
  {
    if v.Vec? {
      WideValues(t.element, v.items);
    }
  }

  lemma {:induction false} WideValues(t: WireType, vs: seq<Value>)
    requires AllHaveType(t, vs) && Wide(t)
    ensures NarrowLeavesOf(vs) == 0
    decreases vs, 0
  {
    if vs == [] {
    } else {
      WideValue(t, vs[|vs| - 1]);
      WideValues(t, vs[..|vs| - 1]);
    }
  }

  // A small value of the type.
  function Sample(t: WireType): Value {
    match t
    case TNum(k) => Num(k, 0)
    case TStr => Str([])
    case TVec(e) => Vec([Sample(e)])
  }

  lemma {:induction false} SampleFits(t: WireType)
    ensures HasType(t, Sample(t)) && Bounded(Sample(t))
    ensures !Wide(t) ==> NarrowLeaves(Sample(t)) > 0
  {
    match t
    case TNum(k) => EvenPow256(ReadWidth(k));
    case TStr =>
    case TVec(e) =>
      SampleFits(e);
      var one := [Sample(e)];
      assert one[..0] == [];
      assert AllHaveType(e, one) && AllBounded(one);
      assert NarrowLeavesOf(one) == NarrowLeaves(Sample(e));
  }

  // The same law for types: all values with 32-bit lengths survive exactly for the types built from
  // integers of 2, 4 and 8 bytes, strings and vectors.
  lemma WideTypesRoundTrip(t: WireType)
    ensures (forall v, rest | HasType(t, v) && Bounded(v) :: Decode(t, Emit(v) + rest) == Parsed(v, rest)) <==> Wide(t)
  {
    if Wide(t) {
      forall v, rest | HasType(t, v) && Bounded(v) ensures Decode(t, Emit(v) + rest) == Parsed(v, rest) {
        WideValue(t, v);
        DecodeEmit(t, v, rest);
      }
    } else {
      SampleFits(t);
      BoundedIsAccepted(Sample(t));
      RoundTripExactly(t, Sample(t), []);
    }
  }

  lemma {:induction false} BoundedIsAccepted(v: Value)
    requires Bounded(v)
    ensures Accepted(v)
    decreases v, 1
  {
    if v.Vec? {
      AllBoundedAreAccepted(v.items);
    }
  }

  lemma {:induction false} AllBoundedAreAccepted(vs: seq<Value>)
    requires AllBounded(vs)
    ensures AllAccepted(vs)
    decreases vs, 0
  {
    if vs == [] {
    } else {
      BoundedIsAccepted(vs[|vs| - 1]);
      AllBoundedAreAccepted(vs[..|vs| - 1]);
    }
  }

  lemma SplitEqual(a: seq<Byte>, b: seq<Byte>, c: seq<Byte>, d: seq<Byte>)
    requires a + b == c + d && |a| == |c|
    ensures a == c && b == d
  {
    assert a == (a + b)[..|a|] && c == (c + d)[..|c|];
    assert b == (a + b)[|a|..] && d == (c + d)[|c|..];
  }

  lemma WriteScalarInjective(k: Scalar, m: int, n: int)
    requires InRange(k, m) && InRange(k, n) && WriteScalar(k, m) == WriteScalar(k, n)
    ensures m == n
  {
    if Narrow(k) {
      NarrowBytes(k, m);
      NarrowBytes(k, n);
      NarrowRead(k, m);
      NarrowRead(k, n);
    } else {
      ScalarRoundTrip(k, m);
      ScalarRoundTrip(k, n);
    }
  }

  // Two bodies behind their length prefixes, followed by anything.
  lemma SamePrefix(m: nat, n: nat, a: seq<Byte>, b: seq<Byte>, r: seq<Byte>, q: seq<Byte>)
    requires m < UINT_VALUES && n < UINT_VALUES
    requires WriteUInt(m) + a + r == WriteUInt(n) + b + q
    ensures m == n && a + r == b + q
  {
    ConcatAssociates(WriteUInt(m), a, r);
    ConcatAssociates(WriteUInt(n), b, q);
    SplitEqual(WriteUInt(m), a + r, WriteUInt(n), b + q);
    UIntValue(m);
    UIntValue(n);
  }

  // What was written says where it ends: two values of one type whose encodings, each followed by
  // anything, are the same bytes, are the same value followed by the same.
  lemma {:induction false} EmitInjective(t: WireType, v: Value, w: Value, r: seq<Byte>, q: seq<Byte>)
    requires HasType(t, v) && HasType(t, w) && Bounded(v) && Bounded(w)
    requires Emit(v) + r == Emit(w) + q
    ensures v == w && r == q
    decreases v, 1
  {
    match t
    case TNum(k) =>
      SplitEqual(Emit(v), r, Emit(w), q);
      WriteScalarInjective(k, v.n, w.n);
    case TStr =>
      SamePrefix(|v.chars|, |w.chars|, v.chars, w.chars, r, q);
      SplitEqual(v.chars, r, w.chars, q);
    case TVec(e) =>
      SamePrefix(|v.items|, |w.items|, EmitItems(v.items), EmitItems(w.items), r, q);
      EmitItemsInjective(e, v.items, w.items, r, q);
  }

  lemma {:induction false} EmitItemsInjective(
      t: WireType, vs: seq<Value>, ws: seq<Value>, r: seq<Byte>, q: seq<Byte>)
    requires AllHaveType(t, vs) && AllHaveType(t, ws) && AllBounded(vs) && AllBounded(ws) && |vs| == |ws|
    requires EmitItems(vs) + r == EmitItems(ws) + q
    ensures vs == ws && r == q
    decreases vs, 0
  {
    if vs == [] {
      assert [] + r == r && [] + q == q;
    } else {
      var n := |vs| - 1;
      EmitLast(vs, r);
      EmitLast(ws, q);
      EmitItemsInjective(t, vs[..n], ws[..n], Emit(vs[n]) + r, Emit(ws[n]) + q);
      EmitInjective(t, vs[n], ws[n], r, q);
      SplitLast(vs);
      SplitLast(ws);
    }
  }

  lemma EmitLast(vs: seq<Value>, rest: seq<Byte>)
    requires vs != [] && AllBounded(vs)
    ensures var n := |vs| - 1; EmitItems(vs) + rest == EmitItems(vs[..n]) + (Emit(vs[n]) + rest)
  {
    var n := |vs| - 1;
    AllBoundedAreAccepted(vs[..n]);
    ConcatAssociates(EmitItems(vs[..n]), Emit(vs[n]), rest);
  }

  // Encodings of one type are prefix-free, narrow scalars included ...
  lemma PrefixFree(t: WireType, v: Value, w: Value)
    requires HasType(t, v) && HasType(t, w) && Bounded(v) && Bounded(w)
    requires Emit(v) <= Emit(w)
    ensures v == w
  {
    var rest := Emit(w)[|Emit(v)|..];
    assert Emit(v) + rest == Emit(w) + [] == Emit(w);
    EmitInjective(t, v, w, rest, []);
  }

  // ... up to the lengths that fit the prefix: a vector of 2^32 items begins like an empty one.
  lemma OversizedVectorCollides(items: seq<Value>)
    requires |items| == UINT_VALUES
    ensures Emit(Vec([])) <= Emit(Vec(items)) && Vec([]) != Vec(items)
  {
    Pow256Values();
    assert WriteUInt(|items|) == WriteUInt(0);
    assert Emit(Vec([])) == WriteUInt(0);
  }

  // ------------------------------------------------------------ heterogeneous sequences

  function DecodeAll(ts: seq<WireType>, b: seq<Byte>): Parse<seq<Value>> {
    if ts == [] then Parsed([], b) else
    match DecodeAll(ts[..|ts| - 1], b)
    case Starved(rest) => Starved(rest)
    case Parsed(init, mid) =>
      match Decode(ts[|ts| - 1], mid)
      case Starved(rest) => Starved(rest)
      case Parsed(last, rest) => Parsed(init + [last], rest)
  }

  lemma DecodeAllSnoc(ts: seq<WireType>, t: WireType, b: seq<Byte>)
    ensures var p, q := DecodeAll(ts, b), DecodeAll(ts + [t], b);
            if p.Starved? then q == p
            else match Decode(t, p.rest)
                 case Starved(rest) => q == Starved(rest)
                 case Parsed(v, rest) => q == Parsed(p.value + [v], rest)
  {
    assert (ts + [t])[..|ts|] == ts;
  }

  predicate HaveTypes(ts: seq<WireType>, vs: seq<Value>) {
    |ts| == |vs| && (vs == [] || var n := |vs| - 1; HaveTypes(ts[..n], vs[..n]) && HasType(ts[n], vs[n]))
  }

  lemma SequenceStep(ts: seq<WireType>, init: seq<Value>, t: WireType, last: Value, rest: seq<Byte>)
    requires AllAccepted(init)
    requires DecodeAll(ts, EmitItems(init) + (Emit(last) + rest)) == Parsed(init, Emit(last) + rest)
    requires Decode(t, Emit(last) + rest) == Parsed(last, rest)
    ensures DecodeAll(ts + [t], EmitItems(init + [last]) + rest) == Parsed(init + [last], rest)
  {
    EmitSnoc(init, last);
    ConcatAssociates(EmitItems(init), Emit(last), rest);
    DecodeAllSnoc(ts, t, EmitItems(init) + (Emit(last) + rest));
  }

  // Bounded values of any types without narrow scalars, written one after the other, read back in turn.
  lemma {:induction false} SequenceRoundTrip(ts: seq<WireType>, vs: seq<Value>, rest: seq<Byte>)
    requires HaveTypes(ts, vs) && AllBounded(vs) && NarrowLeavesOf(vs) == 0
    ensures DecodeAll(ts, EmitItems(vs) + rest) == Parsed(vs, rest)
    decreases |vs|
  {
    if vs == [] {
      assert EmitItems(vs) + rest == rest;
    } else {
      var n := |vs| - 1;
      DecodeEmit(ts[n], vs[n], rest);
      SequenceRoundTrip(ts[..n], vs[..n], Emit(vs[n]) + rest);
      AllBoundedAreAccepted(vs[..n]);
      SequenceStep(ts[..n], vs[..n], ts[n], vs[n], rest);
      SplitLast(vs);
      SplitLast(ts);
    }
  }

  lemma BoundedSnoc(init: seq<Value>, last: Value)
    requires AllBounded(init) && Bounded(last)
    ensures AllBounded(init + [last]) && ReadSizeOf(init + [last]) == ReadSizeOf(init) + ReadSize(last)
  {
    assert (init + [last])[..|init|] == init;
  }

  lemma {:induction false} DecodeAllSound(ts: seq<WireType>, b: seq<Byte>)
    requires DecodeAll(ts, b).Parsed?
    ensures var p := DecodeAll(ts, b);
            AllBounded(p.value) && |b| == ReadSizeOf(p.value) + |p.rest|
  {
    if ts == [] {
      assert DecodeAll(ts, b) == Parsed([], b);
    } else {
      var n := |ts| - 1;
      DecodeAllSound(ts[..n], b);
      var init := DecodeAll(ts[..n], b);
      DecodeSound(ts[n], init.rest);
      BoundedSnoc(init.value, Decode(ts[n], init.rest).value);
    }
  }

  // The central law for sequences: values of any types, written one after the other, read back in turn
  // and leave what follows exactly when every length fits and nothing narrow is inside any of them.
  lemma SequenceRoundTripExactly(ts: seq<WireType>, vs: seq<Value>, rest: seq<Byte>)
    requires HaveTypes(ts, vs)
    ensures AllAccepted(vs) && DecodeAll(ts, EmitItems(vs) + rest) == Parsed(vs, rest)
       <==> AllBounded(vs) && NarrowLeavesOf(vs) == 0
  {
    if AllBounded(vs) && NarrowLeavesOf(vs) == 0 {
      SequenceRoundTrip(ts, vs, rest);
      AllBoundedAreAccepted(vs);
    } else if AllAccepted(vs) && DecodeAll(ts, EmitItems(vs) + rest) == Parsed(vs, rest) {
      DecodeAllSound(ts, EmitItems(vs) + rest);
      EmitItemsLength(vs);
    }
  }

  // ------------------------------------------------------------ narrow scalars

  // The byte that fills the three extra positions of a promoted narrow scalar.
  function Extension(n: int): Byte {
    if n < 0 then 255 else 0
  }

  lemma NarrowRange(k: Scalar, n: int)
    requires Narrow(k) && InRange(k, n)
    ensures if k.Char? then -128 <= n < 128 else 0 <= n < 256
    ensures k.Bool? ==> n <= 1
  {
    assert Pow256(1) == 256;
  }

  lemma NarrowBytes(k: Scalar, n: int)
    requires Narrow(k) && InRange(k, n)
    ensures var e := Extension(n); WriteScalar(k, n) == [n % 256, e, e, e]
  {
    Pow256Values();
    NarrowRange(k, n);
    SmallUInt(n);
    FourBytes(n % UINT_VALUES);
  }

  lemma NarrowRead(k: Scalar, n: int)
    requires Narrow(k) && InRange(k, n)
    ensures ReadScalar(k, [n % 256]) == n
  {
    NarrowRange(k, n);
    TwosComplement(n, 256);
    assert FromLittle([n % 256]) == n % 256;
    assert Pow256(1) == 256;
  }

  lemma SmallUInt(n: int)
    requires -256 <= n < 256
    ensures var u, e := n % UINT_VALUES, Extension(n);
            u % 256 == n % 256 && u / 256 % 256 == e && u / 0x1_0000 % 256 == e && u / 0x100_0000 == e
  {
    TwosComplement(n, UINT_VALUES);
    TwosComplement(n, 256);
  }

  lemma FourBytes(u: nat)
    requires u < UINT_VALUES
    ensures ToLittle(u, 4) == [u % 256, u / 256 % 256, u / 0x1_0000 % 256, u / 0x100_0000]
  {
    assert ToLittle(u / 0x100_0000, 1) == [u / 0x100_0000] + ToLittle(u / 0x100_0000 / 256, 0);
    assert ToLittle(u / 0x1_0000, 2) == [u / 0x1_0000 % 256] + ToLittle(u / 0x100_0000, 1);
    assert ToLittle(u / 256, 3) == [u / 256 % 256] + ToLittle(u / 0x1_0000, 2);
    assert ToLittle(u, 4) == [u % 256] + ToLittle(u / 256, 3);
  }

  // A lone narrow scalar reads back equal and leaves its three extension bytes unread.
  lemma NarrowReadBack(k: Scalar, n: int, rest: seq<Byte>)
    requires Narrow(k) && InRange(k, n)
    ensures var e := Extension(n);
            Decode(TNum(k), Emit(Num(k, n)) + rest) == Parsed(Num(k, n), [e, e, e] + rest)
  {
    NarrowBytes(k, n);
    NarrowRead(k, n);
    var e := Extension(n);
    var b := Emit(Num(k, n)) + rest;
    assert b[..1] == [n % 256] && b[1..] == [e, e, e] + rest;
  }

  function Nums(k: Scalar, ns: seq<int>): (vs: seq<Value>)
    ensures |vs| == |ns|
  {
    seq(|ns|, i requires 0 <= i < |ns| => Num(k, ns[i]))
  }

  // What a reader sees of a vector of narrow scalars: each element followed by its extension.
  function NarrowSeen(k: Scalar, ns: seq<int>, i: nat): int
    requires i < 4 * |ns|
  {
    if i % 4 == 0 then ns[i / 4]
    else if ns[i / 4] < 0 then -1 else 0
  }

  // The byte at position i of the encoded items.
  function NarrowByte(ns: seq<int>, i: nat): Byte
    requires i < 4 * |ns|
  {
    if i % 4 == 0 then ns[i / 4] % 256 else Extension(ns[i / 4])
  }

  lemma {:induction false} NarrowItemBytes(k: Scalar, ns: seq<int>, i: nat)
    requires Narrow(k) && (forall n <- ns :: InRange(k, n)) && i < 4 * |ns|
    ensures |EmitItems(Nums(k, ns))| == 4 * |ns|
    ensures EmitItems(Nums(k, ns))[i] == NarrowByte(ns, i)
  {
    var m := |ns| - 1;
    NumsSnoc(k, ns);
    NarrowBytes(k, ns[m]);
    if m == 0 {
    } else {
      NarrowItemBytes(k, ns[..m], if i < 4 * m then i else 0);
    }
  }

  lemma NumsSnoc(k: Scalar, ns: seq<int>)
    requires ns != []
    ensures var m := |ns| - 1; EmitItems(Nums(k, ns)) == EmitItems(Nums(k, ns[..m])) + WriteScalar(k, ns[m])
  {
    var m := |ns| - 1;
    assert Nums(k, ns) == Nums(k, ns[..m]) + [Num(k, ns[m])];
    EmitSnoc(Nums(k, ns[..m]), Num(k, ns[m]));
    NumsAccepted(k, ns[..m]);
  }

  lemma {:induction false} NumsAccepted(k: Scalar, ns: seq<int>)
    ensures AllAccepted(Nums(k, ns))
  {
    if ns == [] {
    } else {
      NumsAccepted(k, ns[..|ns| - 1]);
      assert Nums(k, ns)[..|ns| - 1] == Nums(k, ns[..|ns| - 1]);
    }
  }

  lemma NarrowByteSeen(k: Scalar, ns: seq<int>, i: nat)
    requires Narrow(k) && (forall n <- ns :: InRange(k, n)) && i < 4 * |ns|
    ensures ReadScalar(k, [NarrowByte(ns, i)]) == NarrowSeen(k, ns, i)
  {
    NarrowRead(k, ns[i / 4]);
    assert Pow256(1) == 256;
    assert FromLittle([255]) == 255 && FromLittle([0]) == 0;
  }

  // One narrow scalar from each of the first `count` bytes.
  function ByteNums(k: Scalar, count: nat, b: seq<Byte>): (vs: seq<Value>)
    requires Narrow(k) && count <= |b|
    ensures |vs| == count
  {
    seq(count, i requires 0 <= i < count => Num(k, ReadScalar(k, [b[i]])))
  }

  lemma {:induction false} DecodeByteNums(k: Scalar, count: nat, b: seq<Byte>)
    requires Narrow(k) && count <= |b|
    ensures DecodeItems(TNum(k), count, b) == Parsed(ByteNums(k, count, b), b[count..])
  {
    if count == 0 {
      assert b[count..] == b && ByteNums(k, count, b) == [];
    } else {
      DecodeByteNums(k, count - 1, b);
      var mid := b[count - 1..];
      assert mid[..1] == [b[count - 1]] && mid[1..] == b[count..];
      assert ByteNums(k, count, b) == ByteNums(k, count - 1, b) + [Num(k, ReadScalar(k, mid[..1]))];
      assert Decode(TNum(k), mid) == Parsed(Num(k, ReadScalar(k, mid[..1])), b[count..]);
    }
  }

  // A vector of n narrow scalars reads back as n elements taken from the first quarter of the
  // body, padding included, and leaves 3n bytes unread: element i is right exactly when 4 divides i
  // or padding and element coincide.
  lemma NarrowVectorReadBack(k: Scalar, ns: seq<int>, rest: seq<Byte>)
    requires Narrow(k) && (forall n <- ns :: InRange(k, n)) && |ns| < UINT_VALUES
    ensures var body := EmitItems(Nums(k, ns));
            && |body| == 4 * |ns|
            && Decode(TVec(TNum(k)), Emit(Vec(Nums(k, ns))) + rest)
               == Parsed(Vec(seq(|ns|, i requires 0 <= i < |ns| => Num(k, NarrowSeen(k, ns, i)))),
                         body[|ns|..] + rest)
  {
    var vs := Nums(k, ns);
    var body := EmitItems(vs);
    if ns != [] { NarrowItemBytes(k, ns, 0); }
    UIntRoundTrip(|vs|, body + rest);
    assert Emit(Vec(vs)) + rest == WriteUInt(|vs|) + (body + rest);
    DecodeByteNums(k, |ns|, body + rest);
    assert (body + rest)[|ns|..] == body[|ns|..] + rest;
    forall i | 0 <= i < |ns|
      ensures ReadScalar(k, [(body + rest)[i]]) == NarrowSeen(k, ns, i)
    {
      NarrowItemBytes(k, ns, i);
      NarrowByteSeen(k, ns, i);
    }
    assert ByteNums(k, |ns|, body + rest) == seq(|ns|, i requires 0 <= i < |ns| => Num(k, NarrowSeen(k, ns, i)));
  }
}
