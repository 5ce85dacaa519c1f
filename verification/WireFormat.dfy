/** The wire format in plain numbers: the range of every C++ scalar, every byte that is written for it,
    and the layout of strings and vectors. */
module WireFormat {
  import opened LittleEndian
  import opened Wire

  lemma ModDiv(n: int, m: int)
    requires m > 0
    ensures n % (256 * m) / 256 == n / 256 % m && n % (256 * m) % 256 == n % 256
  {
    var q, r := n / (256 * m), n % (256 * m);
    var a, b := r / 256, r % 256;
    assert n == 256 * (q * m + a) + b by {
      assert n == q * (256 * m) + r;
    }
    assert n / 256 == q * m + a;
    assert 0 <= a < m;
    DivModUnique(n / 256, m, q, a);
  }

  lemma NoMultiple(d: int, m: int)
    requires -m < d * m < m
    ensures d == 0
  {
  }

  lemma DivModUnique(n: int, m: int, q: int, a: int)
    requires 0 <= a < m && n == q * m + a
    ensures n / m == q && n % m == a
  {
    assert n == n / m * m + n % m;
    assert (q - n / m) * m == n % m - a;
    NoMultiple(q - n / m, m);
  }

  // The first byte of a two's complement integer, and the rest of it.
  lemma FirstByte(n: int, w: nat)
    requires w > 0
    ensures ToLittle(n % Pow256(w), w) == [n % 256] + ToLittle(n / 256 % Pow256(w - 1), w - 1)
  {
    ModDiv(n, Pow256(w - 1));
  }

  lemma FirstTwo(n: int, w: nat)
    requires w > 1
    ensures ToLittle(n % Pow256(w), w)
         == [n % 256, n / 0x100 % 256] + ToLittle(n / 0x1_0000 % Pow256(w - 2), w - 2)
  {
    FirstByte(n, w);
    FirstByte(n / 256, w - 1);
    assert n / 256 / 256 == n / 0x1_0000;
  }

  lemma TwoBytes(n: int)
    ensures ToLittle(n % Pow256(2), 2) == [n % 256, n / 0x100 % 256]
  {
    FirstTwo(n, 2);
  }

  lemma FourBytes(n: int)
    ensures ToLittle(n % Pow256(4), 4)
         == [n % 256, n / 0x100 % 256, n / 0x1_0000 % 256, n / 0x100_0000 % 256]
  {
    FirstTwo(n, 4);
    TwoBytes(n / 0x1_0000);
    DivDiv(n, 0x1_0000);
  }

  lemma Regroup(p: int, s: int, r: int, a: int)
    ensures (p * 256 + s) * a + r == p * (256 * a) + (s * a + r)
  {
  }

  lemma BelowProduct(s: int, r: int, a: int)
    requires 0 <= s < 256 && 0 <= r < a
    ensures 0 <= s * a + r < 256 * a
  {
    assert 0 <= s * a;
    assert (255 - s) * a >= 0;
  }

  lemma DivDiv(n: int, a: int)
    requires a > 0
    ensures n / a / 256 == n / (256 * a)
  {
    var q, r := n / a, n % a;
    var p, s := q / 256, q % 256;
    assert n == q * a + r;
    Regroup(p, s, r, a);
    BelowProduct(s, r, a);
    DivModUnique(n, 256 * a, p, s * a + r);
  }

  lemma EightBytes(n: int)
    ensures ToLittle(n % Pow256(8), 8)
         == [n % 256, n / 0x100 % 256, n / 0x1_0000 % 256, n / 0x100_0000 % 256,
             n / 0x1_0000_0000 % 256, n / 0x100_0000_0000 % 256,
             n / 0x1_0000_0000_0000 % 256, n / 0x100_0000_0000_0000 % 256]
  {
    FirstTwo(n, 8);
    FirstTwo(n / 0x1_0000, 6);
    DivDiv(n, 0x1_0000);
    DivDiv(n, 0x100_0000);
    HighBytes(n);
  }

  lemma HighBytes(n: int)
    ensures var m := n / 0x1_0000_0000;
            ToLittle(m % Pow256(4), 4) == [m % 256, n / 0x100_0000_0000 % 256,
                                           n / 0x1_0000_0000_0000 % 256, n / 0x100_0000_0000_0000 % 256]
  {
    var m := n / 0x1_0000_0000;
    FourBytes(m);
    DivDiv(n, 0x1_0000_0000);
    DivDiv(n, 0x100_0000_0000);
    DivDiv(n, 0x1_0000_0000_0000);
    DivDiv(m, 0x100);
    DivDiv(m, 0x1_0000);
  }

  // ------------------------------------------------------------ scalars

  // `short` and `unsigned short`: two bytes, the low one first.
  lemma ShortFormat(n: int)
    ensures InRange(Short, n) <==> -0x8000 <= n < 0x8000
    ensures InRange(UShort, n) <==> 0 <= n < 0x1_0000
    ensures Emit(Num(Short, n)) == Emit(Num(UShort, n)) == [n % 256, n / 256 % 256]
  {
    Pow256Values();
    TwoBytes(n);
  }

  // `int` and `unsigned int`: four bytes.
  lemma IntFormat(n: int)
    ensures InRange(Int, n) <==> -0x8000_0000 <= n < 0x8000_0000
    ensures InRange(UInt, n) <==> 0 <= n < 0x1_0000_0000
    ensures Emit(Num(Int, n)) == Emit(Num(UInt, n))
         == [n % 256, n / 0x100 % 256, n / 0x1_0000 % 256, n / 0x100_0000 % 256]
  {
    Pow256Values();
    FourBytes(n);
  }

  // The 64-bit types: eight bytes.
  lemma LongFormat(k: Scalar, n: int)
    requires k.Long? || k.LongLong? || k.ULong? || k.ULongLong?
    ensures k.Long? || k.LongLong? ==>
              (InRange(k, n) <==> -0x8000_0000_0000_0000 <= n < 0x8000_0000_0000_0000)
    ensures k.ULong? || k.ULongLong? ==> (InRange(k, n) <==> 0 <= n < 0x1_0000_0000_0000_0000)
    ensures Emit(Num(k, n))
         == [n % 256, n / 0x100 % 256, n / 0x1_0000 % 256, n / 0x100_0000 % 256,
             n / 0x1_0000_0000 % 256, n / 0x100_0000_0000 % 256,
             n / 0x1_0000_0000_0000 % 256, n / 0x100_0000_0000_0000 % 256]
  {
    Pow256Values();
    EightBytes(n);
  }

  // `bool`, `char` and `unsigned char`: the four bytes of an int.
  lemma NarrowFormat(k: Scalar, n: int)
    requires k.Bool? || k.Char? || k.UChar?
    ensures k.Bool? ==> (InRange(k, n) <==> n == 0 || n == 1)
    ensures k.Char? ==> (InRange(k, n) <==> -128 <= n < 128)
    ensures k.UChar? ==> (InRange(k, n) <==> 0 <= n < 256)
    ensures Emit(Num(k, n)) == [n % 256, n / 0x100 % 256, n / 0x1_0000 % 256, n / 0x100_0000 % 256]
  {
    Pow256Values();
    FourBytes(n);
  }

  // They are read from one byte; any byte but 0 is true.
  lemma NarrowReads(b: Byte, rest: seq<Byte>)
    ensures Decode(TNum(Bool), [b] + rest) == Parsed(Num(Bool, if b == 0 then 0 else 1), rest)
    ensures Decode(TNum(Char), [b] + rest) == Parsed(Num(Char, if b < 128 then b else b - 256), rest)
    ensures Decode(TNum(UChar), [b] + rest) == Parsed(Num(UChar, b), rest)
  {
    Pow256Values();
    ExtractConcat([b], rest);
    assert FromLittle([b]) == b;
  }

  // ------------------------------------------------------------ strings and vectors

  lemma PrefixBytes(n: nat)
    ensures WriteUInt(n) == [n % 256, n / 0x100 % 256, n / 0x1_0000 % 256, n / 0x100_0000 % 256]
  {
    IntFormat(n);
  }

  // A string: its length in four bytes, then its characters; `<<` throws from 2^32 characters on.
  lemma StringFormat(s: seq<Byte>)
    ensures Accepted(Str(s)) <==> |s| < 0x1_0000_0000
    ensures |s| < 0x1_0000_0000 ==>
              var n := |s|;
              Emit(Str(s)) == [n % 256, n / 0x100 % 256, n / 0x1_0000 % 256, n / 0x100_0000] + s
    ensures |s| >= 0x1_0000_0000 ==> Emit(Str(s)) == []
  {
    PrefixBytes(|s|);
  }

  // A vector: the low 32 bits of its length in four bytes, then its elements.
  lemma VectorFormat(items: seq<Value>)
    ensures var n := |items|;
            Emit(Vec(items)) == [n % 256, n / 0x100 % 256, n / 0x1_0000 % 256, n / 0x100_0000 % 256] + EmitItems(items)
    ensures Accepted(Vec(items)) <==> forall v <- items :: Accepted(v)
  {
    PrefixBytes(|items|);
    AcceptedItems(items);
  }

  lemma {:induction false} AcceptedItems(vs: seq<Value>)
    ensures AllAccepted(vs) <==> forall v <- vs :: Accepted(v)
  {
    if vs == [] {
      assert AllAccepted(vs);
    } else {
      var init, last := vs[..|vs| - 1], vs[|vs| - 1];
      AcceptedItems(init);
      assert last in vs;
      assert forall v <- vs :: v in init || v == last;
      assert forall v <- init :: v in vs;
    }
  }

  // The elements, one after the other, up to the one that throws.
  lemma {:induction false} ItemsFormat(a: seq<Value>, b: seq<Value>)
    ensures EmitItems(a + b) == EmitItems(a) + if forall v <- a :: Accepted(v) then EmitItems(b) else []
    decreases |b|
  {
    AcceptedItems(a);
    if b == [] {
      assert a + b == a;
    } else {
      var init, last := b[..|b| - 1], b[|b| - 1];
      ItemsFormat(a, init);
      SplitLast(b);
      assert a + b == a + init + [last];
      EmitSnoc(a + init, last);
      EmitSnoc(init, last);
      AcceptedItems(init);
      AcceptedItems(a + init);
      assert (forall v <- a + init :: Accepted(v))
        <==> (forall v <- a :: Accepted(v)) && (forall v <- init :: Accepted(v));
      ConcatAssociates(EmitItems(a), EmitItems(init), Emit(last));
    }
  }

  lemma ItemFormat(v: Value)
    ensures EmitItems([v]) == Emit(v) && EmitItems([]) == []
  {
    assert [v] == [] + [v];
    EmitSnoc([], v);
  }

  // ------------------------------------------------------------ what can be read

  // A type without narrow scalars is read from exactly the bytes that begin with an encoding.
  lemma ReadableExactly(t: WireType, b: seq<Byte>)
    requires Wide(t)
    ensures Decode(t, b).Parsed? <==> exists v, rest :: HasType(t, v) && Bounded(v) && b == Emit(v) + rest
  {
    if Decode(t, b).Parsed? {
      var p := Decode(t, b);
      DecodeSound(t, b);
      WideValue(t, p.value);
      assert HasType(t, p.value) && Bounded(p.value) && b == Emit(p.value) + p.rest;
    }
    if exists v, rest :: HasType(t, v) && Bounded(v) && b == Emit(v) + rest {
      var v, rest :| HasType(t, v) && Bounded(v) && b == Emit(v) + rest;
      WideValue(t, v);
      DecodeEmit(t, v, rest);
    }
  }

  // What is left over, in success and in failure, is the end of the bytes.
  lemma {:induction false} RestIsEnd(t: WireType, b: seq<Byte>)
    ensures var rest := Decode(t, b).rest; |rest| <= |b| && rest == b[|b| - |rest|..]
    decreases t, 0
  {
    match t
    case TNum(k) =>
      assert b[0..] == b;
    case TStr =>
      assert b[0..] == b;
    case TVec(e) =>
      assert b[0..] == b;
      if DecodeUInt(b).Parsed? {
        var header := DecodeUInt(b);
        assert header.rest == b[4..];
        ItemsRestIsEnd(e, header.value, header.rest);
      }
  }

  lemma {:induction false} ItemsRestIsEnd(t: WireType, count: nat, b: seq<Byte>)
    ensures var rest := DecodeItems(t, count, b).rest; |rest| <= |b| && rest == b[|b| - |rest|..]
    decreases t, 1, count
  {
    if count == 0 {
      assert b[0..] == b;
    } else {
      ItemsRestIsEnd(t, count - 1, b);
      RestIsEnd(t, DecodeItems(t, count - 1, b).rest);
    }
  }

  // Scalars and strings run out exactly when fewer bytes are there than they take; a string has taken
  // its length by then.
  lemma StarvesExactly(k: Scalar, b: seq<Byte>)
    ensures Decode(TNum(k), b).Starved? <==>
            |b| < (match k
                   case Bool => 1 case Char => 1 case UChar => 1
                   case Short => 2 case UShort => 2 case Int => 4 case UInt => 4
                   case Long => 8 case ULong => 8 case LongLong => 8 case ULongLong => 8)
    ensures Decode(TNum(k), b).Starved? ==> Decode(TNum(k), b).rest == b
  {
  }

  lemma StringStarvesExactly(b: seq<Byte>)
    ensures |b| < 4 ==> Decode(TStr, b) == Starved(b)
    ensures |b| >= 4 ==>
              var n := b[0] + 0x100 * (b[1] as int) + 0x1_0000 * (b[2] as int) + 0x100_0000 * (b[3] as int);
              var body := b[4..];
              Decode(TStr, b) == if |body| < n then Starved(body) else Parsed(Str(body[..n]), body[n..])
  {
    if |b| >= 4 {
      PrefixReads(b);
      StringBody(b, DecodeUInt(b).value, DecodeUInt(b).rest);
    }
  }

  lemma StringBody(b: seq<Byte>, n: nat, body: seq<Byte>)
    requires DecodeUInt(b) == Parsed(n, body)
    ensures Decode(TStr, b) == if |body| < n then Starved(body) else Parsed(Str(body[..n]), body[n..])
  {
  }

  lemma VectorBody(t: WireType, b: seq<Byte>, n: nat, body: seq<Byte>)
    requires DecodeUInt(b) == Parsed(n, body)
    ensures Decode(TVec(t), b) == match DecodeItems(t, n, body)
                                  case Parsed(items, rest) => Parsed(Vec(items), rest)
                                  case Starved(rest) => Starved(rest)
  {
  }

  lemma PrefixReads(b: seq<Byte>)
    requires |b| >= 4
    ensures var n := b[0] + 0x100 * (b[1] as int) + 0x1_0000 * (b[2] as int) + 0x100_0000 * (b[3] as int);
            DecodeUInt(b) == Parsed(n, b[4..])
  {
    PrefixValue(b[..4]);
  }

  lemma PrefixValue(h: seq<Byte>)
    requires |h| == 4
    ensures FromLittle(h) == h[0] + 0x100 * (h[1] as int) + 0x1_0000 * (h[2] as int) + 0x100_0000 * (h[3] as int)
  {
    assert h[1..][1..] == h[2..] && h[2..][1..] == h[3..] && h[3..][1..] == [];
    assert FromLittle(h[3..]) == h[3] + 256 * FromLittle([]);
    assert FromLittle(h[2..]) == h[2] + 256 * FromLittle(h[3..]);
    assert FromLittle(h[1..]) == h[1] + 256 * FromLittle(h[2..]);
  }

  // A vector takes its length from four bytes and then that many elements ...
  lemma VectorReads(t: WireType, b: seq<Byte>)
    ensures |b| < 4 ==> Decode(TVec(t), b) == Starved(b)
    ensures |b| >= 4 ==>
              var n := b[0] + 0x100 * (b[1] as int) + 0x1_0000 * (b[2] as int) + 0x100_0000 * (b[3] as int);
              Decode(TVec(t), b) == match DecodeItems(t, n, b[4..])
                                    case Parsed(items, rest) => Parsed(Vec(items), rest)
                                    case Starved(rest) => Starved(rest)
  {
    if |b| >= 4 {
      PrefixReads(b);
      VectorBody(t, b, DecodeUInt(b).value, DecodeUInt(b).rest);
    }
  }

  // ... each read from where the one before ended.
  lemma {:induction false} ItemsReadInTurn(t: WireType, m: nat, n: nat, b: seq<Byte>)
    ensures DecodeItems(t, 0, b) == Parsed([], b)
    ensures DecodeItems(t, m + n, b) ==
            match DecodeItems(t, m, b)
            case Starved(rest) => Starved(rest)
            case Parsed(first, mid) =>
              match DecodeItems(t, n, mid)
              case Starved(rest) => Starved(rest)
              case Parsed(second, rest) => Parsed(first + second, rest)
    decreases n
  {
    if n == 0 {
      if DecodeItems(t, m, b).Parsed? {
        var p := DecodeItems(t, m, b);
        assert p.value + [] == p.value;
      }
    } else {
      ItemsReadInTurn(t, m, n - 1, b);
      var p := DecodeItems(t, m, b);
      if p.Parsed? && DecodeItems(t, n, p.rest).Parsed? {
        var q := DecodeItems(t, n - 1, p.rest);
        var last := [Decode(t, q.rest).value];
        assert p.value + (q.value + last) == p.value + q.value + last;
      }
    }
  }

  lemma ItemReads(t: WireType, b: seq<Byte>)
    ensures DecodeItems(t, 1, b) == match Decode(t, b)
                                    case Parsed(v, rest) => Parsed([v], rest)
                                    case Starved(rest) => Starved(rest)
  {
    assert DecodeItems(t, 0, b) == Parsed([], b);
    if Decode(t, b).Parsed? {
      assert [] + [Decode(t, b).value] == [Decode(t, b).value];
    }
  }
}
