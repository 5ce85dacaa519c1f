/** Bytes and little-endian integers: what boost::endian's `native_to_little_inplace`
    and `little_to_native_inplace` do to the object representation of an integer. */
module LittleEndian {

  type Byte = b: int | 0 <= b < 256

  const UINT_VALUES := 0x1_0000_0000 // number of values of a 32-bit `unsigned int`

  function Pow256(w: nat): (p: nat)
    ensures p > 0
  {
    if w == 0 then 1 else 256 * Pow256(w - 1)
  }

  // The `w` low-order bytes of `u`, least significant first.
  function ToLittle(u: nat, w: nat): (b: seq<Byte>)
    ensures |b| == w
  {
    if w == 0 then [] else [u % 256] + ToLittle(u / 256, w - 1)
  }

  function FromLittle(b: seq<Byte>): (u: nat)
    ensures u < Pow256(|b|)
  {
    if b == [] then 0 else b[0] + 256 * FromLittle(b[1..])
  }

  lemma {:induction false} LittleRoundTrip(u: nat, w: nat)
    requires u < Pow256(w)
    ensures FromLittle(ToLittle(u, w)) == u
  {
    if w == 0 {
    } else {
      LittleRoundTrip(u / 256, w - 1);
      assert ToLittle(u, w)[1..] == ToLittle(u / 256, w - 1);
    }
  }

  lemma {:induction false} LittleCanonical(b: seq<Byte>)
    ensures ToLittle(FromLittle(b), |b|) == b
  {
    if b == [] {
    } else {
      LittleCanonical(b[1..]);
      assert FromLittle(b) / 256 == FromLittle(b[1..]);
      assert b == [b[0]] + b[1..];
    }
  }

  lemma Pow256Values()
    ensures Pow256(1) == 0x100
    ensures Pow256(2) == 0x1_0000
    ensures Pow256(4) == UINT_VALUES
    ensures Pow256(8) == 0x1_0000_0000_0000_0000
  {
    assert Pow256(2) == 256 * Pow256(1);
    assert Pow256(3) == 256 * Pow256(2);
    assert Pow256(4) == 256 * Pow256(3);
    assert Pow256(5) == 256 * Pow256(4);
    assert Pow256(6) == 256 * Pow256(5);
    assert Pow256(7) == 256 * Pow256(6);
    assert Pow256(8) == 256 * Pow256(7);
  }
}
