/** A bit per block, eight to a byte. */
module Bitmap {
  import opened Words

  function Mask(n: nat): byte
    requires n < 8
  {
    1 << n
  }

  predicate Meets(b: byte, m: byte) { b & m != 0 }

  function Join(b: byte, m: byte): byte { b | m }

  predicate Bit(buffer: seq<byte>, i: nat)
    requires i < 8 * |buffer|
  {
    Meets(buffer[i / 8], Mask(i % 8))
  }

  function SetBit(buffer: seq<byte>, i: nat): (r: seq<byte>)
    requires i < 8 * |buffer|
    ensures |r| == |buffer|
  {
    buffer[i / 8 := Join(buffer[i / 8], Mask(i % 8))]
  }

  function Clear(n: nat): (r: seq<byte>)
    ensures |r| == n
  {
    seq(n, i => 0)
  }

  lemma JoinOther(b: byte, m: byte, n: byte)
    requires !Meets(m, n)
    ensures Meets(Join(b, m), n) == Meets(b, n)
  {
    assert (b | m) & n == (b & n) | (m & n);
  }

  lemma JoinSelf(b: byte, m: byte)
    requires m != 0
    ensures Meets(Join(b, m), m)
  {
    assert (b | m) & m == m;
  }

  lemma MasksDiffer(m: nat, n: nat)
    requires m < 8 && n < 8
    ensures Mask(m) != 0 && (m != n ==> !Meets(Mask(m), Mask(n)))
  {
    assert Mask(0) == 1 && Mask(1) == 2 && Mask(2) == 4 && Mask(3) == 8;
    assert Mask(4) == 16 && Mask(5) == 32 && Mask(6) == 64 && Mask(7) == 128;
  }

  lemma JoinMask(b: byte, m: nat, n: nat)
    requires m < 8 && n < 8
    ensures Meets(Join(b, Mask(m)), Mask(n)) <==> m == n || Meets(b, Mask(n))
  {
    hide Mask;
    hide Meets;
    hide Join;
    MasksDiffer(m, n);
    if m == n { JoinSelf(b, Mask(m)); } else { JoinOther(b, Mask(m), Mask(n)); }
  }

  lemma SameIndex(i: nat, j: nat)
    ensures i == j <==> i / 8 == j / 8 && i % 8 == j % 8
  {}

  /** Setting a bit sets that bit and no other. */
  lemma SetBitAt(buffer: seq<byte>, i: nat, j: nat)
    requires i < 8 * |buffer| && j < 8 * |buffer|
    ensures Bit(SetBit(buffer, i), j) <==> j == i || Bit(buffer, j)
  {
    hide Mask;
    hide Meets;
    hide Join;
    SameIndex(i, j);
    JoinMask(buffer[i / 8], i % 8, j % 8);
  }

  lemma ClearAt(n: nat, i: nat)
    requires i < 8 * n
    ensures !Bit(Clear(n), i)
  {
    hide Mask;
    NothingMet(Mask(i % 8));
  }

  lemma NothingMet(m: byte)
    ensures !Meets(0, m)
  {}
}
