/** Bytes and little-endian 32-bit words. */
module Words {

  type byte = bv8

  // one more than the largest 32-bit word
  const U32 := 0x1_0000_0000

  // no block: all ones on the disk
  const NULL_BLOCK := -1

  datatype Option<+T> = None | Some(value: T)

  function Min(a: int, b: int): int { if a < b then a else b }

  function Max(a: int, b: int): int { if a > b then a else b }

  // ---------------------------------------------------------------- byte order

  function Le32(w: bv32): (s: seq<byte>)
    ensures |s| == 4
  {
    [(w & 0xff) as byte, ((w >> 8) & 0xff) as byte, ((w >> 16) & 0xff) as byte, ((w >> 24) & 0xff) as byte]
  }

  function FromLe32(s: seq<byte>): bv32
    requires |s| == 4
  {
    (s[0] as bv32) | (((s[1] as bv32) | (((s[2] as bv32) | ((s[3] as bv32) << 8)) << 8)) << 8)
  }

  lemma LeRoundTrip(w: bv32)
    ensures FromLe32(Le32(w)) == w
  {}

  lemma LeInverse(s: seq<byte>)
    requires |s| == 4
    ensures Le32(FromLe32(s)) == s
  {}

  // ---------------------------------------------------------------- numbers and sequences

  function Pow2(n: nat): (r: nat)
    ensures r > 0
  {
    if n == 0 then 1 else 2 * Pow2(n - 1)
  }

  // s written over blk from off on
  function Patched<T>(blk: seq<T>, off: nat, s: seq<T>): (r: seq<T>)
    requires off + |s| <= |blk|
    ensures |r| == |blk|
    ensures r[..off] == blk[..off] && r[off..off + |s|] == s && r[off + |s|..] == blk[off + |s|..]
  {
    blk[..off] + s + blk[off + |s|..]
  }

  predicate Distinct(s: seq<int>)
  {
    forall i, j :: 0 <= i < j < |s| ==> s[i] != s[j]
  }
}
