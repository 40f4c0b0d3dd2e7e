/** Blocks that tile a pool: headers of 24 bytes at increasing addresses, each block reaching
    up to the next header. */
module HeapTiling {
  import opened Words
  import opened CircularList

  const ITEM := 24

  /** The first block starts the pool and an empty one ends it. */
  predicate Tiles(start: int, pool: int, blocks: seq<int>)
  {
    && |blocks| >= 2 && blocks[0] == start && blocks[|blocks| - 1] == start + pool - ITEM
    && forall i :: 0 <= i < |blocks| - 1 ==> blocks[i] + ITEM <= blocks[i + 1]
  }

  lemma {:induction false} Increasing(start: int, pool: int, blocks: seq<int>, i: nat, j: nat)
    requires Tiles(start, pool, blocks) && i < j < |blocks|
    ensures blocks[i] + ITEM <= blocks[j]
    decreases j
  {
    assert blocks[j - 1] + ITEM <= blocks[j - 1 + 1];
    if i < j - 1 { Increasing(start, pool, blocks, i, j - 1); }
  }

  lemma InOrder(start: int, pool: int, blocks: seq<int>)
    requires Tiles(start, pool, blocks)
    ensures Distinct(blocks)
    ensures forall i, j :: 0 <= i < j < |blocks| ==> blocks[i] + ITEM <= blocks[j]
  {
    forall i, j | 0 <= i < j < |blocks| ensures blocks[i] + ITEM <= blocks[j] { Increasing(start, pool, blocks, i, j); }
  }

  // an address inside of a block is no block
  lemma InsideIsNew(start: int, pool: int, blocks: seq<int>, i: nat, x: int)
    requires Tiles(start, pool, blocks) && i + 1 < |blocks| && blocks[i] < x < blocks[i + 1]
    ensures x !in blocks
  {
    InOrder(start, pool, blocks);
    forall k | 0 <= k < |blocks| ensures blocks[k] != x {
      if k > i + 1 { assert blocks[i + 1] + ITEM <= blocks[k]; }
      if k < i { assert blocks[k] + ITEM <= blocks[i]; }
    }
  }

  lemma SplitTiles(start: int, pool: int, blocks: seq<int>, i: nat, x: int)
    requires Tiles(start, pool, blocks) && i + 1 < |blocks| && blocks[i] + ITEM <= x && x + ITEM <= blocks[i + 1]
    ensures Tiles(start, pool, Inserted(blocks, i, x)) && x !in blocks
  {
    InsideIsNew(start, pool, blocks, i, x);
    var r := Inserted(blocks, i, x);
    forall k | 0 <= k < |r| - 1 ensures r[k] + ITEM <= r[k + 1] {
      if k > i + 1 { assert blocks[k - 1] + ITEM <= blocks[k - 1 + 1]; }
    }
  }

  lemma MergeTiles(start: int, pool: int, blocks: seq<int>, k: nat)
    requires Tiles(start, pool, blocks) && 0 < k < |blocks| - 1
    ensures Tiles(start, pool, Removed(blocks, k))
  {
    var r := Removed(blocks, k);
    forall m | 0 <= m < |r| - 1 ensures r[m] + ITEM <= r[m + 1] {
      assert blocks[k - 1] + ITEM <= blocks[k - 1 + 1] && blocks[k] + ITEM <= blocks[k + 1];
      if m >= k { assert blocks[m + 1] + ITEM <= blocks[m + 1 + 1]; }
    }
  }

  // ---------------------------------------------------------------- free bytes

  // what the block from a to b contributes
  function Gap(used: map<int, bool>, a: int, b: int): int
  {
    if a in used && !used[a] then b - a - ITEM else 0
  }

  /** The sum of the sizes of the free blocks. */
  function FreeBytes(used: map<int, bool>, blocks: seq<int>): int
  {
    if |blocks| < 2 then 0
    else FreeBytes(used, blocks[..|blocks| - 1]) + Gap(used, blocks[|blocks| - 2], blocks[|blocks| - 1])
  }

  lemma {:induction false} FreeBytesCut(used: map<int, bool>, blocks: seq<int>, i: nat)
    requires i < |blocks|
    ensures FreeBytes(used, blocks) == FreeBytes(used, blocks[..i + 1]) + FreeBytes(used, blocks[i..])
    decreases |blocks|
  {
    var n := |blocks| - 1;
    if i == n {
      assert blocks[..i + 1] == blocks;
    } else {
      FreeBytesCut(used, blocks[..n], i);
      assert blocks[..n][..i + 1] == blocks[..i + 1];
      assert blocks[i..][..n - i] == blocks[..n][i..];
    }
  }

  // one gap in the middle
  lemma FreeBytesMiddle(used: map<int, bool>, blocks: seq<int>, i: nat)
    requires i + 1 < |blocks|
    ensures FreeBytes(used, blocks)
         == FreeBytes(used, blocks[..i + 1]) + Gap(used, blocks[i], blocks[i + 1]) + FreeBytes(used, blocks[i + 1..])
  {
    FreeBytesCut(used, blocks, i + 1);
    assert blocks[..i + 2][..i + 1] == blocks[..i + 1];
  }

  /** Splitting a block at x. */
  lemma FreeBytesSplit(used: map<int, bool>, blocks: seq<int>, i: nat, x: int)
    requires i + 1 < |blocks|
    ensures FreeBytes(used, Inserted(blocks, i, x))
         == FreeBytes(used, blocks) - Gap(used, blocks[i], blocks[i + 1]) + Gap(used, blocks[i], x) + Gap(used, x, blocks[i + 1])
  {
    hide Gap;
    var r := Inserted(blocks, i, x);
    FreeBytesMiddle(used, blocks, i);
    FreeBytesMiddle(used, r, i);
    FreeBytesMiddle(used, r[i + 1..], 0);
    assert r[..i + 1] == blocks[..i + 1];
    assert r[i + 1..][1..] == blocks[i + 1..];
    assert FreeBytes(used, r[i + 1..][..1]) == 0;
  }

  /** Merging block k with the one before it. */
  lemma FreeBytesMerge(used: map<int, bool>, blocks: seq<int>, k: nat)
    requires 0 < k < |blocks| - 1
    ensures FreeBytes(used, Removed(blocks, k))
         == FreeBytes(used, blocks) - Gap(used, blocks[k - 1], blocks[k]) - Gap(used, blocks[k], blocks[k + 1]) + Gap(used, blocks[k - 1], blocks[k + 1])
  {
    hide Gap;
    var r := Removed(blocks, k);
    FreeBytesSplit(used, r, k - 1, blocks[k]);
    assert Inserted(r, k - 1, blocks[k]) == blocks;
  }

  lemma {:induction false} FreeBytesElsewhere(used: map<int, bool>, blocks: seq<int>, b: int, v: bool)
    requires b !in blocks[..if blocks == [] then 0 else |blocks| - 1]
    ensures FreeBytes(used[b := v], blocks) == FreeBytes(used, blocks)
    decreases |blocks|
  {
    if |blocks| >= 2 {
      var front := blocks[..|blocks| - 1];
      assert front[..|front| - 1] == blocks[..|blocks| - 2];
      assert b !in blocks[..|blocks| - 2] by { assert forall c :: c in blocks[..|blocks| - 2] ==> c in front; }
      FreeBytesElsewhere(used, front, b, v);
      assert blocks[|blocks| - 2] in front;
    }
  }

  /** Freeing or using block i. */
  lemma FreeBytesFlip(used: map<int, bool>, blocks: seq<int>, i: nat, v: bool)
    requires i + 1 < |blocks| && Distinct(blocks)
    ensures FreeBytes(used[blocks[i] := v], blocks)
         == FreeBytes(used, blocks) - Gap(used, blocks[i], blocks[i + 1]) + if v then 0 else blocks[i + 1] - blocks[i] - ITEM
  {
    var b := blocks[i];
    FreeBytesMiddle(used, blocks, i);
    FreeBytesMiddle(used[b := v], blocks, i);
    assert blocks[..i + 1][..i] == blocks[..i];
    FreeBytesElsewhere(used, blocks[..i + 1], b, v);
    assert forall k :: i + 1 <= k < |blocks| ==> blocks[k] != b;
    FreeBytesElsewhere(used, blocks[i + 1..], b, v);
  }

  lemma {:induction false} FreeBytesSign(used: map<int, bool>, start: int, pool: int, blocks: seq<int>, n: nat)
    requires Tiles(start, pool, blocks) && n <= |blocks|
    ensures 0 <= FreeBytes(used, blocks[..n]) <= if n == 0 then 0 else blocks[n - 1] - start - ITEM * (n - 1)
    decreases n
  {
    if n >= 2 {
      FreeBytesSign(used, start, pool, blocks, n - 1);
      assert blocks[..n][..n - 1] == blocks[..n - 1];
      assert blocks[n - 2] + ITEM <= blocks[n - 2 + 1];
    }
  }
}
