/** Which blocks of a heap are free, and that no two neighbours are. */
module HeapMarks {
  import opened Words
  import opened CircularList
  import opened HeapTiling

  const NONE := 0

  /** The free list holds the free blocks, except for one block that is about to change. */
  ghost predicate Marks(used: map<int, bool>, blocks: seq<int>, frees: seq<int>, but: int)
  {
    && blocks != [] && NONE !in blocks && (forall b :: b in blocks ==> b in used) && used[blocks[|blocks| - 1]]
    && forall b :: b in frees <==> b in blocks && !used[b] && b != but
  }

  /** No two neighbours are free, except around one block. */
  predicate Apart(used: map<int, bool>, blocks: seq<int>, but: int)
  {
    forall i :: 0 <= i < |blocks| - 1 && blocks[i] in used && blocks[i + 1] in used ==>
      used[blocks[i]] || used[blocks[i + 1]] || blocks[i] == but || blocks[i + 1] == but
  }

  predicate IsUser(used: map<int, bool>, next: map<int, int>, blocks: seq<int>, b: int)
  {
    blocks != [] && b in blocks && b != blocks[|blocks| - 1] && b in used && used[b] && b in next
  }

  /** The blocks in use and their sizes, without the one that ends the pool. */
  function Users(used: map<int, bool>, next: map<int, int>, blocks: seq<int>): map<int, int>
  {
    map b | b in blocks && IsUser(used, next, blocks, b) :: next[b] - b - ITEM
  }

  lemma InsertedHas(blocks: seq<int>, i: nat, x: int, b: int)
    requires i < |blocks|
    ensures b in Inserted(blocks, i, x) <==> b == x || b in blocks
  {
    var r := Inserted(blocks, i, x);
    if b in blocks {
      var k :| 0 <= k < |blocks| && blocks[k] == b;
      assert r[if k <= i then k else k + 1] == b;
    }
    assert r[i + 1] == x;
  }

  lemma RemovedHas(blocks: seq<int>, k: nat, b: int)
    requires k < |blocks| && Distinct(blocks)
    ensures b in Removed(blocks, k) <==> b != blocks[k] && b in blocks
  {
    var r := Removed(blocks, k);
    if b in blocks && b != blocks[k] {
      var m :| 0 <= m < |blocks| && blocks[m] == b;
      assert r[if m < k then m else m - 1] == b;
    }
  }

  // ---------------------------------------------------------------- one change at a time

  lemma MarksFlip(used: map<int, bool>, blocks: seq<int>, frees: seq<int>, h: int)
    requires Marks(used, blocks, frees, NONE) && h in blocks && used[h] && h != blocks[|blocks| - 1]
    ensures Marks(used[h := false], blocks, frees, h)
  {}

  // a free block is pulled from the free list
  lemma MarksPull(used: map<int, bool>, blocks: seq<int>, frees: seq<int>, j: nat)
    requires Marks(used, blocks, frees, NONE) && Distinct(frees) && j < |frees|
    ensures Marks(used, blocks, Removed(frees, j), frees[j])
  {
    forall b ensures b in Removed(frees, j) <==> b in frees && b != frees[j] { RemovedHas(frees, j, b); }
  }

  lemma MarksUse(used: map<int, bool>, blocks: seq<int>, frees: seq<int>, h: int)
    requires Marks(used, blocks, frees, h) && h in blocks
    ensures Marks(used[h := true], blocks, frees, NONE)
  {}

  lemma MarksPush(used: map<int, bool>, blocks: seq<int>, frees: seq<int>, x: int)
    requires Marks(used, blocks, frees, x) && x in blocks && !used[x]
    ensures Marks(used, blocks, [x] + frees, NONE)
  {}

  // a new free block, not in the free list yet
  lemma MarksSplit(used: map<int, bool>, blocks: seq<int>, frees: seq<int>, i: nat, x: int)
    requires Marks(used, blocks, frees, NONE) && i + 1 < |blocks| && x !in blocks && x != NONE
    ensures Marks(used[x := false], Inserted(blocks, i, x), frees, x)
  {
    var r := Inserted(blocks, i, x);
    forall b ensures b in r <==> b == x || b in blocks { InsertedHas(blocks, i, x, b); }
  }

  // the block that is about to change goes away, or a free one with its place in the free list
  lemma MarksMergeThis(used: map<int, bool>, blocks: seq<int>, frees: seq<int>, k: nat)
    requires Distinct(blocks) && k + 1 < |blocks| && Marks(used, blocks, frees, blocks[k])
    ensures Marks(used, Removed(blocks, k), frees, NONE)
  {
    forall b ensures b in Removed(blocks, k) <==> b in blocks && b != blocks[k] { RemovedHas(blocks, k, b); }
  }

  lemma MarksMergeFree(used: map<int, bool>, blocks: seq<int>, frees: seq<int>, k: nat, j: nat, but: int)
    requires Distinct(blocks) && Distinct(frees) && k + 1 < |blocks| && j < |frees| && blocks[k] == frees[j]
    requires Marks(used, blocks, frees, but)
    ensures Marks(used, Removed(blocks, k), Removed(frees, j), but)
  {
    forall b ensures b in Removed(blocks, k) <==> b in blocks && b != blocks[k] { RemovedHas(blocks, k, b); }
    forall b ensures b in Removed(frees, j) <==> b in frees && b != frees[j] { RemovedHas(frees, j, b); }
  }

  lemma ApartUse(used: map<int, bool>, blocks: seq<int>, b: int, but: int)
    requires Apart(used, blocks, but) && b in used
    ensures Apart(used[b := true], blocks, but)
  {}

  lemma ApartFree(used: map<int, bool>, blocks: seq<int>, b: int)
    requires Apart(used, blocks, NONE) && NONE !in blocks && b in used
    ensures Apart(used[b := false], blocks, b)
  {}

  lemma ApartSplit(used: map<int, bool>, blocks: seq<int>, i: nat, x: int)
    requires Apart(used, blocks, NONE) && NONE !in blocks && i + 1 < |blocks| && x !in blocks
    ensures Apart(used[x := false], Inserted(blocks, i, x), x)
  {
    var r, u := Inserted(blocks, i, x), used[x := false];
    assert forall k :: 0 <= k < |blocks| ==> blocks[k] != x;
    forall k | 0 <= k < |r| - 1 && r[k] in u && r[k + 1] in u ensures u[r[k]] || u[r[k + 1]] || r[k] == x || r[k + 1] == x {
      if k == i {
        assert r[k + 1] == x;
      } else if k != i + 1 {
        var m := if k < i then k else k - 1;
        assert r[k] == blocks[m] != x && r[k + 1] == blocks[m + 1] != x;
        ApartAt(used, blocks, m);
      }
    }
  }

  lemma ApartMerge(used: map<int, bool>, blocks: seq<int>, k: nat, but: int)
    requires Distinct(blocks) && Apart(used, blocks, but) && 0 < k < |blocks| - 1 && (but == blocks[k] || but == blocks[k - 1])
    ensures Apart(used, Removed(blocks, k), blocks[k - 1])
  {
    var r := Removed(blocks, k);
    forall m | 0 <= m < |r| - 1 && r[m] in used && r[m + 1] in used
      ensures used[r[m]] || used[r[m + 1]] || r[m] == blocks[k - 1] || r[m + 1] == blocks[k - 1]
    {
      var n := if m < k - 1 then m else m + 1;
      if m != k - 1 {
        assert r[m] == blocks[n] && r[m + 1] == blocks[n + 1];
        SameNode(blocks, n, k);
        SameNode(blocks, n + 1, k);
      }
    }
  }

  lemma ApartDone(used: map<int, bool>, blocks: seq<int>, i: nat)
    requires i < |blocks| && Distinct(blocks) && Apart(used, blocks, blocks[i])
    requires i > 0 ==> blocks[i - 1] in used && used[blocks[i - 1]]
    requires i + 1 < |blocks| ==> blocks[i + 1] in used && used[blocks[i + 1]]
    ensures Apart(used, blocks, NONE)
  {
    forall k | 0 <= k < |blocks| - 1 && blocks[k] in used && blocks[k + 1] in used
      ensures used[blocks[k]] || used[blocks[k + 1]]
    {
      SameNode(blocks, k, i);
      SameNode(blocks, k + 1, i);
    }
  }

  lemma ApartAt(used: map<int, bool>, blocks: seq<int>, i: nat)
    requires Apart(used, blocks, NONE) && NONE !in blocks && i + 1 < |blocks| && blocks[i] in used && blocks[i + 1] in used
    ensures used[blocks[i]] || used[blocks[i + 1]]
  {}
}
