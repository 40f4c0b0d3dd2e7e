/** A first-fit heap: a ring of all blocks in address order and a ring of the free ones. */
module MemHeap {
  import opened Words
  import opened CircularList
  import opened HeapTiling
  import opened HeapMarks

  // the header of the free list, outside of the pool
  const HEAD := -1
  const MINI := 12

  /** RT_ALIGN to four bytes, in 32-bit arithmetic. */
  function Align(size: nat): nat { (size + 3) % U32 / 4 * 4 }

  /** The size a request is rounded to. */
  function Need(size: nat): nat { if Align(size) < MINI then MINI else Align(size) }

  /** It is the least multiple of four that covers the request and a smallest block. Rounding up
      the largest requests wraps around to the smallest size. */
  lemma NeedCoversIff(size: nat)
    requires size < U32
    ensures Need(size) % 4 == 0 && Need(size) >= MINI
    ensures Need(size) >= size <==> size <= 0xffff_fffc
    ensures size <= 0xffff_fffc ==> Need(size) < Max(size, MINI - 3) + 4
    ensures size > 0xffff_fffc ==> Need(size) == MINI
  {}

  lemma NeedMultiple(size: nat)
    ensures Need(size) % 4 == 0
  {}

  // ---------------------------------------------------------------- addresses

  /** All blocks are multiples of four bytes away from the start of the pool. */
  predicate Aligned(start: int, blocks: seq<int>)
  {
    forall b :: b in blocks ==> (b - start) % 4 == 0
  }

  lemma AlignedInserted(start: int, blocks: seq<int>, i: nat, x: int)
    requires Aligned(start, blocks) && i < |blocks| && (x - start) % 4 == 0
    ensures Aligned(start, Inserted(blocks, i, x))
  {
    forall b | b in Inserted(blocks, i, x) ensures (b - start) % 4 == 0 { InsertedHas(blocks, i, x, b); }
  }

  lemma AlignedRemoved(start: int, blocks: seq<int>, k: nat)
    requires Aligned(start, blocks) && k < |blocks| && Distinct(blocks)
    ensures Aligned(start, Removed(blocks, k))
  {
    forall b | b in Removed(blocks, k) ensures (b - start) % 4 == 0 { RemovedHas(blocks, k, b); }
  }

  lemma AlignedAt(start: int, blocks: seq<int>, i: nat)
    requires Aligned(start, blocks) && i < |blocks|
    ensures (blocks[i] - start) % 4 == 0
  {
    assert blocks[i] in blocks;
  }

  /** What is handed out lies at multiples of four bytes and has multiples of four bytes. */
  lemma UsersAligned(used: map<int, bool>, next: map<int, int>, prev: map<int, int>, blocks: seq<int>, start: int, b: int)
    requires Linked(next, prev, blocks) && Aligned(start, blocks) && b in Users(used, next, blocks)
    ensures (b + ITEM - start) % 4 == 0 && Users(used, next, blocks)[b] % 4 == 0
  {
    var k :| 0 <= k < |blocks| && blocks[k] == b;
    LinksAt(next, prev, blocks, k);
    assert next[b] in blocks;
  }

  // ---------------------------------------------------------------- users of the heap

  lemma UsersSplit(used: map<int, bool>, next: map<int, int>, blocks: seq<int>, i: nat, x: int)
    requires i + 1 < |blocks| && x !in blocks && Distinct(blocks) && blocks[i] in used && blocks[i] in next
    ensures var u, v := Users(used, next, blocks), Users(used[x := false], next[x := blocks[i + 1]][blocks[i] := x], Inserted(blocks, i, x));
            v == if used[blocks[i]] then u[blocks[i] := x - blocks[i] - ITEM] else u
  {
    hide IsUser;
    hide Inserted;
    hide Distinct;
    var used', next', r := used[x := false], next[x := blocks[i + 1]][blocks[i] := x], Inserted(blocks, i, x);
    forall b
      ensures IsUser(used', next', r, b) <==> IsUser(used, next, blocks, b)
      ensures IsUser(used, next, blocks, b) ==> b in next && b in next' && b in r && b in blocks && next'[b] == if b == blocks[i] then x else next[b]
    {
      UserSplit(used, next, blocks, i, x, b);
    }
    UserIs(used, next, blocks, i);
  }

  lemma UserIs(used: map<int, bool>, next: map<int, int>, blocks: seq<int>, i: nat)
    requires i + 1 < |blocks| && Distinct(blocks) && blocks[i] in used && blocks[i] in next
    ensures IsUser(used, next, blocks, blocks[i]) <==> used[blocks[i]]
  {
    SameNode(blocks, i, |blocks| - 1);
  }

  lemma UserSplit(used: map<int, bool>, next: map<int, int>, blocks: seq<int>, i: nat, x: int, b: int)
    requires i + 1 < |blocks| && x !in blocks && Distinct(blocks) && blocks[i] in used && blocks[i] in next
    ensures var used', next', r := used[x := false], next[x := blocks[i + 1]][blocks[i] := x], Inserted(blocks, i, x);
            && (IsUser(used', next', r, b) <==> IsUser(used, next, blocks, b))
            && (IsUser(used, next, blocks, b) ==> b in next && b in next' && b in r && b in blocks && next'[b] == if b == blocks[i] then x else next[b])
  {
    hide Inserted;
    var r := Inserted(blocks, i, x);
    InsertedHas(blocks, i, x, b);
    InsertedEnd(blocks, i, x);
  }

  lemma InsertedEnd(blocks: seq<int>, i: nat, x: int)
    requires i + 1 < |blocks|
    ensures |Inserted(blocks, i, x)| == |blocks| + 1 && Inserted(blocks, i, x)[|blocks|] == blocks[|blocks| - 1]
  {}

  lemma RemovedEnd(blocks: seq<int>, k: nat)
    requires k + 1 < |blocks|
    ensures |Removed(blocks, k)| == |blocks| - 1 && Removed(blocks, k)[|blocks| - 2] == blocks[|blocks| - 1]
  {}

  lemma UserMerge(used: map<int, bool>, next: map<int, int>, blocks: seq<int>, k: nat, b: int)
    requires 0 < k < |blocks| - 1 && Distinct(blocks) && blocks[k] in used && !used[blocks[k]]
    requires blocks[k - 1] in used && blocks[k - 1] in next
    ensures var next', r := next[blocks[k - 1] := blocks[k + 1]], Removed(blocks, k);
            && (IsUser(used, next', r, b) <==> IsUser(used, next, blocks, b))
            && (IsUser(used, next, blocks, b) ==> b in next && b in next' && b in r && b in blocks
                                                  && next'[b] == if b == blocks[k - 1] then blocks[k + 1] else next[b])
  {
    hide Removed;
    hide Distinct;
    RemovedHas(blocks, k, b);
    RemovedEnd(blocks, k);
  }

  lemma UsersMerge(used: map<int, bool>, next: map<int, int>, blocks: seq<int>, k: nat)
    requires 0 < k < |blocks| - 1 && Distinct(blocks) && blocks[k] in used && !used[blocks[k]]
    requires blocks[k - 1] in used && blocks[k - 1] in next
    ensures var u, v := Users(used, next, blocks), Users(used, next[blocks[k - 1] := blocks[k + 1]], Removed(blocks, k));
            v == if used[blocks[k - 1]] then u[blocks[k - 1] := blocks[k + 1] - blocks[k - 1] - ITEM] else u
  {
    hide IsUser;
    hide Removed;
    hide Distinct;
    var next', r := next[blocks[k - 1] := blocks[k + 1]], Removed(blocks, k);
    forall b
      ensures IsUser(used, next', r, b) <==> IsUser(used, next, blocks, b)
      ensures IsUser(used, next, blocks, b) ==> b in next && b in next' && b in r && b in blocks
                                                && next'[b] == if b == blocks[k - 1] then blocks[k + 1] else next[b]
    {
      UserMerge(used, next, blocks, k, b);
    }
    UserIs(used, next, blocks, k - 1);
  }

  lemma UsersUse(used: map<int, bool>, next: map<int, int>, blocks: seq<int>, h: int, v: bool)
    requires h in blocks && h != blocks[|blocks| - 1] && h in used && h in next
    ensures Users(used[h := v], next, blocks) == if v then Users(used, next, blocks)[h := next[h] - h - ITEM] else Users(used, next, blocks) - {h}
  {}

  // ---------------------------------------------------------------- memory

  type Memory = seq<bv8>

  /** The bytes a user has at block b. */
  function Bytes(mem: Memory, start: int, b: int, n: int): seq<bv8>
  {
    if 0 <= b + ITEM - start && 0 <= n && b + ITEM - start + n <= |mem| then mem[b + ITEM - start..b + ITEM - start + n] else []
  }

  predicate Intact(mem: Memory, mem': Memory, start: int, users: map<int, int>)
  {
    forall b | b in users :: Bytes(mem', start, b, users[b]) == Bytes(mem, start, b, users[b])
  }

  lemma OverwrittenElsewhere(mem: Memory, at: nat, s: Memory, lo: nat, hi: nat)
    requires at + |s| <= |mem| && lo <= hi <= |mem| && (hi <= at || at + |s| <= lo)
    ensures Patched(mem, at, s)[lo..hi] == mem[lo..hi]
  {}

  /** A header inside of block i leaves alone what the other blocks hold, and of block i what is
      in front of it. */
  lemma HeaderKeeps(mem: Memory, start: int, pool: int, used: map<int, bool>, next: map<int, int>, prev: map<int,
                    int>, blocks: seq<int>, i: nat, x: int, s: Memory)
    requires Tiles(start, pool, blocks) && Linked(next, prev, blocks) && |mem| == pool && |s| == ITEM
    requires i + 1 < |blocks| && blocks[i] + ITEM <= x && x + ITEM <= blocks[i + 1] && x - start >= 0 && x - start + ITEM <= |mem|
    ensures Intact(mem, Patched(mem, x - start, s), start, Users(used, next, blocks) - {blocks[i]})
    ensures Bytes(Patched(mem, x - start, s), start, blocks[i], x - blocks[i] - ITEM) == Bytes(mem, start, blocks[i], x - blocks[i] - ITEM)
  {
    hide LinkedAt;
    hide Linked;
    hide Patched;
    hide Tiles;
    InPool(start, pool, blocks, i, x);
    InPoolAt(start, pool, blocks, i);
    var users := Users(used, next, blocks) - {blocks[i]};
    forall b | b in users ensures Bytes(Patched(mem, x - start, s), start, b, users[b]) == Bytes(mem, start, b, users[b]) {
      var m :| 0 <= m < |blocks| && blocks[m] == b;
      OtherBlock(start, pool, blocks, next, prev, i, m);
      OverwrittenElsewhere(mem, x - start, s, b + ITEM - start, b + ITEM - start + users[b]);
    }
    OverwrittenElsewhere(mem, x - start, s, blocks[i] + ITEM - start, x - start);
  }

  lemma OtherBlock(start: int, pool: int, blocks: seq<int>, next: map<int, int>, prev: map<int, int>, i: nat, m: nat)
    requires Tiles(start, pool, blocks) && Linked(next, prev, blocks) && m < |blocks| - 1 && i < |blocks| - 1 && m != i
    ensures blocks[m] in next && next[blocks[m]] == blocks[m + 1] >= blocks[m] + ITEM
    ensures start <= blocks[m] && blocks[m + 1] <= start + pool - ITEM
    ensures if m < i then blocks[m + 1] <= blocks[i] else blocks[i + 1] <= blocks[m]
  {
    assert LinkedAt(next, prev, blocks, m);
    if m > 0 { Increasing(start, pool, blocks, 0, m); }
    if m + 1 < |blocks| - 1 { Increasing(start, pool, blocks, m + 1, |blocks| - 1); }
    Increasing(start, pool, blocks, m, m + 1);
    if m + 1 < i { Increasing(start, pool, blocks, m + 1, i); }
    if i + 1 < m { Increasing(start, pool, blocks, i + 1, m); }
  }

  // ---------------------------------------------------------------- the heap

  class Heap {
    const start: int
    const poolSize: nat
    var available: int
    var maxUsed: int
    // the fields of the headers, by address
    var next: map<int, int>
    var prev: map<int, int>
    var nextFree: map<int, int>
    var prevFree: map<int, int>
    var used: map<int, bool>
    var mem: Memory
    ghost var blocks: seq<int>
    ghost var frees: seq<int>

    /** The links are those of the two rings, and the blocks tile the pool. */
    ghost predicate Rings()
      reads this
    {
      && 0 < start && start + poolSize <= U32 && |mem| == poolSize
      && Tiles(start, poolSize, blocks) && Linked(next, prev, blocks) && Linked(nextFree, prevFree, [HEAD] + frees)
      && Aligned(start, blocks)
    }

    /** What every operation keeps. */
    ghost predicate Valid()
      reads this
    {
      && Rings() && Marks(used, blocks, frees, NONE) && Apart(used, blocks, NONE)
      && available == FreeBytes(used, blocks) && poolSize - available <= maxUsed
    }

    ghost function InUse(): map<int, int>
      reads this
    {
      Users(used, next, blocks)
    }

    /** One free block that fills the pool. */
    constructor (start: int, size: nat)
      requires 0 < start && start + size <= U32 && size >= 2 * ITEM
      ensures Valid() && this.start == start && poolSize == size / 4 * 4
      ensures blocks == [start, start + poolSize - ITEM] && frees == [start] && available == poolSize - 2 * ITEM && InUse() == map[]
    {
      this.start, poolSize := start, size / 4 * 4;
      var n := size / 4 * 4;
      var tail := start + n - ITEM;
      available, maxUsed := n - 2 * ITEM, 2 * ITEM;
      next := map[start := tail, tail := start];
      prev := map[start := tail, tail := start];
      nextFree := map[HEAD := start, start := HEAD];
      prevFree := map[HEAD := start, start := HEAD];
      used := map[start := false, tail := true];
      mem := seq(n, i => 0);
      blocks, frees := [start, tail], [start];
      new;
      OneBlock(start, n, next, prev, nextFree, prevFree, used);
    }

    // ------------------------------------------------------------ steps on the rings

    // behind the header of the free list
    method PushFree(x: int)
      requires Linked(nextFree, prevFree, [HEAD] + frees) && x != HEAD && x !in frees
      modifies this`nextFree, this`prevFree, this`frees
      ensures Linked(nextFree, prevFree, [HEAD] + frees) && frees == [x] + old(frees)
    {
      ghost var ring := [HEAD] + frees;
      InsertLinked(nextFree, prevFree, ring, 0, x);
      assert LinkedAt(nextFree, prevFree, ring, 0);
      assert Inserted(ring, 0, x) == [HEAD] + ([x] + frees);
      var n := nextFree[HEAD];
      nextFree, prevFree := nextFree[x := n], prevFree[x := HEAD];
      prevFree := prevFree[n := x];
      nextFree := nextFree[HEAD := x];
      frees := [x] + frees;
    }

    method PullFree(x: int, ghost j: nat)
      requires Linked(nextFree, prevFree, [HEAD] + frees) && j < |frees| && frees[j] == x
      modifies this`nextFree, this`prevFree, this`frees
      ensures Linked(nextFree, prevFree, [HEAD] + frees) && frees == Removed(old(frees), j)
    {
      ghost var ring := [HEAD] + frees;
      assert LinkedAt(nextFree, prevFree, ring, j + 1);
      RemoveLinked(nextFree, prevFree, ring, j + 1);
      assert Removed(ring, j + 1) == [HEAD] + Removed(frees, j);
      prevFree := prevFree[nextFree[x] := prevFree[x]];
      nextFree := nextFree[prevFree[x] := nextFree[x]];
      frees := Removed(frees, j);
    }

    // a new free block behind block h, not in the free list yet
    method Split(h: int, x: int, header: Memory, ghost i: nat)
      requires Rings() && (x - start) % 4 == 0 && i + 1 < |blocks| && blocks[i] == h && h + ITEM <= x && x + ITEM <= blocks[i + 1] && |header| == ITEM && h in used
      modifies this`next, this`prev, this`used, this`mem, this`blocks
      ensures Rings() && blocks == Inserted(old(blocks), i, x) && used == old(used)[x := false] && x !in old(blocks)
      ensures InUse() == if old(used[h]) then old(InUse())[h := x - h - ITEM] else old(InUse())
      ensures Intact(old(mem), mem, start, old(InUse()) - {h}) && Bytes(mem, start, h, x - h - ITEM) == Bytes(old(mem), start, h, x - h - ITEM)
    {
      hide Linked;
      hide Tiles;
      hide Users;
      hide Aligned;
      hide Patched;
      hide Intact;
      hide Bytes;
      SplitTiles(start, poolSize, blocks, i, x);
      AlignedInserted(start, blocks, i, x);
      LinksAt(next, prev, blocks, i);
      InsertLinked(next, prev, blocks, i, x);
      UsersSplit(used, next, blocks, i, x);
      InPool(start, poolSize, blocks, i, x);
      HeaderKeeps(mem, start, poolSize, used, next, prev, blocks, i, x, header);
      mem := Patched(mem, x - start, header);
      used := used[x := false];
      var n := next[h];
      prev, next := prev[x := h], next[x := n];
      prev := prev[n := x];
      next := next[h := x];
      blocks := Inserted(blocks, i, x);
    }

    // a free block, not in the free list any more, becomes a part of the one before it
    method Merge(b: int, ghost k: nat)
      requires Rings() && 0 < k < |blocks| - 1 && blocks[k] == b && b in used && !used[b] && blocks[k - 1] in used
      modifies this`next, this`prev, this`blocks
      ensures Rings() && blocks == Removed(old(blocks), k)
      ensures old(blocks)[k - 1] in next && next[old(blocks)[k - 1]] == old(blocks)[k + 1]
      ensures InUse() == if used[old(blocks)[k - 1]] then old(InUse())[old(blocks)[k - 1] := old(blocks)[k + 1] - old(blocks)[k - 1] - ITEM] else old(InUse())
    {
      hide Removed;
      hide Linked;
      hide Tiles;
      hide Users;
      hide Aligned;
      hide Patched;
      hide Intact;
      hide Bytes;
      MergeTiles(start, poolSize, blocks, k);
      InOrder(start, poolSize, blocks);
      AlignedRemoved(start, blocks, k);
      LinksAt(next, prev, blocks, k);
      LinksAt(next, prev, blocks, k - 1);
      RemoveLinked(next, prev, blocks, k);
      UsersMerge(used, next, blocks, k);
      var p, n := prev[b], next[b];
      assert p == blocks[k - 1] && n == blocks[k + 1];
      prev := prev[n := p];
      next := next[p := n];
      blocks := Removed(blocks, k);
    }

    // ------------------------------------------------------------ allocating

    ghost function SizeAt(b: int): int
      reads this
    {
      if b in next then next[b] - b - ITEM else 0
    }

    /** Walks the free list up to the first block that is large enough. */
    method FirstFit(n: nat) returns (h: int, size: int, ghost j: nat)
      requires Valid() && n > 0
      ensures j <= |frees| && (j < |frees| <==> size >= n)
      ensures j < |frees| ==> h == frees[j] && size == SizeAt(h)
      ensures forall m :: 0 <= m < j ==> SizeAt(frees[m]) < n
    {
      hide Tiles;
      hide Linked;
      hide Marks;
      hide Apart;
      ghost var ring := [HEAD] + frees;
      LinksAt(nextFree, prevFree, ring, 0);
      h, size, j := nextFree[HEAD], 0, 0;
      while h != HEAD && size < n
        invariant j <= |frees| && h == (if j < |frees| then frees[j] else HEAD)
        invariant size >= n ==> j < |frees| && size == SizeAt(h)
        invariant forall m :: 0 <= m < j ==> SizeAt(frees[m]) < n
        decreases |frees| - j, n - size
      {
        FreeOrHead(nextFree, prevFree, frees, j);
        ghost var i := FreeIsBlock(next, prev, used, blocks, frees, start, poolSize, j);
        size := next[h] - h - ITEM;
        if size < n {
          LinksAt(nextFree, prevFree, ring, j + 1);
          h, j := nextFree[h], j + 1;
        }
      }
      if h == HEAD { FreeOrHead(nextFree, prevFree, frees, j); }
    }

    // the front of free block h, the rest stays free
    method TakeFront(h: int, n: nat, header: Memory, ghost j: nat, ghost i: nat)
      requires Valid() && j < |frees| && frees[j] == h && i + 1 < |blocks| && blocks[i] == h && |header| == ITEM
      requires h + ITEM + n + ITEM <= blocks[i + 1] && n % 4 == 0
      modifies this
      ensures maxUsed == Max(old(maxUsed), poolSize - available)
      ensures Valid() && InUse() == old(InUse())[h := n] && h !in old(InUse()) && Intact(old(mem), mem, start, old(InUse()))
      ensures blocks == Inserted(old(blocks), i, h + ITEM + n) && frees == [h + ITEM + n] + Removed(old(frees), j)
    {
      hide Tiles;
      hide Linked;
      hide Marks;
      hide Apart;
      hide Users;
      hide Aligned;
      hide Intact;
      hide Bytes;
      hide FreeBytes;
      hide Distinct;
      hide Patched;
      hide IsUser;
      AlignedAt(start, blocks, i);
      ghost var x := h + ITEM + n;
      ghost var i' := FreeIsBlock(next, prev, used, blocks, frees, start, poolSize, j);
      FreeOrHead(nextFree, prevFree, frees, j);
      ghost var u := FrontTaken(used, next, prev, blocks, frees, start, poolSize, i, j, x);
      ghost var users := InUse();
      NotUser(used, next, blocks, h);
      Split(h, h + ITEM + n, header, i);
      UsersUseAt(used, next, prev, blocks, start, poolSize, i, true);
      PullFree(h, j);
      PushFree(h + ITEM + n);
      available := available - n - ITEM;
      if poolSize - available > maxUsed { maxUsed := poolSize - available; }
      used := used[h := true];
    }

    // all of free block h
    method TakeWhole(h: int, size: int, ghost j: nat, ghost i: nat)
      requires Valid() && j < |frees| && frees[j] == h && i + 1 < |blocks| && blocks[i] == h && size == blocks[i + 1] - h - ITEM
      modifies this
      ensures maxUsed == Max(old(maxUsed), poolSize - available)
      ensures Valid() && InUse() == old(InUse())[h := size] && h !in old(InUse()) && mem == old(mem)
      ensures blocks == old(blocks) && frees == Removed(old(frees), j)
    {
      hide Tiles;
      hide Linked;
      hide Marks;
      hide Apart;
      hide Users;
      hide Aligned;
      hide FreeBytes;
      hide IsUser;
      FreeOrHead(nextFree, prevFree, frees, j);
      MarksHave(used, blocks, frees, i, j);
      MarksPull(used, blocks, frees, j);
      MarksUse(used, blocks, Removed(frees, j), h);
      ApartUse(used, blocks, h, NONE);
      InOrder(start, poolSize, blocks);
      FreeBytesFlip(used, blocks, i, true);
      NotUser(used, next, blocks, h);
      UsersUseAt(used, next, prev, blocks, start, poolSize, i, true);
      available := available - size;
      if poolSize - available > maxUsed { maxUsed := poolSize - available; }
      PullFree(h, j);
      used := used[h := true];
    }

    /** Some free block is large enough, and more is free than is needed. */
    ghost predicate CanAlloc(n: nat)
      reads this
    {
      n < available && exists j :: 0 <= j < |frees| && SizeAt(frees[j]) >= n
    }

    /** Allocates the first free block that is large enough, and splits it if enough is left. It
        fails exactly if no free block is large enough or all that is free together is no more
        than what is needed. */
    method Alloc(size: nat, header: Memory) returns (ptr: int)
      requires Valid() && size < U32 && |header| == ITEM
      modifies this
      ensures maxUsed == Max(old(maxUsed), poolSize - available)
      ensures Valid() && Intact(old(mem), mem, start, old(InUse()))
      ensures ptr == 0 <==> !old(CanAlloc(Need(size)))
      ensures ptr == 0 ==> InUse() == old(InUse()) && blocks == old(blocks) && frees == old(frees) && mem == old(mem)
      ensures ptr != 0 ==>
                var h := ptr - ITEM;
                && h !in old(InUse()) && h in InUse() && InUse() == old(InUse())[h := InUse()[h]]
                && Need(size) <= InUse()[h] == Share(old(SizeAt(h)), Need(size))
                && exists j: nat :: j < |old(frees)| && old(frees)[j] == h && (forall m :: 0 <= m < j ==> old(SizeAt(frees[m])) < Need(size))
                           && frees == (if InUse()[h] < old(SizeAt(h)) then [ptr + Need(size)] else []) + Removed(old(frees), j)
    {
      hide Tiles;
      hide Linked;
      hide Marks;
      hide Apart;
      hide Users;
      hide Aligned;
      hide FreeBytes;
      hide Align;
      hide Bytes;
      ptr := 0;
      var n := Need(size);
      NeedMultiple(size);
      if n < available {
        var h, free, j := FirstFit(n);
        if free >= n {
          ghost var i := FreeIsBlock(next, prev, used, blocks, frees, start, poolSize, j);
          InPoolAt(start, poolSize, blocks, i);
          if free >= n + ITEM + MINI {
            TakeFront(h, n, header, j, i);
          } else {
            TakeWhole(h, free, j, i);
          }
          ptr := h + ITEM;
        }
      }
    }

    // ------------------------------------------------------------ freeing

    /** In the middle of a change: block h is free, and in the free list unless it is but. */
    ghost predicate Changing(h: int, but: int, c: nat)
      reads this
    {
      && Rings() && Marks(used, blocks, frees, but) && Apart(used, blocks, h)
      && c + 1 < |blocks| && blocks[c] == h && h in used && !used[h] && (but == NONE || but == h)
    }

    ghost predicate Loose(h: int, but: int, c: nat)
      reads this
    {
      Changing(h, but, c) && available == FreeBytes(used, blocks) && poolSize - available <= maxUsed
    }

    // the free block behind h becomes a part of it
    method Absorb(h: int, ghost but: int, ghost c: nat)
      requires Changing(h, but, c) && h in next && next[h] == blocks[c + 1] && blocks[c + 1] in used && !used[blocks[c + 1]]
      requires c + 2 < |blocks|
      modifies this`next, this`prev, this`blocks, this`nextFree, this`prevFree, this`frees
      ensures Changing(h, but, c) && InUse() == old(InUse()) && blocks == Removed(old(blocks), c + 1)
      ensures FreeBytes(used, blocks) == FreeBytes(used, old(blocks)) + ITEM
      ensures Pulled(old(frees), frees, old(next[h]))
    {
      hide Tiles;
      hide Linked;
      hide Marks;
      hide Apart;
      hide Users;
      hide Aligned;
      hide FreeBytes;
      InOrder(start, poolSize, blocks);
      SameNode(blocks, c, c + 1);
      ghost var j := FreePlace(used, blocks, frees, but, c + 1);
      FreeOrHead(nextFree, prevFree, frees, j);
      MarksMergeFree(used, blocks, frees, c + 1, j, but);
      ApartMerge(used, blocks, c + 1, h);
      FreeBytesMerge(used, blocks, c + 1);
      var n := next[h];
      Merge(n, c + 1);
      PullFree(n, j);
    }

    // h becomes a part of the free block before it
    method JoinPrev(h: int, ghost c: nat)
      requires Loose(h, h, c) && c > 0 && blocks[c - 1] in used && !used[blocks[c - 1]]
      modifies this`available, this`next, this`prev, this`blocks
      ensures Loose(old(blocks)[c - 1], NONE, c - 1) && InUse() == old(InUse()) && blocks == Removed(old(blocks), c)
      ensures old(blocks)[c - 1] in next && next[old(blocks)[c - 1]] == old(blocks)[c + 1]
    {
      hide Tiles;
      hide Linked;
      hide Marks;
      hide Apart;
      hide Users;
      hide Aligned;
      hide FreeBytes;
      InOrder(start, poolSize, blocks);
      MarksMergeThis(used, blocks, frees, c);
      ApartMerge(used, blocks, c, h);
      FreeBytesMerge(used, blocks, c);
      available := available + ITEM;
      Merge(h, c);
    }

    // the block before h is in use, and if the one behind it is free, the next one is in use
    ghost predicate Settled(c: nat)
      reads this
    {
      && (c > 0 && c < |blocks| ==> blocks[c - 1] in used && used[blocks[c - 1]])
      && (c + 1 < |blocks| ==> blocks[c + 1] in used)
      && (c + 2 < |blocks| && blocks[c + 1] in used && !used[blocks[c + 1]] ==> blocks[c + 2] in used && used[blocks[c + 2]])
    }

    ghost predicate Unused(b: int)
      reads this
    {
      b in used && !used[b]
    }

    // the block behind h
    ghost function Behind(h: int): int
      reads this
    {
      if h in next then next[h] else h
    }

    // h is behind a block in use
    ghost predicate Follows(h: int)
      reads this
    {
      h in prev && !Unused(prev[h])
    }

    // marks h free, and joins it with the block before it if that is free
    method Loosen(h: int, ghost i: nat) returns (header: int, insert: bool, ghost c: nat)
      requires Valid() && i + 1 < |blocks| && blocks[i] == h && h in used && used[h]
      modifies this`available, this`next, this`prev, this`blocks, this`used
      ensures Loose(header, if insert then header else NONE, c) && Settled(c) && InUse() == old(InUse()) - {h}
      ensures header in next && next[header] == old(Behind(h)) && insert == old(Follows(h)) && (insert ==> header == h)
      ensures Unused(next[header]) == old(Unused(Behind(h)))
    {
      hide Tiles;
      hide Linked;
      hide Marks;
      hide Apart;
      hide Users;
      hide Aligned;
      hide FreeBytes;
      ghost var last := |blocks| - 1;
      LinksAt(next, prev, blocks, i);
      SameNode(blocks, i, last);
      Increasing(start, poolSize, blocks, i, i + 1);
      Around(used, blocks, frees, i);
      FreedBlock(used, blocks, frees, start, poolSize, i);
      UsersUseAt(used, next, prev, blocks, start, poolSize, i, false);
      used := used[h := false];
      available := available + (next[h] - h - ITEM);
      ghost var b0 := blocks;
      header, insert, c := h, true, i;
      if !used[prev[h]] {
        var p := prev[h];
        JoinPrev(h, i);
        header, insert, c := p, false, i - 1;
      }
    }

    // joins it with the block behind it if that is free
    method JoinBehind(h: int, ghost but: int, ghost c: nat)
      requires Loose(h, but, c) && Settled(c) && h in next
      modifies this`available, this`next, this`prev, this`blocks, this`nextFree, this`prevFree, this`frees
      ensures Loose(h, but, c) && InUse() == old(InUse())
      ensures if old(Unused(next[h])) then Pulled(old(frees), frees, old(next[h])) else frees == old(frees)
      ensures c > 0 ==> blocks[c - 1] in used && used[blocks[c - 1]]
      ensures blocks[c + 1] in used && used[blocks[c + 1]]
    {
      hide Tiles;
      hide Linked;
      hide Marks;
      hide Apart;
      hide Users;
      hide Aligned;
      hide FreeBytes;
      LinksAt(next, prev, blocks, c);
      LastUsed(used, blocks, frees, but);
      if !used[next[h]] {
        available := available + ITEM;
        Absorb(h, but, c);
      }
    }

    // the free list has it again
    method PutBack(h: int, insert: bool, ghost c: nat)
      requires Loose(h, if insert then h else NONE, c)
      requires c > 0 ==> blocks[c - 1] in used && used[blocks[c - 1]]
      requires blocks[c + 1] in used && used[blocks[c + 1]]
      modifies this`nextFree, this`prevFree, this`frees
      ensures Valid() && InUse() == old(InUse()) && frees == (if insert then [h] else []) + old(frees)
    {
      hide Tiles;
      hide Linked;
      hide Marks;
      hide Apart;
      hide Users;
      hide Aligned;
      hide FreeBytes;
      if insert {
        MarksPush(used, blocks, frees, h);
        InPoolAt(start, poolSize, blocks, c);
        NotInFree(used, blocks, frees, h);
        PushFree(h);
      }
      InOrder(start, poolSize, blocks);
      ApartDone(used, blocks, c);
    }

    /** Gives a block back: it and the free blocks around it become one free block. Freeing a
        block that is not in use, or nothing, does nothing. */
    method Free(ptr: int, ghost i: nat)
      requires Valid() && (ptr != 0 ==> i + 1 < |blocks| && blocks[i] == ptr - ITEM)
      modifies this
      ensures maxUsed == old(maxUsed)
      ensures Valid() && mem == old(mem) && InUse() == old(InUse()) - {ptr - ITEM}
      ensures ptr == 0 || ptr - ITEM !in old(InUse()) ==> blocks == old(blocks) && frees == old(frees)
      ensures ptr != 0 && ptr - ITEM in old(InUse()) ==>
                Relisted(old(frees), frees, if old(Follows(ptr - ITEM)) then [ptr - ITEM] else [],
                         old(Unused(Behind(ptr - ITEM))), old(Behind(ptr - ITEM)))
    {
      hide Tiles;
      hide Linked;
      hide Marks;
      hide Apart;
      hide Users;
      hide Aligned;
      hide FreeBytes;
      if ptr == 0 {
        NoUserOutside(used, next, blocks, start, poolSize, -ITEM);
        return;
      }
      var h := ptr - ITEM;
      MarkedAt(used, blocks, frees, NONE, i);
      UserIsAt(used, next, prev, blocks, i);
      if !used[h] {
        return;
      }
      var header, insert, c := Loosen(h, i);
      JoinBehind(header, if insert then header else NONE, c);
      ghost var f := frees;
      assert if old(Unused(Behind(h))) then Pulled(old(frees), f, old(Behind(h))) else f == old(frees);
      PutBack(header, insert, c);
      assert frees == (if old(Follows(h)) then [h] else []) + f;
    }

    // ------------------------------------------------------------ reallocating

    // makes the block in front of a free one larger
    method Grow(h: int, n: nat, header: Memory, ghost i: nat)
      requires Valid() && i + 2 < |blocks| && blocks[i] == h && h in used && used[h] && |header| == ITEM
      requires blocks[i + 1] in used && !used[blocks[i + 1]] && h in InUse()
      requires InUse()[h] == blocks[i + 1] - h - ITEM < n && h + n + 2 * ITEM <= blocks[i + 2] && n % 4 == 0
      modifies this
      ensures maxUsed == Max(old(maxUsed), poolSize - available)
      ensures Valid() && InUse() == old(InUse())[h := n] && Intact(old(mem), mem, start, old(InUse()) - {h})
      ensures Bytes(mem, start, h, n) == Bytes(old(mem), start, h, n)
    {
      hide Removed;
      hide Distinct;
      hide Tiles;
      hide Linked;
      hide Marks;
      hide Apart;
      hide Users;
      hide Aligned;
      hide FreeBytes;
      hide Bytes;
      hide Intact;
      AlignedAt(start, blocks, i);
      ghost var x, nb := h + ITEM + n, blocks[i + 1];
      ghost var j := FreePlace(used, blocks, frees, NONE, i + 1);
      LinksAt(next, prev, blocks, i);
      FreeOrHead(nextFree, prevFree, frees, j);
      Grown(used, blocks, frees, start, poolSize, i, j, x);
      ghost var users := InUse();
      available := available - (h + ITEM + n - next[h]);
      if poolSize - available > maxUsed { maxUsed := poolSize - available; }
      var b := next[h];
      PullFree(b, j);
      Merge(b, i + 1);
      assert InUse() - {h} == users - {h};
      Split(h, h + ITEM + n, header, i);
      PushFree(h + ITEM + n);
    }

    // cuts the end of a block in use off
    method CutOff(h: int, n: nat, header: Memory, ghost i: nat)
      requires Valid() && i + 1 < |blocks| && blocks[i] == h && h in used && used[h] && |header| == ITEM
      requires h + n + 2 * ITEM <= blocks[i + 1] && n % 4 == 0
      modifies this`next, this`prev, this`used, this`mem, this`blocks
      ensures Changing(h + ITEM + n, h + ITEM + n, i + 1) && Settled(i + 1)
      ensures available + (blocks[i + 2] - blocks[i + 1] - ITEM) == FreeBytes(used, blocks)
      ensures InUse() == old(InUse())[h := n] && Intact(old(mem), mem, start, old(InUse()) - {h})
      ensures Bytes(mem, start, h, n) == Bytes(old(mem), start, h, n)
    {
      hide Tiles;
      hide Linked;
      hide Marks;
      hide Apart;
      hide Users;
      hide Aligned;
      hide FreeBytes;
      hide Bytes;
      hide Intact;
      AlignedAt(start, blocks, i);
      Shrunk(used, blocks, frees, start, poolSize, i, h + ITEM + n);
      Split(h, h + ITEM + n, header, i);
    }

    // a free block, not counted yet, is joined with the one behind it if that is free
    method GiveBack(x: int, ghost c: nat)
      requires Changing(x, x, c) && Settled(c) && c > 0 && poolSize - available <= maxUsed
      requires available + (blocks[c + 1] - x - ITEM) == FreeBytes(used, blocks)
      modifies this`available, this`next, this`prev, this`blocks, this`nextFree, this`prevFree, this`frees
      ensures Valid() && InUse() == old(InUse())
    {
      hide Tiles;
      hide Linked;
      hide Marks;
      hide Apart;
      hide Users;
      hide Aligned;
      hide FreeBytes;
      LinksAt(next, prev, blocks, c);
      LastUsed(used, blocks, frees, x);
      Increasing(start, poolSize, blocks, c, c + 1);
      if !used[next[x]] {
        LinksAt(next, prev, blocks, c + 1);
        available := available - (next[next[x]] - next[x] - ITEM);
        Absorb(x, x, c);
        LinksAt(next, prev, blocks, c);
      }
      Increasing(start, poolSize, blocks, c, c + 1);
      available := available + (next[x] - x - ITEM);
      PutBack(x, true, c);
    }

    // gives back the end of a block in use
    method Shrink(h: int, n: nat, header: Memory, ghost i: nat)
      requires Valid() && i + 1 < |blocks| && blocks[i] == h && h in used && used[h] && |header| == ITEM
      requires h + n + 2 * ITEM <= blocks[i + 1] && n % 4 == 0
      modifies this
      ensures maxUsed == old(maxUsed)
      ensures Valid() && InUse() == old(InUse())[h := n] && Intact(old(mem), mem, start, old(InUse()) - {h})
      ensures Bytes(mem, start, h, n) == Bytes(old(mem), start, h, n)
    {
      hide Tiles;
      hide Linked;
      hide Marks;
      hide Apart;
      hide Users;
      hide Aligned;
      hide FreeBytes;
      CutOff(h, n, header, i);
      GiveBack(h + ITEM + n, i + 1);
    }

    // ------------------------------------------------------------ copying

    /** Copies bytes, from the front or from the back so that overlapping ranges do not matter. */
    method MemCopy(dst: nat, src: nat, count: nat)
      requires dst + count <= |mem| && src + count <= |mem|
      modifies this`mem
      ensures mem == Patched(old(mem), dst, old(mem)[src..src + count])
    {
      hide Moving;
      ghost var m := mem;
      if dst <= src || dst > src + count {
        var i := 0;
        MovingStarts(m, dst, src, count);
        while i < count
          invariant 0 <= i <= count && Moving(m, mem, dst, src, count, 0, i)
        {
          MovingSize(m, mem, dst, src, count, 0, i);
          MoveForward(m, mem, dst, src, count, i);
          mem := mem[dst + i := mem[src + i]];
          i := i + 1;
        }
        MovingEnds(m, mem, dst, src, count);
      } else {
        var len := count;
        MovingStarts(m, dst, src, count);
        while len > 0
          invariant 0 <= len <= count && Moving(m, mem, dst, src, count, len, count)
        {
          MovingSize(m, mem, dst, src, count, len, count);
          MoveBackward(m, mem, dst, src, count, len);
          mem := mem[dst + len - 1 := mem[src + len - 1]];
          len := len - 1;
        }
        MovingEnds(m, mem, dst, src, count);
      }
    }

    // the place of a user's block
    ghost method Place(h: int) returns (i: nat)
      requires Rings() && h in InUse()
      ensures i + 1 < |blocks| && blocks[i] == h && h in used && used[h] && h in next && next[h] == blocks[i + 1]
      ensures InUse()[h] == blocks[i + 1] - h - ITEM >= 0 && start <= h && blocks[i + 1] <= start + poolSize - ITEM
    {
      assert IsUser(used, next, blocks, h);
      i :| 0 <= i < |blocks| && blocks[i] == h;
      LinksAt(next, prev, blocks, i);
      Increasing(start, poolSize, blocks, i, i + 1);
      InPoolAt(start, poolSize, blocks, i);
      InPoolAt(start, poolSize, blocks, i + 1);
    }

    /** The request is not so large that the guard for growing in place overflows, or the guard
        is not asked. */
    ghost predicate GuardHolds(ptr: int, size: nat)
      reads this
    {
      var h := ptr - ITEM;
      size < U32 && (Need(size) < U32 - MINI || (h in next && next[h] in used && used[next[h]]))
    }

    /** The block behind h is free, and both together have more room than asked for. */
    ghost predicate CanGrow(h: int, n: nat)
      reads this
    {
      && h in next && next[h] in used && !used[next[h]]
      && SizeAt(h) + SizeAt(next[h]) > n + MINI
    }

    // a larger block: into the free block behind it, or somewhere else
    method Larger(ptr: int, n: nat, header: Memory) returns (r: int)
      requires Valid() && ptr - ITEM in InUse() && |header| == ITEM
      requires Need(n) == n && GuardHolds(ptr, n) && InUse()[ptr - ITEM] < n
      modifies this
      ensures Valid()
      ensures r == 0 <==> !old(CanGrow(ptr - ITEM, n)) && !old(CanAlloc(n))
      ensures old(CanGrow(ptr - ITEM, n)) ==> r == ptr && InUse() == old(InUse())[ptr - ITEM := n]
      ensures r == 0 ==> InUse() == old(InUse()) && Intact(old(mem), mem, start, old(InUse()))
      ensures r != 0 ==>
                var h, b, m := ptr - ITEM, r - ITEM, old(InUse())[ptr - ITEM];
                && b in InUse() && InUse()[b] >= n && InUse() == (old(InUse()) - {h})[b := InUse()[b]]
                && Bytes(mem, start, b, m) == Bytes(old(mem), start, h, m)
                && Intact(old(mem), mem, start, old(InUse()) - {h})
    {
      hide CanAlloc;
      hide Need;
      hide Distinct;
      hide Tiles;
      hide Linked;
      hide Marks;
      hide Apart;
      hide Users;
      hide Aligned;
      hide FreeBytes;
      hide Bytes;
      hide Intact;
      hide Align;
      var h := ptr - ITEM;
      NeedMultiple(n);
      ghost var i := Place(h);
      ghost var users, mem0 := InUse(), mem;
      var oldsize := next[h] - h - ITEM;
      InOrder(start, poolSize, blocks);
      Around(used, blocks, frees, i);
      LastUsed(used, blocks, frees, NONE);
      if !used[next[h]] {
        LinksAt(next, prev, blocks, i + 1);
        Increasing(start, poolSize, blocks, i + 1, i + 2);
        InPoolAt(start, poolSize, blocks, i + 2);
        var nextsize := next[next[h]] - next[h] - ITEM;
        if RoomToGrow(nextsize + oldsize, n) {
          Grow(h, n, header, i);
          BytesFront(mem0, mem, start, h, oldsize, n);
          return ptr;
        }
      }
      r := Alloc(n, header);
      if r != 0 {
        Move(r, ptr, oldsize, users, mem0);
      }
    }

    // copies to the new block and frees the old one
    method Move(r: int, ptr: int, size: nat, ghost users: map<int, int>, ghost mem0: Memory)
      requires Valid() && r - ITEM in InUse() && ptr - ITEM in users && users[ptr - ITEM] == size < InUse()[r - ITEM] && r - ITEM !in users
      requires InUse() == users[r - ITEM := InUse()[r - ITEM]] && Intact(mem0, mem, start, users)
      modifies this
      ensures Valid() && InUse() == old(InUse()) - {ptr - ITEM}
      ensures Bytes(mem, start, r - ITEM, size) == Bytes(mem0, start, ptr - ITEM, size) && Intact(mem0, mem, start, users - {ptr - ITEM})
    {
      hide Tiles;
      hide Linked;
      hide Marks;
      hide Apart;
      hide Users;
      hide Aligned;
      hide FreeBytes;
      hide Bytes;
      hide Intact;
      ghost var i := Place(ptr - ITEM);
      ghost var k := Place(r - ITEM);
      WriteInside(mem, start, poolSize, used, next, prev, blocks, k, mem[ptr - start..ptr - start + size]);
      BytesAre(mem, start, ptr - ITEM, size);
      Moved(mem0, mem, Patched(mem, r - start, mem[ptr - start..ptr - start + size]), start, users, InUse(), r - ITEM, ptr - ITEM);
      MemCopy(r - start, ptr - start, size);
      Free(ptr, i);
    }

    /** Changes the size of a block in use. What is returned has at least the size asked for and
        holds what the old block held, as far as both go; the other users are not affected.
        Without enough memory nothing changes. */
    method Resize(ptr: int, newsize: nat, header: Memory) returns (r: int)
      requires Valid() && ptr - ITEM in InUse() && GuardHolds(ptr, newsize) && |header| == ITEM
      modifies this
      ensures Valid()
      ensures r == 0 <==> old(InUse())[ptr - ITEM] < Need(newsize) && !old(CanGrow(ptr - ITEM, Need(newsize))) && !old(CanAlloc(Need(newsize)))
      ensures old(InUse())[ptr - ITEM] >= Need(newsize) ==>
                r == ptr && ptr - ITEM in InUse() && InUse()[ptr - ITEM] == Cut(old(InUse())[ptr - ITEM], Need(newsize))
      ensures r == 0 ==> InUse() == old(InUse()) && Intact(old(mem), mem, start, old(InUse()))
      ensures r != 0 ==>
                var h, b, m := ptr - ITEM, r - ITEM, Min(old(InUse())[ptr - ITEM], Need(newsize));
                && b in InUse() && InUse()[b] >= Need(newsize) && InUse() == (old(InUse()) - {h})[b := InUse()[b]]
                && Bytes(mem, start, b, m) == Bytes(old(mem), start, h, m)
                && Intact(old(mem), mem, start, old(InUse()) - {h})
    {
      hide Tiles;
      hide Linked;
      hide Marks;
      hide Apart;
      hide Users;
      hide Aligned;
      hide FreeBytes;
      hide Bytes;
      hide Intact;
      hide Align;
      hide Apart;
      var n := Need(newsize);
      NeedMultiple(newsize);
      NeedTwice(newsize);
      var h := ptr - ITEM;
      ghost var i := Place(h);
      ghost var mem0 := mem;
      var oldsize := next[h] - h - ITEM;
      if n > oldsize {
        NeedLimit(newsize);
        r := Larger(ptr, n, header);
      } else if n + ITEM + MINI >= oldsize {
        IntactItself(mem, start, InUse());
        IntactItself(mem, start, InUse() - {h});
        r := ptr;
      } else {
        Shrink(h, n, header, i);
        r := ptr;
      }
    }

    /** All that reallocation does: it frees, allocates, or changes the size of a block. */
    method Realloc(ptr: int, newsize: nat, header: Memory, ghost i: nat) returns (r: int)
      requires Valid() && newsize < U32 && |header| == ITEM
      requires ptr != 0 ==> ptr - ITEM in InUse() && (newsize == 0 || GuardHolds(ptr, newsize)) && i + 1 < |blocks| && blocks[i] == ptr - ITEM
      modifies this
      ensures Valid()
      ensures newsize == 0 ==> r == 0 && mem == old(mem) && InUse() == old(InUse()) - {ptr - ITEM}
      ensures newsize > 0 ==>
                (r == 0 <==> !old(CanAlloc(Need(newsize)))
                             && (ptr == 0 || (old(InUse())[ptr - ITEM] < Need(newsize) && !old(CanGrow(ptr - ITEM, Need(newsize))))))
      ensures newsize > 0 && r == 0 ==> InUse() == old(InUse()) && Intact(old(mem), mem, start, old(InUse()))
      ensures newsize > 0 && r != 0 ==>
                var h, b := ptr - ITEM, r - ITEM;
                && b in InUse() && InUse()[b] >= Need(newsize) && InUse() == (old(InUse()) - {h})[b := InUse()[b]]
                && Intact(old(mem), mem, start, old(InUse()) - {h})
                && (ptr != 0 ==> var m := Min(old(InUse())[h], Need(newsize)); Bytes(mem, start, b, m) == Bytes(old(mem), start, h, m))
    {
      hide Tiles;
      hide Linked;
      hide Marks;
      hide Apart;
      hide Users;
      hide Aligned;
      hide FreeBytes;
      hide Bytes;
      hide Intact;
      hide Align;
      if newsize == 0 {
        Free(ptr, i);
        return 0;
      }
      if ptr == 0 {
        NeedTwice(newsize);
        NeedLimit(newsize);
        NoUserOutside(used, next, blocks, start, poolSize, -ITEM);
        r := Alloc(Need(newsize), header);
      } else {
        r := Resize(ptr, newsize, header);
      }
    }
  }


  /** The guard for growing in place, in 32-bit arithmetic. */
  predicate RoomToGrow(room: nat, n: nat) { room > (n + MINI) % U32 }

  /** The guard asks for room exactly if the request does not come within twelve bytes of the
      32-bit limit. */
  lemma RoomToGrowIff(n: nat)
    requires n < U32
    ensures (forall room: nat :: room < U32 ==> (RoomToGrow(room, n) <==> room > n + MINI)) <==> n < U32 - MINI
  {
    if n >= U32 - MINI {
      assert (n + MINI) % U32 == n + MINI - U32;
      assert RoomToGrow(U32 - 1, n);
    }
  }

  /** What is taken of a free block: a rest that is large enough becomes a block of its own. */
  function Share(size: int, n: nat): int { if size >= n + ITEM + MINI then n else size }

  /** What a block is cut to: a rest that is too small for a block of its own stays. */
  function Cut(size: int, n: nat): int { if n + ITEM + MINI >= size then size else n }

  lemma NeedLimit(size: nat)
    requires size < U32
    ensures Need(size) < U32
  {}

  /** For the requests that come that close, the guard lets any room pass. */
  lemma RoomToGrowWrong(n: nat, room: nat)
    requires U32 - MINI <= n < U32 && n % 4 == 0 && MINI <= room < n
    ensures RoomToGrow(room, n)
  {}

  lemma NeedTwice(size: nat)
    ensures Need(Need(size)) == Need(size)
  {}

  lemma BytesAre(mem: Memory, start: int, b: int, n: nat)
    requires 0 <= b + ITEM - start && b + ITEM - start + n <= |mem|
    ensures Bytes(mem, start, b, n) == mem[b + ITEM - start..b + ITEM - start + n]
  {}

  // a longer range that agrees has a shorter one that does
  lemma BytesFront(mem: Memory, mem': Memory, start: int, b: int, m: int, n: int)
    requires |mem| == |mem'| && m <= n && Bytes(mem', start, b, n) == Bytes(mem, start, b, n)
    requires 0 <= b + ITEM - start && 0 <= n && b + ITEM - start + n <= |mem|
    ensures Bytes(mem', start, b, m) == Bytes(mem, start, b, m)
  {
    if m >= 0 {
      assert Bytes(mem', start, b, m) == Bytes(mem', start, b, n)[..m];
      assert Bytes(mem, start, b, m) == Bytes(mem, start, b, n)[..m];
    }
  }

  /** Bytes written to a user's block leave the other users alone. */
  lemma WriteInside(mem: Memory, start: int, pool: int, used: map<int, bool>, next: map<int, int>, prev: map<int,
                    int>, blocks: seq<int>, i: nat, s: Memory)
    requires Tiles(start, pool, blocks) && Linked(next, prev, blocks) && |mem| == pool && i + 1 < |blocks|
    requires blocks[i] + ITEM + |s| <= blocks[i + 1] && start <= blocks[i] && blocks[i + 1] <= start + pool - ITEM
    ensures Intact(mem, Patched(mem, blocks[i] + ITEM - start, s), start, Users(used, next, blocks) - {blocks[i]})
    ensures Bytes(Patched(mem, blocks[i] + ITEM - start, s), start, blocks[i], |s|) == s
  {
    hide Linked;
    hide Tiles;
    hide Patched;
    hide Bytes;
    var at := blocks[i] + ITEM - start;
    var users, mem' := Users(used, next, blocks) - {blocks[i]}, Patched(mem, at, s);
    forall b | b in users ensures Bytes(mem', start, b, users[b]) == Bytes(mem, start, b, users[b]) {
      var m :| 0 <= m < |blocks| && blocks[m] == b;
      OtherBlock(start, pool, blocks, next, prev, i, m);
      BytesElsewhere(mem, at, s, start, b, users[b]);
    }
    BytesThere(mem, at, s, start, blocks[i]);
  }

  lemma BytesElsewhere(mem: Memory, at: nat, s: Memory, start: int, b: int, n: int)
    requires at + |s| <= |mem| && 0 <= n && 0 <= b + ITEM - start && b + ITEM - start + n <= |mem|
    requires b + ITEM - start + n <= at || at + |s| <= b + ITEM - start
    ensures Bytes(Patched(mem, at, s), start, b, n) == Bytes(mem, start, b, n)
  {
    OverwrittenElsewhere(mem, at, s, b + ITEM - start, b + ITEM - start + n);
  }

  lemma BytesThere(mem: Memory, at: nat, s: Memory, start: int, b: int)
    requires at + |s| <= |mem| && at == b + ITEM - start
    ensures Bytes(Patched(mem, at, s), start, b, |s|) == s
  {
    OverwrittenThere(mem, at, s);
  }

  lemma OverwrittenThere(mem: Memory, at: nat, s: Memory)
    requires at + |s| <= |mem|
    ensures Patched(mem, at, s)[at..at + |s|] == s
  {}

  // block b is taken out of the free list
  ghost predicate Pulled(f0: seq<int>, f1: seq<int>, b: int)
  {
    exists j: nat :: j < |f0| && f0[j] == b && f1 == Removed(f0, j)
  }

  /** The free list with something in front, and without block b if that is free. */
  ghost predicate Relisted(f0: seq<int>, f1: seq<int>, front: seq<int>, free: bool, b: int)
  {
    exists f :: f1 == front + f && if free then Pulled(f0, f, b) else f == f0
  }

  // from the old block over the new one to the users that stay
  lemma Moved(mem0: Memory, mem1: Memory, mem2: Memory, start: int, users: map<int, int>, users': map<int, int>, b: int, h: int)
    requires b in users' && h in users && b !in users && users' == users[b := users'[b]]
    requires Intact(mem0, mem1, start, users) && Intact(mem1, mem2, start, users' - {b})
    ensures Intact(mem0, mem2, start, users - {h})
    ensures Bytes(mem1, start, h, users[h]) == Bytes(mem0, start, h, users[h])
  {
    hide Bytes;
    forall c | c in users - {h} ensures Bytes(mem2, start, c, users[c]) == Bytes(mem0, start, c, users[c]) {
      assert c in users' - {b} && users'[c] == users[c];
    }
  }

  lemma IntactItself(mem: Memory, start: int, users: map<int, int>)
    ensures Intact(mem, mem, start, users)
  {}

  // of count bytes, those from lo to hi are copied
  predicate Moving(m: Memory, now: Memory, dst: nat, src: nat, count: nat, lo: nat, hi: nat)
  {
    && lo <= hi <= count && dst + count <= |m| == |now| && src + count <= |m|
    && forall k: nat :: k < |now| ==> now[k] == From(m, dst, src, lo, hi, k)
  }

  function From(m: Memory, dst: nat, src: nat, lo: nat, hi: nat, k: nat): bv8
    requires lo <= hi && dst + hi <= |m| && src + hi <= |m| && k < |m|
  {
    if dst + lo <= k < dst + hi then m[src + (k - dst)] else m[k]
  }

  lemma MovingStarts(m: Memory, dst: nat, src: nat, count: nat)
    requires dst + count <= |m| && src + count <= |m|
    ensures Moving(m, m, dst, src, count, 0, 0) && Moving(m, m, dst, src, count, count, count)
  {}

  lemma MovingSize(m: Memory, now: Memory, dst: nat, src: nat, count: nat, lo: nat, hi: nat)
    requires Moving(m, now, dst, src, count, lo, hi)
    ensures dst + count <= |m| == |now| && src + count <= |m|
  {}

  lemma MoveForward(m: Memory, now: Memory, dst: nat, src: nat, count: nat, i: nat)
    requires Moving(m, now, dst, src, count, 0, i) && i < count && (dst <= src || dst > src + count)
    ensures src + i < |now| && dst + i < |now| && Moving(m, now[dst + i := now[src + i]], dst, src, count, 0, i + 1)
  {
    assert now[src + i] == m[src + i];
    assert m[src + i] == m[src + (dst + i - dst)];
  }

  lemma MoveBackward(m: Memory, now: Memory, dst: nat, src: nat, count: nat, len: nat)
    requires Moving(m, now, dst, src, count, len, count) && 0 < len && src < dst <= src + count
    ensures src + len - 1 < |now| && dst + len - 1 < |now|
    ensures Moving(m, now[dst + len - 1 := now[src + len - 1]], dst, src, count, len - 1, count)
  {
    assert now[src + len - 1] == m[src + len - 1];
    assert m[src + len - 1] == m[src + (dst + len - 1 - dst)];
  }

  lemma MovingEnds(m: Memory, now: Memory, dst: nat, src: nat, count: nat)
    requires Moving(m, now, dst, src, count, 0, count)
    ensures now == Patched(m, dst, m[src..src + count])
  {
    var s := m[src..src + count];
    var p := Patched(m, dst, s);
    forall k | 0 <= k < |p| ensures p[k] == now[k] {
      if dst <= k < dst + count {
        assert p[k] == p[dst..dst + |s|][k - dst] == s[k - dst] == m[src + (k - dst)];
      } else if k < dst {
        assert p[k] == p[..dst][k] == m[..dst][k];
      } else {
        assert p[k] == p[dst + |s|..][k - dst - |s|] == m[dst + |s|..][k - dst - |s|];
      }
    }
    assert p == now;
  }

  lemma Shrunk(used: map<int, bool>, blocks: seq<int>, frees: seq<int>, start: int, pool: int, i: nat, x: int)
    requires Tiles(start, pool, blocks) && start > 0 && Marks(used, blocks, frees, NONE) && Apart(used, blocks, NONE)
    requires i + 1 < |blocks| && blocks[i] in used && used[blocks[i]] && blocks[i] + ITEM <= x && x + ITEM <= blocks[i + 1]
    ensures var r, u := Inserted(blocks, i, x), used[x := false];
            && Marks(u, r, frees, x) && Apart(u, r, x) && r[i] == blocks[i] && r[i + 1] == x && r[i + 2] == blocks[i + 1]
            && FreeBytes(u, r) == FreeBytes(used, blocks) + (blocks[i + 1] - x - ITEM)
            && u[blocks[i]] && blocks[i + 1] in u && (!u[blocks[i + 1]] ==> i + 3 < |r| && r[i + 3] in u && u[r[i + 3]])
  {
    hide Marks;
    hide Apart;
    hide FreeBytes;
    var r, u := Inserted(blocks, i, x), used[x := false];
    InPool(start, pool, blocks, i, x);
    SplitTiles(start, pool, blocks, i, x);
    InOrder(start, pool, blocks);
    MarksSplit(used, blocks, frees, i, x);
    NoneThere(used, blocks, frees);
    ApartSplit(used, blocks, i, x);
    Around(used, blocks, frees, i);
    FreeBytesElsewhere(used, blocks, x, false);
    FreeBytesSplit(u, blocks, i, x);
    assert forall k :: 0 <= k < |blocks| ==> blocks[k] != x;
    if i + 2 < |blocks| { assert r[i + 3] == blocks[i + 2]; }
  }

  // the bookkeeping of moving the border between a block in use and a free one
  lemma Grown(used: map<int, bool>, blocks: seq<int>, frees: seq<int>, start: int, pool: int, i: nat, j: nat, x: int)
    requires Tiles(start, pool, blocks) && Distinct(frees) && start > 0 && Marks(used, blocks, frees, NONE) && Apart(used, blocks, NONE)
    requires i + 2 < |blocks| && j < |frees| && blocks[i + 1] == frees[j] && blocks[i] in used && used[blocks[i]]
    requires blocks[i + 1] in used && !used[blocks[i + 1]] && blocks[i + 1] < x && x + ITEM <= blocks[i + 2]
    ensures var m := Removed(blocks, i + 1);
            var r, f, u := Inserted(m, i, x), [x] + Removed(frees, j), used[x := false];
            && Marks(u, r, f, NONE) && Apart(u, r, NONE) && x !in m && x !in Removed(frees, j) && x > 0
            && FreeBytes(u, r) == FreeBytes(used, blocks) - (x - blocks[i + 1])
  {
    hide Marks;
    hide Apart;
    hide FreeBytes;
    hide Tiles;
    hide Inserted;
    hide Removed;
    var m := Removed(blocks, i + 1);
    var r, u := Inserted(m, i, x), used[x := false];
    GrownTiles(start, pool, blocks, i, x);
    MarksMergeFree(used, blocks, frees, i + 1, j, NONE);
    MarksSplit(used, m, Removed(frees, j), i, x);
    NotInFree(u, r, Removed(frees, j), x);
    MarksPush(u, r, Removed(frees, j), x);
    Around(used, blocks, frees, i);
    NoneThere(used, blocks, frees);
    GrownApart(used, blocks, i, x);
    GrownBytes(used, blocks, i, x);
  }

  lemma GrownTiles(start: int, pool: int, blocks: seq<int>, i: nat, x: int)
    requires Tiles(start, pool, blocks) && start > 0 && i + 2 < |blocks| && blocks[i + 1] < x && x + ITEM <= blocks[i + 2]
    ensures var m := Removed(blocks, i + 1);
            && Distinct(blocks) && Distinct(m) && x !in m && x > 0 && i + 1 < |m| && m[i] == blocks[i] && m[i + 1] == blocks[i + 2]
            && var r := Inserted(m, i, x); Distinct(r) && i + 2 < |r| && r[i] == blocks[i] && r[i + 1] == x && x in r && r[i + 2] == blocks[i + 2]
  {
    var m := Removed(blocks, i + 1);
    InOrder(start, pool, blocks);
    MergeTiles(start, pool, blocks, i + 1);
    Increasing(start, pool, blocks, i, i + 1);
    SplitTiles(start, pool, m, i, x);
    InPool(start, pool, m, i, x);
    InOrder(start, pool, m);
    InOrder(start, pool, Inserted(m, i, x));
    assert Inserted(m, i, x)[i + 1] == x;
  }

  lemma GrownApart(used: map<int, bool>, blocks: seq<int>, i: nat, x: int)
    requires i + 2 < |blocks| && Apart(used, blocks, NONE) && NONE !in blocks && Distinct(blocks)
    requires blocks[i] in used && used[blocks[i]] && blocks[i + 2] in used && used[blocks[i + 2]]
    requires var m := Removed(blocks, i + 1); x !in m && Distinct(Inserted(m, i, x))
    requires x != blocks[i] && x != blocks[i + 2]
    ensures Apart(used[x := false], Inserted(Removed(blocks, i + 1), i, x), NONE)
  {
    hide Apart;
    var m := Removed(blocks, i + 1);
    ApartWeaker(used, blocks, blocks[i]);
    ApartMerge(used, blocks, i + 1, blocks[i]);
    ApartStronger(used, m, blocks[i]);
    assert NONE !in m by { RemovedHas(blocks, i + 1, NONE); }
    ApartSplit(used, m, i, x);
    ApartDone(used[x := false], Inserted(m, i, x), i + 1);
  }

  lemma GrownBytes(used: map<int, bool>, blocks: seq<int>, i: nat, x: int)
    requires i + 2 < |blocks| && blocks[i] in used && used[blocks[i]] && blocks[i + 1] in used && !used[blocks[i + 1]]
    requires x !in Removed(blocks, i + 1) && x != blocks[i]
    ensures FreeBytes(used[x := false], Inserted(Removed(blocks, i + 1), i, x)) == FreeBytes(used, blocks) - (x - blocks[i + 1])
  {
    hide FreeBytes;
    var m, u := Removed(blocks, i + 1), used[x := false];
    FreeBytesMerge(used, blocks, i + 1);
    FreeBytesElsewhere(used, m, x, false);
    FreeBytesSplit(u, m, i, x);
  }

  lemma NoneThere(used: map<int, bool>, blocks: seq<int>, frees: seq<int>)
    requires Marks(used, blocks, frees, NONE)
    ensures NONE !in blocks
  {}

  lemma ApartWeaker(used: map<int, bool>, blocks: seq<int>, b: int)
    requires Apart(used, blocks, NONE) && NONE !in blocks
    ensures Apart(used, blocks, b)
  {
    forall i | 0 <= i < |blocks| - 1 && blocks[i] in used && blocks[i + 1] in used ensures used[blocks[i]] || used[blocks[i + 1]] {
      ApartAt(used, blocks, i);
    }
  }

  lemma ApartStronger(used: map<int, bool>, blocks: seq<int>, b: int)
    requires Apart(used, blocks, b) && b in used && used[b]
    ensures Apart(used, blocks, NONE)
  {}

  lemma LastUsed(used: map<int, bool>, blocks: seq<int>, frees: seq<int>, but: int)
    requires Marks(used, blocks, frees, but)
    ensures blocks != [] && blocks[|blocks| - 1] in used && used[blocks[|blocks| - 1]]
  {
    MarkedAt(used, blocks, frees, but, |blocks| - 1);
  }

  lemma NotInFree(used: map<int, bool>, blocks: seq<int>, frees: seq<int>, h: int)
    requires Marks(used, blocks, frees, h)
    ensures h !in frees
  {}

  lemma NoUserOutside(used: map<int, bool>, next: map<int, int>, blocks: seq<int>, start: int, pool: int, b: int)
    requires Tiles(start, pool, blocks) && b < start
    ensures Users(used, next, blocks) == Users(used, next, blocks) - {b} && b !in Users(used, next, blocks)
  {
    if b in blocks {
      var k :| 0 <= k < |blocks| && blocks[k] == b;
      InPoolAt(start, pool, blocks, k);
    }
  }

  lemma UserIsAt(used: map<int, bool>, next: map<int, int>, prev: map<int, int>, blocks: seq<int>, i: nat)
    requires Linked(next, prev, blocks) && i + 1 < |blocks| && blocks[i] in used
    ensures var u := Users(used, next, blocks);
            (blocks[i] in u <==> used[blocks[i]]) && (!used[blocks[i]] ==> u == u - {blocks[i]})
  {
    LinksAt(next, prev, blocks, i);
    UserIs(used, next, blocks, i);
  }

  // what is in use around a block, and around its neighbours
  lemma Around(used: map<int, bool>, blocks: seq<int>, frees: seq<int>, i: nat)
    requires Marks(used, blocks, frees, NONE) && Apart(used, blocks, NONE) && Distinct(blocks) && i + 1 < |blocks|
    ensures forall k :: 0 <= k < |blocks| ==> blocks[k] in used
    ensures used[blocks[|blocks| - 1]]
    ensures i >= 2 && !used[blocks[i - 1]] ==> used[blocks[i - 2]]
    ensures i + 2 < |blocks| && !used[blocks[i + 1]] ==> used[blocks[i + 2]]
    ensures forall k :: 0 <= k < |blocks| && k != i ==> blocks[k] != blocks[i]
  {
    forall k | 0 <= k < |blocks| ensures blocks[k] in used { MarkedAt(used, blocks, frees, NONE, k); }
    if i >= 2 { ApartAt(used, blocks, i - 2); }
    if i + 2 < |blocks| { ApartAt(used, blocks, i + 1); }
    LastUsed(used, blocks, frees, NONE);
  }

  lemma FreedBlock(used: map<int, bool>, blocks: seq<int>, frees: seq<int>, start: int, pool: int, i: nat)
    requires Tiles(start, pool, blocks) && Marks(used, blocks, frees, NONE) && Apart(used, blocks, NONE)
    requires i + 1 < |blocks| && blocks[i] in used && used[blocks[i]]
    ensures var h := blocks[i];
            && Marks(used[h := false], blocks, frees, h) && Apart(used[h := false], blocks, h)
            && FreeBytes(used[h := false], blocks) == FreeBytes(used, blocks) + (blocks[i + 1] - h - ITEM)
  {
    hide FreeBytes;
    hide Apart;
    InOrder(start, pool, blocks);
    SameNode(blocks, i, |blocks| - 1);
    MarksFlip(used, blocks, frees, blocks[i]);
    ApartFree(used, blocks, blocks[i]);
    FreeBytesFlip(used, blocks, i, false);
  }

  // a free block has a place in the free list
  lemma FreePlace(used: map<int, bool>, blocks: seq<int>, frees: seq<int>, but: int, k: nat) returns (j: nat)
    requires Marks(used, blocks, frees, but) && k < |blocks| && blocks[k] in used && !used[blocks[k]] && (blocks[k] != but || but == NONE)
    ensures j < |frees| && frees[j] == blocks[k]
  {
    var b := blocks[k];
    assert b in blocks;
    assert b in frees;
    j :| 0 <= j < |frees| && frees[j] == b;
  }

  lemma InPoolAt(start: int, pool: int, blocks: seq<int>, i: nat)
    requires Tiles(start, pool, blocks) && i < |blocks|
    ensures start <= blocks[i] <= start + pool - ITEM
  {
    if i > 0 { Increasing(start, pool, blocks, 0, i); }
    if i < |blocks| - 1 { Increasing(start, pool, blocks, i, |blocks| - 1); }
  }

  lemma UsersUseAt(used: map<int, bool>, next: map<int, int>, prev: map<int, int>, blocks: seq<int>, start: int, pool: int, i: nat, v: bool)
    requires Tiles(start, pool, blocks) && Linked(next, prev, blocks) && i + 1 < |blocks| && blocks[i] in used
    ensures var h, u := blocks[i], Users(used, next, blocks);
            Users(used[h := v], next, blocks) == if v then u[h := blocks[i + 1] - h - ITEM] else u - {h}
  {
    LinksAt(next, prev, blocks, i);
    SameNode(blocks, i, |blocks| - 1);
    UsersUse(used, next, blocks, blocks[i], v);
  }

  lemma NotUser(used: map<int, bool>, next: map<int, int>, blocks: seq<int>, h: int)
    requires h in used && !used[h]
    ensures h !in Users(used, next, blocks) && Users(used, next, blocks) - {h} == Users(used, next, blocks)
  {}

  // the bookkeeping of a split for a user of the front
  lemma FrontTaken(used: map<int, bool>, next: map<int, int>, prev: map<int, int>, blocks: seq<int>, frees: seq<int>,
                   start: int, pool: int, i: nat, j: nat, x: int)
    returns (u: map<int, bool>)
    requires Tiles(start, pool, blocks) && Linked(next, prev, blocks) && Distinct(frees) && start > 0
    requires Marks(used, blocks, frees, NONE) && Apart(used, blocks, NONE) && j < |frees| && i + 1 < |blocks| && blocks[i] == frees[j]
    requires blocks[i] + ITEM <= x && x + ITEM <= blocks[i + 1]
    ensures u == used[x := false][blocks[i] := true] && blocks[i] in used && !used[blocks[i]]
    ensures x != HEAD && x !in Removed(frees, j) && blocks[i] != blocks[|blocks| - 1] && x != blocks[i]
    ensures Marks(u, Inserted(blocks, i, x), [x] + Removed(frees, j), NONE) && Apart(u, Inserted(blocks, i, x), NONE)
    ensures FreeBytes(u, Inserted(blocks, i, x)) == FreeBytes(used, blocks) - (x - blocks[i])
  {
    hide Tiles;
    hide Linked;
    hide Marks;
    hide Apart;
    hide FreeBytes;
    var h, r := blocks[i], Inserted(blocks, i, x);
    u := used[x := false][h := true];
    SplitTiles(start, pool, blocks, i, x);
    InOrder(start, pool, blocks);
    InPool(start, pool, blocks, i, x);
    SameNode(blocks, i, |blocks| - 1);
    MarksHave(used, blocks, frees, i, j);
    MarksPull(used, blocks, frees, j);
    MarksUse(used, blocks, Removed(frees, j), h);
    MarksSplit(used[h := true], blocks, Removed(frees, j), i, x);
    MarksPush(used[h := true][x := false], r, Removed(frees, j), x);
    assert used[h := true][x := false] == u;
    ApartAt(used, blocks, i);
    ApartSplit(used, blocks, i, x);
    ApartUse(used[x := false], r, h, x);
    InOrder(start, pool, r);
    ApartDone(u, r, i + 1);
    FreeBytesElsewhere(used, blocks, x, false);
    FreeBytesSplit(used[x := false], blocks, i, x);
    FreeBytesFlip(used[x := false], r, i, true);
  }

  lemma MarkedAt(used: map<int, bool>, blocks: seq<int>, frees: seq<int>, but: int, k: nat)
    requires Marks(used, blocks, frees, but) && k < |blocks|
    ensures blocks[k] in used && blocks[k] != NONE
  {
    var b := blocks[k];
    assert b in blocks;
  }

  lemma MarksHave(used: map<int, bool>, blocks: seq<int>, frees: seq<int>, i: nat, j: nat)
    requires Marks(used, blocks, frees, NONE) && i + 1 < |blocks| && j < |frees| && blocks[i] == frees[j]
    ensures NONE !in blocks && blocks[i] in used && !used[blocks[i]] && blocks[i + 1] in used
    ensures forall b :: b in Removed(frees, j) ==> b in blocks
  {
    assert frees[j] in frees;
    MarkedAt(used, blocks, frees, NONE, i + 1);
    forall b | b in Removed(frees, j) ensures b in blocks {
      var k :| 0 <= k < |frees| - 1 && Removed(frees, j)[k] == b;
      assert frees[if k < j then k else k + 1] == b;
      assert b in frees;
    }
  }

  // the header of the free list is not in it
  lemma FreeOrHead(nextFree: map<int, int>, prevFree: map<int, int>, frees: seq<int>, j: nat)
    requires Linked(nextFree, prevFree, [HEAD] + frees)
    ensures j < |frees| ==> frees[j] != HEAD
    ensures Distinct(frees)
  {
    var ring := [HEAD] + frees;
    assert forall i :: 0 <= i < |frees| ==> frees[i] == ring[i + 1];
    assert ring[0] == HEAD;
    if j < |frees| { SameNode(ring, 0, j + 1); }
    forall i, k | 0 <= i < k < |frees| ensures frees[i] != frees[k] { SameNode(ring, i + 1, k + 1); }
  }

  lemma FreeIsBlock(next: map<int, int>, prev: map<int, int>, used: map<int, bool>, blocks: seq<int>,
                    frees: seq<int>, start: int, pool: int, j: nat)
    returns (i: nat)
    requires Tiles(start, pool, blocks) && Linked(next, prev, blocks) && Marks(used, blocks, frees, NONE)
    ensures j < |frees| ==> i + 1 < |blocks| && blocks[i] == frees[j] && frees[j] in used && !used[frees[j]]
                            && frees[j] in next && next[frees[j]] == blocks[i + 1] >= frees[j] + ITEM
  {
    i := 0;
    if j < |frees| {
      assert frees[j] in frees;
      i :| 0 <= i < |blocks| && blocks[i] == frees[j];
      LinksAt(next, prev, blocks, i);
      Increasing(start, pool, blocks, i, i + 1);
    }
  }

  lemma InPool(start: int, pool: int, blocks: seq<int>, i: nat, x: int)
    requires Tiles(start, pool, blocks) && i + 1 < |blocks| && blocks[i] + ITEM <= x && x + ITEM <= blocks[i + 1]
    ensures start <= x && x + ITEM <= start + pool
  {
    if i > 0 { Increasing(start, pool, blocks, 0, i); }
    if i + 1 < |blocks| - 1 { Increasing(start, pool, blocks, i + 1, |blocks| - 1); }
  }

  lemma OneBlock(start: int, pool: nat, next: map<int, int>, prev: map<int, int>, nextFree: map<int, int>,
                 prevFree: map<int, int>, used: map<int, bool>)
    requires pool >= 2 * ITEM && start > 0
    requires var tail := start + pool - ITEM;
             && next == map[start := tail, tail := start] && prev == next && used == map[start := false, tail := true]
             && nextFree == map[HEAD := start, start := HEAD] && prevFree == nextFree
    ensures var blocks := [start, start + pool - ITEM];
            && Tiles(start, pool, blocks) && Linked(next, prev, blocks) && Linked(nextFree, prevFree, [HEAD] + [start])
            && Marks(used, blocks, [start], NONE) && Apart(used, blocks, NONE) && FreeBytes(used, blocks) == pool - 2 * ITEM
            && Users(used, next, blocks) == map[]
  {}

  // ---------------------------------------------------------------- the empty heap

  /** With nothing in use, one free block fills the pool again: all of it but two headers is
      available. */
  lemma AllFree(used: map<int, bool>, next: map<int, int>, prev: map<int, int>, nextFree: map<int, int>, prevFree: map<int, int>,
                blocks: seq<int>, frees: seq<int>, start: int, pool: int)
    requires Tiles(start, pool, blocks) && Linked(next, prev, blocks) && Linked(nextFree, prevFree, [HEAD] + frees)
    requires Marks(used, blocks, frees, NONE) && Apart(used, blocks, NONE) && Users(used, next, blocks) == map[]
    ensures blocks == [start, start + pool - ITEM] && frees == [start] && FreeBytes(used, blocks) == pool - 2 * ITEM
  {
    hide Linked;
    hide Users;
    hide Apart;
    InOrder(start, pool, blocks);
    NotInUse(used, next, prev, blocks, frees, 0);
    if |blocks| > 2 {
      NotInUse(used, next, prev, blocks, frees, 1);
      NoneThere(used, blocks, frees);
      ApartAt(used, blocks, 0);
      assert false;
    }
    FreeOrHead(nextFree, prevFree, frees, 0);
    OnlyFree(used, blocks, frees);
    FreeBytesOfOne(used, blocks);
  }

  lemma NotInUse(used: map<int, bool>, next: map<int, int>, prev: map<int, int>, blocks: seq<int>, frees: seq<int>, i: nat)
    requires Linked(next, prev, blocks) && Marks(used, blocks, frees, NONE) && Users(used, next, blocks) == map[] && i + 1 < |blocks|
    ensures blocks[i] in used && !used[blocks[i]] && blocks[i + 1] in used
  {
    MarkedAt(used, blocks, frees, NONE, i);
    MarkedAt(used, blocks, frees, NONE, i + 1);
    UserIsAt(used, next, prev, blocks, i);
  }

  lemma OnlyFree(used: map<int, bool>, blocks: seq<int>, frees: seq<int>)
    requires |blocks| == 2 && Marks(used, blocks, frees, NONE) && Distinct(frees) && blocks[0] in used && !used[blocks[0]]
    ensures frees == [blocks[0]]
  {
    var j := FreePlace(used, blocks, frees, NONE, 0);
    forall b | b in frees ensures b == blocks[0] {
      assert b in blocks;
      assert b != blocks[1];
    }
    forall k | 0 <= k < |frees| ensures frees[k] == blocks[0] { assert frees[k] in frees; }
    SameNode(frees, 0, |frees| - 1);
  }

  lemma FreeBytesOfOne(used: map<int, bool>, blocks: seq<int>)
    requires |blocks| == 2 && blocks[0] in used && !used[blocks[0]]
    ensures FreeBytes(used, blocks) == blocks[1] - blocks[0] - ITEM
  {}
}
