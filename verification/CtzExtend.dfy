/** Extending a skip-list file onto a new block, leaving the old list as it is. */
module CtzExtend {
  import opened Words
  import opened Arith
  import opened Ctz
  import opened BlockDevice
  import opened BlockProg
  import opened CtzList
  import TagWord

  // ---------------------------------------------------------------- contents

  /** The byte of a file at a position. */
  function DataAt(bs: nat, disk: Disk, chain: seq<int>, pos: nat): byte
    requires 8 < bs < U32
  {
    var (n, off) := Index(bs, pos);
    if n < |chain| && chain[n] in disk && off < |disk[chain[n]]| then disk[chain[n]][off] else 0
  }

  function Data(bs: nat, disk: Disk, chain: seq<int>, size: nat): (s: seq<byte>)
    requires 8 < bs < U32
    ensures |s| == size
  {
    seq(size, pos requires 0 <= pos => DataAt(bs, disk, chain, pos))
  }

  // a position before another is in an earlier block, or before it in the same block
  lemma IndexOrder(bs: nat, pos: nat, size: nat)
    requires MIN_BLOCK <= bs < U32 && pos < size < U32
    ensures Index(bs, pos).0 < Index(bs, size).0 || (Index(bs, pos).0 == Index(bs, size).0 && Index(bs, pos).1 < Index(bs, size).1)
  {
    hide Index;
    IndexMonotone(bs, pos, size);
    IndexCorrect(bs, pos);
    IndexCorrect(bs, size);
  }

  /** Where the next byte of a file goes: behind the last one, or behind the pointers of a new
      block. */
  lemma EndOf(bs: nat, size: nat)
    requires MIN_BLOCK <= bs < U32 && size < U32
    ensures Length(bs, size) <= Index(bs, size).0 + 1
    ensures size == 0 ==> Index(bs, size) == (0, 0)
    ensures size > 0 ==>
              var (n, off) := Index(bs, size - 1);
              Index(bs, size) == if off + 1 < bs then (n, off + 1) else (n + 1, Header(n + 1))
    ensures size > 0 ==> Header(Index(bs, size - 1).0) <= Index(bs, size - 1).1 < bs
    ensures Index(bs, size).0 < MANY && Header(Index(bs, size).0) <= Index(bs, size).1 < bs
  {
    hide Index;
    hide CtzOf;
    IndexSmall(bs, size);
    IndexBounds(bs, size);
    if size == 0 {
      IndexIs(bs, 0, 0, 0);
    } else {
      var (n, off) := Index(bs, size - 1);
      IndexCorrect(bs, size - 1);
      IndexSmall(bs, size - 1);
      IndexBounds(bs, size - 1);
      if off + 1 < bs {
        IndexIs(bs, size, n, off + 1);
      } else {
        HeaderFits(n + 1);
        IndexIs(bs, size, n + 1, Header(n + 1));
      }
    }
  }

  lemma IndexBounds(bs: nat, pos: nat)
    requires MIN_BLOCK <= bs < U32 && pos < U32
    ensures Header(Index(bs, pos).0) <= Index(bs, pos).1 < bs
  {
    hide Index;
    IndexCorrect(bs, pos);
  }

  // ---------------------------------------------------------------- an extended list

  // the list with a block for position size in place of what follows it
  function Renewed(bs: nat, chain: seq<int>, size: nat, block: int): seq<int>
    requires MIN_BLOCK <= bs < U32 && size < U32 && |chain| == Length(bs, size)
  {
    var n := Index(bs, size).0;
    if n < |chain| then chain[..n] + [block] else chain + [block]
  }

  /** What the new block must hold: a copy of an incomplete last block, or pointers. */
  predicate Continues(bs: nat, d0: Disk, chain: seq<int>, size: nat, blk: seq<byte>)
    requires MIN_BLOCK <= bs < U32 && size < U32
  {
    var (n, off) := Index(bs, size);
    && |blk| == bs
    && if n < |chain| then chain[n] in d0 && |d0[chain[n]]| == bs && off <= bs && blk[..off] == d0[chain[n]][..off]
       else n == |chain| && Linked(blk, chain, n)
  }

  predicate SameOn(d0: Disk, d1: Disk, chain: seq<int>)
  {
    forall i :: 0 <= i < |chain| && chain[i] in d0 ==> chain[i] in d1 && d1[chain[i]] == d0[chain[i]]
  }

  lemma LinkedFront(blk: seq<byte>, chain: seq<int>, chain': seq<int>, n: nat)
    requires n <= |chain| && n <= |chain'| && chain[..n] == chain'[..n] && Linked(blk, chain, n)
    ensures Linked(blk, chain', n)
  {
    forall k | n > 0 && 0 <= k <= CtzOf(n)
      ensures 4 * k + 4 <= |blk| && Pow2(k) <= n && Slot(blk, k) == chain'[n - Pow2(k)]
    {
      assert chain[..n][n - Pow2(k)] == chain'[..n][n - Pow2(k)];
    }
  }

  lemma LinkedCopy(blk: seq<byte>, blk': seq<byte>, chain: seq<int>, n: nat, off: nat)
    requires n <= |chain| && Linked(blk, chain, n) && Header(n) <= off <= |blk| && off <= |blk'| && blk[..off] == blk'[..off]
    ensures Linked(blk', chain, n)
  {
    forall k | n > 0 && 0 <= k <= CtzOf(n)
      ensures 4 * k + 4 <= |blk'| && Pow2(k) <= n && Slot(blk', k) == chain[n - Pow2(k)]
    {
      assert blk[4 * k..4 * k + 4] == blk[..off][4 * k..4 * k + 4];
      assert blk'[4 * k..4 * k + 4] == blk'[..off][4 * k..4 * k + 4];
    }
  }

  /** A block that continues the list makes a list again, and the file reads as before. */
  lemma RenewedIsListed(bs: nat, d0: Disk, chain: seq<int>, head: int, size: nat, d1: Disk, block: int)
    requires IsFile(bs, d0, chain, head, size) && block !in chain && SameOn(d0, d1, chain)
    requires block in d1 && 0 <= block < U32 && Continues(bs, d0, chain, size, d1[block])
    ensures Listed(bs, d1, Renewed(bs, chain, size, block))
  {
    hide Index;
    hide Slot;
    hide Linked;
    hide CtzOf;
    EndOf(bs, size);
    var (m, off) := Index(bs, size);
    var chain' := Renewed(bs, chain, size, block);
    assert chain'[m] == block && chain'[..m] == chain[..m];
    forall n | 0 <= n < |chain'|
      ensures chain'[n] in d1 && 0 <= chain'[n] < U32 && |d1[chain'[n]]| == bs && Linked(d1[chain'[n]], chain', n)
    {
      if n < m {
        LinkedFront(d1[chain[n]], chain, chain', n);
      } else {
        if m < |chain| { LinkedCopy(d0[chain[m]], d1[block], chain, m, off); }
        LinkedFront(d1[block], chain, chain', m);
      }
    }
  }

  lemma RenewedReads(bs: nat, d0: Disk, chain: seq<int>, head: int, size: nat, d1: Disk, block: int)
    requires IsFile(bs, d0, chain, head, size) && block !in chain && SameOn(d0, d1, chain)
    requires block in d1 && Continues(bs, d0, chain, size, d1[block])
    ensures Data(bs, d1, Renewed(bs, chain, size, block), size) == Data(bs, d0, chain, size)
  {
    hide Index;
    hide Linked;
    EndOf(bs, size);
    var (m, off) := Index(bs, size);
    var chain' := Renewed(bs, chain, size, block);
    forall pos | 0 <= pos < size ensures DataAt(bs, d1, chain', pos) == DataAt(bs, d0, chain, pos) {
      IndexOrder(bs, pos, size);
      IndexMonotone(bs, pos, size - 1);
      var (n, o) := Index(bs, pos);
      if n == m { assert d1[block][..off][o] == d0[chain[m]][..off][o]; }
    }
  }

  // ---------------------------------------------------------------- writing the new block

  // one byte or word at a time behind what the cache gathered: what every step keeps
  predicate Building(cfg: Config, d0: Disk, r0: CacheState, disk: Disk, p: CacheState, r: CacheState, block: int, off: nat)
    requires Geometry(cfg)
  {
    && OnlyBlock(d0, disk, block) && Ready(cfg, disk, cfg.cacheSize, p, block, off)
    && |r.buffer| == cfg.cacheSize && Kept(cfg, d0, r0, disk, r)
    && (off > 0 && p.block == NULL_BLOCK ==> Coherent(cfg, disk, r))
  }

  lemma WholeCaches(cfg: Config)
    requires Geometry(cfg)
    ensures Unit(cfg, cfg.cacheSize)
  {
    MultipleOf(1, cfg.cacheSize);
  }

  /** Copies the front of a block, as it is seen through src, onto another. */
  method CopyOut(dev: Device, src: Cache?, pcache: Cache, rcache: Cache, block: int, head: int, noff: nat) returns (r: Code)
    requires dev.Valid() && pcache != rcache && src != pcache && src != rcache && ReadAligned(dev.cfg, StateOf(src))
    requires block in dev.disk && head in dev.disk && block != head && noff <= dev.cfg.blockSize
    requires Ready(dev.cfg, dev.disk, dev.cfg.cacheSize, pcache.State(), block, 0)
    requires Fresh(dev.cfg, dev.disk, rcache.State(), head)
    modifies dev, pcache, rcache
    ensures dev.Valid() && OnlyBlock(old(dev.disk), dev.disk, block) && |pcache.buffer| == |rcache.buffer| == dev.cfg.cacheSize
    ensures Kept(dev.cfg, old(dev.disk), old(rcache.State()), dev.disk, rcache.State())
    ensures (r == Ok || r == Corrupt) && (dev.Sound() ==> r == Ok)
    ensures r == Ok ==>
              && Building(dev.cfg, old(dev.disk), old(rcache.State()), dev.disk, pcache.State(), rcache.State(), block, noff)
              && Seen(dev.cfg, dev.disk, pcache.State(), block)[..noff] == Seen(dev.cfg, old(dev.disk), StateOf(src), head)[..noff]
  {
    hide Coherent;
    hide Seen;
    hide Multiple;
    hide Left;
    hide Traced;
    hide Stuck;
    hide Shaped;
    ghost var d0, r0, p := dev.disk, rcache.State(), StateOf(src);
    ghost var v := Seen(dev.cfg, d0, p, head);
    var i: nat := 0;
    while i < noff
      invariant i <= noff && dev.Valid() && StateOf(src) == p
      invariant Building(dev.cfg, d0, r0, dev.disk, pcache.State(), rcache.State(), block, i)
      invariant Seen(dev.cfg, dev.disk, pcache.State(), block)[..i] == v[..i]
    {
      SeenElsewhere(dev.cfg, d0, dev.disk, p, head);
      var data := BdRead(dev, src, rcache, noff - i, head, i, 1);
      if data == None {
        return Corrupt;
      }
      WholeCaches(dev.cfg);
      r := BdProg(dev, pcache, rcache, true, dev.cfg.cacheSize, block, i, data.value);
      if r != Ok {
        return r;
      }
      assert v[..i] + v[i..i + 1] == v[..i + 1];
      i := i + 1;
    }
    return Ok;
  }

  lemma SeenElsewhere(cfg: Config, d0: Disk, d1: Disk, p: CacheState, b: int)
    requires DiskOk(cfg, d0) && DiskOk(cfg, d1) && b in d0 && b in d1 && d0[b] == d1[b] && (p.block == NULL_BLOCK || CacheOk(cfg, p))
    ensures Seen(cfg, d0, p, b) == Seen(cfg, d1, p, b)
  {}

  // the first n pointers of the block with index n are written
  predicate Pointers(blk: seq<byte>, chain: seq<int>, count: nat)
    requires 4 * count <= |blk|
  {
    forall k :: 0 <= k < count ==> Pow2(k) <= |chain| && Slot(blk, k) == chain[|chain| - Pow2(k)]
  }

  lemma PointersAreLinks(blk: seq<byte>, chain: seq<int>, count: nat)
    requires 4 * count <= |blk| && Pointers(blk, chain, count) && |chain| > 0 && count == CtzOf(|chain|) + 1
    ensures Linked(blk, chain, |chain|)
  {
    hide Slot;
    hide Pow2;
    hide CtzOf;
    forall k | 0 <= k <= CtzOf(|chain|)
      ensures 4 * k + 4 <= |blk| && Pow2(k) <= |chain| && Slot(blk, k) == chain[|chain| - Pow2(k)]
    {}
  }

  // writing one more pointer
  lemma OnePointer(v0: seq<byte>, v1: seq<byte>, chain: seq<int>, count: nat, target: int)
    requires 4 * count + 4 <= |v0| && Pointers(v0, chain, count) && Pow2(count) <= |chain|
    requires target == chain[|chain| - Pow2(count)] && 0 <= target < U32
    requires Wrote(v0, v1, 4 * count, TagWord.Digits(target))
    ensures Pointers(v1, chain, count + 1)
  {
    hide Pow2;
    TagWord.DigitsValue(target);
    forall k | 0 <= k < count + 1 ensures Pow2(k) <= |chain| && Slot(v1, k) == chain[|chain| - Pow2(k)] {
      if k < count {
        assert v1[4 * k..4 * k + 4] == v1[..4 * count + 4][4 * k..4 * k + 4];
        assert v0[4 * k..4 * k + 4] == v0[..4 * count][4 * k..4 * k + 4];
      } else {
        assert v1[4 * k..4 * k + 4] == v1[..4 * count + 4][4 * k..];
      }
    }
  }

  // pointer i of the block 2^i back leads another 2^i back
  lemma NextTarget(bs: nat, disk: Disk, chain: seq<int>, i: nat)
    requires Listed(bs, disk, chain) && |chain| > 0 && i < CtzOf(|chain|)
    ensures Pow2(i + 1) <= |chain| && 4 * i + 4 <= bs
    ensures var b := chain[|chain| - Pow2(i)]; b in disk && |disk[b]| == bs && Slot(disk[b], i) == chain[|chain| - Pow2(i + 1)]
  {
    hide Slot;
    hide Linked;
    var n := |chain|;
    Pow2OfCtz(n);
    Pow2Mono(i + 1, CtzOf(n));
    CtzAfter(n, i);
    SlotOfLinked(disk[chain[n - Pow2(i)]], chain, n - Pow2(i), i);
  }

  // ---------------------------------------------------------------- what the pointers leave in the read cache

  /** Pointers are read past an empty read cache. */
  predicate Calm(cfg: Config) { cfg.cacheSize <= 8 && cfg.readSize > 0 && Multiple(4, cfg.readSize) }

  // the read cache after a pointer was read
  function AfterSlot(cfg: Config, disk: Disk, r: CacheState, block: int, off: nat): CacheState
  {
    var s := Reading(r, off, 4, []);
    if Underway(cfg, disk, EMPTY, block, s) then Finish(cfg, disk, EMPTY, 4, block, s).r else r
  }

  /** The read cache after the first n pointers of a block behind a list were written, if it has at
      most eight bytes. */
  function AfterPointers(cfg: Config, disk: Disk, r: CacheState, chain: seq<int>, n: nat): CacheState
    requires cfg.cacheSize > 0 && 0 < |chain| && n <= CtzOf(|chain|) + 1
  {
    if n == 0 then r
    else
      var q := AfterProg(cfg, AfterPointers(cfg, disk, r, chain, n - 1), 4 * (n - 1), 4);
      if n == CtzOf(|chain|) + 1 || Pow2(n - 1) > |chain| then q
      else AfterSlot(cfg, disk, q, chain[|chain| - Pow2(n - 1)], 4 * (n - 1))
  }

  /** What writing the pointers did to the read cache, if it has at most eight bytes. */
  predicate PointersTraced(cfg: Config, disk: Disk, r0: CacheState, r1: CacheState, chain: seq<int>, ok: bool)
    requires cfg.cacheSize > 0
  {
    && (ok && chain != [] && cfg.cacheSize <= 8 ==> r1 == AfterPointers(cfg, disk, r0, chain, CtzOf(|chain|) + 1))
    && (Calm(cfg) && r0.block == NULL_BLOCK ==> r1 == r0)
  }

  // after the first n pointers
  predicate SoFar(cfg: Config, disk: Disk, r0: CacheState, r1: CacheState, chain: seq<int>, n: nat)
    requires cfg.cacheSize > 0 && 0 < |chain| && n <= CtzOf(|chain|) + 1
  {
    && (cfg.cacheSize <= 8 ==> r1 == AfterPointers(cfg, disk, r0, chain, n))
    && (Calm(cfg) && r0.block == NULL_BLOCK ==> r1 == r0)
  }

  lemma {:induction false} FinishElsewhere(cfg: Config, d0: Disk, d1: Disk, p: CacheState, hint: nat, block: int, s: Reading)
    requires Underway(cfg, d0, p, block, s) && Underway(cfg, d1, p, block, s) && ReadAligned(cfg, p) && hint > 0 && d0[block] == d1[block]
    ensures Finish(cfg, d0, p, hint, block, s) == Finish(cfg, d1, p, hint, block, s)
    decreases ToDo(p, block, s)
  {
    hide ReadAligned;
    hide NextTurn;
    hide Uncached;
    if s.left > 0 {
      NoStall(cfg, p, s.r, hint, block, s.off, s.left);
      TurnProgress(cfg, d0, p, hint, block, s);
      TurnFits(cfg, p, s.r, hint, block, s.off, s.left);
      assert OneTurn(cfg, d0, p, hint, block, s) == OneTurn(cfg, d1, p, hint, block, s);
      FinishElsewhere(cfg, d0, d1, p, hint, block, OneTurn(cfg, d0, p, hint, block, s));
    }
  }

  lemma PointerTraced(cfg: Config, d0: Disk, r0: CacheState, r1: CacheState, r2: CacheState, d1: Disk, r3: CacheState, chain: seq<int>, n: nat)
    requires Geometry(cfg) && DiskOk(cfg, d0) && 0 < |chain| && n < CtzOf(|chain|) && Pow2(n) <= |chain|
    requires SoFar(cfg, d0, r0, r1, chain, n) && Traced(cfg, cfg.cacheSize, r1, r2, 4 * n, 4, true)
    requires var b := chain[|chain| - Pow2(n)];
             && b in d0 && b in d1 && d0[b] == d1[b] && 4 * n + 4 <= cfg.blockSize
             && Left(cfg, d1, EMPTY, 4, b, r2, 4 * n, 4, r3)
    ensures SoFar(cfg, d0, r0, r3, chain, n + 1)
  {
    hide Finish;
    hide Pow2;
    hide CtzOf;
    var b, s := chain[|chain| - Pow2(n)], Reading(r2, 4 * n, 4, []);
    FinishElsewhere(cfg, d1, d0, EMPTY, 4, b, s);
    if Calm(cfg) && r0.block == NULL_BLOCK {
      CalmSlots(cfg, n);
      Bypass(cfg, d1, 4, b, r2, 4 * n, 4, r3);
    }
  }

  lemma CalmSlots(cfg: Config, n: nat)
    requires Calm(cfg)
    ensures Multiple(4 * n, cfg.readSize)
  {
    MultipleOf(n, 4);
    MultipleTransitive(4 * n, 4, cfg.readSize);
  }

  lemma LastPointerTraced(cfg: Config, d0: Disk, r0: CacheState, r1: CacheState, r2: CacheState, chain: seq<int>, n: nat, ok: bool)
    requires Geometry(cfg) && 0 < |chain| && n <= CtzOf(|chain|)
    requires SoFar(cfg, d0, r0, r1, chain, n) && Traced(cfg, cfg.cacheSize, r1, r2, 4 * n, 4, ok)
    ensures n == CtzOf(|chain|) && ok ==> SoFar(cfg, d0, r0, r2, chain, n + 1)
    ensures !ok ==> PointersTraced(cfg, d0, r0, r2, chain, false)
  {
    hide CtzOf;
    hide Pow2;
  }

  /** Writes the pointers of a block appended to a list. */
  method WritePointers(dev: Device, pcache: Cache, rcache: Cache, block: int, head: int, ghost chain: seq<int>, skips: nat)
    returns (r: Code)
    requires dev.Valid() && pcache != rcache && block in dev.disk && block !in chain && dev.cfg.blockSize < U32
    requires Listed(dev.cfg.blockSize, dev.disk, chain) && chain != [] && head == chain[|chain| - 1]
    requires skips == CtzOf(|chain|) + 1 && |chain| < MANY
    requires Ready(dev.cfg, dev.disk, dev.cfg.cacheSize, pcache.State(), block, 0)
    requires FreshOn(dev.cfg, dev.disk, rcache.State(), chain)
    modifies dev, pcache, rcache
    ensures dev.Valid() && OnlyBlock(old(dev.disk), dev.disk, block) && |pcache.buffer| == |rcache.buffer| == dev.cfg.cacheSize
    ensures Kept(dev.cfg, old(dev.disk), old(rcache.State()), dev.disk, rcache.State())
    ensures PointersTraced(dev.cfg, old(dev.disk), old(rcache.State()), rcache.State(), chain, r == Ok)
    ensures (r == Ok || r == Corrupt) && (dev.Sound() ==> r == Ok)
    ensures r == Ok ==>
              && Building(dev.cfg, old(dev.disk), old(rcache.State()), dev.disk, pcache.State(), rcache.State(), block, 4 * skips)
              && Linked(Seen(dev.cfg, dev.disk, pcache.State(), block), chain, |chain|)
  {
    hide Coherent;
    hide Seen;
    hide Multiple;
    hide Pointers;
    hide Linked;
    hide CtzOf;
    hide TagWord.Digits;
    hide Pow2;
    hide TagWord.BigEndian;
    hide Header;
    hide Left;
    hide Traced;
    hide SoFar;
    hide PointersTraced;
    hide Stuck;
    hide Shaped;
    ghost var d0, r0 := dev.disk, rcache.State();
    NoPointers(Seen(dev.cfg, d0, pcache.State(), block), chain);
    NothingTraced(dev.cfg, d0, r0, chain);
    var i: nat := 0;
    var nhead := head;
    while i < skips
      invariant i <= skips && dev.Valid()
      invariant Building(dev.cfg, d0, r0, dev.disk, pcache.State(), rcache.State(), block, 4 * i)
      invariant Pointers(Seen(dev.cfg, dev.disk, pcache.State(), block), chain, i)
      invariant SoFar(dev.cfg, d0, r0, rcache.State(), chain, i)
      invariant i < skips ==> Pow2(i) <= |chain| && nhead == chain[|chain| - Pow2(i)]
    {
      WholeCaches(dev.cfg);
      ghost var v, r1 := Seen(dev.cfg, dev.disk, pcache.State(), block), rcache.State();
      r := BdProg(dev, pcache, rcache, true, dev.cfg.cacheSize, block, 4 * i, TagWord.Digits(nhead));
      LastPointerTraced(dev.cfg, d0, r0, r1, rcache.State(), chain, i, r == Ok);
      if r != Ok {
        return r;
      }
      OnePointer(v, Seen(dev.cfg, dev.disk, pcache.State(), block), chain, i, nhead);
      if i != skips - 1 {
        NextTarget(dev.cfg.blockSize, d0, chain, i);
        NoOverlay(dev.cfg, dev.disk, nhead);
        ghost var r2 := rcache.State();
        var word := BdRead(dev, null, rcache, 4, nhead, 4 * i, 4);
        if word == None {
          return Corrupt;
        }
        PointerTraced(dev.cfg, d0, r0, r1, r2, dev.disk, rcache.State(), chain, i);
        nhead := TagWord.LittleEndian(word.value);
      }
      i := i + 1;
    }
    PointersAreLinks(Seen(dev.cfg, dev.disk, pcache.State(), block), chain, skips);
    AllPointersTraced(dev.cfg, d0, r0, rcache.State(), chain);
    return Ok;
  }

  lemma NothingTraced(cfg: Config, disk: Disk, r: CacheState, chain: seq<int>)
    requires cfg.cacheSize > 0 && 0 < |chain|
    ensures SoFar(cfg, disk, r, r, chain, 0)
  {}

  lemma AllPointersTraced(cfg: Config, disk: Disk, r0: CacheState, r1: CacheState, chain: seq<int>)
    requires cfg.cacheSize > 0 && 0 < |chain| && SoFar(cfg, disk, r0, r1, chain, CtzOf(|chain|) + 1)
    ensures PointersTraced(cfg, disk, r0, r1, chain, true)
  {}


  lemma NoPointers(blk: seq<byte>, chain: seq<int>)
    requires 0 < |chain| < MANY
    ensures Pointers(blk, chain, 0) && Pow2(0) == 1 && 4 * (CtzOf(|chain|) + 1) <= 108
  {
    HeaderFits(|chain|);
  }

  // ---------------------------------------------------------------- extending

  /** Blocks the allocator hands out, in order. */
  class Supply {
    var blocks: seq<int>

    constructor (blocks: seq<int>)
      ensures this.blocks == blocks
    {
      this.blocks := blocks;
    }

    method Take() returns (b: Option<int>)
      modifies this
      ensures old(blocks) == [] ==> b == None && blocks == []
      ensures old(blocks) != [] ==> b == Some(old(blocks)[0]) && blocks == old(blocks)[1..]
    {
      if blocks == [] {
        return None;
      }
      b, blocks := Some(blocks[0]), blocks[1..];
    }
  }

  /** What an operation took from the supply. It fails only if nothing is left; on a device that
      stores what it is told to, it takes as many blocks as it needs, and fails exactly if there
      are not so many. */
  predicate Took(b0: seq<int>, b1: seq<int>, sound: bool, need: nat, ok: bool)
  {
    && (!ok ==> b1 == [])
    && (sound ==> (ok <==> |b0| >= need) && (ok ==> b1 == b0[need..]))
  }

  lemma TookTwice(b0: seq<int>, b1: seq<int>, b2: seq<int>, sound: bool, n: nat, m: nat, need: nat, ok: bool)
    requires Took(b0, b1, sound, n, true) && Took(b1, b2, sound, m, ok)
    requires if ok then need == n + m else need >= n + m
    ensures Took(b0, b2, sound, need, ok)
  {
    if sound && ok { assert b0[n..][m..] == b0[n + m..]; }
  }

  lemma TookNothing(b: seq<int>, sound: bool)
    ensures Took(b, b, sound, 0, true)
  {
    assert b[0..] == b;
  }

  lemma ListedElsewhere(bs: nat, d0: Disk, d1: Disk, chain: seq<int>, block: int)
    requires Listed(bs, d0, chain) && OnlyBlock(d0, d1, block) && block !in chain
    ensures Listed(bs, d1, chain) && SameOn(d0, d1, chain)
  {
    hide Linked;
  }

  lemma FreshElsewhere(cfg: Config, d0: Disk, d1: Disk, r: CacheState, chain: seq<int>, block: int)
    requires FreshOn(cfg, d0, r, chain) && OnlyBlock(d0, d1, block) && block !in chain
    ensures FreshOn(cfg, d1, r, chain)
  {}

  lemma FreshPart(cfg: Config, disk: Disk, r: CacheState, keep: seq<int>, chain: seq<int>)
    requires FreshOn(cfg, disk, r, keep) && forall b :: b in chain ==> b in keep
    ensures FreshOn(cfg, disk, r, chain)
  {}

  lemma FreshWhenKept(cfg: Config, d0: Disk, r0: CacheState, d1: Disk, r1: CacheState, chain: seq<int>)
    requires FreshOn(cfg, d0, r0, chain) && Kept(cfg, d0, r0, d1, r1)
    ensures FreshOn(cfg, d1, r1, chain) && Marked(cfg, r0, r1)
  {}

  lemma ReadyAtStart(cfg: Config, disk: Disk, p: CacheState, block: int)
    requires Geometry(cfg) && |p.buffer| == cfg.cacheSize && p.block == NULL_BLOCK
    ensures Ready(cfg, disk, cfg.cacheSize, p, block, 0)
  {
    MultipleOf(0, cfg.cacheSize);
  }

  /** A read cache that was used is not empty, if it holds more than is compared at a time. */
  predicate Marked(cfg: Config, r0: CacheState, r1: CacheState)
  {
    r1 == r0 || (cfg.cacheSize > 8 ==> r1.block != NULL_BLOCK)
  }

  // the last block of the file is full: another one gets pointers
  predicate AtEdge(bs: nat, size: nat)
  {
    MIN_BLOCK <= bs < U32 && 0 < size < U32 && Index(bs, size - 1).1 + 1 == bs
  }

  // copying or pointers, on one candidate block that was erased
  method Attempt(dev: Device, pcache: Cache, rcache: Cache, block: int, head: int, size: nat, ghost chain: seq<int>, ghost keep: seq<int>)
    returns (r: Code, off: nat)
    requires dev.Valid() && pcache != rcache && IsFile(dev.cfg.blockSize, dev.disk, chain, head, size)
    requires block in dev.disk && block !in keep && (forall b :: b in chain ==> b in keep) && 0 <= block < U32
    requires |pcache.buffer| == dev.cfg.cacheSize && pcache.block == NULL_BLOCK
    requires FreshOn(dev.cfg, dev.disk, rcache.State(), keep)
    modifies dev, pcache, rcache
    ensures dev.Valid() && OnlyBlock(old(dev.disk), dev.disk, block) && |pcache.buffer| == |rcache.buffer| == dev.cfg.cacheSize
    ensures FreshOn(dev.cfg, dev.disk, rcache.State(), keep)
    ensures Marked(dev.cfg, old(rcache.State()), rcache.State())
    ensures AtEdge(dev.cfg.blockSize, size) ==> PointersTraced(dev.cfg, old(dev.disk), old(rcache.State()), rcache.State(), chain, r == Ok)
    ensures (r == Ok || r == Corrupt) && (dev.Sound() ==> r == Ok)
    ensures r == Ok ==>
              && off == Index(dev.cfg.blockSize, size).1
              && Ready(dev.cfg, dev.disk, dev.cfg.cacheSize, pcache.State(), block, off)
              && Continues(dev.cfg.blockSize, old(dev.disk), chain, size, Seen(dev.cfg, dev.disk, pcache.State(), block))
              && (off > 0 && pcache.block == NULL_BLOCK ==> Coherent(dev.cfg, dev.disk, rcache.State()))
  {
    hide Coherent;
    hide Seen;
    hide Index;
    hide Listed;
    hide FreshOn;
    hide Kept;
    hide Linked;
    hide Multiple;
    hide PointersTraced;
    ghost var d0, r0 := dev.disk, rcache.State();
    EndOf(dev.cfg.blockSize, size);
    FreshPart(dev.cfg, d0, r0, keep, chain);
    ReadyAtStart(dev.cfg, dev.disk, pcache.State(), block);
    if size == 0 {
      FirstBlock(dev.cfg, dev.disk, rcache.State(), chain, Seen(dev.cfg, dev.disk, pcache.State(), block));
      return Ok, 0;
    }
    var (index: nat, last: nat) := Index(dev.cfg.blockSize, size - 1);
    var noff := last + 1;
    LastBlock(dev.cfg, dev.disk, rcache.State(), chain, head, size);
    if noff != dev.cfg.blockSize {
      NoOverlay(dev.cfg, dev.disk, head);
      r := CopyOut(dev, null, pcache, rcache, block, head, noff);
      off := noff;
    } else {
      var skips := CtzOf(index + 1) + 1;
      r := WritePointers(dev, pcache, rcache, block, head, chain, skips);
      off := 4 * skips;
    }
    FreshWhenKept(dev.cfg, d0, r0, dev.disk, rcache.State(), keep);
  }

  lemma FirstBlock(cfg: Config, disk: Disk, r: CacheState, chain: seq<int>, blk: seq<byte>)
    requires MIN_BLOCK <= cfg.blockSize < U32 && |blk| == cfg.blockSize && chain == [] && FreshOn(cfg, disk, r, chain)
    ensures Continues(cfg.blockSize, disk, chain, 0, blk) && |r.buffer| == cfg.cacheSize
  {
    EndOf(cfg.blockSize, 0);
  }

  lemma LastBlock(cfg: Config, disk: Disk, r: CacheState, chain: seq<int>, head: int, size: nat)
    requires Geometry(cfg) && IsFile(cfg.blockSize, disk, chain, head, size) && size > 0
    requires FreshOn(cfg, disk, r, chain)
    ensures |chain| == Index(cfg.blockSize, size - 1).0 + 1 && head == chain[|chain| - 1] && |chain| <= MANY
    ensures head in disk && |disk[head]| == cfg.blockSize && Fresh(cfg, disk, r, head) && |r.buffer| == cfg.cacheSize
  {}

  // only these blocks may differ
  predicate OnlyBlocks(d0: Disk, d1: Disk, blocks: seq<int>)
  {
    d1.Keys == d0.Keys && forall b | b in d0 && b !in blocks :: d1[b] == d0[b]
  }

  lemma MoreBlocks(d0: Disk, d1: Disk, d2: Disk, blocks: seq<int>, used: nat, w: nat)
    requires 0 < used <= |blocks| && used - 1 <= w <= used
    requires OnlyBlocks(d0, d1, blocks[..w]) && OnlyBlock(d1, d2, blocks[used - 1])
    ensures OnlyBlocks(d0, d2, blocks[..used])
  {
    forall b | b in d0 && b !in blocks[..used] ensures d2[b] == d0[b] {
      assert b !in blocks[..w];
      assert blocks[..used][used - 1] == blocks[used - 1];
    }
  }

  lemma ListedFurther(bs: nat, d0: Disk, d1: Disk, chain: seq<int>, taken: seq<int>)
    requires Listed(bs, d0, chain) && OnlyBlocks(d0, d1, taken) && forall b :: b in taken ==> b !in chain
    ensures Listed(bs, d1, chain) && SameOn(d0, d1, chain)
  {
    hide Linked;
  }

  // what succeeded on the disk as it was before the attempt
  lemma Succeeded(cfg: Config, d0: Disk, chain: seq<int>, head: int, size: nat, d1: Disk, d2: Disk, p: CacheState,
                  block: int, taken: seq<int>)
    requires Geometry(cfg) && DiskOk(cfg, d2) && IsFile(cfg.blockSize, d0, chain, head, size)
    requires block in d2 && 0 <= block < U32 && block in taken && forall b :: b in taken ==> b !in chain
    requires OnlyBlocks(d0, d1, taken) && OnlyBlocks(d0, d2, taken)
    requires (p.block == NULL_BLOCK || (CacheOk(cfg, p) && p.block == block))
    requires Continues(cfg.blockSize, d1, chain, size, Seen(cfg, d2, p, block))
    ensures var view, chain' := View(cfg, d2, p), Renewed(cfg.blockSize, chain, size, block);
            && Listed(cfg.blockSize, view, chain')
            && Data(cfg.blockSize, view, chain', size) == Data(cfg.blockSize, d0, chain, size)
  {
    hide Index;
    hide Data;
    hide Overlay;
    hide Linked;
    hide Listed;
    var view := View(cfg, d2, p);
    ListedFurther(cfg.blockSize, d0, d1, chain, taken);
    ListedFurther(cfg.blockSize, d0, d2, chain, taken);
    ViewElsewhere(cfg, d2, p, block, chain);
    SameContinues(cfg.blockSize, d0, d1, chain, head, size, Seen(cfg, d2, p, block));
    SameTwice(cfg.blockSize, d0, d2, view, chain);
    RenewedIsListed(cfg.blockSize, d0, chain, head, size, view, block);
    RenewedReads(cfg.blockSize, d0, chain, head, size, view, block);
  }

  lemma SameTwice(bs: nat, d0: Disk, d1: Disk, d2: Disk, chain: seq<int>)
    requires SameOn(d0, d1, chain) && SameOn(d1, d2, chain)
    ensures SameOn(d0, d2, chain)
  {}

  lemma SameContinues(bs: nat, d0: Disk, d1: Disk, chain: seq<int>, head: int, size: nat, blk: seq<byte>)
    requires IsFile(bs, d0, chain, head, size) && SameOn(d0, d1, chain) && Continues(bs, d1, chain, size, blk)
    ensures Continues(bs, d0, chain, size, blk)
  {
    hide Index;
    hide Linked;
    var (n, off) := Index(bs, size);
    if n < |chain| { assert chain[n] in d0 && |d0[chain[n]]| == bs; }
  }

  lemma ViewElsewhere(cfg: Config, disk: Disk, p: CacheState, block: int, chain: seq<int>)
    requires DiskOk(cfg, disk) && block !in chain && (p.block == NULL_BLOCK || (CacheOk(cfg, p) && p.block == block))
    ensures SameOn(disk, View(cfg, disk, p), chain)
  {}

  /** Extends a file of some size: one of the supplied blocks becomes the block in which the
      next byte goes. Blocks that turn out bad are passed over. The old list is untouched, the
      new list is a list, and as far as the file goes both read the same. */
  method Extend(dev: Device, pcache: Cache, rcache: Cache, supply: Supply, head: int, size: nat,
                ghost chain: seq<int>, ghost keep: seq<int>)
    returns (r: Code, block: int, off: nat, ghost used: nat)
    requires dev.Valid() && pcache != rcache && IsFile(dev.cfg.blockSize, dev.disk, chain, head, size)
    requires forall b :: b in supply.blocks ==> b in dev.disk && 0 <= b < U32 && b !in keep
    requires forall b :: b in chain ==> b in keep
    requires |pcache.buffer| == dev.cfg.cacheSize && pcache.block == NULL_BLOCK
    requires FreshOn(dev.cfg, dev.disk, rcache.State(), keep)
    modifies dev, pcache, rcache, supply
    ensures dev.Valid() && |pcache.buffer| == |rcache.buffer| == dev.cfg.cacheSize && FreshOn(dev.cfg, dev.disk, rcache.State(), keep)
    ensures Marked(dev.cfg, old(rcache.State()), rcache.State())
    ensures AtEdge(dev.cfg.blockSize, size) ==>
              PointersTraced(dev.cfg, old(dev.disk), old(rcache.State()), rcache.State(), chain, r == Ok && dev.Sound())
    ensures Took(old(supply.blocks), supply.blocks, dev.Sound(), 1, r == Ok)
    ensures used <= |old(supply.blocks)| && supply.blocks == old(supply.blocks)[used..]
    ensures OnlyBlocks(old(dev.disk), dev.disk, old(supply.blocks)[..used])
    ensures r == Ok || (r == NoSpace && supply.blocks == [])
    ensures r == Ok ==> used > 0 && block == old(supply.blocks)[used - 1] && off == Index(dev.cfg.blockSize, size).1
    ensures r == Ok ==> Ready(dev.cfg, dev.disk, dev.cfg.cacheSize, pcache.State(), block, off)
    ensures r == Ok && off > 0 && pcache.block == NULL_BLOCK ==> Coherent(dev.cfg, dev.disk, rcache.State())
    ensures r == Ok ==>
              var view, chain' := View(dev.cfg, dev.disk, pcache.State()), Renewed(dev.cfg.blockSize, chain, size, block);
              && Listed(dev.cfg.blockSize, view, chain')
              && Data(dev.cfg.blockSize, view, chain', size) == Data(dev.cfg.blockSize, old(dev.disk), chain, size)
  {
    hide View;
    hide OnlyBlock;
    hide Shaped;
    hide Pending;
    hide Coherent;
    hide Seen;
    hide Index;
    hide Listed;
    hide FreshOn;
    hide Data;
    hide Renewed;
    hide Continues;
    hide Multiple;
    hide PointersTraced;
    hide AtEdge;
    used := 0;
    ghost var d0, r0 := dev.disk, rcache.State();
    NotTraced(dev.cfg, d0, r0, chain);
    FreshBuffer(dev.cfg, d0, rcache.State(), keep);
    while true
      invariant used <= |old(supply.blocks)| && supply.blocks == old(supply.blocks)[used..]
      invariant dev.Valid() && OnlyBlocks(d0, dev.disk, old(supply.blocks)[..used])
      invariant |pcache.buffer| == |rcache.buffer| == dev.cfg.cacheSize && pcache.block == NULL_BLOCK
      invariant FreshOn(dev.cfg, dev.disk, rcache.State(), keep) && Marked(dev.cfg, old(rcache.State()), rcache.State())
      invariant AtEdge(dev.cfg.blockSize, size) ==> PointersTraced(dev.cfg, d0, r0, rcache.State(), chain, false)
      invariant dev.Sound() ==> used == 0 && rcache.State() == r0
      decreases |supply.blocks|
    {
      var nblock := supply.Take();
      if nblock == None {
        return NoSpace, NULL_BLOCK, 0, used;
      }
      block, used := nblock.value, used + 1;
      ghost var d1 := dev.disk;
      dev.Erase(block);
      MoreBlocks(d0, d1, dev.disk, old(supply.blocks), used, used - 1);
      ListedFurther(dev.cfg.blockSize, d0, dev.disk, chain, old(supply.blocks)[..used]);
      FreshElsewhere(dev.cfg, d1, dev.disk, rcache.State(), keep, block);
      ghost var d2, r2 := dev.disk, rcache.State();
      r, off := Attempt(dev, pcache, rcache, block, head, size, chain, keep);
      MoreBlocks(d0, d2, dev.disk, old(supply.blocks), used, used);
      if AtEdge(dev.cfg.blockSize, size) {
        TracedAgain(dev.cfg, d0, r0, d2, r2, rcache.State(), chain, old(supply.blocks)[..used], r == Ok && dev.Sound());
      }
      if r == Ok {
        Succeeded(dev.cfg, d0, chain, head, size, d2, dev.disk, pcache.State(), block, old(supply.blocks)[..used]);
        return r, block, off, used;
      }
      pcache.Drop();
    }
  }

  lemma NotTraced(cfg: Config, d0: Disk, r: CacheState, chain: seq<int>)
    requires cfg.cacheSize > 0
    ensures PointersTraced(cfg, d0, r, r, chain, false)
  {}

  // the pointers of the list are read as before, and what a failed attempt left in the read cache is known
  lemma TracedAgain(cfg: Config, d0: Disk, r0: CacheState, d1: Disk, r1: CacheState, r2: CacheState, chain: seq<int>, taken: seq<int>, ok: bool)
    requires cfg.cacheSize > 0 && DiskOk(cfg, d0) && DiskOk(cfg, d1) && OnlyBlocks(d0, d1, taken) && (forall b :: b in taken ==> b !in chain)
    requires PointersTraced(cfg, d0, r0, r1, chain, false) && (ok ==> r1 == r0)
    requires PointersTraced(cfg, d1, r1, r2, chain, ok) || (!ok && PointersTraced(cfg, d1, r1, r2, chain, true))
    ensures PointersTraced(cfg, d0, r0, r2, chain, ok)
  {
    if ok && chain != [] { PointersElsewhere(cfg, d0, d1, r0, chain, taken, CtzOf(|chain|) + 1); }
  }

  lemma {:induction false} PointersElsewhere(cfg: Config, d0: Disk, d1: Disk, r: CacheState, chain: seq<int>, taken: seq<int>, n: nat)
    requires cfg.cacheSize > 0 && 0 < |chain| && n <= CtzOf(|chain|) + 1
    requires DiskOk(cfg, d0) && DiskOk(cfg, d1) && OnlyBlocks(d0, d1, taken) && (forall b :: b in taken ==> b !in chain)
    ensures AfterPointers(cfg, d1, r, chain, n) == AfterPointers(cfg, d0, r, chain, n)
  {
    hide Pow2;
    hide CtzOf;
    hide AfterSlot;
    if n > 0 {
      PointersElsewhere(cfg, d0, d1, r, chain, taken, n - 1);
      if n < CtzOf(|chain|) + 1 && Pow2(n - 1) <= |chain| {
        var b := chain[|chain| - Pow2(n - 1)];
        SlotElsewhere(cfg, d0, d1, AfterProg(cfg, AfterPointers(cfg, d0, r, chain, n - 1), 4 * (n - 1), 4), b, 4 * (n - 1), taken);
      }
    }
  }

  lemma SlotElsewhere(cfg: Config, d0: Disk, d1: Disk, r: CacheState, block: int, off: nat, taken: seq<int>)
    requires DiskOk(cfg, d0) && DiskOk(cfg, d1) && OnlyBlocks(d0, d1, taken) && block !in taken
    ensures AfterSlot(cfg, d1, r, block, off) == AfterSlot(cfg, d0, r, block, off)
  {
    hide Finish;
    var s := Reading(r, off, 4, []);
    if Underway(cfg, d0, EMPTY, block, s) { FinishElsewhere(cfg, d0, d1, EMPTY, 4, block, s); }
  }

  // ---------------------------------------------------------------- moving a bad block

  /** Copies what a file has of its last block, flushed or not, to a supplied block, and makes the file's cache the cache of that block. */
  method Relocate(dev: Device, cache: Cache, pcache: Cache, rcache: Cache, supply: Supply, block: int, off: nat, ghost keep: seq<int>)
    returns (r: Code, nblock: int, ghost used: nat)
    requires dev.Valid() && cache != pcache && cache != rcache && pcache != rcache && block in dev.disk && block in keep
    requires forall b :: b in supply.blocks ==> b in dev.disk && b !in keep
    requires |pcache.buffer| == dev.cfg.cacheSize && pcache.block == NULL_BLOCK && off <= dev.cfg.blockSize
    requires Pending(dev.cfg, dev.disk, cache.State()) && ReadAligned(dev.cfg, cache.State())
    requires FreshOn(dev.cfg, dev.disk, rcache.State(), keep)
    modifies dev, cache, pcache, rcache, supply
    ensures dev.Valid() && |pcache.buffer| == |rcache.buffer| == dev.cfg.cacheSize && FreshOn(dev.cfg, dev.disk, rcache.State(), keep)
    ensures pcache.block == NULL_BLOCK && Marked(dev.cfg, old(rcache.State()), rcache.State())
    ensures used <= |old(supply.blocks)| && supply.blocks == old(supply.blocks)[used..]
    ensures OnlyBlocks(old(dev.disk), dev.disk, old(supply.blocks)[..used])
    ensures r == Ok || (r == NoSpace && supply.blocks == [] && cache.State() == old(cache.State()))
    ensures r == Ok ==>
              && used > 0 && nblock == old(supply.blocks)[used - 1]
              && Ready(dev.cfg, dev.disk, dev.cfg.cacheSize, cache.State(), nblock, off)
              && Seen(dev.cfg, dev.disk, cache.State(), nblock)[..off] == Seen(dev.cfg, old(dev.disk), old(cache.State()), block)[..off]
              && (off > 0 && cache.block == NULL_BLOCK ==> Coherent(dev.cfg, dev.disk, rcache.State()))
  {
    hide Coherent;
    hide Seen;
    hide FreshOn;
    hide Multiple;
    hide Kept;
    used := 0;
    ghost var d0, p := dev.disk, cache.State();
    FreshBuffer(dev.cfg, d0, rcache.State(), keep);
    while true
      invariant used <= |old(supply.blocks)| && supply.blocks == old(supply.blocks)[used..] && cache.State() == p
      invariant dev.Valid() && OnlyBlocks(d0, dev.disk, old(supply.blocks)[..used])
      invariant |pcache.buffer| == |rcache.buffer| == dev.cfg.cacheSize && pcache.block == NULL_BLOCK
      invariant FreshOn(dev.cfg, dev.disk, rcache.State(), keep) && Marked(dev.cfg, old(rcache.State()), rcache.State())
      decreases |supply.blocks|
    {
      var b := supply.Take();
      if b == None {
        return NoSpace, NULL_BLOCK, used;
      }
      nblock, used := b.value, used + 1;
      ghost var d1 := dev.disk;
      dev.Erase(nblock);
      MoreBlocks(d0, d1, dev.disk, old(supply.blocks), used, used - 1);
      FreshElsewhere(dev.cfg, d1, dev.disk, rcache.State(), keep, nblock);
      ghost var d2, r2 := dev.disk, rcache.State();
      ReadyAtStart(dev.cfg, d2, pcache.State(), nblock);
      SeenElsewhere(dev.cfg, d0, d2, p, block);
      FreshIn(dev.cfg, d2, r2, keep, block);
      r := CopyOut(dev, cache, pcache, rcache, nblock, block, off);
      MoreBlocks(d0, d2, dev.disk, old(supply.blocks), used, used);
      FreshWhenKept(dev.cfg, d2, r2, dev.disk, rcache.State(), keep);
      if r == Ok {
        cache.Become(pcache);
        pcache.Zero(dev.cfg);
        return r, nblock, used;
      }
      pcache.Drop();
    }
  }

  lemma FreshIn(cfg: Config, disk: Disk, r: CacheState, chain: seq<int>, block: int)
    requires FreshOn(cfg, disk, r, chain) && block in chain
    ensures Fresh(cfg, disk, r, block)
  {}
}
