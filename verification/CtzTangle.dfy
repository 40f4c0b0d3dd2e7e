/** Copying the rest of a file with small caches.  The old list is read through the buffer of
    the read cache while the new one is written.  A read cache of at most eight bytes may be
    used and dropped again in between, and then the old list is read from what something else
    left in the buffer. */
module CtzTangle {
  import opened Words
  import opened Arith
  import opened Ctz
  import opened BlockDevice
  import opened BlockProg
  import opened CtzList
  import opened CtzExtend
  import opened CtzTail
  import opened CtzFile
  import TagWord

  // ---------------------------------------------------------------- one byte, then the next

  // the read cache after one byte of a block was read through an empty one
  function AfterByte(cfg: Config, disk: Disk, r: CacheState, c: int, off: nat): CacheState
  {
    var s := Reading(r, off, 1, []);
    if Underway(cfg, disk, EMPTY, c, s) && cfg.blockSize > 0 then Finish(cfg, disk, EMPTY, cfg.blockSize, c, s).r else r
  }

  /** The shared cache after the first byte of block c was copied into a new block behind the list. */
  function Copied(cfg: Config, disk: Disk, list: seq<int>, c: int, r: CacheState): CacheState
    requires cfg.cacheSize > 0 && list != []
  {
    var c0 := AfterByte(cfg, disk, r, c, Header(|list|));
    var q := AfterPointers(cfg, disk, r.(buffer := c0.buffer), list, CtzOf(|list|) + 1);
    Shared(c0, AfterProg(cfg, q, Header(|list|), 1))
  }

  /** The byte after it is read as the disk has it. */
  predicate NextByteReads(cfg: Config, disk: Disk, list: seq<int>, c: int, r: CacheState)
    requires cfg.cacheSize > 0 && list != []
  {
    var s := Reading(Copied(cfg, disk, list, c, r), Header(|list|) + 1, 1, []);
    Underway(cfg, disk, EMPTY, c, s) && cfg.blockSize > 0 &&
      Finish(cfg, disk, EMPTY, cfg.blockSize, c, s).data == [disk[c][Header(|list|) + 1]]
  }

  // lists behind which a block is begun, and a block that is copied to it
  predicate Scene(cfg: Config, disk: Disk, list: seq<int>, c: int, r: CacheState)
  {
    && Geometry(cfg) && MIN_BLOCK <= cfg.blockSize < U32 && DiskOk(cfg, disk) && list != [] && |list| < MANY
    && Listed(cfg.blockSize, disk, list) && c in disk && |r.buffer| == cfg.cacheSize && r.block == NULL_BLOCK
  }

  ghost predicate AlwaysReads(cfg: Config)
    requires cfg.cacheSize > 0
  {
    forall disk: Disk, list, c, r :: Scene(cfg, disk, list, c, r) ==> NextByteReads(cfg, disk, list, c, r)
  }

  // ---------------------------------------------------------------- when it is right

  lemma {:induction false} CalmPointers(cfg: Config, disk: Disk, r: CacheState, list: seq<int>, n: nat)
    requires Geometry(cfg) && Calm(cfg) && r.block == NULL_BLOCK && list != [] && n <= CtzOf(|list|) + 1
    ensures AfterPointers(cfg, disk, r, list, n) == r
  {
    hide Pow2;
    hide CtzOf;
    hide Finish;
    if n > 0 {
      CalmPointers(cfg, disk, r, list, n - 1);
      if n < CtzOf(|list|) + 1 && Pow2(n - 1) <= |list| {
        var b, off := list[|list| - Pow2(n - 1)], 4 * (n - 1);
        if Underway(cfg, disk, EMPTY, b, Reading(r, off, 4, [])) {
          CalmSlots(cfg, n - 1);
          Bypass(cfg, disk, 4, b, r, off, 4, AfterSlot(cfg, disk, r, b, off));
        }
      }
    }
  }

  lemma ByteCoherent(cfg: Config, disk: Disk, c: int, r: CacheState, off: nat)
    requires Geometry(cfg) && DiskOk(cfg, disk) && c in disk && off < cfg.blockSize && |r.buffer| == cfg.cacheSize
    requires r.block == NULL_BLOCK || Coherent(cfg, disk, r)
    ensures var c0 := AfterByte(cfg, disk, r, c, off); |c0.buffer| == cfg.cacheSize && FreshFrom(cfg, disk, c0, c, off)
    ensures Underway(cfg, disk, EMPTY, c, Reading(r, off, 1, []))
    ensures Finish(cfg, disk, EMPTY, cfg.blockSize, c, Reading(r, off, 1, [])).data == [disk[c][off]]
  {
    hide Finish;
    FreshRead(cfg, disk, EMPTY, cfg.blockSize, c, r, off, 1);
    NoOverlay(cfg, disk, c);
    assert disk[c][off..off + 1] == [disk[c][off]];
  }

  lemma CalmReads(cfg: Config, disk: Disk, list: seq<int>, c: int, r: CacheState)
    requires Scene(cfg, disk, list, c, r) && Calm(cfg)
    ensures NextByteReads(cfg, disk, list, c, r)
  {
    hide Finish;
    hide AfterPointers;
    hide CtzOf;
    hide Listed;
    var off := Header(|list|);
    HeaderFits(|list|);
    ByteCoherent(cfg, disk, c, r, off);
    var c0 := AfterByte(cfg, disk, r, c, off);
    CalmPointers(cfg, disk, r.(buffer := c0.buffer), list, CtzOf(|list|) + 1);
    assert Shared(c0, r.(buffer := c0.buffer)) == c0;
    FreshRead(cfg, disk, EMPTY, cfg.blockSize, c, r, off, 1);
    FreshRead(cfg, disk, EMPTY, cfg.blockSize, c, c0, off + 1, 1);
    NoOverlay(cfg, disk, c);
  }

  // ---------------------------------------------------------------- when it is wrong

  // the pairs of read unit and cache size
  predicate Tangled(cfg: Config)
  {
    || (cfg.readSize == cfg.cacheSize && (cfg.cacheSize == 3 || 5 <= cfg.cacheSize <= 8))
    || (cfg.readSize == 3 && cfg.cacheSize == 6)
  }

  /** The geometries with a small read cache that pointers are not read past. */
  lemma Tangling(cfg: Config)
    requires Geometry(cfg) && cfg.cacheSize <= 8 && !Calm(cfg)
    ensures Tangled(cfg)
  {
    MultipleGap(0, cfg.cacheSize, cfg.readSize);
  }

  // the only turn of a read that is in the cache
  lemma HitFinishes(cfg: Config, disk: Disk, hint: nat, block: int, s: Reading)
    requires Underway(cfg, disk, EMPTY, block, s) && hint > 0 && s.left > 0
    requires s.r.block == block && s.r.off <= s.off && s.off + s.left <= s.r.off + s.r.size
    ensures Finish(cfg, disk, EMPTY, hint, block, s) == s.Copied(s.r.buffer[s.off - s.r.off..][..s.left])
  {
    hide Finish;
    UnderwayTurn(cfg, EMPTY, hint, block, s, disk);
    assert NextTurn(cfg, EMPTY, s.r, hint, block, s.off, s.left) == FromRead(s.left);
    Finished(cfg, disk, EMPTY, hint, block, OneTurn(cfg, disk, EMPTY, hint, block, s));
  }

  // a load that brings in all of it
  lemma LoadFinishes(cfg: Config, disk: Disk, hint: nat, block: int, s: Reading, o: nat, n: nat)
    requires Underway(cfg, disk, EMPTY, block, s) && hint > 0 && s.left > 0
    requires NextTurn(cfg, EMPTY, s.r, hint, block, s.off, s.left) == Load(o, n) && o <= s.off && s.off + s.left <= o + n
    ensures o + n <= cfg.blockSize && n <= cfg.cacheSize && |disk[block]| == cfg.blockSize
    ensures Finish(cfg, disk, EMPTY, hint, block, s).r == Loaded(disk[block], s.r, block, o, n)
  {
    hide Finish;
    TurnFits(cfg, EMPTY, s.r, hint, block, s.off, s.left);
    UnderwayTurn(cfg, EMPTY, hint, block, s, disk);
    HitFinishes(cfg, disk, hint, block, OneTurn(cfg, disk, EMPTY, hint, block, s));
  }

  // the buffer is full of bytes of a block
  predicate FullOf(cfg: Config, r: CacheState, blk: seq<byte>)
  {
    |r.buffer| == cfg.cacheSize && forall x :: x in r.buffer ==> x in blk
  }

  lemma WholeLoad(cfg: Config, blk: seq<byte>, r: CacheState, block: int, o: nat)
    requires |r.buffer| == cfg.cacheSize && o + cfg.cacheSize <= |blk|
    ensures var l := Loaded(blk, r, block, o, cfg.cacheSize); FullOf(cfg, l, blk) && l.buffer == blk[o..o + cfg.cacheSize]
  {
    assert blk[o..o + cfg.cacheSize] + r.buffer[cfg.cacheSize..] == blk[o..o + cfg.cacheSize];
  }

  /** The first pointer is read through the cache, which it fills. */
  lemma FirstSlotFills(cfg: Config, disk: Disk, r: CacheState, b: int)
    requires Geometry(cfg) && cfg.cacheSize <= 8 && !Calm(cfg) && DiskOk(cfg, disk) && b in disk
    requires r.block == NULL_BLOCK && |r.buffer| == cfg.cacheSize && cfg.cacheSize > 3
    ensures FullOf(cfg, AfterSlot(cfg, disk, r, b, 0), disk[b])
  {
    hide Finish;
    hide FullOf;
    hide NextTurn;
    hide OneTurn;
    Tangling(cfg);
    var s := Reading(r, 0, 4, []);
    if cfg.readSize == 3 {
      TurnPast(cfg, r, b);
      UnderwayTurn(cfg, EMPTY, 4, b, s, disk);
      var t := s.Copied(disk[b][0..3]);
      assert OneTurn(cfg, disk, EMPTY, 4, b, s) == t by { DirectIs(cfg, disk, b, s, 3); }
      LoadFinishes(cfg, disk, 4, b, t, 3, 6);
      WholeLoad(cfg, disk[b], r, b, 3);
    } else {
      TurnAll(cfg, r, b);
      LoadFinishes(cfg, disk, 4, b, s, 0, cfg.cacheSize);
      WholeLoad(cfg, disk[b], r, b, 0);
    }
  }

  lemma DirectIs(cfg: Config, disk: Disk, b: int, s: Reading, n: nat)
    requires Underway(cfg, disk, EMPTY, b, s) && s.left > 0 && NextTurn(cfg, EMPTY, s.r, 4, b, s.off, s.left) == Direct(n) && n <= s.left
    ensures OneTurn(cfg, disk, EMPTY, 4, b, s) == s.Copied(disk[b][s.off..s.off + n])
  {}

  // with units of three bytes the first three bypass the cache, the fourth does not
  lemma TurnPast(cfg: Config, r: CacheState, b: int)
    requires Geometry(cfg) && cfg.readSize == 3 && cfg.cacheSize == 6 && r.block == NULL_BLOCK != b
    ensures NextTurn(cfg, EMPTY, r, 4, b, 0, 4) == Direct(3) && NextTurn(cfg, EMPTY, r, 4, b, 3, 1) == Load(3, 6)
  {
    hide AlignDown;
    hide AlignUp;
    var n := cfg.readSize;
    MultipleOf(1, n);
    MultipleOf(3, n);
    AlignDownIs(n + 1, n, n);
    AlignDownIs(n, n, n);
    AlignUpIs(n + 4, n, 3 * n);
  }

  lemma TurnAll(cfg: Config, r: CacheState, b: int)
    requires Geometry(cfg) && cfg.readSize == cfg.cacheSize && 4 < cfg.cacheSize <= 8 && r.block == NULL_BLOCK != b
    ensures NextTurn(cfg, EMPTY, r, 4, b, 0, 4) == Load(0, cfg.cacheSize)
  {
    var n := cfg.readSize;
    AlignDownIs(0, n, 0);
    MultipleOf(1, n);
    AlignDownIs(4 + n - 1, n, n);
  }

  // with three bytes it is the second one that is read there
  lemma SecondSlotFills(cfg: Config, disk: Disk, r: CacheState, b: int)
    requires Geometry(cfg) && cfg.cacheSize == 3 && !Calm(cfg) && DiskOk(cfg, disk) && b in disk
    requires r.block == NULL_BLOCK && |r.buffer| == cfg.cacheSize
    ensures FullOf(cfg, AfterSlot(cfg, disk, r, b, 4), disk[b])
  {
    hide Finish;
    Tangling(cfg);
    var s := Reading(r, 4, 4, []);
    assert NextTurn(cfg, EMPTY, r, 4, b, 4, 4) == Load(3, 3);
    UnderwayTurn(cfg, EMPTY, 4, b, s, disk);
    var t := OneTurn(cfg, disk, EMPTY, 4, b, s);
    assert NextTurn(cfg, EMPTY, t.r, 4, b, 4, 4) == FromRead(2);
    UnderwayTurn(cfg, EMPTY, 4, b, t, disk);
    var u := OneTurn(cfg, disk, EMPTY, 4, b, t);
    assert NextTurn(cfg, EMPTY, u.r, 4, b, 6, 2) == Load(6, 3);
    LoadFinishes(cfg, disk, 4, b, u, 6, 3);
    WholeLoad(cfg, disk[b], u.r, b, 6);
  }

  /** Copying the first byte of a block with offset off loads a window that holds the next one, too. */
  lemma ByteWindow(cfg: Config, disk: Disk, c: int, r: CacheState, off: nat)
    requires Geometry(cfg) && cfg.cacheSize <= 8 && !Calm(cfg) && DiskOk(cfg, disk) && c in disk
    requires r.block == NULL_BLOCK && |r.buffer| == cfg.cacheSize && off == if cfg.cacheSize == 3 then 12 else 8
    ensures var c0 := AfterByte(cfg, disk, r, c, off);
            && c0.block == c && c0.size == |c0.buffer| == cfg.cacheSize && Multiple(c0.off, cfg.readSize) && c0.off <= off
            && off + 1 < c0.off + c0.size <= cfg.blockSize
  {
    hide Finish;
    hide NextTurn;
    var s := Reading(r, off, 1, []);
    var o := ByteTurn(cfg, r, c, off);
    LoadFinishes(cfg, disk, cfg.blockSize, c, s, o, cfg.cacheSize);
  }

  lemma ByteTurn(cfg: Config, r: CacheState, c: int, off: nat) returns (o: nat)
    requires Geometry(cfg) && cfg.cacheSize <= 8 && !Calm(cfg) && r.block == NULL_BLOCK != c
    requires off == if cfg.cacheSize == 3 then 12 else 8
    ensures NextTurn(cfg, EMPTY, r, cfg.blockSize, c, off, 1) == Load(o, cfg.cacheSize)
    ensures o <= off && off + 1 < o + cfg.cacheSize <= cfg.blockSize && Multiple(o, cfg.readSize)
  {
    hide AlignDown;
    hide AlignUp;
    hide Multiple;
    Tangling(cfg);
    o := WindowStart(cfg, off);
    LoadSize(cfg, off, o);
  }

  // a block is longer than the cache, and so is what a read of it may load
  lemma LoadSize(cfg: Config, off: nat, o: nat)
    requires Geometry(cfg) && cfg.cacheSize <= 8 && o <= off <= 12
    ensures Min(Min(AlignUp(off + cfg.blockSize, cfg.readSize), cfg.blockSize) - o, cfg.cacheSize) == cfg.cacheSize
    ensures o + cfg.cacheSize <= cfg.blockSize
  {
    hide Multiple;
  }

  lemma WindowStart(cfg: Config, off: nat) returns (o: nat)
    requires Geometry(cfg) && off == if cfg.cacheSize == 3 then 12 else 8
    requires Tangled(cfg)
    ensures o == AlignDown(off, cfg.readSize) && o <= off && off + 1 < o + cfg.cacheSize && Multiple(o, cfg.readSize)
  {
    var n := cfg.cacheSize;
    o := if n == 3 then 12 else if n == 5 then 5 else if n == 6 then 6 else if n == 7 then 7 else 8;
    AlignDownIs(off, cfg.readSize, o);
  }

  // the block whose pointer is read last
  function Culprit(cfg: Config, list: seq<int>): int
    requires |list| == if cfg.cacheSize == 3 then 4 else 2
  {
    if cfg.cacheSize == 3 then list[2] else list[1]
  }

  // the new block has two pointers, with a cache of three bytes three
  lemma PointersFill(cfg: Config, disk: Disk, r: CacheState, list: seq<int>)
    requires Geometry(cfg) && cfg.cacheSize <= 8 && !Calm(cfg) && DiskOk(cfg, disk) && r.block == NULL_BLOCK && |r.buffer| == cfg.cacheSize
    requires |list| == (if cfg.cacheSize == 3 then 4 else 2) && forall b :: b in list ==> b in disk
    ensures CtzOf(|list|) + 1 == if cfg.cacheSize == 3 then 3 else 2
    ensures var q := AfterPointers(cfg, disk, r, list, CtzOf(|list|) + 1);
            q.block == NULL_BLOCK && FullOf(cfg, q, disk[Culprit(cfg, list)])
  {
    hide AfterSlot;
    hide FullOf;
    Tangling(cfg);
    if cfg.cacheSize == 3 {
      FourIsFour(list);
      assert AfterPointers(cfg, disk, r, list, 0) == r;
      var one := AfterPointers(cfg, disk, r, list, 1);
      assert one == AfterSlot(cfg, disk, AfterProg(cfg, r, 0, 4), list[3], 0);
      var dropped := AfterProg(cfg, one, 4, 4);
      assert AfterPointers(cfg, disk, r, list, 2) == AfterSlot(cfg, disk, dropped, list[2], 4);
      SlotBuffer(cfg, disk, AfterProg(cfg, r, 0, 4), list[3], 0);
      SecondSlotFills(cfg, disk, dropped, list[2]);
      StaysFull(cfg, AfterPointers(cfg, disk, r, list, 2), 8, disk[list[2]]);
    } else {
      TwoIsTwo(list);
      var begun := AfterProg(cfg, r, 0, 4);
      assert AfterPointers(cfg, disk, r, list, 1) == AfterSlot(cfg, disk, begun, list[1], 0);
      FirstSlotFills(cfg, disk, begun, list[1]);
      StaysFull(cfg, AfterPointers(cfg, disk, r, list, 1), 4, disk[list[1]]);
    }
  }

  lemma FourIsFour(list: seq<int>)
    requires |list| == 4
    ensures CtzOf(|list|) == 2 && Pow2(0) == 1 && Pow2(1) == 2
  {}

  lemma TwoIsTwo(list: seq<int>)
    requires |list| == 2
    ensures CtzOf(|list|) == 1 && Pow2(0) == 1
  {}

  lemma SlotBuffer(cfg: Config, disk: Disk, r: CacheState, b: int, off: nat)
    requires |r.buffer| == cfg.cacheSize
    ensures |AfterSlot(cfg, disk, r, b, off).buffer| == cfg.cacheSize
  {
    hide Finish;
  }

  // the next pointer is programmed and fills a window: the read cache is dropped, its buffer stays
  lemma StaysFull(cfg: Config, r: CacheState, start: nat, blk: seq<byte>)
    requires 0 < cfg.cacheSize <= 8 && FullOf(cfg, r, blk) && InWindow(cfg, start) + 4 >= cfg.cacheSize
    ensures var q := AfterProg(cfg, r, start, 4); q.block == NULL_BLOCK && FullOf(cfg, q, blk)
  {}

  /** Whatever the disk holds: the byte that is read next is one of the block that a pointer was
      read from, not of the file that is copied. */
  lemma ReadsCulprit(cfg: Config, disk: Disk, list: seq<int>, c: int, r: CacheState)
    requires Scene(cfg, disk, list, c, r) && cfg.cacheSize <= 8 && !Calm(cfg) && |list| == if cfg.cacheSize == 3 then 4 else 2
    ensures var s := Reading(Copied(cfg, disk, list, c, r), Header(|list|) + 1, 1, []);
            && Underway(cfg, disk, EMPTY, c, s)
            && var data := Finish(cfg, disk, EMPTY, cfg.blockSize, c, s).data; |data| == 1 && data[0] in disk[Culprit(cfg, list)]
  {
    hide Finish;
    hide AfterByte;
    hide AfterPointers;
    hide Listed;
    hide FullOf;
    hide CtzOf;
    ListInDisk(cfg.blockSize, disk, list);
    var c0 := AfterByte(cfg, disk, r, c, Header(|list|));
    HeaderIs(list);
    ByteWindow(cfg, disk, c, r, Header(|list|));
    PointersFill(cfg, disk, r.(buffer := c0.buffer), list);
    var q := AfterPointers(cfg, disk, r.(buffer := c0.buffer), list, CtzOf(|list|) + 1);
    assert AfterProg(cfg, q, Header(|list|), 1) == q;
    HitByte(cfg, disk, c, Shared(c0, q), Header(|list|) + 1, disk[Culprit(cfg, list)], q);
  }

  lemma HeaderIs(list: seq<int>)
    ensures |list| == 2 ==> Header(|list|) == 8
    ensures |list| == 4 ==> Header(|list|) == 12
  {}

  // a byte from a window with another block's bytes in it
  lemma HitByte(cfg: Config, disk: Disk, c: int, r: CacheState, off: nat, blk: seq<byte>, q: CacheState)
    requires Geometry(cfg) && DiskOk(cfg, disk) && c in disk && FullOf(cfg, q, blk) && r.buffer == q.buffer
    requires r.block == c && r.size == cfg.cacheSize && r.off <= off < r.off + r.size <= cfg.blockSize && Multiple(r.off, cfg.readSize)
    ensures var s := Reading(r, off, 1, []);
            && Underway(cfg, disk, EMPTY, c, s)
            && var data := Finish(cfg, disk, EMPTY, cfg.blockSize, c, s).data; |data| == 1 && data[0] in blk
  {
    hide Finish;
    var s := Reading(r, off, 1, []);
    HitFinishes(cfg, disk, cfg.blockSize, c, s);
    var x := r.buffer[off - r.off];
    assert s.Copied(r.buffer[off - r.off..][..1]).data == [x];
    assert x in r.buffer;
  }

  lemma ListInDisk(bs: nat, disk: Disk, list: seq<int>)
    requires Listed(bs, disk, list)
    ensures forall b :: b in list ==> b in disk
  {
    hide Linked;
  }

  // ---------------------------------------------------------------- exactly when

  // a block of zeros but for its first byte
  function Blank(bs: nat, x: byte): (b: seq<byte>)
    ensures |b| == bs
  {
    seq(bs, i => if i == 0 then x else 0)
  }

  // four blocks of a list, and one full of sevens
  function SceneDisk(bs: nat): Disk
  {
    map[0 := Blank(bs, 0), 1 := Blank(bs, 0), 2 := Blank(bs, 1), 3 := Blank(bs, 2), 4 := seq(bs, i => 7)]
  }

  lemma BlankSlots(bs: nat, x: byte)
    requires bs >= 8 && x < 3
    ensures Slot(Blank(bs, x), 0) == x as nat && Slot(Blank(bs, x), 1) == 0
  {
    var b := Blank(bs, x);
    assert b[0..4] == [x, 0, 0, 0];
    assert b[4..8] == [0, 0, 0, 0];
    FourBytesAre(x);
    FourBytesAre(0);
  }

  lemma FourBytesAre(x: byte)
    ensures TagWord.LittleEndian([x, 0, 0, 0]) == x as nat
  {
    assert [x, 0, 0, 0][1..] == [0, 0, 0];
    assert [0, 0, 0][1..] == [0, 0];
    assert [0, 0][1..] == [0];
    assert [0 as byte][1..] == [];
  }

  lemma SceneListed(bs: nat, list: seq<int>)
    requires MIN_BLOCK <= bs < U32 && (list == [0, 1] || list == [0, 1, 2, 3])
    ensures Listed(bs, SceneDisk(bs), list)
  {
    hide Slot;
    BlankSlots(bs, 0);
    BlankSlots(bs, 1);
    BlankSlots(bs, 2);
    SmallPowers();
    var disk := SceneDisk(bs);
    forall n | 0 <= n < |list|
      ensures list[n] in disk && 0 <= list[n] < U32 && |disk[list[n]]| == bs && Linked(disk[list[n]], list, n)
    {
      assert list[n] == n;
      forall k | n > 0 && 0 <= k <= CtzOf(n)
        ensures 4 * k + 4 <= bs && Pow2(k) <= n && Slot(disk[n], k) == list[n - Pow2(k)]
      {}
    }
  }

  lemma SmallPowers()
    ensures CtzOf(1) == 0 && CtzOf(2) == 1 && CtzOf(3) == 0 && Pow2(0) == 1 && Pow2(1) == 2
  {}

  /** With a cache of at most eight bytes, the byte behind the first one of a new block is always
      read right exactly if pointers are read past the cache: if its read units divide four. */
  lemma SmallCachesIff(cfg: Config)
    requires Geometry(cfg) && MIN_BLOCK <= cfg.blockSize < U32 && cfg.cacheSize <= 8
    ensures AlwaysReads(cfg) <==> Calm(cfg)
  {
    if Calm(cfg) {
      forall disk: Disk, list, c, r | Scene(cfg, disk, list, c, r) ensures NextByteReads(cfg, disk, list, c, r) {
        CalmReads(cfg, disk, list, c, r);
      }
    } else {
      var bs, disk := cfg.blockSize, SceneDisk(cfg.blockSize);
      var list := if cfg.cacheSize == 3 then [0, 1, 2, 3] else [0, 1];
      var r := CacheState(NULL_BLOCK, 0, 0, seq(cfg.cacheSize, i => 0));
      SceneListed(bs, list);
      assert Scene(cfg, disk, list, 4, r);
      ReadsCulprit(cfg, disk, list, 4, r);
      assert !NextByteReads(cfg, disk, list, 4, r) by {
        hide Copied;
        HeaderIs(list);
        assert 7 !in disk[Culprit(cfg, list)];
      }
    }
  }

  // ---------------------------------------------------------------- the copying loop

  // what the first turn leaves is what Copied says
  lemma FirstTurn(cfg: Config, disk: Disk, list: seq<int>, c: int, r: CacheState, pos: nat, c0: CacheState, r1: CacheState, first: byte)
    requires 0 < cfg.cacheSize <= 8 && MIN_BLOCK <= cfg.blockSize < U32 && pos < U32 && list != [] && r.block == NULL_BLOCK
    requires Index(cfg.blockSize, pos).1 == Header(|list|)
    requires Loops(cfg, disk, Reading(r, Header(|list|), 1, []), c, c0, [first])
    requires ByteShared(cfg, disk, r.(buffer := c0.buffer), r1, list, pos, cfg.blockSize, true)
    ensures Shared(c0, r1) == Copied(cfg, disk, list, c, r)
  {
    hide Index;
    hide Finish;
    hide AfterPointers;
    hide CtzOf;
  }

  lemma SecondTurn(cfg: Config, d0: Disk, d1: Disk, c: int, s: Reading, c1: CacheState, second: byte)
    requires Loops(cfg, d1, s, c, c1, [second]) && DiskOk(cfg, d0) && c in d0 && d0[c] == d1[c] && s.data == []
    ensures Underway(cfg, d0, EMPTY, c, s) && Finish(cfg, d0, EMPTY, cfg.blockSize, c, s).data == [second]
  {
    hide Finish;
    FinishElsewhere(cfg, d0, d1, EMPTY, cfg.blockSize, c, s);
    assert [] + [second] == [second];
  }

  lemma SharedShaped(cfg: Config, disk: Disk, s: Reading, c: int, c0: CacheState, r1: CacheState, data: seq<byte>)
    requires Loops(cfg, disk, s, c, c0, data) && |r1.buffer| == cfg.cacheSize
    ensures Shaped(cfg, Shared(c0, r1), c)
  {
    hide Finish;
  }

  /** The first turn of the loop that copies the rest, at the start of the last block of the old
      list: the byte is right, and it is known what the shared cache holds then. */
  method CopyFirst(f: File, orig: File, other: Cache) returns (ghost first: byte)
    requires f.Writing() && f.off == f.lfs.dev.cfg.blockSize && f.pos + 1 < f.size && Index(f.lfs.dev.cfg.blockSize, f.pos).0 == |f.chain| - 1
    requires orig != f && orig.cache == other && orig.lfs == f.lfs && orig.chain == f.chain && orig.head == f.head && orig.size == f.size
    requires other != f.cache && other != f.lfs.rcache && other != f.lfs.pcache && orig.Reader() && orig.pos == f.pos
    requires f.lfs.rcache.block == NULL_BLOCK && other.State() == f.lfs.rcache.State()
    requires f.lfs.dev.Sound() && f.lfs.dev.cfg.cacheSize <= 8 && f.lfs.supply.blocks != []
    modifies f`pos, f`off, f`block, f`written, f`writing, f`erred, f.cache, f.lfs.dev, f.lfs.rcache, f.lfs.pcache, f.lfs.supply
    modifies orig`pos, orig`off, orig`block, orig`reading, orig`at, other
    ensures f.Writing() && f.RoomNeed() == 0 && f.pos == old(f.pos) + 1 && f.Listing() == old(f.Listing()) && f.lfs.dev.Valid()
    ensures f.Bytes() == old(f.Bytes()) + [first] && first == old(f.Listing()[f.pos]) && f.written != [] && old(f.written) != []
    ensures orig.Here(1) && orig.pos == f.pos && f.lfs.rcache.block == NULL_BLOCK && other.buffer == f.lfs.rcache.buffer
    ensures Index(f.lfs.dev.cfg.blockSize, f.pos) == (|f.chain| - 1, Header(|old(f.written)|) + 1)
    ensures SameOn(old(f.lfs.dev.disk), f.lfs.dev.disk, f.chain)
    ensures other.State() == Copied(f.lfs.dev.cfg, old(f.lfs.dev.disk), old(f.written), f.chain[|f.chain| - 1], old(f.lfs.rcache.State()))
  {
    hide Coherent;
    hide WriterAt;
    hide Spare;
    hide SameOn;
    hide Data;
    hide Prefix;
    hide Stands;
    hide FreshOn;
    hide IsFile;
    hide Edge;
    hide Shaped;
    hide Index;
    hide Loops;
    hide ByteShared;
    hide Untangled;
    hide Copied;
    hide Turned;
    hide Finish;
    hide Underway;
    hide Geometry;
    hide DiskOk;
    hide Header;
    hide View;
    hide Listed;
    ghost var cfg, d0, list, pos, r0 := f.lfs.dev.cfg, f.lfs.dev.disk, f.written, f.pos, f.lfs.rcache.State();
    ghost var c := f.chain[|f.chain| - 1];
    AtFullBlock(cfg, d0, f.cache.State(), r0, list, f.block, pos, f.off);
    ghost var r, a, c0, r1;
    r, first, a, c0, r1 := f.CopyByte(orig, other);
    FirstTurn(cfg, d0, list, c, r0, pos, c0, r1, first);
    AtFreshBlock(cfg, f.lfs.dev.disk, f.cache.State(), f.lfs.rcache.State(), f.written, f.block, f.pos, f.off);
    SharedShaped(cfg, d0, Reading(r0, Header(|list|), 1, []), c, c0, r1, [first]);
  }

  /** Two turns: the second byte is what the shared cache makes of it. */
  method CopyTwo(f: File, orig: File, other: Cache) returns (r: Code, ghost first: byte, ghost second: byte)
    requires f.Writing() && f.off == f.lfs.dev.cfg.blockSize && f.pos + 1 < f.size && Index(f.lfs.dev.cfg.blockSize, f.pos).0 == |f.chain| - 1
    requires orig != f && orig.cache == other && orig.lfs == f.lfs && orig.chain == f.chain && orig.head == f.head && orig.size == f.size
    requires other != f.cache && other != f.lfs.rcache && other != f.lfs.pcache && orig.Reader() && orig.pos == f.pos
    requires f.lfs.rcache.block == NULL_BLOCK && other.State() == f.lfs.rcache.State()
    requires f.lfs.dev.Sound() && f.lfs.dev.cfg.cacheSize <= 8 && f.lfs.supply.blocks != []
    modifies f`pos, f`off, f`block, f`written, f`writing, f`erred, f.cache, f.lfs.dev, f.lfs.rcache, f.lfs.pcache, f.lfs.supply
    modifies orig`pos, orig`off, orig`block, orig`reading, orig`at, other
    ensures r == Ok && f.Writing() && f.pos == old(f.pos) + 2 && f.Listing() == old(f.Listing())
    ensures f.Bytes() == old(f.Bytes()) + [first, second] && first == old(f.Listing()[f.pos])
    ensures Turned(f.lfs.dev.cfg, old(f.lfs.dev.disk), old(f.written), f.chain[|f.chain| - 1], old(f.lfs.rcache.State()), second)
  {
    hide Coherent;
    hide WriterAt;
    hide Spare;
    hide SameOn;
    hide Data;
    hide Prefix;
    hide Stands;
    hide FreshOn;
    hide IsFile;
    hide Edge;
    hide Shaped;
    hide Index;
    hide Loops;
    hide ByteShared;
    hide Untangled;
    hide Copied;
    hide Turned;
    hide Finish;
    hide Underway;
    hide Geometry;
    hide DiskOk;
    hide Header;
    hide View;
    hide Listed;
    ghost var cfg, d0, list, r0 := f.lfs.dev.cfg, f.lfs.dev.disk, f.written, f.lfs.rcache.State();
    ghost var c := f.chain[|f.chain| - 1];
    Before(f);
    first := CopyFirst(f, orig, other);
    ghost var d1, c1, copied, bytes := f.lfs.dev.disk, other.State(), Copied(cfg, d0, list, c, r0), f.Bytes();
    ghost var a, c0, r1;
    r, second, a, c0, r1 := f.CopyByte(orig, other);
    assert orig.block == c && orig.off - 1 == Header(|list|) + 1 && a == copied;
    SecondIs(cfg, d0, d1, f.chain, f.head, f.size, list, c, r0, c0, second);
    assert [first] + [second] == [first, second];
  }

  lemma Before(f: File)
    requires f.Writing()
    ensures DiskOk(f.lfs.dev.cfg, f.lfs.dev.disk) && f.lfs.dev.cfg.cacheSize > 0 && f.written != []
    ensures IsFile(f.lfs.dev.cfg.blockSize, f.lfs.dev.disk, f.chain, f.head, f.size)
  {}

  /** A byte that was read right behind the first one of a block. */
  predicate Turned(cfg: Config, disk: Disk, list: seq<int>, c: int, r: CacheState, second: byte)
  {
    cfg.cacheSize > 0 && cfg.blockSize > 0 && list != [] &&
    var s := Reading(Copied(cfg, disk, list, c, r), Header(|list|) + 1, 1, []);
    Underway(cfg, disk, EMPTY, c, s) && Finish(cfg, disk, EMPTY, cfg.blockSize, c, s).data == [second]
  }

  lemma AtFullBlock(cfg: Config, disk: Disk, p: CacheState, r: CacheState, list: seq<int>, block: int, pos: nat, off: nat)
    requires WriterAt(cfg, disk, p, r, list, block, pos, off) && off == cfg.blockSize
    ensures list != [] && Index(cfg.blockSize, pos) == (|list|, Header(|list|)) && Header(|list|) <= 108 && |r.buffer| == cfg.cacheSize
    ensures 0 < cfg.cacheSize && MIN_BLOCK <= cfg.blockSize < U32
  {
    hide Linked;
    hide Index;
    HeaderFits(|list|);
    EdgeStart(cfg.blockSize, |list| - 1, pos, off);
  }

  // one byte is in the block
  lemma AtFreshBlock(cfg: Config, disk: Disk, p: CacheState, r: CacheState, list: seq<int>, block: int, pos: nat, off: nat)
    requires WriterAt(cfg, disk, p, r, list, block, pos, off) && off > Header(|list| - 1)
    ensures pos > 0 && Index(cfg.blockSize, pos - 1) == (|list| - 1, off - 1) && |r.buffer| == cfg.cacheSize
    ensures off < cfg.blockSize ==> Index(cfg.blockSize, pos) == (|list| - 1, off)
  {
    hide Linked;
    hide Index;
    EdgeIndex(cfg.blockSize, |list| - 1, pos, off);
  }

  lemma SecondIs(cfg: Config, d0: Disk, d1: Disk, chain: seq<int>, head: int, size: nat, list: seq<int>, c: int, r: CacheState,
                 c1: CacheState, second: byte)
    requires IsFile(cfg.blockSize, d0, chain, head, size) && SameOn(d0, d1, chain) && chain != [] && c == chain[|chain| - 1]
    requires DiskOk(cfg, d0) && list != [] && cfg.cacheSize > 0
    requires Loops(cfg, d1, Reading(Copied(cfg, d0, list, c, r), Header(|list|) + 1, 1, []), c, c1, [second])
    ensures Turned(cfg, d0, list, c, r, second)
  {
    hide Finish;
    hide Copied;
    hide Linked;
    SecondTurn(cfg, d0, d1, c, Reading(Copied(cfg, d0, list, c, r), Header(|list|) + 1, 1, []), c1, second);
  }

  // ---------------------------------------------------------------- one file

  // a list of three blocks, the beginning of another one, and a spare block
  function Example(): Disk
  {
    map[0 := Blank(128, 0), 1 := Blank(128, 0), 2 := Sevens(), 3 := Blank(128, 0), 4 := Blank(128, 3), 5 := Blank(128, 0)]
  }

  function Sevens(): (b: seq<byte>)
    ensures |b| == 128
  {
    seq(128, i => if i == 0 then 1 else if i < 8 then 0 else 7)
  }

  function Small(): Config { Config(8, 8, 8, 128) }

  function OldList(): seq<int> { [0, 1, 2] }

  function NewList(): seq<int> { [3, 4] }

  lemma SmallIs()
    ensures Small().cacheSize == 8 && Small().blockSize == 128 && Geometry(Small()) && DiskOk(Small(), Example())
  {}

  lemma ExampleListed()
    ensures Geometry(Small()) && DiskOk(Small(), Example())
    ensures Listed(128, Example(), [0, 1, 2]) && Listed(128, Example(), [3, 4])
  {
    hide Slot;
    BlankSlots(128, 0);
    SmallPowers();
    SevensSlots();
    ThreeSlot();
    var disk := Example();
    forall n | 0 <= n < 3
      ensures [0, 1, 2][n] in disk && 0 <= [0, 1, 2][n] < U32 && |disk[[0, 1, 2][n]]| == 128 && Linked(disk[[0, 1, 2][n]], [0, 1, 2], n)
    {
      forall k | n > 0 && 0 <= k <= CtzOf(n)
        ensures 4 * k + 4 <= 128 && Pow2(k) <= n && Slot(disk[n], k) == [0, 1, 2][n - Pow2(k)]
      {}
    }
    assert Linked(disk[4], [3, 4], 1);
  }

  lemma SevensSlots()
    ensures Slot(Sevens(), 0) == 1 && Slot(Sevens(), 1) == 0
  {
    var b := Sevens();
    assert b[0..4] == [1, 0, 0, 0] && b[4..8] == [0, 0, 0, 0];
    FourBytesAre(1);
    FourBytesAre(0);
  }

  lemma ThreeSlot()
    ensures Slot(Blank(128, 3), 0) == 3
  {
    assert Blank(128, 3)[0..4] == [3, 0, 0, 0];
    FourBytesAre(3);
  }

  // where the positions are
  lemma ExamplePlaces()
    ensures Start(128, 1) == 128 && Start(128, 2) == 252 && Header(1) == 4 && Header(2) == 8
    ensures Index(128, 252) == (2, 8) && Index(128, 253) == (2, 9) && Length(128, 254) == 3 && Edge(128, 1, 252, 128)
  {
    hide Index;
    SmallPowers();
    assert Start(128, 1) == 128;
    assert Start(128, 2) == 252;
    assert Start(128, 3) == 372;
    IndexIs(128, 252, 2, 8);
    IndexIs(128, 253, 2, 9);
  }

  lemma ExampleStands(p: CacheState, r: CacheState)
    requires |p.buffer| == |r.buffer| == 8 && p.block == r.block == NULL_BLOCK
    ensures Stands(Small(), Example(), r, OldList(), 2, 254)
    ensures WriterAt(Small(), Example(), p, r, NewList(), 4, 252, 128) && Header(1) < 128
    ensures Data(128, Example(), OldList(), 254)[253] == 7
    ensures |OldList()| == 3 && |NewList()| == 2 && 4 !in OldList() && NewList()[1] == 4
    ensures Spare(Example(), [5], OldList()) && Spare(Example(), [5], OldList() + NewList())
  {
    hide Listed;
    hide Index;
    ExampleListed();
    ExamplePlaces();
    NoView(Small(), Example(), p);
  }

  method SoundDevice() returns (dev: Device)
    ensures fresh(dev) && dev.cfg == Small() && dev.disk == Example() && dev.Sound() && dev.Valid()
  {
    ExampleListed();
    dev := new Device(Small(), (t, s) => s, Example());
  }

  // the first two blocks of a file of three were written anew
  method HalfWritten() returns (f: File)
    ensures fresh(f) && fresh(f.cache) && fresh(f.lfs) && fresh(f.lfs.dev) && fresh(f.lfs.rcache) && fresh(f.lfs.pcache) && fresh(f.lfs.supply)
    ensures f.lfs.dev.cfg == Small() && f.lfs.dev.Sound() && f.lfs.dev.disk == Example() && f.lfs.supply.blocks == [5]
    ensures f.Writing() && f.written == NewList() && f.chain == OldList() && f.head == 2 && f.size == 254 && f.pos == 252 && f.off == 128
    ensures f.lfs.rcache.block == NULL_BLOCK && |f.lfs.rcache.buffer| == 8
  {
    hide WriterAt;
    hide Stands;
    hide Spare;
    hide Data;
    hide Index;
    hide Example;
    hide Edge;
    hide Header;
    hide Start;
    hide Length;
    hide Listed;
    hide CtzOf;
    hide Blank;
    hide Small;
    hide OldList;
    hide NewList;
    hide Geometry;
    hide DiskOk;
    hide Finish;
    hide Copied;
    hide Turned;
    hide Prefix;
    hide IsFile;
    hide FreshOn;
    hide View;
    var dev := SoundDevice();
    var rcache := new Cache(Small());
    var pcache := new Cache(Small());
    var cache := new Cache(Small());
    var supply := new Supply([5]);
    var lfs := new Lfs(dev, rcache, pcache, supply, 0x7fff_ffff);
    SmallIs();
    ExampleStands(cache.State(), rcache.State());
    ExamplePlaces();
    f := new File(lfs, cache, false, 2, 254, 252, OldList());
    f.block, f.off, f.writing, f.written := 4, 128, true, NewList();
  }

  /** A file that is copied wrongly: read units and caches of eight bytes, three blocks, of which
      the first two were written anew. Copying the last two bytes gives one wrong byte. */
  method CopiesWrongly() returns (f: File)
    ensures f.lfs.dev.cfg == Small() && f.lfs.dev.Sound() && f.Writing() && f.pos == f.size == 254
    ensures f.Bytes()[252] == f.Listing()[252] && f.Bytes()[253] != f.Listing()[253] == 7
  {
    hide WriterAt;
    hide Stands;
    hide Spare;
    hide Data;
    hide Index;
    hide Example;
    hide Edge;
    hide Header;
    hide Start;
    hide Length;
    hide Listed;
    hide CtzOf;
    hide Blank;
    hide Small;
    hide OldList;
    hide NewList;
    hide Geometry;
    hide DiskOk;
    hide Finish;
    hide Copied;
    hide Turned;
    hide Prefix;
    hide IsFile;
    hide FreshOn;
    hide View;
    f := HalfWritten();
    SmallIs();
    ExampleStands(f.lfs.rcache.State(), f.lfs.rcache.State());
    ExamplePlaces();
    var other := new Cache(Small());
    other.Become(f.lfs.rcache);
    var orig := new File(f.lfs, other, false, 2, 254, 252, OldList());
    ghost var r0 := f.lfs.rcache.State();
    StandsReader(Small(), Example(), r0, OldList(), 2, 254);
    var r;
    ghost var first, second;
    r, first, second := CopyTwo(f, orig, other);
    WrongByte(r0, second);
  }

  lemma WrongByte(r: CacheState, second: byte)
    requires |r.buffer| == 8 && r.block == NULL_BLOCK && Turned(Small(), Example(), NewList(), 2, r, second)
    ensures second != 7
  {
    hide Finish;
    hide Copied;
    ExampleListed();
    ReadsCulprit(Small(), Example(), NewList(), 2, r);
    assert 7 !in Example()[4];
  }
}
