/** Files that behave as byte arrays and are written by copy on write. */
module CtzFile {
  import opened Words
  import opened Arith
  import opened Ctz
  import opened BlockDevice
  import opened BlockProg
  import opened CtzList
  import opened CtzExtend
  import opened CtzTail

  // ---------------------------------------------------------------- byte arrays

  function Zeros(n: nat): (s: seq<byte>)
    ensures |s| == n
  {
    seq(n, i => 0)
  }

  /** What a read at p returns. */
  function Range(d: seq<byte>, p: nat, n: nat): (r: seq<byte>)
    ensures |r| <= n
  {
    if p >= |d| then [] else d[p..Min(p + n, |d|)]
  }

  /** What a write of data at p leaves, zero-filled if p is behind the end. */
  function Splice(d: seq<byte>, p: nat, data: seq<byte>): (r: seq<byte>)
  {
    if p <= |d| then d[..p] + data + d[Min(p + |data|, |d|)..] else d + Zeros(p - |d|) + data
  }

  /** Every byte of a splice: the data where it was written, the old bytes elsewhere, zeros in
      the gap. */
  lemma SpliceByte(d: seq<byte>, p: nat, data: seq<byte>, k: nat)
    ensures |Splice(d, p, data)| == Max(|d|, p + |data|)
    ensures k < |Splice(d, p, data)| ==>
              Splice(d, p, data)[k] == if p <= k < p + |data| then data[k - p] else if k < |d| then d[k] else 0
  {}

  /** Reading back: what was written, and elsewhere what was there. */
  lemma SpliceThenRange(d: seq<byte>, p: nat, data: seq<byte>, q: nat, n: nat)
    ensures Range(Splice(d, p, data), p, |data|) == data
    ensures q + n <= Min(p, |d|) || (p + |data| <= q && p <= |d|) ==> Range(Splice(d, p, data), q, n) == Range(d, q, n)
  {
    var s := Splice(d, p, data);
    SpliceByte(d, p, data, 0);
    assert Range(s, p, |data|) == data;
    if q + n <= Min(p, |d|) || (p + |data| <= q && p <= |d|) {
      var a, b := Range(s, q, n), Range(d, q, n);
      assert |a| == |b|;
      forall k | 0 <= k < |a| ensures a[k] == b[k] {
        SpliceByte(d, p, data, q + k);
        assert a[k] == s[q + k] && b[k] == d[q + k];
      }
    }
  }

  // ---------------------------------------------------------------- the file being written

  /** A list whose last block is written through the cache p. The read cache r may be stale on
      that block only, and only before anything was flushed to it. */
  predicate WriterAt(cfg: Config, disk: Disk, p: CacheState, r: CacheState, written: seq<int>, block: int, pos: nat, off: nat)
  {
    && Geometry(cfg) && MIN_BLOCK <= cfg.blockSize < U32 && DiskOk(cfg, disk) && pos < U32
    && Ready(cfg, disk, cfg.cacheSize, p, block, off) && (p.block == NULL_BLOCK || CacheOk(cfg, p))
    && Tail(cfg.blockSize, View(cfg, disk, p), written, pos, off) && block == written[|written| - 1]
    && FreshOn(cfg, disk, r, Front(written))
    && (off > 0 && p.block == NULL_BLOCK ==> FreshOn(cfg, disk, r, written))
  }

  /** The bytes of such a file up to pos. */
  function Prefix(cfg: Config, disk: Disk, p: CacheState, written: seq<int>, pos: nat): (s: seq<byte>)
    requires 8 < cfg.blockSize < U32 && DiskOk(cfg, disk) && (p.block == NULL_BLOCK || CacheOk(cfg, p))
    ensures |s| == pos
  {
    Data(cfg.blockSize, View(cfg, disk, p), written, pos)
  }

  /** The blocks that may be handed out: known, distinct, and in no list. */
  predicate Spare(disk: Disk, blocks: seq<int>, lists: seq<int>)
  {
    && (forall b :: b in blocks ==> b in disk && 0 <= b < U32 && b !in lists)
    && (forall i, j :: 0 <= i < j < |blocks| ==> blocks[i] != blocks[j])
  }

  // bytes appended to the last block
  lemma WriterAppends(cfg: Config, d0: Disk, p0: CacheState, r0: CacheState, d1: Disk, p1: CacheState, r1: CacheState,
                      written: seq<int>, block: int, pos: nat, off: nat, piece: seq<byte>)
    requires WriterAt(cfg, d0, p0, r0, written, block, pos, off) && DiskOk(cfg, d1) && OnlyBlock(d0, d1, block) && pos + |piece| < U32
    requires Ready(cfg, d1, cfg.cacheSize, p1, block, off + |piece|)
    requires Wrote(Seen(cfg, d0, p0, block), Seen(cfg, d1, p1, block), off, piece)
    requires Kept(cfg, d0, r0, d1, r1) && |r1.buffer| == cfg.cacheSize
    requires piece != [] && p1.block == NULL_BLOCK ==> Coherent(cfg, d1, r1)
    requires piece == [] ==> p1 == p0
    ensures WriterAt(cfg, d1, p1, r1, written, block, pos + |piece|, off + |piece|)
    ensures Prefix(cfg, d1, p1, written, pos + |piece|) == Prefix(cfg, d0, p0, written, pos) + piece
  {
    hide Coherent;
    hide Seen;
    hide Listed;
    hide Edge;
    hide Data;
    hide Multiple;
    var v0, v1 := View(cfg, d0, p0), View(cfg, d1, p1);
    ViewsElsewhere(cfg, d0, p0, d1, p1, block, Front(written));
    LastIsListed(cfg.blockSize, v0, written);
    TailMoved(cfg.blockSize, v0, v1, written, block, pos, off, piece);
    DataMoved(cfg.blockSize, v0, v1, written, block, pos, off, piece);
    assert Front(written) + [block] == written;
  }

  lemma LastIsListed(bs: nat, v: Disk, chain: seq<int>)
    requires Listed(bs, v, chain) && chain != []
    ensures chain[|chain| - 1] in v && 0 <= chain[|chain| - 1] < U32
  {}

  lemma ViewsElsewhere(cfg: Config, d0: Disk, p0: CacheState, d1: Disk, p1: CacheState, block: int, chain: seq<int>)
    requires DiskOk(cfg, d0) && DiskOk(cfg, d1) && OnlyBlock(d0, d1, block) && block !in chain
    requires p0.block == NULL_BLOCK || (CacheOk(cfg, p0) && p0.block == block)
    requires p1.block == NULL_BLOCK || (CacheOk(cfg, p1) && p1.block == block)
    ensures SameOn(View(cfg, d0, p0), View(cfg, d1, p1), chain)
  {}

  // the last block moved to another
  lemma WriterMoves(cfg: Config, d0: Disk, p0: CacheState, r0: CacheState, d1: Disk, p1: CacheState, d2: Disk,
                    p2: CacheState, r2: CacheState,
                    written: seq<int>, block: int, pos: nat, off: nat, nblock: int, taken: seq<int>)
    requires WriterAt(cfg, d0, p0, r0, written, block, pos, off)
    requires DiskOk(cfg, d1) && OnlyBlock(d0, d1, block) && block in d0 && Stuck(cfg, d0, p0, d1, p1, cfg.cacheSize, block, off)
    requires DiskOk(cfg, d2) && OnlyBlocks(d1, d2, taken) && forall b :: b in taken ==> b !in written
    requires nblock in taken && nblock in d2 && 0 <= nblock < U32 && Ready(cfg, d2, cfg.cacheSize, p2, nblock, off)
    requires Seen(cfg, d2, p2, nblock)[..off] == Seen(cfg, d1, p1, block)[..off]
    requires FreshOn(cfg, d2, r2, written) && (off > 0 && p2.block == NULL_BLOCK ==> Coherent(cfg, d2, r2))
    ensures WriterAt(cfg, d2, p2, r2, Front(written) + [nblock], nblock, pos, off)
    ensures Prefix(cfg, d2, p2, Front(written) + [nblock], pos) == Prefix(cfg, d0, p0, written, pos)
  {
    hide Coherent;
    hide Seen;
    hide Listed;
    hide Edge;
    hide Data;
    hide Multiple;
    var v0, v2 := View(cfg, d0, p0), View(cfg, d2, p2);
    var w := Front(written) + [nblock];
    ViewsMoved(cfg, d0, p0, d1, d2, p2, block, nblock, Front(written), taken);
    LastIsListed(cfg.blockSize, v0, written);
    StuckPrefix(v0[block], Seen(cfg, d1, p1, block), v2[nblock], off);
    TailMoved(cfg.blockSize, v0, v2, written, nblock, pos, off, []);
    DataMoved(cfg.blockSize, v0, v2, written, nblock, pos, off, []);
    assert Front(w) == Front(written);
    assert Data(cfg.blockSize, v0, written, pos) + [] == Data(cfg.blockSize, v0, written, pos);
    FreshMoved(cfg, d2, r2, written, nblock);
  }

  lemma FreshMoved(cfg: Config, disk: Disk, r: CacheState, written: seq<int>, nblock: int)
    requires written != [] && FreshOn(cfg, disk, r, written)
    ensures FreshOn(cfg, disk, r, Front(written))
    ensures Coherent(cfg, disk, r) ==> FreshOn(cfg, disk, r, Front(written) + [nblock])
  {}

  lemma StuckPrefix(v0: seq<byte>, v1: seq<byte>, v2: seq<byte>, off: nat)
    requires Wrote(v0, v1, off, []) && |v2| == |v1| && v2[..off] == v1[..off]
    ensures Wrote(v0, v2, off, [])
  {}

  lemma ViewsMoved(cfg: Config, d0: Disk, p0: CacheState, d1: Disk, d2: Disk, p2: CacheState, block: int,
                   nblock: int, chain: seq<int>, taken: seq<int>)
    requires DiskOk(cfg, d0) && DiskOk(cfg, d2) && OnlyBlock(d0, d1, block) && block !in chain && OnlyBlocks(d1, d2, taken)
    requires nblock in taken && forall b :: b in taken ==> b !in chain
    requires p0.block == NULL_BLOCK || (CacheOk(cfg, p0) && p0.block == block)
    requires p2.block == NULL_BLOCK || (CacheOk(cfg, p2) && p2.block == nblock)
    ensures SameOn(View(cfg, d0, p0), View(cfg, d2, p2), chain)
  {}

  // a list that was just extended
  lemma WriterBegins(cfg: Config, d0: Disk, chain: seq<int>, head: int, pos: nat, d1: Disk, p1: CacheState,
                     r1: CacheState, block: int, off: nat)
    requires Geometry(cfg) && DiskOk(cfg, d1) && IsFile(cfg.blockSize, d0, chain, head, pos) && block !in chain
    requires Ready(cfg, d1, cfg.cacheSize, p1, block, off) && off == Index(cfg.blockSize, pos).1
    requires Listed(cfg.blockSize, View(cfg, d1, p1), Renewed(cfg.blockSize, chain, pos, block))
    requires FreshOn(cfg, d1, r1, chain) && (off > 0 && p1.block == NULL_BLOCK ==> Coherent(cfg, d1, r1))
    ensures WriterAt(cfg, d1, p1, r1, Renewed(cfg.blockSize, chain, pos, block), block, pos, off) && off < cfg.blockSize
  {
    hide Index;
    hide Linked;
    hide Coherent;
    hide Listed;
    hide Edge;
    EndOf(cfg.blockSize, pos);
    IndexEdge(cfg.blockSize, pos);
    var n := Index(cfg.blockSize, pos).0;
    var w := Renewed(cfg.blockSize, chain, pos, block);
    assert Front(w) == if n < |chain| then chain[..n] else chain;
  }

  // ---------------------------------------------------------------- traces in small read caches

  /** What a piece put into the current block did to a read cache of at most eight bytes; a block
      that has to be moved may leave anything in it. */
  predicate PutTraced(cfg: Config, r0: CacheState, r1: CacheState, off: nat, n: nat, sound: bool)
  {
    cfg.cacheSize > 0 && (cfg.cacheSize <= 8 ==> r1 == AfterProg(cfg, r0, off, n) || (!sound && InWindow(cfg, off) + n >= cfg.cacheSize))
  }

  // the piece reaches the end of its window
  predicate Fills(cfg: Config, off: nat, n: nat)
    requires cfg.cacheSize > 0
  {
    cfg.cacheSize <= 8 ==> InWindow(cfg, off) + n >= cfg.cacheSize
  }

  lemma PutIs(cfg: Config, r0: CacheState, r1: CacheState, r2: CacheState, off: nat, n: nat, sound: bool, moved: bool, ok: bool)
    requires cfg.cacheSize > 0 && Traced(cfg, cfg.cacheSize, r1, r2, off, n, ok)
    requires if moved then !sound && Fills(cfg, off, n) else r1 == r0
    ensures ok ==> PutTraced(cfg, r0, r2, off, n, sound)
    ensures !ok ==> Fills(cfg, off, n)
  {}

  /** And one more byte behind what is written, in the same block or in a new one. */
  ghost predicate ByteTraced(cfg: Config, disk: Disk, r0: CacheState, r1: CacheState, written: seq<int>, pos: nat, off: nat, sound: bool)
  {
    cfg.cacheSize > 0 && MIN_BLOCK <= cfg.blockSize < U32 && pos < U32 &&
    if off < cfg.blockSize then PutTraced(cfg, r0, r1, off, 1, sound)
    else exists q :: PointersTraced(cfg, disk, r0, q, written, sound) && PutTraced(cfg, q, r1, Index(cfg.blockSize, pos).1, 1, sound)
  }

  // before it is put there
  predicate RoomTraced(cfg: Config, disk: Disk, r0: CacheState, r1: CacheState, written: seq<int>, pos: nat, off: nat, off1: nat, sound: bool)
  {
    cfg.cacheSize > 0 && MIN_BLOCK <= cfg.blockSize < U32 && pos < U32 &&
    if off < cfg.blockSize then r1 == r0 && off1 == off
    else off1 == Index(cfg.blockSize, pos).1 && PointersTraced(cfg, disk, r0, r1, written, sound)
  }

  lemma ByteIs(cfg: Config, disk: Disk, r0: CacheState, r1: CacheState, r2: CacheState, written: seq<int>, pos: nat, off: nat,
               off1: nat, sound: bool)
    requires PutTraced(cfg, r1, r2, off1, 1, sound) && RoomTraced(cfg, disk, r0, r1, written, pos, off, off1, sound)
    ensures ByteTraced(cfg, disk, r0, r2, written, pos, off, sound)
  {}

  /** What the read loop makes of a read within a block. */
  predicate Loops(cfg: Config, disk: Disk, s: BlockDevice.Reading, block: int, r: CacheState, data: seq<byte>)
  {
    && Underway(cfg, disk, EMPTY, block, s) && cfg.blockSize > 0
    && Finish(cfg, disk, EMPTY, cfg.blockSize, block, s) == BlockDevice.Reading(r, s.off + s.left, 0, s.data + data)
  }

  /** And what else is known of it: a larger cache shows that it was used. */
  ghost predicate ByteShared(cfg: Config, disk: Disk, r0: CacheState, r1: CacheState, written: seq<int>, pos: nat, off: nat, sound: bool)
  {
    ByteTraced(cfg, disk, r0, r1, written, pos, off, sound) && Marked(cfg, r0, r1)
  }

  // a cache on the same buffer, told to forget it if the read cache shows that it was used
  function Shared(c: CacheState, r: CacheState): CacheState
  {
    c.(block := if r.block == NULL_BLOCK then c.block else NULL_BLOCK, buffer := r.buffer)
  }

  /** When the old list can be read through the buffer of the read cache while the new one is
      written: the read cache shows that it was used, or it is never used. */
  predicate Untangled(cfg: Config, sound: bool) { cfg.cacheSize > 8 || (sound && Calm(cfg)) }

  lemma Unharmed(cfg: Config, disk: Disk, r0: CacheState, r1: CacheState, c: CacheState, written: seq<int>, pos: nat, off: nat, sound: bool)
    requires Untangled(cfg, sound) && ByteShared(cfg, disk, r0, r1, written, pos, off, sound) && r0.block == NULL_BLOCK && r0.buffer == c.buffer
    ensures Shared(c, r1) == c || Shared(c, r1).block == NULL_BLOCK
  {
    hide Index;
    hide InWindow;
    hide AfterPointers;
  }

  // ---------------------------------------------------------------- blocks needed

  /** The blocks it takes to go on behind the whole blocks in front of one position up to another. */
  function Span(bs: nat, from: nat, end: nat): (n: nat)
    requires 8 < bs < U32
  {
    if end > from then Max(Length(bs, end) - Index(bs, from).0, 0) else 0
  }

  // one more byte, or none if there is no block for it
  lemma TookMore(bs: nat, b0: seq<int>, b1: seq<int>, b2: seq<int>, sound: bool, use0: nat, use: nat, more: nat,
                 pos: nat, end: nat, ok: bool)
    requires MIN_BLOCK <= bs < U32 && pos < end < U32 && use0 <= use && Length(bs, pos + 1) == use + more
    requires Took(b0, b1, sound, use - use0, true) && Took(b1, b2, sound, more, ok)
    ensures ok ==> Took(b0, b2, sound, use + more - use0, true)
    ensures !ok ==> Took(b0, b2, sound, Max(Length(bs, end) - use0, 0), false)
  {
    hide Index;
    hide Took;
    LengthMono(bs, pos + 1, end);
    var total: nat := Max(Length(bs, end) - use0, 0);
    TookTwice(b0, b1, b2, sound, use - use0, more, if ok then use + more - use0 else total, ok);
  }

  lemma SpanTwice(bs: nat, size: nat, pos: nat, end: nat)
    requires MIN_BLOCK <= bs < U32 && size < pos <= end < U32
    ensures Span(bs, size, pos) + (Length(bs, end) - Length(bs, pos)) == Span(bs, size, end) && Length(bs, pos) <= Length(bs, end)
  {
    hide Index;
    LengthMono(bs, size + 1, pos);
    LengthMono(bs, pos, end);
  }

  // ---------------------------------------------------------------- files

  /** The parts of the file system that files use. */
  class Lfs {
    const dev: Device
    const rcache: Cache
    const pcache: Cache
    const supply: Supply
    const fileMax: nat

    constructor (dev: Device, rcache: Cache, pcache: Cache, supply: Supply, fileMax: nat)
      ensures this.dev == dev && this.rcache == rcache && this.pcache == pcache && this.supply == supply && this.fileMax == fileMax
    {
      this.dev, this.rcache, this.pcache, this.supply, this.fileMax := dev, rcache, pcache, supply, fileMax;
    }
  }

  // the list a file had before it was written, on the disk as it is now
  predicate Stands(cfg: Config, disk: Disk, r: CacheState, chain: seq<int>, head: int, size: nat)
  {
    IsFile(cfg.blockSize, disk, chain, head, size) && FreshOn(cfg, disk, r, chain)
  }

  lemma StandsElsewhere(cfg: Config, d0: Disk, r0: CacheState, d1: Disk, r1: CacheState, chain: seq<int>, head: int, size: nat, block: int)
    requires Stands(cfg, d0, r0, chain, head, size) && OnlyBlock(d0, d1, block) && block !in chain && Kept(cfg, d0, r0, d1, r1)
    ensures Stands(cfg, d1, r1, chain, head, size) && SameOn(d0, d1, chain)
  {
    hide Coherent;
    hide Listed;
    ListedElsewhere(cfg.blockSize, d0, d1, chain, block);
    FreshWhenKept(cfg, d0, r0, d1, r1, chain);
  }

  lemma StandsMoved(cfg: Config, d0: Disk, r0: CacheState, d1: Disk, r1: CacheState, chain: seq<int>, head: int, size: nat, taken: seq<int>)
    requires Stands(cfg, d0, r0, chain, head, size) && OnlyBlocks(d0, d1, taken) && (forall b :: b in taken ==> b !in chain)
    requires FreshOn(cfg, d1, r1, chain)
    ensures Stands(cfg, d1, r1, chain, head, size) && SameOn(d0, d1, chain)
  {
    hide Coherent;
    hide Listed;
    ListedFurther(cfg.blockSize, d0, d1, chain, taken);
  }

  lemma SpareLater(d0: Disk, d1: Disk, blocks: seq<int>, lists: seq<int>, used: nat, lists': seq<int>)
    requires Spare(d0, blocks, lists) && d1.Keys == d0.Keys && used <= |blocks|
    requires forall b :: b in lists' ==> b in lists || (used > 0 && b == blocks[used - 1])
    ensures Spare(d1, blocks[used..], lists')
    ensures forall b :: b in blocks[..used] ==> b !in lists
    ensures used > 0 ==> blocks[used - 1] in d1 && 0 <= blocks[used - 1] < U32 && blocks[used - 1] in blocks[..used]
  {
    forall b | b in blocks[used..] ensures b in d1 && 0 <= b < U32 && b !in lists' {}
    if used > 0 { assert blocks[..used][used - 1] == blocks[used - 1]; }
  }

  // blocks taken for the file that is being written
  lemma SpareUsed(disk: Disk, blocks: seq<int>, chain: seq<int>, written: seq<int>, used: nat)
    requires Spare(disk, blocks, chain + written) && used <= |blocks|
    ensures forall b :: b in blocks[..used] ==> b !in chain && b !in written
  {
    forall b | b in blocks[..used] ensures b !in chain && b !in written {
      assert b in blocks && b !in chain + written;
    }
  }

  lemma SpareMoved(d0: Disk, d1: Disk, blocks: seq<int>, chain: seq<int>, written: seq<int>, used: nat)
    requires Spare(d0, blocks, chain + written) && d1.Keys == d0.Keys && 0 < used <= |blocks| && written != []
    ensures Spare(d1, blocks[used..], chain + (Front(written) + [blocks[used - 1]]))
    ensures blocks[used - 1] in d1 && 0 <= blocks[used - 1] < U32 && blocks[used - 1] in blocks[..used]
  {
    SpareLater(d0, d1, blocks, chain + written, used, chain + (Front(written) + [blocks[used - 1]]));
  }

  class File {
    const lfs: Lfs
    const cache: Cache
    const append: bool
    // the list as the directory names it
    var head: int
    var size: nat
    // the position, and where it is in a block that is read or written
    var pos: nat
    var block: int
    var off: nat
    var reading: bool
    var writing: bool
    var erred: bool
    ghost var chain: seq<int>
    ghost var written: seq<int>
    // the block of the list that is being read
    ghost var at: nat

    constructor (lfs: Lfs, cache: Cache, append: bool, head: int, size: nat, pos: nat, ghost chain: seq<int>)
      ensures this.lfs == lfs && this.cache == cache && this.append == append && this.head == head && this.size == size
      ensures this.pos == pos && !reading && !writing && this.chain == chain
    {
      this.lfs, this.cache, this.append, this.head, this.size, this.pos := lfs, cache, append, head, size, pos;
      this.block, this.off, this.reading, this.writing, this.erred := NULL_BLOCK, 0, false, false, false;
      this.chain, this.written, this.at := chain, [], 0;
    }

    /** A file that was opened: it can be read and written from the start. */
    constructor Open(lfs: Lfs, cache: Cache, append: bool, head: int, size: nat, ghost chain: seq<int>)
      requires cache != lfs.rcache && cache != lfs.pcache && lfs.rcache != lfs.pcache
      requires lfs.dev.Valid() && lfs.dev.cfg.blockSize < U32 && lfs.fileMax < 0x8000_0000 && size <= lfs.fileMax
      requires lfs.pcache.block == NULL_BLOCK && |lfs.pcache.buffer| == lfs.dev.cfg.cacheSize
      requires Stands(lfs.dev.cfg, lfs.dev.disk, lfs.rcache.State(), chain, head, size)
      requires Spare(lfs.dev.disk, lfs.supply.blocks, chain)
      modifies cache
      ensures this.lfs == lfs && this.cache == cache && this.append == append && this.head == head && this.size == size
      ensures pos == 0 && this.chain == chain && cache.block == NULL_BLOCK && |cache.buffer| == lfs.dev.cfg.cacheSize
      ensures Valid() && Idle() && Contents() == Data(lfs.dev.cfg.blockSize, lfs.dev.disk, chain, size)
    {
      this.lfs, this.cache, this.append, this.head, this.size, this.pos := lfs, cache, append, head, size, 0;
      this.block, this.off, this.reading, this.writing, this.erred := NULL_BLOCK, 0, false, false, false;
      this.chain, this.written, this.at := chain, [], 0;
      new;
      cache.Zero(lfs.dev.cfg);
      assert chain + [] == chain;
    }

    ghost predicate Base()
      reads this, cache, lfs.dev, lfs.rcache, lfs.pcache, lfs.supply
    {
      && cache != lfs.rcache && cache != lfs.pcache && lfs.rcache != lfs.pcache
      && lfs.dev.Valid() && lfs.dev.cfg.blockSize < U32 && lfs.fileMax < 0x8000_0000 && size <= lfs.fileMax
      && lfs.pcache.block == NULL_BLOCK && |lfs.pcache.buffer| == |cache.buffer| == lfs.dev.cfg.cacheSize
      && Stands(lfs.dev.cfg, lfs.dev.disk, lfs.rcache.State(), chain, head, size)
      && Spare(lfs.dev.disk, lfs.supply.blocks, chain + (if writing then written else []))
    }

    ghost predicate Writer()
      reads this, cache, lfs.dev, lfs.rcache, lfs.pcache, lfs.supply
    {
      && Base() && writing && !reading && block !in chain
      && WriterAt(lfs.dev.cfg, lfs.dev.disk, cache.State(), lfs.rcache.State(), written, block, pos, off)
    }

    /** The bytes written so far. */
    ghost function Bytes(): seq<byte>
      reads this, cache, lfs.dev, lfs.rcache, lfs.pcache, lfs.supply
      requires Writer()
    {
      Prefix(lfs.dev.cfg, lfs.dev.disk, cache.State(), written, pos)
    }

    // what the failed attempt to program left is moved to another block
    method MoveBlock(ghost d0: Disk, ghost p0: CacheState, ghost r0: CacheState) returns (r: Code)
      requires Base() && writing && !reading && block !in chain
      requires WriterAt(lfs.dev.cfg, d0, p0, r0, written, block, pos, off) && OnlyBlock(d0, lfs.dev.disk, block) && block in d0
      requires Stuck(lfs.dev.cfg, d0, p0, lfs.dev.disk, cache.State(), lfs.dev.cfg.cacheSize, block, off)
      requires Coherent(lfs.dev.cfg, lfs.dev.disk, lfs.rcache.State())
      modifies this`block, this`written, cache, lfs.dev, lfs.rcache, lfs.pcache, lfs.supply
      ensures r == Ok || r == NoSpace
      ensures lfs.dev.Valid() && SameOn(old(lfs.dev.disk), lfs.dev.disk, chain)
      ensures Marked(lfs.dev.cfg, old(lfs.rcache.State()), lfs.rcache.State())
      ensures r == Ok ==> Writer() && Bytes() == Prefix(lfs.dev.cfg, d0, p0, old(written), pos) && |lfs.supply.blocks| < |old(lfs.supply.blocks)|
                          && |written| == |old(written)|
      ensures r == NoSpace ==> lfs.supply.blocks == []
    {
      hide Coherent;
      hide Seen;
      hide Listed;
      hide Multiple;
      hide Stuck;
      hide WriterAt;
      hide Prefix;
      hide Stands;
      hide Spare;
      hide FreshOn;
      ghost var d1, p1, r1 := lfs.dev.disk, cache.State(), lfs.rcache.State();
      ghost var blocks := lfs.supply.blocks;
      StuckWindow(lfs.dev.cfg, d0, p0, r0, d1, p1, written, block, pos, off);
      FreshEverywhere(lfs.dev.cfg, d1, lfs.rcache.State(), chain + written);
      SpareIs(d1, blocks, chain + written);
      var nblock: int;
      ghost var used: nat;
      r, nblock, used := Relocate(lfs.dev, cache, lfs.pcache, lfs.rcache, lfs.supply, block, off, chain + written);
      SpareUsed(d1, blocks, chain, written, used);
      FreshParts(lfs.dev.cfg, lfs.dev.disk, lfs.rcache.State(), chain, written);
      StandsMoved(lfs.dev.cfg, d1, r1, lfs.dev.disk, lfs.rcache.State(), chain, head, size, blocks[..used]);
      if r == Ok {
        SpareMoved(d1, lfs.dev.disk, blocks, chain, written, used);
        WriterMoves(lfs.dev.cfg, d0, p0, r0, d1, p1, lfs.dev.disk, cache.State(), lfs.rcache.State(), written, block, pos, off, nblock, blocks[..used]);
        written, block := Front(written) + [nblock], nblock;
      }
    }

    /** Programs a piece into the current block, moving the block as often as it turns out bad. */
    method Put(piece: seq<byte>) returns (r: Code)
      requires Writer() && piece != [] && off + |piece| <= lfs.dev.cfg.blockSize && pos + |piece| < U32
      modifies this`pos, this`off, this`block, this`written, cache, lfs.dev, lfs.rcache, lfs.pcache, lfs.supply
      ensures r == Ok || r == NoSpace
      ensures lfs.dev.Valid() && SameOn(old(lfs.dev.disk), lfs.dev.disk, chain)
      ensures Marked(lfs.dev.cfg, old(lfs.rcache.State()), lfs.rcache.State())
      ensures r == Ok ==> Writer() && Bytes() == old(Bytes()) + piece
                          && pos == old(pos) + |piece| && off == old(off) + |piece| && |written| == |old(written)|
      ensures r == Ok ==> PutTraced(lfs.dev.cfg, old(lfs.rcache.State()), lfs.rcache.State(), old(off), |piece|, lfs.dev.Sound())
      ensures lfs.dev.Sound() ==> r == Ok
      ensures Took(old(lfs.supply.blocks), lfs.supply.blocks, lfs.dev.Sound(), 0, r == Ok)
    {
      hide Pending;
      hide Coherent;
      hide Seen;
      hide Listed;
      hide Multiple;
      hide Stuck;
      hide Prefix;
      hide Stands;
      hide Spare;
      hide Wrote;
      hide Tail;
      hide FreshOn;
      hide SameOn;
      hide WriterAt;
      hide Marked;
      hide Ready;
      hide Traced;
      hide PutTraced;
      hide Fills;
      ghost var start, moved := lfs.dev.disk, false;
      SameOnItself(start, chain);
      MarkedItself(lfs.dev.cfg, lfs.rcache.State());
      while true
        invariant Writer() && pos == old(pos) && off == old(off) && Bytes() == old(Bytes()) && |written| == |old(written)|
        invariant SameOn(start, lfs.dev.disk, chain) && Marked(lfs.dev.cfg, old(lfs.rcache.State()), lfs.rcache.State())
        invariant if moved then !lfs.dev.Sound() && Fills(lfs.dev.cfg, off, |piece|)
                  else lfs.rcache.State() == old(lfs.rcache.State()) && lfs.supply.blocks == old(lfs.supply.blocks)
        decreases |lfs.supply.blocks|
      {
        ghost var d0, p0, r0 := lfs.dev.disk, cache.State(), lfs.rcache.State();
        WholeCaches(lfs.dev.cfg);
        BlockKnown(lfs.dev.cfg, d0, p0, r0, written, block, pos, off);
        r := BdProg(lfs.dev, cache, lfs.rcache, true, lfs.dev.cfg.cacheSize, block, off, piece);
        PutIs(lfs.dev.cfg, old(lfs.rcache.State()), r0, lfs.rcache.State(), off, |piece|, lfs.dev.Sound(), moved, r == Ok);
        StandsElsewhere(lfs.dev.cfg, d0, r0, lfs.dev.disk, lfs.rcache.State(), chain, head, size, block);
        SpareKept(d0, lfs.dev.disk, lfs.supply.blocks, chain + written);
        SameTwice(lfs.dev.cfg.blockSize, start, d0, lfs.dev.disk, chain);
        if r == Ok {
          WriterAppends(lfs.dev.cfg, d0, p0, r0, lfs.dev.disk, cache.State(), lfs.rcache.State(), written, block, pos, off, piece);
          MarkedItself(lfs.dev.cfg, lfs.rcache.State());
          KeptMarked(lfs.dev.cfg, old(lfs.rcache.State()), d0, r0, lfs.dev.disk, lfs.rcache.State(), lfs.rcache.State());
          pos, off := pos + |piece|, off + |piece|;
          return Ok;
        }
        ghost var d1, r1 := lfs.dev.disk, lfs.rcache.State();
        moved := true;
        r := MoveBlock(d0, p0, r0);
        KeptMarked(lfs.dev.cfg, old(lfs.rcache.State()), d0, r0, d1, r1, lfs.rcache.State());
        SameTwice(lfs.dev.cfg.blockSize, start, d1, lfs.dev.disk, chain);
        if r != Ok {
          return r;
        }
      }
    }

    /** Neither in the middle of reading nor of writing. */
    ghost predicate Idle()
      reads this, cache, lfs.dev, lfs.rcache, lfs.pcache, lfs.supply
    {
      Base() && !reading && !writing && cache.block == NULL_BLOCK
    }

    /** In the middle of writing: the last block has something in it. */
    ghost predicate Writing()
      reads this, cache, lfs.dev, lfs.rcache, lfs.pcache, lfs.supply
    {
      Writer() && off > Header(|written| - 1)
    }

    ghost predicate Writable()
      reads this, cache, lfs.dev, lfs.rcache, lfs.pcache, lfs.supply
    {
      (Idle() && pos <= size) || Writing()
    }

    /** The bytes in front of the position. */
    ghost function Before(): seq<byte>
      reads this, cache, lfs.dev, lfs.rcache, lfs.pcache, lfs.supply
      requires Writable()
    {
      if writing then Bytes() else Data(lfs.dev.cfg.blockSize, lfs.dev.disk, chain, size)[..pos]
    }

    // the block to extend from
    method FindLast() returns (ghost list: seq<int>)
      requires Writable() && (writing ==> off == lfs.dev.cfg.blockSize)
      modifies this`block, cache
      ensures |cache.buffer| == lfs.dev.cfg.cacheSize && cache.block == NULL_BLOCK
      ensures IsFile(lfs.dev.cfg.blockSize, lfs.dev.disk, list, block, pos)
      ensures forall b :: b in list ==> b in chain || (writing && b in written)
      ensures writing ==> list == written
      ensures FreshOn(lfs.dev.cfg, lfs.dev.disk, lfs.rcache.State(), list)
      ensures Data(lfs.dev.cfg.blockSize, lfs.dev.disk, list, pos) == old(Before())
    {
      hide Coherent;
      hide Seen;
      hide Listed;
      hide Index;
      hide Spare;
      ghost var disk := lfs.dev.disk;
      NoView(lfs.dev.cfg, disk, cache.State());
      if writing {
        WriterIsFile(lfs.dev.cfg, disk, cache.State(), lfs.rcache.State(), written, block, pos, off);
        return written;
      }
      if pos == 0 {
        EmptyIsFile(lfs.dev.cfg, disk, lfs.rcache.State(), block);
        return [];
      }
      NoView(lfs.dev.cfg, disk, EMPTY);
      NullIsCoherent(lfs.dev.cfg, disk, cache.State());
      FreshEverywhere(lfs.dev.cfg, disk, cache.State(), chain);
      FrontIsFile(lfs.dev.cfg.blockSize, disk, chain, head, size, pos);
      var found, hops := Find(lfs.dev, null, cache, head, size, pos - 1, chain);
      block := if found == None then block else found.value.0;
      cache.Zero(lfs.dev.cfg);
      list := chain[..Length(lfs.dev.cfg.blockSize, pos)];
    }

    // a new block behind a list
    method Begin(ghost list: seq<int>) returns (r: Code)
      requires Base() && !reading && pos < U32 && cache.block == NULL_BLOCK && IsFile(lfs.dev.cfg.blockSize, lfs.dev.disk, list, block, pos)
      requires FreshOn(lfs.dev.cfg, lfs.dev.disk, lfs.rcache.State(), list)
      requires forall b :: b in list ==> b in chain || (writing && b in written)
      modifies this`block, this`off, this`written, this`writing, cache, lfs.dev, lfs.rcache, lfs.pcache, lfs.supply
      ensures (r == Ok || r == NoSpace) && Took(old(lfs.supply.blocks), lfs.supply.blocks, lfs.dev.Sound(), 1, r == Ok)
      ensures AtEdge(lfs.dev.cfg.blockSize, pos) ==>
                PointersTraced(lfs.dev.cfg, old(lfs.dev.disk), old(lfs.rcache.State()), lfs.rcache.State(), list, r == Ok && lfs.dev.Sound())
      ensures MIN_BLOCK <= lfs.dev.cfg.blockSize < U32
      ensures r == Ok ==> off == Index(lfs.dev.cfg.blockSize, pos).1 && |written| == Index(lfs.dev.cfg.blockSize, pos).0 + 1
      ensures lfs.dev.Valid() && SameOn(old(lfs.dev.disk), lfs.dev.disk, chain)
      ensures Marked(lfs.dev.cfg, old(lfs.rcache.State()), lfs.rcache.State())
      ensures r == Ok ==> Writer() && off < lfs.dev.cfg.blockSize && Bytes() == Data(lfs.dev.cfg.blockSize, old(lfs.dev.disk), list, pos)
    {
      hide Coherent;
      hide Seen;
      hide Listed;
      hide Index;
      hide WriterAt;
      hide Stands;
      hide Spare;
      hide FreshOn;
      hide SameOn;
      hide Data;
      hide Marked;
      hide Ready;
      hide Renewed;
      hide View;
      hide Tail;
      hide Length;
      hide DiskOk;
      hide Geometry;
      hide PointersTraced;
      hide AtEdge;
      ghost var d0, r0, blocks := lfs.dev.disk, lfs.rcache.State(), lfs.supply.blocks;
      ghost var lists := chain + (if writing then written else []);
      SpareIs(d0, blocks, lists);
      StandsFresh(lfs.dev.cfg, d0, r0, chain, head, size, list);
      ghost var from, used := block, 0;
      r, block, off, used := Extend(lfs.dev, cache, lfs.rcache, lfs.supply, block, pos, list, chain + list);
      FreshParts(lfs.dev.cfg, lfs.dev.disk, lfs.rcache.State(), chain, list);
      SpareTaken(d0, blocks, lists, used);
      StandsMoved(lfs.dev.cfg, d0, r0, lfs.dev.disk, lfs.rcache.State(), chain, head, size, blocks[..used]);
      if r == Ok {
        RenewedLength(lfs.dev.cfg.blockSize, list, pos, block);
        Begun(lfs.dev.cfg, d0, chain, lists, list, from, pos, lfs.dev.disk, cache.State(), lfs.rcache.State(), blocks, used, block, off);
        written := Renewed(lfs.dev.cfg.blockSize, list, pos, block);
        writing := true;
      }
    }

    /** A block to write the next bytes to. */
    method NewBlock() returns (r: Code)
      requires Writable() && (writing ==> off == lfs.dev.cfg.blockSize)
      modifies this`block, this`off, this`written, this`writing, cache, lfs.dev, lfs.rcache, lfs.pcache, lfs.supply
      ensures (r == Ok || r == NoSpace) && Took(old(lfs.supply.blocks), lfs.supply.blocks, lfs.dev.Sound(), 1, r == Ok)
      ensures old(writing) ==>
                PointersTraced(lfs.dev.cfg, old(lfs.dev.disk), old(lfs.rcache.State()), lfs.rcache.State(), old(written), r == Ok && lfs.dev.Sound())
      ensures MIN_BLOCK <= lfs.dev.cfg.blockSize < U32
      ensures r == Ok ==> off == Index(lfs.dev.cfg.blockSize, pos).1 && |written| == Index(lfs.dev.cfg.blockSize, pos).0 + 1
      ensures lfs.dev.Valid() && SameOn(old(lfs.dev.disk), lfs.dev.disk, chain)
      ensures Marked(lfs.dev.cfg, old(lfs.rcache.State()), lfs.rcache.State())
      ensures r == Ok ==> Writer() && off < lfs.dev.cfg.blockSize && Bytes() == old(Before())
    {
      hide Coherent;
      hide Seen;
      hide Listed;
      hide Index;
      hide Stands;
      hide Spare;
      hide SameOn;
      hide Data;
      hide Marked;
      hide Ready;
      hide View;
      hide Tail;
      hide DiskOk;
      hide PointersTraced;
      if writing { FullAtEdge(lfs.dev.cfg, lfs.dev.disk, cache.State(), lfs.rcache.State(), written, block, pos, off); }
      ghost var list := FindLast();
      r := Begin(list);
    }

    /** Whether a block has to be begun for the next byte. */
    ghost function RoomNeed(): nat
      reads this
    {
      if writing && off < lfs.dev.cfg.blockSize then 0 else 1
    }

    /** The blocks that hold what is in front of the position, as far as they stay. */
    ghost function Blocks(): nat
      reads this
      requires 8 < lfs.dev.cfg.blockSize < U32
    {
      if writing then |written| else Index(lfs.dev.cfg.blockSize, pos).0
    }

    /** The blocks it takes to write up to a position behind the one where the file is. */
    ghost function NeedTo(end: nat): nat
      reads this
      requires 8 < lfs.dev.cfg.blockSize < U32
    {
      if end > pos then Max(Length(lfs.dev.cfg.blockSize, end) - Blocks(), 0) else 0
    }

    // the place of the position, in front of which blocks were written
    lemma WritableSize()
      requires Writable()
      ensures MIN_BLOCK <= lfs.dev.cfg.blockSize < U32 && pos < U32
      ensures writing ==> |written| == Length(lfs.dev.cfg.blockSize, pos) && off <= lfs.dev.cfg.blockSize
      ensures writing && off == lfs.dev.cfg.blockSize ==> |written| == Index(lfs.dev.cfg.blockSize, pos).0
      ensures Blocks() == if writing then Length(lfs.dev.cfg.blockSize, pos) else Index(lfs.dev.cfg.blockSize, pos).0
      ensures pos + 1 < U32 ==> Length(lfs.dev.cfg.blockSize, pos + 1) == Blocks() + RoomNeed() && NeedTo(pos + 1) == RoomNeed()
    {
      hide Index;
      hide Linked;
      hide WriterAt;
      if writing {
        WriterPlace(lfs.dev.cfg, lfs.dev.disk, cache.State(), lfs.rcache.State(), written, block, pos, off);
      } else {
        StandsReader(lfs.dev.cfg, lfs.dev.disk, lfs.rcache.State(), chain, head, size);
      }
    }

    lemma WritableStands()
      requires Writable()
      ensures IsFile(lfs.dev.cfg.blockSize, lfs.dev.disk, chain, head, size) && |cache.buffer| == lfs.dev.cfg.cacheSize
      ensures MIN_BLOCK <= lfs.dev.cfg.blockSize < U32
    {
      hide WriterAt;
      hide Listed;
    }

    // the block to write to has room: if it is full, or there is none, another one is begun
    method MakeRoom() returns (r: Code)
      requires Writable() && pos < U32
      modifies this`block, this`off, this`written, this`writing, cache, lfs.dev, lfs.rcache, lfs.pcache, lfs.supply
      ensures (r == Ok || r == NoSpace) && Took(old(lfs.supply.blocks), lfs.supply.blocks, lfs.dev.Sound(), old(RoomNeed()), r == Ok)
      ensures lfs.dev.Valid() && SameOn(old(lfs.dev.disk), lfs.dev.disk, chain)
      ensures Marked(lfs.dev.cfg, old(lfs.rcache.State()), lfs.rcache.State())
      ensures r == Ok ==> Writer() && Header(|written| - 1) <= off < lfs.dev.cfg.blockSize && Bytes() == old(Before())
      ensures MIN_BLOCK <= lfs.dev.cfg.blockSize < U32 && (r == Ok ==> |written| == old(Blocks() + RoomNeed()))
      ensures r == Ok && old(writing) ==>
                RoomTraced(lfs.dev.cfg, old(lfs.dev.disk), old(lfs.rcache.State()), lfs.rcache.State(), old(written), pos, old(off), off,
                           lfs.dev.Sound())
    {
      hide Coherent;
      hide WriterAt;
      hide Stands;
      hide Spare;
      hide SameOn;
      hide Data;
      hide Marked;
      hide Prefix;
      hide Header;
      hide View;
      hide PointersTraced;
      hide Took;
      hide Index;
      SameOnItself(lfs.dev.disk, chain);
      MarkedItself(lfs.dev.cfg, lfs.rcache.State());
      WritableSize();
      TookNothing(lfs.supply.blocks, lfs.dev.Sound());
      r := Ok;
      if writing { WriterOffset(lfs.dev.cfg, lfs.dev.disk, cache.State(), lfs.rcache.State(), written, block, pos, off); }
      if !writing || off == lfs.dev.cfg.blockSize {
        assert Blocks() == Index(lfs.dev.cfg.blockSize, pos).0 && RoomNeed() == 1;
        r := NewBlock();
        if r == Ok { WriterOffset(lfs.dev.cfg, lfs.dev.disk, cache.State(), lfs.rcache.State(), written, block, pos, off); }
      }
    }

    // as much as goes into one block
    method WritePiece(data: seq<byte>) returns (r: Code, n: nat)
      requires Writable() && data != [] && pos + |data| < U32
      modifies this`pos, this`off, this`block, this`written, this`writing, cache, lfs.dev, lfs.rcache, lfs.pcache, lfs.supply
      ensures (r == Ok || r == NoSpace) && Took(old(lfs.supply.blocks), lfs.supply.blocks, lfs.dev.Sound(), old(RoomNeed()), r == Ok)
      ensures r == Ok && old(writing) && |data| == 1 ==>
                ByteTraced(lfs.dev.cfg, old(lfs.dev.disk), old(lfs.rcache.State()), lfs.rcache.State(), old(written), old(pos), old(off),
                           lfs.dev.Sound())
      ensures lfs.dev.Valid() && SameOn(old(lfs.dev.disk), lfs.dev.disk, chain)
      ensures Marked(lfs.dev.cfg, old(lfs.rcache.State()), lfs.rcache.State())
      ensures r == Ok ==> 0 < n <= |data| && pos == old(pos) + n && Writing() && Bytes() == old(Before()) + data[..n]
      ensures MIN_BLOCK <= lfs.dev.cfg.blockSize < U32 && (r == Ok ==> Blocks() == old(Blocks() + RoomNeed()))
    {
      hide Coherent;
      hide WriterAt;
      hide Stands;
      hide Spare;
      hide SameOn;
      hide Data;
      hide Marked;
      hide Prefix;
      hide Header;
      hide View;
      hide Geometry;
      hide PutTraced;
      hide RoomTraced;
      hide ByteTraced;
      hide Took;
      hide Index;
      ghost var d0, r0, w, p, o := lfs.dev.disk, lfs.rcache.State(), written, pos, off;
      ghost var b0, need := lfs.supply.blocks, RoomNeed();
      n := 0;
      r := MakeRoom();
      if r != Ok {
        return;
      }
      ghost var d1, r1, o1, b1 := lfs.dev.disk, lfs.rcache.State(), off, lfs.supply.blocks;
      n := Min(|data|, lfs.dev.cfg.blockSize - off);
      r := Put(data[..n]);
      TookTwice(b0, b1, lfs.supply.blocks, lfs.dev.Sound(), need, 0, need, r == Ok);
      SameTwice(lfs.dev.cfg.blockSize, d0, d1, lfs.dev.disk, chain);
      MarkedTwice(lfs.dev.cfg, r0, r1, lfs.rcache.State());
      if r == Ok && old(writing) && |data| == 1 {
        ByteIs(lfs.dev.cfg, d0, r0, r1, lfs.rcache.State(), w, p, o, o1, lfs.dev.Sound());
      }
    }

    /** Writes data at the position, block by block. The list the directory names stays as it
        is, whether this succeeds or not. */
    method FlushedWrite(data: seq<byte>) returns (r: Code)
      requires Writable() && pos + |data| < U32
      modifies this`pos, this`off, this`block, this`written, this`writing, this`erred, cache, lfs.dev, lfs.rcache, lfs.pcache, lfs.supply
      ensures (r == Ok || r == NoSpace) && MIN_BLOCK <= lfs.dev.cfg.blockSize < U32
      ensures Took(old(lfs.supply.blocks), lfs.supply.blocks, lfs.dev.Sound(), old(NeedTo(pos + |data|)), r == Ok)
      ensures r == Ok && old(writing) && |data| == 1 ==>
                ByteTraced(lfs.dev.cfg, old(lfs.dev.disk), old(lfs.rcache.State()), lfs.rcache.State(), old(written), old(pos), old(off),
                           lfs.dev.Sound())
      ensures lfs.dev.Valid() && SameOn(old(lfs.dev.disk), lfs.dev.disk, chain)
      ensures Marked(lfs.dev.cfg, old(lfs.rcache.State()), lfs.rcache.State())
      ensures r == Ok ==> Writable() && pos == old(pos) + |data| && Before() == old(Before()) + data
      ensures r == Ok ==> writing == (old(writing) || data != []) && erred == old(erred)
      ensures if r == Ok then Blocks() == old(Blocks() + NeedTo(pos + |data|)) else erred
    {
      hide Coherent;
      hide WriterAt;
      hide Stands;
      hide Spare;
      hide SameOn;
      hide Data;
      hide Marked;
      hide Prefix;
      hide Header;
      hide View;
      hide Geometry;
      hide ByteTraced;
      hide Took;
      hide Index;
      hide Length;
      hide Blocks;
      hide RoomNeed;
      ghost var d0, r0, w0 := lfs.dev.disk, lfs.rcache.State(), Before();
      SameOnItself(d0, chain);
      MarkedItself(lfs.dev.cfg, r0);
      var i: nat := 0;
      WritableSize();
      ghost var b0, use0, end := lfs.supply.blocks, Blocks(), pos + |data|;
      TookNothing(b0, lfs.dev.Sound());
      Joined(w0, data, 0, 0);
      while i < |data|
        invariant i <= |data| && Writable() && pos == old(pos) + i && Before() == w0 + data[..i]
        invariant writing == (old(writing) || i > 0) && erred == old(erred)
        invariant i == 0 ==> lfs.dev.disk == d0 && lfs.rcache.State() == r0 && written == old(written) && off == old(off)
                             && lfs.supply.blocks == old(lfs.supply.blocks) && writing == old(writing)
        invariant i > 0 && |data| == 1 && old(writing) ==>
                    ByteTraced(lfs.dev.cfg, d0, r0, lfs.rcache.State(), old(written), old(pos), old(off), lfs.dev.Sound())
        invariant use0 <= Blocks() && Took(b0, lfs.supply.blocks, lfs.dev.Sound(), Blocks() - use0, true)
        invariant SameOn(d0, lfs.dev.disk, chain) && Marked(lfs.dev.cfg, r0, lfs.rcache.State())
      {
        ghost var d1, r1, b1, use, more, p := lfs.dev.disk, lfs.rcache.State(), lfs.supply.blocks, Blocks(), RoomNeed(), pos;
        WritableSize();
        var n: nat;
        r, n := WritePiece(data[i..]);
        TookMore(lfs.dev.cfg.blockSize, b0, b1, lfs.supply.blocks, lfs.dev.Sound(), use0, use, more, p, end, r == Ok);
        SameTwice(lfs.dev.cfg.blockSize, d0, d1, lfs.dev.disk, chain);
        MarkedTwice(lfs.dev.cfg, r0, r1, lfs.rcache.State());
        if r != Ok {
          erred := true;
          return r;
        }
        Joined(w0, data, i, n);
        i := i + n;
      }
      Joined(w0, data, i, 0);
      WritableSize();
      return Ok;
    }

    // ---------------------------------------------------------------- reading

    /** Nothing is being written; the position is in the list. */
    ghost predicate Placed()
      reads this, cache, lfs.dev
    {
      && lfs.dev.Valid() && IsFile(lfs.dev.cfg.blockSize, lfs.dev.disk, chain, head, size) && pos < U32 && !writing
      && |cache.buffer| == lfs.dev.cfg.cacheSize
      && (reading ==> at < |chain| && block == chain[at] && Edge(lfs.dev.cfg.blockSize, at, pos, off))
    }

    /** And the cache serves as read cache of the list. */
    ghost predicate Reader()
      reads this, cache, lfs.dev
    {
      Placed() && FreshOn(lfs.dev.cfg, lfs.dev.disk, cache.State(), chain)
    }

    // the next bytes are in the block being read, whatever the cache holds of it
    ghost predicate Here(n: nat)
      reads this, cache, lfs.dev
    {
      Placed() && reading && off + n <= lfs.dev.cfg.blockSize && 0 < n && pos + n <= size && Shaped(lfs.dev.cfg, cache.State(), block)
    }

    // what the read loop makes of that
    ghost function Wanted(n: nat): (s: BlockDevice.Reading)
      reads this, cache
    {
      BlockDevice.Reading(cache.State(), off, n, [])
    }

    /** What the list holds. */
    ghost function Listing(): (d: seq<byte>)
      reads this, lfs.dev
      requires 8 < lfs.dev.cfg.blockSize < U32
      ensures |d| == size
    {
      Data(lfs.dev.cfg.blockSize, lfs.dev.disk, chain, size)
    }

    // the block of the position, unless it is already there
    method Locate()
      requires (Reader() && pos < size) || Here(1)
      modifies this`off, this`block, this`reading, this`at, cache
      ensures Placed() && reading && off < lfs.dev.cfg.blockSize && (old(Reader()) ==> Reader())
      ensures Index(lfs.dev.cfg.blockSize, pos) == (at, off)
      ensures Index(lfs.dev.cfg.blockSize, pos).0 == |chain| - 1 ==> cache.State() == old(cache.State())
      ensures old(Here(1)) ==> off == old(off) && block == old(block) && at == old(at) && cache.State() == old(cache.State())
    {
      hide Coherent;
      hide Seen;
      hide Listed;
      hide Index;
      hide Edge;
      hide Hops;
      ghost var disk := lfs.dev.disk;
      var bs := lfs.dev.cfg.blockSize;
      if reading {
        EdgeRoom(bs, at, pos, off);
        EdgeIndex(bs, at, pos, off);
      }
      if !reading || off == bs {
        NoView(lfs.dev.cfg, disk, EMPTY);
        IndexMonotone(bs, pos, size - 1);
        IndexEdge(bs, pos);
        at := Index(bs, pos).0;
        HopsNone();
        var found, hops := Find(lfs.dev, null, cache, head, size, pos, chain);
        if found != None {
          block, off := found.value.0, found.value.1;
        }
        reading := true;
        ReadCacheKept(lfs.dev.cfg, disk, cache.State(), chain);
      }
    }

    // bytes of the block the position is in
    method ReadHere(n: nat) returns (data: seq<byte>)
      requires Here(n)
      modifies this`pos, this`off, cache
      ensures Placed() && reading && |data| == n && pos == old(pos) + n && off == old(off) + n
      ensures Loops(lfs.dev.cfg, lfs.dev.disk, old(Wanted(n)), block, cache.State(), data)
    {
      hide Coherent;
      hide Listed;
      hide Index;
      hide Edge;
      hide Length;
      hide Finish;
      hide Underway;
      hide Shaped;
      ReadsBlock(lfs.dev.cfg, lfs.dev.disk, cache.State(), chain, at, off, n);
      data := ReadLoop(lfs.dev, null, cache, lfs.dev.cfg.blockSize, block, off, n);
      EdgeRange(lfs.dev.cfg.blockSize, at, pos, off, n);
      pos, off := pos + n, off + n;
    }

    /** Up to n bytes of the block the position is in, read through what the cache then held. */
    method ReadBlock(n: nat) returns (r: Option<seq<byte>>, ghost c: CacheState)
      requires (Reader() && n > 0 && pos + n <= size) || Here(n)
      modifies this`pos, this`off, this`block, this`reading, this`at, cache
      ensures Placed() && reading && r != None && 0 < |r.value| <= n && pos == old(pos) + |r.value| && off >= |r.value|
      ensures old(Reader()) ==> Reader() && r.value == Listing()[old(pos)..pos]
      ensures Through(c, r.value) && (old(Here(n)) ==> |r.value| == n)
      ensures Index(lfs.dev.cfg.blockSize, old(pos)) == (at, off - |r.value|)
      ensures old(Here(n)) || Index(lfs.dev.cfg.blockSize, old(pos)).0 == |chain| - 1 ==> c == old(cache.State())
    {
      hide Coherent;
      hide Seen;
      hide Listed;
      hide Index;
      hide Edge;
      hide Data;
      hide Length;
      hide Loops;
      hide FreshOn;
      hide Shaped;
      Locate();
      var diff: nat := Min(n, lfs.dev.cfg.blockSize - off);
      c := cache.State();
      ghost var pos0, off0 := pos, off;
      if old(Reader()) { FreshIsShaped(lfs.dev.cfg, lfs.dev.disk, c, chain, at); }
      var data := ReadHere(diff);
      if old(Reader()) {
        LoopsReads(lfs.dev.cfg, lfs.dev.disk, c, chain, at, pos0, off0, diff, size, cache.State(), data);
      }
      return Some(data), c;
    }

    // data was read in front of the position when the cache was c
    ghost predicate Through(c: CacheState, data: seq<byte>)
      reads this, cache, lfs.dev
    {
      off >= |data| && Loops(lfs.dev.cfg, lfs.dev.disk, BlockDevice.Reading(c, off - |data|, |data|, []), block, cache.State(), data)
    }

    /** Reads at the position, as far as the file goes. A single byte is read through what the cache
        then held. */
    method FlushedRead(n: nat) returns (r: Option<seq<byte>>, ghost c: CacheState)
      requires Reader() || (n == 1 && Here(1))
      modifies this`pos, this`off, this`block, this`reading, this`at, cache
      ensures Placed() && r != None && pos == old(pos) + |r.value| && reading == (old(reading) || r.value != [])
      ensures old(Reader()) ==> Reader() && r == Some(Range(Listing(), old(pos), n))
      ensures r.value == [] ==> cache.State() == old(cache.State())
      ensures n == 1 && old(pos) < size ==> |r.value| == 1 && Through(c, r.value)
      ensures old(Here(1)) || Index(lfs.dev.cfg.blockSize, old(pos)).0 == |chain| - 1 ==> n == 1 && r.value != [] ==> c == old(cache.State())
      ensures n == 1 && old(pos) < size ==> Index(lfs.dev.cfg.blockSize, old(pos)) == (at, off - 1)
    {
      hide Coherent;
      hide Listed;
      hide Length;
      hide FreshOn;
      hide Edge;
      hide Data;
      hide Index;
      hide Through;
      hide Shaped;
      c := cache.State();
      if pos >= size {
        return Some([]), c;
      }
      var want: nat := Min(n, size - pos);
      var data: seq<byte> := [];
      ghost var all := Listing();
      while |data| < want
        invariant |data| <= want && Placed() && pos == old(pos) + |data| && all == Listing()
        invariant old(Reader()) ==> Reader() && data == all[old(pos)..pos]
        invariant reading == (old(reading) || data != [])
        invariant data == [] ==> cache.State() == old(cache.State()) && off == old(off) && block == old(block)
        invariant n == 1 && data != [] ==> Through(c, data)
        invariant old(Here(1)) || Index(lfs.dev.cfg.blockSize, old(pos)).0 == |chain| - 1 ==> n == 1 && data != [] ==> c == old(cache.State())
        invariant n == 1 && data != [] ==> Index(lfs.dev.cfg.blockSize, old(pos)) == (at, off - 1)
      {
        var piece;
        piece, c := ReadBlock(want - |data|);
        if piece == None {
          return None, c;
        }
        assert data == [] ==> data + piece.value == piece.value;
        data := data + piece.value;
      }
      return Some(data), c;
    }

    // ---------------------------------------------------------------- flushing

    /** A file at rest between calls: idle, reading or writing. An appending file writes at its
        end. */
    ghost predicate Valid()
      reads this, cache, lfs.dev, lfs.rcache, lfs.pcache, lfs.supply
    {
      && Base() && pos <= lfs.fileMax && (writing ==> Copies(pos))
      && (if writing then Writing() && (append ==> size <= pos) else Reader() && (reading || cache.block == NULL_BLOCK))
    }

    // what is behind this position can be copied, if there is anything
    ghost predicate Copies(end: nat)
      reads this
    {
      end < size ==> Untangled(lfs.dev.cfg, lfs.dev.Sound())
    }

    /** The file as an array of bytes. */
    ghost function Contents(): (d: seq<byte>)
      reads this, cache, lfs.dev, lfs.rcache, lfs.pcache, lfs.supply
      requires Valid()
    {
      if writing then Bytes() + Rest(Listing(), pos) else Listing()
    }

    // one byte written while another cache shares the buffer of the read cache, which leaves r1
    method WriteByte(other: Cache, data: seq<byte>) returns (r: Code, ghost r1: CacheState)
      requires Writing() && |data| == 1 && pos + 1 < U32
      requires other != cache && other != lfs.rcache && other != lfs.pcache && |other.buffer| == lfs.dev.cfg.cacheSize
      requires lfs.rcache.block == NULL_BLOCK
      modifies this`pos, this`off, this`block, this`written, this`writing, this`erred, cache, lfs.dev, lfs.rcache, lfs.pcache, lfs.supply, other
      ensures (r == Ok || r == NoSpace) && MIN_BLOCK <= lfs.dev.cfg.blockSize < U32
      ensures r == Ok ==> Blocks() == old(Blocks() + RoomNeed())
      ensures Took(old(lfs.supply.blocks), lfs.supply.blocks, lfs.dev.Sound(), old(RoomNeed()), r == Ok)
      ensures lfs.dev.Valid() && SameOn(old(lfs.dev.disk), lfs.dev.disk, chain)
      ensures r == Ok ==> Writing() && pos == old(pos) + 1 && Bytes() == old(Bytes()) + data && erred == old(erred)
      ensures r == Ok ==> lfs.rcache.State() == r1.(block := NULL_BLOCK)
      ensures r == Ok ==> other.State() == Shared(old(other.State()), r1) && |r1.buffer| == lfs.dev.cfg.cacheSize
      ensures r == Ok ==> ByteShared(lfs.dev.cfg, old(lfs.dev.disk), old(lfs.rcache.State()).(buffer := old(other.buffer)), r1,
                                     old(written), old(pos), old(off), lfs.dev.Sound())
    {
      hide Coherent;
      hide WriterAt;
      hide Spare;
      hide SameOn;
      hide Data;
      hide Prefix;
      hide Header;
      hide Stands;
      hide ByteTraced;
      hide Marked;
      hide Took;
      hide Index;
      hide Length;
      WritableSize();
      WithEmptyRead(lfs.dev.cfg, lfs.dev.disk, cache.State(), lfs.rcache.State(), lfs.rcache.State().(buffer := other.buffer),
                    written, block, pos, off, chain, head, size);
      lfs.rcache.Share(other);
      r := FlushedWrite(data);
      r1 := lfs.rcache.State();
      if r != Ok {
        return;
      }
      other.Share(lfs.rcache);
      WithEmptyRead(lfs.dev.cfg, lfs.dev.disk, cache.State(), lfs.rcache.State(), lfs.rcache.State().(block := NULL_BLOCK),
                    written, block, pos, off, chain, head, size);
      if lfs.rcache.block != NULL_BLOCK {
        other.Drop();
        lfs.rcache.Drop();
      }
    }

    // one byte of the rest
    method CopyByte(orig: File, other: Cache) returns (r: Code, ghost got: byte, ghost c: CacheState, ghost c0: CacheState, ghost r1: CacheState)
      requires Writing() && pos < size
      requires orig != this && orig.cache == other && orig.lfs == lfs && orig.chain == chain && orig.head == head && orig.size == size
      requires other != cache && other != lfs.rcache && other != lfs.pcache && (orig.Reader() || orig.Here(1)) && orig.pos == pos
      requires lfs.rcache.block == NULL_BLOCK && other.buffer == lfs.rcache.buffer
      modifies this`pos, this`off, this`block, this`written, this`writing, this`erred, cache, lfs.dev, lfs.rcache, lfs.pcache, lfs.supply
      modifies orig`pos, orig`off, orig`block, orig`reading, orig`at, other
      ensures (r == Ok || r == NoSpace) && MIN_BLOCK <= lfs.dev.cfg.blockSize < U32
      ensures r == Ok ==> Blocks() == old(Blocks() + RoomNeed())
      ensures Took(old(lfs.supply.blocks), lfs.supply.blocks, lfs.dev.Sound(), old(RoomNeed()), r == Ok)
      ensures lfs.dev.Valid() && SameOn(old(lfs.dev.disk), lfs.dev.disk, chain)
      ensures r == Ok ==> Writing() && pos == old(pos) + 1 && erred == old(erred) && Listing() == old(Listing())
      ensures r == Ok ==> Bytes() == old(Bytes()) + [got] && (old(orig.Reader()) ==> got == old(Listing())[old(pos)])
      ensures r == Ok ==> orig.Placed() && orig.pos == pos && orig.reading && orig.off > 0
      ensures r == Ok && old(orig.Reader()) && Untangled(lfs.dev.cfg, lfs.dev.Sound()) ==> orig.Reader()
      ensures r == Ok ==> lfs.rcache.block == NULL_BLOCK && other.buffer == lfs.rcache.buffer
      // what the shared buffer went through
      ensures r == Ok ==>
                && Loops(lfs.dev.cfg, old(lfs.dev.disk), BlockDevice.Reading(c, orig.off - 1, 1, []), orig.block, c0, [got])
                && other.State() == Shared(c0, r1)
                && ByteShared(lfs.dev.cfg, old(lfs.dev.disk), old(lfs.rcache.State()).(buffer := c0.buffer), r1,
                              old(written), old(pos), old(off), lfs.dev.Sound())
      ensures old(orig.Here(1)) || Index(lfs.dev.cfg.blockSize, old(pos)).0 == |chain| - 1 ==> c == old(other.State())
      ensures r == Ok ==> Index(lfs.dev.cfg.blockSize, old(pos)) == (orig.at, orig.off - 1)
    {
      hide Coherent;
      hide WriterAt;
      hide Spare;
      hide SameOn;
      hide Data;
      hide Prefix;
      hide Header;
      hide Stands;
      hide FreshOn;
      hide IsFile;
      hide Edge;
      hide Shaped;
      hide Index;
      hide Loops;
      hide ByteShared;
      hide Untangled;
      hide Took;
      SameOnItself(lfs.dev.disk, chain);
      var data;
      data, c := orig.FlushedRead(1);
      if data == None {
        return NoSpace, 0, c, c, c;
      }
      got := data.value[0];
      c0 := other.State();
      ghost var d0 := lfs.dev.disk;
      assert data.value == [got];
      assert Loops(lfs.dev.cfg, d0, BlockDevice.Reading(c, orig.off - 1, 1, []), orig.block, c0, [got]);
      r, r1 := WriteByte(other, data.value);
      if r == Ok {
        CopiedLater(lfs.dev.cfg, d0, lfs.dev.disk, lfs.rcache.State(), chain, head, size);
        if old(orig.Reader()) && Untangled(lfs.dev.cfg, lfs.dev.Sound()) {
          Unharmed(lfs.dev.cfg, d0, old(lfs.rcache.State()).(buffer := c0.buffer), r1, c0, old(written), old(pos), old(off), lfs.dev.Sound());
          ReaderLater(lfs.dev.cfg, d0, lfs.dev.disk, c0, other.State(), lfs.rcache.State(), chain, head, size);
        }
      }
    }

    // and nothing but that, when the two caches stay in step
    method CopyOne(orig: File, other: Cache) returns (r: Code)
      requires Writing() && pos < size && Untangled(lfs.dev.cfg, lfs.dev.Sound())
      requires orig != this && orig.cache == other && orig.lfs == lfs && orig.chain == chain && orig.head == head && orig.size == size
      requires other != cache && other != lfs.rcache && other != lfs.pcache && orig.Reader() && orig.pos == pos
      requires lfs.rcache.block == NULL_BLOCK && other.buffer == lfs.rcache.buffer
      modifies this`pos, this`off, this`block, this`written, this`writing, this`erred, cache, lfs.dev, lfs.rcache, lfs.pcache, lfs.supply
      modifies orig`pos, orig`off, orig`block, orig`reading, orig`at, other
      ensures (r == Ok || r == NoSpace) && MIN_BLOCK <= lfs.dev.cfg.blockSize < U32
      ensures r == Ok ==> Blocks() == old(Blocks() + RoomNeed())
      ensures Took(old(lfs.supply.blocks), lfs.supply.blocks, lfs.dev.Sound(), old(RoomNeed()), r == Ok)
      ensures lfs.dev.Valid() && SameOn(old(lfs.dev.disk), lfs.dev.disk, chain)
      ensures r == Ok ==> Writing() && pos == old(pos) + 1 && erred == old(erred) && Listing() == old(Listing())
                          && Bytes() == old(Bytes()) + [old(Listing())[old(pos)]]
      ensures r == Ok ==> orig.Reader() && orig.pos == pos && lfs.rcache.block == NULL_BLOCK && other.buffer == lfs.rcache.buffer
    {
      hide Coherent;
      hide WriterAt;
      hide Spare;
      hide SameOn;
      hide Data;
      hide Prefix;
      hide Header;
      hide Stands;
      hide FreshOn;
      hide IsFile;
      hide Edge;
      hide Took;
      hide Index;
      hide Length;
      hide Loops;
      hide Shaped;
      hide ByteShared;
      hide Untangled;
      ghost var got, c, c0, r1;
      r, got, c, c0, r1 := CopyByte(orig, other);
    }

    // byte by byte, until the old list ends
    method CopyWith(orig: File, other: Cache) returns (r: Code)
      requires Writing() && (pos < size ==> Untangled(lfs.dev.cfg, lfs.dev.Sound())) && pos <= lfs.fileMax
      requires orig != this && orig.cache == other && orig.lfs == lfs && orig.chain == chain && orig.head == head && orig.size == size
      requires other != cache && other != lfs.rcache && other != lfs.pcache && orig.Reader() && orig.pos == pos
      requires lfs.rcache.block == NULL_BLOCK && other.buffer == lfs.rcache.buffer
      modifies this`pos, this`off, this`block, this`written, this`writing, this`erred, cache, lfs.dev, lfs.rcache, lfs.pcache, lfs.supply
      modifies orig`pos, orig`off, orig`block, orig`reading, orig`at, other
      ensures (r == Ok || r == NoSpace) && MIN_BLOCK <= lfs.dev.cfg.blockSize < U32
      ensures Took(old(lfs.supply.blocks), lfs.supply.blocks, lfs.dev.Sound(), old(NeedTo(size)), r == Ok)
      ensures lfs.dev.Valid() && SameOn(old(lfs.dev.disk), lfs.dev.disk, chain)
      ensures r == Ok ==> Writing() && pos == Max(old(pos), size) && Bytes() == old(Bytes()) + Rest(old(Listing()), old(pos))
      ensures r == Ok ==> erred == old(erred)
    {
      hide Rest;
      hide Between;
      hide Linked;
      hide Loops;
      hide Shaped;
      hide ByteShared;
      hide Untangled;
      hide Coherent;
      hide WriterAt;
      hide Spare;
      hide SameOn;
      hide Data;
      hide Prefix;
      hide Header;
      hide Stands;
      hide FreshOn;
      hide IsFile;
      hide Edge;
      hide Took;
      hide Index;
      hide Length;
      hide Blocks;
      hide RoomNeed;
      ghost var start, from := lfs.dev.disk, pos;
      SameOnItself(start, chain);
      ListSize(lfs.dev.cfg, start, chain, head, size);
      ghost var listing := Listing();
      WritableSize();
      ghost var b0, use0 := lfs.supply.blocks, Blocks();
      TookNothing(b0, lfs.dev.Sound());
      RestSoFar(listing, from, from);
      while pos < size
        invariant Writing() && orig.pos == pos && from <= pos <= Max(from, size) && erred == old(erred)
        invariant orig.Reader() && lfs.rcache.block == NULL_BLOCK && other.buffer == lfs.rcache.buffer
        invariant SameOn(start, lfs.dev.disk, chain) && Listing() == listing
        invariant Bytes() == old(Bytes()) + Between(listing, from, pos)
        invariant use0 <= Blocks() && Took(b0, lfs.supply.blocks, lfs.dev.Sound(), Blocks() - use0, true)
      {
        ghost var d0, b1, use, more := lfs.dev.disk, lfs.supply.blocks, Blocks(), RoomNeed();
        WritableSize();
        ghost var p := pos;
        r := CopyOne(orig, other);
        TookMore(lfs.dev.cfg.blockSize, b0, b1, lfs.supply.blocks, lfs.dev.Sound(), use0, use, more, p, size, r == Ok);
        SameTwice(lfs.dev.cfg.blockSize, start, d0, lfs.dev.disk, chain);
        if r != Ok {
          return r;
        }
        RestSoFar(listing, from, pos - 1);
      }
      RestSoFar(listing, from, pos);
      WritableSize();
      return Ok;
    }

    // the old list is read on from the position and written behind it
    method CopyRest() returns (r: Code)
      requires Writing() && (pos < size ==> Untangled(lfs.dev.cfg, lfs.dev.Sound())) && pos <= lfs.fileMax
      modifies this`pos, this`off, this`block, this`written, this`writing, this`erred, cache, lfs.dev, lfs.rcache, lfs.pcache, lfs.supply
      ensures (r == Ok || r == NoSpace) && MIN_BLOCK <= lfs.dev.cfg.blockSize < U32
      ensures Took(old(lfs.supply.blocks), lfs.supply.blocks, lfs.dev.Sound(), old(NeedTo(size)), r == Ok)
      ensures lfs.dev.Valid() && SameOn(old(lfs.dev.disk), lfs.dev.disk, chain)
      ensures r == Ok ==> Writing() && pos == Max(old(pos), size) && Bytes() == old(Bytes()) + Rest(old(Listing()), old(pos))
      ensures r == Ok ==> erred == old(erred)
    {
      hide Coherent;
      hide WriterAt;
      hide Spare;
      hide SameOn;
      hide Data;
      hide Prefix;
      hide Header;
      hide Stands;
      hide FreshOn;
      hide IsFile;
      hide Edge;
      hide Took;
      hide Index;
      hide Length;
      StandsReader(lfs.dev.cfg, lfs.dev.disk, lfs.rcache.State(), chain, head, size);
      ListSize(lfs.dev.cfg, lfs.dev.disk, chain, head, size);
      WithEmptyRead(lfs.dev.cfg, lfs.dev.disk, cache.State(), lfs.rcache.State(), lfs.rcache.State().(block := NULL_BLOCK),
                    written, block, pos, off, chain, head, size);
      var other := new Cache(lfs.dev.cfg);
      other.Become(lfs.rcache);
      var orig := new File(lfs, other, false, head, size, pos, chain);
      lfs.rcache.Drop();
      r := CopyWith(orig, other);
    }

    // the cache goes to the disk; a block that turns out bad is left for another one
    method FlushCache() returns (r: Code)
      requires Writing()
      modifies this`block, this`written, cache, lfs.dev, lfs.rcache, lfs.pcache, lfs.supply
      ensures (r == Ok || r == NoSpace) && Took(old(lfs.supply.blocks), lfs.supply.blocks, lfs.dev.Sound(), 0, r == Ok)
      ensures lfs.dev.Valid() && SameOn(old(lfs.dev.disk), lfs.dev.disk, chain)
      ensures r == Ok ==> Base() && cache.block == NULL_BLOCK && writing
      ensures r == Ok ==> Stands(lfs.dev.cfg, lfs.dev.disk, lfs.rcache.State(), written, block, pos)
                          && Data(lfs.dev.cfg.blockSize, lfs.dev.disk, written, pos) == old(Bytes())
    {
      hide Coherent;
      hide Seen;
      hide Multiple;
      hide Stuck;
      hide Torn;
      hide Prefix;
      hide Stands;
      hide Spare;
      hide WriterAt;
      hide FreshOn;
      hide SameOn;
      hide Header;
      hide Stored;
      hide Data;
      hide Padded;
      ghost var start := lfs.dev.disk;
      SameOnItself(start, chain);
      while true
        invariant Writing() && Bytes() == old(Bytes()) && SameOn(start, lfs.dev.disk, chain)
        invariant lfs.dev.Sound() ==> lfs.supply.blocks == old(lfs.supply.blocks)
        decreases |lfs.supply.blocks|
      {
        ghost var d0, p0, r0 := lfs.dev.disk, cache.State(), lfs.rcache.State();
        WriterPending(lfs.dev.cfg, d0, p0, r0, written, block, pos, off);
        r := BdFlush(lfs.dev, cache, lfs.rcache, true);
        FlushStands(lfs.dev.cfg, d0, p0, r0, lfs.dev.disk, lfs.rcache.State(), chain, head, size, block);
        SpareKept(d0, lfs.dev.disk, lfs.supply.blocks, chain + written);
        SameTwice(lfs.dev.cfg.blockSize, start, d0, lfs.dev.disk, chain);
        if r == Ok {
          Flushed(lfs.dev.cfg, d0, p0, r0, lfs.dev.disk, lfs.rcache.State(), written, block, pos, off);
          return Ok;
        }
        FlushTear(lfs.dev.cfg, d0, p0, r0, lfs.dev.disk, written, block, pos, off);
        ghost var d1 := lfs.dev.disk;
        r := MoveBlock(d0, p0, r0);
        SameTwice(lfs.dev.cfg.blockSize, start, d1, lfs.dev.disk, chain);
        if r != Ok {
          return r;
        }
      }
    }

    /** Nothing the directory names has changed: it still reads the same. */
    twostate predicate Untouched()
      reads this, lfs.dev
    {
      && head == old(head) && size == old(size) && chain == old(chain) && MIN_BLOCK <= lfs.dev.cfg.blockSize < U32
      && Data(lfs.dev.cfg.blockSize, lfs.dev.disk, chain, size) == Data(lfs.dev.cfg.blockSize, old(lfs.dev.disk), chain, size)
    }

    /** The blocks it takes to copy the rest of the old list, if anything is being written. */
    ghost function FlushNeed(): nat
      reads this
      requires 8 < lfs.dev.cfg.blockSize < U32
    {
      if writing then NeedTo(size) else 0
    }

    // what is written and the rest of the old list go to the disk
    method FlushDisk() returns (r: Code)
      requires Valid() && writing
      modifies this`pos, this`off, this`block, this`written, this`writing, this`erred, cache, lfs.dev, lfs.rcache, lfs.pcache, lfs.supply
      ensures (r == Ok || r == NoSpace) && MIN_BLOCK <= lfs.dev.cfg.blockSize < U32
      ensures Took(old(lfs.supply.blocks), lfs.supply.blocks, lfs.dev.Sound(), old(NeedTo(size)), r == Ok)
      ensures r == Ok ==> Base() && cache.block == NULL_BLOCK && writing && pos <= lfs.fileMax && erred == old(erred)
      ensures r == Ok ==> Stands(lfs.dev.cfg, lfs.dev.disk, lfs.rcache.State(), written, block, pos)
                          && Data(lfs.dev.cfg.blockSize, lfs.dev.disk, written, pos) == old(Contents())
      ensures lfs.dev.Valid()
      ensures Data(lfs.dev.cfg.blockSize, lfs.dev.disk, chain, size) == old(Listing())
    {
      hide Coherent;
      hide Spare;
      hide Data;
      hide Prefix;
      hide Header;
      hide SameOn;
      hide WriterAt;
      hide Stands;
      hide FreshOn;
      hide IsFile;
      hide Edge;
      hide Took;
      hide Index;
      hide Length;
      StandsReader(lfs.dev.cfg, lfs.dev.disk, lfs.rcache.State(), chain, head, size);
      ghost var d0, b0, need := lfs.dev.disk, lfs.supply.blocks, NeedTo(size);
      r := CopyRest();
      OldStands(lfs.dev.cfg, d0, lfs.dev.disk, chain, head, size);
      if r != Ok {
        return r;
      }
      ghost var d1, b1 := lfs.dev.disk, lfs.supply.blocks;
      r := FlushCache();
      TookTwice(b0, b1, lfs.supply.blocks, lfs.dev.Sound(), need, 0, need, r == Ok);
      SameTwice(lfs.dev.cfg.blockSize, d0, d1, lfs.dev.disk, chain);
      OldStands(lfs.dev.cfg, d0, lfs.dev.disk, chain, head, size);
    }

    // the directory may name the new list
    method FlushWriting() returns (r: Code)
      requires Valid() && writing
      modifies this, cache, lfs.dev, lfs.rcache, lfs.pcache, lfs.supply
      ensures (r == Ok || r == NoSpace) && MIN_BLOCK <= lfs.dev.cfg.blockSize < U32
      ensures Took(old(lfs.supply.blocks), lfs.supply.blocks, lfs.dev.Sound(), old(NeedTo(size)), r == Ok)
      ensures r == Ok ==> Valid() && Idle() && pos == old(pos) && Listing() == old(Contents()) && erred == old(erred)
      ensures r != Ok ==> Untouched()
      ensures Data(lfs.dev.cfg.blockSize, lfs.dev.disk, old(chain), old(size)) == old(Listing())
    {
      hide Coherent;
      hide Spare;
      hide Data;
      hide Prefix;
      hide Header;
      hide SameOn;
      hide WriterAt;
      hide Stands;
      hide FreshOn;
      hide IsFile;
      hide Edge;
      hide View;
      hide Length;
      hide DiskOk;
      hide Geometry;
      hide Rest;
      hide Took;
      hide Index;
      var start := pos;
      r := FlushDisk();
      if r != Ok {
        return r;
      }
      NewStands(lfs.dev.cfg, lfs.dev.disk, lfs.rcache.State(), cache.State(), chain, written, block, pos, lfs.supply.blocks);
      head, size, writing := block, pos, false;
      chain := written;
      pos := start;
    }

    /** Finishes reading or writing. The file is what it was, now as a list the directory can
        name; without a spare block, the directory still names the old list. */
    method Flush() returns (r: Code)
      requires Valid()
      modifies this, cache, lfs.dev, lfs.rcache, lfs.pcache, lfs.supply
      ensures (r == Ok || (r == NoSpace && old(writing))) && MIN_BLOCK <= lfs.dev.cfg.blockSize < U32
      ensures Took(old(lfs.supply.blocks), lfs.supply.blocks, lfs.dev.Sound(), old(FlushNeed()), r == Ok)
      ensures !old(writing) ==> lfs.supply.blocks == old(lfs.supply.blocks) && lfs.dev.disk == old(lfs.dev.disk)
      ensures r == Ok ==> Valid() && Idle() && pos == old(pos) && Contents() == old(Contents()) && erred == old(erred)
      ensures r != Ok || !old(writing) ==> Untouched()
      ensures Data(lfs.dev.cfg.blockSize, lfs.dev.disk, old(chain), old(size)) == old(Listing())
    {
      hide Coherent;
      hide Spare;
      hide Data;
      hide Prefix;
      hide Header;
      hide SameOn;
      hide WriterAt;
      hide Stands;
      hide FreshOn;
      hide IsFile;
      hide Edge;
      hide Took;
      hide Index;
      hide Length;
      StandsReader(lfs.dev.cfg, lfs.dev.disk, lfs.rcache.State(), chain, head, size);
      ListSize(lfs.dev.cfg, lfs.dev.disk, chain, head, size);
      if reading {
        FreshBuffer(lfs.dev.cfg, lfs.dev.disk, cache.State(), chain);
        cache.Drop();
        reading := false;
        NullIsFresh(lfs.dev.cfg, lfs.dev.disk, cache.State(), chain);
      }
      if writing {
        r := FlushWriting();
      } else {
        TookNothing(lfs.supply.blocks, lfs.dev.Sound());
        r := Ok;
      }
    }

    // ---------------------------------------------------------------- the operations

    // one more zero
    method PutZero(ghost d: seq<byte>, ghost n: nat) returns (r: Code)
      requires Writable() && pos + 1 < U32 && Before() == d + Zeros(n)
      modifies this`pos, this`off, this`block, this`written, this`writing, this`erred, cache, lfs.dev, lfs.rcache, lfs.pcache, lfs.supply
      ensures (r == Ok || r == NoSpace) && MIN_BLOCK <= lfs.dev.cfg.blockSize < U32
      ensures Took(old(lfs.supply.blocks), lfs.supply.blocks, lfs.dev.Sound(), old(RoomNeed()), r == Ok)
      ensures SameOn(old(lfs.dev.disk), lfs.dev.disk, chain)
      ensures r == Ok ==> Writable() && writing && pos == old(pos) + 1 && Before() == d + Zeros(n + 1)
      ensures if r == Ok then Blocks() == old(Blocks() + RoomNeed()) else erred
    {
      hide Coherent;
      hide WriterAt;
      hide Spare;
      hide SameOn;
      hide Data;
      hide Prefix;
      hide Header;
      hide Stands;
      hide FreshOn;
      hide IsFile;
      hide Edge;
      hide Took;
      hide Index;
      hide Length;
      hide Blocks;
      hide RoomNeed;
      hide Zeros;
      WritableSize();
      ZerosStep(d, n);
      r := FlushedWrite([0]);
    }

    // zeros behind d, one by one
    method PutZeros(ghost d: seq<byte>, target: nat) returns (r: Code)
      requires Writable() && pos <= target < U32 && Before() == d
      modifies this`pos, this`off, this`block, this`written, this`writing, this`erred, cache, lfs.dev, lfs.rcache, lfs.pcache, lfs.supply
      ensures (r == Ok || r == NoSpace) && MIN_BLOCK <= lfs.dev.cfg.blockSize < U32
      ensures Took(old(lfs.supply.blocks), lfs.supply.blocks, lfs.dev.Sound(), old(NeedTo(target)), r == Ok)
      ensures r == NoSpace ==> erred
      ensures r == Ok ==> Writable() && pos == target && Before() == d + Zeros(target - old(pos)) && writing == (old(writing) || target > old(pos))
      ensures SameOn(old(lfs.dev.disk), lfs.dev.disk, chain)
    {
      hide Coherent;
      hide WriterAt;
      hide Spare;
      hide SameOn;
      hide Data;
      hide Prefix;
      hide Header;
      hide Stands;
      hide FreshOn;
      hide IsFile;
      hide Edge;
      hide Took;
      hide Index;
      hide Length;
      hide Blocks;
      hide RoomNeed;
      hide Zeros;
      hide Writable;
      hide Before;
      ghost var d0, from := lfs.dev.disk, pos;
      SameOnItself(d0, chain);
      ZerosStep(d, 0);
      WritableSize();
      ghost var b0, use0 := lfs.supply.blocks, Blocks();
      TookNothing(b0, lfs.dev.Sound());
      while pos < target
        invariant from <= pos <= target && Writable() && writing == (old(writing) || pos > from)
        invariant Before() == d + Zeros(pos - from) && SameOn(d0, lfs.dev.disk, chain)
        invariant use0 <= Blocks() && Took(b0, lfs.supply.blocks, lfs.dev.Sound(), Blocks() - use0, true)
        invariant pos == from ==> Blocks() == use0
      {
        ghost var d1, b1, use, more, p := lfs.dev.disk, lfs.supply.blocks, Blocks(), RoomNeed(), pos;
        WritableSize();
        r := PutZero(d, p - from);
        TookMore(lfs.dev.cfg.blockSize, b0, b1, lfs.supply.blocks, lfs.dev.Sound(), use0, use, more, p, target, r == Ok);
        SameTwice(lfs.dev.cfg.blockSize, d0, d1, lfs.dev.disk, chain);
        if r != Ok {
          return r;
        }
      }
      WritableSize();
      return Ok;
    }

    // fill with zeros up to a position behind the end
    method FillZeros(target: nat) returns (r: Code)
      requires Valid() && Idle() && size <= target <= lfs.fileMax
      modifies this, cache, lfs.dev, lfs.rcache, lfs.pcache, lfs.supply
      ensures (r == Ok || r == NoSpace) && MIN_BLOCK <= lfs.dev.cfg.blockSize < U32
      ensures Took(old(lfs.supply.blocks), lfs.supply.blocks, lfs.dev.Sound(), old(Span(lfs.dev.cfg.blockSize, size, target)), r == Ok)
      ensures r == NoSpace ==> erred
      ensures r == Ok ==> Writable() && pos == target && Before() == old(Listing()) + Zeros(target - old(size)) && (target > size ==> writing)
      ensures Untouched()
    {
      hide Coherent;
      hide WriterAt;
      hide Spare;
      hide SameOn;
      hide Data;
      hide Prefix;
      hide Header;
      hide Stands;
      hide FreshOn;
      hide IsFile;
      hide Edge;
      hide Took;
      hide Index;
      hide Length;
      StandsReader(lfs.dev.cfg, lfs.dev.disk, lfs.rcache.State(), chain, head, size);
      ListSize(lfs.dev.cfg, lfs.dev.disk, chain, head, size);
      ghost var d0 := lfs.dev.disk;
      pos := size;
      r := PutZeros(Listing(), target);
      OldStands(lfs.dev.cfg, d0, lfs.dev.disk, chain, head, size);
    }

    /** Where a write goes. */
    function Target(): nat
      reads this
    {
      if append && pos < size then size else pos
    }

    /** The blocks it takes to write up to a position. */
    ghost function WriteNeed(end: nat): nat
      reads this
      requires 8 < lfs.dev.cfg.blockSize < U32
    {
      if writing then NeedTo(end) else Span(lfs.dev.cfg.blockSize, Min(Target(), size), end)
    }

    // the position is reached, and the file was c
    ghost predicate Reached(c: seq<byte>)
      reads this, cache, lfs.dev, lfs.rcache, lfs.pcache, lfs.supply
    {
      && Writable() && !reading && (append ==> size <= pos) && 8 < lfs.dev.cfg.blockSize < U32
      && var l := Listing();
      && (c == Before() + Rest(l, pos) || (c == l && Before() == if pos <= size then l[..pos] else l + Zeros(pos - size)))
    }

    // from the position on
    method WriteOn(data: seq<byte>, ghost c: seq<byte>) returns (r: Code)
      requires Reached(c) && pos + |data| <= lfs.fileMax && Copies(pos + |data|)
      modifies this, cache, lfs.dev, lfs.rcache, lfs.pcache, lfs.supply
      ensures (r == Ok || r == NoSpace) && MIN_BLOCK <= lfs.dev.cfg.blockSize < U32
      ensures Took(old(lfs.supply.blocks), lfs.supply.blocks, lfs.dev.Sound(), old(NeedTo(pos + |data|)), r == Ok)
      ensures r == NoSpace ==> erred
      ensures r == Ok ==> Valid() && !reading && pos == old(pos) + |data| && Contents() == Splice(c, old(pos), data)
      ensures Untouched()
    {
      hide Coherent;
      hide Spare;
      hide Data;
      hide Prefix;
      hide Header;
      hide SameOn;
      hide WriterAt;
      hide Stands;
      hide FreshOn;
      hide IsFile;
      hide Edge;
      hide Took;
      hide Index;
      hide Length;
      hide Blocks;
      hide NeedTo;
      ghost var d0 := lfs.dev.disk;
      WritableStands();
      SpliceIs(Listing(), c, Before(), pos, data);
      r := FlushedWrite(data);
      OldStands(lfs.dev.cfg, d0, lfs.dev.disk, chain, head, size);
      if r == Ok {
        WritableStands();
        if !writing { NullIsFresh(lfs.dev.cfg, lfs.dev.disk, cache.State(), chain); }
      }
    }

    // from the position on, no reads pending
    method WriteOut(data: seq<byte>) returns (r: Code)
      requires Valid() && !reading && pos + |data| <= lfs.fileMax && (append ==> size <= pos) && Copies(pos + |data|)
      modifies this, cache, lfs.dev, lfs.rcache, lfs.pcache, lfs.supply
      ensures (r == Ok || r == NoSpace) && MIN_BLOCK <= lfs.dev.cfg.blockSize < U32
      ensures Took(old(lfs.supply.blocks), lfs.supply.blocks, lfs.dev.Sound(), old(WriteNeed(pos + |data|)), r == Ok)
      ensures r == NoSpace ==> erred
      ensures r == Ok ==> Valid() && !reading && pos == old(pos) + |data| && Contents() == Splice(old(Contents()), old(pos), data)
      ensures Untouched()
    {
      hide Coherent;
      hide Spare;
      hide Data;
      hide Prefix;
      hide Header;
      hide SameOn;
      hide WriterAt;
      hide Stands;
      hide FreshOn;
      hide IsFile;
      hide Edge;
      hide Took;
      hide Index;
      hide Length;
      hide Splice;
      StandsReader(lfs.dev.cfg, lfs.dev.disk, lfs.rcache.State(), chain, head, size);
      ListSize(lfs.dev.cfg, lfs.dev.disk, chain, head, size);
      ghost var c := Contents();
      ghost var b0, need: nat, end := lfs.supply.blocks, 0, pos + |data|;
      ghost var total := WriteNeed(end);
      TookNothing(b0, lfs.dev.Sound());
      if !writing && pos > size {
        need := Span(lfs.dev.cfg.blockSize, size, pos);
        SpanTwice(lfs.dev.cfg.blockSize, size, pos, end);
        r := FillZeros(pos);
        if r != Ok {
          TookTwice(b0, b0, lfs.supply.blocks, lfs.dev.Sound(), 0, need, total, false);
          return r;
        }
        WritableSize();
      }
      ghost var b1, more := lfs.supply.blocks, NeedTo(end);
      assert need + more == total;
      r := WriteOn(data, c);
      TookTwice(b0, b1, lfs.supply.blocks, lfs.dev.Sound(), need, more, total, r == Ok);
    }

    /** Writes data at the position, or at the end of an appending file: as on an array of
        bytes that is zero-filled when it is written behind its end. What the directory names
        reads as before, whether this succeeds or not. */
    method Write(data: seq<byte>) returns (r: Code)
      requires Valid() && |data| < 0x8000_0000 && Copies(Target() + |data|)
      modifies this, cache, lfs.dev, lfs.rcache, lfs.pcache, lfs.supply
      ensures r == TooBig <==> old(Target()) + |data| > lfs.fileMax
      ensures (r == Ok || r == NoSpace || r == TooBig) && MIN_BLOCK <= lfs.dev.cfg.blockSize < U32
      ensures r != TooBig ==>
                Took(old(lfs.supply.blocks), lfs.supply.blocks, lfs.dev.Sound(), old(WriteNeed(Target() + |data|)), r == Ok)
      ensures r == NoSpace ==> erred
      ensures r == Ok ==> Valid() && pos == old(Target()) + |data| && !erred
                          && Contents() == Splice(old(Contents()), old(Target()), data)
      ensures r == TooBig ==> Valid() && pos == old(Target()) && Contents() == old(Contents())
                              && lfs.supply.blocks == old(lfs.supply.blocks) && lfs.dev.disk == old(lfs.dev.disk)
      ensures Untouched()
    {
      hide Coherent;
      hide Spare;
      hide Data;
      hide Prefix;
      hide Header;
      hide SameOn;
      hide WriterAt;
      hide Stands;
      hide FreshOn;
      hide IsFile;
      hide Edge;
      hide View;
      hide Splice;
      hide Length;
      hide DiskOk;
      hide Rest;
      hide Took;
      hide Index;
      if reading {
        r := Flush();
      }
      if append && pos < size {
        pos := size;
      }
      if pos + |data| > lfs.fileMax {
        return TooBig;
      }
      r := WriteOut(data);
      if r != Ok {
        return r;
      }
      erred := false;
    }

    /** Reads at the position. */
    method Read(n: nat) returns (r: Code, data: seq<byte>)
      requires Valid()
      modifies this, cache, lfs.dev, lfs.rcache, lfs.pcache, lfs.supply
      ensures (r == Ok || (r == NoSpace && old(writing))) && MIN_BLOCK <= lfs.dev.cfg.blockSize < U32
      ensures Took(old(lfs.supply.blocks), lfs.supply.blocks, lfs.dev.Sound(), old(FlushNeed()), r == Ok)
      ensures r == Ok ==> Valid() && Contents() == old(Contents()) && data == Range(old(Contents()), old(pos), n) && pos == old(pos) + |data|
      ensures r != Ok ==> Untouched()
    {
      hide Coherent;
      hide Spare;
      hide Data;
      hide Prefix;
      hide Header;
      hide SameOn;
      hide WriterAt;
      hide Stands;
      hide FreshOn;
      hide IsFile;
      hide Edge;
      hide Took;
      hide Index;
      hide Length;
      data := [];
      TookNothing(lfs.supply.blocks, lfs.dev.Sound());
      if writing {
        r := Flush();
        if r != Ok {
          return;
        }
      }
      RangeEnds(Listing(), pos, n);
      var read, _ := FlushedRead(n);
      FreshBuffer(lfs.dev.cfg, lfs.dev.disk, cache.State(), chain);
      if read == None {
        return NoSpace, [];
      }
      return Ok, read.value;
    }

    /** Where a seek goes, in 32-bit arithmetic: Set, Cur or End plus an offset. */
    function Sought(whence: Whence, dist: int): nat
      reads this
    {
      (match whence
       case Set => dist
       case Cur => pos + dist
       case End => (if writing then Max(pos, size) else size) + dist) % U32
    }

    // stays in the block that is in the cache
    method Slide(npos: nat) returns (done: bool)
      requires Valid() && npos <= lfs.fileMax
      modifies this`pos, this`off
      ensures Valid() && Contents() == old(Contents()) && Untouched() && (done ==> pos == npos)
      ensures !done ==> pos == old(pos) && off == old(off)
    {
      hide Coherent;
      hide WriterAt;
      hide Spare;
      hide SameOn;
      hide Data;
      hide Prefix;
      hide Header;
      hide Stands;
      hide FreshOn;
      hide IsFile;
      hide Edge;
      hide Took;
      hide Index;
      hide Length;
      StandsReader(lfs.dev.cfg, lfs.dev.disk, lfs.rcache.State(), chain, head, size);
      ListSize(lfs.dev.cfg, lfs.dev.disk, chain, head, size);
      var bs := lfs.dev.cfg.blockSize;
      done := false;
      if reading && off != bs {
        var (oindex, noff) := (Index(bs, pos).0, Index(bs, npos).1);
        if oindex == Index(bs, npos).0 && noff >= cache.off && noff < cache.off + cache.size {
          SameBlockEdge(bs, at, pos, off, npos);
          pos, off := npos, noff;
          done := true;
        }
      }
    }

    // to any position, with nothing pending
    method Jump(npos: nat)
      requires Valid() && Idle() && npos <= lfs.fileMax
      modifies this`pos
      ensures Valid() && pos == npos && Contents() == old(Contents())
    {
      hide Coherent;
      hide Spare;
      hide Data;
      hide Prefix;
      hide Header;
      hide SameOn;
      hide WriterAt;
      hide Stands;
      hide FreshOn;
      hide IsFile;
      hide Edge;
      hide Rest;
      StandsReader(lfs.dev.cfg, lfs.dev.disk, lfs.rcache.State(), chain, head, size);
      ListSize(lfs.dev.cfg, lfs.dev.disk, chain, head, size);
      pos := npos;
    }

    /** Moves the position; the contents do not change. A position outside of what files may
        hold, also one in front of the file, is refused. */
    method Seek(whence: Whence, dist: int) returns (r: Code)
      requires Valid() && -0x8000_0000 <= dist < 0x8000_0000
      modifies this, cache, lfs.dev, lfs.rcache, lfs.pcache, lfs.supply
      ensures var dest := (match whence case Set => 0 case Cur => old(pos) case End => old(|Contents()|)) + dist;
              && (r == Invalid <==> !(0 <= dest <= lfs.fileMax))
              && (r == Ok ==> pos == dest)
              && (r == NoSpace ==> dest != old(pos))
      ensures r == Ok || r == Invalid || (r == NoSpace && old(writing))
      ensures MIN_BLOCK <= lfs.dev.cfg.blockSize < U32
      ensures r == NoSpace ==> Took(old(lfs.supply.blocks), lfs.supply.blocks, lfs.dev.Sound(), old(FlushNeed()), false)
      ensures r == Ok || r == Invalid ==> Valid() && Contents() == old(Contents())
      ensures r == Invalid ==> pos == old(pos)
      ensures r != Ok ==> Untouched()
    {
      hide Coherent;
      hide Spare;
      hide Data;
      hide Prefix;
      hide Header;
      hide SameOn;
      hide WriterAt;
      hide Stands;
      hide FreshOn;
      hide IsFile;
      hide Edge;
      hide Index;
      hide View;
      hide Length;
      hide DiskOk;
      hide Rest;
      hide Took;
      RestSize(Listing(), pos);
      var npos := Sought(whence, dist);
      ghost var dest := (match whence case Set => 0 case Cur => pos case End => |Contents()|) + dist;
      assert npos > lfs.fileMax <==> !(0 <= dest <= lfs.fileMax);
      assert npos <= lfs.fileMax ==> npos == dest;
      if npos > lfs.fileMax {
        return Invalid;
      }
      if pos == npos {
        // the position is there already
        return Ok;
      }
      var done := Slide(npos);
      if done {
        return Ok;
      }
      r := Flush();
      if r != Ok {
        return r;
      }
      Jump(npos);
    }
  }

  datatype Whence = Set | Cur | End

  lemma RestSize(d: seq<byte>, p: nat)
    ensures |Rest(d, p)| == Max(|d| - p, 0)
  {}

  lemma RangeEnds(d: seq<byte>, p: nat, n: nat)
    ensures p <= |d| ==> p + |Range(d, p, n)| <= |d|
    ensures p > |d| ==> Range(d, p, n) == []
  {}

  lemma SameBlockEdge(bs: nat, n: nat, pos: nat, off: nat, npos: nat)
    requires MIN_BLOCK <= bs < U32 && pos < U32 && npos < U32 && Edge(bs, n, pos, off) && off != bs
    requires Index(bs, npos).0 == Index(bs, pos).0
    ensures Edge(bs, n, npos, Index(bs, npos).1)
  {
    hide Index;
    EdgeIndex(bs, n, pos, off);
    IndexEdge(bs, npos);
  }

  // what is left of the old list behind the data
  lemma SpliceIs(l: seq<byte>, c: seq<byte>, w: seq<byte>, p: nat, data: seq<byte>)
    requires |w| == p
    requires c == w + Rest(l, p) || (p <= |l| && c == l && w == l[..p]) || (p > |l| && c == l && w == l + Zeros(p - |l|))
    ensures Splice(c, p, data) == w + data + Rest(l, p + |data|)
    ensures data == [] && p <= |l| && w == l[..p] ==> Splice(l, p, data) == l
  {
    if p <= |l| && w == l[..p] { assert l == w + Rest(l, p); }
  }

  lemma ZerosStep(d: seq<byte>, n: nat)
    ensures d + Zeros(n) + [0] == d + Zeros(n + 1) && d + Zeros(0) == d
  {}

  lemma NullIsFresh(cfg: Config, disk: Disk, c: CacheState, chain: seq<int>)
    requires |c.buffer| == cfg.cacheSize && c.block == NULL_BLOCK
    ensures FreshOn(cfg, disk, c, chain)
  {}

  // the written list takes the place of the old one
  lemma NewStands(cfg: Config, disk: Disk, r: CacheState, c: CacheState, chain: seq<int>, written: seq<int>,
                  block: int, pos: nat, blocks: seq<int>)
    requires Stands(cfg, disk, r, written, block, pos) && Spare(disk, blocks, chain + written)
    requires |c.buffer| == cfg.cacheSize && c.block == NULL_BLOCK
    ensures IsFile(cfg.blockSize, disk, written, block, pos) && FreshOn(cfg, disk, c, written)
    ensures Spare(disk, blocks, written + [])
  {
    hide Listed;
    assert forall b :: b in written + [] ==> b in chain + written;
  }

  lemma OldStands(cfg: Config, d0: Disk, d1: Disk, chain: seq<int>, head: int, size: nat)
    requires IsFile(cfg.blockSize, d0, chain, head, size) && SameOn(d0, d1, chain)
    ensures MIN_BLOCK <= cfg.blockSize < U32
    ensures Data(cfg.blockSize, d1, chain, size) == Data(cfg.blockSize, d0, chain, size)
  {
    hide Linked;
    hide Index;
    DataSame(cfg.blockSize, d0, d1, chain, size);
  }

  lemma WriterPending(cfg: Config, disk: Disk, p: CacheState, r: CacheState, written: seq<int>, block: int, pos: nat, off: nat)
    requires WriterAt(cfg, disk, p, r, written, block, pos, off)
    ensures Pending(cfg, disk, p) && (p.block == NULL_BLOCK || p.block == block) && |r.buffer| == cfg.cacheSize && block in disk
  {
    LastIsListed(cfg.blockSize, View(cfg, disk, p), written);
  }

  lemma FlushStands(cfg: Config, d0: Disk, p0: CacheState, r0: CacheState, d1: Disk, r1: CacheState, chain: seq<int>,
                    head: int, size: nat, block: int)
    requires Stands(cfg, d0, r0, chain, head, size) && block !in chain && (p0.block == NULL_BLOCK || p0.block == block)
    requires OnlyBlock(d0, d1, p0.block) && |r1.buffer| == cfg.cacheSize
    requires if p0.block == NULL_BLOCK then d1 == d0 && r1 == r0 else Coherent(cfg, d1, r1)
    ensures Stands(cfg, d1, r1, chain, head, size) && SameOn(d0, d1, chain)
  {
    hide Coherent;
    hide Listed;
    if p0.block == NULL_BLOCK { SameOnItself(d0, chain); } else { ListedElsewhere(cfg.blockSize, d0, d1, chain, block); }
  }

  lemma FlushTear(cfg: Config, d0: Disk, p: CacheState, r0: CacheState, d1: Disk, written: seq<int>, block: int, pos: nat, off: nat)
    requires WriterAt(cfg, d0, p, r0, written, block, pos, off) && DiskOk(cfg, d1) && p.block != NULL_BLOCK && Torn(cfg, d0, d1, p)
    ensures block in d0 && Stuck(cfg, d0, p, d1, p, cfg.cacheSize, block, off)
  {
    hide Listed;
    hide FreshOn;
    hide Edge;
    WholeCaches(cfg);
    assert Filled(p, []) == p;
    LastIsListed(cfg.blockSize, View(cfg, d0, p), written);
    FillThenTear(cfg, d0, cfg.cacheSize, p, block, off, [], d1);
  }

  // after a flush the written part is a file on the disk
  lemma Flushed(cfg: Config, d0: Disk, p0: CacheState, r0: CacheState, d1: Disk, r1: CacheState, written: seq<int>,
                block: int, pos: nat, off: nat)
    requires WriterAt(cfg, d0, p0, r0, written, block, pos, off) && off > Header(|written| - 1) && DiskOk(cfg, d1)
    requires if p0.block == NULL_BLOCK then d1 == d0 && r1 == r0 else d1 == Stored(cfg, d0, p0) && Coherent(cfg, d1, r1)
    ensures Stands(cfg, d1, r1, written, block, pos)
    ensures Data(cfg.blockSize, d1, written, pos) == Prefix(cfg, d0, p0, written, pos)
  {
    hide Coherent;
    hide Seen;
    hide Listed;
    hide Data;
    hide Edge;
    hide Header;
    hide Length;
    hide Index;
    hide Stored;
    var bs, v0 := cfg.blockSize, View(cfg, d0, p0);
    EdgeIndex(bs, |written| - 1, pos, off);
    if p0.block == NULL_BLOCK {
      NoView(cfg, d0, p0);
    } else {
      LastIsListed(bs, v0, written);
      FlushWrites(cfg, d0, p0, EMPTY);
      StoredOk(cfg, d0, p0);
      NoView(cfg, d1, EMPTY);
      NoOverlay(cfg, d1, block);
      ViewsElsewhere(cfg, d0, p0, d1, EMPTY, block, Front(written));
      TailMoved(bs, v0, d1, written, block, pos, off, []);
      DataMoved(bs, v0, d1, written, block, pos, off, []);
      assert Front(written) + [block] == written;
      assert Data(bs, v0, written, pos) + [] == Data(bs, v0, written, pos);
      FreshEverywhere(cfg, d1, r1, written);
    }
  }

  function Between(d: seq<byte>, p: nat, q: nat): seq<byte>
    requires p <= q
  {
    d[Min(p, |d|)..Min(q, |d|)]
  }

  lemma RestSoFar(d: seq<byte>, p: nat, q: nat)
    requires p <= q
    ensures p == q ==> Between(d, p, q) == []
    ensures q < |d| ==> Between(d, p, q + 1) == Between(d, p, q) + [d[q]]
    ensures q >= |d| ==> Between(d, p, q) == Rest(d, p)
  {}

  lemma StandsReader(cfg: Config, disk: Disk, r: CacheState, chain: seq<int>, head: int, size: nat)
    requires Stands(cfg, disk, r, chain, head, size)
    ensures IsFile(cfg.blockSize, disk, chain, head, size) && FreshOn(cfg, disk, r, chain)
  {}

  lemma ListSize(cfg: Config, disk: Disk, chain: seq<int>, head: int, size: nat)
    requires IsFile(cfg.blockSize, disk, chain, head, size)
    ensures MIN_BLOCK <= cfg.blockSize < U32
  {}

  // another cache on the buffer of the read cache stays good for a list that stays
  lemma ReaderLater(cfg: Config, d0: Disk, d1: Disk, c0: CacheState, c1: CacheState, r1: CacheState, chain: seq<int>, head: int, size: nat)
    requires FreshOn(cfg, d0, c0, chain) && SameOn(d0, d1, chain) && Stands(cfg, d1, r1, chain, head, size)
    requires IsFile(cfg.blockSize, d0, chain, head, size)
    requires c1 == c0 || (c1.block == NULL_BLOCK && c1.buffer == r1.buffer)
    ensures IsFile(cfg.blockSize, d1, chain, head, size) && FreshOn(cfg, d1, c1, chain) && |c1.buffer| == cfg.cacheSize
    ensures Data(cfg.blockSize, d1, chain, size) == Data(cfg.blockSize, d0, chain, size)
  {
    hide Linked;
    hide Index;
    DataSame(cfg.blockSize, d0, d1, chain, size);
  }

  lemma CopiedLater(cfg: Config, d0: Disk, d1: Disk, r1: CacheState, chain: seq<int>, head: int, size: nat)
    requires IsFile(cfg.blockSize, d0, chain, head, size) && SameOn(d0, d1, chain) && Stands(cfg, d1, r1, chain, head, size)
    ensures IsFile(cfg.blockSize, d1, chain, head, size)
    ensures Data(cfg.blockSize, d1, chain, size) == Data(cfg.blockSize, d0, chain, size)
  {
    hide Linked;
    hide Index;
    DataSame(cfg.blockSize, d0, d1, chain, size);
  }

  lemma WithEmptyRead(cfg: Config, disk: Disk, p: CacheState, r: CacheState, r': CacheState,
                      written: seq<int>, block: int, pos: nat, off: nat, chain: seq<int>, head: int, size: nat)
    requires WriterAt(cfg, disk, p, r, written, block, pos, off) && Stands(cfg, disk, r, chain, head, size)
    requires r'.block == NULL_BLOCK && (|r'.buffer| == cfg.cacheSize || |r'.buffer| == |r.buffer|)
    ensures WriterAt(cfg, disk, p, r', written, block, pos, off) && Stands(cfg, disk, r', chain, head, size)
    ensures |r.buffer| == cfg.cacheSize
  {
    hide Seen;
    hide Listed;
    NullIsCoherent(cfg, disk, r');
  }

  // what is behind a position
  function Rest(d: seq<byte>, p: nat): seq<byte>
  {
    d[Min(p, |d|)..]
  }

  // a position in a block, and a range that stays within it
  lemma EdgeRoom(bs: nat, n: nat, pos: nat, off: nat)
    requires Edge(bs, n, pos, off)
    ensures off <= bs
  {}

  lemma EdgeRange(bs: nat, n: nat, pos: nat, off: nat, k: nat)
    requires Edge(bs, n, pos, off) && off + k <= bs
    ensures Edge(bs, n, pos + k, off + k)
  {}

  // reading within a block of the list through some cache
  lemma ReadsBlock(cfg: Config, disk: Disk, r: CacheState, chain: seq<int>, n: nat, off: nat, size: nat)
    requires Geometry(cfg) && DiskOk(cfg, disk) && Listed(cfg.blockSize, disk, chain) && n < |chain| && off + size <= cfg.blockSize
    requires Shaped(cfg, r, chain[n])
    ensures Underway(cfg, disk, EMPTY, chain[n], Reading(r, off, size, []))
    ensures |Finish(cfg, disk, EMPTY, cfg.blockSize, chain[n], Reading(r, off, size, [])).r.buffer| == cfg.cacheSize
    ensures |Finish(cfg, disk, EMPTY, cfg.blockSize, chain[n], Reading(r, off, size, [])).data| == size
  {
    hide Linked;
    FinishCopies(cfg, disk, EMPTY, cfg.blockSize, chain[n], Reading(r, off, size, []));
  }

  lemma FreshIsShaped(cfg: Config, disk: Disk, r: CacheState, chain: seq<int>, n: nat)
    requires FreshOn(cfg, disk, r, chain) && n < |chain| && Listed(cfg.blockSize, disk, chain)
    ensures Shaped(cfg, r, chain[n])
  {
    hide Linked;
  }

  // with a cache that is not stale it gives what the list holds
  lemma LoopsReads(cfg: Config, disk: Disk, r: CacheState, chain: seq<int>, n: nat, pos: nat, off: nat, k: nat, size: nat, r1: CacheState,
                   data: seq<byte>)
    requires Geometry(cfg) && MIN_BLOCK <= cfg.blockSize < U32 && size < U32 && DiskOk(cfg, disk) && Listed(cfg.blockSize, disk, chain) && n < |chain|
    requires FreshOn(cfg, disk, r, chain) && Edge(cfg.blockSize, n, pos, off) && off + k <= cfg.blockSize && pos + k <= size
    requires Loops(cfg, disk, Reading(r, off, k, []), chain[n], r1, data)
    ensures FreshOn(cfg, disk, r1, chain) && data == Data(cfg.blockSize, disk, chain, size)[pos..pos + k]
  {
    hide Finish;
    hide Linked;
    hide Edge;
    hide Index;
    FreshRead(cfg, disk, EMPTY, cfg.blockSize, chain[n], r, off, k);
    NoOverlay(cfg, disk, chain[n]);
    DataRange(cfg.blockSize, disk, chain, size, pos, n, off, k);
    assert [] + data == data;
  }

  lemma ReadCacheKept(cfg: Config, disk: Disk, r: CacheState, chain: seq<int>)
    requires |r.buffer| == cfg.cacheSize
    ensures Coherent(cfg, disk, r) ==> FreshOn(cfg, disk, r, chain)
  {}

  lemma WriterOffset(cfg: Config, disk: Disk, p: CacheState, r: CacheState, written: seq<int>, block: int, pos: nat, off: nat)
    requires WriterAt(cfg, disk, p, r, written, block, pos, off)
    ensures Header(|written| - 1) <= off <= cfg.blockSize
  {
    StartFromZero(cfg.blockSize, |written| - 1);
  }

  lemma WriterPlace(cfg: Config, disk: Disk, p: CacheState, r: CacheState, written: seq<int>, block: int, pos: nat, off: nat)
    requires WriterAt(cfg, disk, p, r, written, block, pos, off) && off > Header(|written| - 1)
    ensures MIN_BLOCK <= cfg.blockSize < U32 && pos < U32 && written != [] && off <= cfg.blockSize
    ensures |written| == Length(cfg.blockSize, pos)
    ensures off == cfg.blockSize ==> |written| == Index(cfg.blockSize, pos).0
    ensures pos + 1 < U32 ==> Length(cfg.blockSize, pos + 1) == |written| + if off < cfg.blockSize then 0 else 1
  {
    hide Linked;
    hide Index;
    hide Ready;
    EdgeIndex(cfg.blockSize, |written| - 1, pos, off);
    if off == cfg.blockSize { EdgeStart(cfg.blockSize, |written| - 1, pos, off); }
    if pos + 1 < U32 { LengthNext(cfg.blockSize, |written| - 1, pos, off); }
  }

  lemma FullAtEdge(cfg: Config, disk: Disk, p: CacheState, r: CacheState, written: seq<int>, block: int, pos: nat, off: nat)
    requires WriterAt(cfg, disk, p, r, written, block, pos, off) && off == cfg.blockSize
    ensures AtEdge(cfg.blockSize, pos)
  {
    hide Linked;
    hide Index;
    hide Ready;
    HeaderFits(|written| - 1);
    EdgeIndex(cfg.blockSize, |written| - 1, pos, off);
  }

  lemma Joined(w: seq<byte>, data: seq<byte>, i: nat, n: nat)
    requires i + n <= |data|
    ensures w + data[..i] + data[i..][..n] == w + data[..i + n]
    ensures i == |data| ==> w + data[..i] == w + data
    ensures w + data[..0] == w
  {
    assert data[..i] + data[i..][..n] == data[..i + n];
  }

  lemma MarkedTwice(cfg: Config, r0: CacheState, r1: CacheState, r2: CacheState)
    requires Marked(cfg, r0, r1) && Marked(cfg, r1, r2)
    ensures Marked(cfg, r0, r2)
  {}

  lemma StandsFresh(cfg: Config, disk: Disk, r: CacheState, chain: seq<int>, head: int, size: nat, list: seq<int>)
    requires Stands(cfg, disk, r, chain, head, size) && FreshOn(cfg, disk, r, list)
    ensures FreshOn(cfg, disk, r, chain + list)
  {}

  lemma SpareTaken(disk: Disk, blocks: seq<int>, lists: seq<int>, used: nat)
    requires Spare(disk, blocks, lists) && used <= |blocks|
    ensures forall b :: b in blocks[..used] ==> b !in lists
  {}

  lemma RenewedLength(bs: nat, list: seq<int>, pos: nat, block: int)
    requires MIN_BLOCK <= bs < U32 && pos < U32 && |list| == Length(bs, pos)
    ensures |Renewed(bs, list, pos, block)| == Index(bs, pos).0 + 1
  {
    hide Index;
    EndOf(bs, pos);
  }

  lemma SpareBegun(cfg: Config, d0: Disk, d1: Disk, blocks: seq<int>, lists: seq<int>, chain: seq<int>, list: seq<int>, pos: nat, used: nat)
    requires Spare(d0, blocks, lists) && d1.Keys == d0.Keys && 0 < used <= |blocks|
    requires (forall b :: b in chain ==> b in lists) && (forall b :: b in list ==> b in lists)
    requires MIN_BLOCK <= cfg.blockSize < U32 && pos < U32 && |list| == Length(cfg.blockSize, pos)
    ensures Spare(d1, blocks[used..], chain + Renewed(cfg.blockSize, list, pos, blocks[used - 1]))
    ensures blocks[used - 1] !in lists
  {
    hide Index;
    SpareLater(d0, d1, blocks, lists, used, chain + Renewed(cfg.blockSize, list, pos, blocks[used - 1]));
  }

  lemma Begun(cfg: Config, d0: Disk, chain: seq<int>, lists: seq<int>, list: seq<int>, from: int, pos: nat,
              d1: Disk, p1: CacheState, r1: CacheState, blocks: seq<int>, used: nat, block: int, off: nat)
    requires Geometry(cfg) && DiskOk(cfg, d1) && d1.Keys == d0.Keys && IsFile(cfg.blockSize, d0, list, from, pos)
    requires Spare(d0, blocks, lists) && 0 < used <= |blocks| && block == blocks[used - 1]
    requires (forall b :: b in chain ==> b in lists) && (forall b :: b in list ==> b in lists)
    requires Ready(cfg, d1, cfg.cacheSize, p1, block, off) && off == Index(cfg.blockSize, pos).1
    requires Listed(cfg.blockSize, View(cfg, d1, p1), Renewed(cfg.blockSize, list, pos, block))
    requires FreshOn(cfg, d1, r1, list) && (off > 0 && p1.block == NULL_BLOCK ==> Coherent(cfg, d1, r1))
    ensures Spare(d1, blocks[used..], chain + Renewed(cfg.blockSize, list, pos, block)) && block !in chain
    ensures WriterAt(cfg, d1, p1, r1, Renewed(cfg.blockSize, list, pos, block), block, pos, off) && off < cfg.blockSize
  {
    hide Index;
    hide Listed;
    hide Coherent;
    hide WriterAt;
    hide Ready;
    hide FreshOn;
    SpareBegun(cfg, d0, d1, blocks, lists, chain, list, pos, used);
    WriterBegins(cfg, d0, list, from, pos, d1, p1, r1, block, off);
  }

  lemma EmptyIsFile(cfg: Config, disk: Disk, r: CacheState, head: int)
    requires MIN_BLOCK <= cfg.blockSize < U32 && |r.buffer| == cfg.cacheSize
    ensures IsFile(cfg.blockSize, disk, [], head, 0) && FreshOn(cfg, disk, r, [])
  {}

  lemma NoView(cfg: Config, disk: Disk, p: CacheState)
    requires DiskOk(cfg, disk)
    ensures p.block == NULL_BLOCK ==> View(cfg, disk, p) == disk
  {}

  /** When a block fills, the cache is empty, and the written part is a list on the disk. */
  lemma WriterIsFile(cfg: Config, disk: Disk, p: CacheState, r: CacheState, written: seq<int>, block: int, pos: nat, off: nat)
    requires WriterAt(cfg, disk, p, r, written, block, pos, off) && off == cfg.blockSize
    ensures p.block == NULL_BLOCK && IsFile(cfg.blockSize, disk, written, block, pos) && FreshOn(cfg, disk, r, written)
    ensures Data(cfg.blockSize, disk, written, pos) == Prefix(cfg, disk, p, written, pos)
  {
    hide Seen;
    hide Linked;
    hide Index;
    EmptyAtEnd(cfg, disk, p, block);
    NoView(cfg, disk, p);
    HeaderFits(|written| - 1);
    EdgeIndex(cfg.blockSize, |written| - 1, pos, off);
  }

  lemma EmptyAtEnd(cfg: Config, disk: Disk, p: CacheState, block: int)
    requires Geometry(cfg) && Ready(cfg, disk, cfg.cacheSize, p, block, cfg.blockSize)
    ensures p.block == NULL_BLOCK
  {
    if p.block != NULL_BLOCK { MultipleGap(p.off, cfg.blockSize, cfg.cacheSize); }
  }

  lemma SameOnItself(d: Disk, chain: seq<int>)
    ensures SameOn(d, d, chain)
  {}

  lemma MarkedItself(cfg: Config, r: CacheState)
    ensures Marked(cfg, r, r)
  {}

  lemma KeptMarked(cfg: Config, r: CacheState, d0: Disk, r0: CacheState, d1: Disk, r1: CacheState, r2: CacheState)
    requires Marked(cfg, r, r0) && Kept(cfg, d0, r0, d1, r1) && Marked(cfg, r1, r2)
    ensures Marked(cfg, r, r2)
  {}

  lemma SpareKept(d0: Disk, d1: Disk, blocks: seq<int>, lists: seq<int>)
    requires Spare(d0, blocks, lists) && d1.Keys == d0.Keys
    ensures Spare(d1, blocks, lists)
  {}

  lemma BlockKnown(cfg: Config, disk: Disk, p: CacheState, r: CacheState, written: seq<int>, block: int, pos: nat, off: nat)
    requires WriterAt(cfg, disk, p, r, written, block, pos, off)
    ensures block in disk && |r.buffer| == cfg.cacheSize && Ready(cfg, disk, cfg.cacheSize, p, block, off)
  {
    LastIsListed(cfg.blockSize, View(cfg, disk, p), written);
  }

  lemma SpareIs(disk: Disk, blocks: seq<int>, lists: seq<int>)
    requires Spare(disk, blocks, lists)
    ensures forall b :: b in blocks ==> b in disk && 0 <= b < U32 && b !in lists
  {}

  lemma FreshParts(cfg: Config, disk: Disk, r: CacheState, chain: seq<int>, chain': seq<int>)
    requires FreshOn(cfg, disk, r, chain + chain')
    ensures FreshOn(cfg, disk, r, chain) && FreshOn(cfg, disk, r, chain')
  {}

  lemma FreshEverywhere(cfg: Config, disk: Disk, r: CacheState, chain: seq<int>)
    requires Coherent(cfg, disk, r)
    ensures FreshOn(cfg, disk, r, chain)
  {}

  // the window left by a failure can be read through
  lemma StuckWindow(cfg: Config, d0: Disk, p0: CacheState, r0: CacheState, d1: Disk, p1: CacheState,
                    written: seq<int>, block: int, pos: nat, off: nat)
    requires WriterAt(cfg, d0, p0, r0, written, block, pos, off) && DiskOk(cfg, d1) && OnlyBlock(d0, d1, block) && block in d0
    requires Stuck(cfg, d0, p0, d1, p1, cfg.cacheSize, block, off)
    ensures Pending(cfg, d1, p1) && ReadAligned(cfg, p1) && block in written && off <= cfg.blockSize && written != []
  {
    hide Coherent;
    hide Seen;
    hide Listed;
    MultipleTransitive(p1.off, cfg.cacheSize, cfg.readSize);
  }
}
