/** Programming through a cache: contiguous bytes are gathered in the program cache,
    flushed when it fills, and checked on the disk if asked for. */
module BlockProg {
  import opened Words
  import opened Arith
  import opened BlockDevice

  datatype Code = Ok | Corrupt | NoSpace | TooBig | Invalid

  // ---------------------------------------------------------------- comparing without a trace

  /** A read cache of at most eight bytes does not show that it was used to compare a whole
      window: it is dropped, and then it is bypassed. */
  predicate Dropped(cfg: Config, r0: CacheState, r1: CacheState)
  {
    cfg.cacheSize <= 8 ==> r1 == r0.(block := NULL_BLOCK)
  }

  // a whole window is compared at once, and the read cache is empty
  predicate ComparesWindow(cfg: Config, p: CacheState, r: CacheState, hint: nat, off: nat, size: nat)
  {
    p == EMPTY && r.block == NULL_BLOCK && size == hint == cfg.cacheSize && 0 < cfg.cacheSize <= 8 && Multiple(off, cfg.cacheSize)
  }

  lemma BypassWindow(cfg: Config, disk: Disk, block: int, off: nat, r: CacheState, left: CacheState)
    requires Geometry(cfg) && Left(cfg, disk, EMPTY, cfg.cacheSize, block, r, off, cfg.cacheSize, left)
    requires r.block == NULL_BLOCK && Multiple(off, cfg.cacheSize)
    ensures left == r
  {
    MultipleTransitive(off, cfg.cacheSize, cfg.readSize);
    Bypass(cfg, disk, cfg.cacheSize, block, r, off, cfg.cacheSize, left);
  }

  // ---------------------------------------------------------------- comparing with the disk

  /** The sign of memcmp. */
  function Order(a: seq<byte>, b: seq<byte>): (r: int)
    requires |a| == |b|
    ensures -1 <= r <= 1 && (r == 0 <==> a == b)
  {
    if a == [] then 0
    else if a[0] < b[0] then -1
    else if a[0] > b[0] then 1
    else
      assert a == [a[0]] + a[1..] && b == [b[0]] + b[1..];
      Order(a[1..], b[1..])
  }

  /** The first byte that differs decides, by its value. */
  lemma {:induction false} OrderIs(a: seq<byte>, b: seq<byte>, k: nat)
    requires |a| == |b| && k < |a| && a[..k] == b[..k] && a[k] != b[k]
    ensures Order(a, b) == if (a[k] as nat) < b[k] as nat then -1 else 1
  {
    if k == 0 {
      ByteOrder(a[0], b[0]);
    } else {
      assert a[..k][0] == a[0] && b[..k][0] == b[0];
      assert a[..k][1..] == a[1..][..k - 1] && b[..k][1..] == b[1..][..k - 1];
      OrderIs(a[1..], b[1..], k - 1);
    }
  }

  lemma ByteOrder(x: byte, y: byte)
    ensures x < y <==> (x as nat) < y as nat
  {}

  lemma {:induction false} OrderSplit(a: seq<byte>, b: seq<byte>, i: nat)
    requires |a| == |b| && i <= |a|
    ensures Order(a, b) == if a[..i] != b[..i] then Order(a[..i], b[..i]) else Order(a[i..], b[i..])
  {
    if i > 0 {
      assert a[..i][0] == a[0] && b[..i][0] == b[0];
      assert a[..i] == [a[0]] + a[1..][..i - 1] && b[..i] == [b[0]] + b[1..][..i - 1];
      if a[0] == b[0] {
        OrderSplit(a[1..], b[1..], i - 1);
        assert a[..i][1..] == a[1..][..i - 1] && b[..i][1..] == b[1..][..i - 1];
        assert a[1..][i - 1..] == a[i..] && b[1..][i - 1..] == b[i..];
      }
    }
  }

  /** Compares eight bytes at a time, and finds the order of the whole. */
  method BdCmp(dev: Device, pcache: Cache?, rcache: Cache, hint: nat, block: int, off: nat, data: seq<byte>)
    returns (r: Option<int>)
    requires dev.Valid() && Coherent(dev.cfg, dev.disk, rcache.State()) && hint >= |data| && pcache != rcache
    requires ReadAligned(dev.cfg, StateOf(pcache)) && block in dev.disk && off + |data| <= dev.cfg.blockSize
    modifies rcache
    ensures Coherent(dev.cfg, dev.disk, rcache.State())
    ensures rcache.State() == old(rcache.State()) || rcache.block == block
    ensures pcache == null && |data| > 8 ==> rcache.block == block
    ensures old(ComparesWindow(dev.cfg, StateOf(pcache), rcache.State(), hint, off, |data|)) ==> rcache.State() == old(rcache.State())
    ensures r == Some(Order(Seen(dev.cfg, dev.disk, StateOf(pcache), block)[off..off + |data|], data))
  {
    hide Seen;
    hide Coherent;
    hide Order;
    hide Left;
    hide Multiple;
    var i: nat := 0;
    ghost var p, r0 := StateOf(pcache), rcache.State();
    ghost var all := Seen(dev.cfg, dev.disk, p, block);
    ghost var v := all[off..off + |data|];
    while i < |data|
      invariant i <= |data| && StateOf(pcache) == p && Coherent(dev.cfg, dev.disk, rcache.State())
      invariant v[..i] == data[..i]
      invariant rcache.State() == old(rcache.State()) || rcache.block == block
      invariant i > 0 && pcache == null && |data| > 8 ==> rcache.block == block
      invariant ComparesWindow(dev.cfg, p, r0, hint, off, |data|) ==> rcache.State() == r0 && (i == 0 || i == |data|)
    {
      var diff: nat := Min(|data| - i, 8);
      CoherentSize(dev.cfg, dev.disk, rcache.State());
      var dat := BdRead(dev, pcache, rcache, hint - i, block, off + i, diff);
      if dat == None {
        return None;
      }
      if ComparesWindow(dev.cfg, p, r0, hint, off, |data|) { BypassWindow(dev.cfg, dev.disk, block, off, r0, rcache.State()); }
      SubSlice(all, off, |data|, i, diff);
      ChunkOrder(v, data, i, diff, dat.value);
      var res := Order(dat.value, data[i..i + diff]);
      if res != 0 {
        return Some(res);
      }
      i := i + diff;
    }
    OrderOfEqual(v, data);
    return Some(0);
  }

  lemma SubSlice(s: seq<byte>, off: nat, n: nat, i: nat, m: nat)
    requires off + n <= |s| && i + m <= n
    ensures s[off..off + n][i..i + m] == s[off + i..off + i + m]
  {
    var a, b := s[off..off + n][i..i + m], s[off + i..off + i + m];
    assert |a| == |b| && forall j :: 0 <= j < m ==> a[j] == b[j];
  }

  lemma OrderOfEqual(v: seq<byte>, data: seq<byte>)
    requires |v| == |data| && v[..|data|] == data[..|data|]
    ensures Order(v, data) == 0
  {}

  lemma ChunkOrder(v: seq<byte>, data: seq<byte>, i: nat, n: nat, chunk: seq<byte>)
    requires |v| == |data| && i + n <= |data| && v[..i] == data[..i] && chunk == v[i..i + n]
    ensures var o := Order(chunk, data[i..i + n]);
            if o == 0 then v[..i + n] == data[..i + n] else Order(v, data) == o
  {
    OrderSplit(v, data, i);
    OrderSplit(v[i..], data[i..], n);
    assert v[i..][..n] == chunk && data[i..][..n] == data[i..i + n];
    assert v[..i + n] == v[..i] + chunk && data[..i + n] == data[..i] + data[i..i + n];
  }

  /** Comparing a full window with a dropped read cache bypasses the read cache, and leaves no
      trace in it, exactly if the window is no longer than what is compared at a time. */
  lemma CompareBypassesIff(cfg: Config, r: CacheState, block: int, off: nat)
    requires Geometry(cfg) && r.block == NULL_BLOCK != block && Multiple(off, cfg.cacheSize)
    ensures NextTurn(cfg, EMPTY, r, cfg.cacheSize, block, off, Min(cfg.cacheSize, 8)).Direct? <==> cfg.cacheSize <= 8
  {
    MultipleTransitive(off, cfg.cacheSize, cfg.readSize);
    MultipleGap(0, cfg.cacheSize, cfg.readSize);
  }

  // ---------------------------------------------------------------- flushing

  /** The program cache holds nothing, or a window of a block that starts on a program
      unit. */
  predicate Pending(cfg: Config, disk: Disk, p: CacheState)
    requires cfg.progSize > 0
  {
    |p.buffer| == cfg.cacheSize
    && (p.block != NULL_BLOCK ==> CacheOk(cfg, p) && Multiple(p.off, cfg.progSize) && p.block in disk)
  }

  // bytes a flush programs
  function Padded(cfg: Config, p: CacheState): (n: nat)
    requires cfg.progSize > 0
  {
    AlignUp(p.size, cfg.progSize)
  }

  lemma PaddedFits(cfg: Config, disk: Disk, p: CacheState)
    requires Geometry(cfg) && Pending(cfg, disk, p) && p.block != NULL_BLOCK
    ensures p.size <= Padded(cfg, p) <= cfg.cacheSize && p.off + Padded(cfg, p) <= cfg.blockSize
  {
    var n := Padded(cfg, p);
    var ps := cfg.progSize;
    if n > cfg.cacheSize { MultipleGap(cfg.cacheSize, n, ps); }
    MultipleSum(p.off, n, ps);
    MultipleTransitive(cfg.blockSize, cfg.cacheSize, ps);
    if p.off + n > cfg.blockSize { MultipleGap(cfg.blockSize, p.off + n, ps); }
  }

  // a whole window of the cache's own size
  predicate FullWindow(cfg: Config, p: CacheState)
  {
    p.block != NULL_BLOCK && p.size == cfg.cacheSize && cfg.cacheSize > 0 && Multiple(p.off, cfg.cacheSize)
  }

  // what a flush programs
  function Window(cfg: Config, disk: Disk, p: CacheState): (s: seq<byte>)
    requires Geometry(cfg) && Pending(cfg, disk, p) && p.block != NULL_BLOCK
    ensures |s| == Padded(cfg, p) && p.off + |s| <= cfg.blockSize
  {
    PaddedFits(cfg, disk, p);
    p.buffer[..Padded(cfg, p)]
  }

  /** The disk after the window of the program cache was stored faithfully. */
  function Stored(cfg: Config, disk: Disk, p: CacheState): Disk
    requires Geometry(cfg) && DiskOk(cfg, disk) && Pending(cfg, disk, p) && p.block != NULL_BLOCK
  {
    disk[p.block := Patched(disk[p.block], p.off, Window(cfg, disk, p))]
  }

  // only one block may differ
  predicate OnlyBlock(d0: Disk, d1: Disk, block: int)
  {
    d1.Keys == d0.Keys && forall b | b in d0 && b != block :: d1[b] == d0[b]
  }

  /** Whatever the disk made of the window, it is the window that changed. */
  predicate Torn(cfg: Config, d0: Disk, d1: Disk, p: CacheState)
  {
    && OnlyBlock(d0, d1, p.block) && p.block in d0
    && |d1[p.block]| == |d0[p.block]| && p.off <= |d0[p.block]| && d1[p.block][..p.off] == d0[p.block][..p.off]
  }

  /** Writes out the program cache. With validation, success means the bytes are on the
      disk, whatever the disk does; without, only a sound disk gives that. */
  method BdFlush(dev: Device, pcache: Cache, rcache: Cache, validate: bool) returns (r: Code)
    requires dev.Valid() && Pending(dev.cfg, dev.disk, pcache.State()) && pcache != rcache
    requires |rcache.buffer| == dev.cfg.cacheSize
    modifies dev, pcache, rcache
    ensures dev.Valid() && OnlyBlock(old(dev.disk), dev.disk, old(pcache.block))
    ensures |pcache.buffer| == dev.cfg.cacheSize && |rcache.buffer| == dev.cfg.cacheSize
    ensures old(pcache.block) == NULL_BLOCK ==>
              r == Ok && dev.disk == old(dev.disk) && pcache.State() == old(pcache.State()) && rcache.State() == old(rcache.State())
    ensures old(pcache.block) != NULL_BLOCK && (validate || dev.Sound()) ==>
              (r == Ok <==> dev.disk == Stored(dev.cfg, old(dev.disk), old(pcache.State())))
    ensures r == Ok || r == Corrupt
    ensures r == Ok ==> pcache.block == NULL_BLOCK
    ensures dev.Sound() || !validate ==> r == Ok
    ensures r == Corrupt ==> old(pcache.block) != NULL_BLOCK && pcache.State() == old(pcache.State())
                             && Torn(dev.cfg, old(dev.disk), dev.disk, pcache.State())
    ensures if validate && old(pcache.block) != NULL_BLOCK
            then Coherent(dev.cfg, dev.disk, rcache.State()) && (old(Padded(dev.cfg, pcache.State())) > 8 ==> rcache.block != NULL_BLOCK)
            else rcache.State() == old(rcache.State())
    ensures validate && old(FullWindow(dev.cfg, pcache.State())) ==> Dropped(dev.cfg, old(rcache.State()), rcache.State())
  {
    hide Coherent;
    hide Stored;
    hide Multiple;
    hide Dropped;
    if pcache.block != NULL_BLOCK {
      r := ProgWindow(dev, pcache, rcache, validate);
      if r != Ok {
        return r;
      }
      pcache.Zero(dev.cfg);
    }
    return Ok;
  }

  // programs the window, and reads it back if asked for
  method ProgWindow(dev: Device, pcache: Cache, rcache: Cache, validate: bool) returns (r: Code)
    requires dev.Valid() && Pending(dev.cfg, dev.disk, pcache.State()) && pcache != rcache
    requires |rcache.buffer| == dev.cfg.cacheSize && pcache.block != NULL_BLOCK
    modifies dev, rcache
    ensures dev.Valid() && OnlyBlock(old(dev.disk), dev.disk, pcache.block) && |rcache.buffer| == dev.cfg.cacheSize
    ensures validate || dev.Sound() ==> (r == Ok <==> dev.disk == Stored(dev.cfg, old(dev.disk), pcache.State()))
    ensures r == Ok || r == Corrupt
    ensures dev.Sound() || !validate ==> r == Ok
    ensures Torn(dev.cfg, old(dev.disk), dev.disk, pcache.State())
    ensures if validate then Coherent(dev.cfg, dev.disk, rcache.State()) && (Padded(dev.cfg, pcache.State()) > 8 ==> rcache.block != NULL_BLOCK)
            else rcache.State() == old(rcache.State())
    ensures validate && FullWindow(dev.cfg, pcache.State()) ==> Dropped(dev.cfg, old(rcache.State()), rcache.State())
  {
    hide Coherent;
    hide Stored;
    hide Order;
    hide Padded;
    hide Multiple;
    ghost var d0 := dev.disk;
    if FullWindow(dev.cfg, pcache.State()) { FullIsPadded(dev.cfg, pcache.State()); }
    var diff := Padded(dev.cfg, pcache.State());
    PaddedFits(dev.cfg, dev.disk, pcache.State());
    dev.Prog(pcache.block, pcache.off, pcache.buffer[..diff]);
    FaithfulIff(dev.cfg, d0, pcache.State(), dev.disk);
    if validate {
      rcache.Drop();
      NullIsCoherent(dev.cfg, dev.disk, rcache.State());
      var res := BdCmp(dev, null, rcache, diff, pcache.block, pcache.off, pcache.buffer[..diff]);
      NoOverlay(dev.cfg, dev.disk, pcache.block);
      CoherentSize(dev.cfg, dev.disk, rcache.State());
      if res != Some(0) {
        return Corrupt;
      }
    }
    return Ok;
  }

  lemma CoherentSize(cfg: Config, disk: Disk, r: CacheState)
    requires Coherent(cfg, disk, r)
    ensures |r.buffer| == cfg.cacheSize
  {}

  lemma NoOverlay(cfg: Config, disk: Disk, block: int)
    requires DiskOk(cfg, disk) && block in disk
    ensures Seen(cfg, disk, EMPTY, block) == disk[block]
  {}

  lemma NullIsCoherent(cfg: Config, disk: Disk, r: CacheState)
    requires |r.buffer| == cfg.cacheSize && r.block == NULL_BLOCK
    ensures Coherent(cfg, disk, r)
  {}

  lemma FaithfulIff(cfg: Config, d0: Disk, p: CacheState, d1: Disk)
    requires Geometry(cfg) && DiskOk(cfg, d0) && DiskOk(cfg, d1) && Pending(cfg, d0, p) && p.block != NULL_BLOCK && d1.Keys == d0.Keys
    requires p.off + Padded(cfg, p) <= cfg.blockSize && Padded(cfg, p) <= cfg.cacheSize
    requires d1 == d0[p.block := Patched(d0[p.block], p.off, d1[p.block][p.off..p.off + Padded(cfg, p)])]
    ensures d1[p.block][p.off..p.off + Padded(cfg, p)] == p.buffer[..Padded(cfg, p)] <==> d1 == Stored(cfg, d0, p)
  {
    hide Padded;
    var n := Padded(cfg, p);
    if d1 == Stored(cfg, d0, p) {
      assert d1[p.block] == Patched(d0[p.block], p.off, p.buffer[..n]);
    }
  }

  method BdSync(dev: Device, pcache: Cache, rcache: Cache, validate: bool) returns (r: Code)
    requires dev.Valid() && Pending(dev.cfg, dev.disk, pcache.State()) && pcache != rcache
    requires |rcache.buffer| == dev.cfg.cacheSize
    modifies dev, pcache, rcache
    ensures dev.Valid() && OnlyBlock(old(dev.disk), dev.disk, old(pcache.block))
    ensures |pcache.buffer| == dev.cfg.cacheSize && Coherent(dev.cfg, dev.disk, rcache.State())
    ensures old(pcache.block) == NULL_BLOCK ==>
              r == Ok && dev.disk == old(dev.disk) && pcache.State() == old(pcache.State())
    ensures old(pcache.block) != NULL_BLOCK && (validate || dev.Sound()) ==>
              (r == Ok <==> dev.disk == Stored(dev.cfg, old(dev.disk), old(pcache.State())))
    ensures r == Ok || r == Corrupt
    ensures r == Ok ==> pcache.block == NULL_BLOCK
    ensures dev.Sound() || !validate ==> r == Ok
  {
    rcache.Drop();
    r := BdFlush(dev, pcache, rcache, validate);
  }

  // ---------------------------------------------------------------- stale read caches

  // where the window of r meets the bytes s at o, the block already holds them
  predicate Agrees(blk: seq<byte>, s: seq<byte>, o: nat, r: CacheState)
  {
    forall i :: Max(r.off, o) <= i < Min(Min(r.off + r.size, o + |s|), |blk|) ==> blk[i] == s[i - o]
  }

  /** Without validation the read cache stays coherent in exactly one case: it has another
      block, or the disk already held the programmed bytes its window meets. */
  lemma StaleIff(cfg: Config, disk: Disk, p: CacheState, r: CacheState)
    requires Geometry(cfg) && DiskOk(cfg, disk) && Pending(cfg, disk, p) && p.block != NULL_BLOCK && Coherent(cfg, disk, r)
    ensures Coherent(cfg, Stored(cfg, disk, p), r) <==>
              r.block != p.block || Agrees(disk[p.block], Window(cfg, disk, p), p.off, r)
  {
    hide Padded;
    hide Multiple;
    PaddedFits(cfg, disk, p);
    if r.block == p.block { StaleWindow(disk[p.block], Window(cfg, disk, p), p.off, r.off, r.size, r); }
  }

  lemma StaleWindow(blk: seq<byte>, s: seq<byte>, o: nat, from: nat, n: nat, r: CacheState)
    requires o + |s| <= |blk| && from + n <= |blk| && r.off == from && r.size == n
    ensures Patched(blk, o, s)[from..from + n] == blk[from..from + n] <==> Agrees(blk, s, o, r)
  {
    var t := Patched(blk, o, s);
    forall i | o <= i < o + |s| ensures t[i] == s[i - o] { assert t[o..o + |s|][i - o] == t[i]; }
    if t[from..from + n] == blk[from..from + n] {
      forall i | Max(from, o) <= i < Min(from + n, o + |s|) ensures blk[i] == s[i - o] {
        assert t[from..from + n][i - from] == blk[from..from + n][i - from];
      }
    }
  }

  // ---------------------------------------------------------------- programming

  /** Contiguous programming may go on at off: the cache is empty and off starts a unit, or
      the cache has room and ends at off. */
  predicate Ready(cfg: Config, disk: Disk, u: nat, p: CacheState, block: int, off: nat)
    requires cfg.progSize > 0 && u > 0
  {
    && Pending(cfg, disk, p) && off <= cfg.blockSize
    && if p.block == NULL_BLOCK then Multiple(off, u)
       else p.block == block && Multiple(p.off, u) && p.size < cfg.cacheSize && off == p.off + p.size && p.off < cfg.blockSize
  }

  /** Windows start on units of this size. */
  predicate Unit(cfg: Config, u: nat)
    requires cfg.progSize > 0
  {
    u > 0 && Multiple(u, cfg.progSize) && Multiple(cfg.cacheSize, u)
  }

  /** data was appended to a block as it is seen through the cache. */
  predicate Wrote(v0: seq<byte>, v1: seq<byte>, off: nat, data: seq<byte>)
  {
    off + |data| <= |v0| == |v1| && v1[..off + |data|] == v0[..off] + data
  }

  lemma WroteMore(v0: seq<byte>, v1: seq<byte>, v2: seq<byte>, off: nat, d: seq<byte>, e: seq<byte>)
    requires Wrote(v0, v1, off, d) && Wrote(v1, v2, off + |d|, e)
    ensures Wrote(v0, v2, off, d + e)
  {
    assert v0[..off] + d + e == v0[..off] + (d + e);
  }

  // the next bytes go into the buffer
  function Filled(p: CacheState, piece: seq<byte>): CacheState
    requires p.size + |piece| <= |p.buffer|
  {
    p.(size := p.size + |piece|, buffer := Patched(p.buffer, p.size, piece))
  }

  lemma FillWrites(cfg: Config, disk: Disk, u: nat, p: CacheState, block: int, off: nat, piece: seq<byte>)
    requires Geometry(cfg) && DiskOk(cfg, disk) && Unit(cfg, u) && Ready(cfg, disk, u, p, block, off) && p.block == block != NULL_BLOCK
    requires off + |piece| <= cfg.blockSize && p.size + |piece| <= cfg.cacheSize
    ensures Pending(cfg, disk, Filled(p, piece))
    ensures Wrote(Seen(cfg, disk, p, block), Seen(cfg, disk, Filled(p, piece), block), off, piece)
  {
    var q := Filled(p, piece);
    assert q.buffer[..q.size] == p.buffer[..p.size] + piece;
  }

  lemma FlushWrites(cfg: Config, disk: Disk, p: CacheState, e: CacheState)
    requires Geometry(cfg) && DiskOk(cfg, disk) && Pending(cfg, disk, p) && p.block != NULL_BLOCK && e.block == NULL_BLOCK
    requires DiskOk(cfg, Stored(cfg, disk, p))
    ensures Wrote(Seen(cfg, disk, p, p.block), Seen(cfg, Stored(cfg, disk, p), e, p.block), p.off + p.size, [])
  {
    hide Padded;
    PaddedFits(cfg, disk, p);
    var blk, n := disk[p.block], Padded(cfg, p);
    var s := Patched(blk, p.off, p.buffer[..n]);
    assert s[..p.off + p.size] == blk[..p.off] + p.buffer[..p.size] by {
      assert s[..p.off + p.size] == s[..p.off] + s[p.off..p.off + n][..p.size];
    }
  }

  // a window that was just opened, or a flushed one, shows the disk
  lemma EmptyWindow(cfg: Config, disk: Disk, p: CacheState, block: int)
    requires DiskOk(cfg, disk) && block in disk && (p.block == NULL_BLOCK || (CacheOk(cfg, p) && p.size == 0))
    ensures Seen(cfg, disk, p, block) == disk[block]
  {
    if block == p.block { assert Overlay(disk[block], p) == disk[block]; }
  }

  lemma OpensAt(cfg: Config, disk: Disk, u: nat, p: CacheState, block: int, off: nat)
    requires Geometry(cfg) && Unit(cfg, u) && Ready(cfg, disk, u, p, block, off) && p.block == NULL_BLOCK
    requires block in disk && block != NULL_BLOCK && off < cfg.blockSize
    ensures AlignDown(off, cfg.progSize) == off
    ensures Ready(cfg, disk, u, p.(block := block, off := off, size := 0), block, off)
  {
    MultipleTransitive(off, u, cfg.progSize);
    AlignDownIs(off, cfg.progSize, off);
  }

  // a window that fills up ends on a unit
  lemma FullEndsOnUnit(cfg: Config, disk: Disk, u: nat, p: CacheState)
    requires Geometry(cfg) && Unit(cfg, u) && Pending(cfg, disk, p) && p.block != NULL_BLOCK && Multiple(p.off, u) && p.size == cfg.cacheSize
    ensures Multiple(p.off + p.size, u)
  {
    MultipleSum(p.off, p.size, u);
  }

  lemma FillThenFlush(cfg: Config, disk: Disk, u: nat, p: CacheState, block: int, off: nat, piece: seq<byte>, e: CacheState)
    requires Geometry(cfg) && DiskOk(cfg, disk) && Unit(cfg, u) && Ready(cfg, disk, u, p, block, off) && p.block == block != NULL_BLOCK
    requires off + |piece| <= cfg.blockSize && p.size + |piece| <= cfg.cacheSize && e.block == NULL_BLOCK
    requires Pending(cfg, disk, Filled(p, piece))
    ensures Wrote(Seen(cfg, disk, p, block), Seen(cfg, Stored(cfg, disk, Filled(p, piece)), e, block), off, piece)
  {
    hide Seen;
    hide Stored;
    hide Wrote;
    hide Window;
    var q := Filled(p, piece);
    var d := Stored(cfg, disk, q);
    StoredOk(cfg, disk, q);
    FillWrites(cfg, disk, u, p, block, off, piece);
    FlushWrites(cfg, disk, q, e);
    WroteMore(Seen(cfg, disk, p, block), Seen(cfg, disk, q, block), Seen(cfg, d, e, block), off, piece, []);
    assert piece + [] == piece;
  }

  lemma StoredOk(cfg: Config, disk: Disk, p: CacheState)
    requires Geometry(cfg) && DiskOk(cfg, disk) && Pending(cfg, disk, p) && p.block != NULL_BLOCK
    ensures DiskOk(cfg, Stored(cfg, disk, p)) && OnlyBlock(disk, Stored(cfg, disk, p), p.block)
  {}

  /** The disk and the read cache were left alone, or the read cache is coherent; what the
      caches hold tells which, if they hold more than is compared at a time. */
  predicate Kept(cfg: Config, d0: Disk, r0: CacheState, d1: Disk, r1: CacheState)
  {
    (d1 == d0 && r1 == r0) || (Coherent(cfg, d1, r1) && (cfg.cacheSize > 8 ==> r1.block != NULL_BLOCK))
  }

  /** After a failure the window still shows everything up to off. */
  predicate Stuck(cfg: Config, d0: Disk, p0: CacheState, d1: Disk, p1: CacheState, u: nat, block: int, off: nat)
    requires Geometry(cfg) && u > 0 && DiskOk(cfg, d0) && DiskOk(cfg, d1)
    requires Pending(cfg, d0, p0) && block in d0 && block in d1
  {
    && Pending(cfg, d1, p1) && p1.block == block && Multiple(p1.off, u)
    && Wrote(Seen(cfg, d0, p0, block), Seen(cfg, d1, p1, block), off, [])
  }

  // a failed flush of the window that was just filled
  lemma FillThenTear(cfg: Config, d0: Disk, u: nat, p: CacheState, block: int, off: nat, piece: seq<byte>, d1: Disk)
    requires Geometry(cfg) && DiskOk(cfg, d0) && DiskOk(cfg, d1) && Unit(cfg, u) && Ready(cfg, d0, u, p, block, off)
    requires p.block == block != NULL_BLOCK && off + |piece| <= cfg.blockSize && p.size + |piece| <= cfg.cacheSize
    requires Pending(cfg, d0, Filled(p, piece)) && Torn(cfg, d0, d1, Filled(p, piece)) && block in d0
    ensures Stuck(cfg, d0, p, d1, Filled(p, piece), u, block, off)
  {
    var q := Filled(p, piece);
    var v, w := Seen(cfg, d0, p, block), Seen(cfg, d1, q, block);
    assert q.buffer[..q.size][..p.size] == p.buffer[..p.size];
    assert v[..off] == d0[block][..p.off] + p.buffer[..p.size];
    assert w[..off] == d1[block][..p.off] + q.buffer[..q.size][..p.size];
    assert v[..off] + [] == v[..off];
  }

  lemma StuckEarlier(cfg: Config, d0: Disk, p0: CacheState, d1: Disk, p1: CacheState, d2: Disk, p2: CacheState,
                     u: nat, block: int, start: nat, data: seq<byte>)
    requires Geometry(cfg) && u > 0 && DiskOk(cfg, d0) && DiskOk(cfg, d1) && DiskOk(cfg, d2)
    requires Pending(cfg, d0, p0) && Pending(cfg, d1, p1) && block in d0 && block in d1 && block in d2
    requires Wrote(Seen(cfg, d0, p0, block), Seen(cfg, d1, p1, block), start, data)
    requires Stuck(cfg, d1, p1, d2, p2, u, block, start + |data|)
    ensures Stuck(cfg, d0, p0, d2, p2, u, block, start)
  {
    hide Seen;
    hide Multiple;
    var v0, v1, v2 := Seen(cfg, d0, p0, block), Seen(cfg, d1, p1, block), Seen(cfg, d2, p2, block);
    assert v2[..start] == v2[..start + |data|][..start];
    assert v1[..start] == v1[..start + |data|][..start];
    assert v2[..start + |data|] == v1[..start + |data|] by { assert v1[..start + |data|] + [] == v1[..start + |data|]; }
  }

  // a full window has nothing to pad
  lemma FullIsPadded(cfg: Config, p: CacheState)
    requires Geometry(cfg) && p.size == cfg.cacheSize
    ensures Padded(cfg, p) == cfg.cacheSize
  {
    AlignDownIs(cfg.cacheSize + cfg.progSize - 1, cfg.progSize, cfg.cacheSize);
  }

  // how far into its window a position is
  function InWindow(cfg: Config, off: nat): nat
    requires cfg.cacheSize > 0
  {
    off % cfg.cacheSize
  }

  /** The read cache after programming some bytes with validation: dropped if a window filled up. */
  function AfterProg(cfg: Config, r: CacheState, start: nat, n: nat): CacheState
    requires cfg.cacheSize > 0
  {
    if InWindow(cfg, start) + n >= cfg.cacheSize then r.(block := NULL_BLOCK) else r
  }

  /** What programming with validation leaves in a read cache of at most eight bytes. */
  predicate Traced(cfg: Config, u: nat, r0: CacheState, r1: CacheState, start: nat, n: nat, ok: bool)
    requires cfg.cacheSize > 0
  {
    u == cfg.cacheSize <= 8 ==>
      r1 == AfterProg(cfg, r0, start, n) && (!ok ==> InWindow(cfg, start) + n >= cfg.cacheSize)
  }

  lemma FillTraced(cfg: Config, disk: Disk, u: nat, p: CacheState, block: int, off: nat, n: nat, r0: CacheState, r1: CacheState, ok: bool)
    requires Geometry(cfg) && Unit(cfg, u) && Ready(cfg, disk, u, p, block, off) && p.block == block != NULL_BLOCK && p.size + n <= cfg.cacheSize
    requires if p.size + n == cfg.cacheSize then (u == cfg.cacheSize ==> Dropped(cfg, r0, r1)) else r1 == r0 && ok
    ensures Traced(cfg, u, r0, r1, off, n, ok)
  {
    if u == cfg.cacheSize {
      DivMod(p.off, u);
      DivModUnique(off, u, p.off / u, p.size);
    }
  }

  lemma TracedMore(cfg: Config, u: nat, r0: CacheState, r1: CacheState, r2: CacheState, start: nat, i: nat, n: nat, m: nat, ok: bool)
    requires cfg.cacheSize > 0 && Traced(cfg, u, r0, r1, start, i, true) && Traced(cfg, u, r1, r2, start + i, n, ok)
    requires InWindow(cfg, start + i) + n <= cfg.cacheSize && n <= m && (ok ==> m == n)
    ensures Traced(cfg, u, r0, r2, start, i + m, ok)
  {
    hide InWindow;
    WindowMoves(cfg, start, i);
  }

  lemma WindowMoves(cfg: Config, start: nat, i: nat)
    requires cfg.cacheSize > 0
    ensures InWindow(cfg, start) + i < cfg.cacheSize ==> InWindow(cfg, start + i) == InWindow(cfg, start) + i
  {
    var c := cfg.cacheSize;
    DivMod(start, c);
    if start % c + i < c { DivModUnique(start + i, c, start / c, start % c + i); }
  }

  // a block is being programmed through a cache
  predicate Stage(cfg: Config, u: nat, block: int, d: Disk, p: CacheState)
  {
    Geometry(cfg) && Unit(cfg, u) && DiskOk(cfg, d) && block in d && Pending(cfg, d, p)
  }

  /** What programming data at start did to disk, program cache and read cache, if it succeeded. */
  ghost predicate Progress(cfg: Config, u: nat, validate: bool, sure: bool, block: int, start: nat, data: seq<byte>,
                           d0: Disk, p0: CacheState, r0: CacheState, d1: Disk, p1: CacheState, r1: CacheState)
  {
    && Stage(cfg, u, block, d0, p0) && Stage(cfg, u, block, d1, p1) && OnlyBlock(d0, d1, block) && |r1.buffer| == cfg.cacheSize
    && (if validate then Kept(cfg, d0, r0, d1, r1) && Traced(cfg, u, r0, r1, start, |data|, true) else r1 == r0)
    && (validate && data != [] && p1.block == NULL_BLOCK ==> Coherent(cfg, d1, r1))
    && (sure ==> Wrote(Seen(cfg, d0, p0, block), Seen(cfg, d1, p1, block), start, data))
  }

  // and if it failed, with this many bytes to program
  ghost predicate Broken(cfg: Config, u: nat, block: int, start: nat, n: nat,
                         d0: Disk, p0: CacheState, r0: CacheState, d1: Disk, p1: CacheState, r1: CacheState)
  {
    && Stage(cfg, u, block, d0, p0) && Stage(cfg, u, block, d1, p1) && OnlyBlock(d0, d1, block) && |r1.buffer| == cfg.cacheSize
    && Kept(cfg, d0, r0, d1, r1) && Traced(cfg, u, r0, r1, start, n, false)
    && Stuck(cfg, d0, p0, d1, p1, u, block, start) && Coherent(cfg, d1, r1)
  }

  lemma NoProgress(cfg: Config, u: nat, validate: bool, sure: bool, block: int, start: nat, d: Disk, p: CacheState, r: CacheState)
    requires Stage(cfg, u, block, d, p) && |r.buffer| == cfg.cacheSize && start <= cfg.blockSize
    ensures Progress(cfg, u, validate, sure, block, start, [], d, p, r, d, p, r)
  {}

  lemma MoreProgress(cfg: Config, u: nat, validate: bool, sure: bool, block: int, start: nat, data: seq<byte>, piece: seq<byte>,
                     d0: Disk, p0: CacheState, r0: CacheState, d1: Disk, p1: CacheState, r1: CacheState,
                     d2: Disk, p2: CacheState, r2: CacheState)
    requires cfg.progSize > 0 && u > 0 && Ready(cfg, d1, u, p1, block, start + |data|) && p1.block == block && p1.size + |piece| <= cfg.cacheSize
    requires Progress(cfg, u, validate, sure, block, start, data, d0, p0, r0, d1, p1, r1)
    requires Progress(cfg, u, validate, sure, block, start + |data|, piece, d1, p1, r1, d2, p2, r2) && piece != []
    ensures Progress(cfg, u, validate, sure, block, start, data + piece, d0, p0, r0, d2, p2, r2)
  {
    hide Coherent;
    hide Seen;
    hide Wrote;
    hide Traced;
    hide Kept;
    hide Multiple;
    if validate {
      KeptTwice(cfg, d0, r0, d1, r1, d2, r2);
      TracedPiece(cfg, d1, u, p1, block, start + |data|, r0, r1, r2, start, |data|, |piece|, |piece|, true);
    }
    if sure { WroteMore(Seen(cfg, d0, p0, block), Seen(cfg, d1, p1, block), Seen(cfg, d2, p2, block), start, data, piece); }
  }

  lemma BreaksOff(cfg: Config, u: nat, sure: bool, block: int, start: nat, data: seq<byte>, n: nat, m: nat,
                  d0: Disk, p0: CacheState, r0: CacheState, d1: Disk, p1: CacheState, r1: CacheState,
                  d2: Disk, p2: CacheState, r2: CacheState)
    requires cfg.progSize > 0 && u > 0 && Ready(cfg, d1, u, p1, block, start + |data|) && p1.block == block && p1.size + n <= cfg.cacheSize && n <= m
    requires Progress(cfg, u, true, true, block, start, data, d0, p0, r0, d1, p1, r1)
    requires Broken(cfg, u, block, start + |data|, n, d1, p1, r1, d2, p2, r2)
    ensures Broken(cfg, u, block, start, |data| + m, d0, p0, r0, d2, p2, r2)
  {
    hide Coherent;
    hide Seen;
    hide Wrote;
    hide Traced;
    hide Kept;
    hide Multiple;
    hide Stuck;
    KeptTwice(cfg, d0, r0, d1, r1, d2, r2);
    TracedPiece(cfg, d1, u, p1, block, start + |data|, r0, r1, r2, start, |data|, n, m, false);
    StuckEarlier(cfg, d0, p0, d1, p1, d2, p2, u, block, start, data);
  }

  /** One piece into the open window, flushed if that fills it. */
  method Fill(dev: Device, pcache: Cache, rcache: Cache, validate: bool, ghost u: nat, block: int, off: nat, piece: seq<byte>)
    returns (r: Code)
    requires dev.Valid() && |rcache.buffer| == dev.cfg.cacheSize && pcache != rcache
    requires block in dev.disk && off + |piece| <= dev.cfg.blockSize && Unit(dev.cfg, u)
    requires Ready(dev.cfg, dev.disk, u, pcache.State(), block, off) && pcache.block == block
    requires pcache.size + |piece| <= dev.cfg.cacheSize && piece != []
    modifies dev, pcache, rcache
    ensures dev.Valid() && block in dev.disk && |pcache.buffer| == dev.cfg.cacheSize
    ensures r == Ok || r == Corrupt
    ensures dev.Sound() || !validate ==> r == Ok
    ensures r == Corrupt ==> Broken(dev.cfg, u, block, off, |piece|, old(dev.disk), old(pcache.State()), old(rcache.State()),
                                    dev.disk, pcache.State(), rcache.State())
    ensures r == Ok ==>
              && Ready(dev.cfg, dev.disk, u, pcache.State(), block, off + |piece|)
              && Progress(dev.cfg, u, validate, validate || dev.Sound(), block, off, piece,
                          old(dev.disk), old(pcache.State()), old(rcache.State()), dev.disk, pcache.State(), rcache.State())
  {
    hide Coherent;
    hide Seen;
    hide Wrote;
    hide Multiple;
    hide Stored;
    hide Torn;
    hide Stuck;
    hide Padded;
    hide Dropped;
    hide Traced;
    ghost var d0, p0, r0 := dev.disk, pcache.State(), rcache.State();
    FillWrites(dev.cfg, d0, u, p0, block, off, piece);
    pcache.Put(off - pcache.off, piece);
    ghost var p1 := pcache.State();
    assert p1 == Filled(p0, piece);
    r := Ok;
    if pcache.size == dev.cfg.cacheSize {
      FullEndsOnUnit(dev.cfg, d0, u, p1);
      FullIsPadded(dev.cfg, p1);
      r := BdFlush(dev, pcache, rcache, validate);
      if r == Corrupt { FillThenTear(dev.cfg, d0, u, p0, block, off, piece, dev.disk); }
      if r == Ok && (validate || dev.Sound()) {
        FillThenFlush(dev.cfg, d0, u, p0, block, off, piece, pcache.State());
      }
    }
    if validate { FillTraced(dev.cfg, d0, u, p0, block, off, |piece|, r0, rcache.State(), r == Ok); }
  }

  /** Programs data at off, behind what the cache already gathered for the block. The bytes
      before off and the other blocks stay what they were, and the cache is ready to go
      on: at the end of a block whose windows are whole caches it is empty. */
  method BdProg(dev: Device, pcache: Cache, rcache: Cache, validate: bool, ghost u: nat, block: int, start: nat, data: seq<byte>)
    returns (r: Code)
    requires dev.Valid() && |rcache.buffer| == dev.cfg.cacheSize && pcache != rcache
    requires block in dev.disk && start + |data| <= dev.cfg.blockSize && Unit(dev.cfg, u)
    requires Ready(dev.cfg, dev.disk, u, pcache.State(), block, start)
    modifies dev, pcache, rcache
    ensures dev.Valid() && OnlyBlock(old(dev.disk), dev.disk, block) && |pcache.buffer| == |rcache.buffer| == dev.cfg.cacheSize
    ensures if validate then Kept(dev.cfg, old(dev.disk), old(rcache.State()), dev.disk, rcache.State())
            else rcache.State() == old(rcache.State())
    ensures validate ==> Traced(dev.cfg, u, old(rcache.State()), rcache.State(), start, |data|, r == Ok)
    ensures r == Ok && validate && data != [] && pcache.block == NULL_BLOCK ==> Coherent(dev.cfg, dev.disk, rcache.State())
    ensures r == Ok || r == Corrupt
    ensures dev.Sound() || !validate ==> r == Ok
    ensures r == Corrupt ==> Stuck(dev.cfg, old(dev.disk), old(pcache.State()), dev.disk, pcache.State(), u, block, start)
    ensures r == Corrupt ==> Coherent(dev.cfg, dev.disk, rcache.State())
    ensures r == Ok ==> Ready(dev.cfg, dev.disk, u, pcache.State(), block, start + |data|)
    ensures r == Ok && (validate || dev.Sound()) ==>
              Wrote(Seen(dev.cfg, old(dev.disk), old(pcache.State()), block),
                    Seen(dev.cfg, dev.disk, pcache.State(), block), start, data)
  {
    hide CacheOk;
    hide Coherent;
    hide Seen;
    hide Wrote;
    hide Multiple;
    hide Stuck;
    hide AlignDown;
    hide Traced;
    hide Kept;
    hide Progress;
    hide Broken;
    hide OnlyBlock;
    hide Stage;
    StageIs(dev.cfg, u, block, dev.disk, pcache.State(), start);
    var i: nat := 0;
    ghost var d0, p0, r0 := dev.disk, pcache.State(), rcache.State();
    ghost var sure := validate || dev.Sound();
    NoProgress(dev.cfg, u, validate, sure, block, start, d0, p0, r0);
    while i < |data|
      invariant i <= |data| && dev.Valid() && block in dev.disk && |rcache.buffer| == dev.cfg.cacheSize
      invariant Ready(dev.cfg, dev.disk, u, pcache.State(), block, start + i)
      invariant Progress(dev.cfg, u, validate, sure, block, start, data[..i], d0, p0, r0, dev.disk, pcache.State(), rcache.State())
      decreases |data| - i, if pcache.block == NULL_BLOCK then 1 else 0
    {
      var off := start + i;
      ghost var d1, p1, r1 := dev.disk, pcache.State(), rcache.State();
      if block == pcache.block && off >= pcache.off && off < pcache.off + dev.cfg.cacheSize {
        var diff: nat := Min(|data| - i, dev.cfg.cacheSize - (off - pcache.off));
        r := Fill(dev, pcache, rcache, validate, u, block, off, data[i..i + diff]);
        if r != Ok {
          BreaksOff(dev.cfg, u, sure, block, start, data[..i], diff, |data| - i, d0, p0, r0, d1, p1, r1,
                    dev.disk, pcache.State(), rcache.State());
          BrokenIs(dev.cfg, u, block, start, |data|, d0, p0, r0, dev.disk, pcache.State(), rcache.State());
          return r;
        }
        MoreProgress(dev.cfg, u, validate, sure, block, start, data[..i], data[i..i + diff], d0, p0, r0, d1, p1, r1,
                     dev.disk, pcache.State(), rcache.State());
        ProgressIs(dev.cfg, u, validate, sure, block, off, data[i..i + diff], d1, p1, r1, dev.disk, pcache.State(), rcache.State());
        assert data[..i] + data[i..i + diff] == data[..i + diff];
        i := i + diff;
      } else {
        assert pcache.block == NULL_BLOCK;
        OpensAt(dev.cfg, dev.disk, u, pcache.State(), block, off);
        pcache.Open(block, AlignDown(off, dev.cfg.progSize));
        StageIs(dev.cfg, u, block, dev.disk, pcache.State(), off);
        OpenedProgress(dev.cfg, u, validate, sure, block, start, data[..i], d0, p0, r0, d1, p1, pcache.State(), r1);
      }
    }
    assert data[..i] == data;
    ProgressIs(dev.cfg, u, validate, sure, block, start, data, d0, p0, r0, dev.disk, pcache.State(), rcache.State());
    return Ok;
  }

  lemma StageIs(cfg: Config, u: nat, block: int, d: Disk, p: CacheState, off: nat)
    requires Geometry(cfg) && Unit(cfg, u) && DiskOk(cfg, d) && block in d && Ready(cfg, d, u, p, block, off)
    ensures Stage(cfg, u, block, d, p)
  {}

  // an open window that is empty shows the disk
  lemma OpenedProgress(cfg: Config, u: nat, validate: bool, sure: bool, block: int, start: nat, data: seq<byte>,
                       d0: Disk, p0: CacheState, r0: CacheState, d1: Disk, p1: CacheState, p2: CacheState, r1: CacheState)
    requires Progress(cfg, u, validate, sure, block, start, data, d0, p0, r0, d1, p1, r1)
    requires p1.block == NULL_BLOCK && Stage(cfg, u, block, d1, p2) && p2.size == 0 && p2.block == block
    ensures Progress(cfg, u, validate, sure, block, start, data, d0, p0, r0, d1, p2, r1)
  {
    hide Seen;
    hide Coherent;
    EmptyWindow(cfg, d1, p1, block);
    EmptyWindow(cfg, d1, p2, block);
  }

  lemma ProgressIs(cfg: Config, u: nat, validate: bool, sure: bool, block: int, start: nat, data: seq<byte>,
                   d0: Disk, p0: CacheState, r0: CacheState, d1: Disk, p1: CacheState, r1: CacheState)
    requires Progress(cfg, u, validate, sure, block, start, data, d0, p0, r0, d1, p1, r1)
    ensures OnlyBlock(d0, d1, block) && |r1.buffer| == cfg.cacheSize
    ensures if validate then Kept(cfg, d0, r0, d1, r1) && Traced(cfg, u, r0, r1, start, |data|, true) else r1 == r0
    ensures validate && data != [] && p1.block == NULL_BLOCK ==> Coherent(cfg, d1, r1)
    ensures sure ==> Wrote(Seen(cfg, d0, p0, block), Seen(cfg, d1, p1, block), start, data)
  {}

  lemma BrokenIs(cfg: Config, u: nat, block: int, start: nat, n: nat,
                 d0: Disk, p0: CacheState, r0: CacheState, d1: Disk, p1: CacheState, r1: CacheState)
    requires Broken(cfg, u, block, start, n, d0, p0, r0, d1, p1, r1)
    ensures OnlyBlock(d0, d1, block) && |r1.buffer| == cfg.cacheSize
    ensures Kept(cfg, d0, r0, d1, r1) && Traced(cfg, u, r0, r1, start, n, false)
    ensures Stuck(cfg, d0, p0, d1, p1, u, block, start) && Coherent(cfg, d1, r1)
    ensures |p1.buffer| == cfg.cacheSize
  {}

  lemma KeptTwice(cfg: Config, d0: Disk, r0: CacheState, d1: Disk, r1: CacheState, d2: Disk, r2: CacheState)
    requires Kept(cfg, d0, r0, d1, r1) && Kept(cfg, d1, r1, d2, r2)
    ensures Kept(cfg, d0, r0, d2, r2)
  {
    hide Coherent;
  }

  lemma TracedPiece(cfg: Config, disk: Disk, u: nat, p: CacheState, block: int, off: nat, r0: CacheState, r1: CacheState, r2: CacheState,
                    start: nat, i: nat, n: nat, m: nat, ok: bool)
    requires Geometry(cfg) && Unit(cfg, u) && Ready(cfg, disk, u, p, block, off) && p.block == block != NULL_BLOCK && off == start + i
    requires p.size + n <= cfg.cacheSize && n <= m && (ok ==> m == n)
    requires Traced(cfg, u, r0, r1, start, i, true) && Traced(cfg, u, r1, r2, off, n, ok)
    ensures Traced(cfg, u, r0, r2, start, i + m, ok)
  {
    if u == cfg.cacheSize {
      DivMod(p.off, u);
      DivModUnique(off, u, p.off / u, p.size);
      TracedMore(cfg, u, r0, r1, r2, start, i, n, m, ok);
    }
  }

  lemma WroteNothing(v: seq<byte>, off: nat)
    ensures off <= |v| ==> Wrote(v, v, off, [])
  {}

  // ---------------------------------------------------------------- whole runs

  function Concat(pieces: seq<seq<byte>>): (s: seq<byte>)
    ensures pieces == [] ==> s == []
  {
    if pieces == [] then [] else Concat(pieces[..|pieces| - 1]) + pieces[|pieces| - 1]
  }

  lemma ConcatSplit(pieces: seq<seq<byte>>, i: nat)
    requires i < |pieces|
    ensures Concat(pieces[..i + 1]) == Concat(pieces[..i]) + pieces[i]
  {
    assert pieces[..i + 1][..i] == pieces[..i];
  }

  lemma {:induction false} ConcatGrows(pieces: seq<seq<byte>>, i: nat)
    requires i <= |pieces|
    ensures |Concat(pieces[..i])| <= |Concat(pieces)|
    decreases |pieces| - i
  {
    if i < |pieces| {
      ConcatSplit(pieces, i);
      ConcatGrows(pieces, i + 1);
    } else {
      assert pieces[..i] == pieces;
    }
  }

  /** Contiguous programming of any pieces ended by a sync, whatever was waiting in the program
      cache before and whether or not the last piece empties it: on success the whole range
      is on the disk byte for byte, behind what was seen before. */
  method ProgThenSync(dev: Device, pcache: Cache, rcache: Cache, validate: bool, ghost u: nat, block: int, start: nat, pieces: seq<seq<byte>>)
    returns (r: Code)
    requires dev.Valid() && |rcache.buffer| == dev.cfg.cacheSize && pcache != rcache
    requires block in dev.disk && start + |Concat(pieces)| <= dev.cfg.blockSize && Unit(dev.cfg, u)
    requires Ready(dev.cfg, dev.disk, u, pcache.State(), block, start)
    modifies dev, pcache, rcache
    ensures dev.Valid() && OnlyBlock(old(dev.disk), dev.disk, block)
    ensures r == Ok || r == Corrupt
    ensures dev.Sound() || !validate ==> r == Ok
    ensures r == Ok ==> pcache.block == NULL_BLOCK && Coherent(dev.cfg, dev.disk, rcache.State())
    ensures r == Ok && (validate || dev.Sound()) ==>
              && dev.disk[block][start..start + |Concat(pieces)|] == Concat(pieces)
              && dev.disk[block][..start] == Seen(dev.cfg, old(dev.disk), old(pcache.State()), block)[..start]
  {
    hide Coherent;
    hide Seen;
    hide Wrote;
    hide Multiple;
    hide Stuck;
    hide Kept;
    hide Stored;
    hide Concat;
    ghost var v0 := Seen(dev.cfg, dev.disk, pcache.State(), block);
    WroteNothing(v0, start);
    ConcatNothing(pieces);
    var i: nat, off: nat := 0, start;
    while i < |pieces|
      invariant i <= |pieces| && dev.Valid() && OnlyBlock(old(dev.disk), dev.disk, block) && |rcache.buffer| == dev.cfg.cacheSize
      invariant off == start + |Concat(pieces[..i])| && Ready(dev.cfg, dev.disk, u, pcache.State(), block, off)
      invariant validate || dev.Sound() ==>
                  Wrote(v0, Seen(dev.cfg, dev.disk, pcache.State(), block), start, Concat(pieces[..i]))
    {
      ConcatSplit(pieces, i);
      ConcatGrows(pieces, i + 1);
      ghost var v1 := Seen(dev.cfg, dev.disk, pcache.State(), block);
      r := BdProg(dev, pcache, rcache, validate, u, block, off, pieces[i]);
      if r != Ok {
        return;
      }
      if validate || dev.Sound() {
        WroteMore(v0, v1, Seen(dev.cfg, dev.disk, pcache.State(), block), start, Concat(pieces[..i]), pieces[i]);
      }
      i, off := i + 1, off + |pieces[i]|;
    }
    assert pieces[..i] == pieces;
    ghost var d1, p1 := dev.disk, pcache.State();
    r := BdSync(dev, pcache, rcache, validate);
    if r == Ok && (validate || dev.Sound()) {
      Synced(dev.cfg, v0, d1, p1, dev.disk, u, block, start, Concat(pieces));
    }
  }

  lemma ConcatNothing(pieces: seq<seq<byte>>)
    ensures Concat(pieces[..0]) == []
  {}

  // what a sync makes of the bytes seen through the cache
  lemma Synced(cfg: Config, v0: seq<byte>, d1: Disk, p1: CacheState, d2: Disk, u: nat, block: int, start: nat, data: seq<byte>)
    requires Geometry(cfg) && DiskOk(cfg, d1) && u > 0 && block in d1 && Ready(cfg, d1, u, p1, block, start + |data|)
    requires Wrote(v0, Seen(cfg, d1, p1, block), start, data)
    requires d2 == if p1.block == NULL_BLOCK then d1 else Stored(cfg, d1, p1)
    ensures block in d2 && |d2[block]| == cfg.blockSize && start + |data| <= cfg.blockSize && start <= |v0|
    ensures d2[block][start..start + |data|] == data && d2[block][..start] == v0[..start]
  {
    hide Stored;
    hide Wrote;
    hide Overlay;
    if p1.block == NULL_BLOCK {
      EmptyWindow(cfg, d1, p1, block);
    } else {
      StoredOk(cfg, d1, p1);
      FlushWrites(cfg, d1, p1, EMPTY);
      NoOverlay(cfg, d2, block);
      WroteMore(v0, Seen(cfg, d1, p1, block), d2[block], start, data, []);
      assert data + [] == data;
    }
    WroteRange(v0, d2[block], start, data);
  }

  lemma WroteRange(v0: seq<byte>, v1: seq<byte>, off: nat, data: seq<byte>)
    requires Wrote(v0, v1, off, data)
    ensures off <= |v0| && off + |data| <= |v1| && v1[off..off + |data|] == data && v1[..off] == v0[..off]
  {
    assert v1[off..off + |data|] == v1[..off + |data|][off..];
    assert v1[..off] == v1[..off + |data|][..off];
  }
}
