/** The caching block device: a read cache and a program cache in front of a disk that
    is read and programmed in aligned units. */
module BlockDevice {
  import opened Words
  import opened Arith

  datatype Config = Config(readSize: nat, progSize: nat, cacheSize: nat, blockSize: nat)

  /** The geometry the code insists on. */
  predicate Geometry(cfg: Config)
  {
    && cfg.readSize > 0 && cfg.progSize > 0 && cfg.cacheSize > 0 && cfg.blockSize >= 128
    && Multiple(cfg.cacheSize, cfg.readSize) && Multiple(cfg.cacheSize, cfg.progSize)
    && Multiple(cfg.blockSize, cfg.cacheSize)
  }

  type Disk = map<int, seq<byte>>

  predicate DiskOk(cfg: Config, disk: Disk)
  {
    NULL_BLOCK !in disk && forall b | b in disk :: |disk[b]| == cfg.blockSize
  }

  // ---------------------------------------------------------------- caches as values

  /** What a cache holds: size bytes of a block from off on. */
  datatype CacheState = CacheState(block: int, off: nat, size: nat, buffer: seq<byte>)

  predicate CacheOk(cfg: Config, c: CacheState)
  {
    |c.buffer| == cfg.cacheSize && (c.block != NULL_BLOCK ==> c.size <= cfg.cacheSize && c.off + c.size <= cfg.blockSize)
  }

  /** A read cache that agrees with the disk. */
  predicate Coherent(cfg: Config, disk: Disk, r: CacheState)
  {
    && CacheOk(cfg, r)
    && (r.block != NULL_BLOCK ==>
          && r.block in disk && cfg.readSize > 0 && Multiple(r.off, cfg.readSize) && Multiple(r.size, cfg.readSize)
          && r.off + r.size <= |disk[r.block]| && r.buffer[..r.size] == disk[r.block][r.off..r.off + r.size])
  }

  // a read cache of the right shape, whatever it holds
  predicate Shaped(cfg: Config, r: CacheState, block: int)
  {
    |r.buffer| == cfg.cacheSize
    && (r.block == block ==> CacheOk(cfg, r) && cfg.readSize > 0 && Multiple(r.off, cfg.readSize))
  }

  // a program cache that reading may look into
  predicate Shown(cfg: Config, p: CacheState) { p.block == NULL_BLOCK || CacheOk(cfg, p) }

  /** A read cache that may be stale, but not on this block. */
  predicate Fresh(cfg: Config, disk: Disk, r: CacheState, block: int)
  {
    |r.buffer| == cfg.cacheSize && (r.block == block ==> Coherent(cfg, disk, r))
  }

  /** A read cache that is not stale on what is read from off on: its window may be, if it
      ends before. */
  predicate FreshFrom(cfg: Config, disk: Disk, r: CacheState, block: int, off: nat)
  {
    && |r.buffer| == cfg.cacheSize
    && (r.block == block ==> Coherent(cfg, disk, r) || (Shaped(cfg, r, block) && r.off + r.size <= off))
  }

  /** A block with the bytes waiting in the program cache laid over it. */
  function Overlay(blk: seq<byte>, p: CacheState): (v: seq<byte>)
    requires p.off + p.size <= |blk| && p.size <= |p.buffer|
    ensures |v| == |blk|
  {
    blk[..p.off] + p.buffer[..p.size] + blk[p.off + p.size..]
  }

  const EMPTY := CacheState(NULL_BLOCK, 0, 0, [])

  // a program cache in use starts on a read unit: reading does not stall on it
  predicate ReadAligned(cfg: Config, p: CacheState)
    requires cfg.readSize > 0
  {
    p.block == NULL_BLOCK || (CacheOk(cfg, p) && Multiple(p.off, cfg.readSize))
  }

  /** What reading sees. */
  function Seen(cfg: Config, disk: Disk, p: CacheState, block: int): (v: seq<byte>)
    requires DiskOk(cfg, disk) && (p.block == NULL_BLOCK || CacheOk(cfg, p)) && block in disk
    ensures |v| == cfg.blockSize
  {
    if block == p.block then Overlay(disk[block], p) else disk[block]
  }

  // ---------------------------------------------------------------- one turn of the read loop

  /** What the read loop does next: copy from a cache, read past the caches, or load the
      read cache. */
  datatype Turn =
    | FromProg(n: nat)
    | FromRead(n: nat)
    | Direct(n: nat)
    | Load(off: nat, size: int)

  predicate Ahead(c: CacheState, block: int, off: nat) { block == c.block && off < c.off + c.size }

  // how far to go before a cache takes priority
  function Limit(c: CacheState, block: int, off: nat, n: nat): (r: nat)
    requires !(Ahead(c, block, off) && off >= c.off)
    ensures n > 0 ==> 0 < r <= n
  {
    if Ahead(c, block, off) then Min(n, c.off - off) else n
  }

  function NextTurn(cfg: Config, p: CacheState, r: CacheState, hint: nat, block: int, off: nat, size: nat): (t: Turn)
    requires Geometry(cfg) && size > 0
  {
    if Ahead(p, block, off) && off >= p.off then FromProg(Min(size, p.size - (off - p.off)))
    else
      var n := Limit(p, block, off, size);
      if Ahead(r, block, off) && off >= r.off then FromRead(Min(n, r.size - (off - r.off)))
      else
        var m := Limit(r, block, off, n);
        if size >= hint && off % cfg.readSize == 0 && size >= cfg.readSize then Direct(AlignDown(m, cfg.readSize))
        else
          var o := AlignDown(off, cfg.readSize);
          Load(o, Min(Min(AlignUp(off + hint, cfg.readSize), cfg.blockSize) - o, cfg.cacheSize))
  }

  /** A turn that leaves the loop where it was: nothing copied, or a load that does not
      bring in the wanted byte. */
  predicate Stalls(t: Turn, off: nat)
  {
    match t
    case FromProg(n) => n == 0
    case FromRead(n) => n == 0
    case Direct(n) => n == 0
    case Load(o, n) => off >= o + n
  }

  // neither cache has the byte at off
  predicate Uncached(p: CacheState, r: CacheState, block: int, off: nat)
  {
    !(Ahead(p, block, off) && off >= p.off) && !(Ahead(r, block, off) && off >= r.off)
  }

  /** Exactly when a turn stalls, and with it the whole read: bytes waiting in the program
      cache start less than a read unit ahead of an aligned read past the caches, or an
      aligned load is made with no hint. */
  lemma StallsIff(cfg: Config, p: CacheState, r: CacheState, hint: nat, block: int, off: nat, size: nat)
    requires Geometry(cfg) && Shaped(cfg, r, block) && Shown(cfg, p) && size > 0 && off + size <= cfg.blockSize
    requires block != NULL_BLOCK
    ensures var direct := off % cfg.readSize == 0 && size >= hint && size >= cfg.readSize;
            Stalls(NextTurn(cfg, p, r, hint, block, off, size), off) <==>
            && Uncached(p, r, block, off)
            && if direct then Ahead(p, block, off) && p.off < off + cfg.readSize
               else hint == 0 && off % cfg.readSize == 0
  {
    var rs := cfg.readSize;
    if Uncached(p, r, block, off) {
      var n := Limit(p, block, off, size);
      var m := Limit(r, block, off, n);
      if off % rs == 0 {
        if Ahead(r, block, off) { MultipleGap(off, r.off, rs); }
        if m < rs { AlignDownIs(m, rs, 0); } else { DivMod(m, rs); }
        AlignDownIs(off, rs, off);
        if hint == 0 { AlignUpIs(off, rs, off); }
      }
      if !(off % rs == 0 && size >= hint && size >= rs) {
        LoadCovers(cfg, hint, off);
      }
    }
  }

  lemma LoadCovers(cfg: Config, hint: nat, off: nat)
    requires Geometry(cfg) && off < cfg.blockSize
    ensures var o := AlignDown(off, cfg.readSize);
            var n := Min(Min(AlignUp(off + hint, cfg.readSize), cfg.blockSize) - o, cfg.cacheSize);
            && (off < o + n <==> hint > 0 || off % cfg.readSize != 0)
            && o + n <= cfg.blockSize && 0 <= n <= cfg.cacheSize
  {
    var rs := cfg.readSize;
    var o := AlignDown(off, rs);
    MultipleGap(0, cfg.cacheSize, rs);
    if off % rs == 0 {
      AlignDownIs(off, rs, off);
      if hint == 0 { AlignUpIs(off, rs, off); }
    }
    var u := AlignUp(off + hint, rs);
    assert u >= off && o <= u;
    if u == off { assert Multiple(off, rs); }
  }

  /** With an aligned program cache and a hint, no turn stalls. */
  lemma NoStall(cfg: Config, p: CacheState, r: CacheState, hint: nat, block: int, off: nat, size: nat)
    requires Geometry(cfg) && Shaped(cfg, r, block) && ReadAligned(cfg, p) && size > 0 && off + size <= cfg.blockSize
    requires block != NULL_BLOCK && hint > 0
    ensures !Stalls(NextTurn(cfg, p, r, hint, block, off, size), off)
  {
    StallsIff(cfg, p, r, hint, block, off, size);
    if Ahead(p, block, off) && off < p.off && off % cfg.readSize == 0 { MultipleGap(off, p.off, cfg.readSize); }
  }

  /** The read cache after a load. */
  function Loaded(blk: seq<byte>, r: CacheState, block: int, o: nat, n: nat): CacheState
    requires o + n <= |blk| && n <= |r.buffer|
  {
    CacheState(block, o, n, blk[o..o + n] + r.buffer[n..])
  }

  // ---------------------------------------------------------------- the whole loop

  /** Where a read stands: the read cache, what is still to be read, and what was copied. */
  datatype Reading = Reading(r: CacheState, off: nat, left: nat, data: seq<byte>)
  {
    function Copied(piece: seq<byte>): Reading
      requires |piece| <= left
    {
      Reading(r, off + |piece|, left - |piece|, data + piece)
    }
  }

  predicate Underway(cfg: Config, disk: Disk, p: CacheState, block: int, s: Reading)
  {
    && Geometry(cfg) && DiskOk(cfg, disk) && Shown(cfg, p) && block in disk
    && Shaped(cfg, s.r, block) && s.off + s.left <= cfg.blockSize
  }

  // a turn stays within the caches and the block
  predicate Fits(cfg: Config, p: CacheState, r: CacheState, block: int, off: nat, size: nat, t: Turn)
  {
    match t
    case FromProg(n) => p.off <= off && off - p.off + n <= |p.buffer| && n <= size
    case FromRead(n) => r.off <= off && off - r.off + n <= |r.buffer| && n <= size
    case Direct(n) => n <= size
    case Load(o, n) =>
      && 0 <= n <= |r.buffer| && o + n <= cfg.blockSize && cfg.readSize > 0 && Multiple(o, cfg.readSize)
      && Uncached(p, r, block, off) && o <= off
  }

  lemma TurnFits(cfg: Config, p: CacheState, r: CacheState, hint: nat, block: int, off: nat, size: nat)
    requires Geometry(cfg) && Shaped(cfg, r, block) && Shown(cfg, p) && size > 0 && off + size <= cfg.blockSize
    requires block != NULL_BLOCK
    ensures Fits(cfg, p, r, block, off, size, NextTurn(cfg, p, r, hint, block, off, size))
  {
    LoadCovers(cfg, hint, off);
  }

  /** One turn, whatever the caches hold. */
  function OneTurn(cfg: Config, disk: Disk, p: CacheState, hint: nat, block: int, s: Reading): (t: Reading)
    requires Underway(cfg, disk, p, block, s) && s.left > 0
    ensures Underway(cfg, disk, p, block, t) && t.off + t.left == s.off + s.left
  {
    TurnFits(cfg, p, s.r, hint, block, s.off, s.left);
    match NextTurn(cfg, p, s.r, hint, block, s.off, s.left)
    case FromProg(n) => s.Copied(p.buffer[s.off - p.off..][..n])
    case FromRead(n) => s.Copied(s.r.buffer[s.off - s.r.off..][..n])
    case Direct(n) => s.Copied(disk[block][s.off..s.off + n])
    case Load(o, n) => s.(r := Loaded(disk[block], s.r, block, o, n))
  }

  // how much is left to do; a turn that does not stall does some of it
  function ToDo(p: CacheState, block: int, s: Reading): nat
  {
    2 * s.left + if Uncached(p, s.r, block, s.off) then 1 else 0
  }

  lemma TurnProgress(cfg: Config, disk: Disk, p: CacheState, hint: nat, block: int, s: Reading)
    requires Underway(cfg, disk, p, block, s) && s.left > 0
    requires !Stalls(NextTurn(cfg, p, s.r, hint, block, s.off, s.left), s.off)
    ensures ToDo(p, block, OneTurn(cfg, disk, p, hint, block, s)) < ToDo(p, block, s)
  {
    TurnFits(cfg, p, s.r, hint, block, s.off, s.left);
  }

  /** The end of a read that has a hint and an aligned program cache. */
  function Finish(cfg: Config, disk: Disk, p: CacheState, hint: nat, block: int, s: Reading): (t: Reading)
    requires Underway(cfg, disk, p, block, s) && ReadAligned(cfg, p) && hint > 0
    ensures Underway(cfg, disk, p, block, t) && t.left == 0 && t.off == s.off + s.left
    decreases ToDo(p, block, s)
  {
    if s.left == 0 then s
    else
      NoStall(cfg, p, s.r, hint, block, s.off, s.left);
      TurnProgress(cfg, disk, p, hint, block, s);
      Finish(cfg, disk, p, hint, block, OneTurn(cfg, disk, p, hint, block, s))
  }

  // ---------------------------------------------------------------- reading what is there

  /** What each kind of turn copies is what should be seen, and a load keeps the read
      cache coherent and brings in the wanted byte. */
  ghost predicate Reads(cfg: Config, disk: Disk, p: CacheState, r: CacheState, block: int, off: nat, size: nat, t: Turn)
    requires DiskOk(cfg, disk) && (p.block == NULL_BLOCK || CacheOk(cfg, p)) && block in disk && off + size <= cfg.blockSize
  {
    var v := Seen(cfg, disk, p, block);
    match t
    case FromProg(n) =>
      p.off <= off && off - p.off + n <= |p.buffer| && 0 < n <= size && p.buffer[off - p.off..][..n] == v[off..off + n]
    case FromRead(n) =>
      r.off <= off && off - r.off + n <= |r.buffer| && 0 < n <= size && r.buffer[off - r.off..][..n] == v[off..off + n]
    case Direct(n) => 0 < n <= size && disk[block][off..off + n] == v[off..off + n]
    case Load(o, n) =>
      && 0 <= n <= |r.buffer| && o + n <= cfg.blockSize && Uncached(p, r, block, off)
      && Coherent(cfg, disk, Loaded(disk[block], r, block, o, n))
      && !Uncached(p, Loaded(disk[block], r, block, o, n), block, off)
  }

  lemma TurnReads(cfg: Config, disk: Disk, p: CacheState, r: CacheState, hint: nat, block: int, off: nat, size: nat)
    requires Geometry(cfg) && DiskOk(cfg, disk) && Coherent(cfg, disk, r) && ReadAligned(cfg, p)
    requires size > 0 && off + size <= cfg.blockSize && block in disk && hint > 0
    ensures Reads(cfg, disk, p, r, block, off, size, NextTurn(cfg, p, r, hint, block, off, size))
  {
    NoStall(cfg, p, r, hint, block, off, size);
    if Ahead(p, block, off) && off >= p.off {
      ProgTurnHits(cfg, disk, p, r, block, off, size);
    } else if Ahead(r, block, off) && off >= r.off {
      hide Seen;
      hide Coherent;
      ReadTurnHits(cfg, disk, p, r, block, off, size);
    } else {
      hide Seen;
      hide Coherent;
      var t := NextTurn(cfg, p, r, hint, block, off, size);
      if t.Direct? {
        DirectTurn(cfg, disk, p, r, hint, block, off, size);
      } else {
        LoadTurn(cfg, disk, p, r, hint, block, off, size, t.off, t.size);
      }
    }
  }

  lemma ProgTurnHits(cfg: Config, disk: Disk, p: CacheState, r: CacheState, block: int, off: nat, size: nat)
    requires cfg.readSize > 0 && DiskOk(cfg, disk) && ReadAligned(cfg, p) && block in disk
    requires size > 0 && off + size <= cfg.blockSize && Ahead(p, block, off) && off >= p.off
    ensures Reads(cfg, disk, p, r, block, off, size, FromProg(Min(size, p.size - (off - p.off))))
  {
    hide Seen;
    ProgHit(cfg, disk, p, block, off, Min(size, p.size - (off - p.off)));
  }

  lemma DirectTurn(cfg: Config, disk: Disk, p: CacheState, r: CacheState, hint: nat, block: int, off: nat, size: nat)
    requires Geometry(cfg) && DiskOk(cfg, disk) && CacheOk(cfg, r) && ReadAligned(cfg, p)
    requires size > 0 && off + size <= cfg.blockSize && block in disk
    requires var t := NextTurn(cfg, p, r, hint, block, off, size); t.Direct? && t.n > 0
    ensures Reads(cfg, disk, p, r, block, off, size, NextTurn(cfg, p, r, hint, block, off, size))
  {
    hide Seen;
    hide Coherent;
    OutsideOverlay(cfg, disk, p, block, off, NextTurn(cfg, p, r, hint, block, off, size).n);
  }

  lemma ReadTurnHits(cfg: Config, disk: Disk, p: CacheState, r: CacheState, block: int, off: nat, size: nat)
    requires DiskOk(cfg, disk) && Coherent(cfg, disk, r) && (p.block == NULL_BLOCK || CacheOk(cfg, p)) && block in disk
    requires size > 0 && off + size <= cfg.blockSize
    requires !(Ahead(p, block, off) && off >= p.off) && Ahead(r, block, off) && off >= r.off
    ensures Reads(cfg, disk, p, r, block, off, size, FromRead(Min(Limit(p, block, off, size), r.size - (off - r.off))))
  {
    var n := Min(Limit(p, block, off, size), r.size - (off - r.off));
    OutsideOverlay(cfg, disk, p, block, off, n);
    ReadHit(cfg, disk, r, off, n);
  }

  lemma LoadTurn(cfg: Config, disk: Disk, p: CacheState, r: CacheState, hint: nat, block: int, off: nat, size: nat, o: nat, n: int)
    requires Geometry(cfg) && DiskOk(cfg, disk) && Coherent(cfg, disk, r) && ReadAligned(cfg, p)
    requires size > 0 && off + size <= cfg.blockSize && block in disk && hint > 0
    requires Uncached(p, r, block, off) && o == AlignDown(off, cfg.readSize)
    requires n == Min(Min(AlignUp(off + hint, cfg.readSize), cfg.blockSize) - o, cfg.cacheSize)
    ensures Reads(cfg, disk, p, r, block, off, size, Load(o, n))
  {
    LoadCovers(cfg, hint, off);
    LoadIsWhole(cfg, hint, off);
    LoadCoherent(cfg, disk, r, block, o, n);
  }

  // a load is made of whole read units
  lemma LoadIsWhole(cfg: Config, hint: nat, off: nat)
    requires Geometry(cfg) && off < cfg.blockSize
    ensures var o := AlignDown(off, cfg.readSize);
            var n := Min(Min(AlignUp(off + hint, cfg.readSize), cfg.blockSize) - o, cfg.cacheSize);
            0 <= n && Multiple(n, cfg.readSize)
  {
    hide Multiple;
    LoadCovers(cfg, hint, off);
    MultipleTransitive(cfg.blockSize, cfg.cacheSize, cfg.readSize);
    var o, u := AlignDown(off, cfg.readSize), AlignUp(off + hint, cfg.readSize);
    MultipleSum(u, o, cfg.readSize);
    MultipleSum(cfg.blockSize, o, cfg.readSize);
  }

  lemma ProgHit(cfg: Config, disk: Disk, p: CacheState, block: int, off: nat, n: nat)
    requires DiskOk(cfg, disk) && CacheOk(cfg, p) && block in disk && block == p.block
    requires p.off <= off && off + n <= p.off + p.size
    ensures p.buffer[off - p.off..][..n] == Seen(cfg, disk, p, block)[off..off + n]
  {}

  lemma ReadHit(cfg: Config, disk: Disk, r: CacheState, off: nat, n: nat)
    requires DiskOk(cfg, disk) && Coherent(cfg, disk, r) && r.block in disk
    requires r.off <= off && off + n <= r.off + r.size
    ensures r.buffer[off - r.off..][..n] == disk[r.block][off..off + n]
  {
    var blk, o := disk[r.block], r.off;
    var a, b := r.buffer[off - o..][..n], blk[off..off + n];
    assert |a| == |b| == n;
    forall k | 0 <= k < n ensures a[k] == b[k] {
      assert a[k] == r.buffer[off - o + k] == r.buffer[..r.size][off - o + k];
      assert b[k] == blk[off + k] == blk[o..o + r.size][off - o + k];
    }
  }

  lemma LoadCoherent(cfg: Config, disk: Disk, r: CacheState, block: int, o: nat, n: nat)
    requires Geometry(cfg) && DiskOk(cfg, disk) && CacheOk(cfg, r) && block in disk
    requires o + n <= cfg.blockSize && n <= cfg.cacheSize && Multiple(o, cfg.readSize) && Multiple(n, cfg.readSize)
    ensures Coherent(cfg, disk, Loaded(disk[block], r, block, o, n))
  {
    hide Multiple;
    var l := Loaded(disk[block], r, block, o, n);
    assert l.buffer[..n] == disk[block][o..o + n];
  }

  lemma OutsideOverlay(cfg: Config, disk: Disk, p: CacheState, block: int, off: nat, n: nat)
    requires DiskOk(cfg, disk) && (p.block == NULL_BLOCK || CacheOk(cfg, p)) && block in disk && off + n <= cfg.blockSize
    requires p.block == block ==> off + n <= p.off || p.off + p.size <= off
    ensures Seen(cfg, disk, p, block)[off..off + n] == disk[block][off..off + n]
  {}

  // ---------------------------------------------------------------- caches and device

  class Cache {
    var block: int
    var off: nat
    var size: nat
    var buffer: seq<byte>

    constructor (cfg: Config)
      ensures State() == CacheState(NULL_BLOCK, 0, 0, seq(cfg.cacheSize, i => 0xff))
    {
      block, off, size, buffer := NULL_BLOCK, 0, 0, seq(cfg.cacheSize, i => 0xff);
    }

    function State(): CacheState
      reads this
    {
      CacheState(block, off, size, buffer)
    }

    method Load(blk: seq<byte>, b: int, o: nat, n: nat)
      requires o + n <= |blk| && n <= |buffer|
      modifies this
      ensures State() == Loaded(blk, old(State()), b, o, n)
    {
      block, off, size, buffer := b, o, n, blk[o..o + n] + buffer[n..];
    }

    /** Bytes go in at a position of the buffer. */
    method Put(at: nat, piece: seq<byte>)
      requires at + |piece| <= |buffer|
      modifies this`size, this`buffer
      ensures State() == old(State()).(size := Max(old(size), at + |piece|), buffer := Patched(old(buffer), at, piece))
    {
      buffer, size := Patched(buffer, at, piece), Max(size, at + |piece|);
    }

    /** Start an empty window. */
    method Open(b: int, o: nat)
      modifies this`block, this`off, this`size
      ensures State() == old(State()).(block := b, off := o, size := 0)
    {
      block, off, size := b, o, 0;
    }

    /** Take over another cache's window. */
    method Become(c: Cache)
      modifies this
      ensures State() == old(c.State())
    {
      block, off, size, buffer := c.block, c.off, c.size, c.buffer;
    }

    /** Two caches on one buffer: what the other one loaded is here, too. */
    method Share(c: Cache)
      modifies this`buffer
      ensures State() == old(State()).(buffer := c.buffer)
    {
      buffer := c.buffer;
    }

    /** Forget the contents. */
    method Drop()
      modifies this`block
      ensures State() == old(State()).(block := NULL_BLOCK)
    {
      block := NULL_BLOCK;
    }

    /** Forget the contents and blank the buffer. */
    method Zero(cfg: Config)
      modifies this`block, this`buffer
      ensures State() == old(State()).(block := NULL_BLOCK, buffer := seq(cfg.cacheSize, i => 0xff))
    {
      block, buffer := NULL_BLOCK, seq(cfg.cacheSize, i => 0xff);
    }
  }

  /** A disk that may store something else than it was told to: worn says what it stores
      at each step. */
  class Device {
    const cfg: Config
    const worn: (nat, seq<byte>) -> seq<byte>
    var disk: Disk
    var steps: nat

    constructor (cfg: Config, worn: (nat, seq<byte>) -> seq<byte>, disk: Disk)
      ensures this.cfg == cfg && this.worn == worn && this.disk == disk
    {
      this.cfg, this.worn, this.disk, this.steps := cfg, worn, disk, 0;
    }

    ghost predicate Valid()
      reads this
    {
      Geometry(cfg) && DiskOk(cfg, disk)
    }

    ghost predicate Sound()
    {
      forall t, s :: worn(t, s) == s
    }

    method Prog(block: int, off: nat, data: seq<byte>)
      requires Valid() && block in disk && off + |data| <= cfg.blockSize
      modifies this
      ensures Valid() && disk.Keys == old(disk.Keys)
      ensures disk == old(disk)[block := Patched(old(disk)[block], off, disk[block][off..off + |data|])]
      ensures Sound() ==> disk[block][off..off + |data|] == data
    {
      var stored := worn(steps, data);
      if |stored| != |data| { stored := data; }
      steps := steps + 1;
      disk := disk[block := Patched(disk[block], off, stored)];
    }

    /** Nothing is said about what an erased block holds. */
    method Erase(block: int)
      requires Valid() && block in disk
      modifies this
      ensures Valid() && disk.Keys == old(disk.Keys) && forall b | b in disk && b != block :: disk[b] == old(disk)[b]
    {
      var left := worn(steps, []);
      steps := steps + 1;
      if |left| == cfg.blockSize { disk := disk[block := left]; }
    }
  }

  function StateOf(c: Cache?): CacheState
    reads c
  {
    if c == null then EMPTY else c.State()
  }

  // a window that is stale elsewhere does not matter
  lemma FreshTurnReads(cfg: Config, disk: Disk, p: CacheState, r: CacheState, hint: nat, block: int, off: nat, size: nat)
    requires Geometry(cfg) && DiskOk(cfg, disk) && FreshFrom(cfg, disk, r, block, off) && ReadAligned(cfg, p)
    requires size > 0 && off + size <= cfg.blockSize && block in disk && hint > 0
    ensures Reads(cfg, disk, p, r, block, off, size, NextTurn(cfg, p, r, hint, block, off, size))
  {
    if r.block == block && Coherent(cfg, disk, r) {
      TurnReads(cfg, disk, p, r, hint, block, off, size);
    } else {
      var e := r.(block := NULL_BLOCK);
      TurnReads(cfg, disk, p, e, hint, block, off, size);
      SameTurn(cfg, disk, p, r, e, hint, block, off, size);
    }
  }

  lemma SameTurn(cfg: Config, disk: Disk, p: CacheState, r: CacheState, e: CacheState, hint: nat, block: int, off: nat, size: nat)
    requires Geometry(cfg) && DiskOk(cfg, disk) && ReadAligned(cfg, p)
    requires size > 0 && off + size <= cfg.blockSize && block in disk && hint > 0
    requires e == r.(block := NULL_BLOCK) && !Ahead(r, block, off)
    requires Reads(cfg, disk, p, e, block, off, size, NextTurn(cfg, p, e, hint, block, off, size))
    ensures Reads(cfg, disk, p, r, block, off, size, NextTurn(cfg, p, r, hint, block, off, size))
  {
    hide Coherent;
    hide Seen;
    hide Overlay;
    var t := NextTurn(cfg, p, e, hint, block, off, size);
    assert t == NextTurn(cfg, p, r, hint, block, off, size) && !t.FromRead?;
    if t.Load? && 0 <= t.size <= |r.buffer| && t.off + t.size <= cfg.blockSize {
      assert Loaded(disk[block], r, block, t.off, t.size) == Loaded(disk[block], e, block, t.off, t.size);
    }
  }

  // reading past the caches needs a read as long as the hint
  lemma TurnKind(cfg: Config, p: CacheState, r: CacheState, hint: nat, block: int, off: nat, size: nat)
    requires Geometry(cfg) && size > 0
    ensures var t := NextTurn(cfg, p, r, hint, block, off, size);
            (t.FromProg? ==> p.block == block) && (t.FromRead? ==> r.block == block) && (t.Direct? ==> size >= hint)
  {}

  /** What one turn does with a read cache that is not stale on the block. */
  lemma FreshTurn(cfg: Config, disk: Disk, p: CacheState, hint: nat, block: int, s: Reading)
    requires Underway(cfg, disk, p, block, s) && ReadAligned(cfg, p) && hint > 0 && s.left > 0 && FreshFrom(cfg, disk, s.r, block, s.off)
    ensures var t := OneTurn(cfg, disk, p, hint, block, s);
            && FreshFrom(cfg, disk, t.r, block, t.off) && (t.r == s.r || (Coherent(cfg, disk, t.r) && t.r.block == block))
            && t.off >= s.off && t.data == s.data + Seen(cfg, disk, p, block)[s.off..t.off]
            && (p.block == NULL_BLOCK && s.left < hint ==> t.r.block == block)
  {
    hide NextTurn;
    hide Seen;
    hide Uncached;
    hide Coherent;
    hide Shaped;
    FreshTurnReads(cfg, disk, p, s.r, hint, block, s.off, s.left);
    TurnKind(cfg, p, s.r, hint, block, s.off, s.left);
    TurnFits(cfg, p, s.r, hint, block, s.off, s.left);
  }

  /** With such a read cache the loop returns what should be seen, and either leaves the read
      cache alone or makes it coherent. */
  lemma {:induction false} FreshFinish(cfg: Config, disk: Disk, p: CacheState, hint: nat, block: int, s: Reading)
    requires Underway(cfg, disk, p, block, s) && ReadAligned(cfg, p) && hint > 0 && FreshFrom(cfg, disk, s.r, block, s.off)
    ensures var t := Finish(cfg, disk, p, hint, block, s);
            && (t.r == s.r || (Coherent(cfg, disk, t.r) && t.r.block == block))
            && t.data == s.data + Seen(cfg, disk, p, block)[s.off..s.off + s.left]
            && (p.block == NULL_BLOCK && 0 < s.left < hint ==> t.r.block == block)
    decreases ToDo(p, block, s)
  {
    hide Seen;
    hide Coherent;
    hide Uncached;
    hide NextTurn;
    hide Shaped;
    hide OneTurn;
    if s.left > 0 {
      var u := OneTurn(cfg, disk, p, hint, block, s);
      NoStall(cfg, p, s.r, hint, block, s.off, s.left);
      TurnProgress(cfg, disk, p, hint, block, s);
      FreshTurn(cfg, disk, p, hint, block, s);
      FreshFinish(cfg, disk, p, hint, block, u);
      var v := Seen(cfg, disk, p, block);
      assert s.data + v[s.off..u.off] + v[u.off..s.off + s.left] == s.data + v[s.off..s.off + s.left];
    }
  }

  /** What a read leaves in the read cache. */
  predicate Left(cfg: Config, disk: Disk, p: CacheState, hint: nat, block: int, r: CacheState, start: nat, size: nat, left: CacheState)
  {
    && Underway(cfg, disk, p, block, Reading(r, start, size, [])) && ReadAligned(cfg, p) && hint > 0
    && left == Finish(cfg, disk, p, hint, block, Reading(r, start, size, [])).r
  }

  lemma FreshRead(cfg: Config, disk: Disk, p: CacheState, hint: nat, block: int, r: CacheState, start: nat, size: nat)
    requires Geometry(cfg) && DiskOk(cfg, disk) && ReadAligned(cfg, p) && hint > 0 && block in disk
    requires FreshFrom(cfg, disk, r, block, start) && start + size <= cfg.blockSize
    ensures Underway(cfg, disk, p, block, Reading(r, start, size, []))
    ensures var t := Finish(cfg, disk, p, hint, block, Reading(r, start, size, []));
            && (t.r == r || (Coherent(cfg, disk, t.r) && t.r.block == block)) && |t.r.buffer| == cfg.cacheSize
            && t.data == Seen(cfg, disk, p, block)[start..start + size]
            && (p.block == NULL_BLOCK && 0 < size < hint ==> t.r.block == block)
  {
    hide Seen;
    hide Finish;
    FreshFinish(cfg, disk, p, hint, block, Reading(r, start, size, []));
    var v := Seen(cfg, disk, p, block)[start..start + size];
    assert [] + v == v;
  }

  /** An aligned read past an empty read cache leaves no trace in it. */
  lemma Bypass(cfg: Config, disk: Disk, hint: nat, block: int, r: CacheState, start: nat, size: nat, left: CacheState)
    requires Left(cfg, disk, EMPTY, hint, block, r, start, size, left) && r.block == NULL_BLOCK
    requires size >= hint && Multiple(start, cfg.readSize) && Multiple(size, cfg.readSize)
    ensures left == r
  {
    hide Finish;
    hide Coherent;
    var s := Reading(r, start, size, []);
    MultipleGap(0, size, cfg.readSize);
    AlignDownIs(size, cfg.readSize, size);
    assert NextTurn(cfg, EMPTY, r, hint, block, start, size) == Direct(size);
    UnderwayTurn(cfg, EMPTY, hint, block, s, disk);
    Finished(cfg, disk, EMPTY, hint, block, OneTurn(cfg, disk, EMPTY, hint, block, s));
  }

  lemma Finished(cfg: Config, disk: Disk, p: CacheState, hint: nat, block: int, s: Reading)
    requires Underway(cfg, disk, p, block, s) && ReadAligned(cfg, p) && hint > 0 && s.left == 0
    ensures Finish(cfg, disk, p, hint, block, s) == s
  {}

  /** One turn of the read loop. */
  method ReadTurn(dev: Device, pcache: Cache?, rcache: Cache, hint: nat, block: int, off: nat, left: nat)
    returns (piece: seq<byte>)
    requires Underway(dev.cfg, dev.disk, StateOf(pcache), block, Reading(rcache.State(), off, left, [])) && left > 0 && pcache != rcache
    modifies rcache
    ensures |piece| <= left
    ensures Reading(rcache.State(), off + |piece|, left - |piece|, piece) ==
            OneTurn(dev.cfg, dev.disk, StateOf(pcache), hint, block, Reading(old(rcache.State()), off, left, []))
  {
    hide NextTurn;
    hide Coherent;
    hide Multiple;
    TurnFits(dev.cfg, StateOf(pcache), rcache.State(), hint, block, off, left);
    TurnKind(dev.cfg, StateOf(pcache), rcache.State(), hint, block, off, left);
    match NextTurn(dev.cfg, StateOf(pcache), rcache.State(), hint, block, off, left) {
      case FromProg(n) =>
        piece := pcache.buffer[off - pcache.off..][..n];
      case FromRead(n) =>
        piece := rcache.buffer[off - rcache.off..][..n];
      case Direct(n) =>
        piece := dev.disk[block][off..off + n];
      case Load(o, n) =>
        rcache.Load(dev.disk[block], block, o, n);
        piece := [];
    }
  }

  /** The read loop, whatever the caches hold. */
  method ReadLoop(dev: Device, pcache: Cache?, rcache: Cache, hint: nat, block: int, start: nat, size: nat)
    returns (data: seq<byte>)
    requires Underway(dev.cfg, dev.disk, StateOf(pcache), block, Reading(rcache.State(), start, size, []))
    requires ReadAligned(dev.cfg, StateOf(pcache)) && hint > 0 && pcache != rcache
    modifies rcache
    ensures Reading(rcache.State(), start + size, 0, data) ==
            Finish(dev.cfg, dev.disk, StateOf(pcache), hint, block, Reading(old(rcache.State()), start, size, []))
  {
    hide Underway;
    hide NextTurn;
    hide OneTurn;
    hide Uncached;
    data := [];
    var off: nat, left: nat := start, size;
    ghost var p := StateOf(pcache);
    ghost var s := Reading(rcache.State(), off, left, data);
    while left > 0
      invariant StateOf(pcache) == p && s == Reading(rcache.State(), off, left, data)
      invariant Underway(dev.cfg, dev.disk, p, block, s) && off + left == start + size
      invariant Finish(dev.cfg, dev.disk, p, hint, block, s) ==
                Finish(dev.cfg, dev.disk, p, hint, block, Reading(old(rcache.State()), start, size, []))
      decreases ToDo(p, block, s)
    {
      EmptyHanded(dev.cfg, dev.disk, p, hint, block, s);
      UnderwayTurn(dev.cfg, p, hint, block, s, dev.disk);
      var piece := ReadTurn(dev, pcache, rcache, hint, block, off, left);
      data := data + piece;
      off, left := off + |piece|, left - |piece|;
      s := Reading(rcache.State(), off, left, data);
    }
  }

  lemma {:induction false} FinishCopies(cfg: Config, disk: Disk, p: CacheState, hint: nat, block: int, s: Reading)
    requires Underway(cfg, disk, p, block, s) && ReadAligned(cfg, p) && hint > 0
    ensures |Finish(cfg, disk, p, hint, block, s).data| == |s.data| + s.left
    decreases ToDo(p, block, s)
  {
    if s.left > 0 {
      TurnFits(cfg, p, s.r, hint, block, s.off, s.left);
      UnderwayTurn(cfg, p, hint, block, s, disk);
      FinishCopies(cfg, disk, p, hint, block, OneTurn(cfg, disk, p, hint, block, s));
    }
  }

  // what was copied so far does not matter
  lemma EmptyHanded(cfg: Config, disk: Disk, p: CacheState, hint: nat, block: int, s: Reading)
    requires Underway(cfg, disk, p, block, s) && s.left > 0
    ensures Underway(cfg, disk, p, block, s.(data := []))
    ensures var t, u := OneTurn(cfg, disk, p, hint, block, s), OneTurn(cfg, disk, p, hint, block, s.(data := []));
            t == u.(data := s.data + u.data)
  {
    TurnFits(cfg, p, s.r, hint, block, s.off, s.left);
  }

  lemma UnderwayTurn(cfg: Config, p: CacheState, hint: nat, block: int, s: Reading, disk: Disk)
    requires Underway(cfg, disk, p, block, s) && ReadAligned(cfg, p) && hint > 0 && s.left > 0
    ensures var t := OneTurn(cfg, disk, p, hint, block, s);
            ToDo(p, block, t) < ToDo(p, block, s) && Finish(cfg, disk, p, hint, block, t) == Finish(cfg, disk, p, hint, block, s)
  {
    NoStall(cfg, p, s.r, hint, block, s.off, s.left);
    TurnProgress(cfg, disk, p, hint, block, s);
  }

  /** Reading: for every state of the caches, unless the read cache is stale on the block, it
      returns the disk bytes with the program cache laid over them. It either leaves the read
      cache alone or makes it coherent. */
  method BdRead(dev: Device, pcache: Cache?, rcache: Cache, hint: nat, block: int, start: nat, size: nat)
    returns (r: Option<seq<byte>>)
    requires dev.Valid() && FreshFrom(dev.cfg, dev.disk, rcache.State(), block, start) && hint >= 1 && pcache != rcache
    requires ReadAligned(dev.cfg, StateOf(pcache))
    modifies rcache
    ensures rcache.State() == old(rcache.State()) || Coherent(dev.cfg, dev.disk, rcache.State())
    ensures |rcache.buffer| == dev.cfg.cacheSize && (rcache.State() == old(rcache.State()) || rcache.block == block)
    ensures r != None && 0 < size < hint && pcache == null ==> rcache.block == block
    ensures start + size > dev.cfg.blockSize || block !in dev.disk ==> r == None && rcache.State() == old(rcache.State())
    ensures start + size <= dev.cfg.blockSize && block in dev.disk ==>
              r == Some(Seen(dev.cfg, dev.disk, StateOf(pcache), block)[start..start + size])
    ensures start + size <= dev.cfg.blockSize && block in dev.disk ==>
              Left(dev.cfg, dev.disk, StateOf(pcache), hint, block, old(rcache.State()), start, size, rcache.State())
  {
    if start + size > dev.cfg.blockSize || block !in dev.disk {
      return None;
    }
    hide Seen;
    hide Coherent;
    hide Underway;
    hide Finish;
    hide ReadAligned;
    hide Geometry;
    hide DiskOk;
    FreshRead(dev.cfg, dev.disk, StateOf(pcache), hint, block, rcache.State(), start, size);
    var data := ReadLoop(dev, pcache, rcache, hint, block, start, size);
    return Some(data);
  }
}
