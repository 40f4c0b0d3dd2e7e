/** Skip-list files on the disk: finding a block by following pointers, extending a list
    without touching it, and visiting every block. */
module CtzList {
  import opened Words
  import opened Arith
  import opened Ctz
  import opened BlockDevice
  import opened BlockProg
  import TagWord

  // ---------------------------------------------------------------- more binary digits

  lemma {:induction false} Pow2Mono(m: nat, n: nat)
    requires m <= n
    ensures 0 < Pow2(m) <= Pow2(n)
    decreases n
  {
    if m < n { Pow2Mono(m, n - 1); } else if m > 0 { Pow2Mono(m - 1, n - 1); }
  }

  lemma {:induction false} BitsMono(m: nat, n: nat)
    requires m <= n
    ensures Bits(m) <= Bits(n)
  {
    if m > 0 { BitsMono(m / 2, n / 2); }
  }

  // fewer than b binary digits
  lemma BitsBelow(n: nat, b: nat)
    requires n < Pow2(b)
    ensures Bits(n) <= b
  {
    if n > 0 {
      var d := Bits(n) - 1;
      BitsBound(n);
      Pow2Mono(Min(b, d), d);
    }
  }

  lemma {:induction false} Pow2OfCtz(n: nat)
    requires n > 0
    ensures Pow2(CtzOf(n)) <= n
  {
    if n % 2 == 0 { Pow2OfCtz(n / 2); }
  }

  /** Going back by a power of two that divides the index leaves an index it divides; going
      back by the largest such power leaves a higher one. */
  lemma {:induction false} CtzAfter(n: nat, m: nat)
    requires n > 0 && m <= CtzOf(n) && n > Pow2(m)
    ensures CtzOf(n - Pow2(m)) >= (if m == CtzOf(n) then m + 1 else m)
  {
    if m > 0 {
      CtzAfter(n / 2, m - 1);
      assert (n - Pow2(m)) / 2 == n / 2 - Pow2(m - 1);
    }
  }

  // ---------------------------------------------------------------- hops

  /** How far the next hop goes: as far as the distance allows and the block has pointers. */
  function Skip(current: nat, target: nat): nat
    requires target < current
  {
    Min(Bits(current - target) - 1, CtzOf(current))
  }

  lemma SkipFits(current: nat, target: nat)
    requires target < current
    ensures 0 < Pow2(Skip(current, target)) <= current - target
  {
    BitsBound(current - target);
    Pow2Mono(Skip(current, target), Bits(current - target) - 1);
  }

  /** Hops from one index back to another. */
  function Hops(current: nat, target: nat): nat
    requires target <= current
    decreases current
  {
    if current == target then 0
    else
      SkipFits(current, target);
      1 + Hops(current - Pow2(Skip(current, target)), target)
  }

  // rising over higher and higher powers, then descending over lower and lower ones
  function Rise(current: nat, target: nat): nat
    requires target < current
  {
    var top := Bits(current - target);
    top + Max(0, top - 1 - CtzOf(current))
  }

  lemma {:induction false} HopsAtMostRise(current: nat, target: nat)
    requires target < current
    ensures Hops(current, target) <= Rise(current, target)
    decreases current
  {
    hide Bits;
    hide CtzOf;
    hide Pow2;
    hide Skip;
    SkipFits(current, target);
    var m := Skip(current, target);
    var next := current - Pow2(m);
    HopUnfold(current, target);
    BitsPositive(current - target);
    if next > target {
      HopsAtMostRise(next, target);
      HopFalls(current, target, m);
    }
  }

  lemma HopUnfold(current: nat, target: nat)
    requires target < current
    ensures Pow2(Skip(current, target)) <= current - target
    ensures Hops(current, target) == 1 + Hops(current - Pow2(Skip(current, target)), target)
  {
    hide Bits;
    hide CtzOf;
    hide Pow2;
    hide Skip;
    SkipFits(current, target);
  }

  lemma HopsNone()
    ensures forall n: nat :: Hops(n, n) == 0
  {}

  lemma BitsPositive(n: nat)
    requires n > 0
    ensures Bits(n) > 0
  {}

  // a hop brings the bound down by one
  lemma HopFalls(current: nat, target: nat, m: nat)
    requires target < current && m == Skip(current, target) && target < current - Pow2(m)
    ensures Rise(current - Pow2(m), target) < Rise(current, target)
  {
    var d := current - target;
    var top := Bits(d) - 1;
    CtzAfter(current, m);
    BitsBound(d);
    BitsMono(d - Pow2(m), d);
    if m == top {
      // the highest digit of the distance is gone
      BitsBelow(d - Pow2(top), top);
    }
  }

  /** The number of hops is at most twice the logarithm of the distance, plus one. */
  lemma HopsLogarithmic(current: nat, target: nat)
    requires target < current
    ensures Hops(current, target) <= 2 * (Bits(current - target) - 1) + 1
    ensures Pow2(Bits(current - target) - 1) <= current - target
  {
    HopsAtMostRise(current, target);
    BitsBound(current - target);
  }

  // ---------------------------------------------------------------- more about positions

  // no 32-bit file has more blocks than this
  const MANY := 0x400_0000

  lemma IndexSmall(bs: nat, pos: nat)
    requires MIN_BLOCK <= bs < U32 && pos < U32
    ensures Index(bs, pos).0 < MANY
  {
    hide Index;
    var n := Index(bs, pos).0;
    IndexCorrect(bs, pos);
    if n > 0 {
      StartClosed(bs - 8, n);
      if n >= MANY { MulStep(bs - 8, MANY - 1, n + 1); MulStep(bs - 8, n, n + 1); }
    }
  }

  lemma IndexMonotone(bs: nat, pos: nat, pos': nat)
    requires MIN_BLOCK <= bs < U32 && pos <= pos' < U32
    ensures Index(bs, pos).0 <= Index(bs, pos').0
  {
    hide Index;
    IndexCorrect(bs, pos);
    IndexCorrect(bs, pos');
    var n, n' := Index(bs, pos).0, Index(bs, pos').0;
    if n' < n { LaterStart(bs - 8, pos, n', n); }
  }

  lemma IndexIs(bs: nat, pos: nat, n: nat, off: int)
    requires MIN_BLOCK <= bs < U32 && pos < U32 && At(bs, pos, n, off)
    ensures Index(bs, pos) == (n, off)
  {
    hide Index;
    IndexCorrect(bs, pos);
    AtUnique(bs, pos, n, off, Index(bs, pos).0, Index(bs, pos).1);
  }

  // block n has room for its pointers
  lemma HeaderFits(n: nat)
    requires n <= MANY
    ensures Header(n) <= 108 && (n > 0 ==> Pow2(CtzOf(n)) <= n)
  {
    if n > 0 {
      Pow2OfCtz(n);
      Pow2Of26();
      if CtzOf(n) > 26 { Pow2Mono(27, CtzOf(n)); }
    }
  }

  // ---------------------------------------------------------------- lists

  /** Pointer k of a block. */
  function Slot(blk: seq<byte>, k: nat): nat
    requires 4 * k + 4 <= |blk|
  {
    TagWord.LittleEndian(blk[4 * k..4 * k + 4])
  }

  /** Slot k of block n points to block n-2^k, for every k up to ctz(n). */
  predicate Linked(blk: seq<byte>, chain: seq<int>, n: nat)
    requires n <= |chain|
  {
    n > 0 ==>
      forall k :: 0 <= k <= CtzOf(n) ==> 4 * k + 4 <= |blk| && Pow2(k) <= n && Slot(blk, k) == chain[n - Pow2(k)]
  }

  /** The blocks of chain form a skip list. */
  predicate Listed(bs: nat, disk: Disk, chain: seq<int>)
  {
    && |chain| <= MANY
    && forall n :: 0 <= n < |chain| ==>
         chain[n] in disk && 0 <= chain[n] < U32 && |disk[chain[n]]| == bs && Linked(disk[chain[n]], chain, n)
  }

  // blocks a file of this size has
  function Length(bs: nat, size: nat): nat
    requires 8 < bs < U32
  {
    if size == 0 then 0 else Index(bs, size - 1).0 + 1
  }

  /** A file as the directory names it: the last block and the size. */
  predicate IsFile(bs: nat, disk: Disk, chain: seq<int>, head: int, size: nat)
  {
    && MIN_BLOCK <= bs < U32 && size < U32 && Listed(bs, disk, chain) && |chain| == Length(bs, size)
    && (chain != [] ==> head == chain[|chain| - 1])
  }

  /** What is seen through a program cache. */
  function View(cfg: Config, disk: Disk, p: CacheState): (v: Disk)
    requires DiskOk(cfg, disk) && (p.block == NULL_BLOCK || CacheOk(cfg, p))
    ensures v.Keys == disk.Keys
  {
    map b | b in disk :: Seen(cfg, disk, p, b)
  }

  /** The read cache is not stale on any block of the list. */
  predicate FreshOn(cfg: Config, disk: Disk, r: CacheState, chain: seq<int>)
  {
    |r.buffer| == cfg.cacheSize && (r.block in chain ==> Coherent(cfg, disk, r))
  }

  lemma SlotOfLinked(blk: seq<byte>, chain: seq<int>, n: nat, k: nat)
    requires 0 < n <= |chain| && Linked(blk, chain, n) && k <= CtzOf(n)
    ensures 4 * k + 4 <= |blk| && Pow2(k) <= n && Slot(blk, k) == chain[n - Pow2(k)]
  {}

  // a read cache that was left alone or made coherent is as good as before
  lemma FreshStill(cfg: Config, disk: Disk, r0: CacheState, r1: CacheState, chain: seq<int>)
    requires FreshOn(cfg, disk, r0, chain) && (r1 == r0 || Coherent(cfg, disk, r1)) && |r1.buffer| == cfg.cacheSize
    ensures FreshOn(cfg, disk, r1, chain)
  {}

  lemma FreshBuffer(cfg: Config, disk: Disk, r: CacheState, chain: seq<int>)
    requires FreshOn(cfg, disk, r, chain)
    ensures |r.buffer| == cfg.cacheSize
  {}

  // ---------------------------------------------------------------- finding a block

  /** One hop: the pointer read leads to the block it should. */
  method Hop(dev: Device, pcache: Cache?, rcache: Cache, head: int, skip: nat, ghost chain: seq<int>, ghost n: nat)
    returns (r: Option<int>)
    requires dev.Valid() && pcache != rcache && ReadAligned(dev.cfg, StateOf(pcache))
    requires Listed(dev.cfg.blockSize, View(dev.cfg, dev.disk, StateOf(pcache)), chain)
    requires FreshOn(dev.cfg, dev.disk, rcache.State(), chain)
    requires 0 < n < |chain| && head == chain[n] && skip <= CtzOf(n)
    modifies rcache
    ensures rcache.State() == old(rcache.State()) || Coherent(dev.cfg, dev.disk, rcache.State())
    ensures |rcache.buffer| == dev.cfg.cacheSize
    ensures Pow2(skip) <= n && r == Some(chain[n - Pow2(skip)])
  {
    hide Coherent;
    hide Seen;
    hide Linked;
    SlotOfLinked(View(dev.cfg, dev.disk, StateOf(pcache))[head], chain, n, skip);
    var word := BdRead(dev, pcache, rcache, 4, head, 4 * skip, 4);
    if word == None {
      return None;
    }
    r := Some(TagWord.LittleEndian(word.value));
  }

  /** Following the longest pointers that do not overshoot reaches exactly the block that
      holds the position. */
  method Find(dev: Device, pcache: Cache?, rcache: Cache, head: int, size: nat, pos: nat, ghost chain: seq<int>)
    returns (r: Option<(int, nat)>, ghost hops: nat)
    requires dev.Valid() && pcache != rcache && ReadAligned(dev.cfg, StateOf(pcache)) && pos < U32
    requires IsFile(dev.cfg.blockSize, View(dev.cfg, dev.disk, StateOf(pcache)), chain, head, size)
    requires FreshOn(dev.cfg, dev.disk, rcache.State(), chain)
    modifies rcache
    ensures rcache.State() == old(rcache.State()) || Coherent(dev.cfg, dev.disk, rcache.State())
    ensures |rcache.buffer| == dev.cfg.cacheSize && (hops == 0 ==> rcache.State() == old(rcache.State()))
    ensures size == 0 ==> r == Some((NULL_BLOCK, 0)) && hops == 0
    ensures size > 0 ==>
              var (n, off) := Index(dev.cfg.blockSize, pos);
              var last := |chain| - 1;
              && r == Some((chain[Min(n, last)], off))
              && hops == if n <= last then Hops(last, n) else 0
  {
    hide Coherent;
    hide Seen;
    hide Linked;
    hide Index;
    hide CtzOf;
    hide Pow2;
    hide Hops;
    hide FreshOn;
    hide Bits;
    hide Listed;
    hide View;
    ghost var r0 := rcache.State();
    FreshBuffer(dev.cfg, dev.disk, r0, chain);
    HopsNone();
    hops := 0;
    if size == 0 {
      return Some((NULL_BLOCK, 0)), 0;
    }
    var current: nat := Index(dev.cfg.blockSize, size - 1).0;
    var (target: nat, off: nat) := Index(dev.cfg.blockSize, pos);
    var head := head;
    while current > target
      invariant current < |chain| && head == chain[current]
      invariant target >= |chain| ==> current == |chain| - 1 && hops == 0
      invariant target < |chain| ==> target <= current && hops + Hops(current, target) == Hops(|chain| - 1, target)
      invariant rcache.State() == old(rcache.State()) || Coherent(dev.cfg, dev.disk, rcache.State())
      invariant |rcache.buffer| == dev.cfg.cacheSize && (hops == 0 ==> rcache.State() == r0)
    {
      HopUnfold(current, target);
      SkipFits(current, target);
      FreshStill(dev.cfg, dev.disk, r0, rcache.State(), chain);
      var skip := Skip(current, target);
      var next := Hop(dev, pcache, rcache, head, skip, chain, current);
      if next == None {
        return None, hops;
      }
      head := next.value;
      current := current - Pow2(skip);
      hops := hops + 1;
    }
    return Some((head, off)), hops;
  }

  // ---------------------------------------------------------------- visiting every block

  function Reversed(s: seq<int>): (r: seq<int>)
    ensures |r| == |s|
  {
    if s == [] then [] else [s[|s| - 1]] + Reversed(s[..|s| - 1])
  }

  lemma ReversedStep(s: seq<int>, n: nat)
    requires n < |s|
    ensures Reversed(s[..n + 1]) == [s[n]] + Reversed(s[..n])
  {
    assert s[..n + 1][..n] == s[..n];
  }

  lemma ReversedPair(s: seq<int>, n: nat, count: nat)
    requires count <= n < |s| && 1 <= count <= 2
    ensures Reversed(s[..n + 1]) == [s[n]] + (if count == 2 then [s[n - 1]] else []) + Reversed(s[..n + 1 - count])
  {
    ReversedStep(s, n);
    if count == 2 { ReversedStep(s, n - 1); }
  }

  // one turn of the walk
  lemma VisitOn(s: seq<int>, n: nat, count: nat, seen: seq<int>, heads: seq<int>)
    requires 1 <= count <= 2 && count <= n < |s| && seen + Reversed(s[..n + 1]) == Reversed(s)
    requires heads == if count == 2 then [s[n - 1], s[n - 2]] else [s[n - 1]]
    ensures seen + [s[n]] + heads[..count - 1] + Reversed(s[..n - count + 1]) == Reversed(s)
  {
    hide Reversed;
    ReversedPair(s, n, count);
    var rest, more := Reversed(s[..n + 1 - count]), if count == 2 then [s[n - 1]] else [];
    assert heads[..count - 1] == more;
    Grouped(seen, [s[n]], more, rest);
  }

  lemma Grouped(a: seq<int>, b: seq<int>, c: seq<int>, d: seq<int>)
    ensures a + b + c + d == a + (b + c + d)
  {}

  lemma ReversedOne(s: seq<int>)
    requires s != []
    ensures Reversed(s[..1]) == [s[0]]
  {
    ReversedStep(s, 0);
  }

  // one pointer in blocks of odd index, two in blocks of even index
  method Heads(dev: Device, pcache: Cache?, rcache: Cache, head: int, count: nat) returns (r: Option<seq<int>>)
    requires dev.Valid() && pcache != rcache && ReadAligned(dev.cfg, StateOf(pcache)) && 1 <= count <= 2
    requires Fresh(dev.cfg, dev.disk, rcache.State(), head)
    modifies rcache
    ensures rcache.State() == old(rcache.State()) || Coherent(dev.cfg, dev.disk, rcache.State())
    ensures |rcache.buffer| == dev.cfg.cacheSize && (r != None ==> |r.value| == count)
    ensures head in dev.disk && 8 <= dev.cfg.blockSize ==>
              var blk := Seen(dev.cfg, dev.disk, StateOf(pcache), head);
              r == Some(if count == 2 then [Slot(blk, 0), Slot(blk, 1)] else [Slot(blk, 0)])
  {
    hide Coherent;
    hide Seen;
    var words := BdRead(dev, pcache, rcache, 4 * count, head, 0, 4 * count);
    if words == None {
      return None;
    }
    var w := words.value;
    if head in dev.disk && 8 <= dev.cfg.blockSize {
      WordsOf(Seen(dev.cfg, dev.disk, StateOf(pcache), head), w, count);
    }
    if |w| == 8 {
      return Some([TagWord.LittleEndian(w[..4]), TagWord.LittleEndian(w[4..8])]);
    }
    r := if |w| == 4 then Some([TagWord.LittleEndian(w)]) else None;
  }

  lemma WordsOf(blk: seq<byte>, w: seq<byte>, count: nat)
    requires 1 <= count <= 2 && 8 <= |blk| && w == blk[0..4 * count]
    ensures w[..4] == blk[0..4] && (count == 2 ==> w[4..8] == blk[4..8]) && (count == 1 ==> w == w[..4])
  {}

  // what the pointers of a block of the list lead to
  lemma HeadsOfList(bs: nat, v: Disk, chain: seq<int>, n: nat)
    requires Listed(bs, v, chain) && 0 < n < |chain| && 8 <= bs
    ensures chain[n] in v && |v[chain[n]]| == bs && Slot(v[chain[n]], 0) == chain[n - 1]
    ensures n % 2 == 0 ==> n >= 2 && Slot(v[chain[n]], 1) == chain[n - 2]
  {
    hide Slot;
    hide Linked;
    SlotOfLinked(v[chain[n]], chain, n, 0);
    if n % 2 == 0 { SlotOfLinked(v[chain[n]], chain, n, 1); }
  }

  // the traversal knows which block of the list it is at
  ghost predicate OnCourse(bs: nat, v: Disk, chain: seq<int>, seen: seq<int>, head: int, index: nat)
  {
    Listed(bs, v, chain) && index < |chain| && head == chain[index] && seen + Reversed(chain[..index + 1]) == Reversed(chain)
  }

  lemma CourseKept(bs: nat, v: Disk, chain: seq<int>, seen: seq<int>, head: int, index: nat, heads: seq<int>)
    requires OnCourse(bs, v, chain, seen, head, index) && index > 0 && 8 <= bs
    requires head in v && 8 <= |v[head]| ==>
               heads == if index % 2 == 0 then [Slot(v[head], 0), Slot(v[head], 1)] else [Slot(v[head], 0)]
    ensures var count := 2 - index % 2;
            |heads| == count <= index && OnCourse(bs, v, chain, seen + [head] + heads[..count - 1], heads[count - 1], index - count)
  {
    hide Slot;
    hide Reversed;
    HeadsOfList(bs, v, chain, index);
    VisitOn(chain, index, 2 - index % 2, seen, heads);
  }

  lemma CourseEnds(bs: nat, v: Disk, chain: seq<int>, seen: seq<int>, head: int)
    requires OnCourse(bs, v, chain, seen, head, 0)
    ensures seen + [head] == Reversed(chain)
  {
    hide Slot;
    ReversedOne(chain);
  }

  lemma CourseStarts(bs: nat, v: Disk, chain: seq<int>, head: int, size: nat)
    requires IsFile(bs, v, chain, head, size) && size > 0
    ensures OnCourse(bs, v, chain, [], head, Index(bs, size - 1).0)
  {
    hide Linked;
    hide Index;
    assert chain[..Index(bs, size - 1).0 + 1] == chain;
  }

  /** Stepping back by one or two by parity, the visits of a list are every one of its blocks
      exactly once, from the last down to the first. Whatever the head is, the visits start with
      it and are as many as a file of this size has blocks, if all reads succeed. */
  method Traverse(dev: Device, pcache: Cache?, rcache: Cache, head: int, size: nat, ghost chain: seq<int>)
    returns (visited: Option<seq<int>>)
    requires dev.Valid() && pcache != rcache && ReadAligned(dev.cfg, StateOf(pcache))
    requires MIN_BLOCK <= dev.cfg.blockSize < U32 && size < U32
    requires Coherent(dev.cfg, dev.disk, rcache.State())
             || (IsFile(dev.cfg.blockSize, View(dev.cfg, dev.disk, StateOf(pcache)), chain, head, size)
                 && FreshOn(dev.cfg, dev.disk, rcache.State(), chain))
    modifies rcache
    ensures rcache.State() == old(rcache.State()) || Coherent(dev.cfg, dev.disk, rcache.State())
    ensures visited != None ==> |visited.value| == Length(dev.cfg.blockSize, size) && (size > 0 ==> visited.value[0] == head)
    ensures IsFile(dev.cfg.blockSize, View(dev.cfg, dev.disk, StateOf(pcache)), chain, head, size) ==> visited == Some(Reversed(chain))
  {
    hide Coherent;
    hide Seen;
    hide Listed;
    hide Index;
    hide Reversed;
    hide OnCourse;
    hide View;
    hide Slot;
    hide FreshOn;
    ghost var bs, v := dev.cfg.blockSize, View(dev.cfg, dev.disk, StateOf(pcache));
    ghost var isFile, r0 := IsFile(bs, v, chain, head, size), rcache.State();
    var seen: seq<int> := [];
    if size == 0 {
      return Some(seen);
    }
    if isFile { CourseStarts(bs, v, chain, head, size); }
    var at, index: nat := head, Index(dev.cfg.blockSize, size - 1).0;
    while true
      invariant |seen| + index + 1 == Length(bs, size) && (if seen == [] then at == head else seen[0] == head)
      invariant isFile ==> OnCourse(bs, v, chain, seen, at, index)
      invariant rcache.State() == r0 || Coherent(dev.cfg, dev.disk, rcache.State())
      decreases index
    {
      ghost var seen0 := seen;
      seen := seen + [at];
      if index == 0 {
        if isFile { CourseEnds(bs, v, chain, seen0, at); }
        return Some(seen);
      }
      var count: nat := 2 - index % 2;
      FreshAtHead(dev.cfg, dev.disk, v, r0, rcache.State(), chain, seen0, at, index);
      var heads := Heads(dev, pcache, rcache, at, count);
      if isFile { HeadInView(dev.cfg, dev.disk, StateOf(pcache), chain, seen0, at, index); }
      if heads == None {
        return None;
      }
      if isFile { CourseKept(bs, v, chain, seen0, at, index, heads.value); }
      seen := seen + heads.value[..count - 1];
      at, index := heads.value[count - 1], index - count;
    }
  }

  lemma FreshAtHead(cfg: Config, disk: Disk, v: Disk, r0: CacheState, r: CacheState, chain: seq<int>, seen: seq<int>, head: int, index: nat)
    requires Coherent(cfg, disk, r0) || (OnCourse(cfg.blockSize, v, chain, seen, head, index) && FreshOn(cfg, disk, r0, chain))
    requires r == r0 || Coherent(cfg, disk, r)
    ensures Fresh(cfg, disk, r, head)
  {
    hide Listed;
  }

  lemma HeadInView(cfg: Config, disk: Disk, p: CacheState, chain: seq<int>, seen: seq<int>, head: int, index: nat)
    requires DiskOk(cfg, disk) && Shown(cfg, p) && OnCourse(cfg.blockSize, View(cfg, disk, p), chain, seen, head, index)
    ensures head in disk && View(cfg, disk, p)[head] == Seen(cfg, disk, p, head)
  {
    hide Linked;
  }
}
