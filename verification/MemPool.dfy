/** The pool of equal blocks that threads wait for: every step runs with interrupts off, and
    steps of different threads interleave in any order. */
module MemPool {
  import opened Words
  import opened Arith
  import opened CircularList

  const NULL := 0
  const WORD := 4
  // ---------------------------------------------------------------- one step

  /** The free blocks in list order, the blocks handed out, the threads that wait, the most
      recent first, and those woken by a free that have not looked again yet. */
  datatype State = State(frees: seq<int>, held: set<int>, suspended: seq<int>, woken: set<int>)

  /** A thread looks, for the first time or after it was woken; a block is freed; a thread
      waits no longer; one that waits is sent away, because the pool is taken down. */
  datatype Action = Look(thread: int, time: int) | Free(block: int) | Timeout(thread: int) | Evict

  predicate Possible(s: State, a: Action)
  {
    match a
    case Look(t, _) => t !in s.suspended
    case Free(b) => b in s.held
    case Timeout(t) => t in s.suspended
    case Evict => s.suspended != []
  }

  function Without(s: seq<int>, x: int): seq<int>
  {
    if s == [] then [] else if s[0] == x then s[1..] else [s[0]] + Without(s[1..], x)
  }

  function Step(s: State, a: Action): State
    requires Possible(s, a)
  {
    match a
    case Look(t, time) =>
      if s.frees != [] then State(s.frees[1..], s.held + {s.frees[0]}, s.suspended, s.woken - {t})
      else State(s.frees, s.held, if time == 0 then s.suspended else [t] + s.suspended, s.woken - {t})
    case Free(b) =>
      if s.suspended == [] then State([b] + s.frees, s.held - {b}, s.suspended, s.woken)
      else State([b] + s.frees, s.held - {b}, s.suspended[1..], s.woken + {s.suspended[0]})
    case Timeout(t) => s.(suspended := Without(s.suspended, t))
    case Evict => s.(suspended := s.suspended[1..])
  }

  /** No wakeup is lost: while a thread waits, there are no more free blocks than threads that
      were woken and have yet to look. */
  predicate NoneLost(s: State)
  {
    s.suspended != [] ==> |s.frees| <= |s.woken|
  }

  /** Every block is free or handed out, and a thread waits at most once. */
  ghost predicate Consistent(blocks: set<int>, s: State)
  {
    && Distinct(s.frees) && Distinct(s.suspended)
    && (forall b :: b in blocks <==> b in s.frees || b in s.held)
    && (forall b :: b in s.frees ==> b !in s.held)
    && (forall t :: t in s.suspended ==> t !in s.woken)
    && NoneLost(s)
  }

  lemma {:induction false} WithoutHas(s: seq<int>, x: int, y: int)
    requires Distinct(s)
    ensures Distinct(Without(s, x)) && (y in Without(s, x) <==> y in s && y != x)
  {
    if s != [] {
      WithoutHas(s[1..], x, y);
      if s[0] != x {
        WithoutHas(s[1..], x, s[0]);
        var w := Without(s[1..], x);
        assert s[0] !in s[1..];
        assert s[0] !in w;
      }
    }
  }

  lemma {:induction false} WithoutIs(s: seq<int>, x: int) returns (i: nat)
    requires x in s
    ensures i < |s| && s[i] == x && Without(s, x) == s[..i] + s[i + 1..]
  {
    if s[0] == x {
      return 0;
    }
    var j := WithoutIs(s[1..], x);
    assert s[..j + 1] == [s[0]] + s[1..][..j] && s[j + 2..] == s[1..][j + 1..];
    return j + 1;
  }

  lemma LookKeeps(blocks: set<int>, s: State, t: int, time: int)
    requires Consistent(blocks, s) && Possible(s, Look(t, time))
    ensures Consistent(blocks, Step(s, Look(t, time)))
  {
    var n := Step(s, Look(t, time));
    if s.frees != [] {
      assert forall b :: b in s.frees <==> b == s.frees[0] || b in n.frees;
      assert s.frees[0] !in n.frees;
    } else {
      assert forall u :: u in n.suspended ==> u == t || u in s.suspended;
    }
  }

  lemma FreeKeeps(blocks: set<int>, s: State, b: int)
    requires Consistent(blocks, s) && b in s.held
    ensures Consistent(blocks, Step(s, Free(b)))
  {
    var n := Step(s, Free(b));
    assert forall c :: c in n.frees <==> c == b || c in s.frees;
    assert b !in s.frees;
    if s.suspended != [] {
      assert forall u :: u in s.suspended <==> u == s.suspended[0] || u in n.suspended;
      assert s.suspended[0] !in n.suspended;
    }
  }

  /** Every step of every thread keeps it. */
  lemma StepKeeps(blocks: set<int>, s: State, a: Action)
    requires Consistent(blocks, s) && Possible(s, a)
    ensures Consistent(blocks, Step(s, a))
  {
    match a
    case Look(t, time) => LookKeeps(blocks, s, t, time);
    case Free(b) => FreeKeeps(blocks, s, b);
    case Timeout(t) =>
      WithoutHas(s.suspended, t, t);
      forall u | u in Without(s.suspended, t) ensures u in s.suspended { WithoutHas(s.suspended, t, u); }
    case Evict => assert forall u :: u in s.suspended[1..] ==> u in s.suspended;
  }

  predicate PossibleRun(s: State, actions: seq<Action>)
    decreases |actions|
  {
    actions == [] || (Possible(s, actions[0]) && PossibleRun(Step(s, actions[0]), actions[1..]))
  }

  function Run(s: State, actions: seq<Action>): State
    requires PossibleRun(s, actions)
    decreases |actions|
  {
    if actions == [] then s else Run(Step(s, actions[0]), actions[1..])
  }

  /** In every interleaving, a thread that waits while nobody who was woken has yet to look
      waits for a block that is not there. */
  lemma {:induction false} RunKeeps(blocks: set<int>, s: State, actions: seq<Action>)
    requires Consistent(blocks, s) && PossibleRun(s, actions)
    ensures Consistent(blocks, Run(s, actions))
    ensures Run(s, actions).suspended != [] && Run(s, actions).woken == {} ==> Run(s, actions).frees == []
    decreases |actions|
  {
    if actions != [] {
      StepKeeps(blocks, s, actions[0]);
      RunKeeps(blocks, Step(s, actions[0]), actions[1..]);
    }
  }

  // ---------------------------------------------------------------- the pool

  // the mark in the word of a block that is handed out: the pool it belongs to
  const SELF := -1

  /** The list that starts at head, through the words in front of the blocks. */
  predicate Chain(link: map<int, int>, head: int, frees: seq<int>)
    decreases |frees|
  {
    if frees == [] then head == NULL
    else head == frees[0] && head in link && Chain(link, link[head], frees[1..])
  }

  lemma {:induction false} ChainElsewhere(link: map<int, int>, head: int, frees: seq<int>, x: int, v: int)
    requires Chain(link, head, frees) && x !in frees
    ensures Chain(link[x := v], head, frees)
    decreases |frees|
  {
    if frees != [] { ChainElsewhere(link, link[head], frees[1..], x, v); }
  }

  lemma ChainHead(link: map<int, int>, head: int, frees: seq<int>)
    requires Chain(link, head, frees) && frees != []
    ensures head == frees[0] && head in link && Chain(link, link[head], frees[1..])
  {}

  // addresses of the words in front of the blocks
  function Address(start: int, stride: nat, i: nat): int { start + i * stride }

  function Addresses(start: int, stride: nat, from: nat, to_: nat): (s: seq<int>)
    requires from <= to_
    ensures |s| == to_ - from
    decreases to_ - from
  {
    if from == to_ then [] else [Address(start, stride, from)] + Addresses(start, stride, from + 1, to_)
  }

  lemma {:induction false} AddressesAt(start: int, stride: nat, from: nat, to_: nat, k: nat)
    requires from <= to_ && k < to_ - from
    ensures Addresses(start, stride, from, to_)[k] == Address(start, stride, from + k)
    decreases to_ - from
  {
    if k > 0 { AddressesAt(start, stride, from + 1, to_, k - 1); }
  }

  lemma AddressesDistinct(start: int, stride: nat, n: nat)
    requires stride > 0
    ensures Distinct(Addresses(start, stride, 0, n))
  {
    var s := Addresses(start, stride, 0, n);
    forall i, j | 0 <= i < j < n ensures s[i] != s[j] {
      AddressesAt(start, stride, 0, n, i);
      AddressesAt(start, stride, 0, n, j);
      MulStep(stride, i, j);
    }
  }

  class Pool {
    const start: int
    const stride: nat
    const total: nat
    var freeCount: int
    var blockList: int
    // the word in front of each block
    var link: map<int, int>
    var suspended: seq<int>
    ghost var frees: seq<int>
    ghost var held: set<int>
    ghost var woken: set<int>

    ghost function Now(): State
      reads this
    {
      State(frees, held, suspended, woken)
    }

    /** The counter is the length of the list, and the list is where the words say. */
    ghost predicate Valid()
      reads this
    {
      && freeCount == |frees| && (total > 0 ==> Chain(link, blockList, frees))
      && Consistent(Blocks(), Now()) && (forall b :: b in held ==> b in link && link[b] == SELF)
      && NULL !in Blocks()
    }

    ghost function Blocks(): set<int>
      reads this
    {
      set i | 0 <= i < total :: Address(start, stride, i)
    }

    /** Takes a block off the list, or suspends the thread in front of those that wait. */
    method Look(thread: int, time: int) returns (block: Option<int>)
      requires Valid() && Possible(Now(), Action.Look(thread, time))
      modifies this
      ensures Valid() && Now() == Step(old(Now()), Action.Look(thread, time))
      // without a block, the thread waits in front of the others, unless it has no time
      ensures freeCount == |frees| && (old(freeCount) == 0 ==>
                block == None && frees == [] && held == old(held) && suspended == (if time == 0 then [] else [thread]) + old(suspended))
      // otherwise it gets the first block, and the others go on waiting
      ensures old(freeCount) > 0 ==>
                && block == Some(old(frees)[0] + WORD) && frees == old(frees)[1..] && held == old(held) + {old(frees)[0]}
                && suspended == old(suspended)
      ensures woken == old(woken) - {thread}
    {
      hide Possible;
      hide Chain;
      hide Consistent;
      StepKeeps(Blocks(), Now(), Action.Look(thread, time));
      if freeCount == 0 {
        if time != 0 {
          suspended := [thread] + suspended;
        }
        woken := woken - {thread};
        return None;
      }
      Known(Blocks(), Now(), 0);
      ChainHead(link, blockList, frees);
      freeCount := freeCount - 1;
      var b := blockList;
      blockList := link[b];
      ChainElsewhere(link, blockList, frees[1..], b, SELF);
      link := link[b := SELF];
      frees, held, woken := frees[1..], held + {b}, woken - {thread};
      return Some(b + WORD);
    }

    /** Puts a block in front of the list, and wakes the thread that has waited least. */
    method Free(block: int)
      requires Valid() && (block != NULL ==> block - WORD in held)
      modifies this
      ensures Valid() && Now() == if block == NULL then old(Now()) else Step(old(Now()), Action.Free(block - WORD))
      ensures freeCount == |frees| && (block != NULL ==> frees == [block - WORD] + old(frees) && held == old(held) - {block - WORD})
      // the thread in front of those that wait is woken, and no other
      ensures block != NULL && old(suspended) != [] ==>
                suspended == old(suspended)[1..] && woken == old(woken) + {old(suspended)[0]}
      ensures block == NULL || old(suspended) == [] ==> suspended == old(suspended) && woken == old(woken)
    {
      if block == NULL {
        return;
      }
      var b := block - WORD;
      StepKeeps(Blocks(), Now(), Action.Free(b));
      freeCount := freeCount + 1;
      ChainElsewhere(link, blockList, frees, b, blockList);
      link := link[b := blockList];
      blockList := b;
      frees, held := [b] + frees, held - {b};
      if suspended != [] {
        woken := woken + {suspended[0]};
        suspended := suspended[1..];
      }
    }

    method Timeout(thread: int)
      requires Valid() && Possible(Now(), Action.Timeout(thread))
      modifies this
      ensures Valid() && Now() == Step(old(Now()), Action.Timeout(thread))
      ensures frees == old(frees) && held == old(held) && woken == old(woken)
      ensures exists i :: 0 <= i < |old(suspended)| && old(suspended)[i] == thread
                          && suspended == old(suspended)[..i] + old(suspended)[i + 1..]
    {
      StepKeeps(Blocks(), Now(), Action.Timeout(thread));
      var i := WithoutIs(suspended, thread);
      suspended := Without(suspended, thread);
    }

    /** Wakes the thread in front of those that wait, with an error: it does not look again. */
    method Evict()
      requires Valid() && Possible(Now(), Action.Evict)
      modifies this
      ensures Valid() && Now() == Step(old(Now()), Action.Evict)
      ensures suspended == old(suspended)[1..] && frees == old(frees) && held == old(held) && woken == old(woken)
    {
      StepKeeps(Blocks(), Now(), Action.Evict);
      suspended := suspended[1..];
    }

    /** Sends everybody away who waits, one by one. */
    method Detach()
      requires Valid()
      modifies this
      ensures Valid() && Now() == old(Now()).(suspended := [])
    {
      while suspended != []
        invariant Valid() && Now() == old(Now()).(suspended := suspended)
        decreases |suspended|
      {
        Evict();
      }
    }

    /** Links the blocks of a pool. All words that are written are in the pool exactly if there
        is room for a block. */
    constructor (start: int, size: nat, blockSize: nat)
      requires 0 < start && start + size < U32 && 0 < size && 0 < blockSize < U32 && Stride(blockSize) > 0
      ensures this.start == start && stride == Stride(blockSize) && total == Count(size, stride)
      ensures Valid() && suspended == [] && freeCount == total
      ensures InPool(link, start, stride, size) <==> total > 0
    {
      hide Count;
      hide AlignUp;
      var d := Stride(blockSize);
      var n := Count(size, d);
      CountFits(size, d);
      this.start, this.stride, this.total := start, d, n;
      freeCount, blockList, suspended := n, start, [];
      held, woken := {}, {};
      frees := Addresses(start, d, 0, n);
      var l := LinkAll(start, d, n, size);
      link := l;
      new;
      hide Consistent;
      hide Chain;
      hide Addresses;
      hide InPool;
      hide LinkedWord;
      AddressOfFirst(start, d);
      if n > 0 { ChainOf(link, start, d, 0, n); }
      FirstState(start, d, n);
    }
  }

  /** The bytes of a block and the word in front of it, in 32-bit arithmetic. */
  function Stride(blockSize: nat): (d: nat)
    ensures d < U32
  {
    (AlignDown((blockSize + WORD - 1) % U32, WORD) + WORD) % U32
  }

  /** What is set aside for a block holds it exactly if its size leaves room for rounding up and
      for the word. Sizes above that give nothing, for which the code divides by zero, or, from
      four below the limit on, the word alone. */
  lemma StrideCoversIff(blockSize: nat)
    requires blockSize < U32
    ensures Stride(blockSize) >= blockSize + WORD <==> blockSize <= U32 - 2 * WORD
    ensures Stride(blockSize) == 0 <==> U32 - 2 * WORD < blockSize <= U32 - WORD
    ensures blockSize > U32 - WORD ==> Stride(blockSize) == WORD
    ensures blockSize <= U32 - 2 * WORD ==> Stride(blockSize) == AlignUp(blockSize, WORD) + WORD
  {
    if blockSize <= U32 - WORD {
      assert (blockSize + WORD - 1) % U32 == blockSize + WORD - 1;
      assert AlignUp(blockSize, WORD) == AlignDown(blockSize + WORD - 1, WORD);
      if blockSize > U32 - 2 * WORD { AlignDownIs(blockSize + WORD - 1, WORD, U32 - WORD); }
      else { Below(AlignUp(blockSize, WORD)); }
    } else {
      assert (blockSize + WORD - 1) % U32 == blockSize + WORD - 1 - U32;
      AlignDownIs(blockSize + WORD - 1 - U32, WORD, 0);
    }
  }

  lemma Below(a: nat)
    requires Multiple(a, WORD) && a < U32 - WORD
    ensures (a + WORD) % U32 == a + WORD
  {}

  // blocks in the pool
  function Count(size: nat, stride: nat): nat
    requires stride > 0
  {
    AlignDown(size, WORD) / stride
  }

  lemma CountFits(size: nat, stride: nat)
    requires stride > 0
    ensures Count(size, stride) * stride <= size
  {
    DivMod(AlignDown(size, WORD), stride);
  }

  // the words of a new pool
  method LinkAll(start: int, d: nat, n: nat, size: nat) returns (l: map<int, int>)
    requires 0 < start && start + size < U32 && 0 < d <= U32 && n * d <= size
    ensures forall i :: 0 <= i < n ==> LinkedWord(l, start, d, n, i)
    ensures InPool(l, start, d, size) <==> n > 0
  {
    l := map[];
    var offset: nat := 0;
    while offset < n
      invariant offset <= n && InPool(l, start, d, size)
      invariant forall i :: 0 <= i < offset ==> LinkedNext(l, start, d, i)
    {
      MulStep(d, offset, n);
      OneMore(l, start, d, offset, Address(start, d, offset + 1), offset);
      l := l[Address(start, d, offset) := Address(start, d, offset + 1)];
      offset := offset + 1;
    }
    if n > 0 {
      MulStep(d, n - 1, n);
      LastWord(start, d, n - 1, size);
      OneMore(l, start, d, n - 1, NULL, n - 1);
    } else {
      BeforeStart(start, d, size);
    }
    ghost var last := (start + (offset - 1) * d) % U32;
    l := l[(start + (offset - 1) * d) % U32 := NULL];
    assert last in l;
    if n > 0 {
      assert last == Address(start, d, n - 1);
      forall i | 0 <= i < n ensures LinkedWord(l, start, d, n, i) { assert i < n - 1 ==> LinkedNext(l, start, d, i); }
    }
  }

  // every word is in front of a block that is in the pool
  predicate InPool(l: map<int, int>, start: int, d: nat, size: nat)
  {
    forall a | a in l :: start <= a && a + d <= start + size
  }

  predicate LinkedNext(l: map<int, int>, start: int, d: nat, i: nat)
  {
    Address(start, d, i) in l && l[Address(start, d, i)] == Address(start, d, i + 1)
  }

  predicate LinkedWord(l: map<int, int>, start: int, d: nat, n: nat, i: nat)
  {
    Address(start, d, i) in l && l[Address(start, d, i)] == if i + 1 < n then Address(start, d, i + 1) else NULL
  }

  lemma OneMore(l: map<int, int>, start: int, d: nat, k: nat, v: int, n: nat)
    requires d > 0 && n <= k && forall i :: 0 <= i < n ==> LinkedNext(l, start, d, i)
    ensures var l' := l[Address(start, d, k) := v]; forall i :: 0 <= i < n ==> LinkedNext(l', start, d, i)
  {
    var l' := l[Address(start, d, k) := v];
    forall i | 0 <= i < n ensures LinkedNext(l', start, d, i) {
      assert LinkedNext(l, start, d, i);
      MulStep(d, i, k);
    }
  }

  lemma LastWord(start: int, d: nat, k: nat, size: nat)
    requires 0 < start && start + size < U32 && k * d + d <= size
    ensures (start + k * d) % U32 == Address(start, d, k)
  {
    var p := k * d;
    assert 0 <= start + p < U32;
  }

  // without a block, the word in front of the pool is written
  lemma BeforeStart(start: int, d: nat, size: nat)
    requires 0 < start && start + size < U32 && 0 < d <= U32
    ensures var a := (start + (0 - 1) * d) % U32; !(start <= a && a + d <= start + size)
  {
    assert (0 - 1) * d == 0 - d;
    if start >= d {
      assert (start - d) % U32 == start - d;
    } else {
      assert (start - d) % U32 == U32 + start - d;
    }
  }

  lemma {:induction false} ChainOf(l: map<int, int>, start: int, d: nat, from: nat, n: nat)
    requires from <= n && forall i :: from <= i < n ==> LinkedWord(l, start, d, n, i)
    ensures Chain(l, if from < n then Address(start, d, from) else NULL, Addresses(start, d, from, n))
    decreases n - from
  {
    if from < n {
      assert LinkedWord(l, start, d, n, from);
      ChainOf(l, start, d, from + 1, n);
      assert Addresses(start, d, from, n)[1..] == Addresses(start, d, from + 1, n);
    }
  }

  lemma AddressOfFirst(start: int, d: nat)
    ensures Address(start, d, 0) == start
  {}

  lemma FirstState(start: int, d: nat, n: nat)
    requires start > 0 && d > 0
    ensures var blocks := set i | 0 <= i < n :: Address(start, d, i);
            Consistent(blocks, State(Addresses(start, d, 0, n), {}, [], {})) && NULL !in blocks
  {
    var s := Addresses(start, d, 0, n);
    AddressesDistinct(start, d, n);
    forall k | 0 <= k < n ensures s[k] == Address(start, d, k) { AddressesAt(start, d, 0, n, k); }
    forall i: nat ensures Address(start, d, i) > 0 { NotNegative(i, d); }
  }

  lemma NotNegative(i: nat, d: nat)
    ensures i * d >= 0
  {}

  lemma Known(blocks: set<int>, s: State, k: nat)
    requires Consistent(blocks, s) && k < |s.frees|
    ensures blocks != {} && s.frees[k] in blocks && s.frees[k] !in s.held && s.frees[k] !in s.frees[k + 1..]
  {
    var b := s.frees[k];
    assert b in s.frees;
  }
}
