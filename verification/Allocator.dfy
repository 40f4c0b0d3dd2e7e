/** The block allocator: a bitmap window that slides over the ring of blocks, and a counter
    of the blocks it may still look at since nothing was in flight. */
module Allocator {
  import opened Words
  import opened Arith
  import opened Bitmap

  // ---------------------------------------------------------------- the ring

  /** The block at a position, counted on and on around the ring. */
  function Ring(count: nat, k: nat): (b: nat)
    requires count > 0
    ensures b < count
  {
    DivMod(k, count);
    k % count
  }

  lemma RingDistinct(count: nat, j: nat, k: nat)
    requires count > 0 && j < k < j + count
    ensures Ring(count, j) != Ring(count, k)
  {
    DivMod(j, count);
    DivMod(k, count);
    var p, q := j / count, k / count;
    if p < q { MulStep(count, p, q); } else if q < p { MulStep(count, q, p); }
  }

  lemma RingStep(count: nat, k: nat, n: nat)
    requires count > 0 && n <= count
    ensures var r := Ring(count, k);
            Ring(count, k + n) == if r + n < count then r + n else r + n - count
  {
    DivMod(k, count);
    var q, r := k / count, k % count;
    assert (q + 1) * count == q * count + count;
    if r + n < count {
      DivModUnique(k + n, count, q, r + n);
    } else {
      DivModUnique(k + n, count, q + 1, r + n - count);
    }
  }

  /** The offset of a block in the window, in 32-bit arithmetic. */
  function Offset(count: nat, start: nat, block: nat): nat
    requires count > 0
  {
    ((block - start) % U32 + count) % U32 % count
  }

  /** The block the window is at, in 32-bit arithmetic. */
  function BlockAt(count: nat, start: nat, next: nat): nat
    requires count > 0
  {
    (start + next) % U32 % count
  }

  lemma BlockAtIs(count: nat, k: nat, n: nat)
    requires 0 < count <= 0x8000_0000 && n <= count
    ensures BlockAt(count, Ring(count, k), n) == Ring(count, k + n)
  {
    RingStep(count, k, n);
    var s := Ring(count, k) + n;
    assert s % U32 == s;
    if s < count { DivModUnique(s, count, 0, s); } else { DivModUnique(s, count, 1, s - count); }
  }

  /** A block is at its offset, and at no other offset around the ring. */
  lemma OffsetIs(count: nat, k: nat, block: nat, i: nat)
    requires 0 < count <= 0x8000_0000 && block < count && i < count
    ensures Offset(count, Ring(count, k), block) < count
    ensures Ring(count, k + i) == block <==> i == Offset(count, Ring(count, k), block)
  {
    hide Offset;
    hide Ring;
    var start := Ring(count, k);
    var d := if block >= start then block - start else block + count - start;
    OffsetValue(count, start, block, d);
    RingStep(count, k, d);
    if i < d { RingDistinct(count, k + i, k + d); } else if d < i { RingDistinct(count, k + d, k + i); }
  }

  lemma OffsetValue(count: nat, start: nat, block: nat, d: nat)
    requires 0 < count <= 0x8000_0000 && block < count && start < count
    requires d == if block >= start then block - start else block + count - start
    ensures Offset(count, start, block) == d
  {
    if block >= start {
      assert (block - start) % U32 == block - start;
      assert (d + count) % U32 == d + count;
      DivModUnique(d + count, count, 1, d);
    } else {
      assert (block - start) % U32 == U32 + block - start;
      assert (U32 + d) % U32 == d;
      DivModUnique(d, count, 0, d);
    }
  }

  /** With more than half of the 32-bit range of blocks the offset goes wrong. */
  lemma OffsetWraps(count: nat)
    requires 0x8000_0000 < count < U32
    ensures var block := U32 - count; 0 < block < count && Offset(count, 0, block) == 0 && Ring(count, 0) != block
  {
    DivModUnique(0, count, 0, 0);
  }

  // ---------------------------------------------------------------- the books

  /** What happens to blocks. Settled: nothing is in flight any more. */
  datatype Event = Handed(block: int) | Committed(blocks: set<int>) | Freed(blocks: set<int>) | Settled

  datatype Books = Books(live: set<int>, inflight: set<int>, safe: bool)

  /** Bookkeeping that does not know about windows: a block may be handed out if it is neither
      live nor in flight, and what is committed was in flight. */
  function Enter(b: Books, e: Event): Books
  {
    match e
    case Handed(x) => Books(b.live, b.inflight + {x}, b.safe && x !in b.live && x !in b.inflight)
    case Committed(xs) => Books(b.live + xs, b.inflight, b.safe && xs <= b.inflight)
    case Freed(xs) => Books(b.live - xs, b.inflight, b.safe)
    case Settled => Books(b.live, {}, b.safe)
  }

  function After(live: set<int>, log: seq<Event>): Books
  {
    if log == [] then Books(live, {}, true) else Enter(After(live, log[..|log| - 1]), log[|log| - 1])
  }

  lemma AfterOne(live: set<int>, log: seq<Event>, e: Event)
    ensures After(live, log + [e]) == Enter(After(live, log), e)
  {
    assert (log + [e])[..|log|] == log;
  }

  // safe books were always safe
  lemma {:induction false} SafePrefix(live: set<int>, log: seq<Event>, i: nat)
    requires i <= |log| && After(live, log).safe
    ensures After(live, log[..i]).safe
    decreases |log|
  {
    if i < |log| {
      var front := log[..|log| - 1];
      SafePrefix(live, front, i);
      assert front[..i] == log[..i];
    } else {
      assert log[..i] == log;
    }
  }

  lemma {:induction false} StaysInFlight(live: set<int>, log: seq<Event>, i: nat, j: nat, x: int)
    requires i < j <= |log| && log[i] == Handed(x) && forall m :: i < m < j ==> log[m] != Settled
    ensures x in After(live, log[..j]).inflight
    decreases j
  {
    assert log[..j] == log[..j - 1] + [log[j - 1]];
    AfterOne(live, log[..j - 1], log[j - 1]);
    if i < j - 1 { StaysInFlight(live, log, i, j - 1, x); }
  }

  /** In safe books no block is handed out twice unless everything was settled in between, and
      none is handed out while it is live. */
  lemma HandedOnce(live: set<int>, log: seq<Event>, i: nat, j: nat, x: int)
    requires After(live, log).safe && i < j < |log| && log[i] == Handed(x) && log[j] == Handed(x)
    ensures exists m :: i < m < j && log[m] == Settled
    ensures x !in After(live, log[..j]).live
  {
    SafePrefix(live, log, j + 1);
    assert log[..j + 1] == log[..j] + [log[j]];
    AfterOne(live, log[..j], log[j]);
    if forall m :: i < m < j ==> log[m] != Settled { StaysInFlight(live, log, i, j, x); }
  }

  // ---------------------------------------------------------------- the window

  predicate Counters(count: nat, bytes: nat, start: nat, next: nat, size: nat, ckpoint: nat, base: nat, buffer: seq<byte>)
  {
    && 0 < count <= 0x8000_0000 && 0 < bytes == |buffer| && start == Ring(count, base)
    && next <= size <= 8 * bytes && size <= count
    // what is left of the window may still be looked at: the counter does not run below zero
    && size - next <= ckpoint <= count && base + next >= count - ckpoint
  }

  /** Ahead in the window, a clear bit is a block that is not live, and a set bit one that the
      last traversal reported. */
  predicate AheadOk(count: nat, base: nat, next: nat, size: nat, buffer: seq<byte>, live: set<int>, reported: set<int>)
    requires count > 0 && size <= 8 * |buffer|
  {
    forall i :: next <= i < size ==> if Bit(buffer, i) then Ring(count, base + i) in reported else Ring(count, base + i) !in live
  }

  /** Everything passed since nothing was in flight was handed out or found in use, and what
      was handed out is among it. */
  predicate BehindOk(count: nat, at: nat, passed: nat, handed: set<nat>, used: set<int>)
    requires count > 0
  {
    && (forall k :: k in handed ==> at - passed <= k < at)
    && (forall k :: at - passed <= k < at && k >= 0 ==> k in handed || Ring(count, k) in used)
  }

  function BlocksAt(count: nat, handed: set<nat>): set<int>
    requires count > 0
  {
    set k | k in handed :: Ring(count, k) as int
  }

  lemma AheadIsNotInFlight(count: nat, at: nat, passed: nat, handed: set<nat>, used: set<int>, i: nat)
    requires count > 0 && BehindOk(count, at, passed, handed, used) && passed + i < count
    ensures Ring(count, at + i) !in BlocksAt(count, handed)
  {
    forall k | k in handed ensures Ring(count, k) != Ring(count, at + i) { RingDistinct(count, k, at + i); }
  }

  lemma BlocksAtPlus(count: nat, handed: set<nat>, k: nat)
    requires count > 0
    ensures BlocksAt(count, handed + {k}) == BlocksAt(count, handed) + {Ring(count, k) as int}
  {}

  // committing what is in flight does not touch what is ahead
  lemma AheadCommitted(count: nat, base: nat, next: nat, size: nat, ckpoint: nat, buffer: seq<byte>, live: set<int>, reported: set<int>,
                       handed: set<nat>, used: set<int>, blocks: set<int>)
    requires 0 < count && next <= size <= 8 * |buffer| && size - next <= ckpoint <= count && blocks <= BlocksAt(count, handed)
    requires AheadOk(count, base, next, size, buffer, live, reported) && BehindOk(count, base + next, count - ckpoint, handed, used)
    ensures AheadOk(count, base, next, size, buffer, live + blocks, reported)
  {
    hide Ring;
    hide Bit;
    hide BlocksAt;
    hide BehindOk;
    forall i | next <= i < size
      ensures if Bit(buffer, i) then Ring(count, base + i) in reported else Ring(count, base + i) !in live + blocks
    {
      AheadIsNotInFlight(count, base + next, count - ckpoint, handed, used, i - next);
      assert base + next + (i - next) == base + i;
    }
  }

  // freeing does not touch what is ahead
  lemma AheadFreed(count: nat, base: nat, next: nat, size: nat, buffer: seq<byte>, live: set<int>, reported: set<int>, blocks: set<int>)
    requires count > 0 && size <= 8 * |buffer| && AheadOk(count, base, next, size, buffer, live, reported)
    ensures AheadOk(count, base, next, size, buffer, live - blocks, reported)
  {
    hide Ring;
    hide Bit;
  }

  /** A traversal that does not fail reports blocks of the disk, and every live one. */
  predicate Reports(count: nat, traversal: Option<seq<int>>, live: set<int>)
  {
    traversal != None ==> (forall b :: b in traversal.value ==> 0 <= b < count) && (forall b :: b in live ==> b in traversal.value)
  }

  ghost predicate ReportedBy(traversals: nat -> Option<seq<int>>, b: int)
  {
    exists i: nat :: traversals(i) != None && b in traversals(i).value
  }

  // where what is known to be in use is known from
  ghost predicate Known(traversals: nat -> Option<seq<int>>, used: set<int>, reported: set<int>, s: set<int>)
  {
    forall b :: b in s ==> b in used || b in reported || ReportedBy(traversals, b)
  }

  lemma NowKnown(traversals: nat -> Option<seq<int>>, i: nat, before: set<int>, reported: set<int>)
    requires traversals(i) != None && reported == set b | b in traversals(i).value
    ensures Known(traversals, {}, before, reported)
  {}

  datatype Outcome = Block(block: int) | NoSpace | Failed

  class Lookahead {
    const count: nat
    const bytes: nat
    var start: nat
    var next: nat
    var size: nat
    var ckpoint: nat
    var buffer: seq<byte>
    // the position of the window around the ring, and the positions handed out
    ghost var base: nat
    ghost var handed: set<nat>
    // blocks that were passed because they were in use, and those the last traversal reported
    ghost var used: set<int>
    ghost var reported: set<int>
    ghost var live: set<int>
    // the books
    ghost const live0: set<int>
    ghost var log: seq<Event>

    constructor (count: nat, bytes: nat, seed: nat, ghost live: set<int>)
      requires 0 < count <= 0x8000_0000 && bytes > 0
      ensures Valid() && this.count == count && this.live == live && InFlight() == {} && log == []
    {
      this.count, this.bytes := count, bytes;
      start, next, size, ckpoint, buffer := Ring(count, seed), 0, 0, count, Clear(bytes);
      base, handed, used, reported := seed, {}, {}, {};
      this.live, live0, log := live, live, [];
    }

    ghost predicate Valid()
      reads this
    {
      && Counters(count, bytes, start, next, size, ckpoint, base, buffer)
      && AheadOk(count, base, next, size, buffer, live, reported)
      && BehindOk(count, base + next, count - ckpoint, handed, used)
      && After(live0, log) == Books(live, InFlight(), true)
    }

    ghost function InFlight(): set<int>
      reads this
      requires count > 0
    {
      BlocksAt(count, handed)
    }

    /** Nothing is in flight: every block may be looked at again. */
    method Ckpoint()
      requires Valid()
      modifies this`ckpoint, this`handed, this`used, this`log
      ensures Valid() && ckpoint == count && InFlight() == {} && log == old(log) + [Settled]
    {
      hide Bit;
      hide Ring;
      hide After;
      AfterOne(live0, log, Settled);
      ckpoint, handed, used, log := count, {}, {}, log + [Settled];
    }

    /** Forget the window. */
    method Drop()
      requires Valid()
      modifies this`size, this`next, this`base, this`start, this`ckpoint, this`handed, this`used, this`log
      ensures Valid() && size == 0 && next == 0 && ckpoint == count && InFlight() == {} && log == old(log) + [Settled]
    {
      hide Bit;
      hide Ring;
      hide After;
      size, next := 0, 0;
      AfterOne(live0, log, Settled);
      ckpoint, handed, used, log := count, {}, {}, log + [Settled];
    }

    // what happens outside of the allocator
    ghost method Commit(blocks: set<int>)
      requires Valid() && blocks <= InFlight()
      modifies this`live, this`log
      ensures Valid() && live == old(live) + blocks && log == old(log) + [Committed(blocks)]
    {
      AfterOne(live0, log, Committed(blocks));
      AheadCommitted(count, base, next, size, ckpoint, buffer, live, reported, handed, used, blocks);
      live, log := live + blocks, log + [Committed(blocks)];
    }

    ghost method Free(blocks: set<int>)
      requires Valid()
      modifies this`live, this`log
      ensures Valid() && live == old(live) - blocks && log == old(log) + [Freed(blocks)]
    {
      hide After;
      hide Ring;
      hide Bit;
      hide BehindOk;
      hide AheadOk;
      AfterOne(live0, log, Freed(blocks));
      AheadFreed(count, base, next, size, buffer, live, reported, blocks);
      live, log := live - blocks, log + [Freed(blocks)];
    }

    // ---------------------------------------------------------------- looking for a block

    // a block in use is passed
    method Skip()
      requires Valid() && next < size && Bit(buffer, next)
      modifies this`next, this`ckpoint, this`used
      ensures Valid() && next == old(next) + 1 && ckpoint == old(ckpoint) - 1 && used == old(used) + {Ring(count, base + old(next)) as int}
      ensures used <= old(used) + reported
    {
      hide Ring;
      hide Bit;
      BehindSkip(count, base + next, count - ckpoint, handed, used);
      used := used + {Ring(count, base + next) as int};
      next, ckpoint := next + 1, ckpoint - 1;
    }

    // a free block is handed out
    method Hand() returns (block: int)
      requires Valid() && next < size && !Bit(buffer, next)
      modifies this`next, this`ckpoint, this`handed, this`log
      ensures Valid() && next == old(next) + 1 && ckpoint == old(ckpoint) - 1
      ensures 0 <= block < count && block !in live && block !in old(InFlight()) && InFlight() == old(InFlight()) + {block}
      ensures log == old(log) + [Handed(block)]
    {
      hide After;
      hide Ring;
      hide Bit;
      hide BlockAt;
      ghost var at := base + next;
      block := BlockAt(count, start, next);
      BlockAtIs(count, base, next);
      AheadIsNotInFlight(count, at, count - ckpoint, handed, used, 0);
      BehindHand(count, at, count - ckpoint, handed, used);
      BlocksAtPlus(count, handed, at);
      AfterOne(live0, log, Handed(block));
      handed, log := handed + {at}, log + [Handed(block)];
      next, ckpoint := next + 1, ckpoint - 1;
    }

    // the callback of the traversal
    method Mark(block: nat)
      requires 0 < count <= 0x8000_0000 && size <= count && size <= 8 * |buffer| && start == Ring(count, base) && block < count
      modifies this`buffer
      ensures |buffer| == |old(buffer)|
      ensures forall i :: 0 <= i < size ==> (Bit(buffer, i) <==> old(Bit(buffer, i)) || Ring(count, base + i) == block)
    {
      hide Ring;
      hide Bit;
      hide Offset;
      var off := Offset(count, start, block);
      ghost var was := buffer;
      if off < size { buffer := SetBit(buffer, off); }
      forall i | 0 <= i < size ensures Bit(buffer, i) <==> Bit(was, i) || Ring(count, base + i) == block {
        OffsetIs(count, base, block, i);
        if off < size { SetBitAt(was, off, i); }
      }
    }

    // the traversal, block by block
    method MarkAll(report: seq<int>)
      requires 0 < count <= 0x8000_0000 && size <= count && size <= 8 * |buffer| && start == Ring(count, base)
      requires forall b :: b in report ==> 0 <= b < count
      modifies this`buffer
      ensures |buffer| == |old(buffer)|
      ensures forall i :: 0 <= i < size ==> (Bit(buffer, i) <==> old(Bit(buffer, i)) || Ring(count, base + i) in report)
    {
      hide Ring;
      hide Bit;
      var j: nat := 0;
      ghost var was := buffer;
      while j < |report|
        invariant j <= |report| && |buffer| == |was|
        invariant forall i :: 0 <= i < size ==> (Bit(buffer, i) <==> Bit(was, i) || Ring(count, base + i) in report[..j])
      {
        assert report[..j + 1] == report[..j] + [report[j]];
        assert report[j] in report;
        Mark(report[j]);
        j := j + 1;
      }
      assert report[..j] == report;
    }

    /** Moves the window to the first block not looked at yet, no further than the checkpoint
        allows, and marks what the traversal reports. */
    method Scan(traversal: Option<seq<int>>) returns (ok: bool)
      requires Valid() && next == size
      requires Reports(count, traversal, live)
      modifies this`start, this`next, this`size, this`ckpoint, this`buffer, this`base, this`reported, this`handed, this`used, this`log
      ensures Valid() && ok == (traversal != None)
      ensures ok ==> next == 0 && size == Min(8 * bytes, ckpoint) && ckpoint == old(ckpoint) && base == old(base + next)
      ensures ok ==> InFlight() == old(InFlight()) && used == old(used) && log == old(log) && reported == set b | b in traversal.value
      ensures !ok ==> InFlight() == {} && log == old(log) + [Settled] && ckpoint == count
    {
      hide After;
      hide Ring;
      hide Bit;
      hide BlocksAt;
      hide BlockAt;
      BlockAtIs(count, base, next);
      start := BlockAt(count, start, next);
      base := base + next;
      next := 0;
      size := Min(8 * bytes, ckpoint);
      buffer := Clear(bytes);
      forall i | 0 <= i < size ensures !Bit(buffer, i) { ClearAt(bytes, i); }
      if traversal == None {
        size := 0;
        Drop();
        return false;
      }
      MarkAll(traversal.value);
      reported := set b | b in traversal.value;
      return true;
    }

    /** Finds a block, at most once around the ring since the last checkpoint. A block handed
        out is neither live nor in flight. Without one, every block of the disk is in flight or
        was found in use, as the scan covering it reported. Traversals gives the outcome
        of the traversal in each scan. */
    method Alloc(traversals: nat -> Option<seq<int>>) returns (r: Outcome)
      requires Valid() && forall i: nat :: Reports(count, traversals(i), live)
      modifies this`start, this`next, this`size, this`ckpoint, this`buffer, this`base, this`reported, this`handed, this`used, this`log
      ensures Valid()
      ensures r.Block? ==>
                && 0 <= r.block < count && r.block !in live && r.block !in old(InFlight())
                && InFlight() == old(InFlight()) + {r.block} && log == old(log) + [Handed(r.block)]
      ensures r.NoSpace? ==>
                && InFlight() == old(InFlight()) && log == old(log)
                && forall b :: 0 <= b < count ==> b in InFlight() || b in used
      ensures r.Failed? ==> (exists i: nat :: traversals(i) == None) && InFlight() == {} && log == old(log) + [Settled]
      ensures !r.Failed? ==> forall b :: b in used ==> b in old(used) || b in old(reported) || ReportedBy(traversals, b)
    {
      hide Ring;
      hide Bit;
      hide BlocksAt;
      hide AheadOk;
      hide BehindOk;
      hide ReportedBy;
      var scans: nat := 0;
      while true
        invariant Valid() && InFlight() == old(InFlight()) && log == old(log)
        invariant Known(traversals, old(used), old(reported), used) && Known(traversals, {}, old(reported), reported)
        decreases ckpoint, if next < size then 0 else 1
      {
        ghost var before, some := ckpoint, next < size;
        while next < size
          invariant Valid() && InFlight() == old(InFlight()) && log == old(log)
          invariant ckpoint <= before && (ckpoint == before ==> some == (next < size))
          invariant Known(traversals, old(used), old(reported), used) && Known(traversals, {}, old(reported), reported)
          decreases ckpoint
        {
          if !Bit(buffer, next) {
            var block := Hand();
            while next < size && Bit(buffer, next)
              invariant Valid() && InFlight() == old(InFlight()) + {block} && log == old(log) + [Handed(block)]
              invariant Known(traversals, old(used), old(reported), used) && Known(traversals, {}, old(reported), reported)
              decreases ckpoint
            {
              Skip();
            }
            return Block(block);
          }
          Skip();
        }
        if ckpoint <= 0 {
          AllPassed(count, base + next, handed, used);
          return NoSpace;
        }
        assert Reports(count, traversals(scans), live);
        var ok := Scan(traversals(scans));
        if !ok {
          return Failed;
        }
        NowKnown(traversals, scans, old(reported), reported);
        scans := scans + 1;
      }
    }
  }

  // once around the ring
  lemma AllPassed(count: nat, at: nat, handed: set<nat>, used: set<int>)
    requires count > 0 && at >= count && BehindOk(count, at, count, handed, used)
    ensures forall b :: 0 <= b < count ==> b in BlocksAt(count, handed) || b in used
  {
    forall b | 0 <= b < count ensures b in BlocksAt(count, handed) || b in used {
      var k := Before(count, at, b);
    }
  }

  // the position of a block less than once around the ring before another position
  lemma Before(count: nat, at: nat, b: nat) returns (k: nat)
    requires count > 0 && at >= count && b < count
    ensures at - count <= k < at && Ring(count, k) == b
  {
    var base := at - count;
    var start := Ring(count, base);
    var d := if b >= start then b - start else b + count - start;
    RingStep(count, base, d);
    k := base + d;
  }

  lemma BehindSkip(count: nat, at: nat, passed: nat, handed: set<nat>, used: set<int>)
    requires count > 0 && BehindOk(count, at, passed, handed, used)
    ensures BehindOk(count, at + 1, passed + 1, handed, used + {Ring(count, at) as int})
  {}

  lemma BehindHand(count: nat, at: nat, passed: nat, handed: set<nat>, used: set<int>)
    requires count > 0 && BehindOk(count, at, passed, handed, used)
    ensures BehindOk(count, at + 1, passed + 1, handed + {at}, used)
  {}
}
