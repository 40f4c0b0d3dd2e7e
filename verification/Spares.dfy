/** Where the spare blocks of a file come from: what an allocator with safe books hands out is
    spare for every list that was live or in flight before. */
module Spares {
  import opened Words
  import opened Allocator
  import opened BlockDevice
  import CtzFile

  /** The blocks handed out, in order. */
  function HandedIn(log: seq<Event>): seq<int>
  {
    if log == [] then []
    else
      var e := log[|log| - 1];
      HandedIn(log[..|log| - 1]) + if e.Handed? then [e.block] else []
  }

  // nothing is settled meanwhile, and none of these blocks is freed
  predicate Undisturbed(log: seq<Event>, blocks: set<int>)
  {
    forall i :: 0 <= i < |log| ==> log[i] != Settled && (log[i].Freed? ==> log[i].blocks !! blocks)
  }

  // blocks of the disk are handed out
  predicate Known(disk: Disk, log: seq<Event>)
  {
    forall i :: 0 <= i < |log| && log[i].Handed? ==> log[i].block in disk && 0 <= log[i].block < U32
  }

  lemma {:induction false} HandedIsNew(live: set<int>, before: seq<Event>, log: seq<Event>, blocks: set<int>)
    requires After(live, before + log).safe && Undisturbed(log, blocks)
    requires var b := After(live, before); blocks <= b.live + b.inflight
    ensures var b := After(live, before + log);
            && blocks <= b.live + b.inflight && Distinct(HandedIn(log))
            && forall x :: x in HandedIn(log) ==> x in b.inflight && x !in blocks
    decreases |log|
  {
    if log == [] {
      assert before + log == before;
    } else {
      var front, e := log[..|log| - 1], log[|log| - 1];
      assert before + log == (before + front) + [e];
      AfterOne(live, before + front, e);
      assert Undisturbed(front, blocks);
      HandedIsNew(live, before, front, blocks);
    }
  }

  /** Over every run of an allocator with safe books, what it hands out between two moments when
      nothing is in flight is spare for the lists that were there: known blocks, all different,
      in none of the lists, unless the lists were freed. */
  lemma HandedIsSpare(live: set<int>, before: seq<Event>, log: seq<Event>, disk: Disk, lists: seq<int>)
    requires After(live, before + log).safe && Undisturbed(log, set b | b in lists)
    requires var b := After(live, before); forall x :: x in lists ==> x in b.live || x in b.inflight
    requires Known(disk, log)
    ensures CtzFile.Spare(disk, HandedIn(log), lists)
  {
    hide After;
    hide HandedIn;
    hide Undisturbed;
    var books := After(live, before);
    var blocks := set b | b in lists;
    forall x | x in blocks ensures x in books.live + books.inflight {
      assert x in lists;
    }
    HandedIsNew(live, before, log, blocks);
    HandedKnown(disk, log);
  }

  lemma {:induction false} HandedKnown(disk: Disk, log: seq<Event>)
    requires Known(disk, log)
    ensures forall x :: x in HandedIn(log) ==> x in disk && 0 <= x < U32
    decreases |log|
  {
    if log != [] {
      var front := log[..|log| - 1];
      assert Known(disk, front);
      HandedKnown(disk, front);
    }
  }
}
