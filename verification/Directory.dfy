/** What a log says about a directory: the attributes of its entries, how many entries
    there are, the metadata pair that goes on after it, and its share of the global
    state.  Compaction keeps the entries and carries the other two along. */
module Directory {
  import opened Words
  import opened MetaLog
  import opened MetaBlock
  import opened Compaction

  // ---------------------------------------------------------------- tail and state delta

  /** The next pair of the directory list; hard if it belongs to the same directory. */
  datatype Tail = Tail(hard: bool, pair: seq<byte>)

  predicate IsTail(t: Rec) { Class(t.kind) == 6 }

  // a pair with half of it missing leads nowhere
  predicate NullPair(pair: seq<byte>)
    requires |pair| == 8
  {
    pair[..4] == NULL_HALF || pair[4..] == NULL_HALF
  }

  const NULL_HALF: seq<byte> := [0xff, 0xff, 0xff, 0xff]

  function ReadTail(t: Rec): Option<Tail>
  {
    var pair := Fit(t.data, 8);
    if NullPair(pair) then None else Some(Tail(t.kind % 2 == 1, pair))
  }

  /** The last tail in the log is the one that counts. */
  function TailOf(log: seq<Rec>): Option<Tail>
  {
    if log == [] then None
    else if IsTail(log[|log| - 1]) then ReadTail(log[|log| - 1])
    else TailOf(log[..|log| - 1])
  }

  const MOVESTATE := 0x7ff

  const ZERO_DELTA: seq<byte> := [0, 0, 0, 0, 0, 0, 0, 0, 0, 0, 0, 0]

  predicate IsDelta(t: Rec) { t.kind == MOVESTATE }

  function ReadDelta(t: Rec): seq<byte> { if IsDeleted(t) then ZERO_DELTA else Fit(t.data, 12) }

  /** The directory's share of the global state; no such tag means zero. */
  function DeltaOf(log: seq<Rec>): seq<byte>
  {
    if log == [] then ZERO_DELTA
    else if IsDelta(log[|log| - 1]) then ReadDelta(log[|log| - 1])
    else DeltaOf(log[..|log| - 1])
  }

  // what is behind the last tag of a kind does not count
  lemma {:induction false} TailBefore(log: seq<Rec>, n: nat)
    requires n <= |log| && forall j :: n <= j < |log| ==> !IsTail(log[j])
    ensures TailOf(log) == TailOf(log[..n])
    decreases |log|
  {
    if n < |log| {
      TailBefore(log[..|log| - 1], n);
      assert log[..|log| - 1][..n] == log[..n];
    } else {
      assert log[..n] == log;
    }
  }

  lemma {:induction false} DeltaBefore(log: seq<Rec>, n: nat)
    requires n <= |log| && forall j :: n <= j < |log| ==> !IsDelta(log[j])
    ensures DeltaOf(log) == DeltaOf(log[..n])
    decreases |log|
  {
    if n < |log| {
      DeltaBefore(log[..|log| - 1], n);
      assert log[..|log| - 1][..n] == log[..n];
    } else {
      assert log[..n] == log;
    }
  }

  /** Type 0x600 is a tail that leads to another directory, 0x601 one that goes on with this one;
      the last one in the log counts, and all ones in either half of it lead nowhere. */
  lemma TailIs(log: seq<Rec>, i: nat)
    requires i < |log| && (log[i].kind == 0x600 || log[i].kind == 0x601) && |log[i].data| == 8
    requires forall j :: i < j < |log| ==> !IsTail(log[j])
    ensures var pair := log[i].data;
            if pair[..4] == [0xff, 0xff, 0xff, 0xff] || pair[4..] == [0xff, 0xff, 0xff, 0xff] then TailOf(log) == None
            else TailOf(log) == Some(Tail(log[i].kind == 0x601, pair))
  {
    TailBefore(log, i + 1);
    assert log[..i + 1][i] == log[i];
    assert Fit(log[i].data, 8) == log[i].data;
  }

  /** The last delta in the log counts. */
  lemma DeltaIs(log: seq<Rec>, i: nat)
    requires i < |log| && IsDelta(log[i]) && |log[i].data| == 12 && !IsDeleted(log[i])
    requires forall j :: i < j < |log| ==> !IsDelta(log[j])
    ensures DeltaOf(log) == log[i].data
  {
    DeltaBefore(log, i + 1);
    assert log[..i + 1][i] == log[i];
    assert Fit(log[i].data, 12) == log[i].data;
  }

  /** Without such tags there is neither. */
  lemma NeitherTailNorDelta(log: seq<Rec>)
    ensures (forall j :: 0 <= j < |log| ==> !IsTail(log[j])) ==> TailOf(log) == None
    ensures (forall j :: 0 <= j < |log| ==> !IsDelta(log[j])) ==> DeltaOf(log) == seq(12, i => 0)
  {
    if forall j :: 0 <= j < |log| ==> !IsTail(log[j]) { TailBefore(log, 0); }
    if forall j :: 0 <= j < |log| ==> !IsDelta(log[j]) { DeltaBefore(log, 0); }
  }

  // ---------------------------------------------------------------- the same directory

  /** Two logs describe the same directory. */
  ghost predicate SameDir(a: seq<Rec>, b: seq<Rec>)
  {
    SameEntries(a, b) && Count(a) == Count(b) && TailOf(a) == TailOf(b) && DeltaOf(a) == DeltaOf(b)
  }

  // every lookup of an entry by key agrees
  ghost predicate SameEntries(a: seq<Rec>, b: seq<Rec>)
  {
    forall kind: nat, g: int :: kind < 0x400 ==> SameAt(a, b, kind, g)
  }

  predicate SameAt(a: seq<Rec>, b: seq<Rec>, kind: nat, g: int)
  {
    Lookup(a, KeyQuery(kind), g) == Lookup(b, KeyQuery(kind), g)
  }

  lemma SameDirTransitive(a: seq<Rec>, b: seq<Rec>, c: seq<Rec>)
    requires SameDir(a, b) && SameDir(b, c)
    ensures SameDir(a, c)
  {
    forall kind: nat, g: int | kind < 0x400 ensures SameAt(a, c, kind, g) {
      assert SameAt(a, b, kind, g) && SameAt(b, c, kind, g);
    }
  }

  /** The same tags appended to logs of the same directory give the same directory. */
  lemma SameDirExtended(a: seq<Rec>, b: seq<Rec>, u: seq<Rec>)
    requires SameDir(a, b)
    ensures SameDir(a + u, b + u)
  {
    forall kind: nat, g: int | kind < 0x400 ensures SameAt(a + u, b + u, kind, g) {
      WalkConcat(a, u, KeyQuery(kind), g);
      WalkConcat(b, u, KeyQuery(kind), g);
      var w := WalkBack(u, KeyQuery(kind), g);
      if w.Fell? { assert SameAt(a, b, kind, w.id); }
    }
    SameRestExtended(a, b, u);
  }

  lemma {:induction false} SameRestExtended(a: seq<Rec>, b: seq<Rec>, u: seq<Rec>)
    requires Count(a) == Count(b) && TailOf(a) == TailOf(b) && DeltaOf(a) == DeltaOf(b)
    ensures Count(a + u) == Count(b + u) && TailOf(a + u) == TailOf(b + u) && DeltaOf(a + u) == DeltaOf(b + u)
    decreases |u|
  {
    if u == [] {
      assert a + u == a && b + u == b;
    } else {
      var init := u[..|u| - 1];
      SameRestExtended(a, b, init);
      LastOf(a, u);
      LastOf(b, u);
    }
  }

  lemma LastOf(a: seq<Rec>, u: seq<Rec>)
    requires u != []
    ensures (a + u)[|a + u| - 1] == u[|u| - 1] && (a + u)[..|a + u| - 1] == a + u[..|u| - 1]
  {}

  // ---------------------------------------------------------------- tags that are not about entries

  predicate NoEntries(recs: seq<Rec>)
  {
    forall i :: 0 <= i < |recs| ==> !IsAttr(recs[i]) && !IsSplice(recs[i])
  }

  // checksums say nothing about the directory
  predicate Silent(recs: seq<Rec>)
  {
    forall i :: 0 <= i < |recs| ==> Class(recs[i].kind) == 5
  }

  lemma {:induction false} WalkOverNoEntries(extra: seq<Rec>, q: Query, g: int)
    requires NoEntries(extra) && EntryQuery(q)
    ensures WalkBack(extra, q, g) == Fell(g)
    decreases |extra|
  {
    if extra != [] {
      var t := extra[|extra| - 1];
      assert !IsAttr(t) && !IsSplice(t);
      if Matches(q, t) { EntryQueryMatchesAttr(q, t); }
      WalkOverNoEntries(extra[..|extra| - 1], q, g);
    }
  }

  lemma {:induction false} SameEntriesWithout(log: seq<Rec>, extra: seq<Rec>)
    requires NoEntries(extra)
    ensures SameEntries(log + extra, log)
  {
    forall kind: nat, g: int | kind < 0x400 ensures SameAt(log + extra, log, kind, g) {
      WalkConcat(log, extra, KeyQuery(kind), g);
      WalkOverNoEntries(extra, KeyQuery(kind), g);
    }
  }

  lemma {:induction false} SameCountWithout(log: seq<Rec>, extra: seq<Rec>)
    requires NoEntries(extra)
    ensures Count(log + extra) == Count(log) && Replay(log + extra) == Replay(log)
    decreases |extra|
  {
    if extra == [] {
      assert log + extra == log;
    } else {
      LastOf(log, extra);
      SameCountWithout(log, extra[..|extra| - 1]);
      assert !IsAttr(extra[|extra| - 1]) && !IsSplice(extra[|extra| - 1]);
    }
  }

  lemma {:induction false} SameRestWithout(log: seq<Rec>, extra: seq<Rec>)
    requires Silent(extra)
    ensures TailOf(log + extra) == TailOf(log) && DeltaOf(log + extra) == DeltaOf(log)
    decreases |extra|
  {
    if extra == [] {
      assert log + extra == log;
    } else {
      LastOf(log, extra);
      SameRestWithout(log, extra[..|extra| - 1]);
      assert Class(extra[|extra| - 1].kind) == 5;
    }
  }

  lemma SameDirWithout(log: seq<Rec>, extra: seq<Rec>)
    requires Silent(extra)
    ensures SameDir(log + extra, log) && Replay(log + extra) == Replay(log)
  {
    SameEntriesWithout(log, extra);
    SameCountWithout(log, extra);
    SameRestWithout(log, extra);
  }

  // ---------------------------------------------------------------- the number of entries

  /** How creates and deletes change the number of entries. */
  function Splices(u: seq<Rec>): int
  {
    if u == [] then 0
    else Splices(u[..|u| - 1]) + if IsSplice(u[|u| - 1]) then Splice(u[|u| - 1]) else 0
  }

  /** Every tag is about an entry that is there, of n at the start; creating may also append. */
  predicate Placed(n: int, u: seq<Rec>)
  {
    u == [] ||
    var init, t := u[..|u| - 1], u[|u| - 1];
    && Placed(n, init)
    && (IsAttr(t) || t.kind == DELETE ==> t.id < n + Splices(init))
    && (t.kind == CREATE ==> t.id <= n + Splices(init))
  }

  /** A fetch counts exactly the entries that replaying the log gives. */
  predicate Counted(log: seq<Rec>) { |Replay(log)| == Count(log) }

  /** An update with every tag in place keeps the count right, and the count a mounted
      directory keeps by its creates and deletes alone is the count a fetch would find. */
  lemma {:induction false} CountedExtends(log: seq<Rec>, u: seq<Rec>)
    requires Counted(log) && WellFormedLog(u) && Placed(Count(log), u)
    ensures Counted(log + u) && Count(log + u) == Count(log) + Splices(u)
    decreases |u|
  {
    if u == [] {
      assert log + u == log;
    } else {
      var init, t := u[..|u| - 1], u[|u| - 1];
      CountedExtends(log, init);
      LastOf(log, u);
      assert WellFormed(t);
    }
  }

  /** Every entry has a name. */
  ghost predicate Named(log: seq<Rec>)
  {
    forall g :: 0 <= g < Count(log) ==> Lookup(log, KeyQuery(NAME), g).Some?
  }

  lemma {:induction false} ReplayOfAttrs(log: seq<Rec>, end: nat)
    requires forall t | t in log :: IsAttr(t) && t.id < end
    ensures Count(log) <= |Replay(log)| <= end
    decreases |log|
  {
    if log != [] {
      assert log[|log| - 1] in log;
      ReplayOfAttrs(log[..|log| - 1], end);
    }
  }

  // ---------------------------------------------------------------- compaction

  /** What compaction writes behind the live tags of the entries: the tail and the state
      delta, unless there is nothing to say. */
  function Carried(log: seq<Rec>): seq<Rec> { CarriedTail(TailOf(log)) + CarriedDelta(DeltaOf(log)) }

  function CarriedTail(tail: Option<Tail>): seq<Rec>
  {
    match tail
    case None => []
    case Some(t) => [Rec(0x600 + (if t.hard then 1 else 0), 0x3ff, 8, t.pair)]
  }

  function CarriedDelta(delta: seq<byte>): seq<Rec>
  {
    if delta == ZERO_DELTA then [] else [Rec(MOVESTATE, 0x3ff, 12, delta)]
  }

  lemma {:induction false} RestBound(log: seq<Rec>)
    ensures TailOf(log).Some? ==> |TailOf(log).value.pair| == 8 && !NullPair(TailOf(log).value.pair)
    ensures |DeltaOf(log)| == 12
    decreases |log|
  {
    if log != [] { RestBound(log[..|log| - 1]); }
  }

  lemma CarriedNoEntries(log: seq<Rec>)
    ensures NoEntries(Carried(log))
  {
    hide TailOf;
    hide DeltaOf;
  }

  lemma CarriedReads(log: seq<Rec>, attrs: seq<Rec>)
    requires forall t | t in attrs :: IsAttr(t)
    ensures TailOf(attrs + Carried(log)) == TailOf(log) && DeltaOf(attrs + Carried(log)) == DeltaOf(log)
  {
    hide TailOf;
    hide DeltaOf;
    hide CarriedTail;
    hide CarriedDelta;
    RestBound(log);
    NothingCarried(attrs);
    var tail, delta := TailOf(log), DeltaOf(log);
    TailReads(attrs, tail);
    DeltaReads(attrs + CarriedTail(tail), delta);
    assert attrs + CarriedTail(tail) + CarriedDelta(delta) == attrs + Carried(log);
  }

  lemma TailReads(log: seq<Rec>, tail: Option<Tail>)
    requires TailOf(log) == None && (tail.Some? ==> |tail.value.pair| == 8 && !NullPair(tail.value.pair))
    ensures TailOf(log + CarriedTail(tail)) == tail && DeltaOf(log + CarriedTail(tail)) == DeltaOf(log)
  {
    hide NullPair;
    var c := CarriedTail(tail);
    if tail.None? {
      assert log + c == log;
    } else {
      LastOf(log, c);
      assert log + c[..0] == log;
      assert Fit(tail.value.pair, 8) == tail.value.pair;
    }
  }

  lemma DeltaReads(log: seq<Rec>, delta: seq<byte>)
    requires DeltaOf(log) == ZERO_DELTA && |delta| == 12
    ensures DeltaOf(log + CarriedDelta(delta)) == delta && TailOf(log + CarriedDelta(delta)) == TailOf(log)
  {
    var c := CarriedDelta(delta);
    if c == [] {
      assert log + c == log;
    } else {
      LastOf(log, c);
      assert log + c[..0] == log;
      assert Fit(delta, 12) == delta;
    }
  }

  lemma {:induction false} NothingCarried(attrs: seq<Rec>)
    requires forall t | t in attrs :: IsAttr(t)
    ensures TailOf(attrs) == None && DeltaOf(attrs) == ZERO_DELTA
    decreases |attrs|
  {
    if attrs != [] {
      assert attrs[|attrs| - 1] in attrs;
      NothingCarried(attrs[..|attrs| - 1]);
    }
  }

  lemma {:induction false} NegativeIds(log: seq<Rec>, q: Query, g: int)
    requires g < 0
    ensures WalkBack(log, q, g) == Fell(g)
    decreases |log|
  {
    if log != [] { NegativeIds(log[..|log| - 1], q, g); }
  }

  lemma {:induction false} BeyondRange(log: seq<Rec>, q: Query, end: nat, g: int)
    requires (forall t | t in log :: IsAttr(t) && t.id < end) && g >= end
    ensures WalkBack(log, q, g) == Fell(g)
    decreases |log|
  {
    if log != [] {
      assert log[|log| - 1] in log;
      BeyondRange(log[..|log| - 1], q, end, g);
    }
  }

  lemma CompactedEntries(log: seq<Rec>, end: nat)
    requires WellFormedLog(log) && |Replay(log)| <= end
    ensures SameEntries(Compact(log, 0, end), log)
  {
    var c := Compact(log, 0, end);
    CompactShape(log, 0, end);
    forall kind: nat, g: int | kind < 0x400 ensures SameAt(c, log, kind, g) {
      if g < 0 {
        NegativeIds(c, KeyQuery(kind), g);
        NegativeIds(log, KeyQuery(kind), g);
      } else if g < end {
        CompactPreservesLookup(log, kind, 0, end, g);
      } else {
        BackwardRefinesReplay(log, KeyQuery(kind), g);
        BeyondRange(c, KeyQuery(kind), end, g);
      }
    }
  }

  /** A whole compacted directory is the same directory: its entries, their number, the
      tail and the state delta. */
  lemma CompactedIsSame(log: seq<Rec>)
    requires WellFormedLog(log) && Counted(log) && Named(log)
    ensures SameDir(Compact(log, 0, Count(log)) + Carried(log), log)
    ensures Counted(Compact(log, 0, Count(log)) + Carried(log))
  {
    var end := Count(log);
    var c, extra := Compact(log, 0, end), Carried(log);
    CompactShape(log, 0, end);
    CompactCount(log, 0, end);
    ReplayOfAttrs(c, end);
    CompactedEntries(log, end);
    CarriedNoEntries(log);
    SameEntriesWithout(c, extra);
    SameCountWithout(c, extra);
    CarriedReads(log, c);
    forall kind: nat, g: int | kind < 0x400 ensures SameAt(c + extra, log, kind, g) {
      assert SameAt(c + extra, c, kind, g) && SameAt(c, log, kind, g);
    }
  }
}
