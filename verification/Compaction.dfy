/** Compaction of a metadata log: copy only the tags that still matter, renumbered
    to today's ids and shifted into the id range of the new block, without the
    creates and deletes.  The compacted log answers every lookup as before. */
module Compaction {
  import opened Words
  import opened MetaLog

  // ---------------------------------------------------------------- the filter

  // bit 0x100 says whether attributes of a type are unique by the whole type or by
  // its class alone
  function KeyMask(kind: nat): Mask
  {
    if Class(kind) % 2 == 1 then ByType else ByClass
  }

  function KeyQuery(kind: nat): Query { Query(KeyMask(kind), kind) }

  /** Does the later tag u make t redundant? */
  predicate Kills(u: Rec, t: Rec)
  {
    || (Masked(KeyMask(u.kind), u.kind) == Masked(KeyMask(u.kind), t.kind) && u.id == t.id)
    || IsDeleted(t)
    || (u.kind == DELETE && u.id == t.id)
  }

  /** The id of t after the later tag u. */
  function Shifted(u: Rec, t: Rec): int
  {
    if IsSplice(u) && u.id <= t.id then t.id + Splice(u) else t.id
  }

  /** Tag t at its current id, unless a later tag makes it redundant. */
  function Filtered(t: Rec, later: seq<Rec>): Option<Rec>
    decreases |later|
  {
    if later == [] then Some(t)
    else if Kills(later[0], t) then None
    else Filtered(t.(id := Max(Shifted(later[0], t), 0)), later[1..])
  }

  /** What the traversal writes for tag t followed by the tags later. */
  function Kept(t: Rec, later: seq<Rec>, begin: nat, end: nat): seq<Rec>
  {
    if !IsAttr(t) then []
    else
      match Filtered(t, later)
      case None => []
      case Some(r) => if begin <= r.id < end then [r.(id := r.id - begin)] else []
  }

  function Compact(log: seq<Rec>, begin: nat, end: nat): seq<Rec>
  {
    if log == [] then [] else Kept(log[0], log[1..], begin, end) + Compact(log[1..], begin, end)
  }

  // ---------------------------------------------------------------- the traversal

  // everything before pos has been handled
  ghost predicate Handled(log: seq<Rec>, out: seq<Rec>, pos: nat, begin: nat, end: nat)
  {
    pos <= |log| && out + Compact(log[pos..], begin, end) == Compact(log, begin, end)
  }

  // running the rest of the filter over the pushed tag decides the fate of tag top
  ghost predicate Filtering(log: seq<Rec>, top: nat, tag: Rec, pos: nat)
  {
    top < pos <= |log| && Filtered(log[top], log[top + 1..]) == Filtered(tag, log[pos..])
  }

  lemma HandleOne(log: seq<Rec>, out: seq<Rec>, pos: nat, begin: nat, end: nat)
    requires pos < |log| && Handled(log, out, pos, begin, end)
    ensures Handled(log, out + Kept(log[pos], log[pos + 1..], begin, end), pos + 1, begin, end)
  {
    assert log[pos..][1..] == log[pos + 1..];
    var k, c := Kept(log[pos], log[pos + 1..], begin, end), Compact(log[pos + 1..], begin, end);
    assert out + (k + c) == (out + k) + c;
  }

  lemma FilterOne(log: seq<Rec>, top: nat, tag: Rec, pos: nat)
    requires Filtering(log, top, tag, pos)
    ensures pos == |log| ==> Filtered(log[top], log[top + 1..]) == Some(tag)
    ensures pos < |log| && Kills(log[pos], tag) ==> Filtered(log[top], log[top + 1..]) == None
    ensures pos < |log| && !Kills(log[pos], tag) ==>
              Filtering(log, top, tag.(id := Max(Shifted(log[pos], tag), 0)), pos + 1)
  {
    if pos < |log| { assert log[pos..][1..] == log[pos + 1..]; }
  }

  /** One turn of the traversal: what it has written, where it reads, and the tag it
      has pushed together with the position to resume at. */
  datatype Frame = Frame(resume: nat, tag: Rec)

  datatype State = State(out: seq<Rec>, pos: nat, stack: Option<Frame>)

  ghost predicate Inv(log: seq<Rec>, begin: nat, end: nat, s: State)
  {
    match s.stack
    case None => Handled(log, s.out, s.pos, begin, end)
    case Some(f) =>
      && 1 <= f.resume <= |log| && IsAttr(log[f.resume - 1])
      && Filtering(log, f.resume - 1, f.tag, s.pos)
      && Handled(log, s.out, f.resume - 1, begin, end)
  }

  function Turn(log: seq<Rec>, begin: nat, end: nat, s: State): State
    requires s.pos < |log| || (s.stack.Some? && s.pos == |log|)
  {
    match s.stack
    case None =>
      // push a tag that describes an entry, skip the others
      if IsAttr(log[s.pos]) then State(s.out, s.pos + 1, Some(Frame(s.pos + 1, log[s.pos])))
      else State(s.out, s.pos + 1, None)
    case Some(f) =>
      if s.pos < |log| && !Kills(log[s.pos], f.tag) then
        // the filter callback follows the pushed tag through creates and deletes
        State(s.out, s.pos + 1, Some(Frame(f.resume, f.tag.(id := Max(Shifted(log[s.pos], f.tag), 0)))))
      else if s.pos == |log| && begin <= f.tag.id < end then
        // popped: the tag survived and is in range
        State(s.out + [f.tag.(id := f.tag.id - begin)], f.resume, None)
      else
        State(s.out, f.resume, None)
  }

  lemma TurnKeepsInv(log: seq<Rec>, begin: nat, end: nat, s: State)
    requires s.pos < |log| || (s.stack.Some? && s.pos == |log|)
    requires Inv(log, begin, end, s)
    ensures Inv(log, begin, end, Turn(log, begin, end, s))
  {
    hide Kills;
    hide Shifted;
    hide Compact;
    hide Filtered;
    match s.stack
    case None =>
      if !IsAttr(log[s.pos]) {
        HandleOne(log, s.out, s.pos, begin, end);
        assert s.out + [] == s.out;
      }
    case Some(f) =>
      FilterOne(log, f.resume - 1, f.tag, s.pos);
      if s.pos == |log| || Kills(log[s.pos], f.tag) {
        HandleOne(log, s.out, f.resume - 1, begin, end);
        assert s.out + [] == s.out;
      }
  }

  /** The traversal as written: one loop over log and pending attributes, with an
      explicit stack.  Every tag that passes the type filter is pushed; the tags after
      it are then run through the filter callback, which edits the pushed tag; the pop
      resumes where the push happened. */
  method Traverse(log: seq<Rec>, begin: nat, end: nat) returns (out: seq<Rec>)
    ensures out == Compact(log, begin, end)
  {
    var s := State([], 0, None);
    assert log[0..] == log;
    while s.pos < |log| || s.stack.Some?
      invariant s.pos <= |log| && (s.stack.Some? ==> 1 <= s.stack.value.resume <= s.pos)
      invariant Inv(log, begin, end, s)
      decreases |log| - (if s.stack.None? then s.pos else s.stack.value.resume - 1),
                if s.stack.None? then 1 else 0, |log| - s.pos
    {
      TurnKeepsInv(log, begin, end, s);
      s := Turn(log, begin, end, s);
    }
    assert log[s.pos..] == [];
    out := s.out;
  }

  // ---------------------------------------------------------------- meaning is preserved

  /** Being redundant is being found by a lookup for the same key. */
  lemma KillsIsMatch(u: Rec, t: Rec)
    requires IsAttr(t) && WellFormed(u) && !IsDeleted(t)
    ensures Kills(u, t) <==>
            u.id == t.id && (u.kind == DELETE || Matches(KeyQuery(t.kind), u))
  {}

  /** If the filter keeps t, a backward walk from its new id meets no tag of the same
      key and arrives at t. */
  lemma {:induction false} KeptIsReached(t: Rec, later: seq<Rec>)
    requires WellFormedLog(later) && WellFormed(t) && IsAttr(t)
    requires Filtered(t, later).Some?
    ensures var r := Filtered(t, later).value;
            && r == t.(id := r.id)
            && WalkBack(later, KeyQuery(t.kind), r.id) == Fell(t.id)
    decreases |later|
  {
    if later != [] {
      var u, rest, q := later[0], later[1..], KeyQuery(t.kind);
      var t' := t.(id := Max(Shifted(u, t), 0));
      KeptIsReached(t', rest);
      KillsIsMatch(u, t);
      assert later == [u] + rest;
      WalkConcat([u], rest, q, Filtered(t, later).value.id);
      WalkSingle(u, q, t'.id);
    }
  }

  lemma WalkSingle(u: Rec, q: Query, g: int)
    ensures WalkBack([u], q, g) == WalkOne(u, q, g)
  {
    assert [u][..0] == [];
  }

  /** Conversely, a walk that arrives at t shows that the filter keeps t, unless t
      deletes an attribute. */
  lemma {:induction false} ReachedIsKept(t: Rec, later: seq<Rec>, g: nat)
    requires WellFormedLog(later) && WellFormed(t) && IsAttr(t) && !IsDeleted(t)
    requires WalkBack(later, KeyQuery(t.kind), g) == Fell(t.id)
    ensures Filtered(t, later) == Some(t.(id := g))
    decreases |later|
  {
    if later != [] {
      var u, rest, q := later[0], later[1..], KeyQuery(t.kind);
      assert later == [u] + rest;
      WalkConcat([u], rest, q, g);
      var w := WalkBack(rest, q, g);
      WalkSingle(u, q, w.id);
      KillsIsMatch(u, t);
      var t' := t.(id := Max(Shifted(u, t), 0));
      assert t'.id == w.id;
      ReachedIsKept(t', rest, g);
    }
  }

  // two tags matching the same key query have the same key
  lemma SameKey(q: Query, t: Rec)
    requires q.mask == KeyMask(q.kind) && Matches(q, t) && q.kind < 0x400
    ensures SameQuery(q, KeyQuery(t.kind))
  {}

  predicate SameQuery(q: Query, q': Query)
  {
    q.mask == q'.mask && Masked(q.mask, q.kind) == Masked(q'.mask, q'.kind)
  }

  lemma {:induction false} WalkExt(log: seq<Rec>, q: Query, q': Query, g: int)
    requires SameQuery(q, q')
    ensures WalkBack(log, q, g) == WalkBack(log, q', g)
    decreases |log|
  {
    if log != [] {
      var w := WalkOne(log[|log| - 1], q, g);
      WalkOneExt(log[|log| - 1], q, q', g);
      if w.Fell? { WalkExt(log[..|log| - 1], q, q', w.id); }
    }
  }

  lemma WalkOneExt(t: Rec, q: Query, q': Query, g: int)
    requires SameQuery(q, q')
    ensures WalkOne(t, q, g) == WalkOne(t, q', g)
  {}

  /** How the walk over a compacted log relates to the walk over the original. */
  predicate SameFate(compacted: Walk, original: Walk, g: nat)
  {
    match original
    case Hit(Some(v)) => compacted == original
    case Hit(None) => compacted == original || compacted == Fell(g)
    case _ => compacted == Fell(g)
  }

  lemma {:induction false} CompactFate(log: seq<Rec>, kind: nat, begin: nat, end: nat, g: nat)
    requires WellFormedLog(log) && kind < 0x400 && g + begin < end
    ensures SameFate(WalkBack(Compact(log, begin, end), KeyQuery(kind), g),
                     WalkBack(log, KeyQuery(kind), g + begin), g)
    decreases |log|
  {
    if log != [] {
      var t, rest, q := log[0], log[1..], KeyQuery(kind);
      CompactFate(rest, kind, begin, end, g);
      var out := Kept(t, rest, begin, end);
      assert log == [t] + rest;
      WalkConcat([t], rest, q, g + begin);
      WalkConcat(out, Compact(rest, begin, end), q, g);
      KeptFate(t, rest, kind, begin, end, g);
    }
  }

  lemma KeptFate(t: Rec, rest: seq<Rec>, kind: nat, begin: nat, end: nat, g: nat)
    requires WellFormedLog(rest) && WellFormed(t) && kind < 0x400 && g + begin < end
    ensures var w := WalkBack(rest, KeyQuery(kind), g + begin);
            SameFate(WalkBack(Kept(t, rest, begin, end), KeyQuery(kind), g),
                     if w.Fell? then WalkBack([t], KeyQuery(kind), w.id) else Born, g)
  {
    var q := KeyQuery(kind);
    var w := WalkBack(rest, q, g + begin);
    if w.Fell? { WalkSingle(t, q, w.id); }
    if Matches(q, t) {
      SameKey(q, t);
      WalkExt(rest, q, KeyQuery(t.kind), g + begin);
      MatchingKeptFate(t, rest, q, begin, end, g);
    } else {
      UnmatchedKept(t, rest, q, begin, end, g);
    }
  }

  lemma UnmatchedKept(t: Rec, rest: seq<Rec>, q: Query, begin: nat, end: nat, g: nat)
    requires WellFormedLog(rest) && WellFormed(t) && !Matches(q, t)
    ensures WalkBack(Kept(t, rest, begin, end), q, g) == Fell(g)
  {
    var out := Kept(t, rest, begin, end);
    if out != [] {
      KeptIsReached(t, rest);
      WalkSingle(out[0], q, g);
    }
  }

  lemma MatchingKeptFate(t: Rec, rest: seq<Rec>, q: Query, begin: nat, end: nat, g: nat)
    requires WellFormedLog(rest) && WellFormed(t) && IsAttr(t) && !IsSplice(t) && Matches(q, t) && g + begin < end
    requires WalkBack(rest, q, g + begin) == WalkBack(rest, KeyQuery(t.kind), g + begin)
    ensures var w := WalkBack(rest, q, g + begin);
            SameFate(WalkBack(Kept(t, rest, begin, end), q, g),
                     if w.Fell? then WalkOne(t, q, w.id) else Born, g)
  {
    var out := Kept(t, rest, begin, end);
    if out != [] {
      KeptIsReached(t, rest);
      WalkSingle(out[0], q, g);
    }
    if WalkBack(rest, q, g + begin) == Fell(t.id) && !IsDeleted(t) {
      ReachedIsKept(t, rest, g + begin);
    }
  }

  /** For every log and every id range, the compacted log answers every lookup by key
      exactly as the original did. */
  lemma CompactPreservesLookup(log: seq<Rec>, kind: nat, begin: nat, end: nat, g: nat)
    requires WellFormedLog(log) && kind < 0x400 && g + begin < end
    ensures Lookup(Compact(log, begin, end), KeyQuery(kind), g) == Lookup(log, KeyQuery(kind), g + begin)
  {
    CompactFate(log, kind, begin, end, g);
  }

  /** The lookups there are: names and structs by their class, user attributes, whose types start
      at 0x300, by the whole type. */
  lemma CompactPreservesAttributes(log: seq<Rec>, kind: nat, begin: nat, end: nat, g: nat)
    requires WellFormedLog(log) && g + begin < end
    ensures var c := Compact(log, begin, end);
            && Lookup(c, Query(ByClass, 0x000), g) == Lookup(log, Query(ByClass, 0x000), g + begin)
            && Lookup(c, Query(ByClass, 0x200), g) == Lookup(log, Query(ByClass, 0x200), g + begin)
            && (0x300 <= kind < 0x400 ==> Lookup(c, Query(ByType, kind), g) == Lookup(log, Query(ByType, kind), g + begin))
  {
    CompactPreservesLookup(log, 0x000, begin, end, g);
    CompactPreservesLookup(log, 0x200, begin, end, g);
    if 0x300 <= kind < 0x400 { CompactPreservesLookup(log, kind, begin, end, g); }
  }

  // ---------------------------------------------------------------- nothing but what is alive

  // a lookup for the key of a tag that is kept finds it
  lemma KeptHits(t: Rec, rest: seq<Rec>, begin: nat, end: nat)
    requires WellFormedLog(rest) && WellFormed(t) && Kept(t, rest, begin, end) != []
    ensures var r := Kept(t, rest, begin, end)[0];
            && r.kind == t.kind && r.size == t.size && begin <= r.id + begin < end
            && WalkBack([t] + rest, KeyQuery(r.kind), r.id + begin) == Hit(Outcome(r))
            && WalkBack(rest, KeyQuery(r.kind), r.id + begin) == Fell(t.id)
  {
    var r := Kept(t, rest, begin, end)[0];
    KeptIsReached(t, rest);
    WalkConcat([t], rest, KeyQuery(t.kind), r.id + begin);
    WalkSingle(t, KeyQuery(t.kind), t.id);
  }

  lemma CompactFirst(log: seq<Rec>, begin: nat, end: nat)
    requires log != []
    ensures log == [log[0]] + log[1..]
    ensures Compact(log, begin, end) == Kept(log[0], log[1..], begin, end) + Compact(log[1..], begin, end)
    ensures |Kept(log[0], log[1..], begin, end)| <= 1
  {}

  // tags that a compacted log holds, and what lookups for their keys find in the original
  predicate Alive(log: seq<Rec>, begin: nat, end: nat, r: Rec)
  {
    begin <= r.id + begin < end && WalkBack(log, KeyQuery(r.kind), r.id + begin) == Hit(Outcome(r))
  }

  lemma AliveBefore(log: seq<Rec>, begin: nat, end: nat, t: Rec, r: Rec)
    requires Alive(log, begin, end, r)
    ensures Alive([t] + log, begin, end, r)
  {
    WalkConcat([t], log, KeyQuery(r.kind), r.id + begin);
  }

  /** Every tag of a compacted log is what a lookup for its key finds in the original. */
  lemma {:induction false} CompactIsAlive(log: seq<Rec>, begin: nat, end: nat, k: nat)
    requires WellFormedLog(log) && k < |Compact(log, begin, end)|
    ensures Alive(log, begin, end, Compact(log, begin, end)[k])
    decreases |log|
  {
    hide Compact;
    hide Kept;
    hide WellFormed;
    hide WalkBack;
    CompactNone(begin, end);
    CompactFirst(log, begin, end);
    var t, rest := log[0], log[1..];
    var n := |Kept(t, rest, begin, end)|;
    if k < n {
      KeptHits(t, rest, begin, end);
    } else {
      CompactIsAlive(rest, begin, end, k - n);
      AliveBefore(rest, begin, end, t, Compact(rest, begin, end)[k - n]);
    }
  }

  lemma CompactNone(begin: nat, end: nat)
    ensures Compact([], begin, end) == []
  {}

  /** No two of its tags are about the same key of the same entry. */
  lemma {:induction false} CompactIsUnique(log: seq<Rec>, begin: nat, end: nat, j: nat, k: nat)
    requires WellFormedLog(log) && j < k < |Compact(log, begin, end)|
    ensures var c := Compact(log, begin, end); c[j].id != c[k].id || !SameQuery(KeyQuery(c[k].kind), KeyQuery(c[j].kind))
    decreases |log|
  {
    hide Compact;
    hide Kept;
    hide WellFormed;
    hide WalkBack;
    hide SameQuery;
    CompactNone(begin, end);
    CompactFirst(log, begin, end);
    var t, rest, c := log[0], log[1..], Compact(log, begin, end);
    var n := |Kept(t, rest, begin, end)|;
    if j >= n {
      CompactIsUnique(rest, begin, end, j - n, k - n);
    } else {
      KeptHits(t, rest, begin, end);
      CompactIsAlive(rest, begin, end, k - n);
      if SameQuery(KeyQuery(c[k].kind), KeyQuery(c[j].kind)) {
        WalkExt(rest, KeyQuery(c[k].kind), KeyQuery(c[j].kind), c[k].id + begin);
      }
    }
  }

  /** It carries no attributes that were deleted, but for the last tag of the log, which no
      other tag follows to filter it. */
  lemma {:induction false} CompactDropsDeleted(log: seq<Rec>, begin: nat, end: nat, k: nat)
    requires k < |Compact(log, begin, end)| && IsDeleted(Compact(log, begin, end)[k])
    ensures k == |Compact(log, begin, end)| - 1 && IsDeleted(log[|log| - 1])
    decreases |log|
  {
    var t, rest := log[0], log[1..];
    var out := Kept(t, rest, begin, end);
    if rest != [] && IsDeleted(t) { DeletedIsFiltered(t, rest); }
    if k < |out| {
      FilteredSize(t, rest);
    } else {
      CompactDropsDeleted(rest, begin, end, k - |out|);
    }
  }

  lemma DeletedIsFiltered(t: Rec, later: seq<Rec>)
    requires later != [] && IsDeleted(t)
    ensures Filtered(t, later) == None
  {}

  lemma {:induction false} FilteredSize(t: Rec, later: seq<Rec>)
    requires Filtered(t, later).Some?
    ensures Filtered(t, later).value.size == t.size
    decreases |later|
  {
    if later != [] { FilteredSize(t.(id := Max(Shifted(later[0], t), 0)), later[1..]); }
  }

  // ---------------------------------------------------------------- finer lookups

  // A lookup may also ask for one exact type of a class that is unique by class, as
  // mounting does for the inline struct of the superblock.

  predicate Finer(q: Query)
  {
    q.kind < 0x400 && (KeyMask(q.kind) == ByType ==> q.mask == ByType)
  }

  predicate MatchesValue(q: Query, v: Value) { Masked(q.mask, v.kind) == Masked(q.mask, q.kind) }

  lemma FinerMatches(q: Query, t: Rec)
    requires Finer(q)
    ensures Matches(q, t) ==> Matches(KeyQuery(q.kind), t)
  {}

  predicate FineFate(fine: Walk, byKey: Walk, q: Query)
  {
    match byKey
    case Hit(Some(v)) => MatchesValue(q, v) ==> fine == byKey
    case Hit(None) => true
    case _ => fine == byKey
  }

  lemma {:induction false} FineLookupInLog(log: seq<Rec>, q: Query, g: int)
    requires Finer(q)
    ensures FineFate(WalkBack(log, q, g), WalkBack(log, KeyQuery(q.kind), g), q)
    decreases |log|
  {
    if log != [] {
      FineWalkOne(log[|log| - 1], q, g);
      var w := WalkOne(log[|log| - 1], KeyQuery(q.kind), g);
      if w.Fell? { FineLookupInLog(log[..|log| - 1], q, w.id); }
    }
  }

  lemma FineWalkOne(t: Rec, q: Query, g: int)
    requires Finer(q)
    ensures FineFate(WalkOne(t, q, g), WalkOne(t, KeyQuery(q.kind), g), q)
  {
    var m, k := Matches(q, t), Matches(KeyQuery(q.kind), t);
    assert m ==> k by { FinerMatches(q, t); }
    assert MatchesValue(q, Value(t.kind, t.size, t.data)) == m;
    FineWalkStep(t, m, k, q, g);
  }

  lemma FineWalkStep(t: Rec, m: bool, k: bool, q: Query, g: int)
    requires m ==> k
    requires MatchesValue(q, Value(t.kind, t.size, t.data)) == m
    ensures FineFate(WalkStep(t, m, g), WalkStep(t, k, g), q)
  {}

  predicate FineFateUnique(fine: Walk, byKey: Walk, q: Query, g: int)
  {
    && FineFate(fine, byKey, q)
    && (byKey.Hit? && byKey.value.Some? && !MatchesValue(q, byKey.value.value) ==> fine == Fell(g))
    && (byKey == Hit(None) ==> fine == Hit(None) || fine == Fell(g))
  }

  /** In a compacted log at most one tag per key is left for an entry. */
  lemma {:induction false} FineLookupInCompact(log: seq<Rec>, q: Query, begin: nat, end: nat, g: nat)
    requires WellFormedLog(log) && Finer(q) && g + begin < end
    ensures FineFateUnique(WalkBack(Compact(log, begin, end), q, g),
                           WalkBack(Compact(log, begin, end), KeyQuery(q.kind), g), q, g)
    decreases |log|
  {
    if log != [] {
      var t, rest, kq := log[0], log[1..], KeyQuery(q.kind);
      var out, c := Kept(t, rest, begin, end), Compact(rest, begin, end);
      FineLookupInCompact(rest, q, begin, end, g);
      WalkConcat(out, c, q, g);
      WalkConcat(out, c, kq, g);
      CompactFate(rest, q.kind, begin, end, g);
      KeptFate(t, rest, q.kind, begin, end, g);
      FineLookupInKept(t, rest, q, begin, end, g);
    }
  }

  lemma FineLookupInKept(t: Rec, rest: seq<Rec>, q: Query, begin: nat, end: nat, g: nat)
    requires WellFormedLog(rest) && WellFormed(t) && Finer(q)
    ensures FineFateUnique(WalkBack(Kept(t, rest, begin, end), q, g),
                           WalkBack(Kept(t, rest, begin, end), KeyQuery(q.kind), g), q, g)
  {
    var out := Kept(t, rest, begin, end);
    if out != [] {
      KeptIsReached(t, rest);
      WalkSingle(out[0], q, g);
      WalkSingle(out[0], KeyQuery(q.kind), g);
      FinerMatches(q, out[0]);
      FineStep(out[0], Matches(q, out[0]), Matches(KeyQuery(q.kind), out[0]), q, g);
    }
  }

  lemma FineStep(t: Rec, m: bool, k: bool, q: Query, g: int)
    requires m ==> k
    requires MatchesValue(q, Value(t.kind, t.size, t.data)) == m
    requires !IsSplice(t)
    ensures FineFateUnique(WalkStep(t, m, g), WalkStep(t, k, g), q, g)
  {
    FineWalkStep(t, m, k, q, g);
  }

  /** Exactly when compaction preserves a finer lookup: unless it would have found a
      value that a newer one of the same class already hides from lookups by class. */
  lemma FineLookupPreserved(log: seq<Rec>, q: Query, begin: nat, end: nat, g: nat)
    requires WellFormedLog(log) && Finer(q) && g + begin < end
    ensures var before, byKey := Lookup(log, q, g + begin), Lookup(log, KeyQuery(q.kind), g + begin);
            Lookup(Compact(log, begin, end), q, g) == before <==> before == None || before == byKey
  {
    CompactPreservesLookup(log, q.kind, begin, end, g);
    FineLookupInCompact(log, q, begin, end, g);
    FineLookupInLog(log, q, g + begin);
    LookupMatches(log, q, g + begin);
    LookupMatches(log, KeyQuery(q.kind), g + begin);
  }

  lemma {:induction false} LookupMatches(log: seq<Rec>, q: Query, g: int)
    ensures Lookup(log, q, g).Some? ==> MatchesValue(q, Lookup(log, q, g).value)
    decreases |log|
  {
    if log != [] {
      var w := WalkOne(log[|log| - 1], q, g);
      if w.Fell? { LookupMatches(log[..|log| - 1], q, w.id); }
    }
  }

  /** The condition matters: an inline struct replaced by a ctz struct is still found by
      its exact type before compaction, and gone after it. */
  lemma StaleStructIsLost()
    ensures exists log: seq<Rec>, q :: WellFormedLog(log) && Finer(q)
              && Lookup(log, q, 0).Some? && Lookup(Compact(log, 0, 1), q, 0) == None
  {
    var inline, ctz := Rec(0x201, 0, 1, [7]), Rec(0x202, 0, 1, [8]);
    var log, q := [inline, ctz], Query(ByType, 0x201);
    assert log[..1] == [inline];
    assert log[1..] == [ctz];
    assert WalkOne(ctz, q, 0) == Fell(0);
    assert WalkBack([inline], q, 0).Hit? by { WalkSingle(inline, q, 0); }
    assert Kills(ctz, inline);
    assert Kept(inline, [ctz], 0, 1) == [];
    assert Kept(ctz, [], 0, 1) == [ctz];
    assert Compact([ctz], 0, 1) == [ctz];
    WalkSingle(ctz, q, 0);
    assert WellFormedLog(log) && Finer(q);
  }

  // ---------------------------------------------------------------- entry count

  predicate IsName(t: Rec) { Class(t.kind) == 0 }

  /** The number of entries as a fetch counts it. */
  function Count(log: seq<Rec>): int
  {
    if log == [] then 0
    else
      var t, n := log[|log| - 1], Count(log[..|log| - 1]);
      if IsName(t) then Max(n, t.id + 1) else if IsSplice(t) then n + Splice(t) else n
  }

  /** If every entry in the range has a name, a fetch of the compacted log counts
      exactly the entries of the range. */
  lemma CompactCount(log: seq<Rec>, begin: nat, end: nat)
    requires WellFormedLog(log) && begin <= end
    requires forall g | begin <= g < end :: Lookup(log, KeyQuery(NAME), g).Some?
    ensures Count(Compact(log, begin, end)) == end - begin
  {
    var c := Compact(log, begin, end);
    CompactShape(log, begin, end);
    CountOfAttrs(c);
    if begin < end {
      CompactPreservesLookup(log, NAME, begin, end, end - begin - 1);
      NameCounts(c, end - begin - 1);
    }
    CountBound(c, end - begin);
  }

  /** Compacted logs hold attributes of the range only: no creates, no deletes. */
  lemma {:induction false} CompactShape(log: seq<Rec>, begin: nat, end: nat)
    requires WellFormedLog(log)
    ensures forall t | t in Compact(log, begin, end) :: IsAttr(t) && t.id + begin < end && WellFormed(t)
    decreases |log|
  {
    if log != [] {
      CompactShape(log[1..], begin, end);
      var out := Kept(log[0], log[1..], begin, end);
      if out != [] { KeptIsReached(log[0], log[1..]); }
    }
  }

  lemma {:induction false} CountOfAttrs(log: seq<Rec>)
    requires forall t | t in log :: IsAttr(t)
    ensures Count(log) >= 0
    decreases |log|
  {
    if log != [] {
      var t := log[|log| - 1];
      assert t in log;
      CountOfAttrs(log[..|log| - 1]);
    }
  }

  lemma {:induction false} CountBound(log: seq<Rec>, n: nat)
    requires forall t | t in log :: IsAttr(t) && t.id < n
    ensures Count(log) <= n
    decreases |log|
  {
    if log != [] {
      var t := log[|log| - 1];
      assert t in log;
      CountBound(log[..|log| - 1], n);
    }
  }

  lemma {:induction false} NameCounts(log: seq<Rec>, g: nat)
    requires forall t | t in log :: IsAttr(t) && WellFormed(t)
    requires Lookup(log, KeyQuery(NAME), g).Some?
    ensures Count(log) >= g + 1
    decreases |log|
  {
    var t := log[|log| - 1];
    assert t in log;
    if WalkOne(t, KeyQuery(NAME), g).Fell? {
      NameCounts(log[..|log| - 1], g);
    }
  }
}
