/** The metadata log of a directory block as a sequence of decoded tags.

    New entries are appended; a create or delete tag renumbers the entries after
    it.  Two readings of a log are defined here and proved equal: replaying it
    forwards into a list of entries, and walking it backwards from the newest tag
    with a running id adjustment, which is what the lookup code does. */
module MetaLog {
  import opened Words

  const NAME := 0x000
  const CREATE := 0x401
  const DELETE := 0x4ff

  /** A decoded tag with its payload. */
  datatype Rec = Rec(kind: nat, id: nat, size: nat, data: seq<byte>)

  /** What a lookup returns. */
  datatype Value = Value(kind: nat, size: nat, data: seq<byte>)

  // the leading three bits of an 11-bit type are its class
  function Class(kind: nat): nat { kind / 0x100 }

  predicate IsSplice(t: Rec) { Class(t.kind) == 4 }

  // types without bit 0x400 describe one entry: names, structs and user attributes
  predicate IsAttr(t: Rec) { t.kind < 0x400 }

  predicate IsDeleted(t: Rec) { t.size == 0x3ff }

  // only creates and deletes splice, and they carry no payload
  predicate WellFormed(t: Rec)
  {
    && (IsSplice(t) ==> (t.kind == CREATE || t.kind == DELETE) && t.size == 0)
    // type 0 is the in-memory "no operation" and 0x1xx are in-memory directives
    && (IsAttr(t) ==> t.kind != 0 && Class(t.kind) != 1)
  }

  predicate WellFormedLog(log: seq<Rec>)
  {
    forall i :: 0 <= i < |log| ==> WellFormed(log[i])
  }

  function Splice(t: Rec): int { if t.kind == CREATE then 1 else -1 }

  /** The type masks lookups use: 0x700, 0x780 and 0x7ff. */
  datatype Mask = ByClass | BySubclass | ByType

  function Masked(mask: Mask, kind: nat): nat
  {
    match mask
    case ByClass => kind / 0x100
    case BySubclass => kind / 0x80
    case ByType => kind
  }

  /** A lookup asks for the tags whose type agrees with kind under mask. */
  datatype Query = Query(mask: Mask, kind: nat)

  predicate Matches(q: Query, t: Rec) { Masked(q.mask, t.kind) == Masked(q.mask, q.kind) }

  // the lookup is about one entry, so it can only match attributes
  predicate EntryQuery(q: Query) { q.kind < 0x400 }

  lemma EntryQueryMatchesAttr(q: Query, t: Rec)
    requires EntryQuery(q) && Matches(q, t)
    ensures IsAttr(t)
  {}

  function Outcome(t: Rec): Option<Value>
  {
    if IsDeleted(t) then None else Some(Value(t.kind, t.size, t.data))
  }

  // ---------------------------------------------------------------- forward replay

  /** The attributes written to one entry since it was created, oldest first. */
  type History = seq<Rec>

  function Pad(es: seq<History>, n: nat): (r: seq<History>)
    ensures |r| == Max(|es|, n)
    ensures forall i :: 0 <= i < |r| ==> r[i] == if i < |es| then es[i] else []
  {
    if n <= |es| then es else es + seq(n - |es|, i => [])
  }

  function Apply(es: seq<History>, t: Rec): seq<History>
  {
    if t.kind == CREATE then
      var p := Pad(es, t.id);
      p[..t.id] + [[]] + p[t.id..]
    else if t.kind == DELETE then
      if t.id < |es| then es[..t.id] + es[t.id + 1..] else es
    else if IsAttr(t) then
      var p := Pad(es, t.id + 1);
      p[t.id := p[t.id] + [t]]
    else es
  }

  function Replay(log: seq<Rec>): seq<History>
  {
    if log == [] then [] else Apply(Replay(log[..|log| - 1]), log[|log| - 1])
  }

  function HistoryAt(es: seq<History>, g: int): History
  {
    if 0 <= g < |es| then es[g] else []
  }

  function LastMatch(h: History, q: Query): Option<Value>
  {
    if h == [] then None
    else if Matches(q, h[|h| - 1]) then Outcome(h[|h| - 1])
    else LastMatch(h[..|h| - 1], q)
  }

  // ---------------------------------------------------------------- backward walk

  /** Where a backward walk looking for entry g ends: at a matching tag, at the tag
      that created the entry, or at the start of the log with the entry's old id. */
  datatype Walk = Hit(value: Option<Value>) | Born | Fell(id: int)

  function WalkStep(t: Rec, matches: bool, g: int): Walk
  {
    if IsSplice(t) && t.id <= g then
      if t.kind == CREATE && t.id == g && t.size == 0 then Born
      else
        var g' := g - Splice(t);
        if matches && t.id == g' then Hit(Outcome(t)) else Fell(g')
    else if matches && t.id == g then Hit(Outcome(t))
    else Fell(g)
  }

  function WalkOne(t: Rec, q: Query, g: int): Walk { WalkStep(t, Matches(q, t), g) }

  function WalkBack(log: seq<Rec>, q: Query, g: int): Walk
  {
    if log == [] then Fell(g)
    else
      var w := WalkOne(log[|log| - 1], q, g);
      if w.Fell? then WalkBack(log[..|log| - 1], q, w.id) else w
  }

  function Lookup(log: seq<Rec>, q: Query, g: int): Option<Value>
  {
    var w := WalkBack(log, q, g);
    if w.Hit? then w.value else None
  }

  /** The backward walk with its running id adjustment finds exactly what replaying
      every create, delete and attribute forwards finds. */
  lemma {:induction false} BackwardRefinesReplay(log: seq<Rec>, q: Query, g: int)
    requires WellFormedLog(log) && EntryQuery(q)
    ensures Lookup(log, q, g) == LastMatch(HistoryAt(Replay(log), g), q)
  {
    if log != [] {
      var init, t := log[..|log| - 1], log[|log| - 1];
      assert WellFormed(t);
      hide Apply;
      hide WellFormed;
      OneStepBack(Replay(init), t, q, g);
      var w := WalkOne(t, q, g);
      if w.Fell? {
        BackwardRefinesReplay(init, q, w.id);
      }
    }
  }

  /** What one step does to the history of each entry. */
  lemma ApplyHistory(es: seq<History>, t: Rec, g: int)
    requires WellFormed(t)
    ensures HistoryAt(Apply(es, t), g) ==
            if t.kind == CREATE && t.id == g then []
            else if t.kind == CREATE && t.id < g then HistoryAt(es, g - 1)
            else if t.kind == DELETE && t.id <= g then HistoryAt(es, g + 1)
            else if IsAttr(t) && t.id == g then HistoryAt(es, g) + [t]
            else HistoryAt(es, g)
  {}

  /** What an entry says, given how the walk over a later tag went and what was written before. */
  function Told(w: Walk, es: seq<History>, q: Query): Option<Value>
  {
    match w
    case Hit(v) => v
    case Born => None
    case Fell(g) => LastMatch(HistoryAt(es, g), q)
  }

  /** One step of the backward walk undoes one step of the replay: whatever was written
      before tag t, it tells what the entry says once t is applied. */
  lemma OneStepBack(es: seq<History>, t: Rec, q: Query, g: int)
    requires WellFormed(t) && EntryQuery(q)
    ensures LastMatch(HistoryAt(Apply(es, t), g), q) == Told(WalkOne(t, q, g), es, q)
  {
    hide Apply;
    hide Pad;
    ApplyHistory(es, t, g);
    if IsAttr(t) && t.id == g {
      var h := HistoryAt(es, g);
      assert (h + [t])[..|h|] == h;
    }
  }

  /** Walking back through a concatenation is walking the second part, then the first. */
  lemma {:induction false} WalkConcat(a: seq<Rec>, b: seq<Rec>, q: Query, g: int)
    ensures WalkBack(a + b, q, g) ==
            match WalkBack(b, q, g)
            case Fell(g') => WalkBack(a, q, g')
            case w => w
    decreases |b|
  {
    if b == [] {
      assert a + b == a;
    } else {
      var w := WalkOne(b[|b| - 1], q, g);
      assert (a + b)[..|a + b| - 1] == a + b[..|b| - 1];
      if w.Fell? { WalkConcat(a, b[..|b| - 1], q, w.id); }
    }
  }
}
