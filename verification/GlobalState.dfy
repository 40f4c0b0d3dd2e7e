/** The global state, kept on the disk as the exclusive-or of one delta per directory. */
module GlobalState {
  import opened Words

  /** A word, as the positions of its one bits. */
  type word = set<nat>

  // the size bits of the tag count orphans in memory only
  const SIZE_BITS := 10

  // the bit that makes a tag invalid
  const INVALID := 31

  datatype G = G(tag: word, pair0: word, pair1: word)

  const ZERO := G({}, {}, {})

  /** The exclusive-or: the bits that differ. */
  function X(a: word, b: word): word { (a - b) + (b - a) }

  function And(a: word, n: nat): word { set k | k in a && k >= n }

  function Xor(a: G, b: G): G { G(X(a.tag, b.tag), X(a.pair0, b.pair0), X(a.pair1, b.pair1)) }

  /** What of a state goes to the disk. */
  function Kept(a: G): G { a.(tag := And(a.tag, SIZE_BITS)) }

  function Sum(dirs: seq<G>): G
  {
    if dirs == [] then ZERO else Xor(Sum(dirs[..|dirs| - 1]), dirs[|dirs| - 1])
  }

  // ---------------------------------------------------------------- words

  lemma Swap(a: word, b: word, c: word)
    ensures X(X(a, b), c) == X(X(a, c), b)
  {}

  lemma Twice(a: word, b: word)
    ensures X(X(a, b), b) == a
  {}

  lemma XorSwap(a: G, b: G, c: G)
    ensures Xor(Xor(a, b), c) == Xor(Xor(a, c), b)
  {
    hide X;
    Swap(a.tag, b.tag, c.tag);
    Swap(a.pair0, b.pair0, c.pair0);
    Swap(a.pair1, b.pair1, c.pair1);
  }

  lemma XorTwice(a: G, b: G)
    ensures Xor(Xor(a, b), b) == a
  {
    hide X;
    Twice(a.tag, b.tag);
    Twice(a.pair0, b.pair0);
    Twice(a.pair1, b.pair1);
  }

  /** Replacing a delta. */
  lemma {:induction false} SumReplaced(dirs: seq<G>, i: nat, d: G)
    requires i < |dirs|
    ensures Sum(dirs[i := d]) == Xor(Xor(Sum(dirs), dirs[i]), d)
    decreases |dirs|
  {
    hide Xor;
    var n := |dirs| - 1;
    if i == n {
      assert dirs[i := d][..n] == dirs[..n];
      XorTwice(Sum(dirs[..n]), dirs[n]);
    } else {
      SumReplaced(dirs[..n], i, d);
      assert dirs[i := d][..n] == dirs[..n][i := d];
      XorSwap(Xor(Sum(dirs[..n]), dirs[i]), d, dirs[n]);
      XorSwap(Sum(dirs[..n]), dirs[i], dirs[n]);
    }
  }

  function Without(dirs: seq<G>, i: nat): (r: seq<G>)
    requires i < |dirs|
    ensures |r| == |dirs| - 1
  {
    dirs[..i] + dirs[i + 1..]
  }

  /** Taking a delta away. */
  lemma {:induction false} SumWithout(dirs: seq<G>, i: nat)
    requires i < |dirs|
    ensures Sum(Without(dirs, i)) == Xor(Sum(dirs), dirs[i])
    decreases |dirs|
  {
    hide Xor;
    var n := |dirs| - 1;
    if i == n {
      assert Without(dirs, i) == dirs[..n];
      XorTwice(Sum(dirs[..n]), dirs[n]);
    } else {
      SumWithout(dirs[..n], i);
      assert Without(dirs, i)[..n - 1] == Without(dirs[..n], i);
      XorSwap(Sum(dirs[..n]), dirs[i], dirs[n]);
    }
  }

  // ---------------------------------------------------------------- commits

  /** The deltas of the directories on the tail list, and what is in memory. */
  datatype State = State(dirs: seq<G>, gstate: G, gdisk: G, gdelta: G)

  /** Together, the deltas on the disk and the one in memory give the state last committed. */
  predicate Conserved(s: State)
  {
    Kept(Xor(Sum(s.dirs), s.gdelta)) == Kept(s.gdisk)
  }

  // the size bits do not get to the disk
  predicate Clean(g: G) { forall k :: k in g.tag ==> k >= 10 }

  lemma CleanIff(g: G)
    ensures Clean(g) <==> Kept(g) == g
    ensures Clean(Kept(g))
  {
    forall k ensures k in Kept(g).tag <==> k in g.tag && k >= 10 {}
  }

  /** An append, or a compaction in place. */
  function Committed(s: State, i: nat): State
    requires i < |s.dirs|
  {
    var delta := Kept(Xor(Xor(s.gstate, s.gdisk), s.gdelta));
    State(s.dirs[i := Xor(delta, s.dirs[i])], s.gstate, s.gstate, ZERO)
  }

  /** A compaction that moves to other blocks: the change of state has to wait. */
  function Moved(s: State, i: nat): State
    requires i < |s.dirs|
  {
    State(s.dirs[i := Xor(Kept(s.gdelta), s.dirs[i])], s.gstate, s.gdisk, ZERO)
  }

  /** Takes over the delta of the directory behind dir i. */
  function Stolen(s: State, i: nat): State
    requires i + 1 < |s.dirs|
  {
    s.(gdelta := Xor(s.gdelta, s.dirs[i + 1]))
  }

  function Unlinked(s: State, i: nat): State
    requires i + 1 < |s.dirs|
  {
    s.(dirs := Without(s.dirs, i + 1))
  }

  // adds to the word, from bit k on
  function Increment(a: word, k: nat): word
  {
    if k in a then Increment(a - {k}, k + 1) else a + {k}
  }

  /** The state that mounting finds: an invalid tag says that there are orphans. */
  function Mounted(dirs: seq<G>): State
  {
    var g := Sum(dirs);
    var g' := if INVALID in g.tag then g.(tag := Increment(g.tag, 0)) else g;
    State(dirs, g', g', ZERO)
  }

  // ---------------------------------------------------------------- one commit

  // for the tag, the masked bits
  lemma CommitWord(s: word, d: word, gs: word, gd: word, gl: word, m: nat)
    requires And(X(s, gl), m) == And(gd, m)
    ensures And(X(X(X(s, d), X(And(X(X(gs, gd), gl), m), d)), {}), m) == And(gs, m)
  {
    var l, r := And(X(X(X(s, d), X(And(X(X(gs, gd), gl), m), d)), {}), m), And(gs, m);
    forall k ensures k in l <==> k in r {
      assert k in And(X(s, gl), m) <==> k in And(gd, m);
    }
  }

  lemma MoveWord(s: word, d: word, gd: word, gl: word, m: nat)
    requires And(X(s, gl), m) == And(gd, m)
    ensures And(X(X(X(s, d), X(And(gl, m), d)), {}), m) == And(gd, m)
  {}

  // for the pair, all bits
  lemma CommitPair(s: word, d: word, gs: word, gd: word, gl: word)
    requires X(s, gl) == gd
    ensures X(X(X(s, d), X(X(X(gs, gd), gl), d)), {}) == gs
  {}

  lemma MovePair(s: word, d: word, gd: word, gl: word)
    requires X(s, gl) == gd
    ensures X(X(X(s, d), X(gl, d)), {}) == gd
  {}

  lemma CommitConserves(s: State, i: nat)
    requires i < |s.dirs| && Conserved(s)
    ensures Conserved(Committed(s, i))
  {
    hide X;
    hide And;
    var x := Sum(s.dirs);
    var d := s.dirs[i];
    SumReplaced(s.dirs, i, Xor(Kept(Xor(Xor(s.gstate, s.gdisk), s.gdelta)), d));
    CommitWord(x.tag, d.tag, s.gstate.tag, s.gdisk.tag, s.gdelta.tag, SIZE_BITS);
    CommitPair(x.pair0, d.pair0, s.gstate.pair0, s.gdisk.pair0, s.gdelta.pair0);
    CommitPair(x.pair1, d.pair1, s.gstate.pair1, s.gdisk.pair1, s.gdelta.pair1);
  }

  lemma MoveConserves(s: State, i: nat)
    requires i < |s.dirs| && Conserved(s)
    ensures Conserved(Moved(s, i))
  {
    hide X;
    hide And;
    var x := Sum(s.dirs);
    var d := s.dirs[i];
    SumReplaced(s.dirs, i, Xor(Kept(s.gdelta), d));
    MoveWord(x.tag, d.tag, s.gdisk.tag, s.gdelta.tag, SIZE_BITS);
    MovePair(x.pair0, d.pair0, s.gdisk.pair0, s.gdelta.pair0);
    MovePair(x.pair1, d.pair1, s.gdisk.pair1, s.gdelta.pair1);
  }

  // ---------------------------------------------------------------- dropping a directory

  lemma StealWord(s: word, t: word, gd: word, gl: word, m: nat)
    requires And(X(s, gl), m) == And(gd, m)
    ensures And(X(s, X(gl, t)), m) == And(gd, m) <==> And(t, m) == {}
  {
    forall k ensures k in And(X(s, X(gl, t)), m) <==> (k in And(gd, m)) != (k in And(t, m)) {
      assert k in And(X(s, gl), m) <==> k in And(gd, m);
    }
    if And(X(s, X(gl, t)), m) == And(gd, m) {
      forall k ensures k !in And(t, m) { assert k in And(X(s, X(gl, t)), m) <==> k in And(gd, m); }
    }
  }

  lemma UnlinkWord(s: word, t: word, gd: word, gl: word, m: nat)
    requires And(X(s, gl), m) == And(gd, m)
    ensures And(X(X(s, t), X(gl, t)), m) == And(gd, m)
  {}

  lemma StealPair(s: word, t: word, gd: word, gl: word)
    requires X(s, gl) == gd
    ensures X(s, X(gl, t)) == gd <==> t == {}
  {}

  lemma UnlinkPair(s: word, t: word, gd: word, gl: word)
    requires X(s, gl) == gd
    ensures X(X(s, t), X(gl, t)) == gd
  {}

  /** Stealing the delta of a directory that stays on the list, because the commit that unlinks
      it fails, breaks conservation exactly if there is something to steal. */
  lemma StolenConservesIff(s: State, i: nat)
    requires i + 1 < |s.dirs| && Conserved(s)
    ensures Conserved(Stolen(s, i)) <==> Kept(s.dirs[i + 1]) == ZERO
  {
    hide X;
    hide And;
    var x, t := Sum(s.dirs), s.dirs[i + 1];
    StealWord(x.tag, t.tag, s.gdisk.tag, s.gdelta.tag, SIZE_BITS);
    StealPair(x.pair0, t.pair0, s.gdisk.pair0, s.gdelta.pair0);
    StealPair(x.pair1, t.pair1, s.gdisk.pair1, s.gdelta.pair1);
  }

  /** Stealing it and unlinking the directory keeps it. */
  lemma UnlinkConserves(s: State, i: nat)
    requires i + 1 < |s.dirs| && Conserved(s)
    ensures Conserved(Unlinked(Stolen(s, i), i))
  {
    hide X;
    hide And;
    var x, t := Sum(s.dirs), s.dirs[i + 1];
    SumWithout(s.dirs, i + 1);
    UnlinkWord(x.tag, t.tag, s.gdisk.tag, s.gdelta.tag, SIZE_BITS);
    UnlinkPair(x.pair0, t.pair0, s.gdisk.pair0, s.gdelta.pair0);
    UnlinkPair(x.pair1, t.pair1, s.gdisk.pair1, s.gdelta.pair1);
  }

  // ---------------------------------------------------------------- mounting

  /** Mounting a clean disk with nothing stolen in memory finds the state last committed. */
  lemma MountRecovers(s: State)
    requires Conserved(s) && s.gdelta == ZERO && AllClean(s.dirs)
    ensures Kept(Mounted(s.dirs).gstate) == Kept(s.gdisk) && Resting(Mounted(s.dirs))
  {
    var g := Sum(s.dirs);
    SumClean(s.dirs);
    assert Xor(g, ZERO) == g;
    IncrementClean(g.tag);
  }

  predicate AllClean(dirs: seq<G>)
  {
    forall i :: 0 <= i < |dirs| ==> Clean(dirs[i])
  }

  lemma IncrementClean(a: word)
    requires And(a, SIZE_BITS) == a
    ensures And(Increment(a, 0), SIZE_BITS) == a
  {
    assert 0 !in And(a, SIZE_BITS);
  }

  lemma XorClean(a: G, b: G)
    requires Clean(a) && Clean(b)
    ensures Clean(Xor(a, b))
  {
    var t := X(a.tag, b.tag);
    forall k ensures k in And(t, SIZE_BITS) <==> k in t {
      assert k in And(a.tag, SIZE_BITS) <==> k in a.tag;
      assert k in And(b.tag, SIZE_BITS) <==> k in b.tag;
    }
  }

  lemma {:induction false} SumClean(dirs: seq<G>)
    requires AllClean(dirs)
    ensures Clean(Sum(dirs))
    decreases |dirs|
  {
    if dirs != [] {
      SumClean(dirs[..|dirs| - 1]);
      XorClean(Sum(dirs[..|dirs| - 1]), dirs[|dirs| - 1]);
    }
  }

  // ---------------------------------------------------------------- runs

  /** What can happen. Changing the state in memory; committing to a directory, in place or
      moving it; dropping the directory behind one, whose commit may be in place or not; a loss
      of power and a new mount, before or after the step reached the disk. */
  datatype Action =
    | SetState(g: G)
    | Commit(i: nat)
    | Move(i: nat)
    | Drop(i: nat, moves: bool)
    | Restart
    | Interrupted(during: Action, landed: bool)

  predicate Possible(s: State, a: Action)
  {
    match a
    case SetState(_) => true
    case Commit(i) => i < |s.dirs|
    case Move(i) => i < |s.dirs|
    case Drop(i, _) => i + 1 < |s.dirs|
    case Restart => true
    case Interrupted(b, _) => Possible(s, b)
  }

  function Step(s: State, a: Action): State
    requires Possible(s, a)
  {
    match a
    case SetState(g) => s.(gstate := g)
    case Commit(i) => Committed(s, i)
    case Move(i) => Moved(s, i)
    case Drop(i, moves) => Unlinked(if moves then Moved(Stolen(s, i), i) else Committed(Stolen(s, i), i), i)
    case Restart => Mounted(s.dirs)
    case Interrupted(b, landed) => Mounted(if landed then Step(s, b).dirs else s.dirs)
  }

  /** Between steps nothing stolen is left in memory. */
  predicate Resting(s: State)
  {
    Conserved(s) && s.gdelta == ZERO && AllClean(s.dirs)
  }

  lemma DropOrder(s: State, i: nat, moves: bool)
    requires i + 1 < |s.dirs|
    ensures Step(s, Drop(i, moves)) == if moves then Moved(Unlinked(Stolen(s, i), i), i) else Committed(Unlinked(Stolen(s, i), i), i)
  {
    hide Xor;
    hide Kept;
    hide Without;
    var t := Stolen(s, i);
    WithoutReplaced(s.dirs, i, Xor(Kept(t.gdelta), s.dirs[i]));
    WithoutReplaced(s.dirs, i, Xor(Kept(Xor(Xor(t.gstate, t.gdisk), t.gdelta)), s.dirs[i]));
  }

  lemma WithoutReplaced(dirs: seq<G>, i: nat, d: G)
    requires i + 1 < |dirs|
    ensures |Without(dirs, i + 1)| == |dirs| - 1 && Without(dirs, i + 1)[i] == dirs[i]
    ensures Without(dirs[i := d], i + 1) == Without(dirs, i + 1)[i := d]
  {}

  lemma StepClean(s: State, a: Action)
    requires Resting(s) && Possible(s, a)
    ensures AllClean(Step(s, a).dirs)
  {
    match a
    case SetState(_) =>
    case Commit(i) => CommitClean(s, i, Kept(Xor(Xor(s.gstate, s.gdisk), s.gdelta)));
    case Move(i) => CommitClean(s, i, Kept(s.gdelta));
    case Drop(i, moves) =>
      var t := Stolen(s, i);
      CommitClean(s, i, if moves then Kept(t.gdelta) else Kept(Xor(Xor(t.gstate, t.gdisk), t.gdelta)));
    case Restart =>
    case Interrupted(b, landed) => if landed { StepClean(s, b); }
  }

  lemma CommitClean(s: State, i: nat, d: G)
    requires i < |s.dirs| && AllClean(s.dirs) && Clean(d)
    ensures AllClean(s.dirs[i := Xor(d, s.dirs[i])])
  {
    XorClean(d, s.dirs[i]);
  }

  lemma StepRests(s: State, a: Action)
    requires Resting(s) && Possible(s, a)
    ensures Resting(Step(s, a))
  {
    hide Xor;
    hide Kept;
    hide Clean;
    StepClean(s, a);
    match a
    case SetState(_) =>
    case Commit(i) => CommitConserves(s, i);
    case Move(i) => MoveConserves(s, i);
    case Drop(i, moves) =>
      UnlinkConserves(s, i);
      DropOrder(s, i, moves);
      if moves { MoveConserves(Unlinked(Stolen(s, i), i), i); } else { CommitConserves(Unlinked(Stolen(s, i), i), i); }
    case Restart => MountRecovers(s);
    case Interrupted(b, landed) =>
      if landed {
        StepRests(s, b);
        MountRecovers(Step(s, b));
      } else {
        MountRecovers(s);
      }
  }

  // ---------------------------------------------------------------- what is expected

  /** What should be in memory, and what a mount should find on the disk, as far as the actions
      alone tell. */
  datatype Ledger = Ledger(memory: G, disk: G)

  /** What mounting finds of a state: the bits that go to the disk, and if they say that there are
      orphans, one of them. */
  function Found(g: G): G
  {
    var k := Kept(g);
    if INVALID in k.tag then k.(tag := k.tag + {0}) else k
  }

  /** A commit in place writes down what is in memory; memory changes by setting and mounting only. */
  function Expect(l: Ledger, a: Action): Ledger
  {
    match a
    case SetState(g) => l.(memory := g)
    case Commit(_) => l.(disk := l.memory)
    case Move(_) => l
    case Drop(_, moves) => if moves then l else l.(disk := l.memory)
    case Restart => Ledger(Found(l.disk), l.disk)
    case Interrupted(b, landed) => var d := if landed then Expect(l, b).disk else l.disk; Ledger(Found(d), d)
  }

  function Expected(l: Ledger, actions: seq<Action>): Ledger
  {
    if actions == [] then l else Expect(Expected(l, actions[..|actions| - 1]), actions[|actions| - 1])
  }

  /** The state is what the ledger says: in memory bit for bit, on the disk but for the bits that do
      not get there. */
  predicate Meets(s: State, l: Ledger)
  {
    && s.gstate == l.memory && Kept(s.gdisk) == Kept(l.disk)
    && Kept(Mounted(s.dirs).gstate) == Kept(l.disk) && Mounted(s.dirs).gstate == Found(l.disk)
  }

  lemma MountFinds(s: State, d: G)
    requires Resting(s) && Kept(s.gdisk) == Kept(d)
    ensures Mounted(s.dirs).gstate == Mounted(s.dirs).gdisk == Found(d) && Kept(Found(d)) == Kept(d)
  {
    var g := Sum(s.dirs);
    SumClean(s.dirs);
    assert Xor(g, ZERO) == g;
    assert g == Kept(d);
    assert 0 !in And(d.tag, SIZE_BITS);
  }

  /** One step does what the ledger says. */
  lemma StepMeets(s: State, l: Ledger, a: Action)
    requires Resting(s) && Meets(s, l) && Possible(s, a)
    ensures Meets(Step(s, a), Expect(l, a))
  {
    hide Resting;
    hide Kept;
    hide Found;
    hide Xor;
    StepRests(s, a);
    MountFinds(s, l.disk);
    match a
    case Restart => RestartMeets(s, l);
    case Interrupted(b, landed) =>
      if landed {
        StepRests(s, b);
        StepMeets(s, l, b);
        MountFinds(Step(s, b), Expect(l, b).disk);
        MountFinds(Step(s, a), Expect(l, b).disk);
      } else {
        RestartMeets(s, l);
      }
    case _ => MountFinds(Step(s, a), Expect(l, a).disk);
  }

  lemma RestartMeets(s: State, l: Ledger)
    requires Resting(s) && Meets(s, l)
    ensures Meets(Mounted(s.dirs), Ledger(Found(l.disk), l.disk))
  {
    hide Resting;
    hide Kept;
    hide Found;
    MountFinds(s, l.disk);
  }

  predicate PossibleRun(s: State, actions: seq<Action>)
    decreases |actions|, 0
  {
    actions == [] || (PossibleRun(s, actions[..|actions| - 1]) && Possible(Run(s, actions[..|actions| - 1]), actions[|actions| - 1]))
  }

  function Run(s: State, actions: seq<Action>): State
    requires PossibleRun(s, actions)
    decreases |actions|, 1
  {
    if actions == [] then s else Step(Run(s, actions[..|actions| - 1]), actions[|actions| - 1])
  }

  /** Over whole runs, with losses of power anywhere, what is in memory and what a mount finds is what
      the list of actions says, and nothing is lost in between. */
  lemma {:induction false} RunConserves(s: State, actions: seq<Action>)
    requires Resting(s) && PossibleRun(s, actions)
    ensures Resting(Run(s, actions)) && Meets(Run(s, actions), Expected(Ledger(s.gstate, s.gdisk), actions))
    decreases |actions|
  {
    hide Resting;
    hide Meets;
    if actions == [] {
      StartMeets(s);
    } else {
      var front, a := actions[..|actions| - 1], actions[|actions| - 1];
      RunConserves(s, front);
      StepRests(Run(s, front), a);
      StepMeets(Run(s, front), Expected(Ledger(s.gstate, s.gdisk), front), a);
    }
  }

  lemma StartMeets(s: State)
    requires Resting(s)
    ensures Meets(s, Ledger(s.gstate, s.gdisk))
  {
    MountFinds(s, s.gdisk);
  }

  // ---------------------------------------------------------------- what a run finds

  // what makes something durable, whatever happens to it
  predicate Writes(a: Action)
  {
    match a
    case Commit(_) => true
    case Drop(_, moves) => !moves
    case Interrupted(b, landed) => landed && Writes(b)
    case _ => false
  }

  // what changes the state in memory
  predicate Changes(a: Action) { a.SetState? || a.Restart? || a.Interrupted? }

  lemma {:induction false} NoneWrites(l: Ledger, actions: seq<Action>, i: nat)
    requires i <= |actions| && forall j :: i <= j < |actions| ==> !Writes(actions[j])
    ensures Expected(l, actions).disk == Expected(l, actions[..i]).disk
    decreases |actions|
  {
    var n := |actions| - 1;
    if i <= n {
      assert actions[..n][..i] == actions[..i];
      NoneWrites(l, actions[..n], i);
      NoWriteKeeps(Expected(l, actions[..n]), actions[n]);
    } else {
      assert actions[..i] == actions;
    }
  }

  lemma {:induction false} NoneChanges(l: Ledger, actions: seq<Action>, i: nat)
    requires i <= |actions| && forall j :: i <= j < |actions| ==> !Changes(actions[j])
    ensures Expected(l, actions).memory == Expected(l, actions[..i]).memory
    decreases |actions|
  {
    var n := |actions| - 1;
    if i <= n {
      assert actions[..n][..i] == actions[..i];
      NoneChanges(l, actions[..n], i);
    } else {
      assert actions[..i] == actions;
    }
  }

  lemma ExpectedNext(l: Ledger, actions: seq<Action>, i: nat)
    requires i < |actions|
    ensures Expected(l, actions[..i + 1]) == Expect(Expected(l, actions[..i]), actions[i])
  {
    assert actions[..i + 1][..i] == actions[..i];
  }

  /** What was set last before the last commit in place, a commit that reached the disk before power
      was lost included, is what a mount finds after any run. */
  lemma LastSetIsFound(s: State, actions: seq<Action>, j: nat, i: nat)
    requires Resting(s) && PossibleRun(s, actions) && j < i < |actions|
    requires actions[j].SetState? && forall k :: j < k < i ==> !Changes(actions[k])
    requires Writes(actions[i]) && forall k :: i < k < |actions| ==> !Writes(actions[k])
    ensures Kept(Mounted(Run(s, actions).dirs).gstate) == Kept(actions[j].g)
  {
    hide Kept;
    hide Resting;
    hide Expect;
    hide Found;
    var l := Ledger(s.gstate, s.gdisk);
    var front := actions[..i];
    RunConserves(s, actions);
    NoneWrites(l, actions, i + 1);
    ExpectedNext(l, actions, i);
    WriteCounts(Expected(l, front), actions[i]);
    NoneChanges(l, front, j + 1);
    assert front[..j + 1] == actions[..j + 1];
    ExpectedNext(l, actions, j);
    SetCounts(Expected(l, actions[..j]), actions[j]);
  }

  /** Without a commit in place, a mount finds what it would have found before the run. */
  lemma NothingWrittenIsFound(s: State, actions: seq<Action>)
    requires Resting(s) && PossibleRun(s, actions) && forall k :: 0 <= k < |actions| ==> !Writes(actions[k])
    ensures Kept(Mounted(Run(s, actions).dirs).gstate) == Kept(s.gdisk)
  {
    hide Kept;
    hide Resting;
    hide Expect;
    hide Found;
    RunConserves(s, actions);
    NoneWrites(Ledger(s.gstate, s.gdisk), actions, 0);
  }

  lemma SetCounts(l: Ledger, a: Action)
    requires a.SetState?
    ensures Expect(l, a).memory == a.g
  {}

  lemma NoWriteKeeps(l: Ledger, a: Action)
    requires !Writes(a)
    ensures Expect(l, a).disk == l.disk
  {}

  lemma WriteCounts(l: Ledger, a: Action)
    requires Writes(a)
    ensures Expect(l, a).disk == l.memory
  {}

  lemma SpreadWord(s: word, d: word, t: word, gs: word, gd: word, gl: word, m: nat)
    requires And(X(s, gl), m) == And(gd, m)
    ensures And(X(X(X(s, d), X(And(X(X(gs, gd), X(gl, t)), m), d)), {}), m) == And(gs, m) <==> And(t, m) == {}
  {
    var l := And(X(X(X(s, d), X(And(X(X(gs, gd), X(gl, t)), m), d)), {}), m);
    forall k ensures k in l <==> (k in And(gs, m)) != (k in And(t, m)) {
      assert k in And(X(s, gl), m) <==> k in And(gd, m);
    }
    if l == And(gs, m) {
      forall k ensures k !in And(t, m) { assert k in l <==> k in And(gs, m); }
    }
  }

  lemma SpreadPair(s: word, d: word, t: word, gs: word, gd: word, gl: word)
    requires X(s, gl) == gd
    ensures X(X(X(s, d), X(X(X(gs, gd), X(gl, t)), d)), {}) == gs <==> t == {}
  {
    SpreadWord(s, d, t, gs, gd, gl, 0);
    AllBits(X(X(X(s, d), X(And(X(X(gs, gd), X(gl, t)), 0), d)), {}));
    AllBits(X(X(gs, gd), X(gl, t)));
    AllBits(gs);
    AllBits(t);
  }

  lemma AllBits(a: word)
    ensures And(a, 0) == a
  {}

  /** After a drop that failed, the next commit anywhere writes down the stolen delta: the state
      on the disk is right exactly if there was nothing to steal. */
  lemma FailedDropSpreadsIff(s: State, i: nat, j: nat)
    requires i + 1 < |s.dirs| && j < |s.dirs| && Conserved(s)
    ensures Conserved(Committed(Stolen(s, i), j)) <==> Kept(s.dirs[i + 1]) == ZERO
  {
    hide X;
    hide And;
    var x, t, d := Sum(s.dirs), s.dirs[i + 1], s.dirs[j];
    var gl := Xor(s.gdelta, t);
    SumReplaced(s.dirs, j, Xor(Kept(Xor(Xor(s.gstate, s.gdisk), gl)), d));
    SpreadWord(x.tag, d.tag, t.tag, s.gstate.tag, s.gdisk.tag, s.gdelta.tag, SIZE_BITS);
    SpreadPair(x.pair0, d.pair0, t.pair0, s.gstate.pair0, s.gdisk.pair0, s.gdelta.pair0);
    SpreadPair(x.pair1, d.pair1, t.pair1, s.gstate.pair1, s.gdisk.pair1, s.gdelta.pair1);
  }

  // ---------------------------------------------------------------- the file system

  // a directory without a delta counts as zero
  function DeltaOf(o: Option<G>): G { if o == None then ZERO else o.value }

  function Deltas(logs: seq<Option<G>>): (r: seq<G>)
    ensures |r| == |logs|
  {
    seq(|logs|, i requires 0 <= i < |logs| => DeltaOf(logs[i]))
  }

  lemma DeltasReplaced(logs: seq<Option<G>>, i: nat, o: Option<G>)
    requires i < |logs|
    ensures Deltas(logs[i := o]) == Deltas(logs)[i := DeltaOf(o)]
  {}

  lemma DeltasWithout(logs: seq<Option<G>>, i: nat)
    requires i < |logs|
    ensures Deltas(logs[..i] + logs[i + 1..]) == Without(Deltas(logs), i)
  {
    var l, r := Deltas(logs[..i] + logs[i + 1..]), Without(Deltas(logs), i);
    assert |l| == |r| && forall k :: 0 <= k < |l| ==> l[k] == r[k];
  }

  lemma XorZero(a: G, b: G)
    ensures Xor(ZERO, a) == a && Xor(a, ZERO) == a && Xor(a, b) == Xor(b, a)
  {}

  class Filesystem {
    // the delta in the log of each directory on the tail list, if it has one
    var logs: seq<Option<G>>
    var gstate: G
    var gdisk: G
    var gdelta: G

    constructor (logs: seq<Option<G>>, gstate: G, gdisk: G, gdelta: G)
      ensures Now() == State(Deltas(logs), gstate, gdisk, gdelta)
    {
      this.logs, this.gstate, this.gdisk, this.gdelta := logs, gstate, gdisk, gdelta;
    }

    function Now(): State
      reads this
    {
      State(Deltas(logs), gstate, gdisk, gdelta)
    }

    method GetState(i: nat, g: G) returns (r: G)
      requires i < |logs|
      ensures r == Xor(g, Deltas(logs)[i])
    {
      XorZero(g, g);
      if logs[i] == None {
        return g;
      }
      return Xor(g, logs[i].value);
    }

    /** Appends a delta only if there is a difference to write down. */
    method AppendCommit(i: nat)
      requires i < |logs|
      modifies this
      ensures Now() == Committed(old(Now()), i)
      ensures gstate == old(gstate) && gdisk == gstate && gdelta == ZERO && OnlyLog(old(logs), logs, i)
    {
      hide Xor;
      hide Kept;
      var delta := ZERO;
      XorZero(gstate, gstate);
      delta := Xor(delta, gstate);
      delta := Xor(delta, gdisk);
      delta := Xor(delta, gdelta);
      delta := Kept(delta);
      XorZero(Deltas(logs)[i], delta);
      if delta != ZERO {
        delta := GetState(i, delta);
        DeltasReplaced(logs, i, Some(delta));
        logs := logs[i := Some(delta)];
      }
      gdisk := gstate;
      gdelta := ZERO;
    }

    /** Compaction leaves the old delta behind, and writes one only if it is not zero. */
    method Compact(i: nat, relocated: bool)
      requires i < |logs|
      modifies this
      ensures Now() == if relocated then Moved(old(Now()), i) else Committed(old(Now()), i)
      ensures gstate == old(gstate) && gdisk == (if relocated then old(gdisk) else gstate) && gdelta == ZERO
      ensures OnlyLog(old(logs), logs, i)
    {
      hide Xor;
      hide Kept;
      var delta := ZERO;
      XorZero(gdisk, gstate);
      if !relocated {
        delta := Xor(delta, gdisk);
        delta := Xor(delta, gstate);
      }
      XorZero(gdelta, gdelta);
      delta := Xor(delta, gdelta);
      delta := Kept(delta);
      delta := GetState(i, delta);
      DeltasReplaced(logs, i, Some(delta));
      DeltasReplaced(logs, i, None);
      logs := logs[i := if delta != ZERO then Some(delta) else None];
      gdelta := ZERO;
      if !relocated {
        gdisk := gstate;
      }
    }

    /** Unlinks the directory behind dir i, after taking over its delta. */
    method DropTail(i: nat, full: bool, relocated: bool)
      requires i + 1 < |logs|
      modifies this
      ensures Now() == Step(old(Now()), Drop(i, full && relocated))
      ensures gstate == old(gstate) && gdisk == (if full && relocated then old(gdisk) else gstate) && gdelta == ZERO
      ensures |logs| == |old(logs)| - 1 && logs[..i] == old(logs)[..i] && logs[i + 1..] == old(logs)[i + 2..]
    {
      hide Xor;
      hide Kept;
      gdelta := GetState(i + 1, gdelta);
      if full {
        Compact(i, relocated);
      } else {
        AppendCommit(i);
      }
      DeltasWithout(logs, i + 1);
      logs := logs[..i + 1] + logs[i + 2..];
    }
  }

  // only the delta of one directory changed
  predicate OnlyLog(a: seq<Option<G>>, b: seq<Option<G>>, i: nat)
  {
    |a| == |b| && forall j :: 0 <= j < |a| && j != i ==> b[j] == a[j]
  }
}
