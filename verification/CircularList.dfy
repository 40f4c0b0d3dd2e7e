/** Circular doubly linked lists, kept in two maps of links. */
module CircularList {
  import opened Words

  // the place behind and in front of a place
  function After(n: nat, j: nat): (k: nat)
    requires j < n
    ensures k < n
  {
    if j + 1 < n then j + 1 else 0
  }

  function Before(n: nat, j: nat): (k: nat)
    requires j < n
    ensures k < n
  {
    if j > 0 then j - 1 else n - 1
  }

  function Succ(ring: seq<int>, j: nat): int
    requires j < |ring|
  {
    ring[After(|ring|, j)]
  }

  function Pred(ring: seq<int>, j: nat): int
    requires j < |ring|
  {
    ring[Before(|ring|, j)]
  }

  predicate LinkedAt(next: map<int, int>, prev: map<int, int>, ring: seq<int>, j: nat)
    requires j < |ring|
  {
    ring[j] in next && ring[j] in prev && next[ring[j]] == Succ(ring, j) && prev[ring[j]] == Pred(ring, j)
  }

  /** The links go once around the ring, forward and back. */
  predicate Linked(next: map<int, int>, prev: map<int, int>, ring: seq<int>)
  {
    ring != [] && Distinct(ring) && forall j :: 0 <= j < |ring| ==> LinkedAt(next, prev, ring, j)
  }

  function Inserted(ring: seq<int>, j: nat, x: int): (r: seq<int>)
    requires j < |ring|
    ensures |r| == |ring| + 1
    ensures forall i :: 0 <= i < |r| ==> r[i] == if i <= j then ring[i] else if i == j + 1 then x else ring[i - 1]
  {
    ring[..j + 1] + [x] + ring[j + 1..]
  }

  function Removed(ring: seq<int>, j: nat): (r: seq<int>)
    requires j < |ring|
    ensures |r| == |ring| - 1
    ensures forall i :: 0 <= i < |r| ==> r[i] == if i < j then ring[i] else ring[i + 1]
  {
    ring[..j] + ring[j + 1..]
  }

  lemma SameNode(ring: seq<int>, i: nat, j: nat)
    requires Distinct(ring) && i < |ring| && j < |ring|
    ensures ring[i] == ring[j] <==> i == j
  {}

  /** Linking a node in behind another. */
  lemma InsertLinked(next: map<int, int>, prev: map<int, int>, ring: seq<int>, j: nat, x: int)
    requires Linked(next, prev, ring) && j < |ring| && x !in ring
    ensures Linked(next[x := Succ(ring, j)][ring[j] := x], prev[x := ring[j]][Succ(ring, j) := x], Inserted(ring, j, x))
  {
    hide LinkedAt;
    var r := Inserted(ring, j, x);
    var next', prev' := next[x := Succ(ring, j)][ring[j] := x], prev[x := ring[j]][Succ(ring, j) := x];
    forall i | 0 <= i < |r| ensures LinkedAt(next', prev', r, i) {
      InsertLinkedAt(next, prev, ring, j, x, i, r);
    }
    InsertDistinct(ring, j, x);
  }

  lemma InsertDistinct(ring: seq<int>, j: nat, x: int)
    requires Distinct(ring) && j < |ring| && x !in ring
    ensures Distinct(Inserted(ring, j, x))
  {
    var r := Inserted(ring, j, x);
    assert forall m :: 0 <= m < |ring| ==> ring[m] != x;
  }

  lemma InsertLinkedAt(next: map<int, int>, prev: map<int, int>, ring: seq<int>, j: nat, x: int, i: nat, r: seq<int>)
    requires Linked(next, prev, ring) && j < |ring| && x !in ring && r == Inserted(ring, j, x) && i < |r|
    ensures LinkedAt(next[x := Succ(ring, j)][ring[j] := x], prev[x := ring[j]][Succ(ring, j) := x], r, i)
  {
    var n := |ring|;
    if i != j + 1 {
      var k := if i <= j then i else i - 1;
      assert ring[k] != x && LinkedAt(next, prev, ring, k);
      SameNode(ring, k, j);
      SameNode(ring, k, After(n, j));
    }
  }

  /** Unlinking a node. */
  lemma RemoveLinked(next: map<int, int>, prev: map<int, int>, ring: seq<int>, j: nat)
    requires Linked(next, prev, ring) && j < |ring| && |ring| >= 2
    ensures Linked(next[Pred(ring, j) := Succ(ring, j)], prev[Succ(ring, j) := Pred(ring, j)], Removed(ring, j))
  {
    hide LinkedAt;
    var r := Removed(ring, j);
    var next', prev' := next[Pred(ring, j) := Succ(ring, j)], prev[Succ(ring, j) := Pred(ring, j)];
    forall i | 0 <= i < |r| ensures LinkedAt(next', prev', r, i) {
      RemoveLinkedAt(next, prev, ring, j, i, r);
    }
  }

  lemma RemoveLinkedAt(next: map<int, int>, prev: map<int, int>, ring: seq<int>, j: nat, i: nat, r: seq<int>)
    requires Linked(next, prev, ring) && j < |ring| && |ring| >= 2 && r == Removed(ring, j) && i < |r|
    ensures LinkedAt(next[Pred(ring, j) := Succ(ring, j)], prev[Succ(ring, j) := Pred(ring, j)], r, i)
  {
    var n := |ring|;
    var k := if i < j then i else i + 1;
    assert LinkedAt(next, prev, ring, k);
    SameNode(ring, k, Before(n, j));
    SameNode(ring, k, After(n, j));
  }

  lemma LinksAt(next: map<int, int>, prev: map<int, int>, ring: seq<int>, j: nat)
    requires Linked(next, prev, ring) && j < |ring|
    ensures ring[j] in next && ring[j] in prev && next[ring[j]] == Succ(ring, j) && prev[ring[j]] == Pred(ring, j) && Distinct(ring)
  {
    assert LinkedAt(next, prev, ring, j);
  }
}
