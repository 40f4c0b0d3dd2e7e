/** Detecting cycles in the list of directories while it is walked. */
module TailCycles {
  import opened Words

  datatype Pair = Pair(a: int, b: int)

  predicate IsNull(p: Pair) { p.a == NULL_BLOCK || p.b == NULL_BLOCK }

  /** The two blocks of a pair may be named in either order. */
  predicate Sync(p: Pair, q: Pair)
  {
    (p.a == q.a && p.b == q.b) || (p.a == q.b && p.b == q.a)
  }

  // the same for both orders
  function Key(p: Pair): Pair { if p.a <= p.b then p else Pair(p.b, p.a) }

  lemma SyncIsSameKey(p: Pair, q: Pair)
    ensures Sync(p, q) <==> Key(p) == Key(q)
    ensures Key(p) == Key(q) ==> (IsNull(p) <==> IsNull(q))
  {}

  /** The tails of the directories that can be read. */
  type Tails = map<Pair, Pair>

  /** The list ends, or a directory cannot be read. */
  predicate Stops(tails: Tails, p: Pair) { IsNull(p) || Key(p) !in tails }

  /** The pair that is reached after k steps. */
  function Nth(tails: Tails, first: Pair, k: nat): Option<Pair>
  {
    if k == 0 then Some(first)
    else
      match Nth(tails, first, k - 1)
      case None => None
      case Some(p) => if Stops(tails, p) then None else Some(tails[Key(p)])
  }

  predicate Reaches(tails: Tails, first: Pair, k: nat) { Nth(tails, first, k) != None }

  function KeyAt(tails: Tails, first: Pair, k: nat): Pair
    requires Reaches(tails, first, k)
  {
    Key(Nth(tails, first, k).value)
  }

  lemma {:induction false} ReachesEarlier(tails: Tails, first: Pair, j: nat, k: nat)
    requires j <= k && Reaches(tails, first, k)
    ensures Reaches(tails, first, j) && (j < k ==> !Stops(tails, Nth(tails, first, j).value))
    decreases k
  {
    if j < k { if j < k - 1 { ReachesEarlier(tails, first, j, k - 1); } }
  }

  /** The same pair again means the same walk again. */
  lemma {:induction false} SameAgain(tails: Tails, first: Pair, j: nat, h: nat, m: nat)
    requires j <= h && Reaches(tails, first, h + m) && Reaches(tails, first, j) && Reaches(tails, first, h)
    requires KeyAt(tails, first, j) == KeyAt(tails, first, h)
    ensures Reaches(tails, first, j + m) && KeyAt(tails, first, j + m) == KeyAt(tails, first, h + m)
    decreases m
  {
    if m > 0 {
      ReachesEarlier(tails, first, h + (m - 1), h + m);
      SameAgain(tails, first, j, h, m - 1);
      SyncIsSameKey(Nth(tails, first, j + (m - 1)).value, Nth(tails, first, h + (m - 1)).value);
    }
  }

  // ---------------------------------------------------------------- the two kinds of lists

  /** A list that stops after n steps. */
  predicate Ends(tails: Tails, first: Pair, n: nat)
  {
    Reaches(tails, first, n) && Stops(tails, Nth(tails, first, n).value)
  }

  /** A list that after mu steps goes around in lambda steps, over mu + lambda distinct pairs. */
  predicate Cycles(tails: Tails, first: Pair, mu: nat, lambda: nat)
  {
    && lambda > 0 && AllDistinct(tails, first, mu + lambda)
    && Reaches(tails, first, mu + lambda) && KeyAt(tails, first, mu + lambda) == KeyAt(tails, first, mu)
  }

  predicate AllDistinct(tails: Tails, first: Pair, n: nat)
  {
    && (forall k :: 0 <= k <= n ==> Reaches(tails, first, k))
    && (forall j, k :: 0 <= j < k < n ==> KeyAt(tails, first, j) != KeyAt(tails, first, k))
  }

  lemma EndsIsNoCycle(tails: Tails, first: Pair, n: nat, j: nat, h: nat)
    requires Ends(tails, first, n) && j < h <= n && Reaches(tails, first, h) && Reaches(tails, first, j)
    ensures KeyAt(tails, first, j) != KeyAt(tails, first, h)
  {
    if KeyAt(tails, first, j) == KeyAt(tails, first, h) {
      SameAgain(tails, first, j, h, n - h);
      SyncIsSameKey(Nth(tails, first, j + (n - h)).value, Nth(tails, first, n).value);
      ReachesEarlier(tails, first, j + (n - h), n);
      assert false;
    }
  }

  lemma {:induction false} CyclesForever(tails: Tails, first: Pair, mu: nat, lambda: nat, k: nat)
    requires Cycles(tails, first, mu, lambda)
    ensures Reaches(tails, first, k)
    ensures k >= mu ==> Reaches(tails, first, k + lambda) && KeyAt(tails, first, k + lambda) == KeyAt(tails, first, k)
    decreases k
  {
    if k < mu {
      ReachesEarlier(tails, first, k, mu + lambda);
    } else if k == mu {
      assert k + lambda == mu + lambda;
    } else {
      CyclesForever(tails, first, mu, lambda, k - 1);
      var p, q := Nth(tails, first, k - 1).value, Nth(tails, first, k - 1 + lambda).value;
      SyncIsSameKey(p, q);
      if k <= mu + lambda {
        ReachesEarlier(tails, first, k, mu + lambda);
        ReachesEarlier(tails, first, k - 1, k);
      } else {
        CyclesForever(tails, first, mu, lambda, k - lambda);
      }
      ReachesEarlier(tails, first, k - 1, k);
      assert k + lambda - 1 == k - 1 + lambda;
    }
  }

  // the keys of the first n pairs
  function Seen(tails: Tails, first: Pair, n: nat): set<Pair>
    requires AllDistinct(tails, first, n)
  {
    set k | 0 <= k < n :: KeyAt(tails, first, k)
  }

  lemma SeenOneMore(tails: Tails, first: Pair, n: nat)
    requires AllDistinct(tails, first, n) && n > 0
    ensures AllDistinct(tails, first, n - 1)
    ensures Seen(tails, first, n) == Seen(tails, first, n - 1) + {KeyAt(tails, first, n - 1)}
    ensures KeyAt(tails, first, n - 1) !in Seen(tails, first, n - 1) && KeyAt(tails, first, n - 1) in tails
  {
    hide KeyAt;
    ReachesEarlier(tails, first, n - 1, n);
    KeyIn(tails, first, n - 1);
  }

  lemma KeyIn(tails: Tails, first: Pair, k: nat)
    requires Reaches(tails, first, k) && !Stops(tails, Nth(tails, first, k).value)
    ensures KeyAt(tails, first, k) in tails
  {}

  lemma {:induction false} SeenCount(tails: Tails, first: Pair, n: nat)
    requires AllDistinct(tails, first, n)
    ensures |Seen(tails, first, n)| == n && Seen(tails, first, n) <= tails.Keys
    decreases n
  {
    if n > 0 {
      hide Nth;
      hide KeyAt;
      SeenCount(tails, first, n - 1);
      SeenOneMore(tails, first, n);
    }
  }

  lemma CardinalityOfSubset(a: set<Pair>, b: set<Pair>)
    requires a <= b
    ensures |a| <= |b|
    decreases |a|
  {
    if a != {} {
      var x :| x in a;
      CardinalityOfSubset(a - {x}, b - {x});
    }
  }

  /** Every list either ends or goes around. */
  lemma {:induction false} EndsOrCycles(tails: Tails, first: Pair, n: nat) returns (ends: bool, mu: nat, lambda: nat)
    requires AllDistinct(tails, first, n)
    ensures if ends then Ends(tails, first, mu) else Cycles(tails, first, mu, lambda)
    decreases |tails| + 1 - n
  {
    SeenCount(tails, first, n);
    CardinalityOfSubset(Seen(tails, first, n), tails.Keys);
    assert |tails.Keys| == |tails|;
    assert Reaches(tails, first, n);
    if Stops(tails, Nth(tails, first, n).value) {
      return true, n, 0;
    }
    if exists j :: 0 <= j < n && KeyAt(tails, first, j) == KeyAt(tails, first, n) {
      var j :| 0 <= j < n && KeyAt(tails, first, j) == KeyAt(tails, first, n);
      return false, j, n - j;
    }
    assert Reaches(tails, first, n + 1);
    ends, mu, lambda := EndsOrCycles(tails, first, n + 1);
  }

  /** The list goes on and on. */
  ghost predicate Endless(tails: Tails, first: Pair)
  {
    forall k: nat :: Reaches(tails, first, k)
  }

  lemma EndlessIff(tails: Tails, first: Pair, ends: bool, mu: nat, lambda: nat)
    requires if ends then Ends(tails, first, mu) else Cycles(tails, first, mu, lambda)
    ensures Endless(tails, first) <==> !ends
  {
    if ends {
      assert !Reaches(tails, first, mu + 1);
    } else {
      forall k: nat ensures Reaches(tails, first, k) { CyclesForever(tails, first, mu, lambda, k); }
    }
  }

  // there are no more distinct pairs than directories that can be read
  lemma Size(tails: Tails, first: Pair, ends: bool, mu: nat, lambda: nat)
    requires if ends then Ends(tails, first, mu) else Cycles(tails, first, mu, lambda)
    ensures (if ends then mu else mu + lambda) <= |tails|
  {
    var n := if ends then mu else mu + lambda;
    if ends {
      forall k | 0 <= k <= n ensures Reaches(tails, first, k) { ReachesEarlier(tails, first, k, n); }
      forall j, k | 0 <= j < k < n ensures KeyAt(tails, first, j) != KeyAt(tails, first, k) { EndsIsNoCycle(tails, first, n, j, k); }
    }
    SeenCount(tails, first, n);
    CardinalityOfSubset(Seen(tails, first, n), tails.Keys);
    assert |tails.Keys| == |tails|;
  }

  // ---------------------------------------------------------------- the walk

  datatype Outcome = Done | Cycle | Unreadable

  datatype Tortoise = Tortoise(pair: Pair, i: nat, period: nat)

  /** One look at the current pair: a cycle if it is where the tortoise waits; the tortoise
      moves up when it has waited for a period, and the period doubles. */
  function Detect(t: Tortoise, tail: Pair): Option<Tortoise>
  {
    if Sync(tail, t.pair) then None
    else if t.i == t.period then Some(Tortoise(tail, 1, t.period * 2))
    else Some(t.(i := t.i + 1))
  }

  // the tortoise waits at step at, if it has moved yet, and the walk is at step h
  predicate Waiting(tails: Tails, first: Pair, t: Tortoise, at: int, h: nat)
  {
    && -1 <= at < h && t.i == h - at && t.period == at + 2 && t.i <= t.period
    && if at < 0 then t.pair == Pair(NULL_BLOCK, NULL_BLOCK) else Nth(tails, first, at) == Some(t.pair)
  }

  // where the tortoise must be to meet the walk
  function Enough(mu: nat, lambda: nat): nat { if mu < lambda - 2 then lambda - 2 else mu }

  // how far the walk gets on a list that goes around
  predicate Bounded(mu: nat, lambda: nat, at: int, h: nat)
  {
    at <= 2 * Enough(mu, lambda) && (at >= Enough(mu, lambda) ==> h <= at + lambda)
  }

  // if nothing is reported at step h, the bound still holds at the next one
  lemma StaysBounded(tails: Tails, first: Pair, t: Tortoise, at: int, h: nat, mu: nat, lambda: nat)
    requires Cycles(tails, first, mu, lambda) && Reaches(tails, first, h)
    requires Waiting(tails, first, t, at, h) && Bounded(mu, lambda, at, h) && Detect(t, Nth(tails, first, h).value) != None
    ensures Bounded(mu, lambda, if t.i == t.period then h else at, h + 1)
    ensures h < 2 * Enough(mu, lambda) + lambda
  {
    if at >= Enough(mu, lambda) && h == at + lambda {
      CyclesForever(tails, first, mu, lambda, at);
      SyncIsSameKey(Nth(tails, first, h).value, t.pair);
    }
  }

  lemma NoFalseAlarm(tails: Tails, first: Pair, t: Tortoise, at: int, h: nat, n: nat)
    requires Ends(tails, first, n) && h <= n && Reaches(tails, first, h) && Waiting(tails, first, t, at, h)
    requires !IsNull(Nth(tails, first, h).value)
    ensures Detect(t, Nth(tails, first, h).value) != None
  {
    if at >= 0 {
      EndsIsNoCycle(tails, first, n, at, h);
      SyncIsSameKey(Nth(tails, first, h).value, t.pair);
    }
  }

  /** Walks the list. It reports a cycle exactly if the list never ends, within three looks per
      distinct pair; on a list that ends it looks once at every pair. */
  method Walk(tails: Tails, first: Pair) returns (r: Outcome, looks: nat, ghost ends: bool, ghost mu: nat, ghost lambda: nat)
    ensures r == Cycle <==> Endless(tails, first)
    ensures r == Done ==> Reaches(tails, first, looks) && IsNull(Nth(tails, first, looks).value)
    ensures r == Unreadable ==> looks > 0 && Reaches(tails, first, looks - 1) && Key(Nth(tails, first, looks - 1).value) !in tails
    ensures looks <= 3 * |tails| + 1
    ensures if ends then Ends(tails, first, mu) else Cycles(tails, first, mu, lambda)
    ensures r == Cycle <==> !ends
    ensures ends ==> looks == if r == Done then mu else mu + 1
    ensures !ends ==> looks <= 2 * Enough(mu, lambda) + lambda + 1 <= 3 * (mu + lambda) + 1
  {
    ends, mu, lambda := EndsOrCycles(tails, first, 0);
    EndlessIff(tails, first, ends, mu, lambda);
    Size(tails, first, ends, mu, lambda);
    var tail := first;
    var tortoise := Tortoise(Pair(NULL_BLOCK, NULL_BLOCK), 1, 1);
    looks := 0;
    ghost var at: int := -1;
    ghost var limit: nat := if ends then mu else 2 * Enough(mu, lambda) + lambda;
    while !IsNull(tail)
      invariant looks <= limit && Nth(tails, first, looks) == Some(tail)
      invariant Waiting(tails, first, tortoise, at, looks)
      invariant !ends ==> Bounded(mu, lambda, at, looks)
      decreases limit - looks
    {
      if ends { NoFalseAlarm(tails, first, tortoise, at, looks, mu); }
      var next := Detect(tortoise, tail);
      if next == None {
        return Cycle, looks + 1, ends, mu, lambda;
      }
      if !ends {
        StaysBounded(tails, first, tortoise, at, looks, mu, lambda);
        CyclesForever(tails, first, mu, lambda, looks + 1);
        ReachesEarlier(tails, first, looks, looks + 1);
      }
      if Key(tail) !in tails {
        StopsHere(tails, first, looks, mu, ends);
        return Unreadable, looks + 1, ends, mu, lambda;
      }
      if ends { GoesOn(tails, first, looks, mu); }
      if tortoise.i == tortoise.period { at := looks; }
      tortoise, tail, looks := next.value, tails[Key(tail)], looks + 1;
    }
    StopsHere(tails, first, looks, mu, ends);
    if !ends {
      CyclesForever(tails, first, mu, lambda, looks + 1);
      ReachesEarlier(tails, first, looks, looks + 1);
    }
    return Done, looks, ends, mu, lambda;
  }

  lemma StopsHere(tails: Tails, first: Pair, k: nat, n: nat, ends: bool)
    requires Reaches(tails, first, k) && Stops(tails, Nth(tails, first, k).value)
    ensures ends && Ends(tails, first, n) && k <= n ==> k == n
  {
    if ends && Ends(tails, first, n) && k < n { ReachesEarlier(tails, first, k, n); }
  }

  lemma GoesOn(tails: Tails, first: Pair, k: nat, n: nat)
    requires Reaches(tails, first, k) && !Stops(tails, Nth(tails, first, k).value) && k <= n && Ends(tails, first, n)
    ensures k < n
  {}
}
