/** When the read loop ends.  With an aligned program cache and a hint it always does; without
    them a turn may leave everything as it was, and then every later turn does the same. */
module ReadEnds {
  import opened Words
  import opened Arith
  import opened BlockDevice

  /** Where a read stands after some turns. */
  function After(cfg: Config, disk: Disk, p: CacheState, hint: nat, block: int, s: Reading, turns: nat): (t: Reading)
    requires Underway(cfg, disk, p, block, s)
    ensures Underway(cfg, disk, p, block, t) && t.off + t.left == s.off + s.left
    decreases turns
  {
    if turns == 0 || s.left == 0 then s
    else After(cfg, disk, p, hint, block, OneTurn(cfg, disk, p, hint, block, s), turns - 1)
  }

  predicate StallsAt(cfg: Config, disk: Disk, p: CacheState, hint: nat, block: int, s: Reading)
    requires Underway(cfg, disk, p, block, s)
  {
    s.left > 0 && Stalls(NextTurn(cfg, p, s.r, hint, block, s.off, s.left), s.off)
  }

  ghost predicate Ends(cfg: Config, disk: Disk, p: CacheState, hint: nat, block: int, s: Reading)
    requires Underway(cfg, disk, p, block, s)
  {
    exists turns: nat :: After(cfg, disk, p, hint, block, s, turns).left == 0
  }

  /** The turn after a stalled one stalls, too, and nothing was copied. */
  lemma StallRepeats(cfg: Config, disk: Disk, p: CacheState, hint: nat, block: int, s: Reading)
    requires Underway(cfg, disk, p, block, s) && StallsAt(cfg, disk, p, hint, block, s)
    ensures var t := OneTurn(cfg, disk, p, hint, block, s);
            t.off == s.off && t.left == s.left && t.data == s.data && StallsAt(cfg, disk, p, hint, block, t)
  {
    var turn := NextTurn(cfg, p, s.r, hint, block, s.off, s.left);
    TurnFits(cfg, p, s.r, hint, block, s.off, s.left);
    StallsIff(cfg, p, s.r, hint, block, s.off, s.left);
    if turn.Load? {
      var t := OneTurn(cfg, disk, p, hint, block, s);
      StallsIff(cfg, p, t.r, hint, block, t.off, t.left);
    } else {
      assert s.data + [] == s.data;
    }
  }

  lemma {:induction false} StalledForever(cfg: Config, disk: Disk, p: CacheState, hint: nat, block: int, s: Reading, turns: nat)
    requires Underway(cfg, disk, p, block, s) && StallsAt(cfg, disk, p, hint, block, s)
    ensures After(cfg, disk, p, hint, block, s, turns).left == s.left
    decreases turns
  {
    hide StallsAt;
    hide OneTurn;
    hide Underway;
    StallRepeats(cfg, disk, p, hint, block, s);
    StallLeft(cfg, disk, p, hint, block, s);
    if turns > 0 {
      StalledForever(cfg, disk, p, hint, block, OneTurn(cfg, disk, p, hint, block, s), turns - 1);
    }
  }

  lemma StallLeft(cfg: Config, disk: Disk, p: CacheState, hint: nat, block: int, s: Reading)
    requires Underway(cfg, disk, p, block, s) && StallsAt(cfg, disk, p, hint, block, s)
    ensures s.left > 0
  {}

  lemma {:induction false} AfterMore(cfg: Config, disk: Disk, p: CacheState, hint: nat, block: int, s: Reading, turns: nat, more: nat)
    requires Underway(cfg, disk, p, block, s)
    ensures After(cfg, disk, p, hint, block, s, turns + more) ==
            After(cfg, disk, p, hint, block, After(cfg, disk, p, hint, block, s, turns), more)
    decreases turns
  {
    hide OneTurn;
    hide Underway;
    if turns > 0 && s.left > 0 {
      AfterMore(cfg, disk, p, hint, block, OneTurn(cfg, disk, p, hint, block, s), turns - 1, more);
    }
  }

  // no turn that the read comes to stalls
  ghost predicate NeverStalls(cfg: Config, disk: Disk, p: CacheState, hint: nat, block: int, s: Reading)
    requires Underway(cfg, disk, p, block, s)
  {
    forall turns: nat :: !StallsAt(cfg, disk, p, hint, block, After(cfg, disk, p, hint, block, s, turns))
  }

  lemma {:induction false} ProgressEnds(cfg: Config, disk: Disk, p: CacheState, hint: nat, block: int, s: Reading)
    requires Underway(cfg, disk, p, block, s) && NeverStalls(cfg, disk, p, hint, block, s)
    ensures After(cfg, disk, p, hint, block, s, ToDo(p, block, s)).left == 0
    decreases ToDo(p, block, s)
  {
    hide OneTurn;
    hide StallsAt;
    hide Underway;
    if s.left > 0 {
      var t := OneTurn(cfg, disk, p, hint, block, s);
      assert !StallsAt(cfg, disk, p, hint, block, After(cfg, disk, p, hint, block, s, 0));
      NoStallProgress(cfg, disk, p, hint, block, s);
      forall turns: nat ensures !StallsAt(cfg, disk, p, hint, block, After(cfg, disk, p, hint, block, t, turns)) {
        assert !StallsAt(cfg, disk, p, hint, block, After(cfg, disk, p, hint, block, s, turns + 1));
      }
      ProgressEnds(cfg, disk, p, hint, block, t);
      var n := ToDo(p, block, t);
      var rest: nat := ToDo(p, block, s) - 1 - n;
      AfterMore(cfg, disk, p, hint, block, t, n, rest);
      assert After(cfg, disk, p, hint, block, s, n + rest + 1) == After(cfg, disk, p, hint, block, t, n + rest);
    }
  }

  lemma NoStallProgress(cfg: Config, disk: Disk, p: CacheState, hint: nat, block: int, s: Reading)
    requires Underway(cfg, disk, p, block, s) && s.left > 0 && !StallsAt(cfg, disk, p, hint, block, s)
    ensures ToDo(p, block, OneTurn(cfg, disk, p, hint, block, s)) < ToDo(p, block, s)
  {
    TurnProgress(cfg, disk, p, hint, block, s);
  }

  /** Exactly when a read ends: if none of the turns it comes to stalls. */
  lemma EndsIff(cfg: Config, disk: Disk, p: CacheState, hint: nat, block: int, s: Reading)
    requires Underway(cfg, disk, p, block, s)
    ensures Ends(cfg, disk, p, hint, block, s) <==> NeverStalls(cfg, disk, p, hint, block, s)
  {
    hide StallsAt;
    hide Underway;
    if NeverStalls(cfg, disk, p, hint, block, s) {
      ProgressEnds(cfg, disk, p, hint, block, s);
    } else {
      var n: nat :| StallsAt(cfg, disk, p, hint, block, After(cfg, disk, p, hint, block, s, n));
      forall turns: nat ensures After(cfg, disk, p, hint, block, s, turns).left > 0 {
        StuckAt(cfg, disk, p, hint, block, s, n, turns);
      }
    }
  }

  lemma StuckAt(cfg: Config, disk: Disk, p: CacheState, hint: nat, block: int, s: Reading, n: nat, turns: nat)
    requires Underway(cfg, disk, p, block, s) && StallsAt(cfg, disk, p, hint, block, After(cfg, disk, p, hint, block, s, n))
    ensures After(cfg, disk, p, hint, block, s, turns).left > 0
  {
    hide StallsAt;
    hide Underway;
    hide OneTurn;
    var t := After(cfg, disk, p, hint, block, s, n);
    StallLeft(cfg, disk, p, hint, block, t);
    if turns <= n {
      AfterMore(cfg, disk, p, hint, block, s, turns, n - turns);
    } else {
      StalledForever(cfg, disk, p, hint, block, t, turns - n);
      AfterMore(cfg, disk, p, hint, block, s, n, turns - n);
    }
  }

  /** A program cache that does not start on a read unit makes a read in front of it endless. */
  lemma EndlessRead()
    ensures exists cfg, disk: Disk, p, hint: nat, block, s ::
              && Underway(cfg, disk, p, block, s) && hint > 0 && Coherent(cfg, disk, s.r) && Multiple(p.off, cfg.progSize)
              && !Ends(cfg, disk, p, hint, block, s)
  {
    var cfg := Config(16, 1, 16, 128);
    var disk: Disk := map[0 := seq(128, i => 0)];
    var p := CacheState(0, 8, 1, seq(16, i => 0));
    var s := Reading(CacheState(NULL_BLOCK, 0, 0, seq(16, i => 0)), 0, 16, []);
    assert Underway(cfg, disk, p, 0, s);
    assert NextTurn(cfg, p, s.r, 16, 0, 0, 16) == Direct(AlignDown(8, 16));
    AlignDownIs(8, 16, 0);
    assert StallsAt(cfg, disk, p, 16, 0, After(cfg, disk, p, 16, 0, s, 0));
    EndsIff(cfg, disk, p, 16, 0, s);
  }

  /** What callers can rely on. */
  lemma AlignedEnds(cfg: Config, disk: Disk, p: CacheState, hint: nat, block: int, s: Reading)
    requires Underway(cfg, disk, p, block, s) && ReadAligned(cfg, p) && hint > 0
    ensures Ends(cfg, disk, p, hint, block, s)
  {
    forall turns: nat ensures !StallsAt(cfg, disk, p, hint, block, After(cfg, disk, p, hint, block, s, turns)) {
      var t := After(cfg, disk, p, hint, block, s, turns);
      if t.left > 0 { NoStall(cfg, p, t.r, hint, block, t.off, t.left); }
    }
    EndsIff(cfg, disk, p, hint, block, s);
  }
}
