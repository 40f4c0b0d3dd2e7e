/** Two blocks hold one directory: commits are appended to the newer one, compaction
    erases the other one and writes everything there under the next revision.  At every
    point where power may fail a fetch finds the complete old or the complete new
    directory. */
module MetaPair {
  import opened Words
  import opened TagWord
  import opened MetaLog
  import opened MetaBlock
  import opened MetaCommit
  import opened MetaTorn
  import opened Compaction
  import opened Directory

  // ---------------------------------------------------------------- revisions

  /** The sequence comparison of two 32-bit revisions is positive. */
  predicate Newer(a: nat, b: nat) { 0 < (a - b) % U32 < 0x8000_0000 }

  /** The next revision is newer, also when it wraps to zero. */
  lemma NextIsNewer(rev: nat)
    requires rev < U32
    ensures Newer((rev + 1) % U32, rev) && !Newer(rev, (rev + 1) % U32)
  {}

  lemma NewerIsOneWay(a: nat, b: nat)
    requires a < U32 && b < U32 && Newer(a, b)
    ensures !Newer(b, a)
  {}

  // ---------------------------------------------------------------- fetching a pair

  datatype Pair = Pair(b0: seq<byte>, b1: seq<byte>)
  {
    function Block(i: bool): seq<byte> { if i then b1 else b0 }

    function With(i: bool, b: seq<byte>): Pair { if i then Pair(b0, b) else Pair(b, b1) }
  }

  function Rev(blk: seq<byte>): nat
    requires |blk| >= 4
  {
    LittleEndian(blk[..4])
  }

  predicate Sized(p: Pair, n: nat) { |p.b0| == |p.b1| == n && n >= 4 }

  /** Which block holds the directory, and what was found there. */
  datatype Found = Found(which: bool, fetched: Fetched) | Corrupt

  /** Try the block with the more recent revision; if it holds no good commit, the other. */
  function FetchPair(sum: Sum, p: Pair): Found
    requires |p.b0| >= 4 && |p.b1| >= 4
  {
    var r := Newer(Rev(p.b1), Rev(p.b0));
    var first := FetchBlock(sum, p.Block(r));
    if first.off > 0 then Found(r, first)
    else
      var second := FetchBlock(sum, p.Block(!r));
      if second.off > 0 then Found(!r, second) else Corrupt
  }

  // the other block is no rival: it is older, or holds nothing
  predicate NoRival(sum: Sum, p: Pair, which: bool)
    requires |p.b0| >= 4 && |p.b1| >= 4
  {
    FetchBlock(sum, p.Block(!which)).off == 0 || Newer(Rev(p.Block(which)), Rev(p.Block(!which)))
  }

  /** The invariant of a pair: block which holds directory f, and the other is no rival. */
  ghost predicate PairInv(sum: Sum, p: Pair, n: nat, which: bool, f: Fetched)
  {
    && Sized(p, n) && f == FetchBlock(sum, p.Block(which)) && f.off > 0
    && NoRival(sum, p, which) && SoundCrcs(f.log) && WellFormedLog(f.log) && f.etag.body < BODIES
    && Counted(f.log)
  }

  lemma RevBound(blk: seq<byte>)
    requires |blk| >= 4
    ensures Rev(blk) < U32
  {}

  lemma FetchFinds(sum: Sum, p: Pair, n: nat, which: bool, f: Fetched)
    requires PairInv(sum, p, n, which, f)
    ensures FetchPair(sum, p) == Found(which, f)
  {
    RevBound(p.b0);
    RevBound(p.b1);
    if Newer(Rev(p.b0), Rev(p.b1)) { NewerIsOneWay(Rev(p.b0), Rev(p.b1)); }
  }

  // ---------------------------------------------------------------- programming

  /** The first k bytes of s have reached the block at off. */
  function Programmed(blk: seq<byte>, off: nat, s: seq<byte>, k: nat): (r: seq<byte>)
    requires off + |s| <= |blk| && k <= |s|
    ensures |r| == |blk|
  {
    Patched(blk, off, s[..k])
  }

  // a scan from s accepts nothing more
  predicate Quiet(sum: Sum, blk: seq<byte>, s: Scanning)
  {
    Scan(sum, blk, s).off <= s.off
  }

  /** The hypothesis about the checksum, for one image in which a commit may be cut short at tear:
      from base on, its bytes are all there, or no bytes that were there before are by chance the
      checksum of what is in front of them; and nor are they behind a commit that left no forward
      checksum. */
  ghost predicate Honest(sum: Sum, image: seq<byte>, base: nat, bytes: seq<byte>, off: nat, ptag: Word, m: Commit, tear: nat)
  {
    var next := base + |bytes| + m.pad;
    && (Holds(image, base, bytes) || Unforged(sum, image, base, off, ptag, tear))
    && (m.erased == [] && Holds(image, base, bytes) ==> Unforged(sum, image, next, next, EndTag(m), next))
  }

  // what it gives: a scan from s accepts the commit only if all of it is there, and nothing behind it
  ghost predicate Ideal(sum: Sum, blk: seq<byte>, s: Scanning, written: seq<byte>, off: nat, m: Commit)
  {
    && (Scan(sum, blk, s).off > s.off ==> Holds(blk, off, written))
    && (m.erased == [] && Holds(blk, off, written) ==> Quiet(sum, blk, AfterCommit(sum, s, m)))
  }

  lemma HonestAppend(sum: Sum, blk: seq<byte>, f: Fetched, m: Commit, core: seq<byte>, padding: seq<byte>, k: nat, image: seq<byte>)
    requires FourBytes(sum) && Committable(m) && f.etag.body < BODIES && core == Core(sum, m, f.etag, [])
    requires f.off + |core| + m.pad <= |blk| && |padding| <= m.pad && k <= |core + padding|
    requires image == Programmed(blk, f.off, core + padding, k)
    requires Honest(sum, image, f.off, core, f.off, f.etag, m, f.off + k)
    ensures Ideal(sum, image, At(f), core, f.off, m)
  {
    hide Scan;
    hide Core;
    hide Unforged;
    hide EndTag;
    hide AllRecs;
    assert image[f.off..f.off] == [];
    if !Holds(image, f.off, core) {
      ProgrammedFront(blk, f.off, core, padding, k);
      TornCommit(sum, image, At(f), f.off, m, core, f.off + k);
    } else if m.erased == [] {
      var a := AfterCommit(sum, At(f), m);
      assert image[a.off..a.off] == [];
      NothingWritten(sum, image, a, a.off, a.off);
    }
  }

  lemma ProgrammedFront(blk: seq<byte>, off: nat, core: seq<byte>, padding: seq<byte>, k: nat)
    requires off + |core + padding| <= |blk| && k <= |core + padding|
    ensures FrontHeld(Programmed(blk, off, core + padding, k), off, core, off + k)
  {
    var s := core + padding;
    var image := Programmed(blk, off, s, k);
    forall i | 0 <= i < |core| && i < k ensures image[off + i] == core[i] {
      assert image[off + i] == image[off..off + k][i] == s[..k][i];
    }
  }

  lemma HonestRewrite(sum: Sum, erased: seq<byte>, rev: seq<byte>, m: Commit, core: seq<byte>, padding: seq<byte>, k: nat, image: seq<byte>)
    requires FourBytes(sum) && |erased| >= 4 && CanCompact(sum, erased, rev, m, padding)
    requires core == Core(sum, m, ONES, rev)
    requires k <= |rev + core + padding| && image == Programmed(erased, 0, rev + core + padding, k)
    requires Honest(sum, image, 0, rev + core, 4, ONES, m, k)
    ensures Ideal(sum, image, ScanStart(image), rev + core, 0, m)
  {
    hide Scan;
    hide Core;
    hide Unforged;
    hide EndTag;
    hide AllRecs;
    hide Programmed;
    var s := ScanStart(image);
    assert image[..4] == image[0..4];
    ProgrammedFront(erased, 0, rev + core, padding, k);
    if Holds(image, 0, rev + core) {
      HoldsParts(image, 0, rev, core);
      if m.erased == [] {
        var a := AfterCommit(sum, s, m);
        assert image[a.off..a.off] == [];
        NothingWritten(sum, image, a, a.off, a.off);
      }
    } else {
      TornStart(sum, image, rev, m, core, k);
    }
  }

  /** A new block whose first commit was cut short, or whose revision, holds nothing. */
  lemma TornStart(sum: Sum, image: seq<byte>, rev: seq<byte>, m: Commit, core: seq<byte>, tear: nat)
    requires FourBytes(sum) && Committable(m) && |rev| == 4 && core == Core(sum, m, ONES, rev)
    requires FrontHeld(image, 0, rev + core, tear) && Unforged(sum, image, 0, 4, ONES, tear) && !Holds(image, 0, rev + core)
    ensures FetchBlock(sum, image).off == 0
  {
    hide Scan;
    hide Core;
    hide Unforged;
    var s := ScanStart(image);
    assert image[..4] == image[0..4];
    ScanGrows(sum, image, s);
    if tear < 4 {
      NothingWritten(sum, image, s, 0, tear);
    } else {
      FrontRest(image, 0, rev, core, tear);
      assert image[..4] == rev by {
        forall i | 0 <= i < 4 ensures image[i] == rev[i] { assert image[0 + i] == (rev + core)[i]; }
      }
      TornCommit(sum, image, s, 0, m, core, tear);
      RevThenCore(image, rev, core);
    }
  }

  lemma RevThenCore(blk: seq<byte>, rev: seq<byte>, core: seq<byte>)
    requires |rev| == 4 <= |blk| && blk[..4] == rev
    ensures Holds(blk, 4, core) ==> Holds(blk, 0, rev + core)
  {
    if Holds(blk, 4, core) { HoldsBoth(blk, 0, rev, core); }
  }

  lemma HoldsBoth(blk: seq<byte>, off: nat, a: seq<byte>, b: seq<byte>)
    requires Holds(blk, off, a) && Holds(blk, off + |a|, b)
    ensures Holds(blk, off, a + b)
  {
    assert blk[off..off + |a + b|] == blk[off..off + |a|] + blk[off + |a|..off + |a| + |b|];
  }

  /** Whether space behind the commits looks erased may be open, if none of them says so. */
  predicate SameCommits(f: Fetched, g: Fetched) { f == g.(maybeErased := f.maybeErased) }

  /** What a fetch finds once commit m was appended after f. */
  function Appended(sum: Sum, f: Fetched, m: Commit, n: nat): Fetched
  {
    var a := AfterCommit(sum, At(f), m).acc;
    a.(maybeErased := a.off + 4 <= n)
  }

  // ---------------------------------------------------------------- append

  // an append writes the commit and any of its padding; more padding commits may follow one
  // without a forward checksum
  predicate CanAppend(sum: Sum, blk: seq<byte>, f: Fetched, m: Commit, padding: seq<byte>)
  {
    && Committable(m) && WellFormedLog(m.recs) && |padding| <= m.pad
    && var next := f.off + |Core(sum, m, f.etag, [])| + m.pad;
       next <= |blk| && (m.erased != [] ==> Frontier(blk, next, m))
  }

  /** One crash point of an append: power fails after k bytes. */
  lemma AppendCrash(sum: Sum, blk: seq<byte>, f: Fetched, m: Commit, core: seq<byte>, padding: seq<byte>, k: nat, image: seq<byte>)
    requires FourBytes(sum) && |blk| >= 4 && f == FetchBlock(sum, blk) && 0 < f.off <= |blk|
    requires SoundCrcs(f.log) && f.etag.body < BODIES
    requires core == Core(sum, m, f.etag, []) && CanAppend(sum, blk, f, m, padding)
    requires k <= |core + padding| && image == Programmed(blk, f.off, core + padding, k)
    requires Honest(sum, image, f.off, core, f.off, f.etag, m, f.off + k)
    ensures SameCommits(FetchBlock(sum, image), f) || SameCommits(FetchBlock(sum, image), Appended(sum, f, m, |blk|))
    ensures k >= |core| ==> SameCommits(FetchBlock(sum, image), Appended(sum, f, m, |blk|))
    ensures k >= |core| && m.erased != [] ==> FetchBlock(sum, image) == Appended(sum, f, m, |blk|)
  {
    HonestAppend(sum, blk, f, m, core, padding, k, image);
    AppendImage(sum, blk, f, m, core, padding, k, image);
    if Holds(image, f.off, core) {
      CompleteAppend(sum, image, f, m, core);
    }
  }

  lemma AppendImage(sum: Sum, blk: seq<byte>, f: Fetched, m: Commit, core: seq<byte>, padding: seq<byte>, k: nat, image: seq<byte>)
    requires |blk| >= 4 && f == FetchBlock(sum, blk) && 0 < f.off <= |blk| && SoundCrcs(f.log)
    requires core == Core(sum, m, f.etag, []) && CanAppend(sum, blk, f, m, padding)
    requires k <= |core + padding| && image == Programmed(blk, f.off, core + padding, k)
    requires Ideal(sum, image, At(f), core, f.off, m)
    ensures FetchBlock(sum, image) == Scan(sum, image, At(f))
    ensures m.erased != [] ==> Frontier(image, f.off + |core| + m.pad, m)
    ensures Holds(image, f.off, core) || SameCommits(FetchBlock(sum, image), f)
    ensures k >= |core| ==> Holds(image, f.off, core)
  {
    hide Scan;
    hide Core;
    hide Programmed;
    ProgrammedBytes(blk, f.off, core, padding, k, f.off + |core| + m.pad);
    SameScanUpTo(sum, blk, image, f);
    ScanGrows(sum, image, At(f));
  }

  /** What programming part of core + padding leaves as it was. */
  lemma ProgrammedBytes(blk: seq<byte>, off: nat, core: seq<byte>, padding: seq<byte>, k: nat, next: nat)
    requires off + |core + padding| <= next <= |blk| && k <= |core + padding|
    ensures var image := Programmed(blk, off, core + padding, k);
            && image[..off] == blk[..off]
            && (next < |blk| ==> image[next] == blk[next])
            && (k >= |core| ==> Holds(image, off, core))
  {
    var image := Programmed(blk, off, core + padding, k);
    if k >= |core| { assert image[off..off + |core|] == core; }
  }

  lemma SameScanUpTo(sum: Sum, blk: seq<byte>, image: seq<byte>, f: Fetched)
    requires |blk| >= 4 && f == FetchBlock(sum, blk) && 0 < f.off <= |blk| && SoundCrcs(f.log)
    requires |image| == |blk| && image[..f.off] == blk[..f.off]
    ensures FetchBlock(sum, image) == Scan(sum, image, At(f))
  {
    FirstCommitAt(sum, blk);
    SameSlice(blk, image, f.off, 0, 4);
    ScanSamePrefix(sum, blk, image, ScanStart(blk), f);
  }

  /** The hypothesis is one about interrupted writes only: it holds where nothing was written yet,
      and where everything was, if the commit has a forward checksum or reaches the end of the
      block. */
  lemma HonestAtTheEnds(sum: Sum, blk: seq<byte>, f: Fetched, m: Commit, core: seq<byte>, image: seq<byte>, tear: nat)
    requires FourBytes(sum) && |blk| >= 4 && f == FetchBlock(sum, blk) && 0 < f.off <= |blk| && SoundCrcs(f.log)
    requires Committable(m) && f.etag.body < BODIES && core == Core(sum, m, f.etag, []) && f.off + |core| + m.pad <= |blk|
    requires image == blk || (Holds(image, f.off, core) && (m.erased != [] || Frontier(image, f.off + |core| + m.pad, m)))
    ensures Honest(sum, image, f.off, core, f.off, f.etag, m, tear)
  {
    hide Scan;
    hide Core;
    hide EndTag;
    hide AllRecs;
    hide Unforged;
    SameScanUpTo(sum, blk, blk, f);
    var a := AfterCommit(sum, At(f), m);
    assert blk[f.off..f.off] == [];
    if image == blk {
      if Holds(image, f.off, core) {
        ScanCommit(sum, blk, At(f), m);
        ScanGrows(sum, blk, a);
        assert false;
      } else {
        QuietIsUnforged(sum, blk, At(f), f.off, tear);
      }
    } else if m.erased == [] {
      NoRoomIsUnforged(sum, image, a.off, EndTag(m), a.off);
    }
  }

  lemma FirstCommitAt(sum: Sum, blk: seq<byte>)
    requires |blk| >= 4 && FetchBlock(sum, blk).off > 0
    ensures FetchBlock(sum, blk).off > 4
  {
    ScanGrows(sum, blk, ScanStart(blk));
  }

  lemma CompleteAppend(sum: Sum, image: seq<byte>, f: Fetched, m: Commit, core: seq<byte>)
    requires FourBytes(sum) && Committable(m) && f.etag.body < BODIES && core == Core(sum, m, f.etag, [])
    requires Holds(image, f.off, core)
    requires f.off + |core| + m.pad <= |image|
    requires if m.erased != [] then Frontier(image, f.off + |core| + m.pad, m) else Quiet(sum, image, AfterCommit(sum, At(f), m))
    ensures SameCommits(Scan(sum, image, At(f)), Appended(sum, f, m, |image|))
    ensures m.erased != [] ==> Scan(sum, image, At(f)) == Appended(sum, f, m, |image|)
  {
    hide Scan;
    hide Core;
    hide Holds;
    hide AllRecs;
    hide EndTag;
    CompleteCommit(sum, image, At(f), m, core, f.off + |core| + m.pad);
  }

  /** A complete commit at the frontier is the last thing a scan finds. */
  lemma CompleteCommit(sum: Sum, image: seq<byte>, s: Scanning, m: Commit, core: seq<byte>, next: nat)
    requires FourBytes(sum) && Committable(m) && s.pending == [] && s.ptag.body < BODIES
    requires core == Core(sum, m, s.ptag, s.summed) && Holds(image, s.off, core)
    requires next == s.off + |core| + m.pad <= |image|
    requires if m.erased != [] then Frontier(image, next, m) else Quiet(sum, image, AfterCommit(sum, s, m))
    ensures var a := AfterCommit(sum, s, m).acc;
            && SameCommits(Scan(sum, image, s), a)
            && (m.erased != [] ==> Scan(sum, image, s) == a.(maybeErased := a.off + 4 <= |image|))
  {
    hide Scan;
    hide Core;
    hide Holds;
    hide EndTag;
    hide AllRecs;
    ScanCommit(sum, image, s, m);
    if m.erased != [] {
      FrontierStops(sum, image, AfterCommit(sum, s, m), m);
    } else {
      ScanGrows(sum, image, AfterCommit(sum, s, m));
    }
  }

  // ---------------------------------------------------------------- compaction

  predicate CanCompact(sum: Sum, erased: seq<byte>, rev: seq<byte>, m: Commit, padding: seq<byte>)
  {
    && Committable(m) && WellFormedLog(m.recs) && |rev| == 4 && |padding| <= m.pad
    && var next := 4 + |Core(sum, m, ONES, rev)| + m.pad;
       next <= |erased| && (m.erased != [] ==> Frontier(erased, next, m))
  }

  /** What a fetch finds in a freshly written block. */
  function Fresh(sum: Sum, rev: seq<byte>, m: Commit, n: nat): Fetched
  {
    var a := AfterCommit(sum, Scanning(4, ONES, rev, [], Fetched(0, ONES, [], false)), m).acc;
    a.(maybeErased := a.off + 4 <= n)
  }

  /** One crash point of a compaction, in the block being written: power fails after k
      bytes went into the erased block. */
  lemma CompactCrash(sum: Sum, erased: seq<byte>, rev: seq<byte>, m: Commit, core: seq<byte>, padding: seq<byte>, k: nat,
                     image: seq<byte>)
    requires FourBytes(sum) && |erased| >= 4 && CanCompact(sum, erased, rev, m, padding)
    requires core == Core(sum, m, ONES, rev)
    requires k <= |rev + core + padding| && image == Programmed(erased, 0, rev + core + padding, k)
    requires Honest(sum, image, 0, rev + core, 4, ONES, m, k)
    ensures FetchBlock(sum, image).off == 0 || (SameCommits(FetchBlock(sum, image), Fresh(sum, rev, m, |erased|)) && image[..4] == rev)
    ensures k >= |rev + core| ==> FetchBlock(sum, image).off > 0
  {
    hide Scan;
    hide Core;
    hide Programmed;
    HonestRewrite(sum, erased, rev, m, core, padding, k, image);
    ProgrammedBytes(erased, 0, rev + core, padding, k, 4 + |core| + m.pad);
    ScanGrows(sum, image, ScanStart(image));
    if Holds(image, 0, rev + core) {
      CompleteRewrite(sum, image, rev, m, core);
    }
  }

  lemma CompleteRewrite(sum: Sum, image: seq<byte>, rev: seq<byte>, m: Commit, core: seq<byte>)
    requires FourBytes(sum) && Committable(m) && |rev| == 4 && core == Core(sum, m, ONES, rev)
    requires Holds(image, 0, rev + core)
    requires var next := 4 + |core| + m.pad;
             next <= |image| && if m.erased != [] then Frontier(image, next, m) else Quiet(sum, image, AfterCommit(sum, ScanStart(image), m))
    ensures SameCommits(FetchBlock(sum, image), Fresh(sum, rev, m, |image|)) && image[..4] == rev
    ensures FetchBlock(sum, image).off > 0
  {
    HoldsParts(image, 0, rev, core);
    assert image[..4] == rev;
    CompleteCommit(sum, image, ScanStart(image), m, core, 4 + |core| + m.pad);
  }

  // ---------------------------------------------------------------- runs

  /** One attempted update of a mounted pair; k says how many bytes reach the disk before
      power fails, and programming them all means it does not fail. */
  datatype Action =
    | Append(m: Commit, padding: seq<byte>, k: nat)
    | Rewrite(update: seq<Rec>, m: Commit, padding: seq<byte>, erased: seq<byte>, k: nat)

  function Update(a: Action): seq<Rec>
  {
    match a
    case Append(m, _, _) => m.recs
    case Rewrite(u, _, _, _, _) => u
  }

  function NextRev(blk: seq<byte>): seq<byte>
    requires |blk| >= 4
  {
    Digits((Rev(blk) + 1) % U32)
  }

  /** The bytes an action programs; which block is current and where its log ends. */
  function Bytes(sum: Sum, p: Pair, r: Found, a: Action): seq<byte>
    requires r.Found? && |p.Block(r.which)| >= 4
  {
    match a
    case Append(m, padding, _) => Core(sum, m, r.fetched.etag, []) + padding
    case Rewrite(_, m, padding, _, _) =>
      var rev := NextRev(p.Block(r.which));
      rev + Core(sum, m, ONES, rev) + padding
  }

  /** What the code guarantees before it programs anything: every tag is about an entry
      that is there, and the commit fits.  A rewrite first erases the other block, to
      whatever erased bytes look like. */
  ghost predicate Allowed(sum: Sum, p: Pair, r: Found, a: Action)
    requires r.Found? && |p.b0| >= 4 && |p.b1| == |p.b0|
  {
    var blk, log := p.Block(r.which), r.fetched.log;
    && a.k <= |Bytes(sum, p, r, a)|
    && Placed(Count(log), Update(a))
    && match a
       case Append(m, padding, _) => CanAppend(sum, blk, r.fetched, m, padding)
       case Rewrite(u, m, padding, erased, _) =>
         && CompactsTo(log, u, m.recs) && |erased| == |blk|
         && CanCompact(sum, erased, NextRev(blk), m, padding)
  }

  /** A compaction writes the live tags of the entries, as many as a mounted directory has
      counted, then the tail and the state delta. */
  ghost predicate CompactsTo(log: seq<Rec>, u: seq<Rec>, recs: seq<Rec>)
  {
    var end := Count(log) + Splices(u);
    && WellFormedLog(u) && Named(log + u) && 0 <= end
    && recs == Compact(log + u, 0, end) + Carried(log + u)
  }

  /** The pair after an action. */
  function Result(sum: Sum, p: Pair, r: Found, a: Action): Pair
    requires r.Found? && |p.b0| >= 4 && |p.b1| == |p.b0|
    requires a.k <= |Bytes(sum, p, r, a)|
    requires match a
             case Append(_, _, _) => r.fetched.off + |Bytes(sum, p, r, a)| <= |p.b0|
             case Rewrite(_, _, _, erased, _) => |Bytes(sum, p, r, a)| <= |erased|
  {
    match a
    case Append(_, _, k) =>
      p.With(r.which, Programmed(p.Block(r.which), r.fetched.off, Bytes(sum, p, r, a), k))
    case Rewrite(_, _, _, erased, k) =>
      p.With(!r.which, Programmed(erased, 0, Bytes(sum, p, r, a), k))
  }

  /** All bytes that matter were programmed. */
  predicate Completed(sum: Sum, p: Pair, r: Found, a: Action)
    requires r.Found? && |p.Block(r.which)| >= 4
  {
    match a
    case Append(m, padding, k) => k >= |Core(sum, m, r.fetched.etag, [])|
    case Rewrite(_, m, padding, _, k) =>
      var rev := NextRev(p.Block(r.which)); k >= |rev + Core(sum, m, ONES, rev)|
  }

  /** The checksum hypothesis for the image an action leaves behind. */
  ghost predicate HonestFor(sum: Sum, p: Pair, r: Found, a: Action, q: Pair)
    requires r.Found? && |p.b0| >= 4 && |p.b1| >= 4
  {
    match a
    case Append(m, _, k) =>
      var f := r.fetched;
      Honest(sum, q.Block(r.which), f.off, Core(sum, m, f.etag, []), f.off, f.etag, m, f.off + k)
    case Rewrite(_, m, _, _, k) =>
      var rev := NextRev(p.Block(r.which));
      Honest(sum, q.Block(!r.which), 0, rev + Core(sum, m, ONES, rev), 4, ONES, m, k)
  }

  /** The pair is sound and a fetch finds directory dir in it. */
  ghost predicate Represents(sum: Sum, p: Pair, n: nat, dir: seq<Rec>)
  {
    && Sized(p, n)
    && var r := FetchPair(sum, p);
       r.Found? && PairInv(sum, p, n, r.which, r.fetched) && SameDir(r.fetched.log, dir)
  }

  // one action, with its crash point
  ghost predicate Acts(sum: Sum, p: Pair, n: nat, a: Action, q: Pair)
  {
    && Sized(p, n) && Sized(q, n)
    && var r := FetchPair(sum, p);
       && r.Found? && r.fetched.off <= n && Allowed(sum, p, r, a)
       && q == Result(sum, p, r, a) && HonestFor(sum, p, r, a, q)
  }

  // ---------------------------------------------------------------- every action is atomic

  lemma CommitRecsSound(sum: Sum, m: Commit)
    requires FourBytes(sum) && Committable(m) && WellFormedLog(m.recs)
    ensures SoundCrcs(AllRecs(sum, m) + [CrcRec(m)]) && WellFormedLog(AllRecs(sum, m) + [CrcRec(m)])
    ensures EndTag(m).body < BODIES
  {
    AllRecsEncodable(sum, m);
    MakeBound(CrcHead(m));
  }

  lemma SameDirAfterCommit(sum: Sum, log: seq<Rec>, m: Commit)
    ensures SameDir(log + AllRecs(sum, m) + [CrcRec(m)], log + m.recs)
    ensures Counted(log + m.recs) ==> Counted(log + AllRecs(sum, m) + [CrcRec(m)])
  {
    var extra := (if m.erased == [] then [] else [ForwardCrc(sum, m.erased)]) + [CrcRec(m)];
    assert log + AllRecs(sum, m) + [CrcRec(m)] == (log + m.recs) + extra;
    SameDirWithout(log + m.recs, extra);
  }

  lemma MakeRepresents(sum: Sum, p: Pair, n: nat, w: bool, f: Fetched, dir: seq<Rec>)
    requires PairInv(sum, p, n, w, f) && SameDir(f.log, dir)
    ensures Represents(sum, p, n, dir)
  {
    FetchFinds(sum, p, n, w, f);
  }

  // the block with the directory was appended to
  predicate SameButTail(p: Pair, q: Pair, n: nat, w: bool)
  {
    Sized(p, n) && Sized(q, n) && q.Block(!w) == p.Block(!w) && q.Block(w)[..4] == p.Block(w)[..4]
  }

  lemma AppendedNothing(sum: Sum, p: Pair, n: nat, w: bool, f: Fetched, q: Pair, dir: seq<Rec>)
    requires PairInv(sum, p, n, w, f) && SameDir(f.log, dir) && SameButTail(p, q, n, w)
    requires SameCommits(FetchBlock(sum, q.Block(w)), f)
    ensures Represents(sum, q, n, dir)
  {
    MakeRepresents(sum, q, n, w, FetchBlock(sum, q.Block(w)), dir);
  }

  lemma AppendedAll(sum: Sum, p: Pair, n: nat, w: bool, f: Fetched, q: Pair, m: Commit, dir: seq<Rec>)
    requires FourBytes(sum) && Committable(m) && WellFormedLog(m.recs)
    requires PairInv(sum, p, n, w, f) && SameDir(f.log, dir) && SameButTail(p, q, n, w)
    requires Placed(Count(f.log), m.recs)
    requires SameCommits(FetchBlock(sum, q.Block(w)), Appended(sum, f, m, n))
    ensures Represents(sum, q, n, dir + m.recs)
  {
    var g := FetchBlock(sum, q.Block(w));
    AppendedDir(sum, f.log, m, dir, g.log);
    FirstCommitAt(sum, p.Block(w));
    CommitRecsSound(sum, m);
    JoinSound(f.log, AllRecs(sum, m) + [CrcRec(m)], g.log);
    MakeRepresents(sum, q, n, w, g, dir + m.recs);
  }

  lemma AppendedDir(sum: Sum, log: seq<Rec>, m: Commit, dir: seq<Rec>, result: seq<Rec>)
    requires SameDir(log, dir) && result == log + AllRecs(sum, m) + [CrcRec(m)]
    requires Counted(log) && WellFormedLog(m.recs) && Placed(Count(log), m.recs)
    ensures SameDir(result, dir + m.recs) && Counted(result) && result == log + (AllRecs(sum, m) + [CrcRec(m)])
  {
    SameDirAfterCommit(sum, log, m);
    SameDirExtended(log, dir, m.recs);
    SameDirTransitive(result, log + m.recs, dir + m.recs);
    CountedExtends(log, m.recs);
  }

  lemma JoinSound(a: seq<Rec>, b: seq<Rec>, c: seq<Rec>)
    requires SoundCrcs(a) && WellFormedLog(a) && SoundCrcs(b) && WellFormedLog(b) && c == a + b
    ensures SoundCrcs(c) && WellFormedLog(c)
  {}

  lemma AppendAtomic(sum: Sum, p: Pair, n: nat, a: Action, q: Pair, dir: seq<Rec>)
    requires FourBytes(sum) && Represents(sum, p, n, dir) && Acts(sum, p, n, a, q) && a.Append?
    ensures Represents(sum, q, n, dir) || Represents(sum, q, n, dir + Update(a))
    ensures Completed(sum, p, FetchPair(sum, p), a) ==> Represents(sum, q, n, dir + Update(a))
  {
    hide Scan;
    hide Core;
    hide Programmed;
    hide FetchPair;
    hide Unforged;
    hide Honest;
    var Found(w, f) := FetchPair(sum, p);
    var core, image := Core(sum, a.m, f.etag, []), q.Block(w);
    AppendCrash(sum, p.Block(w), f, a.m, core, a.padding, a.k, image);
    ProgrammedBytes(p.Block(w), f.off, core, a.padding, a.k, f.off + |core| + a.m.pad);
    FirstCommitAt(sum, p.Block(w));
    SameSlice(p.Block(w), image, f.off, 0, 4);
    if SameCommits(FetchBlock(sum, image), Appended(sum, f, a.m, n)) {
      AppendedAll(sum, p, n, w, f, q, a.m, dir);
    } else {
      AppendedNothing(sum, p, n, w, f, q, dir);
    }
  }

  lemma RewroteAll(sum: Sum, p: Pair, n: nat, w: bool, f: Fetched, q: Pair, a: Action, dir: seq<Rec>)
    requires FourBytes(sum) && a.Rewrite? && Committable(a.m) && WellFormedLog(a.m.recs) && WellFormedLog(a.update)
    requires PairInv(sum, p, n, w, f) && SameDir(f.log, dir) && Sized(q, n) && q.Block(w) == p.Block(w)
    requires Placed(Count(f.log), a.update) && CompactsTo(f.log, a.update, a.m.recs)
    requires SameCommits(FetchBlock(sum, q.Block(!w)), Fresh(sum, NextRev(p.Block(w)), a.m, n)) && FetchBlock(sum, q.Block(!w)).off > 0
    requires q.Block(!w)[..4] == NextRev(p.Block(w))
    ensures Represents(sum, q, n, dir + a.update)
  {
    var g := FetchBlock(sum, q.Block(!w));
    FreshLog(sum, NextRev(p.Block(w)), a.m, n);
    RewrittenDir(sum, f.log, a.update, a.m, dir);
    CommitRecsSound(sum, a.m);
    NewerRewrite(p.Block(w), q.Block(!w));
    MakeRepresents(sum, q, n, !w, g, dir + a.update);
  }

  lemma FreshLog(sum: Sum, rev: seq<byte>, m: Commit, n: nat)
    ensures Fresh(sum, rev, m, n).log == AllRecs(sum, m) + [CrcRec(m)] && Fresh(sum, rev, m, n).etag == EndTag(m)
  {
    assert [] + AllRecs(sum, m) + [CrcRec(m)] == AllRecs(sum, m) + [CrcRec(m)];
  }

  lemma NewerRewrite(former: seq<byte>, newer: seq<byte>)
    requires |former| >= 4 && |newer| >= 4 && newer[..4] == NextRev(former)
    ensures Newer(Rev(newer), Rev(former))
  {
    RevBound(former);
    DigitsValue((Rev(former) + 1) % U32);
    NextIsNewer(Rev(former));
  }

  lemma RewriteAtomic(sum: Sum, p: Pair, n: nat, a: Action, q: Pair, dir: seq<Rec>)
    requires FourBytes(sum) && Represents(sum, p, n, dir) && Acts(sum, p, n, a, q) && a.Rewrite?
    ensures Represents(sum, q, n, dir) || Represents(sum, q, n, dir + Update(a))
    ensures Completed(sum, p, FetchPair(sum, p), a) ==> Represents(sum, q, n, dir + Update(a))
  {
    var Found(w, f) := FetchPair(sum, p);
    var rev := NextRev(p.Block(w));
    var core, image := Core(sum, a.m, ONES, rev), q.Block(!w);
    CompactCrash(sum, a.erased, rev, a.m, core, a.padding, a.k, image);
    if FetchBlock(sum, image).off == 0 {
      MakeRepresents(sum, q, n, w, f, dir);
    } else {
      RewroteAll(sum, p, n, w, f, q, a, dir);
    }
  }

  lemma RewrittenDir(sum: Sum, log: seq<Rec>, u: seq<Rec>, m: Commit, dir: seq<Rec>)
    requires WellFormedLog(log) && Counted(log) && Placed(Count(log), u) && CompactsTo(log, u, m.recs)
    requires SameDir(log, dir)
    ensures SameDir(AllRecs(sum, m) + [CrcRec(m)], dir + u) && Counted(AllRecs(sum, m) + [CrcRec(m)])
  {
    hide AllRecs;
    hide CrcRec;
    hide SameDir;
    hide Counted;
    hide Placed;
    hide CompactsTo;
    hide WellFormed;
    var written := AllRecs(sum, m) + [CrcRec(m)];
    CompactsSame(log, u, m.recs);
    CommitAlone(sum, m);
    SameDirExtended(log, dir, u);
    SameDirTransitive(written, m.recs, log + u);
    SameDirTransitive(written, log + u, dir + u);
  }

  lemma CompactsSame(log: seq<Rec>, u: seq<Rec>, recs: seq<Rec>)
    requires WellFormedLog(log) && Counted(log) && Placed(Count(log), u) && CompactsTo(log, u, recs)
    ensures SameDir(recs, log + u) && Counted(recs)
  {
    hide Compact;
    hide Carried;
    hide SameDir;
    hide Counted;
    hide Placed;
    hide Named;
    CountedExtends(log, u);
    CompactedIsSame(log + u);
  }

  lemma CommitAlone(sum: Sum, m: Commit)
    ensures SameDir(AllRecs(sum, m) + [CrcRec(m)], m.recs)
    ensures Counted(m.recs) ==> Counted(AllRecs(sum, m) + [CrcRec(m)])
  {
    hide AllRecs;
    hide CrcRec;
    hide SameDir;
    hide Counted;
    SameDirAfterCommit(sum, [], m);
    assert [] + AllRecs(sum, m) == AllRecs(sum, m) && [] + m.recs == m.recs;
  }

  /** Power-loss atomicity of one action: whatever its crash point, a fetch finds the old
      directory or the updated one, and the updated one if everything was written. */
  lemma ActionAtomic(sum: Sum, p: Pair, n: nat, a: Action, q: Pair, dir: seq<Rec>)
    requires FourBytes(sum) && Represents(sum, p, n, dir) && Acts(sum, p, n, a, q)
    ensures Represents(sum, q, n, dir) || Represents(sum, q, n, dir + Update(a))
    ensures Completed(sum, p, FetchPair(sum, p), a) ==> Represents(sum, q, n, dir + Update(a))
  {
    if a.Append? { AppendAtomic(sum, p, n, a, q, dir); } else { RewriteAtomic(sum, p, n, a, q, dir); }
  }

  // a run of actions, each with its own crash point, every one starting from a fetch
  ghost predicate Run(sum: Sum, n: nat, ps: seq<Pair>, acts: seq<Action>)
  {
    |ps| == |acts| + 1 && forall i :: 0 <= i < |acts| ==> Acts(sum, ps[i], n, acts[i], ps[i + 1])
  }

  // action i took effect completely or not at all, and completely if it was not cut short
  ghost predicate StepOf(sum: Sum, n: nat, ps: seq<Pair>, acts: seq<Action>, dirs: seq<seq<Rec>>, i: nat)
    requires |dirs| == |ps| == |acts| + 1 && i < |acts|
  {
    && Represents(sum, ps[i], n, dirs[i])
    && (dirs[i + 1] == dirs[i] || dirs[i + 1] == dirs[i] + Update(acts[i]))
    && (Completed(sum, ps[i], FetchPair(sum, ps[i]), acts[i]) ==> dirs[i + 1] == dirs[i] + Update(acts[i]))
  }

  // dirs[i] is what pair i holds
  ghost predicate History(sum: Sum, n: nat, ps: seq<Pair>, acts: seq<Action>, dirs: seq<seq<Rec>>)
  {
    && |dirs| == |ps| == |acts| + 1
    && (forall i :: 0 <= i < |ps| ==> Represents(sum, ps[i], n, dirs[i]))
    && (forall i :: 0 <= i < |acts| ==> StepOf(sum, n, ps, acts, dirs, i))
  }

  lemma ExtendHistory(sum: Sum, n: nat, ps: seq<Pair>, acts: seq<Action>, p: Pair, a: Action,
                      dirs: seq<seq<Rec>>, dir: seq<Rec>)
    requires History(sum, n, ps, acts, dirs) && Represents(sum, p, n, dir)
    requires var m := |acts|;
             && (dir == dirs[m] || dir == dirs[m] + Update(a))
             && (Represents(sum, ps[m], n, dirs[m]) && Completed(sum, ps[m], FetchPair(sum, ps[m]), a) ==>
                   dir == dirs[m] + Update(a))
    ensures History(sum, n, ps + [p], acts + [a], dirs + [dir])
  {
    hide Represents;
    hide FetchPair;
    hide Completed;
    hide Update;
    var m, ps', acts', dirs' := |acts|, ps + [p], acts + [a], dirs + [dir];
    assert Represents(sum, ps[m], n, dirs[m]);
    forall i | 0 <= i < |ps'| ensures Represents(sum, ps'[i], n, dirs'[i]) {
      if i <= m { assert Represents(sum, ps[i], n, dirs[i]); }
    }
    forall i | 0 <= i < |acts'| ensures StepOf(sum, n, ps', acts', dirs', i) {
      if i < m { assert StepOf(sum, n, ps, acts, dirs, i); }
    }
  }

  /** Over every run of commits, compactions and crashes, the directory is always the
      result of whole updates. */
  lemma {:induction false} RunAtomic(sum: Sum, n: nat, ps: seq<Pair>, acts: seq<Action>, dir: seq<Rec>)
    returns (dirs: seq<seq<Rec>>)
    requires FourBytes(sum) && Run(sum, n, ps, acts) && Represents(sum, ps[0], n, dir)
    ensures History(sum, n, ps, acts, dirs) && dirs[0] == dir
    decreases |acts|
  {
    hide Represents;
    hide FetchPair;
    hide Completed;
    hide Update;
    hide Acts;
    if acts == [] {
      dirs := [dir];
    } else {
      var m := |acts| - 1;
      ShorterRun(sum, n, ps, acts);
      var before := RunAtomic(sum, n, ps[..m + 1], acts[..m], dir);
      var a := acts[m];
      assert Represents(sum, ps[..m + 1][m], n, before[m]);
      ActionAtomic(sum, ps[m], n, a, ps[m + 1], before[m]);
      var next := if Represents(sum, ps[m + 1], n, before[m] + Update(a)) then before[m] + Update(a) else before[m];
      ExtendHistory(sum, n, ps[..m + 1], acts[..m], ps[m + 1], a, before, next);
      assert ps[..m + 1] + [ps[m + 1]] == ps && acts[..m] + [a] == acts;
      dirs := before + [next];
    }
  }

  lemma ShorterRun(sum: Sum, n: nat, ps: seq<Pair>, acts: seq<Action>)
    requires Run(sum, n, ps, acts) && acts != []
    ensures Run(sum, n, ps[..|acts|], acts[..|acts| - 1])
  {
    var ps', acts' := ps[..|acts|], acts[..|acts| - 1];
    forall i | 0 <= i < |acts'| ensures Acts(sum, ps'[i], n, acts'[i], ps'[i + 1]) {
      assert Acts(sum, ps[i], n, acts[i], ps[i + 1]);
    }
  }
}
