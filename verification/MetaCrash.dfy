/** Power loss while the commit writer is at work: its bytes reach the block one after the
    other, checksum tags for the padding included, and wherever they end a fetch finds the
    directory before the commit or the one after it. */
module MetaCrash {
  import opened Words
  import opened Arith
  import opened TagWord
  import opened MetaLog
  import opened MetaBlock
  import opened MetaCommit
  import opened MetaTorn
  import opened Compaction
  import opened Directory
  import opened MetaPair
  import W = MetaWriter

  // ---------------------------------------------------------------- a row of commits, cut short

  /** The hypothesis about the checksum, for one torn image: the first commit of the row that is not
      all there is not completed by chance. */
  ghost predicate HonestRow(sum: Sum, torn: seq<byte>, base: nat, off: nat, ptag: Word, pre: seq<byte>, ms: seq<Commit>, tear: nat)
    decreases |ms|
  {
    ms == [] ||
    var core := Core(sum, ms[0], ptag, pre);
    var next := off + |core| + ms[0].pad;
    if Holds(torn, off, core) then HonestRow(sum, torn, next, next, EndTag(ms[0]), [], ms[1..], tear)
    else Unforged(sum, torn, base, off, ptag, tear)
  }

  // in front of the tear the bytes are those that were written
  predicate Agree(image: seq<byte>, torn: seq<byte>, off: nat, tear: nat)
  {
    |torn| == |image| && forall i :: off <= i < |image| && i < tear ==> torn[i] == image[i]
  }

  lemma AgreeFront(image: seq<byte>, torn: seq<byte>, off: nat, tear: nat, core: seq<byte>)
    requires Agree(image, torn, off, tear) && Holds(image, off, core)
    ensures FrontHeld(torn, off, core, tear)
  {
    forall i | 0 <= i < |core| && off + i < tear ensures torn[off + i] == core[i] {
      assert image[off..off + |core|][i] == core[i];
    }
  }

  // a commit of the row that is not all there ends the scan
  lemma TornOne(sum: Sum, image: seq<byte>, torn: seq<byte>, s: Scanning, base: nat, m: Commit, tear: nat)
    requires FourBytes(sum) && Committable(m) && s.ptag.body < BODIES && Summing(torn, s, base)
    requires var core := Core(sum, m, s.ptag, s.summed); Holds(image, s.off, core) && !Holds(torn, s.off, core)
    requires Agree(image, torn, s.off, tear) && Unforged(sum, torn, base, s.off, s.ptag, tear)
    ensures Scan(sum, torn, s).off <= s.off
  {
    hide Scan;
    hide Core;
    hide Unforged;
    var core := Core(sum, m, s.ptag, s.summed);
    AgreeFront(image, torn, s.off, tear, core);
    TornCommit(sum, torn, s, base, m, core, tear);
  }

  /** A fetch of the torn image finds some of the commits, the first one if it is there. */
  lemma {:induction false} TornRow(sum: Sum, image: seq<byte>, torn: seq<byte>, s: Scanning, base: nat, ms: seq<Commit>, fin: nat,
                                   ftag: Word, last: Commit, tear: nat)
    returns (j: nat)
    requires FourBytes(sum) && W.Written(sum, image, s.off, s.ptag, s.summed, ms, fin, ftag) && Agree(image, torn, s.off, tear)
    requires s.pending == [] && s.ptag.body < BODIES && s.off > 0 && (ms != [] ==> Summing(torn, s, base))
    requires ms == [] ==> s == At(s.acc) && s.ptag == EndTag(last) && Committable(last)
    requires (ms != [] ==> ms[|ms| - 1] == last) && Frontier(torn, fin, last)
    requires HonestRow(sum, torn, base, s.off, s.ptag, s.summed, ms, tear)
    ensures j <= |ms| && var g := Scan(sum, torn, s);
            && g.log == s.acc.log + W.TagsOf(sum, ms[..j])
            && (if j == 0 then SameCommits(g, s.acc) else g.off > 0 && g.etag.body < BODIES)
    ensures ms != [] && Holds(torn, s.off, Core(sum, ms[0], s.ptag, s.summed)) ==> j > 0
    decreases |ms|
  {
    hide Scan;
    hide Core;
    hide Holds;
    hide EndTag;
    hide AllRecs;
    hide Frontier;
    hide Unforged;
    if ms == [] {
      FrontierStops(sum, torn, s, last);
      return 0;
    }
    if !Holds(torn, s.off, Core(sum, ms[0], s.ptag, s.summed)) {
      TornOne(sum, image, torn, s, base, ms[0], tear);
      ScanGrows(sum, torn, s);
      assert ms[..0] == [];
      return 0;
    }
    var a := AfterCommit(sum, s, ms[0]);
    ScanCommit(sum, torn, s, ms[0]);
    W.EndTagBound(sum, ms[0]);
    assert torn[a.off..a.off] == [];
    var i := TornRow(sum, image, torn, a, a.off, ms[1..], fin, ftag, last, tear);
    j := i + 1;
    assert ms[..j][0] == ms[0] && ms[..j][1..] == ms[1..][..i];
    var own, rest := AllRecs(sum, ms[0]) + [CrcRec(ms[0])], W.TagsOf(sum, ms[1..][..i]);
    assert s.acc.log + AllRecs(sum, ms[0]) + [CrcRec(ms[0])] == s.acc.log + own;
    assert (s.acc.log + own) + rest == s.acc.log + (own + rest);
  }

  /** Commits that carry no tags of their own say nothing about the directory. */
  lemma {:induction false} EmptyRow(sum: Sum, ms: seq<Commit>)
    requires FourBytes(sum) && forall i :: 0 <= i < |ms| ==> ms[i].recs == [] && Committable(ms[i])
    ensures Silent(W.TagsOf(sum, ms)) && SoundCrcs(W.TagsOf(sum, ms)) && WellFormedLog(W.TagsOf(sum, ms))
    decreases |ms|
  {
    if ms != [] {
      EmptyRow(sum, ms[1..]);
      CommitRecsSound(sum, ms[0]);
      JoinSound(AllRecs(sum, ms[0]) + [CrcRec(ms[0])], W.TagsOf(sum, ms[1..]), W.TagsOf(sum, ms));
    }
  }

  /** The tags of the first commits of a row, of which only the first carries any. */
  lemma RowTags(sum: Sum, ms: seq<Commit>, j: nat)
    requires FourBytes(sum) && 0 < j <= |ms| && W.OnlyFirst(ms) && WellFormedLog(ms[0].recs)
    requires forall i :: 0 <= i < |ms| ==> Committable(ms[i])
    ensures var own := AllRecs(sum, ms[0]) + [CrcRec(ms[0])];
            && own <= W.TagsOf(sum, ms[..j]) && Silent(W.TagsOf(sum, ms[..j])[|own|..])
            && SoundCrcs(W.TagsOf(sum, ms[..j])) && WellFormedLog(W.TagsOf(sum, ms[..j]))
  {
    hide AllRecs;
    hide CrcRec;
    hide Committable;
    var own, rest := AllRecs(sum, ms[0]) + [CrcRec(ms[0])], ms[..j][1..];
    EmptyRow(sum, rest);
    CommitRecsSound(sum, ms[0]);
    JoinSound(own, W.TagsOf(sum, rest), W.TagsOf(sum, ms[..j]));
  }

  lemma {:induction false} RowCommittable(sum: Sum, blk: seq<byte>, off: nat, ptag: Word, pre: seq<byte>,
                                          ms: seq<Commit>, fin: nat, ftag: Word)
    requires W.Written(sum, blk, off, ptag, pre, ms, fin, ftag)
    ensures forall i :: 0 <= i < |ms| ==> Committable(ms[i])
    decreases |ms|
  {
    hide Core;
    hide EndTag;
    hide Committable;
    if ms != [] {
      RowCommittable(sum, blk, off + |Core(sum, ms[0], ptag, pre)| + ms[0].pad, EndTag(ms[0]), [], ms[1..], fin, ftag);
    }
  }

  // ---------------------------------------------------------------- appending

  /** The first k bytes that the writer changed, from off on, are on the disk. */
  function Torn(blk: seq<byte>, image: seq<byte>, off: nat, k: nat): (r: seq<byte>)
    requires off + k <= |blk| == |image|
    ensures |r| == |blk|
  {
    Patched(blk, off, image[off..off + k])
  }

  lemma TornBytes(blk: seq<byte>, image: seq<byte>, off: nat, k: nat, fin: nat, core: seq<byte>)
    requires W.Between(blk, image, off, fin) && off + k <= fin && Holds(image, off, core)
    ensures var torn := Torn(blk, image, off, k);
            && torn[..off] == blk[..off] && (fin < |blk| ==> torn[fin] == image[fin]) && Agree(image, torn, off, off + k)
            && (k >= |core| ==> Holds(torn, off, core))
  {
    var torn := Torn(blk, image, off, k);
    forall i | off <= i < off + k ensures torn[i] == image[i] {
      assert torn[i] == torn[off..off + k][i - off] == image[off..off + k][i - off];
    }
    if fin < |blk| { assert torn[fin] == torn[off + k..][fin - off - k] == blk[fin..][0] == image[fin..][0]; }
    if k >= |core| { assert torn[off..off + |core|] == image[off..off + k][..|core|] == image[off..off + |core|]; }
  }

  // commits ms were written behind f, to be found by a fetch
  ghost predicate AppendsRow(n: nat, blk: seq<byte>, f: Fetched, image: seq<byte>, ms: seq<Commit>, fin: nat, ftag: Word)
  {
    && ms != [] && W.Written(W.Crc32, image, f.off, f.etag, [], ms, fin, ftag) && W.OnlyFirst(ms)
    && W.Between(blk, image, f.off, fin) && Frontier(image, fin, ms[|ms| - 1])
    && WellFormedLog(ms[0].recs) && Placed(Count(f.log), ms[0].recs)
  }

  /** Crash atomicity of the commit writer: cut short after any number of bytes, what it
      wrote behind a directory leaves the old or the updated one to be found. */
  lemma AppendTorn(p: Pair, n: nat, dir: seq<Rec>, image: seq<byte>, ms: seq<Commit>, fin: nat, ftag: Word, k: nat, q: Pair)
    requires Represents(W.Crc32, p, n, dir)
    requires var Found(w, f) := FetchPair(W.Crc32, p); var blk := p.Block(w);
             && f.off <= n && AppendsRow(n, blk, f, image, ms, fin, ftag) && f.off + k <= fin
             && q == p.With(w, Torn(blk, image, f.off, k))
             && HonestRow(W.Crc32, q.Block(w), f.off, f.off, f.etag, [], ms, f.off + k)
    ensures Represents(W.Crc32, q, n, dir) || Represents(W.Crc32, q, n, dir + ms[0].recs)
    ensures k >= |Core(W.Crc32, ms[0], FetchPair(W.Crc32, p).fetched.etag, [])| ==> Represents(W.Crc32, q, n, dir + ms[0].recs)
  {
    hide Scan;
    hide Core;
    hide FetchPair;
    hide Torn;
    hide W.TagsOf;
    hide EndTag;
    hide W.Crc32;
    var Found(w, f) := FetchPair(W.Crc32, p);
    var blk, torn := p.Block(w), q.Block(w);
    FirstCommitAt(W.Crc32, blk);
    TornBytes(blk, image, f.off, k, fin, Core(W.Crc32, ms[0], f.etag, []));
    SameScanUpTo(W.Crc32, blk, torn, f);
    SameSlice(blk, torn, f.off, 0, 4);
    assert torn[f.off..f.off] == [];
    var j := TornRow(W.Crc32, image, torn, At(f), f.off, ms, fin, ftag, ms[|ms| - 1], f.off + k);
    if j == 0 {
      AppendedNothing(W.Crc32, p, n, w, f, q, dir);
    } else {
      RowCommittable(W.Crc32, image, f.off, f.etag, [], ms, fin, ftag);
      AppendedRow(p, n, w, f, q, ms, j, dir);
    }
  }

  lemma AppendedRow(p: Pair, n: nat, w: bool, f: Fetched, q: Pair, ms: seq<Commit>, j: nat, dir: seq<Rec>)
    requires PairInv(W.Crc32, p, n, w, f) && SameDir(f.log, dir) && SameButTail(p, q, n, w)
    requires 0 < j <= |ms| && W.OnlyFirst(ms) && WellFormedLog(ms[0].recs) && Placed(Count(f.log), ms[0].recs)
    requires forall i :: 0 <= i < |ms| ==> Committable(ms[i])
    requires var g := FetchBlock(W.Crc32, q.Block(w)); g.log == f.log + W.TagsOf(W.Crc32, ms[..j]) && g.off > 0 && g.etag.body < BODIES
    ensures Represents(W.Crc32, q, n, dir + ms[0].recs)
  {
    hide W.TagsOf;
    hide W.Crc32;
    hide SameDir;
    hide Counted;
    hide W.OnlyFirst;
    hide Committable;
    hide Placed;
    hide FetchBlock;
    var g := FetchBlock(W.Crc32, q.Block(w));
    RowDir(W.Crc32, f.log, ms, j, dir, g.log);
    MakeRepresents(W.Crc32, q, n, w, g, dir + ms[0].recs);
  }

  /** What the first commits of a row make of a directory. */
  lemma RowDir(sum: Sum, log: seq<Rec>, ms: seq<Commit>, j: nat, dir: seq<Rec>, result: seq<Rec>)
    requires FourBytes(sum) && SameDir(log, dir) && Counted(log) && SoundCrcs(log) && WellFormedLog(log)
    requires 0 < j <= |ms| && W.OnlyFirst(ms) && WellFormedLog(ms[0].recs) && Placed(Count(log), ms[0].recs)
    requires forall i :: 0 <= i < |ms| ==> Committable(ms[i])
    requires result == log + W.TagsOf(sum, ms[..j])
    ensures SameDir(result, dir + ms[0].recs) && Counted(result) && SoundCrcs(result) && WellFormedLog(result)
  {
    hide W.TagsOf;
    hide AllRecs;
    hide CrcRec;
    hide SameDir;
    hide Counted;
    hide Placed;
    hide Silent;
    hide SoundCrcs;
    hide WellFormed;
    hide Committable;
    var tags, own := W.TagsOf(sum, ms[..j]), AllRecs(sum, ms[0]) + [CrcRec(ms[0])];
    RowTags(sum, ms, j);
    JoinSound(log, tags, result);
    var first, rest := log + AllRecs(sum, ms[0]) + [CrcRec(ms[0])], tags[|own|..];
    AppendedDir(sum, log, ms[0], dir, first);
    assert tags == own + rest;
    assert result == first + rest;
    SilentDir(first, rest, dir + ms[0].recs);
  }

  lemma SilentDir(log: seq<Rec>, silent: seq<Rec>, dir: seq<Rec>)
    requires SameDir(log, dir) && Counted(log) && Silent(silent)
    ensures SameDir(log + silent, dir) && Counted(log + silent)
  {
    SameDirWithout(log, silent);
    SameDirTransitive(log + silent, log, dir);
  }

  /** The whole row is found, with the CRC itself and without any hypothesis. */
  lemma AppendWhole(p: Pair, n: nat, dir: seq<Rec>, image: seq<byte>, ms: seq<Commit>, fin: nat, ftag: Word)
    requires Represents(W.Crc32, p, n, dir)
    requires var Found(w, f) := FetchPair(W.Crc32, p); f.off <= n && AppendsRow(n, p.Block(w), f, image, ms, fin, ftag)
    ensures Represents(W.Crc32, p.With(FetchPair(W.Crc32, p).which, image), n, dir + ms[0].recs)
  {
    hide Scan;
    hide Core;
    hide FetchPair;
    hide W.TagsOf;
    hide EndTag;
    hide W.Crc32;
    hide W.Written;
    var Found(w, f) := FetchPair(W.Crc32, p);
    var blk := p.Block(w);
    FirstCommitAt(W.Crc32, blk);
    W.CommitIsFetched(blk, image, f, ms, fin, ftag);
    W.WrittenEnds(W.Crc32, image, f.off, f.etag, [], ms, fin, ftag);
    W.WrittenGrows(W.Crc32, image, f.off, f.etag, [], ms, fin, ftag);
    W.EndTagBound(W.Crc32, ms[|ms| - 1]);
    RowCommittable(W.Crc32, image, f.off, f.etag, [], ms, fin, ftag);
    assert ms[..|ms|] == ms;
    SameSlice(blk, image, f.off, 0, 4);
    AppendedRow(p, n, w, f, p.With(w, image), ms, |ms|, dir);
  }

  // what is found if power fails after k bytes of an append
  ghost predicate AtomicAt(p: Pair, n: nat, dir: seq<Rec>, image: seq<byte>, ms: seq<Commit>, k: nat)
    requires Represents(W.Crc32, p, n, dir) && ms != []
  {
    var Found(w, f) := FetchPair(W.Crc32, p);
    f.off + k <= |p.Block(w)| == |image| && var q := p.With(w, Torn(p.Block(w), image, f.off, k));
    HonestRow(W.Crc32, q.Block(w), f.off, f.off, f.etag, [], ms, f.off + k) ==>
      && (Represents(W.Crc32, q, n, dir) || Represents(W.Crc32, q, n, dir + ms[0].recs))
      && (k >= |Core(W.Crc32, ms[0], f.etag, [])| ==> Represents(W.Crc32, q, n, dir + ms[0].recs))
  }

  /** Written completely, the updated directory is found; cut short after any number of bytes,
      the old or the updated one. */
  ghost predicate AppendsAtomically(p: Pair, n: nat, dir: seq<Rec>, recs: seq<Rec>, image: seq<byte>, fin: nat, ms: seq<Commit>)
  {
    && Represents(W.Crc32, p, n, dir) && ms != [] && ms[0].recs == recs
    && var Found(w, f) := FetchPair(W.Crc32, p);
       && f.off <= fin && Represents(W.Crc32, p.With(w, image), n, dir + recs)
       && forall k :: 0 <= k <= fin - f.off ==> AtomicAt(p, n, dir, image, ms, k)
  }

  lemma AppendDone(p: Pair, n: nat, dir: seq<Rec>, image: seq<byte>, ms: seq<Commit>, fin: nat, ftag: Word)
    requires Represents(W.Crc32, p, n, dir)
    requires var Found(w, f) := FetchPair(W.Crc32, p); f.off <= n && AppendsRow(n, p.Block(w), f, image, ms, fin, ftag)
    ensures AppendsAtomically(p, n, dir, ms[0].recs, image, fin, ms)
  {
    hide FetchPair;
    hide W.Written;
    hide Frontier;
    hide Core;
    hide Torn;
    hide SameDir;
    hide PairInv;
    var Found(w, f) := FetchPair(W.Crc32, p);
    AppendWhole(p, n, dir, image, ms, fin, ftag);
    W.WrittenGrows(W.Crc32, image, f.off, f.etag, [], ms, fin, ftag);
    forall k | 0 <= k <= fin - f.off ensures AtomicAt(p, n, dir, image, ms, k) {
      if HonestRow(W.Crc32, Torn(p.Block(w), image, f.off, k), f.off, f.off, f.etag, [], ms, f.off + k) {
        AppendTorn(p, n, dir, image, ms, fin, ftag, k, p.With(w, Torn(p.Block(w), image, f.off, k)));
      }
    }
  }

  lemma Mounted(p: Pair, n: nat, dir: seq<Rec>)
    requires Represents(W.Crc32, p, n, dir)
    ensures |p.b0| == |p.b1| == n >= 4
    ensures FetchPair(W.Crc32, p).Found? && FetchPair(W.Crc32, p).fetched.etag.body < BODIES
  {}

  /** The writer's work: all tags, then the checksum tags. */
  method WriteRow(prog: nat, end: nat, blk: seq<byte>, off: nat, etag: Word, rev: seq<byte>, recs: seq<Rec>)
    returns (c: W.Code, image: seq<byte>, fin: nat, ftag: Word, ghost ms: seq<Commit>)
    requires prog > 0 && Multiple(|blk|, prog) && |blk| < U32 && end + 8 <= |blk| && off <= |blk|
    requires etag.body < BODIES && EncodableLog(recs) && (recs != [] || off <= end)
    ensures c != W.Corrupt && (c == W.NoSpace <==> !W.Fits(prog, end, |blk|, off, recs))
    ensures c == W.Ok ==>
              && ms != [] && W.Written(W.Crc32, image, off, etag, rev, ms, fin, ftag) && W.OnlyFirst(ms)
              && W.Between(blk, image, off, fin) && Frontier(image, fin, ms[|ms| - 1]) && ms[0].recs == recs
  {
    hide W.Written;
    hide W.Between;
    hide Frontier;
    hide Encodable;
    hide W.Crc32;
    hide W.Size;
    hide W.CrcFits;
    hide W.UnitOf;
    hide W.Fits;
    hide Multiple;
    hide AlignUp;
    hide AlignDown;
    W.SizeNone();
    var wr := new W.Writer(prog, end, blk, off, etag, rev);
    c := wr.Attrs(recs);
    image, fin, ftag, ms := wr.image, wr.off, wr.ptag, [];
    ghost var o := off + W.Size(recs);
    ghost var room := W.CrcFits(prog, end, |blk|, o, W.UnitOf(prog, |blk|, o));
    W.FitsIs(prog, end, |blk|, off, recs, o);
    if c == W.Ok {
      ghost var image1, off1 := image, fin;
      assert [] + recs == recs && fin == o;
      c, ms := wr.CommitCrc();
      assert c == W.NoSpace <==> !room;
      image, fin, ftag := wr.image, wr.off, wr.ptag;
      if c == W.Ok {
        W.BetweenTwice(blk, image1, image, off, off1, fin);
      }
    }
  }

  /** An update appended to a mounted pair, from the fetch to the last checksum tag. */
  method Append(p: Pair, n: nat, prog: nat, end: nat, recs: seq<Rec>, ghost dir: seq<Rec>)
    returns (c: W.Code, image: seq<byte>, ghost fin: nat, ghost ms: seq<Commit>)
    requires Represents(W.Crc32, p, n, dir) && prog > 0 && Multiple(n, prog) && n < U32 && end + 8 <= n
    requires EncodableLog(recs) && WellFormedLog(recs)
    requires var f := FetchPair(W.Crc32, p).fetched;
             f.off <= n && Placed(Count(f.log), recs) && (recs != [] || f.off <= end)
    ensures c != W.Corrupt && (c == W.NoSpace <==> !W.Fits(prog, end, n, FetchPair(W.Crc32, p).fetched.off, recs))
    ensures c == W.Ok ==> AppendsAtomically(p, n, dir, recs, image, fin, ms)
  {
    hide Represents;
    hide FetchPair;
    hide W.Written;
    hide W.Between;
    hide Frontier;
    hide Placed;
    hide AppendsAtomically;
    hide Encodable;
    hide WellFormed;
    hide W.Crc32;
    hide W.OnlyFirst;
    Mounted(p, n, dir);
    var Found(w, f) := FetchPair(W.Crc32, p);
    var ftag;
    c, image, fin, ftag, ms := WriteRow(prog, end, p.Block(w), f.off, f.etag, [], recs);
    if c == W.Ok {
      AppendDone(p, n, dir, image, ms, fin, ftag);
    }
  }

  // ---------------------------------------------------------------- compacting

  // where a scan of a block with this revision starts
  function Start(rev: seq<byte>): Scanning { Scanning(4, ONES, rev, [], Fetched(0, ONES, [], false)) }

  // the directory was written to the other block, erased before, under the next revision
  ghost predicate RewritesRow(n: nat, erased: seq<byte>, rev: seq<byte>, log: seq<Rec>, u: seq<Rec>, image: seq<byte>,
                              ms: seq<Commit>, fin: nat, ftag: Word)
  {
    && ms != [] && W.Written(W.Crc32, image, 4, ONES, rev, ms, fin, ftag) && W.OnlyFirst(ms)
    && |erased| == n && |rev| == 4 <= fin && Holds(image, 0, rev)
    && W.Between(erased, image, 0, fin) && Frontier(image, fin, ms[|ms| - 1])
    && Placed(Count(log), u) && CompactsTo(log, u, ms[0].recs)
  }

  /** The hypothesis about a torn image of a new block: the revision belongs to the first commit. */
  ghost predicate HonestBlock(torn: seq<byte>, rev: seq<byte>, ms: seq<Commit>, tear: nat)
    requires ms != []
  {
    if Holds(torn, 0, rev + Core(W.Crc32, ms[0], ONES, rev)) then HonestRow(W.Crc32, torn, 0, 4, ONES, rev, ms, tear)
    else Unforged(W.Crc32, torn, 0, 4, ONES, tear)
  }

  lemma StartsAt(torn: seq<byte>, rev: seq<byte>, core: seq<byte>)
    requires |rev| == 4 && Holds(torn, 0, rev + core)
    ensures ScanStart(torn) == Start(rev) && torn[..4] == rev && Holds(torn, 4, core)
  {
    HoldsParts(torn, 0, rev, core);
  }

  /** What the first commits of a compaction make of a directory. */
  lemma RewrittenRowDir(sum: Sum, log: seq<Rec>, u: seq<Rec>, ms: seq<Commit>, j: nat, dir: seq<Rec>)
    requires FourBytes(sum) && SameDir(log, dir) && Counted(log) && WellFormedLog(log)
    requires Placed(Count(log), u) && 0 < j <= |ms| && W.OnlyFirst(ms) && CompactsTo(log, u, ms[0].recs)
    requires forall i :: 0 <= i < |ms| ==> Committable(ms[i])
    ensures var result := W.TagsOf(sum, ms[..j]);
            SameDir(result, dir + u) && Counted(result) && SoundCrcs(result) && WellFormedLog(result)
  {
    hide W.TagsOf;
    hide AllRecs;
    hide CrcRec;
    hide SameDir;
    hide Counted;
    hide Placed;
    hide Silent;
    hide SoundCrcs;
    hide WellFormed;
    hide Committable;
    hide CompactsTo;
    CompactsWellFormed(log, u, ms[0].recs);
    RowTags(sum, ms, j);
    RewrittenDir(sum, log, u, ms[0], dir);
    var own := AllRecs(sum, ms[0]) + [CrcRec(ms[0])];
    var rest := W.TagsOf(sum, ms[..j])[|own|..];
    assert W.TagsOf(sum, ms[..j]) == own + rest;
    SilentDir(own, rest, dir + u);
  }

  lemma CompactsWellFormed(log: seq<Rec>, u: seq<Rec>, recs: seq<Rec>)
    requires WellFormedLog(log) && CompactsTo(log, u, recs)
    ensures WellFormedLog(recs)
  {
    hide TailOf;
    hide DeltaOf;
    hide Compact;
    CompactShape(log + u, 0, Count(log) + Splices(u));
    CarriedNoEntries(log + u);
  }

  lemma RewrittenRow(p: Pair, n: nat, w: bool, f: Fetched, q: Pair, u: seq<Rec>, ms: seq<Commit>, j: nat, dir: seq<Rec>)
    requires PairInv(W.Crc32, p, n, w, f) && SameDir(f.log, dir) && Sized(q, n) && q.Block(w) == p.Block(w)
    requires Placed(Count(f.log), u) && 0 < j <= |ms| && W.OnlyFirst(ms) && CompactsTo(f.log, u, ms[0].recs)
    requires forall i :: 0 <= i < |ms| ==> Committable(ms[i])
    requires var g := FetchBlock(W.Crc32, q.Block(!w)); g.log == W.TagsOf(W.Crc32, ms[..j]) && g.off > 0 && g.etag.body < BODIES
    requires q.Block(!w)[..4] == NextRev(p.Block(w))
    ensures Represents(W.Crc32, q, n, dir + u)
  {
    hide W.TagsOf;
    hide W.Crc32;
    hide SameDir;
    hide Counted;
    hide W.OnlyFirst;
    hide Committable;
    hide Placed;
    hide CompactsTo;
    hide FetchBlock;
    RewrittenRowDir(W.Crc32, f.log, u, ms, j, dir);
    NewerRewrite(p.Block(w), q.Block(!w));
    MakeRepresents(W.Crc32, q, n, !w, FetchBlock(W.Crc32, q.Block(!w)), dir + u);
  }

  /** Crash atomicity of a compaction: cut short after any number of bytes, what the writer
      put into the other block leaves the old or the updated directory to be found. */
  lemma RewriteTorn(p: Pair, n: nat, dir: seq<Rec>, u: seq<Rec>, erased: seq<byte>, image: seq<byte>, ms: seq<Commit>,
                    fin: nat, ftag: Word, k: nat, q: Pair)
    requires Represents(W.Crc32, p, n, dir)
    requires var Found(w, f) := FetchPair(W.Crc32, p); var rev := NextRev(p.Block(w));
             && RewritesRow(n, erased, rev, f.log, u, image, ms, fin, ftag) && k <= fin
             && q == p.With(!w, Torn(erased, image, 0, k)) && HonestBlock(q.Block(!w), rev, ms, k)
    ensures Represents(W.Crc32, q, n, dir) || Represents(W.Crc32, q, n, dir + u)
    ensures k >= 4 + |Core(W.Crc32, ms[0], ONES, NextRev(p.Block(FetchPair(W.Crc32, p).which)))| ==> Represents(W.Crc32, q, n, dir + u)
  {
    hide Scan;
    hide Core;
    hide FetchPair;
    hide Torn;
    hide W.TagsOf;
    hide EndTag;
    hide W.Crc32;
    hide SameDir;
    hide Counted;
    hide CompactsTo;
    var Found(w, f) := FetchPair(W.Crc32, p);
    var rev, torn := NextRev(p.Block(w)), q.Block(!w);
    var core := Core(W.Crc32, ms[0], ONES, rev);
    HoldsBoth(image, 0, rev, core);
    TornBytes(erased, image, 0, k, fin, rev + core);
    if Holds(torn, 0, rev + core) {
      StartsAt(torn, rev, core);
      assert torn[0..4] == rev;
      var j := TornRow(W.Crc32, image, torn, Start(rev), 0, ms, fin, ftag, ms[|ms| - 1], k);
      RowCommittable(W.Crc32, image, 4, ONES, rev, ms, fin, ftag);
      assert [] + W.TagsOf(W.Crc32, ms[..j]) == W.TagsOf(W.Crc32, ms[..j]);
      RewrittenRow(p, n, w, f, q, u, ms, j, dir);
    } else {
      AgreeFront(image, torn, 0, k, rev + core);
      TornStart(W.Crc32, torn, rev, ms[0], core, k);
      MakeRepresents(W.Crc32, q, n, w, f, dir);
    }
  }

  /** Written completely, the compacted directory is found, without any hypothesis. */
  lemma RewriteWhole(p: Pair, n: nat, dir: seq<Rec>, u: seq<Rec>, erased: seq<byte>, image: seq<byte>, ms: seq<Commit>, fin: nat, ftag: Word)
    requires Represents(W.Crc32, p, n, dir)
    requires var Found(w, f) := FetchPair(W.Crc32, p); RewritesRow(n, erased, NextRev(p.Block(w)), f.log, u, image, ms, fin, ftag)
    ensures Represents(W.Crc32, p.With(!FetchPair(W.Crc32, p).which, image), n, dir + u)
  {
    hide Scan;
    hide Core;
    hide FetchPair;
    hide W.TagsOf;
    hide EndTag;
    hide W.Crc32;
    hide W.Written;
    hide SameDir;
    hide Counted;
    hide CompactsTo;
    var Found(w, f) := FetchPair(W.Crc32, p);
    var rev := NextRev(p.Block(w));
    assert rev + [] == rev;
    StartsAt(image, rev, []);
    W.RowIsFetched(image, Start(rev), ms, fin, ftag);
    W.WrittenEnds(W.Crc32, image, 4, ONES, rev, ms, fin, ftag);
    W.EndTagBound(W.Crc32, ms[|ms| - 1]);
    RowCommittable(W.Crc32, image, 4, ONES, rev, ms, fin, ftag);
    assert ms[..|ms|] == ms;
    assert [] + W.TagsOf(W.Crc32, ms) == W.TagsOf(W.Crc32, ms);
    RewrittenRow(p, n, w, f, p.With(!w, image), u, ms, |ms|, dir);
  }

  // what is found if power fails after k bytes of a compaction
  ghost predicate RewriteAtomicAt(p: Pair, n: nat, dir: seq<Rec>, u: seq<Rec>, erased: seq<byte>, image: seq<byte>, ms: seq<Commit>, k: nat)
    requires Represents(W.Crc32, p, n, dir) && ms != []
  {
    var Found(w, f) := FetchPair(W.Crc32, p); var rev := NextRev(p.Block(w));
    k <= |erased| == |image| && |erased| >= 4 && var q := p.With(!w, Torn(erased, image, 0, k));
    HonestBlock(q.Block(!w), rev, ms, k) ==>
      && (Represents(W.Crc32, q, n, dir) || Represents(W.Crc32, q, n, dir + u))
      && (k >= 4 + |Core(W.Crc32, ms[0], ONES, rev)| ==> Represents(W.Crc32, q, n, dir + u))
  }

  ghost predicate RewritesAtomically(p: Pair, n: nat, dir: seq<Rec>, u: seq<Rec>, erased: seq<byte>, image: seq<byte>, fin: nat, ms: seq<Commit>)
  {
    && Represents(W.Crc32, p, n, dir) && ms != []
    && Represents(W.Crc32, p.With(!FetchPair(W.Crc32, p).which, image), n, dir + u)
    && forall k :: 0 <= k <= fin ==> RewriteAtomicAt(p, n, dir, u, erased, image, ms, k)
  }

  lemma RewriteDone(p: Pair, n: nat, dir: seq<Rec>, u: seq<Rec>, erased: seq<byte>, image: seq<byte>, ms: seq<Commit>, fin: nat, ftag: Word)
    requires Represents(W.Crc32, p, n, dir)
    requires var Found(w, f) := FetchPair(W.Crc32, p); RewritesRow(n, erased, NextRev(p.Block(w)), f.log, u, image, ms, fin, ftag)
    ensures RewritesAtomically(p, n, dir, u, erased, image, fin, ms)
  {
    hide FetchPair;
    hide W.Written;
    hide Frontier;
    hide Core;
    hide Torn;
    hide SameDir;
    hide PairInv;
    hide CompactsTo;
    var Found(w, f) := FetchPair(W.Crc32, p);
    RewriteWhole(p, n, dir, u, erased, image, ms, fin, ftag);
    forall k | 0 <= k <= fin ensures RewriteAtomicAt(p, n, dir, u, erased, image, ms, k) {
      if HonestBlock(Torn(erased, image, 0, k), NextRev(p.Block(w)), ms, k) {
        RewriteTorn(p, n, dir, u, erased, image, ms, fin, ftag, k, p.With(!w, Torn(erased, image, 0, k)));
      }
    }
  }

  /** The compaction of a mounted pair with an update: fetch, traverse, write what is alive,
      the tail and the state delta behind the next revision in the other block. */
  method Rewrite(p: Pair, n: nat, prog: nat, end: nat, u: seq<Rec>, erased: seq<byte>, ghost dir: seq<Rec>)
    returns (c: W.Code, image: seq<byte>, ghost fin: nat, ghost ms: seq<Commit>)
    requires Represents(W.Crc32, p, n, dir) && prog > 0 && Multiple(n, prog) && n < U32 && end + 8 <= n && |erased| == n && 4 <= end
    requires var log := FetchPair(W.Crc32, p).fetched.log;
             && Placed(Count(log), u) && WellFormedLog(u) && Named(log + u) && Count(log) + Splices(u) >= 0
             && EncodableLog(Compact(log + u, 0, Count(log) + Splices(u)) + Carried(log + u))
    ensures c != W.Corrupt
    ensures var log := FetchPair(W.Crc32, p).fetched.log;
            c == W.NoSpace <==> !W.Fits(prog, end, n, 4, Compact(log + u, 0, Count(log) + Splices(u)) + Carried(log + u))
    ensures c == W.Ok ==> RewritesAtomically(p, n, dir, u, erased, image, fin, ms)
  {
    hide Represents;
    hide FetchPair;
    hide W.Written;
    hide W.Between;
    hide Frontier;
    hide Placed;
    hide RewritesAtomically;
    hide Encodable;
    hide WellFormed;
    hide W.Crc32;
    hide W.OnlyFirst;
    hide Compact;
    hide Carried;
    hide Splices;
    hide Count;
    Mounted(p, n, dir);
    var Found(w, f) := FetchPair(W.Crc32, p);
    var rev := NextRev(p.Block(w));
    var recs := Traverse(f.log + u, 0, Count(f.log) + Splices(u));
    recs := recs + Carried(f.log + u);
    var headed := Patched(erased, 0, rev);
    var ftag;
    c, image, fin, ftag, ms := WriteRow(prog, end, headed, 4, ONES, rev, recs);
    if c == W.Ok {
      Headed(erased, rev, headed, image, fin);
      W.WrittenGrows(W.Crc32, image, 4, ONES, rev, ms, fin, ftag);
      RewriteDone(p, n, dir, u, erased, image, ms, fin, ftag);
    }
  }

  lemma Headed(erased: seq<byte>, rev: seq<byte>, headed: seq<byte>, image: seq<byte>, fin: nat)
    requires |rev| == 4 <= |erased| && headed == Patched(erased, 0, rev) && W.Between(headed, image, 4, fin)
    ensures W.Between(erased, image, 0, fin) && Holds(image, 0, rev)
  {
    assert headed[fin..] == headed[4..][fin - 4..] && erased[fin..] == erased[4..][fin - 4..];
  }
}
