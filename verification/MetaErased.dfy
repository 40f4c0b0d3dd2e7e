/** Deciding after a fetch whether the space behind the last commit may be programmed
    without erasing: each commit leaves a forward checksum of the next program unit. */
module MetaErased {
  import opened Words
  import opened TagWord
  import opened MetaLog
  import opened MetaBlock
  import opened MetaCommit
  import opened MetaPair

  /** The payload of the last forward checksum a fetch accepted. */
  function LastForward(log: seq<Rec>): Option<seq<byte>>
  {
    if log == [] then None
    else if log[|log| - 1].kind == FCRC then Some(log[|log| - 1].data)
    else LastForward(log[..|log| - 1])
  }

  /** The erased flag a fetch sets: it stopped right after a commit, on a program unit
      boundary, and the unit there still has the checksum recorded for it. */
  predicate ErasedFlag(sum: Sum, blk: seq<byte>, f: Fetched, prog: nat)
    requires prog > 0
  {
    && f.maybeErased && f.off % prog == 0
    && match LastForward(f.log)
       case None => false
       case Some(d) =>
         && |d| >= 8
         && var n := LittleEndian(d[..4]);
            f.off + n <= |blk| && sum(blk[f.off..f.off + n]) == d[4..8]
  }

  lemma LastForwardOfCommit(sum: Sum, log: seq<Rec>, m: Commit)
    requires m.erased != []
    ensures LastForward(log + AllRecs(sum, m) + [CrcRec(m)]) == Some(ForwardCrc(sum, m.erased).data)
  {
    var a := log + AllRecs(sum, m);
    assert (a + [CrcRec(m)])[..|a|] == a;
    assert a[|a| - 1] == ForwardCrc(sum, m.erased);
  }

  lemma ForwardParts(sum: Sum, unit: seq<byte>)
    requires FourBytes(sum) && |unit| < U32
    ensures var d := ForwardCrc(sum, unit).data;
            |d| == 8 && LittleEndian(d[..4]) == |unit| && d[4..8] == sum(unit)
  {
    DigitsValue(|unit|);
    var d := ForwardCrc(sum, unit).data;
    assert d[..4] == Digits(|unit|) && d[4..8] == sum(unit);
  }

  // what the flag compares, when the last forward checksum is that of some erased unit
  lemma FlagIs(sum: Sum, image: seq<byte>, f: Fetched, unit: seq<byte>)
    requires FourBytes(sum) && unit != [] && |unit| < U32 && LastForward(f.log) == Some(ForwardCrc(sum, unit).data)
    ensures ErasedFlag(sum, image, f, |unit|) <==>
              f.maybeErased && f.off % |unit| == 0 && f.off + |unit| <= |image| && sum(image[f.off..f.off + |unit|]) == sum(unit)
  {
    hide LastForward;
    hide ForwardCrc;
    ForwardParts(sum, unit);
  }

  /** A completed commit offers the next program unit for appending. */
  lemma CommitLeavesErased(sum: Sum, image: seq<byte>, f: Fetched, m: Commit)
    requires FourBytes(sum) && |m.erased| < U32 && m.erased != []
    requires var g := Appended(sum, f, m, |image|);
             g.off % |m.erased| == 0 && g.off + 4 <= |image| && Holds(image, g.off, m.erased)
    ensures ErasedFlag(sum, image, Appended(sum, f, m, |image|), |m.erased|)
  {
    hide LastForward;
    hide ForwardCrc;
    hide ErasedFlag;
    LastForwardOfCommit(sum, f.log, m);
    FlagIs(sum, image, Appended(sum, f, m, |image|), m.erased);
  }

  /** The first tag word of a commit. */
  lemma CoreStarts(sum: Sum, m: Commit, ptag: Word, summed: seq<byte>)
    requires FourBytes(sum) && Committable(m)
    ensures exists h: Head :: Fits(h) && |Core(sum, m, ptag, summed)| > 0 && Core(sum, m, ptag, summed)[0] == Write(Chain(Make(h), ptag))[0]
  {
    var recs := AllRecs(sum, m);
    AllRecsEncodable(sum, m);
    if recs == [] {
      assert Core(sum, m, ptag, summed)[0] == Write(Chain(Make(CrcHead(m)), ptag))[0];
    } else {
      assert Encode(recs, ptag)[0] == EncodeOne(recs[0], ptag)[0];
      assert Core(sum, m, ptag, summed)[0] == Write(Chain(Make(RecHead(recs[0])), ptag))[0];
    }
  }

  /** The first programmed byte of a commit after an erased unit differs from it. */
  lemma FirstByteArrives(sum: Sum, blk: seq<byte>, off: nat, last: Commit, m: Commit, core: seq<byte>, k: nat)
    requires FourBytes(sum) && Committable(last) && Committable(m) && last.erased != []
    requires core == Core(sum, m, EndTag(last), []) && 0 < k <= |core| && off + |core| <= |blk|
    ensures Programmed(blk, off, core, k)[off] != last.erased[0]
  {
    CoreStarts(sum, m, EndTag(last), []);
    var h: Head :| Fits(h) && core[0] == Write(Chain(Make(h), EndTag(last)))[0];
    NextWriteChangesErased(last, h);
    assert Programmed(blk, off, core, k)[off] == core[0];
  }

  /** A commit cut short is noticed exactly if any of its bytes arrived.  The hypothesis
      is that the forward checksum of this one image is not matched by accident. */
  lemma TornCommitIsNoticed(sum: Sum, blk: seq<byte>, f: Fetched, last: Commit, m: Commit, k: nat, image: seq<byte>)
    requires FourBytes(sum) && Committable(last) && Committable(m) && last.erased != []
    requires |blk| >= 4 && f == FetchBlock(sum, blk)
    requires f.off <= |blk| && f.etag == EndTag(last) && Holds(blk, f.off, last.erased)
    requires LastForward(f.log) == Some(ForwardCrc(sum, last.erased).data) && ErasedFlag(sum, blk, f, |last.erased|)
    requires var core := Core(sum, m, f.etag, []);
             k < |core| && f.off + |core| <= |blk| && image == Programmed(blk, f.off, core, k)
    requires var n := |last.erased|;
             sum(image[f.off..f.off + n]) == sum(last.erased) ==> image[f.off..f.off + n] == last.erased
    requires k > 0 ==> FetchBlock(sum, image) == f.(maybeErased := FetchBlock(sum, image).maybeErased)
    ensures ErasedFlag(sum, image, FetchBlock(sum, image), |last.erased|) <==> k == 0
  {
    hide LastForward;
    hide ForwardCrc;
    hide ErasedFlag;
    hide FetchBlock;
    hide Core;
    hide Programmed;
    var core, n := Core(sum, m, f.etag, []), |last.erased|;
    if k == 0 {
      NothingProgrammed(blk, f.off, core);
    } else {
      FirstByteArrives(sum, blk, f.off, last, m, core, k);
      var g := FetchBlock(sum, image);
      FlagIs(sum, image, g, last.erased);
      FirstOf(image, f.off, last.erased);
    }
  }

  lemma FirstOf(image: seq<byte>, off: nat, unit: seq<byte>)
    requires unit != [] && off < |image|
    ensures off + |unit| <= |image| && image[off..off + |unit|] == unit ==> image[off] == unit[0]
  {
    if off + |unit| <= |image| { assert image[off..off + |unit|][0] == image[off]; }
  }

  lemma NothingProgrammed(blk: seq<byte>, off: nat, core: seq<byte>)
    requires off + |core| <= |blk|
    ensures Programmed(blk, off, core, 0) == blk
  {
  }
}
