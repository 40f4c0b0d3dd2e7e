/** Writing commits: the bytes appended for a list of tags, the checksum that ends
    them, and what a fetch makes of a commit that was written fully or in part. */
module MetaCommit {
  import opened Words
  import opened TagWord
  import opened MetaLog
  import opened MetaBlock

  const CCRC := 0x500
  const FCRC := 0x5ff

  ghost predicate FourBytes(sum: Sum) { forall s: seq<byte> :: |sum(s)| == 4 }

  // ---------------------------------------------------------------- encoding

  function RecHead(r: Rec): Head { Head(r.kind, r.id, r.size) }

  /** A tag that fits its fields and is no checksum itself. */
  predicate Encodable(r: Rec)
  {
    Fits(RecHead(r)) && !IsCrc(RecHead(r)) && |r.data| == Dsize(RecHead(r)) - 4
  }

  predicate EncodableLog(recs: seq<Rec>)
  {
    forall i :: 0 <= i < |recs| ==> Encodable(recs[i])
  }

  /** Each tag is written combined with the tag before it, then its payload. */
  function EncodeOne(r: Rec, ptag: Word): seq<byte>
  {
    Write(Chain(Make(RecHead(r)), ptag)) + r.data
  }

  function Encode(recs: seq<Rec>, ptag: Word): seq<byte>
    decreases |recs|
  {
    if recs == [] then [] else EncodeOne(recs[0], ptag) + Encode(recs[1..], Make(RecHead(recs[0])))
  }

  function LastTag(recs: seq<Rec>, ptag: Word): Word
  {
    if recs == [] then ptag else Make(RecHead(recs[|recs| - 1]))
  }

  /** A commit: the tags, a forward checksum if a program unit is left (erased is its
      present contents, empty if none is left), and the checksum tag, whose lowest type
      bit makes the next tag's first bit differ from the erased one. */
  datatype Commit = Commit(recs: seq<Rec>, erased: seq<byte>, pad: nat)

  /** The forward checksum: how the program unit after this commit reads while erased. */
  function ForwardCrc(sum: Sum, erased: seq<byte>): Rec
  {
    Rec(FCRC, 0x3ff, 8, Digits(|erased|) + sum(erased))
  }

  function AllRecs(sum: Sum, m: Commit): seq<Rec>
  {
    if m.erased == [] then m.recs else m.recs + [ForwardCrc(sum, m.erased)]
  }

  function CrcHead(m: Commit): Head
  {
    Head(CCRC + (if m.erased != [] && !High(m.erased[0]) then 1 else 0), 0x3ff, 4 + m.pad)
  }

  function CrcRec(m: Commit): Rec { Rec(CrcHead(m).kind, CrcHead(m).id, CrcHead(m).size, []) }

  /** The tag later tags are chained to. */
  function EndTag(m: Commit): Word { AfterCrc(Make(CrcHead(m))) }

  function CrcWord(sum: Sum, m: Commit, ptag: Word): seq<byte>
  {
    Write(Chain(Make(CrcHead(m)), LastTag(AllRecs(sum, m), ptag)))
  }

  /** Everything that has to be on disk for the commit to count; summed is what the
      checksum covers besides the commit itself. */
  function Core(sum: Sum, m: Commit, ptag: Word, summed: seq<byte>): seq<byte>
  {
    var e, w := Encode(AllRecs(sum, m), ptag), CrcWord(sum, m, ptag);
    e + w + sum(summed + e + w)
  }

  predicate Committable(m: Commit)
  {
    EncodableLog(m.recs) && 4 + m.pad < 0x3ff && |m.erased| < 0x1_0000_0000
  }

  lemma AllRecsEncodable(sum: Sum, m: Commit)
    requires FourBytes(sum) && Committable(m)
    ensures EncodableLog(AllRecs(sum, m))
  {
    if m.erased != [] { assert Encodable(ForwardCrc(sum, m.erased)); }
  }

  // ---------------------------------------------------------------- a complete commit

  predicate Holds(blk: seq<byte>, off: nat, s: seq<byte>)
  {
    off + |s| <= |blk| && blk[off..off + |s|] == s
  }

  lemma HoldsParts(blk: seq<byte>, off: nat, a: seq<byte>, b: seq<byte>)
    requires Holds(blk, off, a + b)
    ensures Holds(blk, off, a) && Holds(blk, off + |a|, b)
  {
    var s := a + b;
    assert blk[off..off + |s|][..|a|] == a && blk[off..off + |s|][|a|..] == b;
  }

  lemma ReadBack(blk: seq<byte>, off: nat, tag: Word, ptag: Word)
    requires tag.body < BODIES && ptag.body < BODIES
    requires Holds(blk, off, Write(Chain(tag, ptag)))
    ensures Chain(Read(blk[off..off + 4]), ptag) == tag
  {
    ChainBound(tag, ptag);
    WriteRead(Chain(tag, ptag));
    ChainTwice(tag, ptag);
  }

  lemma MakeBound(h: Head)
    requires Fits(h)
    ensures Make(h).body < BODIES && AfterCrc(Make(h)).body < BODIES
  {
    MakeHead(h);
  }

  /** Where a scan stands after the given tags. */
  function AfterRecs(s: Scanning, recs: seq<Rec>): Scanning
  {
    var e := Encode(recs, s.ptag);
    Scanning(s.off + |e|, LastTag(recs, s.ptag), s.summed + e, s.pending + recs, s.acc)
  }

  /** Scanning over one encoded tag. */
  lemma ScanOne(sum: Sum, blk: seq<byte>, s: Scanning, r: Rec)
    requires Encodable(r) && s.ptag.body < BODIES
    requires Holds(blk, s.off, EncodeOne(r, s.ptag))
    ensures Step(sum, blk, s) == Go(AfterRecs(s, [r]))
  {
    hide Chain;
    hide Write;
    hide Read;
    hide Xor;
    var tag := Make(RecHead(r));
    var w := Write(Chain(tag, s.ptag));
    MakeHead(RecHead(r));
    HoldsParts(blk, s.off, w, r.data);
    ReadBack(blk, s.off, tag, s.ptag);
    OneRecLength(r, s);
    assert s.summed + w + r.data == s.summed + (w + r.data);
    TagStep(sum, blk, s, tag, s.off + Dsize(RecHead(r)));
    assert RecAt(blk, s.off, RecHead(r)) == r;
  }

  lemma TagStep(sum: Sum, blk: seq<byte>, s: Scanning, tag: Word, next: nat)
    requires s.off + 4 <= |blk| && tag == Chain(Read(blk[s.off..s.off + 4]), s.ptag) && !tag.top
    requires next == s.off + Dsize(HeadOf(tag)) <= |blk| && !IsCrc(HeadOf(tag))
    ensures Step(sum, blk, s) ==
            Go(Scanning(next, tag, s.summed + blk[s.off..s.off + 4] + blk[s.off + 4..next],
                        s.pending + [RecAt(blk, s.off, HeadOf(tag))], s.acc))
  {}

  lemma EncodeOnly(r: Rec, ptag: Word)
    ensures Encode([r], ptag) == EncodeOne(r, ptag)
  {
    hide EncodeOne;
    assert [r][1..] == [];
  }

  lemma AfterMoreRecs(s: Scanning, recs: seq<Rec>)
    requires recs != []
    ensures AfterRecs(s, recs) == AfterRecs(AfterRecs(s, [recs[0]]), recs[1..])
  {
    hide EncodeOne;
    hide RecHead;
    hide Make;
    var one, e := EncodeOne(recs[0], s.ptag), Encode(recs[1..], Make(RecHead(recs[0])));
    EncodeOnly(recs[0], s.ptag);
    assert s.summed + (one + e) == s.summed + one + e;
    assert s.pending + recs == s.pending + [recs[0]] + recs[1..];
  }

  lemma {:induction false} ScanRecs(sum: Sum, blk: seq<byte>, s: Scanning, recs: seq<Rec>, u: Scanning)
    requires EncodableLog(recs) && s.ptag.body < BODIES && u == AfterRecs(s, recs)
    requires Holds(blk, s.off, Encode(recs, s.ptag))
    ensures Scan(sum, blk, s) == Scan(sum, blk, u) && u.ptag.body < BODIES
    decreases |recs|
  {
    hide Scan;
    hide Step;
    hide Holds;
    hide Chain;
    hide Write;
    if recs == [] {
      assert s.summed + [] == s.summed && s.pending + [] == s.pending;
    } else {
      var t := AfterRecs(s, [recs[0]]);
      HoldsParts(blk, s.off, EncodeOne(recs[0], s.ptag), Encode(recs[1..], Make(RecHead(recs[0]))));
      ScanOne(sum, blk, s, recs[0]);
      ScanGo(sum, blk, s, t);
      MakeBound(RecHead(recs[0]));
      AfterMoreRecs(s, recs);
      OneRecLength(recs[0], s);
      ScanRecs(sum, blk, t, recs[1..], u);
    }
  }

  lemma OneRecLength(r: Rec, s: Scanning)
    ensures var t, e := AfterRecs(s, [r]), EncodeOne(r, s.ptag);
            t.off == s.off + |e| && t.ptag == Make(RecHead(r)) && t.summed == s.summed + e
  {
    assert Encode([r], s.ptag) == EncodeOne(r, s.ptag);
  }

  /** Where a scan stands after a commit and its padding. */
  function AfterCommit(sum: Sum, s: Scanning, m: Commit): Scanning
  {
    var next := s.off + |Core(sum, m, s.ptag, s.summed)| + m.pad;
    Scanning(next, EndTag(m), [], [], Fetched(next, EndTag(m), s.acc.log + AllRecs(sum, m) + [CrcRec(m)], false))
  }

  /** A fetch that arrives at a completely written commit accepts it and goes on after
      its padding. */
  lemma ScanCommit(sum: Sum, blk: seq<byte>, s: Scanning, m: Commit)
    requires FourBytes(sum) && Committable(m) && s.pending == [] && s.ptag.body < BODIES
    requires Holds(blk, s.off, Core(sum, m, s.ptag, s.summed))
    requires s.off + |Core(sum, m, s.ptag, s.summed)| + m.pad <= |blk|
    ensures Scan(sum, blk, s) == Scan(sum, blk, AfterCommit(sum, s, m))
  {
    hide Scan;
    hide Holds;
    hide AllRecs;
    hide Write;
    hide Chain;
    var recs := AllRecs(sum, m);
    var w, t := CrcWord(sum, m, s.ptag), AfterRecs(s, recs);
    CommitHeld(sum, blk, s, m, t);
    AllRecsEncodable(sum, m);
    ScanRecs(sum, blk, s, recs, t);
    ScanCrc(sum, blk, t, m, w, sum(t.summed + w));
    CommitEnd(sum, s, m, t);
    ScanGo(sum, blk, t, AfterCommit(sum, s, m));
  }

  lemma CommitHeld(sum: Sum, blk: seq<byte>, s: Scanning, m: Commit, t: Scanning)
    requires FourBytes(sum) && t == AfterRecs(s, AllRecs(sum, m))
    requires Holds(blk, s.off, Core(sum, m, s.ptag, s.summed))
    ensures var w := CrcWord(sum, m, s.ptag);
            Holds(blk, s.off, Encode(AllRecs(sum, m), s.ptag)) && Holds(blk, t.off, w) && Holds(blk, t.off + 4, sum(t.summed + w))
    ensures s.off + |Core(sum, m, s.ptag, s.summed)| == t.off + 8
  {
    hide Encode;
    hide Write;
    hide Chain;
    hide LastTag;
    var e, w := Encode(AllRecs(sum, m), s.ptag), CrcWord(sum, m, s.ptag);
    var c := sum(s.summed + e + w);
    assert e + w + c == e + (w + c);
    HoldsParts(blk, s.off, e, w + c);
    HoldsParts(blk, s.off + |e|, w, c);
  }

  lemma CommitEnd(sum: Sum, s: Scanning, m: Commit, t: Scanning)
    requires FourBytes(sum) && s.pending == [] && t == AfterRecs(s, AllRecs(sum, m))
    ensures Accepted(t, t.off + 8 + m.pad, Make(CrcHead(m)), CrcRec(m)) == AfterCommit(sum, s, m)
  {
    assert t.pending == AllRecs(sum, m);
  }

  lemma ScanCrc(sum: Sum, blk: seq<byte>, t: Scanning, m: Commit, w: seq<byte>, c: seq<byte>)
    requires Committable(m) && t.ptag.body < BODIES
    requires w == Write(Chain(Make(CrcHead(m)), t.ptag)) && c == sum(t.summed + w) && |c| == 4
    requires Holds(blk, t.off, w) && Holds(blk, t.off + 4, c) && t.off + 8 + m.pad <= |blk|
    ensures Step(sum, blk, t) == Go(Accepted(t, t.off + 8 + m.pad, Make(CrcHead(m)), CrcRec(m)))
  {
    MakeHead(CrcHead(m));
    ReadBack(blk, t.off, Make(CrcHead(m)), t.ptag);
  }

  // ---------------------------------------------------------------- the rest of the block

  /** A scan either adds nothing, or finds a commit that ends after where it stood. */
  lemma {:induction false} ScanGrows(sum: Sum, blk: seq<byte>, s: Scanning)
    requires s.acc.off <= s.off
    ensures var f := Scan(sum, blk, s);
            || (f.off == s.acc.off && f == s.acc.(maybeErased := f.maybeErased))
            || (f.off > s.off && s.acc.log + s.pending <= f.log)
    decreases |blk| - s.off
  {
    match Step(sum, blk, s)
    case Stop(_) =>
    case Go(t) =>
      ScanGrows(sum, blk, t);
  }

  // standing right after an accepted commit
  function At(f: Fetched): Scanning { Scanning(f.off, f.etag, [], [], f.(maybeErased := false)) }

  /** The frontier after a commit: the rest of the block is as erased when the commit
      was written, or there is no room for another tag. */
  predicate Frontier(blk: seq<byte>, next: nat, m: Commit)
  {
    if m.erased == [] then |blk| < next + 4 else next < |blk| && blk[next] == m.erased[0]
  }

  /** Unprogrammed space is recognised whatever erased bytes look like: the scan stops
      there, and knows that it stopped right after a commit. */
  lemma FrontierStops(sum: Sum, blk: seq<byte>, s: Scanning, m: Commit)
    requires Committable(m) && Frontier(blk, s.off, m) && s == At(s.acc) && s.ptag == EndTag(m)
    ensures Scan(sum, blk, s) == s.acc.(maybeErased := s.off + 4 <= |blk|)
  {
    MakeHead(CrcHead(m));
    if s.off + 4 <= |blk| {
      ReadTop(blk[s.off..s.off + 4]);
    }
  }

  /** The first byte of whatever is written next differs from the erased byte. */
  lemma NextWriteChangesErased(m: Commit, h: Head)
    requires Committable(m) && m.erased != [] && Fits(h)
    ensures Write(Chain(Make(h), EndTag(m)))[0] != m.erased[0]
  {
    var w := Chain(Make(h), EndTag(m));
    MakeHead(CrcHead(m));
    MakeBound(h);
    MakeBound(CrcHead(m));
    ChainBound(Make(h), EndTag(m));
    WriteRead(w);
    ReadTop(Write(w));
  }

  predicate SoundCrcs(log: seq<Rec>)
  {
    forall i :: 0 <= i < |log| && IsCrc(RecHead(log[i])) ==> 4 <= log[i].size < 0x3ff
  }

  /** Changing only what lies after the last good commit does not disturb the scan up
      to it. */
  lemma {:induction false} ScanSamePrefix(sum: Sum, a: seq<byte>, b: seq<byte>, s: Scanning, f: Fetched)
    requires |a| == |b| && s.acc.off <= s.off && f == Scan(sum, a, s) && f.off > s.off
    requires f.off <= |a| && a[..f.off] == b[..f.off] && SoundCrcs(f.log)
    ensures Scan(sum, b, s) == Scan(sum, b, At(f))
    decreases |a| - s.off
  {
    var t := Step(sum, a, s).next;
    ScanGrows(sum, a, t);
    SameStep(sum, a, b, s, f, t);
    ScanGo(sum, a, s, t);
    ScanGo(sum, b, s, t);
    if f.off > t.off {
      ScanSamePrefix(sum, a, b, t, f);
    } else {
      assert t == At(f);
    }
  }

  lemma SameStep(sum: Sum, a: seq<byte>, b: seq<byte>, s: Scanning, f: Fetched, t: Scanning)
    requires |a| == |b| && Step(sum, a, s) == Go(t) && t.off <= f.off <= |a| && a[..f.off] == b[..f.off]
    requires t.acc.log + t.pending <= f.log && SoundCrcs(f.log)
    ensures Step(sum, b, s) == Go(t)
  {
    hide IsCrc;
    hide Chain;
    hide HeadOf;
    hide Read;
    hide Fits;
    hide AfterCrc;
    var n := t.off;
    SameSlice(a, b, f.off, s.off, s.off + 4);
    var h := HeadOf(Chain(Read(a[s.off..s.off + 4]), s.ptag));
    if !IsCrc(h) {
      SameSlice(a, b, f.off, s.off + 4, n);
      assert RecAt(b, s.off, h) == RecAt(a, s.off, h);
    } else {
      var i := |s.acc.log + s.pending|;
      assert (t.acc.log + t.pending)[i] == f.log[i];
      assert RecHead(f.log[i]) == h;
      SameSlice(a, b, f.off, s.off + 4, s.off + 8);
    }
  }

  lemma SameSlice(a: seq<byte>, b: seq<byte>, n: nat, i: nat, j: nat)
    requires i <= j <= n <= |a| == |b| && a[..n] == b[..n]
    ensures a[i..j] == b[i..j]
  {
    assert a[i..j] == a[..n][i..j] && b[i..j] == b[..n][i..j];
  }
}
