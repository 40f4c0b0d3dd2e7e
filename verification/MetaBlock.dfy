/** The bytes of a metadata block: a revision, then tags chained by exclusive-or, in
    commits that each end in a checksum.  Fetching scans forwards, looking tags up
    walks backwards.

    The checksum is a parameter: sum gives the four bytes stored for the bytes absorbed
    since the last commit.  What makes that the running CRC of the code is the
    concatenation law of module Crc. */
module MetaBlock {
  import opened Words
  import opened TagWord
  import opened MetaLog

  type Sum = seq<byte> -> seq<byte>

  /** Space a tag takes: the word and its payload; size 0x3ff means no payload. */
  function Dsize(h: Head): nat { 4 + if h.size == 0x3ff then 0 else h.size }

  // checksum tags have types 0x500 to 0x57f
  predicate IsCrc(h: Head) { h.kind / 0x80 == 10 }

  /** The decoded tag; a checksum and the padding after it are not payload. */
  function RecAt(blk: seq<byte>, off: nat, h: Head): Rec
    requires off + Dsize(h) <= |blk|
  {
    Rec(h.kind, h.id, h.size, if IsCrc(h) then [] else blk[off + 4..off + Dsize(h)])
  }

  // ---------------------------------------------------------------- fetching

  /** What a fetch knows: the end of the last good commit, the tag there, all tags up
      to it, and whether scanning stopped right after it on an invalid tag. */
  datatype Fetched = Fetched(off: nat, etag: Word, log: seq<Rec>, maybeErased: bool)

  // a checksum tag says in its lowest type bit whether the next valid bit is flipped
  function AfterCrc(tag: Word): Word
  {
    if HeadOf(tag).kind % 2 == 1 then Flip(tag) else tag
  }

  /** The loop variables of a fetch: where the next tag is, the tag before it, the bytes
      under the running checksum, the tags of the unfinished commit, and the commits so
      far. */
  datatype Scanning = Scanning(off: nat, ptag: Word, summed: seq<byte>, pending: seq<Rec>, acc: Fetched)

  /** One turn of the fetch loop. */
  datatype Move = Stop(result: Fetched) | Go(next: Scanning)

  function Step(sum: Sum, blk: seq<byte>, s: Scanning): (m: Move)
    ensures m.Go? ==> s.off < m.next.off <= |blk|
  {
    if s.off + 4 > |blk| then Stop(s.acc)
    else
      var word := blk[s.off..s.off + 4];
      var tag := Chain(Read(word), s.ptag);
      var h := HeadOf(tag);
      var next := s.off + Dsize(h);
      if tag.top then Stop(s.acc.(maybeErased := IsCrc(HeadOf(s.ptag))))
      else if next > |blk| then Stop(s.acc)
      else if IsCrc(h) then
        if s.off + 8 > |blk| || sum(s.summed + word) != blk[s.off + 4..s.off + 8] then Stop(s.acc)
        else Go(Accepted(s, next, tag, RecAt(blk, s.off, h)))
      else
        Go(Scanning(next, tag, s.summed + word + blk[s.off + 4..next], s.pending + [RecAt(blk, s.off, h)], s.acc))
  }

  /** A checksum was right: all pending tags count, and a new commit starts. */
  function Accepted(s: Scanning, next: nat, tag: Word, rec: Rec): Scanning
  {
    Scanning(next, AfterCrc(tag), [], [], Fetched(next, AfterCrc(tag), s.acc.log + s.pending + [rec], false))
  }

  function Scan(sum: Sum, blk: seq<byte>, s: Scanning): Fetched
    decreases |blk| - s.off
  {
    match Step(sum, blk, s)
    case Stop(f) => f
    case Go(t) => Scan(sum, blk, t)
  }

  function ScanStart(blk: seq<byte>): Scanning
    requires |blk| >= 4
  {
    Scanning(4, ONES, blk[..4], [], Fetched(0, ONES, [], false))
  }

  /** Scan a block from its first tag; off stays 0 if no commit checks out. */
  function FetchBlock(sum: Sum, blk: seq<byte>): Fetched
    requires |blk| >= 4
  {
    Scan(sum, blk, ScanStart(blk))
  }

  // ---------------------------------------------------------------- what a fetch is for

  /** A tag of a block: where its word is, and the word taken out of the chain. */
  datatype Mark = Mark(at: nat, tag: Word)
  {
    function End(): nat { at + Dsize(HeadOf(tag)) }

    predicate IsCheck() { IsCrc(HeadOf(tag)) }

    // a tag that reaches behind the block does not count
    function Rec(blk: seq<byte>): Rec { if End() <= |blk| then RecAt(blk, at, HeadOf(tag)) else MetaLog.Rec(0, 0, 0, []) }
  }

  /** What the next tag is chained to: a checksum may say that the next valid bit is flipped. */
  function Link(tag: Word): Word
  {
    if IsCrc(HeadOf(tag)) && HeadOf(tag).kind % 2 == 1 then Flip(tag) else tag
  }

  /** Valid tags one behind the other. */
  predicate Path(blk: seq<byte>, off: nat, ptag: Word, marks: seq<Mark>, end: nat)
    decreases |marks|
  {
    if marks == [] then off == end
    else
      var m := marks[0];
      && m.at == off && off + 4 <= |blk| && m.tag == Chain(Read(blk[off..off + 4]), ptag) && !m.tag.top
      && m.End() <= |blk| && Path(blk, m.End(), Link(m.tag), marks[1..], end)
  }

  // behind the word at a place is the checksum of everything from base to that word
  predicate StoredAt(sum: Sum, blk: seq<byte>, base: nat, at: nat)
  {
    base <= at && at + 8 <= |blk| && blk[at + 4..at + 8] == sum(blk[base..at + 4])
  }

  /** Behind every checksum tag is the checksum of all bytes since the commit before it. */
  predicate Checked(sum: Sum, blk: seq<byte>, base: nat, marks: seq<Mark>)
    decreases |marks|
  {
    marks == [] ||
    var m := marks[0];
    if m.IsCheck() then StoredAt(sum, blk, base, m.at) && Checked(sum, blk, m.End(), marks[1..])
    else Checked(sum, blk, base, marks[1..])
  }

  function Recs(blk: seq<byte>, marks: seq<Mark>): seq<Rec>
  {
    if marks == [] then [] else [marks[0].Rec(blk)] + Recs(blk, marks[1..])
  }

  /** Complete commits: tags up to a checksum, and all checksums are right. */
  predicate Commits(sum: Sum, blk: seq<byte>, base: nat, off: nat, ptag: Word, marks: seq<Mark>, end: nat)
  {
    marks != [] && marks[|marks| - 1].IsCheck() && Path(blk, off, ptag, marks, end) && Checked(sum, blk, base, marks)
  }

  /** What a fetch must find: the commits of the block, the revision under the first checksum, as
      far as they go; all their tags; and whether the space behind them looks unwritten. */
  ghost predicate IsFetch(sum: Sum, blk: seq<byte>, f: Fetched)
  {
    && (forall marks, end: nat :: Commits(sum, blk, 0, 4, ONES, marks, end) ==> end <= f.off)
    && (f.off == 0 ==> f.log == [])
    && (f.off > 0 ==> exists marks :: Finds(sum, blk, f, marks))
    && (f.maybeErased <==> f.off > 0 && f.off + 4 <= |blk| && Chain(Read(blk[f.off..f.off + 4]), f.etag).top)
  }

  ghost predicate Finds(sum: Sum, blk: seq<byte>, f: Fetched, marks: seq<Mark>)
  {
    && Commits(sum, blk, 0, 4, ONES, marks, f.off)
    && f.etag == Link(marks[|marks| - 1].tag) && f.log == Recs(blk, marks)
  }

  // the bytes under the running checksum are those since base
  predicate Summing(blk: seq<byte>, s: Scanning, base: nat)
  {
    base <= s.off <= |blk| && s.summed == blk[base..s.off] && s.acc.off <= s.off
  }

  // one turn that goes on passes one tag
  lemma StepMark(sum: Sum, blk: seq<byte>, s: Scanning, base: nat)
    requires Summing(blk, s, base) && Step(sum, blk, s).Go?
    ensures var t := Step(sum, blk, s).next;
            var m := Mark(s.off, Chain(Read(blk[s.off..s.off + 4]), s.ptag));
            && s.off + 4 <= |blk| && !m.tag.top && m.End() == t.off <= |blk| && t.ptag == Link(m.tag)
            && (if m.IsCheck() then
                  StoredAt(sum, blk, base, s.off) && t.summed == [] && t.pending == []
                  && t.acc == Fetched(t.off, t.ptag, s.acc.log + s.pending + [m.Rec(blk)], false)
                else t.summed == blk[base..t.off] && t.pending == s.pending + [m.Rec(blk)] && t.acc == s.acc)
            && Summing(blk, t, if m.IsCheck() then t.off else base)
  {
    hide Chain;
    hide Read;
    hide HeadOf;
    hide RecAt;
    var t := Step(sum, blk, s).next;
    var word := blk[s.off..s.off + 4];
    assert s.summed + word == blk[base..s.off + 4];
    assert blk[base..s.off + 4] + blk[s.off + 4..t.off] == blk[base..t.off];
    assert blk[t.off..t.off] == [];
  }

  /** Every commit a scan accepts is one. */
  lemma {:induction false} ScanFinds(sum: Sum, blk: seq<byte>, s: Scanning, base: nat) returns (marks: seq<Mark>)
    requires Summing(blk, s, base)
    ensures var f := Scan(sum, blk, s);
            if marks == [] then f.off == s.acc.off && f.etag == s.acc.etag && f.log == s.acc.log
            else Commits(sum, blk, base, s.off, s.ptag, marks, f.off) && f.etag == Link(marks[|marks| - 1].tag)
                 && f.log == s.acc.log + s.pending + Recs(blk, marks)
    decreases |blk| - s.off
  {
    hide Step;
    hide Chain;
    hide Read;
    hide HeadOf;
    hide Link;
    hide Scan;
    hide Path;
    hide Checked;
    hide Recs;
    match Step(sum, blk, s)
    case Stop(r) => ScanStop(sum, blk, s); StepStops(sum, blk, s); marks := [];
    case Go(t) =>
      StepMark(sum, blk, s, base);
      var m := Mark(s.off, Chain(Read(blk[s.off..s.off + 4]), s.ptag));
      var rest := ScanFinds(sum, blk, t, if m.IsCheck() then t.off else base);
      marks := if rest == [] && !m.IsCheck() then [] else [m] + rest;
      ScanGo(sum, blk, s, t);
      if rest != [] {
        CommitsMore(sum, blk, base, s.off, s.ptag, m, rest, Scan(sum, blk, t).off);
        LogMore(s.acc.log, s.pending, m.Rec(blk), Recs(blk, rest));
      } else if m.IsCheck() {
        CommitsOne(sum, blk, base, s.off, s.ptag, m);
        assert [m] + rest == [m];
      }
  }

  lemma ScanStop(sum: Sum, blk: seq<byte>, s: Scanning)
    requires Step(sum, blk, s).Stop?
    ensures Scan(sum, blk, s) == Step(sum, blk, s).result
  {}

  lemma ScanGo(sum: Sum, blk: seq<byte>, s: Scanning, t: Scanning)
    requires Step(sum, blk, s) == Go(t)
    ensures Scan(sum, blk, s) == Scan(sum, blk, t)
  {}

  lemma LogMore(log: seq<Rec>, pending: seq<Rec>, r: Rec, rest: seq<Rec>)
    ensures log + pending + [r] + rest == log + pending + ([r] + rest) == log + (pending + [r]) + rest
    ensures log + pending + [r] + [] + rest == log + pending + ([r] + rest)
  {}

  lemma CommitsMore(sum: Sum, blk: seq<byte>, base: nat, off: nat, ptag: Word, m: Mark, rest: seq<Mark>, end: nat)
    requires m.at == off && off + 4 <= |blk| && m.tag == Chain(Read(blk[off..off + 4]), ptag) && !m.tag.top && m.End() <= |blk|
    requires m.IsCheck() ==> StoredAt(sum, blk, base, off)
    requires Commits(sum, blk, if m.IsCheck() then m.End() else base, m.End(), Link(m.tag), rest, end)
    ensures Commits(sum, blk, base, off, ptag, [m] + rest, end) && Recs(blk, [m] + rest) == [m.Rec(blk)] + Recs(blk, rest)
  {
    hide Link;
    assert ([m] + rest)[1..] == rest;
  }

  lemma CommitsOne(sum: Sum, blk: seq<byte>, base: nat, off: nat, ptag: Word, m: Mark)
    requires m.at == off && off + 4 <= |blk| && m.tag == Chain(Read(blk[off..off + 4]), ptag) && !m.tag.top && m.End() <= |blk|
    requires m.IsCheck() && StoredAt(sum, blk, base, off)
    ensures Commits(sum, blk, base, off, ptag, [m], m.End()) && Recs(blk, [m]) == [m.Rec(blk)]
  {
    assert [m][1..] == [];
  }

  lemma StepStops(sum: Sum, blk: seq<byte>, s: Scanning)
    requires Step(sum, blk, s).Stop?
    ensures Step(sum, blk, s).result == s.acc.(maybeErased := Step(sum, blk, s).result.maybeErased)
  {}

  lemma {:induction false} ScanKeeps(sum: Sum, blk: seq<byte>, s: Scanning)
    requires s.acc.off <= s.off
    ensures Scan(sum, blk, s).off >= s.acc.off
    decreases |blk| - s.off
  {
    match Step(sum, blk, s)
    case Stop(_) =>
    case Go(t) => ScanKeeps(sum, blk, t);
  }

  // a valid tag is passed, if it is no checksum or the checksum is right
  lemma MarkStep(sum: Sum, blk: seq<byte>, s: Scanning, base: nat, marks: seq<Mark>, end: nat)
    requires Summing(blk, s, base) && marks != [] && Path(blk, s.off, s.ptag, marks, end) && Checked(sum, blk, base, marks)
    ensures Step(sum, blk, s).Go? && marks[0] == Mark(s.off, Chain(Read(blk[s.off..s.off + 4]), s.ptag))
  {
    hide Chain;
    hide Read;
    hide HeadOf;
    hide Path;
    PathStep(blk, s.off, s.ptag, marks, end);
    assert s.summed + blk[s.off..s.off + 4] == blk[base..s.off + 4];
  }

  lemma PathStep(blk: seq<byte>, off: nat, ptag: Word, marks: seq<Mark>, end: nat)
    requires marks != [] && Path(blk, off, ptag, marks, end)
    ensures off + 4 <= |blk| && marks[0] == Mark(off, Chain(Read(blk[off..off + 4]), ptag)) && !marks[0].tag.top && marks[0].End() <= |blk|
    ensures Path(blk, marks[0].End(), Link(marks[0].tag), marks[1..], end)
  {}

  /** And a scan accepts every one. */
  lemma {:induction false} ScanMisses(sum: Sum, blk: seq<byte>, s: Scanning, base: nat, marks: seq<Mark>, end: nat)
    requires Summing(blk, s, base) && Commits(sum, blk, base, s.off, s.ptag, marks, end)
    ensures Scan(sum, blk, s).off >= end
    decreases |marks|
  {
    hide Step;
    hide Chain;
    hide Read;
    hide HeadOf;
    hide Link;
    MarkStep(sum, blk, s, base, marks, end);
    StepMark(sum, blk, s, base);
    var m, t := marks[0], Step(sum, blk, s).next;
    if |marks| == 1 {
      assert marks[1..] == [];
      ScanKeeps(sum, blk, t);
    } else {
      ScanMisses(sum, blk, t, if m.IsCheck() then t.off else base, marks[1..], end);
    }
  }

  // what a scan knows about the tag it stands behind
  predicate Behind(blk: seq<byte>, s: Scanning)
  {
    && !s.acc.maybeErased && (s.acc.off > 0 ==> s.acc.off <= s.off)
    && (IsCrc(HeadOf(s.ptag)) <==> s.acc.off > 0 && s.pending == [])
    && (s.acc.off > 0 && s.pending == [] ==> s.off == s.acc.off && s.ptag == s.acc.etag)
    && (s.acc.off > 0 && s.pending != [] ==>
          s.acc.off + 4 <= |blk| && !Chain(Read(blk[s.acc.off..s.acc.off + 4]), s.acc.etag).top)
  }

  lemma StepBehind(sum: Sum, blk: seq<byte>, s: Scanning, base: nat)
    requires Summing(blk, s, base) && Behind(blk, s)
    ensures match Step(sum, blk, s)
            case Stop(f) => f.maybeErased <==> f.off > 0 && f.off + 4 <= |blk| && Chain(Read(blk[f.off..f.off + 4]), f.etag).top
            case Go(t) => Behind(blk, t)
  {
    hide Chain;
    hide Read;
    hide RecAt;
    if Step(sum, blk, s).Go? { FlipHead(Chain(Read(blk[s.off..s.off + 4]), s.ptag)); }
  }

  lemma FlipHead(tag: Word)
    ensures HeadOf(Flip(tag)) == HeadOf(tag)
  {}

  lemma {:induction false} ScanErased(sum: Sum, blk: seq<byte>, s: Scanning, base: nat)
    requires Summing(blk, s, base) && Behind(blk, s)
    ensures var f := Scan(sum, blk, s);
            f.maybeErased <==> f.off > 0 && f.off + 4 <= |blk| && Chain(Read(blk[f.off..f.off + 4]), f.etag).top
    decreases |blk| - s.off
  {
    hide Behind;
    hide Chain;
    hide Read;
    hide Step;
    StepBehind(sum, blk, s, base);
    if Step(sum, blk, s).Go? {
      StepMark(sum, blk, s, base);
      var t := Step(sum, blk, s).next;
      ScanErased(sum, blk, t, if Mark(s.off, Chain(Read(blk[s.off..s.off + 4]), s.ptag)).IsCheck() then t.off else base);
    }
  }

  lemma {:induction false} PathGrows(blk: seq<byte>, off: nat, ptag: Word, marks: seq<Mark>, end: nat)
    requires Path(blk, off, ptag, marks, end)
    ensures off <= end
    decreases |marks|
  {
    hide HeadOf;
    if marks != [] { PathGrows(blk, marks[0].End(), Link(marks[0].tag), marks[1..], end); }
  }

  /** For every block and every checksum, the fetch finds exactly the commits that are there. */
  lemma FetchIs(sum: Sum, blk: seq<byte>)
    requires |blk| >= 4
    ensures IsFetch(sum, blk, FetchBlock(sum, blk))
  {
    hide Scan;
    hide Path;
    hide Checked;
    var s, f := ScanStart(blk), FetchBlock(sum, blk);
    var marks := ScanFinds(sum, blk, s, 0);
    forall others, end: nat | Commits(sum, blk, 0, 4, ONES, others, end) ensures end <= f.off {
      ScanMisses(sum, blk, s, 0, others, end);
    }
    ScanErased(sum, blk, s, 0);
    if marks != [] {
      PathGrows(blk, 4, ONES, marks, f.off);
      assert Finds(sum, blk, f, marks);
    }
  }

  // ---------------------------------------------------------------- walking back

  /** The tags met by walking back from the tag that ends at off, oldest first. */
  function TagsBefore(blk: seq<byte>, off: nat, tag: Word): seq<Rec>
    requires off <= |blk|
    decreases off
  {
    var h := HeadOf(tag);
    if off < 4 + Dsize(h) then []
    else
      var start := off - Dsize(h);
      TagsBefore(blk, start, Strip(Chain(Read(blk[start..start + 4]), tag))) + [RecAt(blk, start, h)]
  }

  lemma TagsBeforeIgnoresValidBit(blk: seq<byte>, off: nat, t: Word, u: Word)
    requires off <= |blk| && t.body == u.body
    ensures TagsBefore(blk, off, t) == TagsBefore(blk, off, u)
  {
    hide Read;
    hide RecAt;
    hide Dsize;
  }

  lemma TagsUnfold(blk: seq<byte>, off: nat, tag: Word, start: nat)
    requires off <= |blk| && off == start + Dsize(HeadOf(tag)) && start >= 4
    ensures TagsBefore(blk, off, tag) ==
            TagsBefore(blk, start, Strip(Chain(Read(blk[start..start + 4]), tag))) + [RecAt(blk, start, HeadOf(tag))]
  {
    hide HeadOf;
    hide Strip;
    hide Chain;
    hide Read;
    hide RecAt;
  }

  /** Un-chaining one tag leads back to the tag before it. */
  lemma StepBack(blk: seq<byte>, off: nat, ptag: Word, tag: Word)
    requires 4 <= off && off + 4 <= |blk|
    requires tag == Chain(Read(blk[off..off + 4]), ptag) && off + Dsize(HeadOf(tag)) <= |blk|
    ensures TagsBefore(blk, off + Dsize(HeadOf(tag)), tag) ==
            TagsBefore(blk, off, ptag) + [RecAt(blk, off, HeadOf(tag))]
  {
    var w := Read(blk[off..off + 4]);
    TagsUnfold(blk, off + Dsize(HeadOf(tag)), tag, off);
    ChainTwice(w, ptag);
    TagsBeforeIgnoresValidBit(blk, off, Strip(Chain(w, tag)), ptag);
  }

  ghost predicate WalksBack(blk: seq<byte>, f: Fetched)
  {
    f.off <= |blk| && TagsBefore(blk, f.off, f.etag) == f.log
  }

  ghost predicate ScanInv(blk: seq<byte>, s: Scanning)
  {
    && 4 <= s.off <= |blk| && WalksBack(blk, s.acc)
    && TagsBefore(blk, s.off, s.ptag) == s.acc.log + s.pending
  }

  lemma StepKeepsWalk(sum: Sum, blk: seq<byte>, s: Scanning)
    requires ScanInv(blk, s)
    ensures match Step(sum, blk, s) case Stop(f) => WalksBack(blk, f) case Go(t) => ScanInv(blk, t)
  {
    hide TagsBefore;
    hide HeadOf;
    hide Chain;
    hide Read;
    hide RecAt;
    hide AfterCrc;
    var m := Step(sum, blk, s);
    if m.Go? {
      var tag := Chain(Read(blk[s.off..s.off + 4]), s.ptag);
      var next, rec := s.off + Dsize(HeadOf(tag)), RecAt(blk, s.off, HeadOf(tag));
      StepBack(blk, s.off, s.ptag, tag);
      if IsCrc(HeadOf(tag)) {
        AcceptedWalksBack(blk, s, next, tag, rec);
      } else {
        assert s.acc.log + (s.pending + [rec]) == s.acc.log + s.pending + [rec];
      }
    }
  }

  lemma AcceptedWalksBack(blk: seq<byte>, s: Scanning, next: nat, tag: Word, rec: Rec)
    requires 4 <= next <= |blk| && TagsBefore(blk, next, tag) == s.acc.log + s.pending + [rec]
    ensures ScanInv(blk, Accepted(s, next, tag, rec))
  {
    TagsBeforeIgnoresValidBit(blk, next, AfterCrc(tag), tag);
    var t := Accepted(s, next, tag, rec);
    assert t.acc.log + t.pending == t.acc.log;
  }

  /** For every block whatsoever, the backward walk from where a fetch ended meets
      exactly the tags the fetch accepted. */
  lemma {:induction false} ScanMatchesWalk(sum: Sum, blk: seq<byte>, s: Scanning)
    requires ScanInv(blk, s)
    ensures WalksBack(blk, Scan(sum, blk, s))
    decreases |blk| - s.off
  {
    StepKeepsWalk(sum, blk, s);
    match Step(sum, blk, s)
    case Stop(_) =>
    case Go(t) => ScanMatchesWalk(sum, blk, t);
  }

  /** The fetch loop. */
  method Fetch(sum: Sum, blk: seq<byte>) returns (f: Fetched)
    requires |blk| >= 4
    ensures f == FetchBlock(sum, blk) && IsFetch(sum, blk, f) && WalksBack(blk, f)
  {
    hide IsFetch;
    var s := ScanStart(blk);
    ScanMatchesWalk(sum, blk, s);
    FetchIs(sum, blk);
    while true
      invariant Scan(sum, blk, s) == FetchBlock(sum, blk)
      decreases |blk| - s.off
    {
      match Step(sum, blk, s) {
        case Stop(r) => return r;
        case Go(t) => s := t;
      }
    }
  }

  // ---------------------------------------------------------------- lookup

  /** The payload cut or zero-filled to the caller's buffer. */
  function Fit(data: seq<byte>, n: nat): (r: seq<byte>)
    ensures |r| == n && forall k :: 0 <= k < n ==> r[k] == if k < |data| then data[k] else 0
  {
    if |data| >= n then data[..n] else data + seq(n - |data|, i => 0)
  }

  /** What a lookup that finds v gives for a buffer of n bytes: the value, and in the buffer its
      payload as far as there is room, and zeros behind it. */
  predicate Gives(r: Option<(Value, seq<byte>)>, v: Option<Value>, n: nat)
  {
    match v
    case None => r == None
    case Some(x) =>
      && r.Some? && r.value.0 == x && |r.value.1| == n
      && (forall k :: 0 <= k < n && k < |x.data| ==> r.value.1[k] == x.data[k])
      && (forall k :: |x.data| <= k < n ==> r.value.1[k] == 0)
  }

  // the same for a log that is walked back further
  function ToldByLog(w: Walk, log: seq<Rec>, q: Query): Option<Value>
  {
    match w
    case Hit(v) => v
    case Born => None
    case Fell(g) => Lookup(log, q, g)
  }

  lemma LookupStep(log: seq<Rec>, t: Rec, q: Query, g: int)
    ensures Lookup(log + [t], q, g) ==
            ToldByLog(WalkOne(t, q, g), log, q)
  {
    assert (log + [t])[..|log|] == log;
  }

  /** The body of the lookup loop for one tag and the id wanted so far: it tells what the
      entry says once the tag is applied to whatever was written before. */
  method Visit(tag: Rec, q: Query, wanted: int) returns (w: Walk)
    ensures forall log :: Lookup(log + [tag], q, wanted) == ToldByLog(w, log, q)
    ensures WellFormed(tag) && EntryQuery(q) ==>
              forall es :: LastMatch(HistoryAt(Apply(es, tag), wanted), q) == Told(w, es, q)
  {
    VisitMeaning(tag, q, wanted);
    var id := wanted;
    if IsSplice(tag) && tag.id <= id {
      if tag.kind == CREATE && tag.id == id && tag.size == 0 {
        return Born;
      }
      id := id - Splice(tag);
    }
    if Matches(q, tag) && tag.id == id {
      if IsDeleted(tag) {
        return Hit(None);
      }
      return Hit(Some(Value(tag.kind, tag.size, tag.data)));
    }
    return Fell(id);
  }

  lemma VisitMeaning(t: Rec, q: Query, g: int)
    ensures forall log :: Lookup(log + [t], q, g) == ToldByLog(WalkOne(t, q, g), log, q)
    ensures WellFormed(t) && EntryQuery(q) ==>
              forall es :: LastMatch(HistoryAt(Apply(es, t), g), q) == Told(WalkOne(t, q, g), es, q)
  {
    forall log ensures Lookup(log + [t], q, g) == ToldByLog(WalkOne(t, q, g), log, q) {
      LookupStep(log, t, q, g);
    }
    if WellFormed(t) && EntryQuery(q) {
      forall es ensures LastMatch(HistoryAt(Apply(es, t), g), q) == Told(WalkOne(t, q, g), es, q) {
        OneStepBack(es, t, q, g);
      }
    }
  }

  // the tag ending at off and the tag word before it
  method Previous(blk: seq<byte>, off: nat, ntag: Word) returns (tag: Rec, previous: Word)
    requires 4 + Dsize(HeadOf(ntag)) <= off <= |blk|
    ensures tag == RecAt(blk, off - Dsize(HeadOf(ntag)), HeadOf(ntag))
    ensures TagsBefore(blk, off, ntag) == TagsBefore(blk, off - Dsize(HeadOf(ntag)), previous) + [tag]
  {
    var start := off - Dsize(HeadOf(ntag));
    TagsUnfold(blk, off, ntag, start);
    tag := RecAt(blk, start, HeadOf(ntag));
    previous := Strip(Chain(Read(blk[start..start + 4]), ntag));
  }

  /** What a lookup finds while an entry of the pair is being moved away: nothing for that entry,
      and for those behind it what they will be called. */
  function LookupMoving(log: seq<Rec>, move: Option<nat>, q: Query, id: int): Option<Value>
  {
    match move
    case None => Lookup(log, q, id)
    case Some(m) => if id == m then None else Lookup(log, q, if id > m then id + 1 else id)
  }

  /** That is what a delete of the entry at the end of the log gives, except that the entry behind
      the one that moves cannot be found by its new id. */
  lemma MovingIsDeletedIff(log: seq<Rec>, m: nat, q: Query, id: int)
    requires EntryQuery(q)
    ensures LookupMoving(log, Some(m), q, id) == Lookup(log + [Rec(DELETE, m, 0, [])], q, id) <==>
            id != m || Lookup(log, q, m + 1) == None
  {
    var t := Rec(DELETE, m, 0, []);
    if Matches(q, t) { EntryQueryMatchesAttr(q, t); }
    LookupStep(log, t, q, id);
  }

  /** The lookup loop: walk back tag by tag, adjusting the id wanted by every create and
      delete passed. A move that is pending counts as a delete, but for the entry itself. */
  method GetSlice(blk: seq<byte>, start: nat, etag: Word, move: Option<nat>, q: Query, id: int, size: nat)
    returns (r: Option<(Value, seq<byte>)>)
    requires start <= |blk|
    ensures Gives(r, LookupMoving(TagsBefore(blk, start, etag), move, q, id), size)
  {
    hide TagsBefore;
    hide Lookup;
    hide WalkOne;
    hide Gives;
    if move == Some(id) {
      NothingGiven(size);
      return None;
    }
    var off: nat, ntag, wanted: int := start, etag, if move.Some? && move.value < id then id + 1 else id;
    ghost var first := wanted;
    ghost var log := TagsBefore(blk, start, etag);
    while off >= 4 + Dsize(HeadOf(ntag))
      invariant off <= start && log == TagsBefore(blk, off, ntag)
      invariant Lookup(log, q, wanted) == Lookup(TagsBefore(blk, start, etag), q, first)
      decreases off
    {
      var tag, previous := Previous(blk, off, ntag);
      off, ntag := off - Dsize(HeadOf(ntag)), previous;
      log := TagsBefore(blk, off, ntag);
      var w := Visit(tag, q, wanted);
      if !w.Fell? {
        NothingGiven(size);
        if w.Hit? && w.value.Some? {
          Given(w.value.value, size);
          return Some((w.value.value, Fit(w.value.value.data, size)));
        }
        return None;
      }
      wanted := w.id;
    }
    NothingBefore(blk, off, ntag, q, wanted, size);
    r := None;
  }

  lemma NothingGiven(size: nat)
    ensures Gives(None, None, size)
  {}

  lemma Given(v: Value, size: nat)
    ensures Gives(Some((v, Fit(v.data, size))), Some(v), size)
  {}

  lemma NothingBefore(blk: seq<byte>, off: nat, tag: Word, q: Query, g: int, size: nat)
    requires off <= |blk| && off < 4 + Dsize(HeadOf(tag))
    ensures Gives(None, Lookup(TagsBefore(blk, off, tag), q, g), size)
  {}

  /** The log with the delete that a pending move stands for. */
  function WithMove(log: seq<Rec>, move: Option<nat>): seq<Rec>
  {
    match move
    case None => log
    case Some(m) => log + [Rec(DELETE, m, 0, [])]
  }

  /** Fetching a block and looking an entry up in it gives what replaying the accepted tags
      forwards gives, and the delete that a pending move stands for; the entry that moves is not
      found. */
  method FetchAndGet(sum: Sum, blk: seq<byte>, move: Option<nat>, q: Query, id: nat, size: nat) returns (r: Option<(Value, seq<byte>)>)
    requires |blk| >= 4 && EntryQuery(q) && WellFormedLog(FetchBlock(sum, blk).log)
    ensures Gives(r, if move == Some(id) then None
                     else LastMatch(HistoryAt(Replay(WithMove(FetchBlock(sum, blk).log, move)), id), q), size)
  {
    hide Replay;
    hide Lookup;
    var f := Fetch(sum, blk);
    r := GetSlice(blk, f.off, f.etag, move, q, id, size);
    BackwardRefinesReplay(WithMove(f.log, move), q, id);
    if move.Some? { MovingIsDeletedIff(f.log, move.value, q, id); }
  }
}
