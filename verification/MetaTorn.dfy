/** A commit that was cut short, and the checksum.  All that is asked of the checksum is that
    bytes which were there before are not, by chance, that of what happens to be in front of
    them; then a fetch takes only what was written completely. */
module MetaTorn {
  import opened Words
  import opened TagWord
  import opened MetaLog
  import opened MetaBlock
  import opened MetaCommit

  // tags up to the first checksum
  predicate OneCommit(marks: seq<Mark>)
  {
    && marks != [] && marks[|marks| - 1].IsCheck()
    && forall i :: 0 <= i < |marks| - 1 ==> !marks[i].IsCheck()
  }

  /** No chance: wherever valid tags lead from off on to a checksum tag whose checksum was not
      written completely, what is stored there is not the checksum of the bytes since base. */
  ghost predicate Unforged(sum: Sum, image: seq<byte>, base: nat, off: nat, ptag: Word, tear: nat)
  {
    forall marks: seq<Mark>, end: nat ::
      Path(image, off, ptag, marks, end) && OneCommit(marks) && tear < marks[|marks| - 1].at + 8 ==>
        !StoredAt(sum, image, base, marks[|marks| - 1].at)
  }

  // the first n bytes are there
  predicate FrontHeld(image: seq<byte>, off: nat, s: seq<byte>, tear: nat)
  {
    off + |s| <= |image| && forall i :: 0 <= i < |s| && off + i < tear ==> image[off + i] == s[i]
  }

  lemma {:induction false} FirstCommit(sum: Sum, blk: seq<byte>, base: nat, off: nat, ptag: Word, marks: seq<Mark>, end: nat)
    returns (one: seq<Mark>, e: nat)
    requires Commits(sum, blk, base, off, ptag, marks, end)
    ensures OneCommit(one) && Path(blk, off, ptag, one, e) && StoredAt(sum, blk, base, one[|one| - 1].at)
    decreases |marks|
  {
    hide Link;
    var m := marks[0];
    if m.IsCheck() {
      assert [m][1..] == [];
      return [m], m.End();
    }
    var rest;
    rest, e := FirstCommit(sum, blk, base, m.End(), Link(m.tag), marks[1..], end);
    one := [m] + rest;
    assert one[1..] == rest;
    forall i | 0 <= i < |one| - 1 ensures !one[i].IsCheck() { if i > 0 { assert one[i] == rest[i - 1]; } }
  }

  lemma {:induction false} PathPlaces(blk: seq<byte>, off: nat, ptag: Word, marks: seq<Mark>, end: nat)
    requires Path(blk, off, ptag, marks, end) && marks != []
    ensures marks[|marks| - 1].at >= off
    decreases |marks|
  {
    hide HeadOf;
    if |marks| > 1 { PathPlaces(blk, marks[0].End(), Link(marks[0].tag), marks[1..], end); }
  }

  // the word of a tag that was written can be read
  lemma WrittenWord(image: seq<byte>, off: nat, tag: Word, ptag: Word, s: seq<byte>, tear: nat)
    requires tag.body < BODIES && ptag.body < BODIES && off + 8 <= tear
    requires FrontHeld(image, off, s, tear) && Write(Chain(tag, ptag)) <= s
    ensures off + 4 <= |image| && Chain(Read(image[off..off + 4]), ptag) == tag
  {
    hide Read;
    hide Chain;
    var w := Write(Chain(tag, ptag));
    assert |w| == 4;
    assert image[off..off + 4] == w by {
      forall i | 0 <= i < 4 ensures image[off + i] == w[i] { assert s[i] == w[i]; }
    }
    ReadBack(image, off, tag, ptag);
  }

  /** As far as a commit was written, its own tags are the only valid ones: a checksum tag that is
      completely there is the one at its end. */
  lemma {:induction false} WrittenPath(image: seq<byte>, off: nat, ptag: Word, recs: seq<Rec>, tail: seq<byte>,
                                       marks: seq<Mark>, end: nat, tear: nat)
    requires EncodableLog(recs) && ptag.body < BODIES && |tail| == 8
    requires FrontHeld(image, off, Encode(recs, ptag) + tail, tear)
    requires Path(image, off, ptag, marks, end) && OneCommit(marks) && marks[|marks| - 1].at + 8 <= tear
    ensures off + |Encode(recs, ptag)| + 8 <= tear
    decreases |recs|
  {
    hide Write;
    hide Chain;
    hide Link;
    PathPlaces(image, off, ptag, marks, end);
    if recs != [] {
      var r := recs[0];
      var tag, one, rest := Make(RecHead(r)), EncodeOne(r, ptag), Encode(recs[1..], Make(RecHead(r)));
      var all := Encode(recs, ptag) + tail;
      assert all == one + (rest + tail);
      MakeBound(RecHead(r));
      MakeHead(RecHead(r));
      assert Write(Chain(tag, ptag)) <= all;
      WrittenWord(image, off, tag, ptag, all, tear);
      PathStep(image, off, ptag, marks, end);
      assert marks[0].tag == tag && !marks[0].IsCheck() && marks[0].End() == off + |one|;
      FrontRest(image, off, one, rest + tail, tear);
      NoCheckLink(tag);
      assert marks[1..][|marks| - 2] == marks[|marks| - 1];
      WrittenPath(image, off + |one|, tag, recs[1..], tail, marks[1..], end, tear);
    }
  }

  lemma NoCheckLink(tag: Word)
    requires !IsCrc(HeadOf(tag))
    ensures Link(tag) == tag
  {}

  lemma FrontRest(image: seq<byte>, off: nat, a: seq<byte>, b: seq<byte>, tear: nat)
    requires FrontHeld(image, off, a + b, tear)
    ensures FrontHeld(image, off + |a|, b, tear)
  {
    forall i | 0 <= i < |b| && off + |a| + i < tear ensures image[off + |a| + i] == b[i] {
      assert (a + b)[|a| + i] == b[i];
    }
  }

  lemma FrontIsAll(image: seq<byte>, off: nat, s: seq<byte>, tear: nat)
    requires FrontHeld(image, off, s, tear) && off + |s| <= tear
    ensures Holds(image, off, s)
  {
    assert image[off..off + |s|] == s;
  }

  /** What a scan accepts of a commit that may have been cut short was written completely. */
  lemma TornCommit(sum: Sum, image: seq<byte>, s: Scanning, base: nat, m: Commit, core: seq<byte>, tear: nat)
    requires FourBytes(sum) && Committable(m) && s.ptag.body < BODIES && Summing(image, s, base)
    requires core == Core(sum, m, s.ptag, s.summed) && FrontHeld(image, s.off, core, tear)
    requires Unforged(sum, image, base, s.off, s.ptag, tear)
    ensures Scan(sum, image, s).off > s.off ==> Holds(image, s.off, core)
  {
    hide Scan;
    hide Path;
    hide Unforged;
    hide Write;
    hide Chain;
    if Scan(sum, image, s).off > s.off {
      var marks := ScanFinds(sum, image, s, base);
      var one, e := FirstCommit(sum, image, base, s.off, s.ptag, marks, Scan(sum, image, s).off);
      IfUnforged(sum, image, base, s.off, s.ptag, tear, one, e);
      AllRecsEncodable(sum, m);
      var recs, w := AllRecs(sum, m), CrcWord(sum, m, s.ptag);
      var c := sum(s.summed + Encode(recs, s.ptag) + w);
      assert |w| == 4 && |c| == 4;
      assert core == Encode(recs, s.ptag) + (w + c);
      WrittenPath(image, s.off, s.ptag, recs, w + c, one, e, tear);
      FrontIsAll(image, s.off, core, tear);
    }
  }

  lemma IfUnforged(sum: Sum, image: seq<byte>, base: nat, off: nat, ptag: Word, tear: nat, marks: seq<Mark>, end: nat)
    requires Unforged(sum, image, base, off, ptag, tear) && Path(image, off, ptag, marks, end) && OneCommit(marks)
    requires StoredAt(sum, image, base, marks[|marks| - 1].at)
    ensures marks[|marks| - 1].at + 8 <= tear
  {}

  /** And where nothing was written, it accepts nothing. */
  lemma NothingWritten(sum: Sum, image: seq<byte>, s: Scanning, base: nat, tear: nat)
    requires Summing(image, s, base) && Unforged(sum, image, base, s.off, s.ptag, tear) && tear < s.off + 8
    ensures Scan(sum, image, s).off <= s.off
  {
    hide Scan;
    hide Path;
    hide Unforged;
    if Scan(sum, image, s).off > s.off {
      var marks := ScanFinds(sum, image, s, base);
      var one, e := FirstCommit(sum, image, base, s.off, s.ptag, marks, Scan(sum, image, s).off);
      IfUnforged(sum, image, base, s.off, s.ptag, tear, one, e);
      PathPlaces(image, s.off, s.ptag, one, e);
    }
  }

  /** Conversely, where a scan accepts nothing there is nothing forged. */
  lemma QuietIsUnforged(sum: Sum, blk: seq<byte>, s: Scanning, base: nat, tear: nat)
    requires Summing(blk, s, base) && Scan(sum, blk, s).off <= s.off
    ensures Unforged(sum, blk, base, s.off, s.ptag, tear)
  {
    hide Scan;
    hide Path;
    forall marks: seq<Mark>, end: nat | Path(blk, s.off, s.ptag, marks, end) && OneCommit(marks) && StoredAt(sum, blk, base, marks[|marks| - 1].at)
      ensures false
    {
      OneIsCommits(sum, blk, base, s.off, s.ptag, marks, end);
      ScanMisses(sum, blk, s, base, marks, end);
      PathPast(blk, s.off, s.ptag, marks, end);
    }
  }

  lemma NoRoomIsUnforged(sum: Sum, blk: seq<byte>, off: nat, ptag: Word, tear: nat)
    requires |blk| < off + 4
    ensures Unforged(sum, blk, off, off, ptag, tear)
  {}

  lemma PathPast(blk: seq<byte>, off: nat, ptag: Word, marks: seq<Mark>, end: nat)
    requires Path(blk, off, ptag, marks, end) && marks != []
    ensures off < end
  {
    PathGrows(blk, marks[0].End(), Link(marks[0].tag), marks[1..], end);
  }

  lemma {:induction false} OneIsCommits(sum: Sum, blk: seq<byte>, base: nat, off: nat, ptag: Word, marks: seq<Mark>, end: nat)
    requires Path(blk, off, ptag, marks, end) && OneCommit(marks) && StoredAt(sum, blk, base, marks[|marks| - 1].at)
    ensures Commits(sum, blk, base, off, ptag, marks, end)
    decreases |marks|
  {
    hide Link;
    hide HeadOf;
    var m, rest := marks[0], marks[1..];
    if |marks| > 1 {
      assert rest[|rest| - 1] == marks[|marks| - 1];
      forall i | 0 <= i < |rest| - 1 ensures !rest[i].IsCheck() { assert rest[i] == marks[i + 1]; }
      assert !marks[0].IsCheck();
      OneIsCommits(sum, blk, base, m.End(), Link(m.tag), rest, end);
    } else {
      assert rest == [] && marks[|marks| - 1] == m;
      assert m.IsCheck() && Checked(sum, blk, m.End(), rest);
      assert Checked(sum, blk, base, marks);
    }
  }
}
