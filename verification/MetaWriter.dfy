/** Writing a commit step by step: tags with the running checksum, then checksum tags up to
    the end of a program unit. More than one is needed if the unit is longer than a tag can
    describe; the others are commits of their own that carry nothing. */
module MetaWriter {
  import opened Words
  import opened Arith
  import opened TagWord
  import opened MetaLog
  import opened MetaBlock
  import opened MetaCommit
  import Crc

  // ---------------------------------------------------------------- the checksum

  /** The stored checksum: the running CRC from all ones on, least significant byte first. */
  function Crc32(s: seq<byte>): (r: seq<byte>)
    ensures |r| == 4
  {
    Le32(Crc.CrcBits(0xffff_ffff, s))
  }

  lemma EncodeMore(recs: seq<Rec>, r: Rec, ptag: Word)
    ensures Encode(recs + [r], ptag) == Encode(recs, ptag) + EncodeOne(r, LastTag(recs, ptag))
    ensures LastTag(recs + [r], ptag) == Make(RecHead(r))
    decreases |recs|
  {
    hide EncodeOne;
    if recs == [] {
      assert recs + [r] == [r];
      EncodeOnly(r, ptag);
    } else {
      EncodeMore(recs[1..], r, Make(RecHead(recs[0])));
      assert (recs + [r])[1..] == recs[1..] + [r];
    }
  }

  // ---------------------------------------------------------------- room

  /** The bytes that tags with their payloads take. */
  function Size(recs: seq<Rec>): nat
  {
    if recs == [] then 0 else Size(recs[..|recs| - 1]) + Dsize(RecHead(recs[|recs| - 1]))
  }

  lemma {:induction false} SizeIs(recs: seq<Rec>, ptag: Word)
    requires EncodableLog(recs)
    ensures |Encode(recs, ptag)| == Size(recs)
    decreases |recs|
  {
    hide Make;
    hide Write;
    hide Chain;
    hide Encode;
    if recs != [] {
      var front, r := recs[..|recs| - 1], recs[|recs| - 1];
      SizeIs(front, ptag);
      assert recs == front + [r];
      EncodeMore(front, r, ptag);
      EncodeOneSize(r, LastTag(front, ptag));
    } else {
      EncodeNone(ptag);
    }
  }

  lemma EncodeNone(ptag: Word)
    ensures Encode([], ptag) == []
  {}

  lemma EncodeOneSize(r: Rec, ptag: Word)
    requires Encodable(r)
    ensures |EncodeOne(r, ptag)| == Dsize(RecHead(r))
  {}

  lemma {:induction false} SizeFront(recs: seq<Rec>, i: nat)
    requires i <= |recs|
    ensures Size(recs[..i]) <= Size(recs)
    decreases |recs|
  {
    if i < |recs| {
      SizeFront(recs[..|recs| - 1], i);
      assert recs[..|recs| - 1][..i] == recs[..i];
    } else {
      assert recs[..i] == recs;
    }
  }

  lemma SizeNone()
    ensures Size([]) == 0
  {}

  // one more tag
  lemma SizeStep(recs: seq<Rec>, i: nat)
    requires i < |recs|
    ensures Size(recs[..i + 1]) == Size(recs[..i]) + Dsize(RecHead(recs[i])) <= Size(recs)
  {
    assert recs[..i + 1][..i] == recs[..i];
    SizeFront(recs, i + 1);
  }

  /** How far a checksum tag at off reaches: to e, unless that is more than a tag can describe, but
      then so that another tag with a forward checksum fits in front of e. */
  function Reach(off: nat, e: nat): (noff: nat)
    requires off + 8 <= e
    ensures off + 8 <= noff <= e && (noff < e ==> noff + 20 <= e)
  {
    if e - (off + 4) <= 0x3fe then e else Min(off + 4 + 0x3fe, e - 20)
  }

  /** Where the last one begins, the one with the forward checksum. */
  function LastTurn(off: nat, e: nat): (last: nat)
    requires off + 8 <= e
    ensures off <= last && (last == off || last + 20 <= e)
    decreases e - off
  {
    if Reach(off, e) < e then LastTurn(Reach(off, e), e) else off
  }

  lemma LastTurnStep(off: nat, e: nat)
    requires off + 8 <= e
    ensures LastTurn(off, e) == if Reach(off, e) < e then LastTurn(Reach(off, e), e) else off
  {}

  // with the end of the program unit at e, the forward checksum fits
  predicate CrcFits(prog: nat, end: nat, size: nat, off: nat, e: nat)
  {
    off + 8 <= e && (e + prog <= size ==> LastTurn(off, e) + 12 <= end)
  }

  /** The end of the program unit that a commit ends with. */
  function UnitOf(prog: nat, size: nat, off: nat): nat
    requires prog > 0
  {
    AlignUp(Min(off + 20, size), prog)
  }

  /** When tags and what completes them fit in front of the end of the metadata. */
  predicate Fits(prog: nat, end: nat, size: nat, off: nat, recs: seq<Rec>)
    requires prog > 0
  {
    var o := off + Size(recs);
    (recs == [] || o <= end) && CrcFits(prog, end, size, o, UnitOf(prog, size, o))
  }

  lemma FitsIs(prog: nat, end: nat, size: nat, off: nat, recs: seq<Rec>, o: nat)
    requires prog > 0 && o == off + Size(recs)
    ensures Fits(prog, end, size, off, recs) <==> (recs == [] || o <= end) && CrcFits(prog, end, size, o, UnitOf(prog, size, o))
  {}

  /** Eight bytes kept at the end of the block are enough for whatever completes a commit. */
  lemma WholeBlockFits(prog: nat, end: nat, size: nat, off: nat, recs: seq<Rec>)
    requires prog > 0 && Multiple(size, prog) && end + 8 == size && (recs == [] ==> off <= end)
    ensures Fits(prog, end, size, off, recs) <==> off + Size(recs) <= end
  {
    hide Size;
    hide AlignUp;
    hide Multiple;
    SizeNone();
    var o := off + Size(recs);
    if o <= end { UnitEnd(o, size, prog, UnitOf(prog, size, o)); }
  }

  // ---------------------------------------------------------------- commits in a row

  /** From off to fin the block holds the commits ms, one behind the padding of the other. */
  ghost predicate Written(sum: Sum, blk: seq<byte>, off: nat, ptag: Word, pre: seq<byte>, ms: seq<Commit>, fin: nat, ftag: Word)
    decreases |ms|
  {
    if ms == [] then off == fin && ptag == ftag && pre == []
    else
      var core := Core(sum, ms[0], ptag, pre);
      && Committable(ms[0]) && Holds(blk, off, core) && off + |core| + ms[0].pad <= |blk|
      && Written(sum, blk, off + |core| + ms[0].pad, EndTag(ms[0]), [], ms[1..], fin, ftag)
  }

  lemma {:induction false} WrittenGrows(sum: Sum, blk: seq<byte>, off: nat, ptag: Word, pre: seq<byte>,
                                        ms: seq<Commit>, fin: nat, ftag: Word)
    requires Written(sum, blk, off, ptag, pre, ms, fin, ftag)
    ensures off <= fin
    decreases |ms|
  {
    if ms != [] {
      WrittenGrows(sum, blk, off + |Core(sum, ms[0], ptag, pre)| + ms[0].pad, EndTag(ms[0]), [], ms[1..], fin, ftag);
    }
  }

  // what is behind does not matter
  lemma {:induction false} WrittenBefore(sum: Sum, blk: seq<byte>, blk': seq<byte>, off: nat, ptag: Word,
                                         pre: seq<byte>, ms: seq<Commit>, fin: nat, ftag: Word)
    requires Written(sum, blk, off, ptag, pre, ms, fin, ftag) && fin <= |blk| == |blk'| && blk[..fin] == blk'[..fin]
    ensures Written(sum, blk', off, ptag, pre, ms, fin, ftag)
    decreases |ms|
  {
    hide Core;
    hide EndTag;
    if ms != [] {
      var core := Core(sum, ms[0], ptag, pre);
      var next := off + |core| + ms[0].pad;
      WrittenGrows(sum, blk, next, EndTag(ms[0]), [], ms[1..], fin, ftag);
      WrittenBefore(sum, blk, blk', next, EndTag(ms[0]), [], ms[1..], fin, ftag);
      SameSlice(blk, blk', fin, off, off + |core|);
    }
  }

  lemma {:induction false} WrittenMore(sum: Sum, blk: seq<byte>, off: nat, ptag: Word, pre: seq<byte>,
                                       ms: seq<Commit>, mid: nat, mtag: Word, mpre: seq<byte>, m: Commit)
    requires if ms == [] then mid == off && mtag == ptag && mpre == pre else Written(sum, blk, off, ptag, pre, ms, mid, mtag) && mpre == []
    requires var core := Core(sum, m, mtag, mpre); Committable(m) && Holds(blk, mid, core) && mid + |core| + m.pad <= |blk|
    ensures Written(sum, blk, off, ptag, pre, ms + [m], mid + |Core(sum, m, mtag, mpre)| + m.pad, EndTag(m))
    decreases |ms|
  {
    hide Core;
    hide EndTag;
    if ms != [] {
      var next := off + |Core(sum, ms[0], ptag, pre)| + ms[0].pad;
      assert (ms + [m])[1..] == ms[1..] + [m];
      WrittenMore(sum, blk, next, EndTag(ms[0]), [], ms[1..], mid, mtag, mpre, m);
    } else {
      assert (ms + [m])[1..] == [];
    }
  }

  /** The tags of commits in a row. */
  function TagsOf(sum: Sum, ms: seq<Commit>): seq<Rec>
  {
    if ms == [] then [] else AllRecs(sum, ms[0]) + [CrcRec(ms[0])] + TagsOf(sum, ms[1..])
  }

  /** A fetch that arrives at commits in a row accepts them all. */
  lemma {:induction false} WrittenIsScanned(sum: Sum, blk: seq<byte>, s: Scanning, ms: seq<Commit>, fin: nat, ftag: Word)
    requires FourBytes(sum) && ms != [] && Written(sum, blk, s.off, s.ptag, s.summed, ms, fin, ftag)
    requires s.pending == [] && s.ptag.body < BODIES
    ensures Scan(sum, blk, s) ==
            Scan(sum, blk, Scanning(fin, ftag, [], [], Fetched(fin, ftag, s.acc.log + TagsOf(sum, ms), false)))
    decreases |ms|
  {
    hide Scan;
    hide Core;
    hide AllRecs;
    hide EndTag;
    var a := AfterCommit(sum, s, ms[0]);
    ScanCommit(sum, blk, s, ms[0]);
    EndTagBound(sum, ms[0]);
    var own, log := AllRecs(sum, ms[0]) + [CrcRec(ms[0])], s.acc.log;
    assert a.acc.log == log + own;
    if |ms| > 1 {
      WrittenIsScanned(sum, blk, a, ms[1..], fin, ftag);
      assert (log + own) + TagsOf(sum, ms[1..]) == log + (own + TagsOf(sum, ms[1..]));
    } else {
      assert TagsOf(sum, ms) == own + TagsOf(sum, []);
      assert own + [] == own;
    }
  }

  lemma EndTagBound(sum: Sum, m: Commit)
    requires Committable(m)
    ensures EndTag(m).body < BODIES
  {
    MakeBound(CrcHead(m));
  }

  // ---------------------------------------------------------------- the commit being written

  datatype Code = Ok | NoSpace | Corrupt

  lemma OverHolds(blk: seq<byte>, begin: nat, a: seq<byte>, s: seq<byte>)
    requires Holds(blk, begin, a) && begin + |a| + |s| <= |blk|
    ensures Holds(Patched(blk, begin + |a|, s), begin, a + s)
    ensures Patched(blk, begin + |a|, s)[..begin + |a|] == blk[..begin + |a|]
    ensures Patched(blk, begin + |a|, s)[begin + |a| + |s|..] == blk[begin + |a| + |s|..]
  {
    var r := Patched(blk, begin + |a|, s);
    assert r[begin..begin + |a + s|] == blk[begin..begin + |a|] + s;
  }

  /** Between begin and off the block holds the tags of the unfinished commit, and the checksum
      covers them and pre. */
  predicate Unfinished(image: seq<byte>, off: nat, ptag: Word, crc: bv32, begin: nat, tag0: Word, pre: seq<byte>, recs: seq<Rec>)
  {
    var bytes := Encode(recs, tag0);
    && off == begin + |bytes| && off <= |image| && Holds(image, begin, bytes) && EncodableLog(recs)
    && ptag == LastTag(recs, tag0) && tag0.body < BODIES && crc == Crc.CrcBits(0xffff_ffff, pre + bytes)
  }

  // only what is between from and upto may differ
  predicate Between(a: seq<byte>, b: seq<byte>, from: nat, upto: nat)
  {
    |a| == |b| && from <= upto <= |a| && a[..from] == b[..from] && a[upto..] == b[upto..]
  }

  lemma BetweenTwice(a: seq<byte>, b: seq<byte>, c: seq<byte>, from: nat, mid: nat, upto: nat)
    requires Between(a, b, from, mid) && Between(b, c, mid, upto)
    ensures Between(a, c, from, upto)
  {
    assert c[..from] == c[..mid][..from] && b[..from] == b[..mid][..from];
    assert a[upto..] == a[mid..][upto - mid..] && b[upto..] == b[mid..][upto - mid..];
  }

  lemma OneMore(image: seq<byte>, off: nat, ptag: Word, crc: bv32, begin: nat, tag0: Word, pre: seq<byte>, recs: seq<Rec>, r: Rec)
    requires Unfinished(image, off, ptag, crc, begin, tag0, pre, recs) && Encodable(r) && off + Dsize(RecHead(r)) <= |image|
    ensures var bytes := EncodeOne(r, ptag);
            && |bytes| == Dsize(RecHead(r))
            && Unfinished(Patched(image, off, bytes), off + |bytes|, Make(RecHead(r)), Crc.CrcBits(crc, bytes), begin, tag0, pre, recs + [r])
            && Between(image, Patched(image, off, bytes), off, off + |bytes|)
  {
    hide Make;
    hide Write;
    hide Chain;
    hide Encode;
    hide LastTag;
    hide Crc.CrcBits;
    var bytes, all := EncodeOne(r, ptag), Encode(recs, tag0);
    EncodeMore(recs, r, tag0);
    OverHolds(image, begin, all, bytes);
    Crc.CrcConcat(0xffff_ffff, pre + all, bytes);
    assert pre + all + bytes == pre + (all + bytes);
  }

  lemma NoneYet(image: seq<byte>, off: nat, tag0: Word, pre: seq<byte>)
    requires off <= |image| && tag0.body < BODIES
    ensures Unfinished(image, off, tag0, Crc.CrcBits(0xffff_ffff, pre), off, tag0, pre, [])
  {
    assert pre + [] == pre;
  }

  class Writer {
    const prog: nat
    const end: nat
    // where the commit begins, and what its checksum covers besides
    const start: nat
    const rev: seq<byte>
    // the block as it is going to be on the disk
    var image: seq<byte>
    var off: nat
    var ptag: Word
    var crc: bv32
    // the unfinished commit: where it starts, the tag before it, what is under its checksum
    // besides, and its tags
    ghost var begin: nat
    ghost var tag0: Word
    ghost var pre: seq<byte>
    ghost var recs: seq<Rec>

    /** An append behind the last commit, or the first commit of a block behind its revision. */
    constructor (prog: nat, end: nat, image: seq<byte>, off: nat, etag: Word, rev: seq<byte>)
      requires prog > 0 && Multiple(|image|, prog) && |image| < U32 && end + 8 <= |image| && off <= |image|
      requires etag.body < BODIES
      ensures Valid() && this.prog == prog && this.end == end && this.image == image && this.off == off
      ensures begin == start == off && tag0 == etag && pre == this.rev == rev && recs == []
    {
      this.prog, this.end, this.image, this.off, this.ptag, this.start, this.rev := prog, end, image, off, etag, off, rev;
      begin, tag0, pre, recs := off, etag, rev, [];
      var c := Crc.ComputeCrc(0xffff_ffff, rev);
      this.crc := c;
      NoneYet(image, off, etag, rev);
    }

    ghost predicate Valid()
      reads this
    {
      && prog > 0 && Multiple(|image|, prog) && |image| < U32 && end + 8 <= |image|
      && Unfinished(image, off, ptag, crc, begin, tag0, pre, recs)
    }

    // programs bytes at the end of the commit, under the checksum
    method Prog(bytes: seq<byte>)
      requires off + |bytes| <= |image|
      modifies this`image, this`crc, this`off
      ensures image == Patched(old(image), old(off), bytes) && crc == Crc.CrcBits(old(crc), bytes) && off == old(off) + |bytes|
    {
      image := Patched(image, off, bytes);
      crc := Crc.ComputeCrc(crc, bytes);
      off := off + |bytes|;
    }

    /** One tag with its payload, if both fit. */
    method Attr(r: Rec) returns (c: Code)
      requires Valid() && Encodable(r)
      modifies this`image, this`off, this`ptag, this`crc, this`recs
      ensures Valid() && c == if old(off) + Dsize(RecHead(r)) > end then NoSpace else Ok
      ensures c == NoSpace ==> recs == old(recs) && image == old(image) && off == old(off)
      ensures c == Ok ==> recs == old(recs) + [r] && off == old(off) + Dsize(RecHead(r))
      ensures Between(old(image), image, old(off), off) && |image| == |old(image)|
    {
      hide Unfinished;
      hide EncodeOne;
      hide Patched;
      hide Crc.CrcBits;
      var dsize := Dsize(RecHead(r));
      if off + dsize > end {
        InBlock(image, off, ptag, crc, begin, tag0, pre, recs);
        return NoSpace;
      }
      OneMore(image, off, ptag, crc, begin, tag0, pre, recs, r);
      Prog(EncodeOne(r, ptag));
      ptag := Make(RecHead(r));
      recs := recs + [r];
      return Ok;
    }

    /** All tags of an update, or as many as fit. */
    method Attrs(rs: seq<Rec>) returns (c: Code)
      requires Valid() && EncodableLog(rs)
      modifies this`image, this`off, this`ptag, this`crc, this`recs
      ensures Valid() && Between(old(image), image, old(off), off) && |image| == |old(image)| && (c == Ok || c == NoSpace)
      ensures c == Ok <==> rs == [] || old(off) + Size(rs) <= end
      ensures c == Ok ==> off == old(off) + Size(rs)
      ensures c == Ok ==> recs == old(recs) + rs && (rs != [] ==> off <= end)
      ensures c == NoSpace ==> exists i :: 0 <= i < |rs| && recs == old(recs) + rs[..i] && off + Dsize(RecHead(rs[i])) > end
    {
      hide Unfinished;
      hide Between;
      hide Encodable;
      hide Size;
      hide Dsize;
      SizeNone();
      var i: nat := 0;
      assert rs[..0] == [];
      InBlock(image, off, ptag, crc, begin, tag0, pre, recs);
      while i < |rs|
        invariant i <= |rs| && Valid() && recs == old(recs) + rs[..i] && off == old(off) + Size(rs[..i]) && (i > 0 ==> off <= end)
        invariant Between(old(image), image, old(off), off) && |image| == |old(image)|
      {
        ghost var was, o := image, off;
        c := Attr(rs[i]);
        SizeStep(rs, i);
        BetweenTwice(old(image), was, image, old(off), o, off);
        if c != Ok {
          assert recs == old(recs) + rs[..i] && off + Dsize(RecHead(rs[i])) > end;
          return NoSpace;
        }
        assert rs[..i + 1] == rs[..i] + [rs[i]];
        i := i + 1;
      }
      assert rs[..i] == rs;
      return Ok;
    }

    /** The checksum tag that completes commit m and describes the padding up to noff. */
    method CrcTag(noff: nat, eperturb: byte, ghost m: Commit) returns (off1: nat, crc1: bv32)
      requires Valid() && Completes(m, recs, off, noff) && noff <= |image|
      requires High(eperturb) <==> m.erased == [] || High(m.erased[0])
      modifies this
      ensures Valid() && off == begin == noff && recs == [] && pre == [] && ptag == tag0 == EndTag(m) && Committable(m)
      ensures Holds(image, old(begin), Core(Crc32, m, old(tag0), old(pre)))
      ensures old(begin) + |Core(Crc32, m, old(tag0), old(pre))| + m.pad == noff
      ensures Between(old(image), image, old(off), noff) && |image| == |old(image)|
      ensures off1 == old(off) + 4 && off1 + 4 <= noff && Checks(image, old(begin), old(pre), off1, crc1)
    {
      hide Unfinished;
      hide Write;
      hide Chain;
      hide Make;
      hide Crc.CrcBits;
      hide Core;
      hide Patched;
      hide EndTag;
      hide Encode;
      hide AllRecs;
      InBlock(image, off, ptag, crc, begin, tag0, pre, recs);
      var ntag := Make(Head(CCRC + (if High(eperturb) then 0 else 1), 0x3ff, noff - (off + 4)));
      var word := Write(Chain(ntag, ptag));
      var sum := Crc.ComputeCrc(crc, word);
      OneCrc(image, off, ptag, crc, begin, tag0, pre, recs, m, word, sum, noff);
      image := Patched(image, off, word + Le32(sum));
      off1, crc1 := off + 4, sum;
      off, ptag, crc := noff, if High(eperturb) then ntag else Flip(ntag), 0xffff_ffff;
      begin, tag0, pre, recs := noff, ptag, [], [];
      NoneYet(image, noff, ptag, []);
      Crc.CrcOfNothing(0xffff_ffff);
    }

    /** One checksum tag: as far as a tag can describe, and a forward checksum of the next program
        unit if this is the last one and there is such a unit. */
    method Turn(e: nat) returns (c: Code, off1: nat, crc1: bv32, ghost m: Commit)
      requires Valid() && Room(off, e, |image|) && off < e
      modifies this
      ensures Valid() && |image| == |old(image)| && (c == Ok || c == NoSpace)
      ensures c == NoSpace <==> Reach(old(off), e) == e && e + prog <= |image| && old(off) + 12 > end
      ensures c == Ok ==> off == Reach(old(off), e)
      ensures c == Ok ==>
                && off == begin && recs == [] && pre == [] && ptag == tag0 == EndTag(m) && Committable(m)
                && Holds(image, old(begin), Core(Crc32, m, old(tag0), old(pre)))
                && old(begin) + |Core(Crc32, m, old(tag0), old(pre))| + m.pad == off
                && Between(old(image), image, old(off), off) && old(off) < off <= e && Room(off, e, |image|)
                && m.recs == old(recs) && Forward(m, image, off, e, prog)
                && old(off) < off1 && off1 + 4 <= off && Checks(image, old(begin), old(pre), off1, crc1)
    {
      hide Unfinished;
      hide Core;
      hide EndTag;
      hide Checks;
      hide Crc32;
      hide Between;
      hide Holds;
      hide Completes;
      hide Committable;
      ghost var image0, off0, recs0 := image, off, recs;
      InBlock(image, off, ptag, crc, begin, tag0, pre, recs);
      var noff: nat := Min(e - (off + 4), 0x3fe) + (off + 4);
      if noff < e {
        noff := Min(noff, e - 20);
      }
      var eperturb;
      c, eperturb, m := ForwardTag(noff, e);
      if c != Ok {
        return NoSpace, 0, 0, m;
      }
      ghost var image1, off2 := image, off;
      off1, crc1 := CrcTag(noff, eperturb, m);
      BetweenTwice(image0, image1, image, off0, off2, off);
      StillThere(image1, image, off2, off, off, off + |m.erased|);
      return Ok, off1, crc1, m;
    }

    // a forward checksum, if the commit reaches the end of a unit and another one follows
    method ForwardTag(noff: nat, e: nat) returns (c: Code, eperturb: byte, ghost m: Commit)
      requires Valid() && Room(off, e, |image|) && off + 8 <= noff <= e && noff - off - 4 <= 0x3fe && (noff < e ==> noff + 20 <= e)
      modifies this`image, this`off, this`ptag, this`crc, this`recs
      ensures Valid() && |image| == |old(image)| && Between(old(image), image, old(off), off)
      ensures (c == Ok || c == NoSpace) && off >= old(off)
      ensures c == NoSpace <==> noff >= e && noff + prog <= |image| && old(off) + 12 > end
      ensures c == Ok ==> Completes(m, recs, off, noff) && m.recs == old(recs) && Forward(m, image, noff, e, prog)
      ensures c == Ok ==> (High(eperturb) <==> m.erased == [] || High(m.erased[0]))
    {
      hide Unfinished;
      hide Between;
      hide Crc32;
      hide Encodable;
      ghost var image0, off0 := image, off;
      InBlock(image, off, ptag, crc, begin, tag0, pre, recs);
      eperturb := 0xff;
      m := Commit(recs, [], noff - off - 8);
      if noff >= e && noff + prog <= |image| {
        eperturb := image[noff];
        var unit := image[noff..noff + prog];
        m := Commit(recs, unit, noff - off - 20);
        ForwardFits(prog, unit);
        c := Attr(Rec(FCRC, 0x3ff, 8, Digits(prog) + Crc32(unit)));
        if c != Ok {
          return NoSpace, eperturb, m;
        }
        StillThere(image0, image, off0, off, noff, noff + prog);
      }
      return Ok, eperturb, m;
    }

    /** Completes the commit and aligns its end to a program unit, with as many checksum tags as
        that takes; then the commit is read back. What is written are commits in a row, of which
        only the first carries anything and only the last describes the unit behind it. */
    method CommitCrc() returns (c: Code, ghost ms: seq<Commit>)
      requires Valid() && off <= end && begin == start && pre == rev
      modifies this
      ensures (c == Ok || c == NoSpace) && |image| == |old(image)|
      ensures c == NoSpace <==> !CrcFits(prog, end, |image|, old(off), UnitOf(prog, |image|, old(off)))
      ensures c == Ok ==> off == UnitOf(prog, |image|, old(off))
      ensures c == Ok ==>
                && Valid() && ms != [] && Written(Crc32, image, old(begin), old(tag0), old(pre), ms, off, ptag)
                && Between(old(image), image, old(off), off) && Multiple(off, prog)
                && ms[0].recs == old(recs) && OnlyFirst(ms) && OnlyLast(ms)
                && Frontier(image, off, ms[|ms| - 1])
    {
      hide Unfinished;
      hide Core;
      hide EndTag;
      hide Checks;
      hide Between;
      hide Written;
      hide LastTurn;
      hide Reach;
      hide AlignUp;
      InBlock(image, off, ptag, crc, begin, tag0, pre, recs);
      var e := AlignUp(Min(off + 20, |image|), prog);
      UnitEnd(off, |image|, prog, e);
      ghost var last := LastTurn(off, e);
      ms := [];
      ghost var b0, t0, p0 := begin, tag0, pre;
      var off1: nat, crc1: bv32 := 0, 0;
      while off < e
        invariant Valid() && |image| == |old(image)| && Room(off, e, |image|) && old(off) <= off <= e
        invariant off1 == 0 <==> ms == []
        invariant if off < e then LastTurn(off, e) == last else e + prog <= |image| ==> last + 12 <= end
        invariant ms == [] ==> off == old(off) && begin == b0 && tag0 == t0 && pre == p0 && recs == old(recs) && image == old(image)
        invariant ms != [] ==>
                    && begin == off && recs == [] && pre == [] && tag0 == ptag
                    && Written(Crc32, image, b0, t0, p0, ms, off, ptag) && Between(old(image), image, old(off), off)
                    && ms[0].recs == old(recs) && OnlyFirst(ms) && OnlyLast(ms)
                    && Forward(ms[|ms| - 1], image, off, e, prog) && (off < e ==> ms[|ms| - 1].erased == [])
                    && off1 + 4 <= off && Checks(image, b0, p0, off1, crc1)
        decreases e - off
      {
        LastTurnStep(off, e);
        ghost var image0, off0, begin0, tag1, pre1 := image, off, begin, tag0, pre;
        var o, k;
        ghost var m;
        c, o, k, m := Turn(e);
        if c != Ok {
          return NoSpace, ms;
        }
        ghost var before := ms;
        AddTurn(old(image), image0, image, old(off), off0, off, b0, t0, p0, ms, begin0, tag1, pre1, m);
        if off1 == 0 {
          off1, crc1 := o, k;
        } else {
          ChecksKept(image0, image, off0, off, b0, p0, off1, crc1);
        }
        ms := ms + [m];
      }
      ChecksFit(image, b0, p0, off1, crc1);
      var sound := Verify(image, start, rev, off1, crc1);
      return if sound then Ok else Corrupt, ms;
    }
  }

  // commit m has these tags, and its checksum tag, at off, reaches up to noff
  predicate Completes(m: Commit, recs: seq<Rec>, off: nat, noff: nat)
  {
    && recs == AllRecs(Crc32, m) && EncodableLog(m.recs) && |m.erased| < U32
    && off + 8 <= noff && noff - off - 4 <= 0x3fe && m.pad == noff - off - 8
  }

  /** What the verification of a commit looks at: the checksum up to off1, and the one stored
      there. */
  predicate Checks(image: seq<byte>, begin: nat, pre: seq<byte>, off1: nat, crc1: bv32)
  {
    && begin <= off1 && off1 + 4 <= |image|
    && crc1 == Crc.CrcBits(0xffff_ffff, pre + image[begin..off1]) && image[off1..off1 + 4] == Le32(crc1)
  }

  lemma OneCrc(image: seq<byte>, off: nat, ptag: Word, crc: bv32, begin: nat, tag0: Word, pre: seq<byte>, recs: seq<Rec>,
               m: Commit, word: seq<byte>, sum: bv32, noff: nat)
    requires Unfinished(image, off, ptag, crc, begin, tag0, pre, recs) && Completes(m, recs, off, noff) && noff <= |image|
    requires word == Write(Chain(Make(CrcHead(m)), ptag)) && sum == Crc.CrcBits(crc, word)
    ensures off + 8 <= |image| && Committable(m) && EndTag(m).body < BODIES
    ensures EndTag(m) == if CrcHead(m).kind == CCRC then Make(CrcHead(m)) else Flip(Make(CrcHead(m)))
    ensures CrcHead(m).size == noff - (off + 4)
    ensures var core, r := Core(Crc32, m, tag0, pre), Patched(image, off, word + Le32(sum));
            && Holds(r, begin, core) && begin + |core| + m.pad == noff && Between(image, r, off, noff)
            && Checks(r, begin, pre, off + 4, sum)
  {
    hide Crc.CrcBits;
    hide Write;
    hide Chain;
    hide Make;
    hide Encode;
    hide AllRecs;
    hide Patched;
    var e, s := Encode(recs, tag0), Le32(sum);
    EndTagBound(Crc32, m);
    EndTagIs(m);
    Crc.CrcConcat(0xffff_ffff, pre + e, word);
    OverHolds(image, begin, e, word + s);
    CoreIs(m, tag0, pre, e, word, s);
    HoldsParts(Patched(image, off, word + s), begin, e + word, s);
    assert pre + e + word == pre + (e + word);
    BetweenWider(image, Patched(image, off, word + s), off, off + 8, noff);
  }

  lemma CoreIs(m: Commit, tag0: Word, pre: seq<byte>, e: seq<byte>, word: seq<byte>, s: seq<byte>)
    requires e == Encode(AllRecs(Crc32, m), tag0) && word == CrcWord(Crc32, m, tag0) && s == Crc32(pre + e + word)
    ensures Core(Crc32, m, tag0, pre) == e + (word + s) == e + word + s
  {}

  lemma EndTagIs(m: Commit)
    requires Committable(m)
    ensures EndTag(m) == if CrcHead(m).kind == CCRC then Make(CrcHead(m)) else Flip(Make(CrcHead(m)))
  {
    MakeHead(CrcHead(m));
  }

  lemma BetweenWider(a: seq<byte>, b: seq<byte>, from: nat, mid: nat, upto: nat)
    requires Between(a, b, from, mid) && mid <= upto <= |a|
    ensures Between(a, b, from, upto)
  {
    assert a[upto..] == a[mid..][upto - mid..] && b[upto..] == b[mid..][upto - mid..];
  }

  /** Reading a commit back: the checksum up to off1 must be crc1, and going on over the four
      bytes stored there must give zero. That is to say that crc1 is stored there. */
  method Verify(image: seq<byte>, start: nat, rev: seq<byte>, off1: nat, crc1: bv32) returns (sound: bool)
    requires start <= off1 && off1 + 4 <= |image|
    ensures sound <==> Checks(image, start, rev, off1, crc1)
  {
    hide Crc.CrcBits;
    Crc.CrcConcat(0xffff_ffff, rev, image[start..off1]);
    var crc := Crc.ComputeCrc(0xffff_ffff, rev);
    crc := Crc.ComputeCrc(crc, image[start..off1]);
    if crc != crc1 {
      return false;
    }
    Crc.CrcOfStoredCrc(crc, image[off1..off1 + 4]);
    crc := Crc.ComputeCrc(crc, image[off1..off1 + 4]);
    return crc == 0;
  }

  lemma AddTurn(orig: seq<byte>, image0: seq<byte>, image: seq<byte>, start: nat, off0: nat, off: nat, b0: nat, t0: Word, p0: seq<byte>,
                ms: seq<Commit>, begin0: nat, tag1: Word, pre1: seq<byte>, m: Commit)
    requires if ms == [] then begin0 == b0 && tag1 == t0 && pre1 == p0 && off0 == start && image0 == orig && start <= |orig|
             else begin0 == off0 && Written(Crc32, image0, b0, t0, p0, ms, off0, tag1) && pre1 == [] && Between(orig, image0, start, off0)
    requires Committable(m) && Holds(image, begin0, Core(Crc32, m, tag1, pre1)) && begin0 + |Core(Crc32, m, tag1, pre1)| + m.pad == off
    requires Between(image0, image, off0, off)
    ensures Written(Crc32, image, b0, t0, p0, ms + [m], off, EndTag(m)) && Between(orig, image, start, off)
  {
    hide Core;
    hide EndTag;
    hide Written;
    hide Committable;
    hide Crc32;
    if ms != [] {
      WrittenBefore(Crc32, image0, image, b0, t0, p0, ms, off0, tag1);
      BetweenTwice(orig, image0, image, start, off0, off);
    }
    WrittenMore(Crc32, image, b0, t0, p0, ms, begin0, tag1, pre1, m);
  }

  lemma ChecksFit(image: seq<byte>, begin: nat, pre: seq<byte>, off1: nat, crc1: bv32)
    requires Checks(image, begin, pre, off1, crc1)
    ensures begin <= off1 && off1 + 4 <= |image|
  {}

  lemma ChecksKept(image0: seq<byte>, image: seq<byte>, from: nat, upto: nat, begin: nat, pre: seq<byte>, off1: nat, crc1: bv32)
    requires Checks(image0, begin, pre, off1, crc1) && Between(image0, image, from, upto) && off1 + 4 <= from
    ensures Checks(image, begin, pre, off1, crc1)
  {
    SameSlice(image0, image, from, begin, off1);
    SameSlice(image0, image, from, off1, off1 + 4);
  }

  // room for a checksum tag, and for a forward checksum before it if a unit follows
  predicate Room(off: nat, e: nat, size: nat)
  {
    e <= size && (off == e || (off + 8 <= e && (e == size || off + 20 <= e)))
  }

  // the last commit describes the unit behind it, if there is one
  predicate Forward(m: Commit, image: seq<byte>, off: nat, e: nat, prog: nat)
  {
    if off == e && off + prog <= |image| then prog > 0 && m.erased == image[off..off + prog] else m.erased == []
  }

  predicate OnlyFirst(ms: seq<Commit>) { forall i :: 1 <= i < |ms| ==> ms[i].recs == [] }

  predicate OnlyLast(ms: seq<Commit>) { forall i :: 0 <= i < |ms| - 1 ==> ms[i].erased == [] }

  lemma UnitEnd(off: nat, size: nat, prog: nat, e: nat)
    requires prog > 0 && Multiple(size, prog) && off + 8 <= size && e == AlignUp(Min(off + 20, size), prog)
    ensures Room(off, e, size) && off < e && Multiple(e, prog) && (e + prog > size ==> e == size)
  {
    if e > size { MultipleGap(size, e, prog); }
    if e < size { MultipleGap(e, size, prog); }
  }

  // bytes behind what changed
  lemma StillThere(a: seq<byte>, b: seq<byte>, from: nat, upto: nat, lo: nat, hi: nat)
    requires Between(a, b, from, upto) && upto <= lo <= hi <= |a|
    ensures a[lo..hi] == b[lo..hi]
  {
    Behind(a, upto, lo, hi);
    Behind(b, upto, lo, hi);
  }

  lemma Behind(a: seq<byte>, upto: nat, lo: nat, hi: nat)
    requires upto <= lo <= hi <= |a|
    ensures a[upto..][lo - upto..hi - upto] == a[lo..hi]
  {
    var x, y := a[upto..][lo - upto..hi - upto], a[lo..hi];
    assert |x| == |y| && forall k :: 0 <= k < |x| ==> x[k] == y[k];
  }

  lemma ForwardFits(prog: nat, unit: seq<byte>)
    requires |unit| == prog < U32
    ensures Encodable(Rec(FCRC, 0x3ff, 8, Digits(prog) + Crc32(unit))) && Dsize(RecHead(Rec(FCRC, 0x3ff, 8, Digits(prog) + Crc32(unit)))) == 12
  {}

  lemma InBlock(image: seq<byte>, off: nat, ptag: Word, crc: bv32, begin: nat, tag0: Word, pre: seq<byte>, recs: seq<Rec>)
    requires Unfinished(image, off, ptag, crc, begin, tag0, pre, recs)
    ensures begin <= off <= |image| && Between(image, image, off, off) && tag0.body < BODIES && EncodableLog(recs)
  {}

  // ---------------------------------------------------------------- what a fetch makes of it

  /** What CommitCrc leaves behind a fetched directory: the fetch of the new image finds all the
      tags of the update, and stops at the end of the program unit. */
  lemma CommitIsFetched(image0: seq<byte>, image: seq<byte>, f: Fetched, ms: seq<Commit>, fin: nat, ftag: Word)
    requires |image0| >= 4 && f == FetchBlock(Crc32, image0) && f.off > 4 && SoundCrcs(f.log) && f.etag.body < BODIES
    requires f.off <= |image0| == |image| && image[..f.off] == image0[..f.off]
    requires ms != [] && Written(Crc32, image, f.off, f.etag, [], ms, fin, ftag) && Frontier(image, fin, ms[|ms| - 1])
    ensures var g := FetchBlock(Crc32, image); SameLog(g, fin, ftag, f.log + TagsOf(Crc32, ms), image)
  {
    hide Scan;
    hide Step;
    hide Core;
    hide TagsOf;
    hide Written;
    SameSlice(image0, image, f.off, 0, 4);
    ScanSamePrefix(Crc32, image0, image, ScanStart(image0), f);
    RowIsFetched(image, At(f), ms, fin, ftag);
  }

  lemma RowIsFetched(image: seq<byte>, s: Scanning, ms: seq<Commit>, fin: nat, ftag: Word)
    requires s.pending == [] && s.ptag.body < BODIES
    requires ms != [] && Written(Crc32, image, s.off, s.ptag, s.summed, ms, fin, ftag) && Frontier(image, fin, ms[|ms| - 1])
    ensures SameLog(Scan(Crc32, image, s), fin, ftag, s.acc.log + TagsOf(Crc32, ms), image)
  {
    hide Scan;
    hide Step;
    hide Core;
    hide TagsOf;
    hide Written;
    WrittenIsScanned(Crc32, image, s, ms, fin, ftag);
    WrittenEnds(Crc32, image, s.off, s.ptag, s.summed, ms, fin, ftag);
    var t := Scanning(fin, ftag, [], [], Fetched(fin, ftag, s.acc.log + TagsOf(Crc32, ms), false));
    FrontierStops(Crc32, image, t, ms[|ms| - 1]);
  }

  predicate SameLog(g: Fetched, fin: nat, ftag: Word, log: seq<Rec>, image: seq<byte>)
  {
    g == Fetched(fin, ftag, log, fin + 4 <= |image|)
  }

  lemma {:induction false} WrittenEnds(sum: Sum, blk: seq<byte>, off: nat, ptag: Word, pre: seq<byte>,
                                       ms: seq<Commit>, fin: nat, ftag: Word)
    requires ms != [] && Written(sum, blk, off, ptag, pre, ms, fin, ftag)
    ensures ftag == EndTag(ms[|ms| - 1]) && Committable(ms[|ms| - 1])
    decreases |ms|
  {
    hide Core;
    hide EndTag;
    if |ms| > 1 {
      WrittenEnds(sum, blk, off + |Core(sum, ms[0], ptag, pre)| + ms[0].pad, EndTag(ms[0]), [], ms[1..], fin, ftag);
    } else {
      assert ms[1..] == [];
    }
  }
}
