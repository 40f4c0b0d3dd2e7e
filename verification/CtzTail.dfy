/** The last block of a file that is being written: how appending bytes, moving the block and
    reading a range act on the contents. */
module CtzTail {
  import opened Words
  import opened Arith
  import opened Ctz
  import opened BlockDevice
  import opened BlockProg
  import opened CtzList
  import opened CtzExtend

  /** Position pos is at offset off of block n, or just behind the block. */
  predicate Edge(bs: nat, n: nat, pos: nat, off: nat)
  {
    Start(bs, n) <= pos && off == pos - Start(bs, n) + Header(n) && off <= bs
  }

  lemma EdgeIndex(bs: nat, n: nat, pos: nat, off: nat)
    requires MIN_BLOCK <= bs < U32 && pos < U32 && Edge(bs, n, pos, off)
    ensures off < bs ==> Index(bs, pos) == (n, off)
    ensures off > Header(n) ==> pos > 0 && Index(bs, pos - 1) == (n, off - 1) && Length(bs, pos) == n + 1
  {
    hide Index;
    if off < bs { IndexIs(bs, pos, n, off); }
    if off > Header(n) {
      StartFromZero(bs, n);
      IndexIs(bs, pos - 1, n, off - 1);
    }
  }

  lemma StartFromZero(bs: nat, n: nat)
    requires MIN_BLOCK <= bs
    ensures Start(bs, n) >= 0
  {
    hide Popc;
    hide Start;
    if n > 0 {
      StartClosed(bs - 8, n);
      MulStep(bs - 8, 0, n);
    } else {
      StartOfFirst(bs);
    }
  }

  lemma IndexEdge(bs: nat, pos: nat)
    requires MIN_BLOCK <= bs < U32 && pos < U32
    ensures Edge(bs, Index(bs, pos).0, pos, Index(bs, pos).1) && Index(bs, pos).1 < bs
  {
    hide Index;
    IndexCorrect(bs, pos);
  }

  /** A list whose last block, unlike the others, is still growing. */
  predicate Tail(bs: nat, v: Disk, chain: seq<int>, pos: nat, off: nat)
  {
    && Listed(bs, v, chain) && chain != [] && chain[|chain| - 1] !in chain[..|chain| - 1]
    && Edge(bs, |chain| - 1, pos, off)
  }

  function Front(chain: seq<int>): seq<int>
    requires chain != []
  {
    chain[..|chain| - 1]
  }

  // the last block moves to block, where piece is appended
  predicate Moved(v0: Disk, v1: Disk, chain: seq<int>, block: int, off: nat, piece: seq<byte>)
  {
    && chain != [] && chain[|chain| - 1] in v0 && block in v1 && 0 <= block < U32
    && block !in Front(chain) && SameOn(v0, v1, Front(chain))
    && Wrote(v0[chain[|chain| - 1]], v1[block], off, piece)
  }

  lemma TailMoved(bs: nat, v0: Disk, v1: Disk, chain: seq<int>, block: int, pos: nat, off: nat, piece: seq<byte>)
    requires MIN_BLOCK <= bs < U32 && Tail(bs, v0, chain, pos, off) && Moved(v0, v1, chain, block, off, piece)
    ensures Tail(bs, v1, Front(chain) + [block], pos + |piece|, off + |piece|)
  {
    hide Slot;
    hide Linked;
    hide CtzOf;
    hide Start;
    var n := |chain| - 1;
    var chain' := Front(chain) + [block];
    assert chain'[..n] == Front(chain);
    assert v1[block][..off] == v0[chain[n]][..off] by { WrotePrefix(v0[chain[n]], v1[block], off, piece); }
    forall i | 0 <= i < |chain'|
      ensures chain'[i] in v1 && 0 <= chain'[i] < U32 && |v1[chain'[i]]| == bs && Linked(v1[chain'[i]], chain', i)
    {
      if i < n {
        assert Front(chain)[i] == chain[i];
        LinkedFront(v1[chain[i]], chain, chain', i);
      } else {
        LinkedCopy(v0[chain[n]], v1[block], chain, n, off);
        LinkedFront(v1[block], chain, chain', n);
      }
    }
  }

  lemma WrotePrefix(v0: seq<byte>, v1: seq<byte>, off: nat, piece: seq<byte>)
    requires Wrote(v0, v1, off, piece)
    ensures v1[..off] == v0[..off] && v1[off..off + |piece|] == piece
  {
    assert v1[..off] == v1[..off + |piece|][..off];
    assert v1[off..off + |piece|] == v1[..off + |piece|][off..];
  }

  // where the positions before and behind the edge are
  lemma BeforeEdge(bs: nat, n: nat, pos: nat, off: nat, q: nat)
    requires MIN_BLOCK <= bs < U32 && Edge(bs, n, pos, off) && q < U32
    ensures q < pos ==> Index(bs, q).0 <= n && (Index(bs, q).0 == n ==> Index(bs, q).1 < off)
    ensures pos <= q < pos + (bs - off) ==> Index(bs, q) == (n, off + (q - pos))
  {
    hide Index;
    IndexCorrect(bs, q);
    var m := Index(bs, q).0;
    if q < pos {
      if m > n { LaterStart(bs - 8, q, n, m); }
    } else if q < pos + (bs - off) {
      IndexIs(bs, q, n, off + (q - pos));
    }
  }

  lemma DataMoved(bs: nat, v0: Disk, v1: Disk, chain: seq<int>, block: int, pos: nat, off: nat, piece: seq<byte>)
    requires MIN_BLOCK <= bs < U32 && Tail(bs, v0, chain, pos, off) && Moved(v0, v1, chain, block, off, piece) && pos + |piece| < U32
    ensures Data(bs, v1, Front(chain) + [block], pos + |piece|) == Data(bs, v0, chain, pos) + piece
  {
    hide Index;
    hide Linked;
    hide Edge;
    var n := |chain| - 1;
    var chain' := Front(chain) + [block];
    var d := Data(bs, v0, chain, pos) + piece;
    WrotePrefix(v0[chain[n]], v1[block], off, piece);
    forall q | 0 <= q < pos + |piece| ensures DataAt(bs, v1, chain', q) == d[q] {
      BeforeEdge(bs, n, pos, off, q);
      var (m, o) := Index(bs, q);
      if q >= pos {
        assert v1[block][o] == v1[block][off..off + |piece|][q - pos];
      } else if m == n {
        assert v1[block][o] == v1[block][..off][o] && v0[chain[n]][o] == v0[chain[n]][..off][o];
      } else {
        assert chain'[m] == chain[m] == Front(chain)[m];
      }
    }
  }

  // ---------------------------------------------------------------- reading a range

  /** A range within one block of a file. */
  lemma DataRange(bs: nat, disk: Disk, chain: seq<int>, size: nat, pos: nat, n: nat, off: nat, k: nat)
    requires MIN_BLOCK <= bs < U32 && size < U32 && Listed(bs, disk, chain) && n < |chain|
    requires Edge(bs, n, pos, off) && off + k <= bs && pos + k <= size
    ensures Data(bs, disk, chain, size)[pos..pos + k] == disk[chain[n]][off..off + k]
  {
    hide Index;
    hide Linked;
    hide Edge;
    var d := Data(bs, disk, chain, size);
    forall q | pos <= q < pos + k ensures d[q] == disk[chain[n]][off + (q - pos)] {
      BeforeEdge(bs, n, pos, off, q);
    }
  }

  /** The front of a file is a file. */
  lemma FrontIsFile(bs: nat, disk: Disk, chain: seq<int>, head: int, size: nat, pos: nat)
    requires IsFile(bs, disk, chain, head, size) && 0 < pos <= size
    ensures 0 < Length(bs, pos) <= |chain|
    ensures var c := chain[..Length(bs, pos)];
            IsFile(bs, disk, c, c[|c| - 1], pos) && Data(bs, disk, c, pos) == Data(bs, disk, chain, size)[..pos]
  {
    hide Index;
    hide Linked;
    IndexMonotone(bs, pos - 1, size - 1);
    var c := chain[..Length(bs, pos)];
    forall i | 0 <= i < |c| ensures Linked(disk[c[i]], c, i) {
      LinkedFront(disk[c[i]], chain, c, i);
    }
    forall q | 0 <= q < pos ensures DataAt(bs, disk, c, q) == DataAt(bs, disk, chain, q) {
      IndexMonotone(bs, q, pos - 1);
    }
  }

  // contents depend on the listed blocks only
  lemma DataSame(bs: nat, d0: Disk, d1: Disk, chain: seq<int>, size: nat)
    requires MIN_BLOCK <= bs < U32 && size < U32 && Listed(bs, d0, chain) && SameOn(d0, d1, chain)
    ensures Listed(bs, d1, chain) && Data(bs, d1, chain, size) == Data(bs, d0, chain, size)
  {
    hide Index;
    hide Linked;
    forall q | 0 <= q < size ensures DataAt(bs, d1, chain, q) == DataAt(bs, d0, chain, q) {
      var n := Index(bs, q).0;
      assert n < |chain| ==> chain[n] in d0 && d1[chain[n]] == d0[chain[n]];
    }
  }

  // ---------------------------------------------------------------- blocks a file has

  lemma EdgeStart(bs: nat, n: nat, pos: nat, off: nat)
    requires MIN_BLOCK <= bs < U32 && pos < U32 && n < MANY && Edge(bs, n, pos, off) && off == bs
    ensures Index(bs, pos) == (n + 1, Header(n + 1))
  {
    hide Index;
    HeaderFits(n);
    EdgeIndex(bs, n, pos, off);
    EndOf(bs, pos);
  }

  /** One more byte needs another block exactly if the last one is full. */
  lemma LengthNext(bs: nat, n: nat, pos: nat, off: nat)
    requires MIN_BLOCK <= bs < U32 && pos + 1 < U32 && n < MANY && Edge(bs, n, pos, off) && off > Header(n)
    ensures Length(bs, pos) == n + 1 && Length(bs, pos + 1) == n + (if off < bs then 1 else 2)
  {
    hide Index;
    EdgeIndex(bs, n, pos, off);
    if off == bs { EdgeStart(bs, n, pos, off); }
  }

  lemma LengthMono(bs: nat, size: nat, size': nat)
    requires MIN_BLOCK <= bs < U32 && size <= size' < U32
    ensures Length(bs, size) <= Length(bs, size')
  {
    hide Index;
    if 0 < size { IndexMonotone(bs, size - 1, size' - 1); }
  }

  // ---------------------------------------------------------------- what a traversal reports

  /** The blocks that hold data of a file being written: not the last one, if nothing was put
      there yet. */
  function Holding(list: seq<int>, off: nat): seq<int>
  {
    if list == [] || off > Header(|list| - 1) then list else Front(list)
  }

  // one of more different values than places has none
  lemma {:induction false} Missing(places: seq<int>, values: seq<int>) returns (x: int)
    requires Distinct(values) && |places| < |values|
    ensures x in values && x !in places
    decreases |places|
  {
    if places == [] {
      return values[0];
    }
    assert places == [places[0]] + places[1..];
    if places[0] in values {
      var i: nat :| i < |values| && values[i] == places[0];
      var rest := values[..i] + values[i + 1..];
      x := Missing(places[1..], rest);
    } else {
      x := Missing(places[1..], values);
    }
  }

  lemma {:induction false} ReversedHas(s: seq<int>, x: int)
    requires x in s
    ensures x in Reversed(s)
  {
    assert s == s[..|s| - 1] + [s[|s| - 1]];
    if x != s[|s| - 1] { ReversedHas(s[..|s| - 1], x); }
  }

  /** Exactly when traversing a file being written by its block and position reports every block
      that holds its data: when something is in the last block, or there is no other. In the
      moment between beginning a block and putting the first byte there it does not. */
  lemma TraverseReportsIff(bs: nat, v: Disk, list: seq<int>, pos: nat, off: nat, visited: seq<int>)
    requires MIN_BLOCK <= bs < U32 && pos < U32 && Listed(bs, v, list) && list != [] && Distinct(list) && Edge(bs, |list| - 1, pos, off)
    // what Traverse(list[|list| - 1], pos) ensures of the visits
    requires |visited| == Length(bs, pos) && (pos > 0 ==> visited[0] == list[|list| - 1])
    requires IsFile(bs, v, list, list[|list| - 1], pos) ==> visited == Reversed(list)
    ensures (forall b :: b in Holding(list, off) ==> b in visited) <==> off > Header(|list| - 1) || |list| == 1
  {
    hide Linked;
    hide Index;
    hide Listed;
    hide Start;
    hide Header;
    hide Edge;
    hide Length;
    var n := |list| - 1;
    ListIsShort(bs, v, list);
    if off > Header(n) {
      EdgeIndex(bs, n, pos, off);
      assert visited == Reversed(list);
      forall b | b in list ensures b in visited { ReversedHas(list, b); }
    } else if n > 0 {
      StartsBlock(bs, n, pos, off);
      // the visits are as many as the blocks in front, and one of them goes to the last block
      var x := Missing(visited[1..], Front(list));
      assert visited == [visited[0]] + visited[1..];
      assert x in Front(list) && x != list[n];
    } else {
      assert Holding(list, off) == [];
    }
  }

  lemma ListIsShort(bs: nat, v: Disk, list: seq<int>)
    requires Listed(bs, v, list)
    ensures |list| <= MANY
  {}

  lemma StartsBlock(bs: nat, n: nat, pos: nat, off: nat)
    requires MIN_BLOCK <= bs < U32 && pos < U32 && 0 < n < MANY && Edge(bs, n, pos, off) && off <= Header(n)
    ensures pos > 0 && Length(bs, pos) == n
  {
    hide Index;
    hide Header;
    hide Start;
    StartFromZero(bs, n - 1);
    HeaderFits(n - 1);
    HeaderFits(n);
    StartStep(bs, n);
    IndexIs(bs, pos - 1, n - 1, bs - 1);
  }

  lemma StartStep(bs: nat, n: nat)
    requires n > 0
    ensures Start(bs, n) == Start(bs, n - 1) + bs - Header(n - 1)
  {}
}
