/** The layout of skip-list files: block n of a file starts with ctz(n)+1 pointers, and
    file positions are laid out in the space that is left. */
module Ctz {
  import opened Words
  import opened Arith

  // ---------------------------------------------------------------- binary digits

  /** Trailing zeros of n. */
  function CtzOf(n: nat): nat
    requires n > 0
  {
    if n % 2 == 1 then 0 else 1 + CtzOf(n / 2)
  }

  /** Ones among the binary digits of n. */
  function Popc(n: nat): nat
  {
    if n == 0 then 0 else Popc(n / 2) + n % 2
  }

  /** Binary digits of n, which is npw2(n+1) for n > 0. */
  function Bits(n: nat): nat
  {
    if n == 0 then 0 else 1 + Bits(n / 2)
  }

  lemma {:induction false} PopcStep(n: nat)
    requires n > 0
    ensures Popc(n) + CtzOf(n) == Popc(n - 1) + 1
  {
    if n % 2 == 1 {
      assert (n - 1) / 2 == n / 2;
    } else {
      PopcStep(n / 2);
      assert (n - 1) / 2 == n / 2 - 1;
    }
  }

  lemma {:induction false} PopcAtMostBits(n: nat, b: nat)
    requires n < Pow2(b)
    ensures Popc(n) <= b
    decreases b
  {
    if n > 0 { PopcAtMostBits(n / 2, b - 1); }
  }

  lemma {:induction false} BitsBound(n: nat)
    requires n > 0
    ensures Pow2(Bits(n) - 1) <= n < Pow2(Bits(n))
  {
    if n > 1 { BitsBound(n / 2); }
  }

  // ---------------------------------------------------------------- the layout

  /** The geometry the code insists on: blocks of at least 128 bytes. */
  const MIN_BLOCK := 128

  // bytes of pointers in block n
  function Header(n: nat): nat { if n == 0 then 0 else 4 * (CtzOf(n) + 1) }

  /** File position of the first data byte of block n: the capacities of the blocks
      before it. */
  function Start(bs: nat, n: nat): int
  {
    if n == 0 then 0 else Start(bs, n - 1) + bs - Header(n - 1)
  }

  // below, b is the block size without the two words that every long file pays per block

  /** Summing the capacities needs only a population count. */
  lemma {:induction false} StartClosed(b: nat, n: nat)
    requires n > 0
    ensures Start(b + 8, n) == n * b + 8 + 4 * Popc(n - 1)
  {
    if n > 1 {
      StartClosed(b, n - 1);
      PopcStep(n - 1);
      assert n * b == (n - 1) * b + b;
    }
  }

  // the offset part, for a block other than the first
  lemma OffsetClosed(b: nat, n: nat)
    requires n > 0
    ensures Start(b + 8, n) - Header(n) == n * b + 4 * Popc(n)
  {
    StartClosed(b, n);
    PopcStep(n);
  }

  /** Block n holds position pos at offset off. */
  predicate At(bs: nat, pos: nat, n: nat, off: int)
  {
    Start(bs, n) <= pos < Start(bs, n + 1) && off == pos - Start(bs, n) + Header(n)
  }

  // ---------------------------------------------------------------- the index computation

  function Sub32(a: nat, b: nat): (r: nat)
    ensures b <= a && a - b < U32 ==> r == a - b
  {
    (a - b) % U32
  }

  function Div(a: nat, b: nat): (q: nat)
    requires b > 0
    ensures q * b <= a < q * b + b
  {
    a / b
  }

  /** The code's computation, in 32-bit arithmetic: an estimate, one correction, and the
      in-block offset. */
  function Index(bs: nat, pos: nat): (nat, nat)
    requires 8 < bs < U32
  {
    var b := Sub32(bs, 8);
    var i := Div(pos, b);
    if i == 0 then (0, pos)
    else
      var j := Div(Sub32(pos, 4 * (Popc(i - 1) + 2)), b);
      (j, Sub32(Sub32(pos, b * j), 4 * Popc(j)))
  }

  // ---------------------------------------------------------------- correctness

  lemma DivIs(pos: nat, b: nat, q: nat)
    requires b > 0 && q * b <= pos < q * b + b
    ensures Div(pos, b) == q
  {
    var d := Div(pos, b);
    if d < q { MulStep(b, d, q); } else if q < d { MulStep(b, q, d); }
  }

  lemma Pow2Of26()
    ensures Pow2(26) == 0x400_0000
  {
    assert Pow2(5) == 32;
    assert Pow2(10) == 0x400 by { assert Pow2(8) == 256; }
    assert Pow2(15) == 0x8000 by { assert Pow2(13) == 0x2000; }
    assert Pow2(20) == 0x10_0000 by { assert Pow2(18) == 0x4_0000; }
    assert Pow2(24) == 0x100_0000 by { assert Pow2(22) == 0x40_0000; }
  }

  // a 32-bit file has few enough blocks that all population counts stay small
  lemma FewBlocks(pos: nat, b: nat, i: nat)
    requires pos < U32 && b >= 120 && i * b <= pos
    ensures Popc(i) <= 26 && (i > 0 ==> Popc(i - 1) <= 26)
  {
    hide Pow2;
    hide Popc;
    if i >= 0x400_0000 { ManyBlocks(b, i); }
    Pow2Of26();
    PopcAtMostBits(i, 26);
    if i > 0 { PopcAtMostBits(i - 1, 26); }
  }

  lemma ManyBlocks(b: nat, i: nat)
    requires b >= 120 && i >= 0x400_0000
    ensures i * b >= U32
  {
    var many := 0x400_0000;
    MulAtLeast(b, many - 1, i);
    assert many * b >= many * 120;
  }

  lemma MulAtLeast(b: nat, i: nat, j: nat)
    requires i < j
    ensures (i + 1) * b <= j * b
  {
    MulStep(b, i, j);
  }

  // the value computed, when nothing wraps around
  lemma IndexValue(b: nat, pos: nat, i: nat, j: nat)
    requires 120 <= b < U32 - 8 && pos < U32 && i > 0 && i == Div(pos, b)
    requires 4 * (Popc(i - 1) + 2) <= pos && j == Div(pos - 4 * (Popc(i - 1) + 2), b)
    requires j * b + 4 * Popc(j) <= pos
    ensures Index(b + 8, pos) == (j, pos - j * b - 4 * Popc(j))
  {
    hide Popc;
    hide Div;
    hide Sub32;
    assert Sub32(b + 8, 8) == b;
    var k := b * j;
    assert k == j * b;
    assert Sub32(Sub32(pos, k), 4 * Popc(j)) == pos - k - 4 * Popc(j);
  }

  lemma EstimateRight(b: nat, pos: nat, i: nat)
    requires 120 <= b < U32 - 8 && pos < U32 && i > 0 && Popc(i - 1) <= 26
    requires i == Div(pos, b) && pos >= Start(b + 8, i)
    ensures Index(b + 8, pos).0 == i && At(b + 8, pos, i, Index(b + 8, pos).1)
  {
    hide Index;
    hide Start;
    hide Popc;
    hide Div;
    StartClosed(b, i);
    StartClosed(b, i + 1);
    OffsetClosed(b, i);
    MulStep(b, 0, i);
    MulStep(b, i, i + 1);
    PopcAtMostOneMore(i);
    DivIs(pos - 4 * (Popc(i - 1) + 2), b, i);
    IndexValue(b, pos, i, i);
  }

  lemma PopcAtMostOneMore(i: nat)
    requires i > 0
    ensures Popc(i) <= Popc(i - 1) + 1
  {
    PopcStep(i);
  }

  lemma EstimateOneTooMany(b: nat, pos: nat, i: nat)
    requires 120 <= b < U32 - 8 && pos < U32 && i > 0 && Popc(i - 1) <= 26
    requires i == Div(pos, b) && pos < Start(b + 8, i)
    ensures Index(b + 8, pos).0 == i - 1 && At(b + 8, pos, i - 1, Index(b + 8, pos).1)
  {
    hide Index;
    hide Popc;
    hide Div;
    hide Header;
    hide Start;
    var j := i - 1;
    StartClosed(b, i);
    MulStep(b, j, i);
    MulStep(b, 0, i);
    DivIs(pos - 4 * (Popc(j) + 2), b, j);
    if j > 0 {
      StartClosed(b, j);
      FewBlocks(pos, b, j);
    }
    PlaceAt(b, pos, j);
    IndexValue(b, pos, i, j);
  }

  // the offset of a position in block j
  lemma PlaceAt(b: nat, pos: nat, j: nat)
    requires pos < Start(b + 8, j + 1) && (if j == 0 then true else Start(b + 8, j) <= pos)
    ensures At(b + 8, pos, j, pos - j * b - 4 * Popc(j))
    ensures j * b + 4 * Popc(j) <= pos
  {
    hide Popc;
    hide Header;
    hide Start;
    if j > 0 {
      StartClosed(b, j);
      OffsetClosed(b, j);
    } else {
      NoOnes();
      StartOfFirst(b + 8);
    }
  }

  lemma StartOfFirst(bs: nat)
    ensures Start(bs, 0) == 0 && Header(0) == 0 && Start(bs, 1) == bs
  {}

  lemma NoOnes()
    ensures Popc(0) == 0
  {}

  lemma FirstBlock(bs: nat, pos: nat)
    requires MIN_BLOCK <= bs < U32 && Div(pos, bs - 8) == 0
    ensures At(bs, pos, 0, pos) && Index(bs, pos) == (0, pos)
  {
    assert Start(bs, 1) == bs;
  }

  /** The index computation inverts the layout for every 32-bit position, without ever
      wrapping around. */
  lemma IndexCorrect(bs: nat, pos: nat)
    requires MIN_BLOCK <= bs < U32 && pos < U32
    ensures At(bs, pos, Index(bs, pos).0, Index(bs, pos).1)
  {
    hide Index;
    hide Div;
    var b := bs - 8;
    var i := Div(pos, b);
    if i == 0 {
      FirstBlock(bs, pos);
    } else {
      FewBlocks(pos, b, i);
      if pos >= Start(bs, i) { EstimateRight(b, pos, i); } else { EstimateOneTooMany(b, pos, i); }
    }
  }

  /** No other block holds the position: the layout is unambiguous. */
  lemma AtUnique(bs: nat, pos: nat, n: nat, off: int, n': nat, off': int)
    requires MIN_BLOCK <= bs && pos < U32
    requires At(bs, pos, n, off) && At(bs, pos, n', off')
    ensures n == n' && off == off'
  {
    if n < n' { LaterStart(bs - 8, pos, n, n'); } else if n' < n { LaterStart(bs - 8, pos, n', n); }
  }

  lemma LaterStart(b: nat, pos: nat, n: nat, n': nat)
    requires 120 <= b && pos < U32 && n < n' && Start(b + 8, n') <= pos
    ensures Start(b + 8, n + 1) <= Start(b + 8, n')
  {
    if n + 1 < n' {
      StartClosed(b, n + 1);
      StartClosed(b, n');
      MulStep(b, n + 1, n');
      MulStep(b, n, n');
      FewBlocks(pos, b, n);
    }
  }
}
