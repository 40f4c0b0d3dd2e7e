/** The CRC-32 of the metadata log: a 16-entry table, two lookups per byte, without
    the usual inversion before and after.  The reference is the bit-at-a-time
    reflected CRC with the polynomial of section 8 of RFC 1952. */
module Crc {
  import opened Words

  // ---------------------------------------------------------------- reference

  function BitStep(x: bv32): bv32
  {
    if x & 1 == 1 then (x >> 1) ^ 0xedb88320 else x >> 1
  }

  function Xor(x: bv32, y: bv32): bv32 { x ^ y }

  function Iterate<T>(f: T -> T, x: T, n: nat): T
    decreases n
  {
    if n == 0 then x else Iterate(f, f(x), n - 1)
  }

  /** Absorb data byte by byte, eight steps of the register each. */
  function Absorb<T>(f: T -> T, xor: (T, T) -> T, crc: T, data: seq<T>): T
    decreases |data|
  {
    if data == [] then crc else Absorb(f, xor, Iterate(f, xor(crc, data[0]), 8), data[1..])
  }

  function Widen(data: seq<byte>): (r: seq<bv32>)
    ensures |r| == |data|
    ensures forall i :: 0 <= i < |r| ==> r[i] == Wide(data[i])
  {
    seq(|data|, i requires 0 <= i < |data| => Wide(data[i]))
  }

  function Wide(b: byte): bv32 { b as bv32 }

  function CrcBits(crc: bv32, data: seq<byte>): bv32 { Absorb(BitStep, Xor, crc, Widen(data)) }

  // ---------------------------------------------------------------- shift registers

  // Combining a register with bits that have not reached its low end yet commutes with
  // stepping it: n steps turn a difference a into a difference b.  Everything built on
  // that holds for any register type and any associative combination.

  predicate MovesAt<T(==)>(f: T -> T, xor: (T, T) -> T, n: nat, a: T, b: T, x: T)
  {
    Iterate(f, xor(x, a), n) == xor(Iterate(f, x, n), b)
  }

  ghost predicate Moves<T(!new)>(f: T -> T, xor: (T, T) -> T, n: nat, a: T, b: T)
  {
    forall x: T :: MovesAt(f, xor, n, a, b, x)
  }

  lemma MovesCompose<T(!new)>(f: T -> T, xor: (T, T) -> T, m: nat, n: nat, k: nat, a: T, b: T, c: T)
    requires Moves(f, xor, m, a, b) && Moves(f, xor, n, b, c) && k == m + n
    ensures Moves(f, xor, k, a, c)
  {
    forall x: T ensures MovesAt(f, xor, k, a, c, x) {
      IterateCompose(f, xor(x, a), m, n);
      IterateCompose(f, x, m, n);
      assert MovesAt(f, xor, m, a, b, x);
      assert MovesAt(f, xor, n, b, c, Iterate(f, x, m));
    }
  }

  lemma {:induction false} IterateCompose<T>(f: T -> T, x: T, m: nat, n: nat)
    ensures Iterate(f, x, m + n) == Iterate(f, Iterate(f, x, m), n)
    decreases m
  {
    if m > 0 { IterateCompose(f, f(x), m - 1, n); }
  }

  ghost predicate Associative<T(!new)>(xor: (T, T) -> T)
  {
    forall x: T, y: T, z: T {:trigger xor(xor(x, y), z)} :: xor(xor(x, y), z) == xor(x, xor(y, z))
  }

  lemma TwoHalves<T(!new)>(f: T -> T, xor: (T, T) -> T, x: T, lo: T, hi: T, hi4: T)
    requires Associative(xor) && Moves(f, xor, 4, hi4, hi)
    ensures Iterate(f, xor(Iterate(f, xor(x, lo), 4), hi), 4) == Iterate(f, xor(x, xor(lo, hi4)), 8)
  {
    assert MovesAt(f, xor, 4, hi4, hi, xor(x, lo));
    assert xor(xor(x, lo), hi4) == xor(x, xor(lo, hi4));
    IterateCompose(f, xor(x, xor(lo, hi4)), 4, 4);
  }

  lemma TwoParts<T(!new)>(f: T -> T, xor: (T, T) -> T, x: T, b: T, h: T, h8: T, n: nat)
    requires Associative(xor) && Moves(f, xor, 8, h8, h)
    ensures Iterate(f, xor(x, xor(b, h8)), 8 + n) == Iterate(f, xor(Iterate(f, xor(x, b), 8), h), n)
  {
    assert MovesAt(f, xor, 8, h8, h, xor(x, b));
    assert xor(xor(x, b), h8) == xor(x, xor(b, h8));
    IterateCompose(f, xor(x, xor(b, h8)), 8, n);
  }

  lemma FourAbsorbed<T(!new)>(f: T -> T, xor: (T, T) -> T, x: T, s: seq<T>, h1: T, h2: T, h18: T, h28: T, h38: T, w: T)
    requires Associative(xor) && |s| == 4
    requires Moves(f, xor, 8, h18, h1) && Moves(f, xor, 8, h28, h2) && Moves(f, xor, 8, h38, s[3])
    requires w == xor(s[0], h18) && h1 == xor(s[1], h28) && h2 == xor(s[2], h38)
    ensures Absorb(f, xor, x, s) == Iterate(f, xor(x, w), 32)
  {
    var c1 := Iterate(f, xor(x, s[0]), 8);
    var c2 := Iterate(f, xor(c1, s[1]), 8);
    var c3 := Iterate(f, xor(c2, s[2]), 8);
    TwoParts(f, xor, x, s[0], h1, h18, 24);
    TwoParts(f, xor, c1, s[1], h2, h28, 16);
    TwoParts(f, xor, c2, s[2], s[3], h38, 8);
    AbsorbOne(f, xor, x, s, 0);
    AbsorbOne(f, xor, c1, s, 1);
    AbsorbOne(f, xor, c2, s, 2);
    AbsorbOne(f, xor, c3, s, 3);
    assert s[0..] == s && s[4..] == [];
  }

  lemma AbsorbOne<T>(f: T -> T, xor: (T, T) -> T, x: T, s: seq<T>, i: nat)
    requires i < |s|
    ensures Absorb(f, xor, x, s[i..]) == Absorb(f, xor, Iterate(f, xor(x, s[i]), 8), s[i + 1..])
  {
    assert s[i..][1..] == s[i + 1..];
  }

  lemma {:induction false} AbsorbConcat<T>(f: T -> T, xor: (T, T) -> T, x: T, a: seq<T>, b: seq<T>)
    ensures Absorb(f, xor, x, a + b) == Absorb(f, xor, Absorb(f, xor, x, a), b)
    decreases |a|
  {
    if a == [] {
      assert a + b == b;
    } else {
      assert (a + b)[1..] == a[1..] + b;
      AbsorbConcat(f, xor, Iterate(f, xor(x, a[0]), 8), a[1..], b);
    }
  }

  // ---------------------------------------------------------------- this register

  lemma XorAssociative()
    ensures Associative(Xor)
  {}

  // the parts of a step

  const POLYNOMIAL: bv32 := 0xedb88320

  function Half(x: bv32): bv32 { x >> 1 }

  predicate Odd(x: bv32) { x & 1 == 1 }

  lemma BitStepParts(x: bv32)
    ensures BitStep(x) == if Odd(x) then Xor(Half(x), POLYNOMIAL) else Half(x)
  {}

  lemma OddOfXor(x: bv32, a: bv32)
    requires !Odd(a)
    ensures Odd(Xor(x, a)) == Odd(x)
  {}

  lemma HalfOfXor(x: bv32, a: bv32)
    ensures Half(Xor(x, a)) == Xor(Half(x), Half(a))
  {}

  lemma XorRotate(x: bv32, y: bv32, z: bv32)
    ensures Xor(Xor(x, y), z) == Xor(Xor(x, z), y)
  {
    hide Xor;
    XorAgain(x, y, z);
    XorAgain(x, z, y);
    XorTurned(y, z);
  }

  lemma XorTurned(x: bv32, y: bv32)
    ensures Xor(x, y) == Xor(y, x)
  {}

  lemma Doubled(a: bv32, b: bv32)
    requires b & 0x80000000 == 0 && a == b << 1
    ensures !Odd(a) && Half(a) == b
  {}

  lemma BitStepXor(x: bv32, a: bv32, b: bv32)
    requires b & 0x80000000 == 0 && a == b << 1
    ensures BitStep(Xor(x, a)) == Xor(BitStep(x), b)
  {
    hide BitStep;
    hide Xor;
    hide Half;
    hide Odd;
    Doubled(a, b);
    BitStepParts(x);
    BitStepParts(Xor(x, a));
    OddOfXor(x, a);
    HalfOfXor(x, a);
    XorRotate(Half(x), POLYNOMIAL, b);
  }

  lemma MovesOne(a: bv32, b: bv32)
    requires b & 0x80000000 == 0 && a == b << 1
    ensures Moves(BitStep, Xor, 1, a, b)
  {
    forall x: bv32 ensures MovesAt(BitStep, Xor, 1, a, b, x) {
      BitStepXor(x, a, b);
      IterateOnce(BitStep, Xor(x, a));
      IterateOnce(BitStep, x);
    }
  }

  lemma IterateOnce<T>(f: T -> T, x: T)
    ensures Iterate(f, x, 1) == f(x)
  {}

  lemma MovesChain<T(!new)>(f: T -> T, xor: (T, T) -> T, a: T, b3: T, b2: T, b1: T, b: T)
    requires Moves(f, xor, 1, a, b3) && Moves(f, xor, 1, b3, b2) && Moves(f, xor, 1, b2, b1) && Moves(f, xor, 1, b1, b)
    ensures Moves(f, xor, 4, a, b)
  {
    MovesCompose(f, xor, 1, 1, 2, a, b3, b2);
    MovesCompose(f, xor, 1, 1, 2, b2, b1, b);
    MovesCompose(f, xor, 2, 2, 4, a, b2, b);
  }

  lemma MovesFour(a: bv32, b: bv32)
    requires b & 0xf0000000 == 0 && a == b << 4
    ensures Moves(BitStep, Xor, 4, a, b)
  {
    var b3, b2, b1 := ShiftBits(a, b);
    MovesFourBy(a, b3, b2, b1, b);
  }

  lemma ShiftBits(a: bv32, b: bv32) returns (b3: bv32, b2: bv32, b1: bv32)
    requires b & 0xf0000000 == 0 && a == b << 4
    ensures a == b3 << 1 && b3 == b2 << 1 && b2 == b1 << 1 && b1 == b << 1
    ensures b3 & 0x80000000 == 0 && b2 & 0x80000000 == 0 && b1 & 0x80000000 == 0 && b & 0x80000000 == 0
  {
    b1 := b << 1;
    b2 := b1 << 1;
    b3 := b2 << 1;
  }

  lemma MovesFourBy(a: bv32, b3: bv32, b2: bv32, b1: bv32, b: bv32)
    requires b3 & 0x80000000 == 0 && b2 & 0x80000000 == 0 && b1 & 0x80000000 == 0 && b & 0x80000000 == 0
    requires a == b3 << 1 && b3 == b2 << 1 && b2 == b1 << 1 && b1 == b << 1
    ensures Moves(BitStep, Xor, 4, a, b)
  {
    MovesOne(a, b3);
    MovesOne(b3, b2);
    MovesOne(b2, b1);
    MovesOne(b1, b);
    MovesChain(BitStep, Xor, a, b3, b2, b1, b);
  }

  lemma MovesEight(a: bv32, b: bv32)
    requires b & 0xff000000 == 0 && a == b << 8
    ensures Moves(BitStep, Xor, 8, a, b)
  {
    var b4 := b << 4;
    MovesFour(a, b4);
    MovesFour(b4, b);
    MovesCompose(BitStep, Xor, 4, 4, 8, a, b4, b);
  }

  // ---------------------------------------------------------------- the table

  function Table(n: bv32): bv32
  {
    if n == 0 then 0x00000000 else if n == 1 then 0x1db71064
    else if n == 2 then 0x3b6e20c8 else if n == 3 then 0x26d930ac
    else if n == 4 then 0x76dc4190 else if n == 5 then 0x6b6b51f4
    else if n == 6 then 0x4db26158 else if n == 7 then 0x5005713c
    else if n == 8 then 0xedb88320 else if n == 9 then 0xf00f9344
    else if n == 10 then 0xd6d6a3e8 else if n == 11 then 0xcb61b38c
    else if n == 12 then 0x9b64c2b0 else if n == 13 then 0x86d3d2d4
    else if n == 14 then 0xa00ae278 else 0xbdbdf21c
  }

  function Nibble(crc: bv32, n: bv32): bv32 { (crc >> 4) ^ Table((crc ^ n) & 0xf) }

  // two steps at once: what the lowest two bits add
  function Pair(n: bv32): bv32
  {
    if n == 0 then 0x00000000 else if n == 1 then 0x76dc4190 else if n == 2 then 0xedb88320 else 0x9b64c2b0
  }

  function LowTwo(x: bv32): bv32 { x & 3 }

  function Quarter(x: bv32): bv32 { x >> 2 }

  lemma LowTwoBits(x: bv32)
    ensures LowTwo(x) == if Odd(x) then if Odd(Half(x)) then 3 else 1 else if Odd(Half(x)) then 2 else 0
  {}

  lemma HalfTwice(x: bv32)
    ensures Half(Half(x)) == Quarter(x)
  {}

  lemma Pairs()
    ensures Pair(0) == 0 && Pair(1) == Half(POLYNOMIAL) && Pair(2) == POLYNOMIAL && Pair(3) == Xor(Half(POLYNOMIAL), POLYNOMIAL)
    ensures !Odd(POLYNOMIAL)
  {}

  lemma XorNothing(x: bv32)
    ensures Xor(x, 0) == x
  {}

  lemma XorAgain(x: bv32, y: bv32, z: bv32)
    ensures Xor(Xor(x, y), z) == Xor(x, Xor(y, z))
  {}

  lemma TwoSteps(x: bv32)
    ensures BitStep(BitStep(x)) == Xor(Quarter(x), Pair(LowTwo(x)))
  {
    hide BitStep;
    hide Xor;
    hide Half;
    hide Odd;
    hide LowTwo;
    hide Quarter;
    hide Pair;
    hide POLYNOMIAL;
    var h := Half(x);
    Pairs();
    LowTwoBits(x);
    HalfTwice(x);
    BitStepParts(x);
    BitStepParts(BitStep(x));
    OddOfXor(h, POLYNOMIAL);
    HalfOfXor(h, POLYNOMIAL);
    XorAgain(Quarter(x), Half(POLYNOMIAL), POLYNOMIAL);
    XorNothing(Quarter(x));
  }

  lemma QuarterOfXor(x: bv32, y: bv32)
    ensures Quarter(Xor(x, y)) == Xor(Quarter(x), Quarter(y))
  {}

  lemma LowTwoOfXor(x: bv32, y: bv32)
    requires LowTwo(y) == 0
    ensures LowTwo(Xor(x, y)) == LowTwo(x)
  {}

  lemma QuarterTwice(x: bv32)
    ensures Quarter(Quarter(x)) == x >> 4
  {}

  lemma PairBits(x: bv32)
    ensures LowTwo(Pair(LowTwo(x))) == 0
  {}

  lemma TableOfPairs(x: bv32)
    ensures Xor(Quarter(Pair(LowTwo(x))), Pair(LowTwo(Quarter(x)))) == Table(x & 0xf)
  {}

  lemma TableIsFourSteps(x: bv32)
    ensures TableStep(x) == BitStep(BitStep(BitStep(BitStep(x))))
  {
    hide BitStep;
    hide Xor;
    hide LowTwo;
    hide Quarter;
    hide Pair;
    hide Table;
    var q, p := Quarter(x), Pair(LowTwo(x));
    TwoSteps(x);
    TwoSteps(Xor(q, p));
    PairBits(x);
    QuarterOfXor(q, p);
    LowTwoOfXor(q, p);
    QuarterTwice(x);
    XorAgain(Quarter(q), Quarter(p), Pair(LowTwo(q)));
    TableOfPairs(x);
    TableStepParts(x);
  }

  lemma TableStepParts(x: bv32)
    ensures TableStep(x) == Xor(x >> 4, Table(x & 0xf))
  {}

  function TableStep(x: bv32): bv32 { (x >> 4) ^ Table(x & 0xf) }

  lemma NibbleBits(crc: bv32, n: bv32)
    ensures var x := Xor(crc, n & 0xf); x >> 4 == crc >> 4 && x & 0xf == (crc ^ n) & 0xf
  {}

  lemma NibbleAsTable(crc: bv32, n: bv32)
    ensures Nibble(crc, n) == TableStep(Xor(crc, n & 0xf))
  {
    hide Table;
    hide Xor;
    NibbleBits(crc, n);
  }

  lemma IterateFour<T>(f: T -> T, x: T)
    ensures Iterate(f, x, 4) == f(f(f(f(x))))
  {
    assert Iterate(f, x, 4) == Iterate(f, f(f(x)), 2);
  }

  lemma TableIterates(x: bv32)
    ensures TableStep(x) == Iterate(BitStep, x, 4)
  {
    TableIsFourSteps(x);
    IterateFour(BitStep, x);
  }

  /** One table lookup is four bit steps. */
  lemma NibbleIsFourSteps(crc: bv32, n: bv32)
    ensures Nibble(crc, n) == Iterate(BitStep, Xor(crc, n & 0xf), 4)
  {
    NibbleAsTable(crc, n);
    TableIterates(Xor(crc, n & 0xf));
  }

  lemma SplitByte(w: bv32)
    requires w & 0xffffff00 == 0
    ensures Xor(w & 0xf, (w >> 4) << 4) == w
    ensures (w >> 4) & 0xf0000000 == 0 && (w >> 4) & 0xf == w >> 4 && w >> 0 == w
  {}

  /** The loop body: two lookups absorb one byte. */
  lemma ByteIsEightSteps(crc: bv32, w: bv32)
    requires w & 0xffffff00 == 0
    ensures Nibble(Nibble(crc, w >> 0), w >> 4) == Iterate(BitStep, Xor(crc, w), 8)
  {
    SplitByte(w);
    NibbleIsFourSteps(crc, w);
    NibbleIsFourSteps(Nibble(crc, w), w >> 4);
    MovesFour((w >> 4) << 4, w >> 4);
    XorAssociative();
    TwoHalves(BitStep, Xor, crc, w & 0xf, w >> 4, (w >> 4) << 4);
  }

  lemma ByteIsSmall(b: byte)
    ensures (b as bv32) & 0xffffff00 == 0
  {}

  /** The table-driven loop computes the reference CRC of every byte sequence. */
  method ComputeCrc(start: bv32, data: seq<byte>) returns (crc: bv32)
    ensures crc == CrcBits(start, data)
  {
    crc := start;
    ghost var wide := Widen(data);
    assert wide[0..] == wide;
    for i := 0 to |data|
      invariant Absorb(BitStep, Xor, crc, wide[i..]) == CrcBits(start, data)
    {
      ByteIsSmall(data[i]);
      ByteIsEightSteps(crc, data[i] as bv32);
      AbsorbOne(BitStep, Xor, crc, wide, i);
      crc := Nibble(crc, (data[i] as bv32) >> 0);
      crc := Nibble(crc, (data[i] as bv32) >> 4);
    }
  }

  // ---------------------------------------------------------------- laws

  /** The CRC of a concatenation continues the CRC of its first part. */
  lemma CrcConcat(crc: bv32, a: seq<byte>, b: seq<byte>)
    ensures CrcBits(crc, a + b) == CrcBits(CrcBits(crc, a), b)
  {
    assert Widen(a + b) == Widen(a) + Widen(b);
    AbsorbConcat(BitStep, Xor, crc, Widen(a), Widen(b));
  }

  lemma CrcOfNothing(crc: bv32)
    ensures CrcBits(crc, []) == crc
  {}

  function Join(b0: bv32, b1: bv32, b2: bv32, b3: bv32): bv32
  {
    b0 | ((b1 | ((b2 | (b3 << 8)) << 8)) << 8)
  }

  lemma OrIsXor(b: bv32, h: bv32)
    requires b & 0xffffff00 == 0
    ensures b | (h << 8) == Xor(b, h << 8)
  {}

  lemma ByteOverByte(b: bv32, h: bv32)
    requires b & 0xffffff00 == 0 && h & 0xffffff00 == 0
    ensures h & 0xff000000 == 0 && (b | (h << 8)) & 0xffff0000 == 0
  {}

  lemma ByteOverHalf(b: bv32, h: bv32)
    requires b & 0xffffff00 == 0 && h & 0xffff0000 == 0
    ensures h & 0xff000000 == 0 && (b | (h << 8)) & 0xff000000 == 0
  {}

  lemma JoinBytes(s: seq<byte>)
    requires |s| == 4
    ensures FromLe32(s) == Join(Wide(s[0]), Wide(s[1]), Wide(s[2]), Wide(s[3]))
  {}

  /** Four bytes are one 32-step run over the CRC combined with the little-endian word. */
  lemma CrcOfWord(crc: bv32, s: seq<byte>)
    requires |s| == 4
    ensures CrcBits(crc, s) == Iterate(BitStep, Xor(crc, FromLe32(s)), 32)
  {
    ByteIsSmall(s[0]); ByteIsSmall(s[1]); ByteIsSmall(s[2]); ByteIsSmall(s[3]);
    JoinBytes(s);
    WordSteps(crc, Widen(s), Wide(s[0]), Wide(s[1]), Wide(s[2]), Wide(s[3]), FromLe32(s));
  }

  lemma WordSteps(crc: bv32, w: seq<bv32>, b0: bv32, b1: bv32, b2: bv32, b3: bv32, word: bv32)
    requires b0 & 0xffffff00 == 0 && b1 & 0xffffff00 == 0 && b2 & 0xffffff00 == 0 && b3 & 0xffffff00 == 0
    requires w == [b0, b1, b2, b3] && word == Join(b0, b1, b2, b3)
    ensures Absorb(BitStep, Xor, crc, w) == Iterate(BitStep, Xor(crc, word), 32)
  {
    var h38 := b3 << 8;
    var h2 := b2 | h38;
    var h28 := h2 << 8;
    var h1 := b1 | h28;
    var h18 := h1 << 8;
    WordMoves(b0, b1, b2, b3, h1, h2, h18, h28, h38, word);
    WordAbsorbed(crc, w, h1, h2, h18, h28, h38, word);
  }

  lemma WordAbsorbed(crc: bv32, w: seq<bv32>, h1: bv32, h2: bv32, h18: bv32, h28: bv32, h38: bv32, word: bv32)
    requires |w| == 4
    requires word == Xor(w[0], h18) && Moves(BitStep, Xor, 8, h18, h1)
    requires h1 == Xor(w[1], h28) && Moves(BitStep, Xor, 8, h28, h2)
    requires h2 == Xor(w[2], h38) && Moves(BitStep, Xor, 8, h38, w[3])
    ensures Absorb(BitStep, Xor, crc, w) == Iterate(BitStep, Xor(crc, word), 32)
  {
    XorAssociative();
    FourAbsorbed(BitStep, Xor, crc, w, h1, h2, h18, h28, h38, word);
  }

  lemma WordMoves(b0: bv32, b1: bv32, b2: bv32, b3: bv32, h1: bv32, h2: bv32, h18: bv32, h28: bv32, h38: bv32, word: bv32)
    requires b0 & 0xffffff00 == 0 && b1 & 0xffffff00 == 0 && b2 & 0xffffff00 == 0 && b3 & 0xffffff00 == 0
    requires h18 == h1 << 8 && h28 == h2 << 8 && h38 == b3 << 8
    requires word == b0 | h18 && h1 == b1 | h28 && h2 == b2 | h38
    ensures word == Xor(b0, h18) && Moves(BitStep, Xor, 8, h18, h1)
    ensures h1 == Xor(b1, h28) && Moves(BitStep, Xor, 8, h28, h2)
    ensures h2 == Xor(b2, h38) && Moves(BitStep, Xor, 8, h38, b3)
  {
    JoinThird(b2, b3, h38, h2);
    JoinSecond(b1, h2, h28, h1);
    JoinByte(b0, h1, h18, word);
  }

  lemma JoinThird(b: bv32, h: bv32, h8: bv32, w: bv32)
    requires b & 0xffffff00 == 0 && h & 0xffffff00 == 0 && h8 == h << 8 && w == b | h8
    ensures w == Xor(b, h8) && Moves(BitStep, Xor, 8, h8, h) && w & 0xffff0000 == 0
  {
    ByteOverByte(b, h);
    JoinByte(b, h, h8, w);
  }

  lemma JoinSecond(b: bv32, h: bv32, h8: bv32, w: bv32)
    requires b & 0xffffff00 == 0 && h & 0xffff0000 == 0 && h8 == h << 8 && w == b | h8
    ensures w == Xor(b, h8) && Moves(BitStep, Xor, 8, h8, h) && w & 0xff000000 == 0
  {
    ByteOverHalf(b, h);
    JoinByte(b, h, h8, w);
  }

  lemma JoinByte(b: bv32, h: bv32, h8: bv32, w: bv32)
    requires b & 0xffffff00 == 0 && h & 0xff000000 == 0 && h8 == h << 8 && w == b | h8
    ensures w == Xor(b, h8) && Moves(BitStep, Xor, 8, h8, h)
  {
    OrIsXor(b, h);
    MovesEight(h8, h);
  }

  lemma {:induction false} IterateOfZero<T>(f: T -> T, zero: T, x: T, n: nat)
    requires forall y: T :: f(y) == zero <==> y == zero
    ensures Iterate(f, x, n) == zero <==> x == zero
    decreases n
  {
    if n > 0 { IterateOfZero(f, zero, f(x), n - 1); }
  }

  // the polynomial has its top bit set, so a step never loses information
  lemma BitStepOfZero(y: bv32)
    ensures BitStep(y) == 0 <==> y == 0
  {}

  lemma XorOfZero(a: bv32, b: bv32)
    ensures Xor(a, b) == 0 <==> a == b
  {
    hide Xor;
    XorCancels(a, b);
    XorZero(b);
    XorSelf(b);
  }

  lemma XorCancels(a: bv32, b: bv32)
    ensures Xor(Xor(a, b), b) == a
  {}

  lemma XorZero(b: bv32)
    ensures Xor(0, b) == b
  {}

  lemma XorSelf(b: bv32)
    ensures Xor(b, b) == 0
  {}

  /** A stored checksum checks out: continuing the CRC over four bytes gives zero exactly
      when those bytes are the current CRC in little-endian order. */
  lemma CrcOfStoredCrc(crc: bv32, s: seq<byte>)
    requires |s| == 4
    ensures CrcBits(crc, s) == 0 <==> s == Le32(crc)
  {
    hide BitStep;
    hide Iterate;
    hide Xor;
    hide FromLe32;
    hide Le32;
    hide CrcBits;
    CrcOfWord(crc, s);
    forall y: bv32 ensures BitStep(y) == 0 <==> y == 0 { BitStepOfZero(y); }
    IterateOfZero(BitStep, 0, Xor(crc, FromLe32(s)), 32);
    XorOfZero(crc, FromLe32(s));
    LeRoundTrip(crc);
    LeInverse(s);
  }
}
