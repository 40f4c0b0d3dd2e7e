/** 32-bit tag words as numbers: a valid bit, and 31 bits holding type, id and size.
    Words are chained on disk by exclusive-or and stored most significant byte first. */
module TagWord {
  import opened Words

  /** Exclusive-or of two numbers, binary digit by binary digit. */
  function Xor(a: nat, b: nat): nat
    decreases a + b
  {
    if a == 0 && b == 0 then 0
    else 2 * Xor(a / 2, b / 2) + (if a % 2 == b % 2 then 0 else 1)
  }

  lemma {:induction false} XorTwice(a: nat, b: nat)
    ensures Xor(Xor(a, b), b) == a
    decreases a + b
  {
    if a != 0 || b != 0 { XorTwice(a / 2, b / 2); }
  }

  lemma {:induction false} XorCommutes(a: nat, b: nat)
    ensures Xor(a, b) == Xor(b, a)
    decreases a + b
  {
    if a != 0 || b != 0 { XorCommutes(a / 2, b / 2); }
  }

  lemma {:induction false} XorBound(a: nat, b: nat, n: nat)
    requires a < Pow2(n) && b < Pow2(n)
    ensures Xor(a, b) < Pow2(n)
    decreases n
  {
    if n > 0 { XorBound(a / 2, b / 2, n - 1); }
  }

  const BODIES := 0x8000_0000

  /** top is bit 31, set in words that are not tags; body is the rest. */
  datatype Word = Word(top: bool, body: nat)

  function Chain(w: Word, p: Word): Word { Word(w.top != p.top, Xor(w.body, p.body)) }

  lemma ChainBound(w: Word, p: Word)
    requires w.body < BODIES && p.body < BODIES
    ensures Chain(w, p).body < BODIES
  {
    assert Pow2(8) == 0x100;
    assert Pow2(16) == 0x1_0000 by { assert Pow2(12) == 0x1000; }
    assert Pow2(24) == 0x100_0000 by { assert Pow2(20) == 0x10_0000; }
    assert Pow2(31) == BODIES by { assert Pow2(28) == 0x1000_0000; }
    XorBound(w.body, p.body, 31);
  }

  function Strip(w: Word): Word { Word(false, w.body) }

  function Flip(w: Word): Word { Word(!w.top, w.body) }

  const ONES := Word(true, BODIES - 1)

  lemma ChainTwice(w: Word, p: Word)
    ensures Chain(Chain(w, p), p) == w
    ensures Strip(Chain(w, Chain(w, p))) == Strip(p)
  {
    XorTwice(w.body, p.body);
    XorTwice(p.body, w.body);
    XorCommutes(w.body, p.body);
    XorCommutes(w.body, Xor(w.body, p.body));
  }

  // ---------------------------------------------------------------- fields

  datatype Head = Head(kind: nat, id: nat, size: nat)

  function HeadOf(w: Word): Head
  {
    Head(w.body / 0x10_0000, w.body / 0x400 % 0x400, w.body % 0x400)
  }

  predicate Fits(h: Head) { h.kind < 0x800 && h.id < 0x400 && h.size < 0x400 }

  function Make(h: Head): Word { Word(false, h.kind * 0x10_0000 + h.id * 0x400 + h.size) }

  lemma MakeHead(h: Head)
    requires Fits(h)
    ensures HeadOf(Make(h)) == h && Make(h).body < BODIES
  {
    SplitKind(h.kind, h.id * 0x400 + h.size);
    SplitField(h.kind * 0x400 + h.id, h.size);
    SplitField(h.kind, h.id);
  }

  /** Eleven bits of type, ten of id, ten of size, from the most significant one on. */
  lemma HeadIs(w: Word, h: Head)
    requires w.body < BODIES && Fits(h)
    ensures HeadOf(w) == h <==> w.body == (h.kind * 0x400 + h.id) * 0x400 + h.size
  {
    SplitKind(h.kind, h.id * 0x400 + h.size);
    SplitField(h.kind * 0x400 + h.id, h.size);
    SplitField(h.kind, h.id);
    JoinField(w.body);
  }

  lemma JoinField(n: nat)
    ensures n == (n / 0x10_0000 * 0x400 + n / 0x400 % 0x400) * 0x400 + n % 0x400
  {}

  lemma SplitKind(q: nat, r: nat)
    requires r < 0x10_0000
    ensures (q * 0x10_0000 + r) / 0x10_0000 == q
  {}

  lemma SplitField(q: nat, r: nat)
    requires r < 0x400
    ensures (q * 0x400 + r) / 0x400 == q && (q * 0x400 + r) % 0x400 == r
  {}

  // ---------------------------------------------------------------- bytes

  /** The byte with value n modulo 256. */
  function ByteOf(n: nat): byte
  {
    if n == 0 then 0 else ByteOf(n - 1) + 1
  }

  lemma {:induction false} ByteValue(n: nat)
    requires n < 256
    ensures ByteOf(n) as nat == n
  {
    if n > 0 {
      ByteValue(n - 1);
      TopByte(ByteOf(n - 1));
      NextByte(ByteOf(n - 1));
    }
  }

  lemma TopByte(x: byte)
    ensures x == 0xff ==> x as nat == 255
  {}

  lemma NextByte(x: byte)
    ensures x != 0xff ==> (x + 1) as nat == x as nat + 1
  {}

  // the top bit of a byte
  predicate High(b: byte) { b as nat >= 128 }

  /** Four bytes, most significant first, as a number. */
  function BigEndian(s: seq<byte>): nat
    requires |s| == 4
  {
    (((s[0] as nat) * 256 + s[1] as nat) * 256 + s[2] as nat) * 256 + s[3] as nat
  }

  function Read(s: seq<byte>): Word
    requires |s| == 4
  {
    var n := BigEndian(s);
    if n >= BODIES then Word(true, n - BODIES) else Word(false, n)
  }

  function Write(w: Word): (s: seq<byte>)
    ensures |s| == 4
  {
    var n := if w.top then BODIES + w.body else w.body;
    [ByteOf(n / 0x100_0000), ByteOf(n / 0x1_0000 % 256), ByteOf(n / 256 % 256), ByteOf(n % 256)]
  }

  lemma WriteRead(w: Word)
    requires w.body < BODIES
    ensures Read(Write(w)) == w
  {
    var n := if w.top then BODIES + w.body else w.body;
    FromBytes(n, Write(w));
  }

  lemma FromBytes(n: nat, s: seq<byte>)
    requires n < 0x1_0000_0000
    requires s == [ByteOf(n / 0x100_0000), ByteOf(n / 0x1_0000 % 256), ByteOf(n / 256 % 256), ByteOf(n % 256)]
    ensures BigEndian(s) == n
  {
    Bytes(n);
  }

  // a 32-bit number is its four bytes
  lemma Bytes(n: nat)
    requires n < 0x1_0000_0000
    ensures ByteOf(n / 0x100_0000) as nat == n / 0x100_0000
    ensures ByteOf(n / 0x1_0000 % 256) as nat == n / 0x1_0000 % 256
    ensures ByteOf(n / 256 % 256) as nat == n / 256 % 256
    ensures ByteOf(n % 256) as nat == n % 256
    ensures n == ((n / 0x100_0000 * 256 + n / 0x1_0000 % 256) * 256 + n / 256 % 256) * 256 + n % 256
  {
    ByteValue(n / 0x100_0000);
    ByteValue(n / 0x1_0000 % 256);
    ByteValue(n / 256 % 256);
    ByteValue(n % 256);
    Halve(n);
    Halve(n / 256);
    Halve(n / 0x1_0000);
  }

  lemma Halve(n: nat)
    ensures n / 256 * 256 + n % 256 == n
    ensures n / 256 / 256 == n / 0x1_0000
    ensures n / 0x1_0000 / 256 == n / 0x100_0000
  {}

  lemma ReadTop(s: seq<byte>)
    requires |s| == 4
    ensures Read(s).top == High(s[0]) && Read(s).body < BODIES
  {}

  /** Four bytes, least significant first, as a number. */
  function LittleEndian(s: seq<byte>): nat
    requires |s| == 4
  {
    BigEndian([s[3], s[2], s[1], s[0]])
  }

  function Digits(n: nat): (s: seq<byte>)
    ensures |s| == 4
  {
    [ByteOf(n % 256), ByteOf(n / 256 % 256), ByteOf(n / 0x1_0000 % 256), ByteOf(n / 0x100_0000)]
  }

  lemma DigitsValue(n: nat)
    requires n < 0x1_0000_0000
    ensures LittleEndian(Digits(n)) == n
  {
    var s := Digits(n);
    FromBytes(n, [s[3], s[2], s[1], s[0]]);
  }
}
