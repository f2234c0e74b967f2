/** Code identity: the CRC-32 of section 8 of RFC 1952 over the bytes of a function's code ranges. */
module Crc {
  function Xor(x: bv32, y: bv32): bv32 { x ^ y }
  function Half(x: bv32): bv32 { x >> 1 }
  predicate Odd(x: bv32) { x & 1 == 1 }
  function OfByte(b: bv8): bv32 { b as bv32 }

  const POLY: bv32 := 0xEDB8_8320
  const ONES: bv32 := 0xFFFF_FFFF

  // ---- The checksum ----

  /** One bit through the reflected register. */
  function Bit(c: bv32): bv32 { if Odd(c) then Xor(POLY, Half(c)) else Half(c) }

  function Bits(c: bv32, n: nat): bv32 { if n == 0 then c else Bit(Bits(c, n - 1)) }

  /** The register after one byte. */
  function Eat(c: bv32, b: bv8): bv32 { Bits(Xor(c, OfByte(b)), 8) }

  function Feed(c: bv32, data: seq<bv8>): bv32
    decreases |data|
  {
    if data == [] then c else Feed(Eat(c, data[0]), data[1..])
  }

  /** The checksum of data continued from an earlier checksum; 0 starts a new one. */
  function Crc32(data: seq<bv8>, crc: bv32): bv32 { Xor(Feed(Xor(crc, ONES), data), ONES) }

  lemma {:induction false} FeedAppend(c: bv32, a: seq<bv8>, b: seq<bv8>)
    ensures Feed(c, a + b) == Feed(Feed(c, a), b)
    decreases |a|
  {
    hide Eat;
    if a == [] {
      assert a + b == b;
    } else {
      assert (a + b)[1..] == a[1..] + b;
      FeedAppend(Eat(c, a[0]), a[1..], b);
    }
  }

  lemma XorTwice(c: bv32, k: bv32)
    ensures Xor(Xor(c, k), k) == c
  {
  }

  /** Continuing a checksum is the same as taking it over the joined bytes. */
  lemma Continues(a: seq<bv8>, b: seq<bv8>, crc: bv32)
    ensures Crc32(b, Crc32(a, crc)) == Crc32(a + b, crc)
  {
    hide Feed, Xor;
    XorTwice(Feed(Xor(crc, ONES), a), ONES);
    FeedAppend(Xor(crc, ONES), a, b);
  }

  // ---- The parameters ----

  /** The generator polynomial, with the coefficient of x^31 in the lowest bit. */
  lemma PolynomialIs(i: nat)
    requires i < 32
    ensures (POLY >> (31 - i)) & 1 == 1 <==> i in {0, 1, 2, 4, 5, 7, 8, 10, 11, 12, 16, 22, 23, 26}
  {
  }

  /** The check value: the checksum of the digits one to nine. */
  lemma CheckValue()
    ensures Crc32([0x31, 0x32, 0x33, 0x34, 0x35, 0x36, 0x37, 0x38, 0x39], 0) == 0xCBF4_3926
  {
    assert Eat(0xFFFFFFFF, 0x31) == 0x7C231048;
    assert Eat(0x7C231048, 0x32) == 0xB0ACBB32;
    assert Eat(0xB0ACBB32, 0x33) == 0x77B79C2D;
    assert Eat(0x77B79C2D, 0x34) == 0x641C1F5C;
    assert Eat(0x641C1F5C, 0x35) == 0x340AC5E3;
    assert Eat(0x340AC5E3, 0x36) == 0xF68D2C9E;
    assert Eat(0xF68D2C9E, 0x37) == 0xAFFC9660;
    assert Eat(0xAFFC9660, 0x38) == 0x651F2550;
    assert Eat(0x651F2550, 0x39) == 0x340BC6D9;
  }

  // ---- The register is linear and loses nothing ----

  lemma HalfXor(x: bv32, y: bv32)
    ensures Half(Xor(x, y)) == Xor(Half(x), Half(y))
  {
  }

  lemma OddXor(x: bv32, y: bv32)
    ensures Odd(Xor(x, y)) <==> Odd(x) != Odd(y)
  {
  }

  lemma XorAssoc(x: bv32, y: bv32, z: bv32)
    ensures Xor(Xor(x, y), z) == Xor(x, Xor(y, z))
  {
  }

  lemma XorComm(x: bv32, y: bv32)
    ensures Xor(x, y) == Xor(y, x)
  {
  }

  lemma XorLaws(p: bv32, a: bv32, b: bv32)
    ensures Xor(Xor(p, a), Xor(p, b)) == Xor(a, b)
    ensures Xor(Xor(p, a), b) == Xor(p, Xor(a, b))
    ensures Xor(a, Xor(p, b)) == Xor(p, Xor(a, b))
  {
    hide Xor;
    XorComm(p, a);
    XorAssoc(a, p, Xor(p, b));
    XorAssoc(p, p, b);
    XorSame(p, b);
    XorAssoc(p, a, b);
    XorAssoc(a, p, b);
  }

  lemma XorSame(p: bv32, b: bv32)
    ensures Xor(Xor(p, p), b) == b
  {
  }

  lemma BitLinear(x: bv32, y: bv32)
    ensures Bit(Xor(x, y)) == Xor(Bit(x), Bit(y))
  {
    hide Xor, Half, Odd;
    HalfXor(x, y);
    OddXor(x, y);
    XorLaws(POLY, Half(x), Half(y));
  }

  lemma {:induction false} BitsLinear(x: bv32, y: bv32, n: nat)
    ensures Bits(Xor(x, y), n) == Xor(Bits(x, n), Bits(y, n))
  {
    hide Bit, Xor;
    if n > 0 {
      BitsLinear(x, y, n - 1);
      BitLinear(Bits(x, n - 1), Bits(y, n - 1));
    }
  }

  lemma TopBit(x: bv32)
    ensures Half(x) < 0x8000_0000 && Xor(POLY, Half(x)) >= 0x8000_0000
  {
  }

  lemma HalfOddInjective(x: bv32, y: bv32)
    requires Half(x) == Half(y) && Odd(x) == Odd(y)
    ensures x == y
  {
  }

  lemma XorInjective(k: bv32, x: bv32, y: bv32)
    requires Xor(k, x) == Xor(k, y)
    ensures x == y
  {
  }

  lemma BitInjective(x: bv32, y: bv32)
    requires Bit(x) == Bit(y)
    ensures x == y
  {
    hide Xor, Half, Odd;
    TopBit(x);
    TopBit(y);
    assert Odd(x) == Odd(y);
    if Odd(x) {
      XorInjective(POLY, Half(x), Half(y));
    }
    HalfOddInjective(x, y);
  }

  lemma {:induction false} BitsInjective(x: bv32, y: bv32, n: nat)
    requires Bits(x, n) == Bits(y, n)
    ensures x == y
  {
    hide Bit;
    if n > 0 {
      BitInjective(Bits(x, n - 1), Bits(y, n - 1));
      BitsInjective(x, y, n - 1);
    }
  }

  lemma XorRight(x: bv32, y: bv32, k: bv32)
    requires Xor(x, k) == Xor(y, k)
    ensures x == y
  {
  }

  lemma EatInjective(x: bv32, y: bv32, b: bv8)
    requires Eat(x, b) == Eat(y, b)
    ensures x == y
  {
    hide Xor, Bits, OfByte;
    BitsInjective(Xor(x, OfByte(b)), Xor(y, OfByte(b)), 8);
    XorRight(x, y, OfByte(b));
  }

  lemma {:induction false} FeedInjective(x: bv32, y: bv32, data: seq<bv8>)
    requires Feed(x, data) == Feed(y, data)
    ensures x == y
    decreases |data|
  {
    hide Eat;
    if data != [] {
      FeedInjective(Eat(x, data[0]), Eat(y, data[0]), data[1..]);
      EatInjective(x, y, data[0]);
    }
  }

  // ---- A changed word always shows ----

  function Up(z: bv32): bv32 { z << 8 }

  predicate Small(z: bv32) { z & 0xFF00_0000 == 0 }

  lemma Half8(z: bv32)
    requires Small(z)
    ensures Half(z << 8) == z << 7
  {
  }

  lemma Half7(z: bv32)
    requires Small(z)
    ensures Half(z << 7) == z << 6
  {
  }

  lemma Half6(z: bv32)
    requires Small(z)
    ensures Half(z << 6) == z << 5
  {
  }

  lemma Half5(z: bv32)
    requires Small(z)
    ensures Half(z << 5) == z << 4
  {
  }

  lemma Half4(z: bv32)
    requires Small(z)
    ensures Half(z << 4) == z << 3
  {
  }

  lemma Half3(z: bv32)
    requires Small(z)
    ensures Half(z << 3) == z << 2
  {
  }

  lemma Half2(z: bv32)
    requires Small(z)
    ensures Half(z << 2) == z << 1
  {
  }

  lemma Half1(z: bv32)
    requires Small(z)
    ensures Half(z << 1) == z
  {
  }

  lemma Halves(z: bv32)
    requires Small(z)
    ensures Half(z << 8) == z << 7 && Half(z << 7) == z << 6 && Half(z << 6) == z << 5 && Half(z << 5) == z << 4
    ensures Half(z << 4) == z << 3 && Half(z << 3) == z << 2 && Half(z << 2) == z << 1 && Half(z << 1) == z
  {
    hide Half, Small;
    Half8(z); Half7(z); Half6(z); Half5(z); Half4(z); Half3(z); Half2(z); Half1(z);
  }

  lemma Evens(z: bv32)
    ensures !Odd(z << 8) && !Odd(z << 7) && !Odd(z << 6) && !Odd(z << 5)
    ensures !Odd(z << 4) && !Odd(z << 3) && !Odd(z << 2) && !Odd(z << 1)
  {
  }

  /** Eight bits shift a register whose low byte is clear down by one byte. */
  lemma ShiftDown(z: bv32)
    requires Small(z)
    ensures Bits(Up(z), 8) == z
  {
    hide Half, Odd, Small, Xor;
    Halves(z);
    Evens(z);
    assert Bits(Up(z), 1) == z << 7;
    assert Bits(Up(z), 2) == z << 6;
    assert Bits(Up(z), 3) == z << 5;
    assert Bits(Up(z), 4) == z << 4;
    assert Bits(Up(z), 5) == z << 3;
    assert Bits(Up(z), 6) == z << 2;
    assert Bits(Up(z), 7) == z << 1;
  }

  predicate IsByte(x: bv32) { x & 0xFFFF_FF00 == 0 }

  lemma OfByteIs(b: bv8)
    ensures IsByte(OfByte(b))
  {
  }

  lemma OfByteInjective(b: bv8, d: bv8)
    requires OfByte(b) == OfByte(d)
    ensures b == d
  {
  }

  /** Bytes below a shifted value do not mix with it. */
  lemma UpSplits(x: bv32, z: bv32, y: bv32, w: bv32)
    requires IsByte(x) && IsByte(y) && Small(z) && Small(w) && Xor(x, Up(z)) == Xor(y, Up(w))
    ensures x == y && z == w
  {
  }

  /** A register and a byte to come, taken in together. */
  lemma Pull(c: bv32, z: bv32)
    requires Small(z)
    ensures Xor(Bits(c, 8), z) == Bits(Xor(c, Up(z)), 8)
  {
    hide Xor, Bits, Small, Up;
    ShiftDown(z);
    BitsLinear(c, Up(z), 8);
  }

  lemma SmallByte(x: bv32, z: bv32)
    ensures IsByte(x) ==> Small(x)
    ensures IsByte(x) && IsByte(z) ==> z & 0xFFFF_0000 == 0
    ensures IsByte(x) && z & 0xFFFF_0000 == 0 ==> Small(Xor(x, Up(z)))
    ensures IsByte(x) && IsByte(z) ==> Xor(x, Up(z)) & 0xFFFF_0000 == 0
  {
  }

  /** The low `bytes` of a register hold one word of data. */
  function Word2(a: bv8, b: bv8): bv32 { Xor(OfByte(a), Up(OfByte(b))) }
  function Word3(a: bv8, b: bv8, c: bv8): bv32 { Xor(OfByte(a), Up(Word2(b, c))) }
  function Word4(a: bv8, b: bv8, c: bv8, d: bv8): bv32 { Xor(OfByte(a), Up(Word3(b, c, d))) }

  lemma WordsSmall(a: bv8, b: bv8, c: bv8)
    ensures Small(OfByte(c)) && Small(Word2(b, c)) && Small(Word3(a, b, c))
  {
    hide OfByte, Xor, Up, Small, IsByte;
    OfByteIs(a);
    OfByteIs(b);
    OfByteIs(c);
    SmallByte(OfByte(c), OfByte(c));
    SmallByte(OfByte(b), OfByte(c));
    SmallByte(OfByte(a), Word2(b, c));
  }

  lemma WordInjective(x: seq<bv8>, y: seq<bv8>)
    requires |x| == |y| == 4 && Word4(x[0], x[1], x[2], x[3]) == Word4(y[0], y[1], y[2], y[3])
    ensures x == y
  {
    hide OfByte, Xor, Up, Small, IsByte;
    WordsSmall(x[1], x[2], x[3]);
    WordsSmall(y[1], y[2], y[3]);
    Bytes4(x);
    Bytes4(y);
    UpSplits(OfByte(x[0]), Word3(x[1], x[2], x[3]), OfByte(y[0]), Word3(y[1], y[2], y[3]));
    UpSplits(OfByte(x[1]), Word2(x[2], x[3]), OfByte(y[1]), Word2(y[2], y[3]));
    UpSplits(OfByte(x[2]), OfByte(x[3]), OfByte(y[2]), OfByte(y[3]));
    forall i | 0 <= i < 4 ensures x[i] == y[i] { OfByteInjective(x[i], y[i]); }
  }

  lemma Bytes4(x: seq<bv8>)
    requires |x| == 4
    ensures IsByte(OfByte(x[0])) && IsByte(OfByte(x[1])) && IsByte(OfByte(x[2])) && IsByte(OfByte(x[3]))
  {
    hide OfByte, IsByte;
    OfByteIs(x[0]);
    OfByteIs(x[1]);
    OfByteIs(x[2]);
    OfByteIs(x[3]);
  }

  /** Eating a byte while a value waits to be mixed in is eating both at once. */
  lemma EatThen(c: bv32, b: bv8, z: bv32)
    requires Small(z)
    ensures Xor(Eat(c, b), z) == Bits(Xor(c, Xor(OfByte(b), Up(z))), 8)
  {
    hide Xor, Bits, Small, Up, OfByte;
    Pull(Xor(c, OfByte(b)), z);
    XorAssoc(c, OfByte(b), Up(z));
  }

  /** Four bytes at once: the register after a word. */
  lemma FeedWord(c: bv32, x: seq<bv8>)
    requires |x| == 4
    ensures Feed(c, x) == Bits(Bits(Bits(Bits(Xor(c, Word4(x[0], x[1], x[2], x[3])), 8), 8), 8), 8)
  {
    hide Xor, Bits, Small, Up, OfByte, Eat;
    WordsSmall(x[1], x[2], x[3]);
    var c1 := Eat(c, x[0]);
    var c2 := Eat(c1, x[1]);
    var c3 := Eat(c2, x[2]);
    FeedFour(c, x);
    EatIs(c3, x[3]);
    EatThen(c2, x[2], OfByte(x[3]));
    EatThen(c1, x[1], Word2(x[2], x[3]));
    EatThen(c, x[0], Word3(x[1], x[2], x[3]));
  }

  lemma EatIs(c: bv32, b: bv8)
    ensures Eat(c, b) == Bits(Xor(c, OfByte(b)), 8)
  {
  }

  lemma FeedFour(c: bv32, x: seq<bv8>)
    requires |x| == 4
    ensures Feed(c, x) == Eat(Eat(Eat(Eat(c, x[0]), x[1]), x[2]), x[3])
  {
    hide Eat;
    assert x[1..][1..] == x[2..] && x[2..][1..] == x[3..] && x[3..][1..] == [];
    var c1 := Eat(c, x[0]);
    var c2 := Eat(c1, x[1]);
    var c3 := Eat(c2, x[2]);
    assert Feed(c1, x[1..]) == Feed(c2, x[2..]);
    assert Feed(c2, x[2..]) == Feed(c3, x[3..]);
    assert Feed(c3, x[3..]) == Feed(Eat(c3, x[3]), []);
  }

  lemma WordShows(c: bv32, x: seq<bv8>, y: seq<bv8>)
    requires |x| == |y| == 4 && Feed(c, x) == Feed(c, y)
    ensures x == y
  {
    hide Xor, Bits, Feed, Word4;
    FeedWord(c, x);
    FeedWord(c, y);
    var wx, wy := Word4(x[0], x[1], x[2], x[3]), Word4(y[0], y[1], y[2], y[3]);
    var ax, ay := Bits(Xor(c, wx), 8), Bits(Xor(c, wy), 8);
    var x2, y2 := Bits(ax, 8), Bits(ay, 8);
    BitsInjective(Bits(x2, 8), Bits(y2, 8), 8);
    BitsInjective(x2, y2, 8);
    BitsInjective(ax, ay, 8);
    BitsInjective(Xor(c, wx), Xor(c, wy), 8);
    XorInjective(c, wx, wy);
    WordInjective(x, y);
  }

  /** Two byte strings that differ only inside one four-byte window have different checksums: a
      function in which a single instruction was changed never keeps its identity. */
  lemma ChangeShows(before: seq<bv8>, x: seq<bv8>, y: seq<bv8>, after: seq<bv8>, crc: bv32)
    requires |x| == |y| == 4 && x != y
    ensures Crc32(before + x + after, crc) != Crc32(before + y + after, crc)
  {
    hide Xor, Feed;
    var c := Xor(crc, ONES);
    var p := Feed(c, before);
    FeedAppend(c, before + x, after);
    FeedAppend(c, before, x);
    FeedAppend(c, before + y, after);
    FeedAppend(c, before, y);
    if Crc32(before + x + after, crc) == Crc32(before + y + after, crc) {
      XorRight(Feed(c, before + x + after), Feed(c, before + y + after), ONES);
      FeedInjective(Feed(p, x), Feed(p, y), after);
      WordShows(p, x, y);
    }
  }

  // ---- The table form ----

  function LowByte(x: bv32): bv32 { x & 0xFF }
  function Down(x: bv32): bv32 { x >> 8 }

  /** The update of the RFC: entry n of its table is the register n after eight bits. */
  function EatByTable(c: bv32, b: bv8): bv32 { Xor(Bits(LowByte(Xor(c, OfByte(b))), 8), Down(c)) }

  lemma Join(x: bv32)
    ensures Xor(LowByte(x), Up(Down(x))) == x
  {
  }

  lemma DownSmall(c: bv32)
    ensures Small(Down(c))
  {
  }

  lemma DownSkips(c: bv32, y: bv32)
    requires IsByte(y)
    ensures Down(Xor(c, y)) == Down(c)
  {
  }

  /** The table-driven update is the bit-by-bit update. */
  lemma TableAgrees(c: bv32, b: bv8)
    ensures EatByTable(c, b) == Eat(c, b)
  {
    hide Xor, Bits, LowByte, Down, OfByte, Up, Small, IsByte;
    var x := Xor(c, OfByte(b));
    Join(x);
    OfByteIs(b);
    DownSkips(c, OfByte(b));
    DownSmall(c);
    Pull(LowByte(Xor(c, OfByte(b))), Down(c));
  }
}
