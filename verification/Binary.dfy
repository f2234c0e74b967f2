/** Words as numbers: what the bit operations of the machine and of the emitted C do to the number a word
    stands for. */
module Binary {
  import opened Isa

  const SIZE := 0x1_0000_0000

  /** The number a word stands for. */
  function Num(x: bv32): (n: nat)
    ensures n < SIZE
  {
    x as int
  }

  function Pow2(n: nat): (p: nat)
    ensures p > 0
  {
    if n == 0 then 1 else 2 * Pow2(n - 1)
  }

  /** Binary digit k of a word. */
  predicate Bit(x: bv32, k: nat)
    requires k < 32
  {
    (x >> k) & 1 == 1
  }

  /** Binary digit k of a number. */
  predicate Digit(n: nat, k: nat) { n / Pow2(k) % 2 == 1 }

  lemma {:induction false} PowSum(a: nat, b: nat)
    ensures Pow2(a + b) == Pow2(a) * Pow2(b)
  {
    if a > 0 {
      PowSum(a - 1, b);
    }
  }

  lemma Powers()
    ensures Pow2(0) == 1 && Pow2(1) == 2 && Pow2(2) == 4 && Pow2(3) == 8
    ensures Pow2(4) == 16 && Pow2(5) == 32 && Pow2(6) == 64 && Pow2(7) == 128
    ensures Pow2(8) == 0x100 && Pow2(16) == 0x1_0000 && Pow2(24) == 0x100_0000 && Pow2(32) == SIZE
  {
    PowSum(8, 8);
    PowSum(8, 16);
    PowSum(16, 16);
  }

  // ---- The digits of a word are the digits of its number ----

  lemma MorePowers()
    ensures Pow2(0) == 0x1 && Pow2(1) == 0x2 && Pow2(2) == 0x4 && Pow2(3) == 0x8
    ensures Pow2(4) == 0x10 && Pow2(5) == 0x20 && Pow2(6) == 0x40 && Pow2(7) == 0x80
    ensures Pow2(8) == 0x100 && Pow2(9) == 0x200 && Pow2(10) == 0x400 && Pow2(11) == 0x800
    ensures Pow2(12) == 0x1000 && Pow2(13) == 0x2000 && Pow2(14) == 0x4000 && Pow2(15) == 0x8000
    ensures Pow2(16) == 0x1_0000 && Pow2(17) == 0x2_0000 && Pow2(18) == 0x4_0000 && Pow2(19) == 0x8_0000
    ensures Pow2(20) == 0x10_0000 && Pow2(21) == 0x20_0000 && Pow2(22) == 0x40_0000 && Pow2(23) == 0x80_0000
    ensures Pow2(24) == 0x100_0000 && Pow2(25) == 0x200_0000 && Pow2(26) == 0x400_0000 && Pow2(27) == 0x800_0000
    ensures Pow2(28) == 0x1000_0000 && Pow2(29) == 0x2000_0000 && Pow2(30) == 0x4000_0000 && Pow2(31) == 0x8000_0000
  {
    PowSum(4, 4);
    PowSum(8, 4);
    PowSum(8, 8);
    PowSum(16, 4);
    PowSum(16, 8);
    PowSum(24, 4);
  }

  /** The word that stands for a number. */
  function WordOf(n: nat): bv32
    requires n < SIZE
  {
    n as bv32
  }

  lemma BitsFrom0(n: nat)
    requires n < SIZE
    ensures Bit(WordOf(n), 0) <==> n / 0x1 % 2 == 1
    ensures Bit(WordOf(n), 1) <==> n / 0x2 % 2 == 1
    ensures Bit(WordOf(n), 2) <==> n / 0x4 % 2 == 1
    ensures Bit(WordOf(n), 3) <==> n / 0x8 % 2 == 1
  {
  }

  lemma BitsFrom4(n: nat)
    requires n < SIZE
    ensures Bit(WordOf(n), 4) <==> n / 0x10 % 2 == 1
    ensures Bit(WordOf(n), 5) <==> n / 0x20 % 2 == 1
    ensures Bit(WordOf(n), 6) <==> n / 0x40 % 2 == 1
    ensures Bit(WordOf(n), 7) <==> n / 0x80 % 2 == 1
  {
  }

  lemma BitsFrom8(n: nat)
    requires n < SIZE
    ensures Bit(WordOf(n), 8) <==> n / 0x100 % 2 == 1
    ensures Bit(WordOf(n), 9) <==> n / 0x200 % 2 == 1
    ensures Bit(WordOf(n), 10) <==> n / 0x400 % 2 == 1
    ensures Bit(WordOf(n), 11) <==> n / 0x800 % 2 == 1
  {
  }

  lemma BitsFrom12(n: nat)
    requires n < SIZE
    ensures Bit(WordOf(n), 12) <==> n / 0x1000 % 2 == 1
    ensures Bit(WordOf(n), 13) <==> n / 0x2000 % 2 == 1
    ensures Bit(WordOf(n), 14) <==> n / 0x4000 % 2 == 1
    ensures Bit(WordOf(n), 15) <==> n / 0x8000 % 2 == 1
  {
  }

  lemma BitsFrom16(n: nat)
    requires n < SIZE
    ensures Bit(WordOf(n), 16) <==> n / 0x1_0000 % 2 == 1
    ensures Bit(WordOf(n), 17) <==> n / 0x2_0000 % 2 == 1
    ensures Bit(WordOf(n), 18) <==> n / 0x4_0000 % 2 == 1
    ensures Bit(WordOf(n), 19) <==> n / 0x8_0000 % 2 == 1
  {
  }

  lemma BitsFrom20(n: nat)
    requires n < SIZE
    ensures Bit(WordOf(n), 20) <==> n / 0x10_0000 % 2 == 1
    ensures Bit(WordOf(n), 21) <==> n / 0x20_0000 % 2 == 1
    ensures Bit(WordOf(n), 22) <==> n / 0x40_0000 % 2 == 1
    ensures Bit(WordOf(n), 23) <==> n / 0x80_0000 % 2 == 1
  {
  }

  lemma BitsFrom24(n: nat)
    requires n < SIZE
    ensures Bit(WordOf(n), 24) <==> n / 0x100_0000 % 2 == 1
    ensures Bit(WordOf(n), 25) <==> n / 0x200_0000 % 2 == 1
    ensures Bit(WordOf(n), 26) <==> n / 0x400_0000 % 2 == 1
    ensures Bit(WordOf(n), 27) <==> n / 0x800_0000 % 2 == 1
  {
  }

  lemma BitsFrom28(n: nat)
    requires n < SIZE
    ensures Bit(WordOf(n), 28) <==> n / 0x1000_0000 % 2 == 1
    ensures Bit(WordOf(n), 29) <==> n / 0x2000_0000 % 2 == 1
    ensures Bit(WordOf(n), 30) <==> n / 0x4000_0000 % 2 == 1
    ensures Bit(WordOf(n), 31) <==> n / 0x8000_0000 % 2 == 1
  {
  }

  lemma DigitFrom0(n: nat, k: nat)
    requires n < SIZE && k < 8
    ensures Bit(WordOf(n), k) <==> Digit(n, k)
  {
    MorePowers();
    BitsFrom0(n);
    BitsFrom4(n);
    hide Bit, Pow2, WordOf;
    match k { case 0 => case 1 => case 2 => case 3 => case 4 => case 5 => case 6 => case _ => }
  }

  lemma DigitFrom8(n: nat, k: nat)
    requires n < SIZE && 8 <= k < 16
    ensures Bit(WordOf(n), k) <==> Digit(n, k)
  {
    MorePowers();
    BitsFrom8(n);
    BitsFrom12(n);
    hide Bit, Pow2, WordOf;
    match k { case 8 => case 9 => case 10 => case 11 => case 12 => case 13 => case 14 => case _ => }
  }

  lemma DigitFrom16(n: nat, k: nat)
    requires n < SIZE && 16 <= k < 24
    ensures Bit(WordOf(n), k) <==> Digit(n, k)
  {
    MorePowers();
    BitsFrom16(n);
    BitsFrom20(n);
    hide Bit, Pow2, WordOf;
    match k { case 16 => case 17 => case 18 => case 19 => case 20 => case 21 => case 22 => case _ => }
  }

  lemma DigitFrom24(n: nat, k: nat)
    requires n < SIZE && 24 <= k < 32
    ensures Bit(WordOf(n), k) <==> Digit(n, k)
  {
    MorePowers();
    BitsFrom24(n);
    BitsFrom28(n);
    hide Bit, Pow2, WordOf;
    match k { case 24 => case 25 => case 26 => case 27 => case 28 => case 29 => case 30 => case _ => }
  }

  lemma BitOf(n: nat, k: nat)
    requires n < SIZE && k < 32
    ensures Bit(WordOf(n), k) <==> Digit(n, k)
  {
    hide Bit, Digit, WordOf;
    if k < 8 {
      DigitFrom0(n, k);
    } else if k < 16 {
      DigitFrom8(n, k);
    } else if k < 24 {
      DigitFrom16(n, k);
    } else {
      DigitFrom24(n, k);
    }
  }

  lemma NumBack(x: bv32)
    ensures WordOf(Num(x)) == x
  {
  }

  lemma BitIs(x: bv32, k: nat)
    requires k < 32
    ensures Bit(x, k) <==> Digit(Num(x), k)
  {
    hide Bit, Digit, Num, WordOf;
    NumBack(x);
    BitOf(Num(x), k);
  }

  lemma MulLess(a: nat, b: nat, d: nat)
    ensures a <= b ==> a * d <= b * d
  {
  }

  lemma QuotientIs(n: nat, d: nat, q: nat, r: nat)
    requires n == q * d + r && r < d
    ensures n / d == q && n % d == r
  {
    var e := n / d;
    MulLess(e + 1, q, d);
    MulLess(q + 1, e, d);
    assert e * d <= n < e * d + d;
    assert (e + 1) * d == e * d + d && (q + 1) * d == q * d + d;
  }

  lemma HalfDiv(n: nat, d: nat)
    requires d > 0
    ensures n / 2 / d == n / (2 * d)
  {
    var q, s := n / 2 / d, n / 2 % d;
    assert n / 2 == q * d + s;
    assert n == q * (2 * d) + (2 * s + n % 2);
    QuotientIs(n, 2 * d, q, 2 * s + n % 2);
  }

  lemma DigitNext(n: nat, k: nat)
    ensures Digit(n, k + 1) <==> Digit(n / 2, k)
  {
    HalfDiv(n, Pow2(k));
  }

  lemma LowDigit(n: nat)
    ensures Digit(n, 0) <==> n % 2 == 1
  {
  }

  lemma NoDigit(n: nat, k: nat)
    requires n < Pow2(k)
    ensures !Digit(n, k)
  {
    hide Pow2;
    QuotientIs(n, Pow2(k), 0, n);
  }

  lemma {:induction false} SameDigits(i: nat, j: nat, n: nat)
    requires i < Pow2(n) && j < Pow2(n) && forall k :: 0 <= k < n ==> (Digit(i, k) <==> Digit(j, k))
    ensures i == j
  {
    if n > 0 {
      assert Digit(i, 0) <==> Digit(j, 0);
      forall k | 0 <= k < n - 1 ensures Digit(i / 2, k) <==> Digit(j / 2, k) {
        DigitNext(i, k);
        DigitNext(j, k);
        assert Digit(i, k + 1) <==> Digit(j, k + 1);
      }
      hide Digit;
      SameDigits(i / 2, j / 2, n - 1);
      LowDigit(i);
      LowDigit(j);
    }
  }

  /** A number below 2^32 survives the word. */
  lemma NumOf(n: nat)
    requires n < SIZE
    ensures Num(n as bv32) == n
  {
    hide Bit, Digit, Num;
    Powers();
    forall k | 0 <= k < 32 ensures Digit(n, k) <==> Digit(Num(n as bv32), k) {
      BitIs(n as bv32, k);
      BitOf(n, k);
    }
    SameDigits(n, Num(n as bv32), 32);
  }

  lemma NumInjective(x: bv32, y: bv32)
    requires Num(x) == Num(y)
    ensures x == y
  {
    hide Num;
    NumBack(x);
    NumBack(y);
  }

  // ---- Halves and parity ----

  function Half(x: bv32): bv32 { x >> 1 }

  predicate Odd(x: bv32) { x & 1 == 1 }

  lemma ShiftedFrom0(x: bv32)
    ensures (Bit(x >> 1, 0) <==> Bit(x, 1)) && (Bit(x >> 1, 1) <==> Bit(x, 2))
    ensures (Bit(x >> 1, 2) <==> Bit(x, 3)) && (Bit(x >> 1, 3) <==> Bit(x, 4))
    ensures (Bit(x >> 1, 4) <==> Bit(x, 5)) && (Bit(x >> 1, 5) <==> Bit(x, 6))
    ensures (Bit(x >> 1, 6) <==> Bit(x, 7)) && (Bit(x >> 1, 7) <==> Bit(x, 8))
  {
  }

  lemma ShiftedFrom8(x: bv32)
    ensures (Bit(x >> 1, 8) <==> Bit(x, 9)) && (Bit(x >> 1, 9) <==> Bit(x, 10))
    ensures (Bit(x >> 1, 10) <==> Bit(x, 11)) && (Bit(x >> 1, 11) <==> Bit(x, 12))
    ensures (Bit(x >> 1, 12) <==> Bit(x, 13)) && (Bit(x >> 1, 13) <==> Bit(x, 14))
    ensures (Bit(x >> 1, 14) <==> Bit(x, 15)) && (Bit(x >> 1, 15) <==> Bit(x, 16))
  {
  }

  lemma ShiftedFrom16(x: bv32)
    ensures (Bit(x >> 1, 16) <==> Bit(x, 17)) && (Bit(x >> 1, 17) <==> Bit(x, 18))
    ensures (Bit(x >> 1, 18) <==> Bit(x, 19)) && (Bit(x >> 1, 19) <==> Bit(x, 20))
    ensures (Bit(x >> 1, 20) <==> Bit(x, 21)) && (Bit(x >> 1, 21) <==> Bit(x, 22))
    ensures (Bit(x >> 1, 22) <==> Bit(x, 23)) && (Bit(x >> 1, 23) <==> Bit(x, 24))
  {
  }

  lemma ShiftedFrom24(x: bv32)
    ensures (Bit(x >> 1, 24) <==> Bit(x, 25)) && (Bit(x >> 1, 25) <==> Bit(x, 26))
    ensures (Bit(x >> 1, 26) <==> Bit(x, 27)) && (Bit(x >> 1, 27) <==> Bit(x, 28))
    ensures (Bit(x >> 1, 28) <==> Bit(x, 29)) && (Bit(x >> 1, 29) <==> Bit(x, 30))
    ensures (Bit(x >> 1, 30) <==> Bit(x, 31))
  {
  }

  lemma HalfBit(x: bv32, k: nat)
    requires k < 31
    ensures Bit(Half(x), k) <==> Bit(x, k + 1)
  {
    ShiftedFrom0(x);
    ShiftedFrom8(x);
    ShiftedFrom16(x);
    ShiftedFrom24(x);
    hide Bit;
    match k {
      case 0 => case 1 => case 2 => case 3 => case 4 => case 5 => case 6 => case 7 =>
      case 8 => case 9 => case 10 => case 11 => case 12 => case 13 => case 14 => case 15 =>
      case 16 => case 17 => case 18 => case 19 => case 20 => case 21 => case 22 => case 23 =>
      case 24 => case 25 => case 26 => case 27 => case 28 => case 29 => case _ =>
    }
  }

  lemma EndBits(x: bv32)
    ensures (Odd(x) <==> Bit(x, 0)) && !Bit(Half(x), 31)
  {
  }

  lemma HalfMeans(x: bv32)
    ensures Num(Half(x)) == Num(x) / 2
    ensures Odd(x) <==> Num(x) % 2 == 1
  {
    hide Bit, Digit, Half, Odd, Pow2, Num;
    var n := Num(x);
    Powers();
    EndBits(x);
    forall k | 0 <= k < 32 ensures Digit(Num(Half(x)), k) <==> Digit(n / 2, k) {
      BitIs(Half(x), k);
      DigitNext(n, k);
      if k < 31 {
        HalfBit(x, k);
        BitIs(x, k + 1);
      } else {
        NoDigit(n, 32);
      }
    }
    SameDigits(Num(Half(x)), n / 2, 32);
    BitIs(x, 0);
    LowDigit(n);
  }

  // ---- Addition ----

  function Succ(x: bv32): bv32 { x + 1 }
  function Pred(x: bv32): bv32 { x - 1 }

  const FULL: bv32 := 0xFFFF_FFFF

  lemma EvenSucc(x: bv32)
    ensures !Odd(x) ==> Half(Succ(x)) == Half(x) && Odd(Succ(x))
  {
  }

  lemma OddSuccHalf(x: bv32)
    ensures Odd(x) && x != FULL ==> Half(Succ(x)) == Succ(Half(x))
  {
  }

  lemma OddSucc(x: bv32)
    ensures Odd(x) ==> !Odd(Succ(x))
  {
  }

  lemma Ends()
    ensures Num(0) == 0 && Num(FULL) == SIZE - 1 && Succ(FULL) == 0
  {
  }

  lemma HalfNotFull(x: bv32)
    ensures Half(x) != FULL
  {
  }

  lemma {:induction false} SuccMeans(x: bv32)
    requires x != FULL
    ensures Num(Succ(x)) == Num(x) + 1
    decreases Num(x)
  {
    hide Num, Half, Odd, Succ;
    HalfMeans(x);
    HalfMeans(Succ(x));
    EvenSucc(x);
    OddSucc(x);
    if Odd(x) {
      OddSuccHalf(x);
      HalfNotFull(x);
      SuccMeans(Half(x));
    }
  }

  lemma ZeroIff(x: bv32)
    ensures Num(x) == 0 <==> x == 0
  {
    hide Num;
    Ends();
    if Num(x) == 0 { NumInjective(x, 0); }
  }

  lemma PredBack(y: bv32)
    ensures Succ(Pred(y)) == y && (y != 0 ==> Pred(y) != FULL)
  {
  }

  predicate Follows(p: bv32, q: bv32) { p == q + 1 }

  lemma PlusFollows(x: bv32, z: bv32)
    ensures Follows(x + (z + 1), x + z)
  {
  }

  lemma SumFollows(x: bv32, z: bv32)
    ensures Follows(AddW(x, z + 1), AddW(x, z))
  {
    hide Follows;
    PlusFollows(x, z);
  }

  lemma SuccFollows(p: bv32, q: bv32)
    ensures Follows(p, q) <==> p == Succ(q)
  {
  }

  lemma PlusZero(x: bv32)
    ensures AddW(x, 0) == x
  {
  }

  lemma PlusSucc(x: bv32, z: bv32)
    ensures AddW(x, Succ(z)) == Succ(AddW(x, z))
  {
    hide AddW, Follows;
    SumFollows(x, z);
    SuccFollows(AddW(x, Succ(z)), AddW(x, z));
  }

  /** The sum of words is the sum of their numbers, modulo 2^32. */
  lemma {:induction false} PlusMeans(x: bv32, y: bv32)
    ensures Num(AddW(x, y)) == (Num(x) + Num(y)) % SIZE
    decreases Num(y)
  {
    hide Num, AddW, Succ, Pred;
    ZeroIff(y);
    Ends();
    PlusZero(x);
    if y != 0 {
      PlusSucc(x, Pred(y));
      var z := AddW(x, Pred(y));
      PredBack(y);
      SuccMeans(Pred(y));
      PlusMeans(x, Pred(y));
      if z != FULL { SuccMeans(z); }
    }
  }

  // ---- Differences and complements ----

  predicate Differs(p: bv32, x: bv32, y: bv32) { p + y == x }

  lemma MinusDiffers(x: bv32, y: bv32)
    ensures Differs(x - y, x, y)
  {
  }

  lemma SubDiffers(x: bv32, y: bv32)
    ensures Differs(SubW(x, y), x, y)
  {
    hide Differs;
    MinusDiffers(x, y);
  }

  lemma DiffersSum(p: bv32, x: bv32, y: bv32)
    ensures Differs(p, x, y) <==> AddW(p, y) == x
  {
  }

  lemma MinusMeans(x: bv32, y: bv32)
    ensures Num(SubW(x, y)) == (Num(x) - Num(y)) % SIZE
  {
    hide Num, SubW, AddW, Differs;
    SubDiffers(x, y);
    DiffersSum(SubW(x, y), x, y);
    PlusMeans(SubW(x, y), y);
  }

  lemma NotPlus(x: bv32)
    ensures AddW(x, NotW(x)) == FULL
  {
  }

  lemma NotMeans(x: bv32)
    ensures Num(NotW(x)) == SIZE - 1 - Num(x)
  {
    hide Num, AddW, NotW;
    NotPlus(x);
    PlusMeans(x, NotW(x));
    Ends();
  }

  // ---- Order and sign ----

  lemma LessMeans(x: bv32, y: bv32)
    ensures LessW(x, y) <==> Num(x) < Num(y)
  {
  }

  const TOP: bv32 := 0x8000_0000

  lemma SignIs(x: bv32)
    ensures Negative(x) <==> x >= TOP
  {
  }

  lemma BelowTop(x: bv32)
    ensures x < TOP <==> Num(x) < 0x8000_0000
  {
  }

  lemma SIntIs(x: bv32)
    ensures SInt(x) == if x < TOP then Num(x) else Num(x) - SIZE
  {
  }

  lemma SignMeans(x: bv32)
    ensures Negative(x) <==> Num(x) >= 0x8000_0000
    ensures SInt(x) == if Negative(x) then Num(x) - SIZE else Num(x)
  {
    hide Num, Negative, SInt;
    SignIs(x);
    BelowTop(x);
    SIntIs(x);
  }

  // ---- Masks ----

  lemma HalfAnd(x: bv32, m: bv32)
    ensures Half(AndW(x, m)) == AndW(Half(x), Half(m)) && (Odd(AndW(x, m)) <==> Odd(x) && Odd(m))
  {
  }

  lemma HalfMod(n: nat, d: nat)
    requires d > 0
    ensures n % (2 * d) == 2 * (n / 2 % d) + n % 2
  {
    var q, s := n / 2 / d, n / 2 % d;
    assert n / 2 == q * d + s;
    assert n == q * (2 * d) + (2 * s + n % 2);
    QuotientIs(n, 2 * d, q, 2 * s + n % 2);
  }

  /** Masking with 2^m - 1 is the remainder by 2^m. */
  lemma {:induction false} MaskMeans(x: bv32, mask: bv32, m: nat)
    requires Num(mask) == Pow2(m) - 1
    ensures Num(AndW(x, mask)) == Num(x) % Pow2(m)
    decreases m
  {
    hide Num, AndW, Half, Odd;
    HalfAnd(x, mask);
    HalfMeans(x);
    HalfMeans(mask);
    HalfMeans(AndW(x, mask));
    if m == 0 {
      ZeroIff(mask);
      AndZero(x);
      Ends();
    } else {
      MaskMeans(Half(x), Half(mask), m - 1);
      HalfMod(Num(x), Pow2(m - 1));
    }
  }

  lemma AndZero(x: bv32)
    ensures AndW(x, 0) == 0
  {
  }

  // ---- Digits of the bitwise operations ----

  lemma HalfOr(x: bv32, m: bv32)
    ensures Half(OrW(x, m)) == OrW(Half(x), Half(m)) && (Odd(OrW(x, m)) <==> Odd(x) || Odd(m))
  {
  }

  lemma HalfXor(x: bv32, m: bv32)
    ensures Half(XorW(x, m)) == XorW(Half(x), Half(m)) && (Odd(XorW(x, m)) <==> Odd(x) != Odd(m))
  {
  }

  lemma DigitIs(x: bv32, k: nat)
    ensures Digit(Num(x), k) <==> if k == 0 then Odd(x) else Digit(Num(Half(x)), k - 1)
  {
    hide Num, Half, Odd, Digit;
    HalfMeans(x);
    if k == 0 { LowDigit(Num(x)); } else { DigitNext(Num(x), k - 1); }
  }

  /** AND, OR and XOR work digit by digit. */
  lemma {:induction false} BitwiseMeans(x: bv32, y: bv32, k: nat)
    ensures Digit(Num(AndW(x, y)), k) <==> Digit(Num(x), k) && Digit(Num(y), k)
    ensures Digit(Num(OrW(x, y)), k) <==> Digit(Num(x), k) || Digit(Num(y), k)
    ensures Digit(Num(XorW(x, y)), k) <==> Digit(Num(x), k) != Digit(Num(y), k)
    decreases k
  {
    hide Num, Digit, Half, Odd, AndW, OrW, XorW;
    DigitIs(x, k);
    DigitIs(y, k);
    DigitIs(AndW(x, y), k);
    DigitIs(OrW(x, y), k);
    DigitIs(XorW(x, y), k);
    HalfAnd(x, y);
    HalfOr(x, y);
    HalfXor(x, y);
    if k > 0 { BitwiseMeans(Half(x), Half(y), k - 1); }
  }

  // ---- Shifts ----

  function Twice(x: bv32): bv32 { x << 1 }

  lemma TwiceIs(x: bv32)
    ensures Twice(x) == AddW(x, x)
  {
  }

  lemma NoShift(x: bv32)
    ensures Shl(x, 0) == x && Shr(x, 0) == x
  {
  }

  predicate Shifted(y: bv32, x: bv32, n: bv32) { n < 32 && y == x >> n }
  predicate Raised(y: bv32, x: bv32, n: bv32) { n < 32 && y == x << n }

  lemma RightTwice(x: bv32, n: bv32, y: bv32)
    requires n < 31 && y == x >> n
    ensures y >> 1 == x >> (n + 1)
  {
  }

  lemma LeftTwice(x: bv32, n: bv32, y: bv32)
    requires n < 31 && y == x << n
    ensures y << 1 == x << (n + 1)
  {
  }

  lemma HalfShifted(x: bv32, n: bv32, y: bv32)
    requires n < 31 && Shifted(y, x, n)
    ensures Shifted(Half(y), x, Succ(n))
  {
    RightTwice(x, n, y);
  }

  lemma TwiceRaised(x: bv32, n: bv32, y: bv32)
    requires n < 31 && Raised(y, x, n)
    ensures Raised(Twice(y), x, Succ(n))
  {
    LeftTwice(x, n, y);
  }

  lemma ShrShifted(x: bv32, n: bv32)
    requires n < 32
    ensures Shifted(Shr(x, n), x, n) && Raised(Shl(x, n), x, n)
  {
  }

  lemma ShiftedUnique(y: bv32, z: bv32, x: bv32, n: bv32)
    ensures Shifted(y, x, n) && Shifted(z, x, n) ==> y == z
    ensures Raised(y, x, n) && Raised(z, x, n) ==> y == z
  {
  }

  lemma SuccBelow(n: bv32)
    requires n < 31
    ensures Succ(n) < 32 && n < 32
  {
  }

  lemma ShrSucc(x: bv32, n: bv32)
    requires n < 31
    ensures Shr(x, Succ(n)) == Half(Shr(x, n)) && Shl(x, Succ(n)) == Twice(Shl(x, n))
  {
    hide Shr, Shl, Half, Twice, Succ, Shifted, Raised;
    SuccBelow(n);
    ShrShifted(x, n);
    ShrShifted(x, Succ(n));
    HalfShifted(x, n, Shr(x, n));
    TwiceRaised(x, n, Shl(x, n));
    ShiftedUnique(Shr(x, Succ(n)), Half(Shr(x, n)), x, Succ(n));
    ShiftedUnique(Shl(x, Succ(n)), Twice(Shl(x, n)), x, Succ(n));
  }

  lemma Below(n: bv32)
    ensures (n < 31 <==> Num(n) < 31) && (n < 32 <==> Num(n) < 32)
  {
  }

  /** Shift counts as words. */
  lemma Count(s: nat)
    requires s < 32
    ensures Num(ToBv(s)) == s && ToBv(s) < 32 && (s < 31 ==> ToBv(s) < 31)
  {
    NumOf(s);
    hide Num;
    Below(ToBv(s));
  }

  lemma CountSucc(s: nat)
    requires s < 31
    ensures ToBv(s) < 31 && ToBv(s + 1) == Succ(ToBv(s))
  {
    hide Num, Succ, ToBv;
    Count(s);
    Count(s + 1);
    Ends();
    SuccMeans(ToBv(s));
    NumInjective(ToBv(s + 1), Succ(ToBv(s)));
  }

  lemma NoCount()
    ensures ToBv(0) == 0
  {
  }

  lemma DivHalf(n: nat, d: nat)
    requires d > 0
    ensures n / d / 2 == n / (2 * d)
  {
    var q, r := n / d / 2, n / d % 2;
    assert n == (2 * q + r) * d + n % d;
    assert (2 * q + r) * d == q * (2 * d) + r * d;
    QuotientIs(n, 2 * d, q, r * d + n % d);
  }

  /** A logical shift to the right divides. */
  lemma {:induction false} ShrMeans(x: bv32, s: nat)
    requires s < 32
    ensures Num(Shr(x, ToBv(s))) == Num(x) / Pow2(s)
    decreases s
  {
    hide Num, Shr, ToBv, Half, Succ;
    if s == 0 {
      NoCount();
      NoShift(x);
    } else {
      CountSucc(s - 1);
      ShrSucc(x, ToBv(s - 1));
      ShrMeans(x, s - 1);
      HalfMeans(Shr(x, ToBv(s - 1)));
      DivHalf(Num(x), Pow2(s - 1));
    }
  }

  lemma DoubleMod(a: nat)
    ensures (a % SIZE + a % SIZE) % SIZE == 2 * a % SIZE
  {
  }

  lemma ProductMod(n: nat, p: nat)
    ensures (n * p % SIZE + n * p % SIZE) % SIZE == n * (2 * p) % SIZE
  {
    DoubleMod(n * p);
    assert 2 * (n * p) == n * (2 * p);
  }

  /** A shift to the left multiplies, modulo 2^32. */
  lemma {:induction false} ShlMeans(x: bv32, s: nat)
    requires s < 32
    ensures Num(Shl(x, ToBv(s))) == Num(x) * Pow2(s) % SIZE
    decreases s
  {
    hide Num, Shl, ToBv, Twice, Succ, AddW;
    if s == 0 {
      NoCount();
      NoShift(x);
    } else {
      CountSucc(s - 1);
      ShrSucc(x, ToBv(s - 1));
      ShlMeans(x, s - 1);
      var y := Shl(x, ToBv(s - 1));
      TwiceIs(y);
      PlusMeans(y, y);
      ProductMod(Num(x), Pow2(s - 1));
    }
  }

  lemma Products(a: int, b: int, d: nat)
    ensures a <= b ==> a * d <= b * d
  {
  }

  lemma FloorIs(n: int, d: nat, q: int, r: nat)
    requires n == q * d + r && r < d
    ensures n / d == q
  {
    var e := n / d;
    Products(e + 1, q, d);
    Products(q + 1, e, d);
    assert e * d <= n < e * d + d;
    assert (e + 1) * d == e * d + d && (q + 1) * d == q * d + d;
  }

  lemma FloorNegative(a: nat, d: nat)
    requires d > 0
    ensures (-1 - a) / d == -1 - a / d
  {
    var q, r := a / d, a % d;
    assert a == q * d + r;
    assert (-1 - q) * d == 0 - d - q * d;
    FloorIs(-1 - a, d, -1 - q, d - 1 - r);
  }

  lemma SraShifted(x: bv32, n: bv32, y: bv32)
    requires n < 32 && Negative(x) && Shifted(y, NotW(x), n)
    ensures Sra(x, n) == NotW(y)
  {
  }

  lemma SraIs(x: bv32, n: bv32)
    requires n < 32
    ensures Sra(x, n) == if Negative(x) then NotW(Shr(NotW(x), n)) else Shr(x, n)
  {
    if Negative(x) {
      hide Shr, Sra, Negative, NotW, Shifted;
      ShrShifted(NotW(x), n);
      SraShifted(x, n, Shr(NotW(x), n));
    }
  }

  lemma QuotientSmall(n: nat, d: nat)
    requires d > 0
    ensures n / d <= n
  {
    MulLess(1, d, n / d);
  }

  /** An arithmetic shift to the right divides the signed number, rounding down. */
  lemma SraMeans(x: bv32, s: nat)
    requires s < 32
    ensures SInt(Sra(x, ToBv(s))) == SInt(x) / Pow2(s)
  {
    hide Num, Sra, Shr, ToBv, Negative, SInt, NotW, Pow2;
    var n := ToBv(s);
    Count(s);
    SraIs(x, n);
    SignMeans(x);
    SignMeans(Sra(x, n));
    if Negative(x) {
      NotMeans(x);
      ShrMeans(NotW(x), s);
      NotMeans(Shr(NotW(x), n));
      QuotientSmall(Num(NotW(x)), Pow2(s));
      FloorNegative(Num(NotW(x)), Pow2(s));
    } else {
      ShrMeans(x, s);
      QuotientSmall(Num(x), Pow2(s));
    }
  }

  // ---- Bytes and halves of words ----

  lemma Masks()
    ensures Num(3) == Pow2(2) - 1 && Num(0x1F) == Pow2(5) - 1
    ensures Num(0xFF) == Pow2(8) - 1 && Num(0xFFFF) == Pow2(16) - 1
  {
    Powers();
  }

  lemma LowIs(v: bv32)
    ensures LowByte(v) == AndW(v, 0xFF) && LowHalf(v) == AndW(v, 0xFFFF) && Lane(v) == AndW(v, 3)
  {
  }

  lemma LowMeans(v: bv32)
    ensures Num(LowByte(v)) == Num(v) % 0x100
    ensures Num(LowHalf(v)) == Num(v) % 0x1_0000
    ensures Num(Lane(v)) == Num(v) % 4
  {
    hide Num, AndW, LowByte, LowHalf, Lane, Pow2;
    Powers();
    Masks();
    LowIs(v);
    MaskMeans(v, 0xFF, 8);
    MaskMeans(v, 0xFFFF, 16);
    MaskMeans(v, 3, 2);
  }

  lemma AlignedIs(a: bv32)
    ensures AddW(Aligned(a), Lane(a)) == a
  {
  }

  lemma AlignedMultiple(a: bv32)
    ensures Lane(Aligned(a)) == 0
  {
  }

  /** The word an address lies in begins at the multiple of 4 below it. */
  lemma AlignedMeans(a: bv32)
    ensures Num(Aligned(a)) == Num(a) - Num(a) % 4
  {
    hide Num, AddW, Aligned, Lane;
    AlignedIs(a);
    AlignedMultiple(a);
    LowMeans(a);
    LowMeans(Aligned(a));
    Ends();
    PlusMeans(Aligned(a), Lane(a));
  }

  lemma SameWordIff(a: bv32, b: bv32)
    ensures Aligned(a) == Aligned(b) <==> Num(a) / 4 == Num(b) / 4
  {
    hide Num, Aligned;
    AlignedMeans(a);
    AlignedMeans(b);
    if Num(Aligned(a)) == Num(Aligned(b)) { NumInjective(Aligned(a), Aligned(b)); }
  }

  function ByteSkip(k: bv32): bv32 { k * 8 }

  lemma ByteIs(x: bv32, k: bv32)
    requires k < 4
    ensures ByteOf(x, k) == LowByte(Shr(x, ByteSkip(k)))
  {
  }

  lemma ByteShift(k: bv32)
    requires k < 4
    ensures Num(k) < 4 && ByteSkip(k) == ToBv(8 * Num(k))
  {
    SmallLane(k);
    ByteCounts();
  }

  lemma ByteCounts()
    ensures ToBv(0) == 0 && ToBv(8) == 8 && ToBv(16) == 16 && ToBv(24) == 24
    ensures Num(0) == 0 && Num(1) == 1 && Num(2) == 2 && Num(3) == 3
  {
  }

  lemma SmallLane(k: bv32)
    requires k < 4
    ensures k == 0 || k == 1 || k == 2 || k == 3
  {
  }

  lemma LowShifted(x: bv32, s: nat)
    requires s < 32
    ensures Num(LowByte(Shr(x, ToBv(s)))) == Num(x) / Pow2(s) % 0x100
  {
    hide Num, Shr, LowByte, ToBv, Pow2;
    ShrMeans(x, s);
    LowMeans(Shr(x, ToBv(s)));
  }

  /** Byte k of a word is digit k of its number to the base 256. */
  lemma ByteMeans(x: bv32, k: bv32)
    requires k < 4
    ensures Num(k) < 4 && Num(ByteOf(x, k)) == Num(x) / Pow2(8 * Num(k)) % 0x100
  {
    ByteIs(x, k);
    ByteShift(k);
    hide Num, ByteOf, Shr, LowByte, ToBv, Pow2, ByteSkip;
    LowShifted(x, 8 * Num(k));
  }

  lemma SignBit(x: bv32)
    requires x < 0x1_0000
    ensures SignExtend16(x) == if x >= 0x8000 then AddW(x, 0xFFFF_0000) else x
    ensures x < 0x100 ==> SignExtend8(x) == if x >= 0x80 then AddW(x, 0xFFFF_FF00) else x
  {
  }

  lemma SignBounds(x: bv32)
    ensures (x < 0x1_0000 <==> Num(x) < 0x1_0000) && (x < 0x100 <==> Num(x) < 0x100)
    ensures (x < 0x8000 <==> Num(x) < 0x8000) && (x < 0x80 <==> Num(x) < 0x80)
  {
  }

  lemma SignFills()
    ensures Num(0xFFFF_0000) == 0xFFFF_0000 && Num(0xFFFF_FF00) == 0xFFFF_FF00
  {
  }

  /** Sign extension keeps the number of a byte or half in two's complement. */
  lemma ExtendMeans(x: bv32)
    ensures Num(x) < 0x100 ==> SInt(SignExtend8(x)) == if Num(x) >= 0x80 then Num(x) - 0x100 else Num(x)
    ensures Num(x) < 0x1_0000 ==> SInt(SignExtend16(x)) == if Num(x) >= 0x8000 then Num(x) - 0x1_0000 else Num(x)
  {
    hide Num, SInt, SignExtend8, SignExtend16, AddW, Negative;
    SignBounds(x);
    SignFills();
    if x < 0x1_0000 {
      SignBit(x);
      PlusMeans(x, 0xFFFF_0000);
      PlusMeans(x, 0xFFFF_FF00);
      SignMeans(SignExtend8(x));
      SignMeans(SignExtend16(x));
    }
  }
}
