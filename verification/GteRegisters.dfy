/** The registers of coprocessor 2: what a read shows after a write, in integers. */
module GteRegisters {
  import opened Mips
  import opened Isa
  import opened Binary
  import Encoding
  import Translator

  // ---- What a register holds ----

  /** The signed number of a halfword. */
  function Signed16(h: int): int { if h < 0x8000 then h else h - 0x1_0000 }

  lemma HalvesTwice(v: bv32)
    ensures LowHalf(LowHalf(v)) == LowHalf(v) && LowHalf(SignExtend16(LowHalf(v))) == LowHalf(v)
  {
  }

  lemma KeptTwice(r: Reg, v: bv32)
    ensures DataKept(r, DataKept(r, v)) == DataKept(r, v) && CtrlKept(r, CtrlKept(r, v)) == CtrlKept(r, v)
  {
    hide LowHalf, SignExtend16;
    HalvesTwice(v);
  }

  lemma ExtendedHalf(v: bv32)
    ensures SInt(SignExtend16(LowHalf(v))) == Signed16(Num(v) % 0x1_0000)
  {
    hide Num, SInt, SignExtend16, LowHalf, Negative;
    LowMeans(v);
    ExtendMeans(LowHalf(v));
    SignMeans(SignExtend16(LowHalf(v)));
  }

  /** What stays of a value written to a data register. */
  lemma DataKeptMeans(r: Reg, v: bv32)
    ensures r in {1, 3, 5, 7, 16, 17, 18, 19} ==> Num(DataKept(r, v)) == Num(v) % 0x1_0000
    ensures 8 <= r <= 11 ==> SInt(DataKept(r, v)) == Signed16(Num(v) % 0x1_0000)
    ensures r == 23 ==> Num(DataKept(r, v)) == 0
    ensures r !in {1, 3, 5, 7, 8, 9, 10, 11, 16, 17, 18, 19, 23} ==> DataKept(r, v) == v
  {
    hide Num, SInt, SignExtend16, LowHalf;
    LowMeans(v);
    ExtendedHalf(v);
    ByteCounts();
  }

  lemma CtrlKeptMeans(r: Reg, v: bv32)
    ensures r in {4, 12, 20, 26} ==> Num(CtrlKept(r, v)) == Num(v) % 0x1_0000
    ensures r in {27, 29, 30} ==> SInt(CtrlKept(r, v)) == Signed16(Num(v) % 0x1_0000)
    ensures r !in {4, 12, 20, 26, 27, 29, 30} ==> CtrlKept(r, v) == v
  {
    hide Num, SInt, SignExtend16, LowHalf;
    LowMeans(v);
    ExtendedHalf(v);
  }

  // ---- A write, then a read ----

  /** Which reads a write may change. */
  function Touched(r: Reg): set<Reg> {
    match r
    case 9 => {9, 28, 29}
    case 10 => {10, 28, 29}
    case 11 => {11, 28, 29}
    case 14 => {14, 15}
    case 15 => {12, 13, 14, 15}
    case 28 => {9, 10, 11, 28, 29}
    case 29 => {}
    case 30 => {30, 31}
    case 31 => {}
    case _ => {r}
  }

  lemma SettledReads(d: Regs, q: Reg)
    ensures ReadData(Settle(d), q) == ReadData(d, q)
  {
    hide DataKept, LeadingZeros, Component, Pack, Unsigned;
    KeptTwice(q, d[q]);
    KeptTwice(9, d[9]);
    KeptTwice(10, d[10]);
    KeptTwice(11, d[11]);
    Wide(d);
  }

  lemma Wide(d: Regs)
    ensures DataKept(14, d[14]) == d[14] && DataKept(30, d[30]) == d[30]
    ensures DataKept(12, d[12]) == d[12] && DataKept(13, d[13]) == d[13]
  {
  }

  /** A write shows in the registers it touches and in no other. */
  lemma WriteFrame(c: Cpu, r: Reg, v: bv32, q: Reg)
    requires q !in Touched(r)
    ensures ReadData(WriteData(c, r, v).gte, q) == ReadData(c.gte, q)
    ensures var c' := WriteData(c, r, v);
            c' == c.(gte := c'.gte, ctrl := c'.ctrl) && ReadCtrl(c'.ctrl, q) == ReadCtrl(c.ctrl, q)
  {
    hide DataKept, LeadingZeros, Component, Pack, Unsigned, Red, Green, Blue, Settle, CtrlKept;
    SettledReads(Put(c.gte, r, v), q);
    KeptTwice(q, c.ctrl[q]);
  }

  /** What is written is read back as far as the register is wide; 15 pushes the queue 12, 13, 14. */
  lemma WriteRead(c: Cpu, r: Reg, v: bv32)
    requires r !in {28, 29, 31}
    ensures var d := WriteData(c, r, v).gte;
            && ReadData(d, r) == DataKept(r, v)
            && (r == 15 ==> ReadData(d, 14) == v && ReadData(d, 13) == c.gte[14] && ReadData(d, 12) == c.gte[13])
            && (r == 14 ==> ReadData(d, 15) == v)
  {
    hide DataKept, LeadingZeros, Component, Pack, Unsigned, Red, Green, Blue, Settle;
    var d := Put(c.gte, r, v);
    SettledReads(d, r);
    SettledReads(d, 12);
    SettledReads(d, 13);
    SettledReads(d, 14);
    SettledReads(d, 15);
    Wide(d);
    Whole(v);
  }

  lemma Whole(v: bv32)
    ensures DataKept(15, v) == v
  {
  }

  // ---- The control registers ----

  lemma FlagMask(v: bv32)
    ensures v & 0x7FFF_F000 == SubW(AndW(v, 0x7FFF_FFFF), AndW(v, 0xFFF))
  {
  }

  lemma FlagMasks()
    ensures Num(0x7FFF_FFFF) == Pow2(31) - 1 && Num(0xFFF) == Pow2(12) - 1
    ensures Pow2(12) == 0x1000 && Pow2(15) == 0x8000 && Pow2(31) == 0x8000_0000
  {
    Powers();
    PowSum(8, 4);
    PowSum(8, 7);
    PowSum(16, 15);
  }

  lemma FlagBits(n: int)
    requires 0 <= n < SIZE
    ensures var x := n % 0x8000_0000 - n % 0x1000; x % SIZE == n % 0x8000_0000 / 0x1000 * 0x1000
  {
  }

  /** A control register is read back as far as it is wide, the flag register without its top bit and its last
      twelve bits; no other control register and no data register changes. */
  lemma CtrlWriteRead(c: Cpu, r: Reg, v: bv32, q: Reg)
    ensures var c' := WriteCtrl(c, r, v);
            && c' == c.(gte := c'.gte, ctrl := c'.ctrl)
            && ReadData(c'.gte, q) == ReadData(c.gte, q)
            && (q != r ==> ReadCtrl(c'.ctrl, q) == ReadCtrl(c.ctrl, q))
            && (r != 31 ==> ReadCtrl(c'.ctrl, r) == CtrlKept(r, v))
            && (r == 31 ==> Num(ReadCtrl(c'.ctrl, r)) == Num(v) % 0x8000_0000 / 0x1000 * 0x1000)
  {
    FlagMask(v);
    FlagMasks();
    var u := if r == 31 then v & 0x7FFF_F000 else v;
    hide Num, Pow2, CtrlKept, ReadData, Settle, AndW, SubW;
    SettledReads(c.gte, q);
    KeptTwice(q, c.ctrl[q]);
    KeptTwice(r, u);
    CtrlKeptMeans(31, u);
    MaskMeans(v, 0x7FFF_FFFF, 31);
    MaskMeans(v, 0xFFF, 12);
    MinusMeans(AndW(v, 0x7FFF_FFFF), AndW(v, 0xFFF));
    FlagBits(Num(v));
  }

  // ---- Colours ----

  lemma PackBack(v: bv32)
    ensures Pack(Component(DataKept(9, Red(v))), Component(DataKept(10, Green(v))), Component(DataKept(11, Blue(v)))) ==
            AndW(v, 0x7FFF)
  {
  }

  /** A colour of fifteen bits written to register 28 is read back from 28 and 29. */
  lemma ColourBack(c: Cpu, v: bv32, q: Reg)
    requires q in {28, 29}
    ensures Num(ReadData(WriteData(c, 28, v).gte, q)) == Num(v) % 0x8000
  {
    FlagMasks();
    ColourMask();
    PackBack(v);
    hide Num, Pow2, DataKept, LeadingZeros, Component, Pack, Unsigned, Red, Green, Blue, Settle, AndW;
    SettledReads(Put(c.gte, 28, v), q);
    MaskMeans(v, 0x7FFF, 15);
  }

  lemma ColourMask()
    ensures Num(0x7FFF) == 0x7FFF && Num(0x1F) == 0x1F && ToBv(7) == 7 && ToBv(5) == 5 && ToBv(10) == 10
  {
  }

  /** The brightness of an intermediate result: its quotient by 128, from 0 to 31. */
  function Level(n: int): int { if n < 0 then 0 else if n / 128 > 31 then 31 else n / 128 }

  lemma AboveLevel(x: bv32)
    ensures x > 0x1F <==> Num(x) > 0x1F
  {
  }

  lemma ComponentMeans(x: bv32)
    ensures Num(Component(x)) == Level(SInt(x))
  {
    ColourMask();
    ByteCounts();
    Powers();
    AboveLevel(Shr(x, 7));
    hide Num, Pow2, Shr, SInt, Negative, ToBv;
    SignMeans(x);
    ShrMeans(x, 7);
  }

  lemma PlusSmall(x: bv32, y: bv32)
    requires Num(x) + Num(y) < SIZE
    ensures Num(AddW(x, y)) == Num(x) + Num(y)
  {
    hide Num, AddW;
    PlusMeans(x, y);
  }

  predicate FiveBits(x: bv32) { x <= 0x1F }

  lemma PackSums(r: bv32, g: bv32, b: bv32)
    requires FiveBits(r) && FiveBits(g) && FiveBits(b)
    ensures Pack(r, g, b) == AddW(AddW(Shl(b, 10), Shl(g, 5)), r)
  {
  }

  lemma ComponentFits(x: bv32)
    ensures FiveBits(Component(x))
  {
  }

  lemma Raised(x: bv32)
    requires Num(x) <= 31
    ensures Num(Shl(x, 5)) == Num(x) * 32 && Num(Shl(x, 10)) == Num(x) * 1024
  {
    ColourMask();
    Powers();
    PowSum(8, 2);
    hide Num, Pow2, Shl, ToBv;
    ShlMeans(x, 5);
    ShlMeans(x, 10);
  }

  lemma PackMeans(r: bv32, g: bv32, b: bv32)
    requires FiveBits(r) && FiveBits(g) && FiveBits(b) && Num(r) <= 31 && Num(g) <= 31 && Num(b) <= 31
    ensures Num(Pack(r, g, b)) == Num(b) * 1024 + Num(g) * 32 + Num(r)
  {
    hide Num, Shl, AddW, Pack, FiveBits;
    PackSums(r, g, b);
    Raised(b);
    Raised(g);
    PlusSmall(Shl(b, 10), Shl(g, 5));
    PlusSmall(AddW(Shl(b, 10), Shl(g, 5)), r);
  }

  /** Registers 28 and 29 show the levels of the intermediate results 9, 10 and 11. */
  lemma ColourMeans(d: Regs, q: Reg)
    requires q in {28, 29}
    ensures Num(ReadData(d, q)) ==
            Level(SInt(ReadData(d, 9))) + 32 * Level(SInt(ReadData(d, 10))) + 1024 * Level(SInt(ReadData(d, 11)))
  {
    hide Num, SInt, Component, Pack, DataKept, LeadingZeros, Unsigned, FiveBits;
    var r, g, b := DataKept(9, d[9]), DataKept(10, d[10]), DataKept(11, d[11]);
    ComponentFits(r);
    ComponentFits(g);
    ComponentFits(b);
    ComponentMeans(r);
    ComponentMeans(g);
    ComponentMeans(b);
    PackMeans(Component(r), Component(g), Component(b));
  }

  // ---- Leading bits ----

  lemma OneStep(v: bv32)
    requires !Negative(v)
    ensures Num(Shl(v, 1)) == 2 * Num(v)
  {
    OneCount();
    hide Num, Negative, Shl, ToBv, Pow2;
    OnePower();
    SignMeans(v);
    ShlMeans(v, 1);
    DoubleFits(Num(v));
  }

  lemma DoubleFits(n: nat)
    requires n < 0x8000_0000
    ensures n * 2 % SIZE == 2 * n
  {
  }

  lemma OnePower()
    ensures Pow2(1) == 2
  {
  }

  lemma OneCount()
    ensures ToBv(1) == 1
  {
  }

  lemma Doubles(m: int, p: int)
    requires p > 0 && m % p == 0
    ensures 2 * m % (2 * p) == 0
  {
    Encoding.Peel(2 * m, 2 * p, m / p, 0);
  }

  lemma NotBelow(m: int)
    requires 0 <= m < SIZE && m % Pow2(32) == 0
    ensures m == 0
  {
    Powers();
  }

  /** k zeros lead a number of n digits followed by zeros. */
  ghost predicate Leads(m: int, k: int, n: nat) {
    if m == 0 then k == n else 0 <= k < n <= 32 && Pow2(31 - k) <= m < Pow2(32 - k)
  }

  lemma LeadsNext(m: int, k: int, n: nat)
    requires 0 < n <= 32 && Leads(2 * m, k, n - 1)
    ensures Leads(m, k + 1, n)
  {
    hide Pow2;
    if m != 0 {
      PowNext(31 - k);
      PowNext(30 - k);
    }
  }

  lemma LeadsTop(m: int, n: nat)
    requires 0x8000_0000 <= m < SIZE && 0 < n <= 32
    ensures Leads(m, 0, n)
  {
    FlagMasks();
    Powers();
    hide Pow2;
  }

  /** The count of leading zeros of a number whose last digits, as many as were shifted in, are zeros. */
  lemma {:induction false} LeadingMeans(v: bv32, n: nat)
    requires n <= 32 && Num(v) % Pow2(32 - n) == 0
    ensures Leads(Num(v), Num(LeadingZeros(v, n)), n)
    decreases n
  {
    ByteCounts();
    hide Num, Negative, Shl, AddW, Pow2, Leads;
    SignMeans(v);
    if n == 0 {
      NotBelow(Num(v));
      LeadsNone();
    } else if Negative(v) {
      LeadsTop(Num(v), n);
    } else {
      OneStep(v);
      Doubles(Num(v), Pow2(32 - n));
      PowNext(32 - n);
      LeadingMeans(Shl(v, 1), n - 1);
      var z := LeadingZeros(Shl(v, 1), n - 1);
      LeadsNext(Num(v), Num(z), n);
      LeadsSmall(2 * Num(v), Num(z), n - 1);
      PlusSmall(1, z);
    }
  }

  lemma LeadsNone()
    ensures Leads(0, 0, 0)
  {
  }

  lemma LeadsSmall(m: int, k: int, n: nat)
    requires Leads(m, k, n) && n <= 32
    ensures 0 <= k <= 32
  {
  }

  lemma PowNext(m: nat)
    ensures Pow2(m + 1) == 2 * Pow2(m)
  {
  }

  lemma UnsignedMeans(v: bv32)
    ensures Num(Unsigned(v)) == if SInt(v) < 0 then -SInt(v) - 1 else SInt(v)
  {
    NotIs(v);
    hide Num, SInt, Negative, NotW;
    SignMeans(v);
    NotMeans(v);
  }

  lemma NotIs(v: bv32)
    ensures !v == NotW(v)
  {
  }

  /** Register 31 counts how many leading bits of register 30 are like its sign. */
  lemma LeadingRead(d: Regs)
    ensures var k, s := Num(ReadData(d, 31)), SInt(d[30]);
            var m := if s < 0 then -s - 1 else s;
            if m == 0 then k == 32 else 0 <= k < 32 && Pow2(31 - k) <= m < Pow2(32 - k)
  {
    Powers();
    hide Num, SInt, Pow2, LeadingZeros, Unsigned, DataKept, Colour;
    UnsignedMeans(d[30]);
    LeadingMeans(Unsigned(d[30]), 32);
  }

  // ---- Registers the emitted code treats as plain words ----

  /** No register that is computed at every read is read as a plain word, and none whose write shows in another is
      assigned as one. */
  lemma HelpersSuffice(r: Reg)
    ensures r in {15, 28, 29, 31} ==> Translator.ReadByHelper(r)
    ensures |Touched(r)| >= 2 ==> Translator.WrittenByHelper(r)
  {
  }

  /** Exactly these registers are assigned as plain words although they are narrower. */
  lemma RiskyRegisters(r: Reg)
    ensures !Translator.WrittenByHelper(r) && (exists v :: DataKept(r, v) != v) <==> r in {1, 3, 5, 16, 17, 18, 19, 23}
    ensures !Translator.CtrlByHelper(r) && (exists v :: CtrlKept(r, v) != v) <==> r in {4, 12, 20}
  {
    Wider();
    hide LowHalf, SignExtend16;
    assert DataKept(r, FULL) == FULL || DataKept(r, FULL) != FULL;
    assert CtrlKept(r, FULL) == FULL || CtrlKept(r, FULL) != FULL;
  }

  lemma Wider()
    ensures LowHalf(FULL) != FULL && FULL != 0
  {
  }
}
