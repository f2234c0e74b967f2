/** Words at any address: the pairs LWR, LWL and SWR, SWL together read and write the four bytes there. */
module Straddle {
  import opened Mips
  import opened Isa
  import opened Binary
  import opened Encoding
  import opened Meaning

  lemma QuarterAhead(n: int, j: int)
    requires 0 <= n < SIZE && 0 <= j < 4
    ensures n % 4 + j < 4 ==> (n + j) % SIZE / 4 == n / 4
    ensures n % 4 + j >= 4 ==> (n + j) % SIZE / 4 == (n + 3) % SIZE / 4
  {
    var q, r := n / 4, n % 4;
    assert n == 4 * q + r;
    if q == SIZE / 4 - 1 {
      assert r + j >= 4 ==> (n + j) % SIZE == r + j - 4;
      assert r + 3 >= 4 ==> (n + 3) % SIZE == r + 3 - 4;
    }
  }

  /** Whether an address a few bytes ahead is in the same word. */
  lemma WordAhead(a: bv32, j: bv32)
    requires Num(j) < 4
    ensures Num(a) % 4 + Num(j) < 4 ==> Aligned(AddW(a, j)) == Aligned(a)
    ensures Num(a) % 4 + Num(j) >= 4 ==> Aligned(AddW(a, j)) == Aligned(AddW(a, 3))
  {
    hide Num, Aligned, AddW;
    ByteCounts();
    PlusMeans(a, j);
    PlusMeans(a, 3);
    QuarterAhead(Num(a), Num(j));
    SameWordIff(AddW(a, j), a);
    SameWordIff(AddW(a, j), AddW(a, 3));
  }

  lemma SmallSum(k: bv32, j: bv32)
    requires k < 4 && j < 4
    ensures Num(k) < 4 && Num(j) < 4 && (k + j < 4 <==> Num(k) + Num(j) < 4)
  {
    SmallLane(k);
    SmallLane(j);
    ByteCounts();
    hide Num;
  }

  lemma LaneAhead(a: bv32, j: bv32)
    requires j < 4
    ensures Lane(AddW(a, j)) == if Lane(a) + j < 4 then Lane(a) + j else Lane(a) + j - 4
  {
  }

  lemma LanePlus(a: bv32, j: bv32)
    requires j < 4
    ensures var k := Lane(a);
            && Lane(AddW(a, j)) == (if k + j < 4 then k + j else k + j - 4)
            && (k + j < 4 ==> Aligned(AddW(a, j)) == Aligned(a))
            && (k + j >= 4 ==> Aligned(AddW(a, j)) == Aligned(AddW(a, 3)))
  {
    LaneSmall(a);
    LaneAhead(a, j);
    SmallSum(Lane(a), j);
    hide Lane, Aligned, AddW, Num;
    LowMeans(a);
    WordAhead(a, j);
  }

  /** The byte j places behind an address. */
  lemma ByteBehind(m: map<bv32, bv32>, a: bv32, j: bv32)
    requires j < 4
    ensures var k := Lane(a);
            LoadByte(m, AddW(a, j)) ==
            if k + j < 4 then ByteOf(ReadWord(m, a), k + j) else ByteOf(ReadWord(m, AddW(a, 3)), k + j - 4)
  {
    LaneSmall(a);
    LanePlus(a, j);
    Sums(Lane(a), j);
    hide Lane, Aligned, AddW, ByteOf, Get;
  }

  lemma Sums(k: bv32, j: bv32)
    requires k < 4 && j < 4
    ensures k + j < 8 && (k + j >= 4 ==> k + j - 4 < 4)
  {
  }

  /** LWR at an address and LWL three behind it fill a register with the four bytes there. */
  lemma LoadPair(m: map<bv32, bv32>, a: bv32, prior: bv32, j: bv32)
    requires j < 4
    ensures var low := MergeRight(prior, ReadWord(m, a), Lane(a));
            var b := AddW(a, 3);
            ByteOf(MergeLeft(low, ReadWord(m, b), Lane(b)), j) == LoadByte(m, AddW(a, j))
  {
    LaneSmall(a);
    LaneSmall(AddW(a, 3));
    SmallLane(Lane(a));
    SmallLane(j);
    LanePlus(a, 3);
    ByteBehind(m, a, j);
    var low := MergeRight(prior, ReadWord(m, a), Lane(a));
    MergeRightBytes(prior, ReadWord(m, a), Lane(a), j);
    MergeLeftBytes(low, ReadWord(m, AddW(a, 3)), Lane(AddW(a, 3)), j);
    SameFirst(m, a);
    hide Lane, Aligned, AddW, ByteOf, ReadWord, LoadByte, MergeLeft, MergeRight;
  }

  lemma SameFirst(m: map<bv32, bv32>, a: bv32)
    ensures Lane(a) == 0 ==> ReadWord(m, AddW(a, 3)) == ReadWord(m, a)
  {
    LanePlus(a, 3);
    hide Lane, Aligned, AddW, Get;
  }

  lemma Ordered(k: bv32, b: bv32, j: bv32)
    requires k < 4 && j < 4 && b == if k == 0 then 3 else k - 1
    ensures k + j < 4 && k != 0 ==> k <= k + j
    ensures k + j >= 4 ==> k + j - 4 <= b && k + j - 4 < 4 && 3 - b + (k + j - 4) == j
    ensures k == 0 ==> j <= b && 3 - b + j == j
  {
    SmallLane(k);
    SmallLane(j);
  }

  /** SWR at an address and SWL three behind it put the four bytes of a register there. */
  lemma StorePair(m: map<bv32, bv32>, a: bv32, v: bv32, j: bv32)
    requires j < 4
    ensures var low := WriteWord(m, a, SpillRight(ReadWord(m, a), v, Lane(a)));
            var b := AddW(a, 3);
            LoadByte(WriteWord(low, b, SpillLeft(ReadWord(low, b), v, Lane(b))), AddW(a, j)) == ByteOf(v, j)
  {
    var b, k := AddW(a, 3), Lane(a);
    LaneSmall(a);
    LaneSmall(b);
    LanePlus(a, 3);
    LanePlus(a, j);
    ThirdLane(a);
    Sums(k, j);
    Ordered(k, Lane(b), j);
    var first := SpillRight(ReadWord(m, a), v, k);
    var low := WriteWord(m, a, first);
    var all := WriteWord(low, b, SpillLeft(ReadWord(low, b), v, Lane(b)));
    SpillRightBytes(ReadWord(m, a), v, k, if k + j < 4 then k + j else 0);
    SpillLeftBytes(ReadWord(low, b), v, Lane(b), if k + j < 4 then k + j else k + j - 4);
    ByteBehind(all, a, j);
    ReadWritten(m, a, first, a);
    ReadWritten(low, b, SpillLeft(ReadWord(low, b), v, Lane(b)), a);
    ReadWritten(low, b, SpillLeft(ReadWord(low, b), v, Lane(b)), b);
    ReadWritten(m, a, first, b);
    WordApart(a);
    hide Lane, Aligned, AddW, ByteOf, ReadWord, WriteWord, LoadByte, SpillLeft, SpillRight;
  }

  lemma ThirdLane(a: bv32)
    ensures Lane(AddW(a, 3)) == if Lane(a) == 0 then 3 else Lane(a) - 1
  {
  }

  lemma WordApart(a: bv32)
    ensures Lane(a) == 0 ==> Aligned(AddW(a, 3)) == Aligned(a)
    ensures Lane(a) != 0 ==> Aligned(AddW(a, 3)) != Aligned(a)
  {
    LaneSmall(a);
    SmallLane(Lane(a));
    ByteCounts();
    LowMeans(a);
    hide Num, Lane, Aligned, AddW;
    PlusMeans(a, 3);
    SameWordIff(AddW(a, 3), a);
    QuarterApart(Num(a));
  }

  lemma QuarterApart(n: int)
    requires 0 <= n < SIZE
    ensures (n + 3) % SIZE / 4 == n / 4 <==> n % 4 == 0
  {
    var q, r := n / 4, n % 4;
    assert n == 4 * q + r;
    if q == SIZE / 4 - 1 { assert r >= 1 ==> (n + 3) % SIZE == r - 1; }
  }

  // ---- The instructions ----

  lemma PartRuns(env: Env, c: Cpu, w: Word, pc: int)
    requires Opcode(w) in {0x22, 0x26}
    ensures var a, v := Address(c, Decode(w)), R(c, Rt(w));
            Lane(a) < 4 &&
            Exec(env, c, w, pc) ==
            Next(Set(Logged(c, Aligned(a), 4), Rt(w),
                     if Opcode(w) == 0x22 then MergeLeft(v, ReadWord(c.mem, a), Lane(a))
                     else MergeRight(v, ReadWord(c.mem, a), Lane(a))))
  {
    LaneSmall(Address(c, Decode(w)));
    hide Opcode, Rs, Rt, Rd, Imm, SImm, Address, R, Set, Logged, Aligned, Lane, ReadWord, MergeLeft, MergeRight;
  }

  /** Offsets whose word does not cross a change of sign. */
  predicate Fits(imm: Imm16) { imm % 0x8000 < 0x7FFD }

  function SignedOffset(imm: Imm16): int { if imm < 0x8000 then imm else imm - 0x1_0000 }

  lemma OffsetAhead(imm: Imm16)
    requires Fits(imm)
    ensures imm + 3 < 0x1_0000 && SignedOffset(imm + 3) == SignedOffset(imm) + 3
  {
  }

  lemma AddressIs(c: Cpu, op: Op, rs: Reg, rt: Reg, imm: Imm16)
    ensures Num(Address(c, Decode(IType(op, rs, rt, imm)))) == (Num(R(c, rs)) + SignedOffset(imm)) % SIZE
  {
    hide Num, Address, IType, R, Opcode, Rs, Rt, Rd, Imm, SImm, Funct;
    AddressMeans(c, op, rs, rt, imm);
  }

  lemma ThreeAhead(a: bv32, b: bv32, n: int)
    requires Num(a) == n % SIZE && Num(b) == (n + 3) % SIZE
    ensures b == AddW(a, 3)
  {
    hide Num, AddW;
    ByteCounts();
    PlusMeans(a, 3);
    SumMod(3, n);
    NumInjective(b, AddW(a, 3));
  }

  lemma NumberAhead(c: Cpu, op: Op, rs: Reg, rt: Reg, imm: Imm16)
    requires Fits(imm)
    ensures Num(Address(c, Decode(IType(op, rs, rt, imm + 3)))) == (Num(R(c, rs)) + SignedOffset(imm) + 3) % SIZE
  {
    OffsetAhead(imm);
    hide IType, R, Num, Address, Decode, Fits, SignedOffset;
    AddressIs(c, op, rs, rt, imm + 3);
  }

  lemma AddressAhead(c: Cpu, d: Cpu, op: Op, last: Op, rs: Reg, rt: Reg, imm: Imm16)
    requires Fits(imm) && R(c, rs) == R(d, rs)
    ensures Address(d, Decode(IType(last, rs, rt, imm + 3))) == AddW(Address(c, Decode(IType(op, rs, rt, imm))), 3)
  {
    OffsetAhead(imm);
    hide IType, R, Num, AddW, Address, Decode, Fits, SignedOffset;
    AddressIs(c, op, rs, rt, imm);
    NumberAhead(d, last, rs, rt, imm);
    ThreeAhead(Address(c, Decode(IType(op, rs, rt, imm))), Address(d, Decode(IType(last, rs, rt, imm + 3))),
               Num(R(c, rs)) + SignedOffset(imm));
  }

  lemma SetReads(c: Cpu, r: Reg, v: bv32, a: bv32)
    requires r != 0
    ensures var d := Set(Logged(c, a, 4), r, v);
            d.mem == c.mem && R(d, r) == v && d.gpr[r] == v && forall q: Reg :: q != r ==> R(d, q) == R(c, q)
  {
  }

  /** The idiom for a word at any address: LWR there and LWL three bytes on give the register the four bytes, the first
      one lowest. */
  lemma UnalignedLoad(env: Env, c: Cpu, pc: int, rs: Reg, rt: Reg, imm: Imm16, j: bv32)
    requires rt != 0 && rs != rt && Fits(imm) && j < 4
    ensures var o := Exec(env, c, IType(0x26, rs, rt, imm), pc);
            && o.Next?
            && var p := Exec(env, o.cpu, IType(0x22, rs, rt, imm + 3), pc + 4);
            && p.Next? && p.cpu.mem == c.mem
            && exists a :: Num(a) == (Num(R(c, rs)) + if imm < 0x8000 then imm else imm - 0x1_0000) % SIZE
                        && ByteOf(p.cpu.gpr[rt], j) == LoadByte(c.mem, AddW(a, j))
  {
    var w, v := IType(0x26, rs, rt, imm), IType(0x22, rs, rt, imm + 3);
    IFields(0x26, rs, rt, imm);
    IFields(0x22, rs, rt, imm + 3);
    hide Exec, IType, R, Num, AddW, Address, Opcode, Rs, Rt, Rd, Imm, SImm, Funct, Set, Lane, Aligned, ByteOf, LoadByte,
         ReadWord, MergeLeft, MergeRight, Logged;
    var a := Address(c, Decode(w));
    PartRuns(env, c, w, pc);
    var d := Exec(env, c, w, pc).cpu;
    SetReads(c, rt, MergeRight(R(c, rt), ReadWord(c.mem, a), Lane(a)), Aligned(a));
    PartRuns(env, d, v, pc + 4);
    AddressAhead(c, d, 0x26, 0x22, rs, rt, imm);
    var b := AddW(a, 3);
    SetReads(d, rt, MergeLeft(R(d, rt), ReadWord(c.mem, b), Lane(b)), Aligned(b));
    LoadPair(c.mem, a, R(c, rt), j);
    AddressMeans(c, 0x26, rs, rt, imm);
  }

  lemma SpillRuns(env: Env, c: Cpu, w: Word, pc: int)
    requires Opcode(w) in {0x2A, 0x2E}
    ensures var a, v := Address(c, Decode(w)), R(c, Rt(w));
            Lane(a) < 4 &&
            Exec(env, c, w, pc) ==
            Next(c.(mem := WriteWord(c.mem, a, if Opcode(w) == 0x2A then SpillLeft(ReadWord(c.mem, a), v, Lane(a))
                                               else SpillRight(ReadWord(c.mem, a), v, Lane(a)))))
  {
    LaneSmall(Address(c, Decode(w)));
    hide Opcode, Rs, Rt, Rd, Imm, SImm, Address, R, Aligned, Lane, ReadWord, WriteWord, SpillLeft, SpillRight,
         Misaligned, StoreByte, StoreHalf;
  }

  lemma SameReads(c: Cpu, m: map<bv32, bv32>, r: Reg)
    ensures R(c.(mem := m), r) == R(c, r)
  {
  }

  /** The idiom for storing a word at any address: SWR there and SWL three bytes on put the four bytes of the register
      into memory, the lowest one first. */
  lemma UnalignedStore(env: Env, c: Cpu, pc: int, rs: Reg, rt: Reg, imm: Imm16, j: bv32)
    requires Fits(imm) && j < 4
    ensures var o := Exec(env, c, IType(0x2E, rs, rt, imm), pc);
            && o.Next?
            && var p := Exec(env, o.cpu, IType(0x2A, rs, rt, imm + 3), pc + 4);
            && p.Next? && p.cpu == c.(mem := p.cpu.mem)
            && exists a :: Num(a) == (Num(R(c, rs)) + if imm < 0x8000 then imm else imm - 0x1_0000) % SIZE
                        && LoadByte(p.cpu.mem, AddW(a, j)) == ByteOf(R(c, rt), j)
  {
    var w, v := IType(0x2E, rs, rt, imm), IType(0x2A, rs, rt, imm + 3);
    IFields(0x2E, rs, rt, imm);
    IFields(0x2A, rs, rt, imm + 3);
    hide Exec, IType, R, Num, AddW, Address, Opcode, Rs, Rt, Rd, Imm, SImm, Funct, Lane, Aligned, ByteOf, LoadByte,
         ReadWord, WriteWord, SpillLeft, SpillRight;
    var a := Address(c, Decode(w));
    SpillRuns(env, c, w, pc);
    var d := Exec(env, c, w, pc).cpu;
    SameReads(c, d.mem, rs);
    SameReads(c, d.mem, rt);
    SpillRuns(env, d, v, pc + 4);
    AddressAhead(c, d, 0x2E, 0x2A, rs, rt, imm);
    StorePair(c.mem, a, R(c, rt), j);
    AddressMeans(c, 0x2E, rs, rt, imm);
  }
}
