/** What the instructions do to the numbers in registers and memory. The reference machine and the translator
    share the word operations; here their results are stated for written words, in integers. */
module Meaning {
  import opened Mips
  import opened Isa
  import opened Binary
  import opened Encoding

  /** The instruction completes, and puts a value in register rd and changes nothing else. */
  ghost predicate Puts(env: Env, c: Cpu, w: Word, pc: int, rd: Reg, v: bv32) {
    Exec(env, c, w, pc) == Next(Set(c, rd, v))
  }

  // ---- Shifts ----

  lemma CountOf(w: Word)
    ensures Shamt(w) == ToBv(w / 0x40 % 32)
  {
    var s := w / 0x40 % 32;
    var x := ToBv(s);
    assert Shamt(w) == AndW(x, 0x1F);
    hide Shamt, AndW, ToBv, Num, Pow2;
    LowCount(x);
    Count(s);
    NumInjective(AndW(x, 0x1F), x);
  }

  lemma LowCount(a: bv32)
    ensures Num(AndW(a, 0x1F)) == Num(a) % 32
  {
    hide Num, AndW, Pow2;
    Masks();
    Powers();
    MaskMeans(a, 0x1F, 5);
  }

  lemma MaskedCount(a: bv32)
    ensures AndW(a, 0x1F) == ToBv(Num(a) % 32)
  {
    hide Num, AndW, ToBv;
    LowCount(a);
    Count(Num(a) % 32);
    NumInjective(AndW(a, 0x1F), ToBv(Num(a) % 32));
  }

  lemma ShiftRuns(env: Env, c: Cpu, w: Word, pc: int)
    requires Opcode(w) == 0x00 && Funct(w) in {0x00, 0x02, 0x03}
    ensures var x, n := R(c, Rt(w)), Shamt(w);
            Puts(env, c, w, pc, Rd(w),
                 if Funct(w) == 0x00 then Shl(x, n) else if Funct(w) == 0x02 then Shr(x, n) else Sra(x, n))
  {
    hide Opcode, Rs, Rt, Rd, Funct, Imm, SImm, ToBv, ToAddr, Shamt, R, Set, Shl, Shr, Sra, AddOverflows, SubOverflows,
         AddW, SubW, AndW, OrW, XorW, NotW, LessW, SignedLess, Flag, Divide, DivideUnsigned, Multiply,
         MultiplyUnsigned;
  }

  lemma ShiftByRuns(env: Env, c: Cpu, w: Word, pc: int)
    requires Opcode(w) == 0x00 && Funct(w) in {0x04, 0x06, 0x07}
    ensures var x, n := R(c, Rt(w)), AndW(R(c, Rs(w)), 0x1F);
            Puts(env, c, w, pc, Rd(w),
                 if Funct(w) == 0x04 then Shl(x, n) else if Funct(w) == 0x06 then Shr(x, n) else Sra(x, n))
  {
    hide Opcode, Rs, Rt, Rd, Funct, Imm, SImm, ToBv, ToAddr, Shamt, R, Set, Shl, Shr, Sra, AddOverflows, SubOverflows,
         AddW, SubW, AndW, OrW, XorW, NotW, LessW, SignedLess, Flag, Divide, DivideUnsigned, Multiply,
         MultiplyUnsigned;
  }

  lemma ShiftExec(env: Env, c: Cpu, pc: int, fn: Op, rs: Reg, rt: Reg, rd: Reg, sa: Reg)
    requires fn in {0x00, 0x02, 0x03}
    ensures var x, n := R(c, rt), ToBv(sa);
            Puts(env, c, RType(fn, rs, rt, rd, sa), pc, rd,
                 if fn == 0x00 then Shl(x, n) else if fn == 0x02 then Shr(x, n) else Sra(x, n))
  {
    hide Puts, RType, Opcode, Rs, Rt, Rd, Funct, ToBv, R, Shl, Shr, Sra, Shamt;
    var w := RType(fn, rs, rt, rd, sa);
    RFields(fn, rs, rt, rd, sa);
    CountOf(w);
    ShiftRuns(env, c, w, pc);
  }

  lemma ShiftByExec(env: Env, c: Cpu, pc: int, fn: Op, rs: Reg, rt: Reg, rd: Reg, sa: Reg)
    requires fn in {0x04, 0x06, 0x07}
    ensures var x, n := R(c, rt), ToBv(Num(R(c, rs)) % 32);
            Puts(env, c, RType(fn, rs, rt, rd, sa), pc, rd,
                 if fn == 0x04 then Shl(x, n) else if fn == 0x06 then Shr(x, n) else Sra(x, n))
  {
    hide Puts, RType, Opcode, Rs, Rt, Rd, Funct, ToBv, R, Shl, Shr, Sra, AndW, Num;
    RFields(fn, rs, rt, rd, sa);
    MaskedCount(R(c, rs));
    ShiftByRuns(env, c, RType(fn, rs, rt, rd, sa), pc);
  }

  lemma PutsMeans(env: Env, c: Cpu, w: Word, pc: int, rd: Reg, v: bv32)
    requires Puts(env, c, w, pc, rd, v) && rd != 0
    ensures var o := Exec(env, c, w, pc); o.Next? && o.cpu.gpr[rd] == v && o.cpu == Set(c, rd, v)
  {
    hide Exec;
  }

  /** SLL, SRL and SRA: times 2^sa modulo 2^32, the quotient by 2^sa, and the quotient of the signed number rounded
      down. */
  lemma ShiftMeans(env: Env, c: Cpu, pc: int, fn: Op, rs: Reg, rt: Reg, rd: Reg, sa: Reg)
    requires fn in {0x00, 0x02, 0x03} && rd != 0
    ensures var o := Exec(env, c, RType(fn, rs, rt, rd, sa), pc);
            && o.Next? && o.cpu == Set(c, rd, o.cpu.gpr[rd])
            && (fn == 0x00 ==> Num(o.cpu.gpr[rd]) == Num(R(c, rt)) * Pow2(sa) % SIZE)
            && (fn == 0x02 ==> Num(o.cpu.gpr[rd]) == Num(R(c, rt)) / Pow2(sa))
            && (fn == 0x03 ==> SInt(o.cpu.gpr[rd]) == SInt(R(c, rt)) / Pow2(sa))
  {
    hide Exec, Puts, RType, ToBv, R, Set, Shl, Shr, Sra, Num, SInt, Pow2;
    ShiftExec(env, c, pc, fn, rs, rt, rd, sa);
    var x, n := R(c, rt), ToBv(sa);
    var v := if fn == 0x00 then Shl(x, n) else if fn == 0x02 then Shr(x, n) else Sra(x, n);
    PutsMeans(env, c, RType(fn, rs, rt, rd, sa), pc, rd, v);
    ShlMeans(x, sa);
    ShrMeans(x, sa);
    SraMeans(x, sa);
  }

  /** SLLV, SRLV and SRAV: the same, by the lowest five binary digits of a register. */
  lemma ShiftByMeans(env: Env, c: Cpu, pc: int, fn: Op, rs: Reg, rt: Reg, rd: Reg, sa: Reg)
    requires fn in {0x04, 0x06, 0x07} && rd != 0
    ensures var o, s := Exec(env, c, RType(fn, rs, rt, rd, sa), pc), Num(R(c, rs)) % 32;
            && o.Next? && o.cpu == Set(c, rd, o.cpu.gpr[rd])
            && (fn == 0x04 ==> Num(o.cpu.gpr[rd]) == Num(R(c, rt)) * Pow2(s) % SIZE)
            && (fn == 0x06 ==> Num(o.cpu.gpr[rd]) == Num(R(c, rt)) / Pow2(s))
            && (fn == 0x07 ==> SInt(o.cpu.gpr[rd]) == SInt(R(c, rt)) / Pow2(s))
  {
    hide Exec, Puts, RType, ToBv, R, Set, Shl, Shr, Sra, Num, SInt, Pow2;
    ShiftByExec(env, c, pc, fn, rs, rt, rd, sa);
    var x, s := R(c, rt), Num(R(c, rs)) % 32;
    var n := ToBv(s);
    var v := if fn == 0x04 then Shl(x, n) else if fn == 0x06 then Shr(x, n) else Sra(x, n);
    PutsMeans(env, c, RType(fn, rs, rt, rd, sa), pc, rd, v);
    ShlMeans(x, s);
    ShrMeans(x, s);
    SraMeans(x, s);
  }

  // ---- Sums, differences and bitwise operations ----

  lemma ToBvMeans(i: int)
    ensures Num(ToBv(i)) == i % SIZE
  {
    hide Num;
    NumOf(i % SIZE);
  }

  lemma FlagMeans(b: bool)
    ensures Num(Flag(b)) == if b then 1 else 0
  {
  }

  function Binary2(fn: Op, x: bv32, y: bv32): bv32 {
    match fn
    case 0x21 => AddW(x, y)
    case 0x23 => SubW(x, y)
    case 0x24 => AndW(x, y)
    case 0x25 => OrW(x, y)
    case 0x26 => XorW(x, y)
    case 0x27 => NotW(OrW(x, y))
    case _ => Flag(LessW(x, y))
  }

  lemma Binary2Runs(env: Env, c: Cpu, w: Word, pc: int)
    requires Opcode(w) == 0x00 && Funct(w) in {0x21, 0x23, 0x24, 0x25, 0x26, 0x27, 0x2B}
    ensures Puts(env, c, w, pc, Rd(w), Binary2(Funct(w), R(c, Rs(w)), R(c, Rt(w))))
  {
    hide Opcode, Rs, Rt, Rd, Funct, Imm, SImm, ToBv, ToAddr, Shamt, R, Set, Shl, Shr, Sra, AddOverflows, SubOverflows,
         AddW, SubW, AndW, OrW, XorW, NotW, LessW, SignedLess, Flag, Divide, DivideUnsigned, Multiply,
         MultiplyUnsigned;
  }

  lemma Binary2Means(fn: Op, x: bv32, y: bv32, k: nat)
    requires fn in {0x21, 0x23, 0x24, 0x25, 0x26, 0x27, 0x2B} && k < 32
    ensures var n, a, b := Num(Binary2(fn, x, y)), Num(x), Num(y);
            && (fn == 0x21 ==> n == (a + b) % SIZE)
            && (fn == 0x23 ==> n == (a - b) % SIZE)
            && (fn == 0x24 ==> (Digit(n, k) <==> Digit(a, k) && Digit(b, k)))
            && (fn == 0x25 ==> (Digit(n, k) <==> Digit(a, k) || Digit(b, k)))
            && (fn == 0x26 ==> (Digit(n, k) <==> Digit(a, k) != Digit(b, k)))
            && (fn == 0x27 ==> (Digit(n, k) <==> !Digit(a, k) && !Digit(b, k)))
            && (fn == 0x2B ==> n == if a < b then 1 else 0)
  {
    hide Num, Digit, AddW, SubW, AndW, OrW, XorW, NotW, LessW, Flag;
    PlusMeans(x, y);
    MinusMeans(x, y);
    BitwiseMeans(x, y, k);
    NotDigit(OrW(x, y), k);
    LessMeans(x, y);
    FlagMeans(LessW(x, y));
  }

  lemma NotDigit(x: bv32, k: nat)
    requires k < 32
    ensures Digit(Num(NotW(x)), k) <==> !Digit(Num(x), k)
  {
    hide Num, Digit, NotW, XorW;
    NotIsXor(x);
    BitwiseMeans(x, FULL, k);
    FullDigit(k);
  }

  lemma NotIsXor(x: bv32)
    ensures NotW(x) == XorW(x, FULL)
  {
  }

  lemma {:induction false} OnesDigit(m: nat, k: nat)
    requires k < m
    ensures Digit(Pow2(m) - 1, k)
    decreases k
  {
    hide Digit;
    if k == 0 {
      LowDigit(Pow2(m) - 1);
    } else {
      DigitNext(Pow2(m) - 1, k - 1);
      OnesDigit(m - 1, k - 1);
      assert (Pow2(m) - 1) / 2 == Pow2(m - 1) - 1;
    }
  }

  lemma FullDigit(k: nat)
    requires k < 32
    ensures Digit(Num(FULL), k)
  {
    hide Digit, Num, Pow2;
    Ends();
    Powers();
    OnesDigit(32, k);
  }

  /** ADDU, SUBU, AND, OR, XOR, NOR and SLTU, in integers and in binary digits. */
  lemma RegisterMeans(env: Env, c: Cpu, pc: int, fn: Op, rs: Reg, rt: Reg, rd: Reg, sa: Reg, k: nat)
    requires fn in {0x21, 0x23, 0x24, 0x25, 0x26, 0x27, 0x2B} && rd != 0 && k < 32
    ensures var o := Exec(env, c, RType(fn, rs, rt, rd, sa), pc);
            && o.Next? && o.cpu == Set(c, rd, o.cpu.gpr[rd])
            && var n, a, b := Num(o.cpu.gpr[rd]), Num(R(c, rs)), Num(R(c, rt));
            && (fn == 0x21 ==> n == (a + b) % SIZE)
            && (fn == 0x23 ==> n == (a - b) % SIZE)
            && (fn == 0x24 ==> (Digit(n, k) <==> Digit(a, k) && Digit(b, k)))
            && (fn == 0x25 ==> (Digit(n, k) <==> Digit(a, k) || Digit(b, k)))
            && (fn == 0x26 ==> (Digit(n, k) <==> Digit(a, k) != Digit(b, k)))
            && (fn == 0x27 ==> (Digit(n, k) <==> !Digit(a, k) && !Digit(b, k)))
            && (fn == 0x2B ==> n == if a < b then 1 else 0)
  {
    hide Exec, Puts, RType, R, Set, Num, Digit, Opcode, Rs, Rt, Rd, Funct, Binary2;
    var w := RType(fn, rs, rt, rd, sa);
    RFields(fn, rs, rt, rd, sa);
    Binary2Runs(env, c, w, pc);
    PutsMeans(env, c, w, pc, rd, Binary2(fn, R(c, rs), R(c, rt)));
    Binary2Means(fn, R(c, rs), R(c, rt), k);
  }

  // ---- Immediate operands ----

  function Immediate(op: Op, x: bv32, s: bv32, u: bv32): bv32 {
    match op
    case 0x09 => AddW(x, s)
    case 0x0B => Flag(LessW(x, s))
    case 0x0C => AndW(x, u)
    case 0x0D => OrW(x, u)
    case 0x0E => XorW(x, u)
    case _ => Shl(u, 16)
  }

  lemma ImmediateRuns(env: Env, c: Cpu, w: Word, pc: int)
    requires Opcode(w) in {0x09, 0x0B, 0x0C, 0x0D, 0x0E, 0x0F}
    ensures Puts(env, c, w, pc, Rt(w), Immediate(Opcode(w), R(c, Rs(w)), ToBv(SImm(w)), ToBv(Imm(w))))
  {
    hide Rs, Rt, Rd, Funct, Imm, SImm, ToBv, R, Set, Shl, AddOverflows, AddW, AndW, OrW, XorW, LessW, SignedLess, Flag,
         Wrap, BranchTarget, JumpTarget;
  }

  lemma UpperMeans(u: bv32)
    requires Num(u) < 0x1_0000
    ensures Num(Shl(u, 16)) == Num(u) * 0x1_0000
  {
    hide Num, Shl, ToBv, Pow2;
    ByteCounts();
    Powers();
    ShlMeans(u, 16);
  }

  lemma SumMod(a: int, b: int)
    ensures (a + b % SIZE) % SIZE == (a + b) % SIZE
  {
    var q := b / SIZE;
    assert a + b == a + b % SIZE + q * SIZE;
  }

  lemma SumValue(x: bv32, i: int)
    ensures Num(AddW(x, ToBv(i))) == (Num(x) + i) % SIZE
  {
    hide Num, AddW, ToBv;
    ToBvMeans(i);
    PlusMeans(x, ToBv(i));
    SumMod(Num(x), i);
  }

  lemma ImmediateValue(op: Op, x: bv32, imm: Imm16, simm: int, k: nat)
    requires op in {0x09, 0x0B, 0x0C, 0x0D, 0x0E, 0x0F} && k < 32
    ensures var n, a := Num(Immediate(op, x, ToBv(simm), ToBv(imm))), Num(x);
            && (op == 0x09 ==> n == (a + simm) % SIZE)
            && (op == 0x0B ==> n == if a < simm % SIZE then 1 else 0)
            && (op == 0x0C ==> (Digit(n, k) <==> Digit(a, k) && Digit(imm, k)))
            && (op == 0x0D ==> (Digit(n, k) <==> Digit(a, k) || Digit(imm, k)))
            && (op == 0x0E ==> (Digit(n, k) <==> Digit(a, k) != Digit(imm, k)))
            && (op == 0x0F ==> n == imm * 0x1_0000)
  {
    hide Num, Digit, AddW, AndW, OrW, XorW, LessW, Flag, Shl, ToBv;
    ToBvMeans(simm);
    ToBvMeans(imm);
    SumValue(x, simm);
    BitwiseMeans(x, ToBv(imm), k);
    LessMeans(x, ToBv(simm));
    FlagMeans(LessW(x, ToBv(simm)));
    UpperMeans(ToBv(imm));
  }

  /** ADDIU, SLTIU, ANDI, ORI, XORI and LUI. The immediate is signed in the first two and unsigned in the others. */
  lemma ImmediateMeans(env: Env, c: Cpu, pc: int, op: Op, rs: Reg, rt: Reg, imm: Imm16, k: nat)
    requires op in {0x09, 0x0B, 0x0C, 0x0D, 0x0E, 0x0F} && rt != 0 && k < 32
    ensures var o := Exec(env, c, IType(op, rs, rt, imm), pc);
            && o.Next? && o.cpu == Set(c, rt, o.cpu.gpr[rt])
            && var n, a, simm := Num(o.cpu.gpr[rt]), Num(R(c, rs)), if imm < 0x8000 then imm else imm - 0x1_0000;
            && (op == 0x09 ==> n == (a + simm) % SIZE)
            && (op == 0x0B ==> n == if a < simm % SIZE then 1 else 0)
            && (op == 0x0C ==> (Digit(n, k) <==> Digit(a, k) && Digit(imm, k)))
            && (op == 0x0D ==> (Digit(n, k) <==> Digit(a, k) || Digit(imm, k)))
            && (op == 0x0E ==> (Digit(n, k) <==> Digit(a, k) != Digit(imm, k)))
            && (op == 0x0F ==> n == imm * 0x1_0000)
  {
    hide Exec, Puts, IType, R, Set, Num, Digit, Opcode, Rs, Rt, Rd, Funct, Imm, SImm, Immediate, ToBv;
    var w := IType(op, rs, rt, imm);
    IFields(op, rs, rt, imm);
    ImmediateRuns(env, c, w, pc);
    PutsMeans(env, c, w, pc, rt, Immediate(op, R(c, rs), ToBv(SImm(w)), ToBv(imm)));
    ImmediateValue(op, R(c, rs), imm, SImm(w), k);
  }

  // ---- Signed comparison ----

  lemma SignedLessMeans(x: bv32, y: bv32)
    ensures Num(Flag(SignedLess(x, y))) == if SInt(x) < SInt(y) then 1 else 0
  {
    hide Num, SInt, Negative, LessW, Flag;
    SignMeans(x);
    SignMeans(y);
    LessMeans(x, y);
    FlagMeans(SignedLess(x, y));
  }

  lemma SignedRuns(env: Env, c: Cpu, w: Word, pc: int)
    ensures Opcode(w) == 0x00 && Funct(w) == 0x2A ==>
            Puts(env, c, w, pc, Rd(w), Flag(SignedLess(R(c, Rs(w)), R(c, Rt(w)))))
    ensures Opcode(w) == 0x0A ==> Puts(env, c, w, pc, Rt(w), Flag(SignedLess(R(c, Rs(w)), ToBv(SImm(w)))))
  {
    hide Rs, Rt, Rd, Opcode, Funct, Imm, SImm, ToBv, R, Set, SignedLess, Flag, Taken, ExecLoad, ExecStore, ExecCop0,
         ExecCop2, ExecCop2Memory, Wrap, BranchTarget, JumpTarget;
    if Opcode(w) in {0x00, 0x0A} { NoBranch(c, w); }
  }

  lemma NoBranch(c: Cpu, w: Word)
    requires Opcode(w) !in {0x01, 0x04, 0x05, 0x06, 0x07}
    ensures Taken(c, w).None?
  {
    hide Opcode, Rs, Rt, R;
  }

  lemma SignedFits(i: int)
    requires -0x8000_0000 <= i < 0x8000_0000
    ensures SInt(ToBv(i)) == i
  {
    hide Num, SInt, ToBv, Negative;
    ToBvMeans(i);
    SignMeans(ToBv(i));
  }

  /** SLT and SLTI compare signed numbers. */
  lemma SignedCompareMeans(env: Env, c: Cpu, pc: int, rs: Reg, rt: Reg, rd: Reg, sa: Reg, imm: Imm16)
    ensures rd != 0 ==>
            var o := Exec(env, c, RType(0x2A, rs, rt, rd, sa), pc);
            && o.Next? && o.cpu == Set(c, rd, o.cpu.gpr[rd])
            && Num(o.cpu.gpr[rd]) == if SInt(R(c, rs)) < SInt(R(c, rt)) then 1 else 0
    ensures rt != 0 ==>
            var o := Exec(env, c, IType(0x0A, rs, rt, imm), pc);
            && o.Next? && o.cpu == Set(c, rt, o.cpu.gpr[rt])
            && var simm := if imm < 0x8000 then imm else imm - 0x1_0000;
               Num(o.cpu.gpr[rt]) == if SInt(R(c, rs)) < simm then 1 else 0
  {
    hide Exec, Puts, RType, IType, R, Set, Num, Opcode, Rs, Rt, Rd, Funct, SImm, SInt, Flag, SignedLess, ToBv;
    var w, v := RType(0x2A, rs, rt, rd, sa), IType(0x0A, rs, rt, imm);
    RFields(0x2A, rs, rt, rd, sa);
    IFields(0x0A, rs, rt, imm);
    SignedRuns(env, c, w, pc);
    SignedRuns(env, c, v, pc);
    SignedLessMeans(R(c, rs), R(c, rt));
    SignedLessMeans(R(c, rs), ToBv(SImm(v)));
    SignedFits(SImm(v));
    if rd != 0 { PutsMeans(env, c, w, pc, rd, Flag(SignedLess(R(c, rs), R(c, rt)))); }
    if rt != 0 { PutsMeans(env, c, v, pc, rt, Flag(SignedLess(R(c, rs), ToBv(SImm(v))))); }
  }

  // ---- Sums that trap ----

  lemma SignedSum(x: bv32, y: bv32)
    ensures !AddOverflows(x, y) ==> SInt(AddW(x, y)) == SInt(x) + SInt(y)
  {
    hide Num, SInt, AddW, Negative;
    PlusMeans(x, y);
    SignMeans(x);
    SignMeans(y);
    SignMeans(AddW(x, y));
  }

  lemma SignedDifference(x: bv32, y: bv32)
    ensures !SubOverflows(x, y) ==> SInt(SubW(x, y)) == SInt(x) - SInt(y)
  {
    hide Num, SInt, SubW, Negative;
    MinusMeans(x, y);
    SignMeans(x);
    SignMeans(y);
    SignMeans(SubW(x, y));
  }

  lemma TrappingRuns(env: Env, c: Cpu, w: Word, pc: int)
    requires Opcode(w) == 0x00 && Funct(w) in {0x20, 0x22}
    ensures var x, y := R(c, Rs(w)), R(c, Rt(w));
            Exec(env, c, w, pc) ==
            if Funct(w) == 0x20 then
              if AddOverflows(x, y) then Trap(c, Overflow) else Next(Set(c, Rd(w), AddW(x, y)))
            else
              if SubOverflows(x, y) then Trap(c, Overflow) else Next(Set(c, Rd(w), SubW(x, y)))
  {
    hide Opcode, Rs, Rt, Rd, Funct, Imm, SImm, ToBv, ToAddr, Shamt, R, Set, Shl, Shr, Sra, AddOverflows, SubOverflows,
         AddW, SubW, AndW, OrW, XorW, NotW, LessW, SignedLess, Flag, Divide, DivideUnsigned, Multiply,
         MultiplyUnsigned;
  }

  /** ADD and SUB trap, and change nothing, exactly if the result does not fit in 32 bits with sign; otherwise the
      register holds it. */
  lemma TrappingMeans(env: Env, c: Cpu, pc: int, fn: Op, rs: Reg, rt: Reg, rd: Reg, sa: Reg)
    requires fn in {0x20, 0x22} && rd != 0
    ensures var o, a, b := Exec(env, c, RType(fn, rs, rt, rd, sa), pc), SInt(R(c, rs)), SInt(R(c, rt));
            var n := if fn == 0x20 then a + b else a - b;
            if -0x8000_0000 <= n < 0x8000_0000 then
              o.Next? && SInt(o.cpu.gpr[rd]) == n && o.cpu == Set(c, rd, o.cpu.gpr[rd])
            else o == Trap(c, Overflow)
  {
    hide Exec, RType, R, SInt, Opcode, Rs, Rt, Rd, Funct, AddW, SubW, Set;
    var w := RType(fn, rs, rt, rd, sa);
    RFields(fn, rs, rt, rd, sa);
    TrappingRuns(env, c, w, pc);
    SignedSum(R(c, rs), R(c, rt));
    SignedDifference(R(c, rs), R(c, rt));
    SetHolds(c, rd, AddW(R(c, rs), R(c, rt)));
    SetHolds(c, rd, SubW(R(c, rs), R(c, rt)));
  }

  lemma SetHolds(c: Cpu, r: Reg, v: bv32)
    ensures r != 0 ==> Set(c, r, v).gpr[r] == v
  {
  }

  // ---- Products and quotients ----

  lemma MulDivRuns(env: Env, c: Cpu, w: Word, pc: int)
    requires Opcode(w) == 0x00 && Funct(w) in {0x18, 0x19, 0x1A, 0x1B}
    ensures var x, y := R(c, Rs(w)), R(c, Rt(w));
            Exec(env, c, w, pc) ==
            Next(if Funct(w) == 0x18 then Multiply(c, x, y) else if Funct(w) == 0x19 then MultiplyUnsigned(c, x, y)
                 else if Funct(w) == 0x1A then Divide(c, x, y) else DivideUnsigned(c, x, y))
  {
    hide Opcode, Rs, Rt, Rd, Funct, Imm, SImm, ToBv, ToAddr, Shamt, R, Set, Shl, Shr, Sra, AddOverflows, SubOverflows,
         AddW, SubW, AndW, OrW, XorW, NotW, LessW, SignedLess, Flag, Divide, DivideUnsigned, Multiply,
         MultiplyUnsigned;
  }

  lemma NumIs(x: bv32)
    ensures x as int == Num(x)
  {
  }

  lemma UpperLower(p: int)
    requires 0 <= p < SIZE * SIZE
    ensures Num(ToBv(p / SIZE)) * SIZE + Num(ToBv(p)) == p
  {
    hide Num, ToBv;
    ToBvMeans(p / SIZE);
    ToBvMeans(p);
  }

  lemma SignedUpper(p: int)
    requires -0x8000_0000 <= p / SIZE < 0x8000_0000
    ensures SInt(ToBv(p / SIZE)) * SIZE + Num(ToBv(p)) == p
  {
    hide Num, ToBv, SInt, Negative;
    ToBvMeans(p / SIZE);
    ToBvMeans(p);
    SignMeans(ToBv(p / SIZE));
  }

  lemma ProductBound(a: int, b: int, m: int)
    requires m >= 0 && -m <= a <= m && -m <= b <= m
    ensures -(m * m) <= a * b <= m * m
  {
    if a >= 0 {
      MulLess(a, m, m);
      if b >= 0 { MulLess(b, m, a); } else { MulLess(-b, m, a); assert a * b == -(a * -b); }
    } else {
      MulLess(-a, m, m);
      if b >= 0 { MulLess(b, m, -a); assert a * b == -(-a * b); } else { MulLess(-b, m, -a); assert a * b == -a * -b; }
    }
  }

  lemma UnsignedProduct(a: nat, b: nat)
    requires a < SIZE && b < SIZE
    ensures 0 <= a * b < SIZE * SIZE
  {
    MulLess(a, SIZE - 1, b);
    MulLess(b, SIZE - 1, SIZE - 1);
  }

  lemma MultiplyMeans(c: Cpu, x: bv32, y: bv32)
    ensures var d := MultiplyUnsigned(c, x, y); Num(d.hi) * SIZE + Num(d.lo) == Num(x) * Num(y)
  {
    NumIs(x);
    NumIs(y);
    UnsignedProduct(Num(x), Num(y));
    UpperLower(Num(x) * Num(y));
    hide Num, ToBv;
  }

  lemma SignedMultiplyMeans(c: Cpu, x: bv32, y: bv32)
    ensures var d := Multiply(c, x, y); SInt(d.hi) * SIZE + Num(d.lo) == SInt(x) * SInt(y)
  {
    SignMeans(x);
    SignMeans(y);
    hide Num, ToBv, SInt, Negative;
    ProductBound(SInt(x), SInt(y), 0x8000_0000);
    SignedUpper(SInt(x) * SInt(y));
  }

  /** MULT and MULTU: HI and LO together are the product, with and without sign. */
  lemma ProductMeans(env: Env, c: Cpu, pc: int, fn: Op, rs: Reg, rt: Reg, rd: Reg, sa: Reg)
    requires fn in {0x18, 0x19}
    ensures var o := Exec(env, c, RType(fn, rs, rt, rd, sa), pc);
            && o.Next? && o.cpu == c.(hi := o.cpu.hi, lo := o.cpu.lo)
            && (fn == 0x18 ==> SInt(o.cpu.hi) * SIZE + Num(o.cpu.lo) == SInt(R(c, rs)) * SInt(R(c, rt)))
            && (fn == 0x19 ==> Num(o.cpu.hi) * SIZE + Num(o.cpu.lo) == Num(R(c, rs)) * Num(R(c, rt)))
  {
    hide Exec, RType, R, SInt, Num, Opcode, Rs, Rt, Rd, Funct;
    var w := RType(fn, rs, rt, rd, sa);
    RFields(fn, rs, rt, rd, sa);
    MulDivRuns(env, c, w, pc);
    MultiplyMeans(c, R(c, rs), R(c, rt));
    SignedMultiplyMeans(c, R(c, rs), R(c, rt));
  }

  lemma DivLaw(n: nat, d: nat)
    requires d != 0
    ensures n / d * d + n % d == n && 0 <= n / d <= n && n % d < d
  {
    Grows(n / d, d);
  }

  lemma Grows(q: nat, d: nat)
    requires d != 0
    ensures q <= q * d && (d >= 2 ==> 2 * q <= q * d)
  {
  }

  /** Signed division truncates: the remainder is smaller than the divisor and has the sign of the dividend. */
  ghost predicate Divides(n: int, d: int, q: int, r: int) {
    q * d + r == n && Abs(r) < Abs(d) && (n >= 0 ==> r >= 0) && (n <= 0 ==> r <= 0)
  }

  lemma Negated(q: int, d: int)
    ensures -q * d == -(q * d) && q * -d == -(q * d) && -q * -d == q * d
  {
  }

  lemma QuotientLaw(n: int, d: int)
    requires d != 0
    ensures Divides(n, d, Quotient(n, d), Remainder(n, d)) && Abs(Quotient(n, d)) <= Abs(n)
  {
    DivLaw(Abs(n), Abs(d));
    Negated(Abs(n) / Abs(d), d);
  }

  lemma QuotientFits(n: int, d: int)
    requires d != 0 && -0x8000_0000 <= n < 0x8000_0000 && -0x8000_0000 <= d < 0x8000_0000
    ensures -0x8000_0000 <= Remainder(n, d) < 0x8000_0000 && -0x8000_0000 <= Quotient(n, d) <= 0x8000_0000
    ensures Quotient(n, d) == 0x8000_0000 ==> n == -0x8000_0000 && d == -1
  {
    QuotientLaw(n, d);
    if Quotient(n, d) == 0x8000_0000 { FullQuotient(Abs(n), Abs(d)); }
  }

  lemma FullQuotient(n: nat, d: nat)
    requires 0 < d && n <= 0x8000_0000 && n / d == 0x8000_0000
    ensures n == 0x8000_0000 && d == 1
  {
    DivLaw(n, d);
    Grows(n / d, d);
  }

  lemma SignedDivides(c: Cpu, x: bv32, y: bv32)
    requires SInt(y) != 0 && !(SInt(x) == -0x8000_0000 && SInt(y) == -1)
    ensures Divides(SInt(x), SInt(y), SInt(Divide(c, x, y).lo), SInt(Divide(c, x, y).hi))
  {
    SignMeans(x);
    SignMeans(y);
    ZeroNum(y);
    hide Num, SInt, Negative, ToBv, Divides, Quotient, Remainder;
    QuotientLaw(SInt(x), SInt(y));
    QuotientFits(SInt(x), SInt(y));
    SignedFits(Quotient(SInt(x), SInt(y)));
    SignedFits(Remainder(SInt(x), SInt(y)));
  }

  lemma ZeroNum(y: bv32)
    ensures (y == 0 <==> Num(y) == 0) && (y == 0 <==> SInt(y) == 0)
  {
    hide Num, SInt, Negative;
    ByteCounts();
    SignMeans(y);
    if Num(y) == 0 { NumInjective(y, 0); }
  }

  lemma UnsignedDivides(c: Cpu, x: bv32, y: bv32)
    requires Num(y) != 0
    ensures var d := DivideUnsigned(c, x, y); Num(d.lo) * Num(y) + Num(d.hi) == Num(x) && Num(d.hi) < Num(y)
  {
    DivideIs(c, x, y);
    var q, r := Ratio(Num(x), Num(y)), Rest(Num(x), Num(y));
    hide Num, ToBv, DivideUnsigned, Ratio, Rest;
    RatioLaw(Num(x), Num(y));
    ToBvMeans(q);
    ToBvMeans(r);
    SmallStays(q);
    SmallStays(r);
  }

  lemma DivideIs(c: Cpu, x: bv32, y: bv32)
    requires Num(y) != 0
    ensures var d := DivideUnsigned(c, x, y);
            d.lo == ToBv(Ratio(Num(x), Num(y))) && d.hi == ToBv(Rest(Num(x), Num(y)))
  {
    NumIs(x);
    NumIs(y);
    ZeroNum(y);
    hide Num, ToBv, Ratio, Rest;
  }

  lemma SmallStays(n: nat)
    ensures n < SIZE ==> n % SIZE == n
  {
  }

  lemma RatioLaw(n: nat, d: nat)
    requires d != 0
    ensures Ratio(n, d) * d + Rest(n, d) == n && Ratio(n, d) <= n && Rest(n, d) < d
  {
    DivLaw(n, d);
  }

  lemma DivideEdges(c: Cpu, x: bv32, y: bv32)
    ensures SInt(y) == 0 ==> SInt(Divide(c, x, y).lo) == (if SInt(x) < 0 then 1 else -1) && Divide(c, x, y).hi == x
    ensures Num(y) == 0 ==> Num(DivideUnsigned(c, x, y).lo) == SIZE - 1 && DivideUnsigned(c, x, y).hi == x
    ensures SInt(x) == -0x8000_0000 && SInt(y) == -1 ==> Divide(c, x, y).lo == 0x8000_0000 && Divide(c, x, y).hi == 0
  {
    ZeroNum(y);
    SignMeans(x);
    EdgeWords();
    hide Num, SInt, Negative, ToBv;
  }

  lemma EdgeWords()
    ensures SInt(1) == 1 && SInt(0xFFFF_FFFF) == -1 && Num(0xFFFF_FFFF) == SIZE - 1
    ensures ToBv(0x8000_0000) == 0x8000_0000 && ToBv(0) == 0
  {
    TopWord();
    ByteCounts();
    Ends();
    hide Num, SInt, ToBv, Negative;
    SignMeans(1);
    SignMeans(0xFFFF_FFFF);
  }

  lemma TopWord()
    ensures ToBv(0x8000_0000) == 0x8000_0000
  {
    TopNum();
    hide Num, ToBv;
    ToBvMeans(0x8000_0000);
    NumInjective(ToBv(0x8000_0000), 0x8000_0000);
  }

  lemma TopNum()
    ensures Num(0x8000_0000) == 0x8000_0000
  {
  }

  /** DIV and DIVU, with the results of a zero divisor and of the one quotient that does not fit. */
  lemma DivisionMeans(env: Env, c: Cpu, pc: int, fn: Op, rs: Reg, rt: Reg, rd: Reg, sa: Reg)
    requires fn in {0x1A, 0x1B}
    ensures var o := Exec(env, c, RType(fn, rs, rt, rd, sa), pc);
            && o.Next? && o.cpu == c.(hi := o.cpu.hi, lo := o.cpu.lo)
            && (fn == 0x1A ==>
                  var n, d := SInt(R(c, rs)), SInt(R(c, rt));
                  if d == 0 then SInt(o.cpu.lo) == (if n < 0 then 1 else -1) && o.cpu.hi == R(c, rs)
                  else if n == -0x8000_0000 && d == -1 then o.cpu.lo == R(c, rs) && o.cpu.hi == 0
                  else Divides(n, d, SInt(o.cpu.lo), SInt(o.cpu.hi)))
            && (fn == 0x1B ==>
                  var n, d := Num(R(c, rs)), Num(R(c, rt));
                  if d == 0 then Num(o.cpu.lo) == SIZE - 1 && o.cpu.hi == R(c, rs)
                  else Num(o.cpu.lo) * d + Num(o.cpu.hi) == n && Num(o.cpu.hi) < d)
  {
    DivideKeeps(c, R(c, rs), R(c, rt));
    DivideEdges(c, R(c, rs), R(c, rt));
    LeastWord(R(c, rs));
    hide Exec, RType, R, SInt, Num, Opcode, Rs, Rt, Rd, Funct, Divide, DivideUnsigned, Divides;
    var w := RType(fn, rs, rt, rd, sa);
    RFields(fn, rs, rt, rd, sa);
    MulDivRuns(env, c, w, pc);
    var n, d := SInt(R(c, rs)), SInt(R(c, rt));
    if d != 0 && !(n == -0x8000_0000 && d == -1) { SignedDivides(c, R(c, rs), R(c, rt)); }
    if Num(R(c, rt)) != 0 { UnsignedDivides(c, R(c, rs), R(c, rt)); }
  }

  lemma LeastWord(x: bv32)
    ensures SInt(x) == -0x8000_0000 ==> x == 0x8000_0000
  {
  }

  lemma DivideKeeps(c: Cpu, x: bv32, y: bv32)
    ensures var d := Divide(c, x, y); d == c.(hi := d.hi, lo := d.lo)
    ensures var d := DivideUnsigned(c, x, y); d == c.(hi := d.hi, lo := d.lo)
  {
    hide SInt, Negative, ToBv, Quotient, Remainder;
  }

  // ---- Memory ----

  /** The byte at an address. */
  function ByteAt(m: map<bv32, bv32>, a: bv32): nat { Num(LoadByte(m, a)) }

  lemma LaneSmall(a: bv32)
    ensures Lane(a) < 4
  {
  }

  lemma GetPut<K, V>(m: map<K, V>, k: K, v: V, j: K, absent: V)
    ensures Get(m[k := v], j, absent) == if j == k then v else Get(m, j, absent)
  {
  }

  lemma ReadWritten(m: map<bv32, bv32>, a: bv32, v: bv32, b: bv32)
    ensures ReadWord(WriteWord(m, a, v), b) == if Aligned(a) == Aligned(b) then v else ReadWord(m, b)
  {
    hide Aligned, Get;
    GetPut(m, Aligned(a), v, Aligned(b), 0);
  }

  lemma WithByteBytes(x: bv32, k: bv32, b: bv32, j: bv32)
    requires k < 4 && j < 4
    ensures ByteOf(WithByte(x, k, b), j) == if j == k then LowByte(b) else ByteOf(x, j)
  {
    SmallLane(k);
    SmallLane(j);
  }

  /** A stored word has its bytes at the four addresses of the word, the least significant first; no other byte
      changes. */
  lemma StoreWordBytes(m: map<bv32, bv32>, a: bv32, v: bv32, b: bv32)
    ensures ByteAt(WriteWord(m, a, v), b) ==
            if Num(a) / 4 == Num(b) / 4 then Num(v) / Pow2(8 * (Num(b) % 4)) % 0x100 else ByteAt(m, b)
  {
    hide Num, WriteWord, ReadWord, ByteOf, Lane, Aligned, Pow2;
    LaneSmall(b);
    ReadWritten(m, a, v, b);
    SameWordIff(a, b);
    LowMeans(b);
    ByteMeans(v, Lane(b));
  }

  lemma LaneInjective(a: bv32, b: bv32)
    requires Aligned(a) == Aligned(b) && Lane(a) == Lane(b)
    ensures a == b
  {
  }

  lemma LowTwice(b: bv32)
    ensures LowByte(LowByte(b)) == LowByte(b)
  {
  }

  /** A stored byte is the lowest byte of the register, at its address and nowhere else. */
  lemma StoreByteBytes(m: map<bv32, bv32>, a: bv32, v: bv32, b: bv32)
    ensures ByteAt(StoreByte(m, a, v), b) == if a == b then Num(v) % 0x100 else ByteAt(m, b)
  {
    hide Num, WriteWord, ReadWord, ByteOf, Lane, Aligned, WithByte, LowByte;
    LaneSmall(a);
    LaneSmall(b);
    var x := WithByte(ReadWord(m, a), Lane(a), LowByte(v));
    ReadWritten(m, a, x, b);
    LowMeans(v);
    LowTwice(v);
    if Aligned(a) == Aligned(b) {
      WithByteBytes(ReadWord(m, a), Lane(a), LowByte(v), Lane(b));
      SameWord(m, a, b);
      if Lane(a) == Lane(b) { LaneInjective(a, b); }
    }
  }

  lemma SameWord(m: map<bv32, bv32>, a: bv32, b: bv32)
    requires Aligned(a) == Aligned(b)
    ensures ReadWord(m, a) == ReadWord(m, b)
  {
    hide Aligned;
  }

  // ---- Halves and words as bytes ----

  predicate EvenLane(a: bv32) { Lane(a) == 0 || Lane(a) == 2 }

  lemma HalfBytes(x: bv32, a: bv32, h: bv32, j: bv32)
    requires EvenLane(a) && j < 4
    ensures ByteOf(WithHalf(x, a, h), j) ==
            if j == Lane(a) then ByteOf(h, 0) else if j == Lane(a) + 1 then ByteOf(h, 1) else ByteOf(x, j)
  {
    SmallLane(j);
  }

  lemma LaneMeans(a: bv32)
    ensures (Num(a) % 2 == 0 <==> EvenLane(a)) && (Num(a) % 4 == 0 <==> Lane(a) == 0)
  {
    hide Num, Lane;
    LaneSmall(a);
    LowMeans(a);
    LaneParity(Lane(a));
    SameParity(Num(a));
  }

  lemma SameParity(n: nat)
    ensures n % 4 % 2 == n % 2
  {
  }

  lemma LaneParity(k: bv32)
    requires k < 4
    ensures (Num(k) % 2 == 0 <==> k == 0 || k == 2) && (Num(k) == 0 <==> k == 0) && Num(k) < 4
  {
    SmallLane(k);
    ByteCounts();
    hide Num;
  }

  lemma MisalignedIs(a: bv32)
    ensures Misaligned(a, 2) <==> !EvenLane(a)
    ensures Misaligned(a, 4) <==> Lane(a) != 0
  {
  }

  /** Addresses that are not multiples of the width of the access. */
  lemma MisalignedMeans(a: bv32)
    ensures Misaligned(a, 2) <==> Num(a) % 2 != 0
    ensures Misaligned(a, 4) <==> Num(a) % 4 != 0
  {
    hide Num, Lane, Misaligned;
    LaneMeans(a);
    MisalignedIs(a);
  }

  lemma NextLane(a: bv32)
    requires EvenLane(a)
    ensures Aligned(Succ(a)) == Aligned(a) && Lane(Succ(a)) == Lane(a) + 1 && a != FULL
  {
  }

  lemma StoredByte(m: map<bv32, bv32>, a: bv32, x: bv32, b: bv32)
    ensures Lane(b) < 4 && LoadByte(WriteWord(m, a, x), b) ==
            if Aligned(a) == Aligned(b) then ByteOf(x, Lane(b)) else LoadByte(m, b)
  {
    LaneSmall(b);
    hide WriteWord, ReadWord, ByteOf, Lane, Aligned;
    ReadWritten(m, a, x, b);
  }

  lemma LowBytes(v: bv32)
    ensures ByteOf(LowHalf(v), 0) == ByteOf(v, 0) && ByteOf(LowHalf(v), 1) == ByteOf(v, 1)
  {
  }

  /** A stored half has its two bytes at its address and the next. */
  lemma StoreHalfBytes(m: map<bv32, bv32>, a: bv32, v: bv32, b: bv32)
    requires Num(a) % 2 == 0
    ensures ByteAt(StoreHalf(m, a, v), b) ==
            if b == a then Num(v) % 0x100 else if b == Succ(a) then Num(v) / 0x100 % 0x100 else ByteAt(m, b)
  {
    hide Num, WriteWord, ReadWord, ByteOf, Lane, Aligned, WithHalf, LowHalf, LoadByte, Succ, Pow2;
    LaneMeans(a);
    LaneSmall(b);
    LaneSmall(a);
    NextLane(a);
    StoredByte(m, a, WithHalf(ReadWord(m, a), a, LowHalf(v)), b);
    LowBytes(v);
    Powers();
    Ends();
    ByteCounts();
    ByteMeans(v, 0);
    ByteMeans(v, 1);
    if Aligned(a) == Aligned(b) {
      HalfBytes(ReadWord(m, a), a, LowHalf(v), Lane(b));
      SameWord(m, a, b);
      LoadIs(m, b);
      if Lane(b) == Lane(a) { LaneInjective(a, b); }
      if Lane(b) == Lane(Succ(a)) { LaneInjective(Succ(a), b); }
    }
  }

  lemma LoadIs(m: map<bv32, bv32>, b: bv32)
    ensures Lane(b) < 4 && LoadByte(m, b) == ByteOf(ReadWord(m, b), Lane(b))
  {
    LaneSmall(b);
  }

  lemma HalfIsBytes(x: bv32, a: bv32)
    requires EvenLane(a)
    ensures Lane(a) < 4 && Lane(a) + 1 < 4
    ensures HalfOf(x, a) == AddW(ByteOf(x, Lane(a)), Shl(ByteOf(x, Lane(a) + 1), 8))
  {
  }

  lemma ByteSmall(m: map<bv32, bv32>, a: bv32)
    ensures ByteAt(m, a) < 0x100
  {
    LaneSmall(a);
    hide Num, Pow2, ByteOf, ReadWord, Lane;
    ByteMeans(ReadWord(m, a), Lane(a));
  }

  lemma ShiftedByte(x: bv32)
    requires Num(x) < 0x100
    ensures Num(Shl(x, 8)) == Num(x) * 0x100 && Num(Shl(x, 16)) == Num(x) * 0x1_0000
    ensures Num(Shl(x, 24)) == Num(x) * 0x100_0000
  {
    hide Num, Shl, ToBv, Pow2;
    ByteCounts();
    Powers();
    ShlMeans(x, 8);
    ShlMeans(x, 16);
    ShlMeans(x, 24);
  }

  /** A half is read from two bytes, the least significant first. */
  lemma LoadHalfBytes(m: map<bv32, bv32>, a: bv32)
    requires Num(a) % 2 == 0
    ensures Num(LoadHalf(m, a)) == ByteAt(m, a) + 0x100 * ByteAt(m, Succ(a))
  {
    hide Num, ReadWord, ByteOf, HalfOf, Lane, Aligned, AddW, Shl, LoadByte, Succ;
    LaneMeans(a);
    NextLane(a);
    HalfIsBytes(ReadWord(m, a), a);
    LoadIs(m, a);
    LoadIs(m, Succ(a));
    SameWord(m, a, Succ(a));
    ByteSmall(m, a);
    ByteSmall(m, Succ(a));
    var lo, hi := LoadByte(m, a), LoadByte(m, Succ(a));
    ShiftedByte(hi);
    PlusMeans(lo, Shl(hi, 8));
  }

  /** Byte k of the word around an address is at the k-th address of the word. */
  lemma LoadWordBytes(m: map<bv32, bv32>, a: bv32, b: bv32)
    requires Num(a) / 4 == Num(b) / 4
    ensures ByteAt(m, b) == Num(ReadWord(m, a)) / Pow2(8 * (Num(b) % 4)) % 0x100
  {
    hide Num, ReadWord, ByteOf, Lane, Aligned, LoadByte, Pow2;
    SameWordIff(a, b);
    SameWord(m, a, b);
    LoadIs(m, b);
    LowMeans(b);
    ByteMeans(ReadWord(m, b), Lane(b));
  }

  // ---- Words that straddle ----

  lemma ByteStays(x: bv32, k: bv32)
    requires k < 4
    ensures LowByte(ByteOf(x, k)) == ByteOf(x, k)
  {
  }

  /** Byte j once byte k is replaced by byte i of v. */
  lemma Replaced(x: bv32, k: bv32, v: bv32, i: bv32, j: bv32)
    requires k < 4 && i < 4 && j < 4
    ensures ByteOf(WithByte(x, k, ByteOf(v, i)), j) == if j == k then ByteOf(v, i) else ByteOf(x, j)
  {
    hide ByteOf, WithByte, LowByte;
    ByteStays(v, i);
    WithByteBytes(x, k, ByteOf(v, i), j);
  }

  lemma Replaced2(x: bv32, k: bv32, k': bv32, v: bv32, i: bv32, i': bv32, j: bv32)
    requires k < 4 && k' < 4 && i < 4 && i' < 4 && j < 4
    ensures ByteOf(WithByte(WithByte(x, k, ByteOf(v, i)), k', ByteOf(v, i')), j) ==
            if j == k' then ByteOf(v, i') else if j == k then ByteOf(v, i) else ByteOf(x, j)
  {
    hide ByteOf, WithByte;
    Replaced(x, k, v, i, j);
    Replaced(WithByte(x, k, ByteOf(v, i)), k', v, i', j);
  }

  lemma SpillLeftBytes(mem: bv32, reg: bv32, k: bv32, j: bv32)
    requires k < 4 && j < 4
    ensures ByteOf(SpillLeft(mem, reg, k), j) == if j <= k then ByteOf(reg, 3 - k + j) else ByteOf(mem, j)
  {
    SmallLane(k);
    SmallLane(j);
    hide ByteOf, WithByte;
    if k == 0 {
      Replaced(mem, 0, reg, 3, j);
    } else if k == 1 {
      Replaced2(mem, 0, 1, reg, 2, 3, j);
    } else if k == 2 {
      Replaced2(mem, 0, 1, reg, 1, 2, j);
      Replaced(WithByte(WithByte(mem, 0, ByteOf(reg, 1)), 1, ByteOf(reg, 2)), 2, reg, 3, j);
    }
  }

  lemma SpillRightBytes(mem: bv32, reg: bv32, k: bv32, j: bv32)
    requires k < 4 && j < 4
    ensures ByteOf(SpillRight(mem, reg, k), j) == if j >= k then ByteOf(reg, j - k) else ByteOf(mem, j)
  {
    SmallLane(k);
    SmallLane(j);
    hide ByteOf, WithByte;
    if k == 3 {
      Replaced(mem, 3, reg, 0, j);
    } else if k == 2 {
      Replaced2(mem, 2, 3, reg, 0, 1, j);
    } else if k == 1 {
      Replaced2(mem, 1, 2, reg, 0, 1, j);
      Replaced(WithByte(WithByte(mem, 1, ByteOf(reg, 0)), 2, ByteOf(reg, 1)), 3, reg, 2, j);
    }
  }

  /** SWL puts the upper bytes of the register below the address, SWR the lower bytes above it. */
  lemma SpillBytes(mem: bv32, reg: bv32, k: bv32, j: bv32)
    requires k < 4 && j < 4
    ensures ByteOf(SpillLeft(mem, reg, k), j) == if j <= k then ByteOf(reg, 3 - k + j) else ByteOf(mem, j)
    ensures ByteOf(SpillRight(mem, reg, k), j) == if j >= k then ByteOf(reg, j - k) else ByteOf(mem, j)
  {
    hide ByteOf, SpillLeft, SpillRight;
    SpillLeftBytes(mem, reg, k, j);
    SpillRightBytes(mem, reg, k, j);
  }

  lemma MergeLeftBytes(prior: bv32, word: bv32, k: bv32, j: bv32)
    requires k < 4 && j < 4
    ensures ByteOf(MergeLeft(prior, word, k), j) == if j >= 3 - k then ByteOf(word, j - (3 - k)) else ByteOf(prior, j)
  {
    SmallLane(k);
    SmallLane(j);
    hide ByteOf, WithByte;
    if k == 0 {
      Replaced(prior, 3, word, 0, j);
    } else if k == 1 {
      Replaced2(prior, 3, 2, word, 1, 0, j);
    } else if k == 2 {
      Replaced2(prior, 3, 2, word, 2, 1, j);
      Replaced(WithByte(WithByte(prior, 3, ByteOf(word, 2)), 2, ByteOf(word, 1)), 1, word, 0, j);
    }
  }

  lemma MergeRightBytes(prior: bv32, word: bv32, k: bv32, j: bv32)
    requires k < 4 && j < 4
    ensures ByteOf(MergeRight(prior, word, k), j) == if j <= 3 - k then ByteOf(word, j + k) else ByteOf(prior, j)
  {
    SmallLane(k);
    SmallLane(j);
    hide ByteOf, WithByte;
    if k == 3 {
      Replaced(prior, 0, word, 3, j);
    } else if k == 2 {
      Replaced2(prior, 0, 1, word, 2, 3, j);
    } else if k == 1 {
      Replaced2(prior, 0, 1, word, 1, 2, j);
      Replaced(WithByte(WithByte(prior, 0, ByteOf(word, 1)), 1, ByteOf(word, 2)), 2, word, 3, j);
    }
  }

  /** LWL fills the upper bytes of the register from below the address, LWR the lower bytes from above it. */
  lemma MergeBytes(prior: bv32, word: bv32, k: bv32, j: bv32)
    requires k < 4 && j < 4
    ensures ByteOf(MergeLeft(prior, word, k), j) == if j >= 3 - k then ByteOf(word, j - (3 - k)) else ByteOf(prior, j)
    ensures ByteOf(MergeRight(prior, word, k), j) == if j <= 3 - k then ByteOf(word, j + k) else ByteOf(prior, j)
  {
    hide ByteOf, MergeLeft, MergeRight;
    MergeLeftBytes(prior, word, k, j);
    MergeRightBytes(prior, word, k, j);
  }

  // ---- Loads and stores ----

  lemma AddressMeans(c: Cpu, op: Op, rs: Reg, rt: Reg, imm: Imm16)
    ensures Num(Address(c, Decode(IType(op, rs, rt, imm)))) ==
            (Num(R(c, rs)) + if imm < 0x8000 then imm else imm - 0x1_0000) % SIZE
  {
    IFields(op, rs, rt, imm);
    hide Num, IType, R, Opcode, Rs, Rt, Rd, Funct, Imm, SImm, AddW, ToBv;
    SumValue(R(c, rs), SImm(IType(op, rs, rt, imm)));
  }

  function LoadWidth(op: Op): int { if op in {0x20, 0x24} then 1 else if op in {0x21, 0x25} then 2 else 4 }

  function Loaded(op: Op, m: map<bv32, bv32>, a: bv32): bv32 {
    match op
    case 0x20 => SignExtend8(LoadByte(m, a))
    case 0x24 => LoadByte(m, a)
    case 0x21 => SignExtend16(LoadHalf(m, a))
    case 0x25 => LoadHalf(m, a)
    case _ => ReadWord(m, a)
  }

  lemma LoadRuns(env: Env, c: Cpu, w: Word, pc: int)
    requires Opcode(w) in {0x20, 0x21, 0x23, 0x24, 0x25}
    ensures var a, n := Address(c, Decode(w)), LoadWidth(Opcode(w));
            Exec(env, c, w, pc) == if Misaligned(a, n) then Trap(c, Unaligned(a, pc))
                                   else Next(Set(Logged(c, a, n), Rt(w), Loaded(Opcode(w), c.mem, a)))
  {
    NeverMisaligned(Address(c, Decode(w)));
    hide Rs, Rt, Rd, Funct, Imm, SImm, ToBv, R, Set, Address, Misaligned, Logged, LoadByte, LoadHalf, ReadWord,
         SignExtend8, SignExtend16, Wrap, BranchTarget, JumpTarget;
  }

  lemma NeverMisaligned(a: bv32)
    ensures !Misaligned(a, 1)
  {
  }

  function Signed(n: int, bound: int): int { if n < bound then n else n - 2 * bound }

  lemma LoadedMeans(op: Op, m: map<bv32, bv32>, a: bv32)
    requires op in {0x20, 0x21, 0x24, 0x25} && (op in {0x21, 0x25} ==> Num(a) % 2 == 0)
    ensures var v, lo, hi := Loaded(op, m, a), ByteAt(m, a), ByteAt(m, Succ(a));
            && (op == 0x20 ==> SInt(v) == Signed(lo, 0x80))
            && (op == 0x24 ==> Num(v) == lo)
            && (op == 0x21 ==> SInt(v) == Signed(lo + 0x100 * hi, 0x8000))
            && (op == 0x25 ==> Num(v) == lo + 0x100 * hi)
  {
    hide Num, SInt, LoadByte, LoadHalf, ReadWord, SignExtend8, SignExtend16, Succ;
    ByteSmall(m, a);
    ByteSmall(m, Succ(a));
    if op in {0x21, 0x25} { LoadHalfBytes(m, a); }
    ExtendMeans(LoadByte(m, a));
    ExtendMeans(LoadHalf(m, a));
  }

  /** LB, LBU, LH, LHU and LW: the address is the base plus the signed offset modulo 2^32; a misaligned one traps;
      otherwise the register gets the signed or unsigned number in the bytes at the address. */
  lemma LoadMeans(env: Env, c: Cpu, pc: int, op: Op, rs: Reg, rt: Reg, imm: Imm16)
    requires op in {0x20, 0x21, 0x23, 0x24, 0x25} && rt != 0
    ensures var a, o := Address(c, Decode(IType(op, rs, rt, imm))), Exec(env, c, IType(op, rs, rt, imm), pc);
            && (o.Trap? <==> Num(a) % LoadWidth(op) != 0)
            && (o.Trap? ==> o == Trap(c, Unaligned(a, pc)))
            && (!o.Trap? ==> o.Next? && o.cpu == Set(Logged(c, a, LoadWidth(op)), rt, o.cpu.gpr[rt]))
            && (!o.Trap? ==>
                var v, lo, hi := o.cpu.gpr[rt], ByteAt(c.mem, a), ByteAt(c.mem, Succ(a));
                && (op == 0x20 ==> SInt(v) == Signed(lo, 0x80))
                && (op == 0x24 ==> Num(v) == lo)
                && (op == 0x21 ==> SInt(v) == Signed(lo + 0x100 * hi, 0x8000))
                && (op == 0x25 ==> Num(v) == lo + 0x100 * hi)
                && (op == 0x23 ==> v == ReadWord(c.mem, a)))
  {
    hide Exec, IType, R, Set, Logged, Num, SInt, Opcode, Rs, Rt, Rd, Funct, Imm, SImm, Address, Misaligned, Signed,
         Succ, ByteAt, ReadWord;
    var w := IType(op, rs, rt, imm);
    var a := Address(c, Decode(w));
    IFields(op, rs, rt, imm);
    LoadRuns(env, c, w, pc);
    MisalignedMeans(a);
    NeverMisaligned(a);
    SetHolds(Logged(c, a, LoadWidth(op)), rt, Loaded(op, c.mem, a));
    if op != 0x23 && Num(a) % LoadWidth(op) == 0 { LoadedMeans(op, c.mem, a); }
  }

  lemma StoreRuns(env: Env, c: Cpu, w: Word, pc: int)
    requires Opcode(w) in {0x28, 0x29, 0x2B}
    ensures var a, v, op := Address(c, Decode(w)), R(c, Rt(w)), Opcode(w);
            Exec(env, c, w, pc) ==
            if Misaligned(a, if op == 0x28 then 1 else if op == 0x29 then 2 else 4) then Trap(c, Unaligned(a, pc))
            else Next(c.(mem := if op == 0x28 then StoreByte(c.mem, a, v) else if op == 0x29 then StoreHalf(c.mem, a, v)
                                else WriteWord(c.mem, a, v)))
  {
    NeverMisaligned(Address(c, Decode(w)));
    hide Rs, Rt, Rd, Funct, Imm, SImm, ToBv, R, Set, Address, Misaligned, StoreByte, StoreHalf, WriteWord, Wrap,
         BranchTarget, JumpTarget;
  }

  /** SB, SH and SW: a misaligned address traps; otherwise the lowest bytes of the register are at the address and
      the next ones, and every other byte is as it was. */
  lemma StoreMeans(env: Env, c: Cpu, pc: int, op: Op, rs: Reg, rt: Reg, imm: Imm16, b: bv32)
    requires op in {0x28, 0x29, 0x2B}
    ensures var a, o := Address(c, Decode(IType(op, rs, rt, imm))), Exec(env, c, IType(op, rs, rt, imm), pc);
            var n := if op == 0x28 then 1 else if op == 0x29 then 2 else 4;
            && (o.Trap? <==> Num(a) % n != 0)
            && (o.Trap? ==> o == Trap(c, Unaligned(a, pc)))
            && (!o.Trap? ==> o.Next? && o.cpu == c.(mem := o.cpu.mem))
            && (!o.Trap? ==>
                var v, x := Num(R(c, rt)), ByteAt(o.cpu.mem, b);
                && (op == 0x28 ==> x == if a == b then v % 0x100 else ByteAt(c.mem, b))
                && (op == 0x29 ==> x == if a == b then v % 0x100 else if b == Succ(a) then v / 0x100 % 0x100
                                        else ByteAt(c.mem, b))
                && (op == 0x2B ==> x == if Num(a) / 4 == Num(b) / 4 then v / Pow2(8 * (Num(b) % 4)) % 0x100
                                        else ByteAt(c.mem, b)))
  {
    hide Exec, IType, R, Num, Opcode, Rs, Rt, Rd, Funct, Imm, SImm, Address, Misaligned, Succ, ByteAt, StoreByte,
         StoreHalf, WriteWord, Pow2;
    var w := IType(op, rs, rt, imm);
    var a := Address(c, Decode(w));
    IFields(op, rs, rt, imm);
    StoreRuns(env, c, w, pc);
    MisalignedMeans(a);
    NeverMisaligned(a);
    StoreByteBytes(c.mem, a, R(c, rt), b);
    StoreWordBytes(c.mem, a, R(c, rt), b);
    if Num(a) % 2 == 0 { StoreHalfBytes(c.mem, a, R(c, rt), b); }
  }
}
