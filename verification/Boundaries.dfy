/** The evidence of a function boundary in the machine's terms. */
module Boundaries {
  import opened Mips
  import opened Isa
  import opened Binary
  import opened Encoding
  import opened Meaning
  import opened Flows
  import Translator

  /** The machine has no such instruction. */
  predicate Unknown(env: Env, c: Cpu, w: Word, pc: int) { Exec(env, c, w, pc) == Trap(c, Reserved(w)) }

  const SPECIALS := {
    0x00, 0x02, 0x03, 0x04, 0x06, 0x07, 0x08, 0x09, 0x0C, 0x0D, 0x10, 0x11, 0x12, 0x13, 0x18, 0x19, 0x1A, 0x1B, 0x20,
    0x21, 0x22, 0x23, 0x24, 0x25, 0x26, 0x27, 0x2A, 0x2B}

  lemma SpecialKnown(env: Env, c: Cpu, w: Word, pc: int)
    requires Opcode(w) == 0x00 && Funct(w) != 0x0C
    ensures Unknown(env, c, w, pc) <==> Funct(w) !in SPECIALS
  {
    hide Opcode, Rs, Rt, Rd, Funct, Imm, SImm, ToBv, ToAddr, Shamt, R, Set, Shl, Shr, Sra, AddOverflows, SubOverflows,
         AddW, SubW, AndW, OrW, XorW, NotW, LessW, SignedLess, Flag, Divide, DivideUnsigned, Multiply,
         MultiplyUnsigned;
  }

  lemma BranchKnown(env: Env, c: Cpu, w: Word, pc: int)
    requires Opcode(w) != 0x00
    ensures IsBranch(w) ==> Exec(env, c, w, pc).Go?
    ensures !IsBranch(w) && Opcode(w) in {0x01, 0x11, 0x13, 0x14, 0x15, 0x16, 0x17} ==> Unknown(env, c, w, pc)
  {
    hide Opcode, Rs, Rt, Taken, BranchLinked, Wrap, BranchTarget;
    TakenIff(c, w);
  }

  lemma DataKnown(env: Env, c: Cpu, w: Word, pc: int)
    requires 0x08 <= Opcode(w) <= 0x0F || 0x18 <= Opcode(w)
    ensures Unknown(env, c, w, pc) <==>
            Opcode(w) !in {0x08, 0x09, 0x0A, 0x0B, 0x0C, 0x0D, 0x0E, 0x0F, 0x20, 0x21, 0x22, 0x23, 0x24, 0x25, 0x26,
                           0x28, 0x29, 0x2A, 0x2B, 0x2E, 0x32, 0x3A}
  {
    hide Opcode, Rs, Rt, Rd, Funct, Imm, SImm, Lane, MergeLeft, MergeRight, SpillLeft, SpillRight, Address, Misaligned,
         Set, R, ToBv, AddOverflows;
  }

  /** A word passes for code exactly if the machine knows it, or it is a coprocessor word of a kind looked at no
      further. The effect of SYSCALL is a parameter. */
  lemma ValidIff(env: Env, c: Cpu, w: Word, pc: int)
    requires !(Opcode(w) == 0x00 && Funct(w) == 0x0C)
    ensures IsValidWord(w) <==> Opcode(w) in {0x10, 0x12, 0x30, 0x38} || !Unknown(env, c, w, pc)
  {
    AllOnes(w);
    hide Exec, Opcode, Rs, Rt, Rd, Funct;
    if Opcode(w) == 0x00 {
      SpecialKnown(env, c, w, pc);
    } else {
      OtherOpcode(env, c, w, pc);
      BranchKnown(env, c, w, pc);
      if 0x08 <= Opcode(w) <= 0x0F || 0x18 <= Opcode(w) { DataKnown(env, c, w, pc); }
    }
  }

  lemma AllOnes(w: Word)
    ensures w in {0xFFFF_FFFF, 0xFFFF_FFFD} ==> Opcode(w) == 0x3F
    ensures 0 <= Opcode(w) <= 0x3F
  {
  }

  /** A prologue lowers the stack pointer and does nothing else. */
  lemma PrologueRuns(env: Env, c: Cpu, w: Word, pc: int)
    requires IsAddiuSpNeg(w)
    ensures var o := Exec(env, c, w, pc);
            && o.Next? && o.cpu == Set(c, 29, o.cpu.gpr[29])
            && -0x8000 <= SImm(w) < 0 && Num(o.cpu.gpr[29]) == (Num(R(c, 29)) + SImm(w)) % SIZE
  {
    EveryWord(w);
    hide Exec, Num, IType, JType, RType, Opcode, Rs, Rt, Rd, Funct, R, Set, Digit;
    ImmediateMeans(env, c, pc, 0x09, 29, 29, Imm(w), 0);
  }

  lemma ReturnIs()
    ensures RType(0x08, 31, 0, 0, 0) == 0x03E0_0008
  {
  }

  /** A boundary begins the image, or follows a return and its delay slot, or lowers the stack pointer without being
      the delay slot of a transfer. */
  lemma CallableIff(env: Env, c: Cpu, img: Image, a: int)
    ensures Callable(img, a) <==>
            && ValidAt(img, a)
            && (|| a == img.load
                || WordAt(img, a - 8) == Some(RType(0x08, 31, 0, 0, 0))
                || (&& (exists imm: Imm16 :: imm >= 0x8000 && WordAt(img, a) == Some(IType(0x09, 29, 29, imm)))
                    && (WordAt(img, a - 4).Some? ==> !Transfers(env, c, WordAt(img, a - 4).value, a - 4))))
  {
    ReturnIs();
    assert ValidAt(img, a) ==> WordAt(img, a).Some?;
    hide WordAt, Transfers, IType, RType, IsControlFlow, IsAddiuSpNeg, ValidAt;
    if WordAt(img, a).Some? { PrologueIff(WordAt(img, a).value); }
    if WordAt(img, a - 4).Some? { TransfersIff(env, c, WordAt(img, a - 4).value, a - 4); }
  }

  lemma PrologueIff(w: Word)
    ensures IsAddiuSpNeg(w) <==> exists imm: Imm16 :: imm >= 0x8000 && w == IType(0x09, 29, 29, imm)
  {
    EveryWord(w);
    hide IType, JType, RType, Opcode, Rs, Rt, Rd, Funct, Imm;
    forall imm: Imm16 | w == IType(0x09, 29, 29, imm) ensures IsAddiuSpNeg(w) <==> imm >= 0x8000 {
      IFields(0x09, 29, 29, imm);
    }
  }

  /** The word sends control elsewhere, or would as a branch of some kind the machine does not know. */
  predicate Transfers(env: Env, c: Cpu, w: Word, pc: int) {
    Exec(env, c, w, pc).Go? || Opcode(w) in {0x01, 0x14, 0x15, 0x16, 0x17}
  }

  lemma TransfersIff(env: Env, c: Cpu, w: Word, pc: int)
    ensures IsControlFlow(w) <==> Transfers(env, c, w, pc)
  {
    hide Exec, Rs, Rt, Rd, Funct, Opcode, JumpTarget, BranchTarget;
    if Opcode(w) == 0x00 { OpcodeZero(env, c, w, pc); } else { OtherOpcode(env, c, w, pc); }
  }

  /** When the machine takes a branch, in signed numbers. */
  lemma TakenMeans(c: Cpu, w: Word)
    requires IsBranch(w)
    ensures var a, b := SInt(R(c, Rs(w))), SInt(R(c, Rt(w)));
            Taken(c, w) == Some(
              match Opcode(w)
              case 0x04 => a == b
              case 0x05 => a != b
              case 0x06 => a <= 0
              case 0x07 => a > 0
              case _ => if Rt(w) % 2 == 0 then a < 0 else a >= 0)
  {
    hide Opcode, Rs, Rt, R;
    SignedOrder(R(c, Rs(w)), R(c, Rt(w)));
    hide SInt, Negative;
  }

  lemma SignedOrder(x: bv32, y: bv32)
    ensures (Negative(x) <==> SInt(x) < 0) && (x == 0 <==> SInt(x) == 0) && (x == y <==> SInt(x) == SInt(y))
  {
    hide Num, SInt, Negative;
    SignMeans(x);
    SignMeans(y);
    SignMeans(0);
    ByteCounts();
    if Num(x) == Num(y) { NumInjective(x, y); }
    if Num(x) == 0 { NumInjective(x, 0); }
  }

  // ---- What the translator supports ----

  lemma SpecialSupported(w: Word, pc: int)
    requires Opcode(w) == 0x00
    ensures Translator.Translate(w, pc).Unsupported? <==> Funct(w) !in SPECIALS || Funct(w) == 0x18
  {
    NothingSpecial(w);
    hide Opcode, Rs, Rt, Rd, Funct, Shamt, ToBv;
  }

  lemma NothingSpecial(w: Word)
    ensures w == 0 ==> Funct(w) == 0x00
  {
  }

  lemma OtherSupported(w: Word, pc: int)
    requires Opcode(w) != 0x00
    ensures Translator.Translate(w, pc).Unsupported? <==>
            match Opcode(w)
            case 0x01 => Rt(w) !in {0x00, 0x01}
            case 0x10 => w != 0x4200_0010 && Rs(w) !in {0x00, 0x04}
            case 0x12 => Rs(w) < 0x10 && Rs(w) !in {0x00, 0x02, 0x04, 0x06}
            case op => op !in {0x02, 0x03, 0x04, 0x05, 0x06, 0x07, 0x08, 0x09, 0x0A, 0x0B, 0x0C, 0x0D, 0x0E, 0x0F, 0x20,
                               0x21, 0x22, 0x23, 0x24, 0x25, 0x26, 0x28, 0x29, 0x2A, 0x2B, 0x2E, 0x32, 0x3A}
  {
    NothingOther(w);
    hide Opcode, Rs, Rt, Rd, Funct, Imm, SImm, Shamt, ToBv, Wrap, BranchTarget, JumpTarget, Shl;
  }

  lemma NothingOther(w: Word)
    ensures w == 0 ==> Opcode(w) == 0x00
  {
  }

  lemma CopKnown(env: Env, c: Cpu, w: Word, pc: int)
    requires Opcode(w) in {0x10, 0x12}
    ensures Unknown(env, c, w, pc) <==>
            if Opcode(w) == 0x10 then w != 0x4200_0010 && Rs(w) !in {0x00, 0x04}
            else Rs(w) < 0x10 && Rs(w) !in {0x00, 0x02, 0x04, 0x06}
  {
    TakenIff(c, w);
    hide Opcode, Rs, Rt, Rd, Funct, R, Set, ReadData, ReadCtrl, WriteData, WriteCtrl, Commanded, PopStatus, Taken;
  }

  /** The translator supports every instruction of the machine but MULT and the two branches that link. */
  lemma SupportedIff(env: Env, c: Cpu, w: Word, pc: int)
    requires !(Opcode(w) == 0x00 && Funct(w) == 0x0C)
    ensures Translator.Translate(w, pc).Unsupported? <==>
            || Unknown(env, c, w, pc)
            || (Opcode(w) == 0x00 && Funct(w) == 0x18)
            || (Opcode(w) == 0x01 && Rt(w) in {0x10, 0x11})
  {
    AllOnes(w);
    hide Exec, Opcode, Rs, Rt, Rd, Funct, Translator.Translate;
    if Opcode(w) == 0x00 {
      SpecialKnown(env, c, w, pc);
      SpecialSupported(w, pc);
    } else {
      OtherOpcode(env, c, w, pc);
      BranchKnown(env, c, w, pc);
      OtherSupported(w, pc);
      if Opcode(w) in {0x10, 0x12} { CopKnown(env, c, w, pc); }
      if 0x08 <= Opcode(w) <= 0x0F || 0x18 <= Opcode(w) { DataKnown(env, c, w, pc); }
    }
  }
}
