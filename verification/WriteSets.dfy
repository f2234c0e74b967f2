/** The hazard scan is exact: its write sets hold the registers an instruction overwrites and no others, and a branch
    it reports decides otherwise after its delay slot. */
module WriteSets {
  import opened Mips
  import opened Isa
  import opened Translator
  import opened LinkOrder
  import Hazards
  import HazardScan

  /** What the register holds afterwards does not depend on what it held before. */
  ghost predicate Forgets(env: Env, c: Cpu, w: Word, pc: int, r: Reg) {
    !Exec(env, c, w, pc).Trap? ==> forall x: bv32 :: Forgotten(Exec(env, c, w, pc), Exec(env, Set(c, r, x), w, pc), r)
  }

  ghost predicate Forgotten(o: Outcome, o': Outcome, r: Reg) {
    !o.Trap? ==> !o'.Trap? && o.cpu.gpr[r] == o'.cpu.gpr[r]
  }

  lemma SetShows(r: Reg)
    ensures r != 0 ==> forall c: Cpu, v: bv32 :: Set(c, r, v).gpr[r] == v
  {
  }

  lemma ShiftForgets(env: Env, c: Cpu, w: Word, pc: int, r: Reg, x: bv32)
    requires Opcode(w) == 0x00 && Funct(w) in {0x00, 0x02, 0x03, 0x04, 0x06, 0x07} && Rd(w) == r != 0 && r !in Reads(w)
    ensures Forgotten(ExecSpecial(env, c, w, pc), ExecSpecial(env, Set(c, r, x), w, pc), r)
  {
    SetShows(r);
    SetKeeps(c, r, x);
    hide Opcode, Rs, Rt, Rd, Funct, Imm, SImm, ToBv, ToAddr, Shamt, R, Set, Shl, Shr, Sra, AddOverflows, SubOverflows,
         AddW, SubW, AndW, OrW, XorW, NotW, LessW, SignedLess, Flag, Divide, DivideUnsigned, Multiply, MultiplyUnsigned;
    OtherReads(c, r, x, Rs(w));
    OtherReads(c, r, x, Rt(w));
  }

  lemma LinkedForgets(env: Env, c: Cpu, w: Word, pc: int, r: Reg, x: bv32)
    requires Opcode(w) == 0x00 && Funct(w) in {0x09, 0x10, 0x12} && Rd(w) == r != 0 && r !in Reads(w)
    ensures Forgotten(ExecSpecial(env, c, w, pc), ExecSpecial(env, Set(c, r, x), w, pc), r)
  {
    SetShows(r);
    SetKeeps(c, r, x);
    hide Opcode, Rs, Rt, Rd, Funct, Imm, SImm, ToBv, ToAddr, Shamt, R, Set, Shl, Shr, Sra, AddOverflows, SubOverflows,
         AddW, SubW, AndW, OrW, XorW, NotW, LessW, SignedLess, Flag, Divide, DivideUnsigned, Multiply, MultiplyUnsigned;
    OtherReads(c, r, x, Rs(w));
    OtherReads(c, r, x, Rt(w));
  }

  lemma TrapForgets(env: Env, c: Cpu, w: Word, pc: int, r: Reg, x: bv32)
    requires Opcode(w) == 0x00 && Funct(w) in {0x20, 0x22} && Rd(w) == r != 0 && r !in Reads(w)
    ensures Forgotten(ExecSpecial(env, c, w, pc), ExecSpecial(env, Set(c, r, x), w, pc), r)
  {
    SetShows(r);
    SetKeeps(c, r, x);
    hide Opcode, Rs, Rt, Rd, Funct, Imm, SImm, ToBv, ToAddr, Shamt, R, Set, Shl, Shr, Sra, AddOverflows, SubOverflows,
         AddW, SubW, AndW, OrW, XorW, NotW, LessW, SignedLess, Flag, Divide, DivideUnsigned, Multiply, MultiplyUnsigned;
    OtherReads(c, r, x, Rs(w));
    OtherReads(c, r, x, Rt(w));
  }

  lemma SumForgets(env: Env, c: Cpu, w: Word, pc: int, r: Reg, x: bv32)
    requires Opcode(w) == 0x00 && Funct(w) in {0x21, 0x23} && Rd(w) == r != 0 && r !in Reads(w)
    ensures Forgotten(ExecSpecial(env, c, w, pc), ExecSpecial(env, Set(c, r, x), w, pc), r)
  {
    SetShows(r);
    SetKeeps(c, r, x);
    hide Opcode, Rs, Rt, Rd, Funct, Imm, SImm, ToBv, ToAddr, Shamt, R, Set, Shl, Shr, Sra, AddOverflows, SubOverflows,
         AddW, SubW, AndW, OrW, XorW, NotW, LessW, SignedLess, Flag, Divide, DivideUnsigned, Multiply, MultiplyUnsigned;
    OtherReads(c, r, x, Rs(w));
    OtherReads(c, r, x, Rt(w));
  }

  lemma LogicForgets(env: Env, c: Cpu, w: Word, pc: int, r: Reg, x: bv32)
    requires Opcode(w) == 0x00 && Funct(w) in {0x24, 0x25} && Rd(w) == r != 0 && r !in Reads(w)
    ensures Forgotten(ExecSpecial(env, c, w, pc), ExecSpecial(env, Set(c, r, x), w, pc), r)
  {
    SetShows(r);
    SetKeeps(c, r, x);
    hide Opcode, Rs, Rt, Rd, Funct, Imm, SImm, ToBv, ToAddr, Shamt, R, Set, Shl, Shr, Sra, AddOverflows, SubOverflows,
         AddW, SubW, AndW, OrW, XorW, NotW, LessW, SignedLess, Flag, Divide, DivideUnsigned, Multiply, MultiplyUnsigned;
    OtherReads(c, r, x, Rs(w));
    OtherReads(c, r, x, Rt(w));
  }

  lemma ExclusiveForgets(env: Env, c: Cpu, w: Word, pc: int, r: Reg, x: bv32)
    requires Opcode(w) == 0x00 && Funct(w) in {0x26, 0x27} && Rd(w) == r != 0 && r !in Reads(w)
    ensures Forgotten(ExecSpecial(env, c, w, pc), ExecSpecial(env, Set(c, r, x), w, pc), r)
  {
    SetShows(r);
    SetKeeps(c, r, x);
    hide Opcode, Rs, Rt, Rd, Funct, Imm, SImm, ToBv, ToAddr, Shamt, R, Set, Shl, Shr, Sra, AddOverflows, SubOverflows,
         AddW, SubW, AndW, OrW, XorW, NotW, LessW, SignedLess, Flag, Divide, DivideUnsigned, Multiply, MultiplyUnsigned;
    OtherReads(c, r, x, Rs(w));
    OtherReads(c, r, x, Rt(w));
  }

  lemma CompareForgets(env: Env, c: Cpu, w: Word, pc: int, r: Reg, x: bv32)
    requires Opcode(w) == 0x00 && Funct(w) in {0x2A, 0x2B} && Rd(w) == r != 0 && r !in Reads(w)
    ensures Forgotten(ExecSpecial(env, c, w, pc), ExecSpecial(env, Set(c, r, x), w, pc), r)
  {
    SetShows(r);
    SetKeeps(c, r, x);
    hide Opcode, Rs, Rt, Rd, Funct, Imm, SImm, ToBv, ToAddr, Shamt, R, Set, Shl, Shr, Sra, AddOverflows, SubOverflows,
         AddW, SubW, AndW, OrW, XorW, NotW, LessW, SignedLess, Flag, Divide, DivideUnsigned, Multiply, MultiplyUnsigned;
    OtherReads(c, r, x, Rs(w));
    OtherReads(c, r, x, Rt(w));
  }

  lemma SpecialForgets(env: Env, c: Cpu, w: Word, pc: int, r: Reg, x: bv32)
    requires Opcode(w) == 0x00 && Hazards.Writes(w) == Some({r}) && r != 0 && r !in Reads(w)
    ensures Forgotten(ExecSpecial(env, c, w, pc), ExecSpecial(env, Set(c, r, x), w, pc), r)
  {
    hide Opcode, Rs, Rt, Rd, Funct, Set, ExecSpecial, Forgotten, Reads;
    assert r in Hazards.Writes(w).value;
    assert Rd(w) == r;
    if Funct(w) in {0x00, 0x02, 0x03, 0x04, 0x06, 0x07} {
      ShiftForgets(env, c, w, pc, r, x);
    } else if Funct(w) in {0x09, 0x10, 0x12} {
      LinkedForgets(env, c, w, pc, r, x);
    } else if Funct(w) in {0x20, 0x22} {
      TrapForgets(env, c, w, pc, r, x);
    } else if Funct(w) in {0x21, 0x23} {
      SumForgets(env, c, w, pc, r, x);
    } else if Funct(w) in {0x24, 0x25} {
      LogicForgets(env, c, w, pc, r, x);
    } else if Funct(w) in {0x26, 0x27} {
      ExclusiveForgets(env, c, w, pc, r, x);
    } else {
      CompareForgets(env, c, w, pc, r, x);
    }
  }

  lemma ImmediateForgets(c: Cpu, w: Word, r: Reg, x: bv32)
    requires 0x08 <= Opcode(w) <= 0x0F && Rt(w) == r != 0 && r !in Reads(w)
    ensures Forgotten(ExecImmediate(c, w), ExecImmediate(Set(c, r, x), w), r)
  {
    SetShows(r);
    hide Opcode, Rs, Rt, Rd, Funct, Imm, SImm, ToBv, AddOverflows, AddW, SubW, AndW, OrW, XorW, NotW, LessW, Shl, Shr,
         Sra, SignedLess, Flag, Set, R;
    OtherReads(c, r, x, Rs(w));
  }

  lemma LoadForgets(c: Cpu, w: Word, pc: int, r: Reg, x: bv32)
    requires 0x20 <= Opcode(w) <= 0x26 && Rt(w) == r != 0 && r !in Reads(w)
    ensures Forgotten(ExecLoad(c, w, pc), ExecLoad(Set(c, r, x), w, pc), r)
  {
    SetShows(r);
    SetKeeps(c, r, x);
    hide Opcode, Rs, Rt, Rd, Funct, Imm, SImm, ToBv, AddW, Set, R, Logged, Misaligned, Aligned, Lane,
         LoadByte, LoadHalf, ReadWord, SignExtend8, SignExtend16, MergeLeft, MergeRight;
    OtherReads(c, r, x, Rs(w));
  }

  lemma MoveForgets(c: Cpu, w: Word, r: Reg, x: bv32)
    requires Opcode(w) == 0x10 && Rs(w) == 0 && Rt(w) == r != 0
    ensures Forgotten(ExecCop0(c, w), ExecCop0(Set(c, r, x), w), r)
  {
    SetShows(r);
    SetKeeps(c, r, x);
    hide Opcode, Rt, Rd, Funct, Imm, SImm, Set, R, PopStatus;
  }

  lemma LinkForgets(env: Env, c: Cpu, w: Word, pc: int, x: bv32)
    requires Opcode(w) in {0x01, 0x03} && Hazards.Writes(w) == Some({31}) && 31 !in Reads(w)
    ensures Forgotten(Exec(env, c, w, pc), Exec(env, Set(c, 31, x), w, pc), 31)
  {
    SetShows(31);
    hide Opcode, Rs, Rt, Rd, Funct, Imm, SImm, Set, R, ToBv, Wrap, JumpTarget, BranchTarget, Negative;
    OtherReads(c, 31, x, Rs(w));
  }

  lemma ExecForgets(env: Env, c: Cpu, w: Word, pc: int, r: Reg, x: bv32)
    requires Hazards.Writes(w) == Some({r}) && r != 0 && r !in Reads(w)
    ensures Forgotten(Exec(env, c, w, pc), Exec(env, Set(c, r, x), w, pc), r)
  {
    hide Rs, Rt, Rd, Funct, Set, ExecSpecial, ExecImmediate, ExecLoad, ExecStore, ExecCop0, ExecCop2, ExecCop2Memory,
         BranchLinked, Wrap, ToBv, JumpTarget, BranchTarget, Forgotten, Reads;
    if Opcode(w) == 0x00 {
      SpecialForgets(env, c, w, pc, r, x);
    } else if Opcode(w) in {0x01, 0x03} {
      LinkForgets(env, c, w, pc, x);
    } else if 0x08 <= Opcode(w) <= 0x0F {
      ImmediateForgets(c, w, r, x);
    } else if Opcode(w) == 0x10 {
      MoveForgets(c, w, r, x);
    } else {
      LoadForgets(c, w, pc, r, x);
    }
  }

  /** A register that a word does not read is in its write set exactly if the word forgets what it held: the write
      sets miss no register that is overwritten, SYSCALL and moves out of coprocessor 2 aside, and name no other. */
  lemma WriteSetIff(env: Env, c: Cpu, w: Word, pc: int, r: Reg)
    requires Hazards.Writes(w).Some? && !HazardScan.Foreign(w) && !HazardScan.MovesOut(w)
    requires r != 0 && r !in Reads(w) && !Exec(env, c, w, pc).Trap?
    ensures r in Hazards.Writes(w).value <==> Forgets(env, c, w, pc, r)
  {
    OneTarget(w);
    hide Exec, Set, Reads, Hazards.Writes, HazardScan.Foreign, HazardScan.MovesOut;
    if r in Hazards.Writes(w).value {
      assert Hazards.Writes(w) == Some({r});
      forall x: bv32 ensures Forgotten(Exec(env, c, w, pc), Exec(env, Set(c, r, x), w, pc), r) {
        ExecForgets(env, c, w, pc, r, x);
      }
    } else {
      Remembers(env, c, w, pc, r);
    }
  }

  lemma OneTarget(w: Word)
    ensures Hazards.Writes(w).Some? && Hazards.Writes(w).value != {} ==> exists r :: Hazards.Writes(w) == Some({r})
  {
    hide Opcode, Rs, Rt, Rd, Funct;
  }

  lemma Different(v: bv32)
    ensures v + 1 != v
  {
  }

  lemma Remembers(env: Env, c: Cpu, w: Word, pc: int, r: Reg)
    requires Hazards.Writes(w).Some? && !HazardScan.Foreign(w) && !HazardScan.MovesOut(w)
    requires r != 0 && r !in Hazards.Writes(w).value && !Exec(env, c, w, pc).Trap?
    ensures !Forgets(env, c, w, pc, r)
  {
    SetShows(r);
    hide Exec, Set, Reads, Hazards.Writes, HazardScan.Foreign, HazardScan.MovesOut;
    var x := c.gpr[r] + 1;
    Different(c.gpr[r]);
    HazardScan.WriteSetSound(env, c, w, pc);
    HazardScan.WriteSetSound(env, Set(c, r, x), w, pc);
    assert !Forgotten(Exec(env, c, w, pc), Exec(env, Set(c, r, x), w, pc), r);
  }

  // ---- A reported branch ----

  /** The operand of a branch beside r; zero where there is none. */
  function Other(c: Cpu, w: Word, r: Reg): bv32 {
    if !HazardScan.UsesRt(w) then 0 else if r == Rs(w) then c.gpr[Rt(w)] else c.gpr[Rs(w)]
  }

  lemma DecidesBy(c: Cpu, w: Word, r: Reg)
    requires BranchCond(w).Some? && (r == Rs(w) || (HazardScan.UsesRt(w) && r == Rt(w)))
    ensures HazardScan.DecidesIn(c, w) == Holds(BranchCond(w).value, c.gpr[r], Other(c, w, r))
  {
    hide Opcode, Rs, Rt, ReadData, ReadCtrl, EvalOp;
  }

  /** Some value of the operand is decided otherwise. */
  lemma Otherwise(k: Cond, v: bv32, y: bv32) returns (x: bv32)
    requires k in {IfEq, IfNe} || y == 0
    ensures Holds(k, v, y) != Holds(k, x, y)
  {
    if k in {IfEq, IfNe} {
      Different(y);
      x := if v == y then y + 1 else y;
    } else {
      x := HazardScan.Different(k, v);
    }
  }

  /** Every report is right: where the slot completes and does not itself use the operand it writes, there is a value
      of that operand for which the branch decides one way before the slot and the other way after it. */
  lemma FlaggedHarms(env: Env, c: Cpu, w: Word, d: Word, pc: int, r: Reg) returns (x: bv32)
    requires BranchCond(w).Some? && !HazardScan.SelfCompared(w)
    requires Hazards.Writes(d) == Some({r}) && HazardScan.Flagged(w, d) && r !in Reads(d)
    requires Zeroed(c) && !Exec(env, c, d, pc).Trap?
    ensures r != 0 && (r == Rs(w) || (HazardScan.UsesRt(w) && r == Rt(w)))
    ensures var c' := Set(c, r, x);
            Zeroed(c') && HazardScan.DecidesIn(c', w) != HazardScan.DecidesIn(Exec(env, c', d, pc).cpu, w)
  {
    OperandWritten(w, d, r);
    hide Exec, Reads, Hazards.Writes, BranchCond, Rs, Rt, Opcode, HazardScan.DecidesIn, Holds, Set, Other,
         HazardScan.Flagged;
    CondOperands(w);
    var v := Exec(env, c, d, pc).cpu.gpr[r];
    if !HazardScan.UsesRt(w) { NoOther(c, w, r); }
    x := Otherwise(BranchCond(w).value, v, Other(c, w, r));
    AfterSlot(env, c, w, d, pc, r, x);
    SetZero(c, r, x);
    DecidesBy(Set(c, r, x), w, r);
    DecidesBy(Exec(env, Set(c, r, x), d, pc).cpu, w, r);
  }

  lemma SetZero(c: Cpu, r: Reg, x: bv32)
    requires Zeroed(c)
    ensures Zeroed(Set(c, r, x))
  {
  }

  lemma NoOther(c: Cpu, w: Word, r: Reg)
    requires !HazardScan.UsesRt(w)
    ensures Other(c, w, r) == 0
  {
  }

  lemma OperandWritten(w: Word, d: Word, r: Reg)
    requires Hazards.Writes(d) == Some({r}) && HazardScan.Flagged(w, d)
    ensures r != 0 && (r == Rs(w) || (HazardScan.UsesRt(w) && r == Rt(w)))
  {
    hide Opcode, Rs, Rt, Hazards.Writes;
  }

  /** The slot leaves its own result in the operand it writes, whatever was there, and the other operand alone. */
  lemma AfterSlot(env: Env, c: Cpu, w: Word, d: Word, pc: int, r: Reg, x: bv32)
    requires Hazards.Writes(d) == Some({r}) && r != 0 && r !in Reads(d) && !Exec(env, c, d, pc).Trap?
    requires !HazardScan.SelfCompared(w) && (r == Rs(w) || (HazardScan.UsesRt(w) && r == Rt(w)))
    ensures Set(c, r, x).gpr[r] == x && Exec(env, Set(c, r, x), d, pc).cpu.gpr[r] == Exec(env, c, d, pc).cpu.gpr[r]
    ensures Other(Set(c, r, x), w, r) == Other(c, w, r)
    ensures Other(Exec(env, Set(c, r, x), d, pc).cpu, w, r) == Other(c, w, r)
  {
    SetShows(r);
    OnlyMoves(d, r);
    hide Exec, Reads, Hazards.Writes, HazardScan.Foreign, HazardScan.MovesOut, Rs, Rt, Opcode;
    ExecForgets(env, c, d, pc, r, x);
    HazardScan.WriteSetSound(env, Set(c, r, x), d, pc);
  }

  lemma CondOperands(w: Word)
    requires BranchCond(w).Some?
    ensures BranchCond(w).value in {IfEq, IfNe} <==> HazardScan.UsesRt(w)
  {
    hide Opcode, Rt;
  }

  lemma OnlyMoves(d: Word, r: Reg)
    requires Hazards.Writes(d) == Some({r})
    ensures !HazardScan.Foreign(d) && !HazardScan.MovesOut(d)
  {
    hide Opcode, Rs, Rt, Rd, Funct;
    assert r in Hazards.Writes(d).value;
  }
}
