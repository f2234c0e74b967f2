/** Writing a register before or after another instruction. A call writes its link register before its delay
    slot; the emitted code writes it after. This module says when the order does not matter, for any link
    register. */
module LinkOrder {
  import opened Mips
  import opened Isa
  import opened Translator
  import opened SliceMeaning
  import Hazards
  import HazardScan

  // ---- What an instruction reads ----

  /** The general registers whose values a word uses. */
  function Reads(w: Word): set<Reg> {
    var op := Opcode(w);
    if op == 0x00 then
      if Funct(w) in {0x00, 0x02, 0x03} then {Rt(w)}
      else if Funct(w) in {0x08, 0x09, 0x11, 0x13} then {Rs(w)}
      else if Funct(w) in {0x0D, 0x10, 0x12} then {}
      else {Rs(w), Rt(w)}
    else if op in {0x01, 0x06, 0x07} then {Rs(w)}
    else if op in {0x04, 0x05} then {Rs(w), Rt(w)}
    else if 0x08 <= op <= 0x0E then {Rs(w)}
    else if op in {0x22, 0x26} then {Rs(w), Rt(w)}
    else if 0x20 <= op <= 0x25 then {Rs(w)}
    else if 0x28 <= op <= 0x2E then {Rs(w), Rt(w)}
    else if op == 0x10 then if Rs(w) == 0x04 then {Rt(w)} else {}
    else if op == 0x12 then if Rs(w) in {0x04, 0x06} then {Rt(w)} else {}
    else if op in {0x32, 0x3A} then {Rs(w)}
    else {}
  }

  /** The link register was written first: nothing else differs, and a word that does not transfer
      control ends the same way. */
  ghost predicate Shadow(before: Outcome, after: Outcome, q: Reg, link: bv32) {
    && (after.Next? ==> before.Next? && before.cpu == Set(after.cpu, q, before.cpu.gpr[q]))
    && (after.Trap? ==> before == Trap(Set(after.cpu, q, link), after.cause))
  }

  lemma OtherReads(c: Cpu, q: Reg, link: bv32, r: Reg)
    ensures r != q ==> R(Set(c, q, link), r) == R(c, r)
  {
  }

  lemma SetTwice(c: Cpu, r: Reg, x: bv32, y: bv32)
    ensures Set(Set(c, r, x), r, y) == Set(c, r, y)
    ensures r != 0 ==> Set(c, r, x).gpr[r] == x
  {
    if r != 0 { assert c.gpr[r := x][r := y] == c.gpr[r := y]; }
  }

  lemma SetsCommute(c: Cpu, q: Reg, link: bv32, r: Reg, v: bv32)
    requires r != q
    ensures Set(Set(c, q, link), r, v) == Set(Set(c, r, v), q, link)
  {
    if r != 0 { assert c.gpr[q := link][r := v] == c.gpr[r := v][q := link]; }
  }

  /** A register write, to the link register or another. */
  lemma WriteShadow(c: Cpu, q: Reg, link: bv32, r: Reg, v: bv32)
    ensures Shadow(Next(Set(Set(c, q, link), r, v)), Next(Set(c, r, v)), q, link)
  {
    if r == q {
      SetTwice(c, q, link, v);
      SetTwice(c, q, v, v);
    } else {
      SetsCommute(c, q, link, r, v);
      SetTwice(Set(c, r, v), q, link, link);
    }
    hide Set;
  }

  /** A change that leaves the general registers alone. */
  lemma StateShadow(c: Cpu, q: Reg, link: bv32, d: Cpu, e: Cpu)
    requires d.gpr == c.gpr && e == d.(gpr := Set(c, q, link).gpr)
    ensures Shadow(Next(e), Next(d), q, link)
  {
    assert e == Set(d, q, link);
  }

  lemma TrapShadow(c: Cpu, q: Reg, link: bv32)
    ensures forall cause: Cause :: Shadow(Trap(Set(c, q, link), cause), Trap(c, cause), q, link)
  {
    hide Set;
  }

  lemma AnyWriteShadow(c: Cpu, q: Reg, link: bv32, r: Reg)
    ensures forall v: bv32 :: Shadow(Next(Set(Set(c, q, link), r, v)), Next(Set(c, r, v)), q, link)
  {
    hide Shadow, Set;
    forall v: bv32 ensures Shadow(Next(Set(Set(c, q, link), r, v)), Next(Set(c, r, v)), q, link) {
      WriteShadow(c, q, link, r, v);
    }
  }

  /** The machine state apart from the general registers is not touched by a register write. */
  lemma SetKeeps(c: Cpu, q: Reg, link: bv32)
    ensures Set(c, q, link) == c.(gpr := Set(c, q, link).gpr)
  {
  }

  lemma DivideShadow(c: Cpu, q: Reg, link: bv32, a: bv32, b: bv32)
    ensures Shadow(Next(Divide(Set(c, q, link), a, b)), Next(Divide(c, a, b)), q, link)
    ensures Shadow(Next(DivideUnsigned(Set(c, q, link), a, b)), Next(DivideUnsigned(c, a, b)), q, link)
  {
    hide Shadow, Set, Negative, ToBv, SInt, Quotient, Remainder, Ratio, Rest;
    SetKeeps(c, q, link);
    StateShadow(c, q, link, Divide(c, a, b), Divide(Set(c, q, link), a, b));
    StateShadow(c, q, link, DivideUnsigned(c, a, b), DivideUnsigned(Set(c, q, link), a, b));
  }

  lemma MultiplyShadow(c: Cpu, q: Reg, link: bv32, a: bv32, b: bv32)
    ensures Shadow(Next(Multiply(Set(c, q, link), a, b)), Next(Multiply(c, a, b)), q, link)
    ensures Shadow(Next(MultiplyUnsigned(Set(c, q, link), a, b)), Next(MultiplyUnsigned(c, a, b)), q, link)
  {
    hide Shadow, Set, ToBv, SInt;
    SetKeeps(c, q, link);
    StateShadow(c, q, link, Multiply(c, a, b), Multiply(Set(c, q, link), a, b));
    StateShadow(c, q, link, MultiplyUnsigned(c, a, b), MultiplyUnsigned(Set(c, q, link), a, b));
  }

  lemma HiLoShadow(c: Cpu, q: Reg, link: bv32, x: bv32)
    ensures Shadow(Next(Set(c, q, link).(hi := x)), Next(c.(hi := x)), q, link)
    ensures Shadow(Next(Set(c, q, link).(lo := x)), Next(c.(lo := x)), q, link)
  {
    SetKeeps(c, q, link);
    StateShadow(c, q, link, c.(hi := x), Set(c, q, link).(hi := x));
    StateShadow(c, q, link, c.(lo := x), Set(c, q, link).(lo := x));
    hide Shadow, Set;
  }

  lemma ShiftShadow(env: Env, c: Cpu, d: Word, pc: int, q: Reg, link: bv32)
    requires Opcode(d) == 0x00 && Funct(d) < 0x08 && q !in Reads(d)
    ensures Shadow(ExecSpecial(env, Set(c, q, link), d, pc), ExecSpecial(env, c, d, pc), q, link)
  {
    hide Opcode, Rs, Rt, Rd, Funct, Imm, SImm, ToBv, ToAddr, Shamt, AddOverflows, SubOverflows, Divide,
         DivideUnsigned, Multiply, MultiplyUnsigned, AddW, SubW, AndW, OrW, XorW, NotW, LessW, Shl, Shr, Sra,
         SignedLess, Flag, Set, R, Shadow;
    var f := Decode(d);
    OtherReads(c, q, link, f.rs);
    OtherReads(c, q, link, f.rt);
    AnyWriteShadow(c, q, link, f.rd);
    TrapShadow(c, q, link);
  }

  lemma MoveShadow(env: Env, c: Cpu, d: Word, pc: int, q: Reg, link: bv32)
    requires Opcode(d) == 0x00 && 0x0A <= Funct(d) < 0x20 && Funct(d) != 0x0C && q !in Reads(d)
    ensures Shadow(ExecSpecial(env, Set(c, q, link), d, pc), ExecSpecial(env, c, d, pc), q, link)
  {
    SetKeeps(c, q, link);
    hide Opcode, Rs, Rt, Rd, Funct, Imm, SImm, ToBv, ToAddr, Shamt, AddOverflows, SubOverflows, Divide,
         DivideUnsigned, Multiply, MultiplyUnsigned, AddW, SubW, AndW, OrW, XorW, NotW, LessW, Shl, Shr, Sra,
         SignedLess, Flag, Set, R, Shadow;
    var f := Decode(d);
    OtherReads(c, q, link, f.rs);
    OtherReads(c, q, link, f.rt);
    AnyWriteShadow(c, q, link, f.rd);
    HiLoShadow(c, q, link, R(c, f.rs));
    DivideShadow(c, q, link, R(c, f.rs), R(c, f.rt));
    MultiplyShadow(c, q, link, R(c, f.rs), R(c, f.rt));
    TrapShadow(c, q, link);
  }

  lemma AluShadow(env: Env, c: Cpu, d: Word, pc: int, q: Reg, link: bv32)
    requires Opcode(d) == 0x00 && 0x20 <= Funct(d) && q !in Reads(d)
    ensures Shadow(ExecSpecial(env, Set(c, q, link), d, pc), ExecSpecial(env, c, d, pc), q, link)
  {
    hide Opcode, Rs, Rt, Rd, Funct, Imm, SImm, ToBv, ToAddr, Shamt, AddOverflows, SubOverflows, Divide,
         DivideUnsigned, Multiply, MultiplyUnsigned, AddW, SubW, AndW, OrW, XorW, NotW, LessW, Shl, Shr, Sra,
         SignedLess, Flag, Set, R, Shadow;
    var f := Decode(d);
    OtherReads(c, q, link, f.rs);
    OtherReads(c, q, link, f.rt);
    AnyWriteShadow(c, q, link, f.rd);
    TrapShadow(c, q, link);
  }

  lemma ImmediateShadow(c: Cpu, d: Word, q: Reg, link: bv32)
    requires 0x08 <= Opcode(d) <= 0x0F && q !in Reads(d)
    ensures Shadow(ExecImmediate(Set(c, q, link), d), ExecImmediate(c, d), q, link)
  {
    hide Opcode, Rs, Rt, Rd, Funct, Imm, SImm, ToBv, AddOverflows, AddW, SubW, AndW, OrW, XorW, NotW, LessW, Shl, Shr,
         Sra, SignedLess, Flag, Set, R, Shadow;
    var f := Decode(d);
    OtherReads(c, q, link, f.rs);
    AnyWriteShadow(c, q, link, f.rt);
    TrapShadow(c, q, link);
  }

  lemma LogSet(c: Cpu, q: Reg, link: bv32, a: bv32, width: int)
    ensures Logged(Set(c, q, link), a, width) == Set(Logged(c, a, width), q, link)
  {
  }

  lemma LoadShadow(c: Cpu, d: Word, pc: int, q: Reg, link: bv32)
    requires 0x20 <= Opcode(d) <= 0x26 && q !in Reads(d)
    ensures Shadow(ExecLoad(Set(c, q, link), d, pc), ExecLoad(c, d, pc), q, link)
  {
    SetKeeps(c, q, link);
    hide Opcode, Rs, Rt, Rd, Funct, Imm, SImm, ToBv, AddW, Set, R, Logged, Misaligned, Aligned, Lane, Shadow,
         LoadByte, LoadHalf, ReadWord, SignExtend8, SignExtend16, MergeLeft, MergeRight;
    var f := Decode(d);
    OtherReads(c, q, link, f.rs);
    OtherReads(c, q, link, f.rt);
    var a := Address(c, f);
    LogSet(c, q, link, a, 1);
    LogSet(c, q, link, a, 2);
    LogSet(c, q, link, a, 4);
    LogSet(c, q, link, Aligned(a), 4);
    AnyWriteShadow(Logged(c, a, 1), q, link, f.rt);
    AnyWriteShadow(Logged(c, a, 2), q, link, f.rt);
    AnyWriteShadow(Logged(c, a, 4), q, link, f.rt);
    AnyWriteShadow(Logged(c, Aligned(a), 4), q, link, f.rt);
    TrapShadow(c, q, link);
  }

  lemma MemShadow(c: Cpu, q: Reg, link: bv32)
    ensures forall m: map<bv32, bv32> :: Shadow(Next(Set(c, q, link).(mem := m)), Next(c.(mem := m)), q, link)
  {
    SetKeeps(c, q, link);
    hide Shadow, Set;
    forall m: map<bv32, bv32> ensures Shadow(Next(Set(c, q, link).(mem := m)), Next(c.(mem := m)), q, link) {
      StateShadow(c, q, link, c.(mem := m), Set(c, q, link).(mem := m));
    }
  }

  lemma StoreShadow(c: Cpu, d: Word, pc: int, q: Reg, link: bv32)
    requires 0x28 <= Opcode(d) <= 0x2E && q !in Reads(d)
    ensures Shadow(ExecStore(Set(c, q, link), d, pc), ExecStore(c, d, pc), q, link)
  {
    SetKeeps(c, q, link);
    hide Opcode, Rs, Rt, Rd, Funct, Imm, SImm, ToBv, AddW, Set, R, Misaligned, Lane, Shadow, StoreByte, StoreHalf,
         WriteWord, ReadWord, SpillLeft, SpillRight;
    var f := Decode(d);
    OtherReads(c, q, link, f.rs);
    OtherReads(c, q, link, f.rt);
    MemShadow(c, q, link);
    TrapShadow(c, q, link);
  }

  lemma Cop0Shadow(c: Cpu, d: Word, q: Reg, link: bv32)
    requires Opcode(d) == 0x10 && q !in Reads(d)
    ensures Shadow(ExecCop0(Set(c, q, link), d), ExecCop0(c, d), q, link)
  {
    SetKeeps(c, q, link);
    hide Opcode, Rs, Rt, Rd, Funct, Imm, SImm, Set, R, PopStatus, Shadow;
    var f := Decode(d);
    OtherReads(c, q, link, f.rt);
    AnyWriteShadow(c, q, link, f.rt);
    TrapShadow(c, q, link);
    var r, e := c.cop0[12 := PopStatus(c.cop0[12])], c.cop0[f.rd := R(c, f.rt)];
    StateShadow(c, q, link, c.(cop0 := r), Set(c, q, link).(cop0 := r));
    StateShadow(c, q, link, c.(cop0 := e), Set(c, q, link).(cop0 := e));
  }

  lemma Cop2Shadow(env: Env, c: Cpu, d: Word, q: Reg, link: bv32)
    requires Opcode(d) == 0x12 && q !in Reads(d)
    ensures Shadow(ExecCop2(env, Set(c, q, link), d), ExecCop2(env, c, d), q, link)
  {
    SetKeeps(c, q, link);
    hide Opcode, Rs, Rt, Rd, Funct, Imm, SImm, Set, R, Shadow, ReadData, ReadCtrl, Settle, SettleCtrl, Put, PutCtrl;
    var f := Decode(d);
    OtherReads(c, q, link, f.rt);
    AnyWriteShadow(c, q, link, f.rt);
    TrapShadow(c, q, link);
    var l, v := Set(c, q, link), R(c, f.rt);
    StateShadow(c, q, link, WriteData(c, f.rd, v), WriteData(l, f.rd, v));
    StateShadow(c, q, link, WriteCtrl(c, f.rd, v), WriteCtrl(l, f.rd, v));
    StateShadow(c, q, link, Commanded(env, c, d % 0x200_0000), Commanded(env, l, d % 0x200_0000));
  }

  lemma Cop2MemoryShadow(c: Cpu, d: Word, pc: int, q: Reg, link: bv32)
    requires Opcode(d) in {0x32, 0x3A} && q !in Reads(d)
    ensures Shadow(ExecCop2Memory(Set(c, q, link), d, pc), ExecCop2Memory(c, d, pc), q, link)
  {
    SetKeeps(c, q, link);
    hide Opcode, Rs, Rt, Rd, Funct, Imm, SImm, ToBv, AddW, Set, R, Misaligned, Shadow, ReadData, Settle, SettleCtrl,
         Put, ReadWord, WriteWord;
    var f := Decode(d);
    OtherReads(c, q, link, f.rs);
    var a := Address(c, f);
    var l, x := Set(c, q, link), ReadWord(c.mem, a);
    StateShadow(c, q, link, WriteData(Logged(c, a, 4), f.rt, x), WriteData(Logged(l, a, 4), f.rt, x));
    MemShadow(c, q, link);
    TrapShadow(c, q, link);
  }

  /** A plain word that does not use the link register does the same whether or not it was written. */
  lemma UnreadShadow(env: Env, c: Cpu, d: Word, pc: int, q: Reg, link: bv32)
    requires Translate(d, pc).Plain? && q !in Reads(d) && !HazardScan.Foreign(d)
    ensures Shadow(Exec(env, Set(c, q, link), d, pc), Exec(env, c, d, pc), q, link)
  {
    PlainOpcode(d, pc);
    hide ExecSpecial, ExecImmediate, ExecLoad, ExecStore, ExecCop0, ExecCop2, ExecCop2Memory, Shadow, Reads, Rs, Rt,
         Rd, Funct, ToBv, Wrap, BranchTarget, JumpTarget, Set, R, Translate, Taken, HazardScan.Foreign;
    var op := Opcode(d);
    if op == 0x00 {
      PlainSpecial(d, pc);
      if Funct(d) < 0x08 {
        ShiftShadow(env, c, d, pc, q, link);
      } else if Funct(d) < 0x20 {
        MoveShadow(env, c, d, pc, q, link);
      } else {
        AluShadow(env, c, d, pc, q, link);
      }
    } else {
      HazardScan.NotTaken(c, d);
      HazardScan.NotTaken(Set(c, q, link), d);
      OtherShadow(env, c, d, pc, q, link);
    }
  }

  lemma OtherShadow(env: Env, c: Cpu, d: Word, pc: int, q: Reg, link: bv32)
    requires Opcode(d) in {0x08, 0x09, 0x0A, 0x0B, 0x0C, 0x0D, 0x0E, 0x0F, 0x10, 0x12, 0x20, 0x21, 0x22, 0x23, 0x24,
                           0x25, 0x26, 0x28, 0x29, 0x2A, 0x2B, 0x2E, 0x32, 0x3A}
    requires Taken(c, d).None? && Taken(Set(c, q, link), d).None? && q !in Reads(d)
    ensures Shadow(Exec(env, Set(c, q, link), d, pc), Exec(env, c, d, pc), q, link)
  {
    hide ExecSpecial, ExecImmediate, ExecLoad, ExecStore, ExecCop0, ExecCop2, ExecCop2Memory, Shadow, Reads, Rs, Rt,
         Rd, Funct, ToBv, Wrap, BranchTarget, JumpTarget, Set, R, Taken;
    var op := Opcode(d);
    if op <= 0x0F {
      ImmediateShadow(c, d, q, link);
    } else if op == 0x10 {
      Cop0Shadow(c, d, q, link);
    } else if op == 0x12 {
      Cop2Shadow(env, c, d, q, link);
    } else if op <= 0x26 {
      LoadShadow(c, d, pc, q, link);
    } else if op <= 0x2E {
      StoreShadow(c, d, pc, q, link);
    } else {
      Cop2MemoryShadow(c, d, pc, q, link);
    }
  }

  lemma PlainOpcode(d: Word, pc: int)
    requires Translate(d, pc).Plain?
    ensures Opcode(d) in {0x00, 0x08, 0x09, 0x0A, 0x0B, 0x0C, 0x0D, 0x0E, 0x0F, 0x10, 0x12, 0x20, 0x21, 0x22, 0x23,
                          0x24, 0x25, 0x26, 0x28, 0x29, 0x2A, 0x2B, 0x2E, 0x32, 0x3A}
  {
    hide Rs, Rt, Rd, Funct, ToBv, Shamt, Wrap, BranchTarget, JumpTarget, BranchSnapshot;
  }

  lemma PlainSpecial(d: Word, pc: int)
    requires Translate(d, pc).Plain? && Opcode(d) == 0x00 && !HazardScan.Foreign(d)
    ensures Funct(d) !in {0x08, 0x09, 0x0C}
  {
    hide Rs, Rt, Rd, ToBv, Shamt;
  }

  lemma SpecialTrapKeeps(env: Env, c: Cpu, d: Word, pc: int)
    requires Opcode(d) == 0x00 && !HazardScan.Foreign(d) && ExecSpecial(env, c, d, pc).Trap?
    ensures ExecSpecial(env, c, d, pc).cpu == c
  {
    hide Rs, Rt, Rd, Imm, SImm, ToBv, ToAddr, Shamt, Set, R, AddOverflows, SubOverflows, Divide, DivideUnsigned,
         Multiply, MultiplyUnsigned, AddW, SubW, AndW, OrW, XorW, NotW, LessW, Shl, Shr, Sra, SignedLess, Flag;
  }

  lemma OtherTrapKeeps(env: Env, c: Cpu, d: Word, pc: int)
    ensures ExecImmediate(c, d).Trap? ==> ExecImmediate(c, d).cpu == c
    ensures ExecLoad(c, d, pc).Trap? ==> ExecLoad(c, d, pc).cpu == c
    ensures ExecStore(c, d, pc).Trap? ==> ExecStore(c, d, pc).cpu == c
    ensures ExecCop0(c, d).Trap? ==> ExecCop0(c, d).cpu == c
    ensures ExecCop2(env, c, d).Trap? ==> ExecCop2(env, c, d).cpu == c
    ensures ExecCop2Memory(c, d, pc).Trap? ==> ExecCop2Memory(c, d, pc).cpu == c
  {
    hide Decode, Set, R, AddOverflows, Address, Misaligned, Logged, Lane, MergeLeft, MergeRight, SpillLeft,
         SpillRight, PopStatus, ReadData, ReadCtrl, WriteData, WriteCtrl, Commanded, ToBv, StoreByte, StoreHalf,
         WriteWord, ReadWord, LoadByte, LoadHalf;
  }

  lemma TrapKeeps(env: Env, c: Cpu, d: Word, pc: int)
    requires Translate(d, pc).Plain? && !HazardScan.Foreign(d) && Exec(env, c, d, pc).Trap?
    ensures Exec(env, c, d, pc).cpu == c
  {
    hide Translate, Opcode, ExecSpecial, ExecImmediate, ExecLoad, ExecStore, ExecCop0, ExecCop2, ExecCop2Memory,
         HazardScan.Foreign, Taken, Wrap, BranchTarget, JumpTarget, Set, ToBv;
    OtherTrapKeeps(env, c, d, pc);
    if Opcode(d) == 0x00 { SpecialTrapKeeps(env, c, d, pc); }
  }

  /** What the machine leaves when the link register is written before the delay slot. */
  ghost predicate LinkCommutes(env: Env, c: Cpu, d: Word, pc: int, q: Reg, link: bv32) {
    var before, after := Exec(env, Set(c, q, link), d, pc), Exec(env, c, d, pc);
    if after.Next? then before == Next(Set(after.cpu, q, link)) else before == after
  }

  /** Words that do not end a slice never transfer control. */
  lemma PlainStays(env: Env, c: Cpu, d: Word, pc: int)
    requires Translate(d, pc).Plain?
    ensures !Exec(env, c, d, pc).Go?
  {
    hide Rs, Rt, Rd, Imm, SImm, ToBv, ToAddr, Shamt, Wrap, BranchTarget, JumpTarget, BranchSnapshot, Set, R,
         Misaligned, Address, AddOverflows, SubOverflows, Divide, DivideUnsigned, Multiply, MultiplyUnsigned,
         ReadData, ReadCtrl, WriteData, WriteCtrl, Lane, MergeLeft, MergeRight, SpillLeft, SpillRight, PopStatus,
         Negative, BranchLinked;
  }

  // ---- When the order does not matter ----

  /** Everything but the general registers is the same. */
  predicate SameAside(a: Cpu, b: Cpu) { a.(gpr := b.gpr) == b }

  /** The register a word writes holds the same in both orders, and the link register what it was given. */
  predicate SameTargets(d: Word, before: Cpu, after: Cpu, q: Reg, link: bv32)
    requires Hazards.Writes(d).Some?
  {
    forall r :: r in HazardScan.Changed(d) && r != 0 ==> before.gpr[r] == if r == q then link else after.gpr[r]
  }

  lemma PlainWrites(d: Word, pc: int)
    requires Translate(d, pc).Plain?
    ensures Hazards.Writes(d).Some?
  {
    PlainOpcode(d, pc);
    hide Opcode, Rs, Rt, Rd, Funct, Translate;
  }

  lemma SetIff(c: Cpu, q: Reg, v: bv32)
    ensures Set(c, q, v) == c <==> q == 0 || c.gpr[q] == v
  {
    if c.gpr[q] == v { assert c.gpr[q := v] == c.gpr; }
  }

  lemma SetReads(c: Cpu, q: Reg, v: bv32, r: Reg)
    ensures Set(c, q, v).gpr[r] == if r == q && q != 0 then v else c.gpr[r]
    ensures SameAside(Set(c, q, v), c)
  {
  }

  /** A link register that is written first is still there after a completed word, and the other registers agree,
      exactly if the one register the word writes does. */
  lemma RegistersIff(c: Cpu, d: Word, before: Cpu, after: Cpu, q: Reg, link: bv32)
    requires Hazards.Writes(d).Some? && Zeroed(before) && Zeroed(after) && Zeroed(c)
    requires HazardScan.KeepsOthers(Set(c, q, link), before, HazardScan.Changed(d))
    requires HazardScan.KeepsOthers(c, after, HazardScan.Changed(d))
    ensures before == Set(after, q, link) <==> SameAside(before, after) && SameTargets(d, before, after, q, link)
  {
    hide Set, Hazards.Writes, HazardScan.Changed;
    var linked := Set(after, q, link);
    forall r: Reg ensures linked.gpr[r] == (if r == q && q != 0 then link else after.gpr[r])
                          && Set(c, q, link).gpr[r] == (if r == q && q != 0 then link else c.gpr[r]) {
      SetReads(after, q, link, r);
      SetReads(c, q, link, r);
    }
    SetReads(after, q, link, 0);
    if SameAside(before, after) && SameTargets(d, before, after, q, link) {
      assert before.gpr == linked.gpr;
    }
  }

  /** For every plain word but SYSCALL: writing the register first comes to the same as writing it afterwards
      exactly if the word traps and the register held the value already, or it completes in both orders, leaves
      HI, LO, memory, read history and coprocessors the same, and puts the same in the register it writes, which
      for the link register itself is the value written. */
  lemma OrderIff(env: Env, c: Cpu, d: Word, pc: int, q: Reg, link: bv32)
    requires env.Valid() && Zeroed(c) && Translate(d, pc).Plain? && !HazardScan.Foreign(d)
    ensures Hazards.Writes(d).Some?
    ensures var before, after := Exec(env, Set(c, q, link), d, pc), Exec(env, c, d, pc);
            LinkCommutes(env, c, d, pc, q, link) <==>
            if after.Next?
            then before.Next? && SameAside(before.cpu, after.cpu) && SameTargets(d, before.cpu, after.cpu, q, link)
            else q == 0 || c.gpr[q] == link
  {
    hide Env.Valid, Translate, Exec, HazardScan.Foreign, Hazards.Writes, Set, SameAside, SameTargets,
         HazardScan.KeepsOthers;
    var l := Set(c, q, link);
    PlainWrites(d, pc);
    PlainStays(env, c, d, pc);
    PlainStays(env, l, d, pc);
    SetIff(c, q, link);
    if Exec(env, c, d, pc).Trap? {
      TrapKeeps(env, c, d, pc);
      if Exec(env, l, d, pc).Trap? { TrapKeeps(env, l, d, pc); }
    } else {
      SetKeepsZero(c);
      ExecKeepsZero(env, c, d, pc);
      ExecKeepsZero(env, l, d, pc);
      HazardScan.WriteSetSound(env, c, d, pc);
      HazardScan.WriteSetSound(env, l, d, pc);
      RegistersIff(c, d, Exec(env, l, d, pc).cpu, Exec(env, c, d, pc).cpu, q, link);
    }
  }

  /** A word that does not use the register: the order does not matter exactly if it completes and the register
      still holds the value when it was written first, or traps and the register held it already. */
  lemma UnreadIff(env: Env, c: Cpu, d: Word, pc: int, q: Reg, link: bv32)
    requires Translate(d, pc).Plain? && q !in Reads(d) && !HazardScan.Foreign(d)
    ensures LinkCommutes(env, c, d, pc, q, link) <==>
            q == 0 ||
            (if Exec(env, c, d, pc).Next? then Exec(env, Set(c, q, link), d, pc).cpu.gpr[q] else c.gpr[q]) == link
  {
    hide Translate, Exec, Reads, HazardScan.Foreign, Set;
    UnreadShadow(env, c, d, pc, q, link);
    PlainStays(env, c, d, pc);
    var o := Exec(env, c, d, pc);
    if o.Trap? { TrapKeeps(env, c, d, pc); }
    SetIff(c, q, link);
    LinkedIff(o.cpu, q, Exec(env, Set(c, q, link), d, pc).cpu.gpr[q], link);
  }

  lemma LinkedIff(c: Cpu, q: Reg, x: bv32, y: bv32)
    ensures Set(c, q, x) == Set(c, q, y) <==> q == 0 || x == y
  {
    SetTwice(c, q, x, y);
    SetTwice(c, q, y, x);
  }

  // ---- Arithmetic ----

  /** Words that compute a value for one register and change nothing else. */
  predicate Arithmetic(d: Word) {
    || 0x08 <= Opcode(d) <= 0x0F
    || (Opcode(d) == 0x00 && Funct(d) in {0x00, 0x02, 0x03, 0x04, 0x06, 0x07, 0x10, 0x12, 0x20, 0x21, 0x22, 0x23, 0x24,
                                          0x25, 0x26, 0x27, 0x2A, 0x2B})
  }

  function Target(d: Word): Reg { if Opcode(d) == 0x00 then Rd(d) else Rt(d) }

  lemma SetAside(c: Cpu, r: Reg)
    ensures forall v: bv32 :: SameAside(Set(c, r, v), c)
  {
  }

  lemma SpecialAside(env: Env, c: Cpu, d: Word, pc: int)
    requires Opcode(d) == 0x00 && Arithmetic(d) && ExecSpecial(env, c, d, pc).Next?
    ensures SameAside(ExecSpecial(env, c, d, pc).cpu, c)
  {
    hide Rs, Rt, Rd, ToBv, ToAddr, Shamt, Set, R, AddOverflows, SubOverflows, AddW, SubW, AndW, OrW, XorW, NotW,
         LessW, Shl, Shr, Sra, SignedLess, Flag, SameAside;
    SetAside(c, Decode(d).rd);
  }

  lemma ImmediateAside(c: Cpu, d: Word)
    requires 0x08 <= Opcode(d) <= 0x0F && ExecImmediate(c, d).Next?
    ensures SameAside(ExecImmediate(c, d).cpu, c)
  {
    hide Rs, Rt, Imm, SImm, ToBv, Set, R, AddOverflows, AddW, AndW, OrW, XorW, LessW, Shl, SignedLess, Flag, SameAside;
    SetAside(c, Decode(d).rt);
  }

  lemma ArithmeticAside(env: Env, c: Cpu, d: Word, pc: int)
    requires Arithmetic(d) && Exec(env, c, d, pc).Next?
    ensures SameAside(Exec(env, c, d, pc).cpu, c)
  {
    hide ExecSpecial, ExecImmediate, ExecLoad, ExecStore, ExecCop0, ExecCop2, ExecCop2Memory, Rs, Rt, Rd, Funct, Wrap,
         BranchTarget, JumpTarget, ToBv, R, Set, Opcode, Taken, SameAside, BranchLinked;
    if Opcode(d) == 0x00 {
      SpecialAside(env, c, d, pc);
    } else {
      HazardScan.NotTaken(c, d);
      ImmediateAside(c, d);
    }
  }

  lemma ArithmeticChanged(d: Word)
    requires Arithmetic(d)
    ensures Hazards.Writes(d).Some?
    ensures forall r :: r in HazardScan.Changed(d) && r != 0 <==> r == Target(d) && r != 0
  {
    assert Rd(0) == 0 && Opcode(0) == 0;
    hide Opcode, Rs, Rt, Rd, Funct;
  }

  lemma AsideChain(a: Cpu, b: Cpu, c: Cpu, d: Cpu)
    requires SameAside(a, b) && SameAside(b, c) && SameAside(d, c)
    ensures SameAside(a, d)
  {
  }

  /** Arithmetic: the order does not matter exactly if the word completes in both orders and its target gets the
      same value, or keeps the value written if it is the register itself, or if the word traps and the register
      held the value already. */
  lemma ArithmeticIff(env: Env, c: Cpu, d: Word, pc: int, q: Reg, link: bv32)
    requires env.Valid() && Zeroed(c) && Translate(d, pc).Plain? && Arithmetic(d)
    ensures var before, after := Exec(env, Set(c, q, link), d, pc), Exec(env, c, d, pc);
            var r := Target(d);
            LinkCommutes(env, c, d, pc, q, link) <==>
            if after.Next? then
              before.Next? && (r == 0 || before.cpu.gpr[r] == if r == q then link else after.cpu.gpr[r])
            else q == 0 || c.gpr[q] == link
  {
    hide Env.Valid, Translate, Exec, Hazards.Writes, HazardScan.Changed, Set, SameAside, Opcode, Rd, Rt, Funct;
    OrderIff(env, c, d, pc, q, link);
    ArithmeticChanged(d);
    SetReads(c, q, link, 0);
    var before, after := Exec(env, Set(c, q, link), d, pc), Exec(env, c, d, pc);
    if before.Next? && after.Next? {
      ArithmeticAside(env, c, d, pc);
      ArithmeticAside(env, Set(c, q, link), d, pc);
      AsideChain(before.cpu, Set(c, q, link), c, after.cpu);
    }
  }

  // ---- Copies ----

  /** Words that put the register, or its sum with a constant, in another register. */
  predicate Copies(d: Word, q: Reg) {
    || (Opcode(d) == 0x09 && Rs(d) == q && Rt(d) !in {0, q})
    || (Opcode(d) == 0x00 && Funct(d) in {0x21, 0x25} && Rd(d) !in {0, q}
        && ((Rs(d) == q && Rt(d) == 0) || (Rs(d) == 0 && Rt(d) == q)))
  }

  /** The value a copy gives its target. */
  function Copy(c: Cpu, d: Word, q: Reg): bv32 { if Opcode(d) == 0x09 then AddW(R(c, q), ToBv(SImm(d))) else R(c, q) }

  lemma WithZero(x: bv32)
    ensures AddW(x, 0) == AddW(0, x) == OrW(x, 0) == OrW(0, x) == x
  {
  }

  predicate IsSum(p: bv32, x: bv32, k: bv32) { p - k == x }

  lemma PlusIsSum(x: bv32, k: bv32)
    ensures IsSum(x + k, x, k)
  {
  }

  lemma SumIsSum(x: bv32, k: bv32)
    ensures IsSum(AddW(x, k), x, k)
  {
    hide IsSum;
    PlusIsSum(x, k);
  }

  lemma SummandUnique(p: bv32, x: bv32, y: bv32, k: bv32)
    requires IsSum(p, x, k) && IsSum(p, y, k)
    ensures x == y
  {
  }

  lemma SumIff(x: bv32, y: bv32, k: bv32)
    ensures AddW(x, k) == AddW(y, k) <==> x == y
  {
    hide AddW, IsSum;
    SumIsSum(x, k);
    SumIsSum(y, k);
    if AddW(x, k) == AddW(y, k) { SummandUnique(AddW(x, k), x, y, k); }
  }

  lemma CopyExec(env: Env, c: Cpu, d: Word, pc: int, q: Reg)
    requires Copies(d, q)
    ensures Exec(env, c, d, pc) == Next(Set(c, Target(d), Copy(c, d, q)))
  {
    hide Opcode, Rs, Rt, Rd, Funct, SImm, ToBv, AddW, OrW, Set, ExecLoad, ExecStore, ExecCop0, ExecCop2,
         ExecCop2Memory, Wrap, BranchTarget, JumpTarget;
    WithZero(R(c, q));
  }

  lemma CopyIff(c: Cpu, d: Word, q: Reg, link: bv32)
    requires q != 0
    ensures Copy(Set(c, q, link), d, q) == Copy(c, d, q) <==> c.gpr[q] == link
  {
    hide AddW, ToBv, Opcode, SImm, Set;
    SetReads(c, q, link, q);
    SumIff(link, c.gpr[q], ToBv(SImm(d)));
  }

  /** A copy: the order does not matter exactly if the register held the value already. */
  lemma CopiedIff(env: Env, c: Cpu, d: Word, pc: int, q: Reg, link: bv32)
    requires env.Valid() && Zeroed(c) && Translate(d, pc).Plain? && Copies(d, q) && q != 0
    ensures LinkCommutes(env, c, d, pc, q, link) <==> c.gpr[q] == link
  {
    hide Env.Valid, Translate, Exec, Set, Copy, Arithmetic, Copies, LinkCommutes, Target;
    var l := Set(c, q, link);
    CopyIsArithmetic(d, q);
    ArithmeticIff(env, c, d, pc, q, link);
    CopyExec(env, c, d, pc, q);
    CopyExec(env, l, d, pc, q);
    SetReads(c, Target(d), Copy(c, d, q), Target(d));
    SetReads(l, Target(d), Copy(l, d, q), Target(d));
    CopyIff(c, d, q, link);
  }

  lemma CopyIsArithmetic(d: Word, q: Reg)
    requires Copies(d, q)
    ensures Arithmetic(d) && Target(d) !in {0, q}
  {
    hide Opcode, Rs, Rt, Rd, Funct;
  }

  // ---- Moves to special registers ----

  /** MTHI, MTLO and MTC0 of the register. */
  predicate HandsOver(d: Word, q: Reg) {
    || (Opcode(d) == 0x00 && Funct(d) in {0x11, 0x13} && Rs(d) == q)
    || (Opcode(d) == 0x10 && d != 0x4200_0010 && Rs(d) == 0x04 && Rt(d) == q)
  }

  lemma HandExec(env: Env, c: Cpu, d: Word, pc: int, q: Reg)
    requires HandsOver(d, q)
    ensures Exec(env, c, d, pc) ==
            Next(if Opcode(d) == 0x10 then c.(cop0 := c.cop0[Rd(d) := R(c, q)])
                 else if Funct(d) == 0x11 then c.(hi := R(c, q)) else c.(lo := R(c, q)))
  {
    hide Opcode, Rs, Rt, Rd, Funct, ToBv, R, Set, ExecLoad, ExecStore, ExecImmediate, ExecCop2, ExecCop2Memory, Wrap,
         BranchTarget, JumpTarget, BranchLinked, PopStatus;
  }

  lemma PutIff(xs: Regs, r: Reg, v: bv32, w: bv32)
    ensures xs[r := v] == xs[r := w] <==> v == w
  {
    assert xs[r := v][r] == v && xs[r := w][r] == w;
  }

  /** A move of the register to HI, LO or the system coprocessor: the order does not matter exactly if the
      register held the value already. */
  lemma HandedIff(env: Env, c: Cpu, d: Word, pc: int, q: Reg, link: bv32)
    requires Translate(d, pc).Plain? && HandsOver(d, q) && q != 0
    ensures LinkCommutes(env, c, d, pc, q, link) <==> c.gpr[q] == link
  {
    hide Translate, Exec, Set, Opcode, Rs, Rt, Rd, Funct, HandsOver;
    var l := Set(c, q, link);
    HandExec(env, c, d, pc, q);
    HandExec(env, l, d, pc, q);
    SetReads(c, q, link, q);
    SetKeeps(c, q, link);
    PutIff(c.cop0, Rd(d), link, c.gpr[q]);
    HeldIff(env, c, d, pc, q);
    SetKeeps(Exec(env, c, d, pc).cpu, q, link);
  }

  // ---- Loads ----

  /** LB, LBU, LH, LHU, LW and LWC2: loads that read at their very address. */
  predicate Loads(d: Word) { Opcode(d) in {0x20, 0x21, 0x23, 0x24, 0x25, 0x32} }

  function Width(d: Word): int {
    if Opcode(d) in {0x20, 0x24} then 1 else if Opcode(d) in {0x21, 0x25} then 2 else 4
  }

  lemma LogKept(c: Cpu, a: bv32, n: int)
    ensures forall r: Reg, v: bv32 :: Set(Logged(c, a, n), r, v).loads == c.loads + [Load(a, n)]
    ensures forall r: Reg, v: bv32 :: WriteData(Logged(c, a, n), r, v).loads == c.loads + [Load(a, n)]
  {
    hide Settle, SettleCtrl, Put;
  }

  lemma LoadExecLogs(c: Cpu, d: Word, pc: int)
    requires Loads(d) && Opcode(d) != 0x32 && ExecLoad(c, d, pc).Next?
    ensures ExecLoad(c, d, pc).cpu.loads == c.loads + [Load(Address(c, Decode(d)), Width(d))]
  {
    hide Rs, Rt, Rd, Funct, Imm, SImm, Address, Misaligned, Set, Logged, R, LoadByte, LoadHalf, ReadWord, SignExtend8,
         SignExtend16;
    LogKept(c, Address(c, Decode(d)), Width(d));
  }

  lemma Cop2LoadLogs(c: Cpu, d: Word, pc: int)
    requires Opcode(d) == 0x32 && ExecCop2Memory(c, d, pc).Next?
    ensures ExecCop2Memory(c, d, pc).cpu.loads == c.loads + [Load(Address(c, Decode(d)), 4)]
  {
    hide Rs, Rt, Rd, Funct, Imm, SImm, Address, Misaligned, Logged, WriteData, ReadWord;
    LogKept(c, Address(c, Decode(d)), 4);
  }

  lemma LoadLogs(env: Env, c: Cpu, d: Word, pc: int)
    requires Loads(d) && Exec(env, c, d, pc).Next?
    ensures Exec(env, c, d, pc).cpu.loads == c.loads + [Load(Address(c, Decode(d)), Width(d))]
  {
    hide ExecSpecial, ExecImmediate, ExecLoad, ExecStore, ExecCop0, ExecCop2, ExecCop2Memory, Rs, Rt, Rd, Funct, Wrap,
         BranchTarget, JumpTarget, ToBv, R, Set, Taken, BranchLinked, Address;
    HazardScan.NotTaken(c, d);
    if Opcode(d) == 0x32 { Cop2LoadLogs(c, d, pc); } else { LoadExecLogs(c, d, pc); }
  }

  lemma LastLoad(xs: seq<Load>, a: bv32, b: bv32, n: int)
    requires xs + [Load(a, n)] == xs + [Load(b, n)]
    ensures a == b
  {
    assert (xs + [Load(a, n)])[|xs|] == Load(a, n);
    assert (xs + [Load(b, n)])[|xs|] == Load(b, n);
  }

  /** Where the register already holds the value, the order does not matter exactly if the word traps or leaves
      it there. */
  lemma HeldIff(env: Env, c: Cpu, d: Word, pc: int, q: Reg)
    requires Translate(d, pc).Plain?
    ensures LinkCommutes(env, c, d, pc, q, c.gpr[q]) <==>
            q == 0 || Exec(env, c, d, pc).Trap? || Exec(env, c, d, pc).cpu.gpr[q] == c.gpr[q]
  {
    hide Translate, Exec, Set;
    PlainStays(env, c, d, pc);
    SetIff(c, q, c.gpr[q]);
    SetIff(Exec(env, c, d, pc).cpu, q, c.gpr[q]);
  }

  /** A load at the register: the order does not matter exactly if the register held the value already and the
      load traps or leaves it there. */
  lemma LoadIff(env: Env, c: Cpu, d: Word, pc: int, q: Reg, link: bv32)
    requires env.Valid() && Zeroed(c) && Translate(d, pc).Plain? && Loads(d) && Rs(d) == q && q != 0
    ensures var after := Exec(env, c, d, pc);
            LinkCommutes(env, c, d, pc, q, link) <==>
            c.gpr[q] == link && (after.Trap? || after.cpu.gpr[q] == link)
  {
    LoadNotForeign(d);
    hide Env.Valid, Translate, Exec, Set, Hazards.Writes, HazardScan.Foreign, SameTargets, Opcode, Rs, Loads, AddW,
         LinkCommutes, ToBv;
    var l := Set(c, q, link);
    if c.gpr[q] == link {
      HeldIff(env, c, d, pc, q);
    } else if LinkCommutes(env, c, d, pc, q, link) {
      OrderIff(env, c, d, pc, q, link);
      LoadLogs(env, c, d, pc);
      LoadLogs(env, l, d, pc);
      SetReads(c, q, link, q);
      SetKeeps(c, q, link);
      LastLoad(c.loads, Address(c, Decode(d)), Address(l, Decode(d)), Width(d));
      SumIff(link, c.gpr[q], ToBv(Decode(d).simm));
    }
  }

  lemma LoadNotForeign(d: Word)
    ensures Opcode(d) != 0x00 ==> !HazardScan.Foreign(d)
    ensures Loads(d) ==> Opcode(d) != 0x00
  {
  }

  /** LWL and LWR, which read the word around their address and never trap. */
  predicate Merges(d: Word) { Opcode(d) in {0x22, 0x26} }

  lemma MergeKeeps(env: Env, c: Cpu, d: Word, pc: int)
    requires Merges(d)
    ensures var o := Exec(env, c, d, pc);
            o.Next? && SameAside(o.cpu, Logged(c, Aligned(Address(c, Decode(d))), 4))
  {
    HazardScan.NotTaken(c, d);
    LaneBound(Address(c, Decode(d)));
    hide Rs, Rt, Rd, Funct, Imm, SImm, ToBv, Address, Aligned, Lane, R, Set, Logged, ReadWord, MergeLeft, MergeRight,
         Wrap, BranchTarget, JumpTarget, Taken, SameAside;
    SetAside(Logged(c, Aligned(Address(c, Decode(d))), 4), Decode(d).rt);
  }

  lemma MergeChanged(d: Word)
    requires Merges(d)
    ensures Hazards.Writes(d).Some? && HazardScan.Changed(d) == {Rt(d)} && !HazardScan.Foreign(d)
  {
    hide Rs, Rt, Rd, Funct;
  }

  lemma LogsIff(c: Cpu, l: Cpu, a: bv32, b: bv32, x: Cpu, y: Cpu)
    requires SameAside(l, c) && SameAside(x, Logged(l, a, 4)) && SameAside(y, Logged(c, b, 4))
    ensures SameAside(x, y) <==> a == b
  {
    if SameAside(x, y) { LastLoad(c.loads, a, b, 4); }
  }

  /** LWL and LWR, at the register or into it: the order does not matter exactly if they read the same word and
      their target gets the same value, or keeps the value written if it is the register itself. */
  lemma MergeIff(env: Env, c: Cpu, d: Word, pc: int, q: Reg, link: bv32)
    requires env.Valid() && Zeroed(c) && Translate(d, pc).Plain? && Merges(d)
    ensures var l, f := Set(c, q, link), Decode(d);
            var before, after := Exec(env, l, d, pc).cpu, Exec(env, c, d, pc).cpu;
            LinkCommutes(env, c, d, pc, q, link) <==>
            && Aligned(Address(l, f)) == Aligned(Address(c, f))
            && (f.rt == 0 || before.gpr[f.rt] == if f.rt == q then link else after.gpr[f.rt])
  {
    MergeChanged(d);
    hide Env.Valid, Translate, Exec, Set, Hazards.Writes, HazardScan.Foreign, HazardScan.Changed, SameAside, Merges,
         Rs, Rt, Opcode, LinkCommutes, Logged, Aligned, Address;
    var l, f := Set(c, q, link), Decode(d);
    OrderIff(env, c, d, pc, q, link);
    MergeKeeps(env, c, d, pc);
    MergeKeeps(env, l, d, pc);
    SetReads(c, q, link, 0);
    LogsIff(c, l, Aligned(Address(l, f)), Aligned(Address(c, f)), Exec(env, l, d, pc).cpu, Exec(env, c, d, pc).cpu);
  }

  // ---- Stores ----

  predicate Stores(d: Word) { Opcode(d) in {0x28, 0x29, 0x2A, 0x2B, 0x2E, 0x3A} }

  lemma StoreKeeps(env: Env, c: Cpu, d: Word, pc: int)
    requires Stores(d) && Exec(env, c, d, pc).Next?
    ensures Exec(env, c, d, pc).cpu == c.(mem := Exec(env, c, d, pc).cpu.mem)
  {
    HazardScan.NotTaken(c, d);
    hide Rs, Rt, Rd, Funct, Imm, SImm, ToBv, Address, Misaligned, Lane, R, StoreByte, StoreHalf, WriteWord, ReadWord,
         SpillLeft, SpillRight, ReadData, Wrap, BranchTarget, JumpTarget, Taken;
  }

  lemma StoreChanged(d: Word)
    requires Stores(d)
    ensures Hazards.Writes(d).Some? && HazardScan.Changed(d) == {} && !HazardScan.Foreign(d)
  {
    hide Rs, Rt, Rd, Funct;
  }

  lemma MemAside(c: Cpu, l: Cpu, m: map<bv32, bv32>, n: map<bv32, bv32>)
    requires SameAside(l, c)
    ensures SameAside(l.(mem := m), c.(mem := n)) <==> m == n
  {
  }

  /** A store, at the register or of it: the order does not matter exactly if it completes in both orders and
      leaves the same memory, or traps and the register held the value already. */
  lemma StoreIff(env: Env, c: Cpu, d: Word, pc: int, q: Reg, link: bv32)
    requires env.Valid() && Zeroed(c) && Translate(d, pc).Plain? && Stores(d)
    ensures var before, after := Exec(env, Set(c, q, link), d, pc), Exec(env, c, d, pc);
            LinkCommutes(env, c, d, pc, q, link) <==>
            if after.Next? then before.Next? && before.cpu.mem == after.cpu.mem else q == 0 || c.gpr[q] == link
  {
    StoreChanged(d);
    hide Env.Valid, Translate, Exec, Set, Hazards.Writes, HazardScan.Foreign, HazardScan.Changed, SameAside, Stores,
         LinkCommutes;
    var l := Set(c, q, link);
    OrderIff(env, c, d, pc, q, link);
    SetReads(c, q, link, 0);
    var before, after := Exec(env, l, d, pc), Exec(env, c, d, pc);
    if before.Next? && after.Next? {
      StoreKeeps(env, c, d, pc);
      StoreKeeps(env, l, d, pc);
      MemAside(c, l, before.cpu.mem, after.cpu.mem);
    }
  }

  predicate Maps<K, V(==)>(m: map<K, V>, k: K, v: V) { k in m && m[k] == v }

  /** The word at an address was stored and is v. */
  predicate HoldsWord(m: map<bv32, bv32>, a: bv32, v: bv32) { Maps(m, Aligned(a), v) }

  lemma PutsIff<K(!new), V(!new)>(m: map<K, V>, a: K, v: V, b: K, w: V)
    ensures m[a := v] == m[b := w] <==> if a == b then v == w else Maps(m, a, v) && Maps(m, b, w)
  {
    if m[a := v] == m[b := w] {
      assert m[a := v][b] == w && m[b := w][a] == v;
    }
    if a != b && Maps(m, a, v) && Maps(m, b, w) {
      assert m[a := v] == m == m[b := w];
    }
  }

  lemma WritesIff(m: map<bv32, bv32>, a: bv32, v: bv32, b: bv32, w: bv32)
    ensures WriteWord(m, b, w) == WriteWord(m, a, v) <==>
            if Aligned(a) == Aligned(b) then v == w else HoldsWord(m, a, v) && HoldsWord(m, b, w)
  {
    hide Aligned, Maps;
    PutsIff(m, Aligned(b), w, Aligned(a), v);
  }

  lemma SaveExec(env: Env, c: Cpu, d: Word, pc: int)
    requires Opcode(d) == 0x2B
    ensures var a := Address(c, Decode(d));
            Exec(env, c, d, pc) == if Misaligned(a, 4) then Trap(c, Unaligned(a, pc))
                                   else Next(c.(mem := WriteWord(c.mem, a, R(c, Rt(d)))))
  {
    hide Rs, Rt, ToBv, Address, Misaligned, WriteWord, R, Wrap, BranchTarget;
  }

  /** SW, at the register or of it: the order does not matter exactly if both addresses are multiples of 4 and
      either name one word and the same value is stored, or each word holds already what would be stored there;
      or the store traps and the register held the value already. */
  lemma StoreWordIff(env: Env, c: Cpu, d: Word, pc: int, q: Reg, link: bv32)
    requires env.Valid() && Zeroed(c) && Translate(d, pc).Plain? && Opcode(d) == 0x2B
    ensures var l, f := Set(c, q, link), Decode(d);
            var a, b, v, w := Address(c, f), Address(l, f), R(c, f.rt), R(l, f.rt);
            LinkCommutes(env, c, d, pc, q, link) <==>
            if Misaligned(a, 4) then q == 0 || c.gpr[q] == link
            else
              && !Misaligned(b, 4)
              && if Aligned(a) == Aligned(b) then v == w else HoldsWord(c.mem, a, v) && HoldsWord(c.mem, b, w)
  {
    hide Env.Valid, Translate, Exec, Set, Opcode, Rs, Rt, Misaligned, Aligned, R, AddW, LinkCommutes, ToBv;
    var l, f := Set(c, q, link), Decode(d);
    StoreIff(env, c, d, pc, q, link);
    SaveExec(env, c, d, pc);
    SaveExec(env, l, d, pc);
    SetKeeps(c, q, link);
    hide HoldsWord, WriteWord, Address;
    WritesIff(c.mem, Address(c, f), R(c, f.rt), Address(l, f), R(l, f.rt));
  }
}
