/** The instructions that move words between register files, link, or leave the program, on encoded words. */
module Moves {
  import opened Mips
  import opened Isa
  import opened Binary
  import opened Encoding
  import opened Meaning

  // ---- HI and LO ----

  lemma HiLoRuns(env: Env, c: Cpu, w: Word, pc: int)
    requires Opcode(w) == 0x00 && Funct(w) in {0x10, 0x11, 0x12, 0x13}
    ensures Exec(env, c, w, pc) ==
            Next(match Funct(w)
                 case 0x10 => Set(c, Rd(w), c.hi)
                 case 0x11 => c.(hi := R(c, Rs(w)))
                 case 0x12 => Set(c, Rd(w), c.lo)
                 case _ => c.(lo := R(c, Rs(w))))
  {
    hide Opcode, Rs, Rt, Rd, Funct, Imm, SImm, ToBv, ToAddr, Shamt, R, Set, Shl, Shr, Sra, AddOverflows, SubOverflows,
         AddW, SubW, AndW, OrW, XorW, NotW, LessW, SignedLess, Flag, Divide, DivideUnsigned, Multiply,
         MultiplyUnsigned;
  }

  /** A value moved to HI or LO comes back from there, and the other one keeps its own. */
  lemma HiLoBack(env: Env, c: Cpu, pc: int, hi: bool, back: bool, rs: Reg, rd: Reg)
    requires rd != 0
    ensures var o := Exec(env, c, RType(if hi then 0x11 else 0x13, rs, 0, 0, 0), pc);
            && o.Next?
            && var p := Exec(env, o.cpu, RType(if back then 0x10 else 0x12, 0, 0, rd, 0), pc);
               p.Next? && p.cpu.gpr[rd] == if hi == back then R(c, rs) else if hi then c.lo else c.hi
  {
    hide Exec, RType, R, Opcode, Rs, Rt, Rd, Funct;
    RFields(if hi then 0x11 else 0x13, rs, 0, 0, 0);
    RFields(if back then 0x10 else 0x12, 0, 0, rd, 0);
    HiLoRuns(env, c, RType(if hi then 0x11 else 0x13, rs, 0, 0, 0), pc);
    var d := Exec(env, c, RType(if hi then 0x11 else 0x13, rs, 0, 0, 0), pc).cpu;
    HiLoRuns(env, d, RType(if back then 0x10 else 0x12, 0, 0, rd, 0), pc);
  }

  // ---- Coprocessors ----

  /** Fields of a word of coprocessor n: its operation, a general register and a register of its own. */
  function CopType(op: Op, rs: Reg, rt: Reg, rd: Reg): Word { IType(op, rs, rt, rd * 0x800) }

  lemma CopFields(op: Op, rs: Reg, rt: Reg, rd: Reg)
    ensures var w := CopType(op, rs, rt, rd); Opcode(w) == op && Rs(w) == rs && Rt(w) == rt && Rd(w) == rd
  {
    IFields(op, rs, rt, rd * 0x800);
    var w := CopType(op, rs, rt, rd);
    Peel(w, 0x800, (op * 32 + rs) * 1024 + rt * 32 + rd, 0);
    Peel((op * 32 + rs) * 1024 + rt * 32 + rd, 32, (op * 32 + rs) * 32 + rt, rd);
  }

  lemma NoRfe(rs: Reg, rt: Reg, rd: Reg)
    requires rs < 16
    ensures CopType(0x10, rs, rt, rd) != 0x4200_0010
  {
  }

  lemma Cop0Runs(env: Env, c: Cpu, w: Word, pc: int)
    requires Opcode(w) == 0x10 && w != 0x4200_0010 && Rs(w) in {0, 4}
    ensures Exec(env, c, w, pc) ==
            Next(if Rs(w) == 0 then Set(c, Rt(w), c.cop0[Rd(w)]) else c.(cop0 := c.cop0[Rd(w) := R(c, Rt(w))]))
  {
    hide Opcode, Rs, Rt, Rd, R, Set, PopStatus;
  }

  /** MTC0, then MFC0: the register written shows the value, every other one what it held. */
  lemma Cop0Back(env: Env, c: Cpu, pc: int, rt: Reg, rd: Reg, r: Reg, q: Reg)
    requires r != 0
    ensures var o := Exec(env, c, CopType(0x10, 4, rt, rd), pc);
            && o.Next?
            && var p := Exec(env, o.cpu, CopType(0x10, 0, r, q), pc);
               p.Next? && p.cpu.gpr[r] == if q == rd then R(c, rt) else c.cop0[q]
  {
    hide Exec, CopType, R, Opcode, Rs, Rt, Rd;
    CopFields(0x10, 4, rt, rd);
    CopFields(0x10, 0, r, q);
    NoRfe(4, rt, rd);
    NoRfe(0, r, q);
    Cop0Runs(env, c, CopType(0x10, 4, rt, rd), pc);
    Cop0Runs(env, Exec(env, c, CopType(0x10, 4, rt, rd), pc).cpu, CopType(0x10, 0, r, q), pc);
  }

  lemma Cop2Runs(env: Env, c: Cpu, w: Word, pc: int)
    requires Opcode(w) == 0x12 && Rs(w) in {0, 2, 4, 6}
    ensures Exec(env, c, w, pc) ==
            Next(match Rs(w)
                 case 0 => Set(c, Rt(w), ReadData(c.gte, Rd(w)))
                 case 2 => Set(c, Rt(w), ReadCtrl(c.ctrl, Rd(w)))
                 case 4 => WriteData(c, Rd(w), R(c, Rt(w)))
                 case _ => WriteCtrl(c, Rd(w), R(c, Rt(w))))
  {
    hide Opcode, Rs, Rt, Rd, R, Set, ReadData, ReadCtrl, WriteData, WriteCtrl;
  }

  /** MTC2 and MFC2 use the data registers of coprocessor 2, CTC2 and CFC2 its control registers. */
  lemma Cop2Moves(env: Env, c: Cpu, pc: int, rt: Reg, rd: Reg)
    ensures Exec(env, c, CopType(0x12, 0, rt, rd), pc) == Next(Set(c, rt, ReadData(c.gte, rd)))
    ensures Exec(env, c, CopType(0x12, 2, rt, rd), pc) == Next(Set(c, rt, ReadCtrl(c.ctrl, rd)))
    ensures Exec(env, c, CopType(0x12, 4, rt, rd), pc) == Next(WriteData(c, rd, R(c, rt)))
    ensures Exec(env, c, CopType(0x12, 6, rt, rd), pc) == Next(WriteCtrl(c, rd, R(c, rt)))
  {
    hide Exec, CopType, R, Set, Opcode, Rs, Rt, Rd, ReadData, ReadCtrl, WriteData, WriteCtrl;
    CopFields(0x12, 0, rt, rd);
    CopFields(0x12, 2, rt, rd);
    CopFields(0x12, 4, rt, rd);
    CopFields(0x12, 6, rt, rd);
    Cop2Runs(env, c, CopType(0x12, 0, rt, rd), pc);
    Cop2Runs(env, c, CopType(0x12, 2, rt, rd), pc);
    Cop2Runs(env, c, CopType(0x12, 4, rt, rd), pc);
    Cop2Runs(env, c, CopType(0x12, 6, rt, rd), pc);
  }

  /** A command word hands its last 25 bits to coprocessor 2. */
  lemma CommandRuns(env: Env, c: Cpu, pc: int, command: int)
    requires 0 <= command < 0x200_0000
    ensures Exec(env, c, 0x4A00_0000 + command, pc) == Next(Commanded(env, c, command))
  {
    CommandFields(command);
    hide Opcode, Rs, Rt, Rd, R, Set, ReadData, ReadCtrl, WriteData, WriteCtrl, Commanded;
  }

  lemma CommandFields(command: int)
    requires 0 <= command < 0x200_0000
    ensures var w: Word := 0x4A00_0000 + command; Opcode(w) == 0x12 && Rs(w) >= 0x10 && w % 0x200_0000 == command
  {
    var w: Word := 0x4A00_0000 + command;
    assert w / 0x200_0000 == 37;
    var q := command / 0x20_0000;
    assert w / 0x20_0000 == 592 + q && 0 <= q < 16;
  }

  lemma Cop2MemoryRuns(env: Env, c: Cpu, w: Word, pc: int)
    requires Opcode(w) in {0x32, 0x3A}
    ensures Exec(env, c, w, pc) ==
            var a := Address(c, Decode(w));
            if Misaligned(a, 4) then Trap(c, Unaligned(a, pc))
            else if Opcode(w) == 0x32 then Next(WriteData(Logged(c, a, 4), Rt(w), ReadWord(c.mem, a)))
            else Next(c.(mem := WriteWord(c.mem, a, ReadData(c.gte, Rt(w)))))
  {
    hide Opcode, Rs, Rt, Rd, Imm, SImm, R, Set, ReadData, WriteData, Address, Misaligned, ReadWord, WriteWord, Logged;
  }

  /** The number of an address: a register and a signed offset. */
  function Place(c: Cpu, rs: Reg, imm: Imm16): int {
    (Num(R(c, rs)) + if imm < 0x8000 then imm else imm - 0x1_0000) % SIZE
  }

  /** LWC2 traps exactly at addresses that are no multiple of four, and otherwise puts the word there into a data
      register. */
  lemma LoadCop2Means(env: Env, c: Cpu, pc: int, rs: Reg, rt: Reg, imm: Imm16)
    ensures var o, n := Exec(env, c, IType(0x32, rs, rt, imm), pc), Place(c, rs, imm);
            if n % 4 != 0 then o.Trap?
            else o.Next? && exists a :: Num(a) == n && o.cpu == WriteData(Logged(c, a, 4), rt, ReadWord(c.mem, a))
  {
    hide Exec, IType, R, Opcode, Rs, Rt, Rd, Num, Address, Misaligned, ReadData, WriteData, Logged, ReadWord;
    var w := IType(0x32, rs, rt, imm);
    IFields(0x32, rs, rt, imm);
    Cop2MemoryRuns(env, c, w, pc);
    AddressMeans(c, 0x32, rs, rt, imm);
    MisalignedMeans(Address(c, Decode(w)));
  }

  /** SWC2 traps likewise, and otherwise puts the bytes of a data register into memory. */
  lemma StoreCop2Means(env: Env, c: Cpu, pc: int, rs: Reg, rt: Reg, imm: Imm16, b: bv32)
    ensures var o, n := Exec(env, c, IType(0x3A, rs, rt, imm), pc), Place(c, rs, imm);
            if n % 4 != 0 then o.Trap?
            else
              && o.Next? && o.cpu == c.(mem := o.cpu.mem)
              && var v := Num(ReadData(c.gte, rt));
                 ByteAt(o.cpu.mem, b) ==
                 if n / 4 == Num(b) / 4 then v / Pow2(8 * (Num(b) % 4)) % 0x100 else ByteAt(c.mem, b)
  {
    hide Exec, IType, R, Opcode, Rs, Rt, Rd, Num, Address, Misaligned, ReadData, WriteWord, ByteAt, Pow2;
    var w := IType(0x3A, rs, rt, imm);
    IFields(0x3A, rs, rt, imm);
    Cop2MemoryRuns(env, c, w, pc);
    AddressMeans(c, 0x3A, rs, rt, imm);
    MisalignedMeans(Address(c, Decode(w)));
    StoreWordBytes(c.mem, Address(c, Decode(w)), ReadData(c.gte, rt), b);
  }

  // ---- Links and stops ----

  /** What a linking transfer leaves: the address behind its delay slot. */
  lemma LinkRuns(env: Env, c: Cpu, w: Word, pc: int)
    requires || Opcode(w) == 0x03
             || (Opcode(w) == 0x01 && Rt(w) in {0x10, 0x11})
             || (Opcode(w) == 0x00 && Funct(w) == 0x09)
    ensures var o, r := Exec(env, c, w, pc), if Opcode(w) == 0x00 then Rd(w) else 31;
            o.Go? && o.cpu == Set(c, r, ToBv(pc + 8))
  {
    hide Opcode, Rs, Rt, Rd, Funct, Set, ToBv, ToAddr, R, Negative, Wrap, BranchTarget, JumpTarget;
  }

  lemma LinkMeans(env: Env, c: Cpu, w: Word, pc: int)
    requires || Opcode(w) == 0x03
             || (Opcode(w) == 0x01 && Rt(w) in {0x10, 0x11})
             || (Opcode(w) == 0x00 && Funct(w) == 0x09 && Rd(w) != 0)
    ensures var o, r := Exec(env, c, w, pc), if Opcode(w) == 0x00 then Rd(w) else 31;
            o.Go? && o.cpu == Set(c, r, o.cpu.gpr[r]) && Num(o.cpu.gpr[r]) == (pc + 8) % SIZE
  {
    hide Exec, Opcode, Rt, Rd, Funct, ToBv, Num;
    LinkRuns(env, c, w, pc);
    ToBvMeans(pc + 8);
  }

  /** BREAK stops with the twenty bits of its code. */
  lemma BreakRuns(env: Env, c: Cpu, pc: int, code: int)
    requires 0 <= code < 0x10_0000
    ensures Exec(env, c, code * 0x40 + 0x0D, pc) == Trap(c, Break(code, pc))
  {
    var w: Word := code * 0x40 + 0x0D;
    Peel(w, 0x40, code, 0x0D);
    Peel(w, 0x400_0000, 0, w);
    assert w / 64 % 0x10_0000 == code;
    hide Opcode, Rs, Rt, Rd, Imm, SImm, ToBv, ToAddr, Shamt, R, Set, Shl, Shr, Sra, AddOverflows, SubOverflows,
         AddW, SubW, AndW, OrW, XorW, NotW, LessW, SignedLess, Flag, Divide, DivideUnsigned, Multiply,
         MultiplyUnsigned;
  }
}
