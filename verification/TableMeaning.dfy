/** The runs of the jump-table idiom are runs of the machine. */
module TableMeaning {
  import opened Mips
  import opened Isa
  import opened Binary
  import opened Encoding
  import opened Meaning
  import JumpTables
  import Hazards
  import HazardScan

  /** The registers as numbers. */
  function Numbers(c: Cpu): JumpTables.WordRegs { seq(32, r requires 0 <= r < 32 => NumWord(c.gpr[r])) }

  function NumWord(x: bv32): Word { Num(x) }

  /** `mem` is the memory of c, as numbers. */
  ghost predicate Mirrors(mem: int -> Word, c: Cpu) { forall a: bv32 :: mem(Num(a)) == Num(ReadWord(c.mem, a)) }

  lemma NumberOf(c: Cpu, r: Reg)
    ensures Numbers(c)[r] == Num(c.gpr[r])
  {
    hide Num;
  }

  lemma ReadsNumber(c: Cpu, r: Reg)
    requires c.gpr[0] == 0
    ensures Numbers(c)[r] == Num(R(c, r))
  {
    hide Num;
  }

  lemma ImmediateEffect(env: Env, c: Cpu, w: Word, pc: int)
    requires c.gpr[0] == 0 && Opcode(w) in {0x09, 0x0F} && Rt(w) != 0
    ensures var o := Exec(env, c, w, pc);
            && o.Next?
            && Num(o.cpu.gpr[Rt(w)]) ==
               if Opcode(w) == 0x0F then Imm(w) * 0x1_0000 else Wrap(Numbers(c)[Rs(w)] + SImm(w))
  {
    EveryWord(w);
    hide Exec, Num, IType, JType, RType, Opcode, Rs, Rt, Rd, Funct, Numbers, R, Set, Digit;
    ReadsNumber(c, Rs(w));
    ImmediateMeans(env, c, pc, Opcode(w), Rs(w), Rt(w), Imm(w), 0);
  }

  lemma SumEffect(env: Env, c: Cpu, w: Word, pc: int)
    requires c.gpr[0] == 0 && Opcode(w) == 0x00 && Funct(w) == 0x21 && Rd(w) != 0
    ensures var o := Exec(env, c, w, pc);
            o.Next? && Num(o.cpu.gpr[Rd(w)]) == Wrap(Numbers(c)[Rs(w)] as int + Numbers(c)[Rt(w)])
  {
    EveryWord(w);
    hide Exec, Num, IType, JType, RType, Opcode, Rs, Rt, Rd, Funct, Numbers, R, Set, Digit;
    ReadsNumber(c, Rs(w));
    ReadsNumber(c, Rt(w));
    RegisterMeans(env, c, pc, 0x21, Rs(w), Rt(w), Rd(w), w / 0x40 % 32, 0);
  }

  lemma LoadEffect(env: Env, c: Cpu, w: Word, pc: int, mem: int -> Word)
    requires c.gpr[0] == 0 && Opcode(w) == 0x23 && Rt(w) != 0 && Mirrors(mem, c) && Exec(env, c, w, pc).Next?
    ensures Num(Exec(env, c, w, pc).cpu.gpr[Rt(w)]) == mem(Wrap(Numbers(c)[Rs(w)] + SImm(w)))
  {
    EveryWord(w);
    hide Exec, Num, IType, JType, RType, Opcode, Rs, Rt, Rd, Funct, Numbers, R, Set, Address, ReadWord;
    ReadsNumber(c, Rs(w));
    LoadMeans(env, c, pc, 0x23, Rs(w), Rt(w), Imm(w));
    AddressMeans(c, 0x23, Rs(w), Rt(w), Imm(w));
    var a := Address(c, Decode(w));
    assert mem(Num(a)) == Num(ReadWord(c.mem, a));
  }

  /** A step of the machine is a step of the idiom's runs: the opcodes of the idiom have their effect, and no other
      register outside the write set changes. */
  lemma ExecutesMachine(env: Env, c: Cpu, w: Word, pc: int, mem: int -> Word)
    requires env.Valid() && c.gpr[0] == 0 && Mirrors(mem, c) && Exec(env, c, w, pc).Next?
    requires Hazards.Writes(w).Some? && !HazardScan.Foreign(w) && !HazardScan.MovesOut(w)
    ensures JumpTables.Executes(Decode(w), Hazards.Writes(w).value, Numbers(c), Numbers(Exec(env, c, w, pc).cpu), mem)
  {
    hide Env.Valid, Exec, Num, Hazards.Writes, HazardScan.Foreign, HazardScan.MovesOut, Numbers, Mirrors, Wrap, Opcode,
         Rs, Rt, Rd, Funct, Imm, SImm;
    var o := Exec(env, c, w, pc);
    HazardScan.WriteSetSound(env, c, w, pc);
    forall r: Reg | r !in Hazards.Writes(w).value ensures Numbers(o.cpu)[r] == Numbers(c)[r] {
      NumberOf(c, r);
      NumberOf(o.cpu, r);
    }
    NumberOf(o.cpu, Rt(w));
    NumberOf(o.cpu, Rd(w));
    if Opcode(w) in {0x09, 0x0F} && Rt(w) != 0 { ImmediateEffect(env, c, w, pc); }
    if Opcode(w) == 0x00 && Funct(w) == 0x21 && Rd(w) != 0 { SumEffect(env, c, w, pc); }
    if Opcode(w) == 0x23 && Rt(w) != 0 { LoadEffect(env, c, w, pc, mem); }
  }
}
