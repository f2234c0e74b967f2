/** What the overlay tool says about the control flow of a word is what the machine does with it. */
module Flows {
  import opened Mips
  import opened Isa

  lemma OpcodeZero(env: Env, c: Cpu, w: Word, pc: int)
    requires Opcode(w) == 0x00
    ensures Exec(env, c, w, pc) == ExecSpecial(env, c, w, pc)
    ensures Funct(w) == 0x08 ==> Exec(env, c, w, pc) == Go(c, ToAddr(R(c, Rs(w))))
    ensures Funct(w) == 0x09 ==> Exec(env, c, w, pc) == Go(Set(c, Rd(w), ToBv(pc + 8)), ToAddr(R(c, Rs(w))))
    ensures Funct(w) !in {0x08, 0x09} ==> !Exec(env, c, w, pc).Go?
  {
    hide Opcode, Rs, Rt, Rd, Funct, Imm, SImm, ToBv, ToAddr, Shamt, R, Set, Shl, Shr, Sra, AddOverflows, SubOverflows,
         AddW, SubW, AndW, OrW, XorW, NotW, LessW, SignedLess, Flag, Divide, DivideUnsigned, Multiply,
         MultiplyUnsigned;
  }

  lemma NeverGo(env: Env, c: Cpu, w: Word, pc: int)
    ensures !ExecImmediate(c, w).Go? && !ExecLoad(c, w, pc).Go? && !ExecStore(c, w, pc).Go?
    ensures !ExecCop0(c, w).Go? && !ExecCop2(env, c, w).Go? && !ExecCop2Memory(c, w, pc).Go?
  {
    hide Decode, Lane, MergeLeft, MergeRight, SpillLeft, SpillRight, Address, Misaligned, Set, R, ToBv, AddOverflows;
  }

  /** The branches the machine knows. */
  predicate IsBranch(w: Word) {
    Opcode(w) in {0x04, 0x05, 0x06, 0x07} || (Opcode(w) == 0x01 && Rt(w) in {0x00, 0x01, 0x10, 0x11})
  }

  lemma TakenIff(c: Cpu, w: Word)
    ensures Taken(c, w).Some? <==> IsBranch(w)
  {
    hide Rs, Rt, Opcode, Negative;
  }

  lemma OtherOpcode(env: Env, c: Cpu, w: Word, pc: int)
    requires Opcode(w) != 0x00
    ensures Exec(env, c, w, pc).Go? <==> IsBranch(w) || Opcode(w) in {0x02, 0x03}
    ensures Opcode(w) in {0x01, 0x04, 0x05, 0x06, 0x07, 0x11, 0x14, 0x15, 0x16, 0x17} ==> !Exec(env, c, w, pc).Next?
    ensures IsBranch(w) ==> Exec(env, c, w, pc).pc in {Wrap(BranchTarget(pc, w)), Wrap(pc + 8)}
    ensures Opcode(w) == 0x02 ==> Exec(env, c, w, pc) == Go(c, JumpTarget(pc, w))
    ensures Opcode(w) == 0x03 ==> Exec(env, c, w, pc) == Go(Set(c, 31, ToBv(pc + 8)), JumpTarget(pc, w))
  {
    hide ExecSpecial, ExecImmediate, ExecLoad, ExecStore, ExecCop0, ExecCop2, ExecCop2Memory, Taken, BranchLinked, Rs,
         Rt, ToBv, Wrap, BranchTarget, JumpTarget, Set;
    NeverGo(env, c, w, pc);
    TakenIff(c, w);
  }

  /** The classes of words in the machine's terms. A class may be too careful: it holds the branches of later
      processors, on which this machine traps. */
  lemma ClassifyRuns(env: Env, c: Cpu, w: Word, pc: int)
    ensures var o := Exec(env, c, w, pc);
            match Classify(pc, w)
            case Normal => !o.Go?
            case Branch(t) => !o.Next? && (o.Go? ==> o.pc in {Wrap(t), Wrap(pc + 8)})
            case Jump(t) => o == Go(c, t)
            case Call(t) => o == Go(Set(c, 31, ToBv(pc + 8)), t)
            case CallReg => o == Go(Set(c, Rd(w), ToBv(pc + 8)), ToAddr(R(c, Rs(w))))
            case JumpReg(rs) => rs != 31 && o == Go(c, ToAddr(R(c, rs)))
            case Return => o == Go(c, ToAddr(R(c, 31)))
  {
    hide Exec, Rs, Rt, Rd, Funct, ToBv, ToAddr, Wrap, BranchTarget, JumpTarget, Set, R, Opcode;
    if Opcode(w) == 0x00 { OpcodeZero(env, c, w, pc); } else { OtherOpcode(env, c, w, pc); }
  }
}
