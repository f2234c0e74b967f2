/** Slices that end in a register jump or a call. Their tail reads the jump register and writes the
    link register after the delay slot, where the machine does both before it; so these slices mean
    the MIPS slice exactly when the delay slot does not interfere. */
module IndirectEndings {
  import opened Mips
  import opened Isa
  import opened Translator
  import opened SliceWalker
  import opened SliceMeaning
  import opened LinkOrder
  import HazardScan
  import opened Binary

  lemma JrKind(w: Word, pc: int)
    requires Translate(w, pc).Terminator? && Translate(w, pc).kind == Jr
    ensures Opcode(w) == 0x00 && Funct(w) == 0x08
            && Translate(w, pc) == Terminator(Jr, None, JumpTail(None, ByReg(Rs(w))))
  {
    hide Rs, Rt, Rd, ToBv, Shamt, Wrap, BranchTarget, JumpTarget, BranchSnapshot;
  }

  lemma JrExec(env: Env, c: Cpu, w: Word, pc: int)
    requires Opcode(w) == 0x00 && Funct(w) == 0x08
    ensures Exec(env, c, w, pc) == Go(c, ToAddr(R(c, Rs(w))))
  {
    hide Rs, Rt, Rd, Shamt, ToBv, ToAddr;
  }

  lemma JalKind(w: Word, pc: int)
    requires Translate(w, pc).Terminator? && Translate(w, pc).kind == Jal
    ensures Opcode(w) == 0x03
            && Translate(w, pc) == Terminator(Jal, None, JumpTail(Some((31, ToBv(pc + 8))), Fixed(JumpTarget(pc, w))))
  {
    hide Rs, Rt, Rd, Funct, ToBv, Shamt, Wrap, BranchTarget, JumpTarget, BranchSnapshot;
  }

  lemma JalExec(env: Env, c: Cpu, w: Word, pc: int)
    requires Opcode(w) == 0x03
    ensures Exec(env, c, w, pc) == Go(Set(c, 31, ToBv(pc + 8)), JumpTarget(pc, w))
  {
    hide Rs, Rt, Set, ToBv, JumpTarget;
  }

  /** The emitted end of a slice without a snapshot: the delay slot from the incoming state, then the
      tail. */
  lemma RunEnding(env: Env, s: CState, w: Word, d: Word, pc: int)
    requires Zeroed(s.cpu) && Translate(w, pc).Terminator? && Translate(w, pc).pre.None?
    requires Translate(d, pc + 4).Plain? && Right(s.cpu, d)
    ensures var o := Exec(env, s.cpu, d, pc + 4);
            && !o.Go?
            && (o.Trap? ==> RunAll(env, s, Ending(pc, w, d)) == Fault(o.cpu, o.cause))
            && (o.Next? ==> RunAll(env, s, Ending(pc, w, d)) == RunC(env, s.(cpu := o.cpu), Translate(w, pc).tail))
  {
    var t, dt := Translate(w, pc), Translate(d, pc + 4);
    PlainCode(d, pc + 4);
    PlainRun(env, s, dt.code);
    PlainAgrees(env, s.cpu, d, pc + 4);
    hide Translate, Right, Exec, RunPlain, RunC, RunAll;
    var a, b := Emitted(pc + 4, d, dt.code), Emitted(pc, w, t.tail);
    assert Ending(pc, w, d) == [a] + [b];
    RunCons(env, s, a, [b]);
    var o := Exec(env, s.cpu, d, pc + 4);
    if o.Next? { RunOne(env, s.(cpu := o.cpu), b); }
  }

  lemma StepDelay(env: Env, rom: Image, c: Cpu, d: Word, pc: int, next: int)
    requires WordAt(rom, pc) == Some(d) && !Exec(env, c, d, pc).Go?
    ensures var o := Exec(env, c, d, pc);
            Step(env, rom, Running(c, pc, next)) == if o.Next? then Running(o.cpu, next, Wrap(next + 4))
                else Halted(o.cpu, o.cause)
  {
    hide WordAt, Exec;
  }

  lemma AddrBack(x: bv32)
    ensures 0 <= ToAddr(x) < 0x1_0000_0000 && ToAddr(x) as bv32 == x
  {
  }

  lemma AddrInjective(x: bv32, y: bv32)
    ensures ToAddr(x) == ToAddr(y) ==> x == y
  {
    if ToAddr(x) == ToAddr(y) {
      AddrBack(x);
      AddrBack(y);
    }
  }

  /** JR: right if and only if the delay slot traps or leaves the jump register as it was. */
  lemma JrEndingIff(env: Env, rom: Image, s: CState, w: Word, d: Word, pc: int)
    requires env.Valid() && Zeroed(s.cpu) && WordAt(rom, pc) == Some(w) && WordAt(rom, pc + 4) == Some(d)
    requires Translate(w, pc).Terminator? && Translate(w, pc).kind == Jr && Translate(d, pc + 4).Plain?
             && Right(s.cpu, d)
    ensures var o := Exec(env, s.cpu, d, pc + 4);
            Agree(RunAll(env, s, Ending(pc, w, d)), Steps(env, rom, Running(s.cpu, pc, pc + 4), 2))
            <==> o.Trap? || R(o.cpu, Rs(w)) == R(s.cpu, Rs(w))
  {
    hide Env.Valid, WordAt, Translate, Right, Exec, RunPlain, RunAll, Step, Steps, Ending, Opcode, Funct, Rs, ToAddr,
         Wrap;
    var o := Exec(env, s.cpu, d, pc + 4);
    JrKind(w, pc);
    JrExec(env, s.cpu, w, pc);
    RunEnding(env, s, w, d, pc);
    ExecKeepsZero(env, s.cpu, d, pc + 4);
    var next := ToAddr(R(s.cpu, Rs(w)));
    TwoSteps(env, rom, s.cpu, w, pc, s.cpu, next);
    StepDelay(env, rom, s.cpu, d, pc + 4, next);
    if o.Next? {
      ReadsAgree(o.cpu, Rs(w));
      AddrInjective(R(o.cpu, Rs(w)), R(s.cpu, Rs(w)));
    }
  }

  /** JAL: the emitted order and the machine's order of linking and executing the delay slot. */
  lemma JalOrder(env: Env, rom: Image, s: CState, w: Word, d: Word, pc: int)
    requires env.Valid() && Zeroed(s.cpu) && WordAt(rom, pc) == Some(w) && WordAt(rom, pc + 4) == Some(d)
    requires Translate(w, pc).Terminator? && Translate(w, pc).kind == Jal && Translate(d, pc + 4).Plain?
             && Right(s.cpu, d)
    ensures Agree(RunAll(env, s, Ending(pc, w, d)), Steps(env, rom, Running(s.cpu, pc, pc + 4), 2))
            <==> LinkCommutes(env, s.cpu, d, pc + 4, 31, ToBv(pc + 8))
  {
    hide Env.Valid, WordAt, Translate, Right, Exec, RunPlain, RunAll, Step, Steps, Ending, Opcode, JumpTarget, ToBv,
         Wrap;
    var c, link, next := s.cpu, ToBv(pc + 8), JumpTarget(pc, w);
    var linked := Set(c, 31, link);
    JalKind(w, pc);
    JalExec(env, c, w, pc);
    RunEnding(env, s, w, d, pc);
    PlainStays(env, linked, d, pc + 4);
    TwoSteps(env, rom, c, w, pc, linked, next);
    StepDelay(env, rom, linked, d, pc + 4, next);
  }

  lemma JalrKind(w: Word, pc: int)
    requires Translate(w, pc).Terminator? && Translate(w, pc).kind == Jalr
    ensures Opcode(w) == 0x00 && Funct(w) == 0x09
            && Translate(w, pc) == Terminator(Jalr, None,
                                              JumpTail(if Rd(w) == 0 then None else Some((Rd(w), ToBv(pc + 8))),
                                                       ByReg(Rs(w))))
  {
    hide Rs, Rt, Rd, ToBv, Shamt, Wrap, BranchTarget, JumpTarget, BranchSnapshot;
  }

  lemma JalrExec(env: Env, c: Cpu, w: Word, pc: int)
    requires Opcode(w) == 0x00 && Funct(w) == 0x09
    ensures Exec(env, c, w, pc) == Go(Set(c, Rd(w), ToBv(pc + 8)), ToAddr(R(c, Rs(w))))
  {
    hide Rs, Rt, Rd, Shamt, ToBv, ToAddr, Set, R;
  }

  lemma JalrTail(env: Env, s: CState, w: Word, pc: int)
    requires Zeroed(s.cpu) && Translate(w, pc).Terminator? && Translate(w, pc).kind == Jalr
    ensures var c := Set(s.cpu, Rd(w), ToBv(pc + 8));
            RunC(env, s, Translate(w, pc).tail) == Exit(c, ToAddr(R(c, Rs(w))))
  {
    JalrKind(w, pc);
    hide Translate, Opcode, Funct, Rs, Rd, ToBv, ToAddr, Shamt;
  }

  /** JALR: the emitted code is right exactly if the order of linking and executing the delay slot does not
      matter, and the jump register, read after both, still holds what it held before them. */
  lemma JalrOrder(env: Env, rom: Image, s: CState, w: Word, d: Word, pc: int)
    requires env.Valid() && Zeroed(s.cpu) && WordAt(rom, pc) == Some(w) && WordAt(rom, pc + 4) == Some(d)
    requires Translate(w, pc).Terminator? && Translate(w, pc).kind == Jalr && Translate(d, pc + 4).Plain?
             && Right(s.cpu, d)
    ensures var after := Exec(env, s.cpu, d, pc + 4);
            Agree(RunAll(env, s, Ending(pc, w, d)), Steps(env, rom, Running(s.cpu, pc, pc + 4), 2)) <==>
            && LinkCommutes(env, s.cpu, d, pc + 4, Rd(w), ToBv(pc + 8))
            && (after.Next? ==> R(Set(after.cpu, Rd(w), ToBv(pc + 8)), Rs(w)) == R(s.cpu, Rs(w)))
  {
    hide Env.Valid, WordAt, Translate, Right, Exec, RunPlain, RunC, RunAll, Step, Steps, Ending, Opcode, Funct, Rd,
         Rs, ToBv, ToAddr, Wrap, Set, R;
    var c, link, next := s.cpu, ToBv(pc + 8), ToAddr(R(s.cpu, Rs(w)));
    var linked := Set(c, Rd(w), link);
    JalrKind(w, pc);
    JalrExec(env, c, w, pc);
    RunEnding(env, s, w, d, pc);
    PlainStays(env, linked, d, pc + 4);
    TwoSteps(env, rom, c, w, pc, linked, next);
    StepDelay(env, rom, linked, d, pc + 4, next);
    var after := Exec(env, c, d, pc + 4);
    if after.Next? {
      ExecKeepsZero(env, c, d, pc + 4);
      JalrTail(env, s.(cpu := after.cpu), w, pc);
      AddrInjective(R(Set(after.cpu, Rd(w), link), Rs(w)), R(c, Rs(w)));
    }
  }

  // ---- RFE ----

  lemma PopSums(x: bv32)
    ensures PopStatus(x) == AddW(SubW(x, AndW(x, 0x0F)), AndW(Shr(x, 2), 0x0F))
    ensures EmittedPop(x) == AddW(SubW(x, AndW(x, 0x3F)), AndW(Shr(x, 2), 0x0F))
  {
  }

  lemma PopMasks()
    ensures Num(0x0F) == Pow2(4) - 1 && Num(0x3F) == Pow2(6) - 1 && ToBv(2) == 2
    ensures Pow2(2) == 4 && Pow2(4) == 16 && Pow2(6) == 64
  {
    Powers();
  }

  /** The last m bits give way to the four above the last two. */
  lemma PopIs(x: bv32, mask: bv32, m: nat)
    requires m in {4, 6} && Num(mask) == Pow2(m) - 1
    ensures Num(AddW(SubW(x, AndW(x, mask)), AndW(Shr(x, 2), 0x0F))) == Num(x) - Num(x) % Pow2(m) + Num(x) / 4 % 16
  {
    PopMasks();
    hide Num, Pow2, AddW, SubW, AndW, Shr, ToBv;
    MaskMeans(x, mask, m);
    ShrMeans(x, 2);
    MaskMeans(Shr(x, 2), 0x0F, 4);
    MinusMeans(x, AndW(x, mask));
    PlusMeans(SubW(x, AndW(x, mask)), AndW(Shr(x, 2), 0x0F));
    PopFits(Num(x), Pow2(m));
  }

  lemma PopFits(n: int, p: int)
    requires 0 <= n < SIZE && p in {16, 64}
    ensures var r := (n - n % p) % SIZE; r == n - n % p && (r + n / 4 % 16) % SIZE == r + n / 4 % 16
  {
  }

  lemma OldestPair(n: int)
    ensures n % 16 == n % 64 <==> n / 16 % 4 == 0
  {
  }

  /** A pop moves the status two bits down over its last four; the emitted one also clears the oldest pair, and is
      right exactly if that is clear. */
  lemma PopMeans(x: bv32)
    ensures var n := Num(x);
            && Num(PopStatus(x)) == n - n % 16 + n / 4 % 16
            && Num(EmittedPop(x)) == n - n % 64 + n / 4 % 16
            && (EmittedPop(x) == PopStatus(x) <==> n / 16 % 4 == 0)
  {
    PopSums(x);
    PopMasks();
    hide Num, Pow2, PopStatus, EmittedPop, AddW, SubW, AndW, Shr, ToBv;
    PopIs(x, 0x0F, 4);
    PopIs(x, 0x3F, 6);
    OldestPair(Num(x));
    if Num(EmittedPop(x)) == Num(PopStatus(x)) { NumInjective(EmittedPop(x), PopStatus(x)); }
  }

  function Popped(c: Cpu): Cpu { c.(cop0 := c.cop0[12 := PopStatus(c.cop0[12])]) }

  lemma RfeKind(w: Word, pc: int)
    requires Translate(w, pc).Terminator? && Translate(w, pc).kind == Rfe
    ensures w == 0x4200_0010 && Translate(w, pc) == Terminator(Rfe, None, RfeTail)
  {
    hide Rs, Rt, Rd, Funct, ToBv, Shamt, Wrap, BranchTarget, JumpTarget, BranchSnapshot;
  }

  lemma RfeExec(env: Env, c: Cpu, pc: int)
    ensures Exec(env, c, 0x4200_0010, pc) == Next(Popped(c))
  {
    assert Opcode(0x4200_0010) == 0x10;
    hide Opcode, Rs, Rt, Rd, PopStatus;
  }

  lemma StepPlain(env: Env, rom: Image, c: Cpu, w: Word, pc: int, c': Cpu)
    requires WordAt(rom, pc) == Some(w) && Exec(env, c, w, pc) == Next(c')
    ensures Steps(env, rom, Running(c, pc, pc + 4), 2) == Step(env, rom, Running(c', pc + 4, Wrap(pc + 8)))
  {
    hide WordAt, Exec;
    var m := Step(env, rom, Running(c, pc, pc + 4));
    assert m == Running(c', pc + 4, Wrap(pc + 8));
    assert Steps(env, rom, m, 1) == Steps(env, rom, Step(env, rom, m), 0);
  }

  /** RFE: the tail names no address to continue at, so the ending is right only where the word behind it traps,
      and then exactly if popping the status changes nothing. */
  lemma RfeEndingIff(env: Env, rom: Image, s: CState, w: Word, d: Word, pc: int)
    requires env.Valid() && Zeroed(s.cpu) && WordAt(rom, pc) == Some(w) && WordAt(rom, pc + 4) == Some(d)
    requires Translate(w, pc).Terminator? && Translate(w, pc).kind == Rfe && Translate(d, pc + 4).Plain?
             && Right(s.cpu, d) && !HazardScan.Foreign(d)
    ensures Agree(RunAll(env, s, Ending(pc, w, d)), Steps(env, rom, Running(s.cpu, pc, pc + 4), 2)) <==>
            Exec(env, s.cpu, d, pc + 4).Trap? && Popped(s.cpu) == s.cpu
  {
    hide Env.Valid, WordAt, Translate, Right, Exec, RunPlain, RunAll, Step, Steps, Ending, Popped, Wrap,
         HazardScan.Foreign;
    var c := s.cpu;
    RfeKind(w, pc);
    RfeExec(env, c, pc);
    RunEnding(env, s, w, d, pc);
    StepPlain(env, rom, c, w, pc, Popped(c));
    PlainStays(env, Popped(c), d, pc + 4);
    StepDelay(env, rom, Popped(c), d, pc + 4, Wrap(pc + 8));
    if Exec(env, c, d, pc + 4).Trap? {
      TrapKeeps(env, c, d, pc + 4);
      if Exec(env, Popped(c), d, pc + 4).Trap? { TrapKeeps(env, Popped(c), d, pc + 4); }
    }
  }

  lemma AddiuExec(env: Env, c: Cpu, d: Word, pc: int)
    requires Opcode(d) == 0x09
    ensures Exec(env, c, d, pc) == Next(Set(c, Rt(d), AddW(R(c, Rs(d)), ToBv(SImm(d)))))
  {
    hide Rs, Rt, SImm, ToBv, AddW, Set, SignedLess, LessW;
  }

  lemma SumMoves(x: bv32, k: bv32)
    ensures k != 0 ==> AddW(x, k) != x
  {
  }

  /** A delay slot that adjusts the jump register makes the emitted code jump elsewhere, from every state. */
  lemma AdjustedJumpLost(env: Env, rom: Image, s: CState, w: Word, d: Word, pc: int)
    requires env.Valid() && Zeroed(s.cpu) && WordAt(rom, pc) == Some(w) && WordAt(rom, pc + 4) == Some(d)
    requires Translate(w, pc).Terminator? && Translate(w, pc).kind == Jr && Translate(d, pc + 4).Plain?
             && Right(s.cpu, d)
    requires Opcode(d) == 0x09 && Rs(d) == Rt(d) == Rs(w) != 0 && ToBv(SImm(d)) != 0
    ensures !Agree(RunAll(env, s, Ending(pc, w, d)), Steps(env, rom, Running(s.cpu, pc, pc + 4), 2))
  {
    hide WordAt, Opcode, Rs, Rt, SImm, Exec, RunAll, Steps, Ending, Agree, Env.Valid, ToBv, AddW, Translate, Right;
    JrEndingIff(env, rom, s, w, d, pc);
    AddiuExec(env, s.cpu, d, pc + 4);
    SumMoves(R(s.cpu, Rs(w)), ToBv(SImm(d)));
  }

  /** `jr $t0` with `addiu $t0, $t0, 4` in its delay slot. */
  lemma JrReadsLate(env: Env, s: CState) returns (rom: Image)
    requires env.Valid() && Zeroed(s.cpu)
    ensures WordAt(rom, 0x8000_0000) == Some(0x0100_0008) && WordAt(rom, 0x8000_0004) == Some(0x2508_0004)
    ensures Translate(0x0100_0008, 0x8000_0000).Terminator? && Translate(0x2508_0004, 0x8000_0004).Plain?
    ensures !Agree(RunAll(env, s, Ending(0x8000_0000, 0x0100_0008, 0x2508_0004)),
                   Steps(env, rom, Running(s.cpu, 0x8000_0000, 0x8000_0004), 2))
  {
    hide WordAt, Opcode, Funct, Rs, Rt, SImm, RunAll, Steps, Ending, Agree, Env.Valid, ToBv, Flatten, Translate,
         Right, Faithful;
    var jr: Word, addiu: Word := 0x0100_0008, 0x2508_0004;
    JrFields();
    var words := [jr, addiu];
    rom := ImageOf(words, 0x8000_0000);
    ImageWord(words, 0x8000_0000, 0);
    ImageWord(words, 0x8000_0000, 1);
    ImmediatePlain(addiu, 0x8000_0004);
    FaithfulIsRight(s.cpu, addiu);
    JrTranslates(jr, 0x8000_0000);
    FourIsNot();
    AdjustedJumpLost(env, rom, s, jr, addiu, 0x8000_0000);
  }

  lemma JrFields()
    ensures Opcode(0x0100_0008) == 0x00 && Funct(0x0100_0008) == 0x08 && Rs(0x0100_0008) == 8
    ensures Opcode(0x2508_0004) == 0x09 && Rs(0x2508_0004) == 8 && Rt(0x2508_0004) == 8 && SImm(0x2508_0004) == 4
  {
  }

  lemma JrTranslates(w: Word, pc: int)
    requires w != 0 && Opcode(w) == 0x00 && Funct(w) == 0x08
    ensures Translate(w, pc).Terminator? && Translate(w, pc).kind == Jr
  {
    hide Rs, Rt, Rd, ToBv, Shamt;
  }

  lemma FourIsNot()
    ensures ToBv(4) != 0
  {
  }
}
