/** The branch-delay hazard scan is sound: an instruction changes no register outside its write set,
    so a branch that is not flagged decides the same before and after its delay slot. */
module HazardScan {
  import opened Mips
  import opened Isa
  import opened Translator
  import Hazards
  import Sorting
  import SliceMeaning

  /** Words executed by code this model does not contain: system calls. */
  predicate Foreign(w: Word) { Opcode(w) == 0x00 && Funct(w) == 0x0C }

  /** MFC2 and CFC2, the words of coprocessor 2 that write a general register. */
  predicate MovesOut(w: Word) { Opcode(w) == 0x12 && Rs(w) in {0x00, 0x02} }

  /** The registers a word may change: what the scan computes, and the target of a move it overlooks. */
  function Changed(w: Word): set<Reg>
    requires Hazards.Writes(w).Some?
  {
    Hazards.Writes(w).value + if MovesOut(w) then {Rt(w)} else {}
  }

  ghost predicate KeepsOthers(c: Cpu, c': Cpu, ws: set<Reg>) {
    forall r: Reg :: r !in ws ==> c'.gpr[r] == c.gpr[r]
  }

  lemma SetKeepsOthers(c: Cpu, r: Reg, v: bv32, ws: set<Reg>)
    requires r in ws || r == 0
    ensures KeepsOthers(c, Set(c, r, v), ws)
  {
  }

  lemma NopWrites(env: Env, c: Cpu, pc: int)
    ensures Hazards.Writes(0) == Some({}) && ExecSpecial(env, c, 0, pc) == Next(c)
  {
    assert Rd(0) == 0 && Funct(0) == 0;
    hide Rs, Rt, Rd, ToBv, Shamt, Shl, Funct;
  }

  lemma AnySetKeepsOthers(c: Cpu, r: Reg)
    ensures KeepsOthers(c, c, {r}) && forall v: bv32 :: KeepsOthers(c, Set(c, r, v), {r})
  {
  }

  lemma SameKeepsOthers(c: Cpu)
    ensures forall c': Cpu :: c'.gpr == c.gpr ==> KeepsOthers(c, c', {})
  {
  }

  lemma SpecialWrites(env: Env, c: Cpu, w: Word, pc: int)
    requires Opcode(w) == 0x00 && Funct(w) != 0x0C && w != 0
    ensures Hazards.Writes(w).Some? && KeepsOthers(c, ExecSpecial(env, c, w, pc).cpu, Hazards.Writes(w).value)
  {
    hide Opcode, Rs, Rt, Rd, Funct, Imm, SImm, ToBv, ToAddr, Shamt, AddOverflows, SubOverflows, Divide,
         DivideUnsigned, Multiply, MultiplyUnsigned, AddW, SubW, AndW, OrW, XorW, NotW, LessW, Shl, Shr, Sra,
         SignedLess, Flag, Set, R, KeepsOthers;
    var f := Decode(w);
    SliceMeaning.MulDivKeepRegs(c, R(c, f.rs), R(c, f.rt));
    AnySetKeepsOthers(c, f.rd);
    SameKeepsOthers(c);
  }

  lemma ImmediateWrites(c: Cpu, w: Word)
    requires 0x08 <= Opcode(w) <= 0x0F
    ensures Hazards.Writes(w) == Some({Rt(w)}) && KeepsOthers(c, ExecImmediate(c, w).cpu, {Rt(w)})
  {
    hide Rs, Rt, ToBv, AddOverflows, AddW, SubW, AndW, OrW, XorW, NotW, LessW, Shl, Shr, Sra, SignedLess, Flag;
  }

  lemma LoadWrites(c: Cpu, w: Word, pc: int)
    requires 0x20 <= Opcode(w) <= 0x26
    ensures Hazards.Writes(w) == Some({Rt(w)}) && KeepsOthers(c, ExecLoad(c, w, pc).cpu, {Rt(w)})
  {
    var a := Address(c, Decode(w));
    LaneBound(a);
    hide Rs, Rt, Address, Misaligned, Aligned, Lane, LoadByte, LoadHalf, ReadWord, SignExtend8, SignExtend16,
         MergeLeft, MergeRight;
  }

  lemma StoreWrites(c: Cpu, w: Word, pc: int)
    requires 0x28 <= Opcode(w) <= 0x2E
    ensures KeepsOthers(c, ExecStore(c, w, pc).cpu, {})
  {
    LaneBound(Address(c, Decode(w)));
    hide Rs, Rt, Address, Misaligned, Lane, StoreByte, StoreHalf, WriteWord, ReadWord, SpillLeft, SpillRight;
  }

  lemma Cop0Writes(c: Cpu, w: Word)
    requires Opcode(w) == 0x10
    ensures Hazards.Writes(w).Some? && KeepsOthers(c, ExecCop0(c, w).cpu, Hazards.Writes(w).value)
  {
    hide Rs, Rt, Rd, PopStatus;
  }

  lemma KeepsMore(c: Cpu, c': Cpu, ws: set<Reg>, more: set<Reg>)
    requires KeepsOthers(c, c', ws) && ws <= more
    ensures KeepsOthers(c, c', more)
  {
  }

  lemma Cop2Writes(env: Env, c: Cpu, w: Word, pc: int)
    requires Opcode(w) in {0x12, 0x32, 0x3A}
    ensures KeepsOthers(c, if Opcode(w) == 0x12 then ExecCop2(env, c, w).cpu else ExecCop2Memory(c, w, pc).cpu,
                        if MovesOut(w) then {Rt(w)} else {})
  {
    hide Opcode, Rs, Rt, Rd, Funct, Imm, SImm, ReadData, ReadCtrl, Settle, SettleCtrl, Put, PutCtrl, Misaligned,
         Address, ReadWord, WriteWord;
  }

  /** Executing an instruction changes no register outside its write set, the targets of moves out of
      coprocessor 2 aside. */
  lemma WriteSetSound(env: Env, c: Cpu, w: Word, pc: int)
    requires Hazards.Writes(w).Some? && !Foreign(w)
    ensures KeepsOthers(c, Exec(env, c, w, pc).cpu, Changed(w))
    ensures !MovesOut(w) ==> KeepsOthers(c, Exec(env, c, w, pc).cpu, Hazards.Writes(w).value)
  {
    hide KeepsOthers, Exec, Foreign, Rs, Rt, Opcode, Hazards.Writes;
    if Opcode(w) in {0x12, 0x32, 0x3A} {
      NotTaken(c, w);
      Cop2Exec(env, c, w, pc);
      Cop2Writes(env, c, w, pc);
      KeepsMore(c, Exec(env, c, w, pc).cpu, if MovesOut(w) then {Rt(w)} else {}, Changed(w));
      if !MovesOut(w) { KeepsMore(c, Exec(env, c, w, pc).cpu, {}, Hazards.Writes(w).value); }
    } else {
      ModelledWrites(env, c, w, pc);
    }
    assert !MovesOut(w) ==> Changed(w) == Hazards.Writes(w).value;
  }

  lemma Cop2Exec(env: Env, c: Cpu, w: Word, pc: int)
    requires Opcode(w) in {0x12, 0x32, 0x3A} && Taken(c, w).None?
    ensures Exec(env, c, w, pc) == if Opcode(w) == 0x12 then ExecCop2(env, c, w) else ExecCop2Memory(c, w, pc)
  {
    hide ExecSpecial, ExecImmediate, ExecLoad, ExecStore, ExecCop0, ExecCop2, ExecCop2Memory, Taken, ToBv, Wrap,
         BranchTarget, JumpTarget, Set;
  }

  lemma ModelledWrites(env: Env, c: Cpu, w: Word, pc: int)
    requires Hazards.Writes(w).Some? && !Foreign(w) && Opcode(w) !in {0x12, 0x32, 0x3A}
    ensures KeepsOthers(c, Exec(env, c, w, pc).cpu, Hazards.Writes(w).value)
  {
    hide ExecSpecial, ExecImmediate, ExecLoad, ExecStore, ExecCop0, ExecCop2, ExecCop2Memory, KeepsOthers, Rs, Rt, Rd,
         Funct, ToBv, Wrap, BranchTarget, JumpTarget, Set, Taken;
    var op := Opcode(w);
    var ws := Hazards.Writes(w).value;
    KeepsSame(c, ws);
    if w == 0 {
      NopWrites(env, c, pc);
    } else if op == 0x00 {
      NotSyscall(w);
      SpecialWrites(env, c, w, pc);
    } else if 0x08 <= op <= 0x0F {
      NotTaken(c, w);
      ImmediateWrites(c, w);
    } else if 0x20 <= op <= 0x26 {
      NotTaken(c, w);
      LoadWrites(c, w, pc);
    } else if 0x28 <= op <= 0x2E {
      NotTaken(c, w);
      StoreWrites(c, w, pc);
      KeepsMore(c, ExecStore(c, w, pc).cpu, {}, ws);
    } else if op == 0x10 {
      NotTaken(c, w);
      Cop0Writes(c, w);
    } else if op == 0x01 {
      BranchWrites(c, w, pc);
    } else if op == 0x03 {
      NotTaken(c, w);
      CallWrites(w);
      SetKeepsOthers(c, 31, ToBv(pc + 8), ws);
    }
  }

  lemma KeepsSame(c: Cpu, ws: set<Reg>)
    ensures KeepsOthers(c, c, ws)
  {
  }

  lemma NotSyscall(w: Word)
    requires !Foreign(w) && Opcode(w) == 0x00
    ensures Funct(w) != 0x0C
  {
  }

  lemma NotTaken(c: Cpu, w: Word)
    requires Opcode(w) !in {0x01, 0x04, 0x05, 0x06, 0x07}
    ensures Taken(c, w).None?
  {
    hide Opcode, Rs, Rt;
  }

  lemma BranchWrites(c: Cpu, w: Word, pc: int)
    requires Opcode(w) == 0x01
    ensures Hazards.Writes(w).Some? && KeepsOthers(c, BranchLinked(c, w, pc), Hazards.Writes(w).value)
  {
    hide Rt, ToBv;
  }

  lemma CallWrites(w: Word)
    requires Opcode(w) == 0x03
    ensures Hazards.Writes(w) == Some({31})
  {
  }

  // ---- Branches and their delay slots ----

  /** The second operand counts only for BEQ and BNE. */
  predicate UsesRt(w: Word) { Opcode(w) == 0x04 || Opcode(w) == 0x05 }

  /** The delay slot writes an operand of the branch other than register 0. */
  predicate Flagged(w: Word, d: Word)
    requires Hazards.Writes(d).Some?
  {
    var written := Hazards.Writes(d).value;
    (Rs(w) in written && Rs(w) != 0) || (UsesRt(w) && Rt(w) in written && Rt(w) != 0)
  }

  /** The decision a translator without snapshots would take: the operands are read in state c. */
  predicate DecidesIn(c: Cpu, w: Word)
    requires BranchCond(w).Some?
  {
    var snap := BranchSnapshot(w);
    Holds(BranchCond(w).value, Eval(c, snap.brA), Eval(c, snap.brB))
  }

  /** The scan overlooks a write of the delay slot to an operand of the branch. */
  predicate Overlooked(w: Word, d: Word) {
    MovesOut(d) && Rt(d) != 0 && (Rt(d) == Rs(w) || (UsesRt(w) && Rt(d) == Rt(w)))
  }

  /** A branch that is not flagged decides the same from the state before its delay slot, as the
      snapshot does, and from the state after it, unless a move out of coprocessor 2 was overlooked. */
  lemma NotFlaggedSafe(env: Env, c: Cpu, w: Word, d: Word, pc: int)
    requires env.Valid() && Zeroed(c) && BranchCond(w).Some? && Hazards.Writes(d).Some? && !Foreign(d)
    requires !Flagged(w, d) && !Overlooked(w, d)
    ensures DecidesIn(c, w) == DecidesIn(Exec(env, c, d, pc).cpu, w)
  {
    hide Env.Valid, Exec, Hazards.Writes, Foreign, MovesOut, BranchCond, Holds, Rs, Rt, EvalOp, ReadData, ReadCtrl;
    var c' := Exec(env, c, d, pc).cpu;
    WriteSetSound(env, c, d, pc);
    SliceMeaning.ExecKeepsZero(env, c, d, pc);
    var snap := BranchSnapshot(w);
    assert c'.gpr[Rs(w)] == c.gpr[Rs(w)];
    assert Eval(c', snap.brA) == Eval(c, snap.brA);
    assert Eval(c', snap.brB) == Eval(c, snap.brB);
  }

  /** BEQ or BNE of a register with itself. */
  predicate SelfCompared(w: Word) { UsesRt(w) && Rs(w) == Rt(w) }

  /** A branch whose decision does not depend on when its operands are read. */
  ghost predicate SafeInEveryState(env: Env, w: Word, d: Word, pc: int)
    requires BranchCond(w).Some?
  {
    forall c: Cpu :: Zeroed(c) ==> DecidesIn(c, w) == DecidesIn(Exec(env, c, d, pc).cpu, w)
  }

  lemma SelfDecides(c: Cpu, c': Cpu, w: Word)
    requires BranchCond(w).Some? && SelfCompared(w)
    ensures DecidesIn(c, w) == DecidesIn(c', w)
  {
    hide Opcode, Rs, Rt, ReadData, ReadCtrl, EvalOp;
  }

  /** What a word moves out of coprocessor 2. */
  function MovedOut(c: Cpu, d: Word): bv32 {
    if Rs(d) == 0x00 then ReadData(c.gte, Rd(d)) else ReadCtrl(c.ctrl, Rd(d))
  }

  lemma MoveExec(env: Env, c: Cpu, d: Word, pc: int)
    requires MovesOut(d)
    ensures Exec(env, c, d, pc) == Next(Set(c, Rt(d), MovedOut(c, d)))
  {
    hide Opcode, Rs, Rt, Rd, Set, Exec, ReadData, ReadCtrl;
    NotTaken(c, d);
    Cop2Exec(env, c, d, pc);
  }

  /** All registers zero but one. */
  function Lone(r: Reg, x: bv32): Cpu {
    var zero: Regs := seq(32, _ => 0);
    Cpu(if r == 0 then zero else zero[r := x], 0, 0, zero, zero, zero, map[], [])
  }

  lemma LoneReads(r: Reg, x: bv32, q: Reg)
    requires r != 0
    ensures Lone(r, x).gpr[q] == if q == r then x else 0
  {
  }

  /** The decision of a branch on register r, all others being zero. */
  lemma LoneDecides(c: Cpu, w: Word, r: Reg, x: bv32)
    requires BranchCond(w).Some? && r != 0 && !SelfCompared(w) && (r == Rs(w) || (UsesRt(w) && r == Rt(w)))
    requires forall q: Reg :: c.gpr[q] == if q == r then x else 0
    ensures DecidesIn(c, w) == Holds(BranchCond(w).value, x, 0)
  {
    hide Opcode, Rs, Rt, ReadData, ReadCtrl, EvalOp;
  }

  /** Of the numbers 0, 1 and the least one, one is decided differently from x. */
  lemma Different(k: Cond, x: bv32) returns (y: bv32)
    ensures Holds(k, x, 0) != Holds(k, y, 0)
  {
    if Holds(k, 0, 0) != Holds(k, x, 0) {
      y := 0;
    } else if Holds(k, 1, 0) != Holds(k, x, 0) {
      y := 1;
    } else {
      y := 0x8000_0000;
    }
  }

  /** An overlooked move changes the decision of every branch that does not compare a register with itself,
      from some state. */
  lemma OverlookedHarms(env: Env, w: Word, d: Word, pc: int) returns (c: Cpu)
    requires BranchCond(w).Some? && Overlooked(w, d) && !SelfCompared(w)
    ensures Zeroed(c) && DecidesIn(c, w) != DecidesIn(Exec(env, c, d, pc).cpu, w)
  {
    hide Exec, BranchCond, Holds, DecidesIn, Rs, Rt, MovedOut, SelfCompared, UsesRt;
    var r := Rt(d);
    var x := MovedOut(Lone(r, 0), d);
    var y := Different(BranchCond(w).value, x);
    c := Lone(r, y);
    SameMoved(r, 0, y, d);
    MoveExec(env, c, d, pc);
    forall q: Reg ensures c.gpr[q] == (if q == r then y else 0) { LoneReads(r, y, q); }
    LoneDecides(c, w, r, y);
    LoneDecides(Set(c, r, x), w, r, x);
  }

  lemma SameMoved(r: Reg, x: bv32, y: bv32, d: Word)
    ensures MovedOut(Lone(r, x), d) == MovedOut(Lone(r, y), d)
  {
    hide Rs, Rd, ReadData, ReadCtrl;
  }

  /** A branch that is not flagged is safe in every state if and only if no move out of coprocessor 2 into an
      operand was overlooked, or it compares a register with itself. */
  lemma UnflaggedSafeIff(env: Env, w: Word, d: Word, pc: int)
    requires env.Valid() && BranchCond(w).Some? && Hazards.Writes(d).Some? && !Foreign(d) && !Flagged(w, d)
    ensures SafeInEveryState(env, w, d, pc) <==> !Overlooked(w, d) || SelfCompared(w)
  {
    hide Env.Valid, Exec, Hazards.Writes, Foreign, BranchCond, DecidesIn, SelfCompared, Overlooked, Flagged;
    if !Overlooked(w, d) || SelfCompared(w) {
      forall c: Cpu | Zeroed(c) ensures DecidesIn(c, w) == DecidesIn(Exec(env, c, d, pc).cpu, w) {
        if SelfCompared(w) {
          SelfDecides(c, Exec(env, c, d, pc).cpu, w);
        } else {
          NotFlaggedSafe(env, c, w, d, pc);
        }
      }
    } else {
      var c := OverlookedHarms(env, w, d, pc);
    }
  }

  const BNE_T0_ZERO: Word := 0x1500_0001
  const MFC2_T0: Word := 0x4808_0000

  lemma ExampleFields()
    ensures Opcode(BNE_T0_ZERO) == 0x05 && Rs(BNE_T0_ZERO) == 8 && Rt(BNE_T0_ZERO) == 0
    ensures Opcode(MFC2_T0) == 0x12 && Rs(MFC2_T0) == 0 && Rt(MFC2_T0) == 8 && Rd(MFC2_T0) == 0
  {
  }

  lemma MoveOut(env: Env, c: Cpu, pc: int)
    ensures Exec(env, c, MFC2_T0, pc) == Next(Set(c, 8, c.gte[0]))
  {
    hide Opcode, Rs, Rt, Rd, Set, Exec;
    ExampleFields();
    NotTaken(c, MFC2_T0);
    Cop2Exec(env, c, MFC2_T0, pc);
  }

  /** The write set of coprocessor-2 words is empty, so a move out of coprocessor 2 into the
      branch's own operand is not flagged although it changes the decision. */
  lemma MoveFromGteMissed(env: Env, c: Cpu, pc: int)
    requires Zeroed(c) && c.gpr[8] == 0 && c.gte[0] != 0
    ensures Overlooked(BNE_T0_ZERO, MFC2_T0)
    ensures BranchCond(BNE_T0_ZERO).Some? && Hazards.Writes(MFC2_T0) == Some({}) && !Flagged(BNE_T0_ZERO, MFC2_T0)
    ensures !DecidesIn(c, BNE_T0_ZERO) && DecidesIn(Exec(env, c, MFC2_T0, pc).cpu, BNE_T0_ZERO)
  {
    ExampleFields();
    MoveOut(env, c, pc);
    hide Opcode, Rs, Rt, Rd, Funct, Exec, ReadData, ReadCtrl;
    var c' := Exec(env, c, MFC2_T0, pc).cpu;
    assert c'.gpr[8] == c.gte[0];
    assert BranchSnapshot(BNE_T0_ZERO).Snapshot?;
  }

  // ---- The scan ----

  datatype Status = NotBranch | NoDelay | Hazard | Safe | Unknown

  /** The delay-slot word: as walked, or else fetched from the image. */
  function DelayWord(all: map<int, Word>, rom: Image, a: int): Option<Word> {
    if a + 4 in all then Some(all[a + 4]) else WordAt(rom, a + 4)
  }

  function StatusOf(all: map<int, Word>, rom: Image, a: int): Status
    requires a in all
  {
    if BranchCond(all[a]).None? then NotBranch
    else
      var d := DelayWord(all, rom, a);
      if d.None? then NoDelay
      else if Hazards.Writes(d.value).None? then Unknown
      else if Flagged(all[a], d.value) then Hazard else Safe
  }

  /** The walked words are the words of the image. */
  ghost predicate Fetched(all: map<int, Word>, rom: Image) { forall a :: a in all ==> WordAt(rom, a) == Some(all[a]) }

  /** The word that is judged is the one the machine fetches after the branch. */
  lemma DelayFetched(all: map<int, Word>, rom: Image, a: int)
    requires Fetched(all, rom)
    ensures DelayWord(all, rom, a) == WordAt(rom, a + 4)
  {
    hide WordAt;
  }

  lemma BranchSteps(env: Env, rom: Image, c: Cpu, w: Word, a: int)
    requires WordAt(rom, a) == Some(w) && BranchCond(w).Some?
    ensures var m := Step(env, rom, Running(c, a, a + 4)); m.Running? && m.cpu == c && m.pc == a + 4
  {
    hide WordAt, Wrap, BranchTarget, JumpTarget, Rs, Rt, Opcode, Negative, R, Set, ToBv;
  }

  lemma StepCpu(env: Env, rom: Image, c: Cpu, d: Word, pc: int, npc: int)
    requires WordAt(rom, pc) == Some(d)
    ensures Step(env, rom, Running(c, pc, npc)).cpu == Exec(env, c, d, pc).cpu
  {
    hide WordAt, Exec, Wrap;
  }

  /** A branch that is counted as safe: in every run of the machine it decides the same before its delay slot is
      executed and after, unless the slot is a system call or a move that was overlooked. */
  lemma SafeRuns(env: Env, all: map<int, Word>, rom: Image, a: int, c: Cpu)
    requires env.Valid() && Zeroed(c) && Fetched(all, rom) && a in all && StatusOf(all, rom, a) == Safe
    ensures BranchCond(all[a]).Some? && WordAt(rom, a + 4).Some?
    ensures var w, d := all[a], WordAt(rom, a + 4).value;
            var m := Step(env, rom, Running(c, a, a + 4));
            !Foreign(d) && !Overlooked(w, d) ==> DecidesIn(c, w) == DecidesIn(Step(env, rom, m).cpu, w)
  {
    hide Env.Valid, WordAt, Exec, Hazards.Writes, Foreign, Overlooked, BranchCond, DecidesIn, Flagged, Step;
    DelayFetched(all, rom, a);
    var w, d := all[a], WordAt(rom, a + 4).value;
    BranchSteps(env, rom, c, w, a);
    var m := Step(env, rom, Running(c, a, a + 4));
    StepCpu(env, rom, c, d, a + 4, m.npc);
    if !Foreign(d) && !Overlooked(w, d) { NotFlaggedSafe(env, c, w, d, a + 4); }
  }

  /** The lists and counters of the scan. */
  datatype Tally = Tally(hazards: seq<int>, safe: nat, branches: nat, noDelay: nat)

  datatype Report = Counts(tally: Tally) | UnknownOpcode(at: int)

  function Count(t: Tally, a: int, k: Status): Tally {
    match k
    case NotBranch => t
    case NoDelay => t.(branches := t.branches + 1, noDelay := t.noDelay + 1)
    case Hazard => t.(branches := t.branches + 1, hazards := t.hazards + [a])
    case _ => t.(branches := t.branches + 1, safe := t.safe + 1)
  }

  /** What the scan has counted after the addresses of `order`. */
  ghost predicate Tallied(all: map<int, Word>, rom: Image, order: seq<int>, t: Tally)
    requires forall a :: a in order ==> a in all
  {
    && (forall a :: a in t.hazards <==> a in order && StatusOf(all, rom, a) == Hazard)
    && (forall i, j :: 0 <= i < j < |t.hazards| ==> t.hazards[i] < t.hazards[j])
    && t.safe == |With(all, rom, order, Safe)|
    && t.noDelay == |With(all, rom, order, NoDelay)|
    && t.branches == |t.hazards| + t.safe + t.noDelay
  }

  /** The addresses of a list that have a given status. */
  ghost function With(all: map<int, Word>, rom: Image, order: seq<int>, k: Status): set<int>
    requires forall a :: a in order ==> a in all
  {
    set a | a in order && StatusOf(all, rom, a) == k
  }

  /** The walked addresses that have a given status. */
  ghost function AllWith(all: map<int, Word>, rom: Image, k: Status): set<int> {
    set a | a in all && StatusOf(all, rom, a) == k
  }

  ghost predicate Ascending(s: seq<int>) { forall i, j :: 0 <= i < j < |s| ==> s[i] < s[j] }

  lemma PrefixAscending(s: seq<int>, i: nat)
    requires Ascending(s) && i < |s|
    ensures Ascending(s[..i] + [s[i]])
  {
  }

  lemma WithNext(all: map<int, Word>, rom: Image, order: seq<int>, a: int, k: Status)
    requires a in all && a !in order && forall b :: b in order ==> b in all
    ensures |With(all, rom, order + [a], k)| == |With(all, rom, order, k)| + if StatusOf(all, rom, a) == k then 1 else 0
  {
    hide StatusOf;
    var before := With(all, rom, order, k);
    if StatusOf(all, rom, a) == k {
      assert With(all, rom, order + [a], k) == before + {a};
    } else {
      assert With(all, rom, order + [a], k) == before;
    }
  }

  lemma CountStep(all: map<int, Word>, rom: Image, order: seq<int>, a: int, t: Tally)
    requires a in all && Ascending(order + [a]) && forall b :: b in order ==> b in all
    requires Tallied(all, rom, order, t) && StatusOf(all, rom, a) != Unknown
    ensures Tallied(all, rom, order + [a], Count(t, a, StatusOf(all, rom, a)))
  {
    hide StatusOf, With;
    forall b | b in order ensures b < a {
      var i :| 0 <= i < |order| && order[i] == b;
      assert (order + [a])[i] == b && (order + [a])[|order|] == a;
    }
    WithNext(all, rom, order, a, Safe);
    WithNext(all, rom, order, a, NoDelay);
    forall j | 0 <= j < |t.hazards| ensures t.hazards[j] < a { assert t.hazards[j] in t.hazards; }
  }

  /** The hazard loop. Every branch is accounted for exactly once: as a hazard, as safe, or as one
      without a delay slot; the hazards are listed in ascending order. An instruction whose effect
      is unknown stops the scan at the first branch it follows. */
  method Scan(all: map<int, Word>, rom: Image) returns (r: Report)
    ensures r.Counts? <==> AllWith(all, rom, Unknown) == {}
    ensures r.Counts? ==>
              && (forall a :: a in r.tally.hazards <==> a in all && StatusOf(all, rom, a) == Hazard)
              && Ascending(r.tally.hazards)
              && r.tally.branches == |r.tally.hazards| + r.tally.safe + r.tally.noDelay
              && r.tally.safe == |AllWith(all, rom, Safe)|
              && r.tally.noDelay == |AllWith(all, rom, NoDelay)|
    ensures r.UnknownOpcode? ==> Sorting.IsLeast(AllWith(all, rom, Unknown), r.at)
  {
    hide StatusOf, Tallied, AllWith, Sorting.Sorted;
    var order := Sorting.Sorted(all.Keys);
    assert forall a :: a in order <==> a in all.Keys;
    r := ScanOrder(all, rom, order);
    if r.Counts? {
      TalliedAll(all, rom, order, r.tally);
    }
  }

  /** The loop, over the walked addresses in ascending order. */
  method ScanOrder(all: map<int, Word>, rom: Image, order: seq<int>) returns (r: Report)
    requires Ascending(order) && forall a :: a in order <==> a in all
    ensures r.Counts? <==> AllWith(all, rom, Unknown) == {}
    ensures r.Counts? ==> Tallied(all, rom, order, r.tally)
    ensures r.UnknownOpcode? ==> Sorting.IsLeast(AllWith(all, rom, Unknown), r.at)
  {
    hide StatusOf, Tallied, Count, Ascending, AllWith, Sorting.IsLeast;
    var t := Start(all, rom);
    var i := 0;
    while i < |order|
      invariant 0 <= i <= |order|
      invariant forall a :: a in order[..i] ==> a in all && StatusOf(all, rom, a) != Unknown
      invariant Tallied(all, rom, order[..i], t)
    {
      var addr := order[i];
      assert addr in order;
      assert order[..i + 1] == order[..i] + [addr];
      var k := Judge(all, rom, addr);
      if k == Unknown {
        FirstUnknown(all, rom, order, i);
        return UnknownOpcode(addr);
      }
      PrefixAscending(order, i);
      CountStep(all, rom, order[..i], addr, t);
      t := Count(t, addr, k);
      i := i + 1;
    }
    assert order[..i] == order;
    NoneUnknown(all, rom, order);
    r := Counts(t);
  }

  method Start(all: map<int, Word>, rom: Image) returns (t: Tally)
    ensures Tallied(all, rom, [], t)
  {
    hide StatusOf;
    t := Tally([], 0, 0, 0);
    assert With(all, rom, [], Safe) == {} && With(all, rom, [], NoDelay) == {};
  }

  lemma FirstUnknown(all: map<int, Word>, rom: Image, order: seq<int>, i: nat)
    requires Ascending(order) && (forall a :: a in order <==> a in all) && i < |order|
    requires forall a :: a in order[..i] ==> a in all && StatusOf(all, rom, a) != Unknown
    requires StatusOf(all, rom, order[i]) == Unknown
    ensures Sorting.IsLeast(AllWith(all, rom, Unknown), order[i]) && AllWith(all, rom, Unknown) != {}
  {
    hide StatusOf;
    forall a | a in all && StatusOf(all, rom, a) == Unknown ensures order[i] <= a {
      var j :| 0 <= j < |order| && order[j] == a;
      assert !(j < i) by {
        assert forall k :: 0 <= k < i ==> order[k] in order[..i];
      }
    }
  }

  lemma NoneUnknown(all: map<int, Word>, rom: Image, order: seq<int>)
    requires forall a :: a in order <==> a in all
    requires forall a :: a in order ==> StatusOf(all, rom, a) != Unknown
    ensures AllWith(all, rom, Unknown) == {}
  {
    hide StatusOf;
  }

  lemma TalliedAll(all: map<int, Word>, rom: Image, order: seq<int>, t: Tally)
    requires (forall a :: a in order <==> a in all) && Tallied(all, rom, order, t)
    ensures forall a :: a in t.hazards <==> a in all && StatusOf(all, rom, a) == Hazard
    ensures Ascending(t.hazards) && t.branches == |t.hazards| + t.safe + t.noDelay
    ensures t.safe == |AllWith(all, rom, Safe)|
    ensures t.noDelay == |AllWith(all, rom, NoDelay)|
  {
    hide StatusOf;
    assert With(all, rom, order, Safe) == AllWith(all, rom, Safe);
    assert With(all, rom, order, NoDelay) == AllWith(all, rom, NoDelay);
  }

  /** The body of the loop for one address. */
  method Judge(all: map<int, Word>, rom: Image, addr: int) returns (k: Status)
    requires addr in all
    ensures k == StatusOf(all, rom, addr)
  {
    hide Hazards.Writes, BranchCond, WordAt, Rs, Rt, Opcode;
    var raw := all[addr];
    if BranchCond(raw).None? {
      return NotBranch;
    }
    var delay := if addr + 4 in all then Some(all[addr + 4]) else WordAt(rom, addr + 4);
    if delay.None? {
      return NoDelay;
    }
    var written := Hazards.Writes(delay.value);
    if written.None? {
      return Unknown;
    }
    var flagged := [];
    if Rs(raw) in written.value && Rs(raw) != 0 {
      flagged := flagged + ["rs"];
    }
    if UsesRt(raw) && Rt(raw) in written.value && Rt(raw) != 0 {
      flagged := flagged + ["rt"];
    }
    k := if flagged != [] then Hazard else Safe;
  }
}
