/** The emitted slice means the MIPS slice: running the C statements gives the registers, the memory
    and the next address of the machine with delay slots. */
module SliceMeaning {
  import opened Mips
  import opened Isa
  import opened Translator
  import opened SliceWalker

  function RunAll(env: Env, s: CState, es: seq<Emitted>): COutcome
    decreases |es|
  {
    if es == [] then Fall(s)
    else
      var o := RunC(env, s, es[0].code);
      if o.Fall? then RunAll(env, o.s, es[1..]) else o
  }

  /** The translated code left the way the machine stands. */
  predicate Agree(o: COutcome, m: Machine) {
    match o
    case Exit(c, pc) => m == Running(c, pc, Wrap(pc + 4))
    case Fault(c, cause) => m == Halted(c, cause)
    case _ => false
  }

  // ---- Straight-line words ----

  function Lift(s: CState, o: Outcome): COutcome {
    match o
    case Next(c) => Fall(s.(cpu := c))
    case Go(c, pc) => Exit(c, pc)
    case Trap(c, cause) => Fault(c, cause)
  }

  predicate IsPlainCode(t: CStmt) {
    !t.Snapshot? && !t.BranchTail? && !t.JumpTail? && !t.RfeTail?
  }

  lemma PlainCode(w: Word, pc: int)
    requires Translate(w, pc).Plain?
    ensures IsPlainCode(Translate(w, pc).code)
  {
    hide Opcode, Rs, Rt, Rd, Funct, ToBv, Shamt, Wrap, BranchTarget, JumpTarget;
  }

  lemma PlainRun(env: Env, s: CState, t: CStmt)
    requires IsPlainCode(t)
    ensures RunC(env, s, t) == Lift(s, RunPlain(env, s.cpu, t)) && !RunPlain(env, s.cpu, t).Go?
  {
    hide Eval, RunMul, RunDiv, RunDivu, RunLoadLeft, RunLoadRight, RunStoreLeft, RunStoreRight, SInt, Misaligned,
         LoadByte, LoadHalf, StoreByte, StoreHalf, WriteWord, ReadWord, Logged, SignExtend8, SignExtend16, AddW;
  }

  lemma SetKeepsZero(c: Cpu)
    requires Zeroed(c)
    ensures forall r: Reg, v: bv32 :: Zeroed(Set(c, r, v))
  {
  }

  lemma MulDivKeepRegs(c: Cpu, a: bv32, b: bv32)
    ensures Divide(c, a, b).gpr == DivideUnsigned(c, a, b).gpr == c.gpr
    ensures Multiply(c, a, b).gpr == MultiplyUnsigned(c, a, b).gpr == c.gpr
  {
  }

  lemma EnvKeepsZero(env: Env, c: Cpu, pc: int)
    requires env.Valid() && Zeroed(c)
    ensures Zeroed(env.syscall(c, pc).0)
  {
  }

  lemma SpecialKeepsZero(env: Env, c: Cpu, w: Word, pc: int)
    requires env.Valid() && Zeroed(c)
    ensures Zeroed(ExecSpecial(env, c, w, pc).cpu)
  {
    hide Env.Valid, Decode, Set, ToBv, Shamt, AddOverflows, SubOverflows, Divide, DivideUnsigned, Multiply,
         MultiplyUnsigned, AddW, SubW, AndW, OrW, XorW, NotW, LessW, Shl, Shr, Sra, SignedLess, Flag;
    var f := Decode(w);
    SetKeepsZero(c);
    MulDivKeepRegs(c, R(c, f.rs), R(c, f.rt));
    EnvKeepsZero(env, c, pc);
  }

  lemma ImmediateKeepsZero(c: Cpu, w: Word)
    requires Zeroed(c)
    ensures Zeroed(ExecImmediate(c, w).cpu)
  {
    SetKeepsZero(c);
    hide Decode, Set, ToBv, AddOverflows, AddW, SubW, AndW, OrW, XorW, NotW, LessW, Shl, Shr, Sra, SignedLess, Flag;
  }

  lemma LoadKeepsZero(c: Cpu, w: Word, pc: int)
    requires Zeroed(c)
    ensures Zeroed(ExecLoad(c, w, pc).cpu)
  {
    var a := Address(c, Decode(w));
    LaneBound(a);
    SetKeepsZero(Logged(c, a, 1));
    SetKeepsZero(Logged(c, a, 2));
    SetKeepsZero(Logged(c, a, 4));
    SetKeepsZero(Logged(c, Aligned(a), 4));
    hide Decode, Set, Logged, Address, Misaligned, Aligned, Lane, LoadByte, LoadHalf, ReadWord, SignExtend8,
         SignExtend16, MergeLeft, MergeRight;
  }

  lemma StoreKeepsZero(c: Cpu, w: Word, pc: int)
    requires Zeroed(c)
    ensures Zeroed(ExecStore(c, w, pc).cpu)
  {
    LaneBound(Address(c, Decode(w)));
    hide Decode, Address, Misaligned, Lane, StoreByte, StoreHalf, WriteWord, ReadWord, SpillLeft, SpillRight;
  }

  lemma Cop0KeepsZero(c: Cpu, w: Word)
    requires Zeroed(c)
    ensures Zeroed(ExecCop0(c, w).cpu)
  {
    SetKeepsZero(c);
    hide Decode, Set, PopStatus;
  }

  lemma Cop2KeepsZero(env: Env, c: Cpu, w: Word, pc: int)
    requires Zeroed(c)
    ensures Zeroed(ExecCop2(env, c, w).cpu) && Zeroed(ExecCop2Memory(c, w, pc).cpu)
  {
    SetKeepsZero(c);
    hide Decode, Set, ReadData, ReadCtrl, Settle, SettleCtrl, Put, PutCtrl, Address, Misaligned, ReadWord, WriteWord;
  }

  /** No instruction stores to register 0. */
  lemma ExecKeepsZero(env: Env, c: Cpu, w: Word, pc: int)
    requires env.Valid() && Zeroed(c)
    ensures Zeroed(Exec(env, c, w, pc).cpu)
  {
    hide Env.Valid, ExecSpecial, ExecImmediate, ExecLoad, ExecStore, ExecCop0, ExecCop2, ExecCop2Memory, Set, ToBv,
         Wrap, Taken, BranchTarget, JumpTarget, Opcode;
    SpecialKeepsZero(env, c, w, pc);
    ImmediateKeepsZero(c, w);
    LoadKeepsZero(c, w, pc);
    StoreKeepsZero(c, w, pc);
    Cop0KeepsZero(c, w);
    Cop2KeepsZero(env, c, w, pc);
    SetKeepsZero(c);
    EnvKeepsZero(env, c, pc);
  }

  /** One straight-line word: the emitted statement and one machine step agree. */
  lemma PlainStep(env: Env, rom: Image, s: CState, w: Word, pc: int, npc: int)
    requires env.Valid() && Zeroed(s.cpu) && WordAt(rom, pc) == Some(w) && Translate(w, pc).Plain? && Right(s.cpu, w)
    ensures var o := RunPlain(env, s.cpu, Translate(w, pc).code);
            && RunC(env, s, Translate(w, pc).code) == Lift(s, o) && !o.Go? && Zeroed(o.cpu)
            && Step(env, rom, Running(s.cpu, pc, npc)) ==
                 if o.Next? then Running(o.cpu, npc, Wrap(npc + 4)) else Halted(o.cpu, o.cause)
  {
    hide Env.Valid, WordAt, Translate, RunPlain, RunC, Exec, Wrap, Right;
    PlainCode(w, pc);
    PlainRun(env, s, Translate(w, pc).code);
    PlainAgrees(env, s.cpu, w, pc);
    ExecKeepsZero(env, s.cpu, w, pc);
  }

  // ---- The end of a slice ----

  /** A terminator whose meaning does not depend on what its delay slot does to the registers. */
  predicate Settled(k: Kind) { k == CondBranch || k == J }

  lemma SnapshotValues(c: Cpu, w: Word)
    requires Zeroed(c)
    ensures BranchSnapshot(w).Snapshot? && Eval(c, BranchSnapshot(w).brA) == R(c, Rs(w))
    ensures Eval(c, BranchSnapshot(w).brB) == if Opcode(w) in {0x04, 0x05} then R(c, Rt(w)) else 0
  {
    hide Rs, Rt, Opcode, R;
    EvalReg(c, Rs(w));
    EvalReg(c, Rt(w));
  }

  lemma CondAgrees(c: Cpu, w: Word)
    requires Zeroed(c) && BranchCond(w).Some?
    ensures Taken(c, w).Some?
    ensures BranchSnapshot(w).Snapshot?
    ensures Holds(BranchCond(w).value, Eval(c, BranchSnapshot(w).brA), Eval(c, BranchSnapshot(w).brB)) ==
            Taken(c, w).value
  {
    hide Rs, Rt, Opcode, SLess32, Negative, Eval, BranchSnapshot, R;
    SnapshotValues(c, w);
    SignTests(R(c, Rs(w)));
  }

  lemma SignTests(a: bv32)
    ensures SLess32(a, 0) == Negative(a)
    ensures SLess32(0, a) == !(Negative(a) || a == 0)
  {
  }

  /** The decision taken from the snapshot is the decision of the machine. */
  lemma BranchDecides(env: Env, s: CState, w: Word, pc: int)
    requires Zeroed(s.cpu) && Translate(w, pc).Terminator? && Translate(w, pc).kind == CondBranch
    ensures var t := Translate(w, pc);
            && t.pre.Some? && t.tail.BranchTail?
            && exists s' :: RunC(env, s, t.pre.value) == Fall(s') && s'.cpu == s.cpu
                         && Exec(env, s.cpu, w, pc) ==
                              Go(s.cpu, if Holds(t.tail.cond, s'.brA, s'.brB) then t.tail.target
                                  else t.tail.fallthrough)
  {
    CondKind(w, pc);
    CondAgrees(s.cpu, w);
    hide Opcode, Rs, Rt, Wrap, BranchTarget, Taken, BranchCond, BranchSnapshot, Eval, Holds;
    var p := BranchSnapshot(w);
    assert RunC(env, s, p) == Fall(s.(brA := Eval(s.cpu, p.brA), brB := Eval(s.cpu, p.brB)));
  }

  lemma CondKind(w: Word, pc: int)
    requires Translate(w, pc).Terminator? && Translate(w, pc).kind == CondBranch
    ensures w != 0 && Opcode(w) != 0 && BranchCond(w).Some?
    ensures Translate(w, pc) == Terminator(CondBranch, Some(BranchSnapshot(w)),
                                           BranchTail(BranchCond(w).value, Wrap(BranchTarget(pc, w)), Wrap(pc + 8)))
  {
    hide Rs, Rt, Rd, Funct, ToBv, Shamt, Wrap, BranchTarget, JumpTarget, BranchCond, BranchSnapshot;
  }

  lemma JKind(w: Word, pc: int)
    requires Translate(w, pc).Terminator? && Translate(w, pc).kind == J
    ensures Opcode(w) == 0x02 && BranchCond(w).None?
            && Translate(w, pc) == Terminator(J, None, JumpTail(None, Fixed(JumpTarget(pc, w))))
  {
    hide Rs, Rt, Rd, Funct, ToBv, Shamt, Wrap, BranchTarget, JumpTarget, BranchSnapshot;
  }

  lemma JExec(env: Env, c: Cpu, w: Word, pc: int)
    requires Opcode(w) == 0x02
    ensures Exec(env, c, w, pc) == Go(c, JumpTarget(pc, w))
  {
    hide Rs, Rt, JumpTarget;
  }

  /** The end of a slice: snapshot, delay slot and tail agree with two machine steps, whatever the
      delay slot writes. */
  lemma EndingAgrees(env: Env, rom: Image, s: CState, w: Word, d: Word, pc: int)
    requires env.Valid() && Zeroed(s.cpu) && WordAt(rom, pc) == Some(w) && WordAt(rom, pc + 4) == Some(d)
    requires Translate(w, pc).Terminator? && Translate(d, pc + 4).Plain? && Right(s.cpu, d)
             && Settled(Translate(w, pc).kind)
    ensures Agree(RunAll(env, s, Ending(pc, w, d)), Steps(env, rom, Running(s.cpu, pc, pc + 4), 2))
  {
    var t, dt := Translate(w, pc), Translate(d, pc + 4);
    hide Env.Valid, WordAt, Right, Wrap, Exec, RunPlain, Holds, Eval;
    if t.kind == CondBranch {
      BranchDecides(env, s, w, pc);
      var s1 :| RunC(env, s, t.pre.value) == Fall(s1) && s1.cpu == s.cpu
             && Exec(env, s.cpu, w, pc) ==
                 Go(s.cpu, if Holds(t.tail.cond, s1.brA, s1.brB) then t.tail.target else t.tail.fallthrough);
      var next := if Holds(t.tail.cond, s1.brA, s1.brB) then t.tail.target else t.tail.fallthrough;
      BranchEnding(env, rom, s, s1, w, d, pc, next);
    } else {
      JKind(w, pc);
      JExec(env, s.cpu, w, pc);
      JumpEnding(env, rom, s, w, d, pc);
    }
  }

  lemma TwoSteps(env: Env, rom: Image, c: Cpu, w: Word, pc: int, c': Cpu, next: int)
    requires WordAt(rom, pc) == Some(w) && Exec(env, c, w, pc) == Go(c', next)
    ensures Steps(env, rom, Running(c, pc, pc + 4), 2) == Step(env, rom, Running(c', pc + 4, next))
  {
    hide WordAt, Exec;
    var m1 := Step(env, rom, Running(c, pc, pc + 4));
    assert m1 == Running(c', pc + 4, next);
    assert Steps(env, rom, m1, 1) == Steps(env, rom, Step(env, rom, m1), 0);
  }

  lemma RunCons(env: Env, s: CState, e: Emitted, rest: seq<Emitted>)
    ensures var o := RunC(env, s, e.code);
            RunAll(env, s, [e] + rest) == if o.Fall? then RunAll(env, o.s, rest) else o
  {
    hide RunC;
    assert ([e] + rest)[1..] == rest;
  }

  lemma RunOne(env: Env, s: CState, e: Emitted)
    ensures RunAll(env, s, [e]) == RunC(env, s, e.code)
  {
    RunCons(env, s, e, []);
    assert [e] + [] == [e];
    hide RunC;
  }

  /** A tail that leaves for `next` whatever the delay slot did. */
  ghost predicate LeavesFor(env: Env, s: CState, tail: CStmt, next: int) {
    forall c: Cpu :: RunC(env, s.(cpu := c), tail) == Exit(c, next)
  }

  lemma DelayThenTail(env: Env, rom: Image, s: CState, d: Word, pc: int, tail: Emitted, next: int)
    requires env.Valid() && Zeroed(s.cpu) && WordAt(rom, pc) == Some(d) && Translate(d, pc).Plain? && Right(s.cpu, d)
    requires LeavesFor(env, s, tail.code, next)
    ensures Agree(RunAll(env, s, [Emitted(pc, d, Translate(d, pc).code), tail]),
            Step(env, rom, Running(s.cpu, pc, next)))
  {
    hide Env.Valid, WordAt, Translate, Right, Wrap, Exec, RunPlain, RunC, Step, RunAll;
    var a := Emitted(pc, d, Translate(d, pc).code);
    PlainStep(env, rom, s, d, pc, next);
    RunCons(env, s, a, [tail]);
    assert [a] + [tail] == [a, tail];
    var o := RunPlain(env, s.cpu, Translate(d, pc).code);
    if o.Next? {
      RunOne(env, s.(cpu := o.cpu), tail);
      assert RunC(env, s.(cpu := o.cpu), tail.code) == Exit(o.cpu, next);
    }
  }

  lemma BranchEnding(env: Env, rom: Image, s: CState, s1: CState, w: Word, d: Word, pc: int, next: int)
    requires env.Valid() && Zeroed(s.cpu) && WordAt(rom, pc) == Some(w) && WordAt(rom, pc + 4) == Some(d)
    requires Translate(w, pc).Terminator? && Translate(d, pc + 4).Plain? && Right(s.cpu, d)
    requires var t := Translate(w, pc);
             && t.pre.Some? && t.tail.BranchTail? && RunC(env, s, t.pre.value) == Fall(s1) && s1.cpu == s.cpu
             && next == (if Holds(t.tail.cond, s1.brA, s1.brB) then t.tail.target else t.tail.fallthrough)
             && Exec(env, s.cpu, w, pc) == Go(s.cpu, next)
    ensures Agree(RunAll(env, s, Ending(pc, w, d)), Steps(env, rom, Running(s.cpu, pc, pc + 4), 2))
  {
    hide Env.Valid, WordAt, Translate, Right, Exec, RunPlain, Step, Steps, RunAll, Agree, Holds;
    var t, dt := Translate(w, pc), Translate(d, pc + 4);
    var e, a, b := Emitted(pc, w, t.pre.value), Emitted(pc + 4, d, dt.code), Emitted(pc, w, t.tail);
    assert LeavesFor(env, s1, b.code, next);
    hide RunC, LeavesFor;
    TwoSteps(env, rom, s.cpu, w, pc, s.cpu, next);
    assert Ending(pc, w, d) == [e] + [a, b];
    RunCons(env, s, e, [a, b]);
    DelayThenTail(env, rom, s1, d, pc + 4, b, next);
  }

  lemma JumpEnding(env: Env, rom: Image, s: CState, w: Word, d: Word, pc: int)
    requires env.Valid() && Zeroed(s.cpu) && WordAt(rom, pc) == Some(w) && WordAt(rom, pc + 4) == Some(d)
    requires Translate(d, pc + 4).Plain? && Right(s.cpu, d)
    requires Translate(w, pc) == Terminator(J, None, JumpTail(None, Fixed(JumpTarget(pc, w))))
    requires Exec(env, s.cpu, w, pc) == Go(s.cpu, JumpTarget(pc, w))
    ensures Agree(RunAll(env, s, Ending(pc, w, d)), Steps(env, rom, Running(s.cpu, pc, pc + 4), 2))
  {
    hide Env.Valid, WordAt, Translate, Right, Exec, RunPlain, Step, Steps, RunAll, Agree, JumpTarget;
    var t, dt, next := Translate(w, pc), Translate(d, pc + 4), JumpTarget(pc, w);
    var a, b := Emitted(pc + 4, d, dt.code), Emitted(pc, w, t.tail);
    assert LeavesFor(env, s, b.code, next);
    hide RunC, LeavesFor;
    TwoSteps(env, rom, s.cpu, w, pc, s.cpu, next);
    assert Ending(pc, w, d) == [a, b];
    DelayThenTail(env, rom, s, d, pc + 4, b, next);
  }

  // ---- Whole slices ----

  /** The machine steps a slice stands for: its statements, not counting the snapshot. */
  function Length(r: Result): int
    requires r.Slice?
  {
    |r.emitted| - (if r.reason == Ended(CondBranch) then 1 else 0)
  }

  /** Each word of the list meets its own condition in the state the run reaches it in. */
  ghost predicate RightRun(env: Env, s: CState, es: seq<Emitted>)
    decreases |es|
  {
    es != [] ==>
      && Right(s.cpu, es[0].raw)
      && var o := RunC(env, s, es[0].code);
         o.Fall? ==> RightRun(env, o.s, es[1..])
  }

  ghost predicate AllFaithful(es: seq<Emitted>) {
    forall i :: 0 <= i < |es| ==> Faithful(es[i].raw)
  }

  /** A list of faithful words meets the conditions from every state. */
  lemma {:induction false} FaithfulRun(env: Env, s: CState, es: seq<Emitted>)
    requires AllFaithful(es)
    ensures RightRun(env, s, es)
    decreases |es|
  {
    hide Faithful, Right, RunC;
    if es != [] {
      FaithfulIsRight(s.cpu, es[0].raw);
      var o := RunC(env, s, es[0].code);
      if o.Fall? { FaithfulRun(env, o.s, es[1..]); }
    }
  }

  lemma RightCons(env: Env, s: CState, e: Emitted, rest: seq<Emitted>)
    requires RightRun(env, s, [e] + rest)
    ensures Right(s.cpu, e.raw)
    ensures var o := RunC(env, s, e.code); o.Fall? ==> RightRun(env, o.s, rest)
  {
    hide Right, RunC;
    assert ([e] + rest)[1..] == rest;
  }

  lemma PushedWord(rom: Image, pc: int)
    requires ActionAt(rom, pc).Pushed?
    ensures var e := ActionAt(rom, pc).e;
            InRom(rom, pc) && WordAt(rom, pc) == Some(e.raw) && Translate(e.raw, pc) == Plain(e.code) && e.address == pc
  {
    if InRom(rom, pc) { RomWord(rom, pc); }
    hide Translate, WordAt;
  }

  lemma FinishedWords(rom: Image, pc: int)
    requires ActionAt(rom, pc).Finished?
    ensures var a := ActionAt(rom, pc);
            && InRom(rom, pc) && InRom(rom, pc + 4) && WordAt(rom, pc).Some? && WordAt(rom, pc + 4).Some?
            && var w, d := WordAt(rom, pc).value, WordAt(rom, pc + 4).value;
               && Translate(w, pc).Terminator? && Translate(d, pc + 4).Plain?
               && a.kind == Translate(w, pc).kind && a.es == Ending(pc, w, d)
  {
    if InRom(rom, pc) { RomWord(rom, pc); }
    if InRom(rom, pc + 4) { RomWord(rom, pc + 4); }
    hide Translate, WordAt;
  }

  lemma EndingShape(pc: int, w: Word, d: Word)
    requires Translate(w, pc).Terminator? && Translate(d, pc + 4).Plain? && Settled(Translate(w, pc).kind)
    ensures |Ending(pc, w, d)| == if Translate(w, pc).kind == CondBranch then 3 else 2
  {
    if Translate(w, pc).kind == CondBranch { CondKind(w, pc); } else { JKind(w, pc); }
    hide Translate;
  }

  lemma EndingRight(env: Env, s: CState, w: Word, d: Word, pc: int)
    requires Translate(w, pc).Terminator? && Translate(d, pc + 4).Plain? && Settled(Translate(w, pc).kind)
    requires RightRun(env, s, Ending(pc, w, d))
    ensures Right(s.cpu, d)
  {
    hide Right, RightRun, Eval, RunPlain;
    var t, dt := Translate(w, pc), Translate(d, pc + 4);
    var a, b := Emitted(pc + 4, d, dt.code), Emitted(pc, w, t.tail);
    if t.kind == CondBranch {
      CondKind(w, pc);
      var e := Emitted(pc, w, t.pre.value);
      hide Translate;
      assert Ending(pc, w, d) == [e] + [a, b];
      RightCons(env, s, e, [a, b]);
      SnapshotFalls(env, s, w);
      assert [a] + [b] == [a, b];
      RightCons(env, RunC(env, s, e.code).s, a, [b]);
    } else {
      JKind(w, pc);
      hide Translate;
      assert Ending(pc, w, d) == [a] + [b];
      RightCons(env, s, a, [b]);
    }
  }

  lemma SnapshotFalls(env: Env, s: CState, w: Word)
    ensures RunC(env, s, BranchSnapshot(w)).Fall? && RunC(env, s, BranchSnapshot(w)).s.cpu == s.cpu
  {
    hide Eval, Decode;
  }

  lemma {:induction false} HaltedStays(env: Env, rom: Image, m: Machine, n: nat)
    requires m.Halted?
    ensures Steps(env, rom, m, n) == m
  {
    if n > 0 { HaltedStays(env, rom, m, n - 1); }
  }

  /** One emitted statement in front: if the rest agrees after it, the whole agrees. */
  lemma ConsAgrees(env: Env, rom: Image, s: CState, e: Emitted, rest: seq<Emitted>, pc: int, n: nat)
    requires env.Valid() && Zeroed(s.cpu) && WordAt(rom, pc) == Some(e.raw) && Translate(e.raw, pc) == Plain(e.code)
             && Right(s.cpu, e.raw)
    requires var o := RunPlain(env, s.cpu, e.code);
             o.Next? ==> Agree(RunAll(env, s.(cpu := o.cpu), rest),
                 Steps(env, rom, Running(o.cpu, pc + 4, Wrap(pc + 8)), n))
    ensures Agree(RunAll(env, s, [e] + rest), Steps(env, rom, Running(s.cpu, pc, pc + 4), n + 1))
  {
    hide Env.Valid, WordAt, Translate, Right, Wrap, Exec, RunPlain, RunC, Step, RunAll;
    PlainStep(env, rom, s, e.raw, pc, pc + 4);
    RunCons(env, s, e, rest);
    var m := Step(env, rom, Running(s.cpu, pc, pc + 4));
    assert Steps(env, rom, Running(s.cpu, pc, pc + 4), n + 1) == Steps(env, rom, m, n);
    if m.Halted? { HaltedStays(env, rom, m, n); }
  }

  lemma SliceInRom(rom: Image, pc: int, end: int)
    requires From(rom, pc, end).Slice? && From(rom, pc, end).reason.Ended?
    ensures pc < end && InRom(rom, pc)
  {
    hide Translate, WordAt;
  }

  /** The slice starts with a straight-line word: the walk continues behind it. */
  lemma SlicePushed(rom: Image, pc: int, end: int)
    requires From(rom, pc, end).Slice? && From(rom, pc, end).reason.Ended? && From(rom, pc, end).ok
             && ActionAt(rom, pc).Pushed?
    ensures var r, rest := From(rom, pc, end), From(rom, pc + 4, end);
            && rest.Slice? && rest.ok && rest.reason == r.reason && r.emitted == [ActionAt(rom, pc).e] + rest.emitted
  {
    hide ActionAt;
  }

  lemma SliceFinished(rom: Image, pc: int, end: int)
    requires pc < end && ActionAt(rom, pc).Finished?
    ensures From(rom, pc, end) == Slice(true, ActionAt(rom, pc).es, [], Ended(ActionAt(rom, pc).kind), pc + 4)
  {
    hide ActionAt;
  }

  lemma SliceCases(rom: Image, pc: int, end: int)
    requires From(rom, pc, end).Slice? && From(rom, pc, end).reason.Ended? && From(rom, pc, end).ok
    ensures pc < end && (ActionAt(rom, pc).Pushed? || ActionAt(rom, pc).Finished?)
  {
    hide ActionAt;
  }

  /** A slice from pc that walks clean and ends in a conditional branch or a jump. */
  ghost predicate GoodSlice(rom: Image, pc: int, end: int) {
    var r := From(rom, pc, end);
    r.Slice? && r.ok && r.reason.Ended? && Settled(r.reason.kind)
  }

  ghost predicate Means(env: Env, rom: Image, pc: int, end: int, s: CState)
    requires From(rom, pc, end).Slice?
  {
    var r := From(rom, pc, end);
    Length(r) >= 2 && Agree(RunAll(env, s, r.emitted), Steps(env, rom, Running(s.cpu, pc, pc + 4), Length(r)))
  }

  lemma {:induction false} RestLength(rom: Image, pc: int, end: int)
    requires GoodSlice(rom, pc, end)
    ensures Length(From(rom, pc, end)) >= 2
    decreases end - pc
  {
    hide WordAt, Translate, From, ActionAt, Ending;
    SliceCases(rom, pc, end);
    if ActionAt(rom, pc).Finished? {
      SliceFinished(rom, pc, end);
      FinishedWords(rom, pc);
      EndingShape(pc, WordAt(rom, pc).value, WordAt(rom, pc + 4).value);
    } else {
      SlicePushed(rom, pc, end);
      RestLength(rom, pc + 4, end);
    }
  }

  lemma FinishedMeans(env: Env, rom: Image, pc: int, end: int, s: CState)
    requires env.Valid() && Zeroed(s.cpu) && GoodSlice(rom, pc, end) && pc < end && ActionAt(rom, pc).Finished?
    requires RightRun(env, s, From(rom, pc, end).emitted)
    ensures Means(env, rom, pc, end, s)
  {
    hide Env.Valid, WordAt, Translate, Right, RightRun, RunAll, Steps, Agree, From, ActionAt, Ending;
    SliceFinished(rom, pc, end);
    FinishedWords(rom, pc);
    var w, d := WordAt(rom, pc).value, WordAt(rom, pc + 4).value;
    EndingShape(pc, w, d);
    EndingRight(env, s, w, d, pc);
    EndingAgrees(env, rom, s, w, d, pc);
  }

  /** From every state in which each word meets its own condition as it is reached, the emitted
      statements, run in order, leave with the registers, memory, read history and next address of the
      delay-slot machine, or stop at the same trap in the same state. */
  lemma {:induction false} SliceMeans(env: Env, rom: Image, pc: int, end: int, s: CState)
    requires env.Valid() && Zeroed(s.cpu) && End(rom) < 0x1_0000_0000 && GoodSlice(rom, pc, end)
    requires RightRun(env, s, From(rom, pc, end).emitted)
    ensures Means(env, rom, pc, end, s)
    decreases end - pc
  {
    hide Env.Valid, WordAt, Translate, Right, RightRun, RunC, RunPlain, Step, Agree, RunAll, Steps, From, ActionAt;
    SliceCases(rom, pc, end);
    if ActionAt(rom, pc).Finished? {
      FinishedMeans(env, rom, pc, end, s);
    } else {
      var e, rest := ActionAt(rom, pc).e, From(rom, pc + 4, end);
      SlicePushed(rom, pc, end);
      PushedWord(rom, pc);
      RightCons(env, s, e, rest.emitted);
      SliceInRom(rom, pc + 4, end);
      var o := RunPlain(env, s.cpu, e.code);
      PlainStep(env, rom, s, e.raw, pc, pc + 4);
      if o.Next? {
        SliceMeans(env, rom, pc + 4, end, s.(cpu := o.cpu));
      }
      RestLength(rom, pc + 4, end);
      ConsAgrees(env, rom, s, e, rest.emitted, pc, Length(rest));
    }
  }

  /** A slice without the words that have a condition means the MIPS slice from every state. */
  lemma FaithfulSliceMeans(env: Env, rom: Image, pc: int, end: int, s: CState)
    requires env.Valid() && Zeroed(s.cpu) && End(rom) < 0x1_0000_0000
    requires GoodSlice(rom, pc, end) && AllFaithful(From(rom, pc, end).emitted)
    ensures Means(env, rom, pc, end, s)
  {
    hide Env.Valid, AllFaithful, RightRun, Means, From;
    FaithfulRun(env, s, From(rom, pc, end).emitted);
    SliceMeans(env, rom, pc, end, s);
  }

  // ---- Slices the theorem is about ----

  lemma ImmediatePlain(d: Word, pc: int)
    requires 0x08 <= Opcode(d) <= 0x0F
    ensures Translate(d, pc).Plain? && Faithful(d)
  {
    hide Rs, Rt, Rd, Funct, ToBv, Wrap, BranchTarget, JumpTarget;
  }

  lemma BranchTerminates(w: Word, pc: int)
    requires BranchCond(w).Some?
    ensures Translate(w, pc).Terminator? && Translate(w, pc).kind == CondBranch && Faithful(w)
  {
    hide Rs, Rt, Rd, Funct, ToBv, Wrap, BranchTarget, JumpTarget, BranchSnapshot;
  }

  /** A branch with immediate arithmetic in its delay slot is such a slice, also where the delay slot
      overwrites an operand of the branch. */
  lemma BranchSlice(rom: Image, pc: int, end: int)
    requires pc < end && InRom(rom, pc) && InRom(rom, pc + 4) && WordAt(rom, pc).Some? && WordAt(rom, pc + 4).Some?
    requires BranchCond(WordAt(rom, pc).value).Some? && 0x08 <= Opcode(WordAt(rom, pc + 4).value) <= 0x0F
    ensures GoodSlice(rom, pc, end) && AllFaithful(From(rom, pc, end).emitted)
  {
    hide WordAt, Translate, Faithful, BranchCond, Opcode;
    BranchTerminates(WordAt(rom, pc).value, pc);
    ImmediatePlain(WordAt(rom, pc + 4).value, pc + 4);
  }

  /** The hazard the BIOS contains: bne $t2, $t3 with addi $t2, $t2, 128 in its delay slot. */
  lemma BiosHazard() returns (rom: Image)
    ensures WordAt(rom, 0xBFC0_0270) == Some(0x154B_FFF7) && WordAt(rom, 0xBFC0_0274) == Some(0x214A_0080)
    ensures Rs(0x154B_FFF7) == Rt(0x214A_0080) == 10
    ensures End(rom) < 0x1_0000_0000 && GoodSlice(rom, 0xBFC0_0270, 0xBFC0_0278)
    ensures AllFaithful(From(rom, 0xBFC0_0270, 0xBFC0_0278).emitted)
  {
    var w: Word, d: Word := 0x154B_FFF7, 0x214A_0080;
    assert Opcode(w) == 0x05 && Opcode(d) == 0x08 && Rs(w) == 10 && Rt(d) == 10;
    hide WordAt, GoodSlice, AllFaithful, From, Opcode, Rs, Rt;
    var words := [w, d];
    rom := ImageOf(words, 0xBFC0_0270);
    ImageWord(words, 0xBFC0_0270, 0);
    ImageWord(words, 0xBFC0_0270, 1);
    BranchSlice(rom, 0xBFC0_0270, 0xBFC0_0278);
  }
}
