/** The walkers against the machine: wherever the machine can go from a word that was expanded, short of entering
    a called function, was visited. */
module WalkMeaning {
  import opened Mips
  import Isa
  import Flows
  import Boundaries
  import Encoding
  import JumpTables
  import Worklist
  import OverlayWalk
  import InventoryWalk

  type Window = OverlayWalk.Window

  /** A branch that leaves the 32-bit address space, where the tools and the machine disagree. */
  predicate WrapsAround(w: Word, a: int) {
    Classify(a, w).Branch? && (Wrap(BranchTarget(a, w)) != BranchTarget(a, w) || Wrap(a + 8) != a + 8)
  }

  /** The words pushed after an expanded word hold every fetchable address at which the machine continues. */
  lemma PushesMachine(c: Window, env: Isa.Env, cpu: Isa.Cpu, w: Word, a: int, b: int)
    requires OverlayWalk.InFunction(c, b)
    ensures var o, p := Isa.Exec(env, cpu, w, a), OverlayWalk.Pushes(c, a, w);
            && (o.Next? && b == a + 4 ==> b in p)
            && (o.Go? && b == o.pc && Classify(a, w).Jump? ==> b in p)
            && (o.Go? && b == o.pc && Classify(a, w).Branch? && !WrapsAround(w, a) ==> b in p)
            && ((Classify(a, w).Call? || Classify(a, w).CallReg?) && b == a + 8 ==> b in p)
  {
    hide Isa.Exec, OverlayWalk.InFunction, Wrap, BranchTarget, JumpTarget, Opcode, Rs, Rd, Funct, Isa.Set, Isa.R,
         Isa.ToBv, Isa.ToAddr;
    Flows.ClassifyRuns(env, cpu, w, a);
    ClassTargets(a, w);
    hide Classify;
  }

  lemma ClassTargets(a: int, w: Word)
    ensures Classify(a, w).Branch? ==> Classify(a, w).target == BranchTarget(a, w)
    ensures Classify(a, w).Jump? ==> Classify(a, w).target == JumpTarget(a, w)
  {
    hide Opcode, Rs, Funct, BranchTarget, JumpTarget;
  }

  /** Everything the machine can do at an expanded word is followed: the next word, the delay slot, the target of
      a branch or jump, and the return from a call. */
  lemma WalkMachine(c: Window, env: Isa.Env, cpu: Isa.Cpu, a: int, b: int)
    requires a in OverlayWalk.Walked(c).expanded
    ensures a in OverlayWalk.Live(c)
    ensures var w := WordAt(c.img, a).value;
            var o := Isa.Exec(env, cpu, w, a);
            && (o.Go? && OverlayWalk.InFunction(c, a + 4) ==> a + 4 in OverlayWalk.Visited(c))
            && (b in OverlayWalk.Live(c) ==>
                && (o.Next? && b == a + 4 ==> b in OverlayWalk.Visited(c))
                && (o.Go? && b == o.pc && Classify(a, w).Jump? ==> b in OverlayWalk.Visited(c))
                && (o.Go? && b == o.pc && Classify(a, w).Branch? && !WrapsAround(w, a) ==> b in OverlayWalk.Visited(c))
                && ((Classify(a, w).Call? || Classify(a, w).CallReg?) && b == a + 8 ==> b in OverlayWalk.Visited(c)))
  {
    hide Isa.Exec, OverlayWalk.InFunction, OverlayWalk.Visited, OverlayWalk.Walked, OverlayWalk.Pushes, WordAt,
         WrapsAround;
    OverlayWalk.WalkFollows(c, a);
    var w := WordAt(c.img, a).value;
    Flows.ClassifyRuns(env, cpu, w, a);
    hide Classify;
    if b in OverlayWalk.Live(c) {
      OverlayWalk.LiveIff(c, b);
      PushesMachine(c, env, cpu, w, a, b);
    }
  }

  lemma TablePushes(c: Window, a: int, w: Word, rs: Reg, t: int)
    requires Classify(a, w) == JumpReg(rs) && t in JumpTables.Targets(c.img, c.entry, c.cap, a, rs)
    ensures t in OverlayWalk.Pushes(c, a, w) && t in OverlayWalk.BranchTargets(c, a, w)
    ensures t in OverlayWalk.TableTargets(c, a, w)
  {
    hide JumpTables.Targets, Classify;
  }

  /** The targets recovered for an expanded register jump are visited where they can be fetched, and reported as
      branch targets and as case labels. */
  lemma TableWalked(c: Window, a: int, rs: Reg, t: int)
    requires a in OverlayWalk.Walked(c).expanded && a in OverlayWalk.Live(c)
    requires Classify(a, WordAt(c.img, a).value) == JumpReg(rs)
    requires t in JumpTables.Targets(c.img, c.entry, c.cap, a, rs)
    ensures t in OverlayWalk.Live(c) ==> t in OverlayWalk.Visited(c)
    ensures t in OverlayWalk.BranchLabels(c) && t in OverlayWalk.TableLabels(c)
  {
    hide WordAt, Classify, JumpTables.Targets, OverlayWalk.Visited, OverlayWalk.Walked, OverlayWalk.Pushes,
         OverlayWalk.Live, OverlayWalk.BranchTargets, OverlayWalk.TableTargets;
    OverlayWalk.WalkFollows(c, a);
    OverlayWalk.LiveIff(c, a);
    TablePushes(c, a, WordAt(c.img, a).value, rs, t);
    assert a in OverlayWalk.Branches(c) && t in OverlayWalk.Branches(c)[a];
    assert a in OverlayWalk.Tables(c) && t in OverlayWalk.Tables(c)[a];
  }

  /** A switch compiled by a template whose table is recovered right: the case a run takes is walked. */
  lemma SwitchWalked(c: Window, jrPc: int, rs: Reg, lw: JumpTables.Hit, addu: JumpTables.Hit, lui: JumpTables.Hit,
                     fed: Option<JumpTables.Hit>, count: JumpTables.Hit, depth: nat, regs: seq<JumpTables.WordRegs>,
                     mem: int -> Word, i: nat)
    requires jrPc in OverlayWalk.Walked(c).expanded && jrPc in OverlayWalk.Live(c)
    requires Classify(jrPc, WordAt(c.img, jrPc).value) == JumpReg(rs)
    requires JumpTables.Template(c.img, c.entry, jrPc, rs, lw, addu, lui, fed, count) && i < count.f.imm < 512
    requires JumpTables.TemplateRun(c.img, jrPc, rs, lw, addu, lui, fed, depth, regs, mem, i)
    requires JumpTables.Shift(c.img, c.entry, jrPc, addu, fed, count) == 0
    requires var a := JumpTables.TemplateBase(lw, lui, fed) + 4 * i;
             0 <= a < 0x1_0000_0000 && WordAt(c.img, a) == Some(mem(a))
    requires |regs| > 0 && regs[0][rs] in OverlayWalk.Live(c)
    ensures regs[0][rs] in OverlayWalk.Visited(c) && regs[0][rs] in OverlayWalk.TableLabels(c)
  {
    OverlayWalk.LiveIff(c, regs[0][rs]);
    hide WordAt, Classify, JumpTables.Targets, OverlayWalk.Visited, OverlayWalk.Walked, OverlayWalk.TableLabels,
         OverlayWalk.Live, JumpTables.Template, JumpTables.TemplateRun, JumpTables.Shift, JumpTables.TemplateBase;
    JumpTables.TemplateSound(c.img, c.entry, c.cap, jrPc, rs, lw, addu, lui, fed, count, depth, regs, mem, i);
    TableWalked(c, jrPc, rs, regs[0][rs]);
  }

  /** Where a word sends control inside the function, apart from the next word. */
  predicate Sends(c: Window, a: int, w: Word, t: int) {
    OverlayWalk.InFunction(c, t) &&
    match Classify(a, w)
    case Branch(_) => t == a + 8 || t == BranchTarget(a, w)
    case Jump(_) => t == JumpTarget(a, w)
    case Call(_) => t == a + 8
    case CallReg => t == a + 8
    case JumpReg(rs) => t in JumpTables.Targets(c.img, c.entry, c.cap, a, rs)
    case _ => false
  }

  lemma TargetsInside(c: Window, a: int, rs: Reg, t: int)
    requires t in JumpTables.Targets(c.img, c.entry, c.cap, a, rs)
    ensures OverlayWalk.InFunction(c, t)
  {
    hide WordAt, JumpTables.ScanTo, JumpTables.TableBase, JumpTables.InWindow;
  }

  lemma BranchTargetsIff(c: Window, a: int, w: Word, t: int)
    ensures t in OverlayWalk.BranchTargets(c, a, w) <==> Sends(c, a, w, t)
    ensures t in OverlayWalk.TableTargets(c, a, w) <==> Classify(a, w).JumpReg? && Sends(c, a, w, t)
  {
    hide OverlayWalk.InFunction, JumpTables.Targets, BranchTarget, JumpTarget;
    ClassTargets(a, w);
    hide Classify;
    if Classify(a, w).JumpReg? && t in JumpTables.Targets(c.img, c.entry, c.cap, a, Classify(a, w).rs) {
      TargetsInside(c, a, Classify(a, w).rs, t);
    }
  }

  /** The words pushed are exactly those at which control continues: the next word of a plain one, and where the others
      send it. The marked slot is that of a word on which the machine transfers control, or takes for a branch it
      does not know. */
  lemma PushesExact(c: Window, env: Isa.Env, cpu: Isa.Cpu, a: int, w: Word, b: int)
    ensures b in OverlayWalk.Pushes(c, a, w) <==>
            (OverlayWalk.InFunction(c, b) && b == a + 4 && !Boundaries.Transfers(env, cpu, w, a)) || Sends(c, a, w, b)
    ensures b in OverlayWalk.Slot(c, a, w) <==>
            OverlayWalk.InFunction(c, b) && b == a + 4 && Boundaries.Transfers(env, cpu, w, a)
  {
    hide JumpTables.Targets, OverlayWalk.InFunction, BranchTarget, JumpTarget, Opcode, Funct, Rs, Boundaries.Transfers;
    Boundaries.TransfersIff(env, cpu, w, a);
    BranchTargetsIff(c, a, w, b);
  }

  /** The reported branch targets and case labels are exactly where expanded words send control. */
  lemma LabelsIff(c: Window, t: int)
    ensures t in OverlayWalk.BranchLabels(c) <==>
            exists a :: a in OverlayWalk.Walked(c).expanded && a in OverlayWalk.Live(c)
                     && Sends(c, a, WordAt(c.img, a).value, t)
    ensures t in OverlayWalk.TableLabels(c) <==>
            exists a :: a in OverlayWalk.Walked(c).expanded && a in OverlayWalk.Live(c)
                     && Classify(a, WordAt(c.img, a).value).JumpReg? && Sends(c, a, WordAt(c.img, a).value, t)
  {
    hide WordAt, Classify, OverlayWalk.Walked, OverlayWalk.BranchTargets, OverlayWalk.TableTargets, Sends,
         OverlayWalk.InFunction;
    forall a | a in OverlayWalk.Live(c)
      ensures t in OverlayWalk.BranchTargets(c, a, WordAt(c.img, a).value) <==> Sends(c, a, WordAt(c.img, a).value, t)
      ensures t in OverlayWalk.TableTargets(c, a, WordAt(c.img, a).value) <==>
              Classify(a, WordAt(c.img, a).value).JumpReg? && Sends(c, a, WordAt(c.img, a).value, t)
    {
      BranchTargetsIff(c, a, WordAt(c.img, a).value, t);
    }
    if a :| a in OverlayWalk.Walked(c).expanded && a in OverlayWalk.Live(c) && Sends(c, a, WordAt(c.img, a).value, t) {
      assert a in OverlayWalk.Branches(c) && t in OverlayWalk.Branches(c)[a];
    }
    if a :| a in OverlayWalk.Walked(c).expanded && a in OverlayWalk.Live(c)
            && Classify(a, WordAt(c.img, a).value).JumpReg? && Sends(c, a, WordAt(c.img, a).value, t) {
      assert a in OverlayWalk.Tables(c) && t in OverlayWalk.Tables(c)[a];
    }
  }

  /** A call is recorded exactly if an expanded word calls it and it has a boundary in the region. */
  lemma CallsMachine(c: Window, env: Isa.Env, cpu: Isa.Cpu, t: int)
    ensures t in OverlayWalk.DirectJals(c) <==>
            && InRegion(c.img, t) && Callable(c.img, t)
            && exists a :: a in OverlayWalk.Walked(c).expanded && a in OverlayWalk.Live(c)
                        && Opcode(WordAt(c.img, a).value) == 0x03
                        && Isa.Exec(env, cpu, WordAt(c.img, a).value, a)
                           == Isa.Go(Isa.Set(cpu, 31, Isa.ToBv(a + 8)), t)
  {
    hide WordAt, Callable, InRegion, Isa.Exec, Isa.Set, Isa.ToBv, OverlayWalk.Walked, Opcode, JumpTarget, Classify,
         OverlayWalk.InFunction;
    if t in OverlayWalk.DirectJals(c) {
      var a :| a in OverlayWalk.Walked(c).expanded && a in OverlayWalk.Calls(c) && t in OverlayWalk.Calls(c)[a];
      CallExec(env, cpu, WordAt(c.img, a).value, a);
    }
    if a :| a in OverlayWalk.Walked(c).expanded && a in OverlayWalk.Live(c)
            && Opcode(WordAt(c.img, a).value) == 0x03
            && Isa.Exec(env, cpu, WordAt(c.img, a).value, a) == Isa.Go(Isa.Set(cpu, 31, Isa.ToBv(a + 8)), t)
            && InRegion(c.img, t) && Callable(c.img, t) {
      CallExec(env, cpu, WordAt(c.img, a).value, a);
      assert a in OverlayWalk.Calls(c) && t in OverlayWalk.Calls(c)[a];
    }
  }

  lemma CallExec(env: Isa.Env, cpu: Isa.Cpu, w: Word, a: int)
    ensures Classify(a, w).Call? <==> Opcode(w) == 0x03
    ensures Classify(a, w).Call? ==>
              Isa.Exec(env, cpu, w, a) == Isa.Go(Isa.Set(cpu, 31, Isa.ToBv(a + 8)), Classify(a, w).target)
  {
    hide Isa.Exec, Isa.Set, Isa.ToBv, JumpTarget, Rs, Funct;
    Flows.ClassifyRuns(env, cpu, w, a);
  }

  // ---- The inventory's walker ----

  lemma KindRuns(env: Isa.Env, cpu: Isa.Cpu, w: Word, a: int)
    ensures var o := Isa.Exec(env, cpu, w, a);
            match InventoryWalk.KindOf(a, w)
            case FallThrough => !o.Go?
            case CondBranch(t) => !o.Next? && t == BranchTarget(a, w) && (o.Go? ==> o.pc in {Wrap(t), Wrap(a + 8)})
            case GoTo(t) => o == Isa.Go(cpu, t)
            case Linked => o.Go? && Opcode(w) in {0x00, 0x03}
            case Indirect => o == Isa.Go(cpu, Isa.ToAddr(Isa.R(cpu, Rs(w))))
  {
    hide Isa.Exec, Rs, Rt, Rd, Funct, Isa.ToBv, Isa.ToAddr, Wrap, BranchTarget, JumpTarget, Isa.Set, Isa.R, Opcode;
    if Opcode(w) == 0x00 {
      Flows.OpcodeZero(env, cpu, w, a);
    } else {
      Flows.OtherOpcode(env, cpu, w, a);
      Cop2Branch(env, cpu, w, a);
    }
  }

  /** The branches of coprocessor 2 are no words of this machine. */
  lemma Cop2Branch(env: Isa.Env, cpu: Isa.Cpu, w: Word, a: int)
    ensures Opcode(w) == 0x12 && Rs(w) == 0x08 ==> !Isa.Exec(env, cpu, w, a).Next?
  {
    hide Rt, Rd, Funct, Imm, SImm, Isa.ToBv, Isa.Set, Isa.R, Wrap, BranchTarget, JumpTarget, Isa.ReadData, Isa.ReadCtrl,
         Isa.WriteData, Isa.WriteCtrl;
  }

  lemma FinishedInventory(c: Window)
    ensures Worklist.Inv(InventoryWalk.Graph(c), InventoryWalk.Walked(c)) && InventoryWalk.Walked(c).work == []
  {
    Worklist.InitInv(InventoryWalk.Graph(c));
    Worklist.FinishInv(InventoryWalk.Graph(c), Worklist.Init(InventoryWalk.Graph(c)), true);
  }

  lemma InventoryFollows(c: Window, a: int, b: int)
    requires a in InventoryWalk.Walked(c).expanded
    ensures a in InventoryWalk.Live(c)
    ensures b in InventoryWalk.Slot(c, a, WordAt(c.img, a).value) ==> b in InventoryWalk.Walked(c).visited
    ensures b in InventoryWalk.Pushes(c, a, WordAt(c.img, a).value) && b in InventoryWalk.Live(c) ==>
              b in InventoryWalk.Walked(c).visited
  {
    hide WordAt, InventoryWalk.Pushes, InventoryWalk.Slot, InventoryWalk.Live, Worklist.Finish;
    var g, s := InventoryWalk.Graph(c), InventoryWalk.Walked(c);
    FinishedInventory(c);
    Worklist.WalkSound(g, s);
    Worklist.GatherAdd(g.slots, s.expanded, a);
    assert s.expanded + {a} == s.expanded;
  }

  lemma InventoryPushes(c: Window, env: Isa.Env, cpu: Isa.Cpu, w: Word, a: int, b: int)
    requires c.entry <= b < c.cap
    ensures var o, k, p := Isa.Exec(env, cpu, w, a), InventoryWalk.KindOf(a, w), InventoryWalk.Pushes(c, a, w);
            && (o.Next? && b == a + 4 ==> b in p)
            && (o.Go? && b == o.pc && k.GoTo? ==> b in p)
            && (o.Go? && b == o.pc && k.CondBranch? && b in {BranchTarget(a, w), a + 8} ==> b in p)
            && (k.Linked? && b == a + 8 ==> b in p)
  {
    hide Isa.Exec, Wrap, BranchTarget, JumpTarget, Opcode, Rs, Funct, Isa.ToAddr, Isa.R;
    KindRuns(env, cpu, w, a);
    hide InventoryWalk.KindOf;
  }

  /** The inventory's walker follows the machine too; it leaves register jumps alone. */
  lemma InventoryMachine(c: Window, env: Isa.Env, cpu: Isa.Cpu, a: int, b: int)
    requires a in InventoryWalk.Walked(c).expanded && b in InventoryWalk.Live(c)
    ensures a in InventoryWalk.Live(c)
    ensures var w := WordAt(c.img, a).value;
            var o, k := Isa.Exec(env, cpu, w, a), InventoryWalk.KindOf(a, w);
            var seen := b in InventoryWalk.Walked(c).visited;
            && (o.Next? && b == a + 4 ==> seen)
            && (o.Go? && b == a + 4 ==> seen)
            && (o.Go? && b == o.pc && k.GoTo? ==> seen)
            && (o.Go? && b == o.pc && k.CondBranch? && b in {BranchTarget(a, w), a + 8} ==> seen)
            && (k.Linked? && b == a + 8 ==> seen)
  {
    hide WordAt, Isa.Exec, InventoryWalk.Walked, InventoryWalk.Pushes, BranchTarget, Opcode, Rs, Isa.ToAddr, Isa.R;
    InventoryFollows(c, a, b);
    var w := WordAt(c.img, a).value;
    KindRuns(env, cpu, w, a);
    InventoryPushes(c, env, cpu, w, a, b);
    hide InventoryWalk.KindOf;
  }

  /** A branch on a coprocessor condition is followed like any other branch with its offset. */
  lemma CoprocessorBranch(op: Encoding.Op, a: int, rs: Reg, rt: Reg, imm: Imm16)
    requires op in {0x11, 0x12}
    ensures InventoryWalk.KindOf(a, Encoding.IType(op, 0x08, rt, imm)) ==
            InventoryWalk.KindOf(a, Encoding.IType(0x04, rs, rt, imm))
  {
    hide Encoding.IType, Opcode, Rs, Rt, Funct, Imm;
    Encoding.IFields(op, 0x08, rt, imm);
    Encoding.IFields(0x04, rs, rt, imm);
  }
}
