/** Conditions on the words and the registers under which register jumps and calls mean the MIPS slice. */
module StaticEndings {
  import opened Mips
  import opened Isa
  import opened Translator
  import opened SliceWalker
  import opened SliceMeaning
  import opened IndirectEndings
  import opened LinkOrder
  import Hazards
  import HazardScan

  /** JR: right whenever the delay slot cannot change the jump register. */
  lemma JrSafe(env: Env, rom: Image, s: CState, w: Word, d: Word, pc: int)
    requires env.Valid() && Zeroed(s.cpu) && WordAt(rom, pc) == Some(w) && WordAt(rom, pc + 4) == Some(d)
    requires Translate(w, pc).Terminator? && Translate(w, pc).kind == Jr && Translate(d, pc + 4).Plain?
             && Right(s.cpu, d)
    requires Hazards.Writes(d).Some? && !HazardScan.Foreign(d) && Rs(w) !in HazardScan.Changed(d)
    ensures Agree(RunAll(env, s, Ending(pc, w, d)), Steps(env, rom, Running(s.cpu, pc, pc + 4), 2))
  {
    hide Env.Valid, WordAt, Translate, Right, Exec, RunAll, Steps, Ending, Rs, Hazards.Writes, HazardScan.Foreign,
         HazardScan.Changed, Agree;
    JrEndingIff(env, rom, s, w, d, pc);
    HazardScan.WriteSetSound(env, s.cpu, d, pc + 4);
  }

  // ---- Calls ----

  /** A slice that ends in a terminator of the given kind with a plain delay slot. */
  ghost predicate Case(env: Env, rom: Image, s: CState, w: Word, d: Word, pc: int, kind: Kind) {
    && env.Valid() && Zeroed(s.cpu) && WordAt(rom, pc) == Some(w) && WordAt(rom, pc + 4) == Some(d)
    && Translate(w, pc).Terminator? && Translate(w, pc).kind == kind && Translate(d, pc + 4).Plain? && Right(s.cpu, d)
  }

  ghost predicate JalCase(env: Env, rom: Image, s: CState, w: Word, d: Word, pc: int) {
    Case(env, rom, s, w, d, pc, Jal)
  }

  /** The emitted end of the slice agrees with the machine. */
  ghost predicate EndsRight(env: Env, rom: Image, s: CState, w: Word, d: Word, pc: int)
    requires Translate(w, pc).Terminator? && Translate(d, pc + 4).Plain?
  {
    Agree(RunAll(env, s, Ending(pc, w, d)), Steps(env, rom, Running(s.cpu, pc, pc + 4), 2))
  }

  /** The delay slot as the emitted code runs it, from the incoming state. */
  function After(env: Env, c: Cpu, d: Word, pc: int): Outcome { Exec(env, c, d, pc + 4) }

  /** The delay slot as the machine runs it, from the state in which register q was linked. */
  function Before(env: Env, c: Cpu, d: Word, pc: int, q: Reg): Outcome {
    Exec(env, Set(c, q, ToBv(pc + 8)), d, pc + 4)
  }

  /** JAL with any delay slot but SYSCALL: right if and only if the slot completes in both orders, leaves HI, LO,
      memory, read history and coprocessors the same and puts the same in the register it writes, which for the
      link register is the return address; or the slot traps and the return address was already there. */
  lemma JalExactIff(env: Env, rom: Image, s: CState, w: Word, d: Word, pc: int)
    requires JalCase(env, rom, s, w, d, pc) && !HazardScan.Foreign(d)
    ensures Hazards.Writes(d).Some?
    ensures var before, after := Before(env, s.cpu, d, pc, 31), After(env, s.cpu, d, pc);
            EndsRight(env, rom, s, w, d, pc) <==>
            if after.Next? then
              && before.Next? && SameAside(before.cpu, after.cpu)
              && SameTargets(d, before.cpu, after.cpu, 31, ToBv(pc + 8))
            else s.cpu.gpr[31] == ToBv(pc + 8)
  {
    hide Env.Valid, WordAt, Translate, Right, Exec, RunAll, Steps, Ending, Agree, ToBv, Set, HazardScan.Foreign,
         LinkCommutes, SameAside, SameTargets, Hazards.Writes;
    JalOrder(env, rom, s, w, d, pc);
    OrderIff(env, s.cpu, d, pc + 4, 31, ToBv(pc + 8));
  }

  /** JAL with a delay slot that does not use the link register: right if and only if the slot completes
      and the machine itself leaves the return address in the link register, or the slot traps and the
      return address was already there. */
  lemma JalIff(env: Env, rom: Image, s: CState, w: Word, d: Word, pc: int)
    requires JalCase(env, rom, s, w, d, pc) && 31 !in Reads(d) && !HazardScan.Foreign(d)
    ensures EndsRight(env, rom, s, w, d, pc) <==>
            (if After(env, s.cpu, d, pc).Next? then Before(env, s.cpu, d, pc, 31).cpu.gpr[31] else s.cpu.gpr[31])
            == ToBv(pc + 8)
  {
    hide Env.Valid, WordAt, Translate, Right, Exec, RunAll, Steps, Ending, Agree, ToBv, Set, HazardScan.Foreign,
         Reads, LinkCommutes;
    JalOrder(env, rom, s, w, d, pc);
    UnreadIff(env, s.cpu, d, pc + 4, 31, ToBv(pc + 8));
  }

  /** JAL: right whenever the delay slot completes and neither uses nor changes the link register. */
  lemma JalSafe(env: Env, rom: Image, s: CState, w: Word, d: Word, pc: int)
    requires JalCase(env, rom, s, w, d, pc) && 31 !in Reads(d) && !HazardScan.Foreign(d)
    requires Hazards.Writes(d).Some? && 31 !in HazardScan.Changed(d) && After(env, s.cpu, d, pc).Next?
    ensures EndsRight(env, rom, s, w, d, pc)
  {
    hide Env.Valid, Exec, ToBv, Reads, Hazards.Writes, HazardScan.Foreign, HazardScan.Changed, EndsRight, Set, WordAt,
         Translate, Right;
    JalIff(env, rom, s, w, d, pc);
    HazardScan.WriteSetSound(env, Set(s.cpu, 31, ToBv(pc + 8)), d, pc + 4);
    SetReads(s.cpu, 31, ToBv(pc + 8), 31);
  }

  /** JAL with arithmetic in its delay slot: right if and only if the slot completes in both orders and its target
      gets the same value, or the return address if it is the link register; or the slot traps and the return
      address was already there. */
  lemma JalArithmeticIff(env: Env, rom: Image, s: CState, w: Word, d: Word, pc: int)
    requires JalCase(env, rom, s, w, d, pc) && Arithmetic(d)
    ensures var before, after := Before(env, s.cpu, d, pc, 31), After(env, s.cpu, d, pc);
            var r := Target(d);
            EndsRight(env, rom, s, w, d, pc) <==>
            if after.Next? then
              before.Next? && (r == 0 || before.cpu.gpr[r] == if r == 31 then ToBv(pc + 8) else after.cpu.gpr[r])
            else s.cpu.gpr[31] == ToBv(pc + 8)
  {
    hide Env.Valid, WordAt, Translate, Right, Exec, RunAll, Steps, Ending, Agree, ToBv, Set, LinkCommutes, Arithmetic,
         Target;
    JalOrder(env, rom, s, w, d, pc);
    ArithmeticIff(env, s.cpu, d, pc + 4, 31, ToBv(pc + 8));
  }

  /** JAL with a copy of the link register, or a move of it to HI, LO or the system coprocessor, in its delay slot:
      right if and only if it already held the return address. */
  lemma JalCopiedIff(env: Env, rom: Image, s: CState, w: Word, d: Word, pc: int)
    requires JalCase(env, rom, s, w, d, pc) && (Copies(d, 31) || HandsOver(d, 31))
    ensures EndsRight(env, rom, s, w, d, pc) <==> s.cpu.gpr[31] == ToBv(pc + 8)
  {
    hide Env.Valid, WordAt, Translate, Right, Exec, RunAll, Steps, Ending, Agree, ToBv, LinkCommutes, Copies, HandsOver;
    JalOrder(env, rom, s, w, d, pc);
    if Copies(d, 31) {
      CopiedIff(env, s.cpu, d, pc + 4, 31, ToBv(pc + 8));
    } else {
      HandedIff(env, s.cpu, d, pc + 4, 31, ToBv(pc + 8));
    }
  }

  /** JAL with a load at the link register in its delay slot: right if and only if the link register already held
      the return address and the load traps or leaves it there. */
  lemma JalLoadIff(env: Env, rom: Image, s: CState, w: Word, d: Word, pc: int)
    requires JalCase(env, rom, s, w, d, pc) && Loads(d) && Rs(d) == 31
    ensures var after := After(env, s.cpu, d, pc);
            EndsRight(env, rom, s, w, d, pc) <==>
            s.cpu.gpr[31] == ToBv(pc + 8) && (after.Trap? || after.cpu.gpr[31] == ToBv(pc + 8))
  {
    hide Env.Valid, WordAt, Translate, Right, Exec, RunAll, Steps, Ending, Agree, ToBv, LinkCommutes, Loads, Rs;
    JalOrder(env, rom, s, w, d, pc);
    LoadIff(env, s.cpu, d, pc + 4, 31, ToBv(pc + 8));
  }

  /** JAL with LWL or LWR in its delay slot: right if and only if both orders read the same word and give the
      target the same value, or the return address if it is the link register. */
  lemma JalMergeIff(env: Env, rom: Image, s: CState, w: Word, d: Word, pc: int)
    requires JalCase(env, rom, s, w, d, pc) && Merges(d)
    ensures var before, after := Before(env, s.cpu, d, pc, 31).cpu, After(env, s.cpu, d, pc).cpu;
            var l, f := Set(s.cpu, 31, ToBv(pc + 8)), Decode(d);
            EndsRight(env, rom, s, w, d, pc) <==>
            && Aligned(Address(l, f)) == Aligned(Address(s.cpu, f))
            && (f.rt == 0 || before.gpr[f.rt] == if f.rt == 31 then ToBv(pc + 8) else after.gpr[f.rt])
  {
    hide Env.Valid, WordAt, Translate, Right, Exec, RunAll, Steps, Ending, Agree, ToBv, LinkCommutes, Merges, Rs, Rt,
         Opcode, Aligned, Address, Set;
    JalOrder(env, rom, s, w, d, pc);
    MergeIff(env, s.cpu, d, pc + 4, 31, ToBv(pc + 8));
  }

  /** JAL with a store in its delay slot, at the link register or of it: right if and only if the store completes
      in both orders and leaves the same memory, or traps and the return address was already there. */
  lemma JalStoreIff(env: Env, rom: Image, s: CState, w: Word, d: Word, pc: int)
    requires JalCase(env, rom, s, w, d, pc) && Stores(d)
    ensures var before, after := Before(env, s.cpu, d, pc, 31), After(env, s.cpu, d, pc);
            EndsRight(env, rom, s, w, d, pc) <==>
            if after.Next? then before.Next? && before.cpu.mem == after.cpu.mem else s.cpu.gpr[31] == ToBv(pc + 8)
  {
    hide Env.Valid, WordAt, Translate, Right, Exec, RunAll, Steps, Ending, Agree, ToBv, LinkCommutes, Stores, Set;
    JalOrder(env, rom, s, w, d, pc);
    StoreIff(env, s.cpu, d, pc + 4, 31, ToBv(pc + 8));
  }

  /** For SW the memories are the same exactly if both addresses are multiples of 4 and either name one word and
      the same value is stored, or each word holds already what would be stored there. */
  lemma JalStoreWordIff(env: Env, rom: Image, s: CState, w: Word, d: Word, pc: int)
    requires JalCase(env, rom, s, w, d, pc) && Opcode(d) == 0x2B
    ensures var c, l, f := s.cpu, Set(s.cpu, 31, ToBv(pc + 8)), Decode(d);
            var a, b, v, x := Address(c, f), Address(l, f), R(c, f.rt), R(l, f.rt);
            EndsRight(env, rom, s, w, d, pc) <==>
            if Misaligned(a, 4) then c.gpr[31] == ToBv(pc + 8)
            else
              && !Misaligned(b, 4)
              && if Aligned(a) == Aligned(b) then v == x else HoldsWord(c.mem, a, v) && HoldsWord(c.mem, b, x)
  {
    hide Env.Valid, WordAt, Translate, Right, Exec, RunAll, Steps, Ending, Agree, ToBv, LinkCommutes, Rs, Rt, Opcode,
         Aligned, Address, Set, Misaligned, HoldsWord, R;
    JalOrder(env, rom, s, w, d, pc);
    StoreWordIff(env, s.cpu, d, pc + 4, 31, ToBv(pc + 8));
  }

  /** Saving the link register in the delay slot of the call, `sw $ra, k(base)`: right if and only if the
      register already held the return address, for the emitted code saves its old value. */
  lemma SavedLinkIff(env: Env, rom: Image, s: CState, w: Word, d: Word, pc: int)
    requires JalCase(env, rom, s, w, d, pc) && Opcode(d) == 0x2B && Rt(d) == 31 && Rs(d) != 31
    ensures EndsRight(env, rom, s, w, d, pc) <==> s.cpu.gpr[31] == ToBv(pc + 8)
  {
    hide Env.Valid, WordAt, Translate, Right, RunAll, Steps, Ending, Agree, ToBv, EndsRight, Rs, Rt, Opcode, Aligned,
         Set, Misaligned, HoldsWord, AddW, JalCase;
    JalStoreWordIff(env, rom, s, w, d, pc);
    SetReads(s.cpu, 31, ToBv(pc + 8), 31);
    SetReads(s.cpu, 31, ToBv(pc + 8), Rs(d));
  }

  /** Where the link register already holds the return address: right, for every delay slot, if and only
      if the slot traps or leaves it there. */
  lemma JalAgainIff(env: Env, rom: Image, s: CState, w: Word, d: Word, pc: int)
    requires JalCase(env, rom, s, w, d, pc) && s.cpu.gpr[31] == ToBv(pc + 8)
    ensures EndsRight(env, rom, s, w, d, pc) <==>
            After(env, s.cpu, d, pc).Trap? || After(env, s.cpu, d, pc).cpu.gpr[31] == ToBv(pc + 8)
  {
    hide Env.Valid, WordAt, Translate, Right, Exec, RunAll, Steps, Ending, Agree, ToBv, LinkCommutes;
    JalOrder(env, rom, s, w, d, pc);
    HeldIff(env, s.cpu, d, pc + 4, 31);
  }

  /** A delay slot that adjusts the return address is lost: after `jal` with `addiu $ra, $ra, k` in
      its slot, the emitted code returns to the unadjusted address, in every state. */
  lemma AdjustedLinkLost(env: Env, rom: Image, s: CState, w: Word, d: Word, pc: int)
    requires JalCase(env, rom, s, w, d, pc)
    requires Opcode(d) == 0x09 && Rs(d) == 31 && Rt(d) == 31 && ToBv(SImm(d)) != 0
    ensures !EndsRight(env, rom, s, w, d, pc)
  {
    hide Exec, Opcode, Rs, Rt, Rd, SImm, ToBv, AddW, EndsRight, Set, Env.Valid, WordAt, Translate, Right;
    var link := ToBv(pc + 8);
    var l := Set(s.cpu, 31, link);
    JalArithmeticIff(env, rom, s, w, d, pc);
    AddiuExec(env, s.cpu, d, pc + 4);
    AddiuExec(env, l, d, pc + 4);
    SetReads(s.cpu, 31, link, 31);
    SetReads(l, 31, AddW(link, ToBv(SImm(d))), 31);
    SumMoves(link, ToBv(SImm(d)));
  }

  lemma CallTranslates(w: Word, pc: int)
    requires Opcode(w) == 0x03
    ensures Translate(w, pc).Terminator? && Translate(w, pc).kind == Jal
  {
    hide Rs, Rt, Rd, Funct, ToBv, JumpTarget;
    assert Opcode(0) == 0;
    hide Opcode;
  }

  /** `jal` with `addiu $ra, $ra, -8` in its delay slot is a case, and wrong in every state. */
  lemma JalLinksLate(env: Env, s: CState) returns (rom: Image)
    requires env.Valid() && Zeroed(s.cpu)
    ensures JalCase(env, rom, s, 0x0C00_0004, 0x27FF_FFF8, 0x8000_0000)
    ensures !EndsRight(env, rom, s, 0x0C00_0004, 0x27FF_FFF8, 0x8000_0000)
  {
    hide WordAt, Opcode, Rs, Rt, SImm, Env.Valid, ToBv, Flatten, Translate, Right, Faithful, EndsRight;
    var jal: Word, addiu: Word := 0x0C00_0004, 0x27FF_FFF8;
    JalFields();
    rom := PairOf(jal, addiu);
    CallTranslates(jal, 0x8000_0000);
    ImmediatePlain(addiu, 0x8000_0004);
    FaithfulIsRight(s.cpu, addiu);
    AdjustedLinkLost(env, rom, s, jal, addiu, 0x8000_0000);
  }

  /** `jal` with `addiu $s0, $ra, 0`, a copy, in its delay slot is a case, and wrong wherever the link register did
      not hold the return address. */
  lemma JalCopiesStale(env: Env, s: CState) returns (rom: Image)
    requires env.Valid() && Zeroed(s.cpu) && s.cpu.gpr[31] != ToBv(0x8000_0008)
    ensures JalCase(env, rom, s, 0x0C00_0004, 0x27F0_0000, 0x8000_0000)
    ensures !EndsRight(env, rom, s, 0x0C00_0004, 0x27F0_0000, 0x8000_0000)
  {
    hide WordAt, Opcode, Rs, Rt, Rd, Funct, SImm, Env.Valid, ToBv, Flatten, Translate, Right, Faithful, EndsRight;
    var jal: Word, copy: Word := 0x0C00_0004, 0x27F0_0000;
    JalFields();
    rom := PairOf(jal, copy);
    CallTranslates(jal, 0x8000_0000);
    ImmediatePlain(copy, 0x8000_0004);
    FaithfulIsRight(s.cpu, copy);
    JalCopiedIff(env, rom, s, jal, copy, 0x8000_0000);
  }

  lemma JalFields()
    ensures Opcode(0x0C00_0004) == 0x03
    ensures Opcode(0x27FF_FFF8) == 0x09 && Rs(0x27FF_FFF8) == 31 && Rt(0x27FF_FFF8) == 31
    ensures ToBv(SImm(0x27FF_FFF8)) != 0
    ensures Opcode(0x27F0_0000) == 0x09 && Rs(0x27F0_0000) == 31 && Rt(0x27F0_0000) == 16
  {
    assert SImm(0x27FF_FFF8) == -8;
  }

  lemma PairOf(w: Word, d: Word) returns (rom: Image)
    ensures WordAt(rom, 0x8000_0000) == Some(w) && WordAt(rom, 0x8000_0004) == Some(d)
  {
    hide WordAt, Flatten;
    var words := [w, d];
    rom := ImageOf(words, 0x8000_0000);
    ImageWord(words, 0x8000_0000, 0);
    ImageWord(words, 0x8000_0000, 1);
  }

  // ---- Calls through a register ----

  /** What the tail of a JALR reads as the jump address is what it was: the register was not changed by the delay
      slot, or it is the link register and held the return address. */
  predicate JumpKept(c: Cpu, after: Cpu, w: Word, link: bv32) {
    if Rd(w) == Rs(w) && Rd(w) != 0 then c.gpr[Rs(w)] == link else R(after, Rs(w)) == R(c, Rs(w))
  }

  lemma JumpKeptIff(c: Cpu, after: Cpu, w: Word, link: bv32)
    ensures R(Set(after, Rd(w), link), Rs(w)) == R(c, Rs(w)) <==> JumpKept(c, after, w, link)
  {
    hide Rd, Rs;
  }

  /** JALR with any delay slot but SYSCALL: as for JAL with the link register it names, and the jump register,
      which is read last, must be kept. */
  lemma JalrExactIff(env: Env, rom: Image, s: CState, w: Word, d: Word, pc: int)
    requires Case(env, rom, s, w, d, pc, Jalr) && !HazardScan.Foreign(d)
    ensures Hazards.Writes(d).Some?
    ensures var before, after := Before(env, s.cpu, d, pc, Rd(w)), After(env, s.cpu, d, pc);
            EndsRight(env, rom, s, w, d, pc) <==>
            if after.Next? then
              && before.Next? && SameAside(before.cpu, after.cpu)
              && SameTargets(d, before.cpu, after.cpu, Rd(w), ToBv(pc + 8))
              && JumpKept(s.cpu, after.cpu, w, ToBv(pc + 8))
            else Rd(w) == 0 || s.cpu.gpr[Rd(w)] == ToBv(pc + 8)
  {
    hide Env.Valid, WordAt, Translate, Right, Exec, RunAll, Steps, Ending, Agree, ToBv, Set, HazardScan.Foreign,
         LinkCommutes, SameAside, SameTargets, Hazards.Writes, Rd, Rs, R, JumpKept;
    JalrOrder(env, rom, s, w, d, pc);
    OrderIff(env, s.cpu, d, pc + 4, Rd(w), ToBv(pc + 8));
    JumpKeptIff(s.cpu, After(env, s.cpu, d, pc).cpu, w, ToBv(pc + 8));
  }

  /** JALR with a delay slot that does not use its link register: right if and only if the slot completes, the
      machine leaves the return address in the link register and the jump register is kept; or the slot traps and
      the return address was already there. */
  lemma JalrIff(env: Env, rom: Image, s: CState, w: Word, d: Word, pc: int)
    requires Case(env, rom, s, w, d, pc, Jalr) && Rd(w) !in Reads(d) && !HazardScan.Foreign(d)
    ensures var before, after := Before(env, s.cpu, d, pc, Rd(w)), After(env, s.cpu, d, pc);
            EndsRight(env, rom, s, w, d, pc) <==>
            if after.Next? then
              (Rd(w) == 0 || before.cpu.gpr[Rd(w)] == ToBv(pc + 8)) && JumpKept(s.cpu, after.cpu, w, ToBv(pc + 8))
            else Rd(w) == 0 || s.cpu.gpr[Rd(w)] == ToBv(pc + 8)
  {
    hide Env.Valid, WordAt, Translate, Right, Exec, RunAll, Steps, Ending, Agree, ToBv, Set, HazardScan.Foreign,
         LinkCommutes, Rd, Rs, R, JumpKept, Reads;
    JalrOrder(env, rom, s, w, d, pc);
    UnreadIff(env, s.cpu, d, pc + 4, Rd(w), ToBv(pc + 8));
    JumpKeptIff(s.cpu, After(env, s.cpu, d, pc).cpu, w, ToBv(pc + 8));
  }

  /** JALR: right whenever link and jump register differ and the delay slot completes, does not use the link
      register and changes neither. */
  lemma JalrSafe(env: Env, rom: Image, s: CState, w: Word, d: Word, pc: int)
    requires Case(env, rom, s, w, d, pc, Jalr) && Rd(w) !in Reads(d) && !HazardScan.Foreign(d) && Rd(w) != Rs(w)
    requires Hazards.Writes(d).Some? && Rd(w) !in HazardScan.Changed(d) && Rs(w) !in HazardScan.Changed(d)
    requires After(env, s.cpu, d, pc).Next?
    ensures EndsRight(env, rom, s, w, d, pc)
  {
    hide Env.Valid, Exec, ToBv, Reads, Hazards.Writes, HazardScan.Foreign, HazardScan.Changed, EndsRight, Set, WordAt,
         Translate, Right, Rd, Rs;
    JalrIff(env, rom, s, w, d, pc);
    HazardScan.WriteSetSound(env, Set(s.cpu, Rd(w), ToBv(pc + 8)), d, pc + 4);
    HazardScan.WriteSetSound(env, s.cpu, d, pc + 4);
    SetReads(s.cpu, Rd(w), ToBv(pc + 8), Rd(w));
  }

  /** A JALR that links the register it jumps to goes to its own return address: wrong, whatever the delay slot,
      unless the register already named that address. */
  lemma JalrOverItself(env: Env, rom: Image, s: CState, w: Word, d: Word, pc: int)
    requires Case(env, rom, s, w, d, pc, Jalr) && !HazardScan.Foreign(d)
    requires Rd(w) == Rs(w) != 0 && s.cpu.gpr[Rs(w)] != ToBv(pc + 8)
    ensures !EndsRight(env, rom, s, w, d, pc)
  {
    hide Env.Valid, WordAt, Translate, Right, Exec, ToBv, Set, HazardScan.Foreign, SameAside, SameTargets,
         Hazards.Writes, Rd, Rs, EndsRight;
    JalrExactIff(env, rom, s, w, d, pc);
  }

  lemma JalrTranslates(w: Word, pc: int)
    requires Opcode(w) == 0x00 && Funct(w) == 0x09
    ensures Translate(w, pc).Terminator? && Translate(w, pc).kind == Jalr
  {
    assert Funct(0) == 0;
    hide Rs, Rt, Rd, ToBv, Shamt, Opcode, Funct;
  }

  lemma JalrFields()
    ensures Opcode(0x0100_4009) == 0x00 && Funct(0x0100_4009) == 0x09 && Rs(0x0100_4009) == 8 && Rd(0x0100_4009) == 8
  {
  }

  lemma NopPlain(c: Cpu, pc: int)
    ensures Translate(0, pc) == Plain(Comment) && Right(c, 0) && !HazardScan.Foreign(0)
  {
    assert Opcode(0) == 0 && Funct(0) == 0;
  }

  /** `jalr $t0, $t0` with `nop` in its delay slot. */
  lemma JalrJumpsBack(env: Env, s: CState) returns (rom: Image)
    requires env.Valid() && Zeroed(s.cpu) && s.cpu.gpr[8] != ToBv(0x8000_0008)
    ensures Case(env, rom, s, 0x0100_4009, 0, 0x8000_0000, Jalr)
    ensures !EndsRight(env, rom, s, 0x0100_4009, 0, 0x8000_0000)
  {
    hide WordAt, Opcode, Rs, Rd, Funct, Env.Valid, ToBv, Translate, Right, EndsRight, HazardScan.Foreign;
    JalrFields();
    rom := PairOf(0x0100_4009, 0);
    JalrTranslates(0x0100_4009, 0x8000_0000);
    NopPlain(s.cpu, 0x8000_0004);
    JalrOverItself(env, rom, s, 0x0100_4009, 0, 0x8000_0000);
  }
}
