/** The strict translator: each MIPS word becomes one of a fixed set of C templates, or is refused.
    A template stands for the C text the translator formats; `RunC` gives the meaning of that text.
    Signed C arithmetic wraps at 32 bits, and a signed right shift copies the sign. */
module Translator {
  import opened Mips
  import opened Isa
  import Binary

  datatype COp = Plus | Minus | BitAnd | BitOr | BitXor | ShiftL | ShiftR | ShiftRS | LessS | LessU

  datatype CExpr =
    | Gpr(r: Reg) | HiReg | LoReg | Cop0(r: Reg) | Lit(v: bv32)
    | Data(r: Reg) | DataBy(r: Reg) | Ctrl(r: Reg) | CtrlBy(r: Reg)
    | Bin(op: COp, a: CExpr, b: CExpr)
    | Invert(a: CExpr)

  datatype Cond = IfEq | IfNe | IfLez | IfGtz | IfLtz | IfGez

  datatype Dest = Fixed(pc: int) | ByReg(r: Reg)

  /** Statements on coprocessor 2: plain array assignments, or calls of the runtime's helpers. */
  datatype Cop2Stmt =
    | SetData(reg: Reg, e: CExpr) | SetDataBy(reg: Reg, e: CExpr)
    | SetCtrl(reg: Reg, e: CExpr) | SetCtrlBy(reg: Reg, e: CExpr)
    | GteLoad(reg: Reg, addr: CExpr) | GteLoadBy(reg: Reg, addr: CExpr) | GteStore(addr: CExpr, value: CExpr)
    | GteCommand(command: int)

  datatype CStmt =
    | Comment
    | Assign(dst: Reg, e: CExpr)
    | AssignHi(e: CExpr) | AssignLo(e: CExpr) | AssignCop0(reg: Reg, e: CExpr)
    | CheckedAdd(dst: Reg, a: CExpr, b: CExpr)
    | MulBlock(a: CExpr, b: CExpr) | DivBlock(a: CExpr, b: CExpr) | DivuBlock(a: CExpr, b: CExpr)
    | LoadBlock(dst: Reg, width: int, signed: bool, addr: CExpr, at: int)
    | LoadLeft(dst: Reg, addr: CExpr) | LoadRight(dst: Reg, addr: CExpr)
    | StoreBlock(width: int, addr: CExpr, value: CExpr, at: int)
    | StoreLeft(addr: CExpr, value: CExpr) | StoreRight(addr: CExpr, value: CExpr)
    | SyscallBlock(at: int) | BreakBlock(code: int, at: int)
    | Cop2(s: Cop2Stmt)
    | Snapshot(brA: CExpr, brB: CExpr)
    | BranchTail(cond: Cond, target: int, fallthrough: int)
    | JumpTail(link: Option<(Reg, bv32)>, dest: Dest)
    | RfeTail

  // ---- The meaning of the C text ----

  predicate SLess32(x: bv32, y: bv32) {
    SInt(x) < SInt(y)
  }

  function EvalOp(op: COp, x: bv32, y: bv32): bv32 {
    match op
    case Plus => AddW(x, y)
    case Minus => SubW(x, y)
    case BitAnd => AndW(x, y)
    case BitOr => OrW(x, y)
    case BitXor => XorW(x, y)
    case ShiftL => Shl(x, y)
    case ShiftR => Shr(x, y)
    case ShiftRS => Sra(x, y)
    case LessS => Flag(SLess32(x, y))
    case LessU => Flag(LessW(x, y))
  }

  function Eval(c: Cpu, e: CExpr): bv32 {
    match e
    case Gpr(r) => c.gpr[r]
    case HiReg => c.hi
    case LoReg => c.lo
    case Cop0(r) => c.cop0[r]
    case Lit(v) => v
    case Data(r) => c.gte[r]
    case DataBy(r) => ReadData(c.gte, r)
    case Ctrl(r) => c.ctrl[r]
    case CtrlBy(r) => ReadCtrl(c.ctrl, r)
    case Bin(op, a, b) => EvalOp(op, Eval(c, a), Eval(c, b))
    case Invert(a) => NotW(Eval(c, a))
  }

  /** The C locals that survive a statement are the two branch snapshots. */
  datatype CState = CState(cpu: Cpu, brA: bv32, brB: bv32)

  datatype COutcome = Fall(s: CState) | Exit(cpu: Cpu, pc: int) | Fault(cpu: Cpu, cause: Cause) | ExitStale(cpu: Cpu)

  function Assigned(c: Cpu, dst: Reg, v: bv32): Cpu { c.(gpr := c.gpr[dst := v]) }

  /** A plain assignment into the array of data registers. */
  function Stored(c: Cpu, reg: Reg, v: bv32): Cpu { if Computed(reg) then c else c.(gte := c.gte[reg := v]) }

  /** The sum is formed in 64 bits; what is stored is its low half. The check runs even when the
      destination is register 0. */
  function RunCheckedAdd(c: Cpu, dst: Reg, x: bv32, y: bv32): Outcome {
    var r := SInt(x) + SInt(y);
    if r < -0x8000_0000 || r > 0x7FFF_FFFF then Trap(c, Overflow)
    else Next(if dst == 0 then c else Assigned(c, dst, AddW(x, y)))
  }

  /** C division truncates toward zero. */
  function TruncDiv(n: int, d: int): int
    requires d != 0
  {
    if n >= 0 then (if d > 0 then n / d else -(n / -d)) else (if d > 0 then -(-n / d) else -n / -d)
  }

  function RunDiv(c: Cpu, x: bv32, y: bv32): Cpu {
    var n, d := SInt(x), SInt(y);
    if d == 0 then c.(lo := if n >= 0 then 0xFFFF_FFFF else 1, hi := x)
    else if n == -0x8000_0000 && d == -1 then c.(lo := ToBv(0x8000_0000), hi := ToBv(0))
    else
      var q := TruncDiv(n, d);
      c.(lo := ToBv(q), hi := ToBv(BySubtraction(n, q, d)))
  }

  function BySubtraction(n: int, q: int, d: int): int { n - q * d }

  function RunDivu(c: Cpu, x: bv32, y: bv32): Cpu {
    if y == 0 then c.(lo := 0xFFFF_FFFF, hi := x)
    else
      var q := Ratio(x as int, y as int);
      c.(lo := ToBv(q), hi := ToBv(BySubtraction(x as int, q, y as int)))
  }

  function RunMul(c: Cpu, x: bv32, y: bv32): Cpu {
    var p := x as int * y as int;
    c.(lo := ToBv(p % 0x1_0000_0000), hi := ToBv(p / 0x1_0000_0000))
  }

  function RunLoad(c: Cpu, dst: Reg, width: int, signed: bool, a: bv32, at: int): Outcome {
    if Misaligned(a, width) then Trap(c, Unaligned(a, at))
    else
      var v := if width == 1 then LoadByte(c.mem, a) else if width == 2 then LoadHalf(c.mem, a) else ReadWord(c.mem, a);
      var x := if signed && width == 1 then SignExtend8(v) else if signed && width == 2 then SignExtend16(v) else v;
      var c' := Logged(c, a, width);
      Next(if dst == 0 then c' else Assigned(c', dst, x))
  }

  /** The merge LWL makes in the emitted code. */
  function EmittedMergeLeft(prior: bv32, word: bv32, k: bv32): bv32
    requires k < 4
  {
    (prior & ((1 << ((3 - k) * 8)) - 1)) | (word << ((3 - k) * 8))
  }

  /** The merge LWR makes in the emitted code. */
  function EmittedMergeRight(prior: bv32, word: bv32, k: bv32): bv32
    requires k < 4
  {
    (prior & !(0xFFFF_FFFF >> (k * 8))) | (word >> (k * 8))
  }

  function RunLoadLeft(c: Cpu, dst: Reg, a: bv32): Cpu {
    var c' := Logged(c, Aligned(a), 4);
    if dst == 0 then c' else Assigned(c', dst, EmittedMergeLeft(c.gpr[dst], ReadWord(c.mem, Aligned(a)), Lane(a)))
  }

  function RunLoadRight(c: Cpu, dst: Reg, a: bv32): Cpu {
    var c' := Logged(c, Aligned(a), 4);
    if dst == 0 then c' else Assigned(c', dst, EmittedMergeRight(c.gpr[dst], ReadWord(c.mem, Aligned(a)), Lane(a)))
  }

  function RunStore(c: Cpu, width: int, a: bv32, v: bv32, at: int): Outcome {
    if Misaligned(a, width) then Trap(c, Unaligned(a, at))
    else
      Next(c.(mem := if width == 1 then StoreByte(c.mem, a, LowByte(v))
                     else if width == 2 then StoreHalf(c.mem, a, LowHalf(v))
                     else WriteWord(c.mem, a, v)))
  }

  /** The word SWL stores in the emitted code. */
  function EmittedLeft(mem: bv32, reg: bv32, k: bv32): bv32
    requires k < 4
  {
    (mem & (0x00FF_FFFF >> (k * 8))) | (reg >> ((3 - k) * 8))
  }

  /** The word SWR stores in the emitted code. */
  function EmittedRight(mem: bv32, reg: bv32, k: bv32): bv32
    requires k < 4
  {
    (mem & (0xFFFF_FF00 << ((3 - k) * 8))) | (reg << (k * 8))
  }

  function RunStoreLeft(c: Cpu, a: bv32, v: bv32): Cpu {
    var word := ReadWord(c.mem, Aligned(a));
    c.(mem := WriteWord(c.mem, Aligned(a), EmittedLeft(word, v, Lane(a))))
  }

  function RunStoreRight(c: Cpu, a: bv32, v: bv32): Cpu {
    var word := ReadWord(c.mem, Aligned(a));
    c.(mem := WriteWord(c.mem, Aligned(a), EmittedRight(word, v, Lane(a))))
  }

  predicate Holds(cond: Cond, a: bv32, b: bv32) {
    match cond
    case IfEq => a == b
    case IfNe => a != b
    case IfLez => !SLess32(0, a)
    case IfGtz => SLess32(0, a)
    case IfLtz => SLess32(a, 0)
    case IfGez => !SLess32(a, 0)
  }

  function RunCop2(env: Env, c: Cpu, q: Cop2Stmt): Cpu {
    match q
    case SetData(reg, e) => Stored(c, reg, Eval(c, e))
    case SetDataBy(reg, e) => WriteData(c, reg, Eval(c, e))
    case SetCtrl(reg, e) => c.(ctrl := c.ctrl[reg := Eval(c, e)])
    case SetCtrlBy(reg, e) => WriteCtrl(c, reg, Eval(c, e))
    case GteLoad(reg, addr) => Stored(Logged(c, Eval(c, addr), 4), reg, ReadWord(c.mem, Eval(c, addr)))
    case GteLoadBy(reg, addr) => WriteData(Logged(c, Eval(c, addr), 4), reg, ReadWord(c.mem, Eval(c, addr)))
    case GteStore(addr, value) => c.(mem := WriteWord(c.mem, Eval(c, addr), Eval(c, value)))
    case GteCommand(command) => Commanded(env, c, command)
  }

  /** A statement without control flow of its own, on the machine state. */
  function RunPlain(env: Env, c: Cpu, t: CStmt): Outcome {
    match t
    case Assign(dst, e) => Next(Assigned(c, dst, Eval(c, e)))
    case AssignHi(e) => Next(c.(hi := Eval(c, e)))
    case AssignLo(e) => Next(c.(lo := Eval(c, e)))
    case AssignCop0(reg, e) => Next(c.(cop0 := c.cop0[reg := Eval(c, e)]))
    case CheckedAdd(dst, a, b) => RunCheckedAdd(c, dst, Eval(c, a), Eval(c, b))
    case MulBlock(a, b) => Next(RunMul(c, Eval(c, a), Eval(c, b)))
    case DivBlock(a, b) => Next(RunDiv(c, Eval(c, a), Eval(c, b)))
    case DivuBlock(a, b) => Next(RunDivu(c, Eval(c, a), Eval(c, b)))
    case LoadBlock(dst, width, signed, addr, at) => RunLoad(c, dst, width, signed, Eval(c, addr), at)
    case LoadLeft(dst, addr) => Next(RunLoadLeft(c, dst, Eval(c, addr)))
    case LoadRight(dst, addr) => Next(RunLoadRight(c, dst, Eval(c, addr)))
    case StoreBlock(width, addr, value, at) => RunStore(c, width, Eval(c, addr), Eval(c, value), at)
    case StoreLeft(addr, value) => Next(RunStoreLeft(c, Eval(c, addr), Eval(c, value)))
    case StoreRight(addr, value) => Next(RunStoreRight(c, Eval(c, addr), Eval(c, value)))
    case SyscallBlock(at) =>
      var (c', taken) := env.syscall(c, at);
      if taken then Trap(c', TakenOver) else Next(c')
    case BreakBlock(code, at) => Trap(c, Break(code, at))
    case Cop2(q) => Next(RunCop2(env, c, q))
    case _ => Next(c)
  }

  function RunJump(c: Cpu, link: Option<(Reg, bv32)>, dest: Dest): COutcome {
    var c' := if link.Some? then Assigned(c, link.value.0, link.value.1) else c;
    Exit(c', match dest case Fixed(pc) => pc case ByReg(r) => ToAddr(c'.gpr[r]))
  }

  /** The pop of the emitted RFE. */
  function EmittedPop(sr: bv32): bv32 { (sr & 0xFFFF_FFC0) | ((sr >> 2) & 0x0F) }

  function RunC(env: Env, s: CState, t: CStmt): COutcome {
    match t
    case Snapshot(a, b) => Fall(s.(brA := Eval(s.cpu, a), brB := Eval(s.cpu, b)))
    case BranchTail(cond, target, fallthrough) => Exit(s.cpu, if Holds(cond, s.brA, s.brB) then target else fallthrough)
    case JumpTail(link, dest) => RunJump(s.cpu, link, dest)
    case RfeTail =>
      var sr := s.cpu.cop0[12];
      ExitStale(s.cpu.(cop0 := s.cpu.cop0[12 := EmittedPop(sr)]))
    case _ =>
      match RunPlain(env, s.cpu, t)
      case Next(c) => Fall(s.(cpu := c))
      case Go(c, pc) => Exit(c, pc)
      case Trap(c, cause) => Fault(c, cause)
  }

  // ---- The translation ----

  /** `pre` is the statement emitted before the delay slot; only conditional branches have one. */
  datatype Kind = CondBranch | J | Jal | Jr | Jalr | Rfe

  datatype Translation =
    | Unsupported
    | Plain(code: CStmt)
    | Terminator(kind: Kind, pre: Option<CStmt>, tail: CStmt)

  /** A register write that respects the hard-wired zero. */
  function Write(dst: Reg, e: CExpr): Translation {
    Plain(if dst == 0 then Comment else Assign(dst, e))
  }

  function TranslateSpecial(w: Word, pc: int): Translation {
    var f := Decode(w);
    var a, b := Gpr(f.rs), Gpr(f.rt);
    match f.fn
    case 0x00 => Write(f.rd, Bin(ShiftL, b, Lit(Shamt(w))))
    case 0x02 => Write(f.rd, Bin(ShiftR, b, Lit(Shamt(w))))
    case 0x03 => Write(f.rd, Bin(ShiftRS, b, Lit(Shamt(w))))
    case 0x04 => Write(f.rd, Bin(ShiftL, b, Bin(BitAnd, a, Lit(0x1F))))
    case 0x06 => Write(f.rd, Bin(ShiftR, b, Bin(BitAnd, a, Lit(0x1F))))
    case 0x07 => Write(f.rd, Bin(ShiftRS, b, Bin(BitAnd, a, Lit(0x1F))))
    case 0x0C => Plain(SyscallBlock(pc))
    case 0x0D => Plain(BreakBlock(w / 64 % 0x10_0000, pc))
    case 0x10 => Write(f.rd, HiReg)
    case 0x11 => Plain(AssignHi(a))
    case 0x12 => Write(f.rd, LoReg)
    case 0x13 => Plain(AssignLo(a))
    case 0x19 => Plain(MulBlock(a, b))
    case 0x1A => Plain(DivBlock(a, b))
    case 0x1B => Plain(DivuBlock(a, b))
    case 0x20 => Plain(CheckedAdd(f.rd, a, b))
    case 0x21 => Write(f.rd, Bin(Plus, a, b))
    case 0x22 => Write(f.rd, Bin(Minus, a, b))
    case 0x23 => Write(f.rd, Bin(Minus, a, b))
    case 0x24 => Write(f.rd, Bin(BitAnd, a, b))
    case 0x25 => Write(f.rd, Bin(BitOr, a, b))
    case 0x26 => Write(f.rd, Bin(BitXor, a, b))
    case 0x27 => Write(f.rd, Invert(Bin(BitOr, a, b)))
    case 0x2A => Write(f.rd, Bin(LessS, a, b))
    case 0x2B => Write(f.rd, Bin(LessU, a, b))
    case 0x08 => Terminator(Jr, None, JumpTail(None, ByReg(f.rs)))
    case 0x09 => Terminator(Jalr, None, JumpTail(if f.rd == 0 then None else Some((f.rd, ToBv(pc + 8))), ByReg(f.rs)))
    case _ => Unsupported
  }

  function BranchCond(w: Word): Option<Cond> {
    var f := Decode(w);
    if f.op == 0x04 then Some(IfEq)
    else if f.op == 0x05 then Some(IfNe)
    else if f.op == 0x06 then Some(IfLez)
    else if f.op == 0x07 then Some(IfGtz)
    else if f.op == 0x01 && f.rt == 0x00 then Some(IfLtz)
    else if f.op == 0x01 && f.rt == 0x01 then Some(IfGez)
    else None
  }

  /** Only BEQ and BNE snapshot a second operand. */
  function BranchSnapshot(w: Word): CStmt {
    var f := Decode(w);
    Snapshot(Gpr(f.rs), if f.op == 0x04 || f.op == 0x05 then Gpr(f.rt) else Lit(0))
  }

  function TranslateImmediate(w: Word): Translation {
    var f := Decode(w);
    var a, s, u := Gpr(f.rs), Lit(ToBv(f.simm)), Lit(ToBv(f.imm));
    match f.op
    case 0x08 => Plain(CheckedAdd(f.rt, a, s))
    case 0x09 => Write(f.rt, Bin(Plus, a, s))
    case 0x0A => Write(f.rt, Bin(LessS, a, s))
    case 0x0B => Write(f.rt, Bin(LessU, a, s))
    case 0x0C => Write(f.rt, Bin(BitAnd, a, u))
    case 0x0D => Write(f.rt, Bin(BitOr, a, u))
    case 0x0E => Write(f.rt, Bin(BitXor, a, u))
    case 0x0F => Write(f.rt, Lit(Shl(ToBv(f.imm), 16)))
    case _ => Unsupported
  }

  function TranslateLoad(w: Word, pc: int): Translation {
    var f := Decode(w);
    var addr := Bin(Plus, Gpr(f.rs), Lit(ToBv(f.simm)));
    match f.op
    case 0x20 => Plain(LoadBlock(f.rt, 1, true, addr, pc))
    case 0x21 => Plain(LoadBlock(f.rt, 2, true, addr, pc))
    case 0x22 => Plain(LoadLeft(f.rt, addr))
    case 0x23 => Plain(LoadBlock(f.rt, 4, false, addr, pc))
    case 0x24 => Plain(LoadBlock(f.rt, 1, false, addr, pc))
    case 0x25 => Plain(LoadBlock(f.rt, 2, false, addr, pc))
    case 0x26 => Plain(LoadRight(f.rt, addr))
    case _ => Unsupported
  }

  function TranslateStore(w: Word, pc: int): Translation {
    var f := Decode(w);
    var addr, value := Bin(Plus, Gpr(f.rs), Lit(ToBv(f.simm))), Gpr(f.rt);
    match f.op
    case 0x28 => Plain(StoreBlock(1, addr, value, pc))
    case 0x29 => Plain(StoreBlock(2, addr, value, pc))
    case 0x2A => Plain(StoreLeft(addr, value))
    case 0x2B => Plain(StoreBlock(4, addr, value, pc))
    case 0x2E => Plain(StoreRight(addr, value))
    case _ => Unsupported
  }

  function TranslateCop0(w: Word): Translation {
    var f := Decode(w);
    if w == 0x4200_0010 then Terminator(Rfe, None, RfeTail)
    else if f.rs == 0 then Write(f.rt, Cop0(f.rd))
    else if f.rs == 4 then Plain(AssignCop0(f.rd, Gpr(f.rt)))
    else Unsupported
  }

  // The coprocessor-2 registers that are not plain array elements in the emitted code.

  predicate ReadByHelper(r: Reg) { 8 <= r <= 11 || r in {15, 28, 29, 31} }
  predicate WrittenByHelper(r: Reg) { r == 7 || 8 <= r <= 11 || r in {14, 15, 28, 30} }
  predicate CtrlByHelper(r: Reg) { r in {26, 27, 29, 30, 31} }

  function TranslateCop2(w: Word): Translation {
    var f := Decode(w);
    if f.rs == 0x00 then Write(f.rt, if ReadByHelper(f.rd) then DataBy(f.rd) else Data(f.rd))
    else if f.rs == 0x02 then Write(f.rt, if CtrlByHelper(f.rd) then CtrlBy(f.rd) else Ctrl(f.rd))
    else if f.rs == 0x04 then
      Plain(if WrittenByHelper(f.rd) then Cop2(SetDataBy(f.rd, Gpr(f.rt))) else Cop2(SetData(f.rd, Gpr(f.rt))))
    else if f.rs == 0x06 then
      Plain(if CtrlByHelper(f.rd) then Cop2(SetCtrlBy(f.rd, Gpr(f.rt))) else Cop2(SetCtrl(f.rd, Gpr(f.rt))))
    else if f.rs >= 0x10 then Plain(Cop2(GteCommand(w % 0x200_0000)))
    else Unsupported
  }

  /** LWC2 and SWC2: the access is made without testing its address. */
  function TranslateCop2Memory(w: Word): Translation {
    var f := Decode(w);
    var addr := if f.simm == 0 then Gpr(f.rs) else Bin(Plus, Gpr(f.rs), Lit(ToBv(f.simm)));
    if f.op == 0x32 then Plain(if WrittenByHelper(f.rt) then Cop2(GteLoadBy(f.rt, addr)) else Cop2(GteLoad(f.rt, addr)))
    else Plain(Cop2(GteStore(addr, if ReadByHelper(f.rt) then DataBy(f.rt) else Data(f.rt))))
  }

  function Translate(w: Word, pc: int): Translation {
    var op := Opcode(w);
    if w == 0 then Plain(Comment)
    else if op == 0x00 then TranslateSpecial(w, pc)
    else if BranchCond(w).Some? then
      Terminator(CondBranch, Some(BranchSnapshot(w)),
          BranchTail(BranchCond(w).value, Wrap(BranchTarget(pc, w)), Wrap(pc + 8)))
    else if op == 0x02 then Terminator(J, None, JumpTail(None, Fixed(JumpTarget(pc, w))))
    else if op == 0x03 then Terminator(Jal, None, JumpTail(Some((31, ToBv(pc + 8))), Fixed(JumpTarget(pc, w))))
    else if 0x08 <= op <= 0x0F then TranslateImmediate(w)
    else if 0x20 <= op <= 0x26 then TranslateLoad(w, pc)
    else if 0x28 <= op <= 0x2E then TranslateStore(w, pc)
    else if op == 0x10 then TranslateCop0(w)
    else if op == 0x12 then TranslateCop2(w)
    else if op == 0x32 || op == 0x3A then TranslateCop2Memory(w)
    else Unsupported
  }

  // ---- Each template means its instruction ----

  /** An intermediate state of translated code: the stored register 0 is zero. */
  predicate Zeroed(c: Cpu) { c.gpr[0] == 0 }

  lemma ReadsAgree(c: Cpu, r: Reg)
    requires Zeroed(c)
    ensures c.gpr[r] == R(c, r)
  {
  }

  lemma OrdersAgree(x: bv32, y: bv32)
    ensures SLess32(x, y) == SignedLess(x, y)
  {
    hide Negative, SInt, LessW, Binary.Num;
    Binary.SignMeans(x);
    Binary.SignMeans(y);
    Binary.LessMeans(x, y);
  }

  lemma MergesAgree(prior: bv32, word: bv32, k: bv32)
    requires k < 4
    ensures EmittedMergeLeft(prior, word, k) == MergeLeft(prior, word, k)
    ensures EmittedMergeRight(prior, word, k) == MergeRight(prior, word, k)
  {
  }

  /** The emitted SWL keeps the wrong bytes of memory: it is right for all contents if and only if
      the address is in the last lane, where the whole word is stored. */
  lemma StoreLeftIff(k: bv32)
    requires k < 4
    ensures (forall mem: bv32, reg: bv32 :: EmittedLeft(mem, reg, k) == SpillLeft(mem, reg, k)) <==> k == 3
  {
    if k != 3 {
      assert EmittedLeft(0xFF00_0000, 0, k) != SpillLeft(0xFF00_0000, 0, k);
    }
  }

  /** The emitted SWR likewise: right if and only if the address is aligned. */
  lemma StoreRightIff(k: bv32)
    requires k < 4
    ensures (forall mem: bv32, reg: bv32 :: EmittedRight(mem, reg, k) == SpillRight(mem, reg, k)) <==> k == 0
  {
    if k != 0 {
      assert EmittedRight(0xFF, 0, k) != SpillRight(0xFF, 0, k);
    }
  }

  lemma AlignedTwice(a: bv32)
    ensures Aligned(Aligned(a)) == Aligned(a)
  {
  }

  lemma LaneBound(a: bv32)
    ensures Lane(a) < 4
  {
  }

  lemma NarrowTwice(v: bv32)
    ensures LowByte(LowByte(v)) == LowByte(v) && LowHalf(LowHalf(v)) == LowHalf(v)
  {
  }

  lemma NarrowStores(m: map<bv32, bv32>, a: bv32, v: bv32)
    ensures StoreByte(m, a, LowByte(v)) == StoreByte(m, a, v)
    ensures StoreHalf(m, a, LowHalf(v)) == StoreHalf(m, a, v)
  {
    LaneBound(a);
    hide WithByte, WithHalf, LowByte, LowHalf, Lane, Aligned;
    NarrowTwice(v);
  }

  lemma BytesAligned(a: bv32)
    ensures !Misaligned(a, 1)
  {
  }

  /** Truncated division with the remainder formed by subtraction is the machine's division, and the
      guard for the one overflowing quotient agrees with it. */
  lemma DivAgrees(c: Cpu, x: bv32, y: bv32)
    ensures RunDiv(c, x, y) == Divide(c, x, y)
  {
    var n, d := SInt(x), SInt(y);
    SIntSigns(x);
    SIntSigns(y);
    if d != 0 {
      TruncAgrees(n, d);
      if n == -0x8000_0000 && d == -1 { Extreme(); }
    }
    hide SInt, ToBv, TruncDiv, BySubtraction, Quotient, Remainder, Negative;
  }

  lemma Extreme()
    ensures Quotient(-0x8000_0000, -1) == 0x8000_0000 && Remainder(-0x8000_0000, -1) == 0
  {
  }

  lemma SIntSigns(x: bv32)
    ensures SInt(x) == 0 <==> x == 0
    ensures SInt(x) < 0 <==> Negative(x)
  {
    assert Negative(x) <==> x >= 0x8000_0000;
  }

  lemma TruncQuotient(n: int, d: int)
    requires d != 0
    ensures TruncDiv(n, d) == Quotient(n, d)
  {
  }

  lemma DivMod(p: nat, q: nat)
    requires q != 0
    ensures p == p / q * q + p % q
  {
  }

  lemma SignedProduct(k: int, q: int)
    ensures -k * q == -(k * q) && k * -q == -(k * q) && -k * -q == k * q
  {
  }

  /** The sign of the remainder, with quotient and remainder of the magnitudes given. */
  lemma SignedRest(n: int, d: int, q: int, k: int, r: int)
    requires Abs(n) == k * q + r && (d == q > 0 || -d == q > 0)
    ensures BySubtraction(n, if (n < 0) == (d < 0) then k else -k, d) == if n < 0 then -r else r
  {
    SignedProduct(k, q);
  }

  lemma TruncAgrees(n: int, d: int)
    requires d != 0
    ensures TruncDiv(n, d) == Quotient(n, d)
    ensures BySubtraction(n, TruncDiv(n, d), d) == Remainder(n, d)
  {
    TruncQuotient(n, d);
    var q: int := Abs(d);
    assert q > 0;
    hide TruncDiv, BySubtraction;
    DivMod(Abs(n), q);
    SignedRest(n, d, q, Abs(n) / q, Abs(n) % q);
  }

  lemma DivuAgrees(c: Cpu, x: bv32, y: bv32)
    ensures RunDivu(c, x, y) == DivideUnsigned(c, x, y)
  {
    hide ToBv, Ratio, Rest, BySubtraction;
    if y != 0 {
      RestBySubtraction(x as int, y as int);
    }
  }

  lemma RestBySubtraction(n: nat, d: nat)
    requires d != 0
    ensures BySubtraction(n, Ratio(n, d), d) == Rest(n, d)
  {
  }

  lemma MulAgrees(c: Cpu, x: bv32, y: bv32)
    ensures RunMul(c, x, y) == MultiplyUnsigned(c, x, y)
  {
  }

  predicate IsSub(w: Word) { Opcode(w) == 0x00 && Funct(w) == 0x22 }

  /** Where the template of a word means the instruction in a given state. SUB is emitted without its
      overflow trap, SWL and SWR keep the wrong bytes, LWC2 and SWC2 do not test their address, and
      registers of coprocessor 2 that the emitted code treats as plain array elements may be narrower. */
  predicate Right(c: Cpu, w: Word) {
    var f := Decode(w);
    if IsSub(w) then !SubOverflows(R(c, f.rs), R(c, f.rt))
    else if f.op == 0x2A then Lane(Address(c, f)) == 3
    else if f.op == 0x2E then Lane(Address(c, f)) == 0
    else if f.op == 0x12 then RightMove(c, f)
    else if f.op == 0x32 then
      !Misaligned(Address(c, f), 4) && (WrittenByHelper(f.rt) || Fits(c, f.rt, ReadWord(c.mem, Address(c, f))))
    else if f.op == 0x3A then !Misaligned(Address(c, f), 4) && (ReadByHelper(f.rt) || Holding(c, f.rt))
    else true
  }

  /** The data register reads as what the array holds. */
  predicate Holding(c: Cpu, r: Reg) { c.gte[r] == DataKept(r, c.gte[r]) }

  /** A plain assignment of v leaves the registers as the coprocessor's own write would. */
  predicate Fits(c: Cpu, r: Reg, v: bv32) {
    && (forall q: Reg :: !Computed(q) && q != r ==> Holding(c, q))
    && SettleCtrl(c.ctrl) == c.ctrl
    && (Computed(r) || DataKept(r, v) == v)
  }

  predicate FitsCtrl(c: Cpu, r: Reg, v: bv32) {
    && Settle(c.gte) == c.gte
    && (forall q: Reg :: q != r ==> CtrlKept(q, c.ctrl[q]) == c.ctrl[q])
    && CtrlKept(r, v) == v
  }

  predicate RightMove(c: Cpu, f: Fields) {
    if f.rs == 0x00 then f.rt == 0 || ReadByHelper(f.rd) || Holding(c, f.rd)
    else if f.rs == 0x02 then f.rt == 0 || CtrlByHelper(f.rd) || CtrlKept(f.rd, c.ctrl[f.rd]) == c.ctrl[f.rd]
    else if f.rs == 0x04 then WrittenByHelper(f.rd) || Fits(c, f.rd, R(c, f.rt))
    else if f.rs == 0x06 then CtrlByHelper(f.rd) || FitsCtrl(c, f.rd, R(c, f.rt))
    else true
  }

  /** Words whose template means the instruction in every state. */
  predicate Faithful(w: Word) {
    && !IsSub(w) && Opcode(w) !in {0x2A, 0x2E, 0x32, 0x3A}
    && (Opcode(w) == 0x12 ==> FaithfulMove(Decode(w)))
  }

  /** Commands, and moves of registers that go through the helpers. */
  predicate FaithfulMove(f: Fields) {
    if f.rs == 0x00 then f.rt == 0 || ReadByHelper(f.rd)
    else if f.rs == 0x02 then f.rt == 0 || CtrlByHelper(f.rd)
    else if f.rs == 0x04 then WrittenByHelper(f.rd)
    else if f.rs == 0x06 then CtrlByHelper(f.rd)
    else true
  }

  lemma FaithfulIsRight(c: Cpu, w: Word)
    requires Faithful(w)
    ensures Right(c, w)
  {
    hide IsSub, Opcode, Rs, Rt, Rd, Address, Fits, FitsCtrl, Holding, Lane, Misaligned, SubOverflows, R;
  }

  lemma EvalReg(c: Cpu, r: Reg)
    requires Zeroed(c)
    ensures Eval(c, Gpr(r)) == R(c, r)
  {
  }

  lemma EvalTwo(c: Cpu, op: COp, a: CExpr, b: CExpr)
    ensures Eval(c, Bin(op, a, b)) == EvalOp(op, Eval(c, a), Eval(c, b))
  {
    hide EvalOp, ReadData, ReadCtrl;
  }

  lemma EvalLit(c: Cpu, v: bv32)
    ensures Eval(c, Lit(v)) == v
  {
  }

  lemma EvalRegs(c: Cpu, op: COp, r: Reg, q: Reg)
    requires Zeroed(c)
    ensures Eval(c, Bin(op, Gpr(r), Gpr(q))) == EvalOp(op, R(c, r), R(c, q))
  {
    EvalTwo(c, op, Gpr(r), Gpr(q));
    EvalReg(c, r);
    EvalReg(c, q);
    hide Eval, EvalOp;
  }

  lemma EvalRegLit(c: Cpu, op: COp, r: Reg, v: bv32)
    requires Zeroed(c)
    ensures Eval(c, Bin(op, Gpr(r), Lit(v))) == EvalOp(op, R(c, r), v)
  {
    EvalTwo(c, op, Gpr(r), Lit(v));
    EvalReg(c, r);
    EvalLit(c, v);
    hide Eval, EvalOp;
  }

  /** A write template means a register write. */
  lemma WriteAgrees(env: Env, c: Cpu, dst: Reg, e: CExpr, v: bv32)
    requires Eval(c, e) == v
    ensures RunPlain(env, c, Write(dst, e).code) == Next(Set(c, dst, v))
  {
    hide Eval;
  }

  /** SLL, SRL, SRA by a constant. */
  lemma ShiftConstAgrees(env: Env, c: Cpu, w: Word, op: COp)
    requires Zeroed(c)
    ensures RunPlain(env, c, Write(Rd(w), Bin(op, Gpr(Rt(w)), Lit(Shamt(w)))).code)
         == Next(Set(c, Rd(w), EvalOp(op, R(c, Rt(w)), Shamt(w))))
  {
    hide Eval, EvalOp, RunPlain, Shamt, Rt, Rd;
    EvalRegLit(c, op, Rt(w), Shamt(w));
    WriteAgrees(env, c, Rd(w), Bin(op, Gpr(Rt(w)), Lit(Shamt(w))), EvalOp(op, R(c, Rt(w)), Shamt(w)));
  }

  /** SLLV, SRLV, SRAV: the count is masked before the shift. */
  lemma ShiftVarAgrees(env: Env, c: Cpu, w: Word, op: COp)
    requires Zeroed(c)
    ensures RunPlain(env, c, Write(Rd(w), Bin(op, Gpr(Rt(w)), Bin(BitAnd, Gpr(Rs(w)), Lit(0x1F)))).code)
         == Next(Set(c, Rd(w), EvalOp(op, R(c, Rt(w)), AndW(R(c, Rs(w)), 0x1F))))
  {
    hide Eval, RunPlain, Rs, Rt, Rd, AddW, SubW, AndW, OrW, XorW, NotW, LessW, Shl, Shr, Sra, SLess32, SignedLess;
    var count := Bin(BitAnd, Gpr(Rs(w)), Lit(0x1F));
    EvalRegLit(c, BitAnd, Rs(w), 0x1F);
    EvalReg(c, Rt(w));
    EvalTwo(c, op, Gpr(Rt(w)), count);
    WriteAgrees(env, c, Rd(w), Bin(op, Gpr(Rt(w)), count), EvalOp(op, R(c, Rt(w)), AndW(R(c, Rs(w)), 0x1F)));
  }

  lemma ShiftsAgree(env: Env, c: Cpu, w: Word, pc: int)
    requires Zeroed(c) && Opcode(w) == 0x00 && Funct(w) in {0x00, 0x02, 0x03, 0x04, 0x06, 0x07}
    ensures RunPlain(env, c, TranslateSpecial(w, pc).code) == ExecSpecial(env, c, w, pc)
  {
    var op := if Funct(w) in {0x00, 0x04} then ShiftL else if Funct(w) in {0x02, 0x06} then ShiftR else ShiftRS;
    hide Eval, RunPlain, Rs, Rt, Rd, Shamt, Write, Set, ToBv, AddW, SubW, AndW, OrW, XorW, NotW, LessW, Shl, Shr, Sra,
         SLess32, SignedLess;
    ShiftConstAgrees(env, c, w, op);
    ShiftVarAgrees(env, c, w, op);
  }

  lemma MovesAgree(env: Env, c: Cpu, w: Word, pc: int)
    requires Zeroed(c) && Opcode(w) == 0x00 && Funct(w) in {0x0C, 0x0D, 0x10, 0x11, 0x12, 0x13}
    ensures RunPlain(env, c, TranslateSpecial(w, pc).code) == ExecSpecial(env, c, w, pc)
  {
    hide Opcode, Rs, Rt, Rd, EvalOp, Shamt, ToBv, AddOverflows, SubOverflows, AddW, SubW, AndW, OrW, XorW, NotW,
         LessW, Shl, Shr, Sra, SLess32, SignedLess, RunDiv, RunDivu, RunMul, Divide, DivideUnsigned, Multiply,
         MultiplyUnsigned;
    EvalReg(c, Rs(w));
  }

  lemma MulDivBlocks(env: Env, c: Cpu, a: CExpr, b: CExpr)
    ensures RunPlain(env, c, MulBlock(a, b)) == Next(MultiplyUnsigned(c, Eval(c, a), Eval(c, b)))
    ensures RunPlain(env, c, DivBlock(a, b)) == Next(Divide(c, Eval(c, a), Eval(c, b)))
    ensures RunPlain(env, c, DivuBlock(a, b)) == Next(DivideUnsigned(c, Eval(c, a), Eval(c, b)))
  {
    hide Eval, RunDiv, RunDivu, RunMul, Divide, DivideUnsigned, MultiplyUnsigned;
    MulAgrees(c, Eval(c, a), Eval(c, b));
    DivAgrees(c, Eval(c, a), Eval(c, b));
    DivuAgrees(c, Eval(c, a), Eval(c, b));
  }

  lemma MulDivAgree(env: Env, c: Cpu, w: Word, pc: int)
    requires Zeroed(c) && Opcode(w) == 0x00 && Funct(w) in {0x19, 0x1A, 0x1B}
    ensures RunPlain(env, c, TranslateSpecial(w, pc).code) == ExecSpecial(env, c, w, pc)
  {
    hide RunPlain, Opcode, Rs, Rt, Rd, Funct, Imm, SImm, Eval, Shamt, Set, R, ToBv, AddOverflows, SubOverflows, AddW,
         SubW, AndW, OrW, XorW, NotW, LessW, Shl, Shr, Sra, SignedLess, Flag, Divide, DivideUnsigned, Multiply,
         MultiplyUnsigned;
    EvalReg(c, Rs(w));
    EvalReg(c, Rt(w));
    MulDivBlocks(env, c, Gpr(Rs(w)), Gpr(Rt(w)));
  }

  lemma RegsAgree(env: Env, c: Cpu, w: Word, op: COp)
    requires Zeroed(c)
    ensures RunPlain(env, c, Write(Rd(w), Bin(op, Gpr(Rs(w)), Gpr(Rt(w)))).code)
         == Next(Set(c, Rd(w), EvalOp(op, R(c, Rs(w)), R(c, Rt(w)))))
  {
    hide Eval, EvalOp, RunPlain, Rs, Rt, Rd;
    EvalRegs(c, op, Rs(w), Rt(w));
    WriteAgrees(env, c, Rd(w), Bin(op, Gpr(Rs(w)), Gpr(Rt(w))), EvalOp(op, R(c, Rs(w)), R(c, Rt(w))));
  }

  lemma NorAgrees(env: Env, c: Cpu, w: Word)
    requires Zeroed(c)
    ensures RunPlain(env, c, Write(Rd(w), Invert(Bin(BitOr, Gpr(Rs(w)), Gpr(Rt(w))))).code)
         == Next(Set(c, Rd(w), NotW(OrW(R(c, Rs(w)), R(c, Rt(w))))))
  {
    hide RunPlain, Rs, Rt, Rd, AddW, SubW, AndW, OrW, XorW, NotW, LessW, Shl, Shr, Sra, SLess32, SignedLess;
    var e := Bin(BitOr, Gpr(Rs(w)), Gpr(Rt(w)));
    EvalRegs(c, BitOr, Rs(w), Rt(w));
    assert Eval(c, Invert(e)) == NotW(Eval(c, e));
    WriteAgrees(env, c, Rd(w), Invert(e), NotW(OrW(R(c, Rs(w)), R(c, Rt(w)))));
  }

  lemma CheckedAgrees(env: Env, c: Cpu, dst: Reg, a: CExpr, b: CExpr)
    ensures RunPlain(env, c, CheckedAdd(dst, a, b)) ==
            if AddOverflows(Eval(c, a), Eval(c, b)) then Trap(c, Overflow)
                else Next(Set(c, dst, AddW(Eval(c, a), Eval(c, b))))
  {
    hide Eval, SInt, AddW;
  }

  lemma ArithmeticAgrees(env: Env, c: Cpu, w: Word, pc: int)
    requires Zeroed(c) && Opcode(w) == 0x00 && Funct(w) in {0x20, 0x21, 0x23, 0x27}
    ensures RunPlain(env, c, TranslateSpecial(w, pc).code) == ExecSpecial(env, c, w, pc)
  {
    hide Eval, RunPlain, Opcode, Funct, Imm, SImm, R, Rs, Rt, Rd, Shamt, Write, Set, ToBv, AddOverflows, SubOverflows,
         Flag, AddW, SubW, AndW, OrW, XorW, NotW, LessW, Shl, Shr, Sra, SLess32, SignedLess;
    EvalReg(c, Rs(w));
    EvalReg(c, Rt(w));
    RegsAgree(env, c, w, Plus);
    RegsAgree(env, c, w, Minus);
    NorAgrees(env, c, w);
    CheckedAgrees(env, c, Rd(w), Gpr(Rs(w)), Gpr(Rt(w)));
  }

  lemma LogicAgrees(env: Env, c: Cpu, w: Word, pc: int)
    requires Zeroed(c) && Opcode(w) == 0x00 && Funct(w) in {0x24, 0x25, 0x26}
    ensures RunPlain(env, c, TranslateSpecial(w, pc).code) == ExecSpecial(env, c, w, pc)
  {
    var op := match Funct(w) case 0x24 => BitAnd case 0x25 => BitOr case _ => BitXor;
    hide Eval, RunPlain, Opcode, Funct, Imm, SImm, R, Rs, Rt, Rd, Shamt, Write, Set, ToBv, AddOverflows, SubOverflows,
         Flag, AddW, SubW, AndW, OrW, XorW, NotW, LessW, Shl, Shr, Sra, SLess32, SignedLess;
    RegsAgree(env, c, w, op);
  }

  lemma CompareAgrees(env: Env, c: Cpu, w: Word, pc: int)
    requires Zeroed(c) && Opcode(w) == 0x00 && Funct(w) in {0x2A, 0x2B}
    ensures RunPlain(env, c, TranslateSpecial(w, pc).code) == ExecSpecial(env, c, w, pc)
  {
    var op := if Funct(w) == 0x2A then LessS else LessU;
    hide Eval, RunPlain, Opcode, Funct, Imm, SImm, R, Rs, Rt, Rd, Shamt, Write, Set, ToBv, AddOverflows, SubOverflows,
         Flag, AddW, SubW, AndW, OrW, XorW, NotW, LessW, Shl, Shr, Sra, SLess32, SignedLess;
    RegsAgree(env, c, w, op);
    OrdersAgree(R(c, Rs(w)), R(c, Rt(w)));
  }

  /** SUB is emitted as SUBU: it means the instruction if and only if the difference fits. */
  lemma SubIff(env: Env, c: Cpu, w: Word, pc: int)
    requires Zeroed(c) && IsSub(w)
    ensures RunPlain(env, c, TranslateSpecial(w, pc).code) == ExecSpecial(env, c, w, pc) <==>
            !SubOverflows(R(c, Rs(w)), R(c, Rt(w)))
  {
    hide Eval, RunPlain, Rs, Rt, Rd, Shamt, Write, Set, ToBv, AddOverflows, SubOverflows, AddW, SubW, AndW, OrW, XorW,
         NotW, LessW, Shl, Shr, Sra, SLess32, SignedLess;
    RegsAgree(env, c, w, Minus);
  }

  lemma RegLitAgrees(env: Env, c: Cpu, w: Word, op: COp, v: bv32)
    requires Zeroed(c)
    ensures RunPlain(env, c, Write(Rt(w), Bin(op, Gpr(Rs(w)), Lit(v))).code) ==
            Next(Set(c, Rt(w), EvalOp(op, R(c, Rs(w)), v)))
  {
    hide Eval, EvalOp, RunPlain, Rs, Rt;
    EvalRegLit(c, op, Rs(w), v);
    WriteAgrees(env, c, Rt(w), Bin(op, Gpr(Rs(w)), Lit(v)), EvalOp(op, R(c, Rs(w)), v));
  }

  lemma ImmediateAgrees(env: Env, c: Cpu, w: Word)
    requires Zeroed(c) && TranslateImmediate(w).Plain?
    ensures RunPlain(env, c, TranslateImmediate(w).code) == ExecImmediate(c, w)
  {
    var op := match Opcode(w) case 0x09 => Plus case 0x0A => LessS case 0x0B => LessU
                              case 0x0C => BitAnd case 0x0D => BitOr case _ => BitXor;
    hide Eval, RunPlain, Opcode, Rs, Rt, Write, Set, ToBv, AddOverflows, AddW, SubW, AndW, OrW, XorW, NotW, LessW,
         Shl, Shr, Sra, SLess32, SignedLess;
    var s, u := ToBv(SImm(w)), ToBv(Imm(w));
    EvalReg(c, Rs(w));
    EvalLit(c, s);
    EvalLit(c, Shl(u, 16));
    RegLitAgrees(env, c, w, op, s);
    RegLitAgrees(env, c, w, op, u);
    WriteAgrees(env, c, Rt(w), Lit(Shl(u, 16)), Shl(u, 16));
    CheckedAgrees(env, c, Rt(w), Gpr(Rs(w)), Lit(s));
    OrdersAgree(R(c, Rs(w)), s);
  }

  lemma AddressAgrees(c: Cpu, f: Fields)
    requires Zeroed(c)
    ensures Eval(c, Bin(Plus, Gpr(f.rs), Lit(ToBv(f.simm)))) == Address(c, f)
  {
    hide ToBv, Eval, AddW, SubW, AndW, OrW, XorW, NotW, LessW, Shl, Shr, Sra, SLess32, SignedLess;
    EvalRegLit(c, Plus, f.rs, ToBv(f.simm));
  }

  lemma LoadBlockAgrees(env: Env, c: Cpu, w: Word, pc: int)
    requires Zeroed(c) && Opcode(w) in {0x20, 0x21, 0x23, 0x24, 0x25}
    ensures RunPlain(env, c, TranslateLoad(w, pc).code) == ExecLoad(c, w, pc)
  {
    hide Rs, Rt, ToBv, Eval, LoadByte, LoadHalf, ReadWord, Address, SignExtend8, SignExtend16, MergeLeft, MergeRight,
         Aligned, Lane, Misaligned, Logged;
    AddressAgrees(c, Decode(w));
    BytesAligned(Address(c, Decode(w)));
  }

  lemma LoadPartAgrees(env: Env, c: Cpu, w: Word, pc: int)
    requires Zeroed(c) && Opcode(w) in {0x22, 0x26}
    ensures RunPlain(env, c, TranslateLoad(w, pc).code) == ExecLoad(c, w, pc)
  {
    var f := Decode(w);
    var a := Address(c, f);
    LaneBound(a);
    hide Rs, Rt, ToBv, Eval, LoadByte, LoadHalf, Address, SignExtend8, SignExtend16, MergeLeft, MergeRight,
         EmittedMergeLeft, EmittedMergeRight, Aligned, Lane, Misaligned, Logged;
    AddressAgrees(c, f);
    AlignedTwice(a);
    ReadsAgree(c, f.rt);
    MergesAgree(c.gpr[f.rt], ReadWord(c.mem, a), Lane(a));
  }

  lemma LoadAgrees(env: Env, c: Cpu, w: Word, pc: int)
    requires Zeroed(c) && TranslateLoad(w, pc).Plain?
    ensures RunPlain(env, c, TranslateLoad(w, pc).code) == ExecLoad(c, w, pc)
  {
    if Opcode(w) in {0x22, 0x26} {
      LoadPartAgrees(env, c, w, pc);
    } else {
      assert Opcode(w) in {0x20, 0x21, 0x23, 0x24, 0x25};
      LoadBlockAgrees(env, c, w, pc);
    }
    hide RunPlain, ExecLoad;
  }

  lemma StoreAgrees(env: Env, c: Cpu, w: Word, pc: int)
    requires Zeroed(c) && TranslateStore(w, pc).Plain? && Opcode(w) != 0x2A && Opcode(w) != 0x2E
    ensures RunPlain(env, c, TranslateStore(w, pc).code) == ExecStore(c, w, pc)
  {
    hide Rs, Rt, ToBv, Eval, StoreByte, StoreHalf, Address, SpillLeft, SpillRight, EmittedLeft, EmittedRight, LowByte,
         LowHalf, Aligned, Lane, Misaligned;
    var f := Decode(w);
    AddressAgrees(c, f);
    EvalReg(c, f.rt);
    BytesAligned(Address(c, f));
    NarrowStores(c.mem, Address(c, f), R(c, f.rt));
  }

  lemma Cop0Agrees(env: Env, c: Cpu, w: Word)
    requires Zeroed(c) && TranslateCop0(w).Plain?
    ensures RunPlain(env, c, TranslateCop0(w).code) == ExecCop0(c, w)
  {
    hide Opcode, Rs, Rt, Rd, EvalOp, PopStatus;
    EvalReg(c, Rt(w));
  }

  lemma WholeStores(mem: bv32, reg: bv32)
    ensures EmittedLeft(mem, reg, 3) == SpillLeft(mem, reg, 3) && EmittedRight(mem, reg, 0) == SpillRight(mem, reg, 0)
  {
  }

  lemma StorePartAgrees(env: Env, c: Cpu, w: Word, pc: int)
    requires Zeroed(c) && Opcode(w) in {0x2A, 0x2E} && Lane(Address(c, Decode(w))) == if Opcode(w) == 0x2A then 3 else 0
    ensures RunPlain(env, c, TranslateStore(w, pc).code) == ExecStore(c, w, pc)
  {
    var f := Decode(w);
    var a := Address(c, f);
    hide Rs, Rt, ToBv, Eval, StoreByte, StoreHalf, Address, SpillLeft, SpillRight, EmittedLeft, EmittedRight, LowByte,
         LowHalf, Aligned, Lane, Misaligned;
    AddressAgrees(c, f);
    EvalReg(c, f.rt);
    AlignedTwice(a);
    WholeStores(ReadWord(c.mem, a), R(c, f.rt));
  }

  // ---- Coprocessor 2 ----

  lemma SettleIff(d: Regs)
    ensures Settle(d) == d <==> forall q: Reg :: !Computed(q) ==> d[q] == DataKept(q, d[q])
  {
    hide DataKept;
    if Settle(d) == d {
      forall q: Reg | !Computed(q) ensures d[q] == DataKept(q, d[q]) { assert Settle(d)[q] == SettledData(d, q); }
    }
  }

  lemma SettleCtrlIff(k: Regs)
    ensures SettleCtrl(k) == k <==> forall q: Reg :: CtrlKept(q, k[q]) == k[q]
  {
    hide CtrlKept;
    if SettleCtrl(k) == k {
      forall q: Reg ensures CtrlKept(q, k[q]) == k[q] { assert SettleCtrl(k)[q] == CtrlKept(q, k[q]); }
    }
  }

  /** A plain assignment does what the coprocessor's own write does if and only if the value, and what
      the other registers hold, have the width of their registers. */
  lemma StoredIff(c: Cpu, r: Reg, v: bv32)
    requires !WrittenByHelper(r)
    ensures Stored(c, r, v) == WriteData(c, r, v) <==> Fits(c, r, v)
  {
    hide DataKept, Settle, SettleCtrl;
    var d := if Computed(r) then c.gte else c.gte[r := v];
    assert Put(c.gte, r, v) == d;
    SettleIff(d);
    SettleCtrlIff(c.ctrl);
    assert Settle(d) == d <==> forall q: Reg :: !Computed(q) ==> d[q] == DataKept(q, d[q]);
    assert Fits(c, r, v) <==> SettleCtrl(c.ctrl) == c.ctrl && forall q: Reg :: !Computed(q) ==>
           d[q] == DataKept(q, d[q]) by {
      FitsIs(c, r, v, d);
    }
  }

  lemma FitsIs(c: Cpu, r: Reg, v: bv32, d: Regs)
    requires d == if Computed(r) then c.gte else c.gte[r := v]
    ensures Fits(c, r, v) <==> SettleCtrl(c.ctrl) == c.ctrl && forall q: Reg :: !Computed(q) ==>
            d[q] == DataKept(q, d[q])
  {
    hide DataKept, SettleCtrl;
    if forall q: Reg :: !Computed(q) ==> d[q] == DataKept(q, d[q]) {
      forall q: Reg | !Computed(q) && q != r ensures Holding(c, q) { assert d[q] == DataKept(q, d[q]); }
      assert Computed(r) || d[r] == v;
    }
  }

  lemma StoredCtrlIff(c: Cpu, r: Reg, v: bv32)
    requires !CtrlByHelper(r)
    ensures c.(ctrl := c.ctrl[r := v]) == WriteCtrl(c, r, v) <==> FitsCtrl(c, r, v)
  {
    hide CtrlKept, Settle, SettleCtrl;
    var k := c.ctrl[r := v];
    assert PutCtrl(c.ctrl, r, v) == k;
    SettleCtrlIff(k);
    if forall q: Reg :: CtrlKept(q, k[q]) == k[q] {
      forall q: Reg | q != r ensures CtrlKept(q, c.ctrl[q]) == c.ctrl[q] { assert k[q] == c.ctrl[q]; }
      assert k[r] == v;
    }
  }

  /** Plain reads are right if and only if the register holds what its width allows. */
  lemma PlainRead(c: Cpu, r: Reg)
    ensures !ReadByHelper(r) ==> (c.gte[r] == ReadData(c.gte, r) <==> Holding(c, r))
  {
    hide DataKept;
  }

  lemma MoveOutIff(env: Env, c: Cpu, w: Word)
    requires Zeroed(c) && Rs(w) in {0x00, 0x02}
    ensures RunPlain(env, c, TranslateCop2(w).code) == ExecCop2(env, c, w) <==> RightMove(c, Decode(w))
  {
    var f := Decode(w);
    hide Opcode, Rs, Rt, Rd, ReadData, ReadCtrl, Holding, CtrlKept;
    var e := if f.rs == 0x00 then (if ReadByHelper(f.rd) then DataBy(f.rd) else Data(f.rd))
             else (if CtrlByHelper(f.rd) then CtrlBy(f.rd) else Ctrl(f.rd));
    var v := if f.rs == 0x00 then ReadData(c.gte, f.rd) else ReadCtrl(c.ctrl, f.rd);
    WriteIff(env, c, f.rt, e, v);
    PlainRead(c, f.rd);
    CtrlReads(c.ctrl, f.rd);
    hide RunPlain, Set, Write, ReadByHelper, CtrlByHelper;
  }

  lemma CtrlReads(k: Regs, r: Reg)
    ensures ReadCtrl(k, r) == CtrlKept(r, k[r])
  {
  }

  lemma WriteIff(env: Env, c: Cpu, dst: Reg, e: CExpr, v: bv32)
    ensures RunPlain(env, c, Write(dst, e).code) == Next(Set(c, dst, v)) <==> dst == 0 || Eval(c, e) == v
  {
    hide Eval;
    if dst != 0 {
      assert c.gpr[dst := v][dst] == v && c.gpr[dst := Eval(c, e)][dst] == Eval(c, e);
    }
  }

  lemma RunsCop2(env: Env, c: Cpu, q: Cop2Stmt)
    ensures RunPlain(env, c, Cop2(q)) == Next(RunCop2(env, c, q))
  {
    hide RunCop2;
  }

  lemma MoveInIff(env: Env, c: Cpu, w: Word)
    requires Zeroed(c) && Rs(w) in {0x04, 0x06}
    ensures RunPlain(env, c, TranslateCop2(w).code) == ExecCop2(env, c, w) <==> RightMove(c, Decode(w))
  {
    hide RunPlain, Opcode, Rs, Rt, Rd, Funct, Imm, SImm, Eval, Fits, FitsCtrl, Stored, WriteData, WriteCtrl, R,
         WrittenByHelper, CtrlByHelper;
    var f := Decode(w);
    EvalReg(c, f.rt);
    RunsCop2(env, c, TranslateCop2(w).code.s);
    if !WrittenByHelper(f.rd) { StoredIff(c, f.rd, R(c, f.rt)); }
    if !CtrlByHelper(f.rd) { StoredCtrlIff(c, f.rd, R(c, f.rt)); }
  }

  /** Moves to and from coprocessor 2 and its commands: right if and only if the plain array accesses
      among them respect the widths of the registers. */
  lemma MoveIff(env: Env, c: Cpu, w: Word)
    requires Zeroed(c) && TranslateCop2(w).Plain?
    ensures RunPlain(env, c, TranslateCop2(w).code) == ExecCop2(env, c, w) <==> RightMove(c, Decode(w))
  {
    hide Rs, RightMove;
    if Rs(w) in {0x00, 0x02} {
      MoveOutIff(env, c, w);
    } else if Rs(w) in {0x04, 0x06} {
      MoveInIff(env, c, w);
    } else {
      CommandAgrees(env, c, w);
    }
  }

  lemma CommandAgrees(env: Env, c: Cpu, w: Word)
    requires Rs(w) !in {0x00, 0x02, 0x04, 0x06} && TranslateCop2(w).Plain?
    ensures RunPlain(env, c, TranslateCop2(w).code) == ExecCop2(env, c, w) && RightMove(c, Decode(w))
  {
    hide Rs, Rt, Rd, Opcode, RunPlain;
    RunsCop2(env, c, TranslateCop2(w).code.s);
  }

  lemma AddZero(x: bv32)
    ensures AddW(x, ToBv(0)) == x
  {
  }

  lemma Cop2AddressAgrees(c: Cpu, f: Fields)
    requires Zeroed(c)
    ensures Eval(c, if f.simm == 0 then Gpr(f.rs) else Bin(Plus, Gpr(f.rs), Lit(ToBv(f.simm)))) == Address(c, f)
  {
    hide ToBv, Eval, AddW;
    AddressAgrees(c, f);
    EvalReg(c, f.rs);
    AddZero(R(c, f.rs));
  }

  /** LWC2 is emitted without its address error: right if and only if the address is a multiple of four
      and a plainly assigned register fits. */
  lemma LoadCop2Iff(env: Env, c: Cpu, w: Word, pc: int)
    requires Zeroed(c) && Opcode(w) == 0x32
    ensures RunPlain(env, c, TranslateCop2Memory(w).code) == ExecCop2Memory(c, w, pc) <==> Right(c, w)
  {
    hide RunPlain, Rs, Rt, Rd, Funct, Imm, SImm, ToBv, Eval, Address, Misaligned, Logged, Fits, Stored, WriteData,
         ReadWord, Aligned, WrittenByHelper, IsSub, Opcode;
    NotSub(w);
    var f := Decode(w);
    var a := Address(c, f);
    Cop2AddressAgrees(c, f);
    var addr := if f.simm == 0 then Gpr(f.rs) else Bin(Plus, Gpr(f.rs), Lit(ToBv(f.simm)));
    RunsCop2(env, c, TranslateCop2Memory(w).code.s);
    var v := ReadWord(c.mem, a);
    if !WrittenByHelper(f.rt) {
      StoredIff(Logged(c, a, 4), f.rt, v);
      LogFits(c, a, f.rt, v);
    }
  }

  lemma NotSub(w: Word)
    ensures Opcode(w) != 0x00 ==> !IsSub(w)
  {
  }

  lemma LogFits(c: Cpu, a: bv32, r: Reg, v: bv32)
    ensures Fits(Logged(c, a, 4), r, v) <==> Fits(c, r, v)
  {
    hide DataKept, SettleCtrl;
    assert forall q: Reg :: Holding(Logged(c, a, 4), q) <==> Holding(c, q);
  }

  lemma WriteWordIff(m: map<bv32, bv32>, a: bv32, x: bv32, y: bv32)
    ensures WriteWord(m, a, x) == WriteWord(m, a, y) <==> x == y
  {
    hide Aligned;
    PutGives(m, Aligned(a), x);
    PutGives(m, Aligned(a), y);
  }

  lemma PutGives<K, V>(m: map<K, V>, k: K, v: V)
    ensures m[k := v][k] == v
  {
  }

  /** SWC2 likewise. */
  lemma StoreCop2Iff(env: Env, c: Cpu, w: Word, pc: int)
    requires Zeroed(c) && Opcode(w) == 0x3A
    ensures RunPlain(env, c, TranslateCop2Memory(w).code) == ExecCop2Memory(c, w, pc) <==> Right(c, w)
  {
    hide RunPlain, Rs, Rt, Rd, Funct, Imm, SImm, ToBv, Eval, Address, Misaligned, WriteWord, ReadData, Holding,
         Aligned, ReadByHelper, IsSub, Opcode;
    NotSub(w);
    var f := Decode(w);
    var a := Address(c, f);
    Cop2AddressAgrees(c, f);
    PlainRead(c, f.rt);
    DataReads(c, f.rt);
    var addr := if f.simm == 0 then Gpr(f.rs) else Bin(Plus, Gpr(f.rs), Lit(ToBv(f.simm)));
    var e := if ReadByHelper(f.rt) then DataBy(f.rt) else Data(f.rt);
    RunsCop2(env, c, GteStore(addr, e));
    WriteWordIff(c.mem, a, Eval(c, e), ReadData(c.gte, f.rt));
  }

  lemma DataReads(c: Cpu, r: Reg)
    ensures Eval(c, Data(r)) == c.gte[r] && Eval(c, DataBy(r)) == ReadData(c.gte, r)
  {
    hide ReadData;
  }

  // ---- Where the templates fail ----

  /** SUB of 1 from the least number: the instruction traps and the emitted code does not. */
  lemma SubTrapMissing(env: Env, c: Cpu, pc: int)
    requires Zeroed(c) && c.gpr[9] == 0x8000_0000 && c.gpr[10] == 1
    ensures IsSub(0x012A_4022) && RunPlain(env, c, TranslateSpecial(0x012A_4022, pc).code).Next?
    ensures ExecSpecial(env, c, 0x012A_4022, pc) == Trap(c, Overflow)
  {
    var w: Word := 0x012A_4022;
    assert Opcode(w) == 0x00 && Funct(w) == 0x22 && Rs(w) == 9 && Rt(w) == 10 && Rd(w) == 8;
    assert SInt(0x8000_0000) == -0x8000_0000 && SInt(1) == 1;
    hide Opcode, Rs, Rt, Rd, Funct, SInt, Eval, Shamt, ToBv;
  }

  /** lwc2 from address 2: the instruction traps and the emitted code reads. */
  lemma AddressErrorMissing(env: Env, c: Cpu, pc: int)
    requires Zeroed(c) && c.gpr[4] == 2
    ensures RunPlain(env, c, TranslateCop2Memory(0xC880_0000).code).Next? && ExecCop2Memory(c, 0xC880_0000, pc).Trap?
  {
    var w: Word := 0xC880_0000;
    assert Opcode(w) == 0x32 && Rs(w) == 4 && Rt(w) == 0 && SImm(w) == 0;
    hide Opcode, Rs, Rt, SImm, ToBv, RunCop2;
    AddZero(c.gpr[4]);
  }

  /** mtc2 into a half-word register that is assigned plainly: the emitted code keeps an upper half the
      coprocessor drops, for every such value and state. */
  lemma UpperHalfKept(env: Env, c: Cpu, w: Word)
    requires Zeroed(c) && Rs(w) == 0x04 && HalfWide(Rd(w)) && !WrittenByHelper(Rd(w))
    requires LowHalf(R(c, Rt(w))) != R(c, Rt(w))
    ensures RunPlain(env, c, TranslateCop2(w).code) != ExecCop2(env, c, w)
  {
    MoveInIff(env, c, w);
    hide RunPlain, ExecCop2, TranslateCop2, Rs, Rt, Rd, LowHalf, R;
  }

  /** Every supported word that does not end a slice: wherever its condition holds, the emitted statement
      does to the machine exactly what the instruction does, traps and reads included. */
  lemma PlainAgrees(env: Env, c: Cpu, w: Word, pc: int)
    requires Zeroed(c) && Translate(w, pc).Plain? && Right(c, w)
    ensures RunPlain(env, c, Translate(w, pc).code) == Exec(env, c, w, pc)
  {
    hide RunPlain, ExecSpecial, ExecImmediate, ExecLoad, ExecStore, ExecCop0, ExecCop2, ExecCop2Memory,
         TranslateSpecial, TranslateImmediate, TranslateLoad, TranslateStore, TranslateCop0, TranslateCop2,
         TranslateCop2Memory, SubOverflows, Address, Lane, RightMove, Misaligned, Fits, Holding, ReadWord, R;
    var op := Opcode(w);
    if w == 0 {
      NopAgrees(env, c, pc);
    } else if op == 0x00 {
      if IsSub(w) { SubIff(env, c, w, pc); } else { SpecialAgrees(env, c, w, pc); }
    } else if 0x08 <= op <= 0x0F {
      ImmediateAgrees(env, c, w);
    } else if 0x20 <= op <= 0x26 {
      LoadAgrees(env, c, w, pc);
    } else if op == 0x2A || op == 0x2E {
      StorePartAgrees(env, c, w, pc);
    } else if 0x28 <= op <= 0x2E {
      StoreAgrees(env, c, w, pc);
    } else if op == 0x10 {
      Cop0Agrees(env, c, w);
    } else if op == 0x12 {
      MoveIff(env, c, w);
    } else if op == 0x32 {
      LoadCop2Iff(env, c, w, pc);
    } else if op == 0x3A {
      StoreCop2Iff(env, c, w, pc);
    }
  }

  lemma NopAgrees(env: Env, c: Cpu, pc: int)
    ensures RunPlain(env, c, Comment) == ExecSpecial(env, c, 0, pc)
  {
    hide Eval, ToBv, Shl, Shamt;
    assert Decode(0).rd == 0 && Decode(0).fn == 0;
  }

  lemma SpecialAgrees(env: Env, c: Cpu, w: Word, pc: int)
    requires Zeroed(c) && Opcode(w) == 0x00 && !IsSub(w) && TranslateSpecial(w, pc).Plain?
    ensures RunPlain(env, c, TranslateSpecial(w, pc).code) == ExecSpecial(env, c, w, pc)
  {
    SpecialKinds(w, pc);
    hide RunPlain, ExecSpecial, TranslateSpecial;
    if Funct(w) in {0x00, 0x02, 0x03, 0x04, 0x06, 0x07} {
      ShiftsAgree(env, c, w, pc);
    } else if Funct(w) in {0x0C, 0x0D, 0x10, 0x11, 0x12, 0x13} {
      MovesAgree(env, c, w, pc);
    } else if Funct(w) in {0x19, 0x1A, 0x1B} {
      MulDivAgree(env, c, w, pc);
    } else if Funct(w) in {0x20, 0x21, 0x23, 0x27} {
      ArithmeticAgrees(env, c, w, pc);
    } else if Funct(w) in {0x24, 0x25, 0x26} {
      LogicAgrees(env, c, w, pc);
    } else {
      CompareAgrees(env, c, w, pc);
    }
  }

  lemma SpecialKinds(w: Word, pc: int)
    requires TranslateSpecial(w, pc).Plain?
    ensures Funct(w) in {0x00, 0x02, 0x03, 0x04, 0x06, 0x07, 0x0C, 0x0D, 0x10, 0x11, 0x12, 0x13, 0x19, 0x1A, 0x1B,
                         0x20, 0x21, 0x22, 0x23, 0x24, 0x25, 0x26, 0x27, 0x2A, 0x2B}
  {
  }
}
