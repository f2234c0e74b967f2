/** The reference machine: what each R3000A instruction does to the registers and the memory, and
    how control moves with branch delay slots. Registers hold 32-bit vectors; addresses of
    instructions are integers below 2^32. Loads take effect at once (no load-delay slot). */
module Isa {
  import opened Mips

  type Regs = s: seq<bv32> | |s| == 32 witness seq(32, _ => 0)

  /** A memory read made by a load instruction. */
  datatype Load = Load(addr: bv32, width: int)

  /** `mem` holds the word at each aligned address (absent words read as zero); `loads` is the
      history of reads, which devices may observe; `gte` and `ctrl` are the data and control registers
      of coprocessor 2. */
  datatype Cpu = Cpu(gpr: Regs, hi: bv32, lo: bv32, cop0: Regs, gte: Regs, ctrl: Regs,
                     mem: map<bv32, bv32>, loads: seq<Load>)

  /** Code this model does not contain: the system-call service, which answers whether it took over
      control, and the commands of coprocessor 2, which work on its own registers. */
  datatype Env = Env(syscall: (Cpu, int) -> (Cpu, bool), command: (Regs, Regs, int) -> (Regs, Regs))
  {
    ghost predicate Valid() {
      forall c: Cpu, pc: int :: c.gpr[0] == 0 ==> syscall(c, pc).0.gpr[0] == 0
    }
  }

  datatype Cause = Overflow | Unaligned(addr: bv32, pc: int) | TakenOver | Break(code: int, pc: int) | Reserved(w: Word)

  datatype Outcome = Next(cpu: Cpu) | Go(cpu: Cpu, pc: int) | Trap(cpu: Cpu, cause: Cause)

  // ---- Words ----

  function ToBv(i: int): bv32 { (i % 0x1_0000_0000) as bv32 }
  function ToAddr(x: bv32): int { x as int }
  function SInt(x: bv32): int { if x < 0x8000_0000 then x as int else x as int - 0x1_0000_0000 }
  function Shamt(w: Word): bv32 { ToBv(w / 64 % 32) & 0x1F }

  predicate Negative(x: bv32) { x & 0x8000_0000 != 0 }

  /** Signed order by sign bits. */
  predicate SignedLess(a: bv32, b: bv32) {
    if Negative(a) != Negative(b) then Negative(a) else LessW(a, b)
  }

  // The word operators, under names that proofs can hide.

  function AddW(x: bv32, y: bv32): bv32 { x + y }
  function SubW(x: bv32, y: bv32): bv32 { x - y }
  function AndW(x: bv32, y: bv32): bv32 { x & y }
  function OrW(x: bv32, y: bv32): bv32 { x | y }
  function XorW(x: bv32, y: bv32): bv32 { x ^ y }
  function NotW(x: bv32): bv32 { !x }
  predicate LessW(x: bv32, y: bv32) { x as int < y as int }
  function Flag(b: bool): bv32 { if b then 1 else 0 }

  /** The address is not a multiple of the access width. */
  predicate Misaligned(a: bv32, width: int) { (width == 2 && a & 1 != 0) || (width == 4 && a & 3 != 0) }

  // Shifts by 0 to 31; the count of every shift instruction is masked to that range.

  function Shl(x: bv32, n: bv32): bv32 { if n < 32 then x << n else 0 }
  function Shr(x: bv32, n: bv32): bv32 { if n < 32 then x >> n else 0 }
  function Sra(x: bv32, n: bv32): bv32 { if n >= 32 then 0 else if Negative(x) then !(!x >> n) else x >> n }

  /** A signed result that 32 bits cannot hold. */
  predicate TooWide(n: int) { n < -0x8000_0000 || n > 0x7FFF_FFFF }

  predicate AddOverflows(a: bv32, b: bv32) { TooWide(SInt(a) + SInt(b)) }

  predicate SubOverflows(a: bv32, b: bv32) { TooWide(SInt(a) - SInt(b)) }

  function SignExtend8(x: bv32): bv32 { if x & 0x80 != 0 then x | 0xFFFF_FF00 else x }
  function SignExtend16(x: bv32): bv32 { if x & 0x8000 != 0 then x | 0xFFFF_0000 else x }

  /** RFE pops the interrupt-enable stack of the status register; its oldest pair stays where it is. */
  function PopStatus(sr: bv32): bv32 { (sr & 0xFFFF_FFF0) | ((sr >> 2) & 0x0F) }

  // ---- Registers and memory ----

  /** Register 0 reads as zero. */
  function R(c: Cpu, r: Reg): bv32 { if r == 0 then 0 else c.gpr[r] }

  /** Writes to register 0 are discarded. */
  function Set(c: Cpu, r: Reg, v: bv32): Cpu { if r == 0 then c else c.(gpr := c.gpr[r := v]) }

  function Aligned(a: bv32): bv32 { a & 0xFFFF_FFFC }
  function Lane(a: bv32): bv32 { a & 3 }

  function Get<K, V>(m: map<K, V>, k: K, absent: V): V { if k in m then m[k] else absent }

  function ReadWord(m: map<bv32, bv32>, a: bv32): bv32 { Get(m, Aligned(a), 0) }
  function WriteWord(m: map<bv32, bv32>, a: bv32, v: bv32): map<bv32, bv32> { m[Aligned(a) := v] }

  /** Byte k of a word, least significant first. */
  function ByteOf(x: bv32, k: bv32): bv32
    requires k < 4
  {
    (x >> (k * 8)) & 0xFF
  }

  function WithByte(x: bv32, k: bv32, b: bv32): bv32
    requires k < 4
  {
    (x & !(0xFF << (k * 8))) | ((b & 0xFF) << (k * 8))
  }

  function LowByte(v: bv32): bv32 { v & 0xFF }
  function LowHalf(v: bv32): bv32 { v & 0xFFFF }

  function WithHalf(x: bv32, a: bv32, h: bv32): bv32 {
    (x & !(0xFFFF << ((a & 2) * 8))) | ((h & 0xFFFF) << ((a & 2) * 8))
  }

  function LoadByte(m: map<bv32, bv32>, a: bv32): bv32 { ByteOf(ReadWord(m, a), Lane(a)) }
  function HalfOf(x: bv32, a: bv32): bv32 { (x >> ((a & 2) * 8)) & 0xFFFF }
  function LoadHalf(m: map<bv32, bv32>, a: bv32): bv32 { HalfOf(ReadWord(m, a), a) }
  function StoreByte(m: map<bv32, bv32>, a: bv32, v: bv32): map<bv32, bv32> {
    WriteWord(m, a, WithByte(ReadWord(m, a), Lane(a), LowByte(v)))
  }
  function StoreHalf(m: map<bv32, bv32>, a: bv32, v: bv32): map<bv32, bv32> {
    WriteWord(m, a, WithHalf(ReadWord(m, a), a, LowHalf(v)))
  }

  /** LWL: memory bytes 0..k go to the k+1 most significant bytes of the register, k the lane. */
  function MergeLeft(prior: bv32, word: bv32, k: bv32): bv32
    requires k < 4
  {
    if k == 0 then WithByte(prior, 3, ByteOf(word, 0))
    else if k == 1 then WithByte(WithByte(prior, 3, ByteOf(word, 1)), 2, ByteOf(word, 0))
    else if k == 2 then WithByte(WithByte(WithByte(prior, 3, ByteOf(word, 2)), 2, ByteOf(word, 1)), 1, ByteOf(word, 0))
    else word
  }

  /** LWR: memory bytes k..3 go to the 4-k least significant bytes of the register. */
  function MergeRight(prior: bv32, word: bv32, k: bv32): bv32
    requires k < 4
  {
    if k == 3 then WithByte(prior, 0, ByteOf(word, 3))
    else if k == 2 then WithByte(WithByte(prior, 0, ByteOf(word, 2)), 1, ByteOf(word, 3))
    else if k == 1 then WithByte(WithByte(WithByte(prior, 0, ByteOf(word, 1)), 1, ByteOf(word, 2)), 2, ByteOf(word, 3))
    else word
  }

  /** SWL: the k+1 most significant bytes of the register go to memory bytes 0..k. */
  function SpillLeft(mem: bv32, reg: bv32, k: bv32): bv32
    requires k < 4
  {
    if k == 0 then WithByte(mem, 0, ByteOf(reg, 3))
    else if k == 1 then WithByte(WithByte(mem, 0, ByteOf(reg, 2)), 1, ByteOf(reg, 3))
    else if k == 2 then WithByte(WithByte(WithByte(mem, 0, ByteOf(reg, 1)), 1, ByteOf(reg, 2)), 2, ByteOf(reg, 3))
    else reg
  }

  /** SWR: the 4-k least significant bytes of the register go to memory bytes k..3. */
  function SpillRight(mem: bv32, reg: bv32, k: bv32): bv32
    requires k < 4
  {
    if k == 3 then WithByte(mem, 3, ByteOf(reg, 0))
    else if k == 2 then WithByte(WithByte(mem, 2, ByteOf(reg, 0)), 3, ByteOf(reg, 1))
    else if k == 1 then WithByte(WithByte(WithByte(mem, 1, ByteOf(reg, 0)), 2, ByteOf(reg, 1)), 3, ByteOf(reg, 2))
    else reg
  }

  // ---- Multiply and divide ----

  function Abs(x: int): nat { if x < 0 then -x else x }

  /** Signed division: the quotient has the sign of the ratio, the remainder that of the dividend. */
  function Quotient(n: int, d: int): int
    requires d != 0
  {
    if (n < 0) == (d < 0) then Abs(n) / Abs(d) else -(Abs(n) / Abs(d))
  }

  function Remainder(n: int, d: int): int
    requires d != 0
  {
    if n < 0 then -(Abs(n) % Abs(d)) else Abs(n) % Abs(d)
  }

  function Divide(c: Cpu, a: bv32, b: bv32): Cpu {
    if b == 0 then c.(lo := if Negative(a) then 1 else 0xFFFF_FFFF, hi := a)
    else c.(lo := ToBv(Quotient(SInt(a), SInt(b))), hi := ToBv(Remainder(SInt(a), SInt(b))))
  }

  function Ratio(n: nat, d: nat): nat
    requires d != 0
  {
    n / d
  }

  function Rest(n: nat, d: nat): nat
    requires d != 0
  {
    n % d
  }

  function DivideUnsigned(c: Cpu, a: bv32, b: bv32): Cpu {
    if b == 0 then c.(lo := 0xFFFF_FFFF, hi := a)
    else c.(lo := ToBv(Ratio(a as int, b as int)), hi := ToBv(Rest(a as int, b as int)))
  }

  function MultiplyUnsigned(c: Cpu, a: bv32, b: bv32): Cpu {
    var p := a as int * b as int;
    c.(lo := ToBv(p), hi := ToBv(p / 0x1_0000_0000))
  }

  /** The upper word of a negative product is that of its floor division. */
  function Multiply(c: Cpu, a: bv32, b: bv32): Cpu {
    var p := SInt(a) * SInt(b);
    c.(lo := ToBv(p), hi := ToBv(p / 0x1_0000_0000))
  }

  // ---- Instructions ----

  function ExecSpecial(env: Env, c: Cpu, w: Word, pc: int): Outcome {
    var f := Decode(w);
    var a, b := R(c, f.rs), R(c, f.rt);
    match f.fn
    case 0x00 => Next(Set(c, f.rd, Shl(b, Shamt(w))))
    case 0x02 => Next(Set(c, f.rd, Shr(b, Shamt(w))))
    case 0x03 => Next(Set(c, f.rd, Sra(b, Shamt(w))))
    case 0x04 => Next(Set(c, f.rd, Shl(b, AndW(a, 0x1F))))
    case 0x06 => Next(Set(c, f.rd, Shr(b, AndW(a, 0x1F))))
    case 0x07 => Next(Set(c, f.rd, Sra(b, AndW(a, 0x1F))))
    case 0x08 => Go(c, ToAddr(a))
    case 0x09 => Go(Set(c, f.rd, ToBv(pc + 8)), ToAddr(a))
    case 0x0C =>
      var (c', taken) := env.syscall(c, pc);
      if taken then Trap(c', TakenOver) else Next(c')
    case 0x0D => Trap(c, Break(w / 64 % 0x10_0000, pc))
    case 0x10 => Next(Set(c, f.rd, c.hi))
    case 0x11 => Next(c.(hi := a))
    case 0x12 => Next(Set(c, f.rd, c.lo))
    case 0x13 => Next(c.(lo := a))
    case 0x18 => Next(Multiply(c, a, b))
    case 0x19 => Next(MultiplyUnsigned(c, a, b))
    case 0x1A => Next(Divide(c, a, b))
    case 0x1B => Next(DivideUnsigned(c, a, b))
    case 0x20 => if AddOverflows(a, b) then Trap(c, Overflow) else Next(Set(c, f.rd, AddW(a, b)))
    case 0x21 => Next(Set(c, f.rd, AddW(a, b)))
    case 0x22 => if SubOverflows(a, b) then Trap(c, Overflow) else Next(Set(c, f.rd, SubW(a, b)))
    case 0x23 => Next(Set(c, f.rd, SubW(a, b)))
    case 0x24 => Next(Set(c, f.rd, AndW(a, b)))
    case 0x25 => Next(Set(c, f.rd, OrW(a, b)))
    case 0x26 => Next(Set(c, f.rd, XorW(a, b)))
    case 0x27 => Next(Set(c, f.rd, NotW(OrW(a, b))))
    case 0x2A => Next(Set(c, f.rd, Flag(SignedLess(a, b))))
    case 0x2B => Next(Set(c, f.rd, Flag(LessW(a, b))))
    case _ => Trap(c, Reserved(w))
  }

  function ExecImmediate(c: Cpu, w: Word): Outcome {
    var f := Decode(w);
    var a, s, u := R(c, f.rs), ToBv(f.simm), ToBv(f.imm);
    match f.op
    case 0x08 => if AddOverflows(a, s) then Trap(c, Overflow) else Next(Set(c, f.rt, AddW(a, s)))
    case 0x09 => Next(Set(c, f.rt, AddW(a, s)))
    case 0x0A => Next(Set(c, f.rt, Flag(SignedLess(a, s))))
    case 0x0B => Next(Set(c, f.rt, Flag(LessW(a, s))))
    case 0x0C => Next(Set(c, f.rt, AndW(a, u)))
    case 0x0D => Next(Set(c, f.rt, OrW(a, u)))
    case 0x0E => Next(Set(c, f.rt, XorW(a, u)))
    case 0x0F => Next(Set(c, f.rt, Shl(u, 16)))
    case _ => Trap(c, Reserved(w))
  }

  function Address(c: Cpu, f: Fields): bv32 { AddW(R(c, f.rs), ToBv(f.simm)) }

  function Logged(c: Cpu, a: bv32, width: int): Cpu { c.(loads := c.loads + [Load(a, width)]) }

  function ExecLoad(c: Cpu, w: Word, pc: int): Outcome {
    var f := Decode(w);
    var a := Address(c, f);
    match f.op
    case 0x20 => Next(Set(Logged(c, a, 1), f.rt, SignExtend8(LoadByte(c.mem, a))))
    case 0x24 => Next(Set(Logged(c, a, 1), f.rt, LoadByte(c.mem, a)))
    case 0x21 => if Misaligned(a, 2) then Trap(c, Unaligned(a, pc))
        else Next(Set(Logged(c, a, 2), f.rt, SignExtend16(LoadHalf(c.mem, a))))
    case 0x25 => if Misaligned(a, 2) then Trap(c, Unaligned(a, pc))
        else Next(Set(Logged(c, a, 2), f.rt, LoadHalf(c.mem, a)))
    case 0x23 => if Misaligned(a, 4) then Trap(c, Unaligned(a, pc))
        else Next(Set(Logged(c, a, 4), f.rt, ReadWord(c.mem, a)))
    case 0x22 => Next(Set(Logged(c, Aligned(a), 4), f.rt, MergeLeft(R(c, f.rt), ReadWord(c.mem, a), Lane(a))))
    case 0x26 => Next(Set(Logged(c, Aligned(a), 4), f.rt, MergeRight(R(c, f.rt), ReadWord(c.mem, a), Lane(a))))
    case _ => Trap(c, Reserved(w))
  }

  function ExecStore(c: Cpu, w: Word, pc: int): Outcome {
    var f := Decode(w);
    var a, v := Address(c, f), R(c, f.rt);
    match f.op
    case 0x28 => Next(c.(mem := StoreByte(c.mem, a, v)))
    case 0x29 => if Misaligned(a, 2) then Trap(c, Unaligned(a, pc)) else Next(c.(mem := StoreHalf(c.mem, a, v)))
    case 0x2B => if Misaligned(a, 4) then Trap(c, Unaligned(a, pc)) else Next(c.(mem := WriteWord(c.mem, a, v)))
    case 0x2A => Next(c.(mem := WriteWord(c.mem, a, SpillLeft(ReadWord(c.mem, a), v, Lane(a)))))
    case 0x2E => Next(c.(mem := WriteWord(c.mem, a, SpillRight(ReadWord(c.mem, a), v, Lane(a)))))
    case _ => Trap(c, Reserved(w))
  }

  function ExecCop0(c: Cpu, w: Word): Outcome {
    var f := Decode(w);
    if w == 0x4200_0010 then
      var sr := c.cop0[12];
      Next(c.(cop0 := c.cop0[12 := PopStatus(sr)]))
    else if f.rs == 0 then Next(Set(c, f.rt, c.cop0[f.rd]))
    else if f.rs == 4 then Next(c.(cop0 := c.cop0[f.rd := R(c, f.rt)]))
    else Trap(c, Reserved(w))
  }

  // ---- Coprocessor 2 registers ----

  /** Data registers that are computed from others at every read; what the register file holds under
      their numbers is never looked at. */
  predicate Computed(r: Reg) { r in {15, 28, 29, 31} }

  /** Data registers of half a word. */
  predicate HalfWide(r: Reg) { r in {1, 3, 5, 7, 16, 17, 18, 19} }

  /** What a data register holds of a value written to it: half-word registers drop the upper half or
      copy the sign into it, and register 23 is always zero. */
  function DataKept(r: Reg, v: bv32): bv32 {
    if HalfWide(r) then LowHalf(v)
    else if 8 <= r <= 11 then SignExtend16(LowHalf(v))
    else if r == 23 then 0
    else v
  }

  function SettledData(d: Regs, r: Reg): bv32 { if Computed(r) then d[r] else DataKept(r, d[r]) }

  /** The register file with every register holding what its width allows. */
  function Settle(d: Regs): Regs { seq(32, r requires 0 <= r < 32 => SettledData(d, r)) }

  function CtrlKept(r: Reg, v: bv32): bv32 {
    if r in {4, 12, 20, 26} then LowHalf(v) else if r in {27, 29, 30} then SignExtend16(LowHalf(v)) else v
  }

  function SettleCtrl(k: Regs): Regs { seq(32, r requires 0 <= r < 32 => CtrlKept(r, k[r])) }

  /** A colour component: bits 7 and up of an intermediate result, held to five bits. */
  function Component(x: bv32): bv32 { if Negative(x) then 0 else if Shr(x, 7) > 0x1F then 0x1F else Shr(x, 7) }

  /** Three components of five bits in one word, and each of them back. */
  function Pack(r: bv32, g: bv32, b: bv32): bv32 { (b << 10) | (g << 5) | r }
  function Red(v: bv32): bv32 { (v & 0x1F) << 7 }
  function Green(v: bv32): bv32 { ((v >> 5) & 0x1F) << 7 }
  function Blue(v: bv32): bv32 { ((v >> 10) & 0x1F) << 7 }

  function Colour(d: Regs): bv32 {
    Pack(Component(DataKept(9, d[9])), Component(DataKept(10, d[10])), Component(DataKept(11, d[11])))
  }

  /** The sign bits of a negative value turned to zeros. */
  function Unsigned(v: bv32): bv32 { if Negative(v) then !v else v }

  /** How many of the upper n bits are clear. */
  function LeadingZeros(v: bv32, n: nat): bv32
    decreases n
  {
    if n == 0 || Negative(v) then 0 else AddW(1, LeadingZeros(Shl(v, 1), n - 1))
  }

  function ReadData(d: Regs, r: Reg): bv32 {
    if r == 15 then d[14]
    else if r == 28 || r == 29 then Colour(d)
    else if r == 31 then LeadingZeros(Unsigned(d[30]), 32)
    else DataKept(r, d[r])
  }

  function ReadCtrl(k: Regs, r: Reg): bv32 { CtrlKept(r, k[r]) }

  /** A write before widths are enforced: register 15 pushes a queue of three, 28 spreads a colour. */
  function Put(d: Regs, r: Reg, v: bv32): Regs {
    if r == 15 then d[12 := d[13]][13 := d[14]][14 := v]
    else if r == 28 then d[9 := Red(v)][10 := Green(v)][11 := Blue(v)]
    else if r == 29 || r == 31 then d
    else d[r := v]
  }

  function PutCtrl(k: Regs, r: Reg, v: bv32): Regs { k[r := if r == 31 then v & 0x7FFF_F000 else v] }

  function WriteData(c: Cpu, r: Reg, v: bv32): Cpu { c.(gte := Settle(Put(c.gte, r, v)), ctrl := SettleCtrl(c.ctrl)) }

  function WriteCtrl(c: Cpu, r: Reg, v: bv32): Cpu {
    c.(gte := Settle(c.gte), ctrl := SettleCtrl(PutCtrl(c.ctrl, r, v)))
  }

  function Commanded(env: Env, c: Cpu, command: int): Cpu {
    var (d, k) := env.command(c.gte, c.ctrl, command);
    c.(gte := d, ctrl := k)
  }

  /** MFC2, CFC2, MTC2, CTC2 and the commands. */
  function ExecCop2(env: Env, c: Cpu, w: Word): Outcome {
    var f := Decode(w);
    if f.rs == 0x00 then Next(Set(c, f.rt, ReadData(c.gte, f.rd)))
    else if f.rs == 0x02 then Next(Set(c, f.rt, ReadCtrl(c.ctrl, f.rd)))
    else if f.rs == 0x04 then Next(WriteData(c, f.rd, R(c, f.rt)))
    else if f.rs == 0x06 then Next(WriteCtrl(c, f.rd, R(c, f.rt)))
    else if f.rs >= 0x10 then Next(Commanded(env, c, w % 0x200_0000))
    else Trap(c, Reserved(w))
  }

  /** LWC2 and SWC2. */
  function ExecCop2Memory(c: Cpu, w: Word, pc: int): Outcome {
    var f := Decode(w);
    var a := Address(c, f);
    if Misaligned(a, 4) then Trap(c, Unaligned(a, pc))
    else if f.op == 0x32 then Next(WriteData(Logged(c, a, 4), f.rt, ReadWord(c.mem, a)))
    else Next(c.(mem := WriteWord(c.mem, a, ReadData(c.gte, f.rt))))
  }

  /** Whether a conditional branch is taken; None for words that are not one of them. */
  function Taken(c: Cpu, w: Word): Option<bool> {
    var f := Decode(w);
    var a, b := R(c, f.rs), R(c, f.rt);
    if f.op == 0x04 then Some(a == b)
    else if f.op == 0x05 then Some(a != b)
    else if f.op == 0x06 then Some(Negative(a) || a == 0)
    else if f.op == 0x07 then Some(!(Negative(a) || a == 0))
    else if f.op == 0x01 && f.rt in {0x00, 0x10} then Some(Negative(a))
    else if f.op == 0x01 && f.rt in {0x01, 0x11} then Some(!Negative(a))
    else None
  }

  /** BLTZAL and BGEZAL write the link register, taken or not; the other branches write nothing. */
  function BranchLinked(c: Cpu, w: Word, pc: int): Cpu {
    if Opcode(w) == 0x01 && Rt(w) in {0x10, 0x11} then Set(c, 31, ToBv(pc + 8)) else c
  }

  /** One instruction at pc. A transfer of control names the address that follows its delay slot. */
  function Exec(env: Env, c: Cpu, w: Word, pc: int): Outcome {
    var op := Opcode(w);
    if op == 0x00 then ExecSpecial(env, c, w, pc)
    else if Taken(c, w).Some? then
      Go(BranchLinked(c, w, pc), if Taken(c, w).value then Wrap(BranchTarget(pc, w)) else Wrap(pc + 8))
    else if op == 0x02 then Go(c, JumpTarget(pc, w))
    else if op == 0x03 then Go(Set(c, 31, ToBv(pc + 8)), JumpTarget(pc, w))
    else if 0x08 <= op <= 0x0F then ExecImmediate(c, w)
    else if 0x20 <= op <= 0x26 then ExecLoad(c, w, pc)
    else if 0x28 <= op <= 0x2E then ExecStore(c, w, pc)
    else if op == 0x10 then ExecCop0(c, w)
    else if op == 0x12 then ExecCop2(env, c, w)
    else if op == 0x32 || op == 0x3A then ExecCop2Memory(c, w, pc)
    else Trap(c, Reserved(w))
  }

  // ---- The machine with delay slots ----

  datatype Machine = Running(cpu: Cpu, pc: int, npc: int) | Halted(cpu: Cpu, cause: Cause) | Lost(cpu: Cpu)

  /** Fetch at pc, execute, continue at npc: a transfer takes effect one instruction later. */
  function Step(env: Env, rom: Image, m: Machine): Machine {
    if !m.Running? then m
    else
      var w := WordAt(rom, m.pc);
      if w.None? then Lost(m.cpu)
      else
        match Exec(env, m.cpu, w.value, m.pc)
        case Next(c) => Running(c, m.npc, Wrap(m.npc + 4))
        case Go(c, t) => Running(c, m.npc, t)
        case Trap(c, cause) => Halted(c, cause)
  }

  function Steps(env: Env, rom: Image, m: Machine, n: nat): Machine
    decreases n
  {
    if n == 0 then m else Steps(env, rom, Step(env, rom, m), n - 1)
  }
}
