/** Writing instruction words: the inverse of reading their fields, and of the targets of branches and jumps. */
module Encoding {
  import opened Mips

  type Op = i: int | 0 <= i < 64

  /** A word with opcode 0: the operation is in the lowest six bits, a shift count above it. */
  function RType(fn: Op, rs: Reg, rt: Reg, rd: Reg, sa: Reg): Word {
    rs * 0x20_0000 + rt * 0x1_0000 + rd * 0x800 + sa * 0x40 + fn
  }

  function IType(op: Op, rs: Reg, rt: Reg, imm: Imm16): Word {
    op * 0x400_0000 + rs * 0x20_0000 + rt * 0x1_0000 + imm
  }

  function JType(op: Op, index: int): Word
    requires 0 <= index < 0x400_0000
  {
    op * 0x400_0000 + index
  }

  /** The halfword of a branch offset in words. */
  function Offset16(n: int): Imm16
    requires -0x8000 <= n < 0x8000
  {
    if n < 0 then n + 0x1_0000 else n
  }

  lemma Peel(n: int, d: int, q: int, r: int)
    requires n == q * d + r && 0 <= r < d
    ensures n / d == q && n % d == r
  {
    var e := n / d;
    Larger(e + 1, q, d);
    Larger(q + 1, e, d);
    assert e * d <= n < e * d + d;
    assert (e + 1) * d == e * d + d && (q + 1) * d == q * d + d;
  }

  lemma Larger(a: int, b: int, d: int)
    requires d > 0
    ensures a <= b ==> a * d <= b * d
  {
  }

  lemma IFields(op: Op, rs: Reg, rt: Reg, imm: Imm16)
    ensures var w := IType(op, rs, rt, imm); Opcode(w) == op && Rs(w) == rs && Rt(w) == rt && Imm(w) == imm
    ensures SImm(IType(op, rs, rt, imm)) == if imm < 0x8000 then imm else imm - 0x1_0000
  {
    var w := IType(op, rs, rt, imm);
    Peel(w, 0x1_0000, (op * 32 + rs) * 32 + rt, imm);
    Peel((op * 32 + rs) * 32 + rt, 32, op * 32 + rs, rt);
    Peel(w, 0x20_0000, op * 32 + rs, rt * 0x1_0000 + imm);
    Peel(op * 32 + rs, 32, op, rs);
    Peel(w, 0x400_0000, op, rs * 0x20_0000 + rt * 0x1_0000 + imm);
  }

  lemma RFields(fn: Op, rs: Reg, rt: Reg, rd: Reg, sa: Reg)
    ensures var w := RType(fn, rs, rt, rd, sa);
            && Opcode(w) == 0 && Rs(w) == rs && Rt(w) == rt && Rd(w) == rd && Funct(w) == fn && w / 0x40 % 32 == sa
  {
    var w := RType(fn, rs, rt, rd, sa);
    var low := rd * 0x800 + sa * 0x40 + fn;
    IFields(0, rs, rt, low);
    Peel(w, 0x40, ((rs * 32 + rt) * 32 + rd) * 32 + sa, fn);
    Peel(((rs * 32 + rt) * 32 + rd) * 32 + sa, 32, (rs * 32 + rt) * 32 + rd, sa);
    Peel(w, 0x800, (rs * 32 + rt) * 32 + rd, sa * 0x40 + fn);
    Peel((rs * 32 + rt) * 32 + rd, 32, rs * 32 + rt, rd);
  }

  lemma JFields(op: Op, index: int)
    requires 0 <= index < 0x400_0000
    ensures Opcode(JType(op, index)) == op && JType(op, index) % 0x400_0000 == index
  {
  }

  /** Every word is written from its fields. */
  lemma EveryWord(w: Word)
    ensures 0 <= Opcode(w) < 64 && IType(Opcode(w), Rs(w), Rt(w), Imm(w)) == w
    ensures JType(Opcode(w), w % 0x400_0000) == w
    ensures 0 <= Funct(w) < 64 && (Opcode(w) == 0 ==> RType(Funct(w), Rs(w), Rt(w), Rd(w), w / 0x40 % 32) == w)
  {
    var a := w / 0x1_0000;
    var b := a / 32;
    assert b == w / 0x20_0000 && b / 32 == w / 0x400_0000;
    var p := w / 0x40;
    var q := p / 32;
    assert q == w / 0x800 && q / 32 == w / 0x1_0000;
  }

  /** A branch n words ahead of its delay slot goes there. */
  lemma BranchBack(pc: int, op: Op, rs: Reg, rt: Reg, n: int)
    requires -0x8000 <= n < 0x8000
    ensures BranchTarget(pc, IType(op, rs, rt, Offset16(n))) == pc + 4 + 4 * n
  {
    hide Imm, IType;
    IFields(op, rs, rt, Offset16(n));
  }

  /** A jump to an aligned address in the segment of its delay slot goes there. */
  lemma JumpBack(pc: int, op: Op, t: nat)
    requires 0 <= pc + 4 < 0x1_0000_0000 && t % 4 == 0 && t / 0x1000_0000 == (pc + 4) / 0x1000_0000
    ensures JumpTarget(pc, JType(op, t / 4 % 0x400_0000)) == t
  {
    hide JType;
    var i := t / 4 % 0x400_0000;
    JFields(op, i);
    assert t / 4 / 0x400_0000 == t / 0x1000_0000;
  }

  /** The words of other segments cannot be named. */
  lemma JumpStays(pc: int, w: Word)
    requires 0 <= pc + 4 < 0x1_0000_0000
    ensures JumpTarget(pc, w) / 0x1000_0000 == (pc + 4) / 0x1000_0000 && JumpTarget(pc, w) % 4 == 0
  {
    var s, i := (pc + 4) / 0x1000_0000, w % 0x400_0000;
    assert JumpTarget(pc, w) == s * 0x1000_0000 + 4 * i;
    assert 0 <= 4 * i < 0x1000_0000;
  }
}
