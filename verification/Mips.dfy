/** Memory images, instruction fields and control-flow classification of MIPS R3000A words, as
    the overlay tool reads them. Words and addresses are integers: the tool computes on unbounded
    integers, and 32-bit wrap-around is written out where the machine wraps. */
module Mips {

  type Byte = b: int | 0 <= b < 0x100
  type Word = w: int | 0 <= w < 0x1_0000_0000

  type Reg = r: int | 0 <= r < 32
  type Imm16 = i: int | 0 <= i < 0x1_0000

  datatype Option<+T> = None | Some(value: T)

  /** A captured region: its bytes, its load address, and the size that was recorded for it. The
      recorded size bounds the region and the bytes bound the fetches; the two may differ. */
  datatype Image = Image(data: seq<Byte>, load: nat, size: nat)

  function LittleEndian(b0: Byte, b1: Byte, b2: Byte, b3: Byte): Word {
    b0 + 0x100 * b1 + 0x1_0000 * b2 + 0x100_0000 * b3
  }

  function WordAt(img: Image, addr: int): Option<Word> {
    var off := addr - img.load;
    if off < 0 || off + 4 > |img.data| then None
    else Some(LittleEndian(img.data[off], img.data[off + 1], img.data[off + 2], img.data[off + 3]))
  }

  /** An aligned address inside the recorded region. */
  predicate InRegion(img: Image, a: int) {
    img.load <= a < img.load + img.size && a % 4 == 0
  }

  // ---- Instruction fields ----

  function Opcode(w: Word): int { w / 0x400_0000 }
  function Rs(w: Word): Reg { w / 0x20_0000 % 32 }
  function Rt(w: Word): Reg { w / 0x1_0000 % 32 }
  function Rd(w: Word): Reg { w / 0x800 % 32 }
  function Funct(w: Word): int { w % 64 }
  function Imm(w: Word): Imm16 { w % 0x1_0000 }
  function SImm(w: Word): int { if Imm(w) >= 0x8000 then Imm(w) - 0x1_0000 else Imm(w) }

  datatype Fields = Fields(op: int, rs: Reg, rt: Reg, rd: Reg, fn: int, imm: Imm16, simm: int)

  function Decode(w: Word): Fields {
    Fields(Opcode(w), Rs(w), Rt(w), Rd(w), Funct(w), Imm(w), SImm(w))
  }

  function JumpTarget(pc: int, w: Word): int {
    (pc + 4) / 0x1000_0000 % 16 * 0x1000_0000 + w % 0x400_0000 * 4
  }

  function BranchTarget(pc: int, w: Word): int {
    pc + 4 + SImm(w) * 4
  }

  const PHYSICAL := 0x2000_0000

  /** The physical address: the segment bits are dropped. */
  function Phys(a: int): nat { a % PHYSICAL }

  /** An address in 32 bits. */
  function Wrap(a: int): Word { a % 0x1_0000_0000 }

  // ---- Control flow ----

  datatype Flow =
    | Normal
    | Branch(target: int)
    | Jump(target: int)
    | Call(target: int)
    | CallReg
    | JumpReg(rs: Reg)
    | Return

  function Classify(pc: int, w: Word): Flow {
    var op := Opcode(w);
    if op == 0 && Funct(w) == 0x08 then (if Rs(w) == 31 then Return else JumpReg(Rs(w)))
    else if op == 0 && Funct(w) == 0x09 then CallReg
    else if op == 0x02 then Jump(JumpTarget(pc, w))
    else if op == 0x03 then Call(JumpTarget(pc, w))
    else if op in {0x01, 0x04, 0x05, 0x06, 0x07, 0x14, 0x15, 0x16, 0x17} then Branch(BranchTarget(pc, w))
    else Normal
  }

  predicate IsControlFlow(w: Word) {
    Classify(0, w) != Normal
  }

  // ---- Boundary evidence ----

  predicate IsJrRa(w: Option<Word>) {
    w == Some(0x03E0_0008)
  }

  predicate IsAddiuSpNeg(w: Word) {
    Opcode(w) == 0x09 && Rs(w) == 29 && Rt(w) == 29 && Imm(w) >= 0x8000
  }

  predicate IsValidWord(w: Word) {
    w != 0xFFFF_FFFF && w != 0xFFFF_FFFD &&
    if Opcode(w) == 0 then
      Funct(w) in {
        0x00, 0x02, 0x03, 0x04, 0x06, 0x07, 0x08, 0x09, 0x0C, 0x0D, 0x10, 0x11, 0x12, 0x13,
        0x18, 0x19, 0x1A, 0x1B, 0x20, 0x21, 0x22, 0x23, 0x24, 0x25, 0x26, 0x27, 0x2A, 0x2B}
    else if Opcode(w) == 0x01 then
      Rt(w) in {0x00, 0x01, 0x10, 0x11}
    else
      Opcode(w) in {
        0x02, 0x03, 0x04, 0x05, 0x06, 0x07, 0x08, 0x09, 0x0A, 0x0B, 0x0C, 0x0D, 0x0E, 0x0F,
        0x10, 0x12, 0x20, 0x21, 0x22, 0x23, 0x24, 0x25, 0x26, 0x28, 0x29, 0x2A, 0x2B, 0x2E,
        0x30, 0x32, 0x38, 0x3A}
  }

  predicate ValidAt(img: Image, addr: int) {
    var w := WordAt(img, addr);
    w.Some? && IsValidWord(w.value)
  }

  /** A word with independent evidence of being a function boundary: the first word of the
      image, a word two past a `jr $ra`, or a stack-frame prologue not in a delay slot. */
  predicate Callable(img: Image, addr: int) {
    ValidAt(img, addr) &&
    (|| addr == img.load
     || IsJrRa(WordAt(img, addr - 8))
     || (IsAddiuSpNeg(WordAt(img, addr).value) &&
         var prev := WordAt(img, addr - 4);
         !(prev.Some? && IsControlFlow(prev.value))))
  }

  // ---- Images made of words ----

  function BytesOf(w: Word): seq<Byte> {
    [w % 0x100, w / 0x100 % 0x100, w / 0x1_0000 % 0x100, w / 0x100_0000]
  }

  lemma BytesSize(w: Word)
    ensures |BytesOf(w)| == 4
  {
  }

  lemma BytesBack(w: Word)
    ensures var b := BytesOf(w); LittleEndian(b[0], b[1], b[2], b[3]) == w
  {
    var x := w / 0x100;
    var y := x / 0x100;
    assert y == w / 0x1_0000 && y / 0x100 == w / 0x100_0000;
  }

  function Flatten(words: seq<Word>): (r: seq<Byte>)
    ensures |r| == 4 * |words|
  {
    if words == [] then [] else Flatten(words[..|words| - 1]) + BytesOf(words[|words| - 1])
  }

  function ImageOf(words: seq<Word>, load: nat): Image {
    Image(Flatten(words), load, 4 * |words|)
  }

  lemma {:induction false} ImageWord(words: seq<Word>, load: nat, k: nat)
    requires k < |words|
    ensures WordAt(ImageOf(words, load), load + 4 * k) == Some(words[k])
    decreases |words|
  {
    hide LittleEndian, BytesOf;
    BytesSize(words[|words| - 1]);
    var front, last := words[..|words| - 1], words[|words| - 1];
    if k < |front| {
      ImageWord(front, load, k);
      assert WordAt(ImageOf(front, load), load + 4 * k) == WordAt(ImageOf(words, load), load + 4 * k);
    } else {
      BytesBack(last);
      var all := Flatten(words);
      assert all[4 * k..] == BytesOf(last);
    }
  }
}
