/** The branch-delay hazard scan: which general registers an instruction writes, which words are
    the conditional branches the translator implements, and when a delay slot is flagged. */
module Hazards {
  import opened Mips

  /** The registers written by a word; None stands for the scan's error on an opcode it does not
      know. HI, LO and coprocessor registers are not counted. */
  function Writes(w: Word): Option<set<Reg>> {
    if w == 0 then Some({})
    else
      var op := Opcode(w);
      if op == 0x00 then
        if Funct(w) in {0x00, 0x02, 0x03, 0x04, 0x06, 0x07,
                        0x20, 0x21, 0x22, 0x23, 0x24, 0x25, 0x26, 0x27, 0x2A, 0x2B} then Some({Rd(w)})
        else if Funct(w) in {0x10, 0x12} then Some({Rd(w)})
        else if Funct(w) == 0x09 then Some({Rd(w)})
        else Some({})
      else if op == 0x01 then
        if Rt(w) in {0x10, 0x11} then Some({31}) else Some({})
      else if op == 0x02 then Some({})
      else if op == 0x03 then Some({31})
      else if op in {0x04, 0x05, 0x06, 0x07} then Some({})
      else if op in {0x08, 0x09, 0x0A, 0x0B, 0x0C, 0x0D, 0x0E, 0x0F} then Some({Rt(w)})
      else if op == 0x10 then
        if Rs(w) == 0 then Some({Rt(w)}) else Some({})
      else if op in {0x11, 0x12} then Some({})
      else if op in {0x20, 0x21, 0x22, 0x23, 0x24, 0x25, 0x26} then Some({Rt(w)})
      else if op in {0x28, 0x29, 0x2A, 0x2B, 0x2E} then Some({})
      else if op in {0x30, 0x31, 0x32, 0x33, 0x38, 0x39, 0x3A, 0x3B} then Some({})
      else None
  }
}
