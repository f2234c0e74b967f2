/** Recovery of compiler jump tables: a backward scan from `jr reg` that looks for
    `lui/addu/lw off` or `lui/addiu/addu/lw` fed by a `sltiu` bound, and reads the table. */
module JumpTables {
  import opened Mips
  import Hazards

  /** A word met `back` instructions before the `jr`. */
  datatype Hit = Hit(back: nat, f: Fields)

  /** What the backward scan has recognised. `side` tells which `addu` operand the `lui` feeds;
      `add0` and `add1` are the `addiu` words matched to the two operands, and `fed` is the one
      that adjusted the base at the moment the `lui` was met. */
  datatype Scan = Scan(
    lw: Option<Hit>, addu: Option<Hit>, lui: Option<Hit>, side: int,
    add0: Option<Hit>, add1: Option<Hit>, fed: Option<Hit>,
    count: Option<Hit>, stopped: bool)

  const Start := Scan(None, None, None, 0, None, None, None, None, false)

  predicate IsLw(f: Fields) { f.op == 0x23 }
  predicate IsAddu(f: Fields) { f.op == 0x00 && f.fn == 0x21 }
  predicate IsAddiu(f: Fields) { f.op == 0x09 }
  predicate IsLui(f: Fields) { f.op == 0x0F }
  predicate IsSltiu(f: Fields) { f.op == 0x0B }

  predicate AdjustsInPlace(f: Fields, r: Reg) { f.rs == r && f.rt == r }

  function ScanWord(s: Scan, h: Hit, rs: Reg): Scan {
    var f := h.f;
    if IsLw(f) && f.rt == rs && s.lw.None? then
      s.(lw := Some(h))
    else if IsAddu(f) && s.lw.Some? && f.rd == s.lw.value.f.rs && s.addu.None? then
      s.(addu := Some(h))
    else if IsAddiu(f) && s.addu.Some? then
      if s.add0.None? && AdjustsInPlace(f, s.addu.value.f.rs) then s.(add0 := Some(h))
      else if s.add1.None? && AdjustsInPlace(f, s.addu.value.f.rt) then s.(add1 := Some(h))
      else s
    else if IsLui(f) && s.addu.Some? && s.lui.None? then
      if f.rt == s.addu.value.f.rs then s.(lui := Some(h), side := 0, fed := s.add0)
      else if f.rt == s.addu.value.f.rt then s.(lui := Some(h), side := 1, add0 := s.add1, fed := s.add1)
      else s
    else if IsSltiu(f) && s.count.None? then
      if f.imm == 0 then s else s.(count := Some(h))
    else if s.lui.Some? && s.count.Some? then
      s.(stopped := true)
    else s
  }

  /** The scan after looking at most `b` words back. */
  function ScanTo(img: Image, entry: int, jrPc: int, rs: Reg, b: nat): Scan {
    if b == 0 then Start
    else
      var s := ScanTo(img, entry, jrPc, rs, b - 1);
      var w := WordAt(img, jrPc - 4 * b);
      if s.stopped then s
      else if jrPc - 4 * b < entry || w.None? then s.(stopped := true)
      else ScanWord(s, Hit(b, Decode(w.value)), rs)
  }

  function Offset(h: Option<Hit>): int {
    if h.Some? then h.value.f.simm else 0
  }

  function Upper(h: Option<Hit>): int {
    if h.Some? then h.value.f.imm * 0x1_0000 else 0
  }

  function Bound(h: Option<Hit>): nat {
    if h.Some? then h.value.f.imm else 0
  }

  /** The table address the scan computes. */
  function TableBase(s: Scan): int {
    Upper(s.lui) + Offset(s.add0) + Offset(s.lw)
  }

  predicate InWindow(img: Image, entry: int, cap: int, a: int) {
    img.load <= a < img.load + img.size && entry <= a < cap && a % 4 == 0
  }

  function ReadTable(img: Image, entry: int, cap: int, base: int, n: nat): (r: set<int>) {
    set i | 0 <= i < n && WordAt(img, base + 4 * i).Some?
         && InWindow(img, entry, cap, WordAt(img, base + 4 * i).value) :: WordAt(img, base + 4 * i).value
  }

  /** The targets recovered for a `jr rs` at `jrPc`. */
  function Targets(img: Image, entry: int, cap: int, jrPc: int, rs: Reg): (r: set<int>)
    ensures forall t :: t in r ==> InWindow(img, entry, cap, t)
  {
    var s := ScanTo(img, entry, jrPc, rs, 40);
    if s.lui.None? || s.count.None? || Bound(s.count) >= 512 then {}
    else ReadTable(img, entry, cap, TableBase(s), Bound(s.count))
  }

  /** The variables of the scan loop. */
  datatype Vars = Vars(lwBase: Option<Reg>, lwOffset: int, cand: Option<(Reg, Reg)>, luiVal: Option<int>,
                       addiuVal: (int, int), found: (bool, bool), tableCount: nat)

  function RegOf(h: Option<Hit>): Option<Reg> {
    if h.Some? then Some(h.value.f.rs) else None
  }

  function PairOf(h: Option<Hit>): Option<(Reg, Reg)> {
    if h.Some? then Some((h.value.f.rs, h.value.f.rt)) else None
  }

  function UpperOf(h: Option<Hit>): Option<int> {
    if h.Some? then Some(Upper(h)) else None
  }

  /** The loop variables agree with the words recognised so far. */
  ghost predicate Agrees(s: Scan, v: Vars) {
    && v == Vars(RegOf(s.lw), Offset(s.lw), PairOf(s.addu), UpperOf(s.lui),
                 (Offset(s.add0), Offset(s.add1)), (s.add0.Some?, s.add1.Some?), Bound(s.count))
    && (s.count.Some? ==> Bound(s.count) != 0)
  }

  /** One iteration of the scan loop; `stop` is its `break`. */
  method ScanOne(v: Vars, f: Fields, rs: Reg, ghost s: Scan, ghost back: nat) returns (u: Vars, stop: bool)
    requires Agrees(s, v) && !s.stopped
    ensures Agrees(ScanWord(s, Hit(back, f), rs), u) && stop == ScanWord(s, Hit(back, f), rs).stopped
  {
    u, stop := v, false;
    if f.op == 0x23 && f.rt == rs && v.lwBase.None? {
      u := v.(lwBase := Some(f.rs), lwOffset := f.simm);
    } else if f.op == 0x00 && f.fn == 0x21 && v.lwBase.Some? && f.rd == v.lwBase.value && v.cand.None? {
      u := v.(cand := Some((f.rs, f.rt)));
    } else if f.op == 0x09 && v.cand.Some? {
      if !v.found.0 && f.rs == v.cand.value.0 && f.rt == v.cand.value.0 {
        u := v.(addiuVal := (f.simm, v.addiuVal.1), found := (true, v.found.1));
      } else if !v.found.1 && f.rs == v.cand.value.1 && f.rt == v.cand.value.1 {
        u := v.(addiuVal := (v.addiuVal.0, f.simm), found := (v.found.0, true));
      }
    } else if f.op == 0x0F && v.cand.Some? && v.luiVal.None? {
      if f.rt == v.cand.value.0 {
        u := v.(luiVal := Some(f.imm * 0x1_0000), addiuVal := (if v.found.0 then v.addiuVal.0 else 0, v.addiuVal.1));
      } else if f.rt == v.cand.value.1 {
        u := v.(luiVal := Some(f.imm * 0x1_0000), addiuVal := (if v.found.1 then v.addiuVal.1 else 0, v.addiuVal.1),
                found := (v.found.1, v.found.1));
      }
    } else if f.op == 0x0B && v.tableCount == 0 {
      u := v.(tableCount := f.imm);
    } else if v.luiVal.Some? && v.tableCount != 0 {
      stop := true;
    }
  }

  /** The backward scan as a loop over at most 40 words. */
  method ScanBack(img: Image, entry: int, jrPc: int, rs: Reg) returns (v: Vars)
    ensures Agrees(ScanTo(img, entry, jrPc, rs, 40), v)
  {
    hide Decode, WordAt, ScanWord;
    v := Vars(None, 0, None, None, (0, 0), (false, false), 0);
    var back := 1;
    while back <= 40
      invariant 1 <= back <= 41
      invariant !ScanTo(img, entry, jrPc, rs, back - 1).stopped
      invariant Agrees(ScanTo(img, entry, jrPc, rs, back - 1), v)
    {
      ghost var s := ScanTo(img, entry, jrPc, rs, back - 1);
      var scanAddr := jrPc - 4 * back;
      var word := WordAt(img, scanAddr);
      var stop := scanAddr < entry || word.None?;
      if !stop {
        v, stop := ScanOne(v, Decode(word.value), rs, s, back);
      }
      if stop {
        StoppedStays(img, entry, jrPc, rs, back, 40);
        return;
      }
      back := back + 1;
    }
  }

  /** The whole recogniser: scan, then read the table. */
  method FindTargets(img: Image, entry: int, cap: int, jrPc: int, rs: Reg) returns (targets: set<int>)
    ensures targets == Targets(img, entry, cap, jrPc, rs)
  {
    var v := ScanBack(img, entry, jrPc, rs);
    if v.luiVal.None? || v.tableCount == 0 || v.tableCount >= 512 {
      return {};
    }
    var base := v.luiVal.value + (if v.found.0 then v.addiuVal.0 else 0) + v.lwOffset;
    targets := {};
    for i := 0 to v.tableCount
      invariant targets == ReadTable(img, entry, cap, base, i)
    {
      var target := WordAt(img, base + 4 * i);
      if target.Some? && InWindow(img, entry, cap, target.value) {
        targets := targets + {target.value};
      }
      ReadTableNext(img, entry, cap, base, i);
    }
  }

  lemma {:induction false} StoppedStays(img: Image, entry: int, jrPc: int, rs: Reg, b: nat, c: nat)
    requires b <= c && (ScanTo(img, entry, jrPc, rs, b).stopped || b == c)
    ensures ScanTo(img, entry, jrPc, rs, c) == ScanTo(img, entry, jrPc, rs, b)
  {
    if b < c { StoppedStays(img, entry, jrPc, rs, b, c - 1); }
  }

  lemma ReadTableNext(img: Image, entry: int, cap: int, base: int, n: nat)
    ensures var t := WordAt(img, base + 4 * n);
            ReadTable(img, entry, cap, base, n + 1) ==
            ReadTable(img, entry, cap, base, n) + if t.Some? && InWindow(img, entry, cap, t.value) then {t.value}
                else {}
  {
    forall i | 0 <= i < n + 1 && WordAt(img, base + 4 * i).Some?
        && InWindow(img, entry, cap, WordAt(img, base + 4 * i).value)
      ensures WordAt(img, base + 4 * i).value in ReadTable(img, entry, cap, base, n + 1)
    {
    }
  }

  // ---- Where the recognised words come from ----

  /** The word `b` instructions before the `jr`. */
  function Back(img: Image, jrPc: int, b: int): Option<Word> {
    WordAt(img, jrPc - 4 * b)
  }

  /** The decoded words before the `jr`, with their distances. */
  ghost function Code(img: Image, jrPc: int): iset<Hit> {
    iset h: Hit | h.back > 0 && Back(img, jrPc, h.back).Some? && h.f == Decode(Back(img, jrPc, h.back).value)
  }

  function Operand(f: Fields, side: int): Reg {
    if side == 0 then f.rs else f.rt
  }

  ghost predicate FoundLw(code: iset<Hit>, s: Scan, rs: Reg) {
    s.lw.Some? ==> s.lw.value in code && IsLw(s.lw.value.f) && s.lw.value.f.rt == rs
  }

  ghost predicate FoundAddu(code: iset<Hit>, s: Scan) {
    s.addu.Some? ==>
      && s.lw.Some? && s.addu.value in code && IsAddu(s.addu.value.f)
      && s.addu.value.f.rd == s.lw.value.f.rs && s.lw.value.back < s.addu.value.back
  }

  /** `h` is an `addiu` of the addu's operand in place, met beyond `from`. */
  ghost predicate Adjusts(code: iset<Hit>, s: Scan, h: Option<Hit>, side: int, from: nat) {
    h.Some? ==>
      && s.addu.Some? && h.value in code && IsAddiu(h.value.f)
      && AdjustsInPlace(h.value.f, Operand(s.addu.value.f, side)) && from < h.value.back
  }

  ghost predicate FoundAddiu(code: iset<Hit>, s: Scan) {
    && (s.lui.None? ==> && (s.addu.Some? ==> Adjusts(code, s, s.add0, 0, s.addu.value.back))
                        && (s.addu.Some? ==> Adjusts(code, s, s.add1, 1, s.addu.value.back)))
    && (s.addu.None? ==> s.add0.None? && s.add1.None?)
  }

  ghost predicate FoundLui(code: iset<Hit>, s: Scan) {
    s.lui.Some? ==>
      && s.addu.Some? && s.lui.value in code && IsLui(s.lui.value.f)
      && s.addu.value.back < s.lui.value.back
      && 0 <= s.side <= 1 && s.lui.value.f.rt == Operand(s.addu.value.f, s.side)
      && Adjusts(code, s, s.fed, s.side, s.addu.value.back)
      && (s.fed.Some? ==> s.fed.value.back < s.lui.value.back)
  }

  /** After the `lui` the adjustment that counts can only change when there was none: the scan
      then still accepts an earlier `addiu` of the addu's first operand. */
  ghost predicate FoundLate(code: iset<Hit>, s: Scan) {
    s.lui.Some? ==>
      s.add0 == s.fed || (s.fed.None? && Adjusts(code, s, s.add0, 0, s.lui.value.back))
  }

  ghost predicate Near(h: Option<Hit>, b: nat) {
    h.Some? ==> h.value.back < b
  }

  ghost predicate Nearer(s: Scan, b: nat) {
    Near(s.lw, b) && Near(s.addu, b) && Near(s.lui, b) && Near(s.add0, b) && Near(s.add1, b)
  }

  lemma StepLw(code: iset<Hit>, s: Scan, h: Hit, rs: Reg)
    requires h in code && FoundLw(code, s, rs)
    ensures FoundLw(code, ScanWord(s, h, rs), rs)
  {
  }

  lemma StepAddu(code: iset<Hit>, s: Scan, h: Hit, rs: Reg)
    requires h in code && FoundAddu(code, s) && Nearer(s, h.back)
    ensures FoundAddu(code, ScanWord(s, h, rs))
  {
  }

  lemma StepAddiu(code: iset<Hit>, s: Scan, h: Hit, rs: Reg)
    requires h in code && FoundAddiu(code, s) && Nearer(s, h.back)
    ensures FoundAddiu(code, ScanWord(s, h, rs))
  {
  }

  lemma StepLui(code: iset<Hit>, s: Scan, h: Hit, rs: Reg)
    requires h in code && FoundAddiu(code, s) && FoundLui(code, s) && Nearer(s, h.back)
    ensures FoundLui(code, ScanWord(s, h, rs))
  {
  }

  lemma StepLate(code: iset<Hit>, s: Scan, h: Hit, rs: Reg)
    requires h in code && FoundLate(code, s) && Nearer(s, h.back)
    ensures FoundLate(code, ScanWord(s, h, rs))
  {
  }

  ghost predicate Found(code: iset<Hit>, s: Scan, rs: Reg) {
    FoundLw(code, s, rs) && FoundAddu(code, s) && FoundAddiu(code, s) && FoundLui(code, s) && FoundLate(code, s)
  }

  lemma StepNearer(s: Scan, h: Hit, rs: Reg)
    requires Nearer(s, h.back)
    ensures Nearer(ScanWord(s, h, rs), h.back + 1)
  {
    NearLater(h, s.lw);
    NearLater(h, s.addu);
    NearLater(h, s.lui);
    NearLater(h, s.add0);
    NearLater(h, s.add1);
    hide Near;
  }

  lemma NearLater(h: Hit, k: Option<Hit>)
    ensures Near(k, h.back) ==> Near(k, h.back + 1)
    ensures Near(Some(h), h.back + 1)
  {
  }

  lemma StepFound(code: iset<Hit>, s: Scan, h: Hit, rs: Reg)
    requires h in code && Found(code, s, rs) && Nearer(s, h.back)
    ensures Found(code, ScanWord(s, h, rs), rs) && Nearer(ScanWord(s, h, rs), h.back + 1)
  {
    hide FoundLw, FoundAddu, FoundAddiu, FoundLui, FoundLate, Nearer, ScanWord;
    StepLw(code, s, h, rs);
    StepAddu(code, s, h, rs);
    StepAddiu(code, s, h, rs);
    StepLui(code, s, h, rs);
    StepLate(code, s, h, rs);
    StepNearer(s, h, rs);
  }

  lemma NearerAnd(s: Scan, b: nat, c: nat)
    requires Nearer(s, b) && b <= c
    ensures Nearer(s, c) && Nearer(s.(stopped := true), c)
  {
  }

  lemma StopKeeps(code: iset<Hit>, s: Scan, rs: Reg)
    requires Found(code, s, rs)
    ensures Found(code, s.(stopped := true), rs)
  {
  }

  lemma StartFound(code: iset<Hit>, rs: Reg)
    ensures Found(code, Start, rs) && Nearer(Start, 1)
  {
  }

  lemma {:induction false} ScanFound(img: Image, entry: int, jrPc: int, rs: Reg, b: nat)
    ensures Found(Code(img, jrPc), ScanTo(img, entry, jrPc, rs, b), rs)
    ensures Nearer(ScanTo(img, entry, jrPc, rs, b), b + 1)
  {
    hide Found, Nearer, ScanWord, Decode, WordAt;
    var code := Code(img, jrPc);
    if b == 0 {
      StartFound(code, rs);
    } else {
      ScanFound(img, entry, jrPc, rs, b - 1);
      var s := ScanTo(img, entry, jrPc, rs, b - 1);
      NearerAnd(s, b, b + 1);
      StopKeeps(code, s, rs);
      var w := Back(img, jrPc, b);
      if !s.stopped && jrPc - 4 * b >= entry && w.Some? {
        var h := Hit(b, Decode(w.value));
        assert h in code;
        StepFound(code, s, h, rs);
        assert ScanTo(img, entry, jrPc, rs, b) == ScanWord(s, h, rs);
      }
    }
  }

  /** The bound that was found. */
  ghost predicate FoundCount(code: iset<Hit>, s: Scan, b: nat) {
    s.count.Some? ==>
      s.count.value in code && s.count.value.back <= b && IsSltiu(s.count.value.f) && s.count.value.f.imm != 0
  }

  lemma {:induction false} CountFound(img: Image, entry: int, jrPc: int, rs: Reg, b: nat)
    ensures FoundCount(Code(img, jrPc), ScanTo(img, entry, jrPc, rs, b), b)
  {
    if b > 0 {
      hide Decode, WordAt;
      CountFound(img, entry, jrPc, rs, b - 1);
      var w := WordAt(img, jrPc - 4 * b);
      if w.Some? { assert Hit(b, Decode(w.value)) in Code(img, jrPc); }
    }
  }

  // ---- What the machine does ----

  type WordRegs = r: seq<Word> | |r| == 32 witness seq(32, _ => 0)

  /** The register an idiom instruction sets and the value it gets. */
  ghost function Effect(f: Fields, pre: WordRegs, mem: int -> Word): Option<(Reg, int)> {
    if IsLui(f) then Some((f.rt, f.imm * 0x1_0000))
    else if IsAddiu(f) then Some((f.rt, Wrap(pre[f.rs] + f.simm)))
    else if IsAddu(f) then Some((f.rd, Wrap(pre[f.rs] as int + pre[f.rt])))
    else if IsLw(f) then Some((f.rt, mem(Wrap(pre[f.rs] + f.simm))))
    else None
  }

  /** One instruction: the opcodes of the idiom have their MIPS meaning, every other opcode may
      do anything to the registers it writes. */
  ghost predicate Executes(f: Fields, writes: set<Reg>, pre: WordRegs, post: WordRegs, mem: int -> Word) {
    && (forall r: Reg :: r !in writes ==> post[r] == pre[r])
    && var e := Effect(f, pre, mem);
       e.Some? && e.value.0 != 0 ==> post[e.value.0] == e.value.1
  }

  ghost predicate ExecutesAt(img: Image, jrPc: int, b: nat, pre: WordRegs, post: WordRegs, mem: int -> Word) {
    && Back(img, jrPc, b).Some? && Hazards.Writes(Back(img, jrPc, b).value).Some?
    && Executes(Decode(Back(img, jrPc, b).value), Hazards.Writes(Back(img, jrPc, b).value).value, pre, post, mem)
  }

  /** The words up to `depth` before the `jr` run in sequence: `regs[b]` are the registers before
      the word `b` back, so `regs[0]` are those the `jr` sees. */
  ghost predicate StraightLine(img: Image, jrPc: int, depth: nat, regs: seq<WordRegs>, mem: int -> Word)
    requires |regs| == depth + 1
  {
    forall b :: 1 <= b <= depth ==> ExecutesAt(img, jrPc, b, regs[b], regs[b - 1], mem)
  }

  ghost predicate Preserves(img: Image, jrPc: int, b: nat, r: Reg) {
    && Back(img, jrPc, b).Some? && Hazards.Writes(Back(img, jrPc, b).value).Some?
    && r !in Hazards.Writes(Back(img, jrPc, b).value).value
  }

  /** No word strictly between `near` and `far` back writes register r. */
  ghost predicate Undisturbed(img: Image, jrPc: int, r: Reg, near: nat, far: nat) {
    forall b :: near < b < far ==> Preserves(img, jrPc, b, r)
  }

  lemma {:induction false} Carried(img: Image, jrPc: int, depth: nat, regs: seq<WordRegs>, mem: int -> Word, r: Reg,
                                   near: nat, far: nat)
    requires |regs| == depth + 1 && StraightLine(img, jrPc, depth, regs, mem) && near < far <= depth
    requires Undisturbed(img, jrPc, r, near, far)
    ensures regs[far - 1][r] == regs[near][r]
    decreases far
  {
    if far - 1 > near {
      hide Decode, WordAt, Effect, Hazards.Writes;
      assert ExecutesAt(img, jrPc, far - 1, regs[far - 1], regs[far - 2], mem);
      assert Preserves(img, jrPc, far - 1, r);
      Carried(img, jrPc, depth, regs, mem, r, near, far - 1);
    }
  }

  /** After a recognised word its destination holds its effect. */
  lemma EffectAt(img: Image, jrPc: int, depth: nat, regs: seq<WordRegs>, mem: int -> Word, h: Hit)
    requires |regs| == depth + 1 && StraightLine(img, jrPc, depth, regs, mem) && h in Code(img, jrPc) && h.back <= depth
    ensures var e := Effect(h.f, regs[h.back], mem);
            e.Some? && e.value.0 != 0 ==> regs[h.back - 1][e.value.0] == e.value.1
  {
    hide Decode, WordAt, Effect, Hazards.Writes;
    assert ExecutesAt(img, jrPc, h.back, regs[h.back], regs[h.back - 1], mem);
  }

  lemma LuiSets(img: Image, jrPc: int, depth: nat, regs: seq<WordRegs>, mem: int -> Word, h: Hit)
    requires |regs| == depth + 1 && StraightLine(img, jrPc, depth, regs, mem) && h in Code(img, jrPc) && h.back <= depth
    requires IsLui(h.f) && h.f.rt != 0
    ensures regs[h.back - 1][h.f.rt] == Wrap(h.f.imm * 0x1_0000)
  {
    EffectAt(img, jrPc, depth, regs, mem, h);
    hide Decode, WordAt, Executes, Hazards.Writes;
  }

  lemma AddiuSets(img: Image, jrPc: int, depth: nat, regs: seq<WordRegs>, mem: int -> Word, h: Hit)
    requires |regs| == depth + 1 && StraightLine(img, jrPc, depth, regs, mem) && h in Code(img, jrPc) && h.back <= depth
    requires IsAddiu(h.f) && h.f.rt != 0
    ensures regs[h.back - 1][h.f.rt] == Wrap(regs[h.back][h.f.rs] + h.f.simm)
  {
    EffectAt(img, jrPc, depth, regs, mem, h);
    hide Decode, WordAt, Executes, Hazards.Writes;
  }

  lemma AdduSets(img: Image, jrPc: int, depth: nat, regs: seq<WordRegs>, mem: int -> Word, h: Hit)
    requires |regs| == depth + 1 && StraightLine(img, jrPc, depth, regs, mem) && h in Code(img, jrPc) && h.back <= depth
    requires IsAddu(h.f) && h.f.rd != 0
    ensures regs[h.back - 1][h.f.rd] == Wrap(regs[h.back][h.f.rs] as int + regs[h.back][h.f.rt])
  {
    EffectAt(img, jrPc, depth, regs, mem, h);
    hide Decode, WordAt, Executes, Hazards.Writes;
  }

  lemma LwSets(img: Image, jrPc: int, depth: nat, regs: seq<WordRegs>, mem: int -> Word, h: Hit)
    requires |regs| == depth + 1 && StraightLine(img, jrPc, depth, regs, mem) && h in Code(img, jrPc) && h.back <= depth
    requires IsLw(h.f) && h.f.rt != 0
    ensures regs[h.back - 1][h.f.rt] == mem(Wrap(regs[h.back][h.f.rs] + h.f.simm))
  {
    EffectAt(img, jrPc, depth, regs, mem, h);
    hide Decode, WordAt, Executes, Hazards.Writes;
  }

  /** Each recognised word is the definition its user sees: nothing in between overwrites the
      jump register, the load base or the table base. */
  ghost predicate DefUse(img: Image, jrPc: int, rs: Reg, lw: Hit, addu: Hit, c: Reg, lui: Hit, fed: Option<Hit>) {
    && rs != 0 && Undisturbed(img, jrPc, rs, 0, lw.back)
    && lw.f.rs != 0 && Undisturbed(img, jrPc, lw.f.rs, lw.back, addu.back)
    && c != 0 && Undisturbed(img, jrPc, c, addu.back, if fed.Some? then fed.value.back else lui.back)
    && (fed.Some? ==> Undisturbed(img, jrPc, c, fed.value.back, lui.back))
  }

  lemma WrapSum(a: int, b: int)
    ensures Wrap(Wrap(a) + b) == Wrap(a + b)
  {
  }

  /** The words form the idiom: `lui c` [, `addiu c,c`], `addu d` with operands c and x,
      `lw rs, off(d)`, in that program order. */
  ghost predicate Idiom(code: iset<Hit>, rs: Reg, lw: Hit, addu: Hit, c: Reg, x: Reg, lui: Hit, fed: Option<Hit>) {
    && lw in code && addu in code && lui in code && (fed.Some? ==> fed.value in code)
    && IsLw(lw.f) && lw.f.rt == rs
    && IsAddu(addu.f) && addu.f.rd == lw.f.rs && lw.back < addu.back
    && ((addu.f.rs == c && addu.f.rt == x) || (addu.f.rs == x && addu.f.rt == c))
    && IsLui(lui.f) && lui.f.rt == c && addu.back < lui.back
    && (fed.Some? ==> IsAddiu(fed.value.f) && AdjustsInPlace(fed.value.f, c) && addu.back < fed.value.back < lui.back)
  }

  /** The table base as the `addu` reads it. */
  lemma BaseValue(img: Image, jrPc: int, depth: nat, regs: seq<WordRegs>, mem: int -> Word, rs: Reg, lw: Hit,
                  addu: Hit, c: Reg, x: Reg, lui: Hit, fed: Option<Hit>)
    requires |regs| == depth + 1 && StraightLine(img, jrPc, depth, regs, mem) && lui.back <= depth
    requires Idiom(Code(img, jrPc), rs, lw, addu, c, x, lui, fed)
    requires DefUse(img, jrPc, rs, lw, addu, c, lui, fed)
    ensures regs[addu.back][c] == Wrap(lui.f.imm * 0x1_0000 + Offset(fed))
  {
    hide Decode, WordAt, Undisturbed, StraightLine, Code, Wrap, Hazards.Writes;
    LuiSets(img, jrPc, depth, regs, mem, lui);
    if fed.Some? {
      Carried(img, jrPc, depth, regs, mem, c, fed.value.back, lui.back);
      AddiuSets(img, jrPc, depth, regs, mem, fed.value);
      WrapSum(lui.f.imm * 0x1_0000, fed.value.f.simm);
      Carried(img, jrPc, depth, regs, mem, c, addu.back, fed.value.back);
    } else {
      Carried(img, jrPc, depth, regs, mem, c, addu.back, lui.back);
    }
  }

  /** The load base as the `lw` reads it. */
  lemma LoadBaseValue(img: Image, jrPc: int, depth: nat, regs: seq<WordRegs>, mem: int -> Word, rs: Reg, lw: Hit,
                      addu: Hit, c: Reg, x: Reg, lui: Hit, fed: Option<Hit>)
    requires |regs| == depth + 1 && StraightLine(img, jrPc, depth, regs, mem) && lui.back <= depth
    requires Idiom(Code(img, jrPc), rs, lw, addu, c, x, lui, fed)
    requires DefUse(img, jrPc, rs, lw, addu, c, lui, fed)
    ensures regs[lw.back][lw.f.rs] == Wrap(lui.f.imm * 0x1_0000 + Offset(fed) + regs[addu.back][x])
  {
    hide Decode, WordAt, Undisturbed, StraightLine, Code, Wrap, Hazards.Writes, Offset, Executes;
    BaseValue(img, jrPc, depth, regs, mem, rs, lw, addu, c, x, lui, fed);
    AdduSets(img, jrPc, depth, regs, mem, addu);
    Carried(img, jrPc, depth, regs, mem, lw.f.rs, lw.back, addu.back);
    WrapSum(lui.f.imm * 0x1_0000 + Offset(fed), regs[addu.back][x]);
  }

  lemma CodeIsBack(img: Image, jrPc: int, h: Hit)
    requires h in Code(img, jrPc)
    ensures 0 < h.back
  {
    hide Decode, WordAt;
  }

  /** The address the `jr` takes: the memory word at the table base plus the scaled index, in
      32-bit arithmetic. */
  lemma JumpTaken(img: Image, jrPc: int, depth: nat, regs: seq<WordRegs>, mem: int -> Word, rs: Reg, lw: Hit,
                  addu: Hit, c: Reg, x: Reg, lui: Hit, fed: Option<Hit>)
    requires |regs| == depth + 1 && StraightLine(img, jrPc, depth, regs, mem) && lui.back <= depth
    requires Idiom(Code(img, jrPc), rs, lw, addu, c, x, lui, fed)
    requires DefUse(img, jrPc, rs, lw, addu, c, lui, fed)
    ensures regs[0][rs] == mem(Wrap(lui.f.imm * 0x1_0000 + Offset(fed) + lw.f.simm + regs[addu.back][x]))
  {
    hide Decode, WordAt, Undisturbed, StraightLine, Code, Wrap, Hazards.Writes, Offset, Executes;
    LoadBaseValue(img, jrPc, depth, regs, mem, rs, lw, addu, c, x, lui, fed);
    CodeIsBack(img, jrPc, lw);
    LwSets(img, jrPc, depth, regs, mem, lw);
    Carried(img, jrPc, depth, regs, mem, rs, 0, lw.back);
    WrapSum(lui.f.imm * 0x1_0000 + Offset(fed) + regs[addu.back][x], lw.f.simm);
  }

  // ---- Soundness of the recovered set ----

  /** The table address as the machine forms it, before 32-bit wrap-around. */
  function TrueBase(s: Scan): int {
    Upper(s.lui) + Offset(s.fed) + Offset(s.lw)
  }

  function Base(s: Scan): Reg
    requires s.addu.Some?
  {
    Operand(s.addu.value.f, s.side)
  }

  function Index(s: Scan): Reg
    requires s.addu.Some?
  {
    Operand(s.addu.value.f, 1 - s.side)
  }

  lemma FoundIdiom(code: iset<Hit>, s: Scan, rs: Reg)
    requires Found(code, s, rs) && s.lui.Some?
    ensures s.lw.Some? && s.addu.Some?
    ensures Idiom(code, rs, s.lw.value, s.addu.value, Base(s), Index(s), s.lui.value, s.fed)
  {
  }

  /** Nothing is recovered unless the idiom, and a bound from 1 to 511, stand within forty words before the jump. */
  lemma OnlyIdiom(img: Image, entry: int, cap: int, jrPc: int, rs: Reg, t: int)
    requires t in Targets(img, entry, cap, jrPc, rs)
    ensures exists lw, addu, lui, c, x, fed ::
              Idiom(Code(img, jrPc), rs, lw, addu, c, x, lui, fed) && lui.back <= 40
    ensures exists h :: h in Code(img, jrPc) && h.back <= 40 && IsSltiu(h.f) && 1 <= h.f.imm <= 511
  {
    hide Decode, WordAt, ScanTo, ReadTable, Code, Idiom, Found;
    ScanFound(img, entry, jrPc, rs, 40);
    CountFound(img, entry, jrPc, rs, 40);
    FoundIdiom(Code(img, jrPc), ScanTo(img, entry, jrPc, rs, 40), rs);
  }

  /** The base can only be wrong when the `lui` was not adjusted and an earlier `addiu` adjusts
      the first `addu` operand in place. */
  lemma OnlyLateAddiuHarms(code: iset<Hit>, s: Scan, rs: Reg)
    requires Found(code, s, rs) && s.lui.Some? && TableBase(s) != TrueBase(s)
    ensures s.addu.Some? && s.fed.None? && s.add0.Some? && s.add0.value in code
    ensures IsAddiu(s.add0.value.f) && AdjustsInPlace(s.add0.value.f, s.addu.value.f.rs)
    ensures s.add0.value.back > s.lui.value.back && s.add0.value.f.simm != 0
  {
  }

  /** A straight-line instance of the idiom whose scaled index is 4 * i. */
  ghost predicate Instance(img: Image, jrPc: int, rs: Reg, s: Scan, depth: nat, regs: seq<WordRegs>, mem: int -> Word,
                           i: nat) {
    && s.lw.Some? && s.addu.Some? && s.lui.Some?
    && s.addu.value.back < s.lui.value.back <= depth && |regs| == depth + 1
    && DefUse(img, jrPc, rs, s.lw.value, s.addu.value, Base(s), s.lui.value, s.fed)
    && StraightLine(img, jrPc, depth, regs, mem)
    && regs[s.addu.value.back][Index(s)] == 4 * i
  }

  lemma InstanceTakes(img: Image, jrPc: int, rs: Reg, s: Scan, depth: nat, regs: seq<WordRegs>, mem: int -> Word,
                      i: nat)
    requires Found(Code(img, jrPc), s, rs) && Instance(img, jrPc, rs, s, depth, regs, mem, i)
    ensures regs[0][rs] == mem(Wrap(TrueBase(s) + 4 * i))
  {
    FoundIdiom(Code(img, jrPc), s, rs);
    hide WordAt, Decode, Found, DefUse, StraightLine, Idiom, Wrap, Code;
    JumpTaken(img, jrPc, depth, regs, mem, rs, s.lw.value, s.addu.value, Base(s), Index(s), s.lui.value, s.fed);
  }

  lemma TableWordRecovered(img: Image, entry: int, cap: int, jrPc: int, rs: Reg, s: Scan, i: nat, t: int)
    requires s == ScanTo(img, entry, jrPc, rs, 40) && s.lui.Some? && s.count.Some? && i < Bound(s.count) < 512
    requires WordAt(img, TableBase(s) + 4 * i) == Some(t) && InWindow(img, entry, cap, t)
    ensures t in Targets(img, entry, cap, jrPc, rs)
  {
    hide WordAt, Decode, ScanTo, InWindow, TableBase;
    assert WordAt(img, TableBase(s) + 4 * i).value == t;
  }

  lemma WrapIn(a: int)
    requires 0 <= a < 0x1_0000_0000
    ensures Wrap(a) == a
  {
  }

  /** Whatever the scan found: the table address is the machine's exactly if the `lui` was adjusted by an `addiu`
      of its own, or no earlier `addiu` was taken, or it adds 0. */
  lemma BaseIff(code: iset<Hit>, s: Scan, rs: Reg)
    requires Found(code, s, rs) && s.lui.Some?
    ensures TableBase(s) == TrueBase(s) <==> s.fed.Some? || s.add0.None? || s.add0.value.f.simm == 0
  {
  }

  /** Soundness for everything the scan accepts, template or not: when the recognised words define what the `jr`
      uses, no late `addiu` was taken, the index is below the bound and the table does not wrap around, the
      address the `jr` takes is recovered whenever it is aligned and inside the window. */
  lemma Sound(img: Image, entry: int, cap: int, jrPc: int, rs: Reg, s: Scan, depth: nat, regs: seq<WordRegs>,
              mem: int -> Word, i: nat)
    requires s == ScanTo(img, entry, jrPc, rs, 40) && Instance(img, jrPc, rs, s, depth, regs, mem, i)
    requires s.count.Some? && i < Bound(s.count) < 512
    requires s.fed.Some? || s.add0.None? || s.add0.value.f.simm == 0
    requires var a := TrueBase(s) + 4 * i; 0 <= a < 0x1_0000_0000 && WordAt(img, a) == Some(mem(a))
    requires InWindow(img, entry, cap, regs[0][rs])
    ensures regs[0][rs] in Targets(img, entry, cap, jrPc, rs)
  {
    InstanceParts(img, jrPc, rs, s, depth, regs, mem, i);
    hide WordAt, Decode, ScanTo, Found, Instance, InWindow, Code, TrueBase, TableBase, Targets, Bound, Wrap;
    ScanFound(img, entry, jrPc, rs, 40);
    BaseIff(Code(img, jrPc), s, rs);
    WrapIn(TrueBase(s) + 4 * i);
    InstanceTakes(img, jrPc, rs, s, depth, regs, mem, i);
    TableWordRecovered(img, entry, cap, jrPc, rs, s, i, regs[0][rs]);
  }

  lemma InstanceParts(img: Image, jrPc: int, rs: Reg, s: Scan, depth: nat, regs: seq<WordRegs>, mem: int -> Word,
                      i: nat)
    requires Instance(img, jrPc, rs, s, depth, regs, mem, i)
    ensures |regs| > 0 && s.lui.Some?
  {
    hide DefUse, StraightLine;
  }

  /** Conversely every recovered target is one of the N words of the table. */
  lemma OnlyTableWords(img: Image, entry: int, cap: int, jrPc: int, rs: Reg, t: int)
    requires t in Targets(img, entry, cap, jrPc, rs)
    ensures var s := ScanTo(img, entry, jrPc, rs, 40);
            && s.count.Some? && 0 < Bound(s.count) < 512
            && exists i :: 0 <= i < Bound(s.count) && WordAt(img, TableBase(s) + 4 * i) == Some(t)
  {
    hide WordAt, Decode, ScanTo;
    var s := ScanTo(img, entry, jrPc, rs, 40);
    var i :| 0 <= i < Bound(s.count) && WordAt(img, TableBase(s) + 4 * i).Some?
        && WordAt(img, TableBase(s) + 4 * i).value == t;
    assert WordAt(img, TableBase(s) + 4 * i) == Some(t);
  }

  // ---- The compiler's templates are recognised ----

  /** A word that changes nothing in the scan of this `lw` and `addu`: it does not load the jump register,
      form the load base, adjust or set an operand of the `addu`, or bound the index. */
  predicate Inert(f: Fields, lw: Fields, addu: Fields) {
    && !(IsLw(f) && f.rt == lw.rt) && !(IsAddu(f) && f.rd == lw.rs)
    && !(IsAddiu(f) && (AdjustsInPlace(f, addu.rs) || AdjustsInPlace(f, addu.rt)))
    && !(IsLui(f) && (f.rt == addu.rs || f.rt == addu.rt)) && !(IsSltiu(f) && f.imm != 0)
  }

  /** The word `b` back lies inside the function and decodes to f. */
  ghost predicate At(img: Image, entry: int, jrPc: int, b: nat, f: Fields) {
    b > 0 && jrPc - 4 * b >= entry && Hit(b, f) in Code(img, jrPc)
  }

  ghost predicate InertAt(img: Image, entry: int, jrPc: int, b: nat, lw: Hit, addu: Hit) {
    exists f :: At(img, entry, jrPc, b, f) && Inert(f, lw.f, addu.f)
  }

  ghost predicate Filler(img: Image, entry: int, jrPc: int, lw: Hit, addu: Hit, near: nat, far: nat) {
    forall b :: near < b < far ==> InertAt(img, entry, jrPc, b, lw, addu)
  }

  lemma NextWord(img: Image, entry: int, jrPc: int, rs: Reg, h: Hit)
    requires At(img, entry, jrPc, h.back, h.f) && !ScanTo(img, entry, jrPc, rs, h.back - 1).stopped
    ensures ScanTo(img, entry, jrPc, rs, h.back) == ScanWord(ScanTo(img, entry, jrPc, rs, h.back - 1), h, rs)
  {
    hide ScanWord, Decode, WordAt;
  }

  /** What the scan holds is part of this template. */
  predicate Partial(s: Scan, lw: Hit, addu: Hit) {
    s.lw in {None, Some(lw)} && s.addu in {None, Some(addu)} && (s.lui.None? || s.count.None?)
  }

  lemma InertStep(s: Scan, h: Hit, lw: Hit, addu: Hit)
    requires Inert(h.f, lw.f, addu.f) && Partial(s, lw, addu)
    ensures ScanWord(s, h, lw.f.rt) == s
  {
  }

  lemma FillerShrinks(img: Image, entry: int, jrPc: int, lw: Hit, addu: Hit, near: nat, far: nat)
    requires near < far - 1 && Filler(img, entry, jrPc, lw, addu, near, far)
    ensures Filler(img, entry, jrPc, lw, addu, near, far - 1) && InertAt(img, entry, jrPc, far - 1, lw, addu)
  {
    hide InertAt;
  }

  lemma SkipOne(img: Image, entry: int, jrPc: int, lw: Hit, addu: Hit, b: nat, s: Scan)
    requires 0 < b && s == ScanTo(img, entry, jrPc, lw.f.rt, b - 1) && !s.stopped && Partial(s, lw, addu)
    requires InertAt(img, entry, jrPc, b, lw, addu)
    ensures ScanTo(img, entry, jrPc, lw.f.rt, b) == s
  {
    hide Decode, WordAt, Code, ScanTo, ScanWord, Inert, At, Partial;
    var f :| At(img, entry, jrPc, b, f) && Inert(f, lw.f, addu.f);
    NextWord(img, entry, jrPc, lw.f.rt, Hit(b, f));
    InertStep(s, Hit(b, f), lw, addu);
  }

  lemma {:induction false} SkipFiller(img: Image, entry: int, jrPc: int, lw: Hit, addu: Hit, near: nat, far: nat,
                                      s: Scan)
    requires near < far && s == ScanTo(img, entry, jrPc, lw.f.rt, near) && !s.stopped && Partial(s, lw, addu)
    requires Filler(img, entry, jrPc, lw, addu, near, far)
    ensures ScanTo(img, entry, jrPc, lw.f.rt, far - 1) == s
    decreases far
  {
    hide ScanTo, Partial, Filler, InertAt;
    if near < far - 1 {
      FillerShrinks(img, entry, jrPc, lw, addu, near, far);
      SkipFiller(img, entry, jrPc, lw, addu, near, far - 1, s);
      SkipOne(img, entry, jrPc, lw, addu, far - 1, s);
    }
  }

  /** The idiom with arbitrary inert words in between, bounded by a nonzero `sltiu`. */
  ghost predicate Template(img: Image, entry: int, jrPc: int, rs: Reg, lw: Hit, addu: Hit, lui: Hit, fed: Option<Hit>,
                           count: Hit) {
    && At(img, entry, jrPc, lw.back, lw.f) && IsLw(lw.f) && lw.f.rt == rs
    && Filler(img, entry, jrPc, lw, addu, 0, lw.back)
    && lw.back < addu.back && At(img, entry, jrPc, addu.back, addu.f) && IsAddu(addu.f) && addu.f.rd == lw.f.rs
    && Filler(img, entry, jrPc, lw, addu, lw.back, addu.back)
    && (fed.Some? ==>
          && addu.back < fed.value.back && At(img, entry, jrPc, fed.value.back, fed.value.f)
          && IsAddiu(fed.value.f) && AdjustsInPlace(fed.value.f, lui.f.rt)
          && Filler(img, entry, jrPc, lw, addu, addu.back, fed.value.back))
    && addu.back < lui.back && At(img, entry, jrPc, lui.back, lui.f) && IsLui(lui.f)
    && (lui.f.rt == addu.f.rs || lui.f.rt == addu.f.rt)
    && (fed.Some? ==> fed.value.back < lui.back)
    && Filler(img, entry, jrPc, lw, addu, if fed.Some? then fed.value.back else addu.back, lui.back)
    && lui.back < count.back <= 40 && At(img, entry, jrPc, count.back, count.f) && IsSltiu(count.f) && count.f.imm != 0
    && Filler(img, entry, jrPc, lw, addu, lui.back, count.back)
  }

  /** What the scan knows at the `lui` of a template. */
  function Recognised(lw: Hit, addu: Hit, lui: Hit, fed: Option<Hit>): Scan {
    var side := if lui.f.rt == addu.f.rs then 0 else 1;
    Scan(Some(lw), Some(addu), Some(lui), side, fed, if side == 1 then fed else None, fed, None, false)
  }

  lemma ReachLw(img: Image, entry: int, jrPc: int, lw: Hit, addu: Hit)
    requires At(img, entry, jrPc, lw.back, lw.f) && IsLw(lw.f) && Filler(img, entry, jrPc, lw, addu, 0, lw.back)
    ensures ScanTo(img, entry, jrPc, lw.f.rt, lw.back) == Start.(lw := Some(lw))
  {
    assert lw.back > 0;
    hide Decode, WordAt, Code, Filler, At;
    SkipFiller(img, entry, jrPc, lw, addu, 0, lw.back, Start);
    NextWord(img, entry, jrPc, lw.f.rt, lw);
  }

  lemma ReachAddu(img: Image, entry: int, jrPc: int, lw: Hit, addu: Hit)
    requires ScanTo(img, entry, jrPc, lw.f.rt, lw.back) == Start.(lw := Some(lw))
    requires lw.back < addu.back && At(img, entry, jrPc, addu.back, addu.f) && IsAddu(addu.f) && addu.f.rd == lw.f.rs
    requires Filler(img, entry, jrPc, lw, addu, lw.back, addu.back)
    ensures ScanTo(img, entry, jrPc, lw.f.rt, addu.back) == Start.(lw := Some(lw), addu := Some(addu))
  {
    hide Decode, WordAt, Code, Filler, At;
    SkipFiller(img, entry, jrPc, lw, addu, lw.back, addu.back, Start.(lw := Some(lw)));
    NextWord(img, entry, jrPc, lw.f.rt, addu);
  }

  lemma ReachLui(img: Image, entry: int, jrPc: int, rs: Reg, lw: Hit, addu: Hit, lui: Hit, fed: Option<Hit>, count: Hit)
    requires Template(img, entry, jrPc, rs, lw, addu, lui, fed, count)
    ensures ScanTo(img, entry, jrPc, rs, lui.back) == Recognised(lw, addu, lui, fed)
  {
    hide Decode, WordAt, Code, Filler, At, ScanTo;
    ReachLw(img, entry, jrPc, lw, addu);
    ReachAddu(img, entry, jrPc, lw, addu);
    var s := Start.(lw := Some(lw), addu := Some(addu));
    if fed.Some? {
      SkipFiller(img, entry, jrPc, lw, addu, addu.back, fed.value.back, s);
      NextWord(img, entry, jrPc, rs, fed.value);
      SkipFiller(img, entry, jrPc, lw, addu, fed.value.back, lui.back, ScanWord(s, fed.value, rs));
    } else {
      SkipFiller(img, entry, jrPc, lw, addu, addu.back, lui.back, s);
    }
    NextWord(img, entry, jrPc, rs, lui);
  }

  lemma ReachCount(img: Image, entry: int, jrPc: int, rs: Reg, lw: Hit, addu: Hit, lui: Hit, fed: Option<Hit>,
                   count: Hit)
    requires Template(img, entry, jrPc, rs, lw, addu, lui, fed, count)
    ensures ScanTo(img, entry, jrPc, rs, count.back) == Recognised(lw, addu, lui, fed).(count := Some(count))
  {
    hide Decode, WordAt, Code, Filler, At, ScanTo, ScanWord;
    ReachLui(img, entry, jrPc, rs, lw, addu, lui, fed, count);
    var s := Recognised(lw, addu, lui, fed);
    SkipFiller(img, entry, jrPc, lw, addu, lui.back, count.back, s);
    NextWord(img, entry, jrPc, rs, count);
    CountStep(s, count, rs);
  }

  lemma CountStep(s: Scan, h: Hit, rs: Reg)
    requires IsSltiu(h.f) && h.f.imm != 0 && s.count.None?
    ensures ScanWord(s, h, rs) == s.(count := Some(h))
  {
  }

  // ---- Behind the bound check ----

  /** The nearest in-place `addiu` of register r in the run of consecutive `addiu` words from `b` back on. */
  function Late(img: Image, entry: int, jrPc: int, b: nat, r: Reg): Option<Hit>
    decreases 41 - b
  {
    if b > 40 || jrPc - 4 * b < entry || Back(img, jrPc, b).None? then None
    else
      var f := Decode(Back(img, jrPc, b).value);
      if !IsAddiu(f) then None
      else if AdjustsInPlace(f, r) then Some(Hit(b, f))
      else Late(img, entry, jrPc, b + 1, r)
  }

  predicate Complete(s: Scan) { s.lw.Some? && s.addu.Some? && s.lui.Some? && s.count.Some? }

  /** What the scan settles on, whatever it takes for the second operand. */
  predicate SameFind(s: Scan, t: Scan) {
    s.lw == t.lw && s.addu == t.addu && s.lui == t.lui && s.side == t.side && s.fed == t.fed && s.count == t.count
  }

  lemma LateStep(s: Scan, h: Hit, rs: Reg)
    requires Complete(s) && !s.stopped
    ensures var t := ScanWord(s, h, rs);
            && SameFind(s, t)
            && t.stopped == !IsAddiu(h.f)
            && t.add0 == if s.add0.None? && IsAddiu(h.f) && AdjustsInPlace(h.f, s.addu.value.f.rs) then Some(h)
                else s.add0
  {
  }

  /** With everything found, the scan runs through `addiu` words and may still take one for the first operand. */
  lemma {:induction false} LateScan(img: Image, entry: int, jrPc: int, rs: Reg, b: nat, s: Scan)
    requires b <= 40 && ScanTo(img, entry, jrPc, rs, b) == s && !s.stopped && Complete(s)
    ensures var t := ScanTo(img, entry, jrPc, rs, 40);
            SameFind(s, t) && t.add0 == if s.add0.Some? then s.add0
                else Late(img, entry, jrPc, b + 1, s.addu.value.f.rs)
    decreases 40 - b
  {
    if b < 40 {
      var w := Back(img, jrPc, b + 1);
      if jrPc - 4 * (b + 1) < entry || w.None? {
        StoppedStays(img, entry, jrPc, rs, b + 1, 40);
      } else {
        var h := Hit(b + 1, Decode(w.value));
        LateOne(img, entry, jrPc, rs, b, s, h);
      }
    }
  }

  lemma {:induction false} LateOne(img: Image, entry: int, jrPc: int, rs: Reg, b: nat, s: Scan, h: Hit)
    requires b < 40 && ScanTo(img, entry, jrPc, rs, b) == s && !s.stopped && Complete(s)
    requires jrPc - 4 * (b + 1) >= entry && Back(img, jrPc, b + 1).Some?
             && h == Hit(b + 1, Decode(Back(img, jrPc, b + 1).value))
    ensures var t := ScanTo(img, entry, jrPc, rs, 40);
            SameFind(s, t) && t.add0 == if s.add0.Some? then s.add0
                else Late(img, entry, jrPc, b + 1, s.addu.value.f.rs)
    decreases 40 - b, 0
  {
    assert ScanTo(img, entry, jrPc, rs, b + 1) == ScanWord(s, h, rs);
    hide Decode, WordAt, ScanTo, ScanWord;
    LateStep(s, h, rs);
    if IsAddiu(h.f) {
      LateScan(img, entry, jrPc, rs, b + 1, ScanWord(s, h, rs));
    } else {
      StoppedStays(img, entry, jrPc, rs, b + 1, 40);
    }
  }

  /** How far the recovered table address is off: by the immediate of the late `addiu`, unless an `addiu` of
      the idiom was found. */
  function Shift(img: Image, entry: int, jrPc: int, addu: Hit, fed: Option<Hit>, count: Hit): int {
    if fed.Some? then 0 else Offset(Late(img, entry, jrPc, count.back + 1, addu.f.rs))
  }

  /** The table address of a template, as the machine forms it. */
  function TemplateBase(lw: Hit, lui: Hit, fed: Option<Hit>): int {
    Upper(Some(lui)) + Offset(fed) + Offset(Some(lw))
  }

  lemma TemplateScanned(img: Image, entry: int, jrPc: int, rs: Reg, lw: Hit, addu: Hit, lui: Hit, fed: Option<Hit>,
                        count: Hit)
    requires Template(img, entry, jrPc, rs, lw, addu, lui, fed, count)
    ensures var s := ScanTo(img, entry, jrPc, rs, 40);
            && SameFind(Recognised(lw, addu, lui, fed).(count := Some(count)), s)
            && TableBase(s) == TemplateBase(lw, lui, fed) + Shift(img, entry, jrPc, addu, fed, count)
            && TrueBase(s) == TemplateBase(lw, lui, fed)
  {
    var s := Recognised(lw, addu, lui, fed).(count := Some(count));
    assert count.back <= 40;
    hide Template, ScanTo, At, WordAt, Decode, Code, Late;
    ReachCount(img, entry, jrPc, rs, lw, addu, lui, fed, count);
    LateScan(img, entry, jrPc, rs, count.back, s);
  }

  /** Which templates are recovered right: those with an `addiu` of their own, and those in front of whose
      bound check no in-place `addiu` of the first `addu` operand, with an immediate other than 0, stands
      nearest in the run of `addiu` words. */
  lemma TemplateBaseIff(img: Image, entry: int, jrPc: int, rs: Reg, lw: Hit, addu: Hit, lui: Hit, fed: Option<Hit>,
                        count: Hit)
    requires Template(img, entry, jrPc, rs, lw, addu, lui, fed, count)
    ensures TableBase(ScanTo(img, entry, jrPc, rs, 40)) == TemplateBase(lw, lui, fed) <==>
            || fed.Some?
            || Late(img, entry, jrPc, count.back + 1, addu.f.rs).None?
            || Late(img, entry, jrPc, count.back + 1, addu.f.rs).value.f.simm == 0
  {
    hide Template, ScanTo, Late, TableBase, TemplateBase;
    TemplateScanned(img, entry, jrPc, rs, lw, addu, lui, fed, count);
  }

  /** Completeness: both compiler templates are recovered, with the table address off by the shift. */
  lemma TemplateRecovered(img: Image, entry: int, cap: int, jrPc: int, rs: Reg, lw: Hit, addu: Hit, lui: Hit,
                          fed: Option<Hit>, count: Hit)
    requires Template(img, entry, jrPc, rs, lw, addu, lui, fed, count)
    ensures Targets(img, entry, cap, jrPc, rs) ==
            if count.f.imm >= 512 then {}
            else ReadTable(img, entry, cap, TemplateBase(lw, lui, fed) + Shift(img, entry, jrPc, addu, fed, count),
                count.f.imm)
  {
    hide Template, ScanTo, At, WordAt, Decode, Code, ReadTable, InWindow, Shift, TemplateBase, TableBase;
    TemplateScanned(img, entry, jrPc, rs, lw, addu, lui, fed, count);
  }

  /** A straight-line run of a template whose scaled index is 4 * i. */
  ghost predicate TemplateRun(img: Image, jrPc: int, rs: Reg, lw: Hit, addu: Hit, lui: Hit, fed: Option<Hit>,
                              depth: nat, regs: seq<WordRegs>, mem: int -> Word, i: nat) {
    var other := if lui.f.rt == addu.f.rs then addu.f.rt else addu.f.rs;
    && addu.back < lui.back <= depth && |regs| == depth + 1
    && DefUse(img, jrPc, rs, lw, addu, lui.f.rt, lui, fed)
    && StraightLine(img, jrPc, depth, regs, mem)
    && regs[addu.back][other] == 4 * i
  }

  lemma RunIsInstance(img: Image, entry: int, jrPc: int, rs: Reg, lw: Hit, addu: Hit, lui: Hit, fed: Option<Hit>,
                      count: Hit, depth: nat, regs: seq<WordRegs>, mem: int -> Word, i: nat)
    requires Template(img, entry, jrPc, rs, lw, addu, lui, fed, count)
    requires TemplateRun(img, jrPc, rs, lw, addu, lui, fed, depth, regs, mem, i)
    ensures Instance(img, jrPc, rs, ScanTo(img, entry, jrPc, rs, 40), depth, regs, mem, i)
  {
    assert lui.f.rt == addu.f.rs || lui.f.rt == addu.f.rt;
    hide Template, ScanTo, DefUse, StraightLine, Shift, TemplateBase, TableBase, TrueBase;
    TemplateScanned(img, entry, jrPc, rs, lw, addu, lui, fed, count);
  }

  /** What the `jr` of a template takes. */
  lemma TemplateTakes(img: Image, entry: int, jrPc: int, rs: Reg, lw: Hit, addu: Hit, lui: Hit, fed: Option<Hit>,
                      count: Hit, depth: nat, regs: seq<WordRegs>, mem: int -> Word, i: nat)
    requires Template(img, entry, jrPc, rs, lw, addu, lui, fed, count)
    requires TemplateRun(img, jrPc, rs, lw, addu, lui, fed, depth, regs, mem, i)
    ensures |regs| > 0 && regs[0][rs] == mem(Wrap(TemplateBase(lw, lui, fed) + 4 * i))
  {
    hide Template, ScanTo, Instance, Found, Wrap, TemplateRun, Shift, TemplateBase, TableBase, TrueBase, Code;
    var s := ScanTo(img, entry, jrPc, rs, 40);
    RunIsInstance(img, entry, jrPc, rs, lw, addu, lui, fed, count, depth, regs, mem, i);
    InstanceParts(img, jrPc, rs, s, depth, regs, mem, i);
    ScanFound(img, entry, jrPc, rs, 40);
    InstanceTakes(img, jrPc, rs, s, depth, regs, mem, i);
    TemplateScanned(img, entry, jrPc, rs, lw, addu, lui, fed, count);
  }

  /** Soundness for templates: when the template is recovered right, the index is below the bound and the
      table does not wrap around, the address the `jr` takes is recovered if it is aligned and in the window. */
  lemma TemplateSound(img: Image, entry: int, cap: int, jrPc: int, rs: Reg, lw: Hit, addu: Hit, lui: Hit,
                      fed: Option<Hit>, count: Hit, depth: nat, regs: seq<WordRegs>, mem: int -> Word, i: nat)
    requires Template(img, entry, jrPc, rs, lw, addu, lui, fed, count) && i < count.f.imm < 512
    requires TemplateRun(img, jrPc, rs, lw, addu, lui, fed, depth, regs, mem, i)
    requires Shift(img, entry, jrPc, addu, fed, count) == 0
    requires var a := TemplateBase(lw, lui, fed) + 4 * i; 0 <= a < 0x1_0000_0000 && WordAt(img, a) == Some(mem(a))
    requires |regs| > 0 && InWindow(img, entry, cap, regs[0][rs])
    ensures regs[0][rs] in Targets(img, entry, cap, jrPc, rs)
  {
    hide Template, ScanTo, TemplateRun, Shift, TemplateBase, TableBase, TrueBase, Targets, WordAt, InWindow;
    TemplateTakes(img, entry, jrPc, rs, lw, addu, lui, fed, count, depth, regs, mem, i);
    TemplateScanned(img, entry, jrPc, rs, lw, addu, lui, fed, count);
    TableWordRecovered(img, entry, cap, jrPc, rs, ScanTo(img, entry, jrPc, rs, 40), i, regs[0][rs]);
  }

  // ---- A switch that is recovered wrong ----

  /** addiu $2,$2,4; sltiu $1,$2,1; lui $1,0x8000; addu $1,$2,$1; lw $1,24($1); jr $1; and a table of one
      entry followed by a zero. */
  const SWITCH: seq<Word> :=
    [0x2442_0004, 0x2C41_0001, 0x3C01_8000, 0x0041_0821, 0x8C21_0018, 0x0020_0008, 0x8000_0008, 0]

  function Switch(): Image { ImageOf(SWITCH, 0x8000_0000) }

  lemma SwitchFields()
    ensures var f := Decode(0x2442_0004); IsAddiu(f) && AdjustsInPlace(f, 2) && f.simm == 4
    ensures var f := Decode(0x2C41_0001); IsSltiu(f) && f.imm == 1
    ensures var f := Decode(0x3C01_8000); IsLui(f) && f.rt == 1 && f.imm == 0x8000
    ensures var f := Decode(0x0041_0821); IsAddu(f) && f.rd == 1 && f.rs == 2 && f.rt == 1
    ensures var f := Decode(0x8C21_0018); IsLw(f) && f.rt == 1 && f.rs == 1 && f.simm == 0x18
  {
  }

  lemma SwitchWords()
    ensures WordAt(Switch(), 0x8000_0000) == Some(0x2442_0004) && WordAt(Switch(), 0x8000_0004) == Some(0x2C41_0001)
    ensures WordAt(Switch(), 0x8000_0008) == Some(0x3C01_8000) && WordAt(Switch(), 0x8000_000C) == Some(0x0041_0821)
    ensures WordAt(Switch(), 0x8000_0010) == Some(0x8C21_0018)
    ensures WordAt(Switch(), 0x8000_0018) == Some(0x8000_0008) && WordAt(Switch(), 0x8000_001C) == Some(0)
    ensures Switch().load == 0x8000_0000 && Switch().size == 32
  {
    hide WordAt, Flatten;
    ImageWord(SWITCH, 0x8000_0000, 0);
    ImageWord(SWITCH, 0x8000_0000, 1);
    ImageWord(SWITCH, 0x8000_0000, 2);
    ImageWord(SWITCH, 0x8000_0000, 3);
    ImageWord(SWITCH, 0x8000_0000, 4);
    ImageWord(SWITCH, 0x8000_0000, 6);
    ImageWord(SWITCH, 0x8000_0000, 7);
  }

  /** The switch, in a function that begins at the `addiu` or behind it. */
  lemma SwitchIsTemplate(entry: int) returns (lw: Hit, addu: Hit, lui: Hit, count: Hit)
    requires entry == 0x8000_0000 || entry == 0x8000_0004
    ensures Template(Switch(), entry, 0x8000_0014, 1, lw, addu, lui, None, count)
    ensures lw.back == 1 && addu.back == 2 && lui.back == 3 && count.back == 4 && count.f.imm == 1
    ensures addu.f.rs == 2 && addu.f.rt == 1 && lui.f.rt == 1 && lw.f.rs == 1
    ensures TemplateBase(lw, lui, None) == 0x8000_0018
    ensures Shift(Switch(), entry, 0x8000_0014, addu, None, count) == if entry == 0x8000_0000 then 4 else 0
  {
    SwitchFields();
    SwitchWords();
    hide WordAt, Decode, Flatten, Switch;
    var img := Switch();
    lw, addu := Hit(1, Decode(0x8C21_0018)), Hit(2, Decode(0x0041_0821));
    lui, count := Hit(3, Decode(0x3C01_8000)), Hit(4, Decode(0x2C41_0001));
    assert Late(img, entry, 0x8000_0014, 5, 2) == if entry == 0x8000_0000 then Some(Hit(5, Decode(0x2442_0004)))
           else None;
  }

  /** The address the switch takes for index 0 lies in the window and is not recovered: the tool reads the
      word behind the table. */
  lemma SwitchMissed(regs: seq<WordRegs>, mem: int -> Word)
    requires |regs| == 4 && StraightLine(Switch(), 0x8000_0014, 3, regs, mem) && regs[2][2] == 0
    requires mem(0x8000_0018) == 0x8000_0008
    ensures regs[0][1] == 0x8000_0008 && InWindow(Switch(), 0x8000_0000, 0x8000_0020, regs[0][1])
    ensures regs[0][1] !in Targets(Switch(), 0x8000_0000, 0x8000_0020, 0x8000_0014, 1)
  {
    hide WordAt, Decode, Switch, Template, StraightLine, Targets, Shift, TemplateBase, Preserves;
    var img := Switch();
    var lw, addu, lui, count := SwitchIsTemplate(0x8000_0000);
    SwitchWords();
    TemplateTakes(img, 0x8000_0000, 0x8000_0014, 1, lw, addu, lui, None, count, 3, regs, mem, 0);
    TemplateRecovered(img, 0x8000_0000, 0x8000_0020, 0x8000_0014, 1, lw, addu, lui, None, count);
    assert ReadTable(img, 0x8000_0000, 0x8000_0020, 0x8000_001C, 1) == {};
  }

  /** In a function that begins behind the `addiu` the same address is recovered. */
  lemma SwitchFound(regs: seq<WordRegs>, mem: int -> Word)
    requires |regs| == 4 && StraightLine(Switch(), 0x8000_0014, 3, regs, mem) && regs[2][2] == 0
    requires mem(0x8000_0018) == 0x8000_0008
    ensures regs[0][1] == 0x8000_0008 && regs[0][1] in Targets(Switch(), 0x8000_0004, 0x8000_0020, 0x8000_0014, 1)
  {
    hide WordAt, Decode, Switch, Template, StraightLine, Targets, Shift, TemplateBase, Preserves;
    var img := Switch();
    var lw, addu, lui, count := SwitchIsTemplate(0x8000_0004);
    SwitchWords();
    TemplateTakes(img, 0x8000_0004, 0x8000_0014, 1, lw, addu, lui, None, count, 3, regs, mem, 0);
    TemplateSound(img, 0x8000_0004, 0x8000_0020, 0x8000_0014, 1, lw, addu, lui, None, count, 3, regs, mem, 0);
  }

  /** Such runs exist. */
  lemma SwitchRuns() returns (regs: seq<WordRegs>, mem: int -> Word)
    ensures |regs| == 4 && StraightLine(Switch(), 0x8000_0014, 3, regs, mem) && regs[2][2] == 0
    ensures mem(0x8000_0018) == 0x8000_0008
  {
    SwitchFields();
    SwitchWrites();
    SwitchWords();
    hide WordAt, Decode, Flatten, Switch, Hazards.Writes;
    var img := Switch();
    var zeros: WordRegs := seq(32, _ => 0);
    var base: WordRegs := zeros[1 := 0x8000_0000];
    regs := [zeros[1 := 0x8000_0008], base, base, zeros];
    mem := _ => 0x8000_0008;
    assert ExecutesAt(img, 0x8000_0014, 3, regs[3], regs[2], mem);
    assert ExecutesAt(img, 0x8000_0014, 2, regs[2], regs[1], mem);
    assert ExecutesAt(img, 0x8000_0014, 1, regs[1], regs[0], mem);
  }

  lemma SwitchWrites()
    ensures Hazards.Writes(0x3C01_8000) == Hazards.Writes(0x0041_0821) == Hazards.Writes(0x8C21_0018) == Some({1})
  {
  }
}
