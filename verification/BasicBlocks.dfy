/** The basic-block analyser: leaders, blocks that take in their delay slot, successor and
    predecessor edges. Blocks overlap only where a delay slot is itself a leader. */
module BasicBlocks {
  import opened Mips
  import Isa
  import Flows
  import Sorting

  /** An executable: its words, and up to three bytes behind them that fill no word. */
  datatype Exe = Exe(load: nat, entry: int, words: seq<Word>, tail: nat)
  {
    /** What the header check of the loader admits. */
    predicate Valid() {
      && 0x8000_0000 <= load && End() <= 0x8020_0000 && tail < 4 && load < End()
      && 0x8000_0000 <= entry < 0xA000_0000
    }

    function End(): int { load + 4 * |words| + tail }
    function At(i: int): int { load + 4 * i }

    /** Whether a word was decoded at this address. */
    predicate Decoded(a: int) { load <= a < load + 4 * |words| && (a - load) % 4 == 0 }

    function Index(a: int): (i: nat)
      requires Decoded(a)
      ensures i < |words| && At(i) == a
    {
      (a - load) / 4
    }

    predicate InRange(a: int) { load <= a < End() }
  }

  /** What the decoder says about an instruction's control flow; targets it does not know are 0. */
  datatype Instr = Instr(branch: bool, jump: bool, jrRa: bool, jal: bool, branchTarget: int, jumpTarget: int)
  {
    predicate Transfers() { branch || jump }
  }

  function InstrOf(w: Word, a: int): Instr {
    var op := Opcode(w);
    var isBranch := op in {0x04, 0x05, 0x06, 0x07} || (op == 0x01 && Rt(w) in {0x00, 0x01, 0x10, 0x11});
    var isJr := op == 0x00 && Funct(w) == 0x08;
    Instr(isBranch,
          op in {0x02, 0x03} || isJr || (op == 0x00 && Funct(w) == 0x09),
          isJr && Rs(w) == 31,
          op == 0x03,
          if op in {0x01, 0x04, 0x05, 0x06, 0x07} then BranchTarget(a, w) % 0x1_0000_0000 else 0,
          if op in {0x02, 0x03} then JumpTarget(a, w) else 0)
  }

  function InstrAt(exe: Exe, i: nat): Instr
    requires i < |exe.words|
  {
    InstrOf(exe.words[i], exe.At(i))
  }

  predicate Transfers(exe: Exe, i: nat)
    requires i < |exe.words|
  {
    InstrAt(exe, i).Transfers()
  }

  // ---- Leaders ----

  /** The leaders one instruction contributes: the word behind its delay slot and its target. */
  function LeadersOf(exe: Exe, i: nat): set<int>
    requires i < |exe.words|
  {
    var t := InstrAt(exe, i);
    if !t.Transfers() then {}
    else
      (if exe.At(i) + 8 < exe.End() then {exe.At(i) + 8} else {})
      + (if t.branch && t.branchTarget != 0 && exe.InRange(t.branchTarget) then {t.branchTarget} else {})
      + (if t.jump && t.jumpTarget != 0 && exe.InRange(t.jumpTarget) then {t.jumpTarget} else {})
  }

  function LeadersTo(exe: Exe, k: nat): set<int>
    requires k <= |exe.words|
  {
    if k == 0 then {exe.entry} else LeadersTo(exe, k - 1) + LeadersOf(exe, k - 1)
  }

  function Leaders(exe: Exe): set<int> { LeadersTo(exe, |exe.words|) }

  lemma {:induction false} LeaderIff(exe: Exe, k: nat, a: int)
    requires k <= |exe.words|
    ensures a in LeadersTo(exe, k) <==> a == exe.entry || exists i :: 0 <= i < k && a in LeadersOf(exe, i)
  {
    hide LeadersOf;
    if k > 0 {
      LeaderIff(exe, k - 1, a);
    }
  }

  /** Collects the leaders in a list, which is then sorted and stripped of repetitions. */
  method FindLeaders(exe: Exe) returns (leaders: seq<int>)
    ensures leaders == Sorting.Sorted(Leaders(exe))
  {
    hide InstrOf, Sorting.Sorted;
    var found := [exe.entry];
    assert Sorting.Elements(found) == {exe.entry};
    for i := 0 to |exe.words|
      invariant Sorting.Elements(found) == LeadersTo(exe, i)
    {
      var more := Contribution(exe, i);
      ElementsAppend(found, more);
      found := found + more;
    }
    leaders := Sorting.Sorted(Sorting.Elements(found));
  }

  method Contribution(exe: Exe, i: nat) returns (more: seq<int>)
    requires i < |exe.words|
    ensures Sorting.Elements(more) == LeadersOf(exe, i)
  {
    hide InstrOf;
    var instr := InstrAt(exe, i);
    more := [];
    if instr.branch || instr.jump {
      var fallThrough := exe.At(i) + 8;
      if fallThrough < exe.End() {
        more := more + [fallThrough];
      }
      if instr.branch && instr.branchTarget != 0 && exe.InRange(instr.branchTarget) {
        more := more + [instr.branchTarget];
      }
      if instr.jump && instr.jumpTarget != 0 && exe.InRange(instr.jumpTarget) {
        more := more + [instr.jumpTarget];
      }
    }
  }

  lemma ElementsAppend(a: seq<int>, b: seq<int>)
    ensures Sorting.Elements(a + b) == Sorting.Elements(a) + Sorting.Elements(b)
  {
  }

  // ---- One block ----

  /** The last instruction of a block, and whether it is the delay slot of the one before it. */
  datatype Extent = Extent(last: nat, delay: bool)

  /** How far a block reaches from instruction i, given the next leader. */
  function Reach(exe: Exe, i: nat, next: int): Extent
    requires i < |exe.words|
    decreases |exe.words| - i
  {
    if Transfers(exe, i) then
      if i + 1 < |exe.words| then Extent(i + 1, true) else Extent(i, false)
    else if i + 1 < |exe.words| && exe.At(i + 1) < next then Reach(exe, i + 1, next)
    else Extent(i, false)
  }

  /** Straight-line code up to a final transfer: what a block looks like. */
  ghost predicate BlockShape(exe: Exe, i: nat, next: int, x: Extent) {
    && i <= x.last < |exe.words|
    && (x.delay ==> i < x.last && Transfers(exe, x.last - 1))
    && (forall k :: i <= k < x.last - (if x.delay then 1 else 0) ==> !Transfers(exe, k))
    && (forall k :: i < k <= x.last - (if x.delay then 1 else 0) ==> exe.At(k) < next)
    && (!x.delay ==> x.last + 1 == |exe.words| || (!Transfers(exe, x.last) && next <= exe.At(x.last + 1)))
  }

  lemma {:induction false} ReachShape(exe: Exe, i: nat, next: int)
    requires i < |exe.words|
    ensures BlockShape(exe, i, next, Reach(exe, i, next))
    decreases |exe.words| - i
  {
    hide Transfers;
    if !Transfers(exe, i) && i + 1 < |exe.words| && exe.At(i + 1) < next {
      ReachShape(exe, i + 1, next);
    }
  }

  datatype Block = Block(start: int, end: int, count: nat, hasDelay: bool, delayAddr: int,
                         successors: seq<int>, predecessors: seq<int>)
  {
    predicate Contains(a: int) { start <= a <= end }
  }

  /** The targets of a transfer whose following block starts at `after`. */
  function EdgesOf(exe: Exe, t: Instr, after: int): set<int> {
    var fall := if after < exe.End() then {after} else {};
    if t.branch then fall + (if exe.InRange(t.branchTarget) then {t.branchTarget} else {})
    else if t.jrRa then {}
    else if t.jal then fall
    else if exe.InRange(t.jumpTarget) then {t.jumpTarget} else {}
  }

  function Edges(exe: Exe, i: nat, x: Extent): set<int>
    requires i <= x.last < |exe.words| && (x.delay ==> i < x.last)
  {
    if x.delay then EdgesOf(exe, InstrAt(exe, x.last - 1), exe.At(x.last) + 4)
    else if !Transfers(exe, x.last) || i < x.last then EdgeAfter(exe, x.last)
    else EdgesOf(exe, InstrAt(exe, x.last), 4)
  }

  function EdgeAfter(exe: Exe, last: nat): set<int> {
    if exe.At(last) + 4 < exe.End() then {exe.At(last) + 4} else {}
  }

  function BlockFrom(exe: Exe, i: nat, next: int): Block
    requires i < |exe.words|
  {
    ReachShape(exe, i, next);
    var x := Reach(exe, i, next);
    Block(exe.At(i), exe.At(x.last), x.last - i + 1, x.delay || Transfers(exe, x.last),
          if x.delay then exe.At(x.last) else 0, Sorting.Sorted(Edges(exe, i, x)), [])
  }

  // ---- Building a block ----

  /** What the scan of one block has gathered. */
  datatype Scanned = Scanned(end: int, count: nat, hasDelay: bool, delayAddr: int)

  function ScannedTo(exe: Exe, i: nat, x: Extent): Scanned
    requires i <= x.last < |exe.words|
  {
    Scanned(exe.At(x.last), x.last - i + 1, x.delay || Transfers(exe, x.last), if x.delay then exe.At(x.last) else 0)
  }

  method ScanBlock(exe: Exe, idx: nat, next: int) returns (s: Scanned)
    requires idx < |exe.words|
    ensures BlockShape(exe, idx, next, Reach(exe, idx, next))
    ensures s == ScannedTo(exe, idx, Reach(exe, idx, next))
  {
    hide Transfers, BlockShape;
    ReachShape(exe, idx, next);
    var start := exe.At(idx);
    var end, count, hasDelay, delayAddr := start, 0, false, 0;
    var inDelay, ended := false, false;
    ghost var x := Reach(exe, idx, next);
    var i := idx;
    while i < |exe.words| && !ended
      invariant idx <= i <= |exe.words| && count >= 0
      invariant !ended ==> count == i - idx && delayAddr == 0 && hasDelay == inDelay
      invariant !ended && !inDelay ==> i < |exe.words| && x == Reach(exe, i, next) && (i == idx || exe.At(i) < next)
      invariant !ended && inDelay ==>
                idx < i && Transfers(exe, i - 1) && end == exe.At(i - 1) && x == Reach(exe, i - 1, next)
      invariant ended ==>
                idx <= x.last < |exe.words| && Scanned(end, count, hasDelay, delayAddr) == ScannedTo(exe, idx, x)
    {
      if !inDelay && exe.At(i) >= next && exe.At(i) != start {
        break;
      }
      end := exe.At(i);
      count := count + 1;
      if inDelay {
        delayAddr := exe.At(i);
        ended := true;
      } else if Transfers(exe, i) {
        hasDelay := true;
        inDelay := true;
      } else if i + 1 < |exe.words| {
        if exe.At(i + 1) >= next {
          ended := true;
        }
      } else {
        ended := true;
      }
      i := i + 1;
    }
    s := Scanned(end, count, hasDelay, delayAddr);
  }

  /** The successor edges as the analyser finds them, through the address index. */
  method Successors(exe: Exe, idx: nat, ghost x: Extent, s: Scanned) returns (edges: set<int>)
    requires exe.Valid() && idx <= x.last < |exe.words| && (x.delay ==> idx < x.last && Transfers(exe, x.last - 1))
    requires x.delay || (Transfers(exe, x.last) ==> x.last + 1 == |exe.words|)
    requires s == ScannedTo(exe, idx, x)
    ensures edges == Edges(exe, idx, x)
  {
    hide InstrOf;
    var term: Option<Instr> := None;
    if s.hasDelay && s.count >= 2 {
      var branchAddr := (s.delayAddr - 4) % 0x1_0000_0000;
      if exe.Decoded(branchAddr) {
        term := Some(InstrAt(exe, exe.Index(branchAddr)));
      }
    } else if exe.Decoded(s.end) {
      var endInstr := InstrAt(exe, exe.Index(s.end));
      if endInstr.branch || endInstr.jump {
        term := Some(endInstr);
      }
    }
    if term.Some? {
      var after := if s.hasDelay then s.delayAddr + 4 else s.end + 4;
      edges := EdgesOf(exe, term.value, after);
    } else {
      var fallThrough := s.end + 4;
      edges := if fallThrough < exe.End() then {fallThrough} else {};
    }
  }

  method BuildBlock(exe: Exe, idx: nat, next: int) returns (b: Block)
    requires exe.Valid() && idx < |exe.words|
    ensures b == BlockFrom(exe, idx, next)
  {
    hide Transfers, Edges, Sorting.Sorted;
    var s := ScanBlock(exe, idx, next);
    var edges := Successors(exe, idx, Reach(exe, idx, next), s);
    b := Block(exe.At(idx), s.end, s.count, s.hasDelay, s.delayAddr, Sorting.Sorted(edges), []);
  }

  // ---- All blocks ----

  function NextOf(exe: Exe, leaders: seq<int>, k: nat): int
    requires k < |leaders|
  {
    if k + 1 < |leaders| then leaders[k + 1] else exe.End()
  }

  /** The blocks of the first k leaders; a leader where nothing was decoded starts none. */
  function Built(exe: Exe, leaders: seq<int>, k: nat): seq<Block>
    requires k <= |leaders|
  {
    if k == 0 then []
    else
      var a := leaders[k - 1];
      Built(exe, leaders, k - 1)
      + if exe.Decoded(a) then [BlockFrom(exe, exe.Index(a), NextOf(exe, leaders, k - 1))] else []
  }

  function Blocks(exe: Exe): seq<Block> {
    var leaders := Sorting.Sorted(Leaders(exe));
    Built(exe, leaders, |leaders|)
  }

  // ---- Blocks by their start ----

  ghost function Later(exe: Exe, a: int): set<int> { set l | l in Leaders(exe) && a < l }

  ghost function NextLeader(exe: Exe, a: int): int {
    if Later(exe, a) == {} then exe.End() else Sorting.Least(Later(exe, a))
  }

  ghost predicate IsStart(exe: Exe, a: int) { exe.Decoded(a) && a in Leaders(exe) }

  ghost function BlockAt(exe: Exe, a: int): Block
    requires exe.Decoded(a)
  {
    BlockFrom(exe, exe.Index(a), NextLeader(exe, a))
  }

  lemma NextIs(exe: Exe, k: nat)
    requires k < |Sorting.Sorted(Leaders(exe))|
    ensures var ls := Sorting.Sorted(Leaders(exe)); NextOf(exe, ls, k) == NextLeader(exe, ls[k])
  {
    hide Leaders, Sorting.Sorted;
    var ls := Sorting.Sorted(Leaders(exe));
    var a := ls[k];
    if k + 1 < |ls| {
      assert ls[k + 1] in ls;
      assert ls[k + 1] in Later(exe, a);
      forall l | l in Later(exe, a) ensures ls[k + 1] <= l {
        assert l in ls;
        var j :| 0 <= j < |ls| && ls[j] == l;
      }
      assert Sorting.IsLeast(Later(exe, a), ls[k + 1]);
    } else {
      forall l | l in Leaders(exe) ensures l <= a {
        assert l in ls;
      }
      assert Later(exe, a) == {};
    }
  }

  ghost predicate Ordered(bs: seq<Block>) { forall i, j :: 0 <= i < j < |bs| ==> bs[i].start < bs[j].start }

  /** The first k leaders, as far as they start blocks. */
  ghost predicate BuiltMeans(exe: Exe, ls: seq<int>, k: nat, bs: seq<Block>)
    requires k <= |ls|
  {
    && Ordered(bs)
    && (forall b :: b in bs ==> exe.Decoded(b.start) && b.start in ls[..k] && b == BlockAt(exe, b.start))
    && (forall a :: a in ls[..k] && exe.Decoded(a) ==> BlockAt(exe, a) in bs)
  }

  lemma BuiltStep(exe: Exe, ls: seq<int>, k: nat, bs: seq<Block>)
    requires ls == Sorting.Sorted(Leaders(exe)) && k < |ls| && BuiltMeans(exe, ls, k, bs)
    ensures exe.Decoded(ls[k]) ==> BuiltMeans(exe, ls, k + 1, bs + [BlockAt(exe, ls[k])])
    ensures !exe.Decoded(ls[k]) ==> BuiltMeans(exe, ls, k + 1, bs)
  {
    hide Leaders, Sorting.Sorted, NextLeader, Reach, Edges, Transfers;
    assert ls[..k + 1] == ls[..k] + [ls[k]];
    forall i | 0 <= i < |bs| ensures bs[i].start < ls[k] {
      assert bs[i] in bs;
      var j :| 0 <= j < k && ls[j] == bs[i].start;
    }
  }

  lemma {:induction false} BuiltIs(exe: Exe, ls: seq<int>, k: nat)
    requires ls == Sorting.Sorted(Leaders(exe)) && k <= |ls|
    ensures BuiltMeans(exe, ls, k, Built(exe, ls, k))
  {
    hide Leaders, Sorting.Sorted, BuiltMeans, NextLeader, BlockFrom;
    if k == 0 {
      BuiltNone(exe, ls);
    } else {
      BuiltIs(exe, ls, k - 1);
      BuiltStep(exe, ls, k - 1, Built(exe, ls, k - 1));
      NextIs(exe, k - 1);
      assert Built(exe, ls, k - 1) + [] == Built(exe, ls, k - 1);
    }
  }

  lemma BuiltNone(exe: Exe, ls: seq<int>)
    ensures BuiltMeans(exe, ls, 0, [])
  {
  }

  /** The blocks are, in ascending order, those of the leaders where a word was decoded. */
  lemma BlocksAre(exe: Exe)
    ensures Ordered(Blocks(exe))
    ensures forall b :: b in Blocks(exe) ==> IsStart(exe, b.start) && b == BlockAt(exe, b.start)
    ensures forall a :: IsStart(exe, a) ==> BlockAt(exe, a) in Blocks(exe)
  {
    hide Leaders, Sorting.Sorted, NextLeader, BlockFrom;
    var ls := Sorting.Sorted(Leaders(exe));
    BuiltIs(exe, ls, |ls|);
    assert ls[..|ls|] == ls;
  }

  // ---- Overlap ----

  lemma NextBound(exe: Exe, a: int, l: int)
    requires l in Leaders(exe) && a < l
    ensures a < NextLeader(exe, a) <= l
  {
    hide Leaders;
    assert l in Later(exe, a);
  }

  /** Two blocks share at most one address: the delay slot of the first, where the second starts. */
  lemma Overlap(exe: Exe, a: int, b: int, x: int)
    requires IsStart(exe, a) && IsStart(exe, b) && a < b
    requires BlockAt(exe, a).Contains(x) && BlockAt(exe, b).Contains(x)
    ensures x == b == BlockAt(exe, a).end == BlockAt(exe, a).delayAddr && BlockAt(exe, a).hasDelay
  {
    hide Leaders, NextLeader, Transfers, Edges, Sorting.Sorted, Reach;
    NextBound(exe, a, b);
    var i, next := exe.Index(a), NextLeader(exe, a);
    ReachShape(exe, i, next);
    var e := Reach(exe, i, next);
    var j := exe.Index(b);
    assert i < e.last && !e.delay ==> exe.At(e.last) < next;
    assert i < j < e.last ==> exe.At(j) < next;
  }

  /** An address where no block starts lies in one block at most. */
  lemma OneBlock(exe: Exe, b: Block, c: Block, x: int)
    requires b in Blocks(exe) && c in Blocks(exe) && b.Contains(x) && c.Contains(x) && !IsStart(exe, x)
    ensures b == c
  {
    hide Blocks, BlockAt, IsStart;
    BlocksAre(exe);
    if b.start < c.start {
      Overlap(exe, b.start, c.start, x);
    } else if c.start < b.start {
      Overlap(exe, c.start, b.start, x);
    }
  }

  /** Inside a block only the last instruction, or the one before its delay slot, transfers control,
      and no leader lies inside except at the start and in the delay slot. */
  lemma StraightLine(exe: Exe, a: int, k: nat)
    requires IsStart(exe, a) && k < |exe.words|
    requires a <= exe.At(k) < BlockAt(exe, a).end
    ensures Transfers(exe, k) ==> BlockAt(exe, a).delayAddr == BlockAt(exe, a).end == exe.At(k) + 4
    ensures exe.At(k) in Leaders(exe) ==> exe.At(k) == a
  {
    hide Leaders, NextLeader, Transfers, Edges, Sorting.Sorted, Reach;
    var i, next := exe.Index(a), NextLeader(exe, a);
    ReachShape(exe, i, next);
    if exe.At(k) in Leaders(exe) && a < exe.At(k) {
      NextBound(exe, a, exe.At(k));
    }
  }

  // ---- Coverage ----

  ghost predicate LastLeader(exe: Exe, a: int, l: int) {
    l in Leaders(exe) && l <= a && forall m :: m in Leaders(exe) && m <= a ==> m <= l
  }

  lemma FallThroughLeads(exe: Exe, k: nat)
    requires k < |exe.words| && Transfers(exe, k) && exe.At(k) + 8 < exe.End()
    ensures exe.At(k) + 8 in Leaders(exe)
  {
    hide InstrOf;
    assert exe.At(k) + 8 in LeadersOf(exe, k);
    LeaderIff(exe, |exe.words|, exe.At(k) + 8);
  }

  /** A word is in the block of the last leader at or before it, if that leader starts a block. */
  lemma CoveredByLast(exe: Exe, a: int, l: int)
    requires exe.Decoded(a) && LastLeader(exe, a, l) && exe.Decoded(l)
    ensures BlockAt(exe, l) in Blocks(exe) && BlockAt(exe, l).Contains(a)
  {
    hide Leaders, Blocks, Transfers, Edges, Sorting.Sorted, Reach;
    BlocksAre(exe);
    var i, next := exe.Index(l), NextLeader(exe, l);
    ReachShape(exe, i, next);
    var e := Reach(exe, i, next);
    assert a < next by {
      if Later(exe, l) != {} {
        assert next in Later(exe, l);
      }
    }
    if e.delay && exe.At(e.last) < a {
      FallThroughLeads(exe, e.last - 1);
    }
  }

  /** Addresses on word boundaries, as executables have them; the loader does not check it. */
  predicate Aligned(exe: Exe) { exe.load % 4 == 0 && exe.entry % 4 == 0 }

  lemma WrapAligned(x: int)
    requires x % 4 == 0
    ensures x % 0x1_0000_0000 % 4 == 0
  {
    var y := x / 4;
    var q, r := y / 0x4000_0000, y % 0x4000_0000;
    Remainder(x, q, 4 * r);
  }

  lemma Remainder(x: int, q: int, r: int)
    requires x == 0x1_0000_0000 * q + r && 0 <= r < 0x1_0000_0000
    ensures x % 0x1_0000_0000 == r
  {
  }

  lemma BranchAligned(w: Word, a: int)
    requires a % 4 == 0
    ensures BranchTarget(a, w) % 4 == 0
  {
    hide SImm;
  }

  lemma JumpAligned(w: Word, a: int)
    ensures JumpTarget(a, w) % 4 == 0
  {
    var high, low := (a + 4) / 0x1000_0000 % 16, w % 0x400_0000;
    assert JumpTarget(a, w) == 4 * (high * 0x400_0000 + low);
  }

  lemma TargetsAligned(w: Word, a: int)
    requires a % 4 == 0
    ensures InstrOf(w, a).branchTarget % 4 == 0 && InstrOf(w, a).jumpTarget % 4 == 0
  {
    hide Opcode, Rs, Rt, Funct, BranchTarget, JumpTarget;
    BranchAligned(w, a);
    WrapAligned(BranchTarget(a, w));
    JumpAligned(w, a);
  }

  lemma DifferenceAligned(x: int, y: int)
    requires x % 4 == 0 && y % 4 == 0
    ensures (x - y) % 4 == 0
  {
    var p, q := x / 4, y / 4;
    assert x - y == 4 * (p - q);
  }

  lemma ContributionAligned(exe: Exe, i: nat, l: int)
    requires i < |exe.words| && exe.At(i) % 4 == 0 && l in LeadersOf(exe, i)
    ensures l % 4 == 0
  {
    TargetsAligned(exe.words[i], exe.At(i));
    hide InstrOf, Exe.InRange, Exe.End, Exe.At;
  }

  lemma AtAligned(exe: Exe, i: nat)
    requires exe.load % 4 == 0
    ensures exe.At(i) % 4 == 0
  {
  }

  lemma LeaderAligned(exe: Exe, l: int)
    requires Aligned(exe) && l in Leaders(exe)
    ensures l % 4 == 0
  {
    hide InstrOf, LeadersTo, LeadersOf, Exe.At;
    LeaderIff(exe, |exe.words|, l);
    if l != exe.entry {
      var i :| 0 <= i < |exe.words| && l in LeadersOf(exe, i);
      AtAligned(exe, i);
      ContributionAligned(exe, i, l);
    }
  }

  lemma LeadersAligned(exe: Exe, l: int)
    requires Aligned(exe) && l in Leaders(exe)
    ensures l % 4 == 0
    ensures exe.load <= l < exe.load + 4 * |exe.words| ==> exe.Decoded(l)
  {
    hide Leaders;
    LeaderAligned(exe, l);
    DifferenceAligned(l, exe.load);
  }

  lemma {:induction false} GreatestLeader(exe: Exe, s: set<int>, a: int, l: int) returns (m: int)
    requires l in s && l <= a
    ensures m in s && l <= m <= a && forall k :: k in s && k <= a ==> k <= m
    decreases s
  {
    if k :| k in s && l < k <= a {
      var rest := s - {l};
      m := GreatestLeader(exe, rest, a, k);
      assert forall j :: j in s && j <= a && j != l ==> j in rest;
    } else {
      m := l;
    }
  }

  ghost predicate Covered(exe: Exe, a: int) { exists b :: b in Blocks(exe) && b.Contains(a) }

  /** The last leader at or before a lies inside the word before a, whose transfer takes a for its delay
      slot; only addresses off the word grid make this happen. */
  ghost predicate Straddled(exe: Exe, a: int, l: int) {
    && a - 4 < l < a && exe.Decoded(a - 4) && Transfers(exe, exe.Index(a - 4))
    && exists m :: LastLeader(exe, a - 4, m) && exe.Decoded(m)
  }

  lemma StartLeads(exe: Exe, s: int, a: int) returns (l: int)
    requires IsStart(exe, s) && s <= a
    ensures LastLeader(exe, a, l) && s <= l
  {
    hide Leaders;
    l := GreatestLeader(exe, Leaders(exe), a, s);
  }

  lemma ContainedBy(exe: Exe, s: int, a: int, l: int)
    requires IsStart(exe, s) && exe.Decoded(a) && BlockAt(exe, s).Contains(a) && LastLeader(exe, a, l)
    ensures exe.Decoded(l) || Straddled(exe, a, l)
  {
    hide Leaders, NextLeader, Transfers, Edges, Sorting.Sorted, Reach;
    if s < l && !exe.Decoded(l) {
      NextBound(exe, s, l);
      var i, next := exe.Index(s), NextLeader(exe, s);
      ReachShape(exe, i, next);
      var e := Reach(exe, i, next);
      var k := exe.Index(a);
      assert i < k < e.last ==> exe.At(k) < next;
      assert i < k == e.last && !e.delay ==> exe.At(k) < next;
      assert e.delay && k == e.last;
      assert i < k - 1 ==> exe.At(k - 1) < next;
      StraddleOwner(exe, s, a);
    }
  }

  lemma StraddleOwner(exe: Exe, s: int, a: int)
    requires IsStart(exe, s) && exe.Decoded(a - 4) && s <= a - 4 && (s < a - 4 ==> a - 4 < NextLeader(exe, s))
    ensures LastLeader(exe, a - 4, s)
  {
    hide Leaders, NextLeader;
    forall m | m in Leaders(exe) && m <= a - 4 ensures m <= s {
      if s < m { NextBound(exe, s, m); }
    }
  }

  lemma StraddleCovered(exe: Exe, a: int, l: int, m: int)
    requires exe.Decoded(a) && LastLeader(exe, a, l) && a - 4 < l < a && exe.Decoded(a - 4)
    requires Transfers(exe, exe.Index(a - 4)) && LastLeader(exe, a - 4, m) && exe.Decoded(m)
    ensures BlockAt(exe, m) in Blocks(exe) && BlockAt(exe, m).Contains(a)
  {
    hide Leaders, Blocks, NextLeader, Transfers, Edges, Sorting.Sorted, Reach;
    CoveredByLast(exe, a - 4, m);
    var i, next := exe.Index(m), NextLeader(exe, m);
    ReachShape(exe, i, next);
    var e, j := Reach(exe, i, next), exe.Index(a - 4);
    if e.delay && j == e.last {
      FallThroughLeads(exe, e.last - 1);
    }
  }

  /** Exactly the words whose last leader starts a block are in one, apart from the straddled case. */
  lemma CoveredIff(exe: Exe, a: int)
    requires exe.Decoded(a)
    ensures Covered(exe, a) <==> exists l :: LastLeader(exe, a, l) && (exe.Decoded(l) || Straddled(exe, a, l))
  {
    hide Leaders, Blocks, BlockAt, LastLeader, Transfers;
    BlocksAre(exe);
    if Covered(exe, a) {
      var b :| b in Blocks(exe) && b.Contains(a);
      var l := StartLeads(exe, b.start, a);
      ContainedBy(exe, b.start, a, l);
    }
    if l :| LastLeader(exe, a, l) && (exe.Decoded(l) || Straddled(exe, a, l)) {
      if exe.Decoded(l) {
        CoveredByLast(exe, a, l);
      } else {
        var m :| LastLeader(exe, a - 4, m) && exe.Decoded(m);
        StraddleCovered(exe, a, l, m);
      }
    }
  }

  /** On word-aligned executables a decoded word is in some block exactly if a block starts at or before it. */
  lemma CoveredAligned(exe: Exe, a: int)
    requires Aligned(exe) && exe.Decoded(a)
    ensures Covered(exe, a) <==> exists l :: IsStart(exe, l) && l <= a
  {
    hide Leaders, Blocks, BlockAt;
    BlocksAre(exe);
    if l :| IsStart(exe, l) && l <= a {
      var m := GreatestLeader(exe, Leaders(exe), a, l);
      LeadersAligned(exe, m);
      CoveredByLast(exe, a, m);
    }
  }

  lemma NoLeaders(exe: Exe, a: int)
    requires forall i :: 0 <= i < |exe.words| ==> !Transfers(exe, i)
    ensures a in Leaders(exe) ==> a == exe.entry
  {
    hide InstrOf, LeadersTo;
    LeaderIff(exe, |exe.words|, a);
    forall i | 0 <= i < |exe.words| ensures a !in LeadersOf(exe, i) { assert !Transfers(exe, i); }
  }

  /** Off a word boundary the claim fails: with an undecodable entry point and straight-line code
      there is no block at all, though the entry lies in range. */
  lemma StrayEntry(exe: Exe)
    requires !exe.Decoded(exe.entry) && forall i :: 0 <= i < |exe.words| ==> !Transfers(exe, i)
    ensures forall b :: b !in Blocks(exe)
  {
    hide Blocks, BlockAt, InstrOf, Leaders;
    BlocksAre(exe);
    forall a ensures !IsStart(exe, a) {
      NoLeaders(exe, a);
    }
  }

  // ---- Edges ----

  /** Addresses on word boundaries and no bytes behind the last word. */
  predicate Whole(exe: Exe) { Aligned(exe) && exe.tail == 0 }

  /** The last word is a branch or a call and a block of its own: the case without a delay slot. */
  ghost predicate LonelyTail(exe: Exe) {
    && exe.words != []
    && var i := |exe.words| - 1;
    && (InstrAt(exe, i).branch || InstrAt(exe, i).jal)
    && exe.At(i) in Leaders(exe)
  }

  ghost predicate EdgesLand(exe: Exe) {
    forall b, t :: b in Blocks(exe) && t in b.successors ==> IsStart(exe, t)
  }

  lemma TargetLeads(exe: Exe, k: nat, t: int)
    requires exe.Valid() && k < |exe.words| && t in LeadersOf(exe, k)
    ensures t in Leaders(exe)
  {
    hide LeadersOf;
    LeaderIff(exe, |exe.words|, t);
  }

  /** Word k belongs to the block of the last leader at or before it, and not as its delay slot. */
  ghost predicate Body(exe: Exe, k: nat)
    requires k < |exe.words|
  {
    && (exists l :: LastLeader(exe, exe.At(k), l) && exe.Decoded(l))
    && (exe.At(k) in Leaders(exe) || k == 0 || !Transfers(exe, k - 1))
  }

  /** A transfer leads into the range of the executable to a place where no word was decoded. */
  ghost predicate PointsOff(exe: Exe, k: nat)
    requires k < |exe.words|
  {
    && Transfers(exe, k) && (k + 1 < |exe.words| || exe.At(k) in Leaders(exe))
    && exists t :: t in EdgesOf(exe, InstrAt(exe, k), exe.At(k) + 8) && !exe.Decoded(t)
  }

  /** Control runs on from word k where no block starts: before a leader inside the word, or into bytes
      behind the last word. */
  ghost predicate RunsOff(exe: Exe, k: nat)
    requires k < |exe.words|
  {
    if k + 1 < |exe.words| then
      && !Transfers(exe, k) && exe.At(k + 1) !in Leaders(exe)
      && exists m :: m in Leaders(exe) && exe.At(k) < m < exe.At(k + 1)
    else exe.tail > 0 && !(Transfers(exe, k) && exe.At(k) in Leaders(exe))
  }

  /** The edges of a transfer with its delay slot, or of a last jump, are leaders it contributed. */
  lemma TransferEdges(exe: Exe, k: nat, after: int, t: int)
    requires exe.Valid() && k < |exe.words| && Transfers(exe, k) && !PointsOff(exe, k)
    requires t in EdgesOf(exe, InstrAt(exe, k), after) && (k + 1 < |exe.words| || exe.At(k) in Leaders(exe))
    requires after == exe.At(k) + 8 || !(InstrAt(exe, k).branch || InstrAt(exe, k).jal)
    ensures IsStart(exe, t)
  {
    hide InstrOf, Leaders;
    assert t in EdgesOf(exe, InstrAt(exe, k), exe.At(k) + 8);
    assert t in LeadersOf(exe, k);
    TargetLeads(exe, k, t);
  }

  /** The last instruction of a block before its delay slot. */
  lemma LastInBody(exe: Exe, a: int, k: nat)
    requires IsStart(exe, a)
    requires var x := Reach(exe, exe.Index(a), NextLeader(exe, a)); k == x.last - (if x.delay then 1 else 0)
    ensures k < |exe.words| && Body(exe, k) && LastLeader(exe, exe.At(k), a)
  {
    hide Leaders, NextLeader, Transfers, Reach;
    var i, next := exe.Index(a), NextLeader(exe, a);
    ReachShape(exe, i, next);
    forall m | m in Leaders(exe) && m <= exe.At(k) ensures m <= a {
      if a < m { NextBound(exe, a, m); }
    }
  }

  /** Where a block ends without a transfer and is not the last, the next word is a leader. */
  lemma FallEdge(exe: Exe, a: int, k: nat)
    requires exe.Valid() && IsStart(exe, a) && Reach(exe, exe.Index(a), NextLeader(exe, a)) == Extent(k, false)
    requires k < |exe.words| && (Transfers(exe, k) ==> a < exe.At(k))
    requires !RunsOff(exe, k) && exe.At(k) + 4 < exe.End()
    ensures IsStart(exe, exe.At(k) + 4)
  {
    hide Leaders, Transfers, Reach;
    var i, next := exe.Index(a), NextLeader(exe, a);
    ReachShape(exe, i, next);
    if a < exe.At(k) && exe.At(k) in Leaders(exe) { NextBound(exe, a, exe.At(k)); }
    if Later(exe, a) != {} { assert next in Later(exe, a); }
    assert k + 1 < |exe.words|;
    assert exe.At(k) < next <= exe.At(k + 1);
  }

  /** Every edge leads to the start of a block exactly if there is no lonely last branch or call, whose
      missing delay slot counts as address 0 and gives it an edge to address 4, and no word of a block
      points or runs to a place where no block starts. */
  lemma EdgesLandIff(exe: Exe)
    requires exe.Valid()
    ensures EdgesLand(exe) <==>
            && !LonelyTail(exe)
            && forall k :: 0 <= k < |exe.words| && Body(exe, k) ==> !PointsOff(exe, k) && !RunsOff(exe, k)
  {
    hide Blocks, BlockAt, IsStart, LonelyTail, Body, PointsOff, RunsOff;
    BlocksAre(exe);
    if EdgesLand(exe) {
      if LonelyTail(exe) { LonelyEdge(exe); }
      forall k | 0 <= k < |exe.words| && Body(exe, k) ensures !PointsOff(exe, k) && !RunsOff(exe, k) {
        BodyLands(exe, k);
      }
    } else {
      var b, t :| b in Blocks(exe) && t in b.successors && !IsStart(exe, t);
      EdgeFails(exe, b.start, t);
    }
  }

  /** An edge that does not land has one of the three causes. */
  lemma EdgeFails(exe: Exe, a: int, t: int)
    requires exe.Valid() && IsStart(exe, a) && t in BlockAt(exe, a).successors && !IsStart(exe, t)
    ensures LonelyTail(exe)
            || exists k :: 0 <= k < |exe.words| && Body(exe, k) && (PointsOff(exe, k) || RunsOff(exe, k))
  {
    hide Leaders, Reach, InstrOf, NextLeader, EdgesOf, PointsOff, RunsOff, Body;
    var i, next := exe.Index(a), NextLeader(exe, a);
    ReachShape(exe, i, next);
    var x := Reach(exe, i, next);
    var k := x.last - (if x.delay then 1 else 0);
    LastInBody(exe, a, k);
    if !LonelyTail(exe) && !PointsOff(exe, k) && !RunsOff(exe, k) {
      if x.delay {
        TransferEdges(exe, k, exe.At(x.last) + 4, t);
      } else if !Transfers(exe, k) || i < k {
        FallEdge(exe, a, k);
      } else {
        TransferEdges(exe, k, 4, t);
      }
    }
  }

  /** The block a body word lies in goes at least as far as the word, and not as its delay slot. */
  lemma BodyIn(exe: Exe, k: nat, l: int)
    requires k < |exe.words| && Body(exe, k) && LastLeader(exe, exe.At(k), l) && exe.Decoded(l)
    ensures var x := Reach(exe, exe.Index(l), NextLeader(exe, l));
            exe.Index(l) <= k <= x.last && (k == x.last ==> !x.delay)
  {
    hide Leaders, Blocks, NextLeader, Transfers, Edges, Sorting.Sorted, Reach;
    CoveredByLast(exe, exe.At(k), l);
    ReachShape(exe, exe.Index(l), NextLeader(exe, l));
  }

  lemma BodyLands(exe: Exe, k: nat)
    requires exe.Valid() && EdgesLand(exe) && k < |exe.words| && Body(exe, k)
    ensures !PointsOff(exe, k) && !RunsOff(exe, k)
  {
    hide Leaders, Blocks, BlockAt, Transfers, EdgesOf, PointsOff, RunsOff;
    var l :| LastLeader(exe, exe.At(k), l) && exe.Decoded(l);
    BlocksAre(exe);
    if PointsOff(exe, k) { PointEdge(exe, k, l); }
    if RunsOff(exe, k) { RunEdge(exe, k, l); }
  }

  lemma PointEdge(exe: Exe, k: nat, l: int)
    requires exe.Valid() && k < |exe.words| && Body(exe, k) && LastLeader(exe, exe.At(k), l) && exe.Decoded(l)
    requires PointsOff(exe, k)
    ensures exists t :: t in BlockAt(exe, l).successors && !IsStart(exe, t)
  {
    hide Leaders, NextLeader, InstrOf, Reach, Body;
    BodyIn(exe, k, l);
    var i, next := exe.Index(l), NextLeader(exe, l);
    ReachShape(exe, i, next);
    var t :| t in EdgesOf(exe, InstrAt(exe, k), exe.At(k) + 8) && !exe.Decoded(t);
    if k + 1 == |exe.words| && (InstrAt(exe, k).branch || InstrAt(exe, k).jal) {
      LonelyEdge(exe);
    } else {
      assert t in BlockAt(exe, l).successors;
    }
  }

  lemma RunEdge(exe: Exe, k: nat, l: int)
    requires exe.Valid() && k < |exe.words| && Body(exe, k) && LastLeader(exe, exe.At(k), l) && exe.Decoded(l)
    requires RunsOff(exe, k)
    ensures exe.At(k) + 4 in BlockAt(exe, l).successors && !IsStart(exe, exe.At(k) + 4)
  {
    hide Leaders, NextLeader, Transfers, Reach, Body;
    BodyIn(exe, k, l);
    var i, next := exe.Index(l), NextLeader(exe, l);
    ReachShape(exe, i, next);
    if k + 1 < |exe.words| {
      var m :| m in Leaders(exe) && exe.At(k) < m < exe.At(k + 1);
      NextBound(exe, l, m);
    }
  }

  /** On whole executables only the lonely last branch or call is left. */
  lemma EdgesLandWhole(exe: Exe)
    requires exe.Valid() && Whole(exe)
    ensures EdgesLand(exe) <==> !LonelyTail(exe)
  {
    hide EdgesLand, LonelyTail, Body, PointsOff, RunsOff;
    EdgesLandIff(exe);
    if !LonelyTail(exe) {
      forall k | 0 <= k < |exe.words| ensures !PointsOff(exe, k) && !RunsOff(exe, k) {
        WholeLands(exe, k);
      }
    }
  }

  lemma WholeLands(exe: Exe, k: nat)
    requires exe.Valid() && Whole(exe) && k < |exe.words| && !LonelyTail(exe)
    ensures !PointsOff(exe, k) && !RunsOff(exe, k)
  {
    hide InstrOf, Leaders;
    if m :| k + 1 < |exe.words| && m in Leaders(exe) && exe.At(k) < m < exe.At(k + 1) {
      LeadersAligned(exe, m);
    }
    if PointsOff(exe, k) {
      var t :| t in EdgesOf(exe, InstrAt(exe, k), exe.At(k) + 8) && !exe.Decoded(t);
      assert t in LeadersOf(exe, k);
      TargetLeads(exe, k, t);
      LeadersAligned(exe, t);
    }
  }

  lemma LonelyEdge(exe: Exe)
    requires exe.Valid() && LonelyTail(exe)
    ensures var a := exe.At(|exe.words| - 1); IsStart(exe, a) && 4 in BlockAt(exe, a).successors && !IsStart(exe, 4)
  {
    hide Leaders, InstrOf, NextLeader;
    var i := |exe.words| - 1;
    var a := exe.At(i);
    assert exe.Decoded(a) && exe.Index(a) == i;
    CallJumps(exe.words[i], a);
  }

  lemma CallJumps(w: Word, a: int)
    ensures InstrOf(w, a).jal ==> InstrOf(w, a).jump && !InstrOf(w, a).jrRa
  {
  }

  /** Wherever a branch or direct jump ending a block takes control inside the executable, there is an
      edge; a call has an edge to the word its return address names. */
  lemma EdgesFollow(exe: Exe, a: int, env: Isa.Env, c: Isa.Cpu, k: nat)
    requires exe.Valid() && IsStart(exe, a) && k + 1 < |exe.words|
    requires a <= exe.At(k) && exe.At(k) + 4 == BlockAt(exe, a).delayAddr
    requires Isa.Exec(env, c, exe.words[k], exe.At(k)).Go? && Opcode(exe.words[k]) != 0x00
    ensures var t := Isa.Exec(env, c, exe.words[k], exe.At(k)).pc;
            if Opcode(exe.words[k]) == 0x03 then exe.At(k) + 8 < exe.End() ==>
                exe.At(k) + 8 in BlockAt(exe, a).successors
            else exe.InRange(t) ==> t in BlockAt(exe, a).successors
  {
    hide Leaders, Reach, InstrOf, NextLeader, Isa.Exec, Opcode;
    var i, next := exe.Index(a), NextLeader(exe, a);
    ReachShape(exe, i, next);
    Destination(env, c, exe.words[k], exe.At(k));
  }

  lemma Destination(env: Isa.Env, c: Isa.Cpu, w: Word, a: int)
    requires Isa.Exec(env, c, w, a).Go? && Opcode(w) != 0x00 && 0 <= a < 0x8020_0000
    ensures var t := Isa.Exec(env, c, w, a).pc;
            var f := InstrOf(w, a);
            && (f.jal <==> Opcode(w) == 0x03)
            && (f.branch ==> t == a + 8 || t == f.branchTarget)
            && (!f.branch ==> f.jump && !f.jrRa && t == f.jumpTarget)
            && (f.jal ==> !f.branch)
  {
    hide Isa.ExecCop2, Isa.ExecCop2Memory, Rs, Rt, Funct, BranchTarget, JumpTarget, Isa.ExecImmediate, Isa.ExecLoad,
         Isa.ExecStore, Isa.ExecCop0, Isa.ExecSpecial, Isa.Negative, Isa.R, Isa.Set, Isa.ToBv, Opcode, SImm;
    Flows.NeverGo(env, c, w, a);
  }

  /** One word, a branch to itself, is such an executable: its block has an edge to address 4. */
  lemma LonelyExample() returns (exe: Exe)
    ensures exe.Valid() && Whole(exe) && LonelyTail(exe) && !EdgesLand(exe)
  {
    exe := Exe(0x8001_0000, 0x8001_0000, [0x1000_FFFF], 0);
    assert Opcode(0x1000_FFFF) == 0x04;
    assert InstrOf(0x1000_FFFF, 0x8001_0000).branch by { hide Rt, Rs, Funct, BranchTarget, JumpTarget; }
    LeaderIff(exe, 1, 0x8001_0000);
    hide InstrOf, LeadersTo, EdgesLand;
    EdgesLandWhole(exe);
  }

  // ---- Blocks and the machine ----

  /** The words the analyser takes for transfers are those on which the machine transfers control. */
  lemma TransfersIff(env: Isa.Env, c: Isa.Cpu, w: Word, a: int)
    ensures InstrOf(w, a).Transfers() <==> Isa.Exec(env, c, w, a).Go?
  {
    hide Isa.Exec, Rs, Rt, Funct, Opcode, BranchTarget, JumpTarget;
    if Opcode(w) == 0x00 { Flows.OpcodeZero(env, c, w, a); } else { Flows.OtherOpcode(env, c, w, a); }
  }

  /** Inside a block the machine transfers control only at the word before the delay slot; at its end it does only
      where the executable has no word left for the slot. */
  lemma BlockRuns(exe: Exe, a: int, env: Isa.Env, c: Isa.Cpu, k: nat)
    requires IsStart(exe, a) && k < |exe.words| && BlockAt(exe, a).Contains(exe.At(k))
    requires Isa.Exec(env, c, exe.words[k], exe.At(k)).Go?
    ensures exe.At(k) + 4 == BlockAt(exe, a).delayAddr || exe.At(k) == BlockAt(exe, a).end
    ensures exe.At(k) == BlockAt(exe, a).end ==> BlockAt(exe, a).delayAddr == exe.At(k) || k + 1 == |exe.words|
  {
    hide Isa.Exec, InstrOf, Leaders, NextLeader, Edges, Sorting.Sorted, Reach;
    TransfersIff(env, c, exe.words[k], exe.At(k));
    var i, next := exe.Index(a), NextLeader(exe, a);
    ReachShape(exe, i, next);
    if exe.At(k) < BlockAt(exe, a).end { StraightLine(exe, a, k); }
  }

  lemma RegisterJump(w: Word, a: int)
    ensures Opcode(w) == 0x00 ==> !InstrOf(w, a).branch && !InstrOf(w, a).jal && InstrOf(w, a).jumpTarget == 0
  {
  }

  /** A block that ends in JR or JALR has no successor. */
  lemma RegisterEnds(exe: Exe, a: int, k: nat)
    requires exe.Valid() && IsStart(exe, a) && k < |exe.words| && Opcode(exe.words[k]) == 0x00 && Transfers(exe, k)
    requires a <= exe.At(k) && (exe.At(k) + 4 == BlockAt(exe, a).delayAddr || exe.At(k) == a == exe.At(|exe.words| - 1))
    ensures BlockAt(exe, a).successors == []
  {
    RegisterJump(exe.words[k], exe.At(k));
    hide Leaders, NextLeader, InstrOf, Sorting.Sorted, Opcode;
    var i, next := exe.Index(a), NextLeader(exe, a);
    ReachShape(exe, i, next);
    var x := Reach(exe, i, next);
    assert Edges(exe, i, x) == {};
    SortedNone();
  }

  lemma SortedNone()
    ensures Sorting.Sorted({}) == []
  {
    assert forall a :: a in Sorting.Sorted({}) ==> a in {};
  }

  // ---- Leaders and edges by the class of a word ----

  /** Where a word sends control, apart from its delay slot: both ways of a branch, the target of a jump, the return
      from a call. Register jumps are not followed. */
  function Goes(w: Word, a: int): set<int> {
    match Classify(a, w)
    case Branch(t) => {Wrap(t), a + 8}
    case Jump(t) => {t}
    case Call(t) => {a + 8}
    case _ => {}
  }

  /** The places a word names: the target of a branch, jump or call. */
  function Names(w: Word, a: int): set<int> {
    match Classify(a, w)
    case Branch(t) => {Wrap(t)}
    case Jump(t) => {t}
    case Call(t) => {t}
    case _ => {}
  }

  lemma InstrGoes(exe: Exe, w: Word, a: int)
    requires exe.Valid() && InstrOf(w, a).Transfers() && exe.load <= a
    ensures EdgesOf(exe, InstrOf(w, a), a + 8) == set t | t in Goes(w, a) && exe.InRange(t)
  {
    hide Opcode, Rs, Rt, Funct, BranchTarget, JumpTarget;
  }

  lemma InstrNames(exe: Exe, w: Word, a: int, t: int)
    requires exe.Valid() && InstrOf(w, a).Transfers()
    ensures var i := InstrOf(w, a);
            exe.InRange(t) && t in Names(w, a) <==>
            || (i.branch && i.branchTarget != 0 && exe.InRange(i.branchTarget) && t == i.branchTarget)
            || (i.jump && i.jumpTarget != 0 && exe.InRange(i.jumpTarget) && t == i.jumpTarget)
  {
    hide Opcode, Rs, Rt, Funct, BranchTarget, JumpTarget;
  }

  /** The edges of a block that ends in a transfer are exactly where that sends control inside the executable. */
  lemma EdgesIff(exe: Exe, a: int, k: nat, t: int)
    requires exe.Valid() && IsStart(exe, a) && k + 1 < |exe.words|
    requires a <= exe.At(k) && exe.At(k) + 4 == BlockAt(exe, a).delayAddr
    ensures t in BlockAt(exe, a).successors <==> exe.InRange(t) && t in Goes(exe.words[k], exe.At(k))
  {
    hide Leaders, Reach, InstrOf, NextLeader, Goes, EdgesOf;
    var i, next := exe.Index(a), NextLeader(exe, a);
    ReachShape(exe, i, next);
    InstrGoes(exe, exe.words[k], exe.At(k));
  }

  /** Every other block runs on to the word behind it, unless it is a lonely last transfer. */
  lemma RunsOn(exe: Exe, a: int, t: int)
    requires exe.Valid() && IsStart(exe, a) && !BlockAt(exe, a).hasDelay
    ensures t in BlockAt(exe, a).successors <==> t == BlockAt(exe, a).end + 4 < exe.End()
  {
    hide Leaders, Reach, NextLeader, EdgesOf, Transfers;
    var i, next := exe.Index(a), NextLeader(exe, a);
    ReachShape(exe, i, next);
  }

  /** A leader is the entry point, the word behind the delay slot of a transfer, or a place that a branch, jump or call
      names; all of these inside the executable are leaders. */
  lemma LeadersAre(exe: Exe, l: int, env: Isa.Env, c: Isa.Cpu)
    requires exe.Valid()
    ensures l in Leaders(exe) <==>
            || l == exe.entry
            || (exe.InRange(l) && exists k: nat :: Leads(exe, env, c, k, l))
  {
    hide LeadersOf, Leads;
    LeaderIff(exe, |exe.words|, l);
    forall k: nat | k < |exe.words| ensures l in LeadersOf(exe, k) <==> exe.InRange(l) && Leads(exe, env, c, k, l) {
      LeadsIff(exe, l, env, c, k);
    }
    if k: nat :| Leads(exe, env, c, k, l) { LeadsInside(exe, l, env, c, k); }
  }

  ghost predicate Leads(exe: Exe, env: Isa.Env, c: Isa.Cpu, k: nat, l: int) {
    && k < |exe.words| && Isa.Exec(env, c, exe.words[k], exe.At(k)).Go?
    && (l == exe.At(k) + 8 || l in Names(exe.words[k], exe.At(k)))
  }

  lemma LeadsInside(exe: Exe, l: int, env: Isa.Env, c: Isa.Cpu, k: nat)
    requires Leads(exe, env, c, k, l)
    ensures k < |exe.words|
  {
    hide Isa.Exec, Names;
  }

  lemma LeadsIff(exe: Exe, l: int, env: Isa.Env, c: Isa.Cpu, k: nat)
    requires exe.Valid() && k < |exe.words|
    ensures l in LeadersOf(exe, k) <==> exe.InRange(l) && Leads(exe, env, c, k, l)
  {
    hide Isa.Exec, Names, InstrOf;
    TransfersIff(env, c, exe.words[k], exe.At(k));
    if Transfers(exe, k) { InstrNames(exe, exe.words[k], exe.At(k), l); }
  }

  // ---- Predecessors ----

  /** The starts of the blocks, among the first k, with an edge to address a. */
  function Into(bs: seq<Block>, k: nat, a: int): seq<int>
    requires k <= |bs|
  {
    if k == 0 then []
    else Into(bs, k - 1, a) + if a in bs[k - 1].successors then [bs[k - 1].start] else []
  }

  /** The blocks with predecessors added behind those they had. */
  function Linked(bs: seq<Block>): seq<Block> {
    seq(|bs|, j requires 0 <= j < |bs| => bs[j].(predecessors := bs[j].predecessors + Into(bs, |bs|, bs[j].start)))
  }

  /** A block is a predecessor exactly if it has an edge, and it is listed once. */
  lemma {:induction false} IntoMeans(bs: seq<Block>, k: nat, a: int)
    requires k <= |bs| && Ordered(bs)
    ensures forall s :: s in Into(bs, k, a) <==> exists i :: 0 <= i < k && bs[i].start == s && a in bs[i].successors
    ensures Sorting.Distinct(Into(bs, k, a))
  {
    if k > 0 {
      IntoMeans(bs, k - 1, a);
      var before := Into(bs, k - 1, a);
      forall i | 0 <= i < |before| ensures before[i] != bs[k - 1].start { assert before[i] in before; }
    }
  }

  method BuildPredecessors(bs: seq<Block>) returns (r: seq<Block>)
    requires Ordered(bs) && forall b :: b in bs ==> Sorting.Distinct(b.successors)
    ensures r == Linked(bs)
  {
    r := bs;
    for i := 0 to |bs|
      invariant |r| == |bs|
      invariant forall j :: 0 <= j < |bs| ==>
                r[j] == bs[j].(predecessors := bs[j].predecessors + Into(bs, i, bs[j].start))
    {
      assert bs[i] in bs;
      r := AddEdges(bs, i, r);
    }
  }

  /** The edges of one block, each looked up among the starts. */
  method AddEdges(bs: seq<Block>, i: nat, before: seq<Block>) returns (r: seq<Block>)
    requires i < |bs| == |before| && Ordered(bs) && Sorting.Distinct(bs[i].successors)
    requires forall j :: 0 <= j < |bs| ==> before[j].start == bs[j].start
    ensures |r| == |before|
    ensures forall j :: 0 <= j < |bs| ==>
              r[j] ==
                if bs[j].start in bs[i].successors
                then before[j].(predecessors := before[j].predecessors + [bs[i].start])
                else before[j]
  {
    r := before;
    var succ := bs[i].successors;
    for k := 0 to |succ|
      invariant |r| == |before|
      invariant forall j :: 0 <= j < |bs| ==>
        r[j] ==
          if bs[j].start in succ[..k]
          then before[j].(predecessors := before[j].predecessors + [bs[i].start])
          else before[j]
    {
      assert succ[..k + 1] == succ[..k] + [succ[k]];
      assert succ[k] !in succ[..k];
      var at := Lookup(bs, succ[k]);
      if at.Some? {
        var j := at.value;
        r := r[j := r[j].(predecessors := r[j].predecessors + [bs[i].start])];
      }
    }
    assert succ[..|succ|] == succ;
  }

  method Lookup(bs: seq<Block>, a: int) returns (at: Option<nat>)
    requires Ordered(bs)
    ensures at.Some? ==> at.value < |bs| && bs[at.value].start == a && forall j :: 0 <= j < |bs| && bs[j].start == a ==>
            j == at.value
    ensures at.None? ==> forall j :: 0 <= j < |bs| ==> bs[j].start != a
  {
    for j := 0 to |bs|
      invariant forall k :: 0 <= k < j ==> bs[k].start != a
    {
      if bs[j].start == a {
        return Some(j);
      }
    }
    at := None;
  }

  // ---- The analyser ----

  lemma BlocksFormed(exe: Exe)
    ensures forall b :: b in Blocks(exe) ==> Sorting.Distinct(b.successors) && b.predecessors == [] && b.start <= b.end
  {
    hide Blocks, IsStart, NextLeader, Reach, Edges, Transfers;
    BlocksAre(exe);
    forall b | b in Blocks(exe) ensures Sorting.Distinct(b.successors) && b.predecessors == [] && b.start <= b.end {
      var i, next := exe.Index(b.start), NextLeader(exe, b.start);
      assert b == BlockFrom(exe, i, next);
      StartOf(exe, i, next);
    }
  }

  ghost predicate Indexes(m: map<int, nat>, bs: seq<Block>) {
    && (forall a :: a in m ==> m[a] < |bs| && bs[m[a]].start == a)
    && (forall j :: 0 <= j < |bs| ==> bs[j].start in m)
  }

  class BasicBlockAnalyzer {
    const exe: Exe
    var blocks: seq<Block>
    var addrToBlock: map<int, nat>

    ghost predicate Valid()
      reads this
    {
      Indexes(addrToBlock, blocks) && forall b :: b in blocks ==> b.start <= b.end
    }

    constructor (exe: Exe)
      ensures Valid() && this.exe == exe && blocks == [] && addrToBlock == map[]
    {
      this.exe := exe;
      blocks := [];
      addrToBlock := map[];
    }

    /** After it, the fields hold the blocks with both kinds of edges and the index of their starts. */
    method Analyze()
      requires exe.Valid()
      modifies this
      ensures Valid() && blocks == Linked(Blocks(exe))
    {
      hide Leaders, Sorting.Sorted, BlockFrom, Sorting.Distinct, Linked;
      blocks := [];
      addrToBlock := map[];
      var leaders := FindLeaders(exe);
      for k := 0 to |leaders|
        invariant blocks == Built(exe, leaders, k) && Indexes(addrToBlock, blocks)
      {
        var start := leaders[k];
        var next := if k + 1 < |leaders| then leaders[k + 1] else exe.End();
        if exe.Decoded(start) {
          var block := BuildBlock(exe, exe.Index(start), next);
          StartOf(exe, exe.Index(start), next);
          addrToBlock := addrToBlock[start := |blocks|];
          blocks := blocks + [block];
        }
      }
      BlocksAre(exe);
      BlocksFormed(exe);
      var linked := BuildPredecessors(blocks);
      LinkedStarts(blocks);
      blocks := linked;
    }

    /** A block containing the address, if there is one: the block starting there, if there is one. */
    method FindBlock(addr: int) returns (r: Option<Block>)
      requires Valid()
      ensures r.Some? ==> r.value in blocks && r.value.Contains(addr)
      ensures r.None? ==> forall b :: b in blocks ==> !b.Contains(addr)
      ensures (exists b :: b in blocks && b.start == addr) ==> r.Some? && r.value.start == addr
    {
      if addr in addrToBlock {
        return Some(blocks[addrToBlock[addr]]);
      }
      for i := 0 to |blocks|
        invariant forall j :: 0 <= j < i ==> !blocks[j].Contains(addr)
      {
        if blocks[i].Contains(addr) {
          assert forall j :: 0 <= j < |blocks| ==> blocks[j].start != addr;
          return Some(blocks[i]);
        }
      }
      r := None;
    }
  }

  lemma StartOf(exe: Exe, i: nat, next: int)
    requires i < |exe.words|
    ensures BlockFrom(exe, i, next).start == exe.At(i) <= BlockFrom(exe, i, next).end
  {
    ReachShape(exe, i, next);
  }

  lemma LinkedStarts(bs: seq<Block>)
    ensures |Linked(bs)| == |bs|
    ensures forall j :: 0 <= j < |bs| ==>
              var b := Linked(bs)[j]; b.start == bs[j].start && b.end == bs[j].end && b.successors == bs[j].successors
  {
  }

  /** Predecessor lists are the transpose of the successor lists, each edge counted once. */
  lemma Transposed(exe: Exe, j: nat)
    requires j < |Blocks(exe)|
    ensures var bs := Linked(Blocks(exe));
            && Sorting.Distinct(bs[j].predecessors)
            && forall s :: s in bs[j].predecessors <==>
                exists i :: 0 <= i < |bs| && bs[i].start == s && bs[j].start in bs[i].successors
  {
    hide Blocks, Into;
    var bs := Blocks(exe);
    BlocksAre(exe);
    BlocksFormed(exe);
    LinkedStarts(bs);
    IntoMeans(bs, |bs|, bs[j].start);
    assert bs[j] in bs;
    assert Linked(bs)[j].predecessors == Into(bs, |bs|, bs[j].start);
  }
}
