/** The instruction inventory's walker: the depth-first twin of the overlay walker. It follows no
    jump tables, checks no alignment, and knows the coprocessor branches but not the likely ones. */
module InventoryWalk {
  import opened Mips
  import Sorting
  import Worklist
  import OverlayWalk

  type Window = OverlayWalk.Window

  datatype Kind = CondBranch(target: int) | GoTo(target: int) | Indirect | Linked | FallThrough

  function KindOf(addr: int, raw: Word): Kind {
    var op := Opcode(raw);
    if op in {0x01, 0x04, 0x05, 0x06, 0x07} then CondBranch(BranchTarget(addr, raw))
    else if op == 0x02 then GoTo(JumpTarget(addr, raw))
    else if op == 0x03 then Linked
    else if op == 0x00 && Funct(raw) == 0x08 then Indirect
    else if op == 0x00 && Funct(raw) == 0x09 then Linked
    else if op in {0x11, 0x12} && Rs(raw) == 0x08 then CondBranch(BranchTarget(addr, raw))
    else FallThrough
  }

  predicate Within(c: Window, a: int) {
    c.entry <= a < c.cap && a < c.img.load + c.img.size && WordAt(c.img, a).Some?
  }

  function Local(c: Window, t: int): seq<int> {
    if c.entry <= t < c.cap then [t] else []
  }

  function Pushes(c: Window, a: int, raw: Word): seq<int> {
    match KindOf(a, raw)
    case CondBranch(t) => [a + 8] + Local(c, t)
    case GoTo(t) => Local(c, t)
    case Indirect => []
    case Linked => [a + 8]
    case FallThrough => [a + 4]
  }

  function Slot(c: Window, a: int, raw: Word): set<int> {
    if KindOf(a, raw).FallThrough? || !Within(c, a + 4) then {} else {a + 4}
  }

  function Live(c: Window): set<int> {
    set a | c.entry <= a < c.cap && Within(c, a)
  }

  function Graph(c: Window): (g: Worklist.Graph)
    ensures g.Valid()
  {
    Worklist.Graph(c.entry, Live(c),
                   map a | a in Live(c) :: Pushes(c, a, WordAt(c.img, a).value),
                   map a | a in Live(c) :: Slot(c, a, WordAt(c.img, a).value))
  }

  ghost function Walked(c: Window): Worklist.State {
    Worklist.Finish(Graph(c), Worklist.Init(Graph(c)), true)
  }

  /** The case analysis of one popped word. */
  method Expand(c: Window, addr: int, raw: Word) returns (pushed: seq<int>, slot: set<int>)
    ensures pushed == Pushes(c, addr, raw) && slot == Slot(c, addr, raw)
  {
    hide WordAt, KindOf;
    var kind := KindOf(addr, raw);
    slot := if !kind.FallThrough? && Within(c, addr + 4) then {addr + 4} else {};
    match kind {
      case Indirect =>
        pushed := [];
      case GoTo(target) =>
        pushed := if c.entry <= target < c.cap then [target] else [];
      case CondBranch(target) =>
        pushed := [addr + 8];
        if c.entry <= target < c.cap { pushed := pushed + [target]; }
      case Linked =>
        pushed := [addr + 8];
      case FallThrough =>
        pushed := [addr + 4];
    }
  }

  /** The walker's loop over an explicit stack: the last-in-first-out exploration. */
  method WalkFunction(c: Window) returns (visited: set<int>)
    ensures visited == Walked(c).visited
    ensures forall a :: a in visited ==> Within(c, a)
  {
    hide WordAt, KindOf, Pushes;
    var work := [c.entry];
    visited := {};
    ghost var g := Graph(c);
    ghost var s := Worklist.Init(g);
    while work != []
      invariant g == Graph(c)
      invariant s.work == work && s.visited == visited
      invariant Worklist.Finish(g, s, true) == Walked(c)
      invariant forall a :: a in visited ==> Within(c, a)
      decreases g.live - visited, |work|
    {
      var top := |work| - 1;
      var addr := work[top];
      Worklist.PopProgress(g, s, top);
      s := Worklist.Pop(g, s, top);
      assert work[..top] + work[top + 1..] == work[..top];
      work := work[..top];
      if addr in visited || !Within(c, addr) {
        continue;
      }
      var pushed, slot := Expand(c, addr, WordAt(c.img, addr).value);
      visited := visited + {addr} + slot;
      work := work + pushed;
    }
  }

  // ---- The two walkers agree ----

  /** Words the two tools classify alike. */
  predicate Alike(w: Word) {
    Opcode(w) !in {0x14, 0x15, 0x16, 0x17} && !(Opcode(w) in {0x11, 0x12} && Rs(w) == 0x08)
  }

  /** A word-aligned image whose recorded size is its length. */
  predicate Aligned(c: Window) {
    |c.img.data| == c.img.size && c.img.size % 4 == 0 && c.img.load % 4 == 0 && c.entry % 4 == 0
        && c.img.load <= c.entry
  }

  ghost predicate NoTables(c: Window, a: int)
    requires WordAt(c.img, a).Some?
  {
    OverlayWalk.TableTargets(c, a, WordAt(c.img, a).value) == {}
  }

  lemma AlikeFlow(pc: int, w: Word)
    requires Alike(w)
    ensures match Classify(pc, w)
            case Normal => KindOf(pc, w) == FallThrough
            case Branch(t) => KindOf(pc, w) == CondBranch(t) && (t - pc) % 4 == 0
            case Jump(t) => KindOf(pc, w) == GoTo(t) && t % 4 == 0
            case Call(_) => KindOf(pc, w) == Linked
            case CallReg => KindOf(pc, w) == Linked
            case JumpReg(_) => KindOf(pc, w) == Indirect
            case Return => KindOf(pc, w) == Indirect
  {
  }

  lemma LiveAligned(c: Window, a: int)
    requires Aligned(c) && a % 4 == 0
    ensures OverlayWalk.InFunction(c, a) <==> Within(c, a)
    ensures a in OverlayWalk.Live(c) <==> a in Live(c)
    ensures a in Live(c) <==> Within(c, a)
  {
  }

  /** Where the words are alike and no table is recovered, one word pushes and marks the same. */
  lemma SameStep(c: Window, a: int)
    requires Aligned(c) && a in OverlayWalk.Live(c) && Alike(WordAt(c.img, a).value) && NoTables(c, a)
    ensures a % 4 == 0 && a in Live(c)
    ensures OverlayWalk.Slot(c, a, WordAt(c.img, a).value) == Slot(c, a, WordAt(c.img, a).value)
    ensures forall b :: b in OverlayWalk.Live(c) && b in OverlayWalk.Pushes(c, a, WordAt(c.img, a).value)
                    <==> b in Live(c) && b in Pushes(c, a, WordAt(c.img, a).value)
  {
    hide WordAt, Alike, KindOf, Classify;
    var w := WordAt(c.img, a).value;
    AlikeFlow(a, w);
    LiveAligned(c, a);
    LiveAligned(c, a + 4);
    LiveAligned(c, a + 8);
    match Classify(a, w) {
      case Branch(t) => LiveAligned(c, t);
      case Jump(t) => LiveAligned(c, t);
      case _ =>
    }
  }

  /** The reachable part of the overlay graph is alike throughout and recovers no table. */
  ghost predicate Comparable(c: Window) {
    && Aligned(c)
    && forall a :: a in Worklist.Reach(OverlayWalk.Graph(c)) ==>
         WordAt(c.img, a).Some? && Alike(WordAt(c.img, a).value) && NoTables(c, a)
  }

  lemma SameReach(c: Window)
    requires Comparable(c)
    ensures Worklist.Reach(Graph(c)) == Worklist.Reach(OverlayWalk.Graph(c))
  {
    var g, h := OverlayWalk.Graph(c), Graph(c);
    hide WordAt, Alike, NoTables, Pushes, OverlayWalk.Pushes, OverlayWalk.InFunction;
    LiveAligned(c, c.entry);
    var R, S := Worklist.Reach(g), Worklist.Reach(h);
    if c.entry in g.live { Worklist.ReachEntry(g); Worklist.ReachEntry(h); }
    forall a, b | a in R && a in h.live && b in h.succ[a] && b in h.live ensures b in R {
      SameStep(c, a);
      Worklist.ReachStep(g, a, b);
    }
    Worklist.ReachLeast(h, R);
    forall a, b | a in R * S && a in g.live && b in g.succ[a] && b in g.live ensures b in R * S {
      SameStep(c, a);
      Worklist.ReachStep(h, a, b);
      Worklist.ReachStep(g, a, b);
    }
    Worklist.ReachLeast(g, R * S);
  }

  lemma SameFootprint(c: Window)
    requires Comparable(c)
    ensures Worklist.SlotsOf(Graph(c), Worklist.Reach(Graph(c))) ==
            Worklist.SlotsOf(OverlayWalk.Graph(c), Worklist.Reach(OverlayWalk.Graph(c)))
    ensures Worklist.Footprint(Graph(c)) == Worklist.Footprint(OverlayWalk.Graph(c))
    ensures Worklist.Clean(Graph(c)) <==> Worklist.Clean(OverlayWalk.Graph(c))
  {
    SameReach(c);
    var g, h := OverlayWalk.Graph(c), Graph(c);
    var R := Worklist.Reach(g);
    hide WordAt, Alike, NoTables, Pushes, OverlayWalk.Pushes, OverlayWalk.InFunction, Slot, OverlayWalk.Slot,
         Worklist.Reach;
    forall a | a in R ensures a in g.slots && a in h.slots && g.slots[a] == h.slots[a] {
      SameStep(c, a);
    }
    forall d | d in Worklist.Gather(g.slots, R) ensures d in Worklist.Gather(h.slots, R) {
      var a :| a in R && a in g.slots && d in g.slots[a];
    }
    forall d | d in Worklist.Gather(h.slots, R) ensures d in Worklist.Gather(g.slots, R) {
      var a :| a in R && a in h.slots && d in h.slots[a];
    }
  }

  lemma SameAdds(c: Window, a: int, b: int)
    requires Comparable(c) && a in Worklist.Reach(OverlayWalk.Graph(c)) && b in Worklist.Reach(OverlayWalk.Graph(c))
    requires Worklist.Adds(OverlayWalk.Graph(c), a, b)
    ensures a in Live(c) && b in Live(c) && Worklist.Adds(Graph(c), a, b)
  {
    hide WordAt, Alike, NoTables, Pushes, OverlayWalk.Pushes, OverlayWalk.InFunction, Slot, OverlayWalk.Slot, Live,
         OverlayWalk.Live;
    SameStep(c, a);
    SameStep(c, b);
  }

  lemma SameCovering(c: Window)
    requires Comparable(c) && Worklist.Covering(OverlayWalk.Graph(c))
    ensures Worklist.Covering(Graph(c))
  {
    SameReach(c);
    var g, h := OverlayWalk.Graph(c), Graph(c);
    hide WordAt, Alike, NoTables, Pushes, OverlayWalk.Pushes, OverlayWalk.InFunction, Slot, OverlayWalk.Slot,
         Worklist.Reach, Worklist.Adds;
    forall a, b | a in Worklist.Reach(h) && b in Worklist.Reach(h) && a in h.slots[b] ensures Worklist.Adds(h, a, b) {
      SameStep(c, b);
      SameAdds(c, a, b);
    }
  }

  /** On code whose words the tools classify alike, where no jump table is recovered and shared delay slots add
      nothing to the words they belong to, the breadth-first and the depth-first walker visit the same
      addresses. */
  lemma WalkersAgree(c: Window)
    requires Comparable(c) && Worklist.Covering(OverlayWalk.Graph(c))
    ensures Walked(c).visited == OverlayWalk.Visited(c)
  {
    hide Comparable, Worklist.Covering, Worklist.Inv, Worklist.Footprint, OverlayWalk.Graph, Graph;
    SameFootprint(c);
    SameCovering(c);
    OverlayWalk.FinishedWalk(c);
    Worklist.WalkExactWhenCovered(OverlayWalk.Graph(c), OverlayWalk.Walked(c));
    Worklist.InitInv(Graph(c));
    Worklist.FinishInv(Graph(c), Worklist.Init(Graph(c)), true);
    Worklist.WalkExactWhenCovered(Graph(c), Walked(c));
  }
}
