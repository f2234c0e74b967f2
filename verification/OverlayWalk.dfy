/** The overlay tool's function walker: a first-in-first-out exploration of one function inside a
    window, fed by the jump-table recogniser. */
module OverlayWalk {
  import opened Mips
  import Sorting
  import JumpTables
  import Worklist

  /** One walk: the image, the function entry and the address the walk may not reach. */
  datatype Window = Window(img: Image, entry: int, cap: int)

  predicate InFunction(c: Window, a: int) {
    JumpTables.InWindow(c.img, c.entry, c.cap, a)
  }

  function Keep(c: Window, a: int): seq<int> {
    if InFunction(c, a) then [a] else []
  }

  /** The addresses pushed after the word at pc, in order. The targets of a jump table are pushed
      in ascending order. */
  function Pushes(c: Window, pc: int, w: Word): seq<int> {
    match Classify(pc, w)
    case Normal => Keep(c, pc + 4)
    case Branch(t) => Keep(c, pc + 8) + Keep(c, t)
    case Jump(t) => Keep(c, t)
    case Call(_) => Keep(c, pc + 8)
    case CallReg => Keep(c, pc + 8)
    case JumpReg(rs) => Sorting.Sorted(JumpTables.Targets(c.img, c.entry, c.cap, pc, rs))
    case Return => []
  }

  /** The delay slot, when the word has one and it lies in the window. */
  function Slot(c: Window, pc: int, w: Word): set<int> {
    if Classify(pc, w).Normal? || !InFunction(c, pc + 4) then {} else {pc + 4}
  }

  /** The call target the walk records, if any: inside the region and with boundary evidence. */
  function Callee(c: Window, pc: int, w: Word): set<int> {
    match Classify(pc, w)
    case Call(t) => if InRegion(c.img, t) && Callable(c.img, t) then {t} else {}
    case _ => {}
  }

  function TableTargets(c: Window, pc: int, w: Word): set<int> {
    match Classify(pc, w)
    case JumpReg(rs) => JumpTables.Targets(c.img, c.entry, c.cap, pc, rs)
    case _ => {}
  }

  function BranchTargets(c: Window, pc: int, w: Word): set<int> {
    if Classify(pc, w).Normal? then {} else set a | a in Pushes(c, pc, w)
  }

  // ---- The walk as an instance of the worklist exploration ----

  function Live(c: Window): set<int> {
    set a | c.img.load <= a < c.img.load + c.img.size && InFunction(c, a) && WordAt(c.img, a).Some?
  }

  function Graph(c: Window): (g: Worklist.Graph)
    ensures g.Valid()
  {
    Worklist.Graph(c.entry, Live(c),
                   map a | a in Live(c) :: Pushes(c, a, WordAt(c.img, a).value),
                   map a | a in Live(c) :: Slot(c, a, WordAt(c.img, a).value))
  }

  ghost function Walked(c: Window): Worklist.State {
    Worklist.Finish(Graph(c), Worklist.Init(Graph(c)), false)
  }

  ghost function Visited(c: Window): set<int> {
    Walked(c).visited
  }

  // What the expanded words of a walk contribute.

  ghost function Calls(c: Window): map<int, set<int>> {
    map a | a in Live(c) :: Callee(c, a, WordAt(c.img, a).value)
  }

  ghost function Branches(c: Window): map<int, set<int>> {
    map a | a in Live(c) :: BranchTargets(c, a, WordAt(c.img, a).value)
  }

  ghost function Tables(c: Window): map<int, set<int>> {
    map a | a in Live(c) :: TableTargets(c, a, WordAt(c.img, a).value)
  }

  ghost function DirectJals(c: Window): set<int> {
    Worklist.Gather(Calls(c), Walked(c).expanded)
  }

  ghost function BranchLabels(c: Window): set<int> {
    Worklist.Gather(Branches(c), Walked(c).expanded)
  }

  ghost function TableLabels(c: Window): set<int> {
    Worklist.Gather(Tables(c), Walked(c).expanded)
  }

  /** The case analysis of one expanded word. */
  method Expand(c: Window, pc: int, word: Word)
    returns (pushed: seq<int>, slot: set<int>, callee: set<int>, branches: set<int>, tables: set<int>)
    ensures pushed == Pushes(c, pc, word) && slot == Slot(c, pc, word) && callee == Callee(c, pc, word)
    ensures branches == BranchTargets(c, pc, word) && tables == TableTargets(c, pc, word)
  {
    hide WordAt, Classify, InFunction, JumpTables.Targets, Callable, InRegion;
    pushed, slot, callee, branches, tables := [], {}, {}, {}, {};
    var delay := pc + 4;
    var kind := Classify(pc, word);
    if kind != Normal && InFunction(c, delay) {
      slot := {delay};
    }
    match kind {
      case Normal =>
        if InFunction(c, pc + 4) { pushed := pushed + [pc + 4]; }
      case Branch(target) =>
        if InFunction(c, pc + 8) { pushed := pushed + [pc + 8]; branches := branches + {pc + 8}; }
        if InFunction(c, target) { pushed := pushed + [target]; branches := branches + {target}; }
      case Jump(target) =>
        if InFunction(c, target) { pushed := pushed + [target]; branches := branches + {target}; }
      case Call(target) =>
        if InFunction(c, pc + 8) { pushed := pushed + [pc + 8]; branches := branches + {pc + 8}; }
        if InRegion(c.img, target) && Callable(c.img, target) { callee := callee + {target}; }
      case CallReg =>
        if InFunction(c, pc + 8) { pushed := pushed + [pc + 8]; branches := branches + {pc + 8}; }
      case JumpReg(rs) =>
        var targets := JumpTables.FindTargets(c.img, c.entry, c.cap, pc, rs);
        tables := targets;
        branches := targets;
        pushed := Sorting.Sorted(targets);
      case Return =>
    }
  }

  /** The walker's loop. It computes the deterministic first-in-first-out exploration of the
      window's graph, and records the calls, branch targets and table targets of exactly the
      words it expanded. */
  method Walk(c: Window)
      returns (visited: set<int>, directJals: set<int>, branchTargets: set<int>, tableTargets: set<int>)
    ensures visited == Visited(c)
    ensures directJals == DirectJals(c)
    ensures branchTargets == BranchLabels(c)
    ensures tableTargets == TableLabels(c)
  {
    hide WordAt, InFunction, Pushes, Slot, Callee, BranchTargets, TableTargets, Worklist.Gather;
    var work := [c.entry];
    visited, directJals, branchTargets, tableTargets := {}, {}, {}, {};
    ghost var g := Graph(c);
    ghost var s := Worklist.Init(g);
    Worklist.GatherNothing(Calls(c));
    Worklist.GatherNothing(Branches(c));
    Worklist.GatherNothing(Tables(c));
    while work != []
      invariant g == Graph(c)
      invariant s.work == work && s.visited == visited
      invariant Worklist.Finish(g, s, false) == Walked(c)
      invariant directJals == Worklist.Gather(Calls(c), s.expanded)
      invariant branchTargets == Worklist.Gather(Branches(c), s.expanded)
      invariant tableTargets == Worklist.Gather(Tables(c), s.expanded)
      decreases g.live - visited, |work|
    {
      var pc := work[0];
      Worklist.PopProgress(g, s, 0);
      ghost var t := s;
      s := Worklist.Pop(g, s, 0);
      assert s.work[..0] == [];
      work := work[1..];
      var word := WordAt(c.img, pc);
      LiveIff(c, pc);
      if pc in visited || !InFunction(c, pc) || word.None? {
        continue;
      }
      var pushed, slot, callee, branches, tables := Expand(c, pc, word.value);
      visited := visited + {pc} + slot;
      work := work + pushed;
      directJals := directJals + callee;
      branchTargets := branchTargets + branches;
      tableTargets := tableTargets + tables;
      Worklist.GatherAdd(Calls(c), t.expanded, pc);
      Worklist.GatherAdd(Branches(c), t.expanded, pc);
      Worklist.GatherAdd(Tables(c), t.expanded, pc);
    }
  }

  lemma LiveIff(c: Window, a: int)
    ensures a in Live(c) <==> InFunction(c, a) && WordAt(c.img, a).Some?
  {
  }

  // ---- What every walk reports ----

  /** Every walk stays inside its window. */
  lemma WalkInWindow(c: Window, a: int)
    requires a in Visited(c)
    ensures InFunction(c, a)
  {
    FinishedWalk(c);
    hide WordAt, InFunction, Pushes, Classify, Worklist.Finish, Worklist.Inv;
    Worklist.VisitedOrigin(Graph(c), Walked(c), a);
    LiveIff(c, a);
  }

  /** On every image the walk reports words reachable from the entry and delay slots of reachable
      transfers, and nothing else; it expands the entry when its word exists. */
  lemma WalkJustified(c: Window)
    ensures Visited(c) <= Worklist.Footprint(Graph(c))
    ensures Walked(c).expanded <= Live(c) * Visited(c)
    ensures c.entry in Live(c) ==> c.entry in Walked(c).expanded
  {
    FinishedWalk(c);
    hide WordAt, InFunction, Pushes, Classify, Worklist.Finish;
    Worklist.WalkSound(Graph(c), Walked(c));
  }

  /** On every image each delay slot and each fetchable successor of an expanded word is visited. */
  lemma WalkFollows(c: Window, a: int)
    requires a in Walked(c).expanded
    ensures a in Live(c) && Slot(c, a, WordAt(c.img, a).value) <= Visited(c)
    ensures forall b :: b in Pushes(c, a, WordAt(c.img, a).value) && b in Live(c) ==> b in Visited(c)
  {
    var g, s := Graph(c), Walked(c);
    FinishedWalk(c);
    hide WordAt, InFunction, Pushes, Classify, Worklist.Finish, Slot;
    Worklist.WalkSound(g, s);
    Worklist.GatherAdd(g.slots, s.expanded, a);
    assert s.expanded + {a} == s.expanded;
  }

  lemma FinishedWalk(c: Window)
    ensures Worklist.Inv(Graph(c), Walked(c)) && Walked(c).work == []
  {
    Worklist.InitInv(Graph(c));
    Worklist.FinishInv(Graph(c), Worklist.Init(Graph(c)), false);
  }

  /** On delay-slot-clean code the walk is exact; in general it is exact if and only if whatever
      follows each word it skipped was visited for another reason. */
  lemma WalkExact(c: Window)
    ensures Worklist.Clean(Graph(c)) ==>
              Walked(c).expanded == Worklist.Reach(Graph(c)) && Visited(c) == Worklist.Footprint(Graph(c))
    ensures Visited(c) == Worklist.Footprint(Graph(c)) <==> Worklist.AllHarmless(Graph(c), Walked(c))
  {
    FinishedWalk(c);
    Worklist.WalkExactIff(Graph(c), Walked(c));
    if Worklist.Clean(Graph(c)) { Worklist.WalkExactWhenClean(Graph(c), Walked(c)); }
  }

  /** Every reachable delay slot that is reachable in its own right is a plain word behind a branch or a
      call, whose return to pc + 8 is pushed anyway. */
  ghost predicate PlainSlots(c: Window) {
    var g := Graph(c);
    forall a, b :: a in Worklist.Reach(g) && b in Worklist.Reach(g) && a in g.slots[b] ==>
      && Classify(a, WordAt(c.img, a).value).Normal?
      && var k := Classify(b, WordAt(c.img, b).value); k.Branch? || k.Call? || k.CallReg?
  }

  lemma PlainSlotAdds(c: Window, a: int, b: int)
    requires a in Live(c) && b in Live(c) && a in Graph(c).slots[b]
    requires Classify(a, WordAt(c.img, a).value).Normal?
    requires var k := Classify(b, WordAt(c.img, b).value); k.Branch? || k.Call? || k.CallReg?
    ensures Worklist.Adds(Graph(c), a, b)
  {
    hide WordAt, Classify, InFunction, Live;
  }

  lemma PlainSlotsCover(c: Window)
    requires PlainSlots(c)
    ensures Worklist.Covering(Graph(c))
  {
    hide WordAt, Classify, Live;
    var g := Graph(c);
    forall a, b | a in Worklist.Reach(g) && b in Worklist.Reach(g) && a in g.slots[b] ensures Worklist.Adds(g, a, b) {
      PlainSlotAdds(c, a, b);
    }
  }

  /** On such code the walk is exact. */
  lemma WalkExactShared(c: Window)
    requires PlainSlots(c)
    ensures Visited(c) == Worklist.Footprint(Graph(c))
  {
    hide PlainSlots, Graph, Worklist.Inv, Worklist.Finish, Worklist.Footprint, Worklist.Covering;
    PlainSlotsCover(c);
    FinishedWalk(c);
    Worklist.WalkExactWhenCovered(Graph(c), Walked(c));
  }

  /** On such code neither the order in which the targets of a table are pushed nor the order of the pops
      changes what is reported. */
  lemma WalkOrderFree(c: Window, h: Worklist.Graph, run: seq<Worklist.State>)
    requires PlainSlots(c) && h.Valid() && Worklist.Reordered(Graph(c), h)
    requires Worklist.IsRun(h, run) && run[|run| - 1].work == []
    ensures run[|run| - 1].visited == Visited(c)
  {
    hide PlainSlots, Graph, Visited, Worklist.Inv, Worklist.Footprint, Worklist.Covering, Worklist.Reordered;
    PlainSlotsCover(c);
    Worklist.ReorderedReach(Graph(c), h);
    Worklist.ReorderedCovers(Graph(c), h);
    Worklist.RunInv(h, run);
    Worklist.WalkExactWhenCovered(h, run[|run| - 1]);
    WalkExactShared(c);
  }

  // ---- Monotone in the cap ----

  lemma TargetsMonotone(img: Image, entry: int, cap: int, cap': int, pc: int, rs: Reg)
    requires cap <= cap'
    ensures JumpTables.Targets(img, entry, cap, pc, rs) <= JumpTables.Targets(img, entry, cap', pc, rs)
  {
    hide WordAt, JumpTables.ScanTo;
  }

  lemma PushesMonotone(c: Window, d: Window, pc: int, w: Word, a: int)
    requires d == c.(cap := d.cap) && c.cap <= d.cap && a in Pushes(c, pc, w)
    ensures a in Pushes(d, pc, w)
  {
    hide WordAt, Classify, JumpTables.Targets;
    match Classify(pc, w) {
      case JumpReg(rs) => TargetsMonotone(c.img, c.entry, c.cap, d.cap, pc, rs);
      case _ =>
    }
  }

  lemma GraphWithin(c: Window, d: Window)
    requires d == c.(cap := d.cap) && c.cap <= d.cap
    ensures Worklist.Within(Graph(c), Graph(d))
  {
    hide WordAt, Classify, Pushes;
    forall a, b | a in Live(c) && b in Pushes(c, a, WordAt(c.img, a).value)
        ensures b in Pushes(d, a, WordAt(d.img, a).value) {
      PushesMonotone(c, d, a, WordAt(c.img, a).value, b);
    }
  }

  lemma FewerPlainSlots(c: Window, d: Window)
    requires d == c.(cap := d.cap) && c.cap <= d.cap && PlainSlots(d)
    ensures PlainSlots(c)
  {
    hide WordAt, Classify, Worklist.Reach, Worklist.Footprint, Pushes, Slot, Live, Worklist.SlotsOf;
    GraphWithin(c, d);
    var g, h := Graph(c), Graph(d);
    Worklist.WithinReach(g, h);
    Worklist.ReachLive(g);
    Worklist.ReachLive(h);
    assert forall a, b :: b in Worklist.Reach(g) && a in g.slots[b] ==> a in h.slots[b];
  }

  /** On such code every reachable call is expanded, not merely marked. */
  lemma CallExpanded(c: Window, a: int)
    requires PlainSlots(c) && a in Worklist.Reach(Graph(c)) && Callee(c, a, WordAt(c.img, a).value) != {}
    ensures a in Walked(c).expanded
  {
    hide WordAt, Classify, Worklist.Reach, Worklist.Finish, Worklist.Inv, Worklist.Footprint;
    var g, s := Graph(c), Walked(c);
    FinishedWalk(c);
    WalkExactShared(c);
    assert a in s.visited by { hide *; ReachVisited(g, a); }
    if a !in s.expanded {
      var b := Worklist.SkippedOwner(g, s, a);
    }
  }

  lemma ReachVisited(g: Worklist.Graph, a: int)
    requires g.Valid() && a in Worklist.Reach(g)
    ensures a in Worklist.Footprint(g)
  {
  }

  /** Raising the cap on such code never loses an address or a recorded call. */
  lemma WalkMonotone(c: Window, d: Window)
    requires d == c.(cap := d.cap) && c.cap <= d.cap && PlainSlots(d)
    ensures Visited(c) <= Visited(d) && DirectJals(c) <= DirectJals(d)
  {
    hide WordAt, Classify, Callable, Graph, PlainSlots, Worklist.Reach, Worklist.Footprint, Worklist.Finish;
    GraphWithin(c, d);
    Worklist.WithinReach(Graph(c), Graph(d));
    FewerPlainSlots(c, d);
    WalkExactShared(c);
    WalkExactShared(d);
    FinishedWalk(c);
    forall t | t in DirectJals(c) ensures t in DirectJals(d) {
      var a :| a in Walked(c).expanded && a in Calls(c) && t in Calls(c)[a];
      CallExpanded(d, a);
      assert a in Walked(d).expanded && a in Calls(d) && t in Calls(d)[a];
    }
  }

  // ---- Plain "visited is what is reachable" is false ----

  /** A jump over its own delay slot, and a branch back to that slot. */
  ghost predicate SharedSlot(c: Window) {
    var e := c.entry;
    && e in Live(c) && e + 4 in Live(c) && e + 8 in Live(c) && e + 16 in Live(c)
    && Classify(e, WordAt(c.img, e).value) == Jump(e + 16)
    && Classify(e + 4, WordAt(c.img, e + 4).value) == Normal
    && Classify(e + 16, WordAt(c.img, e + 16).value) == Branch(e + 4)
    && !InFunction(c, e + 24)
  }

  /** Every such function is walked wrongly: the word after the shared slot is reachable, but the
      branch target was already marked as the delay slot of the jump, so it is never expanded. */
  lemma SharedSlotMissed(c: Window)
    requires SharedSlot(c)
    ensures c.entry + 8 in Worklist.Reach(Graph(c)) && c.entry + 8 !in Visited(c)
  {
    var g, e := Graph(c), c.entry;
    LiveIff(c, e + 4);
    LiveIff(c, e + 8);
    LiveIff(c, e + 16);
    hide WordAt, Classify, InFunction, Worklist.Reach;
    assert Worklist.SharedSlot(g, e + 4, e + 16, e + 8);
    Worklist.SharedSlotReached(g, e + 4, e + 16, e + 8);
    Worklist.SharedSlotDropped(g, e + 4, e + 16, e + 8);
  }

  /** A concrete one: j 80000010; nop; nop; jr $ra; beq $zero,$zero,80000004; nop. */
  lemma WalkMissesCode() returns (c: Window)
    ensures SharedSlot(c) && c.entry == 0x8000_0000
    ensures 0x8000_0008 in Worklist.Reach(Graph(c)) && 0x8000_0008 !in Visited(c)
  {
    c := SharedSlotExample();
    hide SharedSlot, Graph, Visited;
    SharedSlotMissed(c);
  }

  lemma SharedSlotExample() returns (c: Window)
    ensures SharedSlot(c) && c.entry == 0x8000_0000
  {
    hide Flatten, WordAt;
    var words: seq<Word> := [0x0800_0004, 0, 0, 0x03E0_0008, 0x1000_FFFC, 0];
    c := Window(ImageOf(words, 0x8000_0000), 0x8000_0000, 0x8000_0018);
    ImageWord(words, 0x8000_0000, 0);
    ImageWord(words, 0x8000_0000, 1);
    ImageWord(words, 0x8000_0000, 2);
    ImageWord(words, 0x8000_0000, 4);
    LiveIff(c, 0x8000_0000);
    LiveIff(c, 0x8000_0004);
    LiveIff(c, 0x8000_0008);
    LiveIff(c, 0x8000_0010);
  }
}
