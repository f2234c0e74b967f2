/** The evidence behind seeds, in the machine's terms. */
module SeedMeaning {
  import opened Mips
  import Isa
  import Seeds
  import Flows
  import Worklist
  import OverlayWalk
  import JumpTables
  import WalkMeaning

  /** Whether control leaves all known code depends on the physical address only: 512 KiB of BIOS, the main
      executable, and the overlay itself. */
  lemma UnknownIff(c: Seeds.Capture, a: int)
    ensures Seeds.UnknownBad(c, a) <==> Seeds.UnknownBad(c, Phys(a))
    ensures Seeds.UnknownBad(c, a) ==> Phys(a) / 0x8_0000 != 0x3F8
    ensures Seeds.UnknownBad(c, a) ==> !(c.gameLo <= Phys(a) < c.gameHi)
    ensures Seeds.UnknownBad(c, a) && a / PHYSICAL == c.img.load / PHYSICAL ==>
              !(c.img.load <= a < c.img.load + c.img.size)
    ensures Seeds.UnknownBad(c, a) ||
            Phys(a) / 0x8_0000 == 0x3F8 || c.gameLo <= Phys(a) < c.gameHi ||
            0 <= Phys(a) - Phys(c.img.load) < c.img.size
  {
    var p := Phys(a);
    assert Phys(p) == p;
    assert 0x1FC0_0000 <= p < 0x1FC8_0000 <==> p / 0x8_0000 == 0x3F8;
    assert 0xBFC0_0000 <= a < 0xBFC8_0000 ==> a == p + 0xA000_0000;
  }

  /** A dispatched address cannot start a function exactly if its word is no code, jumps out of all known code, or
      calls a place of the overlay that is no boundary. */
  lemma ImpossibleIff(env: Isa.Env, cpu: Isa.Cpu, c: Seeds.Capture, a: int)
    ensures Seeds.ImpossibleStart(c, a) <==>
            || !ValidAt(c.img, a)
            || var w := WordAt(c.img, a).value;
               var o := Isa.Exec(env, cpu, w, a);
               || (Opcode(w) == 0x02 && o.Go? && Seeds.UnknownBad(c, o.pc))
               || (Opcode(w) == 0x03 && o.Go? && InRegion(c.img, o.pc) && !Callable(c.img, o.pc))
  {
    if ValidAt(c.img, a) {
      var w := WordAt(c.img, a).value;
      hide WordAt, Isa.Exec, JumpTarget, BranchTarget, Isa.ToBv, Isa.Set, Callable, InRegion, Opcode, Funct, Rs,
           IsValidWord;
      Flows.ClassifyRuns(env, cpu, w, a);
    }
  }

  /** An address is a candidate root before any promotion if something names it: a configured or captured entry, or
      an observed boundary. */
  predicate Candidate(c: Seeds.Capture, a: int) {
    InRegion(c.img, a) &&
    (a in c.entries || a in c.toml || ((a in c.dispatch || a in c.legacy) && Callable(c.img, a)))
  }

  /** The words walked from r, up to the next candidate above it. */
  ghost predicate Walks(c: Seeds.Capture, r: int, cap: int, a: int) {
    && Candidate(c, r) && r < cap && (forall x :: r < x < cap ==> !Candidate(c, x))
    && (Candidate(c, cap) || cap == c.img.load + c.img.size)
    && var win := OverlayWalk.Window(c.img, r, cap);
       a in OverlayWalk.Walked(win).expanded && a in OverlayWalk.Live(win)
  }

  ghost predicate JumpsTo(c: Seeds.Capture, r: int, cap: int, a: int, t: int) {
    && WordAt(c.img, a).Some?
    && Classify(a, WordAt(c.img, a).value).JumpReg?
    && t in JumpTables.Targets(c.img, r, cap, a, Classify(a, WordAt(c.img, a).value).rs)
  }

  lemma CandidatesAre(c: Seeds.Capture, a: int)
    ensures a in Seeds.PreRoots(c) <==> Candidate(c, a)
  {
    hide InRegion, Callable;
  }

  /** The case labels found before promotion are exactly the targets of the jump tables behind words walked from
      candidates. */
  lemma CaseLabelIff(c: Seeds.Capture, t: int)
    ensures t in Seeds.PreTables(c) <==> exists r, cap, a :: Walks(c, r, cap, a) && JumpsTo(c, r, cap, a, t)
  {
    hide WordAt, Classify, JumpTables.Targets, OverlayWalk.Walked, OverlayWalk.Live, OverlayWalk.TableLabels, Callable,
         InRegion, Walks, JumpsTo, Seeds.PreRoots, Seeds.Cap;
    var roots := Seeds.PreRoots(c);
    var f := Seeds.TablesOf(c.img, roots);
    if t in Seeds.PreTables(c) {
      var r :| r in roots && r in f && t in f[r];
      FromRoot(c, r, t);
    }
    if r, cap, a :| Walks(c, r, cap, a) && JumpsTo(c, r, cap, a, t) {
      ToRoot(c, r, cap, a, t);
      assert r in f && t in f[r];
    }
  }

  lemma CapIs(c: Seeds.Capture, r: int, cap: int)
    requires Candidate(c, r)
    ensures cap == Seeds.Cap(c.img, Seeds.PreRoots(c), r) <==>
            && r < cap && (forall x :: r < x < cap ==> !Candidate(c, x))
            && (Candidate(c, cap) || cap == c.img.load + c.img.size)
  {
    hide Callable, Seeds.PreRoots;
    var roots := Seeds.PreRoots(c);
    var k := Seeds.Cap(c.img, roots, r);
    forall x ensures x in roots <==> Candidate(c, x) { CandidatesAre(c, x); }
    assert forall x :: x in roots ==> x < Seeds.Hi(c.img);
  }

  lemma FromRoot(c: Seeds.Capture, r: int, t: int)
    requires r in Seeds.PreRoots(c) && t in OverlayWalk.TableLabels(Seeds.WindowOf(c.img, Seeds.PreRoots(c), r))
    ensures exists cap, a :: Walks(c, r, cap, a) && JumpsTo(c, r, cap, a, t)
  {
    hide WordAt, Classify, JumpTables.Targets, OverlayWalk.Walked, OverlayWalk.Live, OverlayWalk.TableLabels, Callable,
         InRegion, Seeds.PreRoots, Seeds.Cap, Candidate, OverlayWalk.InFunction;
    var cap := Seeds.Cap(c.img, Seeds.PreRoots(c), r);
    var win := OverlayWalk.Window(c.img, r, cap);
    CandidatesAre(c, r);
    CapIs(c, r, cap);
    WalkMeaning.LabelsIff(win, t);
    forall x | x in OverlayWalk.Live(win) ensures WordAt(win.img, x).Some? { OverlayWalk.LiveIff(win, x); }
    var a :| && a in OverlayWalk.Walked(win).expanded && a in OverlayWalk.Live(win)
             && Classify(a, WordAt(win.img, a).value).JumpReg?
             && WalkMeaning.Sends(win, a, WordAt(win.img, a).value, t);
    assert Walks(c, r, cap, a) && JumpsTo(c, r, cap, a, t);
  }

  lemma ToRoot(c: Seeds.Capture, r: int, cap: int, a: int, t: int)
    requires Walks(c, r, cap, a) && JumpsTo(c, r, cap, a, t)
    ensures r in Seeds.PreRoots(c) && t in OverlayWalk.TableLabels(Seeds.WindowOf(c.img, Seeds.PreRoots(c), r))
  {
    hide WordAt, Classify, JumpTables.Targets, OverlayWalk.Walked, OverlayWalk.Live, OverlayWalk.TableLabels, Callable,
         InRegion, Seeds.PreRoots, Seeds.Cap, Candidate;
    var win := OverlayWalk.Window(c.img, r, cap);
    CandidatesAre(c, r);
    CapIs(c, r, cap);
    WalkMeaning.TableWalked(win, a, Classify(a, WordAt(c.img, a).value).rs, t);
  }

  // ---- The labels of the final walks ----

  /** The walk from root r, up to the next root. */
  ghost predicate RootWindow(img: Image, roots: set<int>, r: int, win: OverlayWalk.Window) {
    && r in roots && win.img == img && win.entry == r
    && (forall x :: x in roots && r < x ==> win.cap <= x)
    && ((win.cap in roots && r < win.cap) || win.cap == img.load + img.size)
  }

  ghost predicate SendsThere(win: OverlayWalk.Window, a: int, t: int) {
    && a in OverlayWalk.Walked(win).expanded && a in OverlayWalk.Live(win)
    && WordAt(win.img, a).Some? && WalkMeaning.Sends(win, a, WordAt(win.img, a).value, t)
  }

  /** The labels by which candidates are refused at the end are exactly the places to which words walked from the
      final roots send control. */
  lemma FinalLabelIff(img: Image, roots: set<int>, t: int)
    requires forall r :: r in roots ==> r < img.load + img.size
    ensures t in Worklist.Gather(Seeds.LabelsOf(img, roots), roots) <==>
            exists r, win, a :: RootWindow(img, roots, r, win) && SendsThere(win, a, t)
  {
    hide WordAt, Classify, JumpTables.Targets, OverlayWalk.Walked, OverlayWalk.Live, OverlayWalk.TableLabels,
         OverlayWalk.BranchLabels, Seeds.Cap, RootWindow, SendsThere, WalkMeaning.Sends;
    var f := Seeds.LabelsOf(img, roots);
    forall r | r in roots ensures t in f[r] <==> exists a :: SendsThere(Seeds.WindowOf(img, roots, r), a, t) {
      LabelsOfRoot(img, roots, r, t);
    }
    if t in Worklist.Gather(f, roots) {
      var r :| r in roots && r in f && t in f[r];
      TheWindow(img, roots, r, Seeds.WindowOf(img, roots, r));
      var a :| SendsThere(Seeds.WindowOf(img, roots, r), a, t);
    }
    if r, win, a :| RootWindow(img, roots, r, win) && SendsThere(win, a, t) {
      TheWindow(img, roots, r, win);
      assert r in f && t in f[r];
    }
  }

  lemma TheWindow(img: Image, roots: set<int>, r: int, win: OverlayWalk.Window)
    requires forall x :: x in roots ==> x < img.load + img.size
    ensures RootWindow(img, roots, r, win) <==> r in roots && win == Seeds.WindowOf(img, roots, r)
  {
    var above := set x | x in roots && r < x;
    assert forall x :: x in roots && r < x ==> x in above;
  }

  lemma LabelsOfRoot(img: Image, roots: set<int>, r: int, t: int)
    requires r in roots
    ensures t in Seeds.LabelsOf(img, roots)[r] <==> exists a :: SendsThere(Seeds.WindowOf(img, roots, r), a, t)
  {
    hide WordAt, Classify, JumpTables.Targets, OverlayWalk.Walked, OverlayWalk.TableLabels, OverlayWalk.Live,
         OverlayWalk.BranchLabels, Seeds.Cap, WalkMeaning.Sends;
    var win := Seeds.WindowOf(img, roots, r);
    WalkMeaning.LabelsIff(win, t);
    forall x | x in OverlayWalk.Live(win) ensures WordAt(win.img, x).Some? { OverlayWalk.LiveIff(win, x); }
    if t in OverlayWalk.BranchLabels(win) {
      var a :| && a in OverlayWalk.Walked(win).expanded && a in OverlayWalk.Live(win)
               && WalkMeaning.Sends(win, a, WordAt(win.img, a).value, t);
      assert SendsThere(win, a, t);
    }
    if t in OverlayWalk.TableLabels(win) {
      var a :| && a in OverlayWalk.Walked(win).expanded && a in OverlayWalk.Live(win)
               && Classify(a, WordAt(win.img, a).value).JumpReg?
               && WalkMeaning.Sends(win, a, WordAt(win.img, a).value, t);
      assert SendsThere(win, a, t);
    }
  }

  /** What the roots cover: every word that a walk from one of them, up to the next, visits. */
  lemma CoveredIff(img: Image, roots: set<int>, a: int)
    requires forall r :: r in roots ==> r < img.load + img.size
    ensures a in Seeds.Covered(img, roots) <==>
            exists r, win :: RootWindow(img, roots, r, win) && a in OverlayWalk.Visited(win)
  {
    hide OverlayWalk.Visited, Seeds.Cap, RootWindow;
    var f := Seeds.WalksOf(img, roots);
    if a in Seeds.Covered(img, roots) {
      var r :| r in roots && r in f && a in f[r];
      TheWindow(img, roots, r, Seeds.WindowOf(img, roots, r));
    }
    if r, win :| RootWindow(img, roots, r, win) && a in OverlayWalk.Visited(win) {
      TheWindow(img, roots, r, win);
      assert r in f && a in f[r];
    }
  }
}
