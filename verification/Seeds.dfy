/** Seed classification for one captured overlay: which addresses become walk roots, which stay
    interior aliases, and how the set of roots is closed under direct calls and, in the kernel
    window, under orphan promotion. */
module Seeds {
  import opened Mips
  import Sorting
  import OverlayWalk
  import Worklist

  datatype Reason = DispatchEntry | DirectJalTarget | FunctionPointerTarget | TomlDeclaredEntry
                  | DispatchInterior | DispatchRoot

  datatype Exclusion = Unknown | BranchTargetOnly | ObservedPcOnly

  /** The evidence that came with a capture. `legacyMode` is an old capture whose only evidence
      is a plain list of observed addresses. `gameLo`/`gameHi` bound the main executable. */
  datatype Capture = Capture(
    img: Image, dispatch: set<int>, entries: set<int>, toml: set<int>, legacy: set<int>, executed: set<int>,
    legacyMode: bool, gameLo: int, gameHi: int)

  datatype Verdicts = Verdicts(included: map<int, Reason>, excluded: map<int, Exclusion>)

  function Hi(img: Image): int { img.load + img.size }

  /** A jump out of the overlay, the main executable and the BIOS. */
  predicate UnknownBad(c: Capture, a: int) {
    && !(Phys(c.img.load) <= Phys(a) < Phys(c.img.load) + c.img.size)
    && !(c.gameLo < c.gameHi && c.gameLo <= Phys(a) < c.gameHi)
    && !(0x1FC0_0000 <= Phys(a) < 0x1FC8_0000 || 0xBFC0_0000 <= a < 0xBFC8_0000)
  }

  predicate ImpossibleStart(c: Capture, a: int) {
    !ValidAt(c.img, a) ||
    match Classify(a, WordAt(c.img, a).value)
    case Jump(t) => UnknownBad(c, t)
    case Call(t) => InRegion(c.img, t) && !Callable(c.img, t)
    case _ => false
  }

  /** One classification request. `tables` are the case labels found before any promotion. */
  function Include(c: Capture, tables: set<int>, v: Verdicts, a: int, r: Reason): Verdicts {
    if !InRegion(c.img, a) then
      v.(excluded := v.excluded[a := Unknown])
    else if r == DispatchEntry && ImpossibleStart(c, a) then
      v.(excluded := v.excluded[a := Unknown])
    else if r == DispatchEntry && (a in tables || !Callable(c.img, a)) then
      if a in v.included then v else v.(included := v.included[a := DispatchInterior])
    else if r != DispatchEntry && r != TomlDeclaredEntry && a in tables && !Callable(c.img, a) then
      v.(excluded := v.excluded[a := BranchTargetOnly])
    else if a !in v.included || v.included[a] in {FunctionPointerTarget, DispatchInterior} then
      v.(included := v.included[a := r])
    else v
  }

  function Roots(included: map<int, Reason>): set<int> {
    set a | a in included && included[a] != DispatchInterior
  }

  function Interiors(included: map<int, Reason>): set<int> {
    set a | a in included && included[a] == DispatchInterior
  }

  function Region(img: Image): set<int> {
    set a | img.load <= a < img.load + img.size && InRegion(img, a)
  }

  /** The least root above a, or the end of the region: the cap of the walk from a. */
  function Cap(img: Image, roots: set<int>, a: int): (cap: int)
    ensures forall x :: x in roots && a < x ==> cap <= x
    ensures cap in roots || cap == Hi(img)
  {
    var above := set x | x in roots && a < x;
    assert forall x :: x in roots && a < x ==> x in above;
    if above == {} then Hi(img) else Sorting.Least(above)
  }

  function WindowOf(img: Image, roots: set<int>, a: int): OverlayWalk.Window {
    OverlayWalk.Window(img, a, Cap(img, roots, a))
  }

  predicate Kernel(img: Image) {
    Phys(img.load) < 0x1_0000
  }

  // ---- The direct-call gate ----

  /** A call target recorded by a walk is never rejected: it becomes a root, and an address so far
      held as an interior is upgraded. */
  lemma CalleeAccepted(c: Capture, tables: set<int>, v: Verdicts, t: int)
    requires InRegion(c.img, t) && Callable(c.img, t) && t !in Roots(v.included)
    ensures var u := Include(c, tables, v, t, DirectJalTarget);
            && u.excluded == v.excluded
            && u.included == v.included[t := DirectJalTarget]
            && Roots(u.included) == Roots(v.included) + {t}
            && Interiors(u.included) == Interiors(v.included) - {t}
  {
    hide Callable, InRegion;
  }

  lemma CalleesCallable(w: OverlayWalk.Window, t: int)
    requires t in OverlayWalk.DirectJals(w)
    ensures InRegion(w.img, t) && Callable(w.img, t)
  {
    hide Callable, WordAt, Classify, OverlayWalk.Walked, OverlayWalk.Live;
    var a :| a in OverlayWalk.Walked(w).expanded && a in OverlayWalk.Calls(w) && t in OverlayWalk.Calls(w)[a];
  }

  // ---- The state of the root fixpoint ----

  datatype Progress = Progress(v: Verdicts, known: set<int>, pending: seq<int>, processed: set<int>)

  /** The queue holds exactly the roots not yet walked, possibly with repeats of walked ones. */
  ghost predicate Queued(p: Progress) {
    && p.processed <= p.known
    && (forall x :: x in p.pending ==> x in p.known)
    && (forall x :: x in p.known ==> x in p.processed || x in p.pending)
  }

  /** `caps` remembers the cap each processed root was walked with. Roots are only added, so that
      cap is never below the final one, and every call the walk recorded is a root. */
  ghost predicate CallsClosed(img: Image, p: Progress, caps: map<int, int>) {
    && caps.Keys == p.processed
    && (forall r :: r in caps ==> Cap(img, p.known, r) <= caps[r])
    && (forall r :: r in caps ==> OverlayWalk.DirectJals(OverlayWalk.Window(img, r, caps[r])) <= p.known)
  }

  /** Each verdict rests on the evidence its reason names. */
  ghost predicate Evidence(c: Capture, caps: map<int, int>, a: int, r: Reason) {
    match r
    case DispatchEntry => a in c.dispatch
    case DispatchInterior => a in c.dispatch && ValidAt(c.img, a)
    case DispatchRoot => a in c.dispatch && Kernel(c.img)
    case FunctionPointerTarget => a in c.entries || (c.legacyMode && a in c.legacy && Callable(c.img, a))
    case TomlDeclaredEntry => a in c.toml
    case DirectJalTarget =>
      exists r :: r in caps && a in OverlayWalk.DirectJals(OverlayWalk.Window(c.img, r, caps[r]))
  }

  ghost predicate Justified(c: Capture, v: Verdicts, caps: map<int, int>) {
    forall a :: a in v.included ==> InRegion(c.img, a) && Evidence(c, caps, a, v.included[a])
  }

  ghost predicate Inv(c: Capture, p: Progress, caps: map<int, int>) {
    && p.known == Roots(p.v.included)
    && Queued(p)
    && CallsClosed(c.img, p, caps)
    && Justified(c, p.v, caps)
  }

  // ---- One walked root ----

  ghost function Upgraded(included: map<int, Reason>, added: set<int>): map<int, Reason> {
    included + map t | t in added :: DirectJalTarget
  }

  lemma UpgradedRoots(included: map<int, Reason>, added: set<int>)
    ensures Roots(Upgraded(included, added)) == Roots(included) + added
    ensures Interiors(Upgraded(included, added)) == Interiors(included) - added
  {
  }

  /** How verdicts may change: a root keeps its reason, an interior may become a call target or be
      promoted, and only call targets are added. */
  ghost predicate Evolves(before: map<int, Reason>, after: map<int, Reason>) {
    && (forall a :: a in before ==> a in after)
    && (forall a :: a in before && before[a] != DispatchInterior ==> after[a] == before[a])
    && (forall a :: a in before && before[a] == DispatchInterior ==>
        after[a] in {DispatchInterior, DirectJalTarget, DispatchRoot})
    && (forall a :: a in after && a !in before ==> after[a] == DirectJalTarget)
  }

  lemma EvolvesTransitive(m0: map<int, Reason>, m1: map<int, Reason>, m2: map<int, Reason>)
    requires Evolves(m0, m1) && Evolves(m1, m2)
    ensures Evolves(m0, m2)
  {
  }

  lemma UpgradedEvolves(included: map<int, Reason>, added: set<int>)
    requires added !! Roots(included)
    ensures Evolves(included, Upgraded(included, added))
  {
  }

  /** q is p after the call targets in `done` were offered. */
  ghost predicate Offered(p: Progress, q: Progress, done: set<int>) {
    && q.v == Verdicts(Upgraded(p.v.included, done - p.known), p.v.excluded)
    && q.known == p.known + done && q.processed == p.processed
    && (forall x :: x in q.pending <==> x in p.pending || x in done - p.known)
    && (done <= p.known ==> q.pending == p.pending)
  }

  lemma OfferOne(c: Capture, tables: set<int>, p: Progress, q: Progress, done: set<int>, t: int)
    requires p.known == Roots(p.v.included) && Offered(p, q, done)
    requires InRegion(c.img, t) && Callable(c.img, t)
    ensures t in q.known ==> Offered(p, q, done + {t})
    ensures t !in q.known ==>
              var v := Include(c, tables, q.v, t, DirectJalTarget);
              t in v.included && Offered(p, q.(v := v, known := q.known + {t}, pending := q.pending + [t]), done + {t})
  {
    hide Callable, InRegion, Include;
    UpgradedRoots(p.v.included, done - p.known);
    if t in q.known {
      assert done + {t} - p.known == done - p.known;
    } else {
      CalleeAccepted(c, tables, q.v, t);
      assert done + {t} - p.known == done - p.known + {t};
      UpgradedNext(p.v.included, done - p.known, t);
    }
  }

  lemma UpgradedNext(inc: map<int, Reason>, s: set<int>, t: int)
    ensures Upgraded(inc, s)[t := DirectJalTarget] == Upgraded(inc, s + {t})
  {
  }

  /** The loop over the call targets of one walk. */
  method AddCallees(c: Capture, tables: set<int>, p: Progress, jals: set<int>) returns (q: Progress)
    requires p.known == Roots(p.v.included)
    requires forall t :: t in jals ==> InRegion(c.img, t) && Callable(c.img, t)
    ensures Offered(p, q, jals)
  {
    hide Callable, InRegion, Include, Roots, Offered, Sorting.Sorted;
    var order := Sorting.Sorted(jals);
    q := p;
    OfferedNone(p);
    assert Sorting.Elements(order[..0]) == {};
    var i := 0;
    while i < |order|
      invariant 0 <= i <= |order|
      invariant Offered(p, q, Sorting.Elements(order[..i]))
    {
      var target := order[i];
      assert target in order;
      OfferOne(c, tables, p, q, Sorting.Elements(order[..i]), target);
      Sorting.ElementsNext(order, i);
      if target !in q.known {
        var v := Include(c, tables, q.v, target, DirectJalTarget);
        q := q.(v := v);
        if target in v.included {
          q := q.(known := q.known + {target}, pending := q.pending + [target]);
        }
      }
      i := i + 1;
    }
    Sorting.ElementsSorted(jals);
  }

  lemma OfferedExcluded(p: Progress, q: Progress, done: set<int>)
    requires Offered(p, q, done)
    ensures q.v.excluded == p.v.excluded
  {
  }

  lemma OfferedNone(p: Progress)
    ensures Offered(p, p, {})
  {
    assert Upgraded(p.v.included, {}) == p.v.included;
  }

  lemma UpgradedJustified(c: Capture, v: Verdicts, caps: map<int, int>, r: int, cap: int)
    requires Justified(c, v, caps) && r !in caps
    ensures var jals := OverlayWalk.DirectJals(OverlayWalk.Window(c.img, r, cap));
            Justified(c, Verdicts(Upgraded(v.included, jals - Roots(v.included)), v.excluded), caps[r := cap])
  {
    hide Callable, ValidAt, InRegion, OverlayWalk.DirectJals;
    var jals := OverlayWalk.DirectJals(OverlayWalk.Window(c.img, r, cap));
    var u := Verdicts(Upgraded(v.included, jals - Roots(v.included)), v.excluded);
    var caps' := caps[r := cap];
    forall a | a in u.included ensures InRegion(c.img, a) && Evidence(c, caps', a, u.included[a]) {
      if a in jals - Roots(v.included) {
        CalleesCallable(OverlayWalk.Window(c.img, r, cap), a);
        assert r in caps' && a in OverlayWalk.DirectJals(OverlayWalk.Window(c.img, r, caps'[r]));
      } else {
        EvidenceKept(c, caps, a, v.included[a], r, cap);
      }
    }
  }

  lemma EvidenceKept(c: Capture, caps: map<int, int>, a: int, reason: Reason, r: int, cap: int)
    requires Evidence(c, caps, a, reason) && r !in caps
    ensures Evidence(c, caps[r := cap], a, reason)
  {
    hide Callable, ValidAt, OverlayWalk.DirectJals;
    if reason == DirectJalTarget {
      var k :| k in caps && a in OverlayWalk.DirectJals(OverlayWalk.Window(c.img, k, caps[k]));
      assert caps[r := cap][k] == caps[k];
    }
  }

  lemma CapShrinks(img: Image, roots: set<int>, more: set<int>, a: int)
    requires roots <= more && forall x :: x in more ==> InRegion(img, x)
    ensures Cap(img, more, a) <= Cap(img, roots, a)
  {
    hide Sorting.Least;
  }

  ghost function Taken(p: Progress): Progress
    requires p.pending != []
  {
    p.(pending := p.pending[1..], processed := p.processed + {p.pending[0]})
  }

  ghost function RootWalk(img: Image, p: Progress): OverlayWalk.Window
    requires p.pending != []
  {
    WindowOf(img, p.known, p.pending[0])
  }

  lemma QueuedStep(p: Progress, q: Progress, jals: set<int>)
    requires Queued(p) && p.pending != [] && Offered(Taken(p), q, jals)
    ensures Queued(q)
  {
    hide Upgraded;
    var r := p.pending[0];
    assert forall x :: x in p.pending <==> x == r || x in p.pending[1..] by {
      assert p.pending == [r] + p.pending[1..];
    }
    assert r in p.known;
    forall x | x in q.pending ensures x in q.known {
      assert x in p.pending[1..] || x in jals - p.known;
    }
    forall x | x in q.known ensures x in q.processed || x in q.pending {
      if x in p.known {
        assert x in p.processed || x in p.pending;
      } else {
        assert x in jals - p.known;
      }
    }
  }

  lemma RootsInRegion(c: Capture, v: Verdicts, caps: map<int, int>, x: int)
    requires Justified(c, v, caps) && x in Roots(v.included)
    ensures InRegion(c.img, x)
  {
    hide InRegion, Evidence;
  }

  lemma CallsClosedStep(c: Capture, p: Progress, q: Progress, caps: map<int, int>)
    requires p.pending != [] && p.pending[0] !in p.processed && CallsClosed(c.img, p, caps)
    requires Offered(Taken(p), q, OverlayWalk.DirectJals(RootWalk(c.img, p)))
    requires forall x :: x in q.known ==> InRegion(c.img, x)
    ensures CallsClosed(c.img, q, caps[p.pending[0] := RootWalk(c.img, p).cap])
  {
    hide OverlayWalk.DirectJals, InRegion, Upgraded, Cap;
    var caps' := caps[p.pending[0] := RootWalk(c.img, p).cap];
    forall r | r in caps' ensures Cap(c.img, q.known, r) <= caps'[r] {
      CapShrinks(c.img, p.known, q.known, r);
    }
  }

  /** Walking one pending root and offering its calls keeps the invariant. */
  lemma WalkedInv(c: Capture, p: Progress, q: Progress, caps: map<int, int>)
    requires Inv(c, p, caps) && p.pending != [] && p.pending[0] !in p.processed
    requires Offered(Taken(p), q, OverlayWalk.DirectJals(RootWalk(c.img, p)))
    ensures Inv(c, q, caps[p.pending[0] := RootWalk(c.img, p).cap])
    ensures Interiors(q.v.included) <= Interiors(p.v.included)
    ensures Evolves(p.v.included, q.v.included)
  {
    var w, r := RootWalk(c.img, p), p.pending[0];
    var jals := OverlayWalk.DirectJals(w);
    QueuedStep(p, q, jals);
    UpgradedJustified(c, p.v, caps, r, w.cap);
    UpgradedRoots(p.v.included, jals - p.known);
    UpgradedEvolves(p.v.included, jals - p.known);
    hide Evolves, Queued, CallsClosed, Justified, OverlayWalk.DirectJals, Upgraded, Roots, Interiors, Cap;
    forall x | x in q.known ensures InRegion(c.img, x) {
      RootsInRegion(c, q.v, caps[r := w.cap], x);
    }
    CallsClosedStep(c, p, q, caps);
  }

  // ---- The log of a classification ----

  /** What happens to roots: one is walked up to a cap, or an interior is promoted to one. */
  datatype Event = Walked(root: int, cap: int) | Promotion(root: int)

  /** The roots after the events of a log: those it began with, the calls of the walks and the promotions. */
  ghost function Known(img: Image, first: set<int>, log: seq<Event>): set<int> {
    if log == [] then first
    else
      Known(img, first, log[..|log| - 1]) +
      match log[|log| - 1]
      case Walked(r, cap) => OverlayWalk.DirectJals(OverlayWalk.Window(img, r, cap))
      case Promotion(a) => {a}
  }

  ghost function Done(log: seq<Event>): set<int> {
    if log == [] then {}
    else Done(log[..|log| - 1]) + if log[|log| - 1].Walked? then {log[|log| - 1].root} else {}
  }

  /** The next root above r, or the end of the region. */
  ghost predicate NextAbove(img: Image, known: set<int>, r: int, cap: int) {
    (forall x :: x in known && r < x ==> cap <= x) && ((cap in known && r < cap) || cap == Hi(img))
  }

  /** An interior that no walk from the roots covers. */
  ghost predicate Orphan(c: Capture, interiors: set<int>, known: set<int>, a: int) {
    a in interiors && a !in known && a !in Covered(c.img, known)
  }

  /** The rules: a root is walked once, up to the next root known by then. Promotion waits until all roots have been
      walked, happens in the kernel window only, and takes the lowest orphan. */
  ghost predicate LawfulNext(c: Capture, first: set<int>, interiors: set<int>, log: seq<Event>, e: Event) {
    var known := Known(c.img, first, log);
    match e
    case Walked(r, cap) => r in known && r !in Done(log) && NextAbove(c.img, known, r, cap)
    case Promotion(a) =>
      && Phys(c.img.load) < 0x1_0000 && known <= Done(log)
      && Orphan(c, interiors, known, a) && (forall x :: x < a ==> !Orphan(c, interiors, known, x))
  }

  ghost predicate Lawful(c: Capture, first: set<int>, interiors: set<int>, log: seq<Event>) {
    forall i :: 0 <= i < |log| ==> LawfulNext(c, first, interiors, log[..i], log[i])
  }

  /** The state that a log leads to. */
  ghost predicate Reached(c: Capture, first: set<int>, interiors: set<int>, p: Progress, caps: map<int, int>,
                          log: seq<Event>) {
    && Lawful(c, first, interiors, log)
    && p.known == Known(c.img, first, log) && p.processed == Done(log)
    && Interiors(p.v.included) == interiors - p.known
    && (forall a :: At(p.v, a).0 == Some(DispatchRoot) <==> Promotion(a) in log)
    && (forall r :: r in caps ==> Walked(r, caps[r]) in log)
  }

  lemma LawfulAppend(c: Capture, first: set<int>, interiors: set<int>, log: seq<Event>, e: Event)
    requires Lawful(c, first, interiors, log) && LawfulNext(c, first, interiors, log, e)
    ensures Lawful(c, first, interiors, log + [e])
    ensures Known(c.img, first, log + [e]) ==
            Known(c.img, first, log) +
            match e
            case Walked(r, cap) => OverlayWalk.DirectJals(OverlayWalk.Window(c.img, r, cap))
            case Promotion(a) => {a}
    ensures Done(log + [e]) == Done(log) + if e.Walked? then {e.root} else {}
  {
    hide LawfulNext, OverlayWalk.DirectJals;
    var l := log + [e];
    assert l[..|l| - 1] == log;
    forall i | 0 <= i < |l| ensures LawfulNext(c, first, interiors, l[..i], l[i]) {
      assert i < |log| ==> l[..i] == log[..i];
    }
  }

  lemma CapIsNextAbove(img: Image, known: set<int>, r: int)
    ensures NextAbove(img, known, r, Cap(img, known, r))
  {
    var above := set x | x in known && r < x;
    assert forall x :: x in known && r < x ==> x in above;
  }

  /** One walked root, in the log. */
  lemma ReachedWalk(c: Capture, first: set<int>, interiors: set<int>, p: Progress, q: Progress, caps: map<int, int>,
                    log: seq<Event>)
    requires Reached(c, first, interiors, p, caps, log) && p.known == Roots(p.v.included)
    requires p.pending != [] && p.pending[0] in p.known && p.pending[0] !in p.processed
    requires Offered(Taken(p), q, OverlayWalk.DirectJals(RootWalk(c.img, p)))
    ensures var r, cap := p.pending[0], RootWalk(c.img, p).cap;
            Reached(c, first, interiors, q, caps[r := cap], log + [Walked(r, cap)])
  {
    hide Lawful, OverlayWalk.DirectJals, Cap, NextAbove, Known, Done, Roots, Interiors, Upgraded, Offered, Covered;
    var w, r := RootWalk(c.img, p), p.pending[0];
    var jals := OverlayWalk.DirectJals(w);
    var e := Walked(r, w.cap);
    OfferedGives(Taken(p), q, jals);
    CapIsNextAbove(c.img, p.known, r);
    LawfulAppend(c, first, interiors, log, e);
    UpgradedRoots(p.v.included, jals - p.known);
    UpgradedReasons(p.v, q.v, jals - p.known);
    CapsLogged(caps, r, w.cap, log);
    forall a ensures At(q.v, a).0 == Some(DispatchRoot) <==> Promotion(a) in log + [e] {
      assert At(p.v, a).0 == Some(DispatchRoot) <==> Promotion(a) in log;
    }
  }

  lemma OfferedGives(p: Progress, q: Progress, done: set<int>)
    requires Offered(p, q, done)
    ensures q.v.included == Upgraded(p.v.included, done - p.known)
    ensures q.known == p.known + done && q.processed == p.processed
  {
  }

  lemma CapsLogged(caps: map<int, int>, r: int, cap: int, log: seq<Event>)
    requires forall x :: x in caps ==> Walked(x, caps[x]) in log
    ensures var caps' := caps[r := cap]; forall x :: x in caps' ==> Walked(x, caps'[x]) in log + [Walked(r, cap)]
  {
  }

  lemma UpgradedReasons(v: Verdicts, u: Verdicts, added: set<int>)
    requires added !! Roots(v.included) && u.included == Upgraded(v.included, added)
    ensures forall a :: At(u, a).0 == Some(DispatchRoot) <==> At(v, a).0 == Some(DispatchRoot)
  {
    forall a ensures At(u, a).0 == Some(DispatchRoot) <==> At(v, a).0 == Some(DispatchRoot) {
      assert At(v, a).0 == Some(DispatchRoot) ==> a in Roots(v.included);
    }
  }

  /** One promotion, in the log. */
  lemma ReachedPromotion(c: Capture, first: set<int>, interiors: set<int>, p: Progress, caps: map<int, int>,
                         log: seq<Event>, a: int)
    requires Reached(c, first, interiors, p, caps, log) && p.known == Roots(p.v.included)
    requires Kernel(c.img) && p.known <= p.processed && a in Interiors(p.v.included) && a !in Covered(c.img, p.known)
    requires forall x :: x in Interiors(p.v.included) && x !in Covered(c.img, p.known) ==> a <= x
    ensures Reached(c, first, interiors, Promoted(p, a), caps, log + [Promotion(a)])
  {
    hide Covered, Known, Done;
    var e := Promotion(a);
    assert LawfulNext(c, first, interiors, log, e);
    LawfulAppend(c, first, interiors, log, e);
    hide Lawful, LawfulNext;
    var q := Promoted(p, a);
    assert Interiors(q.v.included) == Interiors(p.v.included) - {a};
    forall x ensures At(q.v, x).0 == Some(DispatchRoot) <==> Promotion(x) in log + [e] {
      assert At(p.v, x).0 == Some(DispatchRoot) <==> Promotion(x) in log;
    }
  }

  /** The inner loop: walk every pending root with the cap of the moment, until none is left. */
  method Drain(c: Capture, tables: set<int>, p: Progress, ghost caps: map<int, int>, ghost first: set<int>,
               ghost interiors: set<int>, ghost log: seq<Event>)
    returns (q: Progress, ghost caps': map<int, int>, ghost log': seq<Event>)
    requires Inv(c, p, caps) && Reached(c, first, interiors, p, caps, log)
    ensures Inv(c, q, caps') && Reached(c, first, interiors, q, caps', log') && q.pending == []
    ensures Interiors(q.v.included) <= Interiors(p.v.included) && Evolves(p.v.included, q.v.included)
    ensures q.v.excluded == p.v.excluded
  {
    assert Evolves(p.v.included, p.v.included);
    hide Evolves, Inv, Offered, OverlayWalk.DirectJals, Interiors, InRegion, Roots, Cap, Reached;
    q, caps', log' := p, caps, log;
    while q.pending != []
      invariant Inv(c, q, caps') && Reached(c, first, interiors, q, caps', log')
      invariant Interiors(q.v.included) <= Interiors(p.v.included) && Evolves(p.v.included, q.v.included)
      invariant q.v.excluded == p.v.excluded
      decreases Region(c.img) - q.known, |q.pending|
    {
      var entry := q.pending[0];
      if entry in q.processed {
        DropInv(c, q, caps');
        DropReached(c, first, interiors, q, caps', log');
        q := q.(pending := q.pending[1..]);
      } else {
        ghost var w := RootWalk(c.img, q);
        var visited, jals, branches, tableTargets := OverlayWalk.Walk(WindowOf(c.img, q.known, entry));
        forall t | t in jals ensures InRegion(c.img, t) && Callable(c.img, t) { CalleesCallable(w, t); }
        InvRoots(c, q, caps');
        var t := AddCallees(c, tables, q.(pending := q.pending[1..], processed := q.processed + {entry}), jals);
        WalkedInv(c, q, t, caps');
        HeadKnown(c, q, caps');
        ReachedWalk(c, first, interiors, q, t, caps', log');
        OfferedExcluded(q.(pending := q.pending[1..], processed := q.processed + {entry}), t, jals);
        caps', log' := caps'[entry := w.cap], log' + [Walked(entry, w.cap)];
        DrainProgress(c, q, t, caps');
        EvolvesTransitive(p.v.included, q.v.included, t.v.included);
        q := t;
      }
    }
  }

  lemma InvRoots(c: Capture, p: Progress, caps: map<int, int>)
    requires Inv(c, p, caps)
    ensures p.known == Roots(p.v.included)
  {
  }

  lemma HeadKnown(c: Capture, p: Progress, caps: map<int, int>)
    requires Inv(c, p, caps) && p.pending != []
    ensures p.pending[0] in p.known
  {
    hide CallsClosed, Justified, Roots;
    var x := p.pending[0];
    assert x in p.pending;
  }

  lemma DropReached(c: Capture, first: set<int>, interiors: set<int>, p: Progress, caps: map<int, int>, log: seq<Event>)
    requires Reached(c, first, interiors, p, caps, log) && p.pending != []
    ensures Reached(c, first, interiors, p.(pending := p.pending[1..]), caps, log)
  {
    hide Lawful, Known, Done;
  }

  lemma DropInv(c: Capture, p: Progress, caps: map<int, int>)
    requires Inv(c, p, caps) && p.pending != [] && p.pending[0] in p.processed
    ensures Inv(c, p.(pending := p.pending[1..]), caps)
  {
    hide Roots, Justified, OverlayWalk.DirectJals, Cap;
    forall x | x in p.known ensures x in p.processed || x in p.pending[1..] {
      if x in p.pending && x != p.pending[0] { assert x in p.pending[1..]; }
    }
  }

  /** Either a new root of the region was added, or the queue got shorter. */
  lemma DrainProgress(c: Capture, p: Progress, q: Progress, caps: map<int, int>)
    requires p.pending != [] && Inv(c, q, caps)
    requires Offered(Taken(p), q, OverlayWalk.DirectJals(RootWalk(c.img, p)))
    ensures || Region(c.img) - q.known < Region(c.img) - p.known
            || (q.known == p.known && |q.pending| < |p.pending|)
  {
    hide OverlayWalk.DirectJals, Upgraded, Cap, Queued, CallsClosed, Justified, Roots;
    if q.known != p.known {
      assert (forall t :: t in q.known ==> t in p.known) ==> q.known == p.known;
      var t :| t in q.known && t !in p.known;
      RootsInRegion(c, q.v, caps, t);
      assert t in Region(c.img) - p.known && t !in Region(c.img) - q.known;
    }
  }

  // ---- Coverage of the rooted walks ----

  ghost function WalksOf(img: Image, roots: set<int>): map<int, set<int>> {
    map r | r in roots :: OverlayWalk.Visited(WindowOf(img, roots, r))
  }

  /** Every address some rooted walk visits, each root capped by the next one. */
  ghost function Covered(img: Image, roots: set<int>): set<int> {
    Worklist.Gather(WalksOf(img, roots), roots)
  }

  /** The cap of the i-th root in ascending order is the next one, or the end of the region. */
  lemma CapIsNext(img: Image, roots: set<int>, i: nat)
    requires i < |Sorting.Sorted(roots)|
    ensures var order := Sorting.Sorted(roots);
            Cap(img, roots, order[i]) == if i + 1 < |order| then order[i + 1] else Hi(img)
  {
    var order := Sorting.Sorted(roots);
    var above := set x | x in roots && order[i] < x;
    forall x | x in above ensures i + 1 < |order| && order[i + 1] <= x {
      var k :| 0 <= k < |order| && order[k] == x;
    }
    if i + 1 < |order| {
      assert order[i + 1] in order && order[i + 1] in above;
    } else {
      assert above == {};
    }
  }

  method CoverRoots(img: Image, known: set<int>) returns (covered: set<int>)
    ensures covered == Covered(img, known)
  {
    hide Cap, OverlayWalk.Visited, Worklist.Gather, Sorting.Sorted;
    var order := Sorting.Sorted(known);
    covered := {};
    Worklist.GatherNothing(WalksOf(img, known));
    assert Sorting.Elements(order[..0]) == {};
    var i := 0;
    while i < |order|
      invariant 0 <= i <= |order|
      invariant covered == Worklist.Gather(WalksOf(img, known), Sorting.Elements(order[..i]))
    {
      var entry := order[i];
      assert entry in order;
      CapIsNext(img, known, i);
      var hardCap := if i + 1 < |order| then order[i + 1] else img.load + img.size;
      var visited, jals, branches, tables := OverlayWalk.Walk(OverlayWalk.Window(img, entry, hardCap));
      covered := covered + visited;
      Sorting.ElementsNext(order, i);
      Worklist.GatherAdd(WalksOf(img, known), Sorting.Elements(order[..i]), entry);
      i := i + 1;
    }
    Sorting.ElementsSorted(known);
  }

  // ---- Orphan promotion and the outer fixpoint ----

  ghost function Promoted(p: Progress, a: int): Progress {
    Progress(Verdicts(p.v.included[a := DispatchRoot], p.v.excluded), p.known + {a}, p.pending + [a], p.processed)
  }

  lemma PromotedInv(c: Capture, p: Progress, caps: map<int, int>, a: int)
    requires Inv(c, p, caps) && a in Interiors(p.v.included) && Kernel(c.img)
    ensures Inv(c, Promoted(p, a), caps)
    ensures Interiors(Promoted(p, a).v.included) == Interiors(p.v.included) - {a}
    ensures Evolves(p.v.included, Promoted(p, a).v.included)
  {
    hide OverlayWalk.DirectJals, InRegion, Cap, Callable, ValidAt;
    var q := Promoted(p, a);
    assert Roots(q.v.included) == Roots(p.v.included) + {a};
    assert Justified(c, q.v, caps);
    forall x | x in q.known ensures InRegion(c.img, x) { RootsInRegion(c, q.v, caps, x); }
    forall r | r in caps ensures Cap(c.img, q.known, r) <= caps[r] { CapShrinks(c.img, p.known, q.known, r); }
  }

  lemma InteriorsValid(c: Capture, v: Verdicts, caps: map<int, int>, a: int)
    requires Justified(c, v, caps) && a in Interiors(v.included)
    ensures ValidAt(c.img, a)
  {
    hide ValidAt, InRegion;
  }

  /** In the kernel window no interior is left that the rooted walks do not cover. */
  ghost predicate NoOrphans(c: Capture, p: Progress) {
    Kernel(c.img) ==> Interiors(p.v.included) <= Covered(c.img, p.known)
  }

  /** The outer loop: drain, then promote the lowest orphan of the kernel window, until nothing
      changes. Interiors only ever leave, so the loop ends. */
  method Close(c: Capture, tables: set<int>, p: Progress, ghost caps: map<int, int>, ghost first: set<int>,
               ghost interiors: set<int>, ghost log: seq<Event>)
    returns (q: Progress, ghost caps': map<int, int>, ghost log': seq<Event>)
    requires Inv(c, p, caps) && Reached(c, first, interiors, p, caps, log)
    ensures Inv(c, q, caps') && Reached(c, first, interiors, q, caps', log') && q.pending == []
    ensures Evolves(p.v.included, q.v.included)
    ensures q.v.excluded == p.v.excluded
    ensures NoOrphans(c, q)
  {
    assert Evolves(p.v.included, p.v.included);
    hide Evolves, Inv, Covered, Roots, Justified, ValidAt, Reached;
    q, caps', log' := p, caps, log;
    while true
      invariant Inv(c, q, caps') && Reached(c, first, interiors, q, caps', log')
      invariant Evolves(p.v.included, q.v.included)
      invariant q.v.excluded == p.v.excluded
      decreases Interiors(q.v.included)
    {
      ghost var before := q.v.included;
      q, caps', log' := Drain(c, tables, q, caps', first, interiors, log');
      EvolvesTransitive(p.v.included, before, q.v.included);
      if !Kernel(c.img) {
        return;
      }
      var covered := CoverRoots(c.img, q.known);
      var promoted := set a | a in q.v.included && q.v.included[a] == DispatchInterior && a !in covered
          && ValidAt(c.img, a);
      if promoted == {} {
        forall a | a in Interiors(q.v.included) ensures a in covered {
          InvJustified(c, q, caps');
          InteriorsValid(c, q.v, caps', a);
          assert a !in promoted;
        }
        return;
      }
      var a := Sorting.Least(promoted);
      PromotedInv(c, q, caps', a);
      forall x | x in Interiors(q.v.included) && x !in covered ensures a <= x {
        InvJustified(c, q, caps');
        InteriorsValid(c, q.v, caps', x);
        assert x in promoted;
      }
      InvRoots(c, q, caps');
      AllProcessed(c, q, caps');
      ReachedPromotion(c, first, interiors, q, caps', log', a);
      log' := log' + [Promotion(a)];
      EvolvesTransitive(p.v.included, q.v.included, Promoted(q, a).v.included);
      q := Progress(Verdicts(q.v.included[a := DispatchRoot], q.v.excluded), q.known + {a}, q.pending + [a],
          q.processed);
    }
  }

  lemma InvJustified(c: Capture, p: Progress, caps: map<int, int>)
    requires Inv(c, p, caps)
    ensures Justified(c, p.v, caps)
  {
  }

  // ---- The first verdicts ----

  /** Reason r may be requested for a. */
  ghost predicate Requested(c: Capture, a: int, r: Reason) {
    || (r == DispatchEntry && a in c.dispatch)
    || (r == FunctionPointerTarget && (a in c.entries || (c.legacyMode && a in c.legacy && Callable(c.img, a))))
    || (r == TomlDeclaredEntry && a in c.toml)
  }

  lemma IncludeJustified(c: Capture, tables: set<int>, v: Verdicts, a: int, r: Reason, caps: map<int, int>)
    requires Justified(c, v, caps) && Requested(c, a, r)
    ensures Justified(c, Include(c, tables, v, a, r), caps)
  {
    hide InRegion, Callable, ValidAt, OverlayWalk.DirectJals, UnknownBad, WordAt, Classify;
    var u := Include(c, tables, v, a, r);
    forall x | x in u.included ensures InRegion(c.img, x) && Evidence(c, caps, x, u.included[x]) {
      if x != a { assert x in v.included && u.included[x] == v.included[x]; }
    }
  }

  /** What is recorded about one address. */
  function At(v: Verdicts, a: int): (Option<Reason>, Option<Exclusion>) {
    (if a in v.included then Some(v.included[a]) else None, if a in v.excluded then Some(v.excluded[a]) else None)
  }

  lemma IncludePointwise(c: Capture, tables: set<int>, v: Verdicts, u: Verdicts, a: int, r: Reason, b: int)
    ensures b != a ==> At(Include(c, tables, v, a, r), b) == At(v, b)
    ensures At(v, a) == At(u, a) ==> At(Include(c, tables, v, a, r), a) == At(Include(c, tables, u, a, r), a)
  {
    hide InRegion, Callable, ImpossibleStart;
  }

  /** One request for each of a set of addresses: the requests do not influence each other. */
  method IncludeAll(c: Capture, tables: set<int>, v: Verdicts, addrs: set<int>, r: Reason) returns (u: Verdicts)
    requires Justified(c, v, map[]) && forall a :: a in addrs ==> Requested(c, a, r)
    ensures Justified(c, u, map[])
    ensures forall a :: At(u, a) == if a in addrs then At(Include(c, tables, v, a, r), a) else At(v, a)
  {
    hide Justified, Requested, Include, At, Sorting.Sorted;
    var order := Sorting.Sorted(addrs);
    u := v;
    assert Sorting.Elements(order[..0]) == {};
    var i := 0;
    while i < |order|
      invariant 0 <= i <= |order|
      invariant Justified(c, u, map[])
      invariant forall a :: At(u, a) == if a in Sorting.Elements(order[..i]) then At(Include(c, tables, v, a, r), a)
                else At(v, a)
    {
      var addr := order[i];
      assert addr in order;
      assert addr !in Sorting.Elements(order[..i]);
      IncludeJustified(c, tables, u, addr, r, map[]);
      forall a ensures At(Include(c, tables, u, addr, r), a) == if a == addr
          then At(Include(c, tables, v, addr, r), addr) else At(u, a) {
        IncludePointwise(c, tables, u, v, addr, r, a);
      }
      u := Include(c, tables, u, addr, r);
      Sorting.ElementsNext(order, i);
      i := i + 1;
    }
    Sorting.ElementsSorted(addrs);
  }

  /** The verdict on a before any walk, from the evidence about a alone: the dispatch request, then
      the function-pointer, the declared-entry and the legacy request, whichever apply. */
  function First(c: Capture, tables: set<int>, a: int): Verdicts {
    var v0 := Verdicts(map[], map[]);
    var v1 := if a in c.dispatch then Include(c, tables, v0, a, DispatchEntry) else v0;
    var v2 := if a in c.entries then Include(c, tables, v1, a, FunctionPointerTarget) else v1;
    var v3 := if a in c.toml then Include(c, tables, v2, a, TomlDeclaredEntry) else v2;
    if c.legacyMode && a in LegacyCallable(c) then Include(c, tables, v3, a, FunctionPointerTarget) else v3
  }

  // ---- The first verdicts, from the evidence alone ----

  /** Control was seen to enter at a, where a function could begin. */
  predicate Entered(c: Capture, a: int) { a in c.dispatch && InRegion(c.img, a) && !ImpossibleStart(c, a) }

  /** A function boundary that is no case label. */
  predicate Boundary(c: Capture, tables: set<int>, a: int) { Callable(c.img, a) && a !in tables }

  /** The configuration declares a as an entry. */
  predicate Declared(c: Capture, a: int) { a in c.toml && InRegion(c.img, a) }

  /** Some pointer names a: the capture lists it and it is not merely a case label, or it is an old observation at a
      boundary. */
  predicate Pointed(c: Capture, tables: set<int>, a: int) {
    && InRegion(c.img, a)
    && ((a in c.entries && (Callable(c.img, a) || a !in tables))
        || (c.legacyMode && a in c.legacy && Callable(c.img, a)))
  }

  /** Which reason wins: an entered boundary, then a declaration, then a pointer, then an interior. */
  function Expected(c: Capture, tables: set<int>, a: int): Option<Reason> {
    if Entered(c, a) && Boundary(c, tables, a) then Some(DispatchEntry)
    else if Declared(c, a) then Some(TomlDeclaredEntry)
    else if Pointed(c, tables, a) then Some(FunctionPointerTarget)
    else if Entered(c, a) then Some(DispatchInterior)
    else None
  }

  /** What is refused at once: requests outside the region, entries at impossible words, and pointers to case
      labels. */
  function Refused(c: Capture, tables: set<int>, a: int): Option<Exclusion> {
    if !InRegion(c.img, a) then
      if a in c.dispatch || a in c.entries || a in c.toml then Some(Unknown) else None
    else if a in c.entries && a in tables && !Callable(c.img, a) then Some(BranchTargetOnly)
    else if a in c.dispatch && ImpossibleStart(c, a) then Some(Unknown)
    else None
  }

  lemma FirstIs(c: Capture, tables: set<int>, a: int)
    ensures At(First(c, tables, a), a) == (Expected(c, tables, a), Refused(c, tables, a))
  {
    hide InRegion, Callable, ImpossibleStart;
  }

  method FirstVerdicts(c: Capture, tables: set<int>) returns (v: Verdicts)
    ensures Justified(c, v, map[])
    ensures forall a :: At(v, a) == At(First(c, tables, a), a)
  {
    hide Include, Requested, Justified, LegacyCallable;
    var v0 := Verdicts(map[], map[]);
    JustifiedNone(c);
    RequestedAll(c);
    var v1 := IncludeAll(c, tables, v0, c.dispatch, DispatchEntry);
    var v2 := IncludeAll(c, tables, v1, c.entries, FunctionPointerTarget);
    var v3 := IncludeAll(c, tables, v2, c.toml, TomlDeclaredEntry);
    v := v3;
    if c.legacyMode {
      v := IncludeAll(c, tables, v, LegacyCallable(c), FunctionPointerTarget);
    }
    forall a ensures At(v, a) == At(First(c, tables, a), a) {
      var u1 := if a in c.dispatch then Include(c, tables, v0, a, DispatchEntry) else v0;
      IncludePointwise(c, tables, v1, u1, a, FunctionPointerTarget, a);
      var u2 := if a in c.entries then Include(c, tables, u1, a, FunctionPointerTarget) else u1;
      IncludePointwise(c, tables, v2, u2, a, TomlDeclaredEntry, a);
      var u3 := if a in c.toml then Include(c, tables, u2, a, TomlDeclaredEntry) else u2;
      IncludePointwise(c, tables, v3, u3, a, FunctionPointerTarget, a);
    }
  }

  lemma JustifiedNone(c: Capture)
    ensures Justified(c, Verdicts(map[], map[]), map[])
  {
  }

  function LegacyCallable(c: Capture): set<int> {
    set a | a in c.legacy && InRegion(c.img, a) && Callable(c.img, a)
  }

  /** The candidate roots whose walks look for case labels before anything is promoted. */
  function PreRoots(c: Capture): set<int> {
    set a | a in LegacyCallable(c) + c.entries + c.toml +
        (set d | d in c.dispatch && InRegion(c.img, d) && Callable(c.img, d))
         && InRegion(c.img, a)
  }

  ghost function TablesOf(img: Image, roots: set<int>): map<int, set<int>> {
    map r | r in roots :: OverlayWalk.TableLabels(WindowOf(img, roots, r))
  }

  ghost function LabelsOf(img: Image, roots: set<int>): map<int, set<int>> {
    map r | r in roots ::
        OverlayWalk.BranchLabels(WindowOf(img, roots, r)) + OverlayWalk.TableLabels(WindowOf(img, roots, r))
  }

  /** Walk each root up to the next one and collect its table targets, and its branch targets
      together with its table targets. */
  method CollectTargets(img: Image, roots: set<int>) returns (tables: set<int>, labels: set<int>)
    ensures tables == Worklist.Gather(TablesOf(img, roots), roots)
    ensures labels == Worklist.Gather(LabelsOf(img, roots), roots)
  {
    hide TablesOf, LabelsOf, Worklist.Gather, Sorting.Sorted;
    var order := Sorting.Sorted(roots);
    tables, labels := {}, {};
    Worklist.GatherNothing(TablesOf(img, roots));
    Worklist.GatherNothing(LabelsOf(img, roots));
    assert Sorting.Elements(order[..0]) == {};
    var i := 0;
    while i < |order|
      invariant 0 <= i <= |order|
      invariant tables == Worklist.Gather(TablesOf(img, roots), Sorting.Elements(order[..i]))
      invariant labels == Worklist.Gather(LabelsOf(img, roots), Sorting.Elements(order[..i]))
    {
      var branchTargets, tableTargets := WalkRoot(img, roots, order, i);
      tables := tables + tableTargets;
      labels := labels + (branchTargets + tableTargets);
      Sorting.ElementsNext(order, i);
      Worklist.GatherAdd(TablesOf(img, roots), Sorting.Elements(order[..i]), order[i]);
      Worklist.GatherAdd(LabelsOf(img, roots), Sorting.Elements(order[..i]), order[i]);
      i := i + 1;
    }
    Sorting.ElementsSorted(roots);
  }

  /** The walk of one root, up to the next. */
  method WalkRoot(img: Image, roots: set<int>, order: seq<int>, i: nat)
      returns (branchTargets: set<int>, tableTargets: set<int>)
    requires order == Sorting.Sorted(roots) && i < |order|
    ensures order[i] in TablesOf(img, roots) && order[i] in LabelsOf(img, roots)
    ensures tableTargets == TablesOf(img, roots)[order[i]]
            && branchTargets + tableTargets == LabelsOf(img, roots)[order[i]]
  {
    hide Cap, OverlayWalk.TableLabels, OverlayWalk.BranchLabels, Sorting.Sorted;
    var entry := order[i];
    assert entry in order;
    CapIsNext(img, roots, i);
    var hardCap := if i + 1 < |order| then order[i + 1] else img.load + img.size;
    var visited, jals;
    visited, jals, branchTargets, tableTargets := OverlayWalk.Walk(OverlayWalk.Window(img, entry, hardCap));
  }

  lemma StartInv(c: Capture, v: Verdicts)
    requires Justified(c, v, map[])
    ensures Inv(c, Progress(v, Roots(v.included), Sorting.Sorted(Roots(v.included)), {}), map[])
  {
    hide Justified, Roots;
  }

  // ---- Accounting for the rest ----

  function Candidates(c: Capture): set<int> {
    set a | a in c.executed + c.dispatch + c.entries + c.legacy + c.toml && InRegion(c.img, a)
  }

  function Rejection(c: Capture, labels: set<int>, a: int): Exclusion {
    if a in labels then BranchTargetOnly
    else if a in c.executed || a in c.legacy then ObservedPcOnly
    else Unknown
  }

  /** The last loop: every candidate that was not included is excluded with its final reason. */
  method Account(c: Capture, labels: set<int>, v: Verdicts) returns (excluded: map<int, Exclusion>)
    ensures excluded.Keys == v.excluded.Keys + (Candidates(c) - v.included.Keys)
    ensures forall a :: a in Candidates(c) - v.included.Keys ==> excluded[a] == Rejection(c, labels, a)
    ensures forall a :: a in v.excluded && a !in Candidates(c) - v.included.Keys ==> excluded[a] == v.excluded[a]
  {
    hide Candidates, Rejection, Sorting.Sorted, Sorting.Elements;
    var rest := Candidates(c) - v.included.Keys;
    var order := Sorting.Sorted(rest);
    excluded := v.excluded;
    var i := 0;
    NothingAccounted(c, labels, v, order);
    while i < |order|
      invariant 0 <= i <= |order|
      invariant Accounts(c, labels, v, Sorting.Elements(order[..i]), excluded)
    {
      AccountsNext(c, labels, v, Sorting.Elements(order[..i]), excluded, order[i]);
      excluded := excluded[order[i] := Rejection(c, labels, order[i])];
      Sorting.ElementsNext(order, i);
      i := i + 1;
    }
    Sorting.ElementsSorted(rest);
  }

  /** The exclusions once the candidates in `done` have their final reason. */
  ghost predicate Accounts(c: Capture, labels: set<int>, v: Verdicts, done: set<int>, excluded: map<int, Exclusion>) {
    && excluded.Keys == v.excluded.Keys + done
    && (forall a :: a in done ==> excluded[a] == Rejection(c, labels, a))
    && (forall a :: a in v.excluded && a !in done ==> excluded[a] == v.excluded[a])
  }

  lemma NothingAccounted(c: Capture, labels: set<int>, v: Verdicts, order: seq<int>)
    ensures Accounts(c, labels, v, Sorting.Elements(order[..0]), v.excluded)
  {
    hide Rejection;
    assert Sorting.Elements(order[..0]) == {};
  }

  lemma AccountsNext(c: Capture, labels: set<int>, v: Verdicts, done: set<int>, excluded: map<int, Exclusion>, a: int)
    requires Accounts(c, labels, v, done, excluded)
    ensures Accounts(c, labels, v, done + {a}, excluded[a := Rejection(c, labels, a)])
  {
    hide Rejection;
  }

  ghost function PreTables(c: Capture): set<int> {
    Worklist.Gather(TablesOf(c.img, PreRoots(c)), PreRoots(c))
  }

  /** The final reason of a, given its first verdict: roots keep theirs, interiors may be upgraded
      or promoted, and everything else that was added is a call target. */
  ghost predicate Settles(first: Option<Reason>, final: Option<Reason>) {
    match first
    case None => final.None? || final == Some(DirectJalTarget)
    case Some(DispatchInterior) => final in {Some(DispatchInterior), Some(DirectJalTarget), Some(DispatchRoot)}
    case Some(r) => final == first
  }

  /** What the final reason of a says about the evidence, and the evidence about the reason. */
  ghost predicate Reasoned(c: Capture, tables: set<int>, v: Verdicts, a: int) {
    var final := At(v, a).0;
    && (final == Some(DispatchEntry) <==> Entered(c, a) && Boundary(c, tables, a))
    && (final == Some(TomlDeclaredEntry) <==> Declared(c, a) && !(Entered(c, a) && Boundary(c, tables, a)))
    && (final == Some(FunctionPointerTarget) <==>
        Pointed(c, tables, a) && !Declared(c, a) && !(Entered(c, a) && Boundary(c, tables, a)))
    && (final in {Some(DispatchInterior), Some(DispatchRoot)} ==>
        Entered(c, a) && !Boundary(c, tables, a) && !Declared(c, a) && !Pointed(c, tables, a))
    && (Entered(c, a) ==> final.Some?)
    && (Declared(c, a) || Pointed(c, tables, a) || (Entered(c, a) && Boundary(c, tables, a)) ==>
        a in Roots(v.included))
  }

  lemma SettlesReasoned(c: Capture, tables: set<int>, v: Verdicts, a: int)
    requires Settles(Expected(c, tables, a), At(v, a).0)
    ensures Reasoned(c, tables, v, a)
  {
    hide Entered, Boundary, Declared, Pointed;
  }

  /** The final exclusions: those of the first verdicts, and a final reason for every candidate left out. */
  ghost predicate Excluded(c: Capture, tables: set<int>, labels: set<int>, v: Verdicts, a: int) {
    var observed := a in c.executed || a in c.legacy;
    var named := observed || a in c.dispatch || a in c.entries || a in c.toml;
    At(v, a).1 ==
    if named && InRegion(c.img, a) && a !in v.included then
      Some(if a in labels then BranchTargetOnly else if observed then ObservedPcOnly else Unknown)
    else Refused(c, tables, a)
  }

  /** The roots and the interiors that the evidence alone gives. */
  function FirstRoots(c: Capture, tables: set<int>): set<int> {
    set a | a in c.dispatch + c.entries + c.toml + c.legacy && Expected(c, tables, a) !in {None, Some(DispatchInterior)}
  }

  function FirstInteriors(c: Capture, tables: set<int>): set<int> {
    set a | a in c.dispatch && Expected(c, tables, a) == Some(DispatchInterior)
  }

  lemma FirstRootsAre(c: Capture, tables: set<int>, v: Verdicts)
    requires forall a :: At(v, a).0 == Expected(c, tables, a)
    ensures Roots(v.included) == FirstRoots(c, tables) && Interiors(v.included) == FirstInteriors(c, tables)
    ensures forall a :: At(v, a).0 != Some(DispatchRoot)
  {
    hide InRegion, Callable, ImpossibleStart;
    forall a ensures a in Roots(v.included) <==> a in FirstRoots(c, tables) {
      assert At(v, a).0 == Expected(c, tables, a);
    }
    forall a ensures a in Interiors(v.included) <==> a in FirstInteriors(c, tables) {
      assert At(v, a).0 == Expected(c, tables, a);
    }
  }

  lemma StartReached(c: Capture, first: set<int>, interiors: set<int>, v: Verdicts)
    requires Roots(v.included) == first && Interiors(v.included) == interiors
    requires forall a :: At(v, a).0 != Some(DispatchRoot)
    ensures Reached(c, first, interiors, Progress(v, first, Sorting.Sorted(first), {}), map[], [])
  {
  }

  /** The whole classification. `roots` are the walk roots, `caps` the caps they were first walked with, and `log`
      what happened: every step of it follows the rules, and the roots are those it leads to, all of them walked. */
  method ClassifySeeds(c: Capture)
    returns (v: Verdicts, roots: set<int>, ghost caps: map<int, int>, ghost log: seq<Event>)
    ensures roots == Roots(v.included) && caps.Keys == roots
    ensures var first, interiors := FirstRoots(c, PreTables(c)), FirstInteriors(c, PreTables(c));
            && Lawful(c, first, interiors, log)
            && roots == Known(c.img, first, log) == Done(log)
            && Interiors(v.included) == interiors - roots
    ensures forall a :: At(v, a).0 == Some(DispatchRoot) <==> Promotion(a) in log
    ensures forall r :: r in roots ==> Walked(r, caps[r]) in log
    ensures forall a :: Reasoned(c, PreTables(c), v, a) && Settles(Expected(c, PreTables(c), a), At(v, a).0)
    ensures Justified(c, v, caps)
    ensures forall r :: r in roots ==> Cap(c.img, roots, r) <= caps[r]
    ensures forall r :: r in roots ==> OverlayWalk.DirectJals(OverlayWalk.Window(c.img, r, caps[r])) <= roots
    ensures Phys(c.img.load) < 0x1_0000 ==> Interiors(v.included) <= Covered(c.img, roots)
    ensures var labels := Worklist.Gather(LabelsOf(c.img, roots), roots) + PreTables(c);
            forall a :: Excluded(c, PreTables(c), labels, v, a)
  {
    hide Include, Evidence, Covered, Candidates, Rejection, PreRoots, OverlayWalk.DirectJals, First, Evolves, Cap,
         Expected, Refused, Reasoned, Settles, Roots, Interiors, Excluded, Reached, FirstRoots, FirstInteriors;
    var preTables, preLabels := CollectTargets(c.img, PreRoots(c));
    v := FirstVerdicts(c, preTables);
    ghost var first := v;
    forall a ensures At(v, a).0 == Expected(c, preTables, a) {
      FirstIs(c, preTables, a);
      assert At(first, a) == At(First(c, preTables, a), a);
    }
    StartInv(c, v);
    FirstRootsAre(c, preTables, v);
    StartReached(c, FirstRoots(c, preTables), FirstInteriors(c, preTables), v);
    var p := Progress(v, Roots(v.included), Sorting.Sorted(Roots(v.included)), {});
    p, caps, log := Close(c, preTables, p, map[], FirstRoots(c, preTables), FirstInteriors(c, preTables), []);
    roots := p.known;
    ReachedEnd(c, FirstRoots(c, preTables), FirstInteriors(c, preTables), p, caps, log);
    var tables, labels := CollectTargets(c.img, roots);
    var excluded := Account(c, labels + preTables, p.v);
    v := Verdicts(p.v.included, excluded);
    AllProcessed(c, p, caps);
    forall a ensures Reasoned(c, PreTables(c), v, a) && Settles(Expected(c, PreTables(c), a), At(v, a).0)
             ensures Excluded(c, PreTables(c), labels + preTables, v, a)
    {
      EvolvesSettles(first, v, a);
      FirstIs(c, PreTables(c), a);
      assert At(first, a) == At(First(c, PreTables(c), a), a);
      SettlesReasoned(c, PreTables(c), v, a);
      AccountedFor(c, PreTables(c), labels + preTables, p.v, v, a);
    }
  }

  lemma ReachedEnd(c: Capture, first: set<int>, interiors: set<int>, p: Progress, caps: map<int, int>, log: seq<Event>)
    requires Reached(c, first, interiors, p, caps, log)
    ensures Lawful(c, first, interiors, log)
    ensures p.known == Known(c.img, first, log) && p.processed == Done(log)
    ensures Interiors(p.v.included) == interiors - p.known
    ensures forall a :: At(p.v, a).0 == Some(DispatchRoot) <==> Promotion(a) in log
    ensures forall r :: r in caps ==> Walked(r, caps[r]) in log
  {
  }

  lemma AccountedFor(c: Capture, tables: set<int>, labels: set<int>, u: Verdicts, v: Verdicts, a: int)
    requires v.included == u.included && v.excluded.Keys == u.excluded.Keys + (Candidates(c) - u.included.Keys)
    requires forall b :: b in Candidates(c) - u.included.Keys ==> v.excluded[b] == Rejection(c, labels, b)
    requires forall b :: b in u.excluded && b !in Candidates(c) - u.included.Keys ==> v.excluded[b] == u.excluded[b]
    requires At(u, a).1 == Refused(c, tables, a)
    ensures Excluded(c, tables, labels, v, a)
  {
    hide Refused, InRegion;
    assert a in Candidates(c) - u.included.Keys <==> a in Candidates(c) && a !in v.included;
  }

  lemma EvolvesSettles(first: Verdicts, v: Verdicts, a: int)
    requires Evolves(first.included, v.included)
    ensures Settles(At(first, a).0, At(v, a).0)
  {
  }

  lemma RequestedAll(c: Capture)
    ensures forall a :: a in c.dispatch ==> Requested(c, a, DispatchEntry)
    ensures forall a :: a in c.entries ==> Requested(c, a, FunctionPointerTarget)
    ensures forall a :: a in c.toml ==> Requested(c, a, TomlDeclaredEntry)
    ensures c.legacyMode ==> forall a :: a in LegacyCallable(c) ==> Requested(c, a, FunctionPointerTarget)
  {
    hide InRegion, Callable;
  }

  lemma AllProcessed(c: Capture, p: Progress, caps: map<int, int>)
    requires Inv(c, p, caps) && p.pending == []
    ensures p.known == Roots(p.v.included) == p.processed == caps.Keys
    ensures Justified(c, p.v, caps) && CallsClosed(c.img, p, caps)
  {
    hide Justified, Roots, OverlayWalk.DirectJals, Cap;
    forall x | x in p.known ensures x in p.processed { assert x in p.processed || x in p.pending; }
  }

  // ---- Consequences ----

  /** Outside the kernel window nothing is ever promoted. */
  lemma NoPromotionOutsideKernel(c: Capture, v: Verdicts, caps: map<int, int>, a: int)
    requires Justified(c, v, caps) && !Kernel(c.img) && a in v.included
    ensures v.included[a] != DispatchRoot
  {
    hide InRegion, Callable, ValidAt, Kernel, OverlayWalk.DirectJals;
  }

  /** Where shared delay slots are plain words behind branches or calls the roots are closed under the calls
      of their final walks too: each root, walked up to the next root, calls only roots. */
  lemma FinalCallsClosed(c: Capture, roots: set<int>, caps: map<int, int>, r: int)
    requires r in roots && r in caps && Cap(c.img, roots, r) <= caps[r]
    requires OverlayWalk.DirectJals(OverlayWalk.Window(c.img, r, caps[r])) <= roots
    requires OverlayWalk.PlainSlots(OverlayWalk.Window(c.img, r, caps[r]))
    ensures OverlayWalk.DirectJals(WindowOf(c.img, roots, r)) <= roots
  {
    hide Cap, OverlayWalk.DirectJals, OverlayWalk.PlainSlots, OverlayWalk.Visited;
    OverlayWalk.WalkMonotone(WindowOf(c.img, roots, r), OverlayWalk.Window(c.img, r, caps[r]));
  }
}
