/** The worklist exploration shared by the code walkers: pop an address, drop it when it was
    already visited or lies outside the window, otherwise mark it together with its delay slot
    and push its successors. Delay slots are marked but never expanded.

    The laws are proved for every scheduling of the worklist, so the first-in-first-out walker
    of the overlay tool and the last-in-first-out walkers of the audits are two instances. */
module Worklist {

  /** `live` are the addresses whose word can be fetched inside the window. Successor lists may
      also name addresses that are not live; those are dropped when popped. */
  datatype Graph = Graph(entry: int, live: set<int>, succ: map<int, seq<int>>, slots: map<int, set<int>>)
  {
    ghost predicate Valid() {
      succ.Keys == live && slots.Keys == live
    }
  }

  /** `expanded` records which visited addresses were popped, as opposed to merely marked as
      the delay slot of a popped one. */
  datatype State = State(work: seq<int>, visited: set<int>, expanded: set<int>)

  function Init(g: Graph): State {
    State([g.entry], {}, {})
  }

  function Pop(g: Graph, s: State, i: nat): State
    requires g.Valid() && i < |s.work|
  {
    var pc := s.work[i];
    var rest := s.work[..i] + s.work[i + 1..];
    if pc in s.visited || pc !in g.live then
      s.(work := rest)
    else
      State(rest + g.succ[pc], s.visited + {pc} + g.slots[pc], s.expanded + {pc})
  }

  function Next(lifo: bool, s: State): nat
    requires s.work != []
  {
    if lifo then |s.work| - 1 else 0
  }

  /** The deterministic walk: a queue when `lifo` is false, a stack when it is true. */
  ghost function Finish(g: Graph, s: State, lifo: bool): State
    requires g.Valid()
    decreases g.live - s.visited, |s.work|
  {
    if s.work == [] then s
    else
      assert PopDecreases(g, s, Next(lifo, s)) by { PopProgress(g, s, Next(lifo, s)); }
      Finish(g, Pop(g, s, Next(lifo, s)), lifo)
  }

  ghost predicate PopDecreases(g: Graph, s: State, i: nat)
    requires g.Valid() && i < |s.work|
  {
    var t := Pop(g, s, i);
    || g.live - t.visited < g.live - s.visited
    || (g.live - t.visited == g.live - s.visited && |t.work| < |s.work|)
  }

  lemma PopProgress(g: Graph, s: State, i: nat)
    requires g.Valid() && i < |s.work|
    ensures PopDecreases(g, s, i)
  {
    var t := Pop(g, s, i);
    var pc := s.work[i];
    if !(pc in s.visited || pc !in g.live) {
      assert pc in g.live - s.visited && pc !in g.live - t.visited;
    }
  }

  // ---- Reference: reachability by paths ----

  ghost predicate ReachIn(g: Graph, a: int, n: nat)
    requires g.Valid()
    decreases n
  {
    a in g.live &&
    if n == 0 then a == g.entry
    else exists b :: b in g.live && ReachIn(g, b, n - 1) && a in g.succ[b]
  }

  ghost predicate Reachable(g: Graph, a: int)
    requires g.Valid()
  {
    exists n: nat :: ReachIn(g, a, n)
  }

  ghost function Reach(g: Graph): set<int>
    requires g.Valid()
  {
    set a | a in g.live && Reachable(g, a)
  }

  /** Everything that `f` gives for the members of `xs`. */
  ghost function Gather(f: map<int, set<int>>, xs: set<int>): set<int> {
    set a, t | a in xs && a in f && t in f[a] :: t
  }

  lemma GatherAdd(f: map<int, set<int>>, xs: set<int>, a: int)
    requires a in f
    ensures Gather(f, xs + {a}) == Gather(f, xs) + f[a]
  {
    forall t | t in Gather(f, xs) + f[a] ensures t in Gather(f, xs + {a}) {
      if t in f[a] {
        assert a in xs + {a};
      } else {
        var b :| b in xs && b in f && t in f[b];
        assert b in xs + {a};
      }
    }
  }

  lemma GatherNothing(f: map<int, set<int>>)
    ensures Gather(f, {}) == {}
  {
  }

  ghost function SlotsOf(g: Graph, xs: set<int>): set<int>
    requires g.Valid()
  {
    Gather(g.slots, xs)
  }

  /** What an exact walk reports: the reachable words and the delay slots of reachable words. */
  ghost function Footprint(g: Graph): set<int>
    requires g.Valid()
  {
    Reach(g) + SlotsOf(g, Reach(g))
  }

  /** No reachable word is the delay slot of a reachable word. */
  ghost predicate Clean(g: Graph)
    requires g.Valid()
  {
    Reach(g) !! SlotsOf(g, Reach(g))
  }

  lemma ReachStep(g: Graph, a: int, b: int)
    requires g.Valid() && a in Reach(g) && b in g.succ[a] && b in g.live
    ensures b in Reach(g)
  {
    var n: nat :| ReachIn(g, a, n);
    assert ReachIn(g, b, n + 1);
  }

  lemma ReachEntry(g: Graph)
    requires g.Valid() && g.entry in g.live
    ensures g.entry in Reach(g)
  {
    assert ReachIn(g, g.entry, 0);
  }

  /** Reach is the least set that holds the entry and is closed under live successors. */
  lemma ReachLeast(g: Graph, S: set<int>)
    requires g.Valid()
    requires g.entry in g.live ==> g.entry in S
    requires forall a, b :: a in S && a in g.live && b in g.succ[a] && b in g.live ==> b in S
    ensures Reach(g) <= S
  {
    forall a | a in Reach(g) ensures a in S {
      var n: nat :| ReachIn(g, a, n);
      ReachInWithin(g, a, n, S);
    }
  }

  lemma {:induction false} ReachInWithin(g: Graph, a: int, n: nat, S: set<int>)
    requires g.Valid() && ReachIn(g, a, n)
    requires g.entry in g.live ==> g.entry in S
    requires forall a, b :: a in S && a in g.live && b in g.succ[a] && b in g.live ==> b in S
    ensures a in S
    decreases n
  {
    if n > 0 {
      var b :| b in g.live && ReachIn(g, b, n - 1) && a in g.succ[b];
      ReachInWithin(g, b, n - 1, S);
    }
  }

  // ---- The invariant of every scheduling ----

  /** Every expanded word is reachable, and so is every live word still waiting. */
  ghost predicate Justified(g: Graph, s: State)
    requires g.Valid()
  {
    && s.expanded <= Reach(g)
    && forall w :: w in s.work && w in g.live ==> w in Reach(g)
  }

  /** Each live successor of an expanded word was visited or is waiting. */
  ghost predicate Followed(g: Graph, s: State)
    requires g.Valid()
  {
    forall a, b :: a in s.expanded && a in g.live && b in g.succ[a] && b in g.live ==> b in s.visited || b in s.work
  }

  /** Exactly the expanded words and their delay slots are marked. */
  ghost predicate Marked(g: Graph, s: State)
    requires g.Valid()
  {
    s.visited == s.expanded + SlotsOf(g, s.expanded)
  }

  ghost predicate Entered(g: Graph, s: State) {
    g.entry in g.live ==> g.entry in s.expanded || (s.work == [g.entry] && s.visited == {})
  }

  ghost predicate Inv(g: Graph, s: State)
    requires g.Valid()
  {
    Justified(g, s) && Followed(g, s) && Marked(g, s) && Entered(g, s)
  }

  lemma InitInv(g: Graph)
    requires g.Valid()
    ensures Inv(g, Init(g))
  {
    if g.entry in g.live { ReachEntry(g); }
  }

  lemma PopRest(s: State, i: nat, w: int)
    requires i < |s.work|
    ensures w in s.work <==> w == s.work[i] || w in s.work[..i] + s.work[i + 1..]
  {
    assert s.work == s.work[..i] + [s.work[i]] + s.work[i + 1..];
  }

  lemma PopJustified(g: Graph, s: State, i: nat)
    requires g.Valid() && i < |s.work| && Justified(g, s)
    ensures Justified(g, Pop(g, s, i))
  {
    var t := Pop(g, s, i);
    var pc := s.work[i];
    forall w | w in t.work && w in g.live ensures w in Reach(g) {
      PopRest(s, i, w);
      if w !in s.work { ReachStep(g, pc, w); }
    }
  }

  lemma PopFollowed(g: Graph, s: State, i: nat)
    requires g.Valid() && i < |s.work| && Followed(g, s)
    ensures Followed(g, Pop(g, s, i))
  {
    var t := Pop(g, s, i);
    forall a, b | a in t.expanded && a in g.live && b in g.succ[a] && b in g.live
        ensures b in t.visited || b in t.work {
      PopRest(s, i, b);
      if a in s.expanded { assert b in s.visited || b in s.work; }
    }
  }

  lemma PopMarked(g: Graph, s: State, i: nat)
    requires g.Valid() && i < |s.work| && Marked(g, s)
    ensures Marked(g, Pop(g, s, i))
  {
    var t := Pop(g, s, i);
    if t.expanded != s.expanded {
      GatherAdd(g.slots, s.expanded, s.work[i]);
    }
  }

  lemma PopEntered(g: Graph, s: State, i: nat)
    requires g.Valid() && i < |s.work| && Entered(g, s)
    ensures Entered(g, Pop(g, s, i))
  {
  }

  lemma PopInv(g: Graph, s: State, i: nat)
    requires g.Valid() && i < |s.work| && Inv(g, s)
    ensures Inv(g, Pop(g, s, i))
  {
    PopJustified(g, s, i);
    PopFollowed(g, s, i);
    PopMarked(g, s, i);
    PopEntered(g, s, i);
  }

  /** One possible run: every transition pops some element of the worklist. */
  ghost predicate IsRun(g: Graph, run: seq<State>)
    requires g.Valid()
  {
    && |run| > 0 && run[0] == Init(g)
    && forall k :: 0 <= k < |run| - 1 ==> CanPop(g, run[k], run[k + 1])
  }

  ghost predicate CanPop(g: Graph, s: State, t: State)
    requires g.Valid()
  {
    exists i: nat :: i < |s.work| && t == Pop(g, s, i)
  }

  lemma {:induction false} RunInv(g: Graph, run: seq<State>)
    requires g.Valid() && IsRun(g, run)
    ensures Inv(g, run[|run| - 1])
    decreases |run|
  {
    var last := |run| - 1;
    if last == 0 {
      InitInv(g);
    } else {
      RunInv(g, run[..last]);
      assert CanPop(g, run[last - 1], run[last]);
      var i: nat :| i < |run[last - 1].work| && run[last] == Pop(g, run[last - 1], i);
      PopInv(g, run[last - 1], i);
    }
  }

  /** How many words a step can still push: each unvisited live word pushes its successors once. */
  ghost function Remaining(g: Graph, left: set<int>): nat
    requires g.Valid() && left <= g.live
    decreases left
  {
    if left == {} then 0
    else
      assert (forall x :: x !in left) ==> left == {};
      var x :| x in left;
      |g.succ[x]| + Remaining(g, left - {x})
  }

  lemma {:induction false} RemainingWithout(g: Graph, left: set<int>, x: int)
    requires g.Valid() && left <= g.live && x in left
    ensures Remaining(g, left) == |g.succ[x]| + Remaining(g, left - {x})
    decreases left
  {
    assert (forall k :: k !in left) ==> left == {};
    var y :| y in left && Remaining(g, left) == |g.succ[y]| + Remaining(g, left - {y});
    if x != y {
      RemainingWithout(g, left - {y}, x);
      RemainingWithout(g, left - {x}, y);
      assert left - {y} - {x} == left - {x} - {y};
    }
  }

  lemma {:induction false} RemainingLess(g: Graph, part: set<int>, whole: set<int>)
    requires g.Valid() && part <= whole <= g.live
    ensures Remaining(g, part) <= Remaining(g, whole)
    decreases whole
  {
    if part != whole {
      assert (forall x :: x in whole ==> x in part) ==> part == whole;
      var x :| x in whole && x !in part;
      RemainingWithout(g, whole, x);
      RemainingLess(g, part, whole - {x});
    }
  }

  /** What is waiting and what can still be pushed; every pop takes one away. */
  ghost function Potential(g: Graph, s: State): nat
    requires g.Valid()
  {
    |s.work| + Remaining(g, g.live - s.visited)
  }

  lemma PopSpends(g: Graph, s: State, i: nat)
    requires g.Valid() && i < |s.work|
    ensures Potential(g, Pop(g, s, i)) < Potential(g, s)
  {
    var pc, t := s.work[i], Pop(g, s, i);
    var before, after := g.live - s.visited, g.live - t.visited;
    if pc in before {
      RemainingWithout(g, before, pc);
      RemainingLess(g, after, before - {pc});
    }
  }

  /** Every run, in whatever order it pops, has at most 1 + 1 + (all successors) states. */
  lemma {:induction false} RunBound(g: Graph, run: seq<State>)
    requires g.Valid() && IsRun(g, run)
    ensures |run| + Potential(g, run[|run| - 1]) <= 2 + Remaining(g, g.live)
    decreases |run|
  {
    hide Potential;
    var last := |run| - 1;
    if last == 0 {
      StartPotential(g);
    } else {
      RunBound(g, run[..last]);
      assert CanPop(g, run[last - 1], run[last]);
      var i: nat :| i < |run[last - 1].work| && run[last] == Pop(g, run[last - 1], i);
      PopSpends(g, run[last - 1], i);
    }
  }

  lemma StartPotential(g: Graph)
    requires g.Valid()
    ensures Potential(g, Init(g)) == 1 + Remaining(g, g.live)
  {
    assert g.live - {} == g.live;
  }

  lemma {:induction false} FinishInv(g: Graph, s: State, lifo: bool)
    requires g.Valid() && Inv(g, s)
    ensures Inv(g, Finish(g, s, lifo)) && Finish(g, s, lifo).work == []
    decreases g.live - s.visited, |s.work|
  {
    if s.work != [] {
      PopProgress(g, s, Next(lifo, s));
      PopInv(g, s, Next(lifo, s));
      FinishInv(g, Pop(g, s, Next(lifo, s)), lifo);
    }
  }

  lemma SlotsMonotone(g: Graph, xs: set<int>, ys: set<int>)
    requires g.Valid() && xs <= ys
    ensures SlotsOf(g, xs) <= SlotsOf(g, ys)
  {
    forall d | d in SlotsOf(g, xs) ensures d in SlotsOf(g, ys) {
      var a :| a in xs && a in g.live && d in g.slots[a];
      assert a in ys;
    }
  }

  // ---- What a finished walk reports ----

  /** On every graph a finished walk reports reachable words and their delay slots only, holds
      the entry, and holds the delay slots and live successors of every word it expanded. */
  lemma WalkSound(g: Graph, s: State)
    requires g.Valid() && Inv(g, s) && s.work == []
    ensures s.visited <= Footprint(g)
    ensures g.entry in g.live ==> g.entry in s.visited
    ensures forall a, b :: a in s.expanded && b in g.succ[a] && b in g.live ==> b in s.visited
  {
    hide Footprint, SlotsOf, Reach;
    ReachLive(g);
    SoundBound(g, s);
    SoundFollows(g, s);
  }

  lemma ReachLive(g: Graph)
    requires g.Valid()
    ensures Reach(g) <= g.live
  {
  }

  lemma SoundBound(g: Graph, s: State)
    requires g.Valid() && Justified(g, s) && Marked(g, s)
    ensures s.visited <= Footprint(g)
  {
    hide Reach, Gather;
    SlotsMonotone(g, s.expanded, Reach(g));
  }

  lemma SoundFollows(g: Graph, s: State)
    requires g.Valid() && s.expanded <= g.live && Followed(g, s) && s.work == []
    ensures forall a, b :: a in s.expanded && b in g.succ[a] && b in g.live ==> b in s.visited
  {
  }

  lemma VisitedOrigin(g: Graph, s: State, a: int)
    requires g.Valid() && Inv(g, s) && a in s.visited
    ensures a in g.live || exists b :: b in g.live && a in g.slots[b]
  {
    if a !in s.expanded { assert a in Gather(g.slots, s.expanded); }
  }

  /** On delay-slot-clean code a finished walk is exact, whatever the scheduling. */
  lemma WalkExactWhenClean(g: Graph, s: State)
    requires g.Valid() && Inv(g, s) && s.work == [] && Clean(g)
    ensures s.expanded == Reach(g) && s.visited == Footprint(g)
  {
    WalkSound(g, s);
    forall a, b | a in s.expanded && a in g.live && b in g.succ[a] && b in g.live ensures b in s.expanded {
      ReachStep(g, a, b);
      SlotsMonotone(g, s.expanded, Reach(g));
    }
    ReachLeast(g, s.expanded);
  }

  /** The words a walk wrongly skips: reachable, yet only marked as somebody's delay slot. */
  ghost function Skipped(g: Graph, s: State): set<int>
    requires g.Valid()
  {
    Reach(g) * (s.visited - s.expanded)
  }

  ghost predicate Harmless(g: Graph, s: State, a: int)
    requires g.Valid() && a in g.live
  {
    g.slots[a] <= s.visited && forall b :: b in g.succ[a] && b in g.live ==> b in s.visited
  }

  ghost predicate AllHarmless(g: Graph, s: State)
    requires g.Valid()
  {
    forall a :: a in Skipped(g, s) ==> Harmless(g, s, a)
  }

  /** Exactness in general: a finished walk is exact if and only if everything that follows
      each skipped word was visited for another reason. */
  lemma WalkExactIff(g: Graph, s: State)
    requires g.Valid() && Inv(g, s) && s.work == []
    ensures s.visited == Footprint(g) <==> AllHarmless(g, s)
  {
    if s.visited == Footprint(g) {
      ExactIsHarmless(g, s);
    }
    if AllHarmless(g, s) {
      WalkSound(g, s);
      HarmlessCoversReach(g, s);
      HarmlessCoversSlots(g, s);
    }
  }

  lemma ExactIsHarmless(g: Graph, s: State)
    requires g.Valid() && s.visited == Footprint(g)
    ensures AllHarmless(g, s)
  {
    forall a | a in Skipped(g, s) ensures Harmless(g, s, a) {
      GatherAdd(g.slots, Reach(g), a);
      assert Reach(g) + {a} == Reach(g);
      forall b | b in g.succ[a] && b in g.live ensures b in s.visited { ReachStep(g, a, b); }
    }
  }

  lemma HarmlessCoversReach(g: Graph, s: State)
    requires g.Valid() && Inv(g, s) && s.work == []
    requires AllHarmless(g, s)
    ensures Reach(g) <= s.visited
  {
    WalkSound(g, s);
    var S := Reach(g) * s.visited;
    forall a, b | a in S && a in g.live && b in g.succ[a] && b in g.live ensures b in S {
      ReachStep(g, a, b);
      if a !in s.expanded { assert a in Skipped(g, s); }
    }
    if g.entry in g.live { ReachEntry(g); }
    ReachLeast(g, S);
  }

  lemma HarmlessCoversSlots(g: Graph, s: State)
    requires g.Valid() && Inv(g, s) && s.work == [] && Reach(g) <= s.visited
    requires AllHarmless(g, s)
    ensures SlotsOf(g, Reach(g)) <= s.visited
  {
    forall d | d in SlotsOf(g, Reach(g)) ensures d in s.visited {
      var a :| a in Reach(g) && a in g.live && d in g.slots[a];
      if a !in s.expanded { assert a in Skipped(g, s); }
    }
  }

  /** Every reachable delay slot that is reachable in its own right adds nothing to the word it belongs to:
      that word has its slots and its live successors too. */
  ghost predicate Covering(g: Graph)
    requires g.Valid()
  {
    forall a, b :: a in Reach(g) && b in Reach(g) && a in g.slots[b] ==> Adds(g, a, b)
  }

  ghost predicate Adds(g: Graph, a: int, b: int)
    requires g.Valid() && a in g.live && b in g.live
  {
    g.slots[a] <= g.slots[b] && forall x :: x in g.succ[a] && x in g.live ==> x in g.succ[b]
  }

  lemma CleanCovers(g: Graph)
    requires g.Valid() && Clean(g)
    ensures Covering(g)
  {
    SlotsListed(g);
  }

  lemma SlotsListed(g: Graph)
    requires g.Valid()
    ensures forall a, b :: b in Reach(g) && a in g.slots[b] ==> a in SlotsOf(g, Reach(g))
  {
    forall a, b | b in Reach(g) && a in g.slots[b] ensures a in SlotsOf(g, Reach(g)) {
      assert b in g.slots;
    }
  }

  lemma SkippedOwner(g: Graph, s: State, a: int) returns (b: int)
    requires g.Valid() && Inv(g, s) && a in Skipped(g, s)
    ensures b in s.expanded && b in Reach(g) && a in g.slots[b]
  {
    assert a in Gather(g.slots, s.expanded);
    b :| b in s.expanded && b in g.slots && a in g.slots[b];
  }

  /** A condition on the graph alone: on covering graphs a finished walk is exact, whatever the scheduling. */
  lemma WalkExactWhenCovered(g: Graph, s: State)
    requires g.Valid() && Inv(g, s) && s.work == [] && Covering(g)
    ensures s.visited == Footprint(g)
  {
    forall a | a in Skipped(g, s) ensures Harmless(g, s, a) {
      var b := SkippedOwner(g, s, a);
      SkippedHarmless(g, s, a, b);
    }
    WalkExactIff(g, s);
  }

  lemma SkippedHarmless(g: Graph, s: State, a: int, b: int)
    requires g.Valid() && Inv(g, s) && s.work == [] && a in g.live
    requires b in s.expanded && b in Reach(g) && Adds(g, a, b)
    ensures Harmless(g, s, a)
  {
    GatherAdd(g.slots, s.expanded, b);
    assert s.expanded + {b} == s.expanded;
  }

  /** Any two complete runs on a covering graph report the same words. */
  lemma RunsAgree(g: Graph, a: seq<State>, b: seq<State>)
    requires g.Valid() && Covering(g) && IsRun(g, a) && IsRun(g, b)
    requires a[|a| - 1].work == [] && b[|b| - 1].work == []
    ensures a[|a| - 1].visited == b[|b| - 1].visited == Footprint(g)
  {
    hide Inv, Covering, Footprint;
    RunInv(g, a);
    RunInv(g, b);
    WalkExactWhenCovered(g, a[|a| - 1]);
    WalkExactWhenCovered(g, b[|b| - 1]);
  }

  // ---- Comparing graphs ----

  /** `g` is a part of `h`: same entry, and each live word of `g` behaves in `h` at least as in `g`. */
  ghost predicate Within(g: Graph, h: Graph)
    requires g.Valid() && h.Valid()
  {
    && g.entry == h.entry && g.live <= h.live
    && (forall a, b :: a in g.live && b in g.succ[a] && b in g.live ==> b in h.succ[a])
    && (forall a :: a in g.live ==> g.slots[a] <= h.slots[a])
  }

  lemma WithinReach(g: Graph, h: Graph)
    requires g.Valid() && h.Valid() && Within(g, h)
    ensures Reach(g) <= Reach(h) && Footprint(g) <= Footprint(h)
    ensures Clean(h) ==> Clean(g)
  {
    if g.entry in g.live { ReachEntry(h); }
    forall a, b | a in Reach(h) && a in g.live && b in g.succ[a] && b in g.live ensures b in Reach(h) {
      ReachStep(h, a, b);
    }
    ReachLeast(g, Reach(h));
    forall d | d in SlotsOf(g, Reach(g)) ensures d in SlotsOf(h, Reach(h)) {
      var a :| a in Reach(g) && a in g.live && d in g.slots[a];
    }
  }

  /** The same graph, with the successors of each word pushed in any order and any number of times. */
  ghost predicate Reordered(g: Graph, h: Graph)
    requires g.Valid() && h.Valid()
  {
    && g.entry == h.entry && g.live == h.live && g.slots == h.slots
    && forall a, b :: a in g.live ==> (b in g.succ[a] <==> b in h.succ[a])
  }

  lemma ReorderedReach(g: Graph, h: Graph)
    requires g.Valid() && h.Valid() && Reordered(g, h)
    ensures Reach(g) == Reach(h) && Footprint(g) == Footprint(h)
  {
    hide Reach, Footprint;
    WithinReach(g, h);
    WithinReach(h, g);
  }

  lemma ReorderedCovers(g: Graph, h: Graph)
    requires g.Valid() && h.Valid() && Reordered(g, h) && Reach(g) == Reach(h) && Covering(g)
    ensures Covering(h)
  {
    ReachLive(g);
    hide Reach;
    forall a, b | a in Reach(h) && b in Reach(h) && a in h.slots[b] ensures Adds(h, a, b) {
      assert Adds(g, a, b);
    }
  }

  // ---- A graph on which exactness fails ----

  /** A jump over its own delay slot d, and a branch back to d; only d leads to x. */
  ghost predicate SharedSlot(g: Graph, d: int, b: int, x: int)
    requires g.Valid()
  {
    && {g.entry, d, b, x} <= g.live && g.entry != d && g.entry != b && d != b
    && g.succ[g.entry] == [b] && g.slots[g.entry] == {d}
    && g.succ[b] == [d] && g.succ[d] == [x]
    && x != g.entry && x != d && x != b && x !in g.slots[b]
  }

  lemma SharedSlotReached(g: Graph, d: int, b: int, x: int)
    requires g.Valid() && SharedSlot(g, d, b, x)
    ensures x in Reach(g)
  {
    hide Reach;
    ReachEntry(g);
    ReachStep(g, g.entry, b);
    ReachStep(g, b, d);
    ReachStep(g, d, x);
  }

  /** The queue walk ends without x: d was marked before it was popped, so it is dropped. */
  lemma SharedSlotDropped(g: Graph, d: int, b: int, x: int)
    requires g.Valid() && SharedSlot(g, d, b, x)
    ensures x !in Finish(g, Init(g), false).visited
  {
    var s1 := State([b], {g.entry, d}, {g.entry});
    var s2 := State([d], {g.entry, d, b} + g.slots[b], {g.entry, b});
    FinishPop(g, Init(g), s1);
    FinishPop(g, s1, s2);
    FinishPop(g, s2, s2.(work := []));
  }

  lemma FinishPop(g: Graph, s: State, t: State)
    requires g.Valid() && s.work != [] && t.work == Pop(g, s, 0).work
    requires t.visited == Pop(g, s, 0).visited && t.expanded == Pop(g, s, 0).expanded
    ensures Finish(g, s, false) == Finish(g, t, false)
  {
    assert t == Pop(g, s, 0);
  }
}
