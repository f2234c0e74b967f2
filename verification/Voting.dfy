/** Inferring an overlay's load address: every reference votes for the bases that land it on a
    function prologue, and a base is accepted only on clear and consistent evidence. */
module Voting {
  import opened Mips
  import Sorting

  const RAM_HI := 0x8020_0000
  const MIN_VOTES := 16

  // ---- What is counted ----

  /** The references that base b lands on one of the prologue offsets. */
  function Landed(refs: multiset<int>, ps: seq<int>, b: int): nat {
    if ps == [] then 0 else Landed(refs, ps[..|ps| - 1], b) + refs[b + ps[|ps| - 1]]
  }

  predicate Possible(b: int, ramLo: int) { ramLo <= b < RAM_HI }

  function Votes(refs: multiset<int>, ps: seq<int>, ramLo: int, b: int): nat {
    if Possible(b, ramLo) then Landed(refs, ps, b) else 0
  }

  function CountLanding(targets: seq<int>, ps: seq<int>, b: int): nat {
    if targets == [] then 0
    else CountLanding(targets[1..], ps, b) + if targets[0] - b in ps then 1 else 0
  }

  lemma {:induction false} LandedSum(x: multiset<int>, y: multiset<int>, ps: seq<int>, b: int)
    ensures Landed(x + y, ps, b) == Landed(x, ps, b) + Landed(y, ps, b)
  {
    if ps != [] {
      LandedSum(x, y, ps[..|ps| - 1], b);
    }
  }

  lemma {:induction false} LandedOne(t: int, ps: seq<int>, b: int)
    requires Sorting.Distinct(ps)
    ensures Landed(multiset{t}, ps, b) == if t - b in ps then 1 else 0
  {
    if ps != [] {
      var rest := ps[..|ps| - 1];
      assert ps == rest + [ps[|ps| - 1]];
      LandedOne(t, rest, b);
    }
  }

  lemma {:induction false} LandedNone(ps: seq<int>, b: int)
    ensures Landed(multiset{}, ps, b) == 0
  {
    if ps != [] {
      LandedNone(ps[..|ps| - 1], b);
    }
  }

  /** The votes of a base are exactly the references of the list that land on a prologue. */
  lemma {:induction false} LandedCounts(targets: seq<int>, ps: seq<int>, b: int)
    requires Sorting.Distinct(ps)
    ensures Landed(multiset(targets), ps, b) == CountLanding(targets, ps, b)
  {
    if targets == [] {
      LandedNone(ps, b);
    } else {
      assert targets == [targets[0]] + targets[1..];
      LandedSum(multiset{targets[0]}, multiset(targets[1..]), ps, b);
      LandedOne(targets[0], ps, b);
      LandedCounts(targets[1..], ps, b);
    }
  }

  // ---- The outcome of a vote ----

  datatype Vote = Vote(base: Option<int>, votes: nat, runner: nat)

  /** The winner has the most votes, and the runner-up the most among the others. */
  ghost predicate Outcome(refs: multiset<int>, ps: seq<int>, ramLo: int, v: Vote) {
    && (v.base.None? ==> v.votes == v.runner == 0 && forall b :: Votes(refs, ps, ramLo, b) == 0)
    && (v.base.Some? ==>
          && v.votes == Votes(refs, ps, ramLo, v.base.value) > 0
          && v.runner <= v.votes
          && (forall b :: b != v.base.value ==> Votes(refs, ps, ramLo, b) <= v.runner)
          && (v.runner > 0 ==> exists b :: b != v.base.value && Votes(refs, ps, ramLo, b) == v.runner))
  }

  /** Enough votes, and half as many again as the runner-up. */
  predicate Clear(v: Vote) { v.base.Some? && v.votes >= MIN_VOTES && 2 * v.votes >= 3 * v.runner }

  /** The counts of a vote are determined by the references alone, and so is a clear winner: neither
      depends on how ties are broken. */
  lemma OutcomeUnique(refs: multiset<int>, ps: seq<int>, ramLo: int, v: Vote, u: Vote)
    requires Outcome(refs, ps, ramLo, v) && Outcome(refs, ps, ramLo, u)
    ensures v.votes == u.votes && v.runner == u.runner
    ensures Clear(v) || Clear(u) ==> v == u
  {
    hide Votes;
    if v.base.Some? {
      assert Votes(refs, ps, ramLo, v.base.value) > 0;
    }
    if u.base.Some? {
      assert Votes(refs, ps, ramLo, u.base.value) > 0;
    }
  }

  /** An accepted base strictly beats every other base. */
  lemma ClearBeatsAll(refs: multiset<int>, ps: seq<int>, ramLo: int, v: Vote, b: int)
    requires Outcome(refs, ps, ramLo, v) && Clear(v) && b != v.base.value
    ensures Votes(refs, ps, ramLo, b) < Votes(refs, ps, ramLo, v.base.value)
  {
    hide Votes;
  }

  lemma VotesSum(x: multiset<int>, y: multiset<int>, ps: seq<int>, ramLo: int, b: int)
    ensures Votes(x + y, ps, ramLo, b) == Votes(x, ps, ramLo, b) + Votes(y, ps, ramLo, b)
  {
    LandedSum(x, y, ps, b);
  }

  /** Two signals clear for one base make their sum clear for it. */
  lemma SumClear(x: multiset<int>, y: multiset<int>, ps: seq<int>, ramLo: int, v: Vote, u: Vote, both: Vote)
    requires Outcome(x, ps, ramLo, v) && Outcome(y, ps, ramLo, u) && Outcome(x + y, ps, ramLo, both)
    requires Clear(v) && Clear(u) && v.base == u.base
    ensures Clear(both) && both.base == v.base
  {
    hide Votes;
    var base := v.base.value;
    forall b ensures Votes(x + y, ps, ramLo, b) == Votes(x, ps, ramLo, b) + Votes(y, ps, ramLo, b) {
      VotesSum(x, y, ps, ramLo, b);
    }
    assert both.base.Some?;
  }

  // ---- Counting the votes ----

  /** A counter that remembers the order in which its keys first appeared. */
  datatype Counter = Counter(counts: map<int, nat>, order: seq<int>)
  {
    ghost predicate Valid() {
      && (forall b :: b in order <==> b in counts)
      && (forall b :: b in counts ==> counts[b] > 0)
    }

    function Of(b: int): nat { if b in counts then counts[b] else 0 }

    function Add(b: int, n: nat): Counter {
      Counter(counts[b := Of(b) + n], if b in counts then order else order + [b])
    }
  }

  ghost predicate Tallies(c: Counter, refs: multiset<int>, ps: seq<int>, ramLo: int, t: int, n: nat, part: seq<int>) {
    c.Valid() && forall b :: c.Of(b) == if Possible(b, ramLo)
        then Landed(refs, ps, b) + n * Landed(multiset{t}, part, b) else 0
  }

  ghost predicate Counted(c: Counter, refs: multiset<int>, ps: seq<int>, ramLo: int) {
    c.Valid() && forall b :: c.Of(b) == Votes(refs, ps, ramLo, b)
  }

  /** The votes of one reference target, which occurs n times. */
  method CountTarget(before: Counter, ghost refs: multiset<int>, t: int, n: nat, ps: seq<int>, ramLo: int)
    returns (c: Counter)
    requires n > 0 && refs[t] == 0 && Counted(before, refs, ps, ramLo)
    ensures Counted(c, refs[t := n], ps, ramLo)
  {
    hide Tallies, Counted;
    c := before;
    TargetStart(c, refs, t, n, ps, ramLo);
    for j := 0 to |ps|
      invariant Tallies(c, refs, ps, ramLo, t, n, ps[..j])
    {
      var base := t - ps[j];
      TallyStep(c, refs, ps, ramLo, t, n, j);
      if ramLo <= base < RAM_HI {
        c := c.Add(base, n);
      }
    }
    assert ps[..|ps|] == ps;
    TargetDone(c, refs, t, n, ps, ramLo);
  }

  lemma TallyStep(c: Counter, refs: multiset<int>, ps: seq<int>, ramLo: int, t: int, n: nat, j: nat)
    requires n > 0 && j < |ps| && Tallies(c, refs, ps, ramLo, t, n, ps[..j])
    ensures var base := t - ps[j];
            Tallies(if Possible(base, ramLo) then c.Add(base, n) else c, refs, ps, ramLo, t, n, ps[..j + 1])
  {
    hide Landed;
    var base := t - ps[j];
    var c' := if Possible(base, ramLo) then c.Add(base, n) else c;
    forall b ensures Landed(multiset{t}, ps[..j + 1], b) == Landed(multiset{t}, ps[..j], b) + if b == base then 1
        else 0 {
      LandedNext(t, ps, j, b);
    }
    forall b | Possible(b, ramLo)
      ensures c'.Of(b) == Landed(refs, ps, b) + n * Landed(multiset{t}, ps[..j + 1], b)
    {
      Distribute(n, Landed(multiset{t}, ps[..j], b), if b == base then 1 else 0);
    }
  }

  lemma Distribute(n: nat, x: nat, y: nat)
    ensures n * (x + y) == n * x + n * y
  {
  }

  lemma LandedNext(t: int, ps: seq<int>, j: nat, b: int)
    requires j < |ps|
    ensures Landed(multiset{t}, ps[..j + 1], b) == Landed(multiset{t}, ps[..j], b) + if b == t - ps[j] then 1 else 0
  {
    assert ps[..j + 1][..j] == ps[..j];
  }

  /** The references among the first k distinct targets. */
  ghost function Part(refs: multiset<int>, order: seq<int>, k: nat): multiset<int>
    requires k <= |order|
  {
    if k == 0 then multiset{} else Part(refs, order, k - 1)[order[k - 1] := refs[order[k - 1]]]
  }

  lemma {:induction false} PartIs(refs: multiset<int>, order: seq<int>, k: nat)
    requires k <= |order|
    ensures forall t :: Part(refs, order, k)[t] == if t in order[..k] then refs[t] else 0
  {
    if k > 0 {
      PartIs(refs, order, k - 1);
      assert order[..k] == order[..k - 1] + [order[k - 1]];
    }
  }

  lemma {:induction false} LandedTimes(x: multiset<int>, t: int, n: nat, ps: seq<int>, b: int)
    requires x[t] == 0
    ensures Landed(x[t := n], ps, b) == Landed(x, ps, b) + n * Landed(multiset{t}, ps, b)
  {
    if ps != [] {
      LandedTimes(x, t, n, ps[..|ps| - 1], b);
      var at := b + ps[|ps| - 1];
      Distribute(n, Landed(multiset{t}, ps[..|ps| - 1], b), multiset{t}[at]);
    }
  }

  lemma TargetStart(c: Counter, x: multiset<int>, t: int, n: nat, ps: seq<int>, ramLo: int)
    requires Counted(c, x, ps, ramLo)
    ensures Tallies(c, x, ps, ramLo, t, n, [])
  {
  }

  lemma TargetDone(c: Counter, x: multiset<int>, t: int, n: nat, ps: seq<int>, ramLo: int)
    requires x[t] == 0 && Tallies(c, x, ps, ramLo, t, n, ps)
    ensures Counted(c, x[t := n], ps, ramLo)
  {
    hide Landed;
    forall b ensures Landed(x[t := n], ps, b) == Landed(x, ps, b) + n * Landed(multiset{t}, ps, b) {
      LandedTimes(x, t, n, ps, b);
    }
  }

  /** One vote. `order` is the order in which the references are met; the result does not depend on it
      beyond the choice among equally good bases. */
  method CastVotes(refs: multiset<int>, order: seq<int>, ps: seq<int>, ramLo: int) returns (v: Vote)
    requires Lists(order, refs)
    ensures Outcome(refs, ps, ramLo, v)
  {
    hide Counted, Outcome;
    var c := Counter(map[], []);
    NothingCounted(ps, ramLo);
    for k := 0 to |order|
      invariant Counted(c, Part(refs, order, k), ps, ramLo)
    {
      var t := order[k];
      var n := refs[t];
      ghost var x := Part(refs, order, k);
      assert t in order;
      PartIs(refs, order, k);
      c := CountTarget(c, x, t, n, ps, ramLo);
    }
    PartIs(refs, order, |order|);
    assert order[..|order|] == order;
    assert forall t :: Part(refs, order, |order|)[t] == refs[t];
    CountedSame(c, Part(refs, order, |order|), refs, ps, ramLo);
    CountedIsValid(c, refs, ps, ramLo);
    v := TopTwo(c);
    TopTwoOutcome(c, refs, ps, ramLo, v);
  }

  lemma NothingCounted(ps: seq<int>, ramLo: int)
    ensures Counted(Counter(map[], []), multiset{}, ps, ramLo)
  {
    forall b ensures Landed(multiset{}, ps, b) == 0 {
      LandedNone(ps, b);
    }
  }

  lemma {:induction false} LandedSame(x: multiset<int>, y: multiset<int>, ps: seq<int>, b: int)
    requires forall t: int :: x[t] == y[t]
    ensures Landed(x, ps, b) == Landed(y, ps, b)
  {
    if ps != [] {
      LandedSame(x, y, ps[..|ps| - 1], b);
    }
  }

  lemma CountedSame(c: Counter, x: multiset<int>, y: multiset<int>, ps: seq<int>, ramLo: int)
    requires Counted(c, x, ps, ramLo) && forall t: int :: x[t] == y[t]
    ensures Counted(c, y, ps, ramLo)
  {
    hide Landed;
    forall b ensures Landed(x, ps, b) == Landed(y, ps, b) {
      LandedSame(x, y, ps, b);
    }
  }

  lemma CountedIsValid(c: Counter, refs: multiset<int>, ps: seq<int>, ramLo: int)
    requires Counted(c, refs, ps, ramLo)
    ensures c.Valid()
  {
  }

  ghost predicate Tops(c: Counter, v: Vote) {
    && (v.base.None? ==> c.order == [] && v.votes == v.runner == 0)
    && (v.base.Some? ==>
          && v.base.value in c.order && v.votes == c.Of(v.base.value) && v.runner <= v.votes
          && (forall b :: b in c.order && b != v.base.value ==> c.Of(b) <= v.runner)
          && (v.runner > 0 ==> exists b :: b in c.order && b != v.base.value && c.Of(b) == v.runner))
  }

  /** The most common key, the first of equals, and the count of the second most common. */
  method TopTwo(c: Counter) returns (v: Vote)
    requires c.Valid()
    ensures Tops(c, v)
  {
    if c.order == [] {
      return Vote(None, 0, 0);
    }
    var top := c.order[0];
    for i := 1 to |c.order|
      invariant top in c.order && forall j :: 0 <= j < i ==> c.Of(c.order[j]) <= c.Of(top)
    {
      if c.Of(top) < c.Of(c.order[i]) {
        top := c.order[i];
      }
    }
    var second: nat := 0;
    for i := 0 to |c.order|
      invariant forall j :: 0 <= j < i && c.order[j] != top ==> c.Of(c.order[j]) <= second
      invariant second > 0 ==> exists j :: 0 <= j < i && c.order[j] != top && c.Of(c.order[j]) == second
    {
      if c.order[i] != top && second < c.Of(c.order[i]) {
        second := c.Of(c.order[i]);
      }
    }
    if second > 0 {
      ghost var j :| 0 <= j < |c.order| && c.order[j] != top && c.Of(c.order[j]) == second;
      assert c.order[j] in c.order;
    }
    v := Vote(Some(top), c.Of(top), second);
  }

  lemma TopTwoOutcome(c: Counter, refs: multiset<int>, ps: seq<int>, ramLo: int, v: Vote)
    requires Counted(c, refs, ps, ramLo) && Tops(c, v)
    ensures Outcome(refs, ps, ramLo, v)
  {
    hide Votes;
    forall b ensures Votes(refs, ps, ramLo, b) == c.Of(b) && (Votes(refs, ps, ramLo, b) > 0 <==> b in c.order) {
    }
    if v.runner > 0 {
      var b :| b in c.order && b != v.base.value && c.Of(b) == v.runner;
      assert Votes(refs, ps, ramLo, b) == v.runner;
    }
  }

  // ---- Inferring the base ----

  /** The offsets of the words that open a stack frame. */
  function Prologues(ws: seq<Word>): seq<int> {
    if ws == [] then []
    else
      var n := |ws| - 1;
      Prologues(ws[..n]) + if ws[n] / 0x8000 == 0x4F7B then [4 * n] else []
  }

  function CallTargets(ws: seq<Word>): seq<int> {
    if ws == [] then []
    else (if ws[0] / 0x400_0000 == 3 then [ws[0] % 0x400_0000 * 4 + 0x8000_0000] else []) + CallTargets(ws[1..])
  }

  function Pointers(ws: seq<Word>, ramLo: int): seq<int> {
    if ws == [] then []
    else (if Possible(ws[0], ramLo) && ws[0] % 4 == 0 then [ws[0]] else []) + Pointers(ws[1..], ramLo)
  }

  lemma {:induction false} ProloguesDistinct(ws: seq<Word>)
    ensures Sorting.Distinct(Prologues(ws)) && forall p :: p in Prologues(ws) ==> 0 <= p < 4 * |ws|
  {
    if ws != [] {
      var before := Prologues(ws[..|ws| - 1]);
      ProloguesDistinct(ws[..|ws| - 1]);
      assert forall i :: 0 <= i < |before| ==> before[i] in before;
    }
  }

  // ---- What the lists hold ----

  /** How often a list has an element that satisfies a test. */
  function Count<T>(xs: seq<T>, test: T -> bool): nat {
    if xs == [] then 0 else (if test(xs[0]) then 1 else 0) + Count(xs[1..], test)
  }

  /** A word that, as an instruction at an address of the cached segment, calls t. */
  predicate Calls(w: Word, t: int) { Classify(0x8000_0000, w) == Call(t) }

  /** The place in the segment does not matter. */
  lemma CallsAnywhere(w: Word, t: int, pc: int)
    requires 0x8000_0000 <= pc < 0x8FFF_FFFC
    ensures Calls(w, t) <==> Classify(pc, w) == Call(t)
  {
    hide Opcode, Rs, Funct, BranchTarget;
    assert (pc + 4) / 0x1000_0000 == 8;
  }

  lemma CallTargetIs(w: Word, t: int)
    ensures Calls(w, t) <==> w / 0x400_0000 == 3 && w % 0x400_0000 * 4 + 0x8000_0000 == t
  {
    hide Rs, Funct, BranchTarget;
  }

  /** A target is counted once for every word of the image that calls it. */
  lemma {:induction false} CallsCounted(ws: seq<Word>, t: int)
    ensures multiset(CallTargets(ws))[t] == Count(ws, (w: Word) => Calls(w, t))
  {
    hide Calls;
    if ws != [] {
      var w := ws[0];
      CallTargetIs(w, t);
      CallsCounted(ws[1..], t);
      var head := if w / 0x400_0000 == 3 then [w % 0x400_0000 * 4 + 0x8000_0000] else [];
      assert CallTargets(ws) == head + CallTargets(ws[1..]);
      hide CallTargets;
      assert multiset(head)[t] == if Calls(w, t) then 1 else 0;
    }
  }

  /** A pointer is counted once for every word of the image that equals it, if it is aligned and possible. */
  lemma {:induction false} PointersCounted(ws: seq<Word>, ramLo: int, t: int)
    ensures multiset(Pointers(ws, ramLo))[t] ==
            if ramLo <= t < 0x8020_0000 && t % 4 == 0 then Count(ws, (w: Word) => w == t) else 0
  {
    if ws != [] {
      PointersCounted(ws[1..], ramLo, t);
    }
  }

  lemma PrologueIs(w: Word)
    ensures w / 0x8000 == 0x4F7B <==> IsAddiuSpNeg(w)
  {
    var a := w / 0x8000;
    var b := a / 2;
    assert b == w / 0x1_0000 && b / 32 == w / 0x20_0000 && b / 32 / 32 == w / 0x400_0000;
  }

  /** The prologues are the words that lower the stack pointer. */
  lemma {:induction false} ProloguesIff(ws: seq<Word>, k: nat)
    ensures 4 * k in Prologues(ws) <==> k < |ws| && IsAddiuSpNeg(ws[k])
    ensures forall p :: p in Prologues(ws) ==> p % 4 == 0
  {
    hide IsAddiuSpNeg;
    if ws != [] {
      var n := |ws| - 1;
      ProloguesIff(ws[..n], k);
      PrologueIs(ws[n]);
    }
  }

  /** The three signals of an image: calls, pointers and both together. */
  datatype Signals = Signals(jal: Vote, ptr: Vote, both: Vote)

  ghost predicate SignalsOf(ws: seq<Word>, ramLo: int, g: Signals) {
    var ps, jal, ptr := Prologues(ws), multiset(CallTargets(ws)), multiset(Pointers(ws, ramLo));
    Outcome(jal, ps, ramLo, g.jal) && Outcome(ptr, ps, ramLo, g.ptr) && Outcome(jal + ptr, ps, ramLo, g.both)
  }

  function ClearOnes(g: Signals): seq<Vote> {
    (if Clear(g.jal) then [g.jal] else []) + (if Clear(g.ptr) then [g.ptr] else []) +
        (if Clear(g.both) then [g.both] else [])
  }

  function Best(g: Signals): Vote {
    var first := if g.ptr.votes > g.jal.votes then g.ptr else g.jal;
    if g.both.votes > first.votes then g.both else first
  }

  /** The first clear signal, unless two of them name different bases. */
  function Decide(g: Signals): Vote {
    var clear := ClearOnes(g);
    if clear == [] || exists i, j :: 0 <= i < j < |clear| && clear[i].base != clear[j].base
    then Vote(None, Best(g).votes, Best(g).runner)
    else clear[0]
  }

  predicate IsClearSignal(g: Signals, v: Vote) { Clear(v) && (v == g.jal || v == g.ptr || v == g.both) }

  /** A base is accepted exactly if some signal is clear and all clear signals name that base. */
  lemma AcceptedIff(g: Signals, base: int)
    ensures Decide(g).base == Some(base) <==>
            (Clear(g.jal) || Clear(g.ptr) || Clear(g.both)) && forall v :: IsClearSignal(g, v) ==> v.base == Some(base)
  {
    var clear := ClearOnes(g);
    assert forall v :: v in clear <==> IsClearSignal(g, v);
    assert forall i :: 0 <= i < |clear| ==> clear[i] in clear;
    if clear != [] && forall v :: IsClearSignal(g, v) ==> v.base == Some(base) {
      assert IsClearSignal(g, clear[0]);
    }
    if Decide(g).base == Some(base) {
      forall v | IsClearSignal(g, v) ensures v.base == Some(base) {
        assert v in clear;
        var i :| 0 <= i < |clear| && clear[i] == v;
      }
    }
  }

  /** The whole answer depends only on the image: not on the order in which references are met, nor on
      how ties are broken. */
  lemma DecideUnique(ws: seq<Word>, ramLo: int, g: Signals, h: Signals)
    requires SignalsOf(ws, ramLo, g) && SignalsOf(ws, ramLo, h)
    ensures Decide(g) == Decide(h)
  {
    hide Outcome;
    var ps, jal, ptr := Prologues(ws), multiset(CallTargets(ws)), multiset(Pointers(ws, ramLo));
    OutcomeUnique(jal, ps, ramLo, g.jal, h.jal);
    OutcomeUnique(ptr, ps, ramLo, g.ptr, h.ptr);
    OutcomeUnique(jal + ptr, ps, ramLo, g.both, h.both);
    assert ClearOnes(g) == ClearOnes(h);
  }

  /** Calls and pointers clear for one base are always accepted; clear for two bases never. */
  lemma TwoSignals(ws: seq<Word>, ramLo: int, g: Signals)
    requires SignalsOf(ws, ramLo, g) && Clear(g.jal) && Clear(g.ptr)
    ensures Decide(g).base == if g.jal.base == g.ptr.base then g.jal.base else None
  {
    var ps, jal, ptr := Prologues(ws), multiset(CallTargets(ws)), multiset(Pointers(ws, ramLo));
    if g.jal.base == g.ptr.base {
      SumClear(jal, ptr, ps, ramLo, g.jal, g.ptr, g.both);
      AcceptedIff(g, g.jal.base.value);
    } else {
      var clear := ClearOnes(g);
      assert clear[0].base != clear[1].base;
    }
  }

  /** An accepted base strictly beats every other base in some signal. */
  lemma AcceptedBeats(ws: seq<Word>, ramLo: int, g: Signals, b: int)
    requires SignalsOf(ws, ramLo, g) && Decide(g).base.Some? && b != Decide(g).base.value
    ensures var ps, jal, ptr := Prologues(ws), multiset(CallTargets(ws)), multiset(Pointers(ws, ramLo));
            var base := Decide(g).base.value;
            || Votes(jal, ps, ramLo, b) < Votes(jal, ps, ramLo, base)
            || Votes(ptr, ps, ramLo, b) < Votes(ptr, ps, ramLo, base)
            || Votes(jal + ptr, ps, ramLo, b) < Votes(jal + ptr, ps, ramLo, base)
  {
    hide Votes, Outcome;
    var ps, jal, ptr := Prologues(ws), multiset(CallTargets(ws)), multiset(Pointers(ws, ramLo));
    var v := Decide(g);
    assert IsClearSignal(g, v);
    if v == g.jal {
      ClearBeatsAll(jal, ps, ramLo, v, b);
    } else if v == g.ptr {
      ClearBeatsAll(ptr, ps, ramLo, v, b);
    } else {
      ClearBeatsAll(jal + ptr, ps, ramLo, v, b);
    }
  }

  /** What comes with the answer. An accepted base has the counts of the first clear signal, and lies in free memory.
      Otherwise the counts are those of the signal with the most votes, the first of equals. */
  lemma DecideGives(ws: seq<Word>, ramLo: int, g: Signals)
    requires SignalsOf(ws, ramLo, g)
    ensures var v := Decide(g);
            && (v.base.Some? ==>
                  && v == (if Clear(g.jal) then g.jal else if Clear(g.ptr) then g.ptr else g.both)
                  && ramLo <= v.base.value < 0x8020_0000)
            && (v.base.None? ==>
                  && v.votes >= g.jal.votes && v.votes >= g.ptr.votes && v.votes >= g.both.votes
                  && (v.votes == g.jal.votes ==> v.runner == g.jal.runner)
                  && (v.votes == g.ptr.votes > g.jal.votes ==> v.runner == g.ptr.runner)
                  && (v.votes > g.jal.votes && v.votes > g.ptr.votes ==>
                      v.votes == g.both.votes && v.runner == g.both.runner))
  {
    DecideFirst(g);
    WinnerPossible(ws, ramLo, g, g.jal);
    WinnerPossible(ws, ramLo, g, g.ptr);
    WinnerPossible(ws, ramLo, g, g.both);
    hide SignalsOf, Decide;
  }

  lemma DecideFirst(g: Signals)
    ensures var v := Decide(g);
            && (v.base.Some? ==>
                  v == (if Clear(g.jal) then g.jal else if Clear(g.ptr) then g.ptr else g.both) && v.votes > 0)
            && (v.base.None? ==> v.votes == Best(g).votes && v.runner == Best(g).runner)
  {
    var v := Decide(g);
    if v.base.Some? { assert v in ClearOnes(g); }
  }

  lemma WinnerPossible(ws: seq<Word>, ramLo: int, g: Signals, v: Vote)
    requires SignalsOf(ws, ramLo, g) && v in {g.jal, g.ptr, g.both}
    ensures v.base.Some? ==> ramLo <= v.base.value < 0x8020_0000
  {
    hide CallTargets, Pointers, Prologues, Landed;
  }

  /** Inference over an image; the parameters give the order in which each counter is iterated. */
  method InferBase(ws: seq<Word>, ramLo: int, jalOrder: seq<int>, ptrOrder: seq<int>, bothOrder: seq<int>)
      returns (v: Vote)
    requires Lists(jalOrder, multiset(CallTargets(ws))) && Lists(ptrOrder, multiset(Pointers(ws, ramLo)))
    requires Lists(bothOrder, multiset(CallTargets(ws)) + multiset(Pointers(ws, ramLo)))
    ensures exists g :: SignalsOf(ws, ramLo, g) && v == Decide(g)
    ensures forall g :: SignalsOf(ws, ramLo, g) ==> v == Decide(g)
  {
    hide Outcome, Decide;
    var ps, jalRefs, ptrRefs := Prologues(ws), multiset(CallTargets(ws)), multiset(Pointers(ws, ramLo));
    var jal := CastVotes(jalRefs, jalOrder, ps, ramLo);
    var ptr := CastVotes(ptrRefs, ptrOrder, ps, ramLo);
    var both := CastVotes(jalRefs + ptrRefs, bothOrder, ps, ramLo);
    var g := Signals(jal, ptr, both);
    assert SignalsOf(ws, ramLo, g);
    forall h | SignalsOf(ws, ramLo, h) ensures Decide(h) == Decide(g) {
      DecideUnique(ws, ramLo, g, h);
    }
    v := Decide(g);
  }

  /** An enumeration of the distinct elements. */
  predicate Lists(order: seq<int>, refs: multiset<int>) {
    Sorting.Distinct(order) && (forall t :: t in order ==> t in refs) && forall t :: t in refs ==> t in order
  }

  // ---- An image with two callees ----

  const PROLOGUE: Word := 0x27BD_FFE8
  const CALL_A: Word := 0x0C04_0000
  const CALL_B: Word := 0x0C04_0040
  const A := 0x8010_0000
  const B := 0x8010_0100

  /** One prologue, m calls of one address and n of another. */
  function TwoCallees(m: nat, n: nat): seq<Word> { [PROLOGUE] + seq(m, _ => CALL_A) + seq(n, _ => CALL_B) }

  lemma {:induction false} CountAppend<T>(xs: seq<T>, ys: seq<T>, test: T -> bool)
    ensures Count(xs + ys, test) == Count(xs, test) + Count(ys, test)
  {
    if xs == [] {
      assert xs + ys == ys;
    } else {
      assert (xs + ys)[1..] == xs[1..] + ys;
      CountAppend(xs[1..], ys, test);
    }
  }

  lemma {:induction false} CountSame<T>(xs: seq<T>, x: T, test: T -> bool)
    requires forall i :: 0 <= i < |xs| ==> xs[i] == x
    ensures Count(xs, test) == if test(x) then |xs| else 0
  {
    if xs != [] {
      CountSame(xs[1..], x, test);
    }
  }

  lemma ExampleCalls(t: int)
    ensures !Calls(PROLOGUE, t) && (Calls(CALL_A, t) <==> t == A) && (Calls(CALL_B, t) <==> t == B)
  {
    CallTargetIs(PROLOGUE, t);
    CallTargetIs(CALL_A, t);
    CallTargetIs(CALL_B, t);
  }

  lemma ExampleCounts(m: nat, n: nat, t: int)
    ensures multiset(CallTargets(TwoCallees(m, n)))[t] == if t == A then m else if t == B then n else 0
    ensures t >= 0x8008_0000 ==> multiset(Pointers(TwoCallees(m, n), 0x8008_0000))[t] == 0
  {
    hide Calls, CallTargets, Pointers;
    var ws := TwoCallees(m, n);
    CallsCounted(ws, t);
    PointersCounted(ws, 0x8008_0000, t);
    ExampleCalls(t);
    CountThree(m, n, (w: Word) => Calls(w, t));
    CountThree(m, n, (w: Word) => w == t);
  }

  lemma CountThree(m: nat, n: nat, test: Word -> bool)
    ensures Count(TwoCallees(m, n), test) ==
            (if test(PROLOGUE) then 1 else 0) + (if test(CALL_A) then m else 0) + if test(CALL_B) then n else 0
  {
    var p: seq<Word>, a: seq<Word>, b: seq<Word> := [PROLOGUE], seq(m, _ => CALL_A), seq(n, _ => CALL_B);
    CountAppend<Word>(p + a, b, test);
    CountAppend<Word>(p, a, test);
    CountSame<Word>(p, PROLOGUE, test);
    CountSame<Word>(a, CALL_A, test);
    CountSame<Word>(b, CALL_B, test);
  }

  lemma ExamplePrologues(m: nat, n: nat)
    ensures Prologues(TwoCallees(m, n)) == [0]
  {
    var ws := TwoCallees(m, n);
    ProloguesDistinct(ws);
    ProloguesIff(ws, 0);
    var ps := Prologues(ws);
    assert IsAddiuSpNeg(PROLOGUE) && !IsAddiuSpNeg(CALL_A) && !IsAddiuSpNeg(CALL_B);
    forall p | p in ps ensures p == 0 {
      ProloguesIff(ws, p / 4);
      hide IsAddiuSpNeg;
      assert ws[p / 4] in {PROLOGUE, CALL_A, CALL_B};
    }
    hide IsAddiuSpNeg, Prologues;
    OnlyZero(ps);
  }

  lemma OnlyZero(ps: seq<int>)
    requires Sorting.Distinct(ps) && 0 in ps && forall p :: p in ps ==> p == 0
    ensures ps == [0]
  {
    hide Sorting.Distinct;
    assert ps[0] in ps;
    if |ps| > 1 {
      assert ps[1] in ps;
      FirstTwo(ps);
    }
  }

  lemma FirstTwo(ps: seq<int>)
    requires Sorting.Distinct(ps) && |ps| > 1
    ensures ps[0] != ps[1]
  {
  }

  lemma VotesAtZero(refs: multiset<int>, ramLo: int, b: int)
    ensures Votes(refs, [0], ramLo, b) == if Possible(b, ramLo) then refs[b] else 0
  {
    assert [0][..0] == [];
    assert Landed(refs, [], b) == 0;
  }

  lemma ExampleVotes(m: nat, n: nat, b: int)
    ensures var ws, ramLo := TwoCallees(m, n), 0x8008_0000;
            var jal, ptr := multiset(CallTargets(ws)), multiset(Pointers(ws, ramLo));
            && Votes(jal, [0], ramLo, b) == (if b == A then m else if b == B then n else 0)
            && Votes(ptr, [0], ramLo, b) == 0
            && Votes(jal + ptr, [0], ramLo, b) == (if b == A then m else if b == B then n else 0)
  {
    hide TwoCallees, CallTargets, Pointers, Votes;
    var ws, ramLo := TwoCallees(m, n), 0x8008_0000;
    var jal, ptr := multiset(CallTargets(ws)), multiset(Pointers(ws, ramLo));
    ExampleCounts(m, n, b);
    VotesAtZero(jal, ramLo, b);
    VotesAtZero(ptr, ramLo, b);
    VotesAtZero(jal + ptr, ramLo, b);
  }

  /** The thresholds: the first address is accepted exactly if it is called sixteen times or more, and at least half
      as often again as the other. */
  lemma Thresholds(m: nat, n: nat, g: Signals)
    requires SignalsOf(TwoCallees(m, n), 0x8008_0000, g)
    ensures Decide(g).base == Some(A) <==> m >= 16 && 2 * m >= 3 * n
  {
    hide TwoCallees, CallTargets, Pointers, Prologues, Decide, Votes;
    ExamplePrologues(m, n);
    AcceptedIff(g, A);
    ExampleVotes(m, n, A);
    ExampleVotes(m, n, B);
    forall b { ExampleVotes(m, n, b); }
    assert !Clear(g.ptr);
  }
}
