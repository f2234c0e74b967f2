/** The bounded linear walk that emits one slice: straight-line words in order, then for the word
    that ends the slice its pre-delay snapshot, its delay slot, and its tail. */
module SliceWalker {
  import opened Mips
  import opened Isa
  import opened Translator

  datatype Emitted = Emitted(address: int, raw: Word, code: CStmt)

  datatype Reason = SizeLimit | Ended(kind: Kind)

  datatype Result =
    | Slice(ok: bool, emitted: seq<Emitted>, unsupported: seq<(int, Word)>, reason: Reason, stop: int)
    | OutsideRom
    | FellOff(pc: int)
    | NoDelaySlot(pc: int)

  /** The address just past the ROM. */
  function End(rom: Image): int { rom.load + |rom.data| }

  /** What the words from a terminator at pc emit, when its delay slot allows it. */
  function Ending(pc: int, w: Word, d: Word): seq<Emitted>
    requires Translate(w, pc).Terminator? && Translate(d, pc + 4).Plain?
  {
    var t := Translate(w, pc);
    (if t.pre.Some? then [Emitted(pc, w, t.pre.value)] else [])
    + [Emitted(pc + 4, d, Translate(d, pc + 4).code), Emitted(pc, w, t.tail)]
  }

  function Emit(e: seq<Emitted>, r: Result): Result {
    if r.Slice? then r.(emitted := e + r.emitted) else r
  }

  function Refuse(u: (int, Word), r: Result): Result {
    if r.Slice? then r.(ok := false, unsupported := [u] + r.unsupported) else r
  }

  predicate InRom(rom: Image, pc: int) { rom.load <= pc && pc + 4 <= End(rom) }

  lemma RomWord(rom: Image, pc: int)
    requires InRom(rom, pc)
    ensures WordAt(rom, pc).Some?
  {
  }

  /** What the walk does at one address. */
  datatype Action =
    | Refused(u: (int, Word), next: int)
    | Pushed(e: Emitted)
    | Finished(es: seq<Emitted>, kind: Kind)
    | Failed(r: Result)

  function ActionAt(rom: Image, pc: int): (a: Action)
    ensures a.Refused? ==> pc < a.next
    ensures a.Failed? ==> !a.r.Slice?
  {
    if !InRom(rom, pc) then Failed(FellOff(pc))
    else
      var w := WordAt(rom, pc).value;
      match Translate(w, pc)
      case Unsupported => Refused((pc, w), pc + 4)
      case Plain(code) => Pushed(Emitted(pc, w, code))
      case Terminator(kind, pre, tail) =>
        if !InRom(rom, pc + 4) then Failed(NoDelaySlot(pc))
        else
          var d := WordAt(rom, pc + 4).value;
          if Translate(d, pc + 4).Plain? then Finished(Ending(pc, w, d), kind) else Refused((pc + 4, d), pc + 8)
  }

  /** The walk from pc, as a function of the words ahead. */
  function From(rom: Image, pc: int, end: int): Result
    decreases end - pc
  {
    if pc >= end then Slice(true, [], [], SizeLimit, pc)
    else
      match ActionAt(rom, pc)
      case Refused(u, next) => Refuse(u, From(rom, next, end))
      case Pushed(e) => Emit([e], From(rom, pc + 4, end))
      case Finished(es, kind) => Slice(true, es, [], Ended(kind), pc + 4)
      case Failed(r) => r
  }

  /** A walk that reaches its bound records the last emitted address as its end. */
  function Closed(r: Result): Result {
    if r.Slice? && r.reason.SizeLimit? then
      r.(stop := if r.emitted == [] then r.stop - 4 else r.emitted[|r.emitted| - 1].address)
    else r
  }

  /** The bound of the walk is formed in 32 bits. */
  function Walked(rom: Image, start: int, maxBytes: int): Result {
    if start < rom.load || start >= End(rom) then OutsideRom
    else Closed(From(rom, start, Wrap(start + maxBytes)))
  }

  /** The case analysis of one iteration: bounds, translation, and at the end of a slice the three
      pushes in the order snapshot, delay slot, tail. */
  method Look(rom: Image, pc: int) returns (a: Action)
    requires rom.load <= pc
    ensures a == ActionAt(rom, pc)
  {
    hide Translate, WordAt;
    if pc + 4 > End(rom) {
      return Failed(FellOff(pc));
    }
    RomWord(rom, pc);
    var w := WordAt(rom, pc).value;
    var t := Translate(w, pc);
    if t.Unsupported? {
      return Refused((pc, w), pc + 4);
    }
    if t.Plain? {
      return Pushed(Emitted(pc, w, t.code));
    }
    if pc + 8 > End(rom) {
      return Failed(NoDelaySlot(pc));
    }
    RomWord(rom, pc + 4);
    var d := WordAt(rom, pc + 4).value;
    var dt := Translate(d, pc + 4);
    if !dt.Plain? {
      return Refused((pc + 4, d), pc + 8);
    }
    var e := [];
    if t.pre.Some? {
      e := e + [Emitted(pc, w, t.pre.value)];
    }
    e := e + [Emitted(pc + 4, d, dt.code)];
    e := e + [Emitted(pc, w, t.tail)];
    return Finished(e, t.kind);
  }

  /** What has been pushed so far: `result.ok`, `result.emitted` and `result.unsupported`. */
  datatype Pushes = Pushes(ok: bool, emitted: seq<Emitted>, unsupported: seq<(int, Word)>)

  function Push(p: Pushes, e: Emitted): Pushes { p.(emitted := p.emitted + [e]) }

  function PushRefusal(p: Pushes, u: (int, Word)): Pushes { p.(ok := false, unsupported := p.unsupported + [u]) }

  /** The result when the rest of the walk gives r. */
  function Join(p: Pushes, r: Result): Result {
    if r.Slice? then Slice(p.ok && r.ok, p.emitted + r.emitted, p.unsupported + r.unsupported, r.reason, r.stop) else r
  }

  /** The walker's loop. */
  method Walk(rom: Image, start: int, maxBytes: int) returns (r: Result)
    ensures r == Walked(rom, start, maxBytes)
  {
    hide ActionAt, From, Wrap, Walked, Emit, Refuse, Join, Push, PushRefusal, End, Closed;
    if start < rom.load || start >= End(rom) {
      WalkedOutside(rom, start, maxBytes);
      return OutsideRom;
    }
    var end := Wrap(start + maxBytes);
    WalkedFrom(rom, start, maxBytes);
    var open := WalkTo(rom, start, end);
    r := Closed(open);
  }

  method WalkTo(rom: Image, start: int, end: int) returns (r: Result)
    requires rom.load <= start
    ensures r == From(rom, start, end)
  {
    hide ActionAt, From, Emit, Refuse, Join, Push, PushRefusal;
    var pc := start;
    var p := Pushes(true, [], []);
    JoinNothing(From(rom, pc, end));
    while pc < end
      invariant start <= pc
      invariant From(rom, start, end) == Join(p, From(rom, pc, end))
      decreases end - pc
    {
      var a := Look(rom, pc);
      FromStep(rom, pc, end, a);
      match a {
        case Failed(e) =>
          return Join(p, e);
        case Finished(es, kind) =>
          return Join(p, Slice(true, es, [], Ended(kind), pc + 4));
        case Refused(u, next) =>
          JoinRefuse(p, u, From(rom, next, end));
          p := PushRefusal(p, u);
          pc := next;
        case Pushed(e) =>
          JoinEmit(p, e, From(rom, pc + 4, end));
          p := Push(p, e);
          pc := pc + 4;
      }
    }
    FromLimit(rom, pc, end);
    r := Join(p, Slice(true, [], [], SizeLimit, pc));
  }

  lemma WalkedOutside(rom: Image, start: int, maxBytes: int)
    requires start < rom.load || start >= End(rom)
    ensures Walked(rom, start, maxBytes) == OutsideRom
  {
  }

  lemma FromStep(rom: Image, pc: int, end: int, a: Action)
    requires pc < end && a == ActionAt(rom, pc)
    ensures From(rom, pc, end) ==
            match a
            case Refused(u, next) => Refuse(u, From(rom, next, end))
            case Pushed(e) => Emit([e], From(rom, pc + 4, end))
            case Finished(es, kind) => Slice(true, es, [], Ended(kind), pc + 4)
            case Failed(r) => r
  {
    hide ActionAt;
  }

  lemma FromLimit(rom: Image, pc: int, end: int)
    requires pc >= end
    ensures From(rom, pc, end) == Slice(true, [], [], SizeLimit, pc)
  {
  }

  lemma WalkedFrom(rom: Image, start: int, maxBytes: int)
    requires rom.load <= start < End(rom)
    ensures Walked(rom, start, maxBytes) == Closed(From(rom, start, Wrap(start + maxBytes)))
  {
  }

  lemma JoinNothing(r: Result)
    ensures Join(Pushes(true, [], []), r) == r
  {
  }

  lemma JoinRefuse(p: Pushes, u: (int, Word), r: Result)
    ensures Join(p, Refuse(u, r)) == Join(PushRefusal(p, u), r)
  {
    if r.Slice? { assert p.unsupported + ([u] + r.unsupported) == p.unsupported + [u] + r.unsupported; }
  }

  lemma JoinEmit(p: Pushes, e: Emitted, r: Result)
    ensures Join(p, Emit([e], r)) == Join(Push(p, e), r)
  {
    if r.Slice? { assert p.emitted + ([e] + r.emitted) == p.emitted + [e] + r.emitted; }
  }

  // ---- What a walk reports ----

  /** A word that cannot stand in a slice: one without a translation, or a transfer in a delay slot. */
  predicate Unfit(rom: Image, u: (int, Word)) { WordAt(rom, u.0) == Some(u.1) && !Translate(u.1, u.0).Plain? }

  predicate Ascending(us: seq<(int, Word)>) { forall i, j :: 0 <= i < j < |us| ==> us[i].0 < us[j].0 }

  lemma RefusedUnfit(rom: Image, pc: int)
    requires ActionAt(rom, pc).Refused?
    ensures var a := ActionAt(rom, pc); Unfit(rom, a.u) && pc <= a.u.0 < a.next <= pc + 8
  {
    hide Translate;
    if InRom(rom, pc) { RomWord(rom, pc); }
    if InRom(rom, pc + 4) { RomWord(rom, pc + 4); }
    hide WordAt;
  }

  lemma FirstAscends(u: (int, Word), us: seq<(int, Word)>)
    requires Ascending(us) && forall v :: v in us ==> u.0 < v.0
    ensures Ascending([u] + us)
  {
    var all := [u] + us;
    forall i, j | 0 <= i < j < |all| ensures all[i].0 < all[j].0 { assert all[j] == us[j - 1] && us[j - 1] in us; }
  }

  /** A slice is good exactly if nothing is reported; what is reported are unfit words of the ROM, each once and in
      order. */
  lemma {:induction false} Reports(rom: Image, pc: int, end: int)
    ensures var r := From(rom, pc, end);
            r.Slice? ==>
              && (r.ok <==> r.unsupported == []) && Ascending(r.unsupported)
              && forall u :: u in r.unsupported ==> Unfit(rom, u) && pc <= u.0 < r.stop
    decreases end - pc
  {
    hide ActionAt, Unfit;
    if pc < end {
      match ActionAt(rom, pc)
      case Refused(u, next) =>
        RefusedUnfit(rom, pc);
        Reports(rom, next, end);
        StopsLater(rom, next, end);
        if From(rom, next, end).Slice? { FirstAscends(u, From(rom, next, end).unsupported); }
      case Pushed(e) => Reports(rom, pc + 4, end);
      case _ =>
    }
  }

  lemma {:induction false} StopsLater(rom: Image, pc: int, end: int)
    ensures From(rom, pc, end).Slice? ==> pc <= From(rom, pc, end).stop
    decreases end - pc
  {
    hide ActionAt;
    if pc < end {
      match ActionAt(rom, pc)
      case Refused(u, next) => RefusedUnfit(rom, pc); StopsLater(rom, next, end);
      case Pushed(e) => StopsLater(rom, pc + 4, end);
      case _ =>
    }
  }

  /** The word at q was emitted, or it is reported, or it is a transfer whose delay slot is reported. */
  ghost predicate Met(rom: Image, r: Result, q: int)
    requires r.Slice?
  {
    || (exists e :: e in r.emitted && e.address == q && WordAt(rom, q) == Some(e.raw))
    || (exists u :: u in r.unsupported && u.0 == q)
    || (exists u :: u in r.unsupported && u.0 == q + 4 && WordAt(rom, q).Some?
                 && Translate(WordAt(rom, q).value, q).Terminator?)
  }

  lemma MetEmit(rom: Image, e: Emitted, r: Result, q: int)
    requires r.Slice?
    ensures Met(rom, r, q) ==> Met(rom, Emit([e], r), q)
    ensures q == e.address && WordAt(rom, q) == Some(e.raw) ==> Met(rom, Emit([e], r), q)
  {
    hide Translate, WordAt;
    var t := Emit([e], r);
    assert e in t.emitted && forall x :: x in r.emitted ==> x in t.emitted;
  }

  lemma MetRefuse(rom: Image, u: (int, Word), r: Result, q: int)
    requires r.Slice?
    ensures Met(rom, r, q) ==> Met(rom, Refuse(u, r), q)
    ensures q == u.0 ==> Met(rom, Refuse(u, r), q)
    ensures q + 4 == u.0 && WordAt(rom, q).Some? && Translate(WordAt(rom, q).value, q).Terminator? ==>
              Met(rom, Refuse(u, r), q)
  {
    hide Translate, WordAt;
    var t := Refuse(u, r);
    assert u in t.unsupported && forall x :: x in r.unsupported ==> x in t.unsupported;
  }

  /** What the walk does at one word. */
  lemma ActionMet(rom: Image, pc: int)
    ensures var a := ActionAt(rom, pc);
            && (a.Pushed? ==> a.e.address == pc && WordAt(rom, pc) == Some(a.e.raw))
            && (a.Refused? ==>
                  || (a.u.0 == pc && a.next == pc + 4)
                  || (&& a.u.0 == pc + 4 && a.next == pc + 8 && WordAt(rom, pc).Some?
                      && Translate(WordAt(rom, pc).value, pc).Terminator?))
  {
    if InRom(rom, pc) { RomWord(rom, pc); }
    if InRom(rom, pc + 4) { RomWord(rom, pc + 4); }
    hide Translate, WordAt;
  }

  /** No word before the end is passed over, and none is looked at twice: a walk meets every word from its start to the
      one it stops at. */
  lemma {:induction false} EveryWordMet(rom: Image, pc: int, end: int, q: int)
    requires pc <= q && (q - pc) % 4 == 0 && From(rom, pc, end).Slice?
    requires q < From(rom, pc, end).stop - if From(rom, pc, end).reason.Ended? then 4 else 0
    ensures Met(rom, From(rom, pc, end), q)
    decreases end - pc
  {
    hide ActionAt, Met, Translate, WordAt;
    if pc < end {
      ActionMet(rom, pc);
      match ActionAt(rom, pc)
      case Refused(u, next) =>
        var r := From(rom, next, end);
        MetRefuse(rom, u, r, q);
        if q >= next { EveryWordMet(rom, next, end, q); }
      case Pushed(e) =>
        var r := From(rom, pc + 4, end);
        MetEmit(rom, e, r, q);
        if q >= pc + 4 { EveryWordMet(rom, pc + 4, end, q); }
      case _ =>
    }
  }

  // ---- Where a walk ends ----

  /** A finished slice ends at its delay slot, which is emitted last but for the transfer it belongs to. */
  predicate EndsAtSlot(r: Result) {
    r.Slice? && r.reason.Ended? ==>
      var n := |r.emitted|;
      n >= 2 && r.stop == r.emitted[n - 2].address && r.emitted[n - 1].address == r.stop - 4
  }

  lemma {:induction false} FromEnds(rom: Image, pc: int, end: int)
    ensures EndsAtSlot(From(rom, pc, end))
    ensures var r := From(rom, pc, end); r.Slice? && r.reason.SizeLimit? ==> end <= r.stop
    decreases end - pc
  {
    hide Translate, WordAt;
    if pc < end {
      match ActionAt(rom, pc)
      case Refused(u, next) => FromEnds(rom, next, end);
      case Pushed(e) => FromEnds(rom, pc + 4, end);
      case _ =>
    }
  }

  /** The end address that is recorded: the delay slot of a finished slice; the last emitted word, or else the last word
      before the bound, of one that reached its size. */
  lemma WalkEnds(rom: Image, start: int, maxBytes: int)
    ensures var r := Walked(rom, start, maxBytes);
            && EndsAtSlot(r)
            && (r.Slice? && r.reason.SizeLimit? && r.emitted != [] ==> r.stop == r.emitted[|r.emitted| - 1].address)
            && (r.Slice? && r.reason.SizeLimit? && r.emitted == [] ==> Wrap(start + maxBytes) <= r.stop + 4)
  {
    hide From, Wrap;
    FromEnds(rom, start, Wrap(start + maxBytes));
  }
}
