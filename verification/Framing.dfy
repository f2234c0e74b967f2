/** Cutting one JSON response out of a socket stream: the chunked scanner that skips through strings
    stops where a byte-at-a-time machine does, and that is the end of the object. */
module Framing {
  import opened Mips

  const QUOTE: Byte := 0x22
  const BACKSLASH: Byte := 0x5C
  const OPEN: Byte := 0x7B
  const CLOSE: Byte := 0x7D

  // ---- The reference machine ----

  datatype State = State(depth: int, inStr: bool, esc: bool, started: bool)

  const INIT := State(0, false, false, false)

  function Step(st: State, b: Byte): State {
    if st.inStr then
      if st.esc then st.(esc := false)
      else if b == QUOTE then st.(inStr := false)
      else if b == BACKSLASH then st.(esc := true)
      else st
    else if b == QUOTE then st.(inStr := true)
    else if b == OPEN then st.(depth := st.depth + 1, started := true)
    else if b == CLOSE then st.(depth := st.depth - 1)
    else st
  }

  predicate Stops(st: State, b: Byte) { !st.inStr && b == CLOSE && st.started && st.depth == 1 }

  /** The end of the first complete object, read one byte at a time from position i. */
  function Stop(s: seq<Byte>, i: nat, st: State): Option<nat>
    requires i <= |s|
    decreases |s| - i
  {
    if i == |s| then None
    else if Stops(st, s[i]) then Some(i + 1)
    else Stop(s, i + 1, Step(st, s[i]))
  }

  /** The response in a stream: its first complete object, or everything up to the end. */
  function Response(s: seq<Byte>): seq<Byte> {
    StopBound(s, 0, INIT);
    if Stop(s, 0, INIT).Some? then s[..Stop(s, 0, INIT).value] else s
  }

  lemma {:induction false} StopBound(s: seq<Byte>, i: nat, st: State)
    requires i <= |s|
    ensures Stop(s, i, st).Some? ==> i < Stop(s, i, st).value <= |s|
    decreases |s| - i
  {
    if i < |s| && !Stops(st, s[i]) {
      StopBound(s, i + 1, Step(st, s[i]));
    }
  }

  // ---- The chunked scanner ----

  function Concat(chunks: seq<seq<Byte>>): seq<Byte> {
    if chunks == [] then [] else chunks[0] + Concat(chunks[1..])
  }

  /** The first place of a byte from a position on, or the end of the buffer. */
  method Find(buf: seq<Byte>, b: Byte, from: nat) returns (at: int)
    requires from <= |buf|
    ensures at == -1 || (from <= at < |buf| && buf[at] == b)
    ensures forall k :: from <= k < (if at == -1 then |buf| else at) ==> buf[k] != b
  {
    for k := from to |buf|
      invariant forall j :: from <= j < k ==> buf[j] != b
    {
      if buf[k] == b {
        return k;
      }
    }
    at := -1;
  }

  /** Inside a string nothing but a quote or a backslash matters. */
  lemma {:induction false} Skip(s: seq<Byte>, i: nat, j: nat, st: State)
    requires i <= j <= |s| && st.inStr && !st.esc
    requires forall k :: i <= k < j ==> s[k] != QUOTE && s[k] != BACKSLASH
    ensures Stop(s, i, st) == Stop(s, j, st)
    decreases j - i
  {
    if i < j {
      Skip(s, i + 1, j, st);
    }
  }

  datatype Progress = Progress(pos: nat, st: State)

  /** The inner loop: reads what the buffer holds, or stops at the end of an object. */
  method Advance(buf: seq<Byte>, from: Progress, ghost all: seq<Byte>) returns (p: Progress, found: bool)
    requires from.pos <= |buf| <= |all| && buf == all[..|buf|]
    ensures p.pos <= |buf|
    ensures !found ==> p.pos == |buf| && Stop(all, from.pos, from.st) == Stop(all, p.pos, p.st)
    ensures found ==> Stop(all, from.pos, from.st) == Some(p.pos)
  {
    var pos, st := from.pos, from.st;
    while pos < |buf|
      invariant pos <= |buf|
      invariant Stop(all, from.pos, from.st) == Stop(all, pos, st)
    {
      if st.inStr {
        if st.esc {
          st := st.(esc := false);
          pos := pos + 1;
          continue;
        }
        var q := Find(buf, QUOTE, pos);
        var bs := Find(buf, BACKSLASH, pos);
        if q == -1 && bs == -1 {
          Skip(all, pos, |buf|, st);
          pos := |buf|;
          break;
        }
        if bs != -1 && (q == -1 || bs < q) {
          Skip(all, pos, bs, st);
          st := st.(esc := true);
          pos := bs + 1;
          continue;
        }
        Skip(all, pos, q, st);
        st := st.(inStr := false);
        pos := q + 1;
        continue;
      }
      var c := buf[pos];
      if c == QUOTE {
        st := st.(inStr := true);
      } else if c == OPEN {
        st := st.(depth := st.depth + 1, started := true);
      } else if c == CLOSE {
        if st.started && st.depth - 1 == 0 {
          return Progress(pos + 1, st.(depth := st.depth - 1)), true;
        }
        st := st.(depth := st.depth - 1);
      }
      pos := pos + 1;
    }
    p, found := Progress(pos, st), false;
  }

  /** Receiving chunks until the connection closes: the response is that of the whole stream,
      however it was cut. */
  method Receive(chunks: seq<seq<Byte>>) returns (r: seq<Byte>)
    ensures r == Response(Concat(chunks))
  {
    ghost var all := Concat(chunks);
    var buf: seq<Byte> := [];
    var p := Progress(0, INIT);
    var i := 0;
    assert chunks[0..] == chunks;
    while i < |chunks|
      invariant 0 <= i <= |chunks| && buf + Concat(chunks[i..]) == all
      invariant p.pos == |buf| && Stop(all, 0, INIT) == Stop(all, p.pos, p.st)
    {
      ghost var rest := chunks[i..];
      assert rest[1..] == chunks[i + 1..];
      var before := buf;
      buf := buf + chunks[i];
      assert buf + Concat(chunks[i + 1..]) == before + Concat(rest);
      assert buf == all[..|buf|];
      var found;
      p, found := Advance(buf, p, all);
      if found {
        return buf[..p.pos];
      }
      i := i + 1;
    }
    assert buf == all;
    r := buf;
  }

  // ---- Objects ----

  /** The characters of a string: plain, or escaped by a backslash. */
  datatype Chars = EndStr | Raw(b: Byte, rest: Chars) | Esc(e: Byte, more: Chars)
  {
    predicate Valid() {
      match this
      case EndStr => true
      case Raw(b, rest) => b != QUOTE && b != BACKSLASH && rest.Valid()
      case Esc(_, more) => more.Valid()
    }

    function Bytes(): seq<Byte> {
      match this
      case EndStr => [QUOTE]
      case Raw(b, rest) => [b] + rest.Bytes()
      case Esc(e, more) => [BACKSLASH, e] + more.Bytes()
    }
  }

  /** Text with balanced braces: other bytes, strings, and braced text. */
  datatype Text = Done | Plain(b: Byte, next: Text) | Str(chars: Chars, after: Text) | Braced(inner: Text, outer: Text)
  {
    predicate Valid() {
      match this
      case Done => true
      case Plain(b, next) => b != QUOTE && b != OPEN && b != CLOSE && next.Valid()
      case Str(chars, after) => chars.Valid() && after.Valid()
      case Braced(inner, outer) => inner.Valid() && outer.Valid()
    }

    function Bytes(): seq<Byte> {
      match this
      case Done => []
      case Plain(b, next) => [b] + next.Bytes()
      case Str(chars, after) => [QUOTE] + (chars.Bytes() + after.Bytes())
      case Braced(inner, outer) => [OPEN] + (inner.Bytes() + ([CLOSE] + outer.Bytes()))
    }
  }

  /** Text r stands in s at position i. */
  predicate Stands(s: seq<Byte>, i: nat, r: seq<Byte>) { i + |r| <= |s| && s[i..i + |r|] == r }

  lemma StandsSplit(s: seq<Byte>, i: nat, a: seq<Byte>, b: seq<Byte>)
    requires Stands(s, i, a + b)
    ensures Stands(s, i, a) && Stands(s, i + |a|, b)
  {
    assert s[i..i + |a + b|][..|a|] == a;
    assert s[i..i + |a + b|][|a|..] == b;
  }

  lemma StandsHead(s: seq<Byte>, i: nat, b: Byte, r: seq<Byte>)
    requires Stands(s, i, [b] + r)
    ensures i < |s| && s[i] == b && Stands(s, i + 1, r)
  {
    StandsSplit(s, i, [b], r);
    assert s[i..i + 1][0] == b;
  }

  lemma {:induction false} StringEnds(s: seq<Byte>, i: nat, cs: Chars, st: State)
    requires cs.Valid() && Stands(s, i, cs.Bytes()) && st.inStr && !st.esc
    ensures Stop(s, i, st) == Stop(s, i + |cs.Bytes()|, st.(inStr := false))
    decreases cs
  {
    match cs
    case EndStr =>
      StandsHead(s, i, QUOTE, []);
    case Raw(b, rest) =>
      StandsHead(s, i, b, rest.Bytes());
      StringEnds(s, i + 1, rest, st);
    case Esc(e, more) =>
      assert cs.Bytes() == [BACKSLASH] + ([e] + more.Bytes());
      StandsHead(s, i, BACKSLASH, [e] + more.Bytes());
      StandsHead(s, i + 1, e, more.Bytes());
      StringEnds(s, i + 2, more, st);
  }

  /** Balanced text inside an object leaves the machine as it was. */
  lemma {:induction false} Balanced(s: seq<Byte>, i: nat, t: Text, st: State)
    requires t.Valid() && Stands(s, i, t.Bytes()) && !st.inStr && !st.esc && st.depth >= 1 && st.started
    ensures Stop(s, i, st) == Stop(s, i + |t.Bytes()|, st)
    decreases t
  {
    hide Stands, Chars.Bytes, Chars.Valid, Stop;
    match t
    case Done =>
    case Plain(b, next) =>
      StandsHead(s, i, b, next.Bytes());
      Pass(s, i, st);
      Balanced(s, i + 1, next, st);
    case Str(chars, after) =>
      StandsHead(s, i, QUOTE, chars.Bytes() + after.Bytes());
      StandsSplit(s, i + 1, chars.Bytes(), after.Bytes());
      InString(s, i, chars, st);
      Balanced(s, i + 1 + |chars.Bytes()|, after, st);
    case Braced(inner, outer) =>
      BracedParts(s, i, inner.Bytes(), outer.Bytes());
      var n := |inner.Bytes()|;
      var deeper := st.(depth := st.depth + 1);
      Pass(s, i, st);
      Balanced(s, i + 1, inner, deeper);
      Pass(s, i + n + 1, deeper);
      Balanced(s, i + n + 2, outer, st);
  }

  lemma Pass(s: seq<Byte>, i: nat, st: State)
    requires i < |s| && !Stops(st, s[i])
    ensures Stop(s, i, st) == Stop(s, i + 1, Step(st, s[i]))
  {
  }

  lemma InString(s: seq<Byte>, i: nat, chars: Chars, st: State)
    requires chars.Valid() && i < |s| && s[i] == QUOTE && Stands(s, i + 1, chars.Bytes()) && !st.inStr && !st.esc
    ensures Stop(s, i, st) == Stop(s, i + 1 + |chars.Bytes()|, st)
  {
    StringEnds(s, i + 1, chars, st.(inStr := true));
  }

  lemma BracedParts(s: seq<Byte>, i: nat, inner: seq<Byte>, rest: seq<Byte>)
    requires Stands(s, i, [OPEN] + (inner + ([CLOSE] + rest)))
    ensures i < |s| && s[i] == OPEN && Stands(s, i + 1, inner)
    ensures i + |inner| + 1 < |s| && s[i + |inner| + 1] == CLOSE && Stands(s, i + |inner| + 2, rest)
  {
    hide Stands;
    StandsHead(s, i, OPEN, inner + ([CLOSE] + rest));
    StandsSplit(s, i + 1, inner, [CLOSE] + rest);
    StandsHead(s, i + 1 + |inner|, CLOSE, rest);
  }

  /** Whatever follows it, an object at the head of the stream is the response, byte for byte. */
  lemma ObjectFramed(t: Text, rest: seq<Byte>)
    requires t.Valid()
    ensures Response([OPEN] + t.Bytes() + [CLOSE] + rest) == [OPEN] + t.Bytes() + [CLOSE]
  {
    var whole := [OPEN] + t.Bytes() + [CLOSE];
    var s := whole + rest;
    assert s[0..|s|] == s;
    assert s == [OPEN] + (t.Bytes() + ([CLOSE] + rest));
    BracedParts(s, 0, t.Bytes(), rest);
    var st := State(1, false, false, true);
    assert Step(INIT, OPEN) == st;
    Balanced(s, 1, t, st);
    assert Stop(s, 0, INIT) == Stop(s, 1, st) == Some(|t.Bytes()| + 2);
    assert s[..|whole|] == whole;
  }

  // ---- Where a response ends ----

  /** Position i lies inside a string. */
  predicate Quoted(s: seq<Byte>, i: nat)
    requires i <= |s|
    decreases i, 1
  {
    i > 0 && if Quoted(s, i - 1) then s[i - 1] != QUOTE || Escaped(s, i - 1) else s[i - 1] == QUOTE
  }

  /** Position i follows a backslash of a string that is not itself escaped. */
  predicate Escaped(s: seq<Byte>, i: nat)
    requires i <= |s|
    decreases i, 0
  {
    i > 0 && Quoted(s, i - 1) && s[i - 1] == BACKSLASH && !Escaped(s, i - 1)
  }

  /** How often b stands outside strings before position i. */
  function Outside(s: seq<Byte>, b: Byte, i: nat): nat
    requires i <= |s|
  {
    if i == 0 then 0 else Outside(s, b, i - 1) + if s[i - 1] == b && !Quoted(s, i - 1) then 1 else 0
  }

  /** The byte at j closes the only brace that is open, counting braces outside strings. */
  predicate Ends(s: seq<Byte>, j: nat)
    requires j < |s|
  {
    s[j] == CLOSE && !Quoted(s, j) && Outside(s, OPEN, j) == Outside(s, CLOSE, j) + 1
  }

  /** The machine after i bytes. */
  function After(s: seq<Byte>, i: nat): State
    requires i <= |s|
  {
    State(Outside(s, OPEN, i) - Outside(s, CLOSE, i), Quoted(s, i), Escaped(s, i), Outside(s, OPEN, i) > 0)
  }

  lemma AfterNext(s: seq<Byte>, i: nat)
    requires i < |s|
    ensures After(s, i + 1) == Step(After(s, i), s[i])
    ensures Stops(After(s, i), s[i]) <==> Ends(s, i)
  {
  }

  lemma {:induction false} StopFirst(s: seq<Byte>, i: nat, j: nat)
    requires i <= j < |s|
    ensures var n := Stop(s, i, After(s, i));
            && (n.Some? ==> i < n.value <= |s| && Ends(s, n.value - 1) && (j < n.value - 1 ==> !Ends(s, j)))
            && (n.None? ==> !Ends(s, j))
    decreases |s| - i
  {
    hide Quoted, Outside, Escaped, Step, Stops, Ends, After;
    AfterNext(s, i);
    if !Ends(s, i) {
      if j > i {
        StopFirst(s, i + 1, j);
      } else if i + 1 < |s| {
        StopFirst(s, i + 1, i + 1);
      }
    }
  }

  /** Of every stream the response is what ends at the first brace that closes the only open one; braces in strings do
      not count. Without such a brace it is the whole stream. */
  lemma ResponseEnds(s: seq<Byte>, j: nat)
    requires j < |s|
    ensures var n := |Response(s)|;
            && n <= |s| && Response(s) == s[..n]
            && (n < |s| ==> n > 0 && Ends(s, n - 1))
            && (j + 1 < n ==> !Ends(s, j))
  {
    StopBound(s, 0, INIT);
    assert After(s, 0) == INIT;
    hide Quoted, Outside, Escaped, Step, Stops, Ends, After, Stop;
    StopFirst(s, 0, j);
  }
}
