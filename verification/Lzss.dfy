/** The disc-archive decompressor: an LZSS decoder over a 1024-byte ring, refined to a decoder
    that copies from its own output history, with an encoder it inverts. */
module Lzss {
  import opened Mips

  const RING := 0x400

  datatype Token = Lit(b: Byte) | Ref(off: int, len: int)
  {
    /** The references an encoder can write: offset 0 ends the stream. */
    predicate Valid() { this.Ref? ==> 1 <= off < RING && 2 <= len <= 65 }

    function Size(): int { if this.Lit? then 1 else len }
  }

  // ---- The format ----

  function Offset(b0: Byte, b1: Byte): int { b0 + b1 % 4 * 256 }
  function Length(b1: Byte): int { b1 / 4 + 2 }

  /** Flags shifted right: its lowest bit is the flag of the next token. */
  function Shifted(flags: Byte, k: nat): Byte {
    if k == 0 then flags else Shifted(flags, k - 1) / 2
  }

  function Prepend(ts: seq<Token>, rest: Option<seq<Token>>): Option<seq<Token>> {
    if rest.None? then None else Some(ts + rest.value)
  }

  /** The tokens of a stream, given the n flags that remain of the current flag byte. A stream that
      ends inside a reference is malformed. */
  function Parse(s: seq<Byte>, flags: Byte, n: nat): Option<seq<Token>>
    decreases |s|
  {
    if s == [] then Some([])
    else if n == 0 then ParseToken(s[1..], s[0], 8)
    else ParseToken(s, flags, n)
  }

  function ParseToken(s: seq<Byte>, flags: Byte, n: nat): Option<seq<Token>>
    requires n > 0
    decreases |s|, 0
  {
    if s == [] then Some([])
    else if flags % 2 == 1 then Prepend([Lit(s[0])], Parse(s[1..], flags / 2, n - 1))
    else if |s| == 1 then None
    else if Offset(s[0], s[1]) == 0 then Some([])
    else Prepend([Ref(Offset(s[0], s[1]), Length(s[1]))], Parse(s[2..], flags / 2, n - 1))
  }

  // ---- The meaning of tokens: copying from history ----

  /** The output byte at position k; before the output there are only zeros. */
  function History(out: seq<Byte>, k: int): Byte
    requires k < |out|
  {
    if k < 0 then 0 else out[k]
  }

  /** How far back ring slot `s` lies once n bytes are out: 1 for the newest byte, 1024 for the oldest. */
  function Distance(s: int, n: int): (d: int)
    ensures 1 <= d <= RING
  {
    (n - s) % RING + 1
  }

  /** Copies len bytes, each from d positions back, so a copy may overlap itself. */
  function Copy(out: seq<Byte>, d: int, len: nat): (r: seq<Byte>)
    requires d >= 1
    ensures |r| == |out| + len
    ensures out == r[..|out|]
    decreases len
  {
    if len == 0 then out else Copy(out + [History(out, |out| - d)], d, len - 1)
  }

  function Expand(out: seq<Byte>, ts: seq<Token>): seq<Byte>
    decreases |ts|
  {
    if ts == [] then out
    else match ts[0]
      case Lit(b) => Expand(out + [b], ts[1..])
      case Ref(off, len) => Expand(if len < 0 then out else Copy(out, Distance(off, |out|), len), ts[1..])
  }

  /** The decoded stream, or None where the decoder reads past its end. */
  function Decoded(src: seq<Byte>): Option<seq<Byte>> {
    Finish([], Parse(src, 0, 0))
  }

  function Finish(out: seq<Byte>, ts: Option<seq<Token>>): Option<seq<Byte>> {
    if ts.None? then None else Some(Expand(out, ts.value))
  }

  // ---- The ring holds the recent history ----

  predicate RingHolds(ring: seq<Byte>, rp: int, out: seq<Byte>) {
    && |ring| == RING && rp == (1 + |out|) % RING
    && forall s :: 0 <= s < RING ==> SlotHolds(ring, out, s)
  }

  predicate SlotHolds(ring: seq<Byte>, out: seq<Byte>, s: int)
    requires |ring| == RING && 0 <= s < RING
  {
    ring[s] == History(out, |out| - Distance(s, |out|))
  }

  lemma RingMod(x: int, q: int, r: int)
    requires x == RING * q + r && 0 <= r < RING
    ensures x % RING == r
  {
  }

  lemma DistanceNext(s: int, n: nat)
    requires 0 <= s < RING
    ensures Distance(s, n + 1) == if s == (1 + n) % RING then 1 else Distance(s, n) + 1
    ensures Distance((s + 1) % RING, n + 1) == Distance(s, n)
  {
    var q, r := (n - s) / RING, (n - s) % RING;
    assert n - s == RING * q + r;
    hide Distance;
    DistanceIs(s, n, q, r);
    if r == RING - 1 {
      RingMod(n + 1, q + 1, s);
      DistanceIs(s, n + 1, q + 1, 0);
    } else {
      NextSlotDiffers(s, n, q, r);
      DistanceIs(s, n + 1, q, r + 1);
    }
    if s == RING - 1 {
      RingMod(s + 1, 1, 0);
      DistanceIs(0, n + 1, q + 1, r);
    } else {
      RingMod(s + 1, 0, s + 1);
      DistanceIs(s + 1, n + 1, q, r);
    }
  }

  lemma DistanceIs(s: int, n: int, q: int, r: int)
    requires n - s == RING * q + r && 0 <= r < RING
    ensures Distance(s, n) == r + 1
  {
    RingMod(n - s, q, r);
  }

  lemma NextSlotDiffers(s: int, n: nat, q: int, r: int)
    requires 0 <= s < RING && n - s == RING * q + r && 0 <= r < RING - 1
    ensures s != (1 + n) % RING
  {
    if s + r + 1 < RING {
      RingMod(1 + n, q, s + r + 1);
    } else {
      RingMod(1 + n, q + 1, s + r + 1 - RING);
    }
  }

  lemma RingStep(ring: seq<Byte>, rp: int, out: seq<Byte>, b: Byte)
    requires RingHolds(ring, rp, out)
    ensures RingHolds(ring[rp := b], (rp + 1) % RING, out + [b])
  {
    var ring', out' := ring[rp := b], out + [b];
    forall s | 0 <= s < RING ensures SlotHolds(ring', out', s) { SlotStep(ring, rp, out, b, s); }
    NextPosition(rp, |out|);
  }

  lemma NextPosition(rp: int, n: nat)
    requires rp == (1 + n) % RING
    ensures (rp + 1) % RING == (2 + n) % RING
  {
  }

  lemma SlotStep(ring: seq<Byte>, rp: int, out: seq<Byte>, b: Byte, s: int)
    requires |ring| == RING && rp == (1 + |out|) % RING && 0 <= s < RING && SlotHolds(ring, out, s)
    ensures SlotHolds(ring[rp := b], out + [b], s)
  {
    hide Distance;
    DistanceNext(s, |out|);
  }

  /** The inner loop: copying through the ring is copying at a fixed distance in the output. */
  method CopyRing(ring: array<Byte>, from: int, start: int, len: nat, before: seq<Byte>)
    returns (rp: int, out: seq<Byte>)
    requires 0 <= from < RING && RingHolds(ring[..], start, before)
    modifies ring
    ensures out == Copy(before, Distance(from, |before|), len)
    ensures RingHolds(ring[..], rp, out)
  {
    hide Distance, RingHolds;
    RingIndex(ring[..], start, before);
    var off := from;
    rp, out := start, before;
    ghost var d := Distance(from, |before|);
    for k := 0 to len
      invariant 0 <= off < RING && ring.Length == RING
      invariant RingHolds(ring[..], rp, out)
      invariant Distance(off, |out|) == d
      invariant Copy(out, d, len - k) == Copy(before, d, len)
    {
      RingRead(ring[..], rp, out, off);
      DistanceNext(off, |out|);
      var b := ring[off];
      RingStep(ring[..], rp, out, b);
      off := (off + 1) % RING;
      ghost var was := ring[..];
      ring[rp] := b;
      assert ring[..] == was[rp := b];
      rp := (rp + 1) % RING;
      out := out + [b];
    }
  }

  lemma RingRead(ring: seq<Byte>, rp: int, out: seq<Byte>, s: int)
    requires RingHolds(ring, rp, out) && 0 <= s < RING
    ensures |ring| == RING && 0 <= rp < RING
    ensures ring[s] == History(out, |out| - Distance(s, |out|))
  {
    assert SlotHolds(ring, out, s);
  }

  lemma RingStart(ring: seq<Byte>)
    requires |ring| == RING && forall s :: 0 <= s < RING ==> ring[s] == 0
    ensures RingHolds(ring, 1, [])
  {
    hide Distance;
  }

  // ---- The decoder ----

  lemma ExpandOne(out: seq<Byte>, t: Token, p: Option<seq<Token>>)
    ensures Finish(out, Prepend([t], p)) == Finish(Expand(out, [t]), p)
  {
    if p.Some? {
      assert ([t] + p.value)[1..] == p.value;
    }
  }

  /** The decoder over its ring computes what the tokens of the stream mean on the output history,
      and fails exactly where the stream ends inside a reference. */
  method LzDecode(src: seq<Byte>) returns (r: Option<seq<Byte>>)
    ensures r == Decoded(src)
  {
    hide Distance, RingHolds, Expand, Copy, Decoded, Shifted, Finish, Offset, Length;
    var ring := new Byte[RING](_ => 0);
    RingStart(ring[..]);
    var rp, out, i := 1, [], 0;
    DecodedStart(src);
    while i < |src|
      invariant 0 <= i <= |src| && RingHolds(ring[..], rp, out)
      invariant Decoded(src) == Finish(out, Parse(src[i..], 0, 0))
    {
      ghost var at := i;
      var flags := src[i];
      ParseFlags(src, i, out);
      i := i + 1;
      var bit := 0;
      while bit < 8
        invariant 0 <= bit <= 8 && at < i <= |src| && RingHolds(ring[..], rp, out)
        invariant Decoded(src) == Finish(out, Parse(src[i..], Shifted(flags, bit), 8 - bit))
      {
        if i >= |src| {
          ParseEnd(src, i, out, Shifted(flags, bit), 8 - bit);
          return Some(out);
        }
        ParseItem(src, i, out, flags, bit);
        if Shifted(flags, bit) % 2 == 1 {
          var b := src[i];
          i := i + 1;
          RingIndex(ring[..], rp, out);
          RingStep(ring[..], rp, out, b);
          ghost var was := ring[..];
          ring[rp] := b;
          assert ring[..] == was[rp := b];
          rp := (rp + 1) % RING;
          out := out + [b];
        } else {
          if i + 1 >= |src| {
            return None;
          }
          var b0, b1 := src[i], src[i + 1];
          i := i + 2;
          var off := Offset(b0, b1);
          if off == 0 {
            return Some(out);
          }
          OffsetBound(b0, b1);
          rp, out := CopyRing(ring, off, rp, Length(b1), out);
        }
        bit := bit + 1;
      }
      ParseFresh(src[i..], Shifted(flags, 8));
    }
    ParseEnd(src, i, out, 0, 0);
    r := Some(out);
  }

  lemma RingIndex(ring: seq<Byte>, rp: int, out: seq<Byte>)
    requires RingHolds(ring, rp, out)
    ensures |ring| == RING && 0 <= rp < RING
  {
  }

  lemma OffsetBound(b0: Byte, b1: Byte)
    ensures 0 <= Offset(b0, b1) < RING && 2 <= Length(b1) <= 65
  {
  }

  lemma DecodedStart(src: seq<Byte>)
    ensures Decoded(src) == Finish([], Parse(src[0..], 0, 0))
  {
    assert src[0..] == src;
  }

  lemma ParseFlags(src: seq<Byte>, i: nat, out: seq<Byte>)
    requires i < |src|
    ensures Parse(src[i..], 0, 0) == Parse(src[i + 1..], Shifted(src[i], 0), 8)
  {
    assert src[i..][1..] == src[i + 1..];
  }

  lemma ParseFresh(s: seq<Byte>, flags: Byte)
    ensures Parse(s, flags, 0) == Parse(s, 0, 0)
  {
  }

  lemma ParseEnd(src: seq<Byte>, i: nat, out: seq<Byte>, flags: Byte, n: nat)
    requires i == |src|
    ensures Finish(out, Parse(src[i..], flags, n)) == Some(out)
  {
  }

  /** What one pass of the decoder's inner loop does to the rest of the stream. */
  lemma ParseItem(src: seq<Byte>, i: nat, out: seq<Byte>, flags: Byte, bit: nat)
    requires i < |src| && bit < 8
    ensures var all := Finish(out, Parse(src[i..], Shifted(flags, bit), 8 - bit));
            if Shifted(flags, bit) % 2 == 1 then
              all == Finish(out + [src[i]], Parse(src[i + 1..], Shifted(flags, bit + 1), 8 - (bit + 1)))
            else if i + 1 >= |src| then all == None
            else
              var off, len := Offset(src[i], src[i + 1]), Length(src[i + 1]);
              if off == 0 then all == Some(out)
              else all == Finish(Copy(out, Distance(off, |out|), len),
                  Parse(src[i + 2..], Shifted(flags, bit + 1), 8 - (bit + 1)))
  {
    hide Distance, Copy, Offset, Length;
    var s := src[i..];
    assert s[1..] == src[i + 1..];
    var f := Shifted(flags, bit);
    if f % 2 == 1 {
      ExpandOne(out, Lit(s[0]), Parse(s[1..], f / 2, 8 - bit - 1));
    } else if |s| > 1 && Offset(s[0], s[1]) != 0 {
      assert s[2..] == src[i + 2..];
      ExpandOne(out, Ref(Offset(s[0], s[1]), Length(s[1])), Parse(s[2..], f / 2, 8 - bit - 1));
      OffsetBound(s[0], s[1]);
    }
  }

  // ---- The encoder ----

  const POWERS := [1, 2, 4, 8, 16, 32, 64, 128, 256]

  /** One bit per token, the first token lowest: 1 for a literal byte, 0 for a reference. */
  function Flags(ts: seq<Token>): (f: nat)
    ensures |ts| <= 8 ==> f < POWERS[|ts|]
  {
    if ts == [] then 0 else (if ts[0].Lit? then 1 else 0) + 2 * Flags(ts[1..])
  }

  function FlagByte(ts: seq<Token>): Byte
    requires |ts| <= 8
  {
    Flags(ts)
  }

  function TokenBytes(t: Token): seq<Byte>
    requires t.Valid()
  {
    if t.Lit? then [t.b] else [t.off % 256, t.off / 256 + 4 * (t.len - 2)]
  }

  predicate AllValid(ts: seq<Token>) { forall t :: t in ts ==> t.Valid() }

  function Bytes(ts: seq<Token>): seq<Byte>
    requires AllValid(ts)
  {
    if ts == [] then [] else TokenBytes(ts[0]) + Bytes(ts[1..])
  }

  /** Eight tokens to a flag byte. With `end`, an offset-0 reference closes the stream and any bytes may follow. */
  function Encode(ts: seq<Token>, end: Option<seq<Byte>>): seq<Byte>
    requires AllValid(ts)
  {
    if |ts| >= 8 then [FlagByte(ts[..8])] + Bytes(ts[..8]) + Encode(ts[8..], end)
    else if end.Some? then [FlagByte(ts)] + Bytes(ts) + ([0, 0] + end.value)
    else if ts == [] then []
    else [FlagByte(ts)] + Bytes(ts)
  }

  lemma TokenParses(t: Token, rest: seq<Byte>, flags: Byte, n: nat)
    requires t.Valid() && n > 0 && (flags % 2 == 1 <==> t.Lit?)
    ensures Parse(TokenBytes(t) + rest, flags, n) == Prepend([t], Parse(rest, flags / 2, n - 1))
  {
    var s := TokenBytes(t) + rest;
    if t.Lit? {
      assert s[1..] == rest;
    } else {
      assert s[2..] == rest;
      assert Offset(s[0], s[1]) == t.off && Length(s[1]) == t.len;
    }
  }

  lemma {:induction false} GroupParses(ts: seq<Token>, rest: seq<Byte>, n: nat)
    requires AllValid(ts) && |ts| <= n <= 8
    ensures Parse(Bytes(ts) + rest, FlagByte(ts), n) == Prepend(ts, Parse(rest, 0, n - |ts|))
  {
    if ts == [] {
      assert [] + rest == rest;
      PrependNothing(Parse(rest, 0, n));
    } else {
      var tail := ts[1..];
      assert Bytes(ts) + rest == TokenBytes(ts[0]) + (Bytes(tail) + rest);
      assert Flags(ts) / 2 == Flags(tail);
      TokenParses(ts[0], Bytes(tail) + rest, Flags(ts), n);
      GroupParses(tail, rest, n - 1);
      PrependTwice([ts[0]], tail, Parse(rest, 0, n - |ts|));
      assert [ts[0]] + tail == ts;
    }
  }

  lemma PrependNothing(p: Option<seq<Token>>)
    ensures Prepend([], p) == p
  {
    if p.Some? {
      assert [] + p.value == p.value;
    }
  }

  lemma PrependTwice(a: seq<Token>, b: seq<Token>, p: Option<seq<Token>>)
    ensures Prepend(a, Prepend(b, p)) == Prepend(a + b, p)
  {
    if p.Some? {
      assert a + (b + p.value) == a + b + p.value;
    }
  }

  lemma GroupStart(s: seq<Byte>, flags: Byte)
    ensures Parse([flags] + s, 0, 0) == Parse(s, flags, 8)
  {
    assert ([flags] + s)[1..] == s;
  }

  /** Parsing inverts encoding, with or without a terminator and whatever follows it. */
  lemma {:induction false} ParseEncoded(ts: seq<Token>, end: Option<seq<Byte>>)
    requires AllValid(ts)
    ensures Parse(Encode(ts, end), 0, 0) == Some(ts)
    decreases |ts|
  {
    hide FlagByte, Bytes, Parse, ParseToken;
    if |ts| >= 8 {
      var group, rest := ts[..8], ts[8..];
      var tail := Encode(rest, end);
      assert Encode(ts, end) == [FlagByte(group)] + (Bytes(group) + tail);
      GroupStart(Bytes(group) + tail, FlagByte(group));
      GroupParses(group, tail, 8);
      ParseFresh(tail, 0);
      ParseEncoded(rest, end);
      assert group + rest == ts;
    } else if ts != [] || end.Some? {
      var tail := if end.Some? then [0, 0] + end.value else [];
      assert Encode(ts, end) == [FlagByte(ts)] + (Bytes(ts) + tail);
      GroupStart(Bytes(ts) + tail, FlagByte(ts));
      GroupParses(ts, tail, 8);
      TailParses(end, 8 - |ts|);
      assert ts + [] == ts;
    } else {
      ParseNothing();
    }
  }

  lemma ParseNothing()
    ensures Parse([], 0, 0) == Some([])
  {
  }

  lemma TailParses(end: Option<seq<Byte>>, n: nat)
    requires n > 0
    ensures Parse(if end.Some? then [0, 0] + end.value else [], 0, n) == Some([])
  {
  }

  /** Decoding an encoded token list gives what the tokens mean. */
  lemma RoundTrip(ts: seq<Token>, end: Option<seq<Byte>>)
    requires AllValid(ts)
    ensures Decoded(Encode(ts, end)) == Some(Expand([], ts))
  {
    ParseEncoded(ts, end);
  }

  /** Every well-formed stream has a canonical encoding of the same meaning. */
  lemma Recoded(src: seq<Byte>)
    requires Parse(src, 0, 0).Some?
    ensures AllValid(Parse(src, 0, 0).value)
    ensures Decoded(Encode(Parse(src, 0, 0).value, None)) == Decoded(src)
  {
    ParseBound(src, 0, 0);
    RoundTrip(Parse(src, 0, 0).value, None);
  }

  /** Each copied byte repeats the byte d positions before it, even where the copy overlaps itself. */
  lemma {:induction false} CopyRepeats(out: seq<Byte>, d: int, len: nat, k: int)
    requires d >= 1 && |out| <= k < |out| + len
    ensures Copy(out, d, len)[k] == History(Copy(out, d, len), k - d)
    decreases len
  {
    var next := out + [History(out, |out| - d)];
    var r := Copy(next, d, len - 1);
    assert next == r[..|next|];
    if k == |out| {
      assert r[k] == next[k];
      assert k - d >= 0 ==> r[k - d] == next[k - d];
    } else {
      CopyRepeats(next, d, len - 1, k);
    }
  }

  /** The ring slot of the output byte at position p. */
  function Slot(p: int): int { (p + 1) % 0x400 }

  /** The output byte at position p went to this slot, and no later one did. */
  ghost predicate Newest(out: seq<Byte>, slot: int, p: int) {
    0 <= p < |out| && Slot(p) == slot && forall q :: p < q < |out| ==> Slot(q) != slot
  }

  lemma SlotOf(n: int, slot: int, p: int)
    requires 0 <= slot < RING && p < n
    ensures Slot(p) == slot && n - p <= RING ==> p == n - Distance(slot, n)
    ensures p == n - Distance(slot, n) ==> Slot(p) == slot && n - p <= RING
  {
    var q, r := (n - slot) / RING, (n - slot) % RING;
    assert n - slot == RING * q + r;
    if p == n - Distance(slot, n) {
      assert p + 1 == RING * q + slot;
      RingMod(p + 1, q, slot);
    }
    if Slot(p) == slot && n - p <= RING {
      var k := (p + 1) / RING;
      assert p + 1 == RING * k + slot;
      SameQuotient(q, r, k, n - 1 - p);
    }
  }

  lemma SameQuotient(q: int, r: int, k: int, d: int)
    requires RING * q + r == RING * k + d && 0 <= r < RING && 0 <= d < RING
    ensures r == d
  {
  }

  /** A reference names a ring slot: its first byte is the newest one put there, or zero where there is none. Slot 1
      is that of the first output byte. */
  lemma ReferenceReads(out: seq<Byte>, off: int, len: int, p: int)
    requires 0 <= off < RING && len >= 1
    ensures var r := Expand(out, [Ref(off, len)]);
            && |r| == |out| + len && out == r[..|out|]
            && (Newest(out, off, p) ==> r[|out|] == out[p])
            && ((forall x :: 0 <= x < |out| ==> Slot(x) != off) ==> r[|out|] == 0)
  {
    var n, d := |out|, Distance(off, |out|);
    var r := Expand(out, [Ref(off, len)]);
    assert [Ref(off, len)][1..] == [];
    assert r == Expand(Copy(out, d, len), []) == Copy(out, d, len);
    CopyRepeats(out, d, len, n);
    SlotOf(n, off, n - d);
    if Newest(out, off, p) && n - p <= RING { SlotOf(n, off, p); }
  }

  // ---- The size of the output ----

  function Sizes(ts: seq<Token>): int {
    if ts == [] then 0 else ts[0].Size() + Sizes(ts[1..])
  }

  lemma {:induction false} ExpandSize(out: seq<Byte>, ts: seq<Token>)
    requires AllValid(ts)
    ensures |Expand(out, ts)| == |out| + Sizes(ts)
    decreases |ts|
  {
    if ts != [] {
      var t := ts[0];
      assert t in ts;
      ExpandSize(if t.Lit? then out + [t.b] else Copy(out, Distance(t.off, |out|), t.len), ts[1..]);
    }
  }

  /** Every reference in a stream can be written by the encoder, and a stream of |s| bytes expands to
      at most 520/17 times its size: 65 bytes for each of the eight references behind a flag byte. */
  lemma {:induction false} ParseBound(s: seq<Byte>, flags: Byte, n: nat)
    requires Parse(s, flags, n).Some? && n <= 8
    ensures AllValid(Parse(s, flags, n).value)
    ensures 17 * Sizes(Parse(s, flags, n).value) <= 520 * |s| + 65 * n
    decreases |s|, 1
  {
    if s != [] {
      if n == 0 {
        TokenBound(s[1..], s[0], 8);
      } else {
        TokenBound(s, flags, n);
      }
    }
  }

  lemma {:induction false} TokenBound(s: seq<Byte>, flags: Byte, n: nat)
    requires 0 < n <= 8 && ParseToken(s, flags, n).Some?
    ensures AllValid(ParseToken(s, flags, n).value)
    ensures 17 * Sizes(ParseToken(s, flags, n).value) <= 520 * |s| + 65 * n
    decreases |s|, 0
  {
    hide Offset, Length;
    if s != [] && flags % 2 == 1 {
      ParseBound(s[1..], flags / 2, n - 1);
      SizesCons(Lit(s[0]), Parse(s[1..], flags / 2, n - 1).value);
    } else if |s| > 1 && Offset(s[0], s[1]) != 0 {
      OffsetBound(s[0], s[1]);
      ParseBound(s[2..], flags / 2, n - 1);
      SizesCons(Ref(Offset(s[0], s[1]), Length(s[1])), Parse(s[2..], flags / 2, n - 1).value);
    }
  }

  lemma SizesCons(t: Token, ts: seq<Token>)
    ensures Sizes([t] + ts) == t.Size() + Sizes(ts)
    ensures t.Valid() && AllValid(ts) ==> AllValid([t] + ts)
  {
    assert ([t] + ts)[1..] == ts;
  }

  /** A decoded stream is at most 520/17 times as long as its source. */
  lemma OutputBound(src: seq<Byte>)
    requires Decoded(src).Some?
    ensures 17 * |Decoded(src).value| <= 520 * |src|
  {
    ParseBound(src, 0, 0);
    ExpandSize([], Parse(src, 0, 0).value);
  }

  /** The bound is attained: by full groups of longest references. */
  lemma {:induction false} BoundAttained(ts: seq<Token>)
    requires AllValid(ts) && |ts| % 8 == 0 && forall t :: t in ts ==> t.Ref? && t.len == 65
    ensures 17 * |Expand([], ts)| == 520 * |Encode(ts, None)|
    decreases |ts|
  {
    if ts != [] {
      BoundAttained(ts[8..]);
      LongestGroup(ts[..8]);
      SizesSplit(ts, 8);
      ExpandSize([], ts[8..]);
    }
    ExpandSize([], ts);
  }

  lemma {:induction false} LongestGroup(ts: seq<Token>)
    requires AllValid(ts) && forall t :: t in ts ==> t.Ref? && t.len == 65
    ensures |Bytes(ts)| == 2 * |ts| && Sizes(ts) == 65 * |ts|
  {
    if ts != [] {
      assert ts[0] in ts;
      LongestGroup(ts[1..]);
    }
  }

  lemma {:induction false} SizesSplit(ts: seq<Token>, k: nat)
    requires k <= |ts|
    ensures Sizes(ts) == Sizes(ts[..k]) + Sizes(ts[k..])
  {
    if k > 0 {
      SizesSplit(ts[1..], k - 1);
      assert ts[..k][1..] == ts[1..][..k - 1] && ts[1..][k - 1..] == ts[k..];
    } else {
      assert ts[0..] == ts;
    }
  }
}
