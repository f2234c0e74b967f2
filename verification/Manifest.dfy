/** Function identities and their manifests: hashing code ranges out of a capture, writing the
    manifest beside a compiled overlay, and reading identities and ranges back from its text. */
module Manifest {
  import opened Crc
  import opened Mips

  datatype Range = Range(lo: nat, len: nat)

  datatype FuncId = FuncId(ev: nat, crc: nat, ranges: seq<Range>)

  const KSEG0 := 0x8000_0000

  function Virt(a: nat): nat { Phys(a) + KSEG0 }

  // ---- Hashing ----

  /** Where a range lies in the captured bytes, if it lies there entirely. */
  predicate Inside(data: seq<bv8>, base: nat, r: Range) {
    base <= Phys(r.lo) && Phys(r.lo) - base + r.len <= |data|
  }

  predicate AllInside(data: seq<bv8>, base: nat, rs: seq<Range>) { forall r :: r in rs ==> Inside(data, base, r) }

  function Slice(data: seq<bv8>, base: nat, r: Range): seq<bv8>
    requires Inside(data, base, r)
  {
    var off := Phys(r.lo) - base;
    data[off..off + r.len]
  }

  /** The bytes of all ranges, one after the other. */
  function CodeBytes(data: seq<bv8>, base: nat, rs: seq<Range>): seq<bv8>
    requires AllInside(data, base, rs)
  {
    if rs == [] then []
    else CodeBytes(data, base, rs[..|rs| - 1]) + Slice(data, base, rs[|rs| - 1])
  }

  function CodeCrc(data: seq<bv8>, base: nat, rs: seq<Range>): bv32
    requires AllInside(data, base, rs)
  {
    Crc32(CodeBytes(data, base, rs), 0)
  }

  /** The running checksum over the ranges is the checksum of their bytes joined; a function with a
      range outside the capture has none. */
  method HashRanges(data: seq<bv8>, base: nat, rs: seq<Range>) returns (crc: Option<bv32>)
    ensures crc.Some? <==> AllInside(data, base, rs)
    ensures crc.Some? ==> crc.value == CodeCrc(data, base, rs)
  {
    hide Crc32;
    var c: bv32 := 0;
    EmptyCrc();
    for k := 0 to |rs|
      invariant AllInside(data, base, rs[..k]) && c == CodeCrc(data, base, rs[..k])
    {
      var r := rs[k];
      assert r in rs;
      var off := Phys(r.lo) - base;
      if off < 0 || off + r.len > |data| {
        return None;
      }
      assert rs[..k + 1][..k] == rs[..k];
      Continues(CodeBytes(data, base, rs[..k]), Slice(data, base, r), 0);
      c := Crc32(data[off..off + r.len], c);
    }
    assert rs[..|rs|] == rs;
    crc := Some(c);
  }

  lemma EmptyCrc()
    ensures Crc32([], 0) == 0
  {
  }

  lemma {:induction false} CodeBytesAppend(data: seq<bv8>, base: nat, a: seq<Range>, b: seq<Range>)
    requires AllInside(data, base, a + b)
    ensures AllInside(data, base, a) && AllInside(data, base, b)
    ensures CodeBytes(data, base, a + b) == CodeBytes(data, base, a) + CodeBytes(data, base, b)
    decreases |b|
  {
    hide Inside, Slice;
    assert forall r :: r in a + b <==> r in a || r in b;
    if b == [] {
      assert a + b == a;
    } else {
      var n := |b| - 1;
      assert (a + b)[..|a| + n] == a + b[..n];
      CodeBytesAppend(data, base, a, b[..n]);
    }
  }

  /** The two pieces of a range cut behind its first k bytes. */
  function Cut(r: Range, k: nat): seq<Range>
    requires k <= r.len
  {
    [Range(r.lo, k), Range(r.lo + k, r.len - k)]
  }

  lemma CutSlice(data: seq<bv8>, base: nat, r: Range, k: nat)
    requires base + |data| <= PHYSICAL && k < r.len && Inside(data, base, r)
    ensures Inside(data, base, Cut(r, k)[0]) && Inside(data, base, Cut(r, k)[1])
    ensures Slice(data, base, Cut(r, k)[0]) + Slice(data, base, Cut(r, k)[1]) == Slice(data, base, r)
  {
    PhysStep(r.lo, k);
    hide Phys;
  }

  lemma CutBytes(data: seq<bv8>, base: nat, r: Range, k: nat)
    requires base + |data| <= PHYSICAL && k < r.len && Inside(data, base, r)
    ensures AllInside(data, base, Cut(r, k)) && AllInside(data, base, [r])
    ensures CodeBytes(data, base, Cut(r, k)) == CodeBytes(data, base, [r])
  {
    hide Inside, Slice;
    CutSlice(data, base, r, k);
    var cut := Cut(r, k);
    assert cut[..1] == [cut[0]] && [cut[0]][..0] == [] && [r][..0] == [];
    assert CodeBytes(data, base, [r]) == Slice(data, base, r);
    assert CodeBytes(data, base, [cut[0]]) == Slice(data, base, cut[0]);
  }

  /** Cutting a range into two adjacent pieces changes no identity. */
  lemma SplitKeeps(data: seq<bv8>, base: nat, a: seq<Range>, r: Range, k: nat, b: seq<Range>)
    requires base + |data| <= PHYSICAL && k < r.len && AllInside(data, base, a + [r] + b)
    ensures AllInside(data, base, a + Cut(r, k) + b)
    ensures CodeCrc(data, base, a + Cut(r, k) + b) == CodeCrc(data, base, a + [r] + b)
  {
    hide Crc32, Inside, CodeBytes, Cut;
    assert r in a + [r] + b;
    CutBytes(data, base, r, k);
    var cut := Cut(r, k);
    assert forall x :: x in a + cut + b ==> x in a + [r] + b || x in cut;
    CodeBytesAppend(data, base, a + [r], b);
    CodeBytesAppend(data, base, a, [r]);
    CodeBytesAppend(data, base, a + cut, b);
    CodeBytesAppend(data, base, a, cut);
  }

  lemma PhysStep(lo: nat, k: nat)
    requires Phys(lo) + k < PHYSICAL
    ensures Phys(lo + k) == Phys(lo) + k
  {
  }

  /** Bytes outside the ranges do not matter. */
  lemma {:induction false} OutsideIgnored(x: seq<bv8>, y: seq<bv8>, base: nat, rs: seq<Range>)
    requires |x| == |y| && AllInside(x, base, rs)
    requires forall r :: r in rs ==> Slice(x, base, r) == Slice(y, base, r)
    ensures AllInside(y, base, rs) && CodeBytes(x, base, rs) == CodeBytes(y, base, rs)
    ensures CodeCrc(x, base, rs) == CodeCrc(y, base, rs)
  {
    hide Crc32;
    if rs != [] {
      var n := |rs| - 1;
      assert rs[n] in rs;
      OutsideIgnored(x, y, base, rs[..n]);
    }
  }

  // ---- Numbers in hexadecimal ----

  function Digit(d: nat): char
    requires d < 16
  {
    "0123456789ABCDEF"[d]
  }

  function DigitValue(c: char): Option<nat> {
    if '0' <= c <= '9' then Some(c as int - '0' as int)
    else if 'A' <= c <= 'F' then Some(c as int - 'A' as int + 10)
    else if 'a' <= c <= 'f' then Some(c as int - 'a' as int + 10)
    else None
  }

  function Hex(n: nat): string {
    (if n < 16 then [] else Hex(n / 16)) + [Digit(n % 16)]
  }

  function Padded(n: nat, width: nat): string {
    Padding(width - |Hex(n)|) + Hex(n)
  }

  function Padding(k: int): string { if k <= 0 then [] else ['0'] + Padding(k - 1) }

  /** The number a text stands for: an optional sign, an optional prefix and digits, with single underscores
      between them; None for text that is not such a number, and for numbers below zero. */
  function Number(s: string): Option<nat> {
    if s != [] && s[0] == '-' then
      var n := Digits(Unprefixed(s[1..]));
      if n == Some(0) then n else None
    else Digits(Unprefixed(if s != [] && s[0] == '+' then s[1..] else s))
  }

  function Unprefixed(s: string): string {
    if |s| >= 2 && s[0] == '0' && (s[1] == 'x' || s[1] == 'X') then
      if |s| >= 3 && s[2] == '_' then s[3..] else s[2..]
    else s
  }

  function Digits(s: string): Option<nat> {
    if s == [] || DigitValue(s[0]).None? then None else Continue(DigitValue(s[0]).value, s[1..])
  }

  /** The number read so far, continued with the rest of its text. */
  function Continue(n: nat, s: string): Option<nat>
    decreases |s|
  {
    if s == [] then Some(n)
    else
      var k := if s[0] == '_' && |s| >= 2 then 1 else 0;
      if DigitValue(s[k]).None? then None
      else Continue(16 * n + DigitValue(s[k]).value, s[k + 1..])
  }

  lemma DigitBack(d: nat)
    requires d < 16
    ensures DigitValue(Digit(d)) == Some(d)
  {
  }

  predicate AllDigits(s: string) { forall i :: 0 <= i < |s| ==> DigitValue(s[i]).Some? }

  lemma {:induction false} ContinueAppend(n: nat, s: string, c: char)
    requires AllDigits(s) && DigitValue(c).Some?
    ensures Continue(n, s).Some? && Continue(n, s + [c]) == Some(16 * Continue(n, s).value + DigitValue(c).value)
    decreases |s|
  {
    NotDigits();
    hide DigitValue;
    if s == [] {
      assert s + [c] == [c];
      assert [c][1..] == [];
    } else {
      assert (s + [c])[1..] == s[1..] + [c];
      ContinueAppend(16 * n + DigitValue(s[0]).value, s[1..], c);
    }
  }

  lemma NotDigits()
    ensures DigitValue('_').None? && DigitValue('x').None? && DigitValue('X').None?
    ensures DigitValue('+').None? && DigitValue('-').None? && DigitValue('0') == Some(0)
  {
  }

  lemma {:induction false} ContinueHex(n: nat)
    ensures AllDigits(Hex(n)) && Continue(0, Hex(n)) == Some(n)
  {
    hide DigitValue, Digit;
    DigitBack(n % 16);
    if n < 16 {
      assert Hex(n) == [] + [Digit(n)];
      ContinueAppend(0, [], Digit(n));
    } else {
      ContinueHex(n / 16);
      ContinueAppend(0, Hex(n / 16), Digit(n % 16));
    }
  }

  lemma {:induction false} ContinuePadding(k: int, s: string)
    requires AllDigits(s)
    ensures AllDigits(Padding(k) + s) && Continue(0, Padding(k) + s) == Continue(0, s)
    decreases k
  {
    NotDigits();
    hide DigitValue;
    if k <= 0 {
      assert Padding(k) + s == s;
    } else {
      assert (Padding(k) + s)[1..] == Padding(k - 1) + s;
      ContinuePadding(k - 1, s);
    }
  }

  /** Text of digits alone has no sign and no prefix to take off. */
  lemma PlainNumber(s: string)
    requires AllDigits(s) && s != []
    ensures Number(s) == Continue(0, s)
  {
    NotDigits();
    hide DigitValue;
  }

  /** Reading back a printed number, padded or not. */
  lemma NumberBack(n: nat, width: nat)
    ensures Number(Padded(n, width)) == Some(n) && Number(Hex(n)) == Some(n)
  {
    hide Continue, Hex, Padding, AllDigits;
    HexToken(n);
    ContinueHex(n);
    ContinuePadding(width - |Hex(n)|, Hex(n));
    hide Number;
    PlainNumber(Hex(n));
    PlainNumber(Padded(n, width));
  }

  predicate Printed(s: string) { forall i :: 0 <= i < |s| ==> '0' <= s[i] <= '9' || 'A' <= s[i] <= 'F' }

  lemma {:induction false} HexSize(n: nat, k: nat, limit: nat)
    requires k > 0 && limit == Power16(k) && n < limit
    ensures |Hex(n)| <= k && Printed(Hex(n))
  {
    if n >= 16 {
      assert k > 1;
      HexSize(n / 16, k - 1, Power16(k - 1));
    }
  }

  function Power16(k: nat): nat { if k == 0 then 1 else 16 * Power16(k - 1) }

  lemma {:induction false} PaddingIs(k: int)
    ensures |Padding(k)| == (if k <= 0 then 0 else k) && Printed(Padding(k))
  {
    if k > 0 { PaddingIs(k - 1); }
  }

  /** A word is printed with eight digits, the letters capital. */
  lemma EightDigits(n: nat)
    requires n < 0x1_0000_0000
    ensures |Padded(n, 8)| == 8 && Printed(Padded(n, 8))
  {
    assert Power16(8) == 0x1_0000_0000;
    HexSize(n, 8, 0x1_0000_0000);
    PaddingIs(8 - |Hex(n)|);
    hide Hex, Padding;
  }

  lemma PlainUnprefixed(t: string)
    requires AllDigits(t) && t != []
    ensures Unprefixed(t) == t && t[0] !in {'+', '-', '_'} && Digits(t) == Number(t)
  {
    NotDigits();
    hide DigitValue;
  }

  /** A sign and a prefix before digits do not change the number; a minus leaves zero only. */
  lemma NumberForms(t: string)
    requires AllDigits(t) && t != []
    ensures Number(['+'] + t) == Number(t)
    ensures Number(['0', 'x'] + t) == Number(t) == Number(['0', 'X'] + t) == Number(['0', 'x', '_'] + t)
    ensures Number(['-'] + t) == if Number(t) == Some(0) then Some(0) else None
  {
    PlainUnprefixed(t);
    hide Digits, AllDigits;
    assert (['+'] + t)[1..] == t && (['-'] + t)[1..] == t;
    assert (['0', 'x'] + t)[2..] == t && (['0', 'X'] + t)[2..] == t && (['0', 'x', '_'] + t)[3..] == t;
  }

  lemma {:induction false} ContinueUnderscore(n: nat, a: string, b: string)
    requires AllDigits(a) && AllDigits(b) && b != []
    ensures Continue(n, a + ['_'] + b) == Continue(n, a + b)
    ensures Continue(n, a + ['_']).None? && Continue(n, a + ['_', '_'] + b).None?
    decreases |a|
  {
    if a == [] {
      UnderscoreFirst(n, b);
      assert [] + ['_'] + b == ['_'] + b && [] + b == b && [] + ['_'] == ['_'] && [] + ['_', '_'] + b == ['_', '_'] + b;
    } else {
      hide DigitValue, Continue;
      ContinueDigit(n, a, ['_'] + b);
      ContinueDigit(n, a, b);
      ContinueDigit(n, a, ['_']);
      ContinueDigit(n, a, ['_', '_'] + b);
      ContinueUnderscore(16 * n + DigitValue(a[0]).value, a[1..], b);
      Joins(a, b);
      Joins(a[1..], b);
    }
  }

  lemma Joins(a: string, b: string)
    ensures a + ['_'] + b == a + (['_'] + b) && a + ['_', '_'] + b == a + (['_', '_'] + b)
  {
  }

  lemma ContinueDigit(n: nat, a: string, s: string)
    requires AllDigits(a) && a != []
    ensures Continue(n, a + s) == Continue(16 * n + DigitValue(a[0]).value, a[1..] + s)
  {
    NotDigits();
    hide DigitValue;
    assert (a + s)[1..] == a[1..] + s;
  }

  lemma UnderscoreFirst(n: nat, b: string)
    requires AllDigits(b) && b != []
    ensures Continue(n, ['_'] + b) == Continue(n, b)
    ensures Continue(n, ['_']).None? && Continue(n, ['_', '_'] + b).None?
  {
    NotDigits();
    hide DigitValue;
    assert (['_'] + b)[2..] == b[1..];
  }

  /** A single underscore may stand between digits, and nowhere else. */
  lemma Underscores(a: string, b: string)
    requires AllDigits(a) && AllDigits(b) && a != [] && b != []
    ensures Number(a + ['_'] + b) == Number(a + b)
    ensures Number(a + ['_']).None? && Number(['_'] + a).None? && Number(a + ['_', '_'] + b).None?
  {
    NotDigits();
    hide DigitValue, Continue;
    var v := DigitValue(a[0]).value;
    assert (a + ['_'] + b)[1..] == a[1..] + ['_'] + b && (a + b)[1..] == a[1..] + b;
    assert (a + ['_'])[1..] == a[1..] + ['_'] && (a + ['_', '_'] + b)[1..] == a[1..] + ['_', '_'] + b;
    ContinueUnderscore(v, a[1..], b);
  }

  /** A capital digit as a small one. */
  function Small(c: char): char { if 'A' <= c <= 'F' then (c as int + 32) as char else c }

  function AllSmall(s: string): string { seq(|s|, i requires 0 <= i < |s| => Small(s[i])) }

  lemma {:induction false} ContinueSmall(n: nat, s: string)
    requires AllDigits(s)
    ensures AllDigits(AllSmall(s)) && Continue(n, AllSmall(s)) == Continue(n, s)
    decreases |s|
  {
    forall i | 0 <= i < |s| ensures DigitValue(AllSmall(s)[i]) == DigitValue(s[i]) { SameValue(s[i]); }
    NotDigits();
    hide DigitValue;
    if s != [] {
      assert AllSmall(s)[1..] == AllSmall(s[1..]);
      ContinueSmall(16 * n + DigitValue(s[0]).value, s[1..]);
    }
  }

  lemma SameValue(c: char)
    ensures DigitValue(Small(c)) == DigitValue(c)
  {
  }

  /** Digits may be written small. */
  lemma SmallDigits(s: string)
    requires AllDigits(s) && s != []
    ensures Number(AllSmall(s)) == Number(s)
  {
    hide DigitValue, Continue, Number;
    ContinueSmall(0, s);
    PlainNumber(s);
    PlainNumber(AllSmall(s));
  }

  // ---- Lines and their fields ----

  /** The white space of ASCII, separator characters included. */
  predicate IsSpace(c: char) { c == ' ' || 9 <= c as int <= 13 || 28 <= c as int <= 31 }

  function TokenLength(s: string): nat {
    if s == [] || IsSpace(s[0]) then 0 else 1 + TokenLength(s[1..])
  }

  lemma {:induction false} TokenBound(s: string)
    ensures TokenLength(s) <= |s|
  {
    if s != [] && !IsSpace(s[0]) {
      TokenBound(s[1..]);
    }
  }

  /** The fields of a line: what stands between white space. */
  function Fields(s: string): seq<string>
    decreases |s|
  {
    if s == [] then []
    else if IsSpace(s[0]) then Fields(s[1..])
    else
      TokenBound(s);
      var k := TokenLength(s);
      [s[..k]] + Fields(s[k..])
  }

  predicate IsToken(t: string) { t != [] && forall i :: 0 <= i < |t| ==> !IsSpace(t[i]) }

  lemma {:induction false} TokenLengthOf(t: string, c: char, rest: string)
    requires (forall i :: 0 <= i < |t| ==> !IsSpace(t[i])) && IsSpace(c)
    ensures TokenLength(t + [c] + rest) == |t|
  {
    var s := t + [c] + rest;
    if t == [] {
      assert s[0] == c;
    } else {
      assert s[1..] == t[1..] + [c] + rest;
      TokenLengthOf(t[1..], c, rest);
    }
  }

  lemma FieldsToken(t: string, c: char, rest: string)
    requires IsToken(t) && IsSpace(c)
    ensures Fields(t + [c] + rest) == [t] + Fields(rest)
  {
    hide IsSpace;
    var s := t + [c] + rest;
    TokenLengthOf(t, c, rest);
    assert s[..|t|] == t && s[|t|..] == [c] + rest;
    assert ([c] + rest)[1..] == rest;
  }

  /** The characters that separate fields. */
  lemma Separators(t: string, k: int, rest: string)
    requires IsToken(t) && 0 <= k < 128
    ensures k in {9, 10, 11, 12, 13, 28, 29, 30, 31, 32} ==> Fields(t + [k as char] + rest) == [t] + Fields(rest)
    ensures k !in {9, 10, 11, 12, 13, 28, 29, 30, 31, 32} ==> IsToken(t + [k as char])
  {
    var c := k as char;
    assert IsSpace(c) <==> k in {9, 10, 11, 12, 13, 28, 29, 30, 31, 32};
    hide IsSpace, Fields;
    if IsSpace(c) { FieldsToken(t, c, rest); }
  }

  /** A line of three fields, as the manifest writer prints it. */
  function LineOf(a: string, b: string, c: string): string { a + [' '] + (b + [' '] + (c + ['\n'] + [])) }

  lemma LineFields(a: string, b: string, c: string)
    requires IsToken(a) && IsToken(b) && IsToken(c)
    ensures Fields(LineOf(a, b, c)) == [a, b, c]
  {
    hide IsToken;
    FieldsToken(c, '\n', []);
    FieldsToken(b, ' ', c + ['\n'] + []);
    FieldsToken(a, ' ', b + [' '] + (c + ['\n'] + []));
  }

  lemma DigitNoSpace(d: nat)
    requires d < 16
    ensures !IsSpace(Digit(d))
  {
  }

  lemma {:induction false} HexToken(n: nat)
    ensures IsToken(Hex(n))
  {
    hide Digit, IsSpace;
    DigitNoSpace(n % 16);
    if n >= 16 {
      HexToken(n / 16);
    }
  }

  lemma {:induction false} PaddingNoSpace(k: int)
    ensures forall i :: 0 <= i < |Padding(k)| ==> !IsSpace(Padding(k)[i])
    decreases k
  {
    if k > 0 {
      PaddingNoSpace(k - 1);
    }
  }

  lemma PaddedToken(n: nat, width: nat)
    ensures IsToken(Padded(n, width))
  {
    hide Hex, Padding, IsSpace;
    HexToken(n);
    PaddingNoSpace(width - |Hex(n)|);
  }

  // ---- Manifests ----

  const FUNC: string := ['F']
  const SPAN: string := ['R']
  const HEADER: string := ['#'] + [' '] + "psxrecomp overlay code-range manifest v2 (entry+code_crc)\n"

  function FuncLine(f: FuncId): string { LineOf(FUNC, Padded(f.ev, 8), Padded(f.crc, 8)) }
  function SpanLine(r: Range): string { LineOf(SPAN, Padded(Virt(r.lo), 8), Hex(r.len)) }

  function SpanLines(rs: seq<Range>): seq<string> {
    if rs == [] then [] else SpanLines(rs[..|rs| - 1]) + [SpanLine(rs[|rs| - 1])]
  }

  function Lines(ids: seq<FuncId>): seq<string> {
    if ids == [] then [HEADER]
    else
      var f := ids[|ids| - 1];
      Lines(ids[..|ids| - 1]) + [FuncLine(f)] + SpanLines(f.ranges)
  }

  method WriteManifest(ids: seq<FuncId>) returns (lines: seq<string>)
    ensures lines == Lines(ids)
  {
    hide FuncLine, SpanLine;
    lines := [HEADER];
    for i := 0 to |ids|
      invariant lines == Lines(ids[..i])
    {
      var f := ids[i];
      assert ids[..i + 1][..i] == ids[..i];
      lines := lines + [FuncLine(f)];
      ghost var before := lines;
      for j := 0 to |f.ranges|
        invariant lines == before + SpanLines(f.ranges[..j])
      {
        assert f.ranges[..j + 1][..j] == f.ranges[..j];
        lines := lines + [SpanLine(f.ranges[j])];
      }
      assert f.ranges[..|f.ranges|] == f.ranges;
    }
    assert ids[..|ids|] == ids;
  }

  /** The two numbers of a line with the given first field. */
  function Numbers(line: string, tag: string): Option<(nat, nat)> {
    var p := Fields(line);
    if |p| >= 3 && p[0] == tag && Number(p[1]).Some? && Number(p[2]).Some?
        then Some((Number(p[1]).value, Number(p[2]).value))
    else None
  }

  /** The identities in a manifest. */
  function Covered(lines: seq<string>): set<(nat, nat)> {
    if lines == [] then {}
    else
      var n := |lines| - 1;
      Covered(lines[..n]) + if Numbers(lines[n], FUNC).Some? then {Numbers(lines[n], FUNC).value} else {}
  }

  /** The physical code ranges in a manifest, in order. */
  function Spans(lines: seq<string>): seq<Range> {
    if lines == [] then []
    else
      var n := |lines| - 1;
      var p := Numbers(lines[n], SPAN);
      Spans(lines[..n]) + if p.Some? then [Range(Phys(p.value.0), p.value.1)] else []
  }

  method ReadCoverage(lines: seq<string>) returns (covered: set<(nat, nat)>)
    ensures covered == Covered(lines)
  {
    hide Fields, Number;
    covered := {};
    for k := 0 to |lines|
      invariant covered == Covered(lines[..k])
    {
      assert lines[..k + 1][..k] == lines[..k];
      var p := Fields(lines[k]);
      if |p| >= 3 && p[0] == FUNC {
        var ev, crc := Number(p[1]), Number(p[2]);
        if ev.Some? && crc.Some? {
          covered := covered + {(ev.value, crc.value)};
        }
      }
    }
    assert lines[..|lines|] == lines;
  }

  function Identities(ids: seq<FuncId>): set<(nat, nat)> { set f | f in ids :: (f.ev, f.crc) }

  function PhysRanges(rs: seq<Range>): seq<Range> {
    if rs == [] then [] else PhysRanges(rs[..|rs| - 1]) + [Range(Phys(rs[|rs| - 1].lo), rs[|rs| - 1].len)]
  }

  function AllRanges(ids: seq<FuncId>): seq<Range> {
    if ids == [] then [] else AllRanges(ids[..|ids| - 1]) + PhysRanges(ids[|ids| - 1].ranges)
  }

  lemma TagTokens()
    ensures IsToken(FUNC) && IsToken(SPAN) && FUNC != SPAN
  {
  }

  lemma FuncLineReads(f: FuncId)
    ensures Numbers(FuncLine(f), FUNC) == Some((f.ev, f.crc)) && Numbers(FuncLine(f), SPAN) == None
  {
    hide Fields, Number, Padded, IsToken, LineOf;
    TagTokens();
    PaddedToken(f.ev, 8);
    PaddedToken(f.crc, 8);
    LineFields(FUNC, Padded(f.ev, 8), Padded(f.crc, 8));
    NumberBack(f.ev, 8);
    NumberBack(f.crc, 8);
  }

  lemma SpanLineReads(r: Range)
    ensures Numbers(SpanLine(r), SPAN) == Some((Virt(r.lo), r.len)) && Numbers(SpanLine(r), FUNC) == None
    ensures Phys(Virt(r.lo)) == Phys(r.lo)
  {
    hide Fields, Number, Padded, IsToken, LineOf, Hex;
    TagTokens();
    PaddedToken(Virt(r.lo), 8);
    HexToken(r.len);
    LineFields(SPAN, Padded(Virt(r.lo), 8), Hex(r.len));
    NumberBack(Virt(r.lo), 8);
    NumberBack(r.len, 0);
  }

  lemma HeaderIgnored()
    ensures Numbers(HEADER, FUNC) == None && Numbers(HEADER, SPAN) == None
  {
    hide Fields, Number;
    var rest := "psxrecomp overlay code-range manifest v2 (entry+code_crc)\n";
    FieldsToken(['#'], ' ', rest);
  }

  lemma {:induction false} ReadAppend(a: seq<string>, b: seq<string>)
    ensures Covered(a + b) == Covered(a) + Covered(b) && Spans(a + b) == Spans(a) + Spans(b)
    decreases |b|
  {
    hide Numbers;
    if b == [] {
      assert a + b == a;
    } else {
      var n := |b| - 1;
      assert (a + b)[..|a| + n] == a + b[..n];
      ReadAppend(a, b[..n]);
    }
  }

  lemma {:induction false} SpanLinesRead(rs: seq<Range>)
    ensures Covered(SpanLines(rs)) == {} && Spans(SpanLines(rs)) == PhysRanges(rs)
  {
    hide Numbers, SpanLine;
    if rs != [] {
      var n := |rs| - 1;
      SpanLinesRead(rs[..n]);
      SpanLineReads(rs[n]);
      var before := SpanLines(rs[..n]);
      assert (before + [SpanLine(rs[n])])[..|before|] == before;
    }
  }

  lemma ReadFunction(before: seq<string>, f: FuncId)
    ensures Covered(before + [FuncLine(f)] + SpanLines(f.ranges)) == Covered(before) + {(f.ev, f.crc)}
    ensures Spans(before + [FuncLine(f)] + SpanLines(f.ranges)) == Spans(before) + PhysRanges(f.ranges)
  {
    hide Numbers, FuncLine, SpanLines, PhysRanges;
    ReadAppend(before + [FuncLine(f)], SpanLines(f.ranges));
    SpanLinesRead(f.ranges);
    assert (before + [FuncLine(f)])[..|before|] == before;
    FuncLineReads(f);
  }

  lemma IdentitiesNext(ids: seq<FuncId>, f: FuncId)
    ensures Identities(ids + [f]) == Identities(ids) + {(f.ev, f.crc)}
  {
  }

  /** A manifest read back gives exactly the identities and the physical ranges it was written from. */
  lemma {:induction false} ReadBack(ids: seq<FuncId>)
    ensures Covered(Lines(ids)) == Identities(ids) && Spans(Lines(ids)) == AllRanges(ids)
  {
    hide Numbers, FuncLine, SpanLines, PhysRanges;
    if ids == [] {
      HeaderIgnored();
      assert [HEADER][..0] == [];
    } else {
      var n := |ids| - 1;
      var f := ids[n];
      ReadBack(ids[..n]);
      ReadFunction(Lines(ids[..n]), f);
      IdentitiesNext(ids[..n], f);
      assert ids == ids[..n] + [f];
    }
  }

  // ---- Parsing the recompiler's manifest ----

  datatype Func = Func(addr: nat, ranges: seq<Range>)

  /** The functions met so far, and whether the last one still takes ranges. */
  datatype Parsed = Parsed(funcs: seq<Func>, open: bool)

  predicate InOverlay(a: nat, base: nat, size: nat) { base <= Phys(a) < base + size }

  function AddRange(p: Parsed, r: Range): Parsed
    requires p.funcs != []
  {
    var n := |p.funcs| - 1;
    p.(funcs := p.funcs[n := p.funcs[n].(ranges := p.funcs[n].ranges + [r])])
  }

  function Take(p: Parsed, fields: seq<string>, base: nat, size: nat): Parsed {
    if fields == [] then p
    else if fields[0] == FUNC then
      if |fields| < 2 || Number(fields[1]).None? then p.(open := false)
      else if InOverlay(Number(fields[1]).value, base, size)
          then Parsed(p.funcs + [Func(Number(fields[1]).value, [])], true)
      else p.(open := false)
    else if fields[0] == SPAN && p.open && p.funcs != [] then
      if |fields| < 3 || Number(fields[1]).None? || Number(fields[2]).None? then p
      else AddRange(p, Range(Number(fields[1]).value, Number(fields[2]).value))
    else p
  }

  function Parse(p: Parsed, lines: seq<string>, base: nat, size: nat): Parsed {
    if lines == [] then p
    else Take(Parse(p, lines[..|lines| - 1], base, size), Fields(lines[|lines| - 1]), base, size)
  }

  /** The identities of the functions that have ranges, all inside the capture. */
  function Hashed(fs: seq<Func>, data: seq<bv8>, base: nat): seq<FuncId> {
    if fs == [] then []
    else
      var f := fs[|fs| - 1];
      Hashed(fs[..|fs| - 1], data, base)
      + if f.ranges != [] && AllInside(data, base, f.ranges)
        then [FuncId(Virt(f.addr), CodeCrc(data, base, f.ranges) as nat, f.ranges)] else []
  }

  function FuncIds(lines: seq<string>, data: seq<bv8>, base: nat, size: nat): seq<FuncId> {
    Hashed(Parse(Parsed([], false), lines, base, size).funcs, data, base)
  }

  method ParseFuncIds(lines: seq<string>, data: seq<bv8>, load: nat, size: nat) returns (ids: seq<FuncId>)
    ensures ids == FuncIds(lines, data, Phys(load), size)
  {
    hide Fields, Take, CodeCrc, AllInside, Phys;
    var base := Phys(load);
    var p := Parsed([], false);
    for k := 0 to |lines|
      invariant p == Parse(Parsed([], false), lines[..k], base, size)
    {
      assert lines[..k + 1][..k] == lines[..k];
      p := TakeLine(p, Fields(lines[k]), base, size);
    }
    assert lines[..|lines|] == lines;
    ids := [];
    for k := 0 to |p.funcs|
      invariant ids == Hashed(p.funcs[..k], data, base)
    {
      assert p.funcs[..k + 1][..k] == p.funcs[..k];
      var f := p.funcs[k];
      if f.ranges != [] {
        var crc := HashRanges(data, base, f.ranges);
        if crc.Some? {
          ids := ids + [FuncId(Virt(f.addr), crc.value as nat, f.ranges)];
        }
      }
    }
    assert p.funcs[..|p.funcs|] == p.funcs;
  }

  /** What one line does to the list of functions. */
  method TakeLine(p: Parsed, fields: seq<string>, base: nat, size: nat) returns (q: Parsed)
    ensures q == Take(p, fields, base, size)
  {
    hide Number, InOverlay;
    q := p;
    if fields == [] {
      return;
    }
    if fields[0] == FUNC {
      var addr := if |fields| < 2 then None else Number(fields[1]);
      if addr.None? {
        q := q.(open := false);
      } else if InOverlay(addr.value, base, size) {
        q := Parsed(q.funcs + [Func(addr.value, [])], true);
      } else {
        q := q.(open := false);
      }
    } else if fields[0] == SPAN && q.open && q.funcs != [] {
      var lo := if |fields| < 3 then None else Number(fields[1]);
      var length := if |fields| < 3 then None else Number(fields[2]);
      if lo.Some? && length.Some? {
        q := AddRange(q, Range(lo.value, length.value));
      }
    }
  }

  // ---- Parsing a written manifest ----

  function VirtRanges(rs: seq<Range>): (r: seq<Range>)
    ensures |r| == |rs|
  {
    if rs == [] then [] else VirtRanges(rs[..|rs| - 1]) + [Range(Virt(rs[|rs| - 1].lo), rs[|rs| - 1].len)]
  }

  function Normal(ids: seq<FuncId>): seq<FuncId> {
    if ids == [] then [] else Normal(ids[..|ids| - 1]) + [ids[|ids| - 1].(ranges := VirtRanges(ids[|ids| - 1].ranges))]
  }

  /** An identity that hashing this capture gives. */
  predicate Genuine(f: FuncId, data: seq<bv8>, base: nat, size: nat) {
    && f.ev == Virt(f.ev) && InOverlay(f.ev, base, size) && f.ranges != []
    && AllInside(data, base, f.ranges) && f.crc == CodeCrc(data, base, f.ranges) as nat
  }

  function Functions(ids: seq<FuncId>): seq<Func> {
    if ids == [] then [] else Functions(ids[..|ids| - 1]) + [Func(ids[|ids| - 1].ev, VirtRanges(ids[|ids| - 1].ranges))]
  }

  lemma {:induction false} ParseAppend(p: Parsed, a: seq<string>, b: seq<string>, base: nat, size: nat)
    ensures Parse(p, a + b, base, size) == Parse(Parse(p, a, base, size), b, base, size)
    decreases |b|
  {
    hide Take, Fields;
    if b == [] {
      assert a + b == a;
    } else {
      var n := |b| - 1;
      assert (a + b)[..|a| + n] == a + b[..n];
      ParseAppend(p, a, b[..n], base, size);
    }
  }

  lemma FuncLineTaken(p: Parsed, f: FuncId, base: nat, size: nat)
    ensures Take(p, Fields(FuncLine(f)), base, size) ==
            if InOverlay(f.ev, base, size) then Parsed(p.funcs + [Func(f.ev, [])], true) else p.(open := false)
  {
    hide Fields, Number, Padded, IsToken, LineOf, InOverlay;
    TagTokens();
    PaddedToken(f.ev, 8);
    PaddedToken(f.crc, 8);
    LineFields(FUNC, Padded(f.ev, 8), Padded(f.crc, 8));
    NumberBack(f.ev, 8);
  }

  lemma SpanLineTaken(p: Parsed, r: Range, base: nat, size: nat)
    requires p.open && p.funcs != []
    ensures Take(p, Fields(SpanLine(r)), base, size) == AddRange(p, Range(Virt(r.lo), r.len))
  {
    hide Fields, Number, Padded, IsToken, LineOf, Hex, Virt, AddRange;
    TagTokens();
    PaddedToken(Virt(r.lo), 8);
    HexToken(r.len);
    LineFields(SPAN, Padded(Virt(r.lo), 8), Hex(r.len));
    NumberBack(Virt(r.lo), 8);
    NumberBack(r.len, 0);
  }

  lemma {:induction false} SpanLinesTaken(fs: seq<Func>, a: nat, rs: seq<Range>, base: nat, size: nat)
    ensures Parse(Parsed(fs + [Func(a, [])], true), SpanLines(rs), base, size) ==
            Parsed(fs + [Func(a, VirtRanges(rs))], true)
  {
    hide Take, Fields, SpanLine, Virt;
    if rs != [] {
      var n := |rs| - 1;
      SpanLinesTaken(fs, a, rs[..n], base, size);
      var before := SpanLines(rs[..n]);
      assert (before + [SpanLine(rs[n])])[..|before|] == before;
      var p := Parsed(fs + [Func(a, VirtRanges(rs[..n]))], true);
      SpanLineTaken(p, rs[n], base, size);
      assert AddRange(p, Range(Virt(rs[n].lo), rs[n].len)).funcs == fs + [Func(a, VirtRanges(rs))];
    }
  }

  lemma HeaderTaken(base: nat, size: nat)
    ensures Take(Parsed([], false), Fields(HEADER), base, size) == Parsed([], false)
  {
    hide Fields, Number;
    var rest := "psxrecomp overlay code-range manifest v2 (entry+code_crc)\n";
    FieldsToken(['#'], ' ', rest);
  }

  lemma SpanLineSkipped(p: Parsed, r: Range, base: nat, size: nat)
    requires !p.open
    ensures Take(p, Fields(SpanLine(r)), base, size) == p
  {
    hide Fields, Number, Padded, IsToken, LineOf, Hex, Virt;
    TagTokens();
    PaddedToken(Virt(r.lo), 8);
    HexToken(r.len);
    LineFields(SPAN, Padded(Virt(r.lo), 8), Hex(r.len));
  }

  /** The ranges of a function that is not taken are not taken either. */
  lemma {:induction false} SpanLinesSkipped(p: Parsed, rs: seq<Range>, base: nat, size: nat)
    requires !p.open
    ensures Parse(p, SpanLines(rs), base, size) == p
  {
    hide Take, Fields, SpanLine;
    if rs != [] {
      var n := |rs| - 1;
      SpanLinesSkipped(p, rs[..n], base, size);
      var before := SpanLines(rs[..n]);
      assert (before + [SpanLine(rs[n])])[..|before|] == before;
      SpanLineSkipped(p, rs[n], base, size);
    }
  }

  /** The functions whose entries lie in the overlay. */
  function Own(ids: seq<FuncId>, base: nat, size: nat): seq<FuncId> {
    if ids == [] then []
    else
      var n := |ids| - 1;
      Own(ids[..n], base, size) + if InOverlay(ids[n].ev, base, size) then [ids[n]] else []
  }

  lemma {:induction false} LinesParsed(ids: seq<FuncId>, base: nat, size: nat)
    ensures Parse(Parsed([], false), Lines(ids), base, size).funcs == Functions(Own(ids, base, size))
  {
    hide Take, Fields, FuncLine, SpanLines, InOverlay, VirtRanges;
    var none := Parsed([], false);
    if ids == [] {
      HeaderTaken(base, size);
      assert [HEADER][..0] == [];
    } else {
      var n := |ids| - 1;
      var f := ids[n];
      LinesParsed(ids[..n], base, size);
      var before := Lines(ids[..n]);
      var p := Parse(none, before, base, size);
      ParseAppend(none, before + [FuncLine(f)], SpanLines(f.ranges), base, size);
      assert (before + [FuncLine(f)])[..|before|] == before;
      FuncLineTaken(p, f, base, size);
      if InOverlay(f.ev, base, size) {
        SpanLinesTaken(p.funcs, f.ev, f.ranges, base, size);
        FunctionsNext(Own(ids[..n], base, size), f);
      } else {
        SpanLinesSkipped(p.(open := false), f.ranges, base, size);
        OwnNext(ids, base, size);
      }
    }
  }

  lemma FunctionsNext(ids: seq<FuncId>, f: FuncId)
    ensures Functions(ids + [f]) == Functions(ids) + [Func(f.ev, VirtRanges(f.ranges))]
  {
    hide VirtRanges;
    assert (ids + [f])[..|ids|] == ids;
  }

  lemma {:induction false} VirtSlices(data: seq<bv8>, base: nat, rs: seq<Range>)
    ensures AllInside(data, base, VirtRanges(rs)) <==> AllInside(data, base, rs)
    ensures AllInside(data, base, rs) ==> CodeBytes(data, base, VirtRanges(rs)) == CodeBytes(data, base, rs)
  {
    hide Inside, Slice, Virt;
    if rs != [] {
      var n := |rs| - 1;
      VirtSlices(data, base, rs[..n]);
      var v := Range(Virt(rs[n].lo), rs[n].len);
      SameSlice(data, base, rs[n], v);
      assert VirtRanges(rs) == VirtRanges(rs[..n]) + [v];
      assert rs == rs[..n] + [rs[n]];
    }
  }

  lemma SameSlice(data: seq<bv8>, base: nat, r: Range, v: Range)
    requires v == Range(Virt(r.lo), r.len)
    ensures Inside(data, base, v) <==> Inside(data, base, r)
    ensures Inside(data, base, r) ==> Slice(data, base, v) == Slice(data, base, r)
  {
    assert Phys(Virt(r.lo)) == Phys(r.lo);
    hide Phys, Virt;
  }

  /** The identities a capture gives for the functions of a list: of those in the overlay that have ranges, all inside
      the capture, the checksum of their bytes. */
  function Identified(ids: seq<FuncId>, data: seq<bv8>, base: nat, size: nat): seq<FuncId> {
    if ids == [] then []
    else
      var n := |ids| - 1;
      var f := ids[n];
      Identified(ids[..n], data, base, size)
      + if InOverlay(f.ev, base, size) && f.ranges != [] && AllInside(data, base, f.ranges)
        then [FuncId(Phys(f.ev) + 0x8000_0000, CodeCrc(data, base, f.ranges) as nat, VirtRanges(f.ranges))] else []
  }

  lemma HashedNext(fs: seq<Func>, f: FuncId, data: seq<bv8>, base: nat)
    ensures Hashed(fs + [Func(f.ev, VirtRanges(f.ranges))], data, base) == Hashed(fs, data, base) +
            if f.ranges != [] && AllInside(data, base, f.ranges)
            then [FuncId(Virt(f.ev), CodeCrc(data, base, f.ranges) as nat, VirtRanges(f.ranges))] else []
  {
    hide Crc32, CodeBytes, Virt, Inside;
    VirtSlices(data, base, f.ranges);
    var g := Func(f.ev, VirtRanges(f.ranges));
    assert (fs + [g])[..|fs|] == fs;
  }

  lemma {:induction false} HashedFunctions(ids: seq<FuncId>, data: seq<bv8>, base: nat, size: nat)
    ensures Hashed(Functions(Own(ids, base, size)), data, base) == Identified(ids, data, base, size)
  {
    hide CodeCrc, AllInside, InOverlay, Phys, VirtRanges, Functions, Hashed, Own;
    if ids == [] {
      NothingHashed(data, base);
      NothingOwned(base, size);
    } else {
      var n := |ids| - 1;
      var f := ids[n];
      HashedFunctions(ids[..n], data, base, size);
      OwnNext(ids, base, size);
      if InOverlay(f.ev, base, size) {
        FunctionsNext(Own(ids[..n], base, size), f);
        HashedNext(Functions(Own(ids[..n], base, size)), f, data, base);
      }
    }
  }

  lemma NothingOwned(base: nat, size: nat)
    ensures Own([], base, size) == []
  {
  }

  lemma OwnNext(ids: seq<FuncId>, base: nat, size: nat)
    requires ids != []
    ensures var n := |ids| - 1;
            Own(ids, base, size) ==
            if InOverlay(ids[n].ev, base, size) then Own(ids[..n], base, size) + [ids[n]] else Own(ids[..n], base, size)
  {
    hide InOverlay;
  }

  lemma NothingHashed(data: seq<bv8>, base: nat)
    ensures Hashed(Functions([]), data, base) == []
  {
  }

  /** Hashing a capture through any manifest of functions: those elsewhere do not matter, and their ranges are not
      taken for those of others. */
  lemma ManifestHashed(ids: seq<FuncId>, data: seq<bv8>, base: nat, size: nat)
    ensures FuncIds(Lines(ids), data, base, size) == Identified(ids, data, base, size)
  {
    hide Lines, Hashed, Functions, Parse, Identified, Own;
    LinesParsed(ids, base, size);
    HashedFunctions(ids, data, base, size);
  }

  lemma {:induction false} GenuineIdentified(ids: seq<FuncId>, data: seq<bv8>, base: nat, size: nat)
    requires forall f :: f in ids ==> Genuine(f, data, base, size)
    ensures Identified(ids, data, base, size) == Normal(ids)
  {
    hide CodeCrc, AllInside, InOverlay, Phys, VirtRanges;
    if ids != [] {
      var n := |ids| - 1;
      assert ids[n] in ids;
      GenuineIdentified(ids[..n], data, base, size);
    }
  }

  /** Hashing a capture through a manifest written for it gives the identities in that manifest again. */
  lemma Rehashed(ids: seq<FuncId>, data: seq<bv8>, base: nat, size: nat)
    requires forall f :: f in ids ==> Genuine(f, data, base, size)
    ensures FuncIds(Lines(ids), data, base, size) == Normal(ids)
  {
    hide Lines, FuncIds, Identified, Normal, Genuine;
    ManifestHashed(ids, data, base, size);
    GenuineIdentified(ids, data, base, size);
  }

  lemma TakeInside(p: Parsed, fields: seq<string>, base: nat, size: nat)
    requires forall f :: f in p.funcs ==> InOverlay(f.addr, base, size)
    ensures forall f :: f in Take(p, fields, base, size).funcs ==> InOverlay(f.addr, base, size)
  {
    hide Number, InOverlay;
  }

  lemma {:induction false} ParseInside(lines: seq<string>, base: nat, size: nat)
    ensures forall f :: f in Parse(Parsed([], false), lines, base, size).funcs ==> InOverlay(f.addr, base, size)
  {
    hide Take, Fields, InOverlay;
    if lines != [] {
      ParseInside(lines[..|lines| - 1], base, size);
      TakeInside(Parse(Parsed([], false), lines[..|lines| - 1], base, size), Fields(lines[|lines| - 1]), base, size);
    }
  }

  lemma VirtTwice(a: nat, base: nat, size: nat)
    ensures Virt(Virt(a)) == Virt(a) && (InOverlay(Virt(a), base, size) <==> InOverlay(a, base, size))
  {
  }

  lemma {:induction false} HashedGenuine(fs: seq<Func>, data: seq<bv8>, base: nat, size: nat)
    requires forall f :: f in fs ==> InOverlay(f.addr, base, size)
    ensures forall g :: g in Hashed(fs, data, base) ==> Genuine(g, data, base, size)
  {
    hide InOverlay, Virt, CodeCrc, AllInside;
    if fs != [] {
      var n := |fs| - 1;
      HashedGenuine(fs[..n], data, base, size);
      assert fs[n] in fs;
      VirtTwice(fs[n].addr, base, size);
    }
  }

  /** Writing the identities of a capture and hashing it again through that manifest changes nothing,
      whatever the recompiler's manifest said. */
  lemma WriteThenHash(lines: seq<string>, data: seq<bv8>, base: nat, size: nat)
    ensures var ids := FuncIds(lines, data, base, size); FuncIds(Lines(ids), data, base, size) == Normal(ids)
  {
    hide Lines, Hashed, Parse, Normal, Genuine, InOverlay;
    ParseInside(lines, base, size);
    HashedGenuine(Parse(Parsed([], false), lines, base, size).funcs, data, base, size);
    Rehashed(FuncIds(lines, data, base, size), data, base, size);
  }
}
