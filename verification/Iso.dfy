/** Reading directories and files from a disc image: sectors, the user data of a file, and the
    directory records of ECMA-119 (sections 6.8.1 and 9.1). */
module Iso {
  import opened Mips

  const SECTOR := 2048
  const RAW_SECTOR := 2352
  const DATA_OFFSET := 24

  function Zeros(n: nat): (r: seq<Byte>)
    ensures |r| == n && forall i :: 0 <= i < n ==> r[i] == 0
  {
    seq(n, _ => 0)
  }

  // ---- Sectors and files ----

  datatype Disc = Disc(image: seq<Byte>, raw: bool)
  {
    function SectorSize(): nat { if raw then RAW_SECTOR else SECTOR }

    /** The user data of a sector; a sector the image does not hold completely reads as zeros. */
    function Sector(lba: nat): (r: seq<Byte>)
      ensures |r| == SECTOR
    {
      var at := lba * SectorSize();
      if at + SectorSize() > |image| then Zeros(SECTOR)
      else if raw then image[at + DATA_OFFSET..at + DATA_OFFSET + SECTOR]
      else image[at..at + SECTOR]
    }
  }

  // ---- Writing discs ----

  /** A raw sector: sync and header, the user data, and the error codes. */
  datatype RawSector = RawSector(head: seq<Byte>, data: seq<Byte>, codes: seq<Byte>)
  {
    predicate Valid() { |head| == 24 && |data| == 2048 && |codes| == 280 }
    function Bytes(): seq<Byte> { head + data + codes }
  }

  function Joined(parts: seq<seq<Byte>>): seq<Byte> {
    if parts == [] then [] else Joined(parts[..|parts| - 1]) + parts[|parts| - 1]
  }

  lemma {:induction false} PartOf(parts: seq<seq<Byte>>, size: nat, k: nat)
    requires k < |parts| && forall i :: 0 <= i < |parts| ==> |parts[i]| == size
    ensures |Joined(parts)| == |parts| * size && k * size + size <= |Joined(parts)|
    ensures Joined(parts)[k * size..k * size + size] == parts[k]
    decreases |parts|
  {
    var n := |parts| - 1;
    var front := parts[..n];
    JoinedSize(front, size);
    Fits(k, n, size);
    if k < n {
      PartOf(front, size, k);
      InFront(Joined(front), parts[n], k * size, k * size + size);
    }
  }

  lemma InFront(a: seq<Byte>, b: seq<Byte>, x: nat, y: nat)
    requires x <= y <= |a|
    ensures (a + b)[x..y] == a[x..y]
  {
  }

  lemma Fits(k: nat, n: nat, size: nat)
    requires k <= n
    ensures k * size <= n * size && (k < n ==> k * size + size <= n * size) && (n + 1) * size == n * size + size
  {
    Scaled(k, n, size);
    Scaled(k + 1, n, size);
    assert (k + 1) * size == k * size + size;
  }

  lemma Scaled(a: nat, b: nat, size: nat)
    ensures a <= b ==> a * size <= b * size
  {
  }

  lemma {:induction false} JoinedSize(parts: seq<seq<Byte>>, size: nat)
    requires forall i :: 0 <= i < |parts| ==> |parts[i]| == size
    ensures |Joined(parts)| == |parts| * size
  {
    if parts != [] {
      JoinedSize(parts[..|parts| - 1], size);
      Fits(|parts| - 1, |parts| - 1, size);
    }
  }

  /** Reading a sector of a raw disc gives back its user data. */
  lemma RawSectorBack(sectors: seq<RawSector>, k: nat)
    requires k < |sectors| && forall i :: 0 <= i < |sectors| ==> sectors[i].Valid()
    ensures var parts := seq(|sectors|, i requires 0 <= i < |sectors| => sectors[i].Bytes());
            Disc(Joined(parts), true).Sector(k) == sectors[k].data
  {
    var parts := seq(|sectors|, i requires 0 <= i < |sectors| => sectors[i].Bytes());
    PartOf(parts, 2352, k);
    var all, at := Joined(parts), k * 2352;
    hide Joined;
    assert all[at + 24..at + 2072] == all[at..at + 2352][24..2072];
  }

  /** So does reading a sector of a disc of plain sectors. */
  lemma PlainSectorBack(parts: seq<seq<Byte>>, k: nat)
    requires k < |parts| && forall i :: 0 <= i < |parts| ==> |parts[i]| == 2048
    ensures Disc(Joined(parts), false).Sector(k) == parts[k]
  {
    PartOf(parts, 2048, k);
  }

  function SectorsFor(size: nat): nat { (size + SECTOR - 1) / SECTOR }

  /** The user data of n sectors, one after the other. */
  function Sectors(d: Disc, lba: nat, n: nat): (r: seq<Byte>)
    ensures |r| == n * SECTOR
  {
    if n == 0 then [] else Sectors(d, lba, n - 1) + d.Sector(lba + n - 1)
  }

  lemma Enough(size: nat)
    ensures size <= SectorsFor(size) * SECTOR
  {
  }

  /** What a read of a file returns. */
  function FileBytes(d: Disc, lba: nat, size: nat): (r: seq<Byte>)
    ensures |r| == size
  {
    Enough(size);
    Sectors(d, lba, SectorsFor(size))[..size]
  }

  /** Exactly `size` bytes: byte k is byte k mod 2048 of sector k div 2048 of the file. */
  method ReadFile(d: Disc, lba: nat, size: nat) returns (r: seq<Byte>)
    ensures |r| == size
    ensures forall k :: 0 <= k < size ==> r[k] == d.Sector(lba + k / SECTOR)[k % SECTOR]
    ensures r == FileBytes(d, lba, size)
  {
    hide Disc.Sector;
    var data: seq<Byte> := [];
    for i := 0 to SectorsFor(size)
      invariant data == Sectors(d, lba, i)
    {
      data := data + d.Sector(lba + i);
    }
    Enough(size);
    r := data[..size];
    forall k | 0 <= k < size ensures r[k] == d.Sector(lba + k / SECTOR)[k % SECTOR] {
      SectorByte(d, lba, SectorsFor(size), k);
    }
  }

  lemma {:induction false} SectorByte(d: Disc, lba: nat, n: nat, k: nat)
    requires k < n * SECTOR
    ensures Sectors(d, lba, n)[k] == d.Sector(lba + k / SECTOR)[k % SECTOR]
  {
    hide Disc.Sector;
    if k < (n - 1) * SECTOR {
      SectorByte(d, lba, n - 1, k);
    } else {
      InLast(n, k);
    }
  }

  lemma InLast(n: nat, k: nat)
    requires 0 < n && (n - 1) * SECTOR <= k < n * SECTOR
    ensures k / SECTOR == n - 1 && k % SECTOR == k - (n - 1) * SECTOR
  {
  }

  lemma {:induction false} SectorsPrefix(d: Disc, lba: nat, m: nat, n: nat)
    requires m <= n
    ensures Sectors(d, lba, m) <= Sectors(d, lba, n)
    decreases n
  {
    hide Disc.Sector;
    if m < n {
      SectorsPrefix(d, lba, m, n - 1);
    }
  }

  lemma SectorsForGrows(m: nat, n: nat)
    requires m <= n
    ensures SectorsFor(m) <= SectorsFor(n)
  {
  }

  /** A shorter read of the same file is a prefix of a longer one. */
  lemma ReadPrefix(d: Disc, lba: nat, m: nat, n: nat)
    requires m <= n
    ensures FileBytes(d, lba, m) <= FileBytes(d, lba, n)
  {
    hide Disc.Sector, Sectors, SectorsFor;
    Enough(m);
    Enough(n);
    SectorsForGrows(m, n);
    SectorsPrefix(d, lba, SectorsFor(m), SectorsFor(n));
  }

  // ---- Directory records ----

  /** A name is a list of code points; bytes outside ASCII read as U+FFFD. */
  type Name = seq<int>

  datatype Entry = Entry(name: Name, lba: nat, size: nat, isDir: bool)

  function CodePoint(b: Byte): int { if b < 0x80 then b else 0xFFFD }

  function Ascii(bytes: seq<Byte>): (r: Name)
    ensures |r| == |bytes|
  {
    seq(|bytes|, i requires 0 <= i < |bytes| => CodePoint(bytes[i]))
  }

  /** What stands before the version suffix. */
  function Stem(name: Name): Name {
    if name == [] || name[0] == 0x3B then [] else [name[0]] + Stem(name[1..])
  }

  predicate Named(name: Name) { name != [] && name != [0] && name != [1] }

  function WordIn(rec: seq<Byte>, at: nat): Word
    requires at + 4 <= |rec|
  {
    LittleEndian(rec[at], rec[at + 1], rec[at + 2], rec[at + 3])
  }

  function NameIn(rec: seq<Byte>): seq<Byte>
    requires |rec| >= 33
  {
    if 33 + rec[32] <= |rec| then rec[33..33 + rec[32]] else rec[33..]
  }

  function EntryOf(rec: seq<Byte>): Entry
    requires |rec| >= 33
  {
    Entry(Stem(Ascii(NameIn(rec))), WordIn(rec, 2), WordIn(rec, 10), rec[25] / 2 % 2 == 1)
  }

  function Yield(e: Entry): seq<Entry> { if Named(e.name) then [e] else [] }

  /** The entries met, and whether the listing ended without reading past a record. */
  datatype Listing = Listing(entries: seq<Entry>, ok: bool)

  function Listed(first: seq<Entry>, rest: Listing): Listing { rest.(entries := first + rest.entries) }

  function NextSector(pos: nat): nat { (pos / SECTOR + 1) * SECTOR }

  lemma NextSectorIs(pos: nat)
    ensures NextSector(pos) == pos + (SECTOR - pos % SECTOR) > pos
  {
  }

  /** The entries of a directory from position `pos` on. */
  function List(raw: seq<Byte>, pos: nat): Listing
    decreases |raw| - pos
  {
    if pos >= |raw| then Listing([], true)
    else if raw[pos] == 0 then NextSectorIs(pos); List(raw, NextSector(pos))
    else if pos + raw[pos] > |raw| then Listing([], true)
    else if raw[pos] < 33 then Listing([], false)
    else Listed(Yield(EntryOf(raw[pos..pos + raw[pos]])), List(raw, pos + raw[pos]))
  }

  /** The directory loop. A record too short to hold its own fields is an error. */
  method IterDir(raw: seq<Byte>) returns (r: Listing)
    ensures r == List(raw, 0)
  {
    hide EntryOf, Yield, NextSector, List;
    var entries, pos := [], 0;
    while pos < |raw|
      invariant 0 <= pos
      invariant List(raw, 0) == Listed(entries, List(raw, pos))
      decreases |raw| - pos
    {
      var length := raw[pos];
      if length == 0 {
        NextSectorIs(pos);
        ListSkip(raw, pos);
        pos := NextSector(pos);
        continue;
      }
      ListStops(raw, pos);
      if pos + length > |raw| {
        break;
      }
      if length < 33 {
        return Listing(entries, false);
      }
      var rec := raw[pos..pos + length];
      var first := Yield(EntryOf(rec));
      ListRecord(raw, pos);
      ListedTwice(entries, first, List(raw, pos + length));
      entries := entries + first;
      pos := pos + length;
    }
    ListStops(raw, pos);
    r := Listing(entries, true);
  }

  lemma ListedTwice(a: seq<Entry>, b: seq<Entry>, rest: Listing)
    ensures Listed(a, Listed(b, rest)) == Listed(a + b, rest)
  {
    assert a + (b + rest.entries) == a + b + rest.entries;
  }

  // ---- Writing directories ----

  /** A record begins with its own length and holds at least its fixed fields. */
  predicate IsRecord(rec: seq<Byte>) { 33 <= |rec| <= 255 && rec[0] == |rec| }

  /** Zeros up to the end of the sector, where the next record would cross it. */
  function Gap(pos: nat, length: nat): seq<Byte> {
    if pos % SECTOR + length > SECTOR then Zeros(SECTOR - pos % SECTOR) else []
  }

  /** The records laid out from `pos` on, none crossing a sector, the last sector filled with zeros. */
  function Layout(recs: seq<seq<Byte>>, pos: nat): seq<Byte>
    decreases |recs|
  {
    if recs == [] then if pos % SECTOR == 0 then [] else Zeros(SECTOR - pos % SECTOR)
    else
      var gap := Gap(pos, |recs[0]|);
      gap + (recs[0] + Layout(recs[1..], pos + |gap| + |recs[0]|))
  }

  function Entries(recs: seq<seq<Byte>>): seq<Entry>
    requires forall r :: r in recs ==> IsRecord(r)
  {
    if recs == [] then [] else assert IsRecord(recs[0]); Yield(EntryOf(recs[0])) + Entries(recs[1..])
  }

  lemma SkipGap(raw: seq<Byte>, pos: nat, rest: seq<Byte>)
    requires pos % SECTOR != 0 && pos <= |raw| && raw[pos..] == Zeros(SECTOR - pos % SECTOR) + rest
    ensures var next := pos + (SECTOR - pos % SECTOR);
            next <= |raw| && List(raw, pos) == List(raw, next) && raw[next..] == rest
  {
    var n := SECTOR - pos % SECTOR;
    var gap := Zeros(n);
    assert raw[pos] == raw[pos..][0] == gap[0] == 0;
    ListSkip(raw, pos);
    DropFront(raw, pos, gap, rest);
  }

  lemma DropFront(raw: seq<Byte>, pos: nat, front: seq<Byte>, rest: seq<Byte>)
    requires pos <= |raw| && raw[pos..] == front + rest
    ensures pos + |front| <= |raw| && raw[pos + |front|..] == rest
  {
    assert raw[pos..][|front|..] == rest;
  }

  lemma ListSkip(raw: seq<Byte>, pos: nat)
    requires pos < |raw| && raw[pos] == 0
    ensures List(raw, pos) == List(raw, pos + (SECTOR - pos % SECTOR))
  {
    hide EntryOf, Yield, NextSector;
    NextSectorIs(pos);
  }

  lemma ListRecord(raw: seq<Byte>, pos: nat)
    requires pos < |raw| && 33 <= raw[pos] && pos + raw[pos] <= |raw|
    ensures List(raw, pos) == Listed(Yield(EntryOf(raw[pos..pos + raw[pos]])), List(raw, pos + raw[pos]))
  {
    hide EntryOf, Yield, NextSector;
  }

  lemma ListStops(raw: seq<Byte>, pos: nat)
    ensures pos >= |raw| || (raw[pos] != 0 && pos + raw[pos] > |raw|) ==> List(raw, pos) == Listing([], true)
    ensures pos < |raw| && 0 < raw[pos] < 33 && pos + raw[pos] <= |raw| ==> List(raw, pos) == Listing([], false)
  {
    hide EntryOf, Yield, NextSector;
  }

  lemma OneRecord(raw: seq<Byte>, pos: nat, rec: seq<Byte>, rest: seq<Byte>)
    requires IsRecord(rec) && pos <= |raw| && raw[pos..] == rec + rest
    ensures pos + |rec| <= |raw| && raw[pos + |rec|..] == rest
    ensures List(raw, pos) == Listed(Yield(EntryOf(rec)), List(raw, pos + |rec|))
  {
    hide EntryOf, Yield, List;
    assert raw[pos] == raw[pos..][0] == |rec|;
    assert raw[pos..pos + |rec|] == raw[pos..][..|rec|] == rec;
    DropFront(raw, pos, rec, rest);
    ListRecord(raw, pos);
  }

  lemma {:induction false} ListLayout(raw: seq<Byte>, recs: seq<seq<Byte>>, pos: nat, tail: seq<Byte>)
    requires (forall r :: r in recs ==> IsRecord(r)) && pos <= |raw| && raw[pos..] == Layout(recs, pos) + tail
    ensures |tail| <= |raw| && List(raw, pos) == Listed(Entries(recs), List(raw, |raw| - |tail|))
    decreases |recs|
  {
    hide EntryOf, Yield, List, IsRecord;
    if recs == [] {
      ListEnd(raw, pos, tail);
    } else {
      var rec := recs[0];
      assert rec in recs;
      RecordSize(rec);
      var gap := Gap(pos, |rec|);
      var at := pos + |gap|;
      var rest := Layout(recs[1..], at + |rec|) + tail;
      Regroup(gap, rec, Layout(recs[1..], at + |rec|), tail);
      if pos % SECTOR + |rec| > SECTOR {
        SkipGap(raw, pos, rec + rest);
      } else {
        assert gap + (rec + rest) == rec + rest;
      }
      OneRecord(raw, at, rec, rest);
      ListLayout(raw, recs[1..], at + |rec|, tail);
      ListedTwice(Yield(EntryOf(rec)), Entries(recs[1..]), List(raw, |raw| - |tail|));
    }
  }

  lemma RecordSize(rec: seq<Byte>)
    requires IsRecord(rec)
    ensures 33 <= |rec| <= SECTOR
  {
  }

  lemma Regroup(gap: seq<Byte>, rec: seq<Byte>, rest: seq<Byte>, tail: seq<Byte>)
    ensures gap + (rec + rest) + tail == gap + (rec + (rest + tail))
  {
  }

  lemma ListEnd(raw: seq<Byte>, pos: nat, tail: seq<Byte>)
    requires pos <= |raw| && raw[pos..] == Layout([], pos) + tail
    ensures |tail| <= |raw| && List(raw, pos) == List(raw, |raw| - |tail|)
  {
    hide List;
    if pos % SECTOR != 0 { SkipGap(raw, pos, tail); }
  }

  /** Reading a directory undoes writing it: the named entries of any list of records, in order. What follows them
      cannot change that. A record that is cut off ends the listing, and one too short for its own fields is an
      error. */
  lemma RoundTrip(recs: seq<seq<Byte>>, tail: seq<Byte>)
    requires forall r :: r in recs ==> IsRecord(r)
    ensures var r := List(Layout(recs, 0) + tail, 0);
            && (tail == [] ==> r == Listing(Entries(recs), true))
            && (tail != [] && tail[0] > |tail| ==> r == Listing(Entries(recs), true))
            && (tail != [] && 0 < tail[0] < 33 && tail[0] <= |tail| ==> r == Listing(Entries(recs), false))
  {
    var raw := Layout(recs, 0) + tail;
    assert raw[0..] == raw;
    ListLayout(raw, recs, 0, tail);
    var at := |raw| - |tail|;
    assert raw[at..] == tail;
    assert tail != [] ==> raw[at] == tail[0];
    ListStops(raw, at);
  }

  /** What a directory says about a file; the fields the reader skips are arbitrary bytes. */
  datatype Fields = Fields(name: seq<Byte>, lba: Word, size: Word, flags: Byte, skipped: seq<Byte>)
  {
    predicate Valid() { 1 <= |name| <= 221 && |skipped| == 22 }
  }

  /** The record of section 9.1: the little-endian numbers, the flags, and the name padded to an even
      length. The big-endian copies and the date are among the bytes the reader skips. */
  function RecordOf(f: Fields): seq<Byte>
    requires f.Valid()
  {
    var pad := if |f.name| % 2 == 0 then [0] else [];
    [33 + |f.name| + |pad|, f.skipped[0]]
    + (BytesOf(f.lba) + (f.skipped[1..5] + (BytesOf(f.size) + (f.skipped[5..16]
    + ([f.flags] + (f.skipped[16..22] + ([|f.name|] + (f.name + pad))))))))
  }

  /** Reading a record gives back what it was made from. */
  lemma FieldsBack(f: Fields)
    requires f.Valid()
    ensures IsRecord(RecordOf(f))
    ensures EntryOf(RecordOf(f)) == Entry(Stem(Ascii(f.name)), f.lba, f.size, f.flags / 2 % 2 == 1)
  {
    hide BytesOf, LittleEndian, Ascii, Stem;
    var rec := RecordOf(f);
    BytesSize(f.lba);
    BytesSize(f.size);
    assert rec[32] == |f.name| && rec[25] == f.flags;
    assert rec[33..33 + |f.name|] == f.name;
    assert rec[2..6] == BytesOf(f.lba) && rec[10..14] == BytesOf(f.size);
    WordAtBack(rec, 2, f.lba);
    WordAtBack(rec, 10, f.size);
  }

  lemma WordAtBack(rec: seq<Byte>, at: nat, w: Word)
    requires at + 4 <= |rec| && rec[at..at + 4] == BytesOf(w)
    ensures WordIn(rec, at) == w
  {
    hide BytesOf, LittleEndian;
    var b := rec[at..at + 4];
    assert rec[at] == b[0] && rec[at + 1] == b[1] && rec[at + 2] == b[2] && rec[at + 3] == b[3];
    BytesSize(w);
    BytesBack(w);
  }

  lemma {:induction false} StemBefore(stem: seq<Byte>, version: seq<Byte>)
    requires 0x3B !in stem && (version == [] || version[0] == 0x3B)
    ensures Stem(Ascii(stem + version)) == Ascii(stem)
  {
    var name := Ascii(stem + version);
    if stem == [] {
      assert name == Ascii(version);
    } else {
      assert stem[0] in stem;
      assert name[1..] == Ascii(stem[1..] + version);
      StemBefore(stem[1..], version);
      assert Ascii(stem) == [CodePoint(stem[0])] + Ascii(stem[1..]);
    }
  }

  /** The name of an entry is what stands before the version, with a replacement for every byte that is not ASCII. The
      entries of the directory itself and of its parent, named by the bytes 0 and 1, are left out. */
  lemma NameBack(f: Fields, stem: seq<Byte>, version: seq<Byte>)
    requires f.Valid() && f.name == stem + version
    requires 0x3B !in stem && (version == [] || version[0] == 0x3B)
    ensures IsRecord(RecordOf(f)) && |RecordOf(f)| % 2 == 0
    ensures var e := EntryOf(RecordOf(f));
            && |e.name| == |stem|
            && (forall i :: 0 <= i < |stem| ==> e.name[i] == if stem[i] < 0x80 then stem[i] else 0xFFFD)
            && Entries([RecordOf(f)]) == if stem == [] || stem == [0] || stem == [1] then [] else [e]
  {
    FieldsBack(f);
    StemBefore(stem, version);
    EvenRecord(f);
    var rec := RecordOf(f);
    hide RecordOf, EntryOf, Stem, Ascii;
    var recs, none: seq<seq<Byte>> := [rec], [];
    assert recs[1..] == none;
    assert Entries(recs) == Yield(EntryOf(rec)) + Entries(none);
  }

  lemma EvenRecord(f: Fields)
    requires f.Valid()
    ensures |RecordOf(f)| % 2 == 0
  {
    hide BytesOf;
    BytesSize(f.lba);
    BytesSize(f.size);
  }
}
