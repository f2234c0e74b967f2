/** Deduplicating the registration tables of statically built overlays: one compiled copy of each
    (entry, code checksum) identity serves every image. */
module Dedup {

  /** A table row. The function a row registers is named by its file and its entry. */
  datatype Row = Row(entry: nat, crc: nat)

  type File = seq<Row>

  function Identities(rows: File): set<Row> { set r | r in rows }

  function AllIdentities(files: seq<File>): set<Row> {
    if files == [] then {} else AllIdentities(files[..|files| - 1]) + Identities(files[|files| - 1])
  }

  // ---- One file ----

  /** The entries whose functions a file drops: a row repeats an identity met before it. */
  function Drops(seen: set<Row>, rows: File): set<nat> {
    if rows == [] then {}
    else
      var n := |rows| - 1;
      Drops(seen, rows[..n]) + if rows[n] in seen || rows[n] in rows[..n] then {rows[n].entry} else {}
  }

  /** What pruning leaves: the rows of the functions that are not dropped. */
  function Pruned(rows: File, drop: set<nat>): File {
    if rows == [] then []
    else Pruned(rows[..|rows| - 1], drop) + if rows[|rows| - 1].entry in drop then [] else [rows[|rows| - 1]]
  }

  /** What remains stays in its order: pruning takes tables apart row by row. */
  lemma {:induction false} PrunedSplit(a: File, r: Row, b: File, drop: set<nat>)
    ensures Pruned(a + [r] + b, drop) ==
            Pruned(a, drop) + (if r.entry in drop then [] else [r]) + Pruned(b, drop)
    decreases |b|
  {
    if b == [] {
      assert a + [r] + b == a + [r];
      assert (a + [r])[..|a|] == a;
    } else {
      var n := |b| - 1;
      assert (a + [r] + b)[..|a| + 1 + n] == a + [r] + b[..n];
      PrunedSplit(a, r, b[..n], drop);
    }
  }

  function Entries(rows: File): set<nat> { set r | r in rows :: r.entry }

  lemma {:induction false} DropsIff(seen: set<Row>, rows: File, e: nat)
    ensures e in Drops(seen, rows) <==>
            exists k :: 0 <= k < |rows| && rows[k].entry == e && (rows[k] in seen || rows[k] in rows[..k])
  {
    if rows != [] {
      var n := |rows| - 1;
      var head := rows[..n];
      DropsIff(seen, head, e);
      forall k | 0 <= k < n ensures head[k] == rows[k] && head[..k] == rows[..k] {
      }
    }
  }

  lemma {:induction false} PrunedIff(rows: File, drop: set<nat>, r: Row)
    ensures r in Pruned(rows, drop) <==> r in rows && r.entry !in drop
  {
    if rows != [] {
      var n := |rows| - 1;
      PrunedIff(rows[..n], drop, r);
      assert rows == rows[..n] + [rows[n]];
    }
  }

  lemma {:induction false} EntriesSize(rows: File)
    ensures |Entries(rows)| <= |rows|
  {
    if rows != [] {
      var n := |rows| - 1;
      EntriesSize(rows[..n]);
      assert rows == rows[..n] + [rows[n]];
      assert Entries(rows) == Entries(rows[..n]) + {rows[n].entry};
    }
  }

  lemma {:induction false} DropsAmongEntries(seen: set<Row>, rows: File)
    ensures Drops(seen, rows) <= Entries(rows) && |Drops(seen, rows)| <= |rows|
  {
    if rows != [] {
      var n := |rows| - 1;
      DropsAmongEntries(seen, rows[..n]);
      assert rows == rows[..n] + [rows[n]];
      assert Entries(rows) == Entries(rows[..n]) + {rows[n].entry};
    }
  }

  lemma SubsetSize(a: set<nat>, b: set<nat>)
    requires a <= b && |a| >= |b|
    ensures a == b
  {
    assert b == a + (b - a);
    assert |b - a| == 0;
  }

  lemma {:induction false} PrunedAll(rows: File, drop: set<nat>)
    requires Entries(rows) <= drop
    ensures Pruned(rows, drop) == []
  {
    if rows != [] {
      var n := |rows| - 1;
      assert forall r :: r in rows[..n] ==> r in rows;
      assert rows[n] in rows;
      PrunedAll(rows[..n], drop);
    }
  }

  /** A file that is deleted because no row is left to count has indeed no row left. */
  lemma DeletedIsEmpty(seen: set<Row>, rows: File)
    requires |Drops(seen, rows)| == |rows|
    ensures Pruned(rows, Drops(seen, rows)) == []
  {
    DropsAmongEntries(seen, rows);
    EntriesSize(rows);
    SubsetSize(Drops(seen, rows), Entries(rows));
    PrunedAll(rows, Drops(seen, rows));
  }

  // ---- All files ----

  /** The files that remain (an empty one is deleted) and the counts that are reported. */
  datatype Result = Result(files: seq<File>, kept: nat, dropped: nat)

  function Deduped(files: seq<File>): (r: Result)
    ensures |r.files| == |files|
  {
    if files == [] then Result([], 0, 0)
    else
      var n := |files| - 1;
      var before := Deduped(files[..n]);
      var drop := Drops(AllIdentities(files[..n]), files[n]);
      DropsAmongEntries(AllIdentities(files[..n]), files[n]);
      Result(before.files + [Pruned(files[n], drop)], before.kept + |files[n]| - |drop|, before.dropped + |drop|)
  }

  method FinalizeStatic(files: seq<File>) returns (r: Result)
    ensures r == Deduped(files)
  {
    hide Drops, Pruned;
    var seen: set<Row> := {};
    r := Result([], 0, 0);
    for i := 0 to |files|
      invariant r == Deduped(files[..i]) && seen == AllIdentities(files[..i])
    {
      assert files[..i + 1][..i] == files[..i];
      var rows := files[i];
      ghost var before := seen;
      var drop;
      drop, seen := ScanRows(seen, rows);
      DropsAmongEntries(before, rows);
      var live := |rows| - |drop|;
      if live == 0 {
        DeletedIsEmpty(before, rows);
        r := Result(r.files + [[]], r.kept + live, r.dropped + |drop|);
      } else {
        var left := Pruned(rows, drop);
        r := Result(r.files + [left], r.kept + live, r.dropped + |drop|);
      }
    }
    assert files[..|files|] == files;
  }

  /** One pass over the rows of a file. */
  method ScanRows(before: set<Row>, rows: File) returns (drop: set<nat>, seen: set<Row>)
    ensures drop == Drops(before, rows) && seen == before + Identities(rows)
  {
    drop, seen := {}, before;
    for k := 0 to |rows|
      invariant drop == Drops(before, rows[..k]) && seen == before + Identities(rows[..k])
    {
      assert rows[..k + 1] == rows[..k] + [rows[k]];
      assert rows[..k + 1][..k] == rows[..k];
      if rows[k] in seen {
        drop := drop + {rows[k].entry};
      } else {
        seen := seen + {rows[k]};
      }
    }
    assert rows[..|rows|] == rows;
  }

  function Total(files: seq<File>): nat {
    if files == [] then 0 else Total(files[..|files| - 1]) + |files[|files| - 1]|
  }

  /** Every row is counted once, as kept or as dropped. */
  lemma {:induction false} CountsAddUp(files: seq<File>)
    ensures Deduped(files).kept + Deduped(files).dropped == Total(files)
  {
    if files != [] {
      CountsAddUp(files[..|files| - 1]);
    }
  }

  // ---- Which identities survive ----

  lemma {:induction false} FileOf(files: seq<File>, f: nat)
    requires f < |files|
    ensures Deduped(files).files[f] == Pruned(files[f], Drops(AllIdentities(files[..f]), files[f]))
  {
    hide Drops, Pruned, AllIdentities;
    var n := |files| - 1;
    if f < n {
      FileOf(files[..n], f);
      assert files[..n][..f] == files[..f];
    }
  }

  lemma {:induction false} AllIff(files: seq<File>, r: Row)
    ensures r in AllIdentities(files) <==> exists f :: 0 <= f < |files| && r in files[f]
  {
    if files != [] {
      var n := |files| - 1;
      AllIff(files[..n], r);
      assert forall f :: 0 <= f < n ==> files[..n][f] == files[f];
    }
  }

  lemma {:induction false} EarliestFile(files: seq<File>, r: Row) returns (f: nat)
    requires r in AllIdentities(files)
    ensures f < |files| && r in files[f] && r !in AllIdentities(files[..f])
  {
    var n := |files| - 1;
    if r in AllIdentities(files[..n]) {
      f := EarliestFile(files[..n], r);
      assert files[..n][..f] == files[..f];
    } else {
      f := n;
    }
  }

  /** Row k of file f is a copy: its identity stands in an earlier file or in an earlier row. */
  predicate Copy(files: seq<File>, f: nat, k: nat)
    requires f < |files| && k < |files[f]|
  {
    files[f][k] in AllIdentities(files[..f]) || files[f][k] in files[f][..k]
  }

  /** In file f an identity that no earlier file has shares its entry with a copy. */
  predicate Clash(files: seq<File>, f: nat, r: Row)
    requires f < |files|
  {
    && r in files[f] && r !in AllIdentities(files[..f])
    && exists k :: 0 <= k < |files[f]| && files[f][k].entry == r.entry && Copy(files, f, k)
  }

  lemma DroppedIff(files: seq<File>, f: nat, e: nat)
    requires f < |files|
    ensures e in Drops(AllIdentities(files[..f]), files[f]) <==>
            exists k :: 0 <= k < |files[f]| && files[f][k].entry == e && Copy(files, f, k)
  {
    hide Drops, AllIdentities;
    DropsIff(AllIdentities(files[..f]), files[f], e);
    var seen, rows := AllIdentities(files[..f]), files[f];
    forall k | 0 <= k < |rows| ensures Copy(files, f, k) <==> rows[k] in seen || rows[k] in rows[..k] {
    }
  }

  lemma SurvivesIn(files: seq<File>, f: nat, r: Row)
    requires f < |files|
    ensures r in Deduped(files).files[f] <==> r in files[f] && r !in AllIdentities(files[..f]) && !Clash(files, f, r)
  {
    hide Drops, AllIdentities, Pruned, Deduped;
    FileOf(files, f);
    var drop := Drops(AllIdentities(files[..f]), files[f]);
    PrunedIff(files[f], drop, r);
    DroppedIff(files, f, r.entry);
    if r in files[f] && r in AllIdentities(files[..f]) {
      var k :| 0 <= k < |files[f]| && files[f][k] == r;
      assert Copy(files, f, k);
    }
  }

  /** The set of identities is preserved exactly if no new identity shares its entry with a copy in
      the same file. */
  lemma PreservedIff(files: seq<File>)
    ensures AllIdentities(Deduped(files).files) == AllIdentities(files) <==>
            forall f, r :: 0 <= f < |files| && r in files[f] ==> !Clash(files, f, r)
  {
    hide AllIdentities, Deduped, Clash;
    var after := Deduped(files).files;
    if forall f, r :: 0 <= f < |files| && r in files[f] ==> !Clash(files, f, r) {
      forall r ensures r in AllIdentities(after) <==> r in AllIdentities(files) {
        Survivor(files, r);
      }
    } else {
      var f, r :| 0 <= f < |files| && r in files[f] && Clash(files, f, r);
      LostToClash(files, f, r);
    }
  }

  lemma Survivor(files: seq<File>, r: Row)
    requires forall f, q :: 0 <= f < |files| && q in files[f] ==> !Clash(files, f, q)
    ensures r in AllIdentities(Deduped(files).files) <==> r in AllIdentities(files)
  {
    hide AllIdentities, Deduped, Clash;
    var after := Deduped(files).files;
    AllIff(files, r);
    AllIff(after, r);
    forall f | 0 <= f < |files| ensures r in after[f] ==> r in files[f] {
      SurvivesIn(files, f, r);
    }
    if r in AllIdentities(files) {
      var f := EarliestFile(files, r);
      SurvivesIn(files, f, r);
      assert r in after[f];
    }
  }

  lemma LostToClash(files: seq<File>, f: nat, r: Row)
    requires f < |files| && Clash(files, f, r)
    ensures r in AllIdentities(files) && r !in AllIdentities(Deduped(files).files)
  {
    hide AllIdentities, Deduped;
    var after := Deduped(files).files;
    AllIff(files, r);
    AllIff(after, r);
    forall g | 0 <= g < |files| ensures r !in after[g] {
      SurvivesIn(files, g, r);
      AllIff(files[..g], r);
      AllIff(files[..f], r);
      assert g < f ==> files[..f][g] == files[g];
      assert f < g ==> files[..g][f] == files[f];
    }
  }

  // ---- Once, and once only ----

  lemma {:induction false} PrunedTwice(rows: File, drop: set<nat>, k: nat)
    requires k < |Pruned(rows, drop)| && Pruned(rows, drop)[k] in Pruned(rows, drop)[..k]
    ensures exists j :: 0 <= j < |rows| && rows[j] == Pruned(rows, drop)[k] && rows[j] in rows[..j]
  {
    var n := |rows| - 1;
    var head := Pruned(rows[..n], drop);
    assert Pruned(rows, drop)[..k] == head[..k];
    if k < |head| {
      PrunedTwice(rows[..n], drop, k);
      var j :| 0 <= j < n && rows[..n][j] == head[k] && rows[..n][j] in rows[..n][..j];
      assert rows[..n][..j] == rows[..j];
    } else {
      PrunedIff(rows[..n], drop, rows[n]);
      assert rows[n] in head;
    }
  }

  /** After deduplication no row is a copy. */
  lemma NoCopies(files: seq<File>, f: nat, k: nat)
    requires f < |files| && k < |Deduped(files).files[f]|
    ensures !Copy(Deduped(files).files, f, k)
  {
    hide AllIdentities, Deduped, Drops, Pruned;
    var after := Deduped(files).files;
    var r := after[f][k];
    assert r in after[f];
    SurvivesIn(files, f, r);
    AllIff(after[..f], r);
    AllIff(files[..f], r);
    forall g | 0 <= g < f ensures r !in after[..f][g] {
      SurvivesIn(files, g, r);
      assert files[..f][g] == files[g] && after[..f][g] == after[g];
    }
    FileOf(files, f);
    if r in after[f][..k] {
      PrunedTwice(files[f], Drops(AllIdentities(files[..f]), files[f]), k);
    }
  }

  /** Each surviving identity survives in one file only, the earliest that had it. */
  lemma SurvivesOnce(files: seq<File>, f: nat, g: nat, r: Row)
    requires f < |files| && g < |files| && r in Deduped(files).files[f] && r in files[g]
    ensures f <= g && (r in Deduped(files).files[g] ==> f == g)
  {
    hide AllIdentities, Deduped, Clash;
    if g < f {
      SeenEarlier(files, g, f, r);
    }
    if f < g && r in files[f] {
      SeenEarlier(files, f, g, r);
    }
    SurvivesIn(files, f, r);
    SurvivesIn(files, g, r);
  }

  lemma SeenEarlier(files: seq<File>, g: nat, f: nat, r: Row)
    requires g < f < |files| && r in files[g]
    ensures r in AllIdentities(files[..f])
  {
    AllIff(files[..f], r);
    assert files[..f][g] == files[g];
  }

  lemma {:induction false} PrunedNothing(rows: File)
    ensures Pruned(rows, {}) == rows
  {
    if rows != [] {
      PrunedNothing(rows[..|rows| - 1]);
    }
  }

  lemma NothingToDrop(files: seq<File>, f: nat)
    requires f < |files| && forall k :: 0 <= k < |files[f]| ==> !Copy(files, f, k)
    ensures Drops(AllIdentities(files[..f]), files[f]) == {}
  {
    hide AllIdentities, Drops, Copy;
    forall e ensures e !in Drops(AllIdentities(files[..f]), files[f]) {
      DroppedIff(files, f, e);
    }
  }

  /** Files without copies are left as they are. */
  lemma {:induction false} CleanStays(files: seq<File>)
    requires forall f, k :: 0 <= f < |files| && 0 <= k < |files[f]| ==> !Copy(files, f, k)
    ensures Deduped(files).files == files && Deduped(files).dropped == 0
  {
    hide AllIdentities, Drops, Pruned;
    if files != [] {
      var n := |files| - 1;
      var head := files[..n];
      forall f, k | 0 <= f < |head| && 0 <= k < |head[f]| ensures !Copy(head, f, k) {
        assert !Copy(files, f, k);
        assert head[..f] == files[..f];
      }
      CleanStays(head);
      NothingToDrop(files, n);
      PrunedNothing(files[n]);
    }
  }

  /** A second run changes nothing and drops nothing, whatever the files were. */
  lemma Idempotent(files: seq<File>)
    ensures var once := Deduped(files).files; Deduped(once).files == once && Deduped(once).dropped == 0
  {
    hide Deduped, Copy;
    var once := Deduped(files).files;
    forall f, k | 0 <= f < |once| && 0 <= k < |once[f]| ensures !Copy(once, f, k) {
      NoCopies(files, f, k);
    }
    CleanStays(once);
  }

  // ---- Tables as they are generated ----

  predicate OnePerEntry(rows: File) { forall i, j :: 0 <= i < j < |rows| ==> rows[i].entry != rows[j].entry }

  /** No file registers two functions at one entry. */
  predicate Tidy(files: seq<File>) { forall f :: 0 <= f < |files| ==> OnePerEntry(files[f]) }

  /** Tidy files lose no identity. */
  lemma TidyPreserves(files: seq<File>)
    requires Tidy(files)
    ensures AllIdentities(Deduped(files).files) == AllIdentities(files)
  {
    hide AllIdentities, Deduped;
    forall f, r | 0 <= f < |files| && r in files[f] ensures !Clash(files, f, r) {
      assert OnePerEntry(files[f]);
    }
    PreservedIff(files);
  }

  lemma {:induction false} PrunedSize(rows: File, drop: set<nat>)
    requires OnePerEntry(rows) && drop <= Entries(rows)
    ensures |Pruned(rows, drop)| + |drop| == |rows|
  {
    hide OnePerEntry, Entries;
    if rows == [] {
      NoEntries(drop);
    } else {
      var n := |rows| - 1;
      var head, rest := rows[..n], drop - {rows[n].entry};
      LastEntry(rows, drop);
      PrunedSize(head, rest);
      PrunedSame(head, rest, drop);
    }
  }

  lemma NoEntries(drop: set<nat>)
    requires drop <= Entries([])
    ensures drop == {}
  {
  }

  lemma LastEntry(rows: File, drop: set<nat>)
    requires rows != [] && OnePerEntry(rows) && drop <= Entries(rows)
    ensures var n := |rows| - 1;
            var head, e := rows[..n], rows[n].entry;
            && OnePerEntry(head) && drop - {e} <= Entries(head) && (forall r :: r in head ==> r.entry != e)
            && |drop| == |drop - {e}| + if e in drop then 1 else 0
  {
    var n := |rows| - 1;
    assert rows == rows[..n] + [rows[n]];
    var e := rows[n].entry;
    assert drop == if e in drop then (drop - {e}) + {e} else drop - {e};
  }

  lemma {:induction false} PrunedSame(rows: File, a: set<nat>, b: set<nat>)
    requires forall r :: r in rows ==> (r.entry in a <==> r.entry in b)
    ensures Pruned(rows, a) == Pruned(rows, b)
  {
    if rows != [] {
      var n := |rows| - 1;
      assert rows[n] in rows;
      PrunedSame(rows[..n], a, b);
    }
  }

  /** In tidy files the count of kept functions is the number of rows that remain. */
  lemma {:induction false} KeptRemain(files: seq<File>)
    requires Tidy(files)
    ensures Total(Deduped(files).files) == Deduped(files).kept
  {
    hide AllIdentities, Drops, Pruned;
    if files != [] {
      var n := |files| - 1;
      var head := files[..n];
      assert forall f :: 0 <= f < n ==> head[f] == files[f];
      KeptRemain(head);
      var drop := Drops(AllIdentities(head), files[n]);
      DropsAmongEntries(AllIdentities(head), files[n]);
      PrunedSize(files[n], drop);
      var after := Deduped(files).files;
      assert after[..n] == Deduped(head).files;
    }
  }

  /** Distinct identities inside each file are not enough: here the second file's new identity is lost
      because it shares its entry with a copy. */
  lemma SharedEntryLoses(e: nat, a: nat, b: nat)
    requires a != b
    ensures var files := [[Row(e, a)], [Row(e, a), Row(e, b)]];
            && Row(e, b) in AllIdentities(files) && Row(e, b) !in AllIdentities(Deduped(files).files)
  {
    var files := [[Row(e, a)], [Row(e, a), Row(e, b)]];
    assert files[..1] == [[Row(e, a)]];
    AllIff(files[..1], Row(e, a));
    AllIff(files[..1], Row(e, b));
    assert files[..1][0] == [Row(e, a)];
    assert Copy(files, 1, 0);
    assert files[1][1] == Row(e, b);
    LostToClash(files, 1, Row(e, b));
  }
}
