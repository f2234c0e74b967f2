/** The warm coverage set of the overlay compiler: per region, the function identities that built
    overlays already provide, kept in memory beside the manifests on disk. */
module Coverage {
  import opened Manifest

  type Identity = (nat, nat)

  /** An overlay file: its region and the checksum of the captured image. */
  datatype Key = Key(region: nat, crc: nat)

  /** The cache directory, and the coverage sets loaded so far. */
  datatype State = State(dlls: set<Key>, manifests: map<Key, seq<string>>, warm: map<nat, set<Identity>>)

  /** A capture as the loop meets it: the results of the external steps are given with it. */
  datatype Capture = Capture(key: Key, hasRoots: bool, recompiled: bool, ids: seq<FuncId>, compiles: bool)

  datatype Outcome = NoRoots | DllExists | RecompileFailed | AlreadyCovered | CompileFailed | Built

  /** A rescan: the identities in all manifests of a region. */
  function OnDisk(manifests: map<Key, seq<string>>, region: nat): set<Identity> {
    set k, i | k in manifests && k.region == region && i in Covered(manifests[k]) :: i
  }

  function WarmSet(st: State, region: nat): set<Identity> {
    if region in st.warm then st.warm[region] else OnDisk(st.manifests, region)
  }

  function Judge(st: State, cap: Capture, force: bool): Outcome {
    if !cap.hasRoots then NoRoots
    else if cap.key in st.dlls && !force then DllExists
    else if !cap.recompiled then RecompileFailed
    else if Identities(cap.ids) != {} && Identities(cap.ids) <= WarmSet(st, cap.key.region) && !force
        then AlreadyCovered
    else if cap.compiles then Built
    else CompileFailed
  }

  function Next(st: State, cap: Capture, force: bool): State {
    var o := Judge(st, cap, force);
    var r := cap.key.region;
    if o.NoRoots? || o.DllExists? || o.RecompileFailed? then st
    else
      var loaded := st.(warm := st.warm[r := WarmSet(st, r)]);
      if !o.Built? then loaded
      else if cap.ids == [] then loaded.(dlls := st.dlls + {cap.key})
      else State(st.dlls + {cap.key}, st.manifests[cap.key := Lines(cap.ids)],
                 st.warm[r := WarmSet(st, r) + Identities(cap.ids)])
  }

  function Run(st: State, caps: seq<Capture>): State {
    if caps == [] then st else Next(Run(st, caps[..|caps| - 1]), caps[|caps| - 1], false)
  }

  // ---- What every capture keeps ----

  /** Manifests exist only beside their overlays. */
  predicate Beside(st: State) { st.manifests.Keys <= st.dlls }

  /** Each loaded coverage set is what a rescan would give. */
  predicate Warm(st: State) { forall r :: r in st.warm ==> st.warm[r] == OnDisk(st.manifests, r) }

  ghost predicate Grows(before: State, after: State) {
    forall r :: OnDisk(before.manifests, r) <= OnDisk(after.manifests, r)
  }

  lemma OnDiskIff(m: map<Key, seq<string>>, r: nat, i: Identity)
    ensures i in OnDisk(m, r) <==> exists k :: k in m && k.region == r && i in Covered(m[k])
  {
  }

  /** Writing a manifest replaces what its file held. */
  lemma OnDiskWritten(m: map<Key, seq<string>>, k: Key, ids: seq<FuncId>, r: nat)
    ensures OnDisk(m[k := Lines(ids)], r) == OnDisk(m - {k}, r) + if k.region == r then Identities(ids) else {}
  {
    hide OnDisk, Lines, Covered, Identities;
    ReadBack(ids);
    var m' := m[k := Lines(ids)];
    var rest := OnDisk(m - {k}, r) + if k.region == r then Identities(ids) else {};
    forall i ensures i in OnDisk(m', r) <==> i in rest {
      OnDiskIff(m', r, i);
      OnDiskIff(m - {k}, r, i);
      if j :| j in m - {k} && j.region == r && i in Covered((m - {k})[j]) {
        assert m'[j] == (m - {k})[j];
      }
      if i in Identities(ids) && k.region == r {
        assert k in m' && i in Covered(m'[k]);
      }
    }
  }

  lemma Untouched(m: map<Key, seq<string>>, k: Key)
    requires k !in m
    ensures m - {k} == m
  {
  }

  lemma LoadKeepsWarm(st: State, r: nat)
    requires Warm(st)
    ensures WarmSet(st, r) == OnDisk(st.manifests, r) && Warm(st.(warm := st.warm[r := WarmSet(st, r)]))
  {
    hide OnDisk;
  }

  /** One capture without --force: the invariants stay, coverage grows, and a capture that is skipped
      as covered or built has all its identities on disk. */
  lemma StepKeeps(st: State, cap: Capture)
    requires Beside(st) && Warm(st)
    ensures var after := Next(st, cap, false);
            && Beside(after) && Warm(after) && Grows(st, after)
            && (Judge(st, cap, false) in {AlreadyCovered, Built} ==>
                Identities(cap.ids) <= OnDisk(after.manifests, cap.key.region))
  {
    hide OnDisk, Lines, Identities;
    var r := cap.key.region;
    LoadKeepsWarm(st, r);
    if Judge(st, cap, false) == Built {
      assert cap.key !in st.manifests;
      Untouched(st.manifests, cap.key);
      forall s ensures OnDisk(st.manifests[cap.key := Lines(cap.ids)], s)
                       == OnDisk(st.manifests, s) + if r == s then Identities(cap.ids) else {} {
        OnDiskWritten(st.manifests, cap.key, cap.ids, s);
      }
      NoIdentities(cap.ids);
    }
  }

  /** What a capture changes on disk: an overlay is added exactly if it was built, and its manifest, which covers its
      identities, exactly if it has any; nothing else changes, and no warm set is forgotten. */
  lemma NextChanges(st: State, cap: Capture, force: bool, k: Key)
    ensures var o, t := Judge(st, cap, force), Next(st, cap, force);
            && (k in t.dlls <==> k in st.dlls || (o == Built && k == cap.key))
            && (k in t.manifests <==> k in st.manifests || (o == Built && k == cap.key && cap.ids != []))
            && (k in st.manifests && !(o == Built && k == cap.key && cap.ids != []) ==>
                k in t.manifests && t.manifests[k] == st.manifests[k])
            && (o == Built && cap.ids != [] ==> Covered(t.manifests[cap.key]) == Identities(cap.ids))
            && (o in {AlreadyCovered, CompileFailed, Built} ==> cap.key.region in t.warm)
            && (k.region in st.warm ==> k.region in t.warm)
            && (o in {NoRoots, DllExists, RecompileFailed} ==> t == st)
  {
    hide Covered, OnDisk, Lines, Identities;
    if Judge(st, cap, force) == Built { ReadBack(cap.ids); }
  }

  /** When a capture is skipped and when it is built, in terms of the files on disk: with nothing to do or an
      overlay already there it is left; with all its identities on disk it is skipped; otherwise it is compiled. */
  lemma JudgeIff(st: State, cap: Capture, force: bool)
    requires Warm(st)
    ensures var o := Judge(st, cap, force);
            var ready := cap.hasRoots && (force || cap.key !in st.dlls);
            var covered := cap.ids != [] && Identities(cap.ids) <= OnDisk(st.manifests, cap.key.region);
            && (o == NoRoots <==> !cap.hasRoots)
            && (o == DllExists <==> cap.hasRoots && !force && cap.key in st.dlls)
            && (o == RecompileFailed <==> ready && !cap.recompiled)
            && (o == AlreadyCovered <==> ready && cap.recompiled && covered && !force)
            && (o == Built <==> ready && cap.recompiled && (force || !covered) && cap.compiles)
            && (o == CompileFailed <==> ready && cap.recompiled && (force || !covered) && !cap.compiles)
  {
    hide OnDisk, Identities;
    LoadKeepsWarm(st, cap.key.region);
    SomeIdentities(cap.ids);
  }

  lemma SomeIdentities(ids: seq<FuncId>)
    ensures ids == [] <==> Identities(ids) == {}
  {
    if ids != [] { assert (ids[0].ev, ids[0].crc) in Identities(ids); }
  }

  lemma NoIdentities(ids: seq<FuncId>)
    ensures ids == [] ==> Identities(ids) == {}
  {
  }

  lemma GrowsOn(a: State, b: State, c: State)
    requires Grows(a, b) && Grows(b, c)
    ensures Grows(a, c)
  {
    hide OnDisk;
  }

  /** Any run of captures keeps the warm sets equal to a rescan and only adds coverage. */
  lemma {:induction false} RunKeeps(st: State, caps: seq<Capture>)
    requires Beside(st) && Warm(st)
    ensures var after := Run(st, caps); Beside(after) && Warm(after) && Grows(st, after)
  {
    hide Beside, Warm, Grows, Next;
    if caps == [] {
      GrowsSelf(st);
    } else {
      var before := Run(st, caps[..|caps| - 1]);
      RunKeeps(st, caps[..|caps| - 1]);
      StepKeeps(before, caps[|caps| - 1]);
      GrowsOn(st, before, Run(st, caps));
    }
  }

  lemma GrowsSelf(st: State)
    ensures Grows(st, st)
  {
  }

  lemma {:induction false} RunSplit(st: State, a: seq<Capture>, b: seq<Capture>)
    ensures Run(st, a + b) == Run(Run(st, a), b)
    decreases |b|
  {
    hide Next;
    if b == [] {
      assert a + b == a;
    } else {
      assert (a + b)[..|a + b| - 1] == a + b[..|b| - 1];
      RunSplit(st, a, b[..|b| - 1]);
    }
  }

  /** A capture skipped as covered, or built, has its identities on disk from then on, whatever
      captures come before and after it. */
  lemma StaysCovered(st: State, before: seq<Capture>, cap: Capture, later: seq<Capture>)
    requires Beside(st) && Warm(st) && Judge(Run(st, before), cap, false) in {AlreadyCovered, Built}
    ensures Identities(cap.ids) <= OnDisk(Run(st, before + [cap] + later).manifests, cap.key.region)
  {
    hide Beside, Warm, Next, Identities, OnDisk, Judge;
    RunKeeps(st, before);
    var at := Run(st, before);
    StepKeeps(at, cap);
    assert (before + [cap])[..|before|] == before;
    RunKeeps(Next(at, cap, false), later);
    RunSplit(st, before + [cap], later);
  }

  // ---- With --force ----

  /** The identities a forced build takes off the disk: those only its old manifest had. */
  function Lost(st: State, cap: Capture): set<Identity> {
    var r := cap.key.region;
    OnDisk(st.manifests, r) - OnDisk(st.manifests - {cap.key}, r) - Identities(cap.ids)
  }

  /** A build keeps the warm set true exactly if no identity is lost with the manifest it replaces. */
  lemma ForcedWarmIff(st: State, cap: Capture)
    requires Warm(st) && Judge(st, cap, true) == Built && cap.ids != []
    ensures Warm(Next(st, cap, true)) <==> Lost(st, cap) == {}
  {
    hide OnDisk, Lines, Identities;
    var r := cap.key.region;
    LoadKeepsWarm(st, r);
    var m := st.manifests;
    forall s ensures OnDisk(m[cap.key := Lines(cap.ids)], s)
                     == OnDisk(m - {cap.key}, s) + if r == s then Identities(cap.ids) else {} {
      OnDiskWritten(m, cap.key, cap.ids, s);
    }
    forall s ensures OnDisk(m - {cap.key}, s) <= OnDisk(m, s) && (s != r ==> OnDisk(m - {cap.key}, s) == OnDisk(m, s)) {
      OnDiskWithout(m, cap.key, s);
    }
    var after := Next(st, cap, true);
    assert r in after.warm && after.warm[r] == OnDisk(m, r) + Identities(cap.ids);
    assert OnDisk(after.manifests, r) == OnDisk(m - {cap.key}, r) + Identities(cap.ids);
    assert Lost(st, cap) == after.warm[r] - OnDisk(after.manifests, r);
    EmptyDifference(after.warm[r], OnDisk(after.manifests, r));
  }

  lemma EmptyDifference(a: set<Identity>, b: set<Identity>)
    requires b <= a
    ensures a - b == {} <==> a == b
  {
    if a - b == {} {
      forall x | x in a ensures x in b { assert x !in a - b; }
    }
  }

  lemma OnDiskWithout(m: map<Key, seq<string>>, k: Key, s: nat)
    ensures OnDisk(m - {k}, s) <= OnDisk(m, s) && (s != k.region ==> OnDisk(m - {k}, s) == OnDisk(m, s))
  {
    hide Covered, OnDisk;
    forall i ensures i in OnDisk(m - {k}, s) ==> i in OnDisk(m, s)
             ensures s != k.region && i in OnDisk(m, s) ==> i in OnDisk(m - {k}, s)
    {
      OnDiskIff(m, s, i);
      OnDiskIff(m - {k}, s, i);
      if j :| j in m - {k} && j.region == s && i in Covered((m - {k})[j]) {
        assert j in m && m[j] == (m - {k})[j];
      }
      if j :| s != k.region && j in m && j.region == s && i in Covered(m[j]) {
        assert j in m - {k} && m[j] == (m - {k})[j];
      }
    }
  }

  /** A forced rebuild of the only overlay of a region, with another function: the warm set keeps an identity
      that is no longer on disk. */
  lemma ForcedGoesStale() returns (st: State, cap: Capture)
    ensures Beside(st) && Warm(st) && Judge(st, cap, true) == Built && cap.ids != []
    ensures Lost(st, cap) == {(1, 2)} && !Warm(Next(st, cap, true))
  {
    hide Lines, Covered;
    var prior, next := [FuncId(1, 2, [Range(1, 4)])], [FuncId(3, 4, [Range(3, 4)])];
    ReadBack(prior);
    var k := Key(0, 0);
    st := State({k}, map[k := Lines(prior)], map[]);
    cap := Capture(k, true, true, next, true);
    assert Identities(prior) == {(1, 2)} && Identities(next) == {(3, 4)};
    assert OnDisk(st.manifests, 0) == {(1, 2)} by { assert k in st.manifests && (1, 2) in Covered(st.manifests[k]); }
    assert st.manifests - {k} == map[];
    assert OnDisk(map[], 0) == {};
    ForcedWarmIff(st, cap);
  }

  // ---- The loop body ----

  /** The part of the compiler that decides whether a capture is built. */
  class OverlayCache {
    var dlls: set<Key>
    var manifests: map<Key, seq<string>>
    var warm: map<nat, set<Identity>>

    function Value(): State
      reads this
    {
      State(dlls, manifests, warm)
    }

    constructor (dlls: set<Key>, manifests: map<Key, seq<string>>)
      ensures Value() == State(dlls, manifests, map[]) && Warm(Value())
    {
      this.dlls := dlls;
      this.manifests := manifests;
      warm := map[];
    }

    /** Reads every manifest of a region, in whatever order the directory lists them. */
    method LoadRegion(region: nat) returns (covered: set<Identity>)
      ensures covered == OnDisk(manifests, region)
    {
      hide Covered, OnDisk;
      covered := {};
      var names := manifests.Keys;
      ghost var seen: set<Key> := {};
      while names != {}
        invariant names + seen == manifests.Keys && names !! seen
        invariant covered == set k, i | k in seen && k in manifests && k.region == region
                  && i in Covered(manifests[k]) :: i
        decreases names
      {
        assert (forall k :: k !in names) ==> names == {};
        var name :| name in names;
        if name.region == region {
          var more := ReadCoverage(manifests[name]);
          covered := covered + more;
        }
        names := names - {name};
        seen := seen + {name};
      }
      assert forall k :: k in manifests <==> k in seen;
      forall i ensures i in covered <==> i in OnDisk(manifests, region) {
        OnDiskIff(manifests, region, i);
      }
    }

    /** One capture. */
    method Process(cap: Capture, force: bool) returns (o: Outcome)
      modifies this
      ensures o == old(Judge(Value(), cap, force))
      ensures Value() == old(Next(Value(), cap, force))
    {
      hide OnDisk, Lines, Identities;
      if !cap.hasRoots {
        return NoRoots;
      }
      if cap.key in dlls && !force {
        return DllExists;
      }
      if !cap.recompiled {
        return RecompileFailed;
      }
      var these := Identities(cap.ids);
      var region := cap.key.region;
      if region !in warm {
        var loaded := LoadRegion(region);
        warm := warm[region := loaded];
      }
      var covered := warm[region];
      assert warm == old(warm)[region := covered];
      if these != {} && these <= covered && !force {
        return AlreadyCovered;
      }
      if !cap.compiles {
        return CompileFailed;
      }
      dlls := dlls + {cap.key};
      if cap.ids != [] {
        var lines := WriteManifest(cap.ids);
        manifests := manifests[cap.key := lines];
        warm := warm[region := covered + these];
        assert warm == old(warm)[region := covered + these];
      }
      o := Built;
    }
  }
}
