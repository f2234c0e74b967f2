/** Enumerating a finite set of addresses in ascending order. */
module Sorting {

  predicate IsLeast(s: set<int>, m: int) {
    m in s && forall x :: x in s ==> m <= x
  }

  lemma {:induction false} LeastExists(s: set<int>) returns (m: int)
    requires s != {}
    ensures IsLeast(s, m)
  {
    assert (forall x :: x !in s) ==> s == {};
    m :| m in s;
    if s != {m} {
      var t := s - {m};
      assert s == t + {m};
      var k := LeastExists(t);
      m := if m < k then m else k;
    }
  }

  function Least(s: set<int>): (m: int)
    requires s != {}
    ensures IsLeast(s, m)
  {
    assert exists m :: IsLeast(s, m) by { var k := LeastExists(s); }
    var m :| IsLeast(s, m);
    m
  }

  function Sorted(s: set<int>): (r: seq<int>)
    ensures forall x :: x in r <==> x in s
    ensures forall i, j :: 0 <= i < j < |r| ==> r[i] < r[j]
  {
    if s == {} then []
    else
      var m := Least(s);
      var rest := Sorted(s - {m});
      assert forall x :: x in s <==> x == m || x in rest;
      assert forall j :: 0 <= j < |rest| ==> rest[j] in rest;
      [m] + rest
  }

  predicate Distinct(s: seq<int>) { forall i, j :: 0 <= i < j < |s| ==> s[i] != s[j] }

  function Elements(s: seq<int>): set<int> {
    set x | x in s
  }

  lemma ElementsNext(s: seq<int>, i: nat)
    requires i < |s|
    ensures Elements(s[..i + 1]) == Elements(s[..i]) + {s[i]}
  {
    assert s[..i + 1] == s[..i] + [s[i]];
  }

  lemma ElementsSorted(s: set<int>)
    ensures Elements(Sorted(s)) == s
    ensures Sorted(s)[..|Sorted(s)|] == Sorted(s)
  {
  }
}
