/** Python's ordering of strings (code point by code point, a proper prefix
    first) and `sorted` on a set of identifiers. */
module Ordering {

  /** Python's `a < b` on two `str` values. */
  predicate LexLess(a: string, b: string)
    decreases |a|
  {
    |b| > 0 && (|a| == 0 || a[0] < b[0] || (a[0] == b[0] && LexLess(a[1..], b[1..])))
  }

  lemma {:induction false} LexIrreflexive(a: string)
    ensures !LexLess(a, a)
    decreases |a|
  {
    if |a| > 0 {
      LexIrreflexive(a[1..]);
    }
  }

  lemma {:induction false} LexTransitive(a: string, b: string, c: string)
    requires LexLess(a, b) && LexLess(b, c)
    ensures LexLess(a, c)
    decreases |a|
  {
    if |a| > 0 && a[0] == b[0] && b[0] == c[0] {
      LexTransitive(a[1..], b[1..], c[1..]);
    }
  }

  /** Any two different strings are ordered one way or the other. */
  lemma {:induction false} LexTotal(a: string, b: string)
    requires a != b
    ensures LexLess(a, b) || LexLess(b, a)
    decreases |a|
  {
    if |a| > 0 && |b| > 0 && a[0] == b[0] {
      assert a == [a[0]] + a[1..] && b == [b[0]] + b[1..];
      LexTotal(a[1..], b[1..]);
    }
  }

  lemma LexAsymmetric(a: string, b: string)
    requires LexLess(a, b)
    ensures !LexLess(b, a)
  {
    if LexLess(b, a) {
      LexTransitive(a, b, a);
      LexIrreflexive(a);
    }
  }

  /** Sorted in increasing order with no element repeated. */
  ghost predicate StrictlySorted(s: seq<string>) {
    forall i, j :: 0 <= i < j < |s| ==> LexLess(s[i], s[j])
  }

  /** One step of insertion sort: puts `x` in its place in a sorted sequence. */
  function Insert(s: seq<string>, x: string): (r: seq<string>)
    requires StrictlySorted(s) && x !in s
    ensures StrictlySorted(r)
    ensures |r| == |s| + 1
    ensures forall y :: y in r <==> y in s || y == x
  {
    if s == [] then [x]
    else if LexLess(x, s[0]) then
      assert forall j :: 0 < j < |s| ==> LexLess(s[0], s[j]);
      LexLessAllAfter(x, s);
      [x] + s
    else
      LexTotal(x, s[0]);
      var rest := Insert(s[1..], x);
      assert forall y :: y in rest ==> LexLess(s[0], y);
      [s[0]] + rest
  }

  lemma LexLessAllAfter(x: string, s: seq<string>)
    requires StrictlySorted(s) && |s| > 0 && LexLess(x, s[0])
    ensures forall j :: 0 <= j < |s| ==> LexLess(x, s[j])
  {
    forall j | 0 < j < |s| ensures LexLess(x, s[j]) {
      LexTransitive(x, s[0], s[j]);
    }
  }

  /** `sorted(list(ids))`: the identifiers in increasing order, each once. */
  method SortIds(ids: set<string>) returns (r: seq<string>)
    ensures StrictlySorted(r)
    ensures |r| == |ids|
    ensures forall x :: x in r <==> x in ids
  {
    r := [];
    var rest := ids;
    while rest != {}
      invariant rest <= ids
      invariant StrictlySorted(r)
      invariant |r| + |rest| == |ids|
      invariant forall x :: x in r <==> x in ids && x !in rest
      decreases rest
    {
      var x :| x in rest;
      r := Insert(r, x);
      rest := rest - {x};
    }
  }

  /** A set has exactly one strictly sorted enumeration. */
  lemma {:induction false} SortedUnique(a: seq<string>, b: seq<string>)
    requires StrictlySorted(a) && StrictlySorted(b)
    requires forall x :: x in a <==> x in b
    ensures a == b
    decreases |a|
  {
    assert a != [] ==> a[0] in b;
    assert b != [] ==> b[0] in a;
    if a != [] && b != [] {
      if a[0] != b[0] {
        assert b[0] in a && a[0] in b;
        var i :| 0 <= i < |a| && a[i] == b[0];
        var j :| 0 <= j < |b| && b[j] == a[0];
        assert i > 0 && j > 0;
        assert LexLess(a[0], b[0]) && LexLess(b[0], a[0]);
        LexAsymmetric(a[0], b[0]);
      }
      forall x ensures x in a[1..] <==> x in b[1..] {
        if x in a[1..] {
          var i :| 1 <= i < |a| && a[i] == x;
          assert LexLess(a[0], x);
          if x == b[0] { LexIrreflexive(x); }
          assert x in b && b == [b[0]] + b[1..];
        }
        if x in b[1..] {
          var j :| 1 <= j < |b| && b[j] == x;
          assert LexLess(b[0], x);
          if x == a[0] { LexIrreflexive(x); }
          assert x in a && a == [a[0]] + a[1..];
        }
      }
      SortedUnique(a[1..], b[1..]);
    }
  }

  lemma {:induction false} SortedExists(ids: set<string>)
    ensures exists r :: StrictlySorted(r) && forall x :: x in r <==> x in ids
    decreases ids
  {
    if ids == {} {
      assert StrictlySorted([]);
    } else {
      var x :| x in ids;
      SortedExists(ids - {x});
      var r :| StrictlySorted(r) && forall y :: y in r <==> y in ids - {x};
      var r' := Insert(r, x);
      assert forall y :: y in r' <==> y in ids;
    }
  }

  /** The sorted enumeration of a set of identifiers, as a specification value. */
  ghost function SortedOf(ids: set<string>): (r: seq<string>)
    ensures StrictlySorted(r)
    ensures forall x :: x in r <==> x in ids
  {
    SortedExists(ids);
    var r :| StrictlySorted(r) && forall x :: x in r <==> x in ids;
    r
  }

  /** The distinct elements of `s` in order of first occurrence: the key order of a
      Python dict filled from `s`. */
  function FirstSeen(s: seq<string>): (r: seq<string>)
    ensures forall x :: x in r <==> x in s
    ensures forall i, j :: 0 <= i < j < |r| ==> r[i] != r[j]
    decreases |s|
  {
    if s == [] then []
    else
      var prev := FirstSeen(s[..|s| - 1]);
      if s[|s| - 1] in prev then prev else prev + [s[|s| - 1]]
  }
}
