/** Splitting a quantifier over a sequence into its prefix and its last element,
    the step every prefix fold of the model takes. */
module Seqs {

  /** Some element satisfies `p` exactly when one of all but the last does or the last does. */
  lemma ExistsSplit<T>(s: seq<T>, init: seq<T>, p: T -> bool)
    requires s != [] && init == s[..|s| - 1]
    ensures (exists i :: 0 <= i < |s| && p(s[i]))
      <==> (exists i :: 0 <= i < |init| && p(init[i])) || p(s[|s| - 1])
  {
    if exists i :: 0 <= i < |s| && p(s[i]) {
      var i :| 0 <= i < |s| && p(s[i]);
      if i < |init| {
        assert init[i] == s[i];
      }
    }
    if exists i :: 0 <= i < |init| && p(init[i]) {
      var i :| 0 <= i < |init| && p(init[i]);
      assert s[i] == init[i];
    }
  }

  /** Every element satisfies `p` exactly when all but the last do and the last does. */
  lemma AllSplit<T>(s: seq<T>, init: seq<T>, p: T -> bool)
    requires s != [] && init == s[..|s| - 1]
    ensures (forall i :: 0 <= i < |s| ==> p(s[i]))
      <==> (forall i :: 0 <= i < |init| ==> p(init[i])) && p(s[|s| - 1])
  {
    if !(forall i :: 0 <= i < |s| ==> p(s[i])) {
      var i :| 0 <= i < |s| && !p(s[i]);
      if i < |init| {
        assert init[i] == s[i];
      }
    }
    if !(forall i :: 0 <= i < |init| ==> p(init[i])) {
      var i :| 0 <= i < |init| && !p(init[i]);
      assert s[i] == init[i];
    }
  }

  /** What holds of every element after position `k` of `s` holds of every
      element after `k` of its prefix. */
  lemma AfterPrefix<T>(s: seq<T>, init: seq<T>, k: nat, p: T -> bool)
    requires s != [] && init == s[..|s| - 1]
    requires forall j :: k < j < |s| ==> p(s[j])
    ensures forall j :: k < j < |init| ==> p(init[j])
  {
    forall j | k < j < |init|
      ensures p(init[j])
    {
      assert init[j] == s[j];
    }
  }

  /** The prefix of a sequence without repeats has none either, and does not
      contain the last element. */
  lemma DistinctPrefix<T>(s: seq<T>, init: seq<T>)
    requires s != [] && init == s[..|s| - 1]
    requires forall i, j :: 0 <= i < j < |s| ==> s[i] != s[j]
    ensures forall i, j :: 0 <= i < j < |init| ==> init[i] != init[j]
    ensures s[|s| - 1] !in init
  { }

  /** An element of a non-empty sequence is in its prefix or is its last element. */
  lemma InSplit<T>(s: seq<T>, init: seq<T>, x: T)
    requires s != [] && init == s[..|s| - 1]
    ensures x in s <==> x in init || x == s[|s| - 1]
  {
    assert s == init + [s[|s| - 1]];
  }

  /** The first `n` elements satisfy `p` exactly when the first does and the
      first `n - 1` of the rest do. */
  lemma AllFront<T>(s: seq<T>, tail: seq<T>, n: nat, p: T -> bool)
    requires s != [] && tail == s[1..] && 1 <= n <= |s|
    ensures (forall j :: 0 <= j < n ==> p(s[j])) <==> p(s[0]) && forall j :: 0 <= j < n - 1 ==> p(tail[j])
  {
    if p(s[0]) && forall j :: 0 <= j < n - 1 ==> p(tail[j]) {
      forall j | 0 <= j < n
        ensures p(s[j])
      {
        if j > 0 {
          assert s[j] == tail[j - 1];
        }
      }
    }
    if forall j :: 0 <= j < n ==> p(s[j]) {
      forall j | 0 <= j < n - 1
        ensures p(tail[j])
      {
        assert tail[j] == s[j + 1];
      }
    }
  }

  /** Some element satisfies `p` exactly when the first does or one of the rest does. */
  lemma ExistsFront<T>(s: seq<T>, tail: seq<T>, p: T -> bool)
    requires s != [] && tail == s[1..]
    ensures (exists j :: 0 <= j < |s| && p(s[j])) <==> p(s[0]) || exists j :: 0 <= j < |tail| && p(tail[j])
  {
    if exists j :: 0 <= j < |s| && p(s[j]) {
      var j :| 0 <= j < |s| && p(s[j]);
      if j > 0 {
        assert s[j] == tail[j - 1];
      }
    }
    if exists j :: 0 <= j < |tail| && p(tail[j]) {
      var j :| 0 <= j < |tail| && p(tail[j]);
      assert tail[j] == s[j + 1];
    }
  }
}
