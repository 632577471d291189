/**
 Sequence helpers shared by the screens: order-keeping filter and the
 first-occurrence de-duplication that a JavaScript `Set` built from an
 array performs.
 */
module Seqs {
  import opened Wrappers

  predicate Distinct<T(==)>(xs: seq<T>) {
    forall i, j :: 0 <= i < j < |xs| ==> xs[i] != xs[j]
  }

  /** `xs.filter(p)`: the elements satisfying `p`, in their order. */
  function Filter<T(==,!new)>(xs: seq<T>, p: T -> bool): (r: seq<T>)
    ensures |r| <= |xs|
    ensures forall i :: 0 <= i < |r| ==> p(r[i])
    ensures forall x :: x in r <==> x in xs && p(x)
    ensures Distinct(xs) ==> Distinct(r)
    decreases |xs|
  {
    if |xs| == 0 then []
    else if p(xs[0]) then
      var rest := Filter(xs[1..], p);
      assert xs[0] !in xs[1..] ==> xs[0] !in rest;
      [xs[0]] + rest
    else Filter(xs[1..], p)
  }

  /** A one-element list keeps its element exactly when it passes. */
  lemma FilterOne<T(!new)>(x: T, p: T -> bool)
    ensures Filter([x], p) == if p(x) then [x] else []
  {
    assert [x][1..] == [];
  }

  /** Filtering distributes over concatenation; with the one-element case
      this fixes the order and multiplicity of what is kept. */
  lemma {:induction false} FilterAppend<T(!new)>(xs: seq<T>, ys: seq<T>, p: T -> bool)
    ensures Filter(xs + ys, p) == Filter(xs, p) + Filter(ys, p)
    decreases |xs|
  {
    if |xs| > 0 {
      assert (xs + ys)[0] == xs[0];
      assert (xs + ys)[1..] == xs[1..] + ys;
      FilterAppend(xs[1..], ys, p);
    } else {
      assert xs + ys == ys;
    }
  }

  /** A sequence's multiset is that of all but its last element plus the
      last one. */
  lemma MultisetSnoc<T>(xs: seq<T>)
    requires |xs| > 0
    ensures multiset(xs) == multiset(xs[..|xs| - 1]) + multiset{xs[|xs| - 1]}
  {
    assert xs == xs[..|xs| - 1] + [xs[|xs| - 1]];
  }

  /** A prefix holds no more of any value than the whole sequence. */
  lemma PrefixMultiset<T>(xs: seq<T>, n: nat)
    requires n <= |xs|
    ensures multiset(xs[..n]) <= multiset(xs)
  {
    assert xs == xs[..n] + xs[n..];
  }

  /** `[...new Set(xs)]`: each value once, in order of first occurrence. */
  function Dedup<T(==,!new)>(xs: seq<T>): (r: seq<T>)
    ensures Distinct(r)
    ensures forall x :: x in r <==> x in xs
    decreases |xs|
  {
    if |xs| == 0 then []
    else
      var d := Dedup(xs[..|xs| - 1]);
      if xs[|xs| - 1] in d then d else d + [xs[|xs| - 1]]
  }

  /** `xs.map(g).filter(x => x !== null)`, with `os` the mapped values:
      the present ones, in order. */
  function Somes<T>(os: seq<Option<T>>): (r: seq<T>)
    ensures |r| <= |os|
    decreases |os|
  {
    if |os| == 0 then []
    else
      var last := os[|os| - 1];
      Somes(os[..|os| - 1]) + (if last.Some? then [last.value] else [])
  }

  /** A single mapped value: kept when present. */
  lemma SomesOne<T>(o: Option<T>)
    ensures Somes([o]) == if o.Some? then [o.value] else []
  {
    assert [o][..0] == [];
  }

  /** The positions of the present values: increasing, each holding a
      value. */
  function SomeIndices<T>(os: seq<Option<T>>): (ks: seq<nat>)
    ensures forall j :: 0 <= j < |ks| ==> ks[j] < |os| && os[ks[j]].Some?
    ensures forall i, j :: 0 <= i < j < |ks| ==> ks[i] < ks[j]
    decreases |os|
  {
    if |os| == 0 then []
    else
      var n := |os| - 1;
      var ks := SomeIndices(os[..n]);
      assert forall j :: 0 <= j < |ks| ==> os[..n][ks[j]] == os[ks[j]];
      ks + (if os[n].Some? then [n] else [])
  }

  /** Every present value's position is listed. */
  lemma {:induction false} SomeIndicesComplete<T>(os: seq<Option<T>>, k: nat)
    requires k < |os| && os[k].Some?
    ensures k in SomeIndices(os)
    decreases |os|
  {
    var n := |os| - 1;
    if k < n {
      assert os[..n][k] == os[k];
      SomeIndicesComplete(os[..n], k);
    }
  }

  /** The `j`-th kept value is the value at the `j`-th present position. */
  lemma {:induction false} SomesInOrder<T>(os: seq<Option<T>>)
    ensures |Somes(os)| == |SomeIndices(os)|
    ensures forall j :: 0 <= j < |Somes(os)| ==> os[SomeIndices(os)[j]] == Some(Somes(os)[j])
    decreases |os|
  {
    if |os| > 0 {
      var n := |os| - 1;
      var r', ks' := Somes(os[..n]), SomeIndices(os[..n]);
      SomesInOrder(os[..n]);
      forall j | 0 <= j < |r'|
        ensures os[ks'[j]] == Some(r'[j])
      {
        assert os[..n][ks'[j]] == os[ks'[j]];
      }
    }
  }

  /** A value is kept exactly when some position holds it. */
  lemma SomesMembers<T>(os: seq<Option<T>>, x: T)
    ensures x in Somes(os) <==> exists k :: 0 <= k < |os| && os[k] == Some(x)
  {
    var r, ks := Somes(os), SomeIndices(os);
    SomesInOrder(os);
    if x in r {
      var j :| 0 <= j < |r| && r[j] == x;
      assert os[ks[j]] == Some(x);
    }
    if exists k :: 0 <= k < |os| && os[k] == Some(x) {
      var k :| 0 <= k < |os| && os[k] == Some(x);
      SomeIndicesComplete(os, k);
      var j :| 0 <= j < |ks| && ks[j] == k;
      assert r[j] == x;
    }
  }
}
