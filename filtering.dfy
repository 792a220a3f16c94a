/**
 * The shape shared by the formatter's and the chunker's loops: walk a list
 * in order, work out what each element becomes (or that it is dropped), and
 * keep the survivors in order.
 */
module Filtering {
  import opened Wrappers

  /** The values present in `xs`, in order. */
  function Somes<U>(xs: seq<Option<U>>): (ys: seq<U>)
    ensures |ys| <= |xs|
  {
    if xs == [] then []
    else
      Somes(xs[..|xs| - 1]) +
      (match xs[|xs| - 1] case Some(y) => [y] case None => [])
  }

  /**
   * Where each survivor came from: a strictly increasing list of positions in
   * `xs`, each holding its survivor (`PositionsCover`: and no other position holds a value).
   */
  function Positions<U>(xs: seq<Option<U>>): (idx: seq<nat>)
    ensures |idx| == |Somes(xs)|
    ensures forall j :: 0 <= j < |idx| ==> idx[j] < |xs| && xs[idx[j]] == Some(Somes(xs)[j])
    ensures forall j, k :: 0 <= j < k < |idx| ==> idx[j] < idx[k]
  {
    if xs == [] then []
    else
      var n := |xs| - 1;
      var prior := Positions(xs[..n]);
      assert forall j :: 0 <= j < |prior| ==> xs[..n][prior[j]] == xs[prior[j]];
      if xs[n].Some? then
        assert Somes(xs) == Somes(xs[..n]) + [xs[n].value];
        prior + [n]
      else
        assert Somes(xs) == Somes(xs[..n]);
        prior
  }

  /** The positions listed are exactly those that hold a value. */
  lemma {:induction false} PositionsCover<U>(xs: seq<Option<U>>)
    ensures forall n :: 0 <= n < |xs| ==> (n in Positions(xs) <==> xs[n].Some?)
    decreases |xs|
  {
    if xs != [] {
      var m := |xs| - 1;
      var prior := Positions(xs[..m]);
      var idx := Positions(xs);
      PositionsCover(xs[..m]);
      assert idx == if xs[m].Some? then prior + [m] else prior;
      forall n | 0 <= n < |xs|
        ensures n in idx <==> xs[n].Some?
      {
        if n < m {
          assert xs[..m][n] == xs[n];
          assert n in idx <==> n in prior;
        } else {
          assert forall j :: 0 <= j < |prior| ==> prior[j] != m;
        }
      }
    }
  }

  /** One more element: the survivors so far, plus this one if it holds a value. */
  lemma SomesSnoc<U>(xs: seq<Option<U>>, x: Option<U>)
    ensures Somes(xs + [x]) == Somes(xs) + (match x case Some(y) => [y] case None => [])
  {
    assert (xs + [x])[..|xs|] == xs;
  }

  /** Every survivor comes from some position of the list. */
  lemma SomeOrigin<U>(xs: seq<Option<U>>, y: U) returns (n: nat)
    requires y in Somes(xs)
    ensures n < |xs| && xs[n] == Some(y)
  {
    var idx := Positions(xs);
    var j :| 0 <= j < |Somes(xs)| && Somes(xs)[j] == y;
    n := idx[j];
  }

  /** One more element of a prefix: the survivors so far, plus this one if it holds a value. */
  lemma SomesPrefixStep<U>(xs: seq<Option<U>>, i: nat)
    requires i < |xs|
    ensures Somes(xs[..i + 1]) == Somes(xs[..i]) + (match xs[i] case Some(y) => [y] case None => [])
  {
    assert xs[..i + 1] == xs[..i] + [xs[i]];
    SomesSnoc(xs[..i], xs[i]);
  }

  /**
   * The first `m` positions are all the positions up to the `m`-th one: no
   * value before it was passed over.
   */
  lemma FirstPositions<U>(xs: seq<Option<U>>, m: nat)
    requires 0 < m <= |Positions(xs)|
    ensures forall n :: 0 <= n <= Positions(xs)[m - 1] && xs[n].Some? ==> n in Positions(xs)[..m]
  {
    var idx := Positions(xs);
    PositionsCover(xs);
    forall n | 0 <= n <= idx[m - 1] && xs[n].Some?
      ensures n in idx[..m]
    {
      var j :| 0 <= j < |idx| && idx[j] == n;
      assert j < m;
      assert idx[..m][j] == n;
    }
  }
}
