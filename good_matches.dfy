/**
  The decision taken for one pair of objects (object i of the first card,
  object j of the second card): the keypoint correspondences returned by the
  descriptor matcher are sorted by distance, the "good" ones (distance below
  GoodDistance) are collected in that order, and the pair is accepted when at
  least GoodMatchesMinLimit of them survive.
*/
module GoodMatches {
  import opened Wrappers

  /** One keypoint correspondence: the keypoint of the queried object, the
      keypoint of the trained object, and their descriptor distance. */
  datatype KeyMatch = KeyMatch(queryIdx: int, trainIdx: int, distance: real)

  /** Distance below which a correspondence is good. */
  const GoodDistance: real := 0.30

  /** Least number of good correspondences for two objects to match. */
  const GoodMatchesMinLimit: nat := 10

  predicate IsGood(m: KeyMatch) {
    m.distance < GoodDistance
  }

  /** Ascending by distance: the order in which sorting by the matches'
      less-than (which compares distances only) leaves them. */
  predicate SortedByDistance(s: seq<KeyMatch>) {
    forall p, q :: 0 <= p < q < |s| ==> s[p].distance <= s[q].distance
  }

  /** The good correspondences of s, in the order they appear in s. */
  function GoodOf(s: seq<KeyMatch>): (r: seq<KeyMatch>)
    ensures |r| <= |s|
  {
    if s == [] then []
    else GoodOf(s[..|s| - 1]) + (if IsGood(s[|s| - 1]) then [s[|s| - 1]] else [])
  }

  /** Two objects match when enough of their correspondences are good. */
  predicate Accepted(s: seq<KeyMatch>) {
    |GoodOf(s)| >= GoodMatchesMinLimit
  }

  // ----- What GoodOf keeps

  /** Every kept correspondence is good, and the multiset of kept ones is
      exactly the good part of the input, with its multiplicities. */
  lemma {:induction false} GoodOfExactly(s: seq<KeyMatch>)
    ensures forall k :: 0 <= k < |GoodOf(s)| ==> IsGood(GoodOf(s)[k])
    ensures forall m :: multiset(GoodOf(s))[m] == if IsGood(m) then multiset(s)[m] else 0
  {
    if s != [] {
      var init := s[..|s| - 1];
      GoodOfExactly(init);
      assert s == init + [s[|s| - 1]];
    }
  }

  /** A correspondence is kept iff it is in the input and is good. */
  lemma GoodOfMembers(s: seq<KeyMatch>)
    ensures forall m :: m in GoodOf(s) <==> m in s && IsGood(m)
  {
    GoodOfExactly(s);
    forall m
      ensures m in GoodOf(s) <==> m in s && IsGood(m)
    {
      assert m in GoodOf(s) <==> multiset(GoodOf(s))[m] > 0;
      assert m in s <==> multiset(s)[m] > 0;
    }
  }

  /** Filtering a sorted list keeps it sorted. */
  lemma {:induction false} GoodOfSorted(s: seq<KeyMatch>)
    requires SortedByDistance(s)
    ensures SortedByDistance(GoodOf(s))
  {
    if s != [] {
      var init := s[..|s| - 1];
      GoodOfSorted(init);
      GoodOfMembers(init);
      var g := GoodOf(init);
      if IsGood(s[|s| - 1]) {
        forall p | 0 <= p < |g|
          ensures g[p].distance <= s[|s| - 1].distance
        {
          assert g[p] in init;
        }
      }
    }
  }

  /** On a sorted list the good correspondences are exactly a prefix. */
  lemma {:induction false} GoodOfSortedIsPrefix(s: seq<KeyMatch>)
    requires SortedByDistance(s)
    ensures GoodOf(s) == s[..|GoodOf(s)|]
    ensures forall k :: |GoodOf(s)| <= k < |s| ==> !IsGood(s[k])
  {
    if s != [] {
      var init, last := s[..|s| - 1], s[|s| - 1];
      assert s == init + [last];
      assert SortedByDistance(init);
      GoodOfSortedIsPrefix(init);
      if IsGood(last) {
        // a good last element forces every earlier one to be good
        forall k | 0 <= k < |init|
          ensures IsGood(init[k])
        {
          assert init[k] == s[k] && s[k].distance <= last.distance;
        }
        AllGoodKept(init);
        assert GoodOf(s) == init + [last];
      } else {
        var n := |GoodOf(init)|;
        assert GoodOf(s) == GoodOf(init) == init[..n];
        assert init[..n] == s[..n];
        forall k | n <= k < |s|
          ensures !IsGood(s[k])
        {
          if k < |init| {
            assert s[k] == init[k];
          }
        }
      }
    }
  }

  /** The number of good correspondences does not depend on their order:
      sorting never changes how many are good, nor the accept decision. */
  lemma GoodCountPermutation(a: seq<KeyMatch>, b: seq<KeyMatch>)
    requires multiset(a) == multiset(b)
    ensures multiset(GoodOf(a)) == multiset(GoodOf(b))
    ensures |GoodOf(a)| == |GoodOf(b)|
    ensures Accepted(a) <==> Accepted(b)
  {
    GoodOfExactly(a);
    GoodOfExactly(b);
    assert multiset(GoodOf(a)) == multiset(GoodOf(b));
    assert |GoodOf(a)| == |multiset(GoodOf(a))|;
    assert |GoodOf(b)| == |multiset(GoodOf(b))|;
  }

  /** When every correspondence is good the decision is the threshold on
      their number: nine are rejected, ten are accepted. */
  lemma AllGoodThreshold(s: seq<KeyMatch>)
    requires forall k :: 0 <= k < |s| ==> IsGood(s[k])
    ensures GoodOf(s) == s
    ensures Accepted(s) <==> |s| >= 10
    ensures |s| == 9 ==> !Accepted(s)
    ensures |s| == 10 ==> Accepted(s)
  {
    AllGoodKept(s);
  }

  lemma {:induction false} AllGoodKept(s: seq<KeyMatch>)
    requires forall k :: 0 <= k < |s| ==> IsGood(s[k])
    ensures GoodOf(s) == s
  {
    if s != [] {
      AllGoodKept(s[..|s| - 1]);
    }
  }

  // ----- The operations of the comparison loop

  /** Collects the good correspondences one by one, as the push_back loop does. */
  method SelectGoodMatches(s: seq<KeyMatch>) returns (good: seq<KeyMatch>)
    ensures good == GoodOf(s)
  {
    good := [];
    for i := 0 to |s|
      invariant good == GoodOf(s[..i])
    {
      var m := s[i];
      if m.distance < GoodDistance {
        good := good + [m];
      }
      assert s[..i + 1][..i] == s[..i];
    }
    assert s[..|s|] == s;
  }

  /** Sorts the correspondences in place by ascending distance. */
  method SortMatches(a: array<KeyMatch>)
    modifies a
    ensures SortedByDistance(a[..])
    ensures multiset(a[..]) == multiset(old(a[..]))
  {
    var i := 0;
    while i < a.Length
      invariant 0 <= i <= a.Length
      invariant SortedByDistance(a[..i])
      invariant multiset(a[..]) == multiset(old(a[..]))
    {
      InsertAt(a, i);
      i := i + 1;
    }
    assert a[..a.Length] == a[..];
  }

  /** Moves a[i] down into the sorted prefix a[..i] by adjacent swaps. */
  method InsertAt(a: array<KeyMatch>, i: nat)
    requires i < a.Length
    requires SortedByDistance(a[..i])
    modifies a
    ensures SortedByDistance(a[..i + 1])
    ensures multiset(a[..]) == multiset(old(a[..]))
  {
    var j := i;
    while j > 0 && a[j - 1].distance > a[j].distance
      invariant 0 <= j <= i
      invariant forall p, q :: 0 <= p < q <= i && p != j && q != j ==> a[p].distance <= a[q].distance
      invariant forall q :: j < q <= i ==> a[j].distance <= a[q].distance
      invariant multiset(a[..]) == multiset(old(a[..]))
    {
      SwapAdjacent(a, j - 1);
      j := j - 1;
    }
  }

  method SwapAdjacent(a: array<KeyMatch>, k: nat)
    requires k + 1 < a.Length
    modifies a
    ensures a[k] == old(a[k + 1]) && a[k + 1] == old(a[k])
    ensures forall p :: 0 <= p < a.Length && p != k && p != k + 1 ==> a[p] == old(a[p])
    ensures multiset(a[..]) == multiset(old(a[..]))
  {
    a[k], a[k + 1] := a[k + 1], a[k];
  }

  /** Decides one object pair from the matcher's correspondences. When
      verbose, also reports the least and greatest distance, which reads the
      first and last of the sorted list and so needs a non-empty list. */
  method EvaluatePair(matched: seq<KeyMatch>, verbose: bool)
    returns (accepted: bool, good: seq<KeyMatch>, range: Option<(real, real)>)
    requires verbose ==> |matched| > 0
    ensures accepted <==> Accepted(matched)
    ensures accepted <==> |good| >= GoodMatchesMinLimit
    ensures multiset(good) == multiset(GoodOf(matched))
    ensures SortedByDistance(good)
    ensures range.Some? <==> verbose
    ensures range.Some? ==>
      (exists m :: m in matched && m.distance == range.value.0) &&
      (exists m :: m in matched && m.distance == range.value.1) &&
      (forall m :: m in matched ==> range.value.0 <= m.distance <= range.value.1)
  {
    var a := new KeyMatch[|matched|](k requires 0 <= k < |matched| => matched[k]);
    assert a[..] == matched;
    SortMatches(a);
    var sorted := a[..];
    if verbose {
      range := Some((a[0].distance, a[a.Length - 1].distance));
      assert a[0] in multiset(sorted) && a[a.Length - 1] in multiset(sorted);
      forall m | m in matched
        ensures range.value.0 <= m.distance <= range.value.1
      {
        assert m in multiset(sorted);
        var k :| 0 <= k < |sorted| && sorted[k] == m;
      }
    } else {
      range := None;
    }
    good := SelectGoodMatches(sorted);
    GoodOfSorted(sorted);
    GoodCountPermutation(sorted, matched);
    accepted := |good| >= GoodMatchesMinLimit;
  }
}
