/**
  The comparison of one card pair: object i of the first card against object
  j of the second card, i in the outer loop and j in the inner one. The first
  accepted pair stops both loops (the inner loop breaks, then the outer loop
  sees its matchFound flag and breaks too); otherwise every pair is tried.
*/
module ObjectSearch {
  import opened Wrappers
  import opened GoodMatches

  /** The pairs (i, 0), ..., (i, n - 1) of row i, in order. */
  function Row(i: nat, n: nat): (r: seq<(nat, nat)>)
    ensures |r| == n
  {
    seq(n, j requires 0 <= j < n => (i, j as nat))
  }

  /** All object pairs of an n1-by-n2 comparison, in row-major order. */
  function Grid(n1: nat, n2: nat): seq<(nat, nat)> {
    if n1 == 0 then [] else Grid(n1 - 1, n2) + Row(n1 - 1, n2)
  }

  /** Lexicographic order on pairs: row-major order. */
  predicate Before(p: (nat, nat), q: (nat, nat)) {
    p.0 < q.0 || (p.0 == q.0 && p.1 < q.1)
  }

  /** Whether the matcher's correspondences for objects p.0 and p.1 are accepted. */
  predicate AcceptedAt(matches: (nat, nat) -> seq<KeyMatch>, p: (nat, nat)) {
    Accepted(matches(p.0, p.1))
  }

  // ----- The shape of Grid

  lemma {:induction false} GridLength(n1: nat, n2: nat)
    ensures |Grid(n1, n2)| == n1 * n2
  {
    if n1 > 0 {
      GridLength(n1 - 1, n2);
      assert n1 * n2 == (n1 - 1) * n2 + n2;
    }
  }

  lemma RowMembers(i: nat, n: nat)
    ensures forall p: (nat, nat) :: p in Row(i, n) <==> p.0 == i && p.1 < n
  {
    var r := Row(i, n);
    forall p: (nat, nat)
      ensures p in r <==> p.0 == i && p.1 < n
    {
      if p.0 == i && p.1 < n {
        assert r[p.1] == p;
      }
    }
  }

  /** Grid holds exactly the pairs inside the bounds. */
  lemma {:induction false} GridMembers(n1: nat, n2: nat)
    ensures forall p: (nat, nat) :: p in Grid(n1, n2) <==> p.0 < n1 && p.1 < n2
  {
    if n1 > 0 {
      GridMembers(n1 - 1, n2);
      RowMembers(n1 - 1, n2);
      var g, r := Grid(n1 - 1, n2), Row(n1 - 1, n2);
      assert Grid(n1, n2) == g + r;
      forall p: (nat, nat)
        ensures p in g + r <==> p.0 < n1 && p.1 < n2
      {
        assert p in g + r <==> p in g || p in r;
      }
    }
  }

  /** Strictly increasing in row-major order, so without repetition. */
  predicate Increasing(s: seq<(nat, nat)>) {
    forall k, k' :: 0 <= k < k' < |s| ==> Before(s[k], s[k'])
  }

  /** Two increasing lists, the first wholly before the second, concatenate
      to an increasing list. */
  lemma IncreasingAppend(a: seq<(nat, nat)>, b: seq<(nat, nat)>)
    requires Increasing(a) && Increasing(b)
    requires forall x, y :: x in a && y in b ==> Before(x, y)
    ensures Increasing(a + b)
  {
    forall k, k' | 0 <= k < k' < |a + b|
      ensures Before((a + b)[k], (a + b)[k'])
    {
      if k' < |a| {
        assert (a + b)[k] == a[k] && (a + b)[k'] == a[k'];
      } else if k < |a| {
        assert (a + b)[k] == a[k] && (a + b)[k'] == b[k' - |a|];
        assert a[k] in a && b[k' - |a|] in b;
      } else {
        assert (a + b)[k] == b[k - |a|] && (a + b)[k'] == b[k' - |a|];
      }
    }
  }

  lemma RowIncreasing(i: nat, n: nat)
    ensures Increasing(Row(i, n))
  {
  }

  /** Grid is strictly increasing in row-major order, so no pair occurs twice. */
  lemma {:induction false} GridOrdered(n1: nat, n2: nat)
    ensures Increasing(Grid(n1, n2))
  {
    if n1 > 0 {
      GridOrdered(n1 - 1, n2);
      GridMembers(n1 - 1, n2);
      RowMembers(n1 - 1, n2);
      RowIncreasing(n1 - 1, n2);
      IncreasingAppend(Grid(n1 - 1, n2), Row(n1 - 1, n2));
    }
  }

  /** The pairs up to and including (i, j - 1) are the first entries of Grid. */
  lemma {:induction false} GridPrefix(n1: nat, n2: nat, i: nat, j: nat)
    requires i < n1 && j <= n2
    ensures |Grid(i, n2)| + j <= |Grid(n1, n2)|
    ensures Grid(i, n2) + Row(i, j) == Grid(n1, n2)[..|Grid(i, n2)| + j]
  {
    var g, r := Grid(n1 - 1, n2), Row(n1 - 1, n2);
    assert Grid(n1, n2) == g + r;
    if n1 == i + 1 {
      assert r[..j] == Row(i, j);
      assert (g + r)[..|g| + j] == g + r[..j];
    } else {
      GridPrefix(n1 - 1, n2, i, j);
      assert (g + r)[..|Grid(i, n2)| + j] == g[..|Grid(i, n2)| + j];
    }
  }

  // ----- The specification of the search

  /** The index of the first accepted pair of ps, if any. */
  function FirstAccepted(ps: seq<(nat, nat)>, matches: (nat, nat) -> seq<KeyMatch>): (r: Option<nat>)
    ensures r.Some? ==>
      r.value < |ps| && AcceptedAt(matches, ps[r.value]) &&
      forall k :: 0 <= k < r.value ==> !AcceptedAt(matches, ps[k])
    ensures r.None? ==> forall k :: 0 <= k < |ps| ==> !AcceptedAt(matches, ps[k])
  {
    if ps == [] then None
    else if AcceptedAt(matches, ps[0]) then Some(0)
    else match FirstAccepted(ps[1..], matches)
      case None => None
      case Some(k) => Some(k + 1)
  }

  /** The pair the comparison reports: the first accepted one in row-major order. */
  function PairMatch(n1: nat, n2: nat, matches: (nat, nat) -> seq<KeyMatch>): Option<(nat, nat)> {
    match FirstAccepted(Grid(n1, n2), matches)
    case None => None
    case Some(k) => Some(Grid(n1, n2)[k])
  }

  /** The pairs the comparison evaluates: up to the reported one, or all. */
  function Evaluated(n1: nat, n2: nat, matches: (nat, nat) -> seq<KeyMatch>): seq<(nat, nat)> {
    match FirstAccepted(Grid(n1, n2), matches)
    case None => Grid(n1, n2)
    case Some(k) => Grid(n1, n2)[..k + 1]
  }

  /** An accepted index with only rejected ones before it is the first. */
  lemma {:induction false} FirstAcceptedUnique(ps: seq<(nat, nat)>, matches: (nat, nat) -> seq<KeyMatch>, k: nat)
    requires k < |ps| && AcceptedAt(matches, ps[k])
    requires forall k' :: 0 <= k' < k ==> !AcceptedAt(matches, ps[k'])
    ensures FirstAccepted(ps, matches) == Some(k)
  {
    if k > 0 {
      FirstAcceptedUnique(ps[1..], matches, k - 1);
    }
  }

  /** Positions in Grid follow row-major order. */
  lemma GridIndexOrder(n1: nat, n2: nat, k: nat, k': nat)
    requires k < |Grid(n1, n2)| && k' < |Grid(n1, n2)|
    requires Before(Grid(n1, n2)[k], Grid(n1, n2)[k'])
    ensures k < k'
  {
    GridOrdered(n1, n2);
  }

  /** The reported pair is accepted, inside the bounds, and every pair before
      it in row-major order is rejected; conversely any such pair is the one
      reported. */
  lemma PairMatchIsFirst(n1: nat, n2: nat, matches: (nat, nat) -> seq<KeyMatch>, i: nat, j: nat)
    ensures PairMatch(n1, n2, matches) == Some((i, j)) <==>
      i < n1 && j < n2 && AcceptedAt(matches, (i, j)) &&
      forall p: (nat, nat) :: p.0 < n1 && p.1 < n2 && Before(p, (i, j)) ==> !AcceptedAt(matches, p)
  {
    var g := Grid(n1, n2);
    GridMembers(n1, n2);
    var r := FirstAccepted(g, matches);
    if PairMatch(n1, n2, matches) == Some((i, j)) {
      assert g[r.value] in g;
      forall p: (nat, nat) | p.0 < n1 && p.1 < n2 && Before(p, (i, j))
        ensures !AcceptedAt(matches, p)
      {
        assert p in g;
        var k :| 0 <= k < |g| && g[k] == p;
        GridIndexOrder(n1, n2, k, r.value);
      }
    }
    if i < n1 && j < n2 && AcceptedAt(matches, (i, j)) &&
       forall p: (nat, nat) :: p.0 < n1 && p.1 < n2 && Before(p, (i, j)) ==> !AcceptedAt(matches, p)
    {
      assert (i, j) in g;
      var k :| 0 <= k < |g| && g[k] == (i, j);
      GridOrdered(n1, n2);
      forall k' | 0 <= k' < k
        ensures !AcceptedAt(matches, g[k'])
      {
        assert g[k'] in g;
      }
      FirstAcceptedUnique(g, matches, k);
    }
  }

  /** No pair is reported exactly when every pair is rejected; then all
      n1 * n2 pairs are evaluated. */
  lemma NoPairMatch(n1: nat, n2: nat, matches: (nat, nat) -> seq<KeyMatch>)
    ensures PairMatch(n1, n2, matches).None? <==>
      forall i: nat, j: nat :: i < n1 && j < n2 ==> !Accepted(matches(i, j))
    ensures PairMatch(n1, n2, matches).None? ==> |Evaluated(n1, n2, matches)| == n1 * n2
  {
    GridMembers(n1, n2);
    GridLength(n1, n2);
    var g := Grid(n1, n2);
    if !PairMatch(n1, n2, matches).None? {
      var k := FirstAccepted(g, matches).value;
      assert g[k] in g;
    } else {
      forall i: nat, j: nat | i < n1 && j < n2
        ensures !Accepted(matches(i, j))
      {
        assert (i, j) in g;
      }
    }
  }

  /** Nothing after the reported pair is evaluated, and the evaluated pairs
      end with it. */
  lemma NothingAfterMatch(n1: nat, n2: nat, matches: (nat, nat) -> seq<KeyMatch>, q: (nat, nat))
    requires PairMatch(n1, n2, matches).Some?
    requires Before(PairMatch(n1, n2, matches).value, q)
    ensures q !in Evaluated(n1, n2, matches)
    ensures Evaluated(n1, n2, matches)[|Evaluated(n1, n2, matches)| - 1] == PairMatch(n1, n2, matches).value
  {
    GridOrdered(n1, n2);
    var g := Grid(n1, n2);
    var k := FirstAccepted(g, matches).value;
    var e := g[..k + 1];
    // every evaluated pair comes before q, so none is q
    forall t | 0 <= t < |e|
      ensures Before(e[t], q)
    {
      if t < k {
        assert Before(g[t], g[k]);
      }
    }
  }

  /** No pair of s is accepted. */
  predicate AllRejected(matches: (nat, nat) -> seq<KeyMatch>, s: seq<(nat, nat)>) {
    forall k :: 0 <= k < |s| ==> !AcceptedAt(matches, s[k])
  }

  /** An accepted (i, j) after only rejected pairs is what the search reports. */
  lemma MatchAt(n1: nat, n2: nat, matches: (nat, nat) -> seq<KeyMatch>, i: nat, j: nat)
    requires i < n1 && j < n2 && AcceptedAt(matches, (i, j))
    requires AllRejected(matches, Grid(i, n2) + Row(i, j))
    ensures PairMatch(n1, n2, matches) == Some((i, j))
    ensures Evaluated(n1, n2, matches) == Grid(i, n2) + Row(i, j + 1)
  {
    var g := Grid(n1, n2);
    var before := Grid(i, n2) + Row(i, j);
    var e := Grid(i, n2) + Row(i, j + 1);
    assert e == before + [(i, j)];
    GridPrefix(n1, n2, i, j + 1);
    assert e == g[..|e|];
    assert g[|before|] == (i, j);
    forall k | 0 <= k < |before|
      ensures !AcceptedAt(matches, g[k])
    {
      assert g[k] == e[k] == before[k];
    }
    FirstAcceptedUnique(g, matches, |before|);
  }

  /** With every pair rejected the search reports nothing and evaluates all. */
  lemma NoMatchAt(n1: nat, n2: nat, matches: (nat, nat) -> seq<KeyMatch>)
    requires AllRejected(matches, Grid(n1, n2))
    ensures PairMatch(n1, n2, matches) == None
    ensures Evaluated(n1, n2, matches) == Grid(n1, n2)
  {
  }

  /** Every pair the search evaluates has a non-empty correspondence list:
      what the verbose trace, which reads the first correspondence of each
      evaluated pair, needs. Pairs after the reported one are never read. */
  predicate EvaluatedNonEmpty(n1: nat, n2: nat, matches: (nat, nat) -> seq<KeyMatch>) {
    var e := Evaluated(n1, n2, matches);
    forall k :: 0 <= k < |e| ==> |matches(e[k].0, e[k].1)| > 0
  }

  /** A pair the loops reach, all pairs before it rejected, is evaluated: it
      stands in the evaluated list at its row-major position. */
  lemma ReachedIsEvaluated(n1: nat, n2: nat, matches: (nat, nat) -> seq<KeyMatch>, i: nat, j: nat)
    requires i < n1 && j < n2
    requires AllRejected(matches, Grid(i, n2) + Row(i, j))
    ensures |Grid(i, n2)| + j < |Evaluated(n1, n2, matches)|
    ensures Evaluated(n1, n2, matches)[|Grid(i, n2)| + j] == (i, j)
  {
    var before := Grid(i, n2) + Row(i, j);
    GridPrefixStep(n1, n2, i, j);
    EvaluatedFrom(Grid(n1, n2), matches, before, (i, j));
    EvaluatedAt(n1, n2, matches, |before|);
  }

  /** The verbose trace of a reached pair finds a non-empty list. */
  lemma ReachedNonEmpty(n1: nat, n2: nat, matches: (nat, nat) -> seq<KeyMatch>, i: nat, j: nat)
    requires i < n1 && j < n2
    requires AllRejected(matches, Grid(i, n2) + Row(i, j))
    requires EvaluatedNonEmpty(n1, n2, matches)
    ensures |matches(i, j)| > 0
  {
    ReachedIsEvaluated(n1, n2, matches, i, j);
  }

  /** In Grid, the pairs before (i, j) are followed by (i, j) itself. */
  lemma GridPrefixStep(n1: nat, n2: nat, i: nat, j: nat)
    requires i < n1 && j < n2
    ensures |Grid(i, n2) + Row(i, j)| < |Grid(n1, n2)|
    ensures Grid(n1, n2)[..|Grid(i, n2) + Row(i, j)| + 1] == Grid(i, n2) + Row(i, j) + [(i, j)]
  {
    GridPrefix(n1, n2, i, j + 1);
    assert Row(i, j + 1) == Row(i, j) + [(i, j)];
  }

  /** A position of Grid not beyond the first accepted one is evaluated. */
  lemma EvaluatedAt(n1: nat, n2: nat, matches: (nat, nat) -> seq<KeyMatch>, m: nat)
    requires m < |Grid(n1, n2)|
    requires FirstAccepted(Grid(n1, n2), matches).Some? ==> m <= FirstAccepted(Grid(n1, n2), matches).value
    ensures m < |Evaluated(n1, n2, matches)| && Evaluated(n1, n2, matches)[m] == Grid(n1, n2)[m]
  {
  }

  /** If ps starts with the rejected pairs `before` followed by q, then q is
      within the evaluated part of ps, at position |before|. */
  lemma EvaluatedFrom(ps: seq<(nat, nat)>, matches: (nat, nat) -> seq<KeyMatch>, before: seq<(nat, nat)>, q: (nat, nat))
    requires |before| < |ps| && ps[..|before| + 1] == before + [q]
    requires AllRejected(matches, before)
    ensures FirstAccepted(ps, matches).Some? ==> |before| <= FirstAccepted(ps, matches).value
    ensures ps[|before|] == q
  {
    var m := |before|;
    assert ps[m] == ps[..m + 1][m];
    forall k | 0 <= k < m
      ensures !AcceptedAt(matches, ps[k])
    {
      assert ps[k] == ps[..m + 1][k] == before[k];
    }
  }

  // ----- The nested loop

  /** Compares the objects of two cards, n1 on the first and n2 on the second,
      given the matcher's correspondences for each object pair. Returns the
      pair reported as matching and the pairs evaluated, in order. */
  method CompareObjects(n1: nat, n2: nat, matches: (nat, nat) -> seq<KeyMatch>, verbose: bool)
    returns (found: Option<(nat, nat)>, evaluated: seq<(nat, nat)>)
    requires verbose ==> EvaluatedNonEmpty(n1, n2, matches)
    ensures found == PairMatch(n1, n2, matches)
    ensures evaluated == Evaluated(n1, n2, matches)
  {
    found := None;
    evaluated := [];
    var i := 0;
    while i < n1
      invariant 0 <= i <= n1
      invariant found.None?
      invariant evaluated == Grid(i, n2)
      invariant AllRejected(matches, evaluated)
    {
      var matchFound := false;
      var j := 0;
      while j < n2
        invariant 0 <= j <= n2
        invariant !matchFound && found.None?
        invariant evaluated == Grid(i, n2) + Row(i, j)
        invariant AllRejected(matches, evaluated)
      {
        if verbose {
          ReachedNonEmpty(n1, n2, matches, i, j);
        }
        var accepted, good, range := EvaluatePair(matches(i, j), verbose);
        if accepted {
          MatchAt(n1, n2, matches, i, j);
        }
        evaluated := evaluated + [(i, j)];
        if accepted {
          matchFound := true;
          found := Some((i, j));
          break;
        }
        j := j + 1;
      }
      if matchFound {
        break;
      }
      assert Row(i, n2) == Row(i, j);
      i := i + 1;
    }
    if found.None? {
      NoMatchAt(n1, n2, matches);
    }
  }

  /** One object against two, the first pair accepted: the second pair is
      never evaluated, so the verbose trace never reads its list, which may
      be empty. */
  lemma OneByTwoTrace(matches: (nat, nat) -> seq<KeyMatch>)
    requires Accepted(matches(0, 0)) && matches(0, 1) == []
    ensures Evaluated(1, 2, matches) == [(0, 0)]
    ensures EvaluatedNonEmpty(1, 2, matches)
  {
    assert Grid(1, 2) == [(0, 0), (0, 1)];
    FirstAcceptedUnique(Grid(1, 2), matches, 0);
  }

  /** The example of two cards with two objects each where only
      (1, 0) is accepted: (1, 0) is reported and (1, 1) is never evaluated. */
  lemma TwoByTwoExample(matches: (nat, nat) -> seq<KeyMatch>)
    requires forall p: (nat, nat) :: AcceptedAt(matches, p) <==> p == (1, 0)
    ensures PairMatch(2, 2, matches) == Some((1, 0))
    ensures Evaluated(2, 2, matches) == [(0, 0), (0, 1), (1, 0)]
  {
    assert Row(0, 2) == [(0, 0), (0, 1)];
    assert Row(1, 2) == [(1, 0), (1, 1)];
    assert Grid(2, 2) == [(0, 0), (0, 1), (1, 0), (1, 1)];
    FirstAcceptedUnique(Grid(2, 2), matches, 2);
  }
}
