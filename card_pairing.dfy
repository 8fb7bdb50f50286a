/**
  The comparison of every card with every later card. The cards of one image
  form a worklist: the first card is taken off, the loop stops if nothing is
  left, and the taken card is compared with each card still in the list. A
  match found for one card pair only ends that pair's object loops.
*/
module CardPairing {
  import opened Wrappers
  import opened GoodMatches
  import opened ObjectSearch

  /** The cards k, k + 1, ..., n - 1, in order. */
  function Range(k: nat, n: nat): (r: seq<nat>)
    ensures |r| == if k <= n then n - k else 0
  {
    if k >= n then [] else seq(n - k, t requires 0 <= t < n - k => (k + t) as nat)
  }

  /** The pairs (k, k + 1), ..., (k, n - 1): card k against every later card. */
  function Later(k: nat, n: nat): (r: seq<(nat, nat)>)
    ensures |r| == if k < n then n - k - 1 else 0
  {
    if n <= k + 1 then [] else seq(n - k - 1, t requires 0 <= t < n - k - 1 => (k, (k + 1 + t) as nat))
  }

  /** The card pairs compared once cards 0, ..., k - 1 have been taken. */
  function PairsUpTo(k: nat, n: nat): seq<(nat, nat)> {
    if k == 0 then [] else PairsUpTo(k - 1, n) + Later(k - 1, n)
  }

  /** Every card pair of n cards, in the order the worklist compares them. */
  function AllCardPairs(n: nat): seq<(nat, nat)> {
    PairsUpTo(n, n)
  }

  /** The object counts and matcher correspondences of cards k and l, as
      the object comparison of that pair sees them. */
  function PairOracle(matches: (nat, nat, nat, nat) -> seq<KeyMatch>, k: nat, l: nat): (nat, nat) -> seq<KeyMatch> {
    (i: nat, j: nat) => matches(k, i, l, j)
  }

  /** What the object comparison reports for card pair p. */
  function CardPairMatch(objects: seq<nat>, matches: (nat, nat, nat, nat) -> seq<KeyMatch>, p: (nat, nat)): Option<(nat, nat)>
    requires p.0 < |objects| && p.1 < |objects|
  {
    PairMatch(objects[p.0], objects[p.1], PairOracle(matches, p.0, p.1))
  }

  /** results[t] is what the comparison of card pair compared[t] reports. */
  predicate Reported(objects: seq<nat>, matches: (nat, nat, nat, nat) -> seq<KeyMatch>,
                     compared: seq<(nat, nat)>, results: seq<Option<(nat, nat)>>)
  {
    |results| == |compared| &&
    forall t :: 0 <= t < |compared| ==>
      compared[t].0 < |objects| && compared[t].1 < |objects| &&
      results[t] == CardPairMatch(objects, matches, compared[t])
  }

  // ----- The shape of AllCardPairs

  lemma {:induction false} PairsUpToLength(k: nat, n: nat)
    requires k <= n
    ensures 2 * |PairsUpTo(k, n)| == k * (2 * n - k - 1)
  {
    if k > 0 {
      PairsUpToLength(k - 1, n);
      assert k * (2 * n - k - 1) == (k - 1) * (2 * n - (k - 1) - 1) + 2 * (n - k);
    }
  }

  /** n cards give n(n - 1)/2 comparisons; none when n <= 1. */
  lemma AllCardPairsCount(n: nat)
    ensures |AllCardPairs(n)| == n * (n - 1) / 2
    ensures n <= 1 ==> AllCardPairs(n) == []
  {
    PairsUpToLength(n, n);
  }

  lemma LaterMembers(k: nat, n: nat)
    ensures forall p: (nat, nat) :: p in Later(k, n) <==> p.0 == k && k < p.1 < n
  {
    var r := Later(k, n);
    forall p: (nat, nat)
      ensures p in r <==> p.0 == k && k < p.1 < n
    {
      if p.0 == k && k < p.1 < n {
        assert r[p.1 - k - 1] == p;
      }
    }
  }

  /** The compared pairs are exactly the (k, l) with k < l < n. */
  lemma {:induction false} PairsUpToMembers(k: nat, n: nat)
    ensures forall p: (nat, nat) :: p in PairsUpTo(k, n) <==> p.0 < k && p.0 < p.1 < n
  {
    if k > 0 {
      PairsUpToMembers(k - 1, n);
      LaterMembers(k - 1, n);
      var g, r := PairsUpTo(k - 1, n), Later(k - 1, n);
      forall p: (nat, nat)
        ensures p in g + r <==> p.0 < k && p.0 < p.1 < n
      {
        if p in g {
          assert p.0 < k - 1;
        } else if p in r {
          assert p.0 == k - 1;
        }
      }
    }
  }

  lemma AllCardPairsMembers(n: nat)
    ensures forall p: (nat, nat) :: p in AllCardPairs(n) <==> p.0 < p.1 < n
  {
    PairsUpToMembers(n, n);
  }

  lemma LaterIncreasing(k: nat, n: nat)
    ensures Increasing(Later(k, n))
  {
  }

  /** The pairs of the cards already taken precede those of the next card. */
  lemma PairsBeforeLater(k: nat, n: nat)
    ensures forall x, y :: x in PairsUpTo(k, n) && y in Later(k, n) ==> Before(x, y)
  {
    PairsUpToMembers(k, n);
    LaterMembers(k, n);
  }

  /** The compared pairs come in strictly increasing lexicographic order, so
      each unordered pair is compared exactly once. */
  lemma {:induction false} PairsUpToOrdered(k: nat, n: nat)
    ensures Increasing(PairsUpTo(k, n))
  {
    if k > 0 {
      PairsUpToOrdered(k - 1, n);
      LaterIncreasing(k - 1, n);
      PairsBeforeLater(k - 1, n);
      IncreasingAppend(PairsUpTo(k - 1, n), Later(k - 1, n));
    }
  }

  lemma AllCardPairsOrdered(n: nat)
    ensures Increasing(AllCardPairs(n))
  {
    PairsUpToOrdered(n, n);
  }

  // ----- The worklist loop

  lemma ReportedAppend(objects: seq<nat>, matches: (nat, nat, nat, nat) -> seq<KeyMatch>,
                       compared: seq<(nat, nat)>, results: seq<Option<(nat, nat)>>,
                       p: (nat, nat), r: Option<(nat, nat)>)
    requires Reported(objects, matches, compared, results)
    requires p.0 < |objects| && p.1 < |objects| && r == CardPairMatch(objects, matches, p)
    ensures Reported(objects, matches, compared + [p], results + [r])
  {
  }

  lemma LaterStep(k: nat, m: nat)
    requires k < m
    ensures PairsUpTo(k + 1, m) == PairsUpTo(k, m) + Later(k, m)
  {
  }

  /** What the verbose trace of the card comparisons needs: for every card
      pair k < l the worklist compares, each object pair evaluated has a
      non-empty correspondence list. */
  predicate TracedPairsNonEmpty(objects: seq<nat>, matches: (nat, nat, nat, nat) -> seq<KeyMatch>) {
    forall k, l :: 0 <= k < l < |objects| ==> EvaluatedNonEmpty(objects[k], objects[l], PairOracle(matches, k, l))
  }

  /** The cards left after card are all later ones, so the trace needs only
      hold for pairs the worklist compares. */
  lemma RemainingTraced(objects: seq<nat>, matches: (nat, nat, nat, nat) -> seq<KeyMatch>, card: nat, uniCards: seq<nat>)
    requires TracedPairsNonEmpty(objects, matches)
    requires card < |objects| && forall t :: 0 <= t < |uniCards| ==> card < uniCards[t] < |objects|
    ensures forall t :: 0 <= t < |uniCards| ==>
      EvaluatedNonEmpty(objects[card], objects[uniCards[t]], PairOracle(matches, card, uniCards[t]))
  {
  }

  /** Compares the card just taken off the worklist with every card still on
      it, in worklist order. */
  method CompareWithRemaining(objects: seq<nat>, matches: (nat, nat, nat, nat) -> seq<KeyMatch>, verbose: bool,
                              card: nat, uniCards: seq<nat>)
    returns (compared: seq<(nat, nat)>, results: seq<Option<(nat, nat)>>)
    requires card < |objects| && forall t :: 0 <= t < |uniCards| ==> uniCards[t] < |objects|
    requires verbose ==> forall t :: 0 <= t < |uniCards| ==>
      EvaluatedNonEmpty(objects[card], objects[uniCards[t]], PairOracle(matches, card, uniCards[t]))
    ensures |compared| == |uniCards|
    ensures forall t :: 0 <= t < |uniCards| ==> compared[t] == (card, uniCards[t])
    ensures Reported(objects, matches, compared, results)
  {
    compared, results := [], [];
    for t := 0 to |uniCards|
      invariant |compared| == t
      invariant forall s :: 0 <= s < t ==> compared[s] == (card, uniCards[s])
      invariant Reported(objects, matches, compared, results)
    {
      var anotherCard := uniCards[t];
      var found, evaluated := CompareObjects(objects[card], objects[anotherCard], PairOracle(matches, card, anotherCard), verbose);
      ReportedAppend(objects, matches, compared, results, (card, anotherCard), found);
      compared := compared + [(card, anotherCard)];
      results := results + [found];
    }
  }

  lemma ReportedConcat(objects: seq<nat>, matches: (nat, nat, nat, nat) -> seq<KeyMatch>,
                       c1: seq<(nat, nat)>, r1: seq<Option<(nat, nat)>>,
                       c2: seq<(nat, nat)>, r2: seq<Option<(nat, nat)>>)
    requires Reported(objects, matches, c1, r1) && Reported(objects, matches, c2, r2)
    ensures Reported(objects, matches, c1 + c2, r1 + r2)
  {
    forall t | 0 <= t < |c1 + c2|
      ensures (c1 + c2)[t].0 < |objects| && (c1 + c2)[t].1 < |objects| &&
              (r1 + r2)[t] == CardPairMatch(objects, matches, (c1 + c2)[t])
    {
      if t >= |c1| {
        assert (c1 + c2)[t] == c2[t - |c1|] && (r1 + r2)[t] == r2[t - |c1|];
      }
    }
  }

  /** Taking the first card off the worklist of cards k, ..., n - 1. */
  lemma TakeFirst(k: nat, n: nat)
    requires k < n
    ensures Range(k, n)[0] == k && Range(k, n)[1..] == Range(k + 1, n)
  {
  }

  lemma RangeBelow(k: nat, n: nat)
    ensures forall t :: 0 <= t < |Range(k, n)| ==> k <= Range(k, n)[t] < n
  {
  }

  /** Card k paired with each card after it, in order, is Later(k, n). */
  lemma PairedWithRest(k: nat, n: nat, c: seq<(nat, nat)>)
    requires |c| == |Range(k + 1, n)|
    requires forall t :: 0 <= t < |c| ==> c[t] == (k, Range(k + 1, n)[t])
    ensures c == Later(k, n)
  {
  }

  /** Compares the cards of one image, card c having objects[c] objects, given
      the matcher's correspondences matches(k, i, l, j) for object i of card k
      and object j of card l. Returns the card pairs compared, in order, and
      what each comparison reported. */
  method CompareCards(objects: seq<nat>, matches: (nat, nat, nat, nat) -> seq<KeyMatch>, verbose: bool)
    returns (compared: seq<(nat, nat)>, results: seq<Option<(nat, nat)>>)
    requires verbose ==> TracedPairsNonEmpty(objects, matches)
    ensures compared == AllCardPairs(|objects|)
    ensures |compared| == |objects| * (|objects| - 1) / 2
    ensures Reported(objects, matches, compared, results)
  {
    var n := |objects|;
    var uniCards := Range(0, n);
    compared, results := [], [];
    ghost var taken: nat := 0;
    while uniCards != []
      invariant taken <= n
      invariant uniCards == Range(taken, n)
      invariant compared == PairsUpTo(taken, n)
      invariant Reported(objects, matches, compared, results)
      decreases |uniCards|
    {
      // take one card
      TakeFirst(taken, n);
      RangeBelow(taken + 1, n);
      var card := uniCards[0];
      uniCards := uniCards[1..];
      if uniCards == [] {
        LaterStep(taken, n);
        taken := taken + 1;
        break;
      }
      // compare it with every card still in the list
      if verbose {
        RemainingTraced(objects, matches, card, uniCards);
      }
      var c, r := CompareWithRemaining(objects, matches, verbose, card, uniCards);
      ReportedConcat(objects, matches, compared, results, c, r);
      PairedWithRest(taken, n, c);
      compared, results := compared + c, results + r;
      taken := taken + 1;
    }
    assert taken == n;
    AllCardPairsCount(n);
  }
}
