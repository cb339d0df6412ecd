/**
 * The ranked candidates: each qualifying laptop with its score, its
 * explanation and its rupiah estimate, and the ordering `sort_values`
 * gives them. pandas' default sort is not stable, so only the order of the
 * keys and the multiset of candidates are claimed, never the positions of
 * equal keys.
 */
module Ranking {
  import opened Explain

  /** A laptop that passed the filters, with the columns the pipeline adds. */
  datatype Candidate = Candidate(laptop: Laptop, score: real, explanation: Explanation, estimate: real)

  /** The two orders used: score descending and estimate ascending. */
  datatype Order = ByScoreDescending | ByEstimateAscending

  /** The value a candidate is sorted on, ascending. */
  function KeyOf(order: Order, c: Candidate): real {
    match order
    case ByScoreDescending => -c.score
    case ByEstimateAscending => c.estimate
  }

  predicate SortedBy(s: seq<Candidate>, order: Order) {
    forall i, j :: 0 <= i < j < |s| ==> KeyOf(order, s[i]) <= KeyOf(order, s[j])
  }

  /** `c` placed before the first candidate of `s` that sorts after it. */
  function Insert(c: Candidate, s: seq<Candidate>, order: Order): (r: seq<Candidate>)
    requires SortedBy(s, order)
    ensures SortedBy(r, order)
    ensures multiset(r) == multiset(s) + multiset{c}
  {
    if s == [] then [c]
    else if KeyOf(order, c) <= KeyOf(order, s[0]) then [c] + s
    else
      var rest := Insert(c, s[1..], order);
      assert s == [s[0]] + s[1..];
      BoundedBelow(s[0], s[1..], c, rest, order);
      [s[0]] + rest
  }

  /** A candidate sorting before every element of `s` and before `c` sorts before every element of their union. */
  lemma BoundedBelow(x: Candidate, s: seq<Candidate>, c: Candidate, r: seq<Candidate>, order: Order)
    requires forall k :: 0 <= k < |s| ==> KeyOf(order, x) <= KeyOf(order, s[k])
    requires KeyOf(order, x) <= KeyOf(order, c)
    requires multiset(r) == multiset(s) + multiset{c}
    ensures forall k :: 0 <= k < |r| ==> KeyOf(order, x) <= KeyOf(order, r[k])
  {
    forall k | 0 <= k < |r| ensures KeyOf(order, x) <= KeyOf(order, r[k]) {
      assert r[k] in multiset(r);
      if r[k] != c {
        assert r[k] in multiset(s);
        var j :| 0 <= j < |s| && s[j] == r[k];
      }
    }
  }

  /** `sort_values(by=...)`: the same candidates, ordered by the key. */
  function SortBy(s: seq<Candidate>, order: Order): (r: seq<Candidate>)
    ensures SortedBy(r, order)
    ensures multiset(r) == multiset(s)
  {
    if s == [] then []
    else
      assert s == [s[0]] + s[1..];
      Insert(s[0], SortBy(s[1..], order), order)
  }

  /** `head(n)`: the first `n` candidates, or all of them when there are fewer. */
  function Head(s: seq<Candidate>, n: nat): (r: seq<Candidate>)
    ensures |r| == if |s| < n then |s| else n
    ensures r == s[..|r|]
  {
    if |s| < n then s else s[..n]
  }

  /** A sorted list's head holds the best keys: nothing left out sorts before anything kept. */
  lemma HeadIsBest(s: seq<Candidate>, order: Order, n: nat, i: nat, j: nat)
    requires SortedBy(s, order)
    requires i < |Head(s, n)| <= j < |s|
    ensures KeyOf(order, Head(s, n)[i]) <= KeyOf(order, s[j])
  {
  }

  /** A sorted list's head is sorted. */
  lemma HeadSorted(s: seq<Candidate>, order: Order, n: nat)
    requires SortedBy(s, order)
    ensures SortedBy(Head(s, n), order)
  {
  }

  /** Every candidate of a sorted list that is not in its head sorts no earlier than every candidate kept. */
  lemma LeftOutNoBetter(s: seq<Candidate>, order: Order, n: nat, c: Candidate)
    requires SortedBy(s, order)
    requires c in s && c !in Head(s, n)
    ensures forall k :: 0 <= k < |Head(s, n)| ==> KeyOf(order, Head(s, n)[k]) <= KeyOf(order, c)
  {
    var j :| 0 <= j < |s| && s[j] == c;
  }
}
