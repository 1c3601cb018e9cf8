/**
 * Reciprocal rank fusion (`rrf` of utils.js): every occurrence of an
 * identifier at 0-based position `i` of an input list adds `1 / (K + i + 1)`
 * to its score; identifiers are then ordered by score, highest first, and the
 * first `topK` are kept.
 */
module Fusion {
  import opened Wrappers
  import opened Sorting

  /** The damping constant `rrfFuse` passes. */
  const DampingK: nat := 60

  /** Sum of `1 / (K + i + 1)` over the positions `i` at which `id` occurs in `lst`. */
  function Contribution(lst: seq<nat>, id: nat, K: nat): (c: real)
    ensures c >= 0.0
  {
    if lst == [] then 0.0
    else
      Contribution(lst[..|lst| - 1], id, K)
      + (if lst[|lst| - 1] == id then 1.0 / (K + |lst|) as real else 0.0)
  }

  /** The fused score: contributions added up over all the lists. */
  function Score(lists: seq<seq<nat>>, id: nat, K: nat): (c: real)
    ensures c >= 0.0
  {
    if lists == [] then 0.0
    else Score(lists[..|lists| - 1], id, K) + Contribution(lists[|lists| - 1], id, K)
  }

  function ScoreKey(lists: seq<seq<nat>>, K: nat): nat -> real {
    (id: nat) => Score(lists, id, K)
  }

  function Flatten(lists: seq<seq<nat>>): seq<nat> {
    if lists == [] then [] else Flatten(lists[..|lists| - 1]) + lists[|lists| - 1]
  }

  /** The distinct identifiers of `s` in order of first occurrence: the key order of a JavaScript `Map`. */
  function FirstSeen(s: seq<nat>): (r: seq<nat>)
    ensures Distinct(r)
    ensures forall id :: id in r <==> id in s
  {
    if s == [] then []
    else
      var seen := FirstSeen(s[..|s| - 1]);
      assert forall id :: id in s <==> id in s[..|s| - 1] || id == s[|s| - 1];
      if s[|s| - 1] in seen then seen else seen + [s[|s| - 1]]
  }

  /** Every identifier of the lists, once, ordered by fused score (ties in first-seen order). */
  function FusedOrder(lists: seq<seq<nat>>, K: nat): seq<nat> {
    SortDesc(FirstSeen(Flatten(lists)), ScoreKey(lists, K))
  }

  /** An identifier scores exactly when it occurs, and then strictly positively. */
  lemma {:induction false} ContributionSign(lst: seq<nat>, id: nat, K: nat)
    ensures id in lst ==> Contribution(lst, id, K) > 0.0
    ensures id !in lst ==> Contribution(lst, id, K) == 0.0
  {
    if lst != [] {
      var init := lst[..|lst| - 1];
      ContributionSign(init, id, K);
      assert id in lst <==> id in init || id == lst[|lst| - 1];
    }
  }

  /** In a list without repetitions an identifier at position `i` earns exactly `1 / (K + i + 1)`. */
  lemma {:induction false} ContributionOfDistinct(lst: seq<nat>, i: nat, K: nat)
    requires Distinct(lst) && i < |lst|
    ensures Contribution(lst, lst[i], K) == 1.0 / (K + i + 1) as real
  {
    var init := lst[..|lst| - 1];
    if i == |lst| - 1 {
      ContributionSign(init, lst[i], K);
    } else {
      ContributionOfDistinct(init, i, K);
    }
  }

  lemma {:induction false} ScoreSign(lists: seq<seq<nat>>, id: nat, K: nat)
    ensures id in Flatten(lists) ==> Score(lists, id, K) > 0.0
    ensures id !in Flatten(lists) ==> Score(lists, id, K) == 0.0
  {
    if lists != [] {
      var init := lists[..|lists| - 1];
      ScoreSign(init, id, K);
      ContributionSign(lists[|lists| - 1], id, K);
      assert Flatten(lists) == Flatten(init) + lists[|lists| - 1];
    }
  }

  /** The fused score of two lists is the sum of the two contributions. */
  lemma FusedScoreOfPair(list1: seq<nat>, list2: seq<nat>, id: nat, K: nat)
    ensures Score([list1, list2], id, K) == Contribution(list1, id, K) + Contribution(list2, id, K)
  {
    assert [list1, list2] == [list1] + [list2];
    assert [list1] == [] + [list1];
    ScoreSnoc([list1], list2, id, K);
    ScoreSnoc([], list1, id, K);
  }

  lemma FlattenPair(list1: seq<nat>, list2: seq<nat>)
    ensures Flatten([list1, list2]) == list1 + list2
  {
    assert [list1, list2] == [list1] + [list2];
    assert [list1] == [] + [list1];
    FlattenSnoc([list1], list2);
    FlattenSnoc([], list1);
  }

  /** An identifier found by both retrievers outscores what either list alone gives it. */
  lemma FoundTwiceScoresMore(list1: seq<nat>, list2: seq<nat>, id: nat, K: nat)
    requires id in list1 && id in list2
    ensures Score([list1, list2], id, K) > Contribution(list1, id, K)
    ensures Score([list1, list2], id, K) > Contribution(list2, id, K)
  {
    FusedScoreOfPair(list1, list2, id, K);
    ContributionSign(list1, id, K);
    ContributionSign(list2, id, K);
  }

  lemma FlattenSnoc(lists: seq<seq<nat>>, lst: seq<nat>)
    ensures Flatten(lists + [lst]) == Flatten(lists) + lst
  {
    assert (lists + [lst])[..|lists|] == lists;
  }

  lemma ScoreSnoc(lists: seq<seq<nat>>, lst: seq<nat>, id: nat, K: nat)
    ensures Score(lists + [lst], id, K) == Score(lists, id, K) + Contribution(lst, id, K)
  {
    assert (lists + [lst])[..|lists|] == lists;
  }

  /**
   * The state of `rrf`'s `Map` after the lists `done`: keys in first-seen
   * order, each mapped to its score so far.
   */
  ghost predicate Tally(order: seq<nat>, scores: map<nat, real>, done: seq<seq<nat>>, K: nat) {
    && order == FirstSeen(Flatten(done))
    && (forall id :: id in scores <==> id in order)
    && (forall id :: id in scores ==> scores[id] == Score(done, id, K))
  }

  lemma ContributionSnoc(lst: seq<nat>, y: nat, id: nat, K: nat)
    ensures Contribution(lst + [y], id, K)
      == Contribution(lst, id, K) + (if y == id then 1.0 / (K + |lst| + 1) as real else 0.0)
  {
    assert (lst + [y])[..|lst|] == lst;
  }

  lemma FirstSeenSnoc(s: seq<nat>, x: nat)
    ensures FirstSeen(s + [x]) == if x in FirstSeen(s) then FirstSeen(s) else FirstSeen(s) + [x]
  {
    assert (s + [x])[..|s|] == s;
  }

  /** One `scores.set(id, (scores.get(id) || 0) + 1 / (K + (i + 1)))` step. */
  lemma TallyStep(order: seq<nat>, scores: map<nat, real>, done: seq<seq<nat>>, lst: seq<nat>, i: nat, K: nat,
                  order': seq<nat>, scores': map<nat, real>)
    requires i < |lst|
    requires Tally(order, scores, done + [lst[..i]], K)
    requires order' == if lst[i] in order then order else order + [lst[i]]
    requires scores' == scores[lst[i] := (if lst[i] in scores then scores[lst[i]] else 0.0) + 1.0 / (K + (i + 1)) as real]
    ensures Tally(order', scores', done + [lst[..i + 1]], K)
  {
    var id := lst[i];
    var before := done + [lst[..i]];
    var after := done + [lst[..i + 1]];
    FlattenSnoc(done, lst[..i]);
    FlattenSnoc(done, lst[..i + 1]);
    assert lst[..i + 1] == lst[..i] + [id];
    assert Flatten(after) == Flatten(before) + [id];
    FirstSeenSnoc(Flatten(before), id);
    assert order' == FirstSeen(Flatten(after));
    assert lst[..i + 1][..i] == lst[..i];
    if id !in scores {
      ScoreSign(before, id, K);
    }
    forall x | x in scores' ensures scores'[x] == Score(after, x, K) {
      ScoreSnoc(done, lst[..i], x, K);
      ScoreSnoc(done, lst[..i + 1], x, K);
      ContributionSnoc(lst[..i], id, x, K);
      if x == id {
        assert scores'[x] == (if id in scores then scores[id] else 0.0) + 1.0 / (K + (i + 1)) as real;
      } else {
        assert scores'[x] == scores[x];
      }
    }
    assert scores'.Keys == scores.Keys + {id};
    assert forall x :: x in order' <==> x in order || x == id;
    assert Tally(order', scores', after, K);
  }

  lemma TallyEmpty(order: seq<nat>, scores: map<nat, real>, done: seq<seq<nat>>, K: nat)
    requires Tally(order, scores, done, K)
    ensures Tally(order, scores, done + [[]], K)
  {
    FlattenSnoc(done, []);
    assert Flatten(done) + [] == Flatten(done);
    forall x ensures Score(done + [[]], x, K) == Score(done, x, K) {
      ScoreSnoc(done, [], x, K);
    }
  }

  /** The inner loop of `rrf`: adds the reciprocal ranks of one list to the `Map`. */
  method AddList(order: seq<nat>, scores: map<nat, real>, ghost done: seq<seq<nat>>, lst: seq<nat>, K: nat)
    returns (order': seq<nat>, scores': map<nat, real>)
    requires Tally(order, scores, done, K)
    ensures Tally(order', scores', done + [lst], K)
  {
    order', scores' := order, scores;
    assert lst[..0] == [];
    TallyEmpty(order, scores, done, K);
    for i := 0 to |lst|
      invariant Tally(order', scores', done + [lst[..i]], K)
    {
      var id := lst[i];
      var prev := if id in scores' then scores'[id] else 0.0;
      // `Map.set` on a key already present keeps that key's position.
      var nextOrder := if id in order' then order' else order' + [id];
      var nextScores := scores'[id := prev + 1.0 / (K + (i + 1)) as real];
      TallyStep(order', scores', done, lst, i, K, nextOrder, nextScores);
      order', scores' := nextOrder, nextScores;
    }
    assert lst[..|lst|] == lst;
  }

  /** The fused order holds every identifier of the lists exactly once, and no other. */
  lemma FusedOrderMembers(lists: seq<seq<nat>>, K: nat)
    ensures Distinct(FusedOrder(lists, K))
    ensures forall id :: id in FusedOrder(lists, K) <==> id in Flatten(lists)
  {
    var keys := FirstSeen(Flatten(lists));
    var full := FusedOrder(lists, K);
    PermutationKeepsDistinct(keys, full);
    forall id ensures id in full <==> id in keys {
      assert id in full <==> id in multiset(full);
      assert id in keys <==> id in multiset(keys);
    }
  }

  /** Whatever the first `topK` of the fused order leave out scores no higher than anything kept. */
  lemma FusedPrefixKeepsBest(lists: seq<seq<nat>>, K: nat, n: nat)
    requires n <= |FusedOrder(lists, K)|
    ensures forall id, j :: id in Flatten(lists) && id !in FusedOrder(lists, K)[..n] && 0 <= j < n ==>
      Score(lists, FusedOrder(lists, K)[j], K) >= Score(lists, id, K)
  {
    var full := FusedOrder(lists, K);
    FusedOrderMembers(lists, K);
    forall id, j | id in Flatten(lists) && id !in full[..n] && 0 <= j < n
      ensures Score(lists, full[j], K) >= Score(lists, id, K)
    {
      var k :| 0 <= k < |full| && full[k] == id;
      assert forall m :: 0 <= m < n ==> full[m] in full[..n];
      assert ScoreKey(lists, K)(full[j]) >= ScoreKey(lists, K)(full[k]);
    }
  }

  /** What the first `topK` of the fused order of two lists are. */
  lemma FusedTop(list1: seq<nat>, list2: seq<nat>, topK: nat, K: nat, r: seq<nat>)
    requires r == FusedOrder([list1, list2], K)[..Min(topK, |FusedOrder([list1, list2], K)|)]
    ensures |r| <= topK && Distinct(r)
    ensures forall id :: id in r ==> id in list1 || id in list2
    ensures forall id :: id in r ==> Score([list1, list2], id, K) > 0.0
    ensures SortedDesc(r, ScoreKey([list1, list2], K))
    ensures forall id, j :: (id in list1 || id in list2) && id !in r && 0 <= j < |r| ==>
      Score([list1, list2], r[j], K) >= Score([list1, list2], id, K)
  {
    var lists := [list1, list2];
    var full := FusedOrder(lists, K);
    FlattenPair(list1, list2);
    FusedOrderMembers(lists, K);
    assert forall id :: id in r ==> id in full;
    FusedPrefixKeepsBest(lists, K, |r|);
    forall id | id in r ensures Score(lists, id, K) > 0.0 {
      ScoreSign(lists, id, K);
    }
  }

  /**
   * `rrf(list1, list2, topK, K)`. The JavaScript `Map` is the pair of `order`
   * (its key order) and `scores` (its entries).
   */
  method Rrf(list1: seq<nat>, list2: seq<nat>, topK: nat, K: nat) returns (r: seq<nat>)
    ensures r == FusedOrder([list1, list2], K)[..Min(topK, |FusedOrder([list1, list2], K)|)]
    ensures |r| <= topK && Distinct(r)
    ensures forall id :: id in r ==> id in list1 || id in list2
    ensures forall id :: id in r ==> Score([list1, list2], id, K) > 0.0
    ensures SortedDesc(r, ScoreKey([list1, list2], K))
    ensures forall id, j :: (id in list1 || id in list2) && id !in r && 0 <= j < |r| ==>
      Score([list1, list2], r[j], K) >= Score([list1, list2], id, K)
  {
    var lists := [list1, list2];
    var order: seq<nat> := [];
    var scores: map<nat, real> := map[];
    for li := 0 to |lists|
      invariant Tally(order, scores, lists[..li], K)
    {
      assert lists[..li + 1] == lists[..li] + [lists[li]];
      order, scores := AddList(order, scores, lists[..li], lists[li], K);
    }
    assert lists[..|lists|] == lists;
    var key := (id: nat) => if id in scores then scores[id] else 0.0;
    var sorted := SortDesc(order, key);
    SortDescCongruent(order, key, ScoreKey(lists, K));
    r := sorted[..Min(topK, |sorted|)];
    FusedTop(list1, list2, topK, K, r);
  }

  lemma SingleListScore(list1: seq<nat>, i: nat, K: nat)
    requires Distinct(list1) && i < |list1|
    ensures Score([list1, []], list1[i], K) == 1.0 / (K + i + 1) as real
  {
    FusedScoreOfPair(list1, [], list1[i], K);
    ContributionOfDistinct(list1, i, K);
  }

  lemma SingleListPair(list1: seq<nat>, i: nat, j: nat, K: nat)
    requires Distinct(list1) && i < j < |list1|
    ensures Score([list1, []], list1[i], K) >= Score([list1, []], list1[j], K)
  {
    SingleListScore(list1, i, K);
    SingleListScore(list1, j, K);
    ReciprocalDecreasing(K + i + 1, K + j + 1);
  }

  /** Without a second list, fusion keeps a repetition-free first list exactly as it is. */
  lemma FusionOfSingleList(list1: seq<nat>, K: nat)
    requires Distinct(list1)
    ensures FusedOrder([list1, []], K) == list1
  {
    var lists := [list1, []];
    FlattenPair(list1, []);
    assert list1 + [] == list1;
    FirstSeenOfDistinct(list1);
    var key := ScoreKey(lists, K);
    forall i, j | 0 <= i < j < |list1| ensures key(list1[i]) >= key(list1[j]) {
      SingleListPair(list1, i, j, K);
    }
    SortDescOfSorted(list1, key);
  }

  lemma ReciprocalDecreasing(a: nat, b: nat)
    requires 0 < a <= b
    ensures 1.0 / a as real >= 1.0 / b as real
  {
    var x, y := a as real, b as real;
    assert 1.0 / x - 1.0 / y == (y - x) / (x * y);
  }

  lemma {:induction false} FirstSeenOfDistinct(s: seq<nat>)
    requires Distinct(s)
    ensures FirstSeen(s) == s
  {
    if s != [] {
      FirstSeenOfDistinct(s[..|s| - 1]);
      assert s[..|s| - 1] + [s[|s| - 1]] == s;
    }
  }
}
