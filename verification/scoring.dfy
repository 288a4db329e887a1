/**
 * The greedy centrality score of `LoopSet.get_concepts_and_scores`
 * (python/cld_analysis/loop_set.py), as pure functions over what the
 * scoring loop reads of each loop: its links and its loop flag.
 *
 * For one concept, the loops containing it are taken in size-descending
 * order. The last (smallest) one is scored first and contributes its size.
 * Every remaining loop carries a value, 1.0 at the start, lowered to its
 * distance to each newly scored loop when that is smaller. The remaining loop
 * with the smallest value (the first one on ties) is scored next and adds its
 * size times that value.
 */
module Scoring {
  import opened Models
  import opened Sequences

  /** What scoring reads of a stored loop. */
  datatype View = View(links: seq<Link>, isLoop: bool)

  function Size(v: View): nat
  {
    |v.links|
  }

  function ViewDistance(a: View, b: View): Dist
  {
    SeqDistance(a.links, a.isLoop, b.links, b.isLoop)
  }

  /** `if dist < score: score = dist`, where an infinite distance is never smaller. */
  function Lowered(score: real, d: Dist): real
  {
    if d.Finite? && d.value < score then d.value else score
  }

  /** The update loop: every remaining value lowered by its distance to the loop scored last. */
  function UpdateAll(views: seq<View>, scores: seq<real>, last: View, dist: (View, View) -> Dist): (r: seq<real>)
    requires |views| == |scores|
    ensures |r| == |scores|
    ensures forall i :: 0 <= i < |r| ==> r[i] == Lowered(scores[i], dist(views[i], last))
  {
    seq(|scores|, i requires 0 <= i < |scores| => Lowered(scores[i], dist(views[i], last)))
  }

  /** The index the argmin loop finds: the first smallest value. */
  function FirstMin(s: seq<real>): (r: nat)
    requires |s| > 0
    ensures r < |s|
    ensures forall k :: 0 <= k < |s| ==> s[r] <= s[k]
    ensures forall k :: 0 <= k < r ==> s[r] < s[k]
  {
    if |s| == 1 then 0
    else
      var r := FirstMin(s[..|s| - 1]);
      if s[|s| - 1] < s[r] then |s| - 1 else r
  }

  /** `list.pop(i)`: the list without its element at `i`. */
  function Without<T>(s: seq<T>, i: nat): (r: seq<T>)
    requires i < |s|
    ensures |r| == |s| - 1
    ensures forall k :: 0 <= k < i ==> r[k] == s[k]
    ensures forall k :: i <= k < |r| ==> r[k] == s[k + 1]
  {
    s[..i] + s[i + 1..]
  }

  /** `size * value`, written as repeated addition so that it stays linear arithmetic. */
  function Scaled(size: nat, value: real): real
  {
    if size == 0 then 0.0 else Scaled(size - 1, value) + value
  }

  lemma {:induction false} ScaledIsProduct(size: nat, value: real)
    ensures Scaled(size, value) == (size as real) * value
  {
    if size > 0 {
      ScaledIsProduct(size - 1, value);
      assert ((size - 1) as real) * value + value == (size as real) * value;
    }
  }

  /** What the remaining loops add to the score once `last` has been scored. */
  function Greedy(views: seq<View>, scores: seq<real>, last: View, dist: (View, View) -> Dist): real
    requires |views| == |scores|
    decreases |views|
  {
    if |views| == 0 then 0.0
    else
      var updated := UpdateAll(views, scores, last, dist);
      var i := FirstMin(updated);
      Scaled(Size(views[i]), updated[i]) + Greedy(Without(views, i), Without(updated, i), views[i], dist)
  }

  function Ones(n: nat): (r: seq<real>)
    ensures |r| == n && forall i :: 0 <= i < n ==> r[i] == 1.0
  {
    seq(n, i => 1.0)
  }

  /** The score of a concept found in the loops `views`, listed in size-descending order. */
  function ConceptScore(views: seq<View>, dist: (View, View) -> Dist): real
    requires |views| >= 2
  {
    var last := views[|views| - 1];
    (Size(last) as real) + Greedy(views[..|views| - 1], Ones(|views| - 1), last, dist)
  }

  function SumSizes(views: seq<View>): nat
  {
    if |views| == 0 then 0 else SumSizes(views[..|views| - 1]) + Size(views[|views| - 1])
  }

  // ---------------------------------------------------------------------------
  // A reference definition: the value of a loop is its distance to the nearest scored loop

  /** min(1.0, the smallest finite distance from `v` to a loop in `scored`). */
  function Nearest(v: View, scored: seq<View>, dist: (View, View) -> Dist): real
  {
    if |scored| == 0 then 1.0
    else Lowered(Nearest(v, scored[..|scored| - 1], dist), dist(v, scored[|scored| - 1]))
  }

  /** `Nearest` is that minimum: at most 1.0, at most every finite distance, and one of them or 1.0. */
  lemma {:induction false} NearestIsMinimum(v: View, scored: seq<View>, dist: (View, View) -> Dist)
    ensures Nearest(v, scored, dist) <= 1.0
    ensures forall k :: 0 <= k < |scored| && dist(v, scored[k]).Finite? ==>
              Nearest(v, scored, dist) <= dist(v, scored[k]).value
    ensures Nearest(v, scored, dist) == 1.0 ||
            exists k :: 0 <= k < |scored| && dist(v, scored[k]) == Finite(Nearest(v, scored, dist))
  {
    if |scored| > 0 {
      var front := scored[..|scored| - 1];
      NearestIsMinimum(v, front, dist);
      var n := Nearest(v, scored, dist);
      if n != 1.0 && n != Nearest(v, front, dist) {
        assert dist(v, scored[|scored| - 1]) == Finite(n);
      } else if n != 1.0 {
        var k :| 0 <= k < |front| && dist(v, front[k]) == Finite(n);
        assert scored[k] == front[k];
      }
    }
  }

  function NearestAll(views: seq<View>, scored: seq<View>, dist: (View, View) -> Dist): (r: seq<real>)
    ensures |r| == |views| && forall i :: 0 <= i < |views| ==> r[i] == Nearest(views[i], scored, dist)
  {
    seq(|views|, i requires 0 <= i < |views| => Nearest(views[i], scored, dist))
  }

  /** The greedy order stated directly: always score the remaining loop nearest to the scored ones. */
  function GreedyReference(views: seq<View>, scored: seq<View>, dist: (View, View) -> Dist): real
    decreases |views|
  {
    if |views| == 0 then 0.0
    else
      var values := NearestAll(views, scored, dist);
      var i := FirstMin(values);
      Scaled(Size(views[i]), values[i]) + GreedyReference(Without(views, i), scored + [views[i]], dist)
  }

  /** One step of `Greedy`, with the update and the pick named. */
  lemma GreedyStep(views: seq<View>, scores: seq<real>, last: View, dist: (View, View) -> Dist,
                   updated: seq<real>, i: nat)
    requires |views| == |scores| && |views| > 0
    requires updated == UpdateAll(views, scores, last, dist) && i == FirstMin(updated)
    ensures Greedy(views, scores, last, dist) ==
            Scaled(Size(views[i]), updated[i]) + Greedy(Without(views, i), Without(updated, i), views[i], dist)
  {
  }

  /**
   * One round of the scoring loop: the values are updated against `last`,
   * the first least one is picked, and the picked view leaves the list.
   */
  predicate Round(views: seq<View>, scores: seq<real>, last: View, dist: (View, View) -> Dist,
                  rest: seq<View>, restScores: seq<real>, next: View, contribution: real)
    requires |views| == |scores| && |views| > 0
  {
    var updated := UpdateAll(views, scores, last, dist);
    var i := FirstMin(updated);
    rest == Without(views, i) && restScores == Without(updated, i) && next == views[i] &&
    contribution == Scaled(Size(views[i]), updated[i])
  }

  /** The round that picks the first least updated value, with its contribution as a product. */
  lemma RoundAt(views: seq<View>, scores: seq<real>, last: View, dist: (View, View) -> Dist,
                updated: seq<real>, i: nat, contribution: real)
    requires |views| == |scores| && |views| > 0
    requires updated == UpdateAll(views, scores, last, dist) && i == FirstMin(updated)
    requires contribution == (Size(views[i]) as real) * updated[i]
    ensures Round(views, scores, last, dist, Without(views, i), Without(updated, i), views[i], contribution)
  {
    ScaledIsProduct(Size(views[i]), updated[i]);
  }

  /** A round adds its contribution and leaves the rest of the sum to the remaining views. */
  lemma RoundGreedy(views: seq<View>, scores: seq<real>, last: View, dist: (View, View) -> Dist,
                    rest: seq<View>, restScores: seq<real>, next: View, contribution: real)
    requires |views| == |scores| && |views| > 0
    requires Round(views, scores, last, dist, rest, restScores, next, contribution)
    ensures |rest| == |restScores| == |views| - 1
    ensures contribution + Greedy(rest, restScores, next, dist) == Greedy(views, scores, last, dist)
  {
    var updated := UpdateAll(views, scores, last, dist);
    GreedyStep(views, scores, last, dist, updated, FirstMin(updated));
  }

  /** One step of `GreedyReference`, with the values and the pick named. */
  lemma ReferenceStep(views: seq<View>, scored: seq<View>, dist: (View, View) -> Dist, values: seq<real>, i: nat)
    requires |views| > 0
    requires values == NearestAll(views, scored, dist) && i == FirstMin(values)
    ensures GreedyReference(views, scored, dist) ==
            Scaled(Size(views[i]), values[i]) + GreedyReference(Without(views, i), scored + [views[i]], dist)
  {
  }

  /** The incremental update loop keeps every value at its distance to the nearest scored loop. */
  lemma {:induction false} GreedyIsReference(views: seq<View>, scored: seq<View>, last: View, dist: (View, View) -> Dist)
    ensures Greedy(views, NearestAll(views, scored, dist), last, dist) == GreedyReference(views, scored + [last], dist)
    decreases |views|
  {
    if |views| > 0 {
      var updated := UpdateAll(views, NearestAll(views, scored, dist), last, dist);
      var scored' := scored + [last];
      assert scored'[..|scored'| - 1] == scored;
      assert updated == NearestAll(views, scored', dist);
      var i := FirstMin(updated);
      var rest := Without(views, i);
      assert Without(updated, i) == NearestAll(rest, scored', dist);
      GreedyStep(views, NearestAll(views, scored, dist), last, dist, updated, i);
      ReferenceStep(views, scored', dist, updated, i);
      GreedyIsReference(rest, scored', views[i], dist);
    }
  }

  /** The score is the smallest loop's size plus the reference greedy sum over the others. */
  lemma ConceptScoreIsReference(views: seq<View>, dist: (View, View) -> Dist)
    requires |views| >= 2
    ensures var last := views[|views| - 1];
            ConceptScore(views, dist) == (Size(last) as real) + GreedyReference(views[..|views| - 1], [last], dist)
  {
    var rest := views[..|views| - 1];
    assert Ones(|rest|) == NearestAll(rest, [], dist);
    GreedyIsReference(rest, [], views[|views| - 1], dist);
  }

  // ---------------------------------------------------------------------------
  // Bounds

  lemma {:induction false} SumSizesAppend(a: seq<View>, b: seq<View>)
    ensures SumSizes(a + b) == SumSizes(a) + SumSizes(b)
    decreases |b|
  {
    if |b| == 0 {
      assert a + b == a;
    } else {
      assert (a + b)[..|a + b| - 1] == a + b[..|b| - 1];
      SumSizesAppend(a, b[..|b| - 1]);
    }
  }

  lemma {:induction false} SumSizesWithout(views: seq<View>, i: nat)
    requires i < |views|
    ensures SumSizes(Without(views, i)) + Size(views[i]) == SumSizes(views)
    decreases |views|
  {
    var n := |views| - 1;
    var w := Without(views, i);
    if i == n {
      assert w == views[..n];
    } else {
      assert w[..|w| - 1] == Without(views[..n], i);
      assert w[|w| - 1] == views[n];
      SumSizesWithout(views[..n], i);
    }
  }

  /** Every finite distance lies in [0, 1]. */
  ghost predicate UnitDistances(dist: (View, View) -> Dist)
  {
    forall a, b :: dist(a, b).Finite? ==> 0.0 <= dist(a, b).value <= 1.0
  }

  /** The distance between sequences is such a distance. */
  lemma ViewDistanceUnit()
    ensures UnitDistances(ViewDistance)
  {
    forall a, b
      ensures ViewDistance(a, b).Finite? ==> 0.0 <= ViewDistance(a, b).value <= 1.0
    {
      SeqDistanceRange(a.links, a.isLoop, b.links, b.isLoop);
    }
  }

  predicate UnitScores(scores: seq<real>)
  {
    forall i :: 0 <= i < |scores| ==> 0.0 <= scores[i] <= 1.0
  }

  /** Lowering values in [0, 1] by distances in [0, 1] keeps them in [0, 1]. */
  lemma UpdateAllUnit(views: seq<View>, scores: seq<real>, last: View, dist: (View, View) -> Dist)
    requires |views| == |scores| && UnitScores(scores) && UnitDistances(dist)
    ensures UnitScores(UpdateAll(views, scores, last, dist))
  {
  }

  /** Each scored loop adds between 0 and its size. */
  lemma {:induction false} GreedyBounds(views: seq<View>, scores: seq<real>, last: View, dist: (View, View) -> Dist)
    requires |views| == |scores| && UnitScores(scores) && UnitDistances(dist)
    ensures 0.0 <= Greedy(views, scores, last, dist) <= SumSizes(views) as real
    decreases |views|
  {
    if |views| > 0 {
      var updated := UpdateAll(views, scores, last, dist);
      UpdateAllUnit(views, scores, last, dist);
      var i := FirstMin(updated);
      GreedyBounds(Without(views, i), Without(updated, i), views[i], dist);
      SumSizesWithout(views, i);
      GreedyStep(views, scores, last, dist, updated, i);
      ScaledBounds(Size(views[i]), updated[i]);
    }
  }

  lemma {:induction false} ScaledBounds(size: nat, value: real)
    requires 0.0 <= value <= 1.0
    ensures 0.0 <= Scaled(size, value) <= size as real
  {
    if size > 0 {
      ScaledBounds(size - 1, value);
    }
  }

  /** A concept's score is at least the size of the loop it starts from and at most the sum of the sizes. */
  lemma ConceptScoreBounds(views: seq<View>, dist: (View, View) -> Dist)
    requires |views| >= 2 && UnitDistances(dist)
    ensures Size(views[|views| - 1]) as real <= ConceptScore(views, dist) <= SumSizes(views) as real
  {
    var rest, last := views[..|views| - 1], views[|views| - 1];
    GreedyBounds(rest, Ones(|rest|), last, dist);
    var g := Greedy(rest, Ones(|rest|), last, dist);
    assert ConceptScore(views, dist) == (Size(last) as real) + g;
    assert SumSizes(views) == SumSizes(rest) + Size(last);
  }
}
