/**
 * Edit distances over integer sequences (python/cld_analysis/utils.py).
 *
 * `Lev` is the unit-cost edit-distance recurrence over prefixes; the two
 * methods fill the dynamic-programming matrix column by column in a 2-D
 * array exactly as the source does, and are proved to compute `EditDistance`
 * and `RotationDistance`. The early exit of the rotation variant is proved
 * sound by `EarlyExitSound`: column minima of the matrix never decrease.
 */
module Utils {

  function Min(x: int, y: int): int { if x <= y then x else y }

  function Cost(x: int, y: int): nat { if x == y then 0 else 1 }

  /** |i - j| */
  function Gap(i: nat, j: nat): nat { if i >= j then i - j else j - i }

  /** Edit distance between the first `i` elements of `a` and the first `j` elements of `b`. */
  function Lev(a: seq<int>, b: seq<int>, i: nat, j: nat): nat
    requires i <= |a| && j <= |b|
    decreases i + j
  {
    if i == 0 then j
    else if j == 0 then i
    else Min(Min(Lev(a, b, i - 1, j) + 1,                            // deletion
                 Lev(a, b, i, j - 1) + 1),                           // insertion
             Lev(a, b, i - 1, j - 1) + Cost(a[i - 1], b[j - 1]))     // substitution
  }

  function EditDistance(a: seq<int>, b: seq<int>): nat
  {
    Lev(a, b, |a|, |b|)
  }

  // ---------------------------------------------------------------------------
  // Properties of the recurrence

  /** One step of the bounds proof: the recurrence keeps the bounds of its three neighbours. */
  lemma LevBoundsStep(a: seq<int>, b: seq<int>, i: nat, j: nat)
    requires 0 < i <= |a| && 0 < j <= |b|
    requires Gap(i - 1, j) <= Lev(a, b, i - 1, j) <= i - 1 + j
    requires Gap(i, j - 1) <= Lev(a, b, i, j - 1) <= i + j - 1
    requires Gap(i - 1, j - 1) <= Lev(a, b, i - 1, j - 1) <= i + j - 2
    ensures Gap(i, j) <= Lev(a, b, i, j) <= i + j
  {
  }

  /** The bounds for every pair of prefixes whose lengths add up to at most `n`. */
  lemma {:induction false} LevBoundsUpTo(a: seq<int>, b: seq<int>, n: nat)
    ensures forall i: nat, j: nat :: i <= |a| && j <= |b| && i + j <= n ==> Gap(i, j) <= Lev(a, b, i, j) <= i + j
  {
    if n > 0 {
      LevBoundsUpTo(a, b, n - 1);
      forall i: nat, j: nat | i <= |a| && j <= |b| && i + j <= n
        ensures Gap(i, j) <= Lev(a, b, i, j) <= i + j
      {
        if i > 0 && j > 0 {
          LevBoundsStep(a, b, i, j);
        }
      }
    }
  }

  lemma LevBounds(a: seq<int>, b: seq<int>, i: nat, j: nat)
    requires i <= |a| && j <= |b|
    ensures Gap(i, j) <= Lev(a, b, i, j) <= i + j
  {
    LevBoundsUpTo(a, b, i + j);
  }

  /** One step of the symmetry proof: the recurrence is symmetric once its three neighbours are. */
  lemma LevSymmetricStep(a: seq<int>, b: seq<int>, i: nat, j: nat)
    requires 0 < i <= |a| && 0 < j <= |b|
    requires Lev(a, b, i - 1, j) == Lev(b, a, j, i - 1)
    requires Lev(a, b, i, j - 1) == Lev(b, a, j - 1, i)
    requires Lev(a, b, i - 1, j - 1) == Lev(b, a, j - 1, i - 1)
    ensures Lev(a, b, i, j) == Lev(b, a, j, i)
  {
  }

  /** Symmetry for every pair of prefixes whose lengths add up to at most `n`. */
  lemma {:induction false} LevSymmetricUpTo(a: seq<int>, b: seq<int>, n: nat)
    ensures forall i: nat, j: nat :: i <= |a| && j <= |b| && i + j <= n ==> Lev(a, b, i, j) == Lev(b, a, j, i)
  {
    if n > 0 {
      LevSymmetricUpTo(a, b, n - 1);
      forall i: nat, j: nat | i <= |a| && j <= |b| && i + j <= n
        ensures Lev(a, b, i, j) == Lev(b, a, j, i)
      {
        if i > 0 && j > 0 {
          LevSymmetricStep(a, b, i, j);
        }
      }
    }
  }

  lemma LevSymmetric(a: seq<int>, b: seq<int>, i: nat, j: nat)
    requires i <= |a| && j <= |b|
    ensures Lev(a, b, i, j) == Lev(b, a, j, i)
  {
    LevSymmetricUpTo(a, b, i + j);
  }

  lemma {:induction false} LevSelf(a: seq<int>, i: nat)
    requires i <= |a|
    ensures Lev(a, a, i, i) == 0
  {
    if i > 0 {
      LevSelf(a, i - 1);
    }
  }

  /** A distance of zero means the two prefixes are equal. */
  lemma {:induction false} LevZero(a: seq<int>, b: seq<int>, i: nat, j: nat)
    requires i <= |a| && j <= |b|
    requires Lev(a, b, i, j) == 0
    ensures i == j && a[..i] == b[..j]
    decreases i + j
  {
    if i > 0 && j > 0 {
      LevZero(a, b, i - 1, j - 1);
      assert a[..i] == a[..i - 1] + [a[i - 1]];
      assert b[..j] == b[..j - 1] + [b[j - 1]];
    }
  }

  lemma EditDistanceBounds(a: seq<int>, b: seq<int>)
    ensures Gap(|a|, |b|) <= EditDistance(a, b) <= |a| + |b|
    ensures |a| == 0 ==> EditDistance(a, b) == |b|
    ensures |b| == 0 ==> EditDistance(a, b) == |a|
  {
    LevBounds(a, b, |a|, |b|);
  }

  lemma EditDistanceSymmetric(a: seq<int>, b: seq<int>)
    ensures EditDistance(a, b) == EditDistance(b, a)
  {
    LevSymmetric(a, b, |a|, |b|);
  }

  lemma EditDistanceZero(a: seq<int>, b: seq<int>)
    ensures EditDistance(a, b) == 0 <==> a == b
  {
    if a == b {
      LevSelf(a, |a|);
    }
    if EditDistance(a, b) == 0 {
      LevZero(a, b, |a|, |b|);
      assert a == a[..|a|] && b == b[..|b|];
    }
  }

  // ---------------------------------------------------------------------------
  // Column minima: the basis of the early exit

  /** The smallest of Lev(a, b, 0, j), ..., Lev(a, b, i, j): the source's `lowest_in_row`. */
  function ColumnMin(a: seq<int>, b: seq<int>, i: nat, j: nat): nat
    requires i <= |a| && j <= |b|
  {
    if i == 0 then Lev(a, b, 0, j) else Min(ColumnMin(a, b, i - 1, j), Lev(a, b, i, j))
  }

  lemma {:induction false} ColumnMinBelow(a: seq<int>, b: seq<int>, i: nat, j: nat, k: nat)
    requires k <= i <= |a| && j <= |b|
    ensures ColumnMin(a, b, i, j) <= Lev(a, b, k, j)
  {
    if k < i {
      ColumnMinBelow(a, b, i - 1, j, k);
    }
  }

  /** Every entry of column j + 1 is at least the minimum of column j. */
  lemma {:induction false} NextColumnAbove(a: seq<int>, b: seq<int>, i: nat, j: nat)
    requires i <= |a| && j < |b|
    ensures Lev(a, b, i, j + 1) >= ColumnMin(a, b, |a|, j)
  {
    ColumnMinBelow(a, b, |a|, j, 0);
    if i > 0 {
      NextColumnAbove(a, b, i - 1, j);
      ColumnMinBelow(a, b, |a|, j, i);
      ColumnMinBelow(a, b, |a|, j, i - 1);
    }
  }

  lemma {:induction false} ColumnMinNondecreasing(a: seq<int>, b: seq<int>, i: nat, j: nat)
    requires i <= |a| && j < |b|
    ensures ColumnMin(a, b, i, j + 1) >= ColumnMin(a, b, |a|, j)
  {
    NextColumnAbove(a, b, i, j);
    if i > 0 {
      ColumnMinNondecreasing(a, b, i - 1, j);
    }
  }

  /** Once a whole column is at least `lowest`, so is the final distance. */
  lemma {:induction false} EarlyExitSound(a: seq<int>, b: seq<int>, j: nat)
    requires j <= |b|
    ensures EditDistance(a, b) >= ColumnMin(a, b, |a|, j)
    decreases |b| - j
  {
    if j == |b| {
      ColumnMinBelow(a, b, |a|, j, |a|);
    } else {
      ColumnMinNondecreasing(a, b, |a|, j);
      EarlyExitSound(a, b, j + 1);
    }
  }

  // ---------------------------------------------------------------------------
  // Rotations

  /** `s` rotated left by `k` places: the source's doubled-array window (s + s)[k .. k + |s|]. */
  function Rotation<T>(s: seq<T>, k: nat): (r: seq<T>)
    requires k <= |s|
    ensures |r| == |s|
  {
    s[k..] + s[..k]
  }

  lemma RotationIndex<T>(s: seq<T>, k: nat)
    requires k <= |s|
    ensures forall t :: 0 <= t < |s| ==> Rotation(s, k)[t] == if k + t < |s| then s[k + t] else s[k + t - |s|]
  {
  }

  /** A rotation is a permutation. */
  lemma RotationMultiset<T>(s: seq<T>, k: nat)
    requires k <= |s|
    ensures multiset(Rotation(s, k)) == multiset(s)
  {
    assert s == s[..k] + s[k..];
  }

  /** Rotating by 0 or by the full length changes nothing. */
  lemma RotationTrivial<T>(s: seq<T>, k: nat)
    requires k == 0 || k == |s|
    ensures Rotation(s, k) == s
  {
  }

  /** `d` is `s` followed by a second copy of `s` (the source's `a_double`). */
  predicate Doubled(d: seq<int>, s: seq<int>)
  {
    |d| == 2 * |s| && forall i :: 0 <= i < |s| ==> d[i] == s[i] && d[|s| + i] == s[i]
  }

  lemma DoubledAppend(s: seq<int>)
    ensures Doubled(s + s, s)
  {
  }

  /** A window of length |s| in the doubled sequence is a rotation of `s`. */
  lemma DoubledWindow(d: seq<int>, s: seq<int>, k: nat)
    requires Doubled(d, s) && k <= |s|
    ensures d[k..k + |s|] == Rotation(s, k)
  {
    forall t | 0 <= t < |s|
      ensures d[k..k + |s|][t] == Rotation(s, k)[t]
    {
      if k + t >= |s| {
        assert d[|s| + (k + t - |s|)] == s[k + t - |s|];
      }
    }
  }

  /** The offset that rotating by `j` and then by `k` amounts to. */
  function AddOffsets(j: nat, k: nat, n: nat): nat
  {
    if j + k <= n then j + k else j + k - n
  }

  lemma RotationRotation<T>(s: seq<T>, j: nat, k: nat)
    requires j <= |s| && k <= |s|
    ensures AddOffsets(j, k, |s|) <= |s|
    ensures Rotation(Rotation(s, j), k) == Rotation(s, AddOffsets(j, k, |s|))
  {
    var r := Rotation(Rotation(s, j), k);
    var c := AddOffsets(j, k, |s|);
    RotationIndex(s, j);
    RotationIndex(Rotation(s, j), k);
    RotationIndex(s, c);
    forall t | 0 <= t < |s|
      ensures r[t] == Rotation(s, c)[t]
    {
    }
  }

  /** Rotating back: the offset that undoes a rotation by `k`. */
  lemma RotationInverse<T>(s: seq<T>, k: nat)
    requires k <= |s|
    ensures Rotation(Rotation(s, k), |s| - k) == s
  {
    RotationRotation(s, k, |s| - k);
  }

  /** The source's `rotate_array`: move the first element to the end. */
  function RotateArray(arr: seq<int>): (r: seq<int>)
    ensures |arr| <= 1 ==> r == arr
    ensures |arr| >= 1 ==> r == Rotation(arr, 1)
  {
    if |arr| <= 1 then arr else arr[1..] + [arr[0]]
  }

  /** `rotate_array` keeps the length and the elements. */
  lemma RotateArrayPermutes(arr: seq<int>)
    ensures |RotateArray(arr)| == |arr| && multiset(RotateArray(arr)) == multiset(arr)
  {
    if |arr| >= 1 {
      RotationMultiset(arr, 1);
    }
  }

  /** `RotateArray` applied `k` times. */
  function RotateArrayTimes(arr: seq<int>, k: nat): seq<int>
  {
    if k == 0 then arr else RotateArray(RotateArrayTimes(arr, k - 1))
  }

  lemma {:induction false} RotateArrayTimesIsRotation(arr: seq<int>, k: nat)
    requires k <= |arr|
    ensures RotateArrayTimes(arr, k) == Rotation(arr, k)
  {
    if k > 0 {
      RotateArrayTimesIsRotation(arr, k - 1);
      var r := Rotation(arr, k - 1);
      assert RotateArrayTimes(arr, k) == RotateArray(r);
      assert RotateArray(r) == Rotation(r, 1);
      RotationRotation(arr, k - 1, 1);
    }
  }

  /** `len(arr)` applications of `rotate_array` give back the original. */
  lemma RotateArrayRestores(arr: seq<int>)
    ensures RotateArrayTimes(arr, |arr|) == arr
  {
    RotateArrayTimesIsRotation(arr, |arr|);
  }

  // ---------------------------------------------------------------------------
  // Edit distance up to rotation

  /**
   * The smallest of |a| + |b| and the edit distances of the rotation pairs
   * (p, q) visited before (i, j) in the source's nested loops:
   * p < i, or p == i and q < j.
   */
  function PairsMin(a: seq<int>, b: seq<int>, i: nat, j: nat): nat
    requires i <= |a| && j <= |b| && (i < |a| || j == 0)
    decreases i, j
  {
    if j > 0 then Min(PairsMin(a, b, i, j - 1), EditDistance(Rotation(a, i), Rotation(b, j - 1)))
    else if i > 0 then PairsMin(a, b, i - 1, |b|)
    else |a| + |b|
  }

  /** The minimum edit distance over all rotations of both inputs (|a| + |b| if one is empty). */
  function RotationDistance(a: seq<int>, b: seq<int>): nat
  {
    if |a| == 0 || |b| == 0 then |a| + |b| else PairsMin(a, b, |a|, 0)
  }

  predicate Visited(i: nat, j: nat, n: nat, p: nat, q: nat)
  {
    (p < i && q < n) || (p == i && q < j)
  }

  lemma {:induction false} PairsMinBelowPair(a: seq<int>, b: seq<int>, i: nat, j: nat, p: nat, q: nat)
    requires i <= |a| && j <= |b| && (i < |a| || j == 0)
    requires Visited(i, j, |b|, p, q)
    ensures p <= |a| && q <= |b|
    ensures PairsMin(a, b, i, j) <= EditDistance(Rotation(a, p), Rotation(b, q))
    decreases i, j
  {
    if j == 0 {
      PairsMinBelowPair(a, b, i - 1, |b|, p, q);
    } else if p == i && q == j - 1 {
      assert PairsMin(a, b, i, j) <= EditDistance(Rotation(a, i), Rotation(b, j - 1));
    } else {
      PairsMinBelowPair(a, b, i, j - 1, p, q);
      assert PairsMin(a, b, i, j) <= PairsMin(a, b, i, j - 1);
    }
  }

  lemma {:induction false} PairsMinAttained(a: seq<int>, b: seq<int>, i: nat, j: nat)
    requires 0 < |a| && 0 < |b|
    requires i <= |a| && j <= |b| && (i < |a| || j == 0) && (i > 0 || j > 0)
    ensures exists p: nat, q: nat :: p < |a| && q < |b| && Visited(i, j, |b|, p, q) &&
              PairsMin(a, b, i, j) == EditDistance(Rotation(a, p), Rotation(b, q))
    decreases i, j
  {
    if j > 0 {
      var d := EditDistance(Rotation(a, i), Rotation(b, j - 1));
      if i == 0 && j == 1 {
        EditDistanceBounds(Rotation(a, 0), Rotation(b, 0));
        assert Visited(i, j, |b|, 0, 0);
      } else {
        PairsMinAttained(a, b, i, j - 1);
        var p: nat, q: nat :| p < |a| && q < |b| && Visited(i, j - 1, |b|, p, q) &&
                              PairsMin(a, b, i, j - 1) == EditDistance(Rotation(a, p), Rotation(b, q));
        if PairsMin(a, b, i, j - 1) <= d {
          assert Visited(i, j, |b|, p, q);
        } else {
          assert Visited(i, j, |b|, i, j - 1);
        }
      }
    } else {
      PairsMinAttained(a, b, i - 1, |b|);
      var p: nat, q: nat :| p < |a| && q < |b| && Visited(i - 1, |b|, |b|, p, q) &&
                            PairsMin(a, b, i - 1, |b|) == EditDistance(Rotation(a, p), Rotation(b, q));
      assert Visited(i, j, |b|, p, q);
    }
  }

  /** RotationDistance is the minimum over all rotation pairs, and that minimum is attained. */
  lemma RotationDistanceIsMinimum(a: seq<int>, b: seq<int>)
    requires 0 < |a| && 0 < |b|
    ensures forall p: nat, q: nat :: p < |a| && q < |b| ==>
              RotationDistance(a, b) <= EditDistance(Rotation(a, p), Rotation(b, q))
    ensures exists p: nat, q: nat :: p < |a| && q < |b| &&
              RotationDistance(a, b) == EditDistance(Rotation(a, p), Rotation(b, q))
  {
    forall p: nat, q: nat | p < |a| && q < |b|
      ensures RotationDistance(a, b) <= EditDistance(Rotation(a, p), Rotation(b, q))
    {
      PairsMinBelowPair(a, b, |a|, 0, p, q);
    }
    PairsMinAttained(a, b, |a|, 0);
  }

  /** The source's bail-out bound |m - n| and initial value m + n are bounds on the result. */
  lemma RotationDistanceBounds(a: seq<int>, b: seq<int>)
    ensures Gap(|a|, |b|) <= RotationDistance(a, b) <= |a| + |b|
  {
    if 0 < |a| && 0 < |b| {
      RotationDistanceIsMinimum(a, b);
      var p: nat, q: nat :| p < |a| && q < |b| &&
                            RotationDistance(a, b) == EditDistance(Rotation(a, p), Rotation(b, q));
      EditDistanceBounds(Rotation(a, p), Rotation(b, q));
    }
  }

  /** Every intermediate value of the source's `lowest` is an upper bound on the result. */
  lemma RotationDistanceBelowProgress(a: seq<int>, b: seq<int>, i: nat, j: nat)
    requires 0 < |a| && 0 < |b|
    requires i <= |a| && j <= |b| && (i < |a| || j == 0)
    ensures RotationDistance(a, b) <= PairsMin(a, b, i, j)
  {
    RotationDistanceBounds(a, b);
    if i > 0 || j > 0 {
      PairsMinAttained(a, b, i, j);
      var p: nat, q: nat :| p < |a| && q < |b| && Visited(i, j, |b|, p, q) &&
                            PairsMin(a, b, i, j) == EditDistance(Rotation(a, p), Rotation(b, q));
      RotationDistanceIsMinimum(a, b);
    }
  }

  lemma RotationDistanceSymmetric(a: seq<int>, b: seq<int>)
    ensures RotationDistance(a, b) == RotationDistance(b, a)
  {
    if 0 < |a| && 0 < |b| {
      RotationDistanceIsMinimum(a, b);
      RotationDistanceIsMinimum(b, a);
      var p: nat, q: nat :| p < |a| && q < |b| &&
                            RotationDistance(a, b) == EditDistance(Rotation(a, p), Rotation(b, q));
      var q': nat, p': nat :| q' < |b| && p' < |a| &&
                              RotationDistance(b, a) == EditDistance(Rotation(b, q'), Rotation(a, p'));
      EditDistanceSymmetric(Rotation(a, p), Rotation(b, q));
      EditDistanceSymmetric(Rotation(a, p'), Rotation(b, q'));
    }
  }

  /** Every rotation pair of (Rotation(a, k), b) is a rotation pair of (a, b), so the minimum cannot drop. */
  lemma RotationDistanceRotateFirstBelow(a: seq<int>, b: seq<int>, k: nat)
    requires k <= |a|
    ensures RotationDistance(a, b) <= RotationDistance(Rotation(a, k), b)
  {
    var a' := Rotation(a, k);
    if 0 < |a| && 0 < |b| {
      RotationDistanceIsMinimum(a', b);
      var p: nat, q: nat :| p < |a| && q < |b| &&
                            RotationDistance(a', b) == EditDistance(Rotation(a', p), Rotation(b, q));
      RotationRotation(a, k, p);
      var c := AddOffsets(k, p, |a|);
      var c' := if c == |a| then 0 else c;
      assert Rotation(a', p) == Rotation(a, c');
      RotationDistanceIsMinimum(a, b);
    }
  }

  /** Rotating the first input beforehand does not change the result. */
  lemma RotationDistanceRotateFirst(a: seq<int>, b: seq<int>, k: nat)
    requires k <= |a|
    ensures RotationDistance(Rotation(a, k), b) == RotationDistance(a, b)
  {
    RotationDistanceRotateFirstBelow(a, b, k);
    RotationDistanceRotateFirstBelow(Rotation(a, k), b, |a| - k);
    RotationInverse(a, k);
  }

  /** Rotating the second input beforehand does not change the result. */
  lemma RotationDistanceRotateSecond(a: seq<int>, b: seq<int>, k: nat)
    requires k <= |b|
    ensures RotationDistance(a, Rotation(b, k)) == RotationDistance(a, b)
  {
    RotationDistanceSymmetric(a, Rotation(b, k));
    RotationDistanceRotateFirst(b, a, k);
    RotationDistanceSymmetric(b, a);
  }

  /** Equal rotations of `a` and `b` make `b` a rotation of `a`. */
  lemma EqualRotations(a: seq<int>, b: seq<int>, p: nat, q: nat)
    requires p <= |a| && q <= |b| && Rotation(a, p) == Rotation(b, q)
    ensures AddOffsets(p, |b| - q, |a|) <= |a| && b == Rotation(a, AddOffsets(p, |b| - q, |a|))
  {
    var r := Rotation(a, p);
    assert |a| == |r| == |b|;
    RotationInverse(b, q);
    assert Rotation(r, |b| - q) == b;
    RotationRotation(a, p, |b| - q);
  }

  lemma RotationDistanceZeroIfRotation(a: seq<int>, b: seq<int>, k: nat)
    requires k <= |a| && b == Rotation(a, k)
    ensures RotationDistance(a, b) == 0
  {
    if 0 < |a| {
      var k' := if k < |a| then k else 0;
      assert Rotation(a, k') == b;
      RotationDistanceIsMinimum(a, b);
      EditDistanceZero(Rotation(a, k'), Rotation(b, 0));
    }
  }

  lemma RotationDistanceZeroOnlyIfRotation(a: seq<int>, b: seq<int>)
    requires RotationDistance(a, b) == 0
    ensures exists k: nat :: k <= |a| && b == Rotation(a, k)
  {
    if 0 < |a| && 0 < |b| {
      RotationDistanceIsMinimum(a, b);
      var p: nat, q: nat :| p < |a| && q < |b| && 0 == EditDistance(Rotation(a, p), Rotation(b, q));
      EditDistanceZero(Rotation(a, p), Rotation(b, q));
      EqualRotations(a, b, p, q);
    } else {
      assert b == Rotation(a, 0);
    }
  }

  /** The result is zero exactly when `b` is a rotation of `a`. */
  lemma RotationDistanceZero(a: seq<int>, b: seq<int>)
    ensures RotationDistance(a, b) == 0 <==> exists k: nat :: k <= |a| && b == Rotation(a, k)
  {
    if exists k: nat :: k <= |a| && b == Rotation(a, k) {
      var k: nat :| k <= |a| && b == Rotation(a, k);
      RotationDistanceZeroIfRotation(a, b, k);
    }
    if RotationDistance(a, b) == 0 {
      RotationDistanceZeroOnlyIfRotation(a, b);
    }
  }

  // ---------------------------------------------------------------------------
  // The dynamic programs

  /** Column `c` of the matrix holds the edit distances of the prefixes of `x` against y[..c]. */
  ghost predicate ColumnHolds(matrix: array2<int>, x: seq<int>, y: seq<int>, c: nat)
    requires matrix.Length0 == |x| + 1 && matrix.Length1 == |y| + 1 && c <= |y|
    reads matrix
  {
    forall i {:trigger matrix[i, c]} :: 0 <= i <= |x| ==> matrix[i, c] == Lev(x, y, i, c)
  }

  /** One cell of the recurrence, from the three neighbouring values. */
  lemma LevCell(x: seq<int>, y: seq<int>, i: nat, j: nat, deletion: int, insertion: int, substitution: int)
    requires 0 < i <= |x| && 0 < j <= |y|
    requires deletion == Lev(x, y, i - 1, j) + 1 && insertion == Lev(x, y, i, j - 1) + 1
    requires substitution == Lev(x, y, i - 1, j - 1) + Cost(x[i - 1], y[j - 1])
    ensures Lev(x, y, i, j) == Min(Min(deletion, insertion), substitution)
  {
  }

  /**
   * Fills column `j` (rows 1 .. |x|) of the matrix from column j - 1, and
   * returns the smallest entry of the column (the source's `lowest_in_row`).
   */
  method FillColumn(matrix: array2<int>, x: seq<int>, y: seq<int>, j: nat) returns (lowestInRow: nat)
    requires matrix.Length0 == |x| + 1 && matrix.Length1 == |y| + 1 && 1 <= j <= |y|
    requires ColumnHolds(matrix, x, y, j - 1)
    requires matrix[0, j] == j
    modifies matrix
    ensures ColumnHolds(matrix, x, y, j)
    ensures forall k :: 0 <= k <= |y| ==> matrix[0, k] == old(matrix[0, k])
    ensures lowestInRow == ColumnMin(x, y, |x|, j)
  {
    var letterB := y[j - 1];
    lowestInRow := j;
    var i := 1;
    while i <= |x|
      invariant 1 <= i <= |x| + 1
      invariant ColumnHolds(matrix, x, y, j - 1)
      invariant forall r {:trigger matrix[r, j]} :: 0 <= r < i ==> matrix[r, j] == Lev(x, y, r, j)
      invariant forall k :: 0 <= k <= |y| ==> matrix[0, k] == old(matrix[0, k])
      invariant lowestInRow == ColumnMin(x, y, i - 1, j)
    {
      var letterA := x[i - 1];
      var cost := if letterA == letterB then 0 else 1;
      var deletion, insertion, substitution := matrix[i - 1, j] + 1, matrix[i, j - 1] + 1, matrix[i - 1, j - 1] + cost;
      LevCell(x, y, i, j, deletion, insertion, substitution);
      var cell := Min(Min(deletion, insertion), substitution);
      matrix[i, j] := cell;
      lowestInRow := Min(lowestInRow, cell);
      i := i + 1;
    }
  }

  /** Sets the first column to 0 .. |x| and the first row to 0 .. |y|. */
  method InitBorders(matrix: array2<int>, m: nat, n: nat)
    requires matrix.Length0 == m + 1 && matrix.Length1 == n + 1
    modifies matrix
    ensures forall i :: 0 <= i <= m ==> matrix[i, 0] == i
    ensures forall j :: 0 <= j <= n ==> matrix[0, j] == j
  {
    for i := 0 to m + 1
      invariant forall r :: 0 <= r < i ==> matrix[r, 0] == r
    {
      matrix[i, 0] := i;
    }
    for j := 0 to n + 1
      invariant forall r :: 0 <= r <= m ==> matrix[r, 0] == r
      invariant forall k :: 0 <= k < j ==> matrix[0, k] == k
    {
      matrix[0, j] := j;
    }
  }

  /** The source's `levenshtein_distance`. */
  method LevenshteinDistance(a: seq<int>, b: seq<int>) returns (d: nat)
    ensures d == EditDistance(a, b)
  {
    var m, n := |a|, |b|;
    var matrix := new int[m + 1, n + 1];
    InitBorders(matrix, m, n);
    for j := 1 to n + 1
      invariant ColumnHolds(matrix, a, b, j - 1)
      invariant forall k :: j <= k <= n ==> matrix[0, k] == k
    {
      var _ := FillColumn(matrix, a, b, j);
    }
    d := matrix[m, n];
  }

  /**
   * One rotation pair of the source's nested loops: the borders are reset and
   * the columns filled until one column is entirely at least `lowest`. Either
   * way the returned value is the smaller of `lowest` and the pair's distance.
   */
  method RotationPass(matrix: array2<int>, x: seq<int>, y: seq<int>, lowest: nat)
    returns (newLowest: nat, earlyExit: bool)
    requires matrix.Length0 == |x| + 1 && matrix.Length1 == |y| + 1
    modifies matrix
    ensures newLowest == Min(lowest, EditDistance(x, y))
    ensures earlyExit ==> newLowest == lowest
  {
    InitBorders(matrix, |x|, |y|);
    newLowest, earlyExit := lowest, false;
    var j := 1;
    while j <= |y|
      invariant 1 <= j <= |y| + 1
      invariant ColumnHolds(matrix, x, y, j - 1)
      invariant forall k :: j <= k <= |y| ==> matrix[0, k] == k
    {
      var lowestInRow := FillColumn(matrix, x, y, j);
      if lowestInRow >= lowest {
        EarlyExitSound(x, y, j);
        earlyExit := true;
        return;
      }
      j := j + 1;
    }
    newLowest := Min(matrix[|x|, |y|], lowest);
  }

  /** Stopping once `lowest` reaches |m - n| is sound: no rotation pair can do better. */
  lemma BailOutSound(a: seq<int>, b: seq<int>, i: nat, j: nat, lowest: nat)
    requires 0 < |a| && 0 < |b|
    requires i <= |a| && j <= |b| && (i < |a| || j == 0)
    requires lowest == PairsMin(a, b, i, j) && lowest == Gap(|a|, |b|)
    ensures lowest == RotationDistance(a, b)
  {
    RotationDistanceBelowProgress(a, b, i, j);
    RotationDistanceBounds(a, b);
  }

  /** The slice d[k .. k + |s|] of the doubled sequence `d`. */
  method Window(d: seq<int>, s: seq<int>, k: nat) returns (w: seq<int>)
    requires Doubled(d, s) && k <= |s|
    ensures w == Rotation(s, k)
  {
    DoubledWindow(d, s, k);
    w := d[k..k + |s|];
  }

  /** The inner loop's step: one more rotation pair, read from the doubled sequences. */
  lemma PairsMinNext(a: seq<int>, b: seq<int>, i: nat, j: nat)
    requires i < |a| && j < |b|
    ensures PairsMin(a, b, i, j + 1) == Min(PairsMin(a, b, i, j), EditDistance(Rotation(a, i), Rotation(b, j)))
  {
  }

  /** The outer loop's step: finishing row `i` is starting row i + 1. */
  lemma PairsMinNextRow(a: seq<int>, b: seq<int>, i: nat)
    requires i < |a|
    ensures PairsMin(a, b, i + 1, 0) == PairsMin(a, b, i, |b|)
  {
  }

  /**
   * The inner loop of the source's `levenshtein_distance_with_rotation`: every
   * rotation of `b` against the rotation of `a` starting at `aStart`. It returns
   * early, with the final answer, when the bail-out bound |m - n| is reached.
   */
  method RotationRow(matrix: array2<int>, a: seq<int>, b: seq<int>, aDouble: seq<int>, bDouble: seq<int>,
                     aStart: nat, lowest: nat)
    returns (newLowest: nat, finished: bool)
    requires 0 < |a| && 0 < |b| && aStart < |a|
    requires Doubled(aDouble, a) && Doubled(bDouble, b)
    requires matrix.Length0 == |a| + 1 && matrix.Length1 == |b| + 1
    requires lowest == PairsMin(a, b, aStart, 0)
    modifies matrix
    ensures finished ==> newLowest == RotationDistance(a, b)
    ensures !finished ==> newLowest == PairsMin(a, b, aStart, |b|)
  {
    var m, n := |a|, |b|;
    var minPossible := Gap(m, n);
    newLowest, finished := lowest, false;
    var bStart := 0;
    while bStart < n
      invariant 0 <= bStart <= n
      invariant newLowest == PairsMin(a, b, aStart, bStart)
    {
      PairsMinNext(a, b, aStart, bStart);
      var x := Window(aDouble, a, aStart);
      var y := Window(bDouble, b, bStart);
      var earlyExit;
      newLowest, earlyExit := RotationPass(matrix, x, y, newLowest);
      if !earlyExit && newLowest == minPossible {
        BailOutSound(a, b, aStart, bStart + 1, newLowest);
        finished := true;
        return;
      }
      bStart := bStart + 1;
    }
  }

  /** The source's `levenshtein_distance_with_rotation`. */
  method LevenshteinDistanceWithRotation(a: seq<int>, b: seq<int>) returns (d: nat)
    ensures d == RotationDistance(a, b)
  {
    var m, n := |a|, |b|;
    if m == 0 || n == 0 {
      return m + n;
    }
    var aDouble, bDouble := a + a, b + b;
    DoubledAppend(a);
    DoubledAppend(b);
    var lowest := m + n;
    var matrix := new int[m + 1, n + 1];
    var aStart := 0;
    while aStart < m
      invariant 0 <= aStart <= m
      invariant lowest == PairsMin(a, b, aStart, 0)
    {
      var finished;
      lowest, finished := RotationRow(matrix, a, b, aDouble, bDouble, aStart, lowest);
      if finished {
        return lowest;
      }
      PairsMinNextRow(a, b, aStart);
      aStart := aStart + 1;
    }
    d := lowest;
  }
}
