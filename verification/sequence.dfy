/**
 * Paths and loops of links (python/cld_analysis/sequence.py).
 *
 * A sequence is a list of links with three derived fields: whether the last
 * target is the source of some link (closed), whether it is the source of the
 * first link (loop), and the number of negative links. The pure functions
 * over `seq<Link>` below are the queries; the class `Sequence` holds the
 * fields the source updates in place.
 *
 * Concepts are compared by id, as Python's `Concept.__eq__` does.
 */
module Sequences {
  import opened Wrappers
  import opened Models
  import Utils
  import Strings

  // ---------------------------------------------------------------------------
  // Queries over a list of links

  /** The source's `_index_of_source_with_concept`: first index whose source has `id`, or -1. */
  function SourceIndex(links: seq<Link>, id: nat): (i: int)
    ensures -1 <= i < |links|
    ensures 0 <= i ==> links[i].source.id == id
    ensures forall k :: 0 <= k < |links| && (i == -1 || k < i) ==> links[k].source.id != id
  {
    if |links| == 0 then -1
    else
      var r := SourceIndex(links[..|links| - 1], id);
      if r >= 0 then r
      else if links[|links| - 1].source.id == id then |links| - 1
      else -1
  }

  /** The source's `has_source`. */
  function HasSource(links: seq<Link>, id: nat): (r: bool)
    ensures r <==> exists k :: 0 <= k < |links| && links[k].source.id == id
  {
    SourceIndex(links, id) != -1
  }

  /** The influences of the links, in order. */
  function Influences(links: seq<Link>): (r: seq<Influence>)
    ensures |r| == |links| && forall k :: 0 <= k < |links| ==> r[k] == links[k].influence
  {
    seq(|links|, k requires 0 <= k < |links| => links[k].influence)
  }

  /** The source's `_set_count_negative_influences`. */
  function CountNegative(links: seq<Link>): (n: nat)
    ensures n <= |links|
  {
    if |links| == 0 then 0
    else CountNegative(links[..|links| - 1]) + (if links[|links| - 1].influence == Decreases then 1 else 0)
  }

  /** The count is the number of DECREASES links, whatever their positions. */
  lemma {:induction false} CountNegativeIsCount(links: seq<Link>)
    ensures CountNegative(links) == multiset(Influences(links))[Decreases]
  {
    if |links| > 0 {
      var front := links[..|links| - 1];
      CountNegativeIsCount(front);
      assert Influences(links) == Influences(front) + [links[|links| - 1].influence];
    }
  }

  /** The source's `get_sequence_as_ints`: the source ids of the links. */
  function AsInts(links: seq<Link>): (r: seq<int>)
    ensures |r| == |links| && forall k :: 0 <= k < |links| ==> r[k] == links[k].source.id
  {
    seq(|links|, k requires 0 <= k < |links| => links[k].source.id)
  }

  /** The closed flag `_detect_closed_loop` computes: the last target is some link's source. */
  function ClosedShape(links: seq<Link>): (r: bool)
    ensures r <==> |links| > 0 && HasSource(links, links[|links| - 1].target.id)
  {
    |links| > 0 && SourceIndex(links, links[|links| - 1].target.id) != -1
  }

  /** The loop flag `_detect_closed_loop` computes: the first index with that source is 0. */
  function LoopShape(links: seq<Link>): (r: bool)
    ensures r <==> |links| > 0 && links[0].source.id == links[|links| - 1].target.id
    ensures r ==> ClosedShape(links)
  {
    |links| > 0 && SourceIndex(links, links[|links| - 1].target.id) == 0
  }

  /** The source's `contains_link`: some link goes from `source` to `target` (by id). */
  function ContainsLink(links: seq<Link>, source: Concept, target: Concept): (r: bool)
    ensures r <==> exists k :: 0 <= k < |links| && links[k].source.id == source.id && links[k].target.id == target.id
  {
    if |links| == 0 then false
    else
      var last := links[|links| - 1];
      ContainsLink(links[..|links| - 1], source, target) || (last.source.id == source.id && last.target.id == target.id)
  }

  /** The source's `get_all_concepts`: every source and the last target. */
  function AllConcepts(links: seq<Link>): (r: set<Concept>)
    ensures forall k :: 0 <= k < |links| ==> links[k].source in r
    ensures |links| > 0 ==> links[|links| - 1].target in r
    ensures forall c :: c in r ==> HasSource(links, c.id) || (|links| > 0 && c == links[|links| - 1].target)
  {
    (set k | 0 <= k < |links| :: links[k].source) + (if |links| > 0 then {links[|links| - 1].target} else {})
  }

  // ---------------------------------------------------------------------------
  // Chained and elementary loops: what the loop search produces

  /** Each link's target is the next link's source. */
  predicate Chained(links: seq<Link>)
  {
    forall i :: 0 <= i < |links| - 1 ==> links[i].target.id == links[i + 1].source.id
  }

  /** A chained, non-empty list whose last target is its first source. */
  predicate ChainedLoop(links: seq<Link>)
  {
    |links| > 0 && Chained(links) && links[|links| - 1].target.id == links[0].source.id
  }

  /** No concept is the source of two links. */
  predicate DistinctSources(links: seq<Link>)
  {
    forall i, j :: 0 <= i < j < |links| ==> links[i].source.id != links[j].source.id
  }

  /** Rotating a chained loop gives a chained loop. */
  lemma ChainedLoopRotation(links: seq<Link>, k: nat)
    requires ChainedLoop(links) && k <= |links|
    ensures ChainedLoop(Utils.Rotation(links, k))
  {
    var n := |links|;
    var r := Utils.Rotation(links, k);
    Utils.RotationIndex(links, k);
    forall i | 0 <= i < n - 1
      ensures r[i].target.id == r[i + 1].source.id
    {
      if k + i + 1 == n {
        assert r[i] == links[n - 1] && r[i + 1] == links[0];
      }
    }
    if k == 0 || k == n {
      Utils.RotationTrivial(links, k);
    } else {
      assert r[n - 1] == links[k - 1] && r[0] == links[k];
    }
  }

  /** Rotating keeps the sources pairwise distinct. */
  lemma DistinctSourcesRotation(links: seq<Link>, k: nat)
    requires DistinctSources(links) && k <= |links|
    ensures DistinctSources(Utils.Rotation(links, k))
  {
    var n := |links|;
    var r := Utils.Rotation(links, k);
    Utils.RotationIndex(links, k);
    forall i, j | 0 <= i < j < n
      ensures r[i].source.id != r[j].source.id
    {
      var p := if k + i < n then k + i else k + i - n;
      var q := if k + j < n then k + j else k + j - n;
      assert r[i] == links[p] && r[j] == links[q] && p != q;
    }
  }

  /** In a chained loop the derived flags say "loop", and so does any rotation of it. */
  lemma ChainedLoopShape(links: seq<Link>, k: nat)
    requires ChainedLoop(links) && k <= |links|
    ensures LoopShape(links) && ClosedShape(links)
    ensures LoopShape(Utils.Rotation(links, k)) && ClosedShape(Utils.Rotation(links, k))
    ensures CountNegative(Utils.Rotation(links, k)) == CountNegative(links)
  {
    ChainedLoopRotation(links, k);
    CountNegativeRotation(links, k);
  }

  /** Rotation does not change the number of negative links. */
  lemma CountNegativeRotation(links: seq<Link>, k: nat)
    requires k <= |links|
    ensures CountNegative(Utils.Rotation(links, k)) == CountNegative(links)
  {
    CountNegativeIsCount(links);
    CountNegativeIsCount(Utils.Rotation(links, k));
    InfluencesRotation(links, k);
    Utils.RotationMultiset(Influences(links), k);
  }

  /** The influences of a rotated list are the rotated influences. */
  lemma InfluencesRotation(links: seq<Link>, k: nat)
    requires k <= |links|
    ensures Influences(Utils.Rotation(links, k)) == Utils.Rotation(Influences(links), k)
  {
    Utils.RotationIndex(links, k);
    Utils.RotationIndex(Influences(links), k);
  }

  /** Rotation does not change which concepts are sources, nor which links are present. */
  lemma QueriesRotation(links: seq<Link>, k: nat, id: nat, source: Concept, target: Concept)
    requires k <= |links|
    ensures HasSource(Utils.Rotation(links, k), id) == HasSource(links, id)
    ensures ContainsLink(Utils.Rotation(links, k), source, target) == ContainsLink(links, source, target)
  {
    var n := |links|;
    var r := Utils.Rotation(links, k);
    Utils.RotationIndex(links, k);
    forall t | 0 <= t < n
      ensures exists u :: 0 <= u < n && r[u] == links[t]
    {
      var u := if t >= k then t - k else t + n - k;
      assert r[u] == links[t];
    }
  }

  /** The ids of a rotated list are the rotated ids. */
  lemma AsIntsRotation(links: seq<Link>, k: nat)
    requires k <= |links|
    ensures AsInts(Utils.Rotation(links, k)) == Utils.Rotation(AsInts(links), k)
  {
    Utils.RotationIndex(links, k);
    Utils.RotationIndex(AsInts(links), k);
  }

  /** In a chained loop the last target is a source, so the concepts are exactly the sources. */
  lemma AllConceptsOfLoop(links: seq<Link>, c: Concept)
    requires ChainedLoop(links)
    ensures c in AllConcepts(links) ==> HasSource(links, c.id)
  {
  }

  // ---------------------------------------------------------------------------
  // Canonical rotation

  /** The index `min(links, key=source id)` picks: the first link with the smallest source id. */
  function MinSourceIndex(links: seq<Link>): (r: nat)
    requires |links| > 0
    ensures r < |links|
    ensures forall k :: 0 <= k < |links| ==> links[r].source.id <= links[k].source.id
    ensures forall k :: 0 <= k < r ==> links[r].source.id < links[k].source.id
  {
    if |links| == 1 then 0
    else
      var r := MinSourceIndex(links[..|links| - 1]);
      if links[|links| - 1].source.id < links[r].source.id then |links| - 1 else r
  }

  /** The first index holding the smallest id is where `rotate_to_concept` stops. */
  lemma MinSourceIndexIsSourceIndex(links: seq<Link>)
    requires |links| > 0
    ensures SourceIndex(links, links[MinSourceIndex(links)].source.id) == MinSourceIndex(links)
  {
  }

  /** What `rotate_to_standard` makes of the links of a loop. */
  function StandardForm(links: seq<Link>): (r: seq<Link>)
    ensures |r| == |links|
  {
    if |links| == 0 then links else Utils.Rotation(links, MinSourceIndex(links))
  }

  /** After `rotate_to_standard` the first source has the smallest id of all sources. */
  lemma StandardFormStartsAtMin(links: seq<Link>)
    requires |links| > 0
    ensures forall k :: 0 <= k < |links| ==> StandardForm(links)[0].source.id <= links[k].source.id
  {
    Utils.RotationIndex(links, MinSourceIndex(links));
  }

  /** The first smallest source of a rotated elementary loop is the original one, shifted. */
  lemma MinSourceIndexRotation(links: seq<Link>, k: nat)
    requires DistinctSources(links) && k < |links|
    ensures var r := MinSourceIndex(Utils.Rotation(links, k));
            (if k + r < |links| then k + r else k + r - |links|) == MinSourceIndex(links)
  {
    var n := |links|;
    var rotated := Utils.Rotation(links, k);
    var m := MinSourceIndex(links);
    var r := MinSourceIndex(rotated);
    var t := if m >= k then m - k else m + n - k;
    var j := if k + r < n then k + r else k + r - n;
    RotationAt(links, k, t);
    RotationAt(links, k, r);
    assert rotated[r].source.id <= rotated[t].source.id;
    assert links[m].source.id <= links[j].source.id;
    SameSourceSameIndex(links, j, m);
  }

  /** In a list with distinct sources, a source id occurs at one index only. */
  lemma SameSourceSameIndex(links: seq<Link>, i: nat, j: nat)
    requires DistinctSources(links) && i < |links| && j < |links|
    requires links[i].source.id == links[j].source.id
    ensures i == j
  {
  }

  /** One element of a rotation. */
  lemma RotationAt<T>(s: seq<T>, k: nat, t: nat)
    requires k <= |s| && t < |s|
    ensures Utils.Rotation(s, k)[t] == if k + t < |s| then s[k + t] else s[k + t - |s|]
  {
  }

  /**
   * Every rotation of a loop whose sources are distinct has the same standard
   * form, so storing loops in standard form identifies rotations of one loop.
   */
  lemma StandardFormOfRotation(links: seq<Link>, k: nat)
    requires DistinctSources(links) && k <= |links|
    ensures StandardForm(Utils.Rotation(links, k)) == StandardForm(links)
  {
    var n := |links|;
    if k == n {
      Utils.RotationTrivial(links, k);
      return;
    }
    var rotated := Utils.Rotation(links, k);
    var r := MinSourceIndex(rotated);
    var m := MinSourceIndex(links);
    MinSourceIndexRotation(links, k);
    Utils.RotationRotation(links, k, r);
    var c := Utils.AddOffsets(k, r, n);
    assert Utils.Rotation(rotated, r) == Utils.Rotation(links, c);
    if c == n {
      assert m == 0;
      Utils.RotationTrivial(links, n);
      Utils.RotationTrivial(links, 0);
    } else {
      assert c == m;
    }
  }

  /** The standard form of an elementary loop is again a rotation with the same links. */
  lemma StandardFormPermutes(links: seq<Link>)
    ensures multiset(StandardForm(links)) == multiset(links)
    ensures DistinctSources(links) ==> DistinctSources(StandardForm(links))
    ensures ChainedLoop(links) ==> ChainedLoop(StandardForm(links))
  {
    if |links| > 0 {
      var m := MinSourceIndex(links);
      Utils.RotationMultiset(links, m);
      if DistinctSources(links) {
        DistinctSourcesRotation(links, m);
      }
      if ChainedLoop(links) {
        ChainedLoopRotation(links, m);
      }
    }
  }

  // ---------------------------------------------------------------------------
  // The short representation `__str__` builds, and what it determines

  function Symbol(influence: Influence): char
  {
    if influence == Increases then '+' else '-'
  }

  /** A link's target id, braced when the link closes the sequence. */
  function TargetText(link: Link, braced: bool): string
  {
    if braced then "{" + Strings.NatToString(link.target.id) + "}" else Strings.NatToString(link.target.id)
  }

  /** One link of the representation: its sign and its target. */
  function Piece(link: Link, braced: bool): string
  {
    [Symbol(link.influence)] + TargetText(link, braced)
  }

  function Body(links: seq<Link>, isClosed: bool): string
  {
    if |links| == 0 then "" else Piece(links[0], isClosed && |links| == 1) + Body(links[1..], isClosed)
  }

  function Prefix(isLoop: bool, isClosed: bool): string
  {
    if isLoop then "LOOP: " else if isClosed then "CLOSED: " else "SEQUENCE: "
  }

  /** Everything after the prefix: "<EMPTY>", or the first source id and the body. */
  function Tail(links: seq<Link>, isClosed: bool): string
  {
    if |links| == 0 then "<EMPTY>" else Strings.NatToString(links[0].source.id) + Body(links, isClosed)
  }

  /** The source's `_create_short_representation`. */
  function RepOf(links: seq<Link>, isLoop: bool, isClosed: bool): string
  {
    Prefix(isLoop, isClosed) + Tail(links, isClosed)
  }

  /** The tail starts with '<' exactly when there are no links. */
  lemma TailStart(links: seq<Link>, isClosed: bool)
    ensures var t := Tail(links, isClosed); |t| > 0 && (t[0] == '<' <==> |links| == 0)
  {
    if |links| > 0 {
      var d := Strings.NatToString(links[0].source.id);
      assert Tail(links, isClosed)[0] == d[0];
    }
  }

  /** What the representation records of a link besides the first source: its sign and target id. */
  datatype Step = Step(influence: Influence, target: nat)

  function Steps(links: seq<Link>): (r: seq<Step>)
    ensures |r| == |links| && forall k :: 0 <= k < |links| ==> r[k] == Step(links[k].influence, links[k].target.id)
  {
    seq(|links|, k requires 0 <= k < |links| => Step(links[k].influence, links[k].target.id))
  }

  /** A decimal rendering followed by something that does not start with a digit can be split in one way only. */
  lemma DigitsPrefix(a: nat, b: nat, s: string, t: string)
    requires |s| == 0 || !Strings.IsDigit(s[0])
    requires |t| == 0 || !Strings.IsDigit(t[0])
    requires Strings.NatToString(a) + s == Strings.NatToString(b) + t
    ensures a == b && s == t
  {
    var x, y := Strings.NatToString(a), Strings.NatToString(b);
    assert x == (x + s)[..|x|] && y == (y + t)[..|y|];
    Strings.NatToStringInjective(a, b);
    assert s == (x + s)[|x|..] && t == (y + t)[|y|..];
  }

  /** A non-empty body starts with a sign, and is at least two characters long. */
  lemma BodyStart(links: seq<Link>, isClosed: bool)
    requires |links| > 0
    ensures var b := Body(links, isClosed); |b| >= 2 && b[0] == Symbol(links[0].influence)
  {
  }

  /** A non-empty body is a sign, the first target, and the body of the remaining links. */
  lemma BodyHead(links: seq<Link>, isClosed: bool)
    requires |links| > 0
    ensures var b, r := Body(links, isClosed), Body(links[1..], isClosed);
            |b| >= 2 && b[0] == Symbol(links[0].influence) &&
            b[1..] == TargetText(links[0], isClosed && |links| == 1) + r &&
            (|r| == 0 || !Strings.IsDigit(r[0])) &&
            (isClosed && |links| == 1 ==> r == [])
  {
    if |links| > 1 {
      BodyStart(links[1..], isClosed);
    }
  }

  /** A target text followed by the rest of a body can be split in one way only. */
  lemma TargetTextInjective(a: Link, braceA: bool, restA: string, b: Link, braceB: bool, restB: string)
    requires |restA| == 0 || !Strings.IsDigit(restA[0])
    requires |restB| == 0 || !Strings.IsDigit(restB[0])
    requires braceA ==> restA == []
    requires braceB ==> restB == []
    requires TargetText(a, braceA) + restA == TargetText(b, braceB) + restB
    ensures braceA == braceB && a.target.id == b.target.id && restA == restB
  {
    var da, db := Strings.NatToString(a.target.id), Strings.NatToString(b.target.id);
    var ta, tb := TargetText(a, braceA), TargetText(b, braceB);
    assert (ta + restA)[0] == ta[0] && (tb + restB)[0] == tb[0];
    if braceA && braceB {
      assert ta + restA == ta && tb + restB == tb;
      assert ta == tb;
      assert da + "}" == ta[1..] && db + "}" == tb[1..];
      DigitsPrefix(a.target.id, b.target.id, "}", "}");
    } else if !braceA && !braceB {
      DigitsPrefix(a.target.id, b.target.id, restA, restB);
    }
  }

  /** The body determines the sign and target of every link, and whether the last one is braced. */
  lemma {:induction false} BodyInjective(l1: seq<Link>, c1: bool, l2: seq<Link>, c2: bool)
    requires Body(l1, c1) == Body(l2, c2)
    ensures Steps(l1) == Steps(l2)
    ensures |l1| > 0 ==> c1 == c2
    decreases |l1|
  {
    if |l1| == 0 || |l2| == 0 {
      if |l1| > 0 {
        BodyStart(l1, c1);
      } else if |l2| > 0 {
        BodyStart(l2, c2);
      }
      return;
    }
    var b1, b2 := c1 && |l1| == 1, c2 && |l2| == 1;
    var r1, r2 := Body(l1[1..], c1), Body(l2[1..], c2);
    BodyHead(l1, c1);
    BodyHead(l2, c2);
    assert Symbol(l1[0].influence) == Symbol(l2[0].influence);
    TargetTextInjective(l1[0], b1, r1, l2[0], b2, r2);
    BodyInjective(l1[1..], c1, l2[1..], c2);
    assert Steps(l1) == [Step(l1[0].influence, l1[0].target.id)] + Steps(l1[1..]);
    assert Steps(l2) == [Step(l2[0].influence, l2[0].target.id)] + Steps(l2[1..]);
  }

  /**
   * Equal representations mean equal flags (the closed flag only where the
   * representation shows it), equal first source id and equal signs and
   * target ids, link by link.
   */
  lemma RepInjective(l1: seq<Link>, loop1: bool, closed1: bool, l2: seq<Link>, loop2: bool, closed2: bool)
    requires RepOf(l1, loop1, closed1) == RepOf(l2, loop2, closed2)
    ensures loop1 == loop2 && (!loop1 ==> closed1 == closed2)
    ensures Steps(l1) == Steps(l2)
    ensures |l1| > 0 ==> l1[0].source.id == l2[0].source.id && closed1 == closed2
  {
    var p1, p2 := Prefix(loop1, closed1), Prefix(loop2, closed2);
    var s1, s2 := Tail(l1, closed1), Tail(l2, closed2);
    assert (p1 + s1)[0] == p1[0] && (p2 + s2)[0] == p2[0];
    assert p1 == p2;
    assert s1 == (p1 + s1)[|p1|..] && s2 == (p2 + s2)[|p2|..];
    TailStart(l1, closed1);
    TailStart(l2, closed2);
    if |l1| > 0 {
      BodyStart(l1, closed1);
      BodyStart(l2, closed2);
      DigitsPrefix(l1[0].source.id, l2[0].source.id, Body(l1, closed1), Body(l2, closed2));
      BodyInjective(l1, closed1, l2, closed2);
    }
  }

  /** For chained lists the first source and the steps fix every link (up to concept names). */
  lemma {:induction false} ChainedSteps(l1: seq<Link>, l2: seq<Link>)
    requires Chained(l1) && Chained(l2) && |l1| > 0
    requires Steps(l1) == Steps(l2) && l1[0].source.id == l2[0].source.id
    ensures |l1| == |l2| && forall k :: 0 <= k < |l1| ==> SameLink(l1[k], l2[k])
  {
    forall k | 0 <= k < |l1|
      ensures SameLink(l1[k], l2[k])
    {
      if k > 0 {
        assert Steps(l1)[k - 1] == Steps(l2)[k - 1];
      }
      assert Steps(l1)[k] == Steps(l2)[k];
    }
  }

  /** The representation reads ids only: link lists equal up to concept names have equal representations. */
  lemma {:induction false} RepOfSameLinks(l1: seq<Link>, l2: seq<Link>, isLoop: bool, isClosed: bool)
    requires |l1| == |l2| && forall k :: 0 <= k < |l1| ==> SameLink(l1[k], l2[k])
    ensures Body(l1, isClosed) == Body(l2, isClosed)
    ensures RepOf(l1, isLoop, isClosed) == RepOf(l2, isLoop, isClosed)
    decreases |l1|
  {
    if |l1| > 0 {
      assert SameLink(l1[0], l2[0]);
      RepOfSameLinks(l1[1..], l2[1..], isLoop, isClosed);
    }
  }

  // ---------------------------------------------------------------------------
  // Type, polarity and distance

  datatype SequenceType = Open | Closed | ReinforcingLoop | BalancingLoop

  /** The product of the +1/-1 cell values of the links: the loop's sign. */
  function SignProduct(links: seq<Link>): int
  {
    if |links| == 0 then 1 else SignProduct(links[..|links| - 1]) * CellValue(links[|links| - 1].influence)
  }

  /** An odd number of negative links is exactly a negative sign product. */
  lemma {:induction false} SignProductParity(links: seq<Link>)
    ensures SignProduct(links) == if CountNegative(links) % 2 == 1 then -1 else 1
  {
    if |links| > 0 {
      SignProductParity(links[..|links| - 1]);
    }
  }

  /** The distance between two sequences; `Infinite` is the source's `float('inf')`. */
  datatype Dist = Finite(value: real) | Infinite

  /** The source's `Sequence.distance` on the links and loop flags of two sequences. */
  function SeqDistance(a: seq<Link>, aLoop: bool, b: seq<Link>, bLoop: bool): Dist
  {
    if !aLoop || !bLoop || |a| == 0 || |b| == 0 then Infinite
    else Finite((Utils.RotationDistance(AsInts(a), AsInts(b)) as real) / ((|a| + |b|) as real))
  }

  /** The distance is infinite exactly off loops, and otherwise lies in [0, 1]. */
  lemma SeqDistanceRange(a: seq<Link>, aLoop: bool, b: seq<Link>, bLoop: bool)
    ensures SeqDistance(a, aLoop, b, bLoop).Infinite? <==> !aLoop || !bLoop || |a| == 0 || |b| == 0
    ensures SeqDistance(a, aLoop, b, bLoop).Finite? ==>
              0.0 <= SeqDistance(a, aLoop, b, bLoop).value <= 1.0
  {
    if aLoop && bLoop && |a| > 0 && |b| > 0 {
      Utils.RotationDistanceBounds(AsInts(a), AsInts(b));
      FractionBounds(Utils.RotationDistance(AsInts(a), AsInts(b)) as real, (|a| + |b|) as real);
    }
  }

  lemma FractionBounds(x: real, y: real)
    requires 0.0 <= x <= y && 0.0 < y
    ensures 0.0 <= x / y <= 1.0
  {
    assert x / y * y == x;
  }

  lemma SeqDistanceSymmetric(a: seq<Link>, aLoop: bool, b: seq<Link>, bLoop: bool)
    ensures SeqDistance(a, aLoop, b, bLoop) == SeqDistance(b, bLoop, a, aLoop)
  {
    Utils.RotationDistanceSymmetric(AsInts(a), AsInts(b));
  }

  /** Rotating either sequence beforehand does not change the distance. */
  lemma SeqDistanceRotation(a: seq<Link>, aLoop: bool, b: seq<Link>, bLoop: bool, j: nat, k: nat)
    requires j <= |a| && k <= |b|
    ensures SeqDistance(Utils.Rotation(a, j), aLoop, Utils.Rotation(b, k), bLoop) == SeqDistance(a, aLoop, b, bLoop)
  {
    AsIntsRotation(a, j);
    AsIntsRotation(b, k);
    Utils.RotationDistanceRotateFirst(AsInts(a), Utils.Rotation(AsInts(b), k), j);
    Utils.RotationDistanceRotateSecond(AsInts(a), AsInts(b), k);
  }

  /** Two non-empty loops are at distance 0 exactly when one's source ids are a rotation of the other's. */
  lemma SeqDistanceZero(a: seq<Link>, b: seq<Link>)
    requires |a| > 0 && |b| > 0
    ensures SeqDistance(a, true, b, true) == Finite(0.0) <==>
              exists k: nat :: k <= |a| && AsInts(b) == Utils.Rotation(AsInts(a), k)
  {
    Utils.RotationDistanceZero(AsInts(a), AsInts(b));
  }

  // ---------------------------------------------------------------------------
  // The objects

  /** The source's class-level `Sequence._id_counter`. */
  class SequenceCounter {
    var next: nat

    constructor ()
      ensures next == 0
    {
      next := 0;
    }
  }

  class Sequence {
    var links: seq<Link>
    var id: nat
    var isLoop: bool
    var isClosed: bool
    var countNegative: nat
    /** The source's `_representation`: the string `str()` computed last, cleared by `_init`. */
    var representation: Option<string>

    /** The derived fields agree with the links, as `_init` leaves them. */
    ghost predicate Initialized()
      reads this
    {
      countNegative == CountNegative(links) && isClosed == ClosedShape(links) && isLoop == LoopShape(links)
    }

    /** `Sequence()` (with `ls` empty) and `Sequence(links=ls)`: a copy of the list and a fresh id. */
    constructor (ls: seq<Link>, counter: SequenceCounter)
      modifies counter
      ensures links == ls && Initialized() && representation == None
      ensures id == old(counter.next) && counter.next == old(counter.next) + 1
    {
      links := ls;
      id := counter.next;
      isLoop, isClosed, countNegative, representation := false, false, 0, None;
      new;
      counter.next := counter.next + 1;
      Init();
    }

    /** `Sequence(copy_from=other)`: the same links, flags recomputed, a fresh id. */
    constructor Copy(other: Sequence, counter: SequenceCounter)
      modifies counter
      ensures links == other.links && Initialized() && representation == None
      ensures id == old(counter.next) && counter.next == old(counter.next) + 1
    {
      links := other.links;
      id := counter.next;
      isLoop, isClosed, countNegative, representation := false, false, 0, None;
      new;
      counter.next := counter.next + 1;
      Init();
    }

    /**
     * The source's `_init`: the negative count and the closed and loop flags,
     * from the links; the cached representation is cleared.
     */
    method Init()
      modifies this`isLoop, this`isClosed, this`countNegative, this`representation
      ensures Initialized() && representation == None
    {
      representation := None;
      countNegative := CountNegative(links);
      if |links| == 0 {
        isClosed, isLoop := false, false;
        return;
      }
      var idx := SourceIndex(links, links[|links| - 1].target.id);
      isClosed := idx != -1;
      isLoop := idx == 0;
    }

    /** The source's `add_link`: refused on a closed sequence, appended otherwise. */
    method AddLink(link: Link) returns (added: bool)
      modifies this`links, this`isLoop, this`isClosed, this`countNegative, this`representation
      ensures added <==> !old(isClosed)
      ensures !added ==> links == old(links) && isLoop == old(isLoop) && isClosed == old(isClosed) &&
                         countNegative == old(countNegative) && representation == old(representation)
      ensures added ==> links == old(links) + [link] && Initialized() && representation == None
    {
      if isClosed {
        return false;
      }
      links := links + [link];
      Init();
      return true;
    }

    /**
     * The source's `rotate`: on a non-empty loop the first link moves to the end.
     * The flags and the cached representation stay as they are.
     */
    method Rotate()
      modifies this`links
      ensures isLoop && |old(links)| > 0 ==> links == Utils.Rotation(old(links), 1)
      ensures !(isLoop && |old(links)| > 0) ==> links == old(links)
      ensures multiset(links) == multiset(old(links))
      ensures old(Initialized()) && ChainedLoop(old(links)) ==> Initialized() && ChainedLoop(links)
    {
      if !isLoop || |links| == 0 {
        return;
      }
      ghost var before := links;
      links := links[1..] + [links[0]];
      assert links == Utils.Rotation(before, 1);
      Utils.RotationMultiset(before, 1);
      if ChainedLoop(before) {
        ChainedLoopShape(before, 1);
      }
    }

    /**
     * The source's `rotate_to_concept`: on a loop with `concept` as a source,
     * rotate until it is the first source. (A loop with that source is never
     * empty, so the source's separate emptiness check has no case of its own.)
     */
    method RotateToConcept(concept: Concept)
      modifies this`links
      ensures var k := SourceIndex(old(links), concept.id);
              links == if isLoop && k >= 0 then Utils.Rotation(old(links), k) else old(links)
      ensures isLoop && HasSource(old(links), concept.id) ==> links[0].source.id == concept.id
      ensures old(Initialized()) && ChainedLoop(old(links)) ==> Initialized() && ChainedLoop(links)
    {
      if !isLoop {
        return;
      }
      var k := SourceIndex(links, concept.id);
      if k == -1 {
        return;
      }
      ghost var original := links;
      RotateUntil(concept, k);
      RotationAt(original, k, 0);
      if ChainedLoop(original) {
        ChainedLoopShape(original, k);
        ChainedLoopRotation(original, k);
      }
    }

    /** The `while` loop of `rotate_to_concept`: `rotate` until the first source is `concept`. */
    method RotateUntil(concept: Concept, ghost k: nat)
      requires isLoop && k < |links| && links[k].source.id == concept.id
      requires forall j :: 0 <= j < k ==> links[j].source.id != concept.id
      modifies this`links
      ensures links == Utils.Rotation(old(links), k)
    {
      ghost var original := links;
      ghost var done: nat := 0;
      Utils.RotationTrivial(original, 0);
      while links[0].source.id != concept.id
        invariant done <= k && links == Utils.Rotation(original, done)
        decreases k - done
      {
        RotationAt(original, done, 0);
        Rotate();
        Utils.RotationRotation(original, done, 1);
        done := done + 1;
      }
      RotationAt(original, done, 0);
    }

    /** The source's `rotate_to_standard`: a non-empty loop is rotated to its smallest source id. */
    method RotateToStandard()
      modifies this`links
      ensures links == if isLoop && |old(links)| > 0 then StandardForm(old(links)) else old(links)
      ensures old(Initialized()) && ChainedLoop(old(links)) ==> Initialized() && ChainedLoop(links)
    {
      if !isLoop || |links| == 0 {
        return;
      }
      var lowest := links[MinSourceIndex(links)].source;
      MinSourceIndexIsSourceIndex(links);
      RotateToConcept(lowest);
    }

    /** The source's `get_size`. */
    function Size(): nat
      reads this
    {
      |links|
    }

    /** The source's `get_type`. */
    function GetType(): (t: SequenceType)
      reads this
      ensures t == Open <==> !isClosed
      ensures t == Closed <==> isClosed && !isLoop
      ensures t == BalancingLoop <==> isClosed && isLoop && countNegative % 2 == 1
      ensures t == ReinforcingLoop <==> isClosed && isLoop && countNegative % 2 == 0
    {
      if !isClosed then Open
      else if !isLoop then Closed
      else if countNegative % 2 == 1 then BalancingLoop
      else ReinforcingLoop
    }

    /** The source's `get_polarity`. */
    function GetPolarity(): (p: Polarity)
      reads this
      ensures p == Negative <==> countNegative % 2 == 1
    {
      if countNegative % 2 == 1 then Negative else Positive
    }

    /** The source's `_create_short_representation`, from the current links and flags. */
    function Rep(): string
      reads this`links, this`isLoop, this`isClosed
    {
      RepOf(links, isLoop, isClosed)
    }

    /** What `str()` returns: the cached representation, or a fresh one when none is cached. */
    function Shown(): string
      reads this`representation, this`links, this`isLoop, this`isClosed
    {
      if representation.Some? then representation.value else Rep()
    }

    /** The cached representation, if any, is the one the current links give. */
    ghost predicate CacheCurrent()
      reads this`representation, this`links, this`isLoop, this`isClosed
    {
      representation.None? || representation.value == Rep()
    }

    /** The source's `__str__`: the cached representation, computed and cached on first use. */
    method Str() returns (s: string)
      modifies this`representation
      ensures s == old(Shown()) && representation == Some(s)
      ensures old(CacheCurrent()) ==> s == Rep()
    {
      if representation.None? {
        representation := Some(Rep());
      }
      s := representation.value;
    }

    /** The source's `__eq__`: same size and the same `str()`. */
    predicate SameAs(other: Sequence)
      reads this`links, this`isLoop, this`isClosed, this`representation
      reads other`links, other`isLoop, other`isClosed, other`representation
    {
      |links| == |other.links| && Shown() == other.Shown()
    }

    /** The source's `__lt__`: the `str()` values in string order. */
    predicate LessThan(other: Sequence)
      reads this`links, this`isLoop, this`isClosed, this`representation
      reads other`links, other`isLoop, other`isClosed, other`representation
    {
      Strings.LexLess(Shown(), other.Shown())
    }

    /** The source's `distance`. */
    method Distance(other: Sequence) returns (d: Dist)
      ensures d == SeqDistance(links, isLoop, other.links, other.isLoop)
    {
      if !isLoop || !other.isLoop {
        return Infinite;
      }
      if |links| == 0 || |other.links| == 0 {
        return Infinite;
      }
      var a := AsInts(links);
      var b := AsInts(other.links);
      var lev := Utils.LevenshteinDistanceWithRotation(a, b);
      var denominator := |a| + |b|;
      return Finite((lev as real) / (denominator as real));
    }
  }

  /** An initialised sequence's type and polarity, stated on its links. */
  lemma TypeOfInitialized(s: Sequence)
    requires s.Initialized()
    ensures s.GetType() == Open <==> !ClosedShape(s.links)
    ensures s.GetType() in {ReinforcingLoop, BalancingLoop} <==> LoopShape(s.links)
    ensures s.GetType() == BalancingLoop <==> LoopShape(s.links) && s.GetPolarity() == Negative
    ensures s.GetPolarity() == Negative <==> SignProduct(s.links) == -1
    ensures s.GetPolarity() == Negative <==> multiset(Influences(s.links))[Decreases] % 2 == 1
  {
    SignProductParity(s.links);
    CountNegativeIsCount(s.links);
  }

  /** `__eq__` on chained sequences is equality of the links by id and of the flags. */
  lemma SameAsChained(a: Sequence, b: Sequence)
    requires a.Initialized() && b.Initialized() && Chained(a.links) && Chained(b.links)
    requires a.CacheCurrent() && b.CacheCurrent()
    ensures a.SameAs(b) <==> a.isLoop == b.isLoop && a.isClosed == b.isClosed && |a.links| == |b.links| &&
                             forall k :: 0 <= k < |a.links| ==> SameLink(a.links[k], b.links[k])
  {
    if a.SameAs(b) {
      RepInjective(a.links, a.isLoop, a.isClosed, b.links, b.isLoop, b.isClosed);
      if |a.links| > 0 {
        ChainedSteps(a.links, b.links);
      }
    }
    if |a.links| == |b.links| && forall k :: 0 <= k < |a.links| ==> SameLink(a.links[k], b.links[k]) {
      RepOfSameLinks(a.links, b.links, a.isLoop, a.isClosed);
    }
  }
}
