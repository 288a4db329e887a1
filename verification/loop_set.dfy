/**
 * The set of distinct feedback loops found in a diagram
 * (python/cld_analysis/loop_set.py): loops are stored in standard form,
 * duplicates (same representation) are stored once, `Finalize` orders them
 * by representation and renumbers them, distances are cached per id pair,
 * and `GetConceptsAndScores` computes each concept's greedy centrality score
 * (specified in module Scoring).
 *
 * Python iterates over sets in an unspecified order; the loops over `loops`
 * and over the concepts pick their next element with `:|`, so every
 * postcondition holds whatever order is taken.
 */
module LoopSets {
  import opened Wrappers
  import opened Models
  import opened Sequences
  import Scoring
  import Strings
  import Utils

  /** The cache key of `get_distance`: the two ids, smaller one first. */
  function PairKey(a: nat, b: nat): (k: (nat, nat))
    ensures k.0 <= k.1
    ensures (k.0 == a && k.1 == b) || (k.0 == b && k.1 == a)
  {
    if a <= b then (a, b) else (b, a)
  }

  lemma PairKeySymmetric(a: nat, b: nat)
    ensures PairKey(a, b) == PairKey(b, a)
  {
  }

  // ---------------------------------------------------------------------------
  // What `add_loop` stores

  /** The links of the stored copy: a loop is rotated to standard form. */
  function CanonicalLinks(links: seq<Link>): seq<Link>
  {
    if LoopShape(links) then StandardForm(links) else links
  }

  /** The representation `add_loop` compares: the copy's flags are recomputed from the links. */
  function CanonicalRep(links: seq<Link>): string
  {
    RepOf(CanonicalLinks(links), LoopShape(links), ClosedShape(links))
  }

  /** Every rotation of an elementary loop is stored as the same loop. */
  lemma CanonicalRepRotation(links: seq<Link>, k: nat)
    requires ChainedLoop(links) && DistinctSources(links) && k <= |links|
    ensures CanonicalLinks(Utils.Rotation(links, k)) == CanonicalLinks(links)
    ensures CanonicalRep(Utils.Rotation(links, k)) == CanonicalRep(links)
  {
    ChainedLoopShape(links, k);
    StandardFormOfRotation(links, k);
  }

  /** The stored copy of an elementary loop is an elementary loop with the same links, rotated. */
  lemma CanonicalLinksOfLoop(links: seq<Link>)
    requires ChainedLoop(links) && DistinctSources(links)
    ensures ChainedLoop(CanonicalLinks(links)) && DistinctSources(CanonicalLinks(links))
    ensures multiset(CanonicalLinks(links)) == multiset(links)
    ensures CanonicalLinks(links)[0].source.id <= links[0].source.id
  {
    ChainedLoopShape(links, 0);
    StandardFormPermutes(links);
    StandardFormStartsAtMin(links);
  }

  // ---------------------------------------------------------------------------
  // Lists of loops

  function ViewOf(s: Sequence): Scoring.View
    reads s
  {
    Scoring.View(s.links, s.isLoop)
  }

  /** What scoring reads of each loop of `list`. */
  function ViewsOf(list: seq<Sequence>): (r: seq<Scoring.View>)
    reads list
    ensures |r| == |list| && forall k :: 0 <= k < |list| ==> r[k] == ViewOf(list[k])
  {
    seq(|list|, k requires 0 <= k < |list| reads list => ViewOf(list[k]))
  }

  lemma ViewsOfWithout(list: seq<Sequence>, i: nat)
    requires i < |list|
    ensures ViewsOf(Scoring.Without(list, i)) == Scoring.Without(ViewsOf(list), i)
  {
    var a, b := ViewsOf(Scoring.Without(list, i)), Scoring.Without(ViewsOf(list), i);
    forall k | 0 <= k < |a|
      ensures a[k] == b[k]
    {
      if k < i {
        assert a[k] == ViewOf(list[k]);
      } else {
        assert a[k] == ViewOf(list[k + 1]);
      }
    }
  }

  lemma ViewsOfPrefix(list: seq<Sequence>, n: nat)
    requires n <= |list|
    ensures ViewsOf(list[..n]) == ViewsOf(list)[..n]
  {
    var a, b := ViewsOf(list[..n]), ViewsOf(list)[..n];
    forall k | 0 <= k < n
      ensures a[k] == b[k]
    {
      assert a[k] == ViewOf(list[k]);
    }
  }

  /** The loops of `list` that have `c` as a source, in list order. */
  function Containing(list: seq<Sequence>, c: Concept): (r: seq<Sequence>)
    reads list
    ensures |r| <= |list|
    ensures forall k :: 0 <= k < |r| ==> r[k] in list && HasSource(r[k].links, c.id)
    ensures forall k :: 0 <= k < |list| && HasSource(list[k].links, c.id) ==> list[k] in r
  {
    if |list| == 0 then []
    else
      var last := list[|list| - 1];
      Containing(list[..|list| - 1], c) + (if HasSource(last.links, c.id) then [last] else [])
  }

  /** Every element of `list` has a key. */
  predicate Keyed<T>(list: seq<T>, key: map<T, nat>)
  {
    forall k :: 0 <= k < |list| ==> list[k] in key
  }

  /** Largest key first. */
  predicate Descending<T>(list: seq<T>, key: map<T, nat>)
    requires Keyed(list, key)
  {
    forall i, j :: 0 <= i < j < |list| ==> key[list[i]] >= key[list[j]]
  }

  /** Insertion after every element with a key at least as large: what keeps the sort stable. */
  function InsertByKey<T>(x: T, sorted: seq<T>, key: map<T, nat>): (r: seq<T>)
    requires x in key && Keyed(sorted, key)
    ensures |r| == |sorted| + 1 && Keyed(r, key)
  {
    if |sorted| == 0 then [x]
    else if key[sorted[0]] >= key[x] then [sorted[0]] + InsertByKey(x, sorted[1..], key)
    else [x] + sorted
  }

  /** Insertion adds `x` and loses nothing. */
  lemma {:induction false} InsertByKeyPermutes<T>(x: T, sorted: seq<T>, key: map<T, nat>)
    requires x in key && Keyed(sorted, key)
    ensures multiset(InsertByKey(x, sorted, key)) == multiset(sorted) + multiset{x}
  {
    if |sorted| > 0 {
      assert sorted == [sorted[0]] + sorted[1..];
      if key[sorted[0]] >= key[x] {
        InsertByKeyPermutes(x, sorted[1..], key);
      }
    }
  }

  lemma {:induction false} InsertByKeyDescending<T>(x: T, sorted: seq<T>, key: map<T, nat>)
    requires x in key && Keyed(sorted, key) && Descending(sorted, key)
    ensures Descending(InsertByKey(x, sorted, key), key)
  {
    if |sorted| > 0 && key[sorted[0]] >= key[x] {
      var tail := sorted[1..];
      InsertByKeyDescending(x, tail, key);
      InsertByKeyPermutes(x, tail, key);
      var r := InsertByKey(x, sorted, key);
      var rest := InsertByKey(x, tail, key);
      assert r == [sorted[0]] + rest;
      forall j | 0 < j < |r|
        ensures key[r[0]] >= key[r[j]]
      {
        assert r[j] == rest[j - 1];
        assert r[j] in multiset(rest);
        if r[j] != x {
          assert r[j] in multiset(tail);
        }
      }
    }
  }

  /** Python's stable `sorted(list, key=..., reverse=True)`. */
  function SortByKey<T>(list: seq<T>, key: map<T, nat>): (r: seq<T>)
    requires Keyed(list, key)
    ensures |r| == |list| && Keyed(r, key) && Descending(r, key)
  {
    if |list| == 0 then []
    else
      var prefix := list[..|list| - 1];
      InsertByKeyDescending(list[|list| - 1], SortByKey(prefix, key), key);
      InsertByKey(list[|list| - 1], SortByKey(prefix, key), key)
  }

  /** The sort is a permutation. */
  lemma {:induction false} SortByKeyPermutes<T>(list: seq<T>, key: map<T, nat>)
    requires Keyed(list, key)
    ensures multiset(SortByKey(list, key)) == multiset(list)
  {
    if |list| > 0 {
      var prefix, last := list[..|list| - 1], list[|list| - 1];
      assert list == prefix + [last];
      SortByKeyPermutes(prefix, key);
      InsertByKeyPermutes(last, SortByKey(prefix, key), key);
    }
  }

  /** `[x]` when `x` has key `n`, otherwise nothing. */
  function Match<T>(x: T, key: map<T, nat>, n: nat): seq<T>
    requires x in key
  {
    if key[x] == n then [x] else []
  }

  /** The elements of `list` with key `n`, in list order. */
  function WithKey<T>(list: seq<T>, key: map<T, nat>, n: nat): seq<T>
    requires Keyed(list, key)
  {
    if |list| == 0 then [] else Match(list[0], key, n) + WithKey(list[1..], key, n)
  }

  lemma {:induction false} WithKeyAppend<T>(a: seq<T>, b: seq<T>, key: map<T, nat>, n: nat)
    requires Keyed(a, key) && Keyed(b, key)
    ensures Keyed(a + b, key)
    ensures WithKey(a + b, key, n) == WithKey(a, key, n) + WithKey(b, key, n)
  {
    if |a| == 0 {
      assert a + b == b;
    } else {
      var ab := a + b;
      assert ab[0] == a[0] && ab[1..] == a[1..] + b;
      WithKeyAppend(a[1..], b, key, n);
      assert WithKey(ab, key, n) == Match(a[0], key, n) + WithKey(a[1..] + b, key, n);
      assert WithKey(a, key, n) == Match(a[0], key, n) + WithKey(a[1..], key, n);
    }
  }

  lemma {:induction false} WithKeyNone<T>(list: seq<T>, key: map<T, nat>, n: nat)
    requires Keyed(list, key) && forall k :: 0 <= k < |list| ==> key[list[k]] < n
    ensures WithKey(list, key, n) == []
  {
    if |list| > 0 {
      WithKeyNone(list[1..], key, n);
    }
  }

  lemma {:induction false} InsertByKeyWithKey<T>(x: T, sorted: seq<T>, key: map<T, nat>, n: nat)
    requires x in key && Keyed(sorted, key) && Descending(sorted, key)
    ensures WithKey(InsertByKey(x, sorted, key), key, n) == WithKey(sorted, key, n) + Match(x, key, n)
  {
    var r := InsertByKey(x, sorted, key);
    if |sorted| == 0 {
      assert r == [x] && r[1..] == [];
    } else if key[sorted[0]] >= key[x] {
      var tail := sorted[1..];
      var rest := InsertByKey(x, tail, key);
      InsertByKeyWithKey(x, tail, key, n);
      assert r == [sorted[0]] + rest;
      assert r[0] == sorted[0] && r[1..] == rest;
      assert WithKey(r, key, n) == Match(sorted[0], key, n) + WithKey(rest, key, n);
      assert WithKey(sorted, key, n) == Match(sorted[0], key, n) + WithKey(tail, key, n);
    } else {
      assert r == [x] + sorted;
      assert r[0] == x && r[1..] == sorted;
      assert WithKey(r, key, n) == Match(x, key, n) + WithKey(sorted, key, n);
      if key[x] == n {
        WithKeyNone(sorted, key, n);
      }
    }
  }

  /** The sort is stable: the elements with equal keys keep their relative order. */
  lemma {:induction false} SortByKeyStable<T>(list: seq<T>, key: map<T, nat>, n: nat)
    requires Keyed(list, key)
    ensures WithKey(SortByKey(list, key), key, n) == WithKey(list, key, n)
  {
    if |list| > 0 {
      var prefix, last := list[..|list| - 1], list[|list| - 1];
      assert list == prefix + [last];
      SortByKeyStable(prefix, key, n);
      InsertByKeyWithKey(last, SortByKey(prefix, key), key, n);
      WithKeyAppend(prefix, [last], key, n);
      assert [last][1..] == [];
    }
  }

  // ---------------------------------------------------------------------------
  // The distance cache

  /** `s` is the loop registered under its own id. */
  predicate Registered(s: Sequence, byId: map<nat, Sequence>)
    reads s`id
  {
    s.id in byId && byId[s.id] == s
  }

  /** Every loop of `list` is registered under its own id. */
  predicate AllRegistered(list: seq<Sequence>, byId: map<nat, Sequence>)
    reads list
  {
    forall k :: 0 <= k < |list| ==> Registered(list[k], byId)
  }

  /** Every cached distance is the distance between the loops registered under those ids. */
  ghost predicate SoundCache(cache: map<(nat, nat), Dist>, byId: map<nat, Sequence>)
    reads byId.Values
  {
    forall k :: k in cache ==>
      k.0 in byId && k.1 in byId &&
      cache[k] == SeqDistance(byId[k.0].links, byId[k.0].isLoop, byId[k.1].links, byId[k.1].isLoop)
  }

  /**
   * The body of `get_distance` on a cache held as a value: the distance of
   * two registered loops, looked up under the ordered pair of their ids and
   * computed and stored when missing.
   */
  method CachedDistance(cache: map<(nat, nat), Dist>, ghost byId: map<nat, Sequence>, a: Sequence, b: Sequence)
    returns (d: Dist, cache': map<(nat, nat), Dist>)
    requires SoundCache(cache, byId) && Registered(a, byId) && Registered(b, byId)
    ensures SoundCache(cache', byId)
    ensures d == SeqDistance(a.links, a.isLoop, b.links, b.isLoop)
    ensures PairKey(a.id, b.id) in cache ==> cache' == cache
    ensures PairKey(a.id, b.id) !in cache ==> cache' == cache[PairKey(a.id, b.id) := d]
  {
    var key := PairKey(a.id, b.id);
    if key.0 != a.id {
      SeqDistanceSymmetric(a.links, a.isLoop, b.links, b.isLoop);
    }
    cache' := cache;
    if key !in cache {
      var dist := a.Distance(b);
      cache' := cache[key := dist];
    }
    d := cache'[key];
  }

  // ---------------------------------------------------------------------------
  // The loop set

  class LoopSet {
    var loops: set<Sequence>
    var loopsList: seq<Sequence>
    var distances: map<(nat, nat), Dist>
    /** The class-level id counter of `Sequence`, shared with every sequence created. */
    const counter: SequenceCounter
    /** Each stored loop under its id: ids identify stored loops. */
    ghost var byId: map<nat, Sequence>
    /** Each stored loop under its cached representation: representations identify stored loops. */
    ghost var byRep: map<string, Sequence>

    /**
     * Stored loops have distinct cached representations and distinct ids
     * below the counter; `loopsList` lists stored loops, each at its id.
     */
    ghost predicate Valid()
      reads this`loops, this`loopsList, this`byId, this`byRep, loops`representation, loops`id, loopsList`id, counter`next
    {
      Indexed() && Numbering() && Listed()
    }

    /** Stored loops hold distinct cached representations, and `byRep` indexes them by representation. */
    ghost predicate Indexed()
      reads this`loops, this`byRep, loops`representation
    {
      (forall a :: a in loops ==>
        a.representation.Some? && a.representation.value in byRep && byRep[a.representation.value] == a) &&
      (forall rep :: rep in byRep ==> byRep[rep] in loops && byRep[rep].representation == Some(rep))
    }

    /** Stored loops have distinct ids, all below the counter. */
    ghost predicate Numbering()
      reads this`loops, this`byId, loops`id, counter`next
    {
      (forall a :: a in loops ==> a.id < counter.next && Registered(a, byId)) &&
      (forall n :: n in byId ==> byId[n] in loops && byId[n].id == n) &&
      |loops| <= counter.next
    }

    /** `loopsList` lists stored loops, each numbered by its position (so without repetition). */
    ghost predicate Listed()
      reads this`loops, this`loopsList, loopsList`id
    {
      forall i :: 0 <= i < |loopsList| ==> loopsList[i] in loops && loopsList[i].id == i
    }

    /** Every cached distance is the distance between the stored loops with those ids. */
    ghost predicate CacheSound()
      reads this`distances, this`byId, byId.Values
    {
      SoundCache(distances, byId)
    }

    /** `LoopSet()`: no loops, no cached distances. */
    constructor (counter: SequenceCounter)
      ensures Valid() && CacheSound()
      ensures loops == {} && loopsList == [] && distances == map[] && this.counter == counter
    {
      loops, loopsList, distances := {}, [], map[];
      this.counter := counter;
      byId, byRep := map[], map[];
    }

    /** The source's `get_size`. */
    function Size(): (n: nat)
      reads this`loops
      ensures n == |loops|
    {
      |loops|
    }

    /**
     * The source's `add_loop`. A non-loop is refused. Otherwise a copy in
     * standard form is made (taking the next id), and the stored loop with
     * its representation is returned if there is one; if not, the copy is
     * stored and returned.
     */
    method AddLoop(toAdd: Sequence) returns (r: Option<Sequence>)
      requires Valid()
      modifies this`loops, this`byId, this`byRep, counter
      ensures Valid()
      ensures r == None <==> !toAdd.isLoop
      ensures !toAdd.isLoop ==> loops == old(loops) && counter.next == old(counter.next)
      ensures r.Some? ==> r.value in loops && r.value.representation == Some(CanonicalRep(toAdd.links))
      ensures r.Some? && HasRep(old(loops), CanonicalRep(toAdd.links)) ==>
                loops == old(loops) && r.value in old(loops) && byRep == old(byRep) &&
                CanonicalRep(toAdd.links) in old(byRep) && old(byRep)[CanonicalRep(toAdd.links)] == r.value
      ensures r.Some? && !HasRep(old(loops), CanonicalRep(toAdd.links)) ==>
                CanonicalRep(toAdd.links) !in old(byRep) &&
                fresh(r.value) && loops == old(loops) + {r.value} &&
                byRep == old(byRep)[CanonicalRep(toAdd.links) := r.value] &&
                r.value.links == CanonicalLinks(toAdd.links) && r.value.id == old(counter.next) &&
                (ChainedLoop(toAdd.links) ==> r.value.Initialized())
    {
      if !toAdd.isLoop {
        return None;
      }
      var loop, rep := StandardCopy(toAdd);
      r := FindByRep(rep);
      if r.None? {
        Store(loop, rep);
        r := Some(loop);
      }
    }

    /** `Sequence(copy_from=to_add)`, `rotate_to_standard` and `str(loop)`. */
    method StandardCopy(toAdd: Sequence) returns (loop: Sequence, rep: string)
      requires Valid() && toAdd.isLoop
      modifies counter
      ensures Valid()
      ensures fresh(loop) && counter.next == old(counter.next) + 1 && loop.id == old(counter.next)
      ensures loop.id !in byId && |loops| < counter.next
      ensures loop.links == CanonicalLinks(toAdd.links)
      ensures rep == CanonicalRep(toAdd.links) && loop.representation == Some(rep)
      ensures ChainedLoop(toAdd.links) ==> loop.Initialized()
    {
      loop := CopyToStandard(toAdd, counter);
      rep := loop.Str();
    }

    /** The duplicate search of `add_loop`: a stored loop whose `str()` is `rep`, if any. */
    method FindByRep(rep: string) returns (r: Option<Sequence>)
      requires Valid()
      ensures r.Some? ==> r.value in loops && r.value.representation == Some(rep)
      ensures r.None? ==> !HasRep(loops, rep)
    {
      var remaining := loops;
      while remaining != {}
        invariant remaining <= loops
        invariant forall e :: e in loops && e !in remaining ==> e.representation != Some(rep)
        decreases |remaining|
      {
        var existing :| existing in remaining;
        // `str(existing_loop)`: every stored loop holds its representation in the cache.
        if existing.representation.value == rep {
          return Some(existing);
        }
        remaining := remaining - {existing};
      }
      return None;
    }

    /** `self.loops.add(loop)` for a new loop whose representation is not stored yet. */
    method Store(loop: Sequence, ghost rep: string)
      requires Valid() && loop !in loops && loop.representation == Some(rep)
      requires !HasRep(loops, rep) && loop.id !in byId && loop.id < counter.next && |loops| < counter.next
      modifies this`loops, this`byId, this`byRep
      ensures Valid()
      ensures loops == old(loops) + {loop} && byId == old(byId)[loop.id := loop] && loop.id !in old(byId)
      ensures byRep == old(byRep)[rep := loop]
    {
      loops := loops + {loop};
      byId := byId[loop.id := loop];
      byRep := byRep[rep := loop];
      forall r | r in byRep
        ensures byRep[r] in loops && byRep[r].representation == Some(r)
      {
        if r != rep {
          assert byRep[r] == old(byRep)[r];
        }
      }
      forall a | a in loops
        ensures a.id < counter.next && Registered(a, byId)
        ensures a.representation.Some? && a.representation.value in byRep && byRep[a.representation.value] == a
      {
        if a != loop {
          assert a in old(loops);
        }
      }
    }

    /**
     * The source's `finalize`: `loopsList` becomes the stored loops in
     * increasing `str()` order, and each loop's id becomes its index. Cached
     * distances keep their old keys, so the cache is only known to be sound
     * if it is empty.
     */
    method Finalize()
      requires Valid()
      modifies this`loopsList, this`byId, loops`id
      ensures Valid()
      ensures |loopsList| == |loops| && forall s :: s in loops <==> s in loopsList
      ensures forall i, j {:trigger loopsList[i].LessThan(loopsList[j])} ::
                0 <= i < j < |loopsList| ==> loopsList[i].LessThan(loopsList[j])
      ensures forall i :: 0 <= i < |loopsList| ==> loopsList[i].id == i
      ensures distances == map[] ==> CacheSound()
    {
      var sorted := SortByRep();
      assert Indexed() && |sorted| <= counter.next;
      Renumber(sorted, loops);
      OrderedLessThan(sorted);
      loopsList := sorted;
      byId := map i | 0 <= i < |sorted| :: sorted[i];
      Numbered(sorted, loops);
      assert Indexed();
      forall a | a in loops
        ensures a.id < counter.next && Registered(a, byId)
      {
      }
    }

    /** The order `sorted` produces with `__lt__`: repeatedly the least remaining loop. */
    method SortByRep() returns (sorted: seq<Sequence>)
      requires Valid()
      ensures forall s :: s in sorted <==> s in loops
      ensures |sorted| == |loops|
      ensures OrderedByRep(sorted)
    {
      sorted := [];
      var remaining := loops;
      while remaining != {}
        invariant remaining <= loops && |sorted| + |remaining| == |loops|
        invariant forall s :: s in sorted <==> s in loops && s !in remaining
        invariant OrderedByRep(sorted)
        invariant forall i, s :: 0 <= i < |sorted| && s in remaining ==> Precedes(sorted[i], s)
        decreases |remaining|
      {
        sorted, remaining := TakeLeast(sorted, remaining);
      }
    }

    /** One step of the selection: the least remaining loop moves to the end of `sorted`. */
    method TakeLeast(sorted: seq<Sequence>, remaining: set<Sequence>) returns (sorted': seq<Sequence>, remaining': set<Sequence>)
      requires Valid() && remaining != {} && remaining <= loops
      requires OrderedByRep(sorted)
      requires forall i, s :: 0 <= i < |sorted| && s in remaining ==> Precedes(sorted[i], s)
      ensures exists least :: least in remaining && sorted' == sorted + [least] && remaining' == remaining - {least}
      ensures OrderedByRep(sorted')
      ensures forall i, s :: 0 <= i < |sorted'| && s in remaining' ==> Precedes(sorted'[i], s)
    {
      var least := MinByRep(remaining);
      sorted' := sorted + [least];
      remaining' := remaining - {least};
    }

    /** The loop of `candidates` whose representation is least. */
    method MinByRep(candidates: set<Sequence>) returns (least: Sequence)
      requires Valid() && candidates != {} && candidates <= loops
      ensures least in candidates
      ensures forall o :: o in candidates && o != least ==> Precedes(least, o)
    {
      least :| least in candidates;
      var rest := candidates - {least};
      while rest != {}
        invariant rest <= candidates && least in candidates && least !in rest
        invariant forall o :: o in candidates && o !in rest && o != least ==> Precedes(least, o)
        decreases |rest|
      {
        var o :| o in rest;
        var a, b := o.representation.value, least.representation.value;
        if Strings.LexLess(a, b) {
          forall p | p in candidates && p !in rest && p != least
            ensures Precedes(o, p)
          {
            Strings.LexLessTransitive(a, b, p.representation.value);
          }
          Strings.LexLessAsymmetric(a, b);
          least := o;
        } else {
          assert byRep[a] == o && byRep[b] == least;
          Strings.LexLessTotal(b, a);
        }
        rest := rest - {o};
      }
    }

    /** Each listed loop's size, the sort key of `loops_sorted_by_size`. */
    function SizeKey(): (key: map<Sequence, nat>)
      reads this`loopsList, loopsList
      ensures Keyed(loopsList, key)
      ensures forall s :: s in key ==> s in loopsList && key[s] == |s.links|
    {
      map s | s in loopsList :: |s.links|
    }

    /** The source's `loops_sorted_by_size`: `loopsList`, stably sorted by size, largest first. */
    function LoopsSortedBySize(): (r: seq<Sequence>)
      reads this`loopsList, loopsList
      ensures multiset(r) == multiset(loopsList)
      ensures forall i, j :: 0 <= i < j < |r| ==> |r[i].links| >= |r[j].links|
    {
      var key := SizeKey();
      SortByKeyPermutes(loopsList, key);
      var r := SortByKey(loopsList, key);
      assert forall k :: 0 <= k < |r| ==> r[k] in key;
      r
    }

    /** Loops of equal size keep their `loopsList` order. */
    lemma LoopsSortedBySizeStable(n: nat)
      ensures WithKey(LoopsSortedBySize(), SizeKey(), n) == WithKey(loopsList, SizeKey(), n)
    {
      SortByKeyStable(loopsList, SizeKey(), n);
    }

    /** The source's `loops_containing_link`: how many stored loops contain the link. */
    method LoopsContainingLink(source: Concept, target: Concept) returns (count: nat)
      ensures count == |set s | s in loops && ContainsLink(s.links, source, target)|
    {
      count := 0;
      var remaining := loops;
      ghost var counted: set<Sequence> := {};
      while remaining != {}
        invariant remaining <= loops
        invariant counted == set s | s in loops && s !in remaining && ContainsLink(s.links, source, target)
        invariant count == |counted|
        decreases |remaining|
      {
        var loop :| loop in remaining;
        if ContainsLink(loop.links, source, target) {
          count := count + 1;
          counted := counted + {loop};
        }
        remaining := remaining - {loop};
      }
      assert counted == set s | s in loops && ContainsLink(s.links, source, target);
    }

    /** The source's `loops_containing_concept`: how many stored loops have the concept as a source. */
    method LoopsContainingConcept(concept: Concept) returns (count: nat)
      ensures count == |set s | s in loops && HasSource(s.links, concept.id)|
    {
      count := 0;
      var remaining := loops;
      ghost var counted: set<Sequence> := {};
      while remaining != {}
        invariant remaining <= loops
        invariant counted == set s | s in loops && s !in remaining && HasSource(s.links, concept.id)
        invariant count == |counted|
        decreases |remaining|
      {
        var loop :| loop in remaining;
        if HasSource(loop.links, concept.id) {
          count := count + 1;
          counted := counted + {loop};
        }
        remaining := remaining - {loop};
      }
      assert counted == set s | s in loops && HasSource(s.links, concept.id);
    }

    /**
     * The source's `get_distance`: the distance of two stored loops, computed
     * once per id pair and cached under the ordered pair of ids.
     */
    method GetDistance(a: Sequence, b: Sequence) returns (d: Dist)
      requires Numbering() && CacheSound() && a in loops && b in loops
      modifies this`distances
      ensures CacheSound()
      ensures d == SeqDistance(a.links, a.isLoop, b.links, b.isLoop)
      ensures PairKey(a.id, b.id) in old(distances) ==> distances == old(distances)
      ensures PairKey(a.id, b.id) !in old(distances) ==> distances == old(distances)[PairKey(a.id, b.id) := d]
    {
      d, distances := CachedDistance(distances, byId, a, b);
    }

    /** The source's `get_all_concepts`: every concept of every stored loop. */
    method GetAllConcepts() returns (concepts: set<Concept>)
      ensures forall c :: c in concepts <==> exists s :: s in loops && c in AllConcepts(s.links)
    {
      concepts := {};
      var remaining := loops;
      while remaining != {}
        invariant remaining <= loops
        invariant forall c :: c in concepts <==> exists s :: s in loops && s !in remaining && c in AllConcepts(s.links)
        decreases |remaining|
      {
        var loop :| loop in remaining;
        concepts := concepts + AllConcepts(loop.links);
        remaining := remaining - {loop};
      }
    }

    /**
     * The source's `get_concepts_and_scores`: a concept that is a source in
     * at least two stored loops gets the greedy score of those loops, taken
     * in `LoopsSortedBySize` order; other concepts get no entry. The cache
     * is threaded through the scoring as a value and stored back at the end;
     * the scores are stated on the state before the call (only the cache
     * changes).
     */
    method GetConceptsAndScores() returns (scores: map<Concept, real>)
      requires Valid() && CacheSound()
      modifies this`distances
      ensures CacheSound()
      ensures forall c :: c in scores <==>
                old((exists s :: s in loops && c in AllConcepts(s.links)) && ExpectedScore(LoopsSortedBySize(), c).Some?)
      ensures forall c :: c in scores ==> old(ExpectedScore(LoopsSortedBySize(), c)) == Some(scores[c])
    {
      var bySize := LoopsSortedBySize();
      SizeOrderRegistered();
      var concepts := GetAllConcepts();
      var cache;
      scores, cache := ScoreAll(concepts, bySize, distances, byId);
      distances := cache;
    }

    /** Every loop in size order is a stored loop registered under its id. */
    lemma SizeOrderRegistered()
      requires Valid()
      ensures AllRegistered(LoopsSortedBySize(), byId)
    {
      var bySize := LoopsSortedBySize();
      forall k | 0 <= k < |bySize|
        ensures Registered(bySize[k], byId)
      {
        assert bySize[k] in multiset(loopsList);
      }
    }

    /** With every registered loop stored, the cache is sound exactly when it is sound for `byId`. */
    lemma CacheSoundIsSoundCache()
      requires Numbering()
      ensures CacheSound() <==> SoundCache(distances, byId)
    {
    }
  }

  /** The `for concept in all_concepts` loop of `get_concepts_and_scores`. */
  method ScoreAll(concepts: set<Concept>, bySize: seq<Sequence>, cache: map<(nat, nat), Dist>,
                  ghost byId: map<nat, Sequence>)
    returns (scores: map<Concept, real>, cache': map<(nat, nat), Dist>)
    requires SoundCache(cache, byId) && AllRegistered(bySize, byId)
    ensures SoundCache(cache', byId)
    ensures forall c :: c in scores <==> c in concepts && ExpectedScore(bySize, c).Some?
    ensures forall c :: c in scores ==> ExpectedScore(bySize, c) == Some(scores[c])
  {
    scores := map[];
    cache' := cache;
    var remaining := concepts;
    ghost var expected := map c | c in concepts :: ExpectedScore(bySize, c);
    while remaining != {}
      invariant remaining <= concepts
      invariant SoundCache(cache', byId)
      invariant forall c :: c in scores <==> c in concepts && c !in remaining && expected[c].Some?
      invariant forall c :: c in scores ==> expected[c] == Some(scores[c])
      decreases |remaining|
    {
      var concept :| concept in remaining;
      var numLoops, finalScore;
      numLoops, finalScore, cache' := ScoreConcept(concept, bySize, cache', byId);
      assert expected[concept] == if numLoops >= 2 then Some(finalScore) else None;
      if numLoops > 1 {
        scores := scores[concept := finalScore];
      }
      remaining := remaining - {concept};
    }
  }

  /** `Sequence(copy_from=to_add)` and `rotate_to_standard`, for a loop. */
  method CopyToStandard(toAdd: Sequence, counter: SequenceCounter) returns (loop: Sequence)
    requires toAdd.isLoop
    modifies counter
    ensures fresh(loop) && counter.next == old(counter.next) + 1 && loop.id == old(counter.next)
    ensures loop.links == CanonicalLinks(toAdd.links) && loop.representation == None
    ensures loop.Rep() == CanonicalRep(toAdd.links)
    ensures ChainedLoop(toAdd.links) ==> loop.Initialized()
  {
    loop := new Sequence.Copy(toAdd, counter);
    loop.RotateToStandard();
  }

  /** Some loop of `s` holds `rep` as its cached representation. */
  predicate HasRep(s: set<Sequence>, rep: string)
    reads s`representation
  {
    exists e :: e in s && e.representation == Some(rep)
  }

  /** `__lt__` on loops whose representation is cached: the cached strings in order. */
  predicate Precedes(a: Sequence, b: Sequence)
    reads a`representation, b`representation
  {
    a.representation.Some? && b.representation.Some? &&
    Strings.LexLess(a.representation.value, b.representation.value)
  }

  /** The loops of `list` in strictly increasing order of cached representation. */
  predicate OrderedByRep(list: seq<Sequence>)
    reads list`representation
  {
    forall i, j {:trigger Precedes(list[i], list[j])} :: 0 <= i < j < |list| ==> Precedes(list[i], list[j])
  }

  /** Loops ordered by their cached representations are ordered by `__lt__`. */
  lemma OrderedLessThan(list: seq<Sequence>)
    requires OrderedByRep(list)
    ensures forall i, j {:trigger list[i].LessThan(list[j])} :: 0 <= i < j < |list| ==> list[i].LessThan(list[j])
  {
    forall i, j | 0 <= i < j < |list|
      ensures list[i].LessThan(list[j])
    {
      assert Precedes(list[i], list[j]);
    }
  }

  /** `for idx, loop in enumerate(list): loop.id = idx`. */
  method Renumber(list: seq<Sequence>, ghost objects: set<Sequence>)
    requires forall i :: 0 <= i < |list| ==> list[i] in objects
    requires OrderedByRep(list)
    modifies objects`id
    ensures forall i :: 0 <= i < |list| ==> list[i].id == i
    ensures OrderedByRep(list)
  {
    for idx := 0 to |list|
      invariant OrderedByRep(list)
      invariant forall i :: 0 <= i < idx ==> list[i].id == i
    {
      forall i | 0 <= i < idx
        ensures list[i] != list[idx]
      {
        assert Precedes(list[i], list[idx]);
        if list[i] == list[idx] {
          Strings.LexLessIrreflexive(list[i].representation.value);
        }
      }
      list[idx].id := idx;
    }
  }

  /** Objects numbered by their position in a list of them are found at their id. */
  lemma Numbered(list: seq<Sequence>, objects: set<Sequence>)
    requires (set s | s in list) == objects
    requires forall i :: 0 <= i < |list| ==> list[i].id == i
    ensures forall a :: a in objects ==> a.id < |list| && list[a.id] == a
  {
    forall a | a in objects
      ensures a.id < |list| && list[a.id] == a
    {
      assert a in list;
    }
  }

  // ---------------------------------------------------------------------------
  // The scoring loop of `get_concepts_and_scores`

  /**
   * The score `get_concepts_and_scores` gives `c`: the greedy score of the
   * loops of `bySize` that have `c` as a source, if there are at least two.
   */
  ghost function ExpectedScore(bySize: seq<Sequence>, c: Concept): Option<real>
    reads bySize
  {
    var containing := Containing(bySize, c);
    if |containing| >= 2 then Some(Scoring.ConceptScore(ViewsOf(containing), Scoring.ViewDistance)) else None
  }

  /** The body of the per-concept loop: the loops containing the concept, and their score if there are two. */
  method ScoreConcept(concept: Concept, bySize: seq<Sequence>, cache: map<(nat, nat), Dist>, ghost byId: map<nat, Sequence>)
    returns (numLoops: nat, finalScore: real, cache': map<(nat, nat), Dist>)
    requires SoundCache(cache, byId) && AllRegistered(bySize, byId)
    ensures SoundCache(cache', byId)
    ensures numLoops == |Containing(bySize, concept)|
    ensures ExpectedScore(bySize, concept) == if numLoops >= 2 then Some(finalScore) else None
  {
    var sourceLoops := SourceLoops(concept, bySize);
    numLoops := |sourceLoops|;
    if numLoops <= 1 {
      return numLoops, 0.0, cache;
    }
    finalScore, cache' := GreedyScore(sourceLoops, cache, byId);
  }

  /** The filter loop of `get_concepts_and_scores`: the loops that have `concept` as a source. */
  method SourceLoops(concept: Concept, bySize: seq<Sequence>) returns (sourceLoops: seq<Sequence>)
    ensures sourceLoops == Containing(bySize, concept)
  {
    sourceLoops := [];
    for i := 0 to |bySize|
      invariant sourceLoops == Containing(bySize[..i], concept)
    {
      assert bySize[..i + 1] == bySize[..i] + [bySize[i]];
      if HasSource(bySize[i].links, concept.id) {
        sourceLoops := sourceLoops + [bySize[i]];
      }
    }
    assert bySize[..|bySize|] == bySize;
  }

  /**
   * The scoring of one concept's loops: the last one contributes its size,
   * then each loop picked in a round its size times its value.
   */
  method GreedyScore(sourceLoops: seq<Sequence>, cache: map<(nat, nat), Dist>, ghost byId: map<nat, Sequence>)
    returns (finalScore: real, cache': map<(nat, nat), Dist>)
    requires SoundCache(cache, byId) && AllRegistered(sourceLoops, byId) && |sourceLoops| >= 2
    ensures SoundCache(cache', byId)
    ensures finalScore == Scoring.ConceptScore(ViewsOf(sourceLoops), Scoring.ViewDistance)
  {
    ghost var target := Scoring.ConceptScore(ViewsOf(sourceLoops), Scoring.ViewDistance);
    var n := |sourceLoops|;
    var lastAdded := sourceLoops[n - 1];
    var pending := sourceLoops[..n - 1];
    var values := Scoring.Ones(n - 1);
    finalScore := |lastAdded.links| as real;
    ViewsOfPrefix(sourceLoops, n - 1);
    cache' := cache;
    while |pending| > 0
      invariant |values| == |pending|
      invariant Registered(lastAdded, byId) && AllRegistered(pending, byId)
      invariant SoundCache(cache', byId)
      invariant finalScore + Scoring.Greedy(ViewsOf(pending), values, ViewOf(lastAdded), Scoring.ViewDistance) == target
      decreases |pending|
    {
      var pending', values', last', contribution;
      pending', values', last', contribution, cache' := ScoreRound(pending, values, lastAdded, cache', byId);
      pending, values, lastAdded := pending', values', last';
      finalScore := finalScore + contribution;
    }
  }

  /**
   * One round of the `while source_loops` loop: the values updated against
   * the loop scored last, then `ScoreNext`. The contribution is what the
   * greedy score gains in this round.
   */
  method ScoreRound(pending: seq<Sequence>, values: seq<real>, last: Sequence,
                    cache: map<(nat, nat), Dist>, ghost byId: map<nat, Sequence>)
    returns (pending': seq<Sequence>, values': seq<real>, last': Sequence, contribution: real,
             cache': map<(nat, nat), Dist>)
    requires SoundCache(cache, byId) && Registered(last, byId) && AllRegistered(pending, byId)
    requires |values| == |pending| && |pending| > 0
    ensures SoundCache(cache', byId)
    ensures |values'| == |pending'| == |pending| - 1
    ensures Registered(last', byId) && AllRegistered(pending', byId)
    ensures contribution + Scoring.Greedy(ViewsOf(pending'), values', ViewOf(last'), Scoring.ViewDistance) ==
            Scoring.Greedy(ViewsOf(pending), values, ViewOf(last), Scoring.ViewDistance)
  {
    var updated;
    updated, cache' := UpdateScores(pending, values, last, cache, byId);
    pending', values', last', contribution := ScoreNext(pending, values, last, updated);
    Scoring.RoundGreedy(ViewsOf(pending), values, ViewOf(last), Scoring.ViewDistance,
                        ViewsOf(pending'), values', ViewOf(last'), contribution);
  }

  /** The update loop: each remaining value lowered to its distance to `last` when that is smaller. */
  method UpdateScores(pending: seq<Sequence>, values: seq<real>, last: Sequence,
                      cache: map<(nat, nat), Dist>, ghost byId: map<nat, Sequence>)
    returns (updated: seq<real>, cache': map<(nat, nat), Dist>)
    requires SoundCache(cache, byId) && Registered(last, byId) && AllRegistered(pending, byId)
    requires |values| == |pending|
    ensures SoundCache(cache', byId)
    ensures updated == Scoring.UpdateAll(ViewsOf(pending), values, ViewOf(last), Scoring.ViewDistance)
  {
    updated := values;
    cache' := cache;
    for i := 0 to |pending|
      invariant SoundCache(cache', byId) && |updated| == |values|
      invariant forall k :: 0 <= k < i ==>
                  updated[k] == Scoring.Lowered(values[k], Scoring.ViewDistance(ViewOf(pending[k]), ViewOf(last)))
      invariant forall k :: i <= k < |values| ==> updated[k] == values[k]
    {
      var dist;
      dist, cache' := CachedDistance(cache', byId, pending[i], last);
      if dist.Finite? && dist.value < updated[i] {
        updated := updated[i := dist.value];
      }
    }
  }

  /**
   * The rest of one round of the `while source_loops` loop, once the values
   * are updated against the loop scored last: pop the first loop of least
   * value and return its contribution, size times value.
   */
  method ScoreNext(pending: seq<Sequence>, values: seq<real>, last: Sequence, updated: seq<real>)
    returns (pending': seq<Sequence>, values': seq<real>, last': Sequence, contribution: real)
    requires |values| == |pending| && |pending| > 0
    requires updated == Scoring.UpdateAll(ViewsOf(pending), values, ViewOf(last), Scoring.ViewDistance)
    ensures |values'| == |pending'| == |pending| - 1
    ensures last' in pending && forall k :: 0 <= k < |pending'| ==> pending'[k] in pending
    ensures Scoring.Round(ViewsOf(pending), values, ViewOf(last), Scoring.ViewDistance,
                          ViewsOf(pending'), values', ViewOf(last'), contribution)
  {
    var minIdx := NearestIndex(updated);
    last' := pending[minIdx];
    contribution := (|last'.links| as real) * updated[minIdx];
    pending' := Scoring.Without(pending, minIdx);
    values' := Scoring.Without(updated, minIdx);
    ViewsOfWithout(pending, minIdx);
    assert ViewsOf(pending)[minIdx] == ViewOf(last');
    Scoring.RoundAt(ViewsOf(pending), values, ViewOf(last), Scoring.ViewDistance, updated, minIdx, contribution);
  }

  /** `score < min_score` where `min_score` starts as infinity. */
  predicate Below(v: real, bound: Dist)
  {
    bound.Infinite? || v < bound.value
  }

  /** The argmin loop of `get_concepts_and_scores`: the first index of a smallest value. */
  method NearestIndex(values: seq<real>) returns (minIdx: nat)
    requires |values| > 0
    ensures minIdx == Scoring.FirstMin(values)
  {
    minIdx := 0;
    var minScore := Infinite;
    for i := 0 to |values|
      invariant i == 0 ==> minIdx == 0 && minScore == Infinite
      invariant i > 0 ==> minIdx == Scoring.FirstMin(values[..i]) && minScore == Finite(values[minIdx])
    {
      assert values[..i + 1][..i] == values[..i];
      if Below(values[i], minScore) {
        minScore := Finite(values[i]);
        minIdx := i;
      }
    }
    assert values[..|values|] == values;
  }
}
