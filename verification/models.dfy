/**
 * The data model of a causal loop diagram (python/cld_analysis/models.py):
 * the sign of an influence, concepts handed out by a get-or-create registry
 * with a running id counter, and signed links between concepts.
 *
 * Python compares and hashes concepts by id alone. The network keys its
 * nodes and links by concept id; the concept sets and score maps of a loop
 * set hold whole concepts, which for concepts of one registry is the same
 * (`SameConceptInRegistry`).
 */
module Models {
  import opened Wrappers

  datatype Influence = Increases | Decreases

  /** The polarity of a feedback loop: Positive is reinforcing, Negative balancing. */
  datatype Polarity = Positive | Negative

  const InvalidPolarityMessage: string := "Invalid polarity value: 0. Must be +1 or -1."

  /** The source's `Influence.from_polarity`: the sign of the value; zero is an error. */
  function FromPolarity(polarity: int): (r: Result<Influence>)
    ensures r.Failure? <==> polarity == 0
    ensures polarity == 0 ==> r == Failure(InvalidPolarityMessage)
    ensures r == Success(Increases) <==> polarity > 0
    ensures r == Success(Decreases) <==> polarity < 0
  {
    if polarity > 0 then Success(Increases)
    else if polarity < 0 then Success(Decreases)
    else Failure(InvalidPolarityMessage)
  }

  /** The matrix cell value (+1 or -1) that encodes an influence. */
  function CellValue(influence: Influence): int
  {
    if influence == Increases then 1 else -1
  }

  /** Reading back the encoded cell gives the influence again. */
  lemma FromPolarityCellValue(influence: Influence)
    ensures FromPolarity(CellValue(influence)) == Success(influence)
  {
  }

  datatype Concept = Concept(name: string, id: nat)

  /** Python's `Concept.__eq__`: concepts are the same when their ids are. */
  predicate SameConcept(a: Concept, b: Concept)
  {
    a.id == b.id
  }

  datatype Link = Link(source: Concept, influence: Influence, target: Concept)

  /** Python's `Link.__eq__`: same source id, same influence, same target id. */
  predicate SameLink(a: Link, b: Link)
  {
    a.source.id == b.source.id && a.influence == b.influence && a.target.id == b.target.id
  }

  /**
   * The class-level state behind `Concept`: the name-to-concept dictionary
   * (in insertion order) and the id counter. The ghost set `requested` records
   * every name asked for since the last reset.
   */
  class ConceptRegistry {
    var instances: map<string, Concept>
    var order: seq<string>
    var nextId: nat
    ghost var requested: set<string>

    ghost predicate Valid()
      reads this
    {
      instances.Keys == requested &&
      (forall n :: n in instances ==> instances[n].name == n && instances[n].id < nextId) &&
      (forall n, m :: n in instances && m in instances && n != m ==> instances[n].id != instances[m].id) &&
      Distinct(order) && (set n | n in order) == instances.Keys
    }

    constructor()
      ensures Valid() && instances == map[] && order == [] && nextId == 0 && requested == {}
    {
      instances, order, nextId := map[], [], 0;
      requested := {};
    }

    /** `Concept(name)`: a new concept takes the current id and the counter moves on. */
    method NewConcept(name: string) returns (c: Concept)
      requires Valid()
      modifies this`nextId
      ensures Valid()
      ensures c == Concept(name, old(nextId)) && nextId == old(nextId) + 1
    {
      c := Concept(name, nextId);
      nextId := nextId + 1;
    }

    /** `Concept.get_concept`: the registered concept for `name`, created on first request. */
    method GetConcept(name: string) returns (c: Concept)
      requires Valid()
      modifies this
      ensures Valid()
      ensures c.name == name && name in instances && instances[name] == c
      ensures requested == old(requested) + {name}
      ensures name in old(instances) ==>
                c == old(instances)[name] && instances == old(instances) && order == old(order) &&
                nextId == old(nextId)
      ensures name !in old(instances) ==>
                c == Concept(name, old(nextId)) && instances == old(instances)[name := c] &&
                order == old(order) + [name] && nextId == old(nextId) + 1
    {
      if name !in instances {
        var created := NewConcept(name);
        instances := instances[name := created];
        order := order + [name];
        requested := requested + {name};
        assert (set n | n in order) == old((set n | n in order)) + {name};
      }
      c := instances[name];
    }

    /** `Concept.reset`: forget every concept and restart the ids at 0. */
    method Reset()
      modifies this
      ensures Valid() && instances == map[] && order == [] && nextId == 0 && requested == {}
    {
      instances, order, nextId := map[], [], 0;
      requested := {};
    }

    /** `Concept.get_all`: the registered concepts in insertion order. */
    function GetAll(): (all: seq<Concept>)
      requires Valid()
      reads this
      ensures |all| == |requested|
      ensures forall i :: 0 <= i < |all| ==> all[i].name in requested && instances[all[i].name] == all[i]
      ensures forall i, j :: 0 <= i < j < |all| ==> all[i].name != all[j].name
      ensures forall n :: n in requested ==> exists i :: 0 <= i < |all| && all[i].name == n
    {
      ListingOf(order, instances.Keys);
      Lookup(instances, order)
    }
  }

  /** No element of `s` occurs twice. */
  predicate Distinct<T(==)>(s: seq<T>)
  {
    forall i, j :: 0 <= i < j < |s| ==> s[i] != s[j]
  }

  /** A duplicate-free listing of a set is as long as the set and reaches each of its elements. */
  lemma ListingOf<T>(order: seq<T>, keys: set<T>)
    requires Distinct(order) && (set n | n in order) == keys
    ensures |keys| == |order|
    ensures forall i :: 0 <= i < |order| ==> order[i] in keys
    ensures forall n :: n in keys ==> exists i :: 0 <= i < |order| && order[i] == n
  {
    DistinctLength(order);
    forall n | n in keys ensures exists i :: 0 <= i < |order| && order[i] == n {
      assert n in (set n | n in order);
    }
  }

  /** The values stored under `names`, in that order. */
  function Lookup<K, V>(m: map<K, V>, names: seq<K>): (r: seq<V>)
    requires forall n :: n in names ==> n in m
    ensures |r| == |names| && forall i :: 0 <= i < |names| ==> r[i] == m[names[i]]
  {
    if names == [] then [] else [m[names[0]]] + Lookup(m, names[1..])
  }

  /** A sequence without repeated elements is as long as the set of its elements is large. */
  lemma {:induction false} DistinctLength<T>(s: seq<T>)
    requires Distinct(s)
    ensures |set x | x in s| == |s|
  {
    if s != [] {
      var t := s[..|s| - 1];
      DistinctLength(t);
      assert (set x | x in s) == (set x | x in t) + {s[|s| - 1]};
      assert s[|s| - 1] !in (set x | x in t);
    }
  }

  /** Within one registry, concepts are the same exactly when they are equal. */
  lemma SameConceptInRegistry(r: ConceptRegistry, a: string, b: string)
    requires r.Valid() && a in r.instances && b in r.instances
    ensures SameConcept(r.instances[a], r.instances[b]) <==> r.instances[a] == r.instances[b]
  {
  }

  /** For concepts of one registry, link equality by ids is datatype equality. */
  lemma SameLinkInRegistry(r: ConceptRegistry, a: Link, b: Link)
    requires r.Valid()
    requires a.source in r.instances.Values && a.target in r.instances.Values
    requires b.source in r.instances.Values && b.target in r.instances.Values
    ensures SameLink(a, b) <==> a == b
  {
    if SameLink(a, b) {
      var n1 :| n1 in r.instances && r.instances[n1] == a.source;
      var m1 :| m1 in r.instances && r.instances[m1] == b.source;
      var n2 :| n2 in r.instances && r.instances[n2] == a.target;
      var m2 :| m2 in r.instances && r.instances[m2] == b.target;
      SameConceptInRegistry(r, n1, m1);
      SameConceptInRegistry(r, n2, m2);
    }
  }
}
