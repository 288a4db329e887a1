/**
 * The diagram network and the loop search (python/cld_analysis/network.py):
 * a node per concept with its outward and inward links, pruning of sources
 * and sinks until none remain, and a depth-first search that hands every
 * loop it closes to a `LoopSet`.
 *
 * Python keys `nodes`, `outward_links` and `inward_links` by `Concept`,
 * which hashes and compares by id, so the maps here are keyed by concept id.
 * Dictionary iteration order is not relied on: the loops over nodes and
 * links pick their next element with `:|`.
 */
module Networks {
  import opened Wrappers
  import opened Models
  import opened Sequences
  import opened LoopSets

  // ---------------------------------------------------------------------------
  // Networks as values

  /** For each node id, its links keyed by the id at the other end. */
  type Adjacency = map<int, map<int, Link>>

  /**
   * `outs` and `ins` describe one network: both have the same nodes, every
   * outward link is the matching inward link of its target, and every inward
   * link is the matching outward link of its source.
   */
  predicate Mirrored(outs: Adjacency, ins: Adjacency)
  {
    outs.Keys == ins.Keys && OutsMirrored(outs, ins) && InsMirrored(outs, ins)
  }

  /** Every outward link of `s` to `t` goes from `s` to a node `t`, and it is the inward link of `t` from `s`. */
  predicate OutsMirrored(outs: Adjacency, ins: Adjacency)
  {
    forall s, t {:trigger outs[s][t]} :: s in outs && t in outs[s] ==>
      t in ins && outs[s][t].source.id == s && outs[s][t].target.id == t && s in ins[t] && ins[t][s] == outs[s][t]
  }

  /** Every inward link of `t` from `s` is the outward link of a node `s` to `t`. */
  predicate InsMirrored(outs: Adjacency, ins: Adjacency)
  {
    forall t, s {:trigger ins[t][s]} :: t in ins && s in ins[t] ==> s in outs && t in outs[s] && outs[s][t] == ins[t][s]
  }

  /** The links of `m` whose other end is in `keep`. */
  function Restrict(m: map<int, Link>, keep: set<int>): (r: map<int, Link>)
    ensures r.Keys == m.Keys * keep
    ensures forall t :: t in r ==> r[t] == m[t]
  {
    map t | t in m && t in keep :: m[t]
  }

  /** The sub-network on the nodes `keep`: the other nodes and every link touching them are dropped. */
  function Induced(adj: Adjacency, keep: set<int>): (r: Adjacency)
    ensures r.Keys == adj.Keys * keep
    ensures forall id :: id in r ==> r[id] == Restrict(adj[id], keep)
  {
    map id | id in adj && id in keep :: Restrict(adj[id], keep)
  }

  /** `sub` keeps some nodes and some links of `adj`, each unchanged. */
  predicate SubNetwork(sub: Adjacency, adj: Adjacency)
  {
    forall id :: id in sub ==> id in adj && forall t :: t in sub[id] ==> t in adj[id] && sub[id][t] == adj[id][t]
  }

  /** `link` is the outward link of its source to its target in `adj`. */
  predicate InNetwork(adj: Adjacency, link: Link)
  {
    link.source.id in adj && link.target.id in adj[link.source.id] && adj[link.source.id][link.target.id] == link
  }

  /** The nodes with no outward or no inward link. */
  function SourcesAndSinks(outs: Adjacency, ins: Adjacency): (r: set<int>)
    ensures forall id :: id in r <==> id in outs && id in ins && (|outs[id]| == 0 || |ins[id]| == 0)
  {
    set id | id in outs && id in ins && (|outs[id]| == 0 || |ins[id]| == 0)
  }

  /** Dropping nodes from a mirrored pair leaves a mirrored pair. */
  lemma InducedMirrored(outs: Adjacency, ins: Adjacency, keep: set<int>)
    requires Mirrored(outs, ins)
    ensures Mirrored(Induced(outs, keep), Induced(ins, keep))
  {
    InducedOutsMirrored(outs, ins, keep);
    InducedInsMirrored(outs, ins, keep);
  }

  lemma InducedOutsMirrored(outs: Adjacency, ins: Adjacency, keep: set<int>)
    requires OutsMirrored(outs, ins)
    ensures OutsMirrored(Induced(outs, keep), Induced(ins, keep))
  {
    var o: Adjacency, i: Adjacency := Induced(outs, keep), Induced(ins, keep);
    forall s: int, t: int {:trigger o[s][t]} | s in o && t in o[s]
      ensures t in i && o[s][t].source.id == s && o[s][t].target.id == t && s in i[t] && i[t][s] == o[s][t]
    {
      assert t in outs[s] && t in keep;
    }
  }

  lemma InducedInsMirrored(outs: Adjacency, ins: Adjacency, keep: set<int>)
    requires InsMirrored(outs, ins)
    ensures InsMirrored(Induced(outs, keep), Induced(ins, keep))
  {
    var o: Adjacency, i: Adjacency := Induced(outs, keep), Induced(ins, keep);
    forall t: int, s: int {:trigger i[t][s]} | t in i && s in i[t]
      ensures s in o && t in o[s] && o[s][t] == i[t][s]
    {
      assert s in ins[t] && s in keep;
    }
  }

  /** The induced sub-network is a sub-network. */
  lemma InducedSub(adj: Adjacency, keep: set<int>)
    ensures SubNetwork(Induced(adj, keep), adj)
  {
  }

  /** Inducing twice is inducing on the smaller set. */
  lemma InducedTwice(adj: Adjacency, outer: set<int>, inner: set<int>)
    requires inner <= outer
    ensures Induced(Induced(adj, outer), inner) == Induced(adj, inner)
  {
    var a, b := Induced(Induced(adj, outer), inner), Induced(adj, inner);
    forall id | id in a
      ensures a[id] == b[id]
    {
    }
  }

  /** Every link of `adj` is keyed by a node of `adj`. */
  predicate Closed(adj: Adjacency)
  {
    forall id :: id in adj ==> adj[id].Keys <= adj.Keys
  }

  /** Both sides of a mirrored pair are closed. */
  lemma MirroredClosed(outs: Adjacency, ins: Adjacency)
    requires Mirrored(outs, ins)
    ensures Closed(outs) && Closed(ins)
  {
    forall s, t | s in outs && t in outs[s]
      ensures t in outs
    {
      assert outs[s][t] == ins[t][s];
    }
    forall t, s | t in ins && s in ins[t]
      ensures s in ins
    {
      assert ins[t][s] == outs[s][t];
    }
  }

  /** A closed network induced on all its nodes is itself. */
  lemma InducedAll(adj: Adjacency)
    requires Closed(adj)
    ensures Induced(adj, adj.Keys) == adj
  {
    var r := Induced(adj, adj.Keys);
    forall id | id in r
      ensures r[id] == adj[id]
    {
      RestrictAll(adj[id], adj.Keys);
    }
  }

  /** `adj` with the links keyed by `c` dropped from the nodes `ids`. */
  function Stripped(adj: Adjacency, c: int, ids: set<int>): (r: Adjacency)
    ensures r.Keys == adj.Keys
    ensures forall id :: id in r ==> r[id] == if id in ids then adj[id] - {c} else adj[id]
  {
    map id | id in adj :: if id in ids then adj[id] - {c} else adj[id]
  }

  /** Stripping `c` from every node of a closed network, then node `c`, induces it on the other nodes. */
  lemma DroppedInduced(adj: Adjacency, c: int)
    requires Closed(adj)
    ensures Stripped(adj, c, adj.Keys) - {c} == Induced(adj, adj.Keys - {c})
  {
    var r, after := Induced(adj, adj.Keys - {c}), Stripped(adj, c, adj.Keys);
    forall id | id in r
      ensures r[id] == after[id]
    {
      assert r[id].Keys == after[id].Keys;
    }
  }

  lemma SubNetworkTransitive(a: Adjacency, b: Adjacency, c: Adjacency)
    requires SubNetwork(a, b) && SubNetwork(b, c)
    ensures SubNetwork(a, c)
  {
  }

  /** A restriction to a superset of the keys changes nothing. */
  lemma RestrictAll(m: map<int, Link>, keep: set<int>)
    requires m.Keys <= keep
    ensures Restrict(m, keep) == m
  {
  }

  /**
   * `adj` with nodes `from` and `to` and, unless `from` already has a link
   * keyed by `to`, `link` from `from` keyed by `to`.
   */
  function Attach(adj: Adjacency, from: int, to: int, link: Link): Adjacency
  {
    AddAt(Touch(Touch(adj, from), to), from, to, link)
  }

  /** `adj` with `link` from `from` keyed by `to`, unless a link is keyed there already. */
  function AddAt(adj: Adjacency, from: int, to: int, link: Link): (r: Adjacency)
    requires from in adj
    ensures r.Keys == adj.Keys
  {
    var links: map<int, Link> := adj[from];
    if to in links then adj else adj[from := links[to := link]]
  }

  /** `adj` with a node `id`, empty if it is new. */
  function Touch(adj: Adjacency, id: int): (r: Adjacency)
    ensures r.Keys == adj.Keys + {id}
  {
    if id in adj then adj else adj[id := map[]]
  }

  /** Adding nodes commutes. */
  lemma TouchCommutes(adj: Adjacency, a: int, b: int)
    ensures Touch(Touch(adj, a), b) == Touch(Touch(adj, b), a)
  {
  }

  /** Adding a node after a link is adding it before. */
  lemma TouchAfterAdd(adj: Adjacency, from: int, to: int, link: Link)
    requires from in adj
    ensures Touch(AddAt(adj, from, to, link), to) == AddAt(Touch(adj, to), from, to, link)
  {
  }

  /**
   * Attaching adds both nodes, keeps every node and link already there, and
   * leaves `from` with a link keyed by `to`: the one already there, or `link`.
   */
  lemma AttachGrows(adj: Adjacency, from: int, to: int, link: Link)
    ensures Attach(adj, from, to, link).Keys == adj.Keys + {from, to}
    ensures SubNetwork(adj, Attach(adj, from, to, link))
    ensures to in Attach(adj, from, to, link)[from]
    ensures Attach(adj, from, to, link)[from][to] ==
              if from in adj && to in adj[from] then adj[from][to] else link
    ensures forall a, b {:trigger Attach(adj, from, to, link)[a][b]} ::
              a in Attach(adj, from, to, link) && b in Attach(adj, from, to, link)[a] && (a != from || b != to) ==>
              a in adj && b in adj[a]
  {
  }

  /** Attaching a link on both sides keeps the two sides mirrored. */
  lemma AttachMirrored(outs: Adjacency, ins: Adjacency, link: Link)
    requires Mirrored(outs, ins)
    ensures Mirrored(Attach(outs, link.source.id, link.target.id, link), Attach(ins, link.target.id, link.source.id, link))
  {
    MirrorPair(outs, ins, link.source.id, link.target.id);
    AttachOutsMirrored(outs, ins, link);
    AttachInsMirrored(outs, ins, link);
  }

  lemma AttachOutsMirrored(outs: Adjacency, ins: Adjacency, link: Link)
    requires OutsMirrored(outs, ins)
    requires (link.source.id in outs && link.target.id in outs[link.source.id]) <==>
             (link.target.id in ins && link.source.id in ins[link.target.id])
    ensures OutsMirrored(Attach(outs, link.source.id, link.target.id, link), Attach(ins, link.target.id, link.source.id, link))
  {
    var s, t := link.source.id, link.target.id;
    AttachGrows(outs, s, t, link);
    AttachGrows(ins, t, s, link);
    GrowOutsMirrored(outs, ins, Attach(outs, s, t, link), Attach(ins, t, s, link), link);
  }

  lemma AttachInsMirrored(outs: Adjacency, ins: Adjacency, link: Link)
    requires InsMirrored(outs, ins)
    requires (link.source.id in outs && link.target.id in outs[link.source.id]) <==>
             (link.target.id in ins && link.source.id in ins[link.target.id])
    ensures InsMirrored(Attach(outs, link.source.id, link.target.id, link), Attach(ins, link.target.id, link.source.id, link))
  {
    var s, t := link.source.id, link.target.id;
    AttachGrows(outs, s, t, link);
    AttachGrows(ins, t, s, link);
    GrowInsMirrored(outs, ins, Attach(outs, s, t, link), Attach(ins, t, s, link), link);
  }

  /** In a mirrored pair, `s` has an outward link to `t` exactly when `t` has an inward link from `s`. */
  lemma MirrorPair(outs: Adjacency, ins: Adjacency, s: int, t: int)
    requires Mirrored(outs, ins)
    ensures (s in outs && t in outs[s]) <==> (t in ins && s in ins[t])
  {
    if t in ins && s in ins[t] {
      assert ins[t][s] == outs[s][t];
    }
    if s in outs && t in outs[s] {
      assert outs[s][t] == ins[t][s];
    }
  }

  /** Growing both sides by one link, the first one kept, keeps outward links mirrored. */
  lemma GrowOutsMirrored(outs: Adjacency, ins: Adjacency, o: Adjacency, i: Adjacency, link: Link)
    requires OutsMirrored(outs, ins) && SubNetwork(outs, o) && SubNetwork(ins, i)
    requires link.target.id in ins && link.source.id in ins[link.target.id] ==>
               link.source.id in outs && link.target.id in outs[link.source.id]
    requires link.target.id in i && link.source.id in i[link.target.id]
    requires link.source.id in o && link.target.id in o[link.source.id]
    requires o[link.source.id][link.target.id] ==
               if link.source.id in outs && link.target.id in outs[link.source.id] then outs[link.source.id][link.target.id] else link
    requires i[link.target.id][link.source.id] ==
               if link.target.id in ins && link.source.id in ins[link.target.id] then ins[link.target.id][link.source.id] else link
    requires forall a, b {:trigger o[a][b]} :: a in o && b in o[a] && (a != link.source.id || b != link.target.id) ==> a in outs && b in outs[a]
    ensures OutsMirrored(o, i)
  {
    var s, t := link.source.id, link.target.id;
    forall a: int, b: int {:trigger o[a][b]} | a in o && b in o[a]
      ensures b in i && o[a][b].source.id == a && o[a][b].target.id == b && a in i[b] && i[b][a] == o[a][b]
    {
      if a != s || b != t {
        assert a in outs && b in outs[a];
        assert o[a][b] == outs[a][b] && ins[b][a] == outs[a][b];
      } else if s in outs && t in outs[s] {
        assert outs[s][t] == ins[t][s];
      }
    }
  }

  /** Growing both sides by one link, the first one kept, keeps inward links mirrored. */
  lemma GrowInsMirrored(outs: Adjacency, ins: Adjacency, o: Adjacency, i: Adjacency, link: Link)
    requires InsMirrored(outs, ins) && SubNetwork(outs, o) && SubNetwork(ins, i)
    requires link.source.id in outs && link.target.id in outs[link.source.id] ==>
               link.target.id in ins && link.source.id in ins[link.target.id]
    requires link.source.id in o && link.target.id in o[link.source.id]
    requires o[link.source.id][link.target.id] ==
               if link.source.id in outs && link.target.id in outs[link.source.id] then outs[link.source.id][link.target.id] else link
    requires link.target.id in i && link.source.id in i[link.target.id]
    requires i[link.target.id][link.source.id] ==
               if link.target.id in ins && link.source.id in ins[link.target.id] then ins[link.target.id][link.source.id] else link
    requires forall a, b {:trigger i[a][b]} :: a in i && b in i[a] && (a != link.target.id || b != link.source.id) ==> a in ins && b in ins[a]
    ensures InsMirrored(o, i)
  {
    var s, t := link.source.id, link.target.id;
    forall b: int, a: int {:trigger i[b][a]} | b in i && a in i[b]
      ensures a in o && b in o[a] && o[a][b] == i[b][a]
    {
      if b != t || a != s {
        assert b in ins && a in ins[b];
        assert i[b][a] == ins[b][a] && outs[a][b] == ins[b][a];
      } else if t in ins && s in ins[t] {
        assert outs[s][t] == ins[t][s];
      }
    }
  }

  /** An elementary loop of `adj`: a chain of its links back to the start, through distinct sources. */
  predicate Elementary(adj: Adjacency, links: seq<Link>)
  {
    ChainedLoop(links) && DistinctSources(links) && forall i :: 0 <= i < |links| ==> InNetwork(adj, links[i])
  }

  /** A chain through distinct sources, all nodes of `keys`, is no longer than there are nodes. */
  lemma {:induction false} DistinctSourcesBound(links: seq<Link>, keys: set<int>)
    requires DistinctSources(links)
    requires forall i :: 0 <= i < |links| ==> links[i].source.id in keys
    ensures |links| <= |keys|
    decreases |links|
  {
    if |links| > 0 {
      var n := |links| - 1;
      var init := links[..n];
      forall i | 0 <= i < |init|
        ensures init[i].source.id in keys - {links[n].source.id}
      {
        assert links[i].source.id != links[n].source.id;
      }
      DistinctSourcesBound(init, keys - {links[n].source.id});
    }
  }

  /** The standard form `add_loop` stores of an elementary loop is an elementary loop of the same network. */
  lemma ElementaryCanonical(adj: Adjacency, links: seq<Link>)
    requires Elementary(adj, links)
    ensures Elementary(adj, CanonicalLinks(links))
  {
    CanonicalLinksOfLoop(links);
    var canonical := CanonicalLinks(links);
    forall i | 0 <= i < |canonical|
      ensures InNetwork(adj, canonical[i])
    {
      assert canonical[i] in multiset(links);
    }
  }

  /**
   * Following a network link from the end of an open path whose links all
   * have different sources keeps it a path of the network with different
   * sources.
   */
  lemma Extended(adj: Adjacency, links: seq<Link>, link: Link)
    requires Chained(links) && DistinctSources(links) && !ClosedShape(links)
    requires |links| > 0 ==> links[|links| - 1].target.id == link.source.id
    requires forall i :: 0 <= i < |links| ==> InNetwork(adj, links[i])
    requires InNetwork(adj, link)
    ensures Chained(links + [link]) && DistinctSources(links + [link])
    ensures forall i :: 0 <= i < |links + [link]| ==> InNetwork(adj, (links + [link])[i])
  {
    var next := links + [link];
    forall i, j | 0 <= i < j < |next|
      ensures next[i].source.id != next[j].source.id
    {
      if j == |links| && next[i].source.id == link.source.id {
        assert false;
      }
    }
  }

  /** An element of a non-empty set of ids, in no particular order, as the source's dictionary and set iteration. */
  method Pick(ids: set<int>) returns (id: int)
    requires ids != {}
    ensures id in ids
  {
    HasMember(ids);
    id :| id in ids;
  }

  /** A non-empty set of ids has a member. */
  lemma HasMember(ids: set<int>)
    requires ids != {}
    ensures exists id :: id in ids
  {
    if forall id :: id !in ids {
      NoMember(ids);
    }
  }

  /** A set of ids without members is empty. */
  lemma NoMember(ids: set<int>)
    requires forall id :: id !in ids
    ensures ids == {}
  {
    var empty: set<int> := {};
    assert forall id :: id in ids <==> id in empty;
  }

  // ---------------------------------------------------------------------------
  // Nodes

  /**
   * The source's `Node`: a concept with its outward links keyed by target id
   * and its inward links keyed by source id. A node is reached only through
   * the network's map, under its concept's id, so it is held there as a value
   * and its updating methods return the updated node.
   */
  datatype Node = Node(concept: Concept, outward: map<int, Link>, inward: map<int, Link>)
  {
    /** `add_inward_link`: whether `link` is recorded, and the node after; a later link from the same source is refused. */
    function AddInwardLink(link: Link): (r: (bool, Node))
      ensures r.0 <==> link.source.id !in inward
      ensures r.1.concept == concept && r.1.outward == outward
      ensures r.1.inward == if r.0 then inward[link.source.id := link] else inward
    {
      if link.source.id in inward then (false, this)
      else (true, this.(inward := inward[link.source.id := link]))
    }

    /** `add_outward_link`: whether `link` is recorded, and the node after; a later link to the same target is refused. */
    function AddOutwardLink(link: Link): (r: (bool, Node))
      ensures r.0 <==> link.target.id !in outward
      ensures r.1.concept == concept && r.1.inward == inward
      ensures r.1.outward == if r.0 then outward[link.target.id := link] else outward
    {
      if link.target.id in outward then (false, this)
      else (true, this.(outward := outward[link.target.id := link]))
    }

    /** `is_sink`: no outward link. */
    predicate IsSink()
    {
      |outward| == 0
    }

    /** `is_source`: no inward link. */
    predicate IsSource()
    {
      |inward| == 0
    }

    /** `remove_links_to`: whether there were links to or from `concept`, and the node without them. */
    function RemoveLinksTo(concept: Concept): (r: (bool, Node))
      ensures r.0 <==> concept.id in outward || concept.id in inward
      ensures r.1 == Node(this.concept, outward - {concept.id}, inward - {concept.id})
    {
      var (removedOut, afterOut) := if concept.id in outward then (true, this.(outward := outward - {concept.id})) else (false, this);
      var (removedIn, afterIn) := if concept.id in inward then (true, afterOut.(inward := inward - {concept.id})) else (false, afterOut);
      (removedOut || removedIn, afterIn)
    }
  }

  /** The outward links of every node. */
  function Outs(nodes: map<int, Node>): (r: Adjacency)
    ensures r.Keys == nodes.Keys && forall id :: id in r ==> r[id] == nodes[id].outward
  {
    map id | id in nodes :: nodes[id].outward
  }

  /** The inward links of every node. */
  function Ins(nodes: map<int, Node>): (r: Adjacency)
    ensures r.Keys == nodes.Keys && forall id :: id in r ==> r[id] == nodes[id].inward
  {
    map id | id in nodes :: nodes[id].inward
  }

  /** Each node sits under its concept's id, and the outward and inward links describe one network. */
  predicate WellFormed(nodes: map<int, Node>)
  {
    KeyedByConcept(nodes) && Mirrored(Outs(nodes), Ins(nodes))
  }

  /** Each node sits under its concept's id. */
  predicate KeyedByConcept(nodes: map<int, Node>)
  {
    forall id :: id in nodes ==> nodes[id].concept.id == id
  }

  /** Each node sits under its concept's id, and each outward link runs from its node to a node keyed by the link's target. */
  predicate Linked(nodes: map<int, Node>)
  {
    KeyedByConcept(nodes) &&
    forall s, t {:trigger nodes[s].outward[t]} :: s in nodes && t in nodes[s].outward ==>
      t in nodes && nodes[s].outward[t].source.id == s && nodes[s].outward[t].target.id == t
  }

  /** A well-formed network is linked. */
  lemma WellFormedLinked(nodes: map<int, Node>)
    requires WellFormed(nodes)
    ensures Linked(nodes)
  {
    forall s, t | s in nodes && t in nodes[s].outward
      ensures t in nodes && nodes[s].outward[t].source.id == s && nodes[s].outward[t].target.id == t
    {
      assert Outs(nodes)[s][t] == nodes[s].outward[t];
    }
  }

  /** Replacing one node changes only that node's links. */
  lemma ReplaceNode(nodes: map<int, Node>, id: int, n: Node)
    ensures Outs(nodes[id := n]) == Outs(nodes)[id := n.outward]
    ensures Ins(nodes[id := n]) == Ins(nodes)[id := n.inward]
  {
  }

  /** A new node without links adds its id to both sides and sits under it. */
  lemma NewNode(nodes: map<int, Node>, concept: Concept)
    requires concept.id !in nodes
    ensures Outs(nodes[concept.id := Node(concept, map[], map[])]) == Touch(Outs(nodes), concept.id)
    ensures Ins(nodes[concept.id := Node(concept, map[], map[])]) == Touch(Ins(nodes), concept.id)
    ensures KeyedByConcept(nodes) ==> KeyedByConcept(nodes[concept.id := Node(concept, map[], map[])])
  {
    ReplaceNode(nodes, concept.id, Node(concept, map[], map[]));
  }

  /** `add_outward_link` on the source's node adds the link on the outward side only. */
  lemma OutwardAdded(nodes: map<int, Node>, link: Link)
    requires link.source.id in nodes
    ensures Outs(nodes[link.source.id := nodes[link.source.id].AddOutwardLink(link).1]) ==
      AddAt(Outs(nodes), link.source.id, link.target.id, link)
    ensures Ins(nodes[link.source.id := nodes[link.source.id].AddOutwardLink(link).1]) == Ins(nodes)
    ensures KeyedByConcept(nodes) ==> KeyedByConcept(nodes[link.source.id := nodes[link.source.id].AddOutwardLink(link).1])
  {
    var n := nodes[link.source.id];
    ReplaceNode(nodes, link.source.id, n.AddOutwardLink(link).1);
    assert Ins(nodes)[link.source.id := n.inward] == Ins(nodes);
  }

  /** `add_inward_link` on the target's node adds the link on the inward side only. */
  lemma InwardAdded(nodes: map<int, Node>, link: Link)
    requires link.target.id in nodes
    ensures Ins(nodes[link.target.id := nodes[link.target.id].AddInwardLink(link).1]) ==
      AddAt(Ins(nodes), link.target.id, link.source.id, link)
    ensures Outs(nodes[link.target.id := nodes[link.target.id].AddInwardLink(link).1]) == Outs(nodes)
    ensures KeyedByConcept(nodes) ==> KeyedByConcept(nodes[link.target.id := nodes[link.target.id].AddInwardLink(link).1])
  {
    var n := nodes[link.target.id];
    ReplaceNode(nodes, link.target.id, n.AddInwardLink(link).1);
    assert Outs(nodes)[link.target.id := n.outward] == Outs(nodes);
  }

  /** Deleting a node deletes its entry on both sides. */
  lemma Dropped(nodes: map<int, Node>, id: int)
    ensures Outs(nodes - {id}) == Outs(nodes) - {id} && Ins(nodes - {id}) == Ins(nodes) - {id}
    ensures KeyedByConcept(nodes) ==> KeyedByConcept(nodes - {id})
  {
  }

  /** Once every node has dropped its links to `c`, deleting node `c` leaves the network induced on the others. */
  lemma RemovedNode(before: map<int, Node>, stripped: map<int, Node>, c: int)
    requires WellFormed(before) && KeyedByConcept(stripped) && stripped.Keys == before.Keys
    requires Outs(stripped) == Stripped(Outs(before), c, before.Keys)
    requires Ins(stripped) == Stripped(Ins(before), c, before.Keys)
    ensures WellFormed(stripped - {c})
    ensures Outs(stripped - {c}) == Induced(Outs(before), before.Keys - {c})
    ensures Ins(stripped - {c}) == Induced(Ins(before), before.Keys - {c})
    ensures c !in stripped ==> stripped - {c} == stripped
  {
    var outs, ins := Outs(before), Ins(before);
    MirroredClosed(outs, ins);
    DroppedInduced(outs, c);
    DroppedInduced(ins, c);
    Dropped(stripped, c);
    InducedMirrored(outs, ins, before.Keys - {c});
  }

  /** `nodes` after `remove_links_to(concept)` on the nodes `ids`. */
  function UnlinkedAt(nodes: map<int, Node>, concept: Concept, ids: set<int>): (r: map<int, Node>)
    ensures r.Keys == nodes.Keys
    ensures forall id :: id in r ==> r[id].concept == nodes[id].concept
    ensures forall id :: id in r ==> r[id].outward == if id in ids then nodes[id].outward - {concept.id} else nodes[id].outward
    ensures forall id :: id in r ==> r[id].inward == if id in ids then nodes[id].inward - {concept.id} else nodes[id].inward
  {
    map id | id in nodes :: if id in ids then nodes[id].RemoveLinksTo(concept).1 else nodes[id]
  }

  /** Unlinking one more node; unlinking a node twice is unlinking it once. */
  lemma UnlinkedStep(nodes: map<int, Node>, concept: Concept, ids: set<int>, id: int)
    requires id in nodes
    ensures UnlinkedAt(nodes, concept, ids)[id := UnlinkedAt(nodes, concept, ids)[id].RemoveLinksTo(concept).1] ==
      UnlinkedAt(nodes, concept, ids + {id})
  {
    var before, after := UnlinkedAt(nodes, concept, ids), UnlinkedAt(nodes, concept, ids + {id});
    var n := nodes[id];
    assert n.outward - {concept.id} - {concept.id} == n.outward - {concept.id};
    assert n.inward - {concept.id} - {concept.id} == n.inward - {concept.id};
    var stepped := before[id := before[id].RemoveLinksTo(concept).1];
    forall k | k in after
      ensures stepped[k] == after[k]
    {
    }
  }

  /** Unlinking every node strips `concept` from both sides and keeps each node under its concept. */
  lemma UnlinkedLinks(nodes: map<int, Node>, concept: Concept)
    ensures Outs(UnlinkedAt(nodes, concept, nodes.Keys)) == Stripped(Outs(nodes), concept.id, nodes.Keys)
    ensures Ins(UnlinkedAt(nodes, concept, nodes.Keys)) == Stripped(Ins(nodes), concept.id, nodes.Keys)
    ensures KeyedByConcept(nodes) ==> KeyedByConcept(UnlinkedAt(nodes, concept, nodes.Keys))
  {
    var r := UnlinkedAt(nodes, concept, nodes.Keys);
    var o, so := Outs(r), Stripped(Outs(nodes), concept.id, nodes.Keys);
    forall id | id in o
      ensures o[id] == so[id]
    {
    }
    var i, si := Ins(r), Stripped(Ins(nodes), concept.id, nodes.Keys);
    forall id | id in i
      ensures i[id] == si[id]
    {
    }
  }

  /** The loop of `remove_node` that calls `remove_links_to(concept)` on every node. */
  method UnlinkAll(nodes: map<int, Node>, concept: Concept) returns (updated: map<int, Node>)
    ensures updated.Keys == nodes.Keys
    ensures Outs(updated) == Stripped(Outs(nodes), concept.id, nodes.Keys)
    ensures Ins(updated) == Stripped(Ins(nodes), concept.id, nodes.Keys)
    ensures KeyedByConcept(nodes) ==> KeyedByConcept(updated)
  {
    updated := nodes;
    var todo := nodes.Keys;
    while todo != {}
      invariant todo <= nodes.Keys
      invariant updated == UnlinkedAt(nodes, concept, nodes.Keys - todo)
      decreases todo
    {
      var id := Pick(todo);
      UnlinkedStep(nodes, concept, nodes.Keys - todo, id);
      var (_, node) := updated[id].RemoveLinksTo(concept);
      updated := updated[id := node];
      todo := todo - {id};
      assert nodes.Keys - todo == (nodes.Keys - (todo + {id})) + {id};
    }
    assert nodes.Keys - todo == nodes.Keys;
    UnlinkedLinks(nodes, concept);
  }

  /** The first loop of `remove_sources_and_sinks`: the ids of the nodes without outward or without inward links. */
  method CollectSourcesAndSinks(nodes: map<int, Node>) returns (toRemove: set<int>)
    ensures toRemove == SourcesAndSinks(Outs(nodes), Ins(nodes))
  {
    toRemove := {};
    var todo := nodes.Keys;
    while todo != {}
      invariant todo <= nodes.Keys
      invariant toRemove == SourcesAndSinks(Outs(nodes), Ins(nodes)) - todo
      decreases todo
    {
      var id := Pick(todo);
      if nodes[id].IsSource() || nodes[id].IsSink() {
        toRemove := toRemove + {id};
      }
      todo := todo - {id};
    }
  }

  /** Removing the members of `toRemove` one at a time. */
  lemma OneMoreRemoved(keys: set<int>, toRemove: set<int>, rest: set<int>, id: int)
    requires id in rest && rest <= toRemove
    ensures keys - (toRemove - rest) - {id} == keys - (toRemove - (rest - {id}))
  {
  }

  /** Removing a subset takes its size off. */
  lemma {:induction false} RemovedCount(keys: set<int>, removed: set<int>)
    requires removed <= keys
    ensures |keys - removed| == |keys| - |removed|
  {
    if removed != {} {
      HasMember(removed);
      var x :| x in removed;
      RemovedCount(keys - {x}, removed - {x});
      assert keys - {x} - (removed - {x}) == keys - removed;
    }
  }

  /**
   * `links` is a path of `graph` through nodes of the current network, with
   * a different source for each link, ending at `end`, and `graph` holds
   * the current network.
   */
  predicate OpenPath(nodes: map<int, Node>, graph: Adjacency, links: seq<Link>, end: int)
  {
    Chained(links) && DistinctSources(links) && !ClosedShape(links) &&
    (|links| > 0 ==> links[|links| - 1].target.id == end) &&
    (forall i :: 0 <= i < |links| ==> links[i].source.id in nodes) &&
    (forall i :: 0 <= i < |links| ==> InNetwork(graph, links[i])) &&
    SubNetwork(Outs(nodes), graph)
  }

  /**
   * Following the link of `node` keyed by `target` from the end of an open
   * path extends it by one link; when the result is not closed it is an open
   * path to `target`, and when it is a loop it is elementary.
   */
  lemma Followed(nodes: map<int, Node>, graph: Adjacency, links: seq<Link>, node: Node, target: int)
    requires Linked(nodes) && node.concept.id in nodes && nodes[node.concept.id] == node
    requires target in node.outward && OpenPath(nodes, graph, links, node.concept.id)
    ensures |links| < |nodes.Keys|
    ensures var next := links + [node.outward[target]];
      (!ClosedShape(next) ==> OpenPath(nodes, graph, next, target)) &&
      (LoopShape(next) ==> Elementary(graph, next))
  {
    var link := node.outward[target];
    OutwardLink(nodes, graph, node, target);
    Extended(graph, links, link);
    SourcesWithin(links, link, nodes.Keys);
    DistinctSourcesBound(links + [link], nodes.Keys);
  }

  /** Extending a path through nodes of `keys` by a link out of a node of `keys` stays among `keys`. */
  lemma SourcesWithin(links: seq<Link>, link: Link, keys: set<int>)
    requires forall i :: 0 <= i < |links| ==> links[i].source.id in keys
    requires link.source.id in keys
    ensures forall i :: 0 <= i < |links + [link]| ==> (links + [link])[i].source.id in keys
  {
    var next := links + [link];
    forall i | 0 <= i < |next|
      ensures next[i].source.id in keys
    {
      if i < |links| {
        assert next[i] == links[i];
      }
    }
  }

  /** The link of `node` keyed by `target` runs from `node` to `target` and is in `graph`. */
  lemma OutwardLink(nodes: map<int, Node>, graph: Adjacency, node: Node, target: int)
    requires Linked(nodes) && node.concept.id in nodes && nodes[node.concept.id] == node
    requires target in node.outward && SubNetwork(Outs(nodes), graph)
    ensures node.outward[target].source.id == node.concept.id && node.outward[target].target.id == target
    ensures target in nodes && InNetwork(graph, node.outward[target])
  {
    var id := node.concept.id;
    var outs := Outs(nodes);
    assert outs[id][target] == node.outward[target];
  }

  /**
   * Every loop indexed in `byRep` is an elementary loop of `graph`. Applied
   * to a loop set's `byRep`, this covers every stored loop (`LoopSet.Valid`).
   */
  ghost predicate ElementaryLoops(byRep: map<string, Sequence>, graph: Adjacency)
    reads byRep.Values`links
  {
    forall rep :: rep in byRep ==> Elementary(graph, byRep[rep].links)
  }

  /** Every loop stored in a loop set whose `byRep` holds only elementary loops is elementary. */
  lemma StoredElementary(loopSet: LoopSet, graph: Adjacency)
    requires loopSet.Valid() && ElementaryLoops(loopSet.byRep, graph)
    ensures forall s :: s in loopSet.loops ==> Elementary(graph, s.links)
  {
    forall s | s in loopSet.loops
      ensures Elementary(graph, s.links)
    {
      assert loopSet.byRep[s.representation.value] == s;
    }
  }

  /**
   * Indexing under `rep` either the loop already indexed there or the
   * standard form of an elementary loop keeps every indexed loop elementary.
   */
  lemma IndexedElementary(graph: Adjacency, byRep: map<string, Sequence>, rep: string, stored: Sequence, links: seq<Link>)
    requires ElementaryLoops(byRep, graph) && Elementary(graph, links)
    requires rep in byRep ==> byRep[rep] == stored
    requires rep !in byRep ==> stored.links == CanonicalLinks(links)
    ensures ElementaryLoops(byRep[rep := stored], graph)
  {
    if rep !in byRep {
      ElementaryCanonical(graph, links);
    }
  }

  // ---------------------------------------------------------------------------
  // Which loops the search finds

  /** `loop` is an elementary loop of `adj` whose first links are `prefix`. */
  predicate Begins(adj: Adjacency, prefix: seq<Link>, loop: seq<Link>)
  {
    Elementary(adj, loop) && |prefix| <= |loop| && loop[..|prefix|] == prefix
  }

  /** `loop` is an elementary loop of `adj` that begins with `prefix` and then leaves the node `from`. */
  predicate Continues(adj: Adjacency, prefix: seq<Link>, from: int, loop: seq<Link>)
  {
    Begins(adj, prefix, loop) && |prefix| < |loop| && loop[|prefix|].source.id == from
  }

  /**
   * Every elementary loop of `adj` that begins with `prefix` and then leaves
   * `from` for a node of `targets` has the representation of its standard
   * form in `reps`.
   */
  ghost predicate FoundToward(adj: Adjacency, prefix: seq<Link>, from: int, targets: set<int>, reps: set<string>)
  {
    forall loop: seq<Link> {:trigger Continues(adj, prefix, from, loop)} ::
      Continues(adj, prefix, from, loop) && loop[|prefix|].target.id in targets
      ==> CanonicalRep(loop) in reps
  }

  /** Every elementary loop of `adj` that begins with `prefix` and then leaves `from` has its representation in `reps`. */
  ghost predicate FoundAfter(adj: Adjacency, prefix: seq<Link>, from: int, reps: set<string>)
  {
    forall loop: seq<Link> {:trigger Continues(adj, prefix, from, loop)} :: Continues(adj, prefix, from, loop) ==> CanonicalRep(loop) in reps
  }

  /** Every elementary loop of `adj` that begins with `prefix` has its representation in `reps`. */
  ghost predicate FoundBeginning(adj: Adjacency, prefix: seq<Link>, reps: set<string>)
  {
    forall loop: seq<Link> {:trigger Begins(adj, prefix, loop)} :: Begins(adj, prefix, loop) ==> CanonicalRep(loop) in reps
  }

  /** Every elementary loop of `adj` through the node `id` has its representation in `reps`. */
  ghost predicate FoundThrough(adj: Adjacency, id: nat, reps: set<string>)
  {
    forall loop: seq<Link> {:trigger Elementary(adj, loop), HasSource(loop, id)} ::
      Elementary(adj, loop) && HasSource(loop, id) ==> CanonicalRep(loop) in reps
  }

  /**
   * The representations the search collects are the keys of `byRep`: each
   * one is the representation of a stored loop.
   */
  lemma FoundStored(loopSet: LoopSet, rep: string)
    requires loopSet.Valid() && rep in loopSet.byRep
    ensures HasRep(loopSet.loops, rep)
  {
    assert loopSet.byRep[rep] in loopSet.loops;
  }

  /** Loops found toward some targets, and then toward one more, are found toward all of them. */
  lemma FoundTowardMore(adj: Adjacency, prefix: seq<Link>, from: int, targets: set<int>, target: int, reps: set<string>, more: set<string>)
    requires FoundToward(adj, prefix, from, targets, reps) && reps <= more
    requires FoundToward(adj, prefix, from, {target}, more)
    ensures FoundToward(adj, prefix, from, targets + {target}, more)
  {
  }

  /** The loops beginning with `prefix` and the link of `node` to `target` are the loops that go on from `prefix` to `target`. */
  lemma FollowedFound(nodes: map<int, Node>, node: Node, prefix: seq<Link>, target: int, reps: set<string>)
    requires node.concept.id in nodes && nodes[node.concept.id] == node && target in node.outward
    requires FoundBeginning(Outs(nodes), prefix + [node.outward[target]], reps)
    ensures FoundToward(Outs(nodes), prefix, node.concept.id, {target}, reps)
  {
    forall loop: seq<Link> | Continues(Outs(nodes), prefix, node.concept.id, loop) && loop[|prefix|].target.id in {target}
      ensures CanonicalRep(loop) in reps
    {
      NextLink(nodes, node, prefix, loop);
      NextPrefix(Outs(nodes), prefix, node.concept.id, loop);
    }
  }

  /** A loop that leaves `node` goes toward one of its outward links' targets. */
  lemma AllTargetsFound(nodes: map<int, Node>, node: Node, prefix: seq<Link>, reps: set<string>)
    requires node.concept.id in nodes && nodes[node.concept.id] == node
    requires FoundToward(Outs(nodes), prefix, node.concept.id, node.outward.Keys, reps)
    ensures FoundAfter(Outs(nodes), prefix, node.concept.id, reps)
  {
    forall loop: seq<Link> | Continues(Outs(nodes), prefix, node.concept.id, loop)
      ensures CanonicalRep(loop) in reps
    {
      NextLink(nodes, node, prefix, loop);
    }
  }

  /**
   * The only elementary loop a closed sequence begins is the sequence itself,
   * when it is a loop: a closed sequence that is not a loop begins none.
   */
  lemma ClosedFound(adj: Adjacency, prefix: seq<Link>, reps: set<string>)
    requires ClosedShape(prefix) && (LoopShape(prefix) ==> CanonicalRep(prefix) in reps)
    ensures FoundBeginning(adj, prefix, reps)
  {
    forall loop: seq<Link> | Begins(adj, prefix, loop)
      ensures CanonicalRep(loop) in reps
    {
      ClosedPrefix(adj, prefix, loop);
    }
  }

  /** The elementary loops an open sequence begins go on from its last target. */
  lemma OpenFound(adj: Adjacency, prefix: seq<Link>, reps: set<string>)
    requires |prefix| > 0 && !ClosedShape(prefix)
    requires FoundAfter(adj, prefix, prefix[|prefix| - 1].target.id, reps)
    ensures FoundBeginning(adj, prefix, reps)
  {
    forall loop: seq<Link> | Begins(adj, prefix, loop)
      ensures CanonicalRep(loop) in reps
    {
      OpenPrefix(adj, prefix, loop);
    }
  }

  /** Every elementary loop through `id`, started at `id`, leaves `id` first and keeps its standard form. */
  lemma StartFound(adj: Adjacency, id: nat, reps: set<string>)
    requires FoundAfter(adj, [], id, reps)
    ensures FoundThrough(adj, id, reps)
  {
    forall loop: seq<Link> | Elementary(adj, loop) && HasSource(loop, id)
      ensures CanonicalRep(loop) in reps
    {
      var k :| 0 <= k < |loop| && loop[k].source.id == id;
      RotatedToStart(adj, loop, k);
    }
  }

  /** A closed prefix of an elementary loop is the whole loop. */
  lemma ClosedPrefix(adj: Adjacency, prefix: seq<Link>, loop: seq<Link>)
    requires Begins(adj, prefix, loop) && ClosedShape(prefix)
    ensures prefix == loop && LoopShape(prefix)
  {
    var n := |prefix|;
    var j :| 0 <= j < n && prefix[j].source.id == prefix[n - 1].target.id;
    assert loop[j] == prefix[j] && loop[n - 1] == prefix[n - 1];
    SourceAfter(loop, n - 1, j);
    assert loop[..n] == loop;
  }

  /** In an elementary loop, the link whose source is the target of link `i` is the next one, cyclically. */
  lemma SourceAfter(loop: seq<Link>, i: nat, j: nat)
    requires ChainedLoop(loop) && DistinctSources(loop)
    requires i < |loop| && j < |loop| && loop[j].source.id == loop[i].target.id
    ensures i + 1 < |loop| ==> j == i + 1
    ensures i + 1 == |loop| ==> j == 0
  {
    var next := if i + 1 < |loop| then i + 1 else 0;
    assert loop[next].source.id == loop[i].target.id;
  }

  /** A non-empty prefix of an elementary loop that is not closed goes on with a link out of its last target. */
  lemma OpenPrefix(adj: Adjacency, prefix: seq<Link>, loop: seq<Link>)
    requires Begins(adj, prefix, loop) && |prefix| > 0 && !ClosedShape(prefix)
    ensures Continues(adj, prefix, prefix[|prefix| - 1].target.id, loop)
  {
    var n := |prefix|;
    assert LoopShape(loop);
    if n == |loop| {
      assert false;
    }
    assert loop[n - 1] == prefix[n - 1];
  }

  /** The link an elementary loop takes out of `node` is the outward link of `node` to that link's target. */
  lemma NextLink(nodes: map<int, Node>, node: Node, prefix: seq<Link>, loop: seq<Link>)
    requires node.concept.id in nodes && nodes[node.concept.id] == node
    requires Continues(Outs(nodes), prefix, node.concept.id, loop)
    ensures loop[|prefix|].target.id in node.outward && node.outward[loop[|prefix|].target.id] == loop[|prefix|]
  {
    assert InNetwork(Outs(nodes), loop[|prefix|]);
  }

  /** Taking the link a loop takes next gives a longer prefix of the loop. */
  lemma NextPrefix(adj: Adjacency, prefix: seq<Link>, from: int, loop: seq<Link>)
    requires Continues(adj, prefix, from, loop)
    ensures Begins(adj, prefix + [loop[|prefix|]], loop)
  {
    assert loop[..|prefix| + 1] == loop[..|prefix|] + [loop[|prefix|]];
  }

  /**
   * An elementary loop through `id`, rotated to start there, is a loop that
   * leaves `id` first, with the same standard form.
   */
  lemma RotatedToStart(adj: Adjacency, loop: seq<Link>, k: nat)
    requires Elementary(adj, loop) && k < |loop|
    ensures Continues(adj, [], loop[k].source.id, Utils.Rotation(loop, k))
    ensures CanonicalRep(Utils.Rotation(loop, k)) == CanonicalRep(loop)
  {
    var r := Utils.Rotation(loop, k);
    Utils.RotationIndex(loop, k);
    ChainedLoopRotation(loop, k);
    DistinctSourcesRotation(loop, k);
    CanonicalRepRotation(loop, k);
    forall i | 0 <= i < |r|
      ensures InNetwork(adj, r[i])
    {
      assert r[i] == loop[if k + i < |loop| then k + i else k + i - |loop|];
    }
  }

  /** Keeping every node of an elementary loop keeps it a loop of the induced network. */
  lemma InducedKeepsLoop(adj: Adjacency, keep: set<int>, loop: seq<Link>)
    requires Elementary(adj, loop)
    requires forall i :: 0 <= i < |loop| ==> loop[i].source.id in keep
    ensures Elementary(Induced(adj, keep), loop)
  {
    forall i | 0 <= i < |loop|
      ensures InNetwork(Induced(adj, keep), loop[i])
    {
      var j := if i + 1 < |loop| then i + 1 else 0;
      assert loop[i].target.id == loop[j].source.id;
      assert InNetwork(adj, loop[i]);
    }
  }

  /** A node on an elementary loop has an outward and an inward link: it is neither a source nor a sink. */
  lemma LoopNodesLinked(outs: Adjacency, ins: Adjacency, loop: seq<Link>)
    requires Mirrored(outs, ins) && Elementary(outs, loop)
    ensures forall i :: 0 <= i < |loop| ==> loop[i].source.id !in SourcesAndSinks(outs, ins)
  {
    forall i | 0 <= i < |loop|
      ensures loop[i].source.id !in SourcesAndSinks(outs, ins)
    {
      var p := if i == 0 then |loop| - 1 else i - 1;
      var s, q := loop[i].source.id, loop[p].source.id;
      assert loop[p].target.id == s;
      assert InNetwork(outs, loop[i]) && InNetwork(outs, loop[p]);
      assert outs[q][s] == loop[p];
      assert loop[i].target.id in outs[s] && q in ins[s];
    }
  }

  /** A network without nodes has no loops. */
  lemma NoLoops(adj: Adjacency, loop: seq<Link>)
    requires adj == map[]
    ensures !Elementary(adj, loop)
  {
    assert |loop| > 0 ==> !InNetwork(adj, loop[0]);
  }

  /**
   * Every elementary loop of `graph` is still an elementary loop of `adj`, or
   * has the representation of its standard form in `reps`: removing nodes
   * from the network loses no loop that was not found.
   */
  ghost predicate Covered(graph: Adjacency, adj: Adjacency, reps: set<string>)
  {
    forall loop: seq<Link> {:trigger Elementary(graph, loop)} ::
      Elementary(graph, loop) ==> Elementary(adj, loop) || CanonicalRep(loop) in reps
  }

  /** Two removals in a row lose only what either of them lost. */
  lemma CoveredTransitive(graph: Adjacency, mid: Adjacency, adj: Adjacency, first: set<string>, second: set<string>, reps: set<string>)
    requires Covered(graph, mid, first) && Covered(mid, adj, second)
    requires first <= reps && second <= reps
    ensures Covered(graph, adj, reps)
  {
    forall loop: seq<Link> | Elementary(graph, loop)
      ensures Elementary(adj, loop) || CanonicalRep(loop) in reps
    {
      if Elementary(mid, loop) {
        assert Elementary(adj, loop) || CanonicalRep(loop) in second;
      }
    }
  }

  /** Dropping the sources and sinks of a network loses no loop: no node on a loop is one. */
  lemma PrunedCovered(outs: Adjacency, ins: Adjacency, keep: set<int>)
    requires Mirrored(outs, ins) && keep == outs.Keys - SourcesAndSinks(outs, ins)
    ensures Covered(outs, Induced(outs, keep), {})
  {
    forall loop: seq<Link> | Elementary(outs, loop)
      ensures Elementary(Induced(outs, keep), loop)
    {
      LoopNodesLinked(outs, ins, loop);
      forall i | 0 <= i < |loop|
        ensures loop[i].source.id in keep
      {
        assert InNetwork(outs, loop[i]);
      }
      InducedKeepsLoop(outs, keep, loop);
    }
  }

  /** Dropping a node whose loops have all been found loses no loop that was not found. */
  lemma RemovedCovered(outs: Adjacency, id: nat, reps: set<string>)
    requires FoundThrough(outs, id, reps)
    ensures Covered(outs, Induced(outs, outs.Keys - {id}), reps)
  {
    var keep := outs.Keys - {id};
    forall loop: seq<Link> | Elementary(outs, loop) && !HasSource(loop, id)
      ensures Elementary(Induced(outs, keep), loop)
    {
      forall i | 0 <= i < |loop|
        ensures loop[i].source.id in keep
      {
        assert InNetwork(outs, loop[i]);
      }
      InducedKeepsLoop(outs, keep, loop);
    }
  }

  /** Every elementary loop of `graph` has the representation of its standard form among those of `loops`. */
  ghost predicate AllFound(graph: Adjacency, loops: set<Sequence>)
    reads loops`representation
  {
    forall loop: seq<Link> {:trigger HasRep(loops, CanonicalRep(loop))} :: Elementary(graph, loop) ==> HasRep(loops, CanonicalRep(loop))
  }

  /** Once the network is empty, every elementary loop of `graph` has been found and stored. */
  lemma CoveredStored(graph: Adjacency, adj: Adjacency, loopSet: LoopSet)
    requires loopSet.Valid() && adj.Keys == {} && Covered(graph, adj, loopSet.byRep.Keys)
    ensures AllFound(graph, loopSet.loops)
  {
    assert adj == map[];
    forall loop: seq<Link> | Elementary(graph, loop)
      ensures HasRep(loopSet.loops, CanonicalRep(loop))
    {
      NoLoops(adj, loop);
      FoundStored(loopSet, CanonicalRep(loop));
    }
  }

  /** `Sequence()`: a new empty sequence, numbered by the counter `loopSet` shares. */
  method Start(loopSet: LoopSet) returns (empty: Sequence)
    requires loopSet.Valid()
    modifies loopSet.counter
    ensures fresh(empty) && empty.Initialized() && empty.links == []
    ensures loopSet.Valid()
  {
    empty := new Sequence([], loopSet.counter);
  }

  /** `Sequence(copy_from=sequence)` followed by `add_link(link)`: a new sequence one link longer. */
  method Extend(sequence: Sequence, link: Link, loopSet: LoopSet) returns (next: Sequence)
    requires sequence.Initialized() && !sequence.isClosed && loopSet.Valid()
    modifies loopSet.counter
    ensures fresh(next) && next.Initialized() && next.links == sequence.links + [link]
    ensures loopSet.Valid() && loopSet.loops == old(loopSet.loops)
  {
    next := new Sequence.Copy(sequence, loopSet.counter);
    var _ := next.AddLink(link);
  }

  /** `loop_set.add_loop(next)` for an elementary loop `next` of `graph`. */
  method Store(loopSet: LoopSet, next: Sequence, ghost graph: Adjacency)
    requires loopSet.Valid() && ElementaryLoops(loopSet.byRep, graph)
    requires next.Initialized() && Elementary(graph, next.links)
    modifies loopSet`loops, loopSet`byId, loopSet`byRep, loopSet.counter
    ensures loopSet.Valid() && ElementaryLoops(loopSet.byRep, graph)
    ensures forall s :: s in loopSet.loops ==> s in old(loopSet.loops) || fresh(s)
    ensures old(loopSet.byRep.Keys) <= loopSet.byRep.Keys && CanonicalRep(next.links) in loopSet.byRep
  {
    ghost var before := loopSet.byRep;
    var stored := AddLoop(loopSet, next);
    assert ElementaryLoops(before, graph);
    IndexedElementary(graph, before, CanonicalRep(next.links), stored, next.links);
  }

  /**
   * `add_loop` on a loop: the loop stored for `next` is the one already
   * stored under the representation of its standard form, or else a new one
   * in standard form; either way it is stored under that representation.
   */
  method AddLoop(loopSet: LoopSet, next: Sequence) returns (stored: Sequence)
    requires loopSet.Valid() && next.Initialized() && ChainedLoop(next.links)
    modifies loopSet`loops, loopSet`byId, loopSet`byRep, loopSet.counter
    ensures loopSet.Valid()
    ensures old(loopSet.loops) <= loopSet.loops <= old(loopSet.loops) + {stored}
    ensures fresh(loopSet.loops - old(loopSet.loops))
    ensures stored in loopSet.loops && stored.representation == Some(CanonicalRep(next.links))
    ensures loopSet.byRep == old(loopSet.byRep)[CanonicalRep(next.links) := stored]
    ensures CanonicalRep(next.links) in old(loopSet.byRep) ==> old(loopSet.byRep)[CanonicalRep(next.links)] == stored
    ensures CanonicalRep(next.links) !in old(loopSet.byRep) ==> stored.links == CanonicalLinks(next.links)
  {
    var added := loopSet.AddLoop(next);
    stored := added.value;
    if HasRep(old(loopSet.loops), CanonicalRep(next.links)) {
      assert loopSet.byRep == old(loopSet.byRep)[CanonicalRep(next.links) := stored];
    } else {
      assert loopSet.loops - old(loopSet.loops) == {stored};
    }
  }

  // ---------------------------------------------------------------------------
  // The network

  /** The source's `DiagramNetwork`: a node per concept id. */
  class DiagramNetwork {
    var nodes: map<int, Node>

    ghost predicate Valid()
      reads this
    {
      WellFormed(nodes)
    }

    /** `DiagramNetwork()`: no nodes. */
    constructor ()
      ensures Valid() && nodes == map[]
    {
      nodes := map[];
    }

    /**
     * `add_link`: create the missing end nodes, then record `link` as the
     * outward link of its source and the inward link of its target, unless a
     * link between those two was recorded first.
     */
    method AddLink(link: Link)
      requires Valid()
      modifies this
      ensures Valid()
      ensures Outs(nodes) == Attach(Outs(old(nodes)), link.source.id, link.target.id, link)
      ensures Ins(nodes) == Attach(Ins(old(nodes)), link.target.id, link.source.id, link)
    {
      ghost var outs, ins := Outs(nodes), Ins(nodes);
      var source, target := link.source, link.target;
      if source.id !in nodes {
        NewNode(nodes, source);
        nodes := nodes[source.id := Node(source, map[], map[])];
      }
      assert Outs(nodes) == Touch(outs, source.id) && Ins(nodes) == Touch(ins, source.id);
      OutwardAdded(nodes, link);
      nodes := nodes[source.id := nodes[source.id].AddOutwardLink(link).1];
      assert Outs(nodes) == AddAt(Touch(outs, source.id), source.id, target.id, link);
      if target.id !in nodes {
        NewNode(nodes, target);
        nodes := nodes[target.id := Node(target, map[], map[])];
      }
      TouchAfterAdd(Touch(outs, source.id), source.id, target.id, link);
      assert Outs(nodes) == Attach(outs, source.id, target.id, link);
      assert Ins(nodes) == Touch(Touch(ins, source.id), target.id);
      InwardAdded(nodes, link);
      nodes := nodes[target.id := nodes[target.id].AddInwardLink(link).1];
      TouchCommutes(ins, source.id, target.id);
      AttachMirrored(outs, ins, link);
    }

    /**
     * `remove_node`: drop the links to and from `concept` at every node, then
     * the concept's own node; what remains is the network induced on the
     * other concepts.
     */
    method RemoveNode(concept: Concept)
      requires Valid()
      modifies this
      ensures Valid()
      ensures nodes.Keys == old(nodes.Keys) - {concept.id}
      ensures Outs(nodes) == Induced(Outs(old(nodes)), nodes.Keys)
      ensures Ins(nodes) == Induced(Ins(old(nodes)), nodes.Keys)
    {
      var updated := UnlinkAll(nodes, concept);
      RemovedNode(nodes, updated, concept.id);
      if concept.id in updated {
        updated := updated - {concept.id};
      }
      nodes := updated;
    }

    /**
     * `remove_sources_and_sinks`: remove every node without outward or
     * without inward links, with all their links, and count them; the
     * network left is the one induced on the other nodes.
     */
    method RemoveSourcesAndSinks() returns (count: nat)
      requires Valid()
      modifies this
      ensures Valid()
      ensures count == |SourcesAndSinks(Outs(old(nodes)), Ins(old(nodes)))|
      ensures nodes.Keys == old(nodes.Keys) - SourcesAndSinks(Outs(old(nodes)), Ins(old(nodes)))
      ensures Outs(nodes) == Induced(Outs(old(nodes)), nodes.Keys)
      ensures Ins(nodes) == Induced(Ins(old(nodes)), nodes.Keys)
      ensures count == 0 ==> nodes == old(nodes)
      ensures Covered(Outs(old(nodes)), Outs(nodes), {})
    {
      ghost var outs, ins := Outs(nodes), Ins(nodes);
      var toRemove := CollectSourcesAndSinks(nodes);
      RemoveAll(toRemove);
      count := |toRemove|;
      PrunedCovered(outs, ins, nodes.Keys);
    }

    /** The second loop of `remove_sources_and_sinks`: remove each node of `toRemove` as `remove_node` does. */
    method RemoveAll(toRemove: set<int>)
      requires Valid() && toRemove <= nodes.Keys
      modifies this
      ensures Valid()
      ensures nodes.Keys == old(nodes.Keys) - toRemove
      ensures Outs(nodes) == Induced(Outs(old(nodes)), nodes.Keys)
      ensures Ins(nodes) == Induced(Ins(old(nodes)), nodes.Keys)
      ensures toRemove == {} ==> nodes == old(nodes)
    {
      ghost var outs, ins, keys := Outs(nodes), Ins(nodes), nodes.Keys;
      MirroredClosed(outs, ins);
      InducedAll(outs);
      InducedAll(ins);
      var rest := toRemove;
      while rest != {}
        invariant rest <= toRemove <= keys
        invariant Valid()
        invariant nodes.Keys == keys - (toRemove - rest)
        invariant Outs(nodes) == Induced(outs, nodes.Keys) && Ins(nodes) == Induced(ins, nodes.Keys)
        invariant rest == toRemove ==> nodes == old(nodes)
        decreases rest
      {
        var id := Pick(rest);
        ghost var before := nodes.Keys;
        RemoveNode(nodes[id].concept);
        InducedTwice(outs, before, nodes.Keys);
        InducedTwice(ins, before, nodes.Keys);
        OneMoreRemoved(keys, toRemove, rest, id);
        rest := rest - {id};
      }
      assert toRemove - rest == toRemove;
    }

    /** The loop `while remove_sources_and_sinks() > 0` of `get_loops`: prune until every node has links both ways. */
    method Prune()
      requires Valid()
      modifies this
      ensures Valid()
      ensures SourcesAndSinks(Outs(nodes), Ins(nodes)) == {}
      ensures nodes.Keys <= old(nodes.Keys)
      ensures Outs(nodes) == Induced(Outs(old(nodes)), nodes.Keys)
      ensures Ins(nodes) == Induced(Ins(old(nodes)), nodes.Keys)
      ensures Covered(Outs(old(nodes)), Outs(nodes), {})
    {
      ghost var outs, ins, keys := Outs(nodes), Ins(nodes), nodes.Keys;
      var count := RemoveSourcesAndSinks();
      while count > 0
        invariant Valid() && nodes.Keys <= keys
        invariant Outs(nodes) == Induced(outs, nodes.Keys) && Ins(nodes) == Induced(ins, nodes.Keys)
        invariant count == 0 ==> SourcesAndSinks(Outs(nodes), Ins(nodes)) == {}
        invariant Covered(outs, Outs(nodes), {})
        decreases |nodes.Keys| + count
      {
        ghost var before, mid := nodes.Keys, Outs(nodes);
        ghost var dead := SourcesAndSinks(Outs(nodes), Ins(nodes));
        count := RemoveSourcesAndSinks();
        RemovedCount(before, dead);
        InducedTwice(outs, before, nodes.Keys);
        InducedTwice(ins, before, nodes.Keys);
        CoveredTransitive(outs, mid, Outs(nodes), {}, {}, {});
      }
    }

    /**
     * `_get_loops_recursive`: follow each outward link of `node` from the end
     * of `sequence`; a sequence that comes back to its first concept is added
     * to `loopSet`, one that comes back elsewhere is dropped, and an open one
     * is followed further from its new end. Every loop stored is an
     * elementary loop of `graph`, a network the current one is part of.
     */
    method GetLoopsRecursive(node: Node, sequence: Sequence, loopSet: LoopSet, ghost graph: Adjacency)
      requires Linked(nodes) && node.concept.id in nodes && nodes[node.concept.id] == node
      requires sequence.Initialized() && !sequence.isClosed
      requires OpenPath(nodes, graph, sequence.links, node.concept.id)
      requires loopSet.Valid() && ElementaryLoops(loopSet.byRep, graph)
      modifies loopSet`loops, loopSet`byId, loopSet`byRep, loopSet.counter
      ensures loopSet.Valid() && ElementaryLoops(loopSet.byRep, graph)
      ensures forall s :: s in loopSet.loops ==> s in old(loopSet.loops) || fresh(s)
      ensures old(loopSet.byRep.Keys) <= loopSet.byRep.Keys
      ensures FoundAfter(Outs(nodes), sequence.links, node.concept.id, loopSet.byRep.Keys)
      decreases |nodes.Keys| - |sequence.links|, 2
    {
      ghost var adj, prefix, from := Outs(nodes), sequence.links, node.concept.id;
      var todo := node.outward.Keys;
      while todo != {}
        invariant todo <= node.outward.Keys
        invariant loopSet.Valid() && ElementaryLoops(loopSet.byRep, graph)
        invariant forall s :: s in loopSet.loops ==> s in old(loopSet.loops) || fresh(s)
        invariant old(loopSet.byRep.Keys) <= loopSet.byRep.Keys
        invariant FoundToward(adj, prefix, from, node.outward.Keys - todo, loopSet.byRep.Keys)
        decreases todo
      {
        var target := Pick(todo);
        ghost var before := loopSet.byRep.Keys;
        FollowLink(node, target, sequence, loopSet, graph);
        FoundTowardMore(adj, prefix, from, node.outward.Keys - todo, target, before, loopSet.byRep.Keys);
        assert node.outward.Keys - (todo - {target}) == node.outward.Keys - todo + {target};
        todo := todo - {target};
      }
      AllTargetsFound(nodes, node, prefix, loopSet.byRep.Keys);
    }

    /** One pass of the loop of `_get_loops_recursive`: the outward link of `node` keyed by `target`. */
    method FollowLink(node: Node, target: int, sequence: Sequence, loopSet: LoopSet, ghost graph: Adjacency)
      requires Linked(nodes) && node.concept.id in nodes && nodes[node.concept.id] == node && target in node.outward
      requires sequence.Initialized() && !sequence.isClosed
      requires OpenPath(nodes, graph, sequence.links, node.concept.id)
      requires loopSet.Valid() && ElementaryLoops(loopSet.byRep, graph)
      modifies loopSet`loops, loopSet`byId, loopSet`byRep, loopSet.counter
      ensures loopSet.Valid() && ElementaryLoops(loopSet.byRep, graph)
      ensures forall s :: s in loopSet.loops ==> s in old(loopSet.loops) || fresh(s)
      ensures old(loopSet.byRep.Keys) <= loopSet.byRep.Keys
      ensures FoundToward(Outs(nodes), sequence.links, node.concept.id, {target}, loopSet.byRep.Keys)
      decreases |nodes.Keys| - |sequence.links|, 1
    {
      var next := Extend(sequence, node.outward[target], loopSet);
      Continue(node, target, sequence, next, loopSet, graph);
      FollowedFound(nodes, node, sequence.links, target, loopSet.byRep.Keys);
    }

    /** What the loop of `_get_loops_recursive` does with `next`, the sequence extended by the link to `target`. */
    method Continue(node: Node, target: int, sequence: Sequence, next: Sequence, loopSet: LoopSet, ghost graph: Adjacency)
      requires Linked(nodes) && node.concept.id in nodes && nodes[node.concept.id] == node && target in node.outward
      requires OpenPath(nodes, graph, sequence.links, node.concept.id)
      requires next.Initialized() && next.links == sequence.links + [node.outward[target]]
      requires loopSet.Valid() && ElementaryLoops(loopSet.byRep, graph)
      modifies loopSet`loops, loopSet`byId, loopSet`byRep, loopSet.counter
      ensures loopSet.Valid() && ElementaryLoops(loopSet.byRep, graph)
      ensures forall s :: s in loopSet.loops ==> s in old(loopSet.loops) || fresh(s)
      ensures old(loopSet.byRep.Keys) <= loopSet.byRep.Keys
      ensures FoundBeginning(Outs(nodes), sequence.links + [node.outward[target]], loopSet.byRep.Keys)
      decreases |nodes.Keys| - |sequence.links|, 0
    {
      Followed(nodes, graph, sequence.links, node, target);
      OutwardLink(nodes, graph, node, target);
      if next.isLoop {
        Store(loopSet, next, graph);
        ClosedFound(Outs(nodes), next.links, loopSet.byRep.Keys);
      } else if next.isClosed {
        // A closed sequence that is not a loop begins no elementary loop.
        ClosedFound(Outs(nodes), next.links, loopSet.byRep.Keys);
      } else if target in nodes {
        GetLoopsRecursive(nodes[target], next, loopSet, graph);
        OpenFound(Outs(nodes), next.links, loopSet.byRep.Keys);
      }
    }

    /**
     * `get_loops`: prune the network, then take its nodes in turn; each one
     * still present (and so neither a sink nor a source) has the loops through
     * it collected, is removed, and the network is pruned again. Every loop
     * found is an elementary loop of the network as it was, every elementary
     * loop of that network is found, the loops end numbered in order, and the
     * network ends empty.
     */
    method GetLoops(counter: SequenceCounter) returns (loopSet: LoopSet)
      requires Valid()
      modifies this, counter
      ensures Valid() && nodes == map[]
      ensures fresh(loopSet) && loopSet.Valid() && loopSet.counter == counter
      ensures |loopSet.loopsList| == |loopSet.loops| && forall s :: s in loopSet.loops <==> s in loopSet.loopsList
      ensures forall i, j {:trigger loopSet.loopsList[i].LessThan(loopSet.loopsList[j])} ::
                0 <= i < j < |loopSet.loopsList| ==> loopSet.loopsList[i].LessThan(loopSet.loopsList[j])
      ensures forall i :: 0 <= i < |loopSet.loopsList| ==> loopSet.loopsList[i].id == i
      ensures forall s :: s in loopSet.loops ==> Elementary(Outs(old(nodes)), s.links)
      ensures AllFound(Outs(old(nodes)), loopSet.loops)
    {
      ghost var graph := Outs(nodes);
      Prune();
      InducedSub(graph, nodes.Keys);
      loopSet := Collect(counter, graph);
      loopSet.Finalize();
    }

    /** `get_loops` after the first pruning, up to the numbering: a new loop set holding the loops found visiting every node. */
    method Collect(counter: SequenceCounter, ghost graph: Adjacency) returns (loopSet: LoopSet)
      requires Valid() && SourcesAndSinks(Outs(nodes), Ins(nodes)) == {} && SubNetwork(Outs(nodes), graph)
      requires Covered(graph, Outs(nodes), {})
      modifies this, counter
      ensures Valid() && nodes == map[]
      ensures fresh(loopSet) && loopSet.Valid() && loopSet.counter == counter
      ensures forall s :: s in loopSet.loops ==> fresh(s)
      ensures forall s :: s in loopSet.loops ==> Elementary(graph, s.links)
      ensures AllFound(graph, loopSet.loops)
    {
      loopSet := new LoopSet(counter);
      assert loopSet.byRep.Keys == {};
      VisitAll(loopSet, graph);
      StoredElementary(loopSet, graph);
      CoveredStored(graph, Outs(nodes), loopSet);
    }

    /** The loop of `get_loops` over the nodes of the pruned network, which leaves it empty. */
    method VisitAll(loopSet: LoopSet, ghost graph: Adjacency)
      requires Valid() && SourcesAndSinks(Outs(nodes), Ins(nodes)) == {} && SubNetwork(Outs(nodes), graph)
      requires loopSet.Valid() && ElementaryLoops(loopSet.byRep, graph)
      requires Covered(graph, Outs(nodes), loopSet.byRep.Keys)
      modifies this, loopSet`loops, loopSet`byId, loopSet`byRep, loopSet.counter
      ensures Valid() && nodes == map[]
      ensures loopSet.Valid() && ElementaryLoops(loopSet.byRep, graph)
      ensures forall s :: s in loopSet.loops ==> s in old(loopSet.loops) || fresh(s)
      ensures Covered(graph, Outs(nodes), loopSet.byRep.Keys)
    {
      var todo := nodes.Keys;
      while todo != {}
        invariant Valid() && nodes.Keys <= todo
        invariant SourcesAndSinks(Outs(nodes), Ins(nodes)) == {} && SubNetwork(Outs(nodes), graph)
        invariant loopSet.Valid() && ElementaryLoops(loopSet.byRep, graph)
        invariant forall s :: s in loopSet.loops ==> s in old(loopSet.loops) || fresh(s)
        invariant Covered(graph, Outs(nodes), loopSet.byRep.Keys)
        decreases todo
      {
        var id := Pick(todo);
        Visit(id, loopSet, graph);
        todo := todo - {id};
      }
      assert nodes.Keys == {};
    }

    /** One pass of the loop of `get_loops`, for the node keyed by `id`. */
    method Visit(id: int, loopSet: LoopSet, ghost graph: Adjacency)
      requires Valid() && SourcesAndSinks(Outs(nodes), Ins(nodes)) == {} && SubNetwork(Outs(nodes), graph)
      requires loopSet.Valid() && ElementaryLoops(loopSet.byRep, graph)
      requires Covered(graph, Outs(nodes), loopSet.byRep.Keys)
      modifies this, loopSet`loops, loopSet`byId, loopSet`byRep, loopSet.counter
      ensures Valid() && SourcesAndSinks(Outs(nodes), Ins(nodes)) == {} && SubNetwork(Outs(nodes), graph)
      ensures nodes.Keys <= old(nodes.Keys) - {id}
      ensures loopSet.Valid() && ElementaryLoops(loopSet.byRep, graph)
      ensures forall s :: s in loopSet.loops ==> s in old(loopSet.loops) || fresh(s)
      ensures Covered(graph, Outs(nodes), loopSet.byRep.Keys)
    {
      if id in nodes {
        var node := nodes[id];
        assert id !in SourcesAndSinks(Outs(nodes), Ins(nodes));
        if !node.IsSink() && !node.IsSource() {
          ghost var outs, found := Outs(nodes), loopSet.byRep.Keys;
          WellFormedLinked(nodes);
          Explore(node, loopSet, graph);
          Retire(node.concept, graph, loopSet);
          CoveredTransitive(graph, outs, Outs(nodes), found, loopSet.byRep.Keys, loopSet.byRep.Keys);
        } else {
          assert false;
        }
      }
    }

    /** The call `_get_loops_recursive(node, Sequence(), loop_set)` of `get_loops`. */
    method Explore(node: Node, loopSet: LoopSet, ghost graph: Adjacency)
      requires Linked(nodes) && node.concept.id in nodes && nodes[node.concept.id] == node && SubNetwork(Outs(nodes), graph)
      requires loopSet.Valid() && ElementaryLoops(loopSet.byRep, graph)
      modifies loopSet`loops, loopSet`byId, loopSet`byRep, loopSet.counter
      ensures loopSet.Valid() && ElementaryLoops(loopSet.byRep, graph)
      ensures forall s :: s in loopSet.loops ==> s in old(loopSet.loops) || fresh(s)
      ensures old(loopSet.byRep.Keys) <= loopSet.byRep.Keys
      ensures FoundThrough(Outs(nodes), node.concept.id, loopSet.byRep.Keys)
    {
      var empty := Start(loopSet);
      assert OpenPath(nodes, graph, empty.links, node.concept.id);
      GetLoopsRecursive(node, empty, loopSet, graph);
      StartFound(Outs(nodes), node.concept.id, loopSet.byRep.Keys);
    }

    /** The `remove_node` and the pruning after it in `get_loops`. */
    method Retire(concept: Concept, ghost graph: Adjacency, ghost loopSet: LoopSet)
      requires Valid() && SubNetwork(Outs(nodes), graph)
      requires FoundThrough(Outs(nodes), concept.id, loopSet.byRep.Keys)
      modifies this
      ensures unchanged(loopSet, loopSet.loops, loopSet.counter)
      ensures Valid() && SourcesAndSinks(Outs(nodes), Ins(nodes)) == {} && SubNetwork(Outs(nodes), graph)
      ensures nodes.Keys <= old(nodes.Keys) - {concept.id}
      ensures Covered(Outs(old(nodes)), Outs(nodes), loopSet.byRep.Keys)
    {
      ghost var outs, keys := Outs(nodes), nodes.Keys;
      ghost var start := outs;
      RemoveNode(concept);
      assert nodes.Keys == keys - {concept.id} == outs.Keys - {concept.id};
      RemovedCovered(outs, concept.id, loopSet.byRep.Keys);
      InducedSub(outs, nodes.Keys);
      SubNetworkTransitive(Outs(nodes), outs, graph);
      outs, keys := Outs(nodes), nodes.Keys;
      Prune();
      assert nodes.Keys <= keys;
      InducedSub(outs, nodes.Keys);
      SubNetworkTransitive(Outs(nodes), outs, graph);
      CoveredTransitive(start, outs, Outs(nodes), loopSet.byRep.Keys, {}, loopSet.byRep.Keys);
    }
  }
}
