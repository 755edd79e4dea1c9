/**
 * The value that every representation of the word-affinity graph stands for:
 * a finite set of vertex labels and a partial map from ordered label pairs to
 * positive weights. Both concrete representations (an edge list, and vertex
 * objects holding their own weight maps) are related to this value, so the
 * queries `sources` and `targets` are defined once, here, over the edge map.
 */
module WeightedGraph {

  datatype Graph<L(==)> = Graph(vertices: set<L>, edges: map<(L, L), int>)

  /** Every edge joins two vertices of the graph and carries a positive weight. */
  ghost predicate Valid<L>(g: Graph<L>) {
    forall p :: p in g.edges ==> p.0 in g.vertices && p.1 in g.vertices && g.edges[p] > 0
  }

  /** No vertex has an edge to itself. */
  ghost predicate NoSelfLoops<L>(g: Graph<L>) {
    forall p :: p in g.edges ==> p.0 != p.1
  }

  /** The weight of the edge from `source` to `target`, 0 when there is none. */
  function Weight<L(==)>(g: Graph<L>, source: L, target: L): int {
    if (source, target) in g.edges then g.edges[(source, target)] else 0
  }

  /** Every label with an edge into `target`, paired with that edge's weight. */
  function Sources<L(==,!new)>(edges: map<(L, L), int>, target: L): (r: map<L, int>)
    ensures forall s :: s in r <==> (s, target) in edges
    ensures forall s :: s in r ==> r[s] == edges[(s, target)]
  {
    map p | p in edges && p.1 == target :: p.0 := edges[p]
  }

  /** Every label that `source` has an edge to, paired with that edge's weight. */
  function Targets<L(==,!new)>(edges: map<(L, L), int>, source: L): (r: map<L, int>)
    ensures forall t :: t in r <==> (source, t) in edges
    ensures forall t :: t in r ==> r[t] == edges[(source, t)]
  {
    map p | p in edges && p.0 == source :: p.1 := edges[p]
  }

  /** `m` lists exactly the edges into `target`, with their weights, stated edge by edge. */
  ghost predicate IsSources<L(!new)>(m: map<L, int>, edges: map<(L, L), int>, target: L) {
    && (forall s :: s in m ==> (s, target) in edges && m[s] == edges[(s, target)])
    && (forall s :: (s, target) in edges ==> s in m)
  }

  /** `m` lists exactly the edges out of `source`, with their weights, stated edge by edge. */
  ghost predicate IsTargets<L(!new)>(m: map<L, int>, edges: map<(L, L), int>, source: L) {
    && (forall t :: t in m ==> (source, t) in edges && m[t] == edges[(source, t)])
    && (forall t :: (source, t) in edges ==> t in m)
  }

  /** The edge-by-edge description pins the map down: it holds of `Sources` and of nothing else. */
  lemma IsSourcesExactly<L(!new)>(m: map<L, int>, edges: map<(L, L), int>, target: L)
    ensures IsSources(m, edges, target) <==> m == Sources(edges, target)
  {
  }

  /** The edge-by-edge description pins the map down: it holds of `Targets` and of nothing else. */
  lemma IsTargetsExactly<L(!new)>(m: map<L, int>, edges: map<(L, L), int>, source: L)
    ensures IsTargets(m, edges, source) <==> m == Targets(edges, source)
  {
  }

  /** The edge map after setting the edge `source -> target` to `weight`: weight 0 deletes it. */
  function WithWeight<L(==)>(edges: map<(L, L), int>, source: L, target: L, weight: int): map<(L, L), int> {
    if weight > 0 then edges[(source, target) := weight] else edges - {(source, target)}
  }

  /** The edge map without any edge that has `v` as its source or its target. */
  function DropIncident<L(==,!new)>(edges: map<(L, L), int>, v: L): (r: map<(L, L), int>)
    ensures forall p :: p in r <==> p in edges && p.0 != v && p.1 != v
    ensures forall p :: p in r ==> r[p] == edges[p]
  {
    map p | p in edges && p.0 != v && p.1 != v :: edges[p]
  }

  /** The two views of one edge agree: `s` is a source of `t` exactly when `t` is a target of `s`, with the same weight. */
  lemma SourcesTargetsAgree<L(!new)>(g: Graph<L>, s: L, t: L)
    ensures s in Sources(g.edges, t) <==> t in Targets(g.edges, s)
    ensures s in Sources(g.edges, t) ==> Sources(g.edges, t)[s] == Targets(g.edges, s)[t] == Weight(g, s, t)
    ensures Valid(g) && s in Sources(g.edges, t) ==> Weight(g, s, t) > 0
  {
  }

  /** A label that is not a vertex has neither sources nor targets. */
  lemma AbsentVertexIsolated<L(!new)>(g: Graph<L>, v: L)
    requires Valid(g)
    ensures v !in g.vertices ==> Sources(g.edges, v) == map[] && Targets(g.edges, v) == map[]
  {
    if v !in g.vertices {
      assert forall s :: s !in Sources(g.edges, v);
      assert forall t :: t !in Targets(g.edges, v);
    }
  }

  /** Removing a label that is not a vertex leaves the edges alone. */
  lemma DropAbsent<L(!new)>(g: Graph<L>, v: L)
    requires Valid(g)
    ensures v !in g.vertices ==> DropIncident(g.edges, v) == g.edges
  {
  }

  /** Setting an edge changes only the target map of its source, in the way `set` promises. */
  lemma TargetsAfterSet<L(!new)>(edges: map<(L, L), int>, source: L, target: L, weight: int, x: L)
    ensures Targets(WithWeight(edges, source, target, weight), x) ==
      if x != source then Targets(edges, x)
      else if weight > 0 then Targets(edges, x)[target := weight]
      else Targets(edges, x) - {target}
  {
  }

  /** Setting an edge changes only the source map of its target, in the way `set` promises. */
  lemma SourcesAfterSet<L(!new)>(edges: map<(L, L), int>, source: L, target: L, weight: int, x: L)
    ensures Sources(WithWeight(edges, source, target, weight), x) ==
      if x != target then Sources(edges, x)
      else if weight > 0 then Sources(edges, x)[source := weight]
      else Sources(edges, x) - {source}
  {
  }

  /** Removing a vertex purges it from the target map of every other vertex. */
  lemma TargetsAfterDrop<L(!new)>(edges: map<(L, L), int>, v: L, x: L)
    requires x != v
    ensures Targets(DropIncident(edges, v), x) == Targets(edges, x) - {v}
  {
  }

  /** Removing a vertex purges it from the source map of every other vertex. */
  lemma SourcesAfterDrop<L(!new)>(edges: map<(L, L), int>, v: L, x: L)
    requires x != v
    ensures Sources(DropIncident(edges, v), x) == Sources(edges, x) - {v}
  {
  }

  /** A target map kept in step with `set`: updated for the source, untouched for every other vertex. */
  lemma IsTargetsAfterSet<L(!new)>(m: map<L, int>, edges: map<(L, L), int>, source: L, target: L, weight: int, x: L)
    requires IsTargets(m, edges, x)
    ensures IsTargets(if x != source then m else if weight > 0 then m[target := weight] else m - {target},
                      WithWeight(edges, source, target, weight), x)
  {
    IsTargetsExactly(m, edges, x);
    TargetsAfterSet(edges, source, target, weight, x);
    IsTargetsExactly(if x != source then m else if weight > 0 then m[target := weight] else m - {target},
                     WithWeight(edges, source, target, weight), x);
  }

  /** A source map kept in step with `set`: updated for the target, untouched for every other vertex. */
  lemma IsSourcesAfterSet<L(!new)>(m: map<L, int>, edges: map<(L, L), int>, source: L, target: L, weight: int, x: L)
    requires IsSources(m, edges, x)
    ensures IsSources(if x != target then m else if weight > 0 then m[source := weight] else m - {source},
                      WithWeight(edges, source, target, weight), x)
  {
    IsSourcesExactly(m, edges, x);
    SourcesAfterSet(edges, source, target, weight, x);
    IsSourcesExactly(if x != target then m else if weight > 0 then m[source := weight] else m - {source},
                     WithWeight(edges, source, target, weight), x);
  }

  /** A target map kept in step with `remove`: the removed vertex is dropped from it. */
  lemma IsTargetsAfterDrop<L(!new)>(m: map<L, int>, edges: map<(L, L), int>, v: L, x: L)
    requires x != v && IsTargets(m, edges, x)
    ensures IsTargets(m - {v}, DropIncident(edges, v), x)
  {
    IsTargetsExactly(m, edges, x);
    TargetsAfterDrop(edges, v, x);
    IsTargetsExactly(m - {v}, DropIncident(edges, v), x);
  }

  /** A source map kept in step with `remove`: the removed vertex is dropped from it. */
  lemma IsSourcesAfterDrop<L(!new)>(m: map<L, int>, edges: map<(L, L), int>, v: L, x: L)
    requires x != v && IsSources(m, edges, x)
    ensures IsSources(m - {v}, DropIncident(edges, v), x)
  {
    IsSourcesExactly(m, edges, x);
    SourcesAfterDrop(edges, v, x);
    IsSourcesExactly(m - {v}, DropIncident(edges, v), x);
  }
}
