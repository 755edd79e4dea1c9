/**
 * The edge-list representation of the weighted directed graph: a set of
 * vertex labels and a flat list of immutable (source, target, weight)
 * records. `sources` and `targets` filter the list; `set` and `remove`
 * search it and edit it in place. This representation does not reject
 * self-loops.
 */
module EdgesGraph {
  import opened WeightedGraph

  /** An immutable weighted edge; its representation invariant is a positive weight. */
  datatype Edge<L(==)> = Edge(source: L, target: L, weight: int) {

    /** The ordered pair of endpoints. */
    function Key(): (L, L) {
      (source, target)
    }

    ghost predicate Valid() {
      weight > 0
    }

    /** A new edge with the same endpoints and `newWeight` as its weight. */
    function SetWeight(newWeight: int): (e: Edge<L>)
      requires Valid() && newWeight > 0
      ensures e.Valid() && e.Key() == Key() && e.weight == newWeight
    {
      Edge(source, target, newWeight)
    }

    /** Field-by-field comparison; it coincides with equality of edge values. */
    predicate Equals(that: Edge<L>): (r: bool)
      ensures r <==> this == that
    {
      source == that.source && target == that.target && weight == that.weight
    }
  }

  /** At most one record per ordered (source, target) pair. */
  ghost predicate UniquePairs<L>(es: seq<Edge<L>>) {
    forall i, j :: 0 <= i < |es| && 0 <= j < |es| && i != j ==> es[i].Key() != es[j].Key()
  }

  /** The edge map an edge list stands for. */
  function EdgeMap<L(==)>(es: seq<Edge<L>>): map<(L, L), int>
    requires UniquePairs(es)
  {
    map i | 0 <= i < |es| :: es[i].Key() := es[i].weight
  }

  /** A pair is a key of the edge map exactly when some record carries it, and the record's weight is the value. */
  lemma EdgeMapAt<L>(es: seq<Edge<L>>, i: int)
    requires UniquePairs(es) && 0 <= i < |es|
    ensures es[i].Key() in EdgeMap(es) && EdgeMap(es)[es[i].Key()] == es[i].weight
  {
  }

  /** Every record of `es` that has `v` at neither end, in the original order (`removeIf`). */
  function FilterIncident<L(==,!new)>(es: seq<Edge<L>>, v: L): (r: seq<Edge<L>>)
    ensures forall e :: e in r <==> e in es && e.source != v && e.target != v
    ensures UniquePairs(es) ==> UniquePairs(r)
    ensures |r| <= |es|
  {
    if es == [] then []
    else
      var rest := FilterIncident(es[1..], v);
      if es[0].source == v || es[0].target == v then rest
      else
        assert UniquePairs(es) ==> forall e :: e in rest ==> e.Key() != es[0].Key() by {
          if UniquePairs(es) {
            forall e | e in rest ensures e.Key() != es[0].Key() {
              var j :| 0 <= j < |es[1..]| && es[1..][j] == e;
              assert es[j + 1] == e;
            }
          }
        }
        [es[0]] + rest
  }

  /** The sources of `target` read off the list (a filter collected into a map). */
  function SourcesIn<L(==)>(es: seq<Edge<L>>, target: L): map<L, int>
    requires UniquePairs(es)
  {
    map i | 0 <= i < |es| && es[i].target == target :: es[i].source := es[i].weight
  }

  /** The targets of `source` read off the list (a filter collected into a map). */
  function TargetsIn<L(==)>(es: seq<Edge<L>>, source: L): map<L, int>
    requires UniquePairs(es)
  {
    map i | 0 <= i < |es| && es[i].source == source :: es[i].target := es[i].weight
  }

  /** Appending a record for a new pair adds exactly that pair to the edge map. */
  lemma EdgeMapAppend<L>(es: seq<Edge<L>>, e: Edge<L>)
    requires UniquePairs(es) && e.Key() !in EdgeMap(es)
    ensures UniquePairs(es + [e])
    ensures EdgeMap(es + [e]) == EdgeMap(es)[e.Key() := e.weight]
  {
    forall i | 0 <= i < |es| ensures es[i].Key() != e.Key() {
      EdgeMapAt(es, i);
    }
    assert UniquePairs(es + [e]);
    AppendedEdgesKept(es, e);
    KeptEdgesAppended(es, e);
    MapsEqual(EdgeMap(es + [e]), EdgeMap(es)[e.Key() := e.weight]);
  }

  /** Every edge after appending `e` is `e` or an edge from before, with its weight. */
  lemma AppendedEdgesKept<L>(es: seq<Edge<L>>, e: Edge<L>)
    requires UniquePairs(es) && UniquePairs(es + [e])
    ensures forall p :: p in EdgeMap(es + [e]) ==>
              p in EdgeMap(es)[e.Key() := e.weight] && EdgeMap(es + [e])[p] == EdgeMap(es)[e.Key() := e.weight][p]
  {
    var es' := es + [e];
    var m, m' := EdgeMap(es), EdgeMap(es');
    forall p | p in m' ensures p in m[e.Key() := e.weight] && m'[p] == m[e.Key() := e.weight][p] {
      var i :| 0 <= i < |es'| && es'[i].Key() == p;
      EdgeMapAt(es', i);
      if i < |es| {
        assert es'[i] == es[i] && es'[|es|] == e;
        assert p != e.Key();
        EdgeMapAt(es, i);
      } else {
        assert es'[i] == e;
      }
    }
  }

  /** Every edge from before, and `e`, is an edge after appending `e`. */
  lemma KeptEdgesAppended<L>(es: seq<Edge<L>>, e: Edge<L>)
    requires UniquePairs(es) && UniquePairs(es + [e])
    ensures forall p :: p in EdgeMap(es)[e.Key() := e.weight] ==> p in EdgeMap(es + [e])
  {
    var es' := es + [e];
    forall p | p in EdgeMap(es)[e.Key() := e.weight] ensures p in EdgeMap(es') {
      if p != e.Key() {
        var i :| 0 <= i < |es| && es[i].Key() == p;
        EdgeMapAt(es', i);
      } else {
        EdgeMapAt(es', |es|);
      }
    }
  }

  /** Replacing the record for a pair by one for the same pair changes only that pair's weight. */
  lemma EdgeMapReplace<L>(es: seq<Edge<L>>, k: int, e: Edge<L>)
    requires UniquePairs(es) && 0 <= k < |es| && es[k].Key() == e.Key()
    ensures UniquePairs(es[k := e])
    ensures EdgeMap(es[k := e]) == EdgeMap(es)[e.Key() := e.weight]
  {
    var es' := es[k := e];
    assert forall i :: 0 <= i < |es| ==> es'[i].Key() == es[i].Key();
    ReplacedEdgesKept(es, k, e, es');
    KeptEdgesReplaced(es, k, e, es');
    MapsEqual(EdgeMap(es'), EdgeMap(es)[e.Key() := e.weight]);
  }

  /** Every edge after the replacement is an edge from before, with its old weight unless it is the replaced pair. */
  lemma ReplacedEdgesKept<L>(es: seq<Edge<L>>, k: int, e: Edge<L>, es': seq<Edge<L>>)
    requires UniquePairs(es) && 0 <= k < |es| && es[k].Key() == e.Key() && es' == es[k := e] && UniquePairs(es')
    ensures forall p :: p in EdgeMap(es') ==>
              p in EdgeMap(es)[e.Key() := e.weight] && EdgeMap(es')[p] == EdgeMap(es)[e.Key() := e.weight][p]
  {
    var m, m' := EdgeMap(es), EdgeMap(es');
    forall p | p in m' ensures p in m[e.Key() := e.weight] && m'[p] == m[e.Key() := e.weight][p] {
      var i :| 0 <= i < |es'| && es'[i].Key() == p;
      EdgeMapAt(es, i);
      EdgeMapAt(es', i);
    }
  }

  /** Every edge from before is still an edge after the replacement. */
  lemma KeptEdgesReplaced<L>(es: seq<Edge<L>>, k: int, e: Edge<L>, es': seq<Edge<L>>)
    requires UniquePairs(es) && 0 <= k < |es| && es[k].Key() == e.Key() && es' == es[k := e] && UniquePairs(es')
    ensures forall p :: p in EdgeMap(es)[e.Key() := e.weight] ==> p in EdgeMap(es')
  {
    forall p | p in EdgeMap(es)[e.Key() := e.weight] ensures p in EdgeMap(es') {
      if p != e.Key() {
        var i :| 0 <= i < |es| && es[i].Key() == p;
        assert es'[i].Key() == p;
        EdgeMapAt(es', i);
      } else {
        EdgeMapAt(es', k);
      }
    }
  }

  /** Deleting the record at `k` removes exactly its pair from the edge map. */
  lemma EdgeMapDelete<L>(es: seq<Edge<L>>, k: int)
    requires UniquePairs(es) && 0 <= k < |es|
    ensures UniquePairs(es[..k] + es[k + 1..])
    ensures EdgeMap(es[..k] + es[k + 1..]) == EdgeMap(es) - {es[k].Key()}
  {
    DeleteKeepsUnique(es, k);
    DeletedEdgesKept(es, k);
    KeptEdgesStay(es, k);
    MapsEqual(EdgeMap(es[..k] + es[k + 1..]), EdgeMap(es) - {es[k].Key()});
  }

  /** Every edge left after deleting record `k` was an edge before, with the same weight, and not the deleted one. */
  lemma DeletedEdgesKept<L>(es: seq<Edge<L>>, k: int)
    requires UniquePairs(es) && 0 <= k < |es| && UniquePairs(es[..k] + es[k + 1..])
    ensures forall p :: p in EdgeMap(es[..k] + es[k + 1..]) ==>
              p in EdgeMap(es) - {es[k].Key()} && EdgeMap(es[..k] + es[k + 1..])[p] == EdgeMap(es)[p]
  {
    var es' := es[..k] + es[k + 1..];
    var m, m' := EdgeMap(es), EdgeMap(es');
    forall p | p in m' ensures p in m - {es[k].Key()} && m'[p] == m[p] {
      var i :| 0 <= i < |es'| && es'[i].Key() == p;
      var j := if i < k then i else i + 1;
      assert es'[i] == es[j];
      EdgeMapAt(es', i);
      EdgeMapAt(es, j);
    }
  }

  /** Every edge other than the deleted one is still there after deleting record `k`. */
  lemma KeptEdgesStay<L>(es: seq<Edge<L>>, k: int)
    requires UniquePairs(es) && 0 <= k < |es| && UniquePairs(es[..k] + es[k + 1..])
    ensures forall p :: p in EdgeMap(es) - {es[k].Key()} ==> p in EdgeMap(es[..k] + es[k + 1..])
  {
    var es' := es[..k] + es[k + 1..];
    forall p | p in EdgeMap(es) - {es[k].Key()} ensures p in EdgeMap(es') {
      var j :| 0 <= j < |es| && es[j].Key() == p;
      var i := if j < k then j else j - 1;
      assert j != k && es'[i] == es[j];
      EdgeMapAt(es', i);
    }
  }

  /** Deleting a record keeps the pairs of the others distinct. */
  lemma DeleteKeepsUnique<L>(es: seq<Edge<L>>, k: int)
    requires UniquePairs(es) && 0 <= k < |es|
    ensures UniquePairs(es[..k] + es[k + 1..])
  {
    var es' := es[..k] + es[k + 1..];
    assert forall i :: 0 <= i < |es'| ==> es'[i] == es[if i < k then i else i + 1];
  }

  /** Filtering out the records incident to `v` drops exactly the edges incident to `v`. */
  lemma EdgeMapFilter<L(!new)>(es: seq<Edge<L>>, v: L)
    requires UniquePairs(es)
    ensures EdgeMap(FilterIncident(es, v)) == DropIncident(EdgeMap(es), v)
  {
    FilteredEdgesKept(es, v);
    KeptEdgesFiltered(es, v);
    MapsEqual(EdgeMap(FilterIncident(es, v)), DropIncident(EdgeMap(es), v));
  }

  /** Two maps with the same keys and the same value at each key are equal. */
  lemma MapsEqual<K, V>(m: map<K, V>, m': map<K, V>)
    requires forall p :: p in m ==> p in m' && m[p] == m'[p]
    requires forall p :: p in m' ==> p in m
    ensures m == m'
  {
  }

  /** Every edge left by the filter was an edge before, not incident to `v`, with its weight. */
  lemma FilteredEdgesKept<L(!new)>(es: seq<Edge<L>>, v: L)
    requires UniquePairs(es)
    ensures forall p :: p in EdgeMap(FilterIncident(es, v)) ==>
              p in DropIncident(EdgeMap(es), v) && EdgeMap(FilterIncident(es, v))[p] == DropIncident(EdgeMap(es), v)[p]
  {
    var es' := FilterIncident(es, v);
    var m, m' := EdgeMap(es), EdgeMap(es');
    var d := DropIncident(m, v);
    forall p | p in m' ensures p in d && m'[p] == d[p] {
      var i :| 0 <= i < |es'| && es'[i].Key() == p;
      EdgeMapAt(es', i);
      assert es'[i] in es;
      var j :| 0 <= j < |es| && es[j] == es'[i];
      EdgeMapAt(es, j);
    }
  }

  /** Every edge before that is not incident to `v` is left by the filter. */
  lemma KeptEdgesFiltered<L(!new)>(es: seq<Edge<L>>, v: L)
    requires UniquePairs(es)
    ensures forall p :: p in DropIncident(EdgeMap(es), v) ==> p in EdgeMap(FilterIncident(es, v))
  {
    var es' := FilterIncident(es, v);
    forall p | p in DropIncident(EdgeMap(es), v) ensures p in EdgeMap(es') {
      var j :| 0 <= j < |es| && es[j].Key() == p;
      assert es[j] in es';
      var i :| 0 <= i < |es'| && es'[i] == es[j];
      EdgeMapAt(es', i);
    }
  }

  /** The record at `i` contributes its source and weight to the sources of its target. */
  lemma SourcesInAt<L>(es: seq<Edge<L>>, i: int)
    requires UniquePairs(es) && 0 <= i < |es|
    ensures es[i].source in SourcesIn(es, es[i].target)
    ensures SourcesIn(es, es[i].target)[es[i].source] == es[i].weight
  {
  }

  /** The record at `i` contributes its target and weight to the targets of its source. */
  lemma TargetsInAt<L>(es: seq<Edge<L>>, i: int)
    requires UniquePairs(es) && 0 <= i < |es|
    ensures es[i].target in TargetsIn(es, es[i].source)
    ensures TargetsIn(es, es[i].source)[es[i].target] == es[i].weight
  {
  }

  /** At one label, the filtered sources agree with the sources of the abstract graph. */
  lemma SourcesInAgreeAt<L(!new)>(es: seq<Edge<L>>, target: L, s: L)
    requires UniquePairs(es)
    ensures s in SourcesIn(es, target) <==> s in Sources(EdgeMap(es), target)
    ensures s in SourcesIn(es, target) ==> SourcesIn(es, target)[s] == Sources(EdgeMap(es), target)[s]
  {
    if s in SourcesIn(es, target) {
      var i :| 0 <= i < |es| && es[i].target == target && es[i].source == s;
      SourcesInAt(es, i);
      EdgeMapAt(es, i);
    }
  }

  /** The filtered sources are the sources of the abstract graph. */
  lemma SourcesInAgree<L(!new)>(es: seq<Edge<L>>, target: L)
    requires UniquePairs(es)
    ensures SourcesIn(es, target) == Sources(EdgeMap(es), target)
  {
    forall s ensures s in SourcesIn(es, target) <==> s in Sources(EdgeMap(es), target) {
      SourcesInAgreeAt(es, target, s);
    }
    forall s | s in SourcesIn(es, target)
      ensures SourcesIn(es, target)[s] == Sources(EdgeMap(es), target)[s]
    {
      SourcesInAgreeAt(es, target, s);
    }
  }

  /** At one label, the filtered targets agree with the targets of the abstract graph. */
  lemma TargetsInAgreeAt<L(!new)>(es: seq<Edge<L>>, source: L, t: L)
    requires UniquePairs(es)
    ensures t in TargetsIn(es, source) <==> t in Targets(EdgeMap(es), source)
    ensures t in TargetsIn(es, source) ==> TargetsIn(es, source)[t] == Targets(EdgeMap(es), source)[t]
  {
    if t in TargetsIn(es, source) {
      var i :| 0 <= i < |es| && es[i].source == source && es[i].target == t;
      TargetsInAt(es, i);
      EdgeMapAt(es, i);
    }
  }

  /** The filtered targets are the targets of the abstract graph. */
  lemma TargetsInAgree<L(!new)>(es: seq<Edge<L>>, source: L)
    requires UniquePairs(es)
    ensures TargetsIn(es, source) == Targets(EdgeMap(es), source)
  {
    forall t ensures t in TargetsIn(es, source) <==> t in Targets(EdgeMap(es), source) {
      TargetsInAgreeAt(es, source, t);
    }
    forall t | t in TargetsIn(es, source)
      ensures TargetsIn(es, source)[t] == Targets(EdgeMap(es), source)[t]
    {
      TargetsInAgreeAt(es, source, t);
    }
  }

  class ConcreteEdgesGraph<L(==,!new)> {
    var vertices: set<L>
    var edges: seq<Edge<L>>

    /** One record per pair, positive weights, and both ends of every record are vertices. */
    ghost predicate Valid()
      reads this
    {
      && UniquePairs(edges)
      && forall i :: 0 <= i < |edges| ==>
           edges[i].Valid() && edges[i].source in vertices && edges[i].target in vertices
    }

    /** The graph value the vertex set and the edge list stand for. */
    ghost function Abstract(): Graph<L>
      reads this
      requires Valid()
    {
      Graph(vertices, EdgeMap(edges))
    }

    /** The abstraction of a valid edge list is a valid graph. */
    lemma AbstractValid()
      requires Valid()
      ensures WeightedGraph.Valid(Abstract())
    {
      forall p | p in EdgeMap(edges)
        ensures p.0 in vertices && p.1 in vertices && EdgeMap(edges)[p] > 0
      {
        var i :| 0 <= i < |edges| && edges[i].Key() == p;
        EdgeMapAt(edges, i);
      }
    }

    constructor ()
      ensures Valid() && vertices == {} && edges == []
    {
      vertices := {};
      edges := [];
    }

    /** Adds `vertex` to the vertex set; true when it was not there before. */
    method Add(vertex: L) returns (added: bool)
      requires Valid()
      modifies this
      ensures Valid()
      ensures added <==> vertex !in old(vertices)
      ensures vertices == old(vertices) + {vertex} && edges == old(edges)
    {
      added := vertex !in vertices;
      vertices := vertices + {vertex};
    }

    /** The index of the record for `source -> target`, or -1 when there is none. */
    method IndexOfEdgeInEdges(source: L, target: L) returns (index: int)
      requires Valid()
      ensures -1 <= index < |edges|
      ensures index >= 0 ==> edges[index].Key() == (source, target)
      ensures index >= 0 ==> forall i :: 0 <= i < |edges| && edges[i].Key() == (source, target) ==> i == index
      ensures index < 0 <==> (source, target) !in EdgeMap(edges)
    {
      var i := 0;
      while i < |edges|
        invariant 0 <= i <= |edges|
        invariant forall j :: 0 <= j < i ==> edges[j].Key() != (source, target)
      {
        if edges[i].source == source && edges[i].target == target {
          EdgeMapAt(edges, i);
          return i;
        }
        i := i + 1;
      }
      return -1;
    }

    /**
     * Sets the weight of `source -> target` and returns the weight it had (0
     * when it had none). A positive weight overwrites the record in place or
     * appends a new record and adds both ends as vertices; weight 0 deletes
     * the record and never touches the vertex set.
     */
    method Set(source: L, target: L, weight: int) returns (previous: int)
      requires Valid() && weight >= 0
      modifies this
      ensures Valid()
      ensures previous == Weight(old(Abstract()), source, target)
      ensures Abstract().edges == WithWeight(old(Abstract()).edges, source, target, weight)
      ensures vertices == if weight > 0 && (source, target) !in old(EdgeMap(edges))
                          then old(vertices) + {source, target} else old(vertices)
      ensures weight > 0 && (source, target) !in old(EdgeMap(edges)) ==>
                edges == old(edges) + [Edge(source, target, weight)]
      ensures forall k :: 0 <= k < |old(edges)| && old(edges)[k].Key() == (source, target) ==>
                edges == if weight > 0 then old(edges)[k := Edge(source, target, weight)]
                         else old(edges)[..k] + old(edges)[k + 1..]
      ensures weight == 0 && (source, target) !in old(EdgeMap(edges)) ==> edges == old(edges)
    {
      var indexOfEdge := IndexOfEdgeInEdges(source, target);
      previous := 0;
      if weight > 0 {
        var newEdge := Edge(source, target, weight);
        if indexOfEdge < 0 {
          EdgeMapAppend(edges, newEdge);
          var _ := Add(source);
          var _ := Add(target);
          edges := edges + [newEdge];
          assert Valid();
        } else {
          var previousEdge := edges[indexOfEdge];
          EdgeMapAt(edges, indexOfEdge);
          EdgeMapReplace(edges, indexOfEdge, newEdge);
          edges := edges[indexOfEdge := newEdge];
          assert Valid();
          previous := previousEdge.weight;
        }
      } else if weight == 0 && indexOfEdge >= 0 {
        var previousEdge := edges[indexOfEdge];
        EdgeMapAt(edges, indexOfEdge);
        EdgeMapDelete(edges, indexOfEdge);
        edges := edges[..indexOfEdge] + edges[indexOfEdge + 1..];
        assert Valid();
        previous := previousEdge.weight;
      }
    }

    /**
     * Removes `vertex` and every record that has it as source or target;
     * true exactly when the vertex was present.
     */
    method Remove(vertex: L) returns (removed: bool)
      requires Valid()
      modifies this
      ensures Valid()
      ensures removed <==> vertex in old(vertices)
      ensures vertices == old(vertices) - {vertex}
      ensures edges == FilterIncident(old(edges), vertex)
      ensures Abstract() == Graph(old(vertices) - {vertex}, DropIncident(old(Abstract()).edges, vertex))
    {
      var initialSizeEdges := |edges|;
      var initialSizeVertices := |vertices|;
      EdgeMapFilter(edges, vertex);
      ghost var before := edges;
      edges := FilterIncident(edges, vertex);
      var removedVertex := vertex in vertices;
      vertices := vertices - {vertex};
      forall i | 0 <= i < |edges|
        ensures edges[i].Valid() && edges[i].source in vertices && edges[i].target in vertices
      {
        assert edges[i] in before;
        ghost var j :| 0 <= j < |before| && before[j] == edges[i];
      }
      var removedEdge := |edges| != initialSizeEdges;
      if removedEdge {
        FilterKeepsDisjoint(before, vertex);
        ghost var i :| 0 <= i < |before| && (before[i].source == vertex || before[i].target == vertex);
        assert removedVertex;
      }
      RemovedSize(old(vertices), vertex);
      removed := initialSizeVertices - 1 == |vertices|;
    }

    /** The vertex set: the vertices of the graph the representation stands for. */
    function Vertices(): (r: set<L>)
      reads this
      requires Valid()
      ensures r == Abstract().vertices
    {
      vertices
    }

    /** Every source of an edge into `target`, with its weight; empty for a label that is not a vertex. */
    function Sources(target: L): (r: map<L, int>)
      reads this
      requires Valid()
      ensures r == WeightedGraph.Sources(EdgeMap(edges), target)
      ensures target !in vertices ==> r == map[]
    {
      SourcesInAgree(edges, target);
      AbstractValid();
      AbsentVertexIsolated(Abstract(), target);
      SourcesIn(edges, target)
    }

    /** Every target of an edge out of `source`, with its weight; empty for a label that is not a vertex. */
    function Targets(source: L): (r: map<L, int>)
      reads this
      requires Valid()
      ensures r == WeightedGraph.Targets(EdgeMap(edges), source)
      ensures source !in vertices ==> r == map[]
    {
      TargetsInAgree(edges, source);
      AbstractValid();
      AbsentVertexIsolated(Abstract(), source);
      TargetsIn(edges, source)
    }
  }

  /** Taking one element out of a set shrinks it by one exactly when the element was there. */
  lemma RemovedSize<T>(s: set<T>, x: T)
    ensures |s - {x}| == if x in s then |s| - 1 else |s|
  {
    if x in s {
      assert s == (s - {x}) + {x};
    } else {
      assert s - {x} == s;
    }
  }

  /** A list with no record incident to `v` is left as it is by the filter. */
  lemma {:induction false} FilterKeepsDisjoint<L(!new)>(es: seq<Edge<L>>, v: L)
    ensures (forall i :: 0 <= i < |es| ==> es[i].source != v && es[i].target != v) ==>
              FilterIncident(es, v) == es
  {
    if es != [] {
      FilterKeepsDisjoint(es[1..], v);
      if forall i :: 0 <= i < |es| ==> es[i].source != v && es[i].target != v {
        assert forall i :: 0 <= i < |es[1..]| ==> es[1..][i] == es[i + 1];
        assert [es[0]] + es[1..] == es;
      }
    }
  }
}
