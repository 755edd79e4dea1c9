/**
 * The vertex-list representation of the weighted graph: a list of mutable
 * vertex objects, each holding its own maps of sources and targets with their
 * weights. Every edge is recorded twice, once in its source's target map and
 * once in its target's source map. The graph mirrors the vertex maps in ghost
 * sequences and keeps the ghost edge map `E` they must both agree with; the
 * invariant is stated over those values (`Consistent`), so that what `set` and
 * `remove` do to it is proved once, by lemmas that do not involve the heap.
 */
module VerticesGraph {
  import opened WeightedGraph

  /** Smallest and largest value that `Integer.valueOf` hands out from its shared cache of boxes. */
  const IntegerCacheLow := -128
  const IntegerCacheHigh := 127

  /**
   * Whether the boxes holding `a` and `b` are the same object, which is what
   * `==` between two `Integer`s compares: equal values inside the cache share
   * one box, every other box is distinct.
   */
  predicate SameBox(a: int, b: int) {
    a == b && IntegerCacheLow <= a <= IntegerCacheHigh
  }

  /**
   * What `setSource`/`setTarget` report when the weight stored under `key` in
   * `m` is set to `weight`: the removed weight for 0, 0 for a new key or for a
   * weight whose box is the stored one, and the replaced weight otherwise.
   */
  function Reported<L(==)>(m: map<L, int>, key: L, weight: int): int {
    if weight == 0 then (if key in m then m[key] else 0)
    else if key !in m || SameBox(m[key], weight) then 0
    else m[key]
  }

  /** The weight stored under `key`, 0 when there is none: what the graph interface calls the previous weight. */
  function Stored<L(==)>(m: map<L, int>, key: L): int {
    if key in m then m[key] else 0
  }

  /**
   * The report is the previous weight in every case but one: re-setting a
   * stored weight to the same value in [1, 127] reports 0, and for every
   * other value the boxes differ and the previous weight is reported.
   */
  lemma ReportedIsPreviousUnlessCached<L>(m: map<L, int>, key: L, weight: int)
    requires weight >= 0
    ensures Reported(m, key, weight) == 0 || Reported(m, key, weight) == Stored(m, key)
    ensures Reported(m, key, weight) != Stored(m, key) <==>
              key in m && m[key] == weight && 0 < weight <= IntegerCacheHigh
  {
  }

  /** A map after `setSource`/`setTarget` stores `weight` under `key`: 0 removes the key. */
  function Assign<L(==)>(m: map<L, int>, key: L, weight: int): map<L, int> {
    if weight == 0 then m - {key} else m[key := weight]
  }

  /** The maps of a vertex never mention the vertex itself and record only positive weights. */
  ghost predicate MapsValid<L>(name: L, sources: map<L, int>, targets: map<L, int>) {
    && name !in sources && name !in targets
    && (forall s :: s in sources ==> sources[s] > 0)
    && (forall t :: t in targets ==> targets[t] > 0)
  }

  /** No label occurs twice. */
  ghost predicate Distinct<L>(names: seq<L>) {
    forall i, j :: 0 <= i < j < |names| ==> names[i] != names[j]
  }

  /** The set of the elements of `s`. */
  function Elems<T>(s: seq<T>): set<T> {
    if s == [] then {} else Elems(s[..|s| - 1]) + {s[|s| - 1]}
  }

  /** Every element of `Elems(s)` occurs at some position of `s`. */
  lemma {:induction false} ElemsIndex<T>(s: seq<T>, x: T) returns (i: int)
    requires x in Elems(s)
    ensures 0 <= i < |s| && s[i] == x
  {
    if x == s[|s| - 1] {
      i := |s| - 1;
    } else {
      i := ElemsIndex(s[..|s| - 1], x);
    }
  }

  /** A value found at no position is not an element. */
  lemma ElemsNone<T>(s: seq<T>, x: T)
    requires forall i :: 0 <= i < |s| ==> s[i] != x
    ensures x !in Elems(s)
  {
    if x in Elems(s) {
      var i := ElemsIndex(s, x);
    }
  }

  /** Appending an element adds it. */
  lemma ElemsAppend<T>(s: seq<T>, x: T)
    ensures Elems(s + [x]) == Elems(s) + {x}
  {
    assert (s + [x])[..|s|] == s;
  }

  /** A list without repetitions has as many elements as positions. */
  lemma {:induction false} DistinctElems<T>(s: seq<T>)
    requires Distinct(s)
    ensures |Elems(s)| == |s|
  {
    if s != [] {
      var front := s[..|s| - 1];
      assert Distinct(front);
      DistinctElems(front);
      ElemsNone(front, s[|s| - 1]);
    }
  }

  /** A subset as large as the set is the set. */
  lemma SubsetSameSize<T>(a: set<T>, b: set<T>)
    requires a <= b && |a| == |b|
    ensures a == b
  {
    if y :| y in b && y !in a {
      assert a <= b - {y};
      assert |b - {y}| == |b| - 1;
      SubsetSize(a, b - {y});
    }
  }

  /** A subset is no larger than the set. */
  lemma {:induction false} SubsetSize<T>(a: set<T>, b: set<T>)
    requires a <= b
    ensures |a| <= |b|
    decreases b
  {
    if a != {} {
      var y :| y in a;
      SubsetSize(a - {y}, b - {y});
    }
  }

  /** `s` without its element at `k`: what `List.remove(k)` leaves. */
  function Without<T>(s: seq<T>, k: int): (r: seq<T>)
    requires 0 <= k < |s|
    ensures |r| == |s| - 1
    ensures forall i :: 0 <= i < |r| ==> r[i] == s[if i < k then i else i + 1]
  {
    s[..k] + s[k + 1..]
  }

  /** Every map of `ms` without the key `v`. */
  function DropFromAll<L(==)>(ms: seq<map<L, int>>, v: L): (r: seq<map<L, int>>)
    ensures |r| == |ms|
    ensures forall i :: 0 <= i < |ms| ==> r[i] == ms[i] - {v}
  {
    seq(|ms|, i requires 0 <= i < |ms| => ms[i] - {v})
  }

  /**
   * The representation invariant, over values: vertex `i` is labelled
   * `names[i]` and holds the maps `sourceMaps[i]` and `targetMaps[i]`;
   * `labels` is the set of the labels. Labels are distinct, each vertex's
   * maps list exactly the edges of `edges` into and out of it, and every edge
   * joins two distinct labels with a positive weight.
   */
  ghost predicate Consistent<L(!new)>(names: seq<L>, labels: set<L>, sourceMaps: seq<map<L, int>>, targetMaps: seq<map<L, int>>,
                                      edges: map<(L, L), int>)
  {
    && |sourceMaps| == |names| && |targetMaps| == |names|
    && Distinct(names)
    && (forall i :: 0 <= i < |names| ==> names[i] in labels) && |labels| == |names|
    && (forall i {:trigger IsSources(sourceMaps[i], edges, names[i])} :: 0 <= i < |names| ==> IsSources(sourceMaps[i], edges, names[i]))
    && (forall i {:trigger IsTargets(targetMaps[i], edges, names[i])} :: 0 <= i < |names| ==> IsTargets(targetMaps[i], edges, names[i]))
    && (forall p :: p in edges ==> p.0 in labels && p.1 in labels && p.0 != p.1 && edges[p] > 0)
  }

  /** Every vertex of a consistent graph satisfies the vertex invariant. */
  lemma ConsistentMapsValid<L(!new)>(names: seq<L>, labels: set<L>, sourceMaps: seq<map<L, int>>, targetMaps: seq<map<L, int>>,
                                     edges: map<(L, L), int>, i: int)
    requires Consistent(names, labels, sourceMaps, targetMaps, edges) && 0 <= i < |names|
    ensures MapsValid(names[i], sourceMaps[i], targetMaps[i])
  {
    assert IsSources(sourceMaps[i], edges, names[i]) && IsTargets(targetMaps[i], edges, names[i]);
    assert (names[i], names[i]) !in edges;
  }

  /**
   * The two copies of every edge agree: `b` is a target of `a` exactly when
   * `a` is a source of `b`, and both record the same positive weight.
   */
  lemma ConsistentCopiesAgree<L(!new)>(names: seq<L>, labels: set<L>, sourceMaps: seq<map<L, int>>, targetMaps: seq<map<L, int>>,
                                       edges: map<(L, L), int>, a: int, b: int)
    requires Consistent(names, labels, sourceMaps, targetMaps, edges) && 0 <= a < |names| && 0 <= b < |names|
    ensures names[b] in targetMaps[a] <==> names[a] in sourceMaps[b]
    ensures names[b] in targetMaps[a] ==> targetMaps[a][names[b]] == sourceMaps[b][names[a]] > 0
  {
    assert IsTargets(targetMaps[a], edges, names[a]) && IsSources(sourceMaps[b], edges, names[b]);
  }

  /** The graph as a value: the labelled vertices it is consistent with. */
  lemma ConsistentAbstract<L(!new)>(names: seq<L>, labels: set<L>, sourceMaps: seq<map<L, int>>, targetMaps: seq<map<L, int>>,
                                    edges: map<(L, L), int>)
    requires Consistent(names, labels, sourceMaps, targetMaps, edges)
    ensures WeightedGraph.Valid(Graph(labels, edges))
    ensures NoSelfLoops(Graph(labels, edges))
  {
  }

  /** The label set holds the labels and nothing else. */
  lemma ConsistentLabels<L(!new)>(names: seq<L>, labels: set<L>, sourceMaps: seq<map<L, int>>, targetMaps: seq<map<L, int>>,
                                  edges: map<(L, L), int>)
    requires Consistent(names, labels, sourceMaps, targetMaps, edges)
    ensures labels == Elems(names)
  {
    forall x | x in Elems(names)
      ensures x in labels
    {
      var i := ElemsIndex(names, x);
    }
    DistinctElems(names);
    SubsetSameSize(Elems(names), labels);
  }

  /** Removing a label that is not a vertex leaves the edges alone. */
  lemma ConsistentDropAbsent<L(!new)>(names: seq<L>, labels: set<L>, sourceMaps: seq<map<L, int>>,
                                      targetMaps: seq<map<L, int>>, edges: map<(L, L), int>, v: L)
    requires Consistent(names, labels, sourceMaps, targetMaps, edges) && v !in labels
    ensures DropIncident(edges, v) == edges
  {
    ConsistentAbstract(names, labels, sourceMaps, targetMaps, edges);
    DropAbsent(Graph(labels, edges), v);
  }

  /** Appending a vertex with empty maps for a new label keeps the graph consistent. */
  lemma ConsistentAppend<L(!new)>(names: seq<L>, labels: set<L>, sourceMaps: seq<map<L, int>>, targetMaps: seq<map<L, int>>,
                                  edges: map<(L, L), int>, x: L)
    requires Consistent(names, labels, sourceMaps, targetMaps, edges) && x !in labels
    ensures Consistent(names + [x], labels + {x}, sourceMaps + [map[]], targetMaps + [map[]], edges)
  {
    var names' := names + [x];
    assert forall i :: 0 <= i < |names| ==> names'[i] == names[i];
  }

  /**
   * Setting the edge from vertex `si` to vertex `ti`: assigning the weight in
   * the target map of the one and the source map of the other keeps the
   * graph consistent with the edge map after `set`.
   */
  lemma ConsistentAfterSet<L(!new)>(names: seq<L>, labels: set<L>, sourceMaps: seq<map<L, int>>, targetMaps: seq<map<L, int>>,
                                    edges: map<(L, L), int>, si: int, ti: int, weight: int)
    requires Consistent(names, labels, sourceMaps, targetMaps, edges)
    requires 0 <= si < |names| && 0 <= ti < |names| && si != ti && weight >= 0
    ensures Consistent(names, labels,
                       sourceMaps[ti := Assign(sourceMaps[ti], names[si], weight)],
                       targetMaps[si := Assign(targetMaps[si], names[ti], weight)],
                       WithWeight(edges, names[si], names[ti], weight))
  {
    var source, target := names[si], names[ti];
    var sourceMaps' := sourceMaps[ti := Assign(sourceMaps[ti], source, weight)];
    var targetMaps' := targetMaps[si := Assign(targetMaps[si], target, weight)];
    var edges' := WithWeight(edges, source, target, weight);
    forall i | 0 <= i < |names|
      ensures IsSources(sourceMaps'[i], edges', names[i])
      ensures IsTargets(targetMaps'[i], edges', names[i])
    {
      IsSourcesAfterSet(sourceMaps[i], edges, source, target, weight, names[i]);
      IsTargetsAfterSet(targetMaps[i], edges, source, target, weight, names[i]);
    }
  }

  /**
   * Removing vertex `k`: taking it out of the list and its label out of every
   * other vertex's maps keeps the graph consistent with the edge map after
   * `remove`.
   */
  lemma ConsistentAfterRemove<L(!new)>(names: seq<L>, labels: set<L>, sourceMaps: seq<map<L, int>>, targetMaps: seq<map<L, int>>,
                                       edges: map<(L, L), int>, k: int)
    requires Consistent(names, labels, sourceMaps, targetMaps, edges) && 0 <= k < |names|
    ensures Consistent(Without(names, k), labels - {names[k]},
                       DropFromAll(Without(sourceMaps, k), names[k]),
                       DropFromAll(Without(targetMaps, k), names[k]),
                       DropIncident(edges, names[k]))
  {
    var v := names[k];
    var names' := Without(names, k);
    var sourceMaps' := DropFromAll(Without(sourceMaps, k), v);
    var targetMaps' := DropFromAll(Without(targetMaps, k), v);
    var edges' := DropIncident(edges, v);
    forall i | 0 <= i < |names'|
      ensures IsSources(sourceMaps'[i], edges', names'[i])
      ensures IsTargets(targetMaps'[i], edges', names'[i])
    {
      var j := if i < k then i else i + 1;
      IsSourcesAfterDrop(sourceMaps[j], edges, v, names[j]);
      IsTargetsAfterDrop(targetMaps[j], edges, v, names[j]);
    }
  }

  /**
   * The two copies of the edge `s -> t` (in the target map of `s` and the
   * source map of `t`) produce the same report, the one the abstract target
   * map of `s` produces.
   */
  lemma CopiesReportAlike<L(!new)>(tm: map<L, int>, sm: map<L, int>, edges: map<(L, L), int>, s: L, t: L, weight: int)
    requires IsTargets(tm, edges, s) && IsSources(sm, edges, t)
    ensures Reported(tm, t, weight) == Reported(sm, s, weight) == Reported(edges, (s, t), weight)
  {
  }

  /**
   * The check `Vertex.remove` makes after forgetting `vertex`: when it was
   * both a source and a target, the two weights forgotten must be equal.
   */
  predicate RemoveCheckHolds<L(==)>(sources: map<L, int>, targets: map<L, int>, vertex: L) {
    Stored(sources, vertex) > 0 && Stored(targets, vertex) > 0 ==> Stored(sources, vertex) == Stored(targets, vertex)
  }

  /**
   * In a vertex kept in step with the edges, the check holds exactly when
   * the edges `vertex -> v` and `v -> vertex` do not both exist with
   * different weights. Those are two independent edges, so nothing makes
   * their weights agree.
   */
  lemma RemoveCheckCondition<L(!new)>(edges: map<(L, L), int>, v: L, vertex: L)
    requires forall p :: p in edges ==> edges[p] > 0
    ensures RemoveCheckHolds(WeightedGraph.Sources(edges, v), WeightedGraph.Targets(edges, v), vertex) <==>
              !((vertex, v) in edges && (v, vertex) in edges && edges[(vertex, v)] != edges[(v, vertex)])
  {
  }

  /**
   * `set(x, v, 3)` then `set(v, x, 5)` on an empty graph, with `x` = 0 and
   * `v` = 1, gives a vertex `v` for which `remove(x)` fails the check.
   */
  lemma RemoveCheckFails()
    ensures var edges := WithWeight(WithWeight(map[], 0, 1, 3), 1, 0, 5);
            !RemoveCheckHolds(WeightedGraph.Sources(edges, 1), WeightedGraph.Targets(edges, 1), 0)
  {
    var edges := WithWeight(WithWeight(map[], 0, 1, 3), 1, 0, 5);
    RemoveCheckCondition(edges, 1, 0);
  }

  /**
   * One adjacency of the poem generator on this representation: `set` to 1,
   * then `set` to one more than what the first call reported. An edge of
   * weight 1 stays at 1, because re-setting it to 1 reports 0; every other
   * weight, and a missing edge, grows by one.
   */
  lemma BumpOnVertices<L>(edges: map<(L, L), int>, s: L, t: L)
    requires forall p :: p in edges ==> edges[p] > 0
    ensures var prev := Reported(edges, (s, t), 1);
            var after := WithWeight(WithWeight(edges, s, t, 1), s, t, prev + 1);
            && (s, t) in after
            && after[(s, t)] == if (s, t) in edges && edges[(s, t)] == 1 then 1 else Stored(edges, (s, t)) + 1
  {
  }

  /** On this representation the generator weighs a pair that occurs twice in a row of the corpus as 1, not 2. */
  lemma RepeatedPairStaysAtOne<L>(s: L, t: L)
    ensures var once := WithWeight(WithWeight(map[], s, t, 1), s, t, Reported(map[], (s, t), 1) + 1);
            var twice := WithWeight(WithWeight(once, s, t, 1), s, t, Reported(once, (s, t), 1) + 1);
            (s, t) in twice && twice[(s, t)] == 1
  {
    BumpOnVertices(map[], s, t);
    var once := WithWeight(WithWeight(map[], s, t, 1), s, t, Reported(map[], (s, t), 1) + 1);
    assert once == map[(s, t) := 1];
    BumpOnVertices(once, s, t);
  }

  class Vertex<L(==)> {
    /** The vertex label (`getLabel`). */
    const name: L
    var sources: map<L, int>
    var targets: map<L, int>

    ghost predicate Valid()
      reads this
    {
      MapsValid(name, sources, targets)
    }

    constructor (name: L)
      ensures Valid()
      ensures this.name == name && sources == map[] && targets == map[]
    {
      this.name := name;
      sources := map[];
      targets := map[];
    }

    /** Records `source` with `weight` unless it is already a source; reports whether it was new. */
    method AddSource(source: L, weight: int) returns (added: bool)
      requires Valid() && source != name && weight > 0
      modifies this
      ensures Valid()
      ensures added <==> source !in old(sources)
      ensures sources == if added then old(sources)[source := weight] else old(sources)
      ensures targets == old(targets)
    {
      added := source !in sources;
      if added {
        sources := sources[source := weight];
      }
    }

    /** Records `target` with `weight` unless it is already a target; reports whether it was new. */
    method AddTarget(target: L, weight: int) returns (added: bool)
      requires Valid() && target != name && weight > 0
      modifies this
      ensures Valid()
      ensures added <==> target !in old(targets)
      ensures targets == if added then old(targets)[target := weight] else old(targets)
      ensures sources == old(sources)
    {
      added := target !in targets;
      if added {
        targets := targets[target := weight];
      }
    }

    /** Forgets `vertex` as a source and as a target; reports the weight forgotten, the source one first. */
    method Remove(vertex: L) returns (previous: int)
      requires Valid() && vertex != name
      modifies this
      ensures Valid()
      ensures sources == old(sources) - {vertex} && targets == old(targets) - {vertex}
      ensures previous == if vertex in old(sources) then old(sources)[vertex] else Stored(old(targets), vertex)
    {
      var sourcePrevious := RemoveSource(vertex);
      var targetPrevious := RemoveTarget(vertex);
      previous := if sourcePrevious == 0 then targetPrevious else sourcePrevious;
    }

    /** Forgets `source`; reports its weight, 0 when it was not a source. */
    method RemoveSource(source: L) returns (previous: int)
      requires Valid() && source != name
      modifies this
      ensures Valid()
      ensures previous == Stored(old(sources), source)
      ensures source in old(sources) ==> previous > 0
      ensures sources == old(sources) - {source} && targets == old(targets)
    {
      previous := if source in sources then sources[source] else 0;
      sources := sources - {source};
    }

    /** Forgets `target`; reports its weight, 0 when it was not a target. */
    method RemoveTarget(target: L) returns (previous: int)
      requires Valid() && target != name
      modifies this
      ensures Valid()
      ensures previous == Stored(old(targets), target)
      ensures target in old(targets) ==> previous > 0
      ensures targets == old(targets) - {target} && sources == old(sources)
    {
      previous := if target in targets then targets[target] else 0;
      targets := targets - {target};
    }

    /** Sets the weight of `source` (0 forgets it) and reports as `Reported` says. */
    method SetSource(source: L, weight: int) returns (previous: int)
      requires Valid() && source != name && weight >= 0
      modifies this
      ensures Valid()
      ensures sources == Assign(old(sources), source, weight)
      ensures targets == old(targets)
      ensures previous == Reported(old(sources), source, weight)
    {
      if weight == 0 {
        previous := RemoveSource(source);
      } else {
        var added := AddSource(source, weight);
        if added || SameBox(sources[source], weight) {
          previous := 0;
        } else {
          previous := sources[source];
          sources := sources[source := weight];
        }
      }
    }

    /** Sets the weight of `target` (0 forgets it) and reports as `Reported` says. */
    method SetTarget(target: L, weight: int) returns (previous: int)
      requires Valid() && target != name && weight >= 0
      modifies this
      ensures Valid()
      ensures targets == Assign(old(targets), target, weight)
      ensures sources == old(sources)
      ensures previous == Reported(old(targets), target, weight)
    {
      if weight == 0 {
        previous := RemoveTarget(target);
      } else {
        var added := AddTarget(target, weight);
        if added || SameBox(targets[target], weight) {
          previous := 0;
        } else {
          previous := targets[target];
          targets := targets[target := weight];
        }
      }
    }

    function GetSources(): map<L, int>
      reads this
    {
      sources
    }

    function GetTargets(): map<L, int>
      reads this
    {
      targets
    }
  }

  /**
   * Forgets `vertex` as a source and as a target of every vertex of `vs`:
   * the loop at the end of `remove`.
   */
  method ForgetEverywhere<L(==)>(vs: seq<Vertex<L>>, vertex: L)
    requires forall j :: 0 <= j < |vs| ==> vs[j].Valid() && vs[j].name != vertex
    requires forall j, k :: 0 <= j < k < |vs| ==> vs[j].name != vs[k].name
    modifies set j | 0 <= j < |vs| :: vs[j]
    ensures forall j :: 0 <= j < |vs| ==> vs[j].Valid()
    ensures forall j :: 0 <= j < |vs| ==>
              vs[j].sources == old(vs[j].sources) - {vertex} && vs[j].targets == old(vs[j].targets) - {vertex}
  {
    for i := 0 to |vs|
      invariant forall j :: 0 <= j < |vs| ==> vs[j].Valid()
      invariant forall j :: 0 <= j < i ==>
                  vs[j].sources == old(vs[j].sources) - {vertex} && vs[j].targets == old(vs[j].targets) - {vertex}
      invariant forall j :: i <= j < |vs| ==> vs[j].sources == old(vs[j].sources) && vs[j].targets == old(vs[j].targets)
    {
      var _ := vs[i].Remove(vertex);
    }
  }

  class ConcreteVerticesGraph<L(==,!new)> {
    var vertices: seq<Vertex<L>>
    ghost var Repr: set<object>
    /** The labels of the vertices, in list order. */
    ghost var Names: seq<L>
    /** The set of those labels: the vertices of the graph. */
    ghost var Labels: set<L>
    /** The source maps of the vertices, in list order. */
    ghost var SourceMaps: seq<map<L, int>>
    /** The target maps of the vertices, in list order. */
    ghost var TargetMaps: seq<map<L, int>>
    /** The edges the vertex maps stand for. */
    ghost var E: map<(L, L), int>

    ghost function Abstract(): Graph<L>
      reads this
    {
      Graph(Labels, E)
    }

    /** The ghost values mirror the vertex list, and are consistent. */
    ghost predicate Valid()
      reads this, Repr
    {
      && this in Repr
      && |Names| == |vertices| && |SourceMaps| == |vertices| && |TargetMaps| == |vertices|
      && (forall i :: 0 <= i < |vertices| ==> vertices[i] in Repr)
      && (forall i :: 0 <= i < |vertices| ==>
            && vertices[i].name == Names[i] && vertices[i].Valid()
            && vertices[i].sources == SourceMaps[i] && vertices[i].targets == TargetMaps[i])
      && Consistent(Names, Labels, SourceMaps, TargetMaps, E)
    }

    constructor ()
      ensures Valid() && fresh(Repr)
      ensures vertices == [] && Labels == {} && E == map[]
    {
      vertices := [];
      Names := [];
      Labels := {};
      SourceMaps := [];
      TargetMaps := [];
      E := map[];
      Repr := {this};
    }

    /** The abstract graph is well formed: edges join distinct vertices with positive weights. */
    lemma AbstractValid()
      requires Valid()
      ensures WeightedGraph.Valid(Abstract()) && NoSelfLoops(Abstract())
    {
      ConsistentAbstract(Names, Labels, SourceMaps, TargetMaps, E);
    }

    /** The position of the vertex labelled `name`, -1 when there is none. */
    method IndexInVertices(name: L) returns (index: int)
      requires Valid()
      ensures -1 <= index < |vertices|
      ensures index < 0 <==> name !in Labels
      ensures index >= 0 ==> vertices[index].name == name
      ensures index >= 0 ==> forall j :: 0 <= j < |vertices| && Names[j] == name ==> j == index
    {
      for i := 0 to |vertices|
        invariant forall j :: 0 <= j < i ==> Names[j] != name
      {
        if vertices[i].name == name {
          return i;
        }
      }
      ConsistentLabels(Names, Labels, SourceMaps, TargetMaps, E);
      ElemsNone(Names, name);
      return -1;
    }

    /** The set of the labels of the vertices, collected from the list. */
    method Vertices() returns (labels: set<L>)
      requires Valid()
      ensures labels == Labels
    {
      labels := {};
      for i := 0 to |vertices|
        invariant labels == Elems(Names[..i])
      {
        ElemsAppend(Names[..i], Names[i]);
        assert Names[..i + 1] == Names[..i] + [Names[i]];
        labels := labels + {vertices[i].name};
      }
      assert Names[..|vertices|] == Names;
      ConsistentLabels(Names, Labels, SourceMaps, TargetMaps, E);
    }

    /** Appends a fresh vertex, with no sources and no targets, for a label that has none. */
    method Append(name: L) returns (v: Vertex<L>)
      requires Valid() && name !in Labels
      modifies this
      ensures Valid() && fresh(v) && Repr == old(Repr) + {v}
      ensures vertices == old(vertices) + [v] && v.name == name
      ensures Names == old(Names) + [name] && Labels == old(Labels) + {name}
      ensures E == old(E)
    {
      ConsistentAppend(Names, Labels, SourceMaps, TargetMaps, E, name);
      v := new Vertex(name);
      vertices := vertices + [v];
      Names := Names + [name];
      Labels := Labels + {name};
      SourceMaps := SourceMaps + [map[]];
      TargetMaps := TargetMaps + [map[]];
      Repr := Repr + {v};
    }

    /** Adds a vertex for a label that has none; reports whether it did. */
    method Add(vertex: L) returns (added: bool)
      requires Valid()
      modifies this
      ensures Valid() && fresh(Repr - old(Repr))
      ensures added <==> vertex !in old(Labels)
      ensures Names == old(Names) + if added then [vertex] else []
      ensures Labels == old(Labels) + {vertex}
      ensures E == old(E)
    {
      var labels := Vertices();
      if vertex in labels {
        return false;
      }
      var _ := Append(vertex);
      added := true;
    }

    /**
     * The vertex labelled `name`, appended as a fresh vertex when `labels`
     * (the vertex set `set` computed on entry) does not hold it.
     */
    method VertexFor(name: L, labels: set<L>) returns (v: Vertex<L>, ghost at: int)
      requires Valid() && (name in labels <==> name in Labels)
      modifies this
      ensures Valid() && fresh(Repr - old(Repr))
      ensures E == old(E)
      ensures 0 <= at < |vertices| && vertices[at] == v && v.name == name
      ensures vertices == old(vertices) + if name in labels then [] else [v]
      ensures Names == old(Names) + if name in labels then [] else [name]
      ensures Labels == old(Labels) + {name}
    {
      if name in labels {
        var index := IndexInVertices(name);
        v, at := vertices[index], index;
      } else {
        v := Append(name);
        at := |vertices| - 1;
      }
    }

    /**
     * Sets the edge `source -> target` to `weight` (0 removes it), first
     * appending a vertex for each endpoint that has none, and reports what
     * the source vertex's `setTarget` reports.
     */
    method Set(source: L, target: L, weight: int) returns (previous: int)
      requires Valid() && source != target && weight >= 0
      modifies Repr
      ensures Valid() && fresh(Repr - old(Repr))
      ensures Names == old(Names)
        + (if source in old(Labels) then [] else [source])
        + (if target in old(Labels) then [] else [target])
      ensures Labels == old(Labels) + {source, target}
      ensures E == WithWeight(old(E), source, target, weight)
      ensures previous == Reported(old(E), (source, target), weight)
    {
      var labels := Vertices();
      var sourceVertex: Vertex<L>;
      var targetVertex: Vertex<L>;
      ghost var sourceAt: int;
      ghost var targetAt: int;
      sourceVertex, sourceAt := VertexFor(source, labels);
      targetVertex, targetAt := VertexFor(target, labels);
      assert Labels == old(Labels) + {source, target};
      previous := Link(sourceVertex, sourceAt, targetVertex, targetAt, weight);
    }

    /**
     * The second half of `set`, once both endpoints have a vertex: records
     * the weight in both vertices, which report the same previous weight.
     */
    method Link(sourceVertex: Vertex<L>, ghost sourceAt: int, targetVertex: Vertex<L>, ghost targetAt: int, weight: int)
      returns (previous: int)
      requires Valid() && weight >= 0
      requires 0 <= sourceAt < |vertices| && vertices[sourceAt] == sourceVertex
      requires 0 <= targetAt < |vertices| && vertices[targetAt] == targetVertex
      requires sourceAt != targetAt
      modifies sourceVertex, targetVertex, this
      ensures Valid() && Repr == old(Repr) && vertices == old(vertices) && Names == old(Names) && Labels == old(Labels)
      ensures E == WithWeight(old(E), sourceVertex.name, targetVertex.name, weight)
      ensures previous == Reported(old(E), (sourceVertex.name, targetVertex.name), weight)
    {
      var source, target := sourceVertex.name, targetVertex.name;
      CopiesReportAlike(TargetMaps[sourceAt], SourceMaps[targetAt], E, source, target, weight);
      ConsistentAfterSet(Names, Labels, SourceMaps, TargetMaps, E, sourceAt, targetAt, weight);
      var sourcePrevious := sourceVertex.SetTarget(target, weight);
      var targetPrevious := targetVertex.SetSource(source, weight);
      assert sourcePrevious == targetPrevious;
      SourceMaps := SourceMaps[targetAt := Assign(SourceMaps[targetAt], source, weight)];
      TargetMaps := TargetMaps[sourceAt := Assign(TargetMaps[sourceAt], target, weight)];
      E := WithWeight(E, source, target, weight);
      previous := sourcePrevious;
    }

    /** Removes the vertex labelled `vertex` and every edge into or out of it; reports whether it was there. */
    method Remove(vertex: L) returns (removed: bool)
      requires Valid()
      modifies Repr
      ensures Valid() && Repr == old(Repr)
      ensures removed <==> vertex in old(Labels)
      ensures Labels == old(Labels) - {vertex}
      ensures E == DropIncident(old(E), vertex)
      ensures !removed ==> Names == old(Names)
      ensures removed ==> exists k :: 0 <= k < |old(Names)| && old(Names)[k] == vertex && Names == Without(old(Names), k)
    {
      var labels := Vertices();
      if vertex !in labels {
        ConsistentDropAbsent(Names, Labels, SourceMaps, TargetMaps, E, vertex);
        return false;
      }
      var vertexIndex := IndexInVertices(vertex);
      RemoveAt(vertexIndex);
      removed := true;
    }

    /**
     * Takes vertex `k` out of the list and its label out of the maps of every
     * other vertex, dropping every edge into or out of it.
     */
    method RemoveAt(k: int)
      requires Valid() && 0 <= k < |vertices|
      modifies Repr
      ensures Valid() && Repr == old(Repr)
      ensures Names == Without(old(Names), k) && Labels == old(Labels) - {old(Names)[k]}
      ensures E == DropIncident(old(E), old(Names)[k])
    {
      var vertex := vertices[k].name;
      ConsistentAfterRemove(Names, Labels, SourceMaps, TargetMaps, E, k);
      vertices := Without(vertices, k);
      ForgetEverywhere(vertices, vertex);
      Names := Without(Names, k);
      Labels := Labels - {vertex};
      SourceMaps := DropFromAll(Without(SourceMaps, k), vertex);
      TargetMaps := DropFromAll(Without(TargetMaps, k), vertex);
      E := DropIncident(E, vertex);
    }

    /** Every source of an edge into `target`, with its weight; empty for a label that is not a vertex. */
    method Sources(target: L) returns (r: map<L, int>)
      requires Valid()
      ensures r == WeightedGraph.Sources(E, target)
      ensures target !in Labels ==> r == map[]
    {
      var targetIndex := IndexInVertices(target);
      if targetIndex < 0 {
        AbstractValid();
        AbsentVertexIsolated(Abstract(), target);
        return map[];
      }
      IsSourcesExactly(SourceMaps[targetIndex], E, target);
      r := vertices[targetIndex].GetSources();
    }

    /** Every target of an edge out of `source`, with its weight; empty for a label that is not a vertex. */
    method Targets(source: L) returns (r: map<L, int>)
      requires Valid()
      ensures r == WeightedGraph.Targets(E, source)
      ensures source !in Labels ==> r == map[]
    {
      var sourceIndex := IndexInVertices(source);
      if sourceIndex < 0 {
        AbstractValid();
        AbsentVertexIsolated(Abstract(), source);
        return map[];
      }
      IsTargetsExactly(TargetMaps[sourceIndex], E, source);
      r := vertices[sourceIndex].GetTargets();
    }
  }
}
