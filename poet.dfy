/**
 * The poem generator. A corpus, already cut into tokens, is lowercased into
 * the corpus words; the word-affinity graph weighs the edge `w1 -> w2` by the
 * number of times `w1` is immediately followed by `w2`. A poem is the input
 * with a bridge word inserted between adjacent input words wherever the graph
 * has a two-edge path from the first to the second; which bridge is taken
 * when there are several is left open.
 */
module Poet {
  import opened WeightedGraph
  import opened Words
  import EdgesGraph

  datatype Option<T> = None | Some(value: T)

  // ---------------------------------------------------------------------------
  // The affinity graph
  // ---------------------------------------------------------------------------

  /** How many times `s` is immediately followed by `t` in `ws`. */
  function Count(ws: seq<string>, s: string, t: string): nat
  {
    if |ws| < 2 then 0
    else (if ws[0] == s && ws[1] == t then 1 else 0) + Count(ws[1..], s, t)
  }

  /** Appending one word adds the adjacency it forms with the word before it. */
  lemma {:induction false} CountAppend(ws: seq<string>, x: string, s: string, t: string)
    ensures Count(ws + [x], s, t) == Count(ws, s, t) + (if |ws| >= 1 && ws[|ws| - 1] == s && x == t then 1 else 0)
  {
    if |ws| >= 2 {
      assert (ws + [x])[1..] == ws[1..] + [x];
      CountAppend(ws[1..], x, s, t);
    } else if |ws| == 1 {
      assert (ws + [x])[1..] == [x];
    }
  }

  /** The count is positive exactly when the adjacency occurs somewhere. */
  lemma {:induction false} CountPositive(ws: seq<string>, s: string, t: string)
    ensures Count(ws, s, t) > 0 <==> exists i :: 0 <= i < |ws| - 1 && ws[i] == s && ws[i + 1] == t
  {
    if |ws| >= 2 {
      CountPositive(ws[1..], s, t);
      if exists i :: 0 <= i < |ws| - 1 && ws[i] == s && ws[i + 1] == t {
        var i :| 0 <= i < |ws| - 1 && ws[i] == s && ws[i + 1] == t;
        if i > 0 {
          assert ws[1..][i - 1] == s && ws[1..][i] == t;
        }
      }
      if exists i :: 0 <= i < |ws[1..]| - 1 && ws[1..][i] == s && ws[1..][i + 1] == t {
        var i :| 0 <= i < |ws[1..]| - 1 && ws[1..][i] == s && ws[1..][i + 1] == t;
        assert ws[i + 1] == s && ws[i + 2] == t;
      }
    }
  }

  /**
   * The edge map the generator builds: the adjacencies are visited left to
   * right and each one raises the weight of its edge by one.
   */
  function Affinity(ws: seq<string>): map<(string, string), int>
  {
    if |ws| < 2 then map[]
    else
      var m := Affinity(ws[..|ws| - 1]);
      var p := (ws[|ws| - 2], ws[|ws| - 1]);
      m[p := (if p in m then m[p] else 0) + 1]
  }

  /** One more word raises the weight of the adjacency it ends by one. */
  lemma AffinityAppend(ws: seq<string>, x: string)
    requires |ws| >= 1
    ensures var m, p := Affinity(ws), (ws[|ws| - 1], x);
      Affinity(ws + [x]) == m[p := (if p in m then m[p] else 0) + 1]
  {
    assert (ws + [x])[..|ws|] == ws;
  }

  /** The distinct words of `ws`. */
  function Vocabulary(ws: seq<string>): (r: set<string>)
    ensures forall w :: w in r <==> w in ws
  {
    set w | w in ws
  }

  /** One more word adds that word to the vocabulary. */
  lemma VocabularyAppend(ws: seq<string>, x: string)
    ensures Vocabulary(ws + [x]) == Vocabulary(ws) + {x}
  {
    assert forall w :: w in ws + [x] <==> w in ws || w == x;
  }

  /** The affinity graph: the words as vertices, the adjacency counts as edges. */
  function AffinityGraph(ws: seq<string>): Graph<string>
  {
    Graph(Vocabulary(ws), Affinity(ws))
  }

  /** An edge is present exactly when its adjacency occurs, and its weight is the number of occurrences. */
  lemma {:induction false} AffinityCounts(ws: seq<string>, s: string, t: string)
    ensures (s, t) in Affinity(ws) <==> Count(ws, s, t) > 0
    ensures (s, t) in Affinity(ws) ==> Affinity(ws)[(s, t)] == Count(ws, s, t)
  {
    if |ws| >= 2 {
      var front := ws[..|ws| - 1];
      AffinityCounts(front, s, t);
      CountAppend(front, ws[|ws| - 1], s, t);
      assert front + [ws[|ws| - 1]] == ws;
    }
  }

  /** The affinity graph is a graph: every edge joins two corpus words and weighs at least one. */
  lemma AffinityGraphValid(ws: seq<string>)
    ensures WeightedGraph.Valid(AffinityGraph(ws))
  {
    forall p | p in Affinity(ws)
      ensures p.0 in ws && p.1 in ws && Affinity(ws)[p] > 0
    {
      AffinityCounts(ws, p.0, p.1);
      CountPositive(ws, p.0, p.1);
      var i :| 0 <= i < |ws| - 1 && ws[i] == p.0 && ws[i + 1] == p.1;
    }
  }

  /** Fewer than two words make no edge. */
  lemma ShortCorpusHasNoEdges(ws: seq<string>)
    requires |ws| < 2
    ensures AffinityGraph(ws).edges == map[]
  {
  }

  /**
   * One adjacency of the corpus: the weight of `source -> target` is set to
   * 1 and then to one more than the weight that first call reported, so it
   * grows by one whether or not the edge was there.
   */
  method Bump(graph: EdgesGraph.ConcreteEdgesGraph<string>, source: string, target: string)
    requires graph.Valid()
    modifies graph
    ensures graph.Valid()
    ensures graph.vertices == old(graph.vertices) + {source, target}
    ensures graph.Abstract().edges ==
              old(graph.Abstract()).edges[(source, target) := Weight(old(graph.Abstract()), source, target) + 1]
  {
    ghost var before := graph.Abstract();
    graph.AbstractValid();
    var prev := graph.Set(source, target, 1);
    ghost var middle := graph.Abstract();
    assert middle.edges == before.edges[(source, target) := 1];
    assert graph.vertices == before.vertices + {source, target};
    var _ := graph.Set(source, target, prev + 1);
    assert graph.Abstract().edges == middle.edges[(source, target) := prev + 1];
    UpdateTwice(before.edges, (source, target), 1, prev + 1);
  }

  /** Updating a key twice keeps only the second value. */
  lemma UpdateTwice<K, V>(m: map<K, V>, k: K, v: V, w: V)
    ensures m[k := v][k := w] == m[k := w]
  {
  }

  /**
   * Builds the affinity graph on the edge-list representation: each word is
   * added as a vertex and each adjacency bumps its edge.
   */
  method GenerateAffinityGraph(words: seq<string>) returns (graph: EdgesGraph.ConcreteEdgesGraph<string>)
    ensures fresh(graph) && graph.Valid()
    ensures graph.Abstract() == AffinityGraph(words)
  {
    graph := new EdgesGraph.ConcreteEdgesGraph();
    var i := 0;
    ghost var reached := 0;
    while i < |words|
      invariant i <= |words| && (i == |words| ==> |words| == 0)
      invariant fresh(graph) && graph.Valid()
      invariant reached == (if i == 0 then 0 else i + 1) && reached <= |words|
      invariant graph.vertices == Vocabulary(words[..reached])
      invariant i < |words| ==> graph.Abstract().edges == Affinity(words[..i + 1])
    {
      var source := words[i];
      var _ := graph.Add(source);
      PrefixStep(words, i);
      if i + 1 >= |words| {
        break;
      }
      var target := words[i + 1];
      Bump(graph, source, target);
      i := i + 1;
      reached := i + 1;
    }
  }

  /**
   * What one iteration of the generator adds: word `i` joins the vocabulary
   * (it is already there when it ended the previous adjacency), and the next
   * word, when there is one, joins it too and raises the weight of the
   * adjacency from word `i` by one.
   */
  lemma PrefixStep(words: seq<string>, i: nat)
    requires i < |words|
    ensures Vocabulary(words[..if i == 0 then 0 else i + 1]) + {words[i]} == Vocabulary(words[..i + 1])
    ensures i + 1 == |words| ==> words[..i + 1] == words
    ensures i + 1 < |words| ==>
              var m, p := Affinity(words[..i + 1]), (words[i], words[i + 1]);
              && Vocabulary(words[..i + 1]) + {words[i], words[i + 1]} == Vocabulary(words[..i + 2])
              && Affinity(words[..i + 2]) == m[p := (if p in m then m[p] else 0) + 1]
  {
    assert words[..i + 1] == words[..i] + [words[i]];
    VocabularyAppend(words[..i], words[i]);
    if i + 1 < |words| {
      assert words[..i + 2] == words[..i + 1] + [words[i + 1]];
      VocabularyAppend(words[..i + 1], words[i + 1]);
      AffinityAppend(words[..i + 1], words[i + 1]);
    }
  }

  /**
   * The lowercasing step of `extractWordsFromFile`: every token of the
   * corpus lowercased, in order. Reading and tokenising the file is not
   * part of this model.
   */
  method LowerTokens(tokens: seq<string>) returns (words: seq<string>)
    ensures |words| == |tokens|
    ensures forall i :: 0 <= i < |tokens| ==> words[i] == Lower(tokens[i])
  {
    words := [];
    var i := 0;
    while i < |tokens|
      invariant 0 <= i <= |tokens| && |words| == i
      invariant forall j :: 0 <= j < i ==> words[j] == Lower(tokens[j])
    {
      words := words + [Lower(tokens[i])];
      i := i + 1;
    }
  }

  // ---------------------------------------------------------------------------
  // Bridges
  // ---------------------------------------------------------------------------

  /** The bridges from `w1` to `w2`: the targets of `w1` that are also sources of `w2`, case ignored. */
  function Candidates(edges: map<(string, string), int>, w1: string, w2: string): (r: set<string>)
    ensures forall b :: b in r <==> (Lower(w1), b) in edges && (b, Lower(w2)) in edges
  {
    set b | b in Targets(edges, Lower(w1)) && b in Sources(edges, Lower(w2))
  }

  /** Every bridge through the affinity graph is a corpus word. */
  lemma CandidatesAreCorpusWords(ws: seq<string>, w1: string, w2: string, b: string)
    requires b in Candidates(Affinity(ws), w1, w2)
    ensures b in ws
  {
    AffinityGraphValid(ws);
  }

  /** A choice for one pair: a bridge when there is one, nothing when there is none. */
  ghost predicate ChoiceFor(edges: map<(string, string), int>, w1: string, w2: string, c: Option<string>)
  {
    && (c.None? <==> Candidates(edges, w1, w2) == {})
    && (c.Some? ==> c.value in Candidates(edges, w1, w2))
  }

  /** The number of adjacent pairs among `n` words. */
  function Pairs(n: nat): nat {
    if n == 0 then 0 else n - 1
  }

  /** Choices for the first `|chosen|` adjacent pairs of `words`. */
  ghost predicate ChoicesSoFar(edges: map<(string, string), int>, words: seq<string>, chosen: seq<Option<string>>)
  {
    && |chosen| <= Pairs(|words|)
    && forall i :: 0 <= i < |chosen| ==> ChoiceFor(edges, words[i], words[i + 1], chosen[i])
  }

  /** Choices for every adjacent pair of `words`. */
  ghost predicate ValidChoices(edges: map<(string, string), int>, words: seq<string>, chosen: seq<Option<string>>)
  {
    ChoicesSoFar(edges, words, chosen) && |chosen| == Pairs(|words|)
  }

  /** A choice for the next pair extends the choices made so far. */
  lemma ChoicesSoFarAppend(edges: map<(string, string), int>, words: seq<string>, chosen: seq<Option<string>>, i: nat, c: Option<string>)
    requires ChoicesSoFar(edges, words, chosen) && i == |chosen| < Pairs(|words|)
    requires ChoiceFor(edges, words[i], words[i + 1], c)
    ensures ChoicesSoFar(edges, words, chosen + [c])
  {
    var chosen' := chosen + [c];
    forall i | 0 <= i < |chosen'|
      ensures ChoiceFor(edges, words[i], words[i + 1], chosen'[i])
    {
      if i < |chosen| {
        assert chosen'[i] == chosen[i];
      }
    }
  }

  /** How many characters a choice inserts: the bridge and one space, or nothing. */
  function Inserted(c: Option<string>): nat {
    match c
    case None => 0
    case Some(b) => |b| + 1
  }

  /** How many characters the choices insert altogether. */
  function Shift(chosen: seq<Option<string>>): nat {
    if chosen == [] then 0 else Shift(chosen[..|chosen| - 1]) + Inserted(chosen[|chosen| - 1])
  }

  /** The choices for fewer pairs insert no more. */
  lemma {:induction false} ShiftPrefix(chosen: seq<Option<string>>, k: nat)
    requires k <= |chosen|
    ensures Shift(chosen[..k]) <= Shift(chosen)
  {
    if k < |chosen| {
      var front := chosen[..|chosen| - 1];
      ShiftPrefix(front, k);
      assert front[..k] == chosen[..k];
    } else {
      assert chosen[..k] == chosen;
    }
  }

  /** Later pieces start further right. */
  lemma {:induction false} StartMonotone(ps: seq<string>, j: nat, k: nat)
    requires j <= k <= |ps|
    ensures Start(ps, j) <= Start(ps, k)
  {
    if j < k {
      StartMonotone(ps, j, k - 1);
    }
  }

  /**
   * The poem for the choices made so far, placing each bridge where it
   * belongs: the bridge of the pair `(k, k + 1)` and a space go in right
   * before word `k + 1`, whose position is its place in the input moved
   * right by what the earlier bridges inserted.
   */
  function Bridged(input: string, words: seq<string>, chosen: seq<Option<string>>): (r: string)
    requires LaidOut(input, words) && |chosen| <= Pairs(|words|)
    ensures |r| == |input| + Shift(chosen)
    decreases |chosen|
  {
    if chosen == [] then input
    else
      var n := |chosen| - 1;
      var before := Bridged(input, words, chosen[..n]);
      match chosen[n]
      case None => before
      case Some(bridge) =>
        assert WordAt(input, words, n + 1);
        Insert(before, Start(words, n + 1) + Shift(chosen[..n]), bridge + " ")
  }

  /** The poem for `input` and the choices made for the pairs of its words. */
  function PoemFor(input: string, chosen: seq<Option<string>>): (r: string)
    requires |chosen| <= Pairs(|Split(input)|)
    ensures LaidOut(input, Split(input)) && r == Bridged(input, Split(input), chosen)
  {
    SplitLaidOut(input);
    Bridged(input, Split(input), chosen)
  }

  /** One more choice: nothing changes, or its bridge and a space go in before the second word of its pair. */
  lemma BridgedAppend(input: string, words: seq<string>, chosen: seq<Option<string>>, c: Option<string>)
    requires LaidOut(input, words) && |chosen| < Pairs(|words|)
    ensures WordAt(input, words, |chosen| + 1)
    ensures Shift(chosen + [c]) == Shift(chosen) + Inserted(c)
    ensures c.None? ==> Bridged(input, words, chosen + [c]) == Bridged(input, words, chosen)
    ensures c.Some? ==>
              Bridged(input, words, chosen + [c]) ==
              Insert(Bridged(input, words, chosen), Start(words, |chosen| + 1) + Shift(chosen), c.value + " ")
  {
    assert (chosen + [c])[..|chosen|] == chosen;
    assert WordAt(input, words, |chosen| + 1);
  }

  /** Word `k` sits in `poem` at its position in the input moved right by `moved` characters. */
  ghost predicate WordMoved(poem: string, words: seq<string>, k: nat, moved: nat)
    requires k < |words|
  {
    OccursAt(poem, words[k], Start(words, k) + moved)
  }

  /**
   * `bridge` and a space sit in `poem` at the position word `k + 1` had in
   * the input moved right by `moved`: right before that word, once it has
   * moved on by the length of the bridge and the space.
   */
  ghost predicate BridgeBefore(poem: string, words: seq<string>, k: nat, bridge: string, moved: nat)
    requires k < |words| - 1
  {
    OccursAt(poem, bridge + " ", Start(words, k + 1) + moved)
  }

  /** A word the choices have not reached yet has moved right by everything inserted so far. */
  lemma {:induction false} LaterWordMoves(input: string, words: seq<string>, chosen: seq<Option<string>>, k: nat)
    requires LaidOut(input, words) && |chosen| <= Pairs(|words|) && |chosen| <= k < |words|
    ensures WordMoved(Bridged(input, words, chosen), words, k, Shift(chosen))
    decreases |chosen|
  {
    if chosen == [] {
      assert WordAt(input, words, k);
    } else {
      var n := |chosen| - 1;
      var front := chosen[..n];
      LaterWordMoves(input, words, front, k);
      if chosen[n].Some? {
        assert WordAt(input, words, n + 1);
        StartMonotone(words, n + 1, k);
        InsertShifts(Bridged(input, words, front), Start(words, n + 1) + Shift(front),
                     chosen[n].value + " ", words[k], Start(words, k) + Shift(front));
      }
    }
  }

  /**
   * One step of the poem loop: `poem` holds the bridges chosen for the first
   * `i` pairs and `fromIndex` is where word `i` sits in it. The second word of
   * the pair is looked up from one separator after the first, the bridge and
   * a space go in before it, and the search position moves past the bridge.
   */
  method PlaceBridge(input: string, words: seq<string>, ghost chosen: seq<Option<string>>, i: nat,
                     poem: string, fromIndex: nat, choice: Option<string>)
    returns (poem': string, fromIndex': nat)
    requires LaidOut(input, words) && i == |chosen| < Pairs(|words|)
    requires poem == Bridged(input, words, chosen) && fromIndex == Start(words, i) + Shift(chosen)
    ensures poem' == Bridged(input, words, chosen + [choice])
    ensures fromIndex' == Start(words, i + 1) + Shift(chosen + [choice])
  {
    var next := fromIndex + |words[i]| + 1;
    NextWordFound(input, words, chosen, i, poem, next);
    BridgedAppend(input, words, chosen, choice);
    match choice
    case Some(bridge) =>
      var insertAt := IndexFrom(poem, words[i + 1], next);
      poem' := Insert(poem, insertAt, bridge + " ");
      fromIndex' := insertAt + |bridge| + 1;
    case None =>
      poem', fromIndex' := poem, next;
  }

  /**
   * Searching the poem so far for the second word of the next pair, from one
   * separator after the first word, finds it right there.
   */
  lemma NextWordFound(input: string, words: seq<string>, chosen: seq<Option<string>>, i: nat, poem: string, next: nat)
    requires LaidOut(input, words) && i == |chosen| < Pairs(|words|)
    requires poem == Bridged(input, words, chosen) && next == Start(words, i) + |words[i]| + 1 + Shift(chosen)
    ensures next == Start(words, i + 1) + Shift(chosen)
    ensures IndexFrom(poem, words[i + 1], next) == next
  {
    LaterWordMoves(input, words, chosen, i + 1);
    IndexFromFinds(poem, words[i + 1], next);
  }

  /** A word the choices have passed stays where the bridges before it moved it. */
  lemma {:induction false} EarlierWordStays(input: string, words: seq<string>, chosen: seq<Option<string>>, k: nat)
    requires LaidOut(input, words) && |chosen| <= Pairs(|words|) && k < |chosen|
    ensures WordMoved(Bridged(input, words, chosen), words, k, Shift(chosen[..k]))
    decreases |chosen|
  {
    var n := |chosen| - 1;
    var front := chosen[..n];
    var moved := Shift(chosen[..k]);
    if k == n {
      LaterWordMoves(input, words, front, k);
      assert front == chosen[..k];
    } else {
      EarlierWordStays(input, words, front, k);
      assert front[..k] == chosen[..k];
      ShiftPrefix(front, k);
    }
    WordStaysAcross(input, words, front, chosen[n], k, moved);
    assert front + [chosen[n]] == chosen;
  }

  /** A word up to the next pair's first word is not moved by the bridge chosen for that pair. */
  lemma WordStaysAcross(input: string, words: seq<string>, front: seq<Option<string>>, c: Option<string>, k: nat, moved: nat)
    requires LaidOut(input, words) && |front| < Pairs(|words|) && k <= |front| && moved <= Shift(front)
    requires OccursAt(Bridged(input, words, front), words[k], Start(words, k) + moved)
    ensures OccursAt(Bridged(input, words, front + [c]), words[k], Start(words, k) + moved)
  {
    var before, after := Bridged(input, words, front), Bridged(input, words, front + [c]);
    var at, pos := Start(words, |front| + 1) + Shift(front), Start(words, k) + moved;
    assert at <= |before| && pos + |words[k]| <= at by {
      assert WordAt(input, words, |front| + 1);
      StartMonotone(words, k + 1, |front| + 1);
      assert Start(words, k + 1) == Start(words, k) + |words[k]| + 1;
    }
    assert (c.None? ==> after == before) && (c.Some? ==> after == Insert(before, at, c.value + " ")) by {
      BridgedAppend(input, words, front, c);
    }
    KeptBeforeBridge(before, after, c, at, words[k], pos);
  }

  /** Text that ends before the point where a choice inserts its bridge stays where it is. */
  lemma KeptBeforeBridge(before: string, after: string, c: Option<string>, at: nat, w: string, pos: int)
    requires at <= |before| && OccursAt(before, w, pos) && pos + |w| <= at
    requires c.None? ==> after == before
    requires c.Some? ==> after == Insert(before, at, c.value + " ")
    ensures OccursAt(after, w, pos)
  {
    if c.Some? {
      InsertKeeps(before, at, c.value + " ", w, pos);
    }
  }

  /** Each bridge, with its space, ends exactly where the second word of its pair starts. */
  lemma {:induction false} BridgeStays(input: string, words: seq<string>, chosen: seq<Option<string>>, k: nat)
    requires LaidOut(input, words) && |chosen| <= Pairs(|words|) && k < |chosen| && chosen[k].Some?
    ensures BridgeBefore(Bridged(input, words, chosen), words, k, chosen[k].value, Shift(chosen[..k]))
    decreases |chosen|
  {
    var n := |chosen| - 1;
    var front := chosen[..n];
    assert WordAt(input, words, n + 1);
    if k == n {
      assert front == chosen[..k];
    } else {
      var text := chosen[k].value + " ";
      BridgeStays(input, words, front, k);
      assert front[..k] == chosen[..k];
      assert front[..k + 1][..k] == front[..k];
      ShiftPrefix(front, k + 1);
      if chosen[n].Some? {
        StartMonotone(words, k + 1, n + 1);
        InsertKeeps(Bridged(input, words, front), Start(words, n + 1) + Shift(front),
                    chosen[n].value + " ", text, Start(words, k + 1) + Shift(chosen[..k]));
      }
    }
  }

  /**
   * The poem keeps every input word and puts every bridge right before the
   * second word of its pair: word `k` has moved right by exactly what the
   * bridges of the pairs before it inserted, and the bridge of the pair
   * `(k, k + 1)`, followed by a space, ends where word `k + 1` starts.
   */
  lemma BridgedPlaces(input: string, words: seq<string>, chosen: seq<Option<string>>)
    requires LaidOut(input, words) && |chosen| == Pairs(|words|)
    ensures |Bridged(input, words, chosen)| == |input| + Shift(chosen)
    ensures forall k :: 0 <= k < |chosen| ==> WordMoved(Bridged(input, words, chosen), words, k, Shift(chosen[..k]))
    ensures |words| > 0 ==> WordMoved(Bridged(input, words, chosen), words, |words| - 1, Shift(chosen))
    ensures forall k :: 0 <= k < |chosen| && chosen[k].Some? ==>
              BridgeBefore(Bridged(input, words, chosen), words, k, chosen[k].value, Shift(chosen[..k]))
  {
    forall k | 0 <= k < |chosen|
      ensures WordMoved(Bridged(input, words, chosen), words, k, Shift(chosen[..k]))
    {
      EarlierWordStays(input, words, chosen, k);
    }
    if |words| > 0 {
      LaterWordMoves(input, words, chosen, |words| - 1);
    }
    forall k | 0 <= k < |chosen| && chosen[k].Some?
      ensures BridgeBefore(Bridged(input, words, chosen), words, k, chosen[k].value, Shift(chosen[..k]))
    {
      BridgeStays(input, words, chosen, k);
    }
  }

  /** With fewer than two words there is no pair, and the poem is the input. */
  lemma NoPairsNoChange(input: string, words: seq<string>, chosen: seq<Option<string>>)
    requires LaidOut(input, words) && |words| < 2 && |chosen| == Pairs(|words|)
    ensures Bridged(input, words, chosen) == input
  {
  }

  /** Choices that insert nothing leave the input as it is. */
  lemma {:induction false} NoBridgesNoChange(input: string, words: seq<string>, chosen: seq<Option<string>>)
    requires LaidOut(input, words) && |chosen| <= Pairs(|words|)
    requires forall k :: 0 <= k < |chosen| ==> chosen[k].None?
    ensures Bridged(input, words, chosen) == input
    decreases |chosen|
  {
    if chosen != [] {
      var n := |chosen| - 1;
      assert chosen[n].None?;
      NoBridgesNoChange(input, words, chosen[..n]);
    }
  }

  /** When no adjacent pair of the input has a bridge, the poem is the input. */
  lemma NoCandidatesNoChange(edges: map<(string, string), int>, input: string, words: seq<string>, chosen: seq<Option<string>>)
    requires LaidOut(input, words) && ValidChoices(edges, words, chosen)
    requires forall k :: 0 <= k < Pairs(|words|) ==> Candidates(edges, words[k], words[k + 1]) == {}
    ensures Bridged(input, words, chosen) == input
  {
    forall k | 0 <= k < |chosen|
      ensures chosen[k].None?
    {
      assert ChoiceFor(edges, words[k], words[k + 1], chosen[k]);
    }
    NoBridgesNoChange(input, words, chosen);
  }

  /**
   * The poem as the generator writes it: the bridge of the pair `(k, k + 1)`
   * goes in before the FIRST occurrence of word `k + 1` anywhere in the
   * poem so far, since the search always starts at position 0.
   */
  function BridgedFromStart(input: string, words: seq<string>, chosen: seq<Option<string>>): (r: string)
    requires |chosen| <= Pairs(|words|)
    ensures |input| <= |r| <= |input| + Shift(chosen)
    decreases |chosen|
  {
    if chosen == [] then input
    else
      var n := |chosen| - 1;
      var before := BridgedFromStart(input, words, chosen[..n]);
      match chosen[n]
      case None => before
      case Some(bridge) =>
        var at := IndexFrom(before, words[n + 1], 0);
        if at < 0 then before else Insert(before, at, bridge + " ")
  }

  /**
   * Searching from the start still finds the second word of every pair, at
   * its own place or earlier, so a word not reached yet has only moved right
   * by what has been inserted.
   */
  lemma {:induction false} FromStartKeepsLaterWord(input: string, words: seq<string>, chosen: seq<Option<string>>, k: nat)
    requires LaidOut(input, words) && |chosen| <= Pairs(|words|) && |chosen| <= k < |words|
    ensures WordMoved(BridgedFromStart(input, words, chosen), words, k, Shift(chosen))
    decreases |chosen|
  {
    if chosen == [] {
      assert WordAt(input, words, k);
    } else {
      var n := |chosen| - 1;
      var front := chosen[..n];
      var before := BridgedFromStart(input, words, front);
      FromStartKeepsLaterWord(input, words, front, k);
      if chosen[n].Some? {
        FromStartKeepsLaterWord(input, words, front, n + 1);
        var own := Start(words, n + 1) + Shift(front);
        var at := IndexFrom(before, words[n + 1], 0);
        assert 0 <= at <= own;
        StartMonotone(words, n + 1, k);
        InsertShifts(before, at, chosen[n].value + " ", words[k], Start(words, k) + Shift(front));
      }
    }
  }

  /** As written, the search for the second word of a pair always finds it. */
  lemma FromStartAlwaysFinds(input: string, words: seq<string>, chosen: seq<Option<string>>)
    requires LaidOut(input, words) && |chosen| < Pairs(|words|)
    ensures 0 <= IndexFrom(BridgedFromStart(input, words, chosen), words[|chosen| + 1], 0)
  {
    FromStartKeepsLaterWord(input, words, chosen, |chosen| + 1);
  }

  // ---------------------------------------------------------------------------
  // The generator
  // ---------------------------------------------------------------------------

  class GraphPoet {
    const affinityGraph: EdgesGraph.ConcreteEdgesGraph<string>
    const corpusWords: seq<string>
    /** The corpus as the scanner delivers it: its tokens, in order. */
    ghost const tokens: seq<string>

    /** The graph is the affinity graph of the corpus words, and those are the lowercased tokens. */
    ghost predicate Valid()
      reads this, affinityGraph
    {
      && affinityGraph.Valid()
      && affinityGraph.Abstract() == AffinityGraph(corpusWords)
      && |corpusWords| == |tokens|
      && (forall i :: 0 <= i < |tokens| ==> corpusWords[i] == Lower(tokens[i]))
    }

    /** A poet for the corpus whose tokens are `corpusTokens`. */
    constructor (corpusTokens: seq<string>)
      ensures Valid() && tokens == corpusTokens && fresh(affinityGraph)
    {
      tokens := corpusTokens;
      var words := LowerTokens(corpusTokens);
      corpusWords := words;
      var graph := GenerateAffinityGraph(words);
      affinityGraph := graph;
    }

    /** The corpus words: the tokens lowercased, in corpus order. */
    function GetCorpusWords(): (r: seq<string>)
      reads this, affinityGraph
      requires Valid()
      ensures |r| == |tokens|
      ensures forall i :: 0 <= i < |r| ==> r[i] == Lower(tokens[i])
    {
      corpusWords
    }

    /** Bridges are corpus words, so they are lower case. */
    lemma BridgesAreLowerCase(w1: string, w2: string, b: string)
      requires Valid()
      requires b in Candidates(affinityGraph.Abstract().edges, w1, w2)
      ensures Lower(b) == b
    {
      CandidatesAreCorpusWords(corpusWords, w1, w2, b);
      var i :| 0 <= i < |corpusWords| && corpusWords[i] == b;
      LowerIdempotent(tokens[i]);
    }

    /** A bridge for the pair `w1`, `w2` when the graph has one, chosen freely among all of them. */
    method ChooseBridge(ghost edges: map<(string, string), int>, w1: string, w2: string) returns (choice: Option<string>)
      requires Valid() && edges == affinityGraph.Abstract().edges
      ensures ChoiceFor(edges, w1, w2, choice)
    {
      var word1Targets := affinityGraph.Targets(Lower(w1));
      var word2Sources := affinityGraph.Sources(Lower(w2));
      var allBridges := set b | b in word1Targets && b in word2Sources;
      assert allBridges == Candidates(affinityGraph.Abstract().edges, w1, w2);
      if allBridges != {} {
        var bridge :| bridge in allBridges;
        choice := Some(bridge);
      } else {
        choice := None;
      }
    }

    /**
     * A poem for `input`: for each adjacent pair of its words that has a
     * bridge in the affinity graph, one bridge (the ghost `chosen` records
     * which) and a space are inserted before the second word of the pair.
     */
    method Poem(input: string) returns (poem: string, ghost chosen: seq<Option<string>>)
      requires Valid()
      ensures ValidChoices(affinityGraph.Abstract().edges, Split(input), chosen)
      ensures poem == PoemFor(input, chosen)
    {
      var inputWords := Split(input);
      SplitLaidOut(input);
      poem, chosen := BridgeWords(input, inputWords);
    }

    /**
     * The loop of `Poem` over the words of `input`, which lie in it where
     * their layout puts them: a bridge is chosen for each adjacent pair and
     * placed before the second word of the pair.
     */
    method BridgeWords(input: string, inputWords: seq<string>) returns (poem: string, ghost chosen: seq<Option<string>>)
      requires Valid() && LaidOut(input, inputWords)
      ensures ValidChoices(affinityGraph.Abstract().edges, inputWords, chosen)
      ensures poem == Bridged(input, inputWords, chosen)
    {
      ghost var edges := affinityGraph.Abstract().edges;
      poem := input;
      chosen := [];
      var fromIndex := 0;
      var i := 0;
      while i < |inputWords|
        invariant 0 <= i <= |inputWords| && (i == |inputWords| ==> i == 0)
        invariant |chosen| == i && ChoicesSoFar(edges, inputWords, chosen)
        invariant poem == Bridged(input, inputWords, chosen)
        invariant i < |inputWords| ==> fromIndex == Start(inputWords, i) + Shift(chosen)
      {
        if i + 1 >= |inputWords| {
          break;
        }
        var choice := ChooseBridge(edges, inputWords[i], inputWords[i + 1]);
        ChoicesSoFarAppend(edges, inputWords, chosen, i, choice);
        poem, fromIndex := PlaceBridge(input, inputWords, chosen, i, poem, fromIndex, choice);
        chosen := chosen + [choice];
        i := i + 1;
      }
    }
  }
}
