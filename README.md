# Word-affinity graph and graph poet, in Dafny

This project models a small Java library: a weighted directed graph with two
representations, and a poem generator built on top of it.

- `ConcreteEdgesGraph` stores a set of vertex labels and a flat list of immutable
  `(source, target, weight)` records.
- `ConcreteVerticesGraph` stores a list of mutable vertex objects. Each vertex keeps
  its own map of sources and map of targets, with their weights.
- `GraphPoet` lowercases a corpus into words. It builds the word-affinity graph from
  them: the weight of `w1 -> w2` is the number of times `w1` is immediately followed
  by `w2`. It then writes a "poem" from an input string: between adjacent input
  words it inserts a word that the graph reaches from the first in one step and
  from which it reaches the second in one step (a "bridge").

Both representations are related to one abstract value, `WeightedGraph.Graph`:
a vertex set plus a map from ordered label pairs to positive weights. `set` and
`remove` are specified by what they do to that value:
- `WithWeight` gives the edge map after `set`;
- `DropIncident` gives the edge map after `remove`.

`sources` and `targets` are defined once, over the edge map.

The files:
- `graph.dfy` (module `WeightedGraph`): the abstract graph and the facts about
  `set`/`remove` that both representations reuse.
- `edges_graph.dfy` (module `EdgesGraph`): the `Edge` value, the edge list's meaning
  (`EdgeMap`), `removeIf` (`FilterIncident`), the stream filters for sources and
  targets, and the class `ConcreteEdgesGraph`.
- `vertices_graph.dfy` (module `VerticesGraph`): the class `Vertex`, the class
  `ConcreteVerticesGraph`, and its invariant stated over ghost copies of the vertex
  maps (`Consistent`).
- `words.dfy` (module `Words`): the string operations.
  - `String.split("\\s")` as `Split`;
  - where each piece lies in the input (`LaidOut`);
  - `StringBuilder.indexOf` (`IndexFrom`) and `StringBuilder.insert` (`Insert`);
  - lowercasing (`Lower`).
- `poet.dfy` (module `Poet`): the affinity counts, `generateAffinityGraph` over the
  edges graph, bridge candidates, the poem loop, and the class `GraphPoet`.
- `poet_examples.dfy` (module `PoetExamples`): the two documented examples and the
  counterexample of the findings below.

The poem loop picks a bridge at random. The model makes that choice arbitrary
(`:|`), and `Poem` returns a ghost record `chosen` of the choices it made.
`ValidChoices` says each choice is a bridge of its pair, or nothing when the pair
has none. `PoemFor(input, chosen)` states the resulting text.

## Model

| member | source | states |
|---|---|---|
| EdgesGraph.Edge.SetWeight | ConcreteEdgesGraph.java:187-190 | the new edge has the same endpoints and the new weight, and is valid |
| EdgesGraph.Edge.Equals | ConcreteEdgesGraph.java:215-223 | field-by-field comparison holds exactly when the two edges are the same value |
| EdgesGraph.FilterIncident | ConcreteEdgesGraph.java:83-88 | `removeIf` keeps exactly the records with the vertex at neither end, never lengthens the list, and keeps the pairs distinct |
| EdgesGraph.EdgeMapAppend | ConcreteEdgesGraph.java:52-55 | appending a record for a new pair adds exactly that pair, with its weight, to the edge map |
| EdgesGraph.EdgeMapReplace | ConcreteEdgesGraph.java:56-58 | overwriting the record of a pair in place changes only that pair's weight |
| EdgesGraph.EdgeMapDelete | ConcreteEdgesGraph.java:60-62 | deleting the record at an index removes exactly its pair from the edge map |
| EdgesGraph.EdgeMapFilter | ConcreteEdgesGraph.java:83-88 | filtering out the incident records drops exactly the edges incident to the vertex |
| EdgesGraph.SourcesIn | ConcreteEdgesGraph.java:110-114 | the records into the target, collected as source to weight; `EdgesGraph.SourcesInAgree` states that this is the abstract sources |
| EdgesGraph.TargetsIn | ConcreteEdgesGraph.java:116-120 | the records out of the source, collected as target to weight; `EdgesGraph.TargetsInAgree` states that this is the abstract targets |
| EdgesGraph.SourcesInAgree | ConcreteEdgesGraph.java:110-114 | the stream filter over the list gives exactly the sources, with weights, of the abstract edge map |
| EdgesGraph.TargetsInAgree | ConcreteEdgesGraph.java:116-120 | the stream filter over the list gives exactly the targets, with weights, of the abstract edge map |
| EdgesGraph.FilterKeepsDisjoint | ConcreteEdgesGraph.java:97-100 | a list with no incident record is left as it is, so removing an edge implies the vertex was present |
| EdgesGraph.RemovedSize | ConcreteEdgesGraph.java:102 | the vertex set shrinks by one exactly when the vertex was in it |
| EdgesGraph.ConcreteEdgesGraph.AbstractValid | ConcreteEdgesGraph.java:20-22 | under the representation invariant, every edge joins two vertices with a positive weight |
| EdgesGraph.ConcreteEdgesGraph.constructor | ConcreteEdgesGraph.java:29-30 | the new graph has no vertices and no edges |
| EdgesGraph.ConcreteEdgesGraph.Add | ConcreteEdgesGraph.java:40-42 | true exactly when the label was new; only that label is added; the edges are untouched |
| EdgesGraph.ConcreteEdgesGraph.IndexOfEdgeInEdges | ConcreteEdgesGraph.java:67-76 | -1 exactly when no record has the pair; otherwise the unique index of the record that has it |
| EdgesGraph.ConcreteEdgesGraph.Set | ConcreteEdgesGraph.java:43-66 | returns the previous weight (0 if none); the edge map becomes `WithWeight`; a new pair is appended and adds both endpoints; an existing pair is overwritten at its index or deleted; weight 0 never changes the vertex set |
| EdgesGraph.ConcreteEdgesGraph.Remove | ConcreteEdgesGraph.java:79-103 | true exactly when the vertex was present; the vertex and every incident record go; all other vertices and edges stay |
| EdgesGraph.ConcreteEdgesGraph.Vertices | ConcreteEdgesGraph.java:105-107 | the vertex set of the graph the representation stands for |
| EdgesGraph.ConcreteEdgesGraph.Sources | ConcreteEdgesGraph.java:110-114 | the sources of the target in the abstract graph; empty for a label that is not a vertex |
| EdgesGraph.ConcreteEdgesGraph.Targets | ConcreteEdgesGraph.java:116-120 | the targets of the source in the abstract graph; empty for a label that is not a vertex |
| VerticesGraph.Reported | ConcreteVerticesGraph.java:209-237 | what `setSource`/`setTarget` return: the removed weight for 0; 0 for a new label or when the stored weight is the same cached `Integer` box; the replaced weight otherwise. `VerticesGraph.ReportedIsPreviousUnlessCached` relates it to the stored weight |
| VerticesGraph.ReportedIsPreviousUnlessCached | ConcreteVerticesGraph.java:216-220 | the weight `setSource`/`setTarget` report differs from the stored one exactly when the same weight in [1, 127] is set again (same cached `Integer` box) |
| VerticesGraph.ConsistentMapsValid | ConcreteVerticesGraph.java:147-153 | under the invariant no vertex lists itself as a source or target, and stored weights are positive |
| VerticesGraph.ConsistentCopiesAgree | ConcreteVerticesGraph.java:73-75 | the two stored copies of an edge agree: `b` is a target of `a` exactly when `a` is a source of `b`, with the same weight |
| VerticesGraph.ConsistentAbstract | ConcreteVerticesGraph.java:132-136 | the graph the vertices stand for has positive weights, edges between vertices, and no self-loops |
| VerticesGraph.ConsistentLabels | ConcreteVerticesGraph.java:28-30 | the label set is exactly the set of the listed labels, as many as there are vertices |
| VerticesGraph.ConsistentAppend | ConcreteVerticesGraph.java:44-45 | appending a vertex with empty maps for a new label keeps the invariant |
| VerticesGraph.ConsistentAfterSet | ConcreteVerticesGraph.java:73-74 | assigning the weight in the source's target map and the target's source map keeps the invariant for the edge map after `set` |
| VerticesGraph.ConsistentAfterRemove | ConcreteVerticesGraph.java:86-90 | removing a vertex and purging its label from every other vertex keeps the invariant for the edge map after `remove` |
| VerticesGraph.ConsistentDropAbsent | ConcreteVerticesGraph.java:80-83 | removing a label that is not a vertex leaves the edges alone |
| VerticesGraph.CopiesReportAlike | ConcreteVerticesGraph.java:73-75 | both copies of an edge report the same previous weight, so the assertion that they agree always holds |
| VerticesGraph.RemoveCheckCondition | ConcreteVerticesGraph.java:187-189 | the check in `Vertex.remove` holds exactly when the edges each way between the two labels do not both exist with different weights |
| VerticesGraph.RemoveCheckFails | ConcreteVerticesGraph.java:187-189 | after `set(x, v, 3)` and `set(v, x, 5)` the check in `Vertex.remove` fails |
| VerticesGraph.BumpOnVertices | ConcreteVerticesGraph.java:231-235 | on this representation the generator's two `set` calls leave an edge of weight 1 at 1 and raise every other weight by one |
| VerticesGraph.RepeatedPairStaysAtOne | GraphPoet.java:116-118 | on this representation a pair seen twice has weight 1, not 2 |
| VerticesGraph.Vertex.constructor | ConcreteVerticesGraph.java:144-146 | a new vertex has its label and no sources or targets |
| VerticesGraph.Vertex.AddSource | ConcreteVerticesGraph.java:162-171 | true exactly when the source was new, and only then is it recorded |
| VerticesGraph.Vertex.AddTarget | ConcreteVerticesGraph.java:172-181 | true exactly when the target was new, and only then is it recorded |
| VerticesGraph.Vertex.Remove | ConcreteVerticesGraph.java:182-191 | the label leaves both maps; reports the source weight, or the target weight when there was no source entry |
| VerticesGraph.Vertex.RemoveSource | ConcreteVerticesGraph.java:192-199 | the source leaves the map; reports its weight, 0 when absent |
| VerticesGraph.Vertex.RemoveTarget | ConcreteVerticesGraph.java:200-207 | the target leaves the map; reports its weight, 0 when absent |
| VerticesGraph.Vertex.SetSource | ConcreteVerticesGraph.java:209-223 | the source map stores the weight (0 deletes it); the report follows the boxed-`==` rule |
| VerticesGraph.Vertex.SetTarget | ConcreteVerticesGraph.java:224-238 | the target map stores the weight (0 deletes it); the report follows the boxed-`==` rule |
| VerticesGraph.Vertex.GetSources | ConcreteVerticesGraph.java:239-241 | the vertex's own map from source label to weight |
| VerticesGraph.Vertex.GetTargets | ConcreteVerticesGraph.java:243-245 | the vertex's own map from target label to weight |
| VerticesGraph.ForgetEverywhere | ConcreteVerticesGraph.java:88-90 | every listed vertex forgets the label in both maps, and nothing else changes |
| VerticesGraph.ConcreteVerticesGraph.constructor | ConcreteVerticesGraph.java:26-27 | the new graph has no vertices and no edges |
| VerticesGraph.ConcreteVerticesGraph.AbstractValid | ConcreteVerticesGraph.java:133-136 | the abstract graph is well formed and has no self-loops |
| VerticesGraph.ConcreteVerticesGraph.IndexInVertices | ConcreteVerticesGraph.java:31-38 | -1 exactly when no vertex has the label; otherwise the unique index of the vertex that has it |
| VerticesGraph.ConcreteVerticesGraph.Vertices | ConcreteVerticesGraph.java:93-97 | the labels collected from the list are exactly the vertex set |
| VerticesGraph.ConcreteVerticesGraph.Append | ConcreteVerticesGraph.java:44-45 | a fresh vertex for a new label goes at the end of the list; the edges are unchanged |
| VerticesGraph.ConcreteVerticesGraph.Add | ConcreteVerticesGraph.java:40-48 | true exactly when the label was new; then exactly one vertex is appended, else nothing changes |
| VerticesGraph.ConcreteVerticesGraph.VertexFor | ConcreteVerticesGraph.java:58-72 | the vertex with the label: the existing one, or a fresh one appended to the list |
| VerticesGraph.ConcreteVerticesGraph.Set | ConcreteVerticesGraph.java:50-78 | both endpoints become vertices even for weight 0; the edge map becomes `WithWeight`; returns what the source vertex's `setTarget` reports |
| VerticesGraph.ConcreteVerticesGraph.Link | ConcreteVerticesGraph.java:73-77 | both endpoint vertices are updated; their two reports agree; that report is returned |
| VerticesGraph.ConcreteVerticesGraph.Remove | ConcreteVerticesGraph.java:80-92 | true exactly when the label was a vertex; its vertex and every edge into or out of it go, and nothing else changes |
| VerticesGraph.ConcreteVerticesGraph.RemoveAt | ConcreteVerticesGraph.java:84-90 | the vertex at the index leaves the list and its label leaves every other vertex's maps |
| VerticesGraph.ConcreteVerticesGraph.Sources | ConcreteVerticesGraph.java:98-105 | the sources of the target in the abstract graph; empty for a label that is not a vertex |
| VerticesGraph.ConcreteVerticesGraph.Targets | ConcreteVerticesGraph.java:107-114 | the targets of the source in the abstract graph; empty for a label that is not a vertex |
| WeightedGraph.SourcesTargetsAgree | ConcreteVerticesGraph.java:73-75 | `s` is a source of `t` exactly when `t` is a target of `s`, with the same positive weight |
| WeightedGraph.AbsentVertexIsolated | ConcreteVerticesGraph.java:99-102 | a label that is not a vertex has no sources and no targets |
| WeightedGraph.TargetsAfterSet | ConcreteVerticesGraph.java:73 | `set` changes only the target map of the source, by storing or deleting the target |
| WeightedGraph.SourcesAfterSet | ConcreteVerticesGraph.java:74 | `set` changes only the source map of the target, by storing or deleting the source |
| WeightedGraph.TargetsAfterDrop | ConcreteVerticesGraph.java:88-90 | after `remove` every other vertex's target map just loses the removed label |
| WeightedGraph.SourcesAfterDrop | ConcreteVerticesGraph.java:88-90 | after `remove` every other vertex's source map just loses the removed label |
| Words.Split | GraphPoet.java:137 | `split("\\s")`: the pieces between single whitespace characters, trailing empty pieces dropped; its properties are `Words.SplitLaidOut`, `Words.SplitJoin` and `Words.SplitExtremes` |
| Words.SplitLaidOut | GraphPoet.java:137 | the pieces of `split("\\s")` are free of whitespace and lie in the input one separator apart |
| Words.SplitJoin | GraphPoet.java:137 | splitting words joined by single spaces gives the words back |
| Words.SplitExtremes | GraphPoet.java:137 | a non-empty string without whitespace is one piece; a string of whitespace only has none |
| Words.IndexFrom | GraphPoet.java:160 | the first position at or after `from` where the word occurs, or -1 when there is none |
| Words.Insert | GraphPoet.java:162 | the result is longer by exactly the inserted text; where the text goes is stated by `Words.InsertSplices` |
| Words.InsertSplices | GraphPoet.java:162 | the inserted text sits at the insertion point; the characters before and after keep their order |
| Words.InsertShifts | GraphPoet.java:162 | an occurrence at or after the insertion point moves right by the inserted length |
| Words.InsertKeeps | GraphPoet.java:162 | an occurrence that ends before the insertion point stays where it is |
| Words.Lower | GraphPoet.java:96 | same length, every ASCII capital replaced by its lower-case letter and every other character kept |
| Words.LowerIdempotent | GraphPoet.java:96 | lowercasing twice is lowercasing once, and it neither adds nor removes whitespace |
| Poet.CountAppend | GraphPoet.java:26-27 | one more word adds one to the count of the adjacency it ends |
| Poet.CountPositive | GraphPoet.java:26-27 | the count is positive exactly when the adjacency occurs |
| Poet.AffinityCounts | GraphPoet.java:26-27 | an edge exists exactly when its adjacency occurs, and its weight is the number of occurrences |
| Poet.AffinityGraphValid | GraphPoet.java:23-27 | every edge of the affinity graph joins two corpus words with weight at least one |
| Poet.ShortCorpusHasNoEdges | GraphPoet.java:110-114 | fewer than two words give no edge |
| Poet.Bump | GraphPoet.java:116-118 | `set(s, t, 1)` then `set(s, t, prev + 1)` raise the edge weight by exactly one and add both words |
| Poet.PrefixStep | GraphPoet.java:110-119 | one loop iteration adds word `i` to the vocabulary and, when there is a next word, that word and one count of their adjacency |
| Poet.GenerateAffinityGraph | GraphPoet.java:107-121 | the edges graph built is the affinity graph: every word, the last included, is a vertex, and each edge weight is its adjacency count |
| Poet.LowerTokens | GraphPoet.java:92-101 | the corpus words are the tokens lowercased, in order |
| Poet.Candidates | GraphPoet.java:145-153 | a bridge is exactly a target of the lowercased first word that is also a source of the lowercased second word |
| Poet.CandidatesAreCorpusWords | GraphPoet.java:145-153 | every bridge is a corpus word |
| Poet.ChoicesSoFarAppend | GraphPoet.java:141-158 | a valid choice for the next pair extends the valid choices made so far |
| Poet.ShiftPrefix | GraphPoet.java:162 | the choices for fewer pairs insert no more characters |
| Poet.BridgedAppend | GraphPoet.java:155-163 | one more choice either leaves the poem alone or inserts the bridge and a space before the second word of its pair |
| Poet.LaterWordMoves | GraphPoet.java:160-162 | a word not reached yet has moved right by everything inserted so far |
| Poet.EarlierWordStays | GraphPoet.java:160-162 | a word already passed stays where the bridges before it moved it |
| Poet.WordStaysAcross | GraphPoet.java:160-162 | a word up to the next pair's first word is not moved by that pair's bridge |
| Poet.BridgeStays | GraphPoet.java:160-162 | each bridge and its space end exactly where the second word of its pair starts |
| Poet.BridgedPlaces | GraphPoet.java:37-45 | the poem keeps every input word, each moved right by the bridges before it, and puts each bridge right before the second word of its pair |
| Poet.NoPairsNoChange | GraphPoet.java:141-144 | with fewer than two words the poem is the input |
| Poet.NoBridgesNoChange | GraphPoet.java:155 | choices that insert nothing leave the input as it is |
| Poet.NoCandidatesNoChange | GraphPoet.java:155 | when no pair has a bridge the poem is the input |
| Poet.PlaceBridge | GraphPoet.java:155-162 | one loop step: the next word is found at its own place, the bridge and a space go in before it, and the search position moves past the bridge |
| Poet.BridgedFromStart | GraphPoet.java:139-162 | the poem as written: each bridge and a space go before the first occurrence of its pair's second word anywhere in the buffer; the poem is at least the input and at most the input plus every bridge and its space |
| Poet.FromStartKeepsLaterWord | GraphPoet.java:139 | searching from position 0, as written, a word not reached yet has moved right by everything inserted so far |
| Poet.FromStartAlwaysFinds | GraphPoet.java:160 | as written, the search for the second word of a pair never returns -1 |
| Poet.GraphPoet.constructor | GraphPoet.java:83-87 | the corpus words are the lowercased tokens and the graph is their affinity graph |
| Poet.GraphPoet.GetCorpusWords | GraphPoet.java:122-129 | the corpus words are the tokens lowercased, in corpus order |
| Poet.GraphPoet.BridgesAreLowerCase | GraphPoet.java:43-44 | every bridge is already lower case |
| Poet.GraphPoet.ChooseBridge | GraphPoet.java:145-158 | the choice is a bridge of the pair when there is one, and nothing exactly when there is none |
| Poet.GraphPoet.BridgeWords | GraphPoet.java:139-164 | the loop makes a valid choice for every adjacent pair and builds the poem for those choices |
| Poet.GraphPoet.Poem | GraphPoet.java:136-167 | the poem is the input with a valid bridge choice for every adjacent pair of its words, each placed before the second word of its pair |
| PoetExamples.HelloCorpus | GraphPoet.java:29-35 | `Hello, HELLO, hello, goodbye!` gives `hello, -> hello,` with weight 2 and `hello, -> goodbye!` with weight 1, and nothing else |
| PoetExamples.MugarAffinity | GraphPoet.java:47-48 | the Mugar corpus gives each of its ten adjacencies once |
| PoetExamples.MugarBridge | GraphPoet.java:47-52 | in that corpus the only bridge from `Test` to `the` is `of` |
| PoetExamples.MugarNoBridge | GraphPoet.java:47-52 | in that corpus there is no bridge from `the` to `system.` |
| PoetExamples.MugarChoices | GraphPoet.java:47-52 | the only valid choices for `Test the system.` are `of`, then nothing |
| PoetExamples.MugarExample | GraphPoet.java:47-52 | for a corpus of the lowercased Mugar tokens, whatever is chosen, the poem for `Test the system.` is `Test of the system.`, with each bridge before its own pair's second word and also as written |
| PoetExamples.MugarFromStart | GraphPoet.java:139-162 | as written, `of` then nothing turns `Test the system.` into `Test of the system.` too |
| PoetExamples.MugarLowered | GraphPoet.java:92-101 | lowercasing the tokens `This is a test of the Mugar Omni Theater sound system.` gives the Mugar corpus words |
| PoetExamples.CatIsAtCandidates | GraphPoet.java:145-153 | in the corpus `cat is at` the only bridge from `cat` to `at` is `is` |
| PoetExamples.CatAtFromStart | GraphPoet.java:139-162 | as written, the input `cat at` with bridge `is` becomes `cis at at` |
| PoetExamples.CatAtPoem | GraphPoet.java:160-162 | with the bridge placed before the second word, `cat at` becomes `cat is at` |
| PoetExamples.PoemFromStartMisplacesBridge | GraphPoet.java:139-162 | for corpus `cat is at` and input `cat at`, the as-written search gives `cis at at` where the intended poem is `cat is at` |

## Left out

- File and `Scanner` input: the poet is built from the corpus tokens. `Poet.LowerTokens` is only the lowercasing step of `extractWordsFromFile`.
- `java.util.Random`: the bridge is any element of the candidate set (`:|`), and `chosen` records it. The class comment promises the maximum-weight bridge and single spaces between words. The code does neither: it picks at random and keeps the input's own whitespace, because the buffer starts as the input. The model follows the code.
- `Graph.empty()` is not part of this model: which representation it returns is not known. The poet runs on the edge-list graph, whose `set` reports the previous weight. On the vertices graph, re-setting a weight in 1..127 to the same value reports 0, because the boxed weights are compared by reference. The generator always re-sets to 1, so a repeated adjacency would stay at weight 1 there (`VerticesGraph.RepeatedPairStaysAtOne`).
- `checkRep` of the edge-list graph: a floating-point bound on the vertex count (`Math.sqrt`, `Math.ceil`).
- Every `toString`, and `Edge.hashCode`: display and hashing only.
- Aliasing: defensive copies and `Collections.unmodifiable*` views become plain values.
- Java `assert` statements, which are off by default:
  - those on arguments become preconditions (`weight >= 0`, and `source != target` in the vertices graph);
  - reference comparisons of labels are read as value comparisons;
  - the check in `Vertex.remove` is reported below and not modelled as a failure.
- Regular-expression splitting: `split("\\s")` is modelled for the six ASCII whitespace characters.
- Unicode lowercasing: `toLowerCase` is modelled for ASCII letters only.
- Words.Insert: its contract states only the length; the placement of the text is stated by `Words.InsertSplices`, `Words.InsertShifts` and `Words.InsertKeeps`.
- EdgesGraph.FilterIncident: it does not state that the kept records stay in their original order, only which records are kept.
- Integer width: weights and counts are unbounded. An `int` weight overflowing past 2^31 - 1 is not modelled.

## Findings

| source | as written | input that shows it | evidently intended | confidence | as-written member | corrected member |
|---|---|---|---|---|---|---|
| GraphPoet.java:139-160 | `fromIndex` is 0 and never advanced, so each bridge goes before the first occurrence of the second word anywhere in the buffer, even inside an earlier word | corpus `cat is at`, input `cat at`: `at` is found inside `cat`, giving `cis at at` (`PoetExamples.PoemFromStartMisplacesBridge`) | the bridge goes before the second word of its own pair, giving `cat is at` | high; not executed | Poet.BridgedFromStart | Poet.GraphPoet.Poem |
| ConcreteVerticesGraph.java:187-189 | `Vertex.remove` asserts that the source weight and the target weight it forgets are equal | `set(x, v, 3)`, `set(v, x, 5)`, then `remove(x)`: vertex `v` forgets 3 as a source and 5 as a target | the edges `x -> v` and `v -> x` are independent, and removing `x` should drop both without a check | high; not executed | VerticesGraph.RemoveCheckFails | VerticesGraph.Vertex.Remove |
