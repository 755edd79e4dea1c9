/**
 * Worked examples of the poem generator on concrete corpora and inputs: the
 * documented Mugar example, a corpus with a repeated adjacency, and the input
 * on which searching from the start of the buffer misplaces a bridge.
 */
module PoetExamples {
  import opened WeightedGraph
  import opened Words
  import opened Poet

  /** The corpus `Hello, HELLO, hello, goodbye!` gives one edge of weight 2 and one of weight 1. */
  lemma HelloCorpus(ws: seq<string>)
    requires |ws| == 4
    requires forall i :: 0 <= i < 4 ==> ws[i] == Lower(["Hello,", "HELLO,", "hello,", "goodbye!"][i])
    ensures AffinityGraph(ws) == Graph({"hello,", "goodbye!"}, map[("hello,", "hello,") := 2, ("hello,", "goodbye!") := 1])
  {
    assert ws[0] == Lower("Hello,") == "hello,";
    assert ws[1] == Lower("HELLO,") == "hello,";
    assert ws[2] == Lower("hello,") == "hello,";
    assert ws[3] == Lower("goodbye!") == "goodbye!";
    assert ws == ["hello,", "hello,", "hello,", "goodbye!"];
    AffinityAppend(["hello,"], "hello,");
    assert ["hello,"] + ["hello,"] == ["hello,", "hello,"];
    AffinityAppend(["hello,", "hello,"], "hello,");
    assert ["hello,", "hello,"] + ["hello,"] == ["hello,", "hello,", "hello,"];
    AffinityAppend(["hello,", "hello,", "hello,"], "goodbye!");
    assert ["hello,", "hello,", "hello,"] + ["goodbye!"] == ws;
  }

  /** `cat at` is one word, a space and another word. */
  lemma CatAtWords()
    ensures Split("cat at") == ["cat", "at"]
  {
    assert JoinWords(["cat", "at"]) == "cat at";
    SplitJoin(["cat", "at"]);
  }

  /** In the corpus `cat is at` the only bridge from `cat` to `at` is `is`. */
  lemma CatIsAtCandidates()
    ensures Candidates(Affinity(["cat", "is", "at"]), "cat", "at") == {"is"}
  {
    AffinityAppend(["cat"], "is");
    assert ["cat"] + ["is"] == ["cat", "is"];
    AffinityAppend(["cat", "is"], "at");
    assert ["cat", "is"] + ["at"] == ["cat", "is", "at"];
    assert Affinity(["cat", "is", "at"]) == map[("cat", "is") := 1, ("is", "at") := 1];
    assert Lower("cat") == "cat" && Lower("at") == "at";
  }

  /** Searching `cat at` from the start finds `at` inside `cat`, so `is ` goes in after the `c`. */
  lemma CatAtFromStart()
    ensures BridgedFromStart("cat at", ["cat", "at"], [Some("is")]) == "cis at at"
  {
    assert "cat at"[0..2][0] == 'c';
    assert "cat at"[1..3] == "at";
    assert IndexFrom("cat at", "at", 1) == 1;
    assert IndexFrom("cat at", "at", 0) == 1;
    assert [Some("is")][..0] == [];
  }

  /** The bridge placed before the second word: `cat is at`. */
  lemma CatAtPoem()
    ensures Split("cat at") == ["cat", "at"]
    ensures PoemFor("cat at", [Some("is")]) == "cat is at"
  {
    CatAtWords();
    var words := ["cat", "at"];
    assert JoinWords(words) == "cat at";
    JoinLaidOut(words);
    FirstBridge("cat at", words, "is");
    assert Start(words, 1) == 4;
    CatAtInsert();
  }

  /** `is ` inserted before `at` in `cat at`. */
  lemma CatAtInsert()
    ensures Insert("cat at", 4, "is ") == "cat is at"
  {
    assert "cat at"[..4] == "cat " && "cat at"[4..] == "at";
  }

  /**
   * With the corpus `cat is at` and the input `cat at`, the only bridge is
   * `is`; searching from the start finds `at` inside `cat` and writes
   * `cis at at`, where the bridge belongs before the second word: `cat is at`.
   */
  lemma PoemFromStartMisplacesBridge()
    ensures Split("cat at") == ["cat", "at"]
    ensures ValidChoices(Affinity(["cat", "is", "at"]), ["cat", "at"], [Some("is")])
    ensures BridgedFromStart("cat at", ["cat", "at"], [Some("is")]) == "cis at at"
    ensures PoemFor("cat at", [Some("is")]) == "cat is at"
  {
    CatAtWords();
    CatIsAtCandidates();
    CatAtFromStart();
    CatAtPoem();
  }

  /** `Test the system.` is three words. */
  lemma MugarWords()
    ensures Split("Test the system.") == ["Test", "the", "system."]
  {
    assert JoinWords(["Test", "the", "system."]) == "Test the system.";
    SplitJoin(["Test", "the", "system."]);
  }

  /** The tokens of the corpus `This is a test of the Mugar Omni Theater sound system.`. */
  const MugarTokens: seq<string> :=
    ["This", "is", "a", "test", "of", "the", "Mugar", "Omni", "Theater", "sound", "system."]

  /** The Mugar corpus words: its tokens, lowercased. */
  const MugarCorpus: seq<string> :=
    ["this", "is", "a", "test", "of", "the", "mugar", "omni", "theater", "sound", "system."]

  /** Lowercasing the Mugar tokens, as the poet's constructor does, gives the Mugar corpus words. */
  lemma MugarLowered(ws: seq<string>)
    requires |ws| == |MugarTokens|
    requires forall i :: 0 <= i < |MugarTokens| ==> ws[i] == Lower(MugarTokens[i])
    ensures ws == MugarCorpus
  {
    MugarLoweredFront(ws);
    MugarLoweredBack(ws);
  }

  /** The first six Mugar tokens, lowercased. */
  lemma MugarLoweredFront(ws: seq<string>)
    requires |ws| == |MugarTokens|
    requires forall i :: 0 <= i < |MugarTokens| ==> ws[i] == Lower(MugarTokens[i])
    ensures ws[..6] == MugarCorpus[..6]
  {
    assert ws[0] == Lower("This") == "this";
    assert ws[1] == Lower("is") == "is";
    assert ws[2] == Lower("a") == "a";
    assert ws[3] == Lower("test") == "test";
    assert ws[4] == Lower("of") == "of";
    assert ws[5] == Lower("the") == "the";
  }

  /** The last five Mugar tokens, lowercased. */
  lemma MugarLoweredBack(ws: seq<string>)
    requires |ws| == |MugarTokens|
    requires forall i :: 0 <= i < |MugarTokens| ==> ws[i] == Lower(MugarTokens[i])
    ensures ws[6..] == MugarCorpus[6..]
  {
    assert ws[6] == Lower("Mugar") == "mugar";
    assert ws[7] == Lower("Omni") == "omni";
    assert ws[8] == Lower("Theater") == "theater";
    assert ws[9] == Lower("sound") == "sound";
    assert ws[10] == Lower("system.") == "system.";
  }

  /** Each adjacency of the Mugar corpus, once. */
  const MugarEdges: map<(string, string), int> :=
    map[("this", "is") := 1, ("is", "a") := 1, ("a", "test") := 1, ("test", "of") := 1, ("of", "the") := 1,
        ("the", "mugar") := 1, ("mugar", "omni") := 1, ("omni", "theater") := 1, ("theater", "sound") := 1,
        ("sound", "system.") := 1]

  /** The affinity map of the first six words of the Mugar corpus. */
  lemma MugarAffinityFront()
    ensures Affinity(["this", "is", "a", "test", "of", "the"]) ==
              map[("this", "is") := 1, ("is", "a") := 1, ("a", "test") := 1, ("test", "of") := 1, ("of", "the") := 1]
  {
    AffinityAppend(["this"], "is");
    assert ["this"] + ["is"] == ["this", "is"];
    AffinityAppend(["this", "is"], "a");
    assert ["this", "is"] + ["a"] == ["this", "is", "a"];
    AffinityAppend(["this", "is", "a"], "test");
    assert ["this", "is", "a"] + ["test"] == ["this", "is", "a", "test"];
    AffinityAppend(["this", "is", "a", "test"], "of");
    assert ["this", "is", "a", "test"] + ["of"] == ["this", "is", "a", "test", "of"];
    AffinityAppend(["this", "is", "a", "test", "of"], "the");
    assert ["this", "is", "a", "test", "of"] + ["the"] == ["this", "is", "a", "test", "of", "the"];
  }

  /** The affinity map of the Mugar corpus: each of its ten adjacencies once. */
  lemma MugarAffinity()
    ensures Affinity(MugarCorpus) == MugarEdges
  {
    var front := ["this", "is", "a", "test", "of", "the"];
    MugarAffinityFront();
    AffinityAppend(front, "mugar");
    var ws := front + ["mugar"];
    AffinityAppend(ws, "omni");
    ws := ws + ["omni"];
    AffinityAppend(ws, "theater");
    ws := ws + ["theater"];
    AffinityAppend(ws, "sound");
    ws := ws + ["sound"];
    AffinityAppend(ws, "system.");
    ws := ws + ["system."];
    assert ws == MugarCorpus;
  }

  /** In the Mugar corpus the only bridge from `Test` to `the` is `of`. */
  lemma MugarBridge()
    ensures Candidates(MugarEdges, "Test", "the") == {"of"}
  {
    assert Lower("Test") == "test" && Lower("the") == "the";
    assert ("test", "of") in MugarEdges && ("of", "the") in MugarEdges;
    forall b | (b, "the") in MugarEdges
      ensures b == "of"
    {
    }
  }

  /** In the Mugar corpus there is no bridge from `the` to `system.`. */
  lemma MugarNoBridge()
    ensures Candidates(MugarEdges, "the", "system.") == {}
  {
    assert Lower("the") == "the" && Lower("system.") == "system.";
    forall b | (b, "system.") in MugarEdges
      ensures b == "sound"
    {
    }
    assert "sound"[0] != "the"[0];
    assert ("the", "sound") !in MugarEdges;
  }

  /** With `of` before `the` and nothing before `system.`, the poem is `Test of the system.`. */
  lemma MugarPoem()
    ensures Split("Test the system.") == ["Test", "the", "system."]
    ensures PoemFor("Test the system.", [Some("of"), None]) == "Test of the system."
  {
    MugarWords();
    MugarBridged();
  }

  /** The bridges `of`, then nothing, placed in `Test the system.`. */
  lemma MugarBridged()
    ensures LaidOut("Test the system.", ["Test", "the", "system."])
    ensures Bridged("Test the system.", ["Test", "the", "system."], [Some("of"), None]) == "Test of the system."
  {
    var input := "Test the system.";
    var words := ["Test", "the", "system."];
    assert JoinWords(words) == input;
    JoinLaidOut(words);
    FirstBridge(input, words, "of");
    assert Start(words, 1) == 5;
    MugarInsert();
    BridgedAppend(input, words, [Some("of")], None);
    assert [Some("of")] + [None] == [Some("of"), None];
  }

  /** A bridge for the first pair goes in right before the second word. */
  lemma FirstBridge(input: string, words: seq<string>, b: string)
    requires LaidOut(input, words) && |words| >= 2
    ensures Start(words, 1) <= |input|
    ensures Bridged(input, words, [Some(b)]) == Insert(input, Start(words, 1), b + " ")
  {
    assert WordAt(input, words, 1);
    assert [Some(b)][..0] == [];
  }

  /** `of ` inserted before `the` in `Test the system.`. */
  lemma MugarInsert()
    ensures Insert("Test the system.", 5, "of ") == "Test of the system."
  {
    assert "Test the system."[..5] == "Test " && "Test the system."[5..] == "the system.";
  }

  /** The only choices the Mugar corpus allows for `Test the system.`: `of`, then nothing. */
  lemma MugarChoices(chosen: seq<Option<string>>)
    requires ValidChoices(Affinity(MugarCorpus), Split("Test the system."), chosen)
    ensures chosen == [Some("of"), None]
  {
    var words := Split("Test the system.");
    MugarWords();
    MugarAffinity();
    assert |chosen| == 2;
    assert ChoiceFor(MugarEdges, words[0], words[1], chosen[0]);
    assert ChoiceFor(MugarEdges, words[1], words[2], chosen[1]);
    MugarBridge();
    MugarNoBridge();
    OnlyChoice(MugarEdges, "Test", "the", chosen[0], "of");
    NoChoice(MugarEdges, "the", "system.", chosen[1]);
  }

  /** A pair with a single bridge gets that bridge. */
  lemma OnlyChoice(edges: map<(string, string), int>, w1: string, w2: string, c: Option<string>, b: string)
    requires ChoiceFor(edges, w1, w2, c) && Candidates(edges, w1, w2) == {b}
    ensures c == Some(b)
  {
  }

  /** A pair without a bridge gets none. */
  lemma NoChoice(edges: map<(string, string), int>, w1: string, w2: string, c: Option<string>)
    requires ChoiceFor(edges, w1, w2, c) && Candidates(edges, w1, w2) == {}
    ensures c == None
  {
  }

  /**
   * The example `Test the system.` over the corpus `This is a test of the
   * Mugar Omni Theater sound system.`, whose words are its tokens lowercased:
   * whatever is chosen, the poem is `Test of the system.`, whether each
   * bridge goes before its own pair's second word or, as written, before
   * the first occurrence of that word.
   */
  lemma MugarExample(ws: seq<string>, chosen: seq<Option<string>>)
    requires |ws| == |MugarTokens|
    requires forall i :: 0 <= i < |MugarTokens| ==> ws[i] == Lower(MugarTokens[i])
    requires ValidChoices(Affinity(ws), Split("Test the system."), chosen)
    ensures PoemFor("Test the system.", chosen) == "Test of the system."
    ensures BridgedFromStart("Test the system.", Split("Test the system."), chosen) == "Test of the system."
  {
    MugarLowered(ws);
    MugarChoices(chosen);
    MugarPoem();
    MugarFromStart();
  }

  /** As written, `the` is first found where it belongs, so `of ` goes in before it. */
  lemma MugarFromStart()
    ensures BridgedFromStart("Test the system.", ["Test", "the", "system."], [Some("of"), None]) == "Test of the system."
  {
    var input := "Test the system.";
    var words := ["Test", "the", "system."];
    assert input[5..8] == "the";
    assert input[0..3][0] != 't' && input[1..4][0] != 't' && input[2..5][0] != 't';
    assert input[3..6][1] != 'h' && input[4..7][0] != 't';
    assert IndexFrom(input, "the", 0) == 5;
    assert [Some("of")][..0] == [];
    assert BridgedFromStart(input, words, [Some("of")]) == Insert(input, 5, "of ");
    MugarInsert();
    assert [Some("of"), None][..1] == [Some("of")];
  }
}
