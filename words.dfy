/**
 * The string operations the poem generator relies on: splitting the input at
 * single whitespace characters (`String.split("\\s")`), locating the pieces in
 * the input, searching a buffer for a word from a given position
 * (`StringBuilder.indexOf`), inserting into a buffer (`StringBuilder.insert`)
 * and lowercasing (ASCII letters only).
 */
module Words {

  /** The characters `\s` matches: space, tab, line feed, vertical tab, form feed and carriage return. */
  predicate IsSpace(c: char) {
    c == ' ' || c == '\t' || c == '\n' || c == '\U{000B}' || c == '\U{000C}' || c == '\r'
  }

  /** No character of `w` is whitespace. */
  predicate NoSpace(w: string) {
    forall i :: 0 <= i < |w| ==> !IsSpace(w[i])
  }

  /** The position of the first whitespace character of `s`, or `|s|` when there is none. */
  function SpaceIndex(s: string): (r: nat)
    ensures r <= |s|
    ensures r < |s| ==> IsSpace(s[r])
    ensures NoSpace(s[..r])
  {
    if s == [] then 0
    else if IsSpace(s[0]) then 0
    else
      var r := 1 + SpaceIndex(s[1..]);
      assert s[..r] == [s[0]] + s[1..][..r - 1];
      r
  }

  /** The first whitespace character is the one with no whitespace before it. */
  lemma SpaceIndexUnique(s: string, k: nat)
    requires k <= |s| && NoSpace(s[..k]) && (k < |s| ==> IsSpace(s[k]))
    ensures SpaceIndex(s) == k
  {
    var r := SpaceIndex(s);
    assert forall i :: 0 <= i < k ==> s[..k][i] == s[i];
    assert forall i :: 0 <= i < r ==> s[..r][i] == s[i];
  }

  /** `s` cut at every whitespace character, keeping empty pieces: one more piece than separators. */
  function Pieces(s: string): (r: seq<string>)
    ensures |r| >= 1
    decreases |s|
  {
    var k := SpaceIndex(s);
    if k == |s| then [s] else [s[..k]] + Pieces(s[k + 1..])
  }

  /** `ps` without its trailing empty strings. */
  function DropTrailingEmpty(ps: seq<string>): (r: seq<string>)
    ensures |r| <= |ps| && r == ps[..|r|]
    ensures r == [] || r[|r| - 1] != []
    ensures forall j :: |r| <= j < |ps| ==> ps[j] == []
  {
    if ps != [] && ps[|ps| - 1] == [] then DropTrailingEmpty(ps[..|ps| - 1]) else ps
  }

  /**
   * `s.split("\\s")`: the pieces between single whitespace characters, with
   * trailing empty pieces dropped; a string with no whitespace at all, the
   * empty string included, is its own only piece.
   */
  function Split(s: string): seq<string> {
    if s == [] then [[]] else DropTrailingEmpty(Pieces(s))
  }

  /** Where the `k`-th piece starts when the pieces are laid out with one separator between neighbours. */
  function Start(ps: seq<string>, k: nat): nat
    requires k <= |ps|
  {
    if k == 0 then 0 else Start(ps, k - 1) + |ps[k - 1]| + 1
  }

  /** `w` occurs in `s` at position `at`. */
  predicate OccursAt(s: string, w: string, at: int) {
    0 <= at && at + |w| <= |s| && s[at..at + |w|] == w
  }

  /** Piece `k` of `ps` occurs in `s` where the layout puts it, free of whitespace. */
  ghost predicate WordAt(s: string, ps: seq<string>, k: int) {
    0 <= k < |ps| && OccursAt(s, ps[k], Start(ps, k)) && NoSpace(ps[k])
  }

  /** Every piece of `ps` occurs in `s` where the layout puts it, free of whitespace. */
  ghost predicate LaidOut(s: string, ps: seq<string>) {
    forall k {:trigger WordAt(s, ps, k)} :: 0 <= k < |ps| ==> WordAt(s, ps, k)
  }

  /**
   * The `j`-th piece of `ps` sits in `s` at its layout position, free of
   * whitespace; a whitespace character follows it unless it is the last
   * piece, which ends the string.
   */
  ghost predicate Placed(s: string, ps: seq<string>, j: nat)
    requires j < |ps|
  {
    var at, w := Start(ps, j), ps[j];
    && OccursAt(s, w, at) && NoSpace(w)
    && (j < |ps| - 1 ==> at + |w| < |s| && IsSpace(s[at + |w|]))
    && (j == |ps| - 1 ==> at + |w| == |s|)
  }

  /** Every piece `Pieces` cuts is placed where the layout puts it. */
  lemma {:induction false} PieceAt(s: string, j: nat)
    requires j < |Pieces(s)|
    ensures Placed(s, Pieces(s), j)
    decreases |s|
  {
    var k := SpaceIndex(s);
    var ps := Pieces(s);
    if k == |s| {
      assert ps == [s] && j == 0;
      assert s[0..|s|] == s;
    } else if j == 0 {
      assert ps[0] == s[..k] && Start(ps, 0) == 0;
      assert s[0..k] == s[..k];
    } else {
      PieceAt(s[k + 1..], j - 1);
      PlacedAfterSpace(s, k, ps, Pieces(s[k + 1..]), j);
    }
  }

  /**
   * When `ps` is a first piece ending at position `k` followed by the pieces
   * `qs` of the rest of `s`, a piece of `qs` placed in the rest is placed in
   * `s` one piece and one separator further on.
   */
  lemma PlacedAfterSpace(s: string, k: nat, ps: seq<string>, qs: seq<string>, j: nat)
    requires k < |s| && ps == [s[..k]] + qs && 0 < j < |ps|
    requires Placed(s[k + 1..], qs, j - 1)
    ensures Placed(s, ps, j)
  {
    var rest := s[k + 1..];
    StartShift(s[..k], qs, j);
    var at := Start(qs, j - 1);
    var w := qs[j - 1];
    assert ps[j] == w && Start(ps, j) == k + 1 + at;
    OccursInSuffix(s, k + 1, w, at);
    if j < |ps| - 1 {
      assert s[k + 1 + at + |w|] == rest[at + |w|];
    }
  }

  /** An occurrence in a suffix of `s` is an occurrence in `s`, shifted by where the suffix starts. */
  lemma OccursInSuffix(s: string, d: nat, w: string, at: int)
    requires d <= |s| && OccursAt(s[d..], w, at)
    ensures OccursAt(s, w, d + at)
  {
    assert s[d + at..d + at + |w|] == s[d..][at..at + |w|];
  }

  /** All the pieces put back, as `PieceAt` describes each of them. */
  lemma PiecesLaidOut(s: string)
    ensures LaidOut(s, Pieces(s))
  {
    forall j | 0 <= j < |Pieces(s)|
      ensures WordAt(s, Pieces(s), j)
    {
      PieceAt(s, j);
      assert Placed(s, Pieces(s), j);
    }
  }

  /** Putting one piece in front shifts every later start by that piece and its separator. */
  lemma {:induction false} StartShift(first: string, qs: seq<string>, j: nat)
    requires 0 < j <= |qs| + 1
    ensures Start([first] + qs, j) == |first| + 1 + Start(qs, j - 1)
  {
    if j > 1 {
      StartShift(first, qs, j - 1);
      assert ([first] + qs)[j - 1] == qs[j - 2];
    }
  }

  /** The layout of a prefix of the pieces is the layout of those pieces. */
  lemma {:induction false} StartPrefix(ps: seq<string>, n: nat, k: nat)
    requires k <= n <= |ps|
    ensures Start(ps[..n], k) == Start(ps, k)
  {
    if k > 0 {
      StartPrefix(ps, n, k - 1);
    }
  }

  /** Every word `split` returns lies in the input at its layout position and holds no whitespace. */
  lemma SplitLaidOut(s: string)
    ensures LaidOut(s, Split(s))
  {
    if s != [] {
      var ps := Pieces(s);
      var r := Split(s);
      PiecesLaidOut(s);
      forall k | 0 <= k < |r|
        ensures WordAt(s, r, k)
      {
        StartPrefix(ps, |r|, k);
        assert WordAt(s, ps, k);
      }
    }
  }

  /** The words joined with a single space between neighbours. */
  function JoinWords(ws: seq<string>): string
    requires |ws| >= 1
  {
    if |ws| == 1 then ws[0] else ws[0] + " " + JoinWords(ws[1..])
  }

  /** Words free of whitespace, joined with single spaces, cut back into exactly those words. */
  lemma {:induction false} PiecesJoin(ws: seq<string>)
    requires |ws| >= 1 && forall i :: 0 <= i < |ws| ==> NoSpace(ws[i])
    ensures Pieces(JoinWords(ws)) == ws
  {
    var s := JoinWords(ws);
    var w := ws[0];
    if |ws| == 1 {
      assert s[..|s|] == s;
      SpaceIndexUnique(s, |s|);
    } else {
      var rest := ws[1..];
      assert s == w + " " + JoinWords(rest);
      assert s[..|w|] == w && s[|w|] == ' ';
      SpaceIndexUnique(s, |w|);
      assert s[|w| + 1..] == JoinWords(rest);
      assert forall i :: 0 <= i < |rest| ==> NoSpace(rest[i]) by {
        forall i | 0 <= i < |rest| ensures NoSpace(rest[i]) {
          assert rest[i] == ws[i + 1];
        }
      }
      PiecesJoin(rest);
      assert Pieces(s) == [s[..|w|]] + Pieces(s[|w| + 1..]);
      assert ws == [w] + rest;
    }
  }

  /**
   * `split` undoes joining with single spaces: words free of whitespace, the
   * last of them not empty, come back as they were.
   */
  lemma SplitJoin(ws: seq<string>)
    requires |ws| >= 1 && forall i :: 0 <= i < |ws| ==> NoSpace(ws[i])
    requires ws[|ws| - 1] != []
    ensures Split(JoinWords(ws)) == ws
  {
    PiecesJoin(ws);
    JoinEndsWithLast(ws);
  }

  /** Joined words lie in the joined string where the layout puts them. */
  lemma JoinLaidOut(ws: seq<string>)
    requires |ws| >= 1 && forall i :: 0 <= i < |ws| ==> NoSpace(ws[i])
    requires ws[|ws| - 1] != []
    ensures LaidOut(JoinWords(ws), ws)
  {
    SplitJoin(ws);
    SplitLaidOut(JoinWords(ws));
  }

  /** The joined string ends with the last word, so it is not empty when that word is not. */
  lemma {:induction false} JoinEndsWithLast(ws: seq<string>)
    requires |ws| >= 1
    ensures |JoinWords(ws)| >= |ws[|ws| - 1]|
  {
    if |ws| > 1 {
      JoinEndsWithLast(ws[1..]);
    }
  }

  /** A string free of whitespace splits into itself alone; one made only of whitespace splits into nothing. */
  lemma SplitExtremes(s: string)
    ensures s != [] && NoSpace(s) ==> Split(s) == [s]
    ensures s != [] && (forall i :: 0 <= i < |s| ==> IsSpace(s[i])) ==> Split(s) == []
  {
    if s != [] && forall i :: 0 <= i < |s| ==> IsSpace(s[i]) {
      AllSpacePieces(s);
    }
  }

  /** A string made only of whitespace cuts into empty pieces only. */
  lemma {:induction false} AllSpacePieces(s: string)
    requires forall i :: 0 <= i < |s| ==> IsSpace(s[i])
    ensures forall j :: 0 <= j < |Pieces(s)| ==> Pieces(s)[j] == []
    decreases |s|
  {
    if s != [] {
      AllSpacePieces(s[1..]);
    }
  }

  /**
   * `s.indexOf(w, from)`: the first position at or after `from` where `w`
   * occurs in `s`, or -1 when there is none.
   */
  function IndexFrom(s: string, w: string, from: nat): (r: int)
    ensures r == -1 || (from <= r && OccursAt(s, w, r))
    ensures r != -1 ==> forall j :: from <= j < r ==> !OccursAt(s, w, j)
    ensures r == -1 ==> forall j :: from <= j ==> !OccursAt(s, w, j)
    decreases |s| - from
  {
    if from + |w| > |s| then -1
    else if s[from..from + |w|] == w then from
    else IndexFrom(s, w, from + 1)
  }

  /** Searching from a position where `w` occurs finds it there. */
  lemma IndexFromFinds(s: string, w: string, from: nat)
    requires OccursAt(s, w, from)
    ensures IndexFrom(s, w, from) == from
  {
  }

  /** `s` with `text` inserted at position `at`: `insert(at, text)`. */
  function Insert(s: string, at: nat, text: string): (r: string)
    requires at <= |s|
    ensures |r| == |s| + |text|
  {
    s[..at] + text + s[at..]
  }

  /** The inserted text sits at `at`; what came before and after it is kept, in order, on either side. */
  lemma InsertSplices(s: string, at: nat, text: string)
    requires at <= |s|
    ensures Insert(s, at, text)[..at] == s[..at]
    ensures Insert(s, at, text)[at..at + |text|] == text
    ensures Insert(s, at, text)[at + |text|..] == s[at..]
  {
    var r := Insert(s, at, text);
    assert r == s[..at] + text + s[at..];
  }

  /** An occurrence at or after the insertion point moves right by the length of the inserted text. */
  lemma InsertShifts(s: string, at: nat, text: string, w: string, pos: int)
    requires at <= pos && OccursAt(s, w, pos)
    ensures OccursAt(Insert(s, at, text), w, pos + |text|)
  {
    var r := Insert(s, at, text);
    assert r[pos + |text|..pos + |text| + |w|] == r[at + |text|..][pos - at..pos - at + |w|];
    assert s[pos..pos + |w|] == s[at..][pos - at..pos - at + |w|];
  }

  /** An occurrence that ends at or before the insertion point stays where it is. */
  lemma InsertKeeps(s: string, at: nat, text: string, w: string, pos: int)
    requires at <= |s| && OccursAt(s, w, pos) && pos + |w| <= at
    ensures OccursAt(Insert(s, at, text), w, pos)
  {
    var r := Insert(s, at, text);
    assert r[pos..pos + |w|] == r[..at][pos..pos + |w|];
    assert s[pos..pos + |w|] == s[..at][pos..pos + |w|];
  }

  /** ASCII lowercasing of one character; every other character is left alone. */
  function LowerChar(c: char): char {
    if 'A' <= c <= 'Z' then (c as int + 32) as char else c
  }

  /** `toLowerCase`, on ASCII letters. */
  function Lower(s: string): (r: string)
    ensures |r| == |s|
    ensures forall i :: 0 <= i < |s| ==> r[i] == LowerChar(s[i])
  {
    seq(|s|, i requires 0 <= i < |s| => LowerChar(s[i]))
  }

  /** Lowercasing twice is lowercasing once, and it neither adds nor removes whitespace. */
  lemma LowerIdempotent(s: string)
    ensures Lower(Lower(s)) == Lower(s)
    ensures NoSpace(s) <==> NoSpace(Lower(s))
  {
  }
}
