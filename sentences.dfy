/** The two sentence splitters of main.py, each a `re.split` with a
    lookbehind pattern: the boundary of `split` (line 39) and the separator of
    `process_text` (line 69). */
module Sentences {
  import opened CharClass
  import opened StrOps

  /** Whether `(?<!\w\.\w.)(?<=\.|\?|\!)\s` matches the single character
      `t[i]`: it is whitespace, it follows `.`, `?` or `!`, and the four
      characters before it are not a word character, `.`, a word character
      and a non-newline (the abbreviation guard, as in "U.S. policy"). */
  predicate IsBoundary(t: string, i: nat)
    requires i < |t|
    ensures IsBoundary(t, i) ==> 1 <= i && IsSpace(t[i]) && !IsSpace(t[i - 1])
  {
    && IsSpace(t[i])
    && 1 <= i && IsTerminal(t[i - 1])
    && !(4 <= i && IsWord(t[i - 4]) && t[i - 3] == '.' && IsWord(t[i - 2]) && t[i - 1] != '\n')
  }

  /** The guard's trailing "any character" always matches the mark, so a
      whitespace character right after `.`, `?` or `!` is a boundary exactly
      when the three characters before the mark are not word character, `.`,
      word character. */
  lemma AbbreviationGuard(t: string, i: nat)
    requires i < |t| && 1 <= i && IsSpace(t[i]) && IsTerminal(t[i - 1])
    ensures IsBoundary(t, i) <==> !(4 <= i && IsWord(t[i - 4]) && t[i - 3] == '.' && IsWord(t[i - 2]))
  {
  }

  /** The first boundary at or after `from`, or `|t|` when there is none. */
  function NextBoundary(t: string, from: nat): (j: nat)
    requires from <= |t|
    ensures from <= j <= |t|
    ensures j < |t| ==> IsBoundary(t, j)
    decreases |t| - from
  {
    if from == |t| then |t|
    else if IsBoundary(t, from) then from
    else NextBoundary(t, from + 1)
  }

  /** No boundary lies between `from` and the one `NextBoundary` finds. */
  lemma {:induction false} NextBoundaryFirst(t: string, from: nat)
    requires from <= |t|
    ensures forall i :: from <= i < NextBoundary(t, from) ==> !IsBoundary(t, i)
    decreases |t| - from
  {
    if from < |t| && !IsBoundary(t, from) {
      NextBoundaryFirst(t, from + 1);
    }
  }

  /** The pieces of `t[from..]` between boundaries; each boundary character
      is dropped. */
  function SplitFrom(t: string, from: nat): (r: seq<string>)
    requires from <= |t|
    ensures |r| >= 1
    decreases |t| - from
  {
    var j := NextBoundary(t, from);
    if j == |t| then [t[from..]] else [t[from..j]] + SplitFrom(t, j + 1)
  }

  /** `re.split(r"(?<!\w\.\w.)(?<=\.|\?|\!)\s", t)`. */
  function SplitSentences(t: string): (r: seq<string>)
    ensures |r| >= 1
  {
    SplitFrom(t, 0)
  }

  /** The boundary positions of `t` at or after `from`, in increasing order. */
  function Cuts(t: string, from: nat): seq<nat>
    requires from <= |t|
    decreases |t| - from
  {
    if from == |t| then []
    else if IsBoundary(t, from) then [from] + Cuts(t, from + 1)
    else Cuts(t, from + 1)
  }

  /** `Cuts` lists every boundary from `from` on and nothing else. */
  lemma {:induction false} CutsExact(t: string, from: nat)
    requires from <= |t|
    ensures forall k :: 0 <= k < |Cuts(t, from)| ==>
      from <= Cuts(t, from)[k] < |t| && IsBoundary(t, Cuts(t, from)[k])
    ensures forall i :: from <= i < |t| && IsBoundary(t, i) ==> i in Cuts(t, from)
    decreases |t| - from
  {
    if from < |t| {
      CutsExact(t, from + 1);
    }
  }

  /** Between `from` and the next boundary there is nothing to cut. */
  lemma {:induction false} CutsSkip(t: string, from: nat)
    requires from <= |t|
    ensures Cuts(t, from) == Cuts(t, NextBoundary(t, from))
    decreases |t| - from
  {
    if from < |t| && !IsBoundary(t, from) {
      CutsSkip(t, from + 1);
    }
  }

  /** Where piece `k` of a split at the cuts `c` starts: at `from`, or right
      after cut `k - 1`. */
  function PieceStart(c: seq<nat>, from: nat, k: nat): nat
    requires k <= |c|
  {
    if k == 0 then from else c[k - 1] + 1
  }

  /** Where piece `k` of a split of `t` at the cuts `c` ends: at cut `k`, or at
      the end of `t`. */
  function PieceEnd(c: seq<nat>, t: string, k: nat): nat
    requires k <= |c|
  {
    if k < |c| then c[k] else |t|
  }

  /** `r` holds the stretches of `t[from..]` between consecutive cuts of `c`:
      one piece more than cuts, piece `k` from `PieceStart` to `PieceEnd`. */
  ghost predicate CutPieces(t: string, from: nat, r: seq<string>, c: seq<nat>) {
    && |r| == |c| + 1
    && forall k :: 0 <= k < |r| ==>
         PieceStart(c, from, k) <= PieceEnd(c, t, k) <= |t|
         && r[k] == t[PieceStart(c, from, k)..PieceEnd(c, t, k)]
  }

  /** The pieces of `t[from..]` are the stretches between consecutive cuts. */
  lemma {:induction false} SplitFromPieces(t: string, from: nat)
    requires from <= |t|
    ensures CutPieces(t, from, SplitFrom(t, from), Cuts(t, from))
    decreases |t| - from
  {
    var j := NextBoundary(t, from);
    CutsSkip(t, from);
    if j < |t| {
      SplitFromStep(t, from);
      SplitFromPieces(t, j + 1);
      PiecesShift(t, from, j, SplitFrom(t, j + 1), Cuts(t, j + 1));
    }
  }

  /** Putting the piece `t[from..j]` and the cut `j` in front of a split of
      `t[j + 1..]` gives a split of `t[from..]`. */
  lemma PiecesShift(t: string, from: nat, j: nat, r: seq<string>, c: seq<nat>)
    requires from <= j < |t|
    requires CutPieces(t, j + 1, r, c)
    ensures CutPieces(t, from, [t[from..j]] + r, [j] + c)
  {
    var r', c' := [t[from..j]] + r, [j] + c;
    forall k | 0 <= k < |r'|
      ensures PieceStart(c', from, k) <= PieceEnd(c', t, k) <= |t|
      ensures r'[k] == t[PieceStart(c', from, k)..PieceEnd(c', t, k)]
    {
      if k > 0 {
        PiecesShiftAt(t, from, j, r, c, k);
      }
    }
  }

  lemma PiecesShiftAt(t: string, from: nat, j: nat, r: seq<string>, c: seq<nat>, k: nat)
    requires from <= j < |t| && |r| == |c| + 1 && 0 < k <= |c| + 1
    ensures var r', c' := [t[from..j]] + r, [j] + c;
      && PieceStart(c', from, k) == PieceStart(c, j + 1, k - 1)
      && PieceEnd(c', t, k) == PieceEnd(c, t, k - 1)
      && r'[k] == r[k - 1]
  {
  }

  /** `re.split` cuts exactly at the boundaries: the cuts are all the boundary
      positions and nothing else, there is one more piece than there are
      cuts, and piece `k` is the text strictly between cut `k - 1` and cut
      `k` (the boundary characters themselves are dropped). */
  lemma SplitSentencesPieces(t: string)
    ensures var r, c := SplitSentences(t), Cuts(t, 0);
      && (forall k :: 0 <= k < |c| ==> c[k] < |t| && IsBoundary(t, c[k]))
      && (forall i :: 0 <= i < |t| && IsBoundary(t, i) ==> i in c)
      && |r| == |c| + 1
      && forall k :: 0 <= k < |r| ==>
           PieceStart(c, 0, k) <= PieceEnd(c, t, k) <= |t|
           && r[k] == t[PieceStart(c, 0, k)..PieceEnd(c, t, k)]
  {
    CutsExact(t, 0);
    SplitFromPieces(t, 0);
  }

  /** A piece ends and the next begins exactly at a boundary. */
  lemma SplitFromStep(t: string, from: nat)
    requires from <= |t| && NextBoundary(t, from) < |t|
    ensures var j := NextBoundary(t, from);
      IsBoundary(t, j) && SplitFrom(t, from) == [t[from..j]] + SplitFrom(t, j + 1)
  {
  }

  /** The piece after the last boundary is the rest of the text. */
  lemma SplitFromLast(t: string, from: nat)
    requires from <= |t| && NextBoundary(t, from) == |t|
    ensures SplitFrom(t, from) == [t[from..]]
  {
  }

  /** A text without boundaries stays in one piece. */
  lemma {:induction false} SplitWithoutBoundary(t: string, from: nat)
    requires from <= |t|
    requires forall i :: from <= i < |t| ==> !IsBoundary(t, i)
    ensures SplitFrom(t, from) == [t[from..]]
  {
    assert NextBoundary(t, from) == |t|;
    SplitFromLast(t, from);
  }

  /** Splitting at boundaries keeps every word, in order. */
  lemma {:induction false} SplitFromWords(t: string, from: nat)
    requires from <= |t|
    ensures FlatWords(SplitFrom(t, from)) == Words(t[from..])
    decreases |t| - from
  {
    var j := NextBoundary(t, from);
    if j == |t| {
      SplitFromLast(t, from);
      FlatWordsSingle(t[from..]);
    } else {
      SplitFromStep(t, from);
      SplitFromWords(t, j + 1);
      WordsCutAtSpace(t, from, j, SplitFrom(t, j + 1));
    }
  }

  lemma SplitSentencesWords(t: string)
    ensures FlatWords(SplitSentences(t)) == Words(t)
  {
    SplitFromWords(t, 0);
    assert t[0..] == t;
  }

  /** A position that is the first boundary from `from` on, or the end of a
      text without one, is what `NextBoundary` finds. */
  lemma {:induction false} NextBoundaryIs(t: string, from: nat, j: nat)
    requires from <= j <= |t|
    requires j < |t| ==> IsBoundary(t, j)
    requires forall i :: from <= i < j ==> !IsBoundary(t, i)
    ensures NextBoundary(t, from) == j
    decreases j - from
  {
    if from < j {
      NextBoundaryIs(t, from + 1, j);
    }
  }

  /** The text of the abbreviation example below. */
  const Example := "Hi. U.S. ok. Go!"

  lemma ExampleFirstEnd()
    ensures NextBoundary(Example, 0) == 3
  {
    var t := Example;
    assert !IsBoundary(t, 0) && !IsBoundary(t, 1) && !IsBoundary(t, 2);
    assert IsBoundary(t, 3);
    NextBoundaryIs(t, 0, 3);
  }

  /** The space after "U.S." is not a boundary. */
  lemma ExampleSecondEnd()
    ensures NextBoundary(Example, 4) == 12
  {
    var t := Example;
    assert !IsBoundary(t, 4) && !IsBoundary(t, 5) && !IsBoundary(t, 6) && !IsBoundary(t, 7);
    assert !IsBoundary(t, 8) && !IsBoundary(t, 9) && !IsBoundary(t, 10) && !IsBoundary(t, 11);
    assert IsBoundary(t, 12);
    NextBoundaryIs(t, 4, 12);
  }

  lemma ExampleNoMoreEnds()
    ensures NextBoundary(Example, 13) == |Example|
  {
    var t := Example;
    assert !IsBoundary(t, 13) && !IsBoundary(t, 14) && !IsBoundary(t, 15);
    NextBoundaryIs(t, 13, 16);
  }

  /** The abbreviation guard at work: "U.S." does not end a sentence, the
      other two marks do. */
  lemma AbbreviationExample()
    ensures SplitSentences(Example) == ["Hi.", "U.S. ok.", "Go!"]
  {
    var t := Example;
    ExampleFirstEnd();
    ExampleSecondEnd();
    ExampleNoMoreEnds();
    assert SplitFrom(t, 13) == [t[13..]];
    assert SplitFrom(t, 4) == [t[4..12]] + SplitFrom(t, 13);
    assert t[0..3] == "Hi." && t[4..12] == "U.S. ok." && t[13..] == "Go!";
  }

  /** Whether the separator `(?<=[.!?]) +` of `process_text` starts at
      `t[i]`: a space right after `.`, `!` or `?`. */
  predicate StartsSeparator(t: string, i: nat)
    requires i < |t|
  {
    t[i] == ' ' && 1 <= i && IsTerminal(t[i - 1])
  }

  /** The first separator start at or after `from`, or `|t|`. */
  function NextSeparator(t: string, from: nat): (j: nat)
    requires from <= |t|
    ensures from <= j <= |t|
    ensures j < |t| ==> StartsSeparator(t, j)
    decreases |t| - from
  {
    if from == |t| then |t|
    else if StartsSeparator(t, from) then from
    else NextSeparator(t, from + 1)
  }

  /** No separator starts between `from` and the one `NextSeparator` finds. */
  lemma {:induction false} NextSeparatorFirst(t: string, from: nat)
    requires from <= |t|
    ensures forall i :: from <= i < NextSeparator(t, from) ==> !StartsSeparator(t, i)
    decreases |t| - from
  {
    if from < |t| && !StartsSeparator(t, from) {
      NextSeparatorFirst(t, from + 1);
    }
  }

  /** The end of the run of spaces that starts at `j` (` +` is greedy). */
  function SpacesEnd(t: string, j: nat): (e: nat)
    requires j <= |t|
    ensures j <= e <= |t|
    ensures forall i :: j <= i < e ==> t[i] == ' '
    ensures e < |t| ==> t[e] != ' '
    decreases |t| - j
  {
    if j < |t| && t[j] == ' ' then SpacesEnd(t, j + 1) else j
  }

  /** The pieces of `t[from..]` between separators; each separator run is
      dropped and the search resumes after it. */
  function SplitAfterPunctFrom(t: string, from: nat): (r: seq<string>)
    requires from <= |t|
    ensures |r| >= 1
    decreases |t| - from
  {
    var j := NextSeparator(t, from);
    if j == |t| then [t[from..]]
    else [t[from..j]] + SplitAfterPunctFrom(t, SpacesEnd(t, j))
  }

  /** `re.split(r"(?<=[.!?]) +", t)`. */
  function SplitAfterPunct(t: string): (r: seq<string>)
    ensures |r| >= 1
  {
    SplitAfterPunctFrom(t, 0)
  }

  /** The positions of `t` at or after `from` where a separator starts, in
      increasing order. A start follows `.`, `!` or `?`, never a space, so no
      start lies inside an earlier run of spaces. */
  function SeparatorStarts(t: string, from: nat): seq<nat>
    requires from <= |t|
    decreases |t| - from
  {
    if from == |t| then []
    else if StartsSeparator(t, from) then [from] + SeparatorStarts(t, from + 1)
    else SeparatorStarts(t, from + 1)
  }

  /** `SeparatorStarts` lists every separator start from `from` on and
      nothing else. */
  lemma {:induction false} SeparatorStartsExact(t: string, from: nat)
    requires from <= |t|
    ensures forall k :: 0 <= k < |SeparatorStarts(t, from)| ==>
      from <= SeparatorStarts(t, from)[k] < |t| && StartsSeparator(t, SeparatorStarts(t, from)[k])
    ensures forall i :: from <= i < |t| && StartsSeparator(t, i) ==> i in SeparatorStarts(t, from)
    decreases |t| - from
  {
    if from < |t| {
      SeparatorStartsExact(t, from + 1);
    }
  }

  /** A stretch without separator starts adds none to the list. */
  lemma {:induction false} SeparatorStartsSkip(t: string, a: nat, b: nat)
    requires a <= b <= |t|
    requires forall i :: a <= i < b ==> !StartsSeparator(t, i)
    ensures SeparatorStarts(t, a) == SeparatorStarts(t, b)
    decreases b - a
  {
    if a < b {
      SeparatorStartsSkip(t, a + 1, b);
    }
  }

  /** No separator starts inside a run of spaces after its first character. */
  lemma NoStartInRun(t: string, j: nat)
    requires j < |t| && t[j] == ' '
    ensures forall i :: j + 1 <= i < SpacesEnd(t, j) ==> !StartsSeparator(t, i)
  {
    forall i | j + 1 <= i < SpacesEnd(t, j) ensures !StartsSeparator(t, i) {
      assert t[i - 1] == ' ';
    }
  }

  /** Where piece `k` of the separator split starts: at `from`, or right after
      the run of spaces that begins at separator start `k - 1`. */
  function SeparatedPieceStart(t: string, c: seq<nat>, from: nat, k: nat): nat
    requires k <= |c| && (k > 0 ==> c[k - 1] <= |t|)
  {
    if k == 0 then from else SpacesEnd(t, c[k - 1])
  }

  /** `r` holds the stretches of `t[from..]` between the space runs that start
      at the positions `c`: one piece more than starts, piece `k` from
      `SeparatedPieceStart` to `PieceEnd`. */
  ghost predicate SeparatedPieces(t: string, from: nat, r: seq<string>, c: seq<nat>) {
    && (forall k :: 0 <= k < |c| ==> c[k] < |t|)
    && |r| == |c| + 1
    && forall k :: 0 <= k < |r| ==>
         SeparatedPieceStart(t, c, from, k) <= PieceEnd(c, t, k) <= |t|
         && r[k] == t[SeparatedPieceStart(t, c, from, k)..PieceEnd(c, t, k)]
  }

  /** The pieces of `t[from..]` run from the end of one dropped space run to
      the next separator start. */
  lemma {:induction false} SplitAfterPunctFromPieces(t: string, from: nat)
    requires from <= |t|
    ensures SeparatedPieces(t, from, SplitAfterPunctFrom(t, from), SeparatorStarts(t, from))
    decreases |t| - from
  {
    var j := NextSeparator(t, from);
    NextSeparatorFirst(t, from);
    SeparatorStartsSkip(t, from, j);
    if j < |t| {
      var e := SpacesEnd(t, j);
      NoStartInRun(t, j);
      SeparatorStartsSkip(t, j + 1, e);
      SplitAfterPunctFromPieces(t, e);
      SeparatedShift(t, from, j, SplitAfterPunctFrom(t, e), SeparatorStarts(t, e));
    }
  }

  /** Putting the piece `t[from..j]` and the start `j` in front of a split of
      `t[SpacesEnd(t, j)..]` gives a split of `t[from..]`. */
  lemma SeparatedShift(t: string, from: nat, j: nat, r: seq<string>, c: seq<nat>)
    requires from <= j < |t| && t[j] == ' '
    requires SeparatedPieces(t, SpacesEnd(t, j), r, c)
    ensures SeparatedPieces(t, from, [t[from..j]] + r, [j] + c)
  {
    var r', c' := [t[from..j]] + r, [j] + c;
    forall k | 0 <= k < |r'|
      ensures SeparatedPieceStart(t, c', from, k) <= PieceEnd(c', t, k) <= |t|
      ensures r'[k] == t[SeparatedPieceStart(t, c', from, k)..PieceEnd(c', t, k)]
    {
      if k > 0 {
        SeparatedShiftAt(t, from, j, r, c, k);
      }
    }
  }

  lemma SeparatedShiftAt(t: string, from: nat, j: nat, r: seq<string>, c: seq<nat>, k: nat)
    requires from <= j < |t| && |r| == |c| + 1 && 0 < k <= |c| + 1
    requires k >= 2 ==> c[k - 2] <= |t|
    ensures var r', c' := [t[from..j]] + r, [j] + c;
      && SeparatedPieceStart(t, c', from, k) == SeparatedPieceStart(t, c, SpacesEnd(t, j), k - 1)
      && PieceEnd(c', t, k) == PieceEnd(c, t, k - 1)
      && r'[k] == r[k - 1]
  {
  }

  /** `re.split(r"(?<=[.!?]) +", t)` cuts exactly at the separators: the
      starts are all the positions holding a space right after `.`, `!` or
      `?`; there is one more piece than there are starts; piece `k` runs from
      the end of the space run at start `k - 1` (or from 0) to start `k` (or
      to the end), so each whole run of spaces is dropped and nothing else is. */
  lemma SplitAfterPunctPieces(t: string)
    ensures var r, c := SplitAfterPunct(t), SeparatorStarts(t, 0);
      && (forall k :: 0 <= k < |c| ==> c[k] < |t| && StartsSeparator(t, c[k]))
      && (forall i :: 0 <= i < |t| && StartsSeparator(t, i) ==> i in c)
      && |r| == |c| + 1
      && forall k :: 0 <= k < |r| ==>
           SeparatedPieceStart(t, c, 0, k) <= PieceEnd(c, t, k) <= |t|
           && r[k] == t[SeparatedPieceStart(t, c, 0, k)..PieceEnd(c, t, k)]
  {
    SeparatorStartsExact(t, 0);
    SplitAfterPunctFromPieces(t, 0);
  }

  /** Leading spaces carry no words. */
  lemma {:induction false} WordsAfterSpaces(x: string, k: nat)
    requires k <= |x| && forall i :: 0 <= i < k ==> IsSpace(x[i])
    ensures Words(x) == Words(x[k..])
    decreases k
  {
    if k > 0 {
      assert x[1..][k - 1..] == x[k..];
      WordsAfterSpaces(x[1..], k - 1);
    }
  }

  lemma WordsAfterSpacesFrom(t: string, a: nat, e: nat)
    requires a <= e <= |t| && forall i :: a <= i < e ==> IsSpace(t[i])
    ensures Words(t[a..]) == Words(t[e..])
  {
    WordsAfterSpaces(t[a..], e - a);
    assert t[a..][e - a..] == t[e..];
  }

  /** Splitting at separators keeps every word, in order. */
  lemma {:induction false} SplitAfterPunctFromWords(t: string, from: nat)
    requires from <= |t|
    ensures FlatWords(SplitAfterPunctFrom(t, from)) == Words(t[from..])
    decreases |t| - from
  {
    var j := NextSeparator(t, from);
    if j == |t| {
      FlatWordsSingle(t[from..]);
    } else {
      var e := SpacesEnd(t, j);
      SplitAfterPunctFromWords(t, e);
      WordsAfterSpacesFrom(t, j + 1, e);
      WordsCutAtSpace(t, from, j, SplitAfterPunctFrom(t, e));
    }
  }

  lemma SplitAfterPunctWords(t: string)
    ensures FlatWords(SplitAfterPunct(t)) == Words(t)
  {
    SplitAfterPunctFromWords(t, 0);
    assert t[0..] == t;
  }
}
