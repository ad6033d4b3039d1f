/** The Python `str` operations the text front end relies on: `strip()`,
    `split()` with no separator, and `" ".join(...)`. */
module StrOps {
  import opened CharClass

  /** Length of the leading run of non-whitespace characters of `s`. */
  function WordLen(s: string): (n: nat)
    ensures n <= |s|
    ensures forall i :: 0 <= i < n ==> !IsSpace(s[i])
    ensures n < |s| ==> IsSpace(s[n])
  {
    if s == [] || IsSpace(s[0]) then 0 else 1 + WordLen(s[1..])
  }

  /** `s.lstrip()`: drops the leading whitespace. */
  function TrimLeft(s: string): (r: string)
    ensures |r| <= |s| && r == s[|s| - |r|..]
    ensures forall i :: 0 <= i < |s| - |r| ==> IsSpace(s[i])
    ensures r == [] || !IsSpace(r[0])
    ensures s != [] && IsSpace(s[0]) ==> |r| < |s|
  {
    if s != [] && IsSpace(s[0]) then TrimLeft(s[1..]) else s
  }

  /** `s.rstrip()`: drops the trailing whitespace. */
  function TrimRight(s: string): (r: string)
    ensures |r| <= |s| && r == s[..|r|]
    ensures forall i :: |r| <= i < |s| ==> IsSpace(s[i])
    ensures r == [] || !IsSpace(r[|r| - 1])
  {
    if s != [] && IsSpace(s[|s| - 1]) then TrimRight(s[..|s| - 1]) else s
  }

  /** `s.strip()`: the slice of `s` left after dropping whitespace at both
      ends; everything dropped is whitespace. */
  function Strip(s: string): (r: string)
    ensures Lead(s) + |r| <= |s| && r == s[Lead(s)..Lead(s) + |r|]
    ensures r == [] || (!IsSpace(r[0]) && !IsSpace(r[|r| - 1]))
    ensures forall i :: 0 <= i < Lead(s) ==> IsSpace(s[i])
    ensures forall i :: Lead(s) + |r| <= i < |s| ==> IsSpace(s[i])
  {
    var l := TrimLeft(s);
    var r := TrimRight(l);
    SliceOfSuffix(s, |s| - |l|, |r|);
    SpaceTailOfSuffix(s, |s| - |l|, |r|);
    r
  }

  /** Whitespace at the end of the suffix `s[k..]` is whitespace of `s`. */
  lemma SpaceTailOfSuffix(s: string, k: nat, m: nat)
    requires k + m <= |s|
    requires forall i :: m <= i < |s| - k ==> IsSpace(s[k..][i])
    ensures forall i :: k + m <= i < |s| ==> IsSpace(s[i])
  {
    forall i | k + m <= i < |s| ensures IsSpace(s[i]) {
      assert s[i] == s[k..][i - k];
    }
  }

  lemma SliceOfSuffix(s: string, k: nat, m: nat)
    requires k + m <= |s|
    ensures s[k..][..m] == s[k..k + m]
  {
  }

  /** The number of whitespace characters `s.strip()` drops at the front. */
  function Lead(s: string): (k: nat)
    ensures k <= |s|
  {
    |s| - |TrimLeft(s)|
  }

  /** A word of `split()`: a non-empty run without whitespace. */
  predicate IsToken(w: string) {
    w != [] && forall i :: 0 <= i < |w| ==> !IsSpace(w[i])
  }

  /** `s.split()`: the maximal runs of non-whitespace characters, in order. */
  function Words(s: string): (r: seq<string>)
    ensures forall k :: 0 <= k < |r| ==> IsToken(r[k])
    decreases |s|
  {
    if s == [] then []
    else if IsSpace(s[0]) then Words(s[1..])
    else
      var n := WordLen(s);
      [s[..n]] + Words(s[n..])
  }

  /** The total length of the strings of `xs`. */
  function TotalLength(xs: seq<string>): nat {
    if xs == [] then 0 else |xs[0]| + TotalLength(xs[1..])
  }

  /** `" ".join(xs)`: one separator between each two neighbours, none at the
      ends. */
  function JoinSpaces(xs: seq<string>): (r: string)
    ensures xs != [] ==> |r| == TotalLength(xs) + |xs| - 1
  {
    if |xs| == 0 then ""
    else if |xs| == 1 then xs[0]
    else xs[0] + " " + JoinSpaces(xs[1..])
  }

  /** The words of every string of `xs`, concatenated in order. */
  function FlatWords(xs: seq<string>): seq<string> {
    if xs == [] then [] else Words(xs[0]) + FlatWords(xs[1..])
  }

  /** `x.strip()` for every element of `xs`. */
  function StripEach(xs: seq<string>): (r: seq<string>)
    ensures |r| == |xs|
    ensures forall k :: 0 <= k < |xs| ==> r[k] == Strip(xs[k])
  {
    if xs == [] then [] else [Strip(xs[0])] + StripEach(xs[1..])
  }

  /** `s` is its prefix before `n`, the character at `n` and the rest. */
  lemma CutAt(s: string, n: nat)
    requires n < |s|
    ensures s == s[..n] + [s[n]] + s[n + 1..]
  {
  }

  /** A non-empty string without whitespace is its own only word. */
  lemma WordsOfWord(w: string)
    requires w != [] && forall i :: 0 <= i < |w| ==> !IsSpace(w[i])
    ensures Words(w) == [w]
  {
    assert WordLen(w) == |w| by {
      WordLenFull(w);
    }
    assert w[..|w|] == w && w[|w|..] == [];
  }

  lemma {:induction false} WordLenFull(w: string)
    requires forall i :: 0 <= i < |w| ==> !IsSpace(w[i])
    ensures WordLen(w) == |w|
    decreases |w|
  {
    if w != [] {
      WordLenFull(w[1..]);
    }
  }

  lemma JoinCons(w: string, ws: seq<string>)
    requires ws != []
    ensures JoinSpaces([w] + ws) == w + " " + JoinSpaces(ws)
  {
    assert ([w] + ws)[1..] == ws;
  }

  /** `t[from..]` is its part before `j`, the character at `j` and the rest. */
  lemma CutSlice(t: string, from: nat, j: nat)
    requires from <= j < |t|
    ensures t[from..] == t[from..j] + [t[j]] + t[j + 1..]
  {
  }

  lemma FlatWordsCons(a: string, r: seq<string>)
    ensures FlatWords([a] + r) == Words(a) + FlatWords(r)
  {
    assert ([a] + r)[1..] == r;
  }

  lemma AppendAssoc<T>(a: seq<T>, b: seq<T>, c: seq<T>)
    ensures a + b + c == a + (b + c)
  {
  }

  lemma FlatWordsUncons(xs: seq<string>)
    requires xs != []
    ensures FlatWords(xs) == Words(xs[0]) + FlatWords(xs[1..])
  {
  }

  lemma FlatWordsSingle(a: string)
    ensures FlatWords([a]) == Words(a)
  {
    assert [a][1..] == [];
  }

  /** Cutting `t[from..]` at the whitespace character `t[j]` into its part
      before `j` and pieces holding the words after `j` keeps every word. */
  lemma WordsCutAtSpace(t: string, from: nat, j: nat, rest: seq<string>)
    requires from <= j < |t| && IsSpace(t[j])
    requires FlatWords(rest) == Words(t[j + 1..])
    ensures FlatWords([t[from..j]] + rest) == Words(t[from..])
  {
    FlatWordsCons(t[from..j], rest);
    CutSlice(t, from, j);
    WordsSplitAtSpace(t[from..j], t[j], t[j + 1..]);
  }

  lemma {:induction false} WordLenConcat(x: string, y: string)
    ensures WordLen(x + y) == if WordLen(x) == |x| then |x| + WordLen(y) else WordLen(x)
    decreases |x|
  {
    if x == [] {
      assert x + y == y;
    } else if !IsSpace(x[0]) {
      assert (x + y)[1..] == x[1..] + y;
      WordLenConcat(x[1..], y);
    }
  }

  /** Cutting at one whitespace character splits the words and loses none. */
  lemma {:induction false} WordsSplitAtSpace(a: string, c: char, b: string)
    requires IsSpace(c)
    ensures Words(a + [c] + b) == Words(a) + Words(b)
    decreases |a|
  {
    if a == [] {
      WordsSpaceFirst(c, b);
    } else if IsSpace(a[0]) {
      WordsSpaceHead(a, c, b);
      WordsSplitAtSpace(a[1..], c, b);
    } else if WordLen(a) < |a| {
      var n := WordLen(a);
      WordsWordHead(a, c, b);
      WordsSplitAtSpace(a[n..], c, b);
      AppendAssoc([a[..n]], Words(a[n..]), Words(b));
    } else {
      WordsWholeWord(a, c, b);
    }
  }

  lemma WordsSpaceFirst(c: char, b: string)
    requires IsSpace(c)
    ensures Words([] + [c] + b) == Words([]) + Words(b)
  {
    assert [] + [c] + b == [c] + b;
    assert ([c] + b)[1..] == b;
  }

  lemma WordsSpaceHead(a: string, c: char, b: string)
    requires a != [] && IsSpace(a[0])
    ensures Words(a + [c] + b) == Words(a[1..] + [c] + b)
    ensures Words(a) == Words(a[1..])
  {
    assert (a + [c] + b)[1..] == a[1..] + [c] + b;
  }

  lemma WordsWordHead(a: string, c: char, b: string)
    requires IsSpace(c) && a != [] && !IsSpace(a[0]) && WordLen(a) < |a|
    ensures var n := WordLen(a);
      && Words(a + [c] + b) == [a[..n]] + Words(a[n..] + [c] + b)
      && Words(a) == [a[..n]] + Words(a[n..])
  {
    var s, n := a + [c] + b, WordLen(a);
    WordLenConcat(a, [c] + b);
    assert s == a + ([c] + b);
    assert s[..n] == a[..n];
    assert s[n..] == a[n..] + [c] + b;
  }

  lemma WordsWholeWord(a: string, c: char, b: string)
    requires IsSpace(c) && a != [] && !IsSpace(a[0]) && WordLen(a) == |a|
    ensures Words(a + [c] + b) == Words(a) + Words(b)
  {
    AppendAssoc(a, [c], b);
    WordsAfterWord(a, [c] + b);
    WordsOfWholeWord(a);
    WordsSpaceCons(c, b);
  }

  lemma WordsOfWholeWord(a: string)
    requires a != [] && !IsSpace(a[0]) && WordLen(a) == |a|
    ensures Words(a) == [a]
  {
    assert a[..|a|] == a && a[|a|..] == [];
  }

  /** A word followed by a string that starts with whitespace is the first word. */
  lemma WordsAfterWord(a: string, rest: string)
    requires a != [] && !IsSpace(a[0]) && WordLen(a) == |a|
    requires rest != [] && IsSpace(rest[0])
    ensures Words(a + rest) == [a] + Words(rest)
  {
    var s := a + rest;
    WordLenConcat(a, rest);
    assert s[0] == a[0];
    assert s[..|a|] == a;
    assert s[|a|..] == rest;
  }

  lemma WordsSpaceCons(c: char, b: string)
    requires IsSpace(c)
    ensures Words([c] + b) == Words(b)
  {
    assert ([c] + b)[1..] == b;
  }

  /** Words do not change when a string is cut into two at a whitespace run. */
  lemma WordsJoin(a: string, b: string)
    ensures Words(a + " " + b) == Words(a) + Words(b)
  {
    WordsSplitAtSpace(a, ' ', b);
  }

  /** Leading whitespace carries no words. */
  lemma {:induction false} WordsTrimLeft(s: string)
    ensures Words(TrimLeft(s)) == Words(s)
    decreases |s|
  {
    if s != [] && IsSpace(s[0]) {
      WordsTrimLeft(s[1..]);
    }
  }

  /** Trailing whitespace carries no words. */
  lemma {:induction false} WordsTrimRight(s: string)
    ensures Words(TrimRight(s)) == Words(s)
    decreases |s|
  {
    if s != [] && IsSpace(s[|s| - 1]) {
      var p := s[..|s| - 1];
      assert s == p + [s[|s| - 1]] + [];
      WordsSplitAtSpace(p, s[|s| - 1], []);
      WordsTrimRight(p);
    }
  }

  /** `s.strip().split() == s.split()`. */
  lemma WordsStrip(s: string)
    ensures Words(Strip(s)) == Words(s)
  {
    WordsTrimLeft(s);
    WordsTrimRight(TrimLeft(s));
  }

  lemma {:induction false} FlatWordsAppend(a: seq<string>, b: seq<string>)
    ensures FlatWords(a + b) == FlatWords(a) + FlatWords(b)
    decreases |a|
  {
    if a != [] {
      assert (a + b)[1..] == a[1..] + b;
      FlatWordsAppend(a[1..], b);
    } else {
      assert a + b == b;
    }
  }

  /** `" ".join(xs).split()` is the concatenation of every `x.split()`. */
  lemma {:induction false} WordsOfJoin(xs: seq<string>)
    ensures Words(JoinSpaces(xs)) == FlatWords(xs)
    decreases |xs|
  {
    if |xs| == 1 {
      assert FlatWords(xs) == Words(xs[0]) + FlatWords([]);
    } else if |xs| > 1 {
      WordsJoin(xs[0], JoinSpaces(xs[1..]));
      WordsOfJoin(xs[1..]);
    }
  }

  /** Stripping every string keeps every word. */
  lemma {:induction false} FlatWordsStripEach(xs: seq<string>)
    ensures FlatWords(StripEach(xs)) == FlatWords(xs)
    decreases |xs|
  {
    if xs != [] {
      WordsStrip(xs[0]);
      assert StripEach(xs)[1..] == StripEach(xs[1..]);
      FlatWordsStripEach(xs[1..]);
    }
  }
}
