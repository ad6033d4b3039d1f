/** The text normaliser of clean.py: `clean_text` deletes every character
    outside `[\w\s.,!?]`, replaces every whitespace run with one space and
    strips both ends. */
module TextCleaner {
  import opened CharClass
  import opened StrOps

  /** Membership in the class `[\w\s.,!?]`. */
  predicate Allowed(c: char) {
    IsWord(c) || IsSpace(c) || c == '.' || c == ',' || c == '!' || c == '?'
  }

  predicate AllAllowed(s: string) {
    forall i :: 0 <= i < |s| ==> Allowed(s[i])
  }

  /** Every whitespace character is `' '` and no two of them are adjacent. */
  ghost predicate SingleSpaced(s: string) {
    && (forall i :: 0 <= i < |s| && IsSpace(s[i]) ==> s[i] == ' ')
    && (forall i, j :: 0 <= i < j < |s| && j == i + 1 ==> !(IsSpace(s[i]) && IsSpace(s[j])))
  }

  /** No whitespace at either end. */
  predicate Trimmed(s: string) {
    s == [] || (!IsSpace(s[0]) && !IsSpace(s[|s| - 1]))
  }

  /** The non-whitespace characters of `s`, in order. */
  function Visible(s: string): string {
    if s == [] then []
    else (if IsSpace(s[0]) then [] else [s[0]]) + Visible(s[1..])
  }

  /** The characters of `s` that `clean_text` keeps: allowed and not whitespace. */
  function Kept(s: string): string {
    if s == [] then []
    else (if Allowed(s[0]) && !IsSpace(s[0]) then [s[0]] else []) + Kept(s[1..])
  }

  /** `re.sub(r"[^\w\s.,!?]", "", s)`. */
  function RemoveDisallowed(s: string): (r: string)
    ensures |r| <= |s|
    ensures AllAllowed(r)
    ensures AllAllowed(s) ==> r == s
  {
    if s == [] then []
    else
      var rest := RemoveDisallowed(s[1..]);
      if Allowed(s[0]) then [s[0]] + rest else rest
  }

  /** The filter works character by character: it drops `c` from its place
      exactly when `c` is outside the class, and so keeps every whitespace
      character where it stands. */
  lemma RemoveDisallowedAt(a: string, c: char, b: string)
    ensures RemoveDisallowed(a + [c] + b)
         == RemoveDisallowed(a) + (if Allowed(c) then [c] else []) + RemoveDisallowed(b)
  {
    RemoveDisallowedConcat(a + [c], b);
    RemoveDisallowedConcat(a, [c]);
    assert [c][1..] == [];
  }

  lemma {:induction false} RemoveDisallowedConcat(a: string, b: string)
    ensures RemoveDisallowed(a + b) == RemoveDisallowed(a) + RemoveDisallowed(b)
    decreases |a|
  {
    if a == [] {
      assert a + b == b;
    } else {
      assert (a + b)[1..] == a[1..] + b;
      RemoveDisallowedConcat(a[1..], b);
    }
  }

  /** `re.sub(r"\s+", " ", s)`: the leading non-whitespace run is kept, the
      whitespace run after it becomes one `' '`, and so on to the end. */
  function Collapse(s: string): (r: string)
    ensures |r| <= |s|
    ensures r == [] <==> s == []
    ensures r != [] ==> (IsSpace(r[0]) <==> IsSpace(s[0]))
    decreases |s|
  {
    var n := WordLen(s);
    if n == |s| then s
    else s[..n] + " " + Collapse(TrimLeft(s[n..]))
  }

  /** Collapsing keeps the end of the text: the result ends with whitespace
      exactly when the input does (a trailing run becomes one `' '`). */
  lemma {:induction false} CollapseEnd(s: string)
    ensures Collapse(s) != [] ==> (IsSpace(Collapse(s)[|Collapse(s)| - 1]) <==> IsSpace(s[|s| - 1]))
    decreases |s|
  {
    var n := WordLen(s);
    if n < |s| {
      var t := TrimLeft(s[n..]);
      TrimLeftLast(s, n);
      CollapseEnd(t);
      LastOfJoin(s[..n], Collapse(t));
    }
  }

  /** `s[n..].lstrip()` ends where `s` does, or is empty when `s` ends with
      whitespace. */
  lemma TrimLeftLast(s: string, n: nat)
    requires n < |s|
    ensures var t := TrimLeft(s[n..]);
      (t != [] ==> t[|t| - 1] == s[|s| - 1]) && (t == [] ==> IsSpace(s[|s| - 1]))
  {
    var u := s[n..];
    assert u[|u| - 1] == s[|s| - 1];
  }

  lemma LastOfJoin(w: string, c: string)
    ensures var r := w + " " + c;
      r[|r| - 1] == if c == [] then ' ' else c[|c| - 1]
  {
  }

  /** After collapsing, whitespace is a lone `' '`. */
  lemma {:induction false} CollapseSingleSpaced(s: string)
    ensures SingleSpaced(Collapse(s))
    decreases |s|
  {
    var n := WordLen(s);
    if n == |s| {
      SingleSpacedNoSpace(s);
    } else {
      var t := TrimLeft(s[n..]);
      CollapseSingleSpaced(t);
      SingleSpacedJoin(s[..n], Collapse(t));
    }
  }

  /** Collapsing whitespace introduces no character outside the class. */
  lemma {:induction false} CollapseAllowed(s: string)
    requires AllAllowed(s)
    ensures AllAllowed(Collapse(s))
    decreases |s|
  {
    var n := WordLen(s);
    if n < |s| {
      var t := TrimLeft(s[n..]);
      AllowedPieces(s, n);
      CollapseAllowed(t);
      AllAllowedJoin(s[..n], Collapse(t));
    }
  }

  lemma AllowedPieces(s: string, n: nat)
    requires n <= |s| && AllAllowed(s)
    ensures AllAllowed(s[..n]) && AllAllowed(TrimLeft(s[n..]))
  {
    AllAllowedPrefix(s, n);
    AllAllowedSuffix(s, n);
    AllAllowedTrimLeft(s[n..]);
  }

  lemma AllAllowedPrefix(s: string, n: nat)
    requires n <= |s| && AllAllowed(s)
    ensures AllAllowed(s[..n])
  {
    forall i | 0 <= i < n ensures Allowed(s[..n][i]) {
      assert s[..n][i] == s[i];
    }
  }

  lemma AllAllowedSuffix(s: string, n: nat)
    requires n <= |s| && AllAllowed(s)
    ensures AllAllowed(s[n..])
  {
    forall i | 0 <= i < |s| - n ensures Allowed(s[n..][i]) {
      assert s[n..][i] == s[n + i];
    }
  }

  lemma {:induction false} AllAllowedTrimLeft(s: string)
    requires AllAllowed(s)
    ensures AllAllowed(TrimLeft(s))
    decreases |s|
  {
    if s != [] && IsSpace(s[0]) {
      AllAllowedSuffix(s, 1);
      AllAllowedTrimLeft(s[1..]);
    }
  }

  lemma SingleSpacedNoSpace(s: string)
    requires forall i :: 0 <= i < |s| ==> !IsSpace(s[i])
    ensures SingleSpaced(s)
  {
  }

  /** A space-free word, one space and a single-spaced rest that does not
      start with whitespace are single-spaced together. */
  lemma SingleSpacedJoin(w: string, c: string)
    requires forall i :: 0 <= i < |w| ==> !IsSpace(w[i])
    requires SingleSpaced(c) && (c == [] || !IsSpace(c[0]))
    ensures SingleSpaced(w + " " + c)
  {
    var r := w + " " + c;
    forall i | 0 <= i < |r| && IsSpace(r[i]) ensures r[i] == ' ' {
      if i > |w| { assert r[i] == c[i - |w| - 1]; }
    }
    forall i, j | 0 <= i < j < |r| && j == i + 1 ensures !(IsSpace(r[i]) && IsSpace(r[j])) {
      if i < |w| {
        assert r[i] == w[i];
      } else if i == |w| {
        assert r[j] == c[0];
      } else {
        assert r[i] == c[i - |w| - 1] && r[j] == c[j - |w| - 1];
      }
    }
  }

  lemma AllAllowedJoin(w: string, c: string)
    ensures AllAllowed(w) && AllAllowed(c) ==> AllAllowed(w + " " + c)
  {
    var r := w + " " + c;
    if AllAllowed(w) && AllAllowed(c) {
      forall i | 0 <= i < |r| ensures Allowed(r[i]) {
        if i < |w| { assert r[i] == w[i]; }
        else if i > |w| { assert r[i] == c[i - |w| - 1]; }
      }
    }
  }

  lemma AllAllowedSlice(c: string, k: nat, m: nat)
    requires k + m <= |c| && AllAllowed(c)
    ensures AllAllowed(c[k..k + m])
  {
    var r := c[k..k + m];
    forall i | 0 <= i < |r| ensures Allowed(r[i]) {
      assert r[i] == c[k + i];
    }
  }

  /** A slice of a single-spaced string is single-spaced. */
  lemma SingleSpacedSlice(c: string, k: nat, m: nat)
    requires k + m <= |c| && SingleSpaced(c)
    ensures SingleSpaced(c[k..k + m])
  {
    var r := c[k..k + m];
    forall i | 0 <= i < |r| && IsSpace(r[i]) ensures r[i] == ' ' {
      assert r[i] == c[k + i];
    }
    forall i, j | 0 <= i < j < |r| && j == i + 1 ensures !(IsSpace(r[i]) && IsSpace(r[j])) {
      assert r[i] == c[k + i] && r[j] == c[k + j];
    }
  }

  /** `clean_text` of clean.py. */
  function CleanText(s: string): (r: string)
    ensures |r| <= |s|
  {
    Strip(Collapse(RemoveDisallowed(s)))
  }

  /** Stripping a single-spaced string of allowed characters keeps it so. */
  lemma StripShape(c: string)
    requires SingleSpaced(c) && AllAllowed(c)
    ensures SingleSpaced(Strip(c)) && AllAllowed(Strip(c)) && Trimmed(Strip(c))
  {
    StripSingleSpaced(c);
    StripAllowed(c);
  }

  lemma StripSingleSpaced(c: string)
    requires SingleSpaced(c)
    ensures SingleSpaced(Strip(c))
  {
    var r := Strip(c);
    SingleSpacedSlice(c, Lead(c), |r|);
  }

  lemma StripAllowed(c: string)
    requires AllAllowed(c)
    ensures AllAllowed(Strip(c))
  {
    var r := Strip(c);
    AllAllowedSlice(c, Lead(c), |r|);
  }

  /** The output of `clean_text` is single-spaced, trimmed, and made of
      word characters, `.`, `,`, `!`, `?` and `' '` only. */
  lemma CleanTextShape(s: string)
    ensures SingleSpaced(CleanText(s)) && Trimmed(CleanText(s)) && AllAllowed(CleanText(s))
    ensures forall i :: 0 <= i < |CleanText(s)| ==> OutputChar(CleanText(s)[i])
  {
    var d := RemoveDisallowed(s);
    CollapseSingleSpaced(d);
    CollapseAllowed(d);
    StripShape(Collapse(d));
    CleanCharacters(CleanText(s));
  }

  /** An allowed character that is whitespace only when it is `' '` is a word
      character, one of `.,!?`, or `' '`. */
  lemma CleanCharacters(r: string)
    requires AllAllowed(r) && SingleSpaced(r)
    ensures forall i :: 0 <= i < |r| ==> OutputChar(r[i])
  {
  }

  /** A character `clean_text` can emit: a word character, `.`, `,`, `!`, `?` or `' '`. */
  predicate OutputChar(c: char) {
    IsWord(c) || c == '.' || c == ',' || c == '!' || c == '?' || c == ' '
  }

  lemma {:induction false} VisibleConcat(a: string, b: string)
    ensures Visible(a + b) == Visible(a) + Visible(b)
    decreases |a|
  {
    if a == [] {
      assert a + b == b;
    } else {
      assert (a + b)[1..] == a[1..] + b;
      VisibleConcat(a[1..], b);
    }
  }

  lemma {:induction false} VisibleTrimLeft(s: string)
    ensures Visible(TrimLeft(s)) == Visible(s)
    decreases |s|
  {
    if s != [] && IsSpace(s[0]) {
      VisibleTrimLeft(s[1..]);
    }
  }

  lemma {:induction false} VisibleTrimRight(s: string)
    ensures Visible(TrimRight(s)) == Visible(s)
    decreases |s|
  {
    if s != [] && IsSpace(s[|s| - 1]) {
      var p := s[..|s| - 1];
      assert s == p + [s[|s| - 1]];
      VisibleConcat(p, [s[|s| - 1]]);
      VisibleTrimRight(p);
    }
  }

  /** Filtering keeps, in order, exactly the characters `Kept` names. */
  lemma {:induction false} VisibleRemoveDisallowed(s: string)
    ensures Visible(RemoveDisallowed(s)) == Kept(s)
    decreases |s|
  {
    if s != [] {
      VisibleRemoveDisallowed(s[1..]);
      if Allowed(s[0]) {
        assert ([s[0]] + RemoveDisallowed(s[1..]))[1..] == RemoveDisallowed(s[1..]);
      }
    }
  }

  /** Collapsing whitespace leaves the non-whitespace characters alone. */
  lemma {:induction false} VisibleCollapse(s: string)
    ensures Visible(Collapse(s)) == Visible(s)
    decreases |s|
  {
    var n := WordLen(s);
    if n < |s| {
      var t := TrimLeft(s[n..]);
      TrimLeftAtSpace(s, n);
      VisibleCollapse(t);
      CutAt(s, n);
      VisibleRunToSpace(s[..n], s[n], s[n + 1..], Collapse(t));
    }
  }

  lemma VisibleRunToSpace(w: string, c: char, u: string, v: string)
    requires IsSpace(c) && Visible(v) == Visible(TrimLeft(u))
    ensures Visible(w + " " + v) == Visible(w + [c] + u)
  {
    VisibleAroundSpace(w, ' ', v);
    VisibleAroundSpace(w, c, u);
    VisibleTrimLeft(u);
  }

  lemma VisibleAroundSpace(w: string, c: char, v: string)
    requires IsSpace(c)
    ensures Visible(w + [c] + v) == Visible(w) + Visible(v)
  {
    VisibleConcat(w + [c], v);
    VisibleConcat(w, [c]);
    VisibleOfSpace(c);
  }

  lemma VisibleOfSpace(c: char)
    requires IsSpace(c)
    ensures Visible([c]) == []
  {
    assert [c][1..] == [];
  }

  /** Collapsing whitespace keeps every word. */
  lemma {:induction false} WordsCollapse(s: string)
    ensures Words(Collapse(s)) == Words(s)
    decreases |s|
  {
    var n := WordLen(s);
    if n < |s| {
      var t := TrimLeft(s[n..]);
      TrimLeftAtSpace(s, n);
      WordsCollapse(t);
      CutAt(s, n);
      WordsRunToSpace(s[..n], s[n], s[n + 1..], Collapse(t));
    }
  }

  /** Replacing a whitespace character and the whitespace after it by one
      space, and the rest by a string with the same words, keeps the words. */
  lemma WordsRunToSpace(w: string, c: char, u: string, v: string)
    requires IsSpace(c) && Words(v) == Words(TrimLeft(u))
    ensures Words(w + " " + v) == Words(w + [c] + u)
  {
    WordsJoin(w, v);
    WordsTrimLeft(u);
    WordsSplitAtSpace(w, c, u);
  }

  lemma TrimLeftAtSpace(s: string, n: nat)
    requires n < |s| && IsSpace(s[n])
    ensures TrimLeft(s[n..]) == TrimLeft(s[n + 1..])
  {
    DropOne(s, n);
  }

  lemma DropOne(s: string, n: nat)
    requires n < |s|
    ensures s[n..][1..] == s[n + 1..]
  {
  }

  /** The non-space characters of `clean_text(s)` are exactly the input's
      non-whitespace characters inside `[\w\s.,!?]`, in their original order. */
  lemma CleanTextVisible(s: string)
    ensures Visible(CleanText(s)) == Kept(s)
  {
    var c := Collapse(RemoveDisallowed(s));
    VisibleTrimLeft(c);
    VisibleTrimRight(TrimLeft(c));
    VisibleCollapse(RemoveDisallowed(s));
    VisibleRemoveDisallowed(s);
  }

  /** `clean_text(s).split() == re.sub(r"[^\w\s.,!?]", "", s).split()`. */
  lemma CleanTextWords(s: string)
    ensures Words(CleanText(s)) == Words(RemoveDisallowed(s))
  {
    WordsStrip(Collapse(RemoveDisallowed(s)));
    WordsCollapse(RemoveDisallowed(s));
  }

  /** A single-spaced, trimmed string is the join of its own words. */
  lemma {:induction false} NormalIsJoinedWords(r: string)
    requires SingleSpaced(r) && Trimmed(r)
    ensures r == JoinSpaces(Words(r))
    decreases |r|
  {
    if r != [] {
      var n := WordLen(r);
      if n == |r| {
        WordsOfWord(r);
      } else {
        var w, rest := r[..n], r[n + 1..];
        CutAt(r, n);
        NormalTail(r, n);
        NormalIsJoinedWords(rest);
        WordsOfWord(w);
        WordsSplitAtSpace(w, ' ', rest);
        JoinCons(w, Words(rest));
      }
    }
  }

  /** After the first word of a single-spaced, trimmed string that has more
      than one word come one `' '` and another single-spaced, trimmed string
      that starts with a non-whitespace character. */
  lemma NormalTail(r: string, n: nat)
    requires SingleSpaced(r) && Trimmed(r) && r != []
    requires n == WordLen(r) && n < |r|
    ensures r[n] == ' ' && n + 1 < |r|
    ensures SingleSpaced(r[n + 1..]) && Trimmed(r[n + 1..]) && !IsSpace(r[n + 1])
  {
    assert IsSpace(r[n]);
    assert n != |r| - 1;
    SingleSpacedAt(r, n);
    SingleSpacedSuffix(r, n + 1);
    TrimmedSuffix(r, n + 1);
  }

  lemma SingleSpacedSuffix(r: string, k: nat)
    requires k <= |r| && SingleSpaced(r)
    ensures SingleSpaced(r[k..])
  {
    SingleSpacedSlice(r, k, |r| - k);
    assert r[k..k + (|r| - k)] == r[k..];
  }

  lemma TrimmedSuffix(r: string, k: nat)
    requires k < |r| && Trimmed(r) && !IsSpace(r[k])
    ensures Trimmed(r[k..])
  {
    var q := r[k..];
    assert q[0] == r[k] && q[|q| - 1] == r[|r| - 1];
  }

  /** In a single-spaced string a whitespace character is `' '` and is
      followed by a non-whitespace one. */
  lemma SingleSpacedAt(r: string, n: nat)
    requires SingleSpaced(r) && n + 1 < |r| && IsSpace(r[n])
    ensures r[n] == ' ' && !IsSpace(r[n + 1])
  {
    var j := n + 1;
    assert !(IsSpace(r[n]) && IsSpace(r[j]));
  }

  /** `clean_text(s)` is `" ".join(t.split())` where `t` is `s` without the
      characters outside `[\w\s.,!?]`. */
  lemma CleanTextIsJoinedWords(s: string)
    ensures CleanText(s) == JoinSpaces(Words(RemoveDisallowed(s)))
  {
    CleanTextShape(s);
    NormalIsJoinedWords(CleanText(s));
    CleanTextWords(s);
  }

  /** A single-spaced, trimmed string of allowed characters is left as it is. */
  lemma CleanTextFixpoint(s: string)
    requires SingleSpaced(s) && Trimmed(s) && AllAllowed(s)
    ensures CleanText(s) == s
  {
    CleanTextIsJoinedWords(s);
    NormalIsJoinedWords(s);
  }

  /** `clean_text(clean_text(s)) == clean_text(s)`. */
  lemma CleanTextIdempotent(s: string)
    ensures CleanText(CleanText(s)) == CleanText(s)
  {
    CleanTextShape(s);
    CleanTextFixpoint(CleanText(s));
  }
}
