/** `clean` of main.py: `clean_text` preceded by the removal of every literal
    backslash-`n` pair (the two characters `\` and `n`, as they appear when a
    newline was written escaped). */
module Normalize {
  import opened CharClass
  import opened StrOps
  import opened TextCleaner

  /** `s.replace("\\n", "")`: scans left to right and drops every
      non-overlapping `\` `n` pair; the text around a dropped pair is not
      rescanned. */
  function RemoveEscapedNewlines(s: string): (r: string)
    ensures |r| <= |s|
  {
    if |s| >= 2 && s[0] == '\\' && s[1] == 'n' then RemoveEscapedNewlines(s[2..])
    else if s == [] then []
    else [s[0]] + RemoveEscapedNewlines(s[1..])
  }

  /** A `\` `n` pair is dropped wherever it stands, and the scan on either
      side of it is unaffected: no pair straddles its edges. */
  lemma {:induction false} RemoveEscapedNewlinesAtPair(a: string, b: string)
    ensures RemoveEscapedNewlines(a + "\\n" + b) == RemoveEscapedNewlines(a) + RemoveEscapedNewlines(b)
    decreases |a|
  {
    var s := a + "\\n" + b;
    if a == [] {
      assert s[2..] == b;
    } else if |a| >= 2 && a[0] == '\\' && a[1] == 'n' {
      assert s[2..] == a[2..] + "\\n" + b;
      RemoveEscapedNewlinesAtPair(a[2..], b);
    } else {
      assert s[0] == a[0] && s[1] == (if |a| >= 2 then a[1] else '\\');
      assert s[1..] == a[1..] + "\\n" + b;
      RemoveEscapedNewlinesAtPair(a[1..], b);
    }
  }

  /** Whether `s` holds a backslash directly followed by `n`. */
  ghost predicate HasEscapedNewline(s: string) {
    exists i, j :: 0 <= i < j < |s| && j == i + 1 && s[i] == '\\' && s[j] == 'n'
  }

  /** The number of occurrences of `c` in `s`. */
  function Occurrences(s: string, c: char): nat {
    if s == [] then 0 else (if s[0] == c then 1 else 0) + Occurrences(s[1..], c)
  }

  /** `s` without its backslashes and its `n`s. */
  function Others(s: string): string {
    if s == [] then []
    else if s[0] == '\\' || s[0] == 'n' then Others(s[1..])
    else [s[0]] + Others(s[1..])
  }

  /** A text without an escaped newline is left as it is. */
  lemma {:induction false} RemoveEscapedNewlinesIdentity(s: string)
    requires !HasEscapedNewline(s)
    ensures RemoveEscapedNewlines(s) == s
    decreases |s|
  {
    if s != [] {
      if |s| >= 2 {
        var j := 1;
        assert !(s[0] == '\\' && s[j] == 'n');
      }
      assert !HasEscapedNewline(s[1..]) by {
        forall i, j | 0 <= i < j < |s[1..]| && j == i + 1
          ensures !(s[1..][i] == '\\' && s[1..][j] == 'n')
        {
          assert s[1..][i] == s[i + 1] && s[1..][j] == s[j + 1];
        }
      }
      RemoveEscapedNewlinesIdentity(s[1..]);
    }
  }

  /** As many backslashes as `n`s disappear, and the text loses two
      characters per backslash removed. That each removed pair was adjacent is
      `RemoveEscapedNewlinesAtPair`. */
  lemma {:induction false} RemoveEscapedNewlinesCounts(s: string)
    ensures var r := RemoveEscapedNewlines(s);
      && |s| - |r| == 2 * (Occurrences(s, '\\') - Occurrences(r, '\\'))
      && |s| - |r| == 2 * (Occurrences(s, 'n') - Occurrences(r, 'n'))
    decreases |s|
  {
    if |s| >= 2 && s[0] == '\\' && s[1] == 'n' {
      RemoveEscapedNewlinesCounts(s[2..]);
      CountsOfPair(s);
    } else if s != [] {
      RemoveEscapedNewlinesCounts(s[1..]);
      CountsOfCons(s[0], RemoveEscapedNewlines(s[1..]));
    }
  }

  /** Every character other than a backslash or an `n` stays, in order. */
  lemma {:induction false} RemoveEscapedNewlinesKeepsOthers(s: string)
    ensures Others(RemoveEscapedNewlines(s)) == Others(s)
    decreases |s|
  {
    if |s| >= 2 && s[0] == '\\' && s[1] == 'n' {
      RemoveEscapedNewlinesKeepsOthers(s[2..]);
      CountsOfPair(s);
    } else if s != [] {
      RemoveEscapedNewlinesKeepsOthers(s[1..]);
      CountsOfCons(s[0], RemoveEscapedNewlines(s[1..]));
    }
  }

  lemma CountsOfPair(s: string)
    requires |s| >= 2 && s[0] == '\\' && s[1] == 'n'
    ensures Occurrences(s, '\\') == Occurrences(s[2..], '\\') + 1
    ensures Occurrences(s, 'n') == Occurrences(s[2..], 'n') + 1
    ensures Others(s) == Others(s[2..])
  {
    assert s[1..][1..] == s[2..];
  }

  lemma CountsOfCons(c: char, r: string)
    ensures Occurrences([c] + r, '\\') == (if c == '\\' then 1 else 0) + Occurrences(r, '\\')
    ensures Occurrences([c] + r, 'n') == (if c == 'n' then 1 else 0) + Occurrences(r, 'n')
    ensures Others([c] + r) == (if c == '\\' || c == 'n' then [] else [c]) + Others(r)
  {
    assert ([c] + r)[1..] == r;
  }

  /** `clean` of main.py. */
  function Clean(s: string): (r: string)
    ensures |r| <= |s|
  {
    CleanText(RemoveEscapedNewlines(s))
  }

  /** A string of output characters holds no backslash, hence no escaped
      newline. */
  lemma NoBackslash(r: string)
    requires forall i :: 0 <= i < |r| ==> OutputChar(r[i])
    ensures forall i :: 0 <= i < |r| ==> r[i] != '\\'
    ensures !HasEscapedNewline(r)
  {
    assert !OutputChar('\\');
  }

  /** The output of `clean` is made of word characters, `.`, `,`, `!`, `?`
      and `' '`, has no backslash, no whitespace at either end and no two
      whitespace characters in a row. */
  lemma CleanShape(s: string)
    ensures var r := Clean(s);
      && SingleSpaced(r) && Trimmed(r)
      && (forall i :: 0 <= i < |r| ==> OutputChar(r[i]))
      && (forall i :: 0 <= i < |r| ==> r[i] != '\\')
  {
    CleanTextShape(RemoveEscapedNewlines(s));
    NoBackslash(Clean(s));
  }

  /** `clean(clean(s)) == clean(s)`. */
  lemma CleanIdempotent(s: string)
    ensures Clean(Clean(s)) == Clean(s)
  {
    var r := Clean(s);
    CleanTextShape(RemoveEscapedNewlines(s));
    NoBackslash(r);
    RemoveEscapedNewlinesIdentity(r);
    CleanTextIdempotent(RemoveEscapedNewlines(s));
  }

  /** On a text without escaped newlines `clean` is `clean_text` of clean.py. */
  lemma CleanAgreesWithCleanText(s: string)
    requires !HasEscapedNewline(s)
    ensures Clean(s) == CleanText(s)
  {
    RemoveEscapedNewlinesIdentity(s);
  }

  /** The words of `clean(s)` are the words left once the escaped newlines
      and the characters outside `[\w\s.,!?]` are gone. */
  lemma CleanWords(s: string)
    ensures Words(Clean(s)) == Words(RemoveDisallowed(RemoveEscapedNewlines(s)))
  {
    CleanTextWords(RemoveEscapedNewlines(s));
  }
}
