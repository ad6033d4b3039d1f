# t2s text front end in Dafny

The t2s tool reads a text, cleans it, cuts it into sentence chunks and turns
each chunk into speech. This project models the text half of that pipeline
and proves properties of it:

- `clean` (main.py) and `clean_text` (clean.py) are modelled as pure
  functions over `string`:
  - the removal of literal backslash-`n` pairs (`str.replace`);
  - the deletion of every character outside `[\w\s.,!?]`;
  - the collapse of every whitespace run into one space;
  - `strip()`.
- `split` (main.py) is modelled as an imperative method:
  - it cuts the stripped text at the lookbehind boundary
    `(?<!\w\.\w.)(?<=\.|\?|\!)\s`;
  - it runs the merge-and-flush loop over the stripped pieces with a
    pending buffer `temp`;
  - it flushes the buffer at the end.

  The method is proved against a specification function (`SplitSpec`, built
  on the fold `Batches`).
- `process_text` (main.py) is modelled as an imperative method. It splits at
  `(?<=[.!?]) +` and joins the pieces `SENTENCES_PER_CHUNK` at a time.

Modules, one per concern:

- `CharClass` (chars.dfy): Python's `\s`, `\w` and the sentence-ending marks.
- `StrOps` (strops.dfy): `strip()`, `split()` with no argument, and
  `" ".join`, with the lemmas that relate them.
- `TextCleaner` (clean_text.dfy): `clean_text`.
- `Normalize` (normalize.dfy): `clean`.
- `Sentences` (sentences.dfy): the two `re.split` patterns.
- `Chunker` (chunker.dfy): `split`, `SENTENCES_PER_CHUNK` and `process_text`.

The main results:

- `clean_text` output:
  - is single-spaced, trimmed, and made only of word characters,
    `.`, `,`, `!`, `?` and `' '`;
  - keeps exactly the allowed non-whitespace characters, in order;
  - equals `" ".join` of the words of the filtered input;
  - is idempotent.
- `clean`:
  - is idempotent;
  - agrees with `clean_text` on inputs without an escaped newline.
- `split`:
  - returns at least one chunk;
  - keeps every word of the text, in order;
  - with the default `chunk_size` of 1, returns exactly the stripped pieces
    of the boundary split, so no short sentence is ever merged;
  - cuts the text at every boundary position and nowhere else;
  - lets the abbreviation guard keep "U.S." inside a sentence.
- `process_text`:
  - cuts at every run of spaces after `.`, `!` or `?` and nowhere else;
  - produces one chunk per stride;
  - keeps every word.

Two consequences of the code that are easy to miss:

- `split` of a blank text returns `[""]` (one empty chunk), not an empty
  list. `re.split` of `""` yields `[""]`. With the default `chunk_size = 1`
  the flush inside the loop (main.py:56-59) emits it; with `chunk_size >= 2`
  the final flush (main.py:62-63) does. `Chunker.SplitSpecBlank` proves this.
- The min-word merge rule (`temp and len(words) < min_sent`) can only fire
  when `temp` is non-empty at the top of the loop. With `chunk_size <= 1`,
  `temp` is flushed after every sentence, so the merge never fires. That
  covers the default `SENTENCES_PER_CHUNK = 1`. `Chunker.BatchesDefault`
  proves this.

## Model

| member | source | states |
|---|---|---|
| StrOps.Strip | main.py:40 | `s.strip()` is the slice of `s` left after its leading and trailing whitespace; it does not start or end with whitespace, and every character dropped at either end is whitespace |
| StrOps.Words | main.py:46-49 | every word of `s.split()` is non-empty and holds no whitespace |
| StrOps.JoinSpaces | main.py:51-63 | `" ".join(xs)` of a non-empty list is as long as its elements together plus one separator between each two neighbours |
| StrOps.WordsStrip | main.py:46-49 | stripping a string does not change its `split()` words |
| StrOps.WordsJoin | main.py:51 | the words of `f"{a} {b}"` are the words of `a` followed by those of `b` |
| StrOps.WordsOfJoin | main.py:57 | the words of `" ".join(xs)` are the words of every element of `xs`, concatenated in order |
| StrOps.WordsSplitAtSpace | main.py:40 | cutting a string at one whitespace character (which is then dropped) splits its words in two and loses none |
| StrOps.FlatWordsStripEach | main.py:46 | stripping every piece keeps every word, in order |
| TextCleaner.RemoveDisallowed | clean.py:4 | the result is no longer than the input and holds only characters of `[\w\s.,!?]`; an input already in the class stays unchanged |
| TextCleaner.RemoveDisallowedAt | clean.py:4 | the filter decides character by character, in place: a character of `[\w\s.,!?]` (whitespace included) stays where it stands, any other is dropped, and the text on either side is filtered on its own |
| TextCleaner.Collapse | clean.py:5 | the rewrite never lengthens the text, keeps it empty exactly when it was empty, and starts with whitespace exactly when the input does |
| TextCleaner.CollapseEnd | clean.py:5 | the rewrite ends with whitespace exactly when the input does: a trailing whitespace run becomes one `' '` and is not dropped |
| TextCleaner.CollapseSingleSpaced | clean.py:5 | after `re.sub(r'\s+', ' ', ...)` every whitespace character is `' '` and no two whitespace characters are adjacent |
| TextCleaner.CollapseAllowed | clean.py:4-5 | collapsing whitespace adds no character from outside `[\w\s.,!?]` |
| TextCleaner.VisibleCollapse | clean.py:5 | collapsing whitespace leaves the non-whitespace characters, in order |
| TextCleaner.WordsCollapse | clean.py:5 | collapsing whitespace keeps every word |
| TextCleaner.VisibleRemoveDisallowed | clean.py:4 | the non-whitespace characters left by the filter are the input's allowed non-whitespace characters, in order |
| TextCleaner.CleanTextShape | clean.py:3-6 | the output of `clean_text` is single-spaced and has no whitespace at either end; all its characters are word characters, `.`, `,`, `!`, `?` or `' '` |
| TextCleaner.CleanText | clean.py:3-6 | `clean_text(s)` is never longer than `s` |
| TextCleaner.CleanTextVisible | clean.py:3-6 | the non-space characters of the output are exactly the input's allowed non-whitespace characters, in their original order |
| TextCleaner.CleanTextWords | clean.py:3-6 | the words of the output are the words of the filtered input |
| TextCleaner.CleanTextIsJoinedWords | clean.py:3-6 | `clean_text(s) == " ".join(re.sub(r'[^\w\s.,!?]', '', s).split())` |
| TextCleaner.NormalIsJoinedWords | clean.py:5 | a single-spaced, trimmed string is the join of its own words |
| TextCleaner.CleanTextFixpoint | clean.py:3-6 | an input that is already single-spaced, trimmed and inside the class is returned unchanged |
| TextCleaner.CleanTextIdempotent | clean.py:3-6 | `clean_text(clean_text(s)) == clean_text(s)` |
| Normalize.RemoveEscapedNewlines | main.py:28 | removing the `\` `n` pairs never lengthens the text |
| Normalize.RemoveEscapedNewlinesAtPair | main.py:28 | a `\` `n` pair is removed wherever it stands, and the text before and after it is rewritten on its own: `(a + "\\n" + b).replace("\\n", "")` is `a.replace(...) + b.replace(...)` |
| Normalize.RemoveEscapedNewlinesIdentity | main.py:28 | a text with no backslash directly followed by `n` is unchanged |
| Normalize.RemoveEscapedNewlinesCounts | main.py:28 | as many backslashes as `n`s disappear, and the text loses two characters for each backslash removed |
| Normalize.RemoveEscapedNewlinesKeepsOthers | main.py:28 | every character other than `\` and `n` stays, in order |
| Normalize.Clean | main.py:27-31 | `clean(s)` is never longer than `s` |
| Normalize.CleanShape | main.py:27-31 | the output of `clean` is single-spaced and trimmed; it has only word characters, `.`, `,`, `!`, `?` and `' '`, and no backslash |
| Normalize.CleanIdempotent | main.py:27-31 | `clean(clean(s)) == clean(s)` |
| Normalize.CleanAgreesWithCleanText | main.py:27-31 | on a text without an escaped newline, `clean` is `clean_text` of clean.py |
| Normalize.CleanWords | main.py:27-31 | the words of `clean(s)` are those of `s` once the escaped newlines are removed and the disallowed characters are deleted |
| Sentences.NextBoundary | main.py:39 | the result is a boundary of the pattern or the end of the text |
| Sentences.IsBoundary | main.py:39 | a boundary is a single whitespace character right after a non-whitespace one (the mark), so no two boundaries are adjacent |
| Sentences.AbbreviationGuard | main.py:39 | a whitespace character right after `.`, `?` or `!` is a boundary exactly when the three characters before the mark are not word character, `.`, word character; the guard's trailing "any character" always matches the mark |
| Sentences.NextBoundaryFirst | main.py:39 | no boundary lies before the one `NextBoundary` finds |
| Sentences.NextBoundaryIs | main.py:39 | the first boundary at or after a position, or the end of a text without one, is what `NextBoundary` returns |
| Sentences.SplitSentences | main.py:39-40 | `re.split` of the pattern yields at least one piece, also for an empty text |
| Sentences.SplitSentencesPieces | main.py:39-40 | the split cuts at every boundary position and nowhere else; there is one piece more than there are boundaries, and piece k is the text strictly between boundary k-1 and boundary k, so each boundary character is dropped and nothing else is |
| Sentences.SplitWithoutBoundary | main.py:39-40 | a text without a boundary stays in one piece |
| Sentences.SplitSentencesWords | main.py:39-40 | the pieces of the boundary split hold every word of the text, in order |
| Sentences.AbbreviationExample | main.py:39-40 | `"Hi. U.S. ok. Go!"` splits into `"Hi."`, `"U.S. ok."` and `"Go!"`: the guard `(?<!\w\.\w.)` keeps the space after "U.S." |
| Sentences.NextSeparator | main.py:69 | the result is where a separator starts, or the end of the text |
| Sentences.NextSeparatorFirst | main.py:69 | no separator starts before the one `NextSeparator` finds |
| Sentences.SpacesEnd | main.py:69 | ` +` is greedy: it consumes the whole run of spaces |
| Sentences.SplitAfterPunct | main.py:69 | `re.split(r"(?<=[.!?]) +", t)` yields at least one piece |
| Sentences.SplitAfterPunctPieces | main.py:69 | the split cuts at every space that follows `.`, `!` or `?` and nowhere else; there is one piece more than there are such separators; piece k runs from the end of the space run at separator k-1 (or the start of the text) to separator k (or the end), so each whole run of spaces is dropped and nothing else is |
| Sentences.SplitAfterPunctWords | main.py:69 | the pieces of `re.split(r"(?<=[.!?]) +", t)` hold every word of `t`, in order |
| Chunker.AbsorbWords | main.py:49-53 | the merge rule keeps every word: the new entries hold the old words and then those of the sentence |
| Chunker.Absorb | main.py:49-53 | one step of the merge rule adds at most one entry to `temp`, leaves at least one, and leaves every entry but the last one untouched |
| Chunker.TakeSentence | main.py:46-59 | the body of the loop: apply the merge rule, then flush `temp` into `chunks` once it holds `chunk_size` entries |
| Chunker.ChunkSentences | main.py:42-63 | the loop and the final flush produce exactly the joined groups of the fold `Batches` |
| Chunker.Split | main.py:37-65 | returns `SplitSpec`; at least one chunk; every word of the text in order; with `chunk_size <= 1`, exactly the stripped pieces of the boundary split |
| Chunker.BatchesWords | main.py:45-63 | the groups, joined, hold the pending words followed by every word of the remaining sentences |
| Chunker.Batches | main.py:45-63 | the loop with its final flush yields at least one group exactly when a sentence is still to come or `temp` is non-empty |
| Chunker.BatchesSizes | main.py:56-63 | every group has between 1 and `max(chunk_size, 1)` entries; every group but the last has exactly that many |
| Chunker.BatchesDefault | main.py:45-59 | with `chunk_size <= 1` no sentence is ever merged; every chunk is one stripped sentence |
| Chunker.SplitSpecWords | main.py:37-65 | the words of the chunks, in order, are the words of the text |
| Chunker.SplitSpec | main.py:37-65 | `split` never returns an empty list |
| Chunker.SplitSpecDefault | main.py:34-65 | with the default `chunk_size`, `split` returns the stripped pieces of the boundary split |
| Chunker.SplitSpecBlank | main.py:40-63 | a text that is blank after `strip()` gives `[""]` |
| Chunker.ProcessText | main.py:68-75 | there are ceil(n / `SENTENCES_PER_CHUNK`) chunks for n pieces; chunk k is `" ".join` of the k-th stride of pieces; the chunks hold every word of the text, in order |
| Chunker.Stride | main.py:73 | the k-th slice `sents[kK:kK+K]`, its end clamped to the number of pieces as Python slicing does, holds between 1 and `SENTENCES_PER_CHUNK` pieces |

## Left out

- Speech synthesis: the asyncio worker pool, the semaphore, per-chunk audio files and retries.
- Concatenation of the audio through the `cat` subprocess.
- The upload and the webhook (HTTP requests).
- File I/O: reading the input, writing clean.txt, creating and removing the output folders, and naming files with `uuid`.
- Timing and logging.
- The argparse command line.
- The top-level I/O script of clean.py (lines 8-13). It reads a file and writes `clean_text` of its contents.
- `process_text` is a coroutine in the source. The model is a plain method, because it has no `await` inside.
- CharClass.IsWord: exact up to U+00FF. Above U+00FF, every character that is neither whitespace nor in U+2000–U+206F counts as a word character, instead of following the Unicode letter and digit tables.
- Byte-level encodings, surrogates and Unicode normalisation are not modelled. Strings are sequences of Unicode scalar values.
