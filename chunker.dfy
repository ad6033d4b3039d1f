/** `split` and `process_text` of main.py: cutting a text into the chunks
    that are sent one by one to the speech synthesiser. */
module Chunker {
  import opened CharClass
  import opened StrOps
  import opened Sentences

  /** `SENTENCES_PER_CHUNK` of main.py, the default `chunk_size` of `split`
      and the stride of `process_text`. */
  const SentencesPerChunk := 1

  /** The default `min_sent` of `split`. */
  const MinSentenceWords := 10

  function Max(a: int, b: int): int {
    if a < b then b else a
  }

  function Min(a: int, b: int): int {
    if a < b then a else b
  }

  /** One step of the merge rule of `split`: a sentence with fewer than
      `minSent` words is glued with one space onto the last pending entry
      when there is one; otherwise it becomes a new entry. */
  function Absorb(temp: seq<string>, s: string, minSent: int): (r: seq<string>)
    ensures |temp| <= |r| <= |temp| + 1 && |r| >= 1
    ensures forall k :: 0 <= k < |temp| - 1 ==> r[k] == temp[k]
  {
    if temp != [] && |Words(s)| < minSent then temp[|temp| - 1 := temp[|temp| - 1] + " " + s]
    else temp + [s]
  }

  lemma AbsorbMerges(temp: seq<string>, s: string, minSent: int)
    requires temp != [] && |Words(s)| < minSent
    ensures Absorb(temp, s, minSent) == temp[|temp| - 1 := temp[|temp| - 1] + " " + s]
  {
  }

  lemma AbsorbAppends(temp: seq<string>, s: string, minSent: int)
    requires !(temp != [] && |Words(s)| < minSent)
    ensures Absorb(temp, s, minSent) == temp + [s]
  {
  }

  /** The groups of entries that `split` joins into chunks, when `temp` is
      pending and `sents` are still to come. */
  function Batches(sents: seq<string>, chunkSize: int, minSent: int, temp: seq<string>): (r: seq<seq<string>>)
    ensures |r| >= 1 <==> sents != [] || temp != []
    decreases |sents|
  {
    if sents == [] then (if temp == [] then [] else [temp])
    else
      var t := Absorb(temp, Strip(sents[0]), minSent);
      if |t| >= chunkSize then [t] + Batches(sents[1..], chunkSize, minSent, [])
      else Batches(sents[1..], chunkSize, minSent, t)
  }

  /** `" ".join(g)` for every group `g`. */
  function JoinEach(gs: seq<seq<string>>): (r: seq<string>)
    ensures |r| == |gs|
  {
    if gs == [] then [] else [JoinSpaces(gs[0])] + JoinEach(gs[1..])
  }

  /** What `split(text, chunkSize, minSent)` returns. */
  function SplitSpec(text: string, chunkSize: int, minSent: int): (r: seq<string>)
    ensures |r| >= 1
  {
    JoinEach(Batches(SplitSentences(Strip(text)), chunkSize, minSent, []))
  }

  /** `split` of main.py. */
  method Split(text: string, chunkSize: int := SentencesPerChunk, minSent: int := MinSentenceWords)
    returns (chunks: seq<string>)
    ensures chunks == SplitSpec(text, chunkSize, minSent)
    ensures |chunks| >= 1
    ensures FlatWords(chunks) == Words(text)
    ensures chunkSize <= 1 ==> chunks == StripEach(SplitSentences(Strip(text)))
  {
    var sentences := SplitSentences(Strip(text));
    chunks := ChunkSentences(sentences, chunkSize, minSent);
    SplitSpecProperties(text, chunkSize, minSent);
  }

  /** The `for` loop of `split` over the pieces `sentences`, with the final
      flush of `temp`. */
  method ChunkSentences(sentences: seq<string>, chunkSize: int, minSent: int) returns (chunks: seq<string>)
    ensures chunks == JoinEach(Batches(sentences, chunkSize, minSent, []))
  {
    ghost var spec := JoinEach(Batches(sentences, chunkSize, minSent, []));
    chunks := [];
    var temp: seq<string> := [];
    var i := 0;
    LoopStart(sentences, chunkSize, minSent);
    while i < |sentences|
      invariant 0 <= i <= |sentences|
      invariant |temp| < Max(chunkSize, 1)
      invariant chunks + JoinEach(Batches(sentences[i..], chunkSize, minSent, temp)) == spec
    {
      var sentence := Strip(sentences[i]);
      ghost var chunks0, temp0 := chunks, temp;
      ghost var t := Absorb(temp, sentence, minSent);
      temp, chunks := TakeSentence(temp, chunks, sentence, chunkSize, minSent);
      LoopStep(sentences, i, chunkSize, minSent, temp0, chunks0, spec, t, temp, chunks);
      i := i + 1;
    }
    LoopEnd(sentences, i, chunkSize, minSent, temp, chunks, spec);
    if temp != [] {
      chunks := chunks + [JoinSpaces(temp)];
    }
  }

  /** Before the loop nothing is output and nothing is pending. */
  lemma LoopStart(sents: seq<string>, chunkSize: int, minSent: int)
    ensures [] + JoinEach(Batches(sents[0..], chunkSize, minSent, [])) == JoinEach(Batches(sents, chunkSize, minSent, []))
  {
    assert sents[0..] == sents;
  }

  lemma SplitSpecProperties(text: string, chunkSize: int, minSent: int)
    ensures FlatWords(SplitSpec(text, chunkSize, minSent)) == Words(text)
    ensures chunkSize <= 1 ==> SplitSpec(text, chunkSize, minSent) == StripEach(SplitSentences(Strip(text)))
  {
    SplitSpecWords(text, chunkSize, minSent);
    if chunkSize <= 1 {
      SplitSpecDefault(text, chunkSize, minSent);
    }
  }

  /** The body of the loop of `split`: the merge rule, then the flush of
      `temp` once it holds `chunkSize` entries. */
  method TakeSentence(temp: seq<string>, chunks: seq<string>, sentence: string, chunkSize: int, minSent: int)
    returns (temp': seq<string>, chunks': seq<string>)
    ensures var t := Absorb(temp, sentence, minSent);
      && (|t| >= chunkSize ==> temp' == [] && chunks' == chunks + [JoinSpaces(t)])
      && (|t| < chunkSize ==> temp' == t && chunks' == chunks)
  {
    temp' := temp;
    if temp' != [] && |Words(sentence)| < minSent {
      AbsorbMerges(temp, sentence, minSent);
      temp' := temp'[|temp'| - 1 := temp'[|temp'| - 1] + " " + sentence];
    } else {
      AbsorbAppends(temp, sentence, minSent);
      temp' := temp' + [sentence];
    }
    chunks' := chunks;
    if |temp'| >= chunkSize {
      chunks' := chunks' + [JoinSpaces(temp')];
      temp' := [];
    }
  }

  /** One turn of the loop of `split`: the pending entries `temp` become `t`
      after the merge rule, and are flushed into `chunks` once there are
      `chunkSize` of them. */
  lemma LoopStep(sents: seq<string>, i: nat, chunkSize: int, minSent: int, temp: seq<string>,
                 chunks: seq<string>, spec: seq<string>, t: seq<string>, temp': seq<string>, chunks': seq<string>)
    requires i < |sents|
    requires chunks + JoinEach(Batches(sents[i..], chunkSize, minSent, temp)) == spec
    requires t == Absorb(temp, Strip(sents[i]), minSent)
    requires |t| >= chunkSize ==> temp' == [] && chunks' == chunks + [JoinSpaces(t)]
    requires |t| < chunkSize ==> temp' == t && chunks' == chunks
    ensures chunks' + JoinEach(Batches(sents[i + 1..], chunkSize, minSent, temp')) == spec
  {
    BatchesStep(sents, i, chunkSize, minSent, temp);
    if |t| >= chunkSize {
      FlushProgress(chunks, Batches(sents[i..], chunkSize, minSent, temp), t,
                    Batches(sents[i + 1..], chunkSize, minSent, []), spec);
    }
  }

  /** After the last sentence the pending entries, if any, are the last chunk. */
  lemma LoopEnd(sents: seq<string>, i: nat, chunkSize: int, minSent: int, temp: seq<string>,
                chunks: seq<string>, spec: seq<string>)
    requires i == |sents|
    requires chunks + JoinEach(Batches(sents[i..], chunkSize, minSent, temp)) == spec
    ensures (if temp == [] then chunks else chunks + [JoinSpaces(temp)]) == spec
  {
    assert sents[i..] == [];
    if temp == [] {
      assert chunks + [] == chunks;
    } else {
      JoinEachCons(temp, []);
    }
  }

  lemma BatchesStep(sents: seq<string>, i: nat, chunkSize: int, minSent: int, temp: seq<string>)
    requires i < |sents|
    ensures var t := Absorb(temp, Strip(sents[i]), minSent);
      Batches(sents[i..], chunkSize, minSent, temp)
      == if |t| >= chunkSize then [t] + Batches(sents[i + 1..], chunkSize, minSent, [])
         else Batches(sents[i + 1..], chunkSize, minSent, t)
  {
    assert sents[i..][0] == sents[i];
    assert sents[i..][1..] == sents[i + 1..];
  }

  /** Flushing the pending group moves its chunk to the output. */
  lemma FlushProgress(chunks: seq<string>, pending: seq<seq<string>>, g: seq<string>,
                      rest: seq<seq<string>>, spec: seq<string>)
    requires chunks + JoinEach(pending) == spec && pending == [g] + rest
    ensures chunks + [JoinSpaces(g)] + JoinEach(rest) == spec
  {
    JoinEachCons(g, rest);
    AppendAssoc(chunks, [JoinSpaces(g)], JoinEach(rest));
  }

  lemma JoinEachCons(g: seq<string>, gs: seq<seq<string>>)
    ensures JoinEach([g] + gs) == [JoinSpaces(g)] + JoinEach(gs)
  {
    assert ([g] + gs)[1..] == gs;
  }

  /** The merge rule keeps every word: the pending entries after a step hold
      the words they held before followed by those of the new sentence. */
  lemma AbsorbWords(temp: seq<string>, s: string, minSent: int)
    ensures FlatWords(Absorb(temp, s, minSent)) == FlatWords(temp) + Words(s)
  {
    if temp != [] && |Words(s)| < minSent {
      var p, l := temp[..|temp| - 1], temp[|temp| - 1];
      assert temp == p + [l];
      assert Absorb(temp, s, minSent) == p + [l + " " + s];
      FlatWordsAppend(p, [l]);
      FlatWordsAppend(p, [l + " " + s]);
      FlatWordsSingle(l);
      FlatWordsSingle(l + " " + s);
      WordsJoin(l, s);
    } else {
      FlatWordsAppend(temp, [s]);
      FlatWordsSingle(s);
    }
  }

  /** Batching keeps every word, in order. */
  lemma {:induction false} BatchesWords(sents: seq<string>, chunkSize: int, minSent: int, temp: seq<string>)
    ensures FlatWords(JoinEach(Batches(sents, chunkSize, minSent, temp))) == FlatWords(temp) + FlatWords(sents)
    decreases |sents|
  {
    if sents == [] {
      BatchesWordsEnd(chunkSize, minSent, temp);
    } else {
      var t := Absorb(temp, Strip(sents[0]), minSent);
      if |t| >= chunkSize {
        BatchesWords(sents[1..], chunkSize, minSent, []);
        BatchesWordsFlush(sents, chunkSize, minSent, temp);
      } else {
        BatchesWords(sents[1..], chunkSize, minSent, t);
        BatchesWordsKeep(sents, chunkSize, minSent, temp);
      }
    }
  }

  lemma BatchesWordsEnd(chunkSize: int, minSent: int, temp: seq<string>)
    ensures FlatWords(JoinEach(Batches([], chunkSize, minSent, temp))) == FlatWords(temp) + FlatWords([])
  {
    if temp != [] {
      FlatWordsSingle(JoinSpaces(temp));
      WordsOfJoin(temp);
    }
  }

  lemma BatchesWordsFlush(sents: seq<string>, chunkSize: int, minSent: int, temp: seq<string>)
    requires sents != []
    requires |Absorb(temp, Strip(sents[0]), minSent)| >= chunkSize
    requires FlatWords(JoinEach(Batches(sents[1..], chunkSize, minSent, [])))
          == FlatWords([]) + FlatWords(sents[1..])
    ensures FlatWords(JoinEach(Batches(sents, chunkSize, minSent, temp))) == FlatWords(temp) + FlatWords(sents)
  {
    var t := Absorb(temp, Strip(sents[0]), minSent);
    var later := Batches(sents[1..], chunkSize, minSent, []);
    FlushTail(t, later, sents[1..]);
    StepWords(sents, temp, t, minSent);
  }

  lemma FlushTail(t: seq<string>, later: seq<seq<string>>, rest: seq<string>)
    requires FlatWords(JoinEach(later)) == FlatWords([]) + FlatWords(rest)
    ensures FlatWords(JoinEach([t] + later)) == FlatWords(t) + FlatWords(rest)
  {
    JoinEachCons(t, later);
    FlushWords(t, JoinEach(later));
  }

  lemma BatchesWordsKeep(sents: seq<string>, chunkSize: int, minSent: int, temp: seq<string>)
    requires sents != []
    requires |Absorb(temp, Strip(sents[0]), minSent)| < chunkSize
    requires FlatWords(JoinEach(Batches(sents[1..], chunkSize, minSent, Absorb(temp, Strip(sents[0]), minSent))))
          == FlatWords(Absorb(temp, Strip(sents[0]), minSent)) + FlatWords(sents[1..])
    ensures FlatWords(JoinEach(Batches(sents, chunkSize, minSent, temp))) == FlatWords(temp) + FlatWords(sents)
  {
    StepWords(sents, temp, Absorb(temp, Strip(sents[0]), minSent), minSent);
  }

  /** Flushing a group in front of later chunks keeps its words in front. */
  lemma FlushWords(t: seq<string>, later: seq<string>)
    ensures FlatWords([JoinSpaces(t)] + later) == FlatWords(t) + FlatWords(later)
  {
    FlatWordsCons(JoinSpaces(t), later);
    WordsOfJoin(t);
  }

  lemma StepWords(sents: seq<string>, temp: seq<string>, t: seq<string>, minSent: int)
    requires sents != [] && t == Absorb(temp, Strip(sents[0]), minSent)
    ensures FlatWords(t) + FlatWords(sents[1..]) == FlatWords(temp) + FlatWords(sents)
  {
    var s0, rest := sents[0], sents[1..];
    AbsorbWords(temp, Strip(s0), minSent);
    WordsStrip(s0);
    FlatWordsUncons(sents);
    AppendAssoc(FlatWords(temp), Words(s0), FlatWords(rest));
  }

  /** Every group has between 1 and `m` entries and every group but the
      last exactly `m`. */
  ghost predicate WellSized(gs: seq<seq<string>>, m: int) {
    && (forall k :: 0 <= k < |gs| ==> 1 <= |gs[k]| <= m)
    && (forall k :: 0 <= k < |gs| - 1 ==> |gs[k]| == m)
  }

  lemma WellSizedCons(g: seq<string>, gs: seq<seq<string>>, m: int)
    requires |g| == m >= 1 && WellSized(gs, m)
    ensures WellSized([g] + gs, m)
  {
    var r := [g] + gs;
    forall k | 1 <= k < |r| ensures r[k] == gs[k - 1] {
    }
  }

  /** The buffer bound of `split`: with `M = max(chunkSize, 1)`, every group
      has between 1 and `M` entries and every group but the last exactly `M`. */
  lemma {:induction false} BatchesSizes(sents: seq<string>, chunkSize: int, minSent: int, temp: seq<string>)
    requires |temp| < Max(chunkSize, 1)
    ensures WellSized(Batches(sents, chunkSize, minSent, temp), Max(chunkSize, 1))
    decreases |sents|
  {
    if sents != [] {
      var t := Absorb(temp, Strip(sents[0]), minSent);
      if |t| >= chunkSize {
        BatchesSizes(sents[1..], chunkSize, minSent, []);
        WellSizedCons(t, Batches(sents[1..], chunkSize, minSent, []), Max(chunkSize, 1));
      } else {
        BatchesSizes(sents[1..], chunkSize, minSent, t);
      }
    }
  }

  /** With `chunkSize <= 1` nothing is ever pending at the head of the loop,
      so no sentence is merged: every group is one stripped sentence. */
  lemma {:induction false} BatchesDefault(sents: seq<string>, chunkSize: int, minSent: int)
    requires chunkSize <= 1
    ensures JoinEach(Batches(sents, chunkSize, minSent, [])) == StripEach(sents)
    decreases |sents|
  {
    if sents != [] {
      var s := Strip(sents[0]);
      assert Absorb([], s, minSent) == [s];
      BatchesDefault(sents[1..], chunkSize, minSent);
      JoinEachCons([s], Batches(sents[1..], chunkSize, minSent, []));
      assert StripEach(sents) == [s] + StripEach(sents[1..]);
    }
  }

  /** The words of the chunks, in order, are the words of the text. */
  lemma SplitSpecWords(text: string, chunkSize: int, minSent: int)
    ensures FlatWords(SplitSpec(text, chunkSize, minSent)) == Words(text)
  {
    var t := Strip(text);
    BatchesWords(SplitSentences(t), chunkSize, minSent, []);
    SplitSentencesWords(t);
    WordsStrip(text);
  }

  /** With `chunk_size <= 1`, the chunks are the stripped sentences. */
  lemma SplitSpecDefault(text: string, chunkSize: int, minSent: int)
    requires chunkSize <= 1
    ensures SplitSpec(text, chunkSize, minSent) == StripEach(SplitSentences(Strip(text)))
  {
    BatchesDefault(SplitSentences(Strip(text)), chunkSize, minSent);
  }

  /** A blank text gives one empty chunk (a non-empty list, not an empty one). */
  lemma SplitSpecBlank(text: string, chunkSize: int, minSent: int)
    requires Strip(text) == ""
    ensures SplitSpec(text, chunkSize, minSent) == [""]
  {
    SplitSentencesEmpty();
    BatchesOfEmptySentence(chunkSize, minSent);
  }

  lemma SplitSentencesEmpty()
    ensures SplitSentences("") == [""]
  {
    assert NextBoundary("", 0) == 0;
    assert ""[0..] == "";
  }

  lemma BatchesOfEmptySentence(chunkSize: int, minSent: int)
    ensures JoinEach(Batches([""], chunkSize, minSent, [])) == [""]
  {
    assert Strip("") == "";
    assert Absorb([], "", minSent) == [""];
    assert [""][1..] == [];
    JoinEachCons([""], []);
  }

  /** `process_text` of main.py: the `re.split` pieces, taken
      `SENTENCES_PER_CHUNK` at a time and joined with spaces. */
  method ProcessText(text: string) returns (chunks: seq<string>)
    ensures var sents := SplitAfterPunct(text);
      && |chunks| == (|sents| + SentencesPerChunk - 1) / SentencesPerChunk
      && forall k :: 0 <= k < |chunks| ==> chunks[k] == JoinSpaces(Stride(sents, k))
    ensures FlatWords(chunks) == Words(text)
  {
    var sentences := SplitAfterPunct(text);
    chunks := [];
    var i := 0;
    ProcessStart(sentences);
    while i < |sentences|
      invariant ProcessedUpTo(sentences, i, chunks)
      decreases |sentences| - i
    {
      var chunk := JoinSpaces(sentences[i..Min(i + SentencesPerChunk, |sentences|)]);
      ProcessStep(sentences, i, chunks, chunk);
      chunks := chunks + [chunk];
      i := i + SentencesPerChunk;
    }
    ProcessEnd(sentences, i, chunks);
    SplitAfterPunctWords(text);
  }

  /** The `k`-th slice `sents[k * K : k * K + K]` of the loop of `process_text`,
      where `K` is `SENTENCES_PER_CHUNK`; Python clamps the end to `len(sents)`. */
  function Stride(sents: seq<string>, k: nat): (r: seq<string>)
    requires k * SentencesPerChunk < |sents|
    ensures 1 <= |r| <= SentencesPerChunk
  {
    sents[k * SentencesPerChunk..Min(k * SentencesPerChunk + SentencesPerChunk, |sents|)]
  }

  /** The state of the loop of `process_text` at `i`: one chunk per slice
      before `i`, holding the words of the pieces before `i`. */
  ghost predicate ProcessedUpTo(sents: seq<string>, i: nat, chunks: seq<string>) {
    && i == |chunks| * SentencesPerChunk
    && (i <= |sents| || (|sents| > 0 && i < |sents| + SentencesPerChunk))
    && (forall k :: 0 <= k < |chunks| ==> k * SentencesPerChunk < |sents| && chunks[k] == JoinSpaces(Stride(sents, k)))
    && FlatWords(chunks) == FlatWords(sents[..Min(i, |sents|)])
  }

  lemma ProcessStart(sents: seq<string>)
    ensures ProcessedUpTo(sents, 0, [])
  {
    assert sents[..0] == [];
  }

  lemma ProcessStep(sents: seq<string>, i: nat, chunks: seq<string>, chunk: string)
    requires ProcessedUpTo(sents, i, chunks) && i < |sents|
    requires chunk == JoinSpaces(sents[i..Min(i + SentencesPerChunk, |sents|)])
    ensures ProcessedUpTo(sents, i + SentencesPerChunk, chunks + [chunk])
  {
    var j := Min(i + SentencesPerChunk, |sents|);
    var c := chunks + [chunk];
    assert chunk == JoinSpaces(Stride(sents, |chunks|));
    forall k | 0 <= k < |c| ensures k * SentencesPerChunk < |sents| && c[k] == JoinSpaces(Stride(sents, k)) {
      if k < |chunks| {
        assert c[k] == chunks[k];
      }
    }
    FlatWordsAppend(chunks, [chunk]);
    FlatWordsSingle(chunk);
    WordsOfJoin(sents[i..j]);
    TakeSplit(sents, i, j);
    FlatWordsAppend(sents[..i], sents[i..j]);
  }

  lemma TakeSplit(s: seq<string>, i: nat, j: nat)
    requires i <= j <= |s|
    ensures s[..j] == s[..i] + s[i..j]
  {
  }

  lemma ProcessEnd(sents: seq<string>, i: nat, chunks: seq<string>)
    requires ProcessedUpTo(sents, i, chunks) && i >= |sents|
    ensures |chunks| == (|sents| + SentencesPerChunk - 1) / SentencesPerChunk
    ensures FlatWords(chunks) == FlatWords(sents)
  {
    assert sents[..|sents|] == sents;
  }
}
