/**
 * `postprocessor/WordlistPostProcessor.java`: splits the best hypothesis
 * into words, matches each word on its own against a word list through a
 * sentence-list post-processor, and glues the per-word winners back together.
 */
module Wordlist {
  import opened Base
  import opened JavaText
  import opened EditDistance
  import opened Normalizer
  import opened Results
  import opened Phonemes
  import opened Matching
  import opened SentencelistV1

  /**
   * `getBestResult` of the inner post-processor's answer for the one-word
   * Result `[w]`: the first of its `k` best grammar sentences, or the
   * `get(0)` failure when it has none.
   */
  function WordMatch(w: string, g2p: G2P, grammar: seq<PhonemeContainer>, k: int): Outcome<string>
  {
    match Entry(w, g2p)
    case None => Err(IndexOutOfBounds(0))
    case Some(c) =>
      var rec := Recognize([c], grammar, k);
      if rec == [] then Err(IndexOutOfBounds(0)) else Ok(rec[0])
  }

  /** The inner answers for the words, in word order. */
  function Answers(words: seq<string>, g2p: G2P, grammar: seq<PhonemeContainer>, k: int): (r: seq<Outcome<string>>)
    ensures |r| == |words|
  {
    seq(|words|, q requires 0 <= q < |words| => WordMatch(words[q], g2p, grammar, k))
  }

  /**
   * The loop over the words: the matches in word order, or the failure of
   * the first word without one (later words are not looked at).
   */
  function MatchAll(words: seq<string>, g2p: G2P, grammar: seq<PhonemeContainer>, k: int): Outcome<seq<string>>
  {
    Collect(Answers(words, g2p, grammar, k))
  }

  /** On success, each word's match stands in its place. */
  lemma MatchAllOk(words: seq<string>, q: int, g2p: G2P, grammar: seq<PhonemeContainer>, k: int)
    requires MatchAll(words, g2p, grammar, k).Ok? && 0 <= q < |words|
    ensures |MatchAll(words, g2p, grammar, k).value| == |words|
    ensures WordMatch(words[q], g2p, grammar, k).Ok?
    ensures MatchAll(words, g2p, grammar, k).value[q] == WordMatch(words[q], g2p, grammar, k).value
  {
    var os := Answers(words, g2p, grammar, k);
    var _ := CollectPerEntry(os);
    assert os[q] == WordMatch(words[q], g2p, grammar, k);
  }

  /**
   * On failure, the failure is that of the first word without a match;
   * every word before it has one.
   */
  lemma MatchAllFailure(words: seq<string>, g2p: G2P, grammar: seq<PhonemeContainer>, k: int)
    returns (first: int)
    requires MatchAll(words, g2p, grammar, k).Err?
    ensures 0 <= first < |words| && WordMatch(words[first], g2p, grammar, k).Err?
    ensures MatchAll(words, g2p, grammar, k) == Err(WordMatch(words[first], g2p, grammar, k).failure)
    ensures forall q :: 0 <= q < first ==> WordMatch(words[q], g2p, grammar, k).Ok?
  {
    var os := Answers(words, g2p, grammar, k);
    first := CollectPerEntry(os);
    assert os[first] == WordMatch(words[first], g2p, grammar, k);
    forall q | 0 <= q < first
      ensures WordMatch(words[q], g2p, grammar, k).Ok?
    {
      assert os[q] == WordMatch(words[q], g2p, grammar, k);
    }
  }

  /** The loop succeeds exactly when every word has a match. */
  lemma MatchAllOkIff(words: seq<string>, g2p: G2P, grammar: seq<PhonemeContainer>, k: int)
    ensures MatchAll(words, g2p, grammar, k).Ok? <==>
      forall q :: 0 <= q < |words| ==> WordMatch(words[q], g2p, grammar, k).Ok?
  {
    if MatchAll(words, g2p, grammar, k).Ok? {
      forall q | 0 <= q < |words|
        ensures WordMatch(words[q], g2p, grammar, k).Ok?
      {
        MatchAllOk(words, q, g2p, grammar, k);
      }
    } else {
      var first := MatchAllFailure(words, g2p, grammar, k);
    }
  }

  /**
   * A word has no match exactly when it normalises to the empty string (an
   * empty word from a double space, or only punctuation), when the word
   * list is empty, or when no result is wanted; the failure is `get(0)`'s.
   */
  lemma WordMatchFails(w: string, g2p: G2P, grammar: seq<PhonemeContainer>, k: int)
    ensures WordMatch(w, g2p, grammar, k).Err? <==> Normalize(w) == "" || grammar == [] || k <= 0
    ensures WordMatch(w, g2p, grammar, k).Err? ==> WordMatch(w, g2p, grammar, k).failure == IndexOutOfBounds(0)
  {
    ContainersOfOne(w, g2p);
    RecognizeLength(Containers([w], g2p), grammar, k);
  }

  /**
   * A match is the sentence of a word-list entry whose phonemes are nearest
   * to the word's phonemes.
   */
  lemma WordMatchIsNearest(w: string, g2p: G2P, grammar: seq<PhonemeContainer>, k: int) returns (j: int)
    requires WordMatch(w, g2p, grammar, k).Ok?
    ensures Entry(w, g2p).Some? && 0 <= j < |grammar|
    ensures WordMatch(w, g2p, grammar, k).value == grammar[j].GetResult()
    ensures forall j' :: 0 <= j' < |grammar| ==>
      Lev(Entry(w, g2p).value.phonemes, grammar[j].phonemes) <= Lev(Entry(w, g2p).value.phonemes, grammar[j'].phonemes)
  {
    WordMatchFails(w, g2p, grammar, k);
    ContainersOfOne(w, g2p);
    var speech := Containers([w], g2p);
    var i;
    i, j := RecognizeBestFirst(speech, grammar, k);
    assert forall j' :: 0 <= j' < |grammar| ==>
      Lev(speech[0].phonemes, grammar[j].phonemes) <= Lev(speech[0].phonemes, grammar[j'].phonemes);
  }

  /**
   * A hypothesis with an empty word between two spaces, or a word of
   * punctuation only, has no answer: that word's inner result is empty.
   */
  lemma EmptyWordFails(ws: seq<string>, e: int, g2p: G2P, grammar: seq<PhonemeContainer>, k: int)
    requires |ws| > 0 && (forall q, i :: 0 <= q < |ws| && 0 <= i < |ws[q]| ==> ws[q][i] != ' ')
    requires |ws| == 1 || ws[|ws| - 1] != ""
    requires 0 <= e < |ws| && Normalize(ws[e]) == ""
    ensures MatchAll(Split(Join(ws, " "), " "), g2p, grammar, k) == Err(IndexOutOfBounds(0))
  {
    SplitJoin(ws, " ");
    WordMatchFails(ws[e], g2p, grammar, k);
    MatchAllOkIff(ws, g2p, grammar, k);
    var first := MatchAllFailure(ws, g2p, grammar, k);
    WordMatchFails(ws[first], g2p, grammar, k);
  }

  /** The accumulator `res` once the matches `ms` are glued: `null` before the first one. */
  function Glued(ms: seq<string>): Option<string>
  {
    if ms == [] then None else Some(Join(ms, " "))
  }

  /** Gluing one more match: it becomes `res`, or is added after a space. */
  lemma GluedSnoc(ms: seq<string>, w: string)
    ensures Glued(ms + [w]) == Some(if ms == [] then w else Glued(ms).value + " " + w)
  {
    if ms == [] {
      assert ms + [w] == [w];
    } else {
      JoinSnoc(ms, w, " ");
    }
  }

  class WordlistPostProcessor {
    /** The inner sentence-list post-processor over the word list. */
    const lr: SentencelistPostProcessor

    /**
     * `WordlistPostProcessor(wordFile)`: the inner post-processor is built
     * from the word file and always returns one result.
     */
    constructor (g2p: G2P, cached: PhonemeDB?, lines: seq<string>)
      ensures lr.numberOfResults == 1 && lr.pc.g2p == g2p
      ensures cached != null ==> lr.phonemesGrammar == cached.arrayContent
      ensures cached == null ==> lr.phonemesGrammar == Containers(TrimLines(lines), g2p)
    {
      lr := new SentencelistPostProcessor.FromSentenceFile(g2p, cached, lines, 1);
    }

    /**
     * The body of the word loop: a fresh Result holding only `w` goes
     * through the inner post-processor, and its `getBestResult` is taken.
     */
    method MatchWord(w: string) returns (best: Outcome<string>)
      ensures best == WordMatch(w, lr.pc.g2p, lr.phonemesGrammar, lr.numberOfResults)
    {
      var rTemp := new Result();
      var _ := rTemp.AddResult(w);
      assert rTemp.resultList.value == [] + [w];
      rTemp := lr.RecognizeFromResult(rTemp);
      best := rTemp.GetBestResult();
    }

    /**
     * The word loop of `recognizeFromResult`: each word in turn goes through
     * `MatchWord`, the first failure ends the loop, and the matches are
     * glued with single spaces into `res` (`null` while no word is done).
     */
    method MatchWords(words: seq<string>) returns (out: Outcome<Option<string>>)
      ensures var m := MatchAll(words, lr.pc.g2p, lr.phonemesGrammar, lr.numberOfResults);
        (m.Err? ==> out == Err(m.failure)) &&
        (m.Ok? ==> out == Ok(if words == [] then None else Some(Join(m.value, " "))))
    {
      ghost var all := Answers(words, lr.pc.g2p, lr.phonemesGrammar, lr.numberOfResults);
      var res: Option<string> := None;
      ghost var ms: seq<string> := [];
      for i := 0 to |words|
        invariant Collect(all[..i]) == Ok(ms)
        invariant res == Glued(ms)
      {
        var best := MatchWord(words[i]);
        assert all[i] == best;
        CollectStep(all, i, ms);
        if best.Err? {
          return Err(best.failure);
        }
        GluedSnoc(ms, best.value);
        if res.None? {
          res := Some(best.value);
        } else {
          res := Some(res.value + " " + best.value);
        }
        ms := ms + [best.value];
      }
      assert all[..|words|] == all;
      return Ok(res);
    }

    /**
     * `recognizeFromResult`: `getBestResult` of `r` is split on spaces, each
     * word is matched on its own, and a fresh Result holds the one string
     * of the matches joined by single spaces. A failing `getBestResult`,
     * outer or inner, is passed on; no words at all leave `res` `null`.
     */
    method RecognizeFromResult(r: Result) returns (out: Outcome<Result>)
      ensures r.GetBestResult().Err? ==> out == Err(r.GetBestResult().failure)
      ensures r.GetBestResult().Ok? ==>
        var words := Split(r.GetBestResult().value, " ");
        var m := MatchAll(words, lr.pc.g2p, lr.phonemesGrammar, lr.numberOfResults);
        (m.Err? ==> out == Err(m.failure)) &&
        (m.Ok? && words == [] ==> out == Err(NullString)) &&
        (m.Ok? && words != [] ==> out.Ok? && fresh(out.value) && out.value.resultList == Some([Join(m.value, " ")]))
    {
      var result := new Result();
      var hyp := r.GetBestResult();
      if hyp.Err? {
        return Err(hyp.failure);
      }
      var words := Split(hyp.value, " ");
      var res := MatchWords(words);
      if res.Err? {
        return Err(res.failure);
      }
      if res.value.None? {
        return Err(NullString);
      }
      ghost var m := MatchAll(words, lr.pc.g2p, lr.phonemesGrammar, lr.numberOfResults);
      assert res.value.value == Join(m.value, " ");
      var _ := result.AddResult(res.value.value);
      assert result.resultList.value == [] + [res.value.value] == [Join(m.value, " ")];
      return Ok(result);
    }
  }
}
