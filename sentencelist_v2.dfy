/**
 * `postprocessor2/SentencelistPostProcessor.java`: the second sentence-list
 * post-processor. With `numberOfResults == 1` it scans the cross product for
 * the first smallest distance instead of sorting; otherwise it ranks as the
 * first variant does. Its `calculateAgainstArray` reads container 0 only
 * inside the loop.
 */
module SentencelistV2 {
  import opened Base
  import opened EditDistance
  import opened LevenshteinResults
  import opened Ranking
  import opened Normalizer
  import opened Results
  import opened Phonemes
  import opened Matching

  /**
   * The nested loops of the one-best branch: `minDist` starts at 10000 and
   * `result` at -1, and both are replaced only on a strictly smaller distance.
   */
  method ScanNearest(speech: seq<PhonemeContainer>, grammar: seq<PhonemeContainer>)
    returns (minDist: int, result: int)
    ensures (minDist, result) == ScanMin(Cross(Phon(speech), Phon(grammar)))
  {
    var hyps, gram := Phon(speech), Phon(grammar);
    minDist := InitialMinDist;
    result := -1;
    for i := 0 to |speech|
      invariant (minDist, result) == ScanMin(Cross(hyps[..i], gram))
    {
      ghost var done := Cross(hyps[..i], gram);
      ghost var row := Row(hyps[i], gram);
      assert done + row[..0] == done;
      for j := 0 to |grammar|
        invariant (minDist, result) == ScanMin(done + row[..j])
      {
        var diff := Lev(speech[i].phonemes, grammar[j].phonemes);
        ScanMinStep(done, row, j);
        if diff <= minDist {
          if diff < minDist {
            minDist := diff;
            result := j;
          }
        }
      }
      assert row[..|grammar|] == row;
      CrossSnoc(hyps, gram, i);
    }
    assert hyps[..|speech|] == hyps;
  }

  class SentencelistPostProcessor {
    const pc: PhonemeCreator
    const phonemesGrammar: seq<PhonemeContainer>
    const numberOfResults: int
    const referenceRecognizer: int
    const name: string

    /**
     * `SentencelistPostProcessor(sentenceFile, numberOfResults)`: the grammar
     * is the list of the creator's database.
     */
    constructor FromSentenceFile(g2p: G2P, cached: PhonemeDB?, lines: seq<string>, numberOfResults: int)
      ensures pc.g2p == g2p && this.numberOfResults == numberOfResults
      ensures cached != null ==> phonemesGrammar == cached.arrayContent
      ensures cached == null ==> phonemesGrammar == Containers(TrimLines(lines), g2p)
      ensures referenceRecognizer == -1 && name == "LevenshteinRecognizer"
    {
      var creator := new PhonemeCreator.FromSentenceFile(g2p, cached, lines);
      pc := creator;
      phonemesGrammar := creator.pdb.arrayContent;
      this.numberOfResults := numberOfResults;
      referenceRecognizer := -1;
      name := "LevenshteinRecognizer";
    }

    /**
     * `SentencelistPostProcessor(sentenceFile, numberOfResults,
     * referenceRecognizer, name)`.
     */
    constructor FromSentenceFileNamed(g2p: G2P, cached: PhonemeDB?, lines: seq<string>, numberOfResults: int,
                                      referenceRecognizer: int, name: string)
      ensures pc.g2p == g2p && this.numberOfResults == numberOfResults
      ensures cached != null ==> phonemesGrammar == cached.arrayContent
      ensures cached == null ==> phonemesGrammar == Containers(TrimLines(lines), g2p)
      ensures this.referenceRecognizer == referenceRecognizer && this.name == name
    {
      var creator := new PhonemeCreator.FromSentenceFile(g2p, cached, lines);
      pc := creator;
      phonemesGrammar := creator.pdb.arrayContent;
      this.numberOfResults := numberOfResults;
      this.referenceRecognizer := referenceRecognizer;
      this.name := name;
    }

    /** `SentencelistPostProcessor(sentences, numberOfResults)`, on the shared creator. */
    constructor FromList(registry: PhonemeCreatorRegistry, sentences: seq<string>, numberOfResults: int)
      modifies registry
      ensures pc == registry.instance && pc.g2p == (if old(registry.instance) == null then registry.g2p else old(registry.instance).g2p)
      ensures phonemesGrammar == Containers(sentences, pc.g2p)
      ensures this.numberOfResults == numberOfResults
      ensures referenceRecognizer == -1 && name == "LevenshteinRecognizer"
    {
      var creator := registry.GetInstance();
      pc := creator;
      var grammar := creator.GetPhonemes(Some(sentences));
      phonemesGrammar := grammar.value;
      this.numberOfResults := numberOfResults;
      referenceRecognizer := -1;
      name := "LevenshteinRecognizer";
    }

    /**
     * `recognizeFromResult`. A `null` list hands back `r` itself. With one
     * result wanted, the scan's winner comes back alone, and when no distance
     * is below 10000 (no hypothesis, an empty grammar, only far candidates)
     * `get(-1)` throws. Otherwise the first `numberOfResults` sentences of the
     * stably sorted cross product come back, as in the first variant.
     */
    method RecognizeFromResult(r: Result) returns (out: Outcome<Result>)
      ensures r.resultList.None? ==> out == Ok(r)
      ensures r.resultList.Some? && numberOfResults == 1 ==>
        var s := Cross(Phon(Containers(r.resultList.value, pc.g2p)), Phon(phonemesGrammar));
        (out.Err? <==> forall q :: 0 <= q < |s| ==> s[q].distance >= InitialMinDist) &&
        (out.Err? ==> out.failure == IndexOutOfBounds(-1))
      ensures r.resultList.Some? && numberOfResults == 1 && out.Ok? ==>
        fresh(out.value) &&
        out.value.resultList == Some(Recognize(Containers(r.resultList.value, pc.g2p), phonemesGrammar, 1)) &&
        |out.value.resultList.value| == 1
      ensures r.resultList.Some? && numberOfResults != 1 ==>
        out.Ok? && fresh(out.value) &&
        out.value.resultList == Some(Recognize(Containers(r.resultList.value, pc.g2p), phonemesGrammar, numberOfResults))
    {
      var phonemesSpeech := pc.GetPhonemesOf(r);
      if phonemesSpeech.None? {
        return Ok(r);
      }
      var speech := phonemesSpeech.value;
      if numberOfResults == 1 {
        var minDist, result := ScanNearest(speech, phonemesGrammar);
        OneBestAgreesWithRank(speech, phonemesGrammar);
        if !(0 <= result < |phonemesGrammar|) {
          return Err(IndexOutOfBounds(result));
        }
        var best := new Result();
        var _ := best.AddResult(phonemesGrammar[result].GetResult());
        assert best.resultList.value == [phonemesGrammar[result].GetResult()];
        assert best.resultList.value == Recognize(speech, phonemesGrammar, 1);
        return Ok(best);
      }
      var ranked := RankedResult(speech, phonemesGrammar, numberOfResults);
      return Ok(ranked);
    }

    /**
     * `calculateAgainstArray`: as in the first variant, except that with no
     * container at all nothing throws and every slot stays 0.
     */
    method CalculateAgainstArray(input: string, references: array<string>) returns (res: array<real>)
      ensures fresh(res) && res.Length == references.Length
      ensures var cs := Containers([input] + references[..], pc.g2p);
        (cs == [] ==> forall q :: 0 <= q < res.Length ==> res[q] == 0.0) &&
        (cs != [] ==> |cs| <= references.Length + 1 && res[..] == Distances(cs, references.Length))
    {
      res := new real[references.Length](i => 0.0);
      var r := ResultOf(input, references);
      var phonemesSpeech := pc.GetPhonemesOf(r);
      var cs := phonemesSpeech.value;
      if cs != [] {
        assert res[..] == DistancesUpTo(cs, references.Length, 1);
      }
      var i := 1;
      while i < |cs|
        invariant 1 <= i && (cs != [] ==> i <= |cs| <= references.Length + 1)
        invariant cs == [] ==> forall q :: 0 <= q < res.Length ==> res[q] == 0.0
        invariant cs != [] ==> res[..] == DistancesUpTo(cs, references.Length, i)
      {
        var diff := Lev(cs[i].phonemes, cs[0].phonemes);
        DistancesStep(cs, references.Length, i);
        res[i - 1] := diff as real;
        i := i + 1;
      }
    }
  }
}
