/**
 * `postprocessor/SentencelistPostProcessor.java`: matches the n-best list
 * of a recognizer against a list of sentences by phoneme edit distance and
 * returns the `numberOfResults` closest sentences.
 */
module SentencelistV1 {
  import opened Base
  import opened EditDistance
  import opened LevenshteinResults
  import opened Ranking
  import opened Normalizer
  import opened Results
  import opened Phonemes
  import opened Matching

  class SentencelistPostProcessor {
    const pc: PhonemeCreator
    const phonemesGrammar: seq<PhonemeContainer>
    const numberOfResults: int
    const referenceRecognizer: int
    const name: string

    /**
     * `SentencelistPostProcessor(sentenceFile, numberOfResults)`: the grammar
     * is the database of a creator built from the sentence file (`cached`
     * stands for its serialised database, `lines` for its text lines).
     */
    constructor FromSentenceFile(g2p: G2P, cached: PhonemeDB?, lines: seq<string>, numberOfResults: int)
      ensures pc.g2p == g2p && this.numberOfResults == numberOfResults
      ensures cached != null ==> phonemesGrammar == cached.arrayContent
      ensures cached == null ==> phonemesGrammar == Containers(TrimLines(lines), g2p)
      ensures referenceRecognizer == -1 && name == "LevenshteinRecognizer"
    {
      var creator := new PhonemeCreator.FromSentenceFile(g2p, cached, lines);
      pc := creator;
      phonemesGrammar := creator.pdb.GetPhonemes();
      this.numberOfResults := numberOfResults;
      referenceRecognizer := -1;
      name := "LevenshteinRecognizer";
    }

    /**
     * `SentencelistPostProcessor(sentenceFile, numberOfResults,
     * referenceRecognizer, name)`: the two-argument constructor, then the
     * recognizer id and the name are overwritten.
     */
    constructor FromSentenceFileNamed(g2p: G2P, cached: PhonemeDB?, lines: seq<string>, numberOfResults: int,
                                      referenceRecognizer: int, name: string)
      ensures pc.g2p == g2p && this.numberOfResults == numberOfResults
      ensures cached != null ==> phonemesGrammar == cached.arrayContent
      ensures cached == null ==> phonemesGrammar == Containers(TrimLines(lines), g2p)
      ensures this.referenceRecognizer == referenceRecognizer && this.name == name
    {
      var creator := new PhonemeCreator.FromSentenceFile(g2p, cached, lines);
      pc := creator;
      phonemesGrammar := creator.pdb.GetPhonemes();
      this.numberOfResults := numberOfResults;
      this.referenceRecognizer := referenceRecognizer;
      this.name := name;
    }

    /**
     * `SentencelistPostProcessor(sentences, numberOfResults)`: the shared
     * creator of `getInstance` turns the sentences into the grammar.
     */
    constructor FromList(registry: PhonemeCreatorRegistry, sentences: seq<string>, numberOfResults: int)
      modifies registry
      ensures pc == registry.instance && pc.g2p == (if old(registry.instance) == null then registry.g2p else old(registry.instance).g2p)
      ensures phonemesGrammar == Containers(sentences, pc.g2p)
      ensures this.numberOfResults == numberOfResults
      ensures referenceRecognizer == -1 && name == "LevenshteinRecognizer"
    {
      var creator := registry.GetInstance();
      pc := creator;
      var grammar := creator.GetPhonemes(Some(sentences));
      phonemesGrammar := grammar.value;
      this.numberOfResults := numberOfResults;
      referenceRecognizer := -1;
      name := "LevenshteinRecognizer";
    }

    /**
     * `recognizeFromResult`: a fresh Result holding the grammar sentences of
     * the `numberOfResults` best candidates of the cross product of the
     * speech containers and the grammar; empty when `r`'s list is `null`.
     */
    method RecognizeFromResult(r: Result) returns (result: Result)
      ensures fresh(result)
      ensures r.resultList.None? ==> result.resultList == Some([])
      ensures r.resultList.Some? ==>
        result.resultList == Some(Recognize(Containers(r.resultList.value, pc.g2p), phonemesGrammar, numberOfResults))
      ensures result.confidence == 0.0 && result.hypPhoneme == None && result.refPhoneme == None
    {
      var phonemesSpeech := pc.GetPhonemesOf(r);
      if phonemesSpeech.Some? {
        result := RankedResult(phonemesSpeech.value, phonemesGrammar, numberOfResults);
      } else {
        result := new Result();
      }
    }

    /**
     * `calculateAgainstArray`: the containers of the input followed by the
     * array's strings; slot i - 1 receives the distance of container i to
     * container 0 (the input, when it has one). With no container at all, `get(0)` throws.
     */
    method CalculateAgainstArray(input: string, references: array<string>) returns (res: Outcome<array<real>>)
      ensures var cs := Containers([input] + references[..], pc.g2p);
        (res.Err? <==> cs == []) &&
        (res.Err? ==> res.failure == IndexOutOfBounds(0)) &&
        (res.Ok? ==> fresh(res.value) && |cs| <= references.Length + 1 && res.value[..] == Distances(cs, references.Length))
    {
      var r := ResultOf(input, references);
      var phonemesSpeech := pc.GetPhonemesOf(r);
      var cs := phonemesSpeech.value;
      if |cs| == 0 {
        return Err(IndexOutOfBounds(0));
      }
      var out := new real[references.Length](i => 0.0);
      var inputPhonemes := cs[0].phonemes;
      assert out[..] == DistancesUpTo(cs, references.Length, 1);
      var i := 1;
      while i < |cs|
        invariant 1 <= i <= |cs| <= references.Length + 1
        invariant out[..] == DistancesUpTo(cs, references.Length, i)
      {
        var diff := Lev(cs[i].phonemes, inputPhonemes);
        DistancesStep(cs, references.Length, i);
        out[i - 1] := diff as real;
        i := i + 1;
      }
      return Ok(out);
    }
  }
}
