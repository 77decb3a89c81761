/**
 * What both sentence-list post-processors compute, stated on phoneme
 * containers: the grammar strings of the k best candidates, and the
 * distances `calculateAgainstArray` fills in.
 */
module Matching {
  import opened Base
  import opened EditDistance
  import opened LevenshteinResults
  import opened Ranking
  import opened Normalizer
  import opened Results

  /** The phoneme sequences of the containers, in order. */
  function Phon(cs: seq<PhonemeContainer>): (r: seq<seq<string>>)
    ensures |r| == |cs|
    ensures forall i :: 0 <= i < |cs| ==> r[i] == cs[i].phonemes
  {
    seq(|cs|, i requires 0 <= i < |cs| => cs[i].phonemes)
  }

  /**
   * `phonemesGrammar.get(lr.getIndex()).getResult()` for each candidate, in
   * order. Candidates of the cross product always name a grammar entry; any
   * other index would make `get` throw, and yields "" here.
   */
  function Names(top: seq<LevenshteinResult>, grammar: seq<PhonemeContainer>): (r: seq<string>)
    ensures |r| == |top|
    ensures forall p :: 0 <= p < |top| && 0 <= top[p].index < |grammar| ==> r[p] == grammar[top[p].index].GetResult()
  {
    seq(|top|, p requires 0 <= p < |top| =>
      if 0 <= top[p].index < |grammar| then grammar[top[p].index].GetResult() else "")
  }

  /** One more candidate adds the text of its grammar entry. */
  lemma NamesSnoc(top: seq<LevenshteinResult>, grammar: seq<PhonemeContainer>, n: int)
    requires 0 <= n < |top| && 0 <= top[n].index < |grammar|
    ensures Names(top[..n + 1], grammar) == Names(top[..n], grammar) + [grammar[top[n].index].GetResult()]
  {
  }

  /**
   * The strings `recognizeFromResult` returns for the speech containers:
   * the grammar entries of the first k candidates of the stably sorted
   * cross product.
   */
  function Recognize(speech: seq<PhonemeContainer>, grammar: seq<PhonemeContainer>, k: int): seq<string>
  {
    Names(Rank(Phon(speech), Phon(grammar), k), grammar)
  }

  /** min(k, |speech| * |grammar|) strings, none when k <= 0. */
  lemma RecognizeLength(speech: seq<PhonemeContainer>, grammar: seq<PhonemeContainer>, k: int)
    ensures |Recognize(speech, grammar, k)| == Min(Max(k, 0), |speech| * |grammar|)
  {
    RankLength(Phon(speech), Phon(grammar), k);
  }

  /**
   * Each returned string is the text of a grammar entry, at a distance
   * from some hypothesis no larger than that of any later string.
   */
  lemma RecognizeFromGrammar(speech: seq<PhonemeContainer>, grammar: seq<PhonemeContainer>, k: int, p: int)
    returns (i: int, j: int)
    requires 0 <= p < |Recognize(speech, grammar, k)|
    ensures 0 <= i < |speech| && 0 <= j < |grammar|
    ensures Recognize(speech, grammar, k)[p] == grammar[j].GetResult()
    ensures Rank(Phon(speech), Phon(grammar), k)[p] == LevenshteinResult(Lev(speech[i].phonemes, grammar[j].phonemes), j)
  {
    var top := Rank(Phon(speech), Phon(grammar), k);
    RankFromGrammar(Phon(speech), Phon(grammar), k);
    assert IsCandidate(Phon(speech), Phon(grammar), top[p]);
    i, j :| 0 <= i < |speech| && 0 <= j < |grammar| &&
      top[p] == LevenshteinResult(Lev(Phon(speech)[i], Phon(grammar)[j]), j);
  }

  /**
   * The first returned string belongs to a grammar entry whose distance to
   * some hypothesis is the smallest over all (hypothesis, entry) pairs.
   */
  lemma RecognizeBestFirst(speech: seq<PhonemeContainer>, grammar: seq<PhonemeContainer>, k: int)
    returns (i: int, j: int)
    requires k >= 1 && |speech| > 0 && |grammar| > 0
    ensures |Recognize(speech, grammar, k)| > 0
    ensures 0 <= i < |speech| && 0 <= j < |grammar|
    ensures Recognize(speech, grammar, k)[0] == grammar[j].GetResult()
    ensures forall i', j' :: 0 <= i' < |speech| && 0 <= j' < |grammar| ==>
      Lev(speech[i].phonemes, grammar[j].phonemes) <= Lev(speech[i'].phonemes, grammar[j'].phonemes)
  {
    RankHeadIsGlobalMin(Phon(speech), Phon(grammar), k);
    RecognizeLength(speech, grammar, k);
    i, j := RecognizeFromGrammar(speech, grammar, k, 0);
  }

  /**
   * The one-best scan of the second variant names the same grammar entry as
   * the first variant with k = 1, whenever it finds a distance below 10000;
   * it keeps -1 exactly when no distance is below 10000.
   */
  lemma OneBestAgreesWithRank(speech: seq<PhonemeContainer>, grammar: seq<PhonemeContainer>)
    ensures var s := Cross(Phon(speech), Phon(grammar));
      ScanMin(s).1 == -1 <==> forall q :: 0 <= q < |s| ==> s[q].distance >= InitialMinDist
    ensures var w := ScanMin(Cross(Phon(speech), Phon(grammar))).1;
      w != -1 ==> 0 <= w < |grammar| && Recognize(speech, grammar, 1) == [grammar[w].GetResult()]
  {
    FastPathIsSortedHead(Phon(speech), Phon(grammar));
    var w := ScanMin(Cross(Phon(speech), Phon(grammar))).1;
    if w != -1 {
      RankFromGrammar(Phon(speech), Phon(grammar), 1);
      assert Rank(Phon(speech), Phon(grammar), 1)[0].index == w;
    }
  }

  /**
   * With a grammar of one sentence, every returned string is that sentence,
   * once per hypothesis up to k.
   */
  lemma SingleSentenceGrammar(speech: seq<PhonemeContainer>, grammar: seq<PhonemeContainer>, k: int)
    requires |grammar| == 1
    ensures |Recognize(speech, grammar, k)| == Min(Max(k, 0), |speech|)
    ensures forall p :: 0 <= p < |Recognize(speech, grammar, k)| ==> Recognize(speech, grammar, k)[p] == grammar[0].GetResult()
  {
    RecognizeLength(speech, grammar, k);
    forall p | 0 <= p < |Recognize(speech, grammar, k)|
      ensures Recognize(speech, grammar, k)[p] == grammar[0].GetResult()
    {
      var i, j := RecognizeFromGrammar(speech, grammar, k, p);
    }
  }

  /**
   * Matching "I'm gone" against the one sentence "I'm done" gives "im done":
   * the special character is gone from the returned sentence.
   */
  lemma SpecialCharactersExample(g2p: G2P)
    ensures Recognize(Containers(["I'm gone"], g2p), Containers(["I'm done"], g2p), 1) == ["im done"]
  {
    ImDone(g2p);
    ContainersOfOne("I'm done", g2p);
    ImGoneKept(g2p);
    ContainersOfOne("I'm gone", g2p);
    SingleSentenceGrammar(Containers(["I'm gone"], g2p), Containers(["I'm done"], g2p), 1);
  }

  /** "I'm gone" does not normalise to "". */
  lemma ImGoneKept(g2p: G2P)
    ensures Entry("I'm gone", g2p).Some?
  {
    assert StripSpecial("I'm gone") != "";
  }

  /**
   * The nested loops of `recognizeFromResult` that fill `resultList`: for
   * each speech container, in order, one candidate per grammar entry.
   */
  method CandidateList(speech: seq<PhonemeContainer>, grammar: seq<PhonemeContainer>)
    returns (resultList: seq<LevenshteinResult>)
    ensures resultList == Cross(Phon(speech), Phon(grammar))
  {
    var hyps, gram := Phon(speech), Phon(grammar);
    resultList := [];
    for s := 0 to |speech|
      invariant resultList == Cross(hyps[..s], gram)
    {
      assert hyps[..s + 1][..s] == hyps[..s];
      for i := 0 to |grammar|
        invariant resultList == Cross(hyps[..s], gram) + Row(hyps[s], gram)[..i]
      {
        var diff := Lev(speech[s].phonemes, grammar[i].phonemes);
        resultList := resultList + [LevenshteinResult(diff, i)];
        assert Row(hyps[s], gram)[..i + 1] == Row(hyps[s], gram)[..i] + [Row(hyps[s], gram)[i]];
      }
      assert Row(hyps[s], gram)[..|grammar|] == Row(hyps[s], gram);
    }
    assert hyps[..|speech|] == hyps;
  }

  /**
   * The ranking part of `recognizeFromResult`, the same in both variants: the
   * cross product, `Collections.sort`, then a fresh Result receiving the
   * grammar sentences of the first k candidates.
   */
  method RankedResult(speech: seq<PhonemeContainer>, grammar: seq<PhonemeContainer>, k: int)
    returns (result: Result)
    ensures fresh(result)
    ensures result.resultList == Some(Recognize(speech, grammar, k))
    ensures result.confidence == 0.0 && result.hypPhoneme == None && result.refPhoneme == None
  {
    var hyps, gram := Phon(speech), Phon(grammar);
    result := new Result();
    var resultList := CandidateList(speech, grammar);
    resultList := SortByDistance(resultList);
    SortedCrossIndicesIn(hyps, gram);
    var i := 0;
    while i < k && i < |resultList|
      invariant 0 <= i <= |resultList| && i <= Max(k, 0)
      invariant result.resultList == Some(Names(resultList[..i], grammar))
      invariant result.confidence == 0.0 && result.hypPhoneme == None && result.refPhoneme == None
    {
      var lr := resultList[i];
      var entry := grammar[lr.GetIndex()];
      var _ := result.AddResult(entry.GetResult());
      NamesSnoc(resultList, grammar, i);
      i := i + 1;
    }
    assert resultList[..i] == Rank(hyps, gram, k);
  }

  /**
   * The first loop of `calculateAgainstArray`: a fresh Result listing the
   * input and then the array's strings.
   */
  method ResultOf(input: string, references: array<string>) returns (r: Result)
    ensures fresh(r)
    ensures r.resultList == Some([input] + references[..])
  {
    r := new Result();
    var _ := r.AddResult(input);
    assert [input] + references[..0] == [] + [input];
    for k := 0 to references.Length
      invariant r.resultList.Some? && r.resultList.value == [input] + references[..k]
    {
      var _ := r.AddResult(references[k]);
      assert [input] + references[..k + 1] == [input] + references[..k] + [references[k]];
    }
    assert references[..references.Length] == references[..];
  }

  /**
   * The slots `calculateAgainstArray` has filled once containers 1 to
   * i - 1 are done: slot q - 1 holds the distance of container q to
   * container 0, every other slot is still 0.
   */
  function DistancesUpTo(cs: seq<PhonemeContainer>, n: nat, i: int): (r: seq<real>)
    requires 0 < |cs|
    ensures |r| == n
    ensures forall q :: 0 <= q < n ==>
      r[q] == (if q + 1 < i && q + 1 < |cs| then Lev(cs[q + 1].phonemes, cs[0].phonemes) as real else 0.0)
  {
    seq(n, q requires 0 <= q < n => if q + 1 < i && q + 1 < |cs| then Lev(cs[q + 1].phonemes, cs[0].phonemes) as real else 0.0)
  }

  /**
   * The slots after the whole loop of `calculateAgainstArray`: slot q holds
   * the distance of container q + 1 to container 0, and the slots beyond
   * the last container stay 0.
   */
  function Distances(cs: seq<PhonemeContainer>, n: nat): (r: seq<real>)
    requires 0 < |cs| <= n + 1
    ensures |r| == n
    ensures forall q :: 0 <= q < n ==>
      r[q] == (if q + 1 < |cs| then Lev(cs[q + 1].phonemes, cs[0].phonemes) as real else 0.0)
  {
    DistancesUpTo(cs, n, |cs|)
  }

  /** One more step of the loop fills slot i - 1. */
  lemma DistancesStep(cs: seq<PhonemeContainer>, n: nat, i: int)
    requires 1 <= i < |cs| <= n + 1
    ensures DistancesUpTo(cs, n, i + 1) == DistancesUpTo(cs, n, i)[i - 1 := Lev(cs[i].phonemes, cs[0].phonemes) as real]
  {
  }

  /**
   * When every string of the array yields a container, slot i holds the
   * distance of string i to the input, each slot lies between the length
   * gap and the longer length, and an entry equal in phonemes to the input
   * gets 0.
   */
  lemma DistancesAligned(cs: seq<PhonemeContainer>, n: nat, i: int)
    requires |cs| == n + 1 && 0 <= i < n
    ensures Distances(cs, n)[i] == Lev(cs[i + 1].phonemes, cs[0].phonemes) as real
    ensures Distances(cs, n)[i] == 0.0 <==> cs[i + 1].phonemes == cs[0].phonemes
    ensures Distances(cs, n)[i] <= (if |cs[i + 1].phonemes| >= |cs[0].phonemes| then |cs[i + 1].phonemes| else |cs[0].phonemes|) as real
    ensures (|cs[i + 1].phonemes| - |cs[0].phonemes|) as real <= Distances(cs, n)[i]
  {
    LevZeroIff(cs[i + 1].phonemes, cs[0].phonemes);
    LevAtMostLonger(cs[i + 1].phonemes, cs[0].phonemes);
    LevAtLeastLengthGap(cs[i + 1].phonemes, cs[0].phonemes);
  }
}
