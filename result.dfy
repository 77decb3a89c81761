/**
 * `data/Result.java`: a speech-recognition result holding an n-best list of
 * strings, a confidence and the phoneme strings of hypothesis and reference.
 * The list is a Java reference, so it may be `null` after `setResultList(null)`.
 */
module Results {
  import opened Base

  class Result {
    /** The n-best list; `None` stands for a `null` list. */
    var resultList: Option<seq<string>>
    var confidence: real
    var hypPhoneme: Option<string>
    var refPhoneme: Option<string>

    /** A new result holds an empty list, confidence 0 and no phoneme strings. */
    constructor ()
      ensures resultList == Some([])
      ensures confidence == 0.0 && hypPhoneme == None && refPhoneme == None
    {
      resultList := Some([]);
      confidence := 0.0;
      hypPhoneme := None;
      refPhoneme := None;
    }

    /** `getHypPhoneme`. */
    function GetHypPhoneme(): Option<string>
      reads this
    {
      hypPhoneme
    }

    /** `setHypPhoneme`: stores the value and touches nothing else. */
    method SetHypPhoneme(hypPhoneme: Option<string>)
      modifies this
      ensures this.hypPhoneme == hypPhoneme && GetHypPhoneme() == hypPhoneme
      ensures resultList == old(resultList) && confidence == old(confidence) && refPhoneme == old(refPhoneme)
    {
      this.hypPhoneme := hypPhoneme;
    }

    /** `getRefPhoneme`. */
    function GetRefPhoneme(): Option<string>
      reads this
    {
      refPhoneme
    }

    /** `setRefPhoneme`: stores the value and touches nothing else. */
    method SetRefPhoneme(refPhoneme: Option<string>)
      modifies this
      ensures this.refPhoneme == refPhoneme && GetRefPhoneme() == refPhoneme
      ensures resultList == old(resultList) && confidence == old(confidence) && hypPhoneme == old(hypPhoneme)
    {
      this.refPhoneme := refPhoneme;
    }

    /** `getResultList`. */
    function GetResultList(): Option<seq<string>>
      reads this
    {
      resultList
    }

    /** `setResultList`: replaces the whole list, which `getResultList` then returns. */
    method SetResultList(resultList: Option<seq<string>>)
      modifies this
      ensures this.resultList == resultList && GetResultList() == resultList
      ensures confidence == old(confidence) && hypPhoneme == old(hypPhoneme) && refPhoneme == old(refPhoneme)
    {
      this.resultList := resultList;
    }

    /**
     * `addResult`: appends `s` at the end; earlier entries and the other
     * fields stay as they were. On a `null` list (after
     * `setResultList(null)`) the call throws a NullPointerException and
     * changes nothing.
     */
    method AddResult(s: string) returns (out: Outcome<()>)
      modifies this
      ensures old(resultList).None? ==> out == Err(NullPointer) && resultList == None
      ensures old(resultList).Some? ==> out == Ok(()) && resultList == Some(old(resultList).value + [s])
      ensures confidence == old(confidence) && hypPhoneme == old(hypPhoneme) && refPhoneme == old(refPhoneme)
    {
      if resultList.None? {
        return Err(NullPointer);
      }
      resultList := Some(resultList.value + [s]);
      return Ok(());
    }

    /**
     * `getBestResult`: the first entry; `get(0)` throws on an empty list and
     * a `null` list throws before that.
     */
    function GetBestResult(): (r: Outcome<string>)
      reads this
      ensures resultList.None? ==> r == Err(NullPointer)
      ensures resultList == Some([]) ==> r == Err(IndexOutOfBounds(0))
      ensures r.Ok? <==> resultList.Some? && |resultList.value| > 0
      ensures r.Ok? ==> r.value == resultList.value[0]
    {
      match resultList
      case None => Err(NullPointer)
      case Some(list) => if |list| == 0 then Err(IndexOutOfBounds(0)) else Ok(list[0])
    }

    /** `setConfidence`: stores the value and touches nothing else. */
    method SetConfidence(f: real)
      modifies this
      ensures confidence == f
      ensures resultList == old(resultList) && hypPhoneme == old(hypPhoneme) && refPhoneme == old(refPhoneme)
    {
      confidence := f;
    }

    /**
     * `getResult`: a fresh array with the entries of the list, in order
     * (a `null` list throws a NullPointerException).
     */
    method GetResult() returns (r: Outcome<array<string>>)
      ensures resultList.None? <==> r.Err?
      ensures r.Err? ==> r.failure == NullPointer
      ensures r.Ok? ==> fresh(r.value) && r.value[..] == resultList.value
    {
      if resultList.None? {
        return Err(NullPointer);
      }
      var list := resultList.value;
      var a := new string[|list|](i requires 0 <= i < |list| => list[i]);
      return Ok(a);
    }
  }
}
