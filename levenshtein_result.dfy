/**
 * `data/LevenshteinResult.java`: the (distance, grammar index) pair that the
 * ranking sorts, and its `compareTo`, which looks at the distance only.
 */
module LevenshteinResults {

  /** A distance and the index of the grammar entry it was measured against. */
  datatype LevenshteinResult = LevenshteinResult(distance: int, index: int)
  {
    /** `getDistance`. */
    function GetDistance(): int { distance }

    /** `getIndex`. */
    function GetIndex(): int { index }
  }

  /**
   * `compareTo`: -1, 0 or 1 as this distance is smaller than, equal to or
   * larger than the other one; the indices play no part.
   */
  function CompareTo(a: LevenshteinResult, b: LevenshteinResult): (r: int)
    ensures r == -1 <==> a.distance < b.distance
    ensures r == 0 <==> a.distance == b.distance
    ensures r == 1 <==> a.distance > b.distance
  {
    if a.distance < b.distance then -1
    else if a.distance == b.distance then 0
    else 1
  }

  /** The getters hand back what the constructor was given. */
  lemma GettersReturnArguments(distance: int, index: int)
    ensures LevenshteinResult(distance, index).GetDistance() == distance
    ensures LevenshteinResult(distance, index).GetIndex() == index
  {
  }

  /** Results of equal distance compare equal whatever their indices. */
  lemma CompareIgnoresIndex(a: LevenshteinResult, b: LevenshteinResult, i: int, j: int)
    ensures CompareTo(a.(index := i), b.(index := j)) == CompareTo(a, b)
    ensures a.distance == b.distance ==> CompareTo(a, b) == 0
  {
  }

  /** Swapping the arguments flips the sign. */
  lemma CompareAntisymmetric(a: LevenshteinResult, b: LevenshteinResult)
    ensures CompareTo(a, b) == -CompareTo(b, a)
  {
  }

  /** `compareTo` is a total preorder: total and transitive. */
  lemma CompareTotalPreorder(a: LevenshteinResult, b: LevenshteinResult, c: LevenshteinResult)
    ensures CompareTo(a, b) <= 0 || CompareTo(b, a) <= 0
    ensures CompareTo(a, b) <= 0 && CompareTo(b, c) <= 0 ==> CompareTo(a, c) <= 0
    ensures CompareTo(a, b) < 0 && CompareTo(b, c) <= 0 ==> CompareTo(a, c) < 0
    ensures CompareTo(a, b) == 0 && CompareTo(b, c) == 0 ==> CompareTo(a, c) == 0
  {
  }
}
