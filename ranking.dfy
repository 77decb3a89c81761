/**
 * The ranking both sentence-list post-processors perform: the full cross
 * product of hypotheses and grammar entries, `Collections.sort` under
 * `LevenshteinResult.compareTo` (a stable sort by distance), the first k
 * entries of the sorted list, and the one-best scan of the second variant.
 * Everything here works on phoneme sequences.
 */
module Ranking {
  import opened Base
  import opened EditDistance
  import opened LevenshteinResults

  /** The distance the one-best scan starts from (`minDist = 10000`). */
  const InitialMinDist := 10000

  /** The candidates of one hypothesis, in grammar index order. */
  function Row(h: seq<string>, gram: seq<seq<string>>): (r: seq<LevenshteinResult>)
    ensures |r| == |gram|
    ensures forall j :: 0 <= j < |gram| ==> r[j] == LevenshteinResult(Lev(h, gram[j]), j)
  {
    seq(|gram|, j requires 0 <= j < |gram| => LevenshteinResult(Lev(h, gram[j]), j))
  }

  /** All candidates, hypothesis-major and then by grammar index. */
  function Cross(hyps: seq<seq<string>>, gram: seq<seq<string>>): seq<LevenshteinResult>
  {
    if hyps == [] then [] else Cross(hyps[..|hyps| - 1], gram) + Row(hyps[|hyps| - 1], gram)
  }

  /** The rows of the first i + 1 hypotheses are those of the first i, then row i. */
  lemma CrossSnoc(hyps: seq<seq<string>>, gram: seq<seq<string>>, i: int)
    requires 0 <= i < |hyps|
    ensures Cross(hyps[..i + 1], gram) == Cross(hyps[..i], gram) + Row(hyps[i], gram)
  {
    assert hyps[..i + 1][..i] == hyps[..i];
  }

  /** A pair (hypothesis, grammar entry) gives the candidate `x`. */
  ghost predicate IsCandidate(hyps: seq<seq<string>>, gram: seq<seq<string>>, x: LevenshteinResult)
  {
    exists i, j :: 0 <= i < |hyps| && 0 <= j < |gram| && x == LevenshteinResult(Lev(hyps[i], gram[j]), j)
  }

  /** The cross product has one entry per (hypothesis, grammar entry) pair. */
  lemma {:induction false} CrossLength(hyps: seq<seq<string>>, gram: seq<seq<string>>)
    ensures |Cross(hyps, gram)| == |hyps| * |gram|
    decreases |hyps|
  {
    if hyps != [] {
      var n := |hyps| - 1;
      CrossLength(hyps[..n], gram);
      assert (n + 1) * |gram| == n * |gram| + |gram|;
    }
  }

  /** `i * g + j` is row-major position of pair (i, j) in a table of width `g`. */
  lemma RowMajorBound(i: int, j: int, n: int, g: int)
    requires 0 <= i < n && 0 <= j < g
    ensures 0 <= i * g + j < n * g
  {
    assert i * g + j < i * g + g == (i + 1) * g;
    assert (i + 1) * g <= n * g;
  }

  /** Position `i * |gram| + j` holds the distance of hypothesis i to grammar entry j. */
  lemma {:induction false} CrossAt(hyps: seq<seq<string>>, gram: seq<seq<string>>, i: int, j: int)
    requires 0 <= i < |hyps| && 0 <= j < |gram|
    ensures |Cross(hyps, gram)| == |hyps| * |gram|
    ensures 0 <= i * |gram| + j < |hyps| * |gram|
    ensures Cross(hyps, gram)[i * |gram| + j] == LevenshteinResult(Lev(hyps[i], gram[j]), j)
    decreases |hyps|
  {
    CrossLength(hyps, gram);
    RowMajorBound(i, j, |hyps|, |gram|);
    var n := |hyps| - 1;
    CrossLength(hyps[..n], gram);
    if i < n {
      CrossAt(hyps[..n], gram, i, j);
    } else {
      assert i * |gram| + j == |Cross(hyps[..n], gram)| + j;
    }
  }

  /** Every position of the cross product is the row-major position of some pair. */
  lemma {:induction false} CrossPosition(hyps: seq<seq<string>>, gram: seq<seq<string>>, p: int)
    returns (i: int, j: int)
    requires 0 <= p < |Cross(hyps, gram)|
    ensures 0 <= i < |hyps| && 0 <= j < |gram| && p == i * |gram| + j
    ensures Cross(hyps, gram)[p] == LevenshteinResult(Lev(hyps[i], gram[j]), j)
    decreases |hyps|
  {
    var n := |hyps| - 1;
    var prefix := Cross(hyps[..n], gram);
    CrossLength(hyps[..n], gram);
    if p < |prefix| {
      i, j := CrossPosition(hyps[..n], gram, p);
      assert hyps[..n][i] == hyps[i];
    } else {
      i, j := n, p - |prefix|;
    }
  }

  /** The cross product holds exactly the candidates of the pairs. */
  lemma {:induction false} CrossMembers(hyps: seq<seq<string>>, gram: seq<seq<string>>, x: LevenshteinResult)
    ensures x in Cross(hyps, gram) <==> IsCandidate(hyps, gram, x)
    decreases |hyps|
  {
    if hyps != [] {
      var n := |hyps| - 1;
      CrossMembers(hyps[..n], gram, x);
      if x in Cross(hyps, gram) {
        if x in Row(hyps[n], gram) {
          var j :| 0 <= j < |gram| && Row(hyps[n], gram)[j] == x;
          assert x == LevenshteinResult(Lev(hyps[n], gram[j]), j);
        } else {
          var i, j :| 0 <= i < n && 0 <= j < |gram| && x == LevenshteinResult(Lev(hyps[..n][i], gram[j]), j);
          assert hyps[..n][i] == hyps[i];
        }
      }
      if IsCandidate(hyps, gram, x) {
        var i, j :| 0 <= i < |hyps| && 0 <= j < |gram| && x == LevenshteinResult(Lev(hyps[i], gram[j]), j);
        if i == n {
          assert Row(hyps[n], gram)[j] == x;
        } else {
          assert hyps[..n][i] == hyps[i];
        }
      }
    }
  }

  // ---------------------------------------------------------------------
  // Collections.sort under compareTo

  /** Non-decreasing distances. */
  predicate SortedByDistance(s: seq<LevenshteinResult>)
  {
    forall p, q :: 0 <= p < q < |s| ==> s[p].distance <= s[q].distance
  }

  /** The entries of distance `d`, in their order in `s`. */
  function WithDistance(s: seq<LevenshteinResult>, d: int): seq<LevenshteinResult>
  {
    if s == [] then []
    else (if s[0].distance == d then [s[0]] else []) + WithDistance(s[1..], d)
  }

  /** Puts `x` before the first entry that does not compare below it. */
  function Insert(x: LevenshteinResult, s: seq<LevenshteinResult>): (r: seq<LevenshteinResult>)
    ensures multiset(r) == multiset(s) + multiset{x}
  {
    if s == [] then [x]
    else if CompareTo(x, s[0]) <= 0 then [x] + s
    else
      assert s == [s[0]] + s[1..];
      [s[0]] + Insert(x, s[1..])
  }

  /**
   * `Collections.sort` with `compareTo`: an insertion sort that keeps entries
   * of equal distance in their original order, as the library's stable sort does.
   */
  function SortByDistance(s: seq<LevenshteinResult>): seq<LevenshteinResult>
  {
    if s == [] then [] else Insert(s[0], SortByDistance(s[1..]))
  }

  lemma {:induction false} InsertSorted(x: LevenshteinResult, s: seq<LevenshteinResult>)
    requires SortedByDistance(s)
    ensures SortedByDistance(Insert(x, s))
    decreases |s|
  {
    if s != [] && CompareTo(x, s[0]) > 0 {
      InsertSorted(x, s[1..]);
      var r := Insert(x, s[1..]);
      forall q | 0 <= q < |r| ensures s[0].distance <= r[q].distance {
        assert r[q] in multiset(r);
        assert r[q] == x || r[q] in s[1..];
      }
    }
  }

  lemma WithDistanceCons(y: LevenshteinResult, t: seq<LevenshteinResult>, d: int)
    ensures WithDistance([y] + t, d) == (if y.distance == d then [y] else []) + WithDistance(t, d)
  {
    assert ([y] + t)[1..] == t;
  }

  lemma {:induction false} InsertStable(x: LevenshteinResult, s: seq<LevenshteinResult>, d: int)
    ensures WithDistance(Insert(x, s), d) == WithDistance([x] + s, d)
    decreases |s|
  {
    if s != [] && CompareTo(x, s[0]) > 0 {
      var t := Insert(x, s[1..]);
      var rest := WithDistance(s[1..], d);
      assert Insert(x, s) == [s[0]] + t;
      assert s == [s[0]] + s[1..];
      WithDistanceCons(s[0], t, d);
      WithDistanceCons(s[0], s[1..], d);
      WithDistanceCons(x, s[1..], d);
      WithDistanceCons(x, s, d);
      InsertStable(x, s[1..], d);
      if x.distance == d {
        // s[0] is strictly closer, so only x counts on either side
        assert WithDistance(Insert(x, s), d) == WithDistance(t, d) == [x] + rest;
        assert WithDistance(s, d) == rest;
      } else {
        assert WithDistance([x] + s[1..], d) == rest;
        assert WithDistance([x] + s, d) == WithDistance(s, d);
      }
    }
  }

  /** The sorted list is in non-decreasing distance order. */
  lemma {:induction false} SortIsSorted(s: seq<LevenshteinResult>)
    ensures SortedByDistance(SortByDistance(s))
    decreases |s|
  {
    if s != [] {
      SortIsSorted(s[1..]);
      InsertSorted(s[0], SortByDistance(s[1..]));
    }
  }

  /** The sorted list is a permutation of its input. */
  lemma {:induction false} SortPermutes(s: seq<LevenshteinResult>)
    ensures multiset(SortByDistance(s)) == multiset(s)
    ensures |SortByDistance(s)| == |s|
    decreases |s|
  {
    if s != [] {
      SortPermutes(s[1..]);
      assert s == [s[0]] + s[1..];
      assert multiset(s) == multiset(s[1..]) + multiset{s[0]};
    }
    assert |multiset(SortByDistance(s))| == |SortByDistance(s)|;
  }

  /** Stability: the entries of any one distance keep their original order. */
  lemma {:induction false} SortIsStable(s: seq<LevenshteinResult>, d: int)
    ensures WithDistance(SortByDistance(s), d) == WithDistance(s, d)
    decreases |s|
  {
    if s != [] {
      SortIsStable(s[1..], d);
      InsertStable(s[0], SortByDistance(s[1..]), d);
      assert ([s[0]] + SortByDistance(s[1..]))[1..] == SortByDistance(s[1..]);
    }
  }

  /** The entries of distance `d` in a prefix are a prefix of those of the whole. */
  lemma {:induction false} WithDistancePrefix(s: seq<LevenshteinResult>, n: nat, d: int)
    requires n <= |s|
    ensures |WithDistance(s[..n], d)| <= |WithDistance(s, d)|
    ensures WithDistance(s[..n], d) == WithDistance(s, d)[..|WithDistance(s[..n], d)|]
    decreases n
  {
    if n > 0 {
      assert s[..n][0] == s[0] && s[..n][1..] == s[1..][..n - 1];
      WithDistancePrefix(s[1..], n - 1, d);
    }
  }

  /** When `s[p]` is the first entry of distance `d`, it heads `WithDistance(s, d)`. */
  lemma {:induction false} WithDistanceFirst(s: seq<LevenshteinResult>, p: int, d: int)
    requires 0 <= p < |s| && s[p].distance == d
    requires forall q :: 0 <= q < p ==> s[q].distance != d
    ensures |WithDistance(s, d)| > 0 && WithDistance(s, d)[0] == s[p]
    decreases p
  {
    if p > 0 {
      WithDistanceFirst(s[1..], p - 1, d);
    }
  }

  // ---------------------------------------------------------------------
  // top-k selection

  /** The first `k` entries, or all of them when there are fewer (none when k <= 0). */
  function TopK(s: seq<LevenshteinResult>, k: int): (r: seq<LevenshteinResult>)
    ensures |r| == Min(Max(k, 0), |s|)
    ensures r == s[..|r|]
  {
    var n := if k <= 0 then 0 else if k < |s| then k else |s|;
    s[..n]
  }

  /** The `k` best candidates: the cross product, sorted stably, cut to `k`. */
  function Rank(hyps: seq<seq<string>>, gram: seq<seq<string>>, k: int): seq<LevenshteinResult>
  {
    TopK(SortByDistance(Cross(hyps, gram)), k)
  }

  /** min(k, |hyps| * |gram|) entries are returned, none when k <= 0. */
  lemma RankLength(hyps: seq<seq<string>>, gram: seq<seq<string>>, k: int)
    ensures |Rank(hyps, gram, k)| == Min(Max(k, 0), |hyps| * |gram|)
    ensures k <= 0 ==> Rank(hyps, gram, k) == []
  {
    CrossLength(hyps, gram);
    SortPermutes(Cross(hyps, gram));
  }

  /** The returned entries are in non-decreasing distance order. */
  lemma RankOrdered(hyps: seq<seq<string>>, gram: seq<seq<string>>, k: int)
    ensures SortedByDistance(Rank(hyps, gram, k))
  {
    SortIsSorted(Cross(hyps, gram));
  }

  /**
   * Every returned entry names a grammar entry and carries that entry's
   * distance to one of the hypotheses.
   */
  lemma RankFromGrammar(hyps: seq<seq<string>>, gram: seq<seq<string>>, k: int)
    ensures forall p :: 0 <= p < |Rank(hyps, gram, k)| ==>
      0 <= Rank(hyps, gram, k)[p].index < |gram| && IsCandidate(hyps, gram, Rank(hyps, gram, k)[p])
  {
    var s := SortByDistance(Cross(hyps, gram));
    SortPermutes(Cross(hyps, gram));
    forall p | 0 <= p < |Rank(hyps, gram, k)|
      ensures 0 <= Rank(hyps, gram, k)[p].index < |gram| && IsCandidate(hyps, gram, Rank(hyps, gram, k)[p])
    {
      var x := s[p];
      assert x == Rank(hyps, gram, k)[p];
      assert x in multiset(s);
      CrossMembers(hyps, gram, x);
    }
  }

  /** Every entry names a position below `n`. */
  predicate IndicesIn(s: seq<LevenshteinResult>, n: int)
  {
    forall p :: 0 <= p < |s| ==> 0 <= s[p].index < n
  }

  /** The sorted cross product only names grammar entries. */
  lemma SortedCrossIndicesIn(hyps: seq<seq<string>>, gram: seq<seq<string>>)
    ensures IndicesIn(SortByDistance(Cross(hyps, gram)), |gram|)
  {
    var c := Cross(hyps, gram);
    var s := SortByDistance(c);
    SortPermutes(c);
    forall p | 0 <= p < |s| ensures 0 <= s[p].index < |gram| {
      assert s[p] in multiset(c);
      var q :| 0 <= q < |c| && c[q] == s[p];
      var i, j := CrossPosition(hyps, gram, q);
    }
  }

  /** Entries of one distance come out in the order they were computed. */
  lemma RankStable(hyps: seq<seq<string>>, gram: seq<seq<string>>, k: int, d: int)
    ensures var w := WithDistance(Rank(hyps, gram, k), d);
      |w| <= |WithDistance(Cross(hyps, gram), d)| && w == WithDistance(Cross(hyps, gram), d)[..|w|]
  {
    var s := SortByDistance(Cross(hyps, gram));
    WithDistancePrefix(s, |Rank(hyps, gram, k)|, d);
    SortIsStable(Cross(hyps, gram), d);
  }

  /** The first returned entry has the smallest distance over the whole cross product. */
  lemma RankHeadIsGlobalMin(hyps: seq<seq<string>>, gram: seq<seq<string>>, k: int)
    requires k >= 1 && |hyps| > 0 && |gram| > 0
    ensures |Rank(hyps, gram, k)| > 0
    ensures forall i, j :: 0 <= i < |hyps| && 0 <= j < |gram| ==>
      Rank(hyps, gram, k)[0].distance <= Lev(hyps[i], gram[j])
  {
    var c := Cross(hyps, gram);
    var s := SortByDistance(c);
    RankLength(hyps, gram, k);
    assert |hyps| * |gram| > 0;
    SortIsSorted(c);
    SortPermutes(c);
    forall i, j | 0 <= i < |hyps| && 0 <= j < |gram|
      ensures s[0].distance <= Lev(hyps[i], gram[j])
    {
      CrossAt(hyps, gram, i, j);
      var x := c[i * |gram| + j];
      assert x in multiset(s);
      var q :| 0 <= q < |s| && s[q] == x;
    }
  }

  // ---------------------------------------------------------------------
  // the one-best scan (second variant, numberOfResults == 1)

  /**
   * The pair (minDist, result) after the nested loop has visited the entries
   * of `s` in order, replacing it only on a strictly smaller distance.
   */
  function ScanMin(s: seq<LevenshteinResult>): (int, int)
  {
    if s == [] then (InitialMinDist, -1)
    else
      var (m, r) := ScanMin(s[..|s| - 1]);
      var e := s[|s| - 1];
      if e.distance < m then (e.distance, e.index) else (m, r)
  }

  /** One more visited entry replaces the pair only on a strictly smaller distance. */
  lemma ScanMinSnoc(s: seq<LevenshteinResult>, e: LevenshteinResult)
    ensures ScanMin(s + [e]) == if e.distance < ScanMin(s).0 then (e.distance, e.index) else ScanMin(s)
  {
    assert (s + [e])[..|s|] == s;
  }

  /** One more entry of a row visited by the scan, behind the rows already done. */
  lemma ScanMinStep(done: seq<LevenshteinResult>, row: seq<LevenshteinResult>, j: int)
    requires 0 <= j < |row|
    ensures var before := ScanMin(done + row[..j]);
      ScanMin(done + row[..j + 1]) == if row[j].distance < before.0 then (row[j].distance, row[j].index) else before
  {
    AppendPrefixSnoc(done, row, j);
    ScanMinSnoc(done + row[..j], row[j]);
  }

  /** `s[p]` has the smallest distance and nothing before it does. */
  predicate IsFirstMin(s: seq<LevenshteinResult>, p: int)
  {
    0 <= p < |s| &&
    (forall q :: 0 <= q < |s| ==> s[p].distance <= s[q].distance) &&
    (forall q :: 0 <= q < p ==> s[p].distance < s[q].distance)
  }

  /**
   * The scan keeps the first entry of smallest distance, unless no distance
   * is below the starting value, in which case it keeps (10000, -1).
   */
  lemma {:induction false} ScanMinFindsFirstMin(s: seq<LevenshteinResult>) returns (p: int)
    ensures p == -1 <==> forall q :: 0 <= q < |s| ==> s[q].distance >= InitialMinDist
    ensures p == -1 ==> ScanMin(s) == (InitialMinDist, -1)
    ensures p != -1 ==> IsFirstMin(s, p) && ScanMin(s) == (s[p].distance, s[p].index)
    decreases |s|
  {
    if s == [] {
      return -1;
    }
    var n := |s| - 1;
    var t := s[..n];
    var p' := ScanMinFindsFirstMin(t);
    var e := s[n];
    assert forall q :: 0 <= q < n ==> s[q] == t[q];
    if e.distance < ScanMin(t).0 {
      p := n;
    } else {
      p := p';
    }
  }

  /** The head of the stably sorted list is the first entry of smallest distance. */
  lemma SortedHeadIsFirstMin(s: seq<LevenshteinResult>, p: int)
    requires IsFirstMin(s, p)
    ensures |SortByDistance(s)| == |s| && SortByDistance(s)[0] == s[p]
  {
    var sorted := SortByDistance(s);
    var d := s[p].distance;
    SortPermutes(s);
    SortIsSorted(s);
    SortIsStable(s, d);
    assert sorted[0] in multiset(s);
    var q0 :| 0 <= q0 < |s| && s[q0] == sorted[0];
    assert s[p] in multiset(sorted);
    var q1 :| 0 <= q1 < |sorted| && sorted[q1] == s[p];
    assert sorted[0].distance == d;
    WithDistanceFirst(sorted, 0, d);
    WithDistanceFirst(s, p, d);
  }

  /**
   * The scan and the stable sort pick the same entry: when the scan found a
   * distance below 10000, the sorted list starts with exactly what it kept.
   */
  lemma ScanMinIsSortedHead(s: seq<LevenshteinResult>)
    requires forall q :: 0 <= q < |s| ==> s[q].index >= 0
    ensures ScanMin(s).1 == -1 <==> forall q :: 0 <= q < |s| ==> s[q].distance >= InitialMinDist
    ensures ScanMin(s).1 != -1 ==>
      |SortByDistance(s)| > 0 && SortByDistance(s)[0] == LevenshteinResult(ScanMin(s).0, ScanMin(s).1)
  {
    var p := ScanMinFindsFirstMin(s);
    if p != -1 {
      SortedHeadIsFirstMin(s, p);
    }
  }

  /**
   * The one-best scan of the second variant agrees with the first variant's
   * sort: when some distance is below 10000, its (minDist, result) is the
   * single entry of `Rank(hyps, gram, 1)`; when none is (an empty grammar,
   * no hypotheses, or only far candidates) it keeps result -1.
   */
  lemma FastPathIsSortedHead(hyps: seq<seq<string>>, gram: seq<seq<string>>)
    ensures var s := Cross(hyps, gram);
      ScanMin(s).1 == -1 <==> forall q :: 0 <= q < |s| ==> s[q].distance >= InitialMinDist
    ensures var (m, w) := ScanMin(Cross(hyps, gram));
      w != -1 ==> Rank(hyps, gram, 1) == [LevenshteinResult(m, w)]
  {
    var s := Cross(hyps, gram);
    forall q | 0 <= q < |s| ensures s[q].index >= 0 {
      var i, j := CrossPosition(hyps, gram, q);
    }
    ScanMinIsSortedHead(s);
    var sorted := SortByDistance(s);
    if ScanMin(s).1 != -1 {
      assert TopK(sorted, 1) == sorted[..1] == [sorted[0]];
    }
  }

  /** Pair (i', j') comes before pair (i, j) in row-major order. */
  predicate Before(i': int, j': int, i: int, j: int)
  {
    i' < i || (i' == i && j' < j)
  }

  lemma RowMajorBefore(i': int, j': int, i: int, j: int, g: int)
    requires 0 <= i' && 0 <= j' < g && 0 <= i && 0 <= j < g && Before(i', j', i, j)
    ensures i' * g + j' < i * g + j
  {
    if i' < i {
      assert i' * g + j' < (i' + 1) * g;
      assert (i' + 1) * g <= i * g;
    }
  }

  /**
   * The one-best scan picks the grammar index j of the first pair (i, j),
   * in row-major order, whose distance is the global minimum; the lemma
   * returns that hypothesis index i.
   */
  lemma FastPathWinner(hyps: seq<seq<string>>, gram: seq<seq<string>>) returns (i: int)
    requires ScanMin(Cross(hyps, gram)).1 != -1
    ensures var m, w := ScanMin(Cross(hyps, gram)).0, ScanMin(Cross(hyps, gram)).1;
      0 <= i < |hyps| && 0 <= w < |gram| && m == Lev(hyps[i], gram[w]) &&
      (forall i', j' :: 0 <= i' < |hyps| && 0 <= j' < |gram| ==> m <= Lev(hyps[i'], gram[j'])) &&
      (forall i', j' :: 0 <= i' < |hyps| && 0 <= j' < |gram| && Before(i', j', i, w) ==> m < Lev(hyps[i'], gram[j']))
  {
    var s := Cross(hyps, gram);
    var p := ScanMinFindsFirstMin(s);
    var j;
    i, j := CrossPosition(hyps, gram, p);
    assert s[p] == LevenshteinResult(ScanMin(s).0, ScanMin(s).1);
    FirstMinOverPairs(hyps, gram, p, i, j);
  }

  /** One pair (i', j') measured against the first minimum at pair (i, j). */
  lemma FirstMinAtPair(hyps: seq<seq<string>>, gram: seq<seq<string>>, p: int, i: int, j: int, i': int, j': int)
    requires IsFirstMin(Cross(hyps, gram), p)
    requires 0 <= i < |hyps| && 0 <= j < |gram| && p == i * |gram| + j
    requires 0 <= i' < |hyps| && 0 <= j' < |gram|
    ensures Cross(hyps, gram)[p].distance <= Lev(hyps[i'], gram[j'])
    ensures Before(i', j', i, j) ==> Cross(hyps, gram)[p].distance < Lev(hyps[i'], gram[j'])
  {
    var s := Cross(hyps, gram);
    CrossAt(hyps, gram, i', j');
    var q := i' * |gram| + j';
    assert s[q].distance == Lev(hyps[i'], gram[j']);
    if Before(i', j', i, j) {
      RowMajorBefore(i', j', i, j, |gram|);
    }
  }

  lemma FirstMinOverPairs(hyps: seq<seq<string>>, gram: seq<seq<string>>, p: int, i: int, j: int)
    requires IsFirstMin(Cross(hyps, gram), p)
    requires 0 <= i < |hyps| && 0 <= j < |gram| && p == i * |gram| + j
    ensures forall i', j' :: 0 <= i' < |hyps| && 0 <= j' < |gram| ==>
      Cross(hyps, gram)[p].distance <= Lev(hyps[i'], gram[j'])
    ensures forall i', j' :: 0 <= i' < |hyps| && 0 <= j' < |gram| && Before(i', j', i, j) ==>
      Cross(hyps, gram)[p].distance < Lev(hyps[i'], gram[j'])
  {
    forall i', j' | 0 <= i' < |hyps| && 0 <= j' < |gram|
      ensures Cross(hyps, gram)[p].distance <= Lev(hyps[i'], gram[j'])
    {
      FirstMinAtPair(hyps, gram, p, i, j, i', j');
    }
    forall i', j' | 0 <= i' < |hyps| && 0 <= j' < |gram| && Before(i', j', i, j)
      ensures Cross(hyps, gram)[p].distance < Lev(hyps[i'], gram[j'])
    {
      FirstMinAtPair(hyps, gram, p, i, j, i', j');
    }
  }
}
