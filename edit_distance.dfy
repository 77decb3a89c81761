/**
 * Token-level edit distance between phoneme sequences: the number of
 * single-phoneme insertions, deletions and substitutions (each of cost one)
 * that turn one sequence into the other. The source calls it through
 * `Levenshtein.diff`; this module gives the definition it relies on.
 */
module EditDistance {

  function Min3(a: nat, b: nat, c: nat): nat
  {
    if a <= b && a <= c then a else if b <= c then b else c
  }

  /** The classic recursive definition, one phoneme at a time from the front. */
  function Lev(a: seq<string>, b: seq<string>): nat
    decreases |a| + |b|
  {
    if |a| == 0 then |b|
    else if |b| == 0 then |a|
    else Min3(Lev(a[1..], b) + 1,
              Lev(a, b[1..]) + 1,
              Lev(a[1..], b[1..]) + (if a[0] == b[0] then 0 else 1))
  }

  /** A sequence is at distance zero from itself. */
  lemma {:induction false} LevSelf(a: seq<string>)
    ensures Lev(a, a) == 0
    decreases |a|
  {
    if |a| > 0 {
      LevSelf(a[1..]);
    }
  }

  /** Distance zero means equal sequences, and only then. */
  lemma {:induction false} LevZeroIff(a: seq<string>, b: seq<string>)
    ensures Lev(a, b) == 0 <==> a == b
    decreases |a| + |b|
  {
    if a == b {
      LevSelf(a);
    } else if |a| > 0 && |b| > 0 {
      LevZeroIff(a[1..], b[1..]);
      if a[0] == b[0] {
        assert a == [a[0]] + a[1..] && b == [b[0]] + b[1..];
      }
    }
  }

  /** Inserting, deleting and substituting cost the same in both directions. */
  lemma {:induction false} LevSymmetric(a: seq<string>, b: seq<string>)
    ensures Lev(a, b) == Lev(b, a)
    decreases |a| + |b|
  {
    if |a| > 0 && |b| > 0 {
      LevSymmetric(a[1..], b);
      LevSymmetric(a, b[1..]);
      LevSymmetric(a[1..], b[1..]);
    }
  }

  /** Substituting along the shorter sequence and inserting the rest suffices. */
  lemma {:induction false} LevAtMostLonger(a: seq<string>, b: seq<string>)
    ensures Lev(a, b) <= if |a| >= |b| then |a| else |b|
    decreases |a| + |b|
  {
    if |a| > 0 && |b| > 0 {
      LevAtMostLonger(a[1..], b[1..]);
    }
  }

  /** Every phoneme by which the lengths differ costs at least one edit. */
  lemma {:induction false} LevAtLeastLengthGap(a: seq<string>, b: seq<string>)
    ensures |a| - |b| <= Lev(a, b) && |b| - |a| <= Lev(a, b)
    decreases |a| + |b|
  {
    if |a| > 0 && |b| > 0 {
      LevAtLeastLengthGap(a[1..], b);
      LevAtLeastLengthGap(a, b[1..]);
      LevAtLeastLengthGap(a[1..], b[1..]);
    }
  }
}
