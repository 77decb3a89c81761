/** Shared wrappers: the Java `null` reference and the exceptions the core can throw. */
module Base {

  /** A Java reference that may be `null` (`None`). */
  datatype Option<+T> = None | Some(value: T)

  /** The runtime exceptions the modelled code can raise. */
  datatype Failure =
    | NullPointer                 // a method called on a null reference
    | IndexOutOfBounds(index: int) // `List.get` / array access outside the list
    | NullString                  // a `null` String stored where a value was expected

  /** The outcome of a call that may throw. */
  datatype Outcome<+T> = Ok(value: T) | Err(failure: Failure)

  function Min(a: int, b: int): int { if a <= b then a else b }
  function Max(a: int, b: int): int { if a >= b then a else b }

  /** The values present in `xs`, in order: keep the `Some` entries, then unwrap them. */
  function Somes<T>(xs: seq<Option<T>>): (r: seq<T>)
    ensures |r| <= |xs|
  {
    if xs == [] then []
    else
      var n := |xs| - 1;
      Somes(xs[..n]) + (if xs[n].Some? then [xs[n].value] else [])
  }

  /** Appending one entry appends its value, if it has one. */
  lemma SomesSnoc<T>(xs: seq<Option<T>>, x: Option<T>)
    ensures Somes(xs + [x]) == Somes(xs) + (if x.Some? then [x.value] else [])
  {
    assert (xs + [x])[..|xs|] == xs;
  }

  /**
   * The values come from increasing positions of `xs`, and every position
   * left out holds `None`.
   */
  lemma {:induction false} SomesInOrder<T>(xs: seq<Option<T>>) returns (idx: seq<int>)
    ensures |idx| == |Somes(xs)|
    ensures forall k :: 0 <= k < |idx| ==> 0 <= idx[k] < |xs| && xs[idx[k]] == Some(Somes(xs)[k])
    ensures forall k, l :: 0 <= k < l < |idx| ==> idx[k] < idx[l]
    ensures forall i :: 0 <= i < |xs| && i !in idx ==> xs[i].None?
    decreases |xs|
  {
    if xs == [] {
      return [];
    }
    var n := |xs| - 1;
    var front := xs[..n];
    assert xs == front + [xs[n]];
    var prev := SomesInOrder(front);
    var vs := Somes(front);
    SomesSnoc(front, xs[n]);
    forall k | 0 <= k < |prev|
      ensures 0 <= prev[k] < n && xs[prev[k]] == Some(vs[k])
    {
      assert front[prev[k]] == xs[prev[k]];
    }
    if xs[n].Some? {
      var s := vs + [xs[n].value];
      assert Somes(xs) == s;
      idx := prev + [n];
      forall k | 0 <= k < |idx|
        ensures 0 <= idx[k] < |xs| && xs[idx[k]] == Some(s[k])
      {
        if k < |prev| {
          assert idx[k] == prev[k] && s[k] == vs[k];
        }
      }
      forall k, l | 0 <= k < l < |idx|
        ensures idx[k] < idx[l]
      {
        if l == |prev| {
          assert idx[k] == prev[k] && idx[l] == n;
        } else {
          assert idx[k] == prev[k] && idx[l] == prev[l];
        }
      }
      forall i | 0 <= i < |xs| && i !in idx
        ensures xs[i].None?
      {
        assert i !in prev && i != n;
        assert front[i] == xs[i];
      }
    } else {
      assert Somes(xs) == vs;
      idx := prev;
      forall i | 0 <= i < |xs| && i !in idx
        ensures xs[i].None?
      {
        if i < n {
          assert front[i] == xs[i];
        }
      }
    }
  }

  /** With no `None` in `xs`, every entry is kept in place. */
  lemma {:induction false} SomesAll<T>(xs: seq<Option<T>>)
    requires forall i :: 0 <= i < |xs| ==> xs[i].Some?
    ensures |Somes(xs)| == |xs|
    ensures forall i :: 0 <= i < |xs| ==> xs[i] == Some(Somes(xs)[i])
    decreases |xs|
  {
    if xs != [] {
      var n := |xs| - 1;
      SomesAll(xs[..n]);
      assert forall i :: 0 <= i < n ==> xs[..n][i] == xs[i];
    }
  }

  /** Prepending one entry prepends its value, if it has one. */
  lemma {:induction false} SomesCons<T>(x: Option<T>, xs: seq<Option<T>>)
    ensures Somes([x] + xs) == (if x.Some? then [x.value] else []) + Somes(xs)
    decreases |xs|
  {
    if xs == [] {
      assert [x] + xs == [] + [x];
      SomesSnoc([], x);
    } else {
      var n := |xs| - 1;
      var h := if x.Some? then [x.value] else [];
      var l := if xs[n].Some? then [xs[n].value] else [];
      SomesCons(x, xs[..n]);
      assert [x] + xs == ([x] + xs[..n]) + [xs[n]];
      SomesSnoc([x] + xs[..n], xs[n]);
      assert xs[..n] + [xs[n]] == xs;
      SomesSnoc(xs[..n], xs[n]);
      calc {
        Somes([x] + xs);
        Somes([x] + xs[..n]) + l;
        (h + Somes(xs[..n])) + l;
        h + (Somes(xs[..n]) + l);
        h + Somes(xs);
      }
    }
  }

  /** A prefix one longer is the shorter prefix and one more element. */
  lemma PrefixSnoc<T>(s: seq<T>, i: int)
    requires 0 <= i < |s|
    ensures s[..i + 1] == s[..i] + [s[i]]
  {
  }

  /** Extending a prefix of `b` by one element, behind a fixed `a`. */
  lemma AppendPrefixSnoc<T>(a: seq<T>, b: seq<T>, j: int)
    requires 0 <= j < |b|
    ensures a + b[..j + 1] == (a + b[..j]) + [b[j]]
  {
    assert b[..j + 1] == b[..j] + [b[j]];
  }

  /**
   * Running the calls in order and stopping at the first failure: the
   * values in order when every call succeeds, otherwise the first failure.
   */
  function Collect<T>(os: seq<Outcome<T>>): (r: Outcome<seq<T>>)
    ensures r.Ok? ==> |r.value| == |os|
  {
    if os == [] then Ok([])
    else
      match Collect(os[..|os| - 1])
      case Err(f) => Err(f)
      case Ok(vs) =>
        match os[|os| - 1]
        case Err(f) => Err(f)
        case Ok(v) => Ok(vs + [v])
  }

  /**
   * `Collect` succeeds exactly when every call does, and then yields one
   * value per call in order; otherwise it fails as the first failing call.
   */
  lemma {:induction false} CollectPerEntry<T>(os: seq<Outcome<T>>) returns (first: int)
    ensures Collect(os).Ok? <==> forall q :: 0 <= q < |os| ==> os[q].Ok?
    ensures Collect(os).Ok? ==> forall q :: 0 <= q < |os| ==> os[q] == Ok(Collect(os).value[q])
    ensures Collect(os).Err? ==>
      0 <= first < |os| && os[first] == Err(Collect(os).failure) && forall q :: 0 <= q < first ==> os[q].Ok?
    decreases |os|
  {
    if os == [] {
      return -1;
    }
    var n := |os| - 1;
    var front := os[..n];
    first := CollectPerEntry(front);
    assert forall q :: 0 <= q < n ==> front[q] == os[q];
    if Collect(front).Ok? && os[n].Err? {
      first := n;
    }
  }

  /** One more call: its failure, or its value appended. */
  lemma CollectSnoc<T>(os: seq<Outcome<T>>, o: Outcome<T>)
    ensures Collect(os + [o]) ==
      match Collect(os)
      case Err(f) => Err(f)
      case Ok(vs) => (match o case Err(f) => Err(f) case Ok(v) => Ok(vs + [v]))
  {
    assert (os + [o])[..|os|] == os;
  }

  /**
   * One step of a loop that runs the calls in order: a failing call ends the
   * whole run with its failure, a successful one appends its value.
   */
  lemma CollectStep<T>(os: seq<Outcome<T>>, i: int, vs: seq<T>)
    requires 0 <= i < |os| && Collect(os[..i]) == Ok(vs)
    ensures os[i].Err? ==> Collect(os) == Err(os[i].failure)
    ensures os[i].Ok? ==> Collect(os[..i + 1]) == Ok(vs + [os[i].value])
  {
    PrefixSnoc(os, i);
    CollectSnoc(os[..i], os[i]);
    if os[i].Err? {
      CollectFailureSticks(os, i + 1);
    }
  }

  /** Once a prefix fails, the whole run fails the same way. */
  lemma {:induction false} CollectFailureSticks<T>(os: seq<Outcome<T>>, n: int)
    requires 0 <= n <= |os| && Collect(os[..n]).Err?
    ensures Collect(os) == Collect(os[..n])
    decreases |os|
  {
    if n < |os| {
      var front := os[..|os| - 1];
      assert front[..n] == os[..n];
      CollectFailureSticks(front, n);
    } else {
      assert os[..n] == os;
    }
  }
}
