/**
 * The request parser of `SocketPostProcessor`: one request line holds the
 * expected sentences and the cloud recogniser's hypotheses, the two parts
 * separated by `===` and the entries of each part by `|`.
 */
module SocketRequest {
  import opened Base
  import opened JavaText
  import opened Results

  /** The separator between the expected sentences and the hypotheses. */
  const PartSep: string := "==="

  /** The separator between the entries of one part. */
  const EntrySep: string := "|"

  /**
   * `parseExpectedSentences`: the first `===` part split on `|`. Reading
   * index 0 of an empty split (the request is made of separators only)
   * throws.
   */
  function ExpectedSentences(req: string): Outcome<seq<string>>
  {
    var parts := Split(req, PartSep);
    if |parts| == 0 then Err(IndexOutOfBounds(0)) else Ok(Split(parts[0], EntrySep))
  }

  /**
   * `parseGoogleResult`: the second `===` part split on `|`; later parts are
   * ignored, and a request with fewer than two parts throws on index 1.
   */
  function GoogleHypotheses(req: string): Outcome<seq<string>>
  {
    var parts := Split(req, PartSep);
    if |parts| < 2 then Err(IndexOutOfBounds(1)) else Ok(Split(parts[1], EntrySep))
  }

  /** A request line built from its two parts. */
  function EncodeRequest(expected: seq<string>, hyps: seq<string>): string
  {
    Join(expected, EntrySep) + PartSep + Join(hyps, EntrySep)
  }

  /** `parseExpectedSentences`, appending the pieces to a fresh list one by one. */
  method ParseExpectedSentences(req: string) returns (out: Outcome<seq<string>>)
    ensures out == ExpectedSentences(req)
  {
    var parts := Split(req, PartSep);
    if |parts| == 0 {
      return Err(IndexOutOfBounds(0));
    }
    var pieces := Split(parts[0], EntrySep);
    var expectedSentences: seq<string> := [];
    for i := 0 to |pieces|
      invariant expectedSentences == pieces[..i]
    {
      expectedSentences := expectedSentences + [pieces[i]];
    }
    assert pieces[..|pieces|] == pieces;
    return Ok(expectedSentences);
  }

  /**
   * `parseGoogleResult`: a fresh Result to which the pieces of the second
   * part are added in order.
   */
  method ParseGoogleResult(req: string) returns (out: Outcome<Result>)
    ensures GoogleHypotheses(req).Err? ==> out == Err(GoogleHypotheses(req).failure)
    ensures GoogleHypotheses(req).Ok? ==>
      out.Ok? && fresh(out.value) && out.value.resultList == Some(GoogleHypotheses(req).value)
  {
    var googleResult := new Result();
    var parts := Split(req, PartSep);
    if |parts| < 2 {
      return Err(IndexOutOfBounds(1));
    }
    var pieces := Split(parts[1], EntrySep);
    for i := 0 to |pieces|
      invariant googleResult.resultList == Some(pieces[..i])
    {
      var _ := googleResult.AddResult(pieces[i]);
      assert pieces[..i + 1] == pieces[..i] + [pieces[i]];
    }
    assert pieces[..|pieces|] == pieces;
    return Ok(googleResult);
  }

  /** No character of the joined string is `c` when neither the parts nor the separator hold it. */
  lemma {:induction false} JoinFree(ws: seq<string>, sep: string, c: char)
    requires forall k, i :: 0 <= k < |ws| && 0 <= i < |ws[k]| ==> ws[k][i] != c
    requires forall i :: 0 <= i < |sep| ==> sep[i] != c
    ensures forall i :: 0 <= i < |Join(ws, sep)| ==> Join(ws, sep)[i] != c
  {
    if |ws| > 1 {
      JoinFree(ws[1..], sep, c);
      forall k, i | 0 <= k < |ws[1..]| && 0 <= i < |ws[1..][k]|
        ensures ws[1..][k][i] != c
      {
        assert ws[1..][k] == ws[k + 1];
      }
      var rest := Join(ws[1..], sep);
      assert Join(ws, sep) == ws[0] + sep + rest;
      forall i | 0 <= i < |Join(ws, sep)|
        ensures Join(ws, sep)[i] != c
      {
        if i < |ws[0]| {
          assert Join(ws, sep)[i] == ws[0][i];
        } else if i < |ws[0]| + |sep| {
          assert Join(ws, sep)[i] == sep[i - |ws[0]|];
        } else {
          assert Join(ws, sep)[i] == rest[i - |ws[0]| - |sep|];
        }
      }
    }
  }

  /** `===` occurs in `s` at position `i`. */
  predicate PartSepAt(s: string, i: int)
  {
    0 <= i && i + |PartSep| <= |s| && s[i..i + |PartSep|] == PartSep
  }

  /**
   * A request without `===` anywhere is a single part; it has its expected
   * sentences but no hypotheses, so `parseGoogleResult` throws on index 1.
   */
  lemma NoPartSeparator(req: string)
    requires forall i :: !PartSepAt(req, i)
    ensures ExpectedSentences(req) == Ok(Split(req, EntrySep))
    ensures GoogleHypotheses(req) == Err(IndexOutOfBounds(1))
  {
    SinglePiece(req);
  }

  /** Without an occurrence of `===`, the pieces are the string itself. */
  lemma {:induction false} SinglePiece(s: string)
    requires forall i :: !PartSepAt(s, i)
    ensures Pieces(s, PartSep) == [s]
    decreases |s|
  {
    if |s| >= |PartSep| {
      assert !PartSepAt(s, 0);
      assert s[..|PartSep|] != PartSep;
      forall i
        ensures !PartSepAt(s[1..], i)
      {
        if PartSepAt(s[1..], i) {
          assert s[1..][i..i + |PartSep|] == s[i + 1..i + 1 + |PartSep|];
          assert PartSepAt(s, i + 1);
        }
      }
      SinglePiece(s[1..]);
      assert [s[0]] + s[1..] == s;
    }
  }

  /** `n` copies of `s`, one after the other. */
  function Repeat(s: string, n: nat): string
  {
    if n == 0 then "" else s + Repeat(s, n - 1)
  }

  /** `n` separators in a row split into `n + 1` empty pieces. */
  lemma {:induction false} PiecesOfSeparators(n: nat)
    ensures |Pieces(Repeat(PartSep, n), PartSep)| == n + 1
    ensures forall k :: 0 <= k <= n ==> Pieces(Repeat(PartSep, n), PartSep)[k] == ""
  {
    if n > 0 {
      PiecesOfSeparators(n - 1);
      PiecesOfSepPrefix(Repeat(PartSep, n - 1), PartSep);
    }
  }

  /**
   * A request of one or more `===` and nothing else splits into no part at
   * all, so already `parseExpectedSentences` throws on index 0.
   */
  lemma SeparatorsOnly(n: nat)
    requires n >= 1
    ensures ExpectedSentences(Repeat(PartSep, n)) == Err(IndexOutOfBounds(0))
    ensures GoogleHypotheses(Repeat(PartSep, n)) == Err(IndexOutOfBounds(1))
  {
    var p := Pieces(Repeat(PartSep, n), PartSep);
    PiecesOfSeparators(n);
  }

  /**
   * Parsing inverts `EncodeRequest`: both parts come back whole and in
   * order, provided no entry holds `|` or `=`, the expected part does not
   * end in an empty entry (unless it is the only one), and the last
   * hypothesis is not empty.
   */
  lemma RequestRoundTrip(expected: seq<string>, hyps: seq<string>)
    requires |expected| > 0 && |hyps| > 0
    requires forall k, i :: 0 <= k < |expected| && 0 <= i < |expected[k]| ==> expected[k][i] != '|' && expected[k][i] != '='
    requires forall k, i :: 0 <= k < |hyps| && 0 <= i < |hyps[k]| ==> hyps[k][i] != '|' && hyps[k][i] != '='
    requires |expected| == 1 || expected[|expected| - 1] != ""
    requires hyps[|hyps| - 1] != ""
    ensures ExpectedSentences(EncodeRequest(expected, hyps)) == Ok(expected)
    ensures GoogleHypotheses(EncodeRequest(expected, hyps)) == Ok(hyps)
  {
    var e := Join(expected, EntrySep);
    var h := Join(hyps, EntrySep);
    JoinFree(expected, EntrySep, '=');
    JoinFree(hyps, EntrySep, '=');
    HypsJoinNonEmpty(hyps);
    assert EncodeRequest(expected, hyps) == Join([e, h], PartSep);
    SplitJoin([e, h], PartSep);
    SplitJoin(expected, EntrySep);
    SplitJoin(hyps, EntrySep);
  }

  /** The joined hypotheses are not empty when the last one is not. */
  lemma {:induction false} HypsJoinNonEmpty(hyps: seq<string>)
    requires |hyps| > 0 && hyps[|hyps| - 1] != ""
    ensures Join(hyps, EntrySep) != ""
  {
    if |hyps| > 1 {
      assert |Join(hyps, EntrySep)| >= |EntrySep|;
    }
  }
}
