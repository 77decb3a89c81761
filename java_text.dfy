/**
 * The parts of `java.lang.String` the core relies on: `split` with a literal
 * separator (Java drops trailing empty strings, and a string without the
 * separator splits into itself), joining with a separator, and ASCII
 * lower-casing.
 */
module JavaText {

  /** True when `suffix` ends `s`. */
  predicate EndsWith(s: string, suffix: string)
  {
    |suffix| <= |s| && s[|s| - |suffix|..] == suffix
  }

  /**
   * The pieces between the leftmost non-overlapping occurrences of `sep`,
   * before Java removes the trailing empty ones.
   */
  function Pieces(s: string, sep: string): (r: seq<string>)
    requires |sep| > 0
    ensures |r| >= 1
    decreases |s|
  {
    if |s| < |sep| then [s]
    else if s[..|sep|] == sep then [""] + Pieces(s[|sep|..], sep)
    else
      var rest := Pieces(s[1..], sep);
      [[s[0]] + rest[0]] + rest[1..]
  }

  /** Removes the empty strings at the end of `p`, as `split` with limit 0 does. */
  function DropTrailingEmpty(p: seq<string>): (r: seq<string>)
    ensures |r| <= |p| && r == p[..|r|]
    ensures |r| > 0 ==> r[|r| - 1] != ""
    ensures forall k :: |r| <= k < |p| ==> p[k] == ""
  {
    if |p| > 0 && p[|p| - 1] == "" then DropTrailingEmpty(p[..|p| - 1]) else p
  }

  /**
   * `s.split(regex)` where `regex` matches exactly the literal `sep`:
   * no occurrence gives `[s]` (so `"".split(x)` is `[""]`), otherwise the
   * pieces without their trailing empty strings.
   */
  function Split(s: string, sep: string): seq<string>
    requires |sep| > 0
  {
    var p := Pieces(s, sep);
    if |p| == 1 then p else DropTrailingEmpty(p)
  }

  /** The strings of `ws` with `sep` between neighbours. */
  function Join(ws: seq<string>, sep: string): string
  {
    if |ws| == 0 then ""
    else if |ws| == 1 then ws[0]
    else ws[0] + sep + Join(ws[1..], sep)
  }

  /** `Character.toLowerCase` restricted to ASCII. */
  function LowerChar(c: char): char
  {
    if 'A' <= c <= 'Z' then (c as int + 32) as char else c
  }

  /**
   * `String.toLowerCase` on text that holds only ASCII characters: no
   * capital is left, each capital becomes the small letter at the same
   * place in the alphabet, and every other character stays.
   */
  function ToLower(s: string): (r: string)
    ensures |r| == |s|
    ensures forall i :: 0 <= i < |r| ==> !('A' <= r[i] <= 'Z')
    ensures forall i :: 0 <= i < |s| && !('A' <= s[i] <= 'Z') ==> r[i] == s[i]
    ensures forall i :: 0 <= i < |s| && 'A' <= s[i] <= 'Z' ==>
      'a' <= r[i] <= 'z' && r[i] as int - 'a' as int == s[i] as int - 'A' as int
  {
    seq(|s|, i requires 0 <= i < |s| => LowerChar(s[i]))
  }

  /** Lowercasing twice is lowercasing once. */
  lemma ToLowerIdempotent(s: string)
    ensures ToLower(ToLower(s)) == ToLower(s)
  {
    var r := ToLower(s);
    assert forall i :: 0 <= i < |r| ==> ToLower(r)[i] == r[i];
  }

  /** Appending one more string adds the separator and the string. */
  lemma {:induction false} JoinSnoc(ws: seq<string>, w: string, sep: string)
    requires |ws| > 0
    ensures Join(ws + [w], sep) == Join(ws, sep) + sep + w
    decreases |ws|
  {
    if |ws| == 1 {
      assert ws + [w] == [ws[0], w];
      assert [ws[0], w][1..] == [w];
    } else {
      assert (ws + [w])[1..] == ws[1..] + [w];
      JoinSnoc(ws[1..], w, sep);
    }
  }

  /** Joining the pieces of `s` with the separator gives `s` back. */
  lemma {:induction false} JoinPieces(s: string, sep: string)
    requires |sep| > 0
    ensures Join(Pieces(s, sep), sep) == s
    decreases |s|, 1
  {
    if |s| < |sep| {
    } else if s[..|sep|] == sep {
      JoinPiecesAfterSep(s, sep);
    } else {
      JoinPiecesAfterOther(s, sep);
    }
  }

  /** `JoinPieces` when `s` starts with the separator. */
  lemma {:induction false} JoinPiecesAfterSep(s: string, sep: string)
    requires |sep| > 0 && |s| >= |sep| && s[..|sep|] == sep
    ensures Join(Pieces(s, sep), sep) == s
    decreases |s|, 0
  {
    var t := s[|sep|..];
    assert s == sep + t;
    var p := Pieces(t, sep);
    assert Pieces(s, sep) == [""] + p;
    JoinPieces(t, sep);
    assert ([""] + p)[1..] == p;
    assert Join([""] + p, sep) == "" + sep + Join(p, sep);
  }

  /** `JoinPieces` when `s` does not start with the separator. */
  lemma {:induction false} JoinPiecesAfterOther(s: string, sep: string)
    requires |sep| > 0 && |s| >= |sep| && s[..|sep|] != sep
    ensures Join(Pieces(s, sep), sep) == s
    decreases |s|, 0
  {
    var rest := Pieces(s[1..], sep);
    assert Pieces(s, sep) == [[s[0]] + rest[0]] + rest[1..];
    JoinGlueFirst(s[0], rest, sep);
    JoinPieces(s[1..], sep);
    assert s == [s[0]] + s[1..];
  }

  /** Gluing a character onto the first string glues it onto the joined string. */
  lemma JoinGlueFirst(c: char, ws: seq<string>, sep: string)
    requires |ws| >= 1
    ensures Join([[c] + ws[0]] + ws[1..], sep) == [c] + Join(ws, sep)
  {
    var r := [[c] + ws[0]] + ws[1..];
    if |ws| > 1 {
      assert r[1..] == ws[1..];
      assert Join(r, sep) == ([c] + ws[0]) + sep + Join(ws[1..], sep);
    }
  }

  /** A first character that cannot start the separator joins the first piece of the rest. */
  lemma PiecesOfOtherStart(s: string, sep: string)
    requires |sep| > 0 && |s| >= |sep| && s[0] != sep[0]
    ensures Pieces(s, sep) == [[s[0]] + Pieces(s[1..], sep)[0]] + Pieces(s[1..], sep)[1..]
  {
    assert s[..|sep|][0] != sep[0];
  }

  /**
   * A prefix `a` in which the separator cannot start contributes only to
   * the first piece.
   */
  lemma {:induction false} PiecesOfFreePrefix(a: string, t: string, sep: string)
    requires |sep| > 0
    requires forall i :: 0 <= i < |a| ==> a[i] != sep[0]
    ensures Pieces(a + t, sep) == [a + Pieces(t, sep)[0]] + Pieces(t, sep)[1..]
    decreases |a|
  {
    if |a| == 0 {
      var p := Pieces(t, sep);
      assert a + t == t && a + p[0] == p[0];
      assert [p[0]] + p[1..] == p;
    } else {
      var s := a + t;
      assert s[0] == a[0];
      if |s| < |sep| {
        assert Pieces(t, sep) == [t];
        assert Pieces(s, sep) == [s];
      } else {
        var p := Pieces(t, sep);
        assert s[1..] == a[1..] + t;
        PiecesOfFreePrefix(a[1..], t, sep);
        PiecesOfOtherStart(s, sep);
        var rest := Pieces(s[1..], sep);
        assert rest[0] == a[1..] + p[0] && rest[1..] == p[1..];
        assert a == [a[0]] + a[1..];
        assert [s[0]] + (a[1..] + p[0]) == a + p[0];
      }
    }
  }

  /** A string starting with the separator splits off an empty first piece. */
  lemma PiecesOfSepPrefix(t: string, sep: string)
    requires |sep| > 0
    ensures Pieces(sep + t, sep) == [""] + Pieces(t, sep)
  {
    assert (sep + t)[..|sep|] == sep;
    assert (sep + t)[|sep|..] == t;
  }

  /** A string in which the separator cannot start is a single piece. */
  lemma PiecesOfFree(a: string, sep: string)
    requires |sep| > 0
    requires forall i :: 0 <= i < |a| ==> a[i] != sep[0]
    ensures Pieces(a, sep) == [a]
  {
    PiecesOfFreePrefix(a, "", sep);
    assert a + "" == a;
  }

  /**
   * Splitting a joined list gives the list back when no string holds the
   * separator's first character.
   */
  lemma {:induction false} PiecesOfJoin(ws: seq<string>, sep: string)
    requires |sep| > 0 && |ws| > 0
    requires forall k, i :: 0 <= k < |ws| && 0 <= i < |ws[k]| ==> ws[k][i] != sep[0]
    ensures Pieces(Join(ws, sep), sep) == ws
    decreases |ws|
  {
    if |ws| == 1 {
      PiecesOfFree(ws[0], sep);
      assert ws == [ws[0]];
    } else {
      var j := Join(ws[1..], sep);
      assert Join(ws, sep) == ws[0] + (sep + j);
      PiecesOfFreePrefix(ws[0], sep + j, sep);
      PiecesOfSepPrefix(j, sep);
      PiecesOfJoin(ws[1..], sep);
      var q := [""] + Pieces(j, sep);
      assert q[0] == "" && q[1..] == ws[1..];
      assert ws[0] + q[0] == ws[0];
      assert ws == [ws[0]] + ws[1..];
    }
  }

  /**
   * `split` inverts `join`: the strings come back in order when none holds
   * the separator's first character and the last one is not empty (or is
   * the only one).
   */
  lemma SplitJoin(ws: seq<string>, sep: string)
    requires |sep| > 0 && |ws| > 0
    requires forall k, i :: 0 <= k < |ws| && 0 <= i < |ws[k]| ==> ws[k][i] != sep[0]
    requires |ws| == 1 || ws[|ws| - 1] != ""
    ensures Split(Join(ws, sep), sep) == ws
  {
    PiecesOfJoin(ws, sep);
  }

  /** The last piece is empty only when `s` is empty or ends with the separator. */
  lemma {:induction false} LastPieceEmpty(s: string, sep: string)
    requires |sep| > 0
    requires Pieces(s, sep)[|Pieces(s, sep)| - 1] == ""
    ensures s == "" || EndsWith(s, sep)
    decreases |s|, 1
  {
    if |s| < |sep| {
    } else if s[..|sep|] == sep {
      LastPieceEmptyAfterSep(s, sep);
    } else {
      LastPieceEmptyAfterOther(s, sep);
    }
  }

  /** `LastPieceEmpty` when `s` starts with the separator. */
  lemma {:induction false} LastPieceEmptyAfterSep(s: string, sep: string)
    requires |sep| > 0 && |s| >= |sep| && s[..|sep|] == sep
    requires Pieces(s, sep)[|Pieces(s, sep)| - 1] == ""
    ensures s == "" || EndsWith(s, sep)
    decreases |s|, 0
  {
    var t := s[|sep|..];
    assert s == sep + t;
    PiecesOfSepPrefix(t, sep);
    var p := Pieces(t, sep);
    assert Pieces(s, sep) == [""] + p;
    assert p[|p| - 1] == "";
    LastPieceEmpty(t, sep);
    if t != "" {
      SuffixOfConcat(sep, t, |sep|);
    }
  }

  /** A suffix no longer than `b` of `a + b` is that suffix of `b`. */
  lemma SuffixOfConcat(a: string, b: string, m: int)
    requires 0 <= m <= |b|
    ensures (a + b)[|a + b| - m..] == b[|b| - m..]
  {
  }

  /** `LastPieceEmpty` when `s` does not start with the separator. */
  lemma {:induction false} LastPieceEmptyAfterOther(s: string, sep: string)
    requires |sep| > 0 && |s| >= |sep| && s[..|sep|] != sep
    requires Pieces(s, sep)[|Pieces(s, sep)| - 1] == ""
    ensures s == "" || EndsWith(s, sep)
    decreases |s|, 0
  {
    var rest := Pieces(s[1..], sep);
    assert Pieces(s, sep) == [[s[0]] + rest[0]] + rest[1..];
    if |rest| > 1 {
      assert rest[|rest| - 1] == "";
      LastPieceEmpty(s[1..], sep);
      if s[1..] != "" {
        assert s[|s| - |sep|..] == s[1..][|s[1..]| - |sep|..];
      }
    }
  }

  /**
   * `join` inverts `split` on a non-empty string that does not end with the
   * separator: nothing is lost to the trailing-empty rule.
   */
  lemma JoinSplit(s: string, sep: string)
    requires |sep| > 0
    requires s != "" && !EndsWith(s, sep)
    ensures Join(Split(s, sep), sep) == s
  {
    var p := Pieces(s, sep);
    LastPieceNonEmpty(s, sep);
    JoinPieces(s, sep);
    assert Split(s, sep) == p;
  }

  /** So a non-empty string that does not end with the separator has a non-empty last piece. */
  lemma LastPieceNonEmpty(s: string, sep: string)
    requires |sep| > 0
    requires s != "" && !EndsWith(s, sep)
    ensures Pieces(s, sep)[|Pieces(s, sep)| - 1] != ""
  {
    if Pieces(s, sep)[|Pieces(s, sep)| - 1] == "" {
      LastPieceEmpty(s, sep);
    }
  }
}
