/**
 * The pure part of `phoneme/PhonemeCreator.java`: how `getPhonemes` turns
 * each raw string into a phoneme container, and how `fillDatabase` trims
 * the lines of a sentence file and builds the key of each database entry.
 * The grapheme-to-phoneme converter is a foreign library; it enters as a
 * function value `g2p` that lists the pronunciation paths of a text.
 */
module Normalizer {
  import opened Base
  import opened JavaText

  /** `G2PConverter.phoneticize(text, 1)`: the paths found, each a phoneme sequence. */
  type G2P = string -> seq<seq<string>>

  /**
   * `PhonemeContainer`: the lowercased words of an entry and its phonemes.
   * `getResult` is the words joined by single spaces.
   */
  datatype PhonemeContainer = PhonemeContainer(words: seq<string>, phonemes: seq<string>)
  {
    function GetResult(): string
    {
      Join(words, " ")
    }
  }

  // ---------------------------------------------------------------------
  // s.replaceAll("[^a-zA-Z 0-9]", "")

  /** The characters the first `replaceAll` lets through. */
  predicate Kept(c: char)
  {
    'a' <= c <= 'z' || 'A' <= c <= 'Z' || '0' <= c <= '9' || c == ' '
  }

  /** Deletes every character outside `[a-zA-Z 0-9]`, keeping the rest in order. */
  function StripSpecial(s: string): (r: string)
    ensures forall i :: 0 <= i < |r| ==> Kept(r[i])
    ensures |r| <= |s|
  {
    if s == [] then []
    else (if Kept(s[0]) then [s[0]] else []) + StripSpecial(s[1..])
  }

  /**
   * Exactly the kept characters survive, each as often as in the input;
   * the others disappear.
   */
  lemma {:induction false} StripSpecialCounts(s: string, c: char)
    ensures multiset(StripSpecial(s))[c] == if Kept(c) then multiset(s)[c] else 0
    decreases |s|
  {
    if s != [] {
      StripSpecialCounts(s[1..], c);
      assert s == [s[0]] + s[1..];
    }
  }

  /** Text made only of kept characters passes unchanged. */
  lemma {:induction false} StripSpecialIdentity(s: string)
    requires forall i :: 0 <= i < |s| ==> Kept(s[i])
    ensures StripSpecial(s) == s
    decreases |s|
  {
    if s != [] {
      StripSpecialIdentity(s[1..]);
      assert s == [s[0]] + s[1..];
    }
  }

  // ---------------------------------------------------------------------
  // s.replaceAll(" +", " ")

  /** No two neighbouring spaces. */
  predicate NoDoubleSpace(s: string)
  {
    forall i :: 0 <= i < |s| - 1 ==> !(s[i] == ' ' && s[i + 1] == ' ')
  }

  /** Drops the spaces at the front. */
  function SkipSpaces(s: string): (r: string)
    ensures |r| <= |s|
    ensures |r| > 0 ==> r[0] != ' '
  {
    if |s| > 0 && s[0] == ' ' then SkipSpaces(s[1..]) else s
  }

  /** Replaces every run of spaces by one space. */
  function CollapseSpaces(s: string): (r: string)
    ensures |r| <= |s|
    ensures r == "" <==> s == ""
    ensures |r| > 0 ==> r[0] == s[0]
    decreases |s|
  {
    if s == [] then []
    else if s[0] == ' ' then [' '] + CollapseSpaces(SkipSpaces(s[1..]))
    else [s[0]] + CollapseSpaces(s[1..])
  }

  /** After collapsing, no two spaces are neighbours. */
  lemma {:induction false} CollapseNoDoubleSpace(s: string)
    ensures NoDoubleSpace(CollapseSpaces(s))
    decreases |s|
  {
    if s != [] {
      var rest := if s[0] == ' ' then SkipSpaces(s[1..]) else s[1..];
      CollapseNoDoubleSpace(rest);
      var c := CollapseSpaces(rest);
      assert CollapseSpaces(s) == [s[0]] + c;
      assert s[0] == ' ' && |c| > 0 ==> c[0] != ' ';
    }
  }

  /** Skipping spaces only removes characters. */
  lemma {:induction false} SkipSpacesCount(t: string, ch: char)
    ensures multiset(SkipSpaces(t))[ch] <= multiset(t)[ch]
    decreases |t|
  {
    if |t| > 0 && t[0] == ' ' {
      SkipSpacesCount(t[1..], ch);
      assert t == [t[0]] + t[1..];
    }
  }

  /**
   * Collapsing introduces no character: each occurs at most as often as
   * before.
   */
  lemma {:induction false} CollapseCount(s: string, ch: char)
    ensures multiset(CollapseSpaces(s))[ch] <= multiset(s)[ch]
    decreases |s|
  {
    if s != [] {
      var t := s[1..];
      var rest := if s[0] == ' ' then SkipSpaces(t) else t;
      CollapseCount(rest, ch);
      if s[0] == ' ' {
        SkipSpacesCount(t, ch);
      }
      assert CollapseSpaces(s) == [s[0]] + CollapseSpaces(rest);
      assert s == [s[0]] + t;
    }
  }

  /** The characters other than spaces, in order. */
  function NonSpaces(s: string): string
  {
    if s == [] then [] else (if s[0] == ' ' then [] else [s[0]]) + NonSpaces(s[1..])
  }

  lemma {:induction false} NonSpacesOfSkip(s: string)
    ensures NonSpaces(SkipSpaces(s)) == NonSpaces(s)
    decreases |s|
  {
    if |s| > 0 && s[0] == ' ' {
      NonSpacesOfSkip(s[1..]);
    }
  }

  /** Collapsing touches only spaces: the other characters stay, in order. */
  lemma {:induction false} CollapseKeepsNonSpaces(s: string)
    ensures NonSpaces(CollapseSpaces(s)) == NonSpaces(s)
    decreases |s|
  {
    if s != [] {
      if s[0] == ' ' {
        var t := SkipSpaces(s[1..]);
        CollapseKeepsNonSpaces(t);
        NonSpacesOfSkip(s[1..]);
        assert ([' '] + CollapseSpaces(t))[1..] == CollapseSpaces(t);
      } else {
        CollapseKeepsNonSpaces(s[1..]);
        assert ([s[0]] + CollapseSpaces(s[1..]))[1..] == CollapseSpaces(s[1..]);
      }
    }
  }

  /** `n` spaces. */
  function Spaces(n: nat): (r: string)
    ensures |r| == n && forall i :: 0 <= i < n ==> r[i] == ' '
  {
    seq(n, _ => ' ')
  }

  /** Skipping the spaces of a run stops at the first character after it. */
  lemma {:induction false} SkipRun(n: nat, b: string)
    requires b == "" || b[0] != ' '
    ensures SkipSpaces(Spaces(n) + b) == b
    decreases n
  {
    var s := Spaces(n) + b;
    if n > 0 {
      assert s[0] == ' ';
      assert s[1..] == Spaces(n - 1) + b;
      assert SkipSpaces(s) == SkipSpaces(s[1..]);
      SkipRun(n - 1, b);
    } else {
      assert s == b;
    }
  }

  /**
   * A run of one or more spaces, followed by text that does not start
   * with a space, becomes exactly one space.
   */
  lemma CollapseRun(n: nat, b: string)
    requires n >= 1 && (b == "" || b[0] != ' ')
    ensures CollapseSpaces(Spaces(n) + b) == " " + CollapseSpaces(b)
  {
    var s := Spaces(n) + b;
    assert s[0] == ' ';
    assert s[1..] == Spaces(n - 1) + b;
    SkipRun(n - 1, b);
  }

  /**
   * Skipping spaces in front of text that ends in a non-space never reaches
   * what follows it; what remains still ends in that character.
   */
  lemma {:induction false} SkipAppend(x: string, b: string)
    requires |x| > 0 && x[|x| - 1] != ' '
    ensures SkipSpaces(x + b) == SkipSpaces(x) + b
    ensures |SkipSpaces(x)| > 0 && SkipSpaces(x)[|SkipSpaces(x)| - 1] == x[|x| - 1]
    decreases |x|
  {
    if x[0] == ' ' {
      assert (x + b)[1..] == x[1..] + b;
      SkipAppend(x[1..], b);
    }
  }

  /**
   * Collapsing works piece by piece: text that does not end in a space
   * collapses on its own, whatever follows it.
   */
  lemma {:induction false} CollapseAppend(a: string, b: string)
    requires a == "" || a[|a| - 1] != ' '
    ensures CollapseSpaces(a + b) == CollapseSpaces(a) + CollapseSpaces(b)
    decreases |a|, 1
  {
    if a == "" {
      assert a + b == b;
    } else if a[0] == ' ' {
      CollapseAppendAfterSpace(a, b);
    } else {
      CollapseAppendAfterOther(a, b);
    }
  }

  /** Collapsing text that starts with `c`: one step of the definition. */
  lemma CollapseCons(c: char, s: string)
    ensures c != ' ' ==> CollapseSpaces([c] + s) == [c] + CollapseSpaces(s)
    ensures c == ' ' ==> CollapseSpaces([c] + s) == [' '] + CollapseSpaces(SkipSpaces(s))
  {
    assert ([c] + s)[0] == c && ([c] + s)[1..] == s;
  }

  /** `CollapseAppend` when `a` starts with a space. */
  lemma {:induction false} CollapseAppendAfterSpace(a: string, b: string)
    requires |a| > 0 && a[0] == ' ' && a[|a| - 1] != ' '
    ensures CollapseSpaces(a + b) == CollapseSpaces(a) + CollapseSpaces(b)
    decreases |a|, 0
  {
    var t := a[1..];
    assert a == [' '] + t;
    assert a + b == [' '] + (t + b);
    CollapseCons(' ', t + b);
    CollapseCons(' ', t);
    assert t[|t| - 1] == a[|a| - 1];
    SkipAppend(t, b);
    var u := SkipSpaces(t);
    CollapseAppend(u, b);
    assert [' '] + (CollapseSpaces(u) + CollapseSpaces(b)) == ([' '] + CollapseSpaces(u)) + CollapseSpaces(b);
  }

  /** `CollapseAppend` when `a` starts with another character. */
  lemma {:induction false} CollapseAppendAfterOther(a: string, b: string)
    requires |a| > 0 && a[0] != ' ' && a[|a| - 1] != ' '
    ensures CollapseSpaces(a + b) == CollapseSpaces(a) + CollapseSpaces(b)
    decreases |a|, 0
  {
    var c := a[0];
    var t := a[1..];
    assert a == [c] + t;
    assert a + b == [c] + (t + b);
    CollapseCons(c, t + b);
    CollapseCons(c, t);
    CollapseAppend(t, b);
    assert [c] + (CollapseSpaces(t) + CollapseSpaces(b)) == ([c] + CollapseSpaces(t)) + CollapseSpaces(b);
  }

  /** Text without a double space is left unchanged. */
  lemma {:induction false} CollapseIdentity(s: string)
    requires NoDoubleSpace(s)
    ensures CollapseSpaces(s) == s
    decreases |s|
  {
    if s != [] {
      var t := s[1..];
      assert NoDoubleSpace(t) by {
        assert forall i :: 0 <= i < |t| ==> t[i] == s[i + 1];
      }
      CollapseIdentity(t);
      if s[0] == ' ' {
        assert |t| == 0 || t[0] != ' ' by {
          assert |s| == 1 || !(s[0] == ' ' && s[1] == ' ');
        }
        assert SkipSpaces(t) == t;
      }
      assert CollapseSpaces(s) == [s[0]] + t;
      assert s == [s[0]] + t;
    }
  }

  // ---------------------------------------------------------------------
  // one entry of getPhonemes

  /**
   * The string `getPhonemes` tests for emptiness: the special characters
   * deleted, then every run of spaces replaced by one space.
   */
  function Normalize(raw: string): string
  {
    CollapseSpaces(StripSpecial(raw))
  }

  /** Only ASCII letters, digits and single spaces remain after normalising. */
  lemma NormalizeClean(raw: string)
    ensures forall i :: 0 <= i < |Normalize(raw)| ==> Kept(Normalize(raw)[i])
    ensures NoDoubleSpace(Normalize(raw))
  {
    var kept := StripSpecial(raw);
    var s := CollapseSpaces(kept);
    CollapseNoDoubleSpace(kept);
    forall i | 0 <= i < |s| ensures Kept(s[i]) {
      CollapseCount(kept, s[i]);
      assert s[i] in multiset(s);
      assert s[i] in kept;
    }
  }

  /** `if (s.charAt(0) == ' ') s = s.substring(1)`: at most one space goes. */
  function DropLeadingSpace(s: string): (t: string)
    requires s != ""
    ensures t == s || s == " " + t
    ensures NoDoubleSpace(s) && |t| > 0 ==> t[0] != ' '
  {
    if s[0] == ' ' then
      assert s == " " + s[1..];
      s[1..]
    else s
  }

  /** The words of an entry: the lowercased text split on single spaces. */
  function WordsOf(t: string): seq<string>
  {
    Split(ToLower(t), " ")
  }

  /** Only the first path found by the converter is kept; none gives no phonemes. */
  function FirstPath(paths: seq<seq<string>>): seq<string>
  {
    if |paths| > 0 then paths[0] else []
  }

  /**
   * What `getPhonemes` makes of one raw string: nothing when it normalises
   * to the empty string, otherwise a container whose words are lowercased
   * while the converter gets the text with its case.
   */
  function Entry(raw: string, g2p: G2P): Option<PhonemeContainer>
  {
    var s := Normalize(raw);
    if s == "" then None
    else
      var t := DropLeadingSpace(s);
      Some(PhonemeContainer(WordsOf(t), FirstPath(g2p(t))))
  }

  /** What `getPhonemes` makes of each raw string, position by position. */
  function Entries(raws: seq<string>, g2p: G2P): (r: seq<Option<PhonemeContainer>>)
    ensures |r| == |raws|
    ensures forall i :: 0 <= i < |raws| ==> r[i] == Entry(raws[i], g2p)
  {
    seq(|raws|, i requires 0 <= i < |raws| => Entry(raws[i], g2p))
  }

  /** All containers `getPhonemes` returns for the list `raws`, in input order. */
  function Containers(raws: seq<string>, g2p: G2P): (r: seq<PhonemeContainer>)
    ensures |r| <= |raws|
  {
    Somes(Entries(raws, g2p))
  }

  /** One more raw string adds its container, if it has one, at the end. */
  lemma ContainersSnoc(raws: seq<string>, raw: string, g2p: G2P)
    ensures Containers(raws + [raw], g2p) ==
      Containers(raws, g2p) + (if Entry(raw, g2p).Some? then [Entry(raw, g2p).value] else [])
  {
    assert Entries(raws + [raw], g2p) == Entries(raws, g2p) + [Entry(raw, g2p)];
    SomesSnoc(Entries(raws, g2p), Entry(raw, g2p));
  }

  /** One more raw string in front adds its container, if it has one, in front. */
  lemma ContainersCons(raw: string, raws: seq<string>, g2p: G2P)
    ensures Containers([raw] + raws, g2p) ==
      (if Entry(raw, g2p).Some? then [Entry(raw, g2p).value] else []) + Containers(raws, g2p)
  {
    assert Entries([raw] + raws, g2p) == [Entry(raw, g2p)] + Entries(raws, g2p);
    SomesCons(Entry(raw, g2p), Entries(raws, g2p));
  }

  /** A one-element list has the element's container, when it has one. */
  lemma ContainersOfOne(raw: string, g2p: G2P)
    ensures Containers([raw], g2p) == if Entry(raw, g2p).Some? then [Entry(raw, g2p).value] else []
  {
    assert Entries([raw], g2p) == [] + [Entry(raw, g2p)];
    SomesSnoc([], Entry(raw, g2p));
  }

  /**
   * Filter, then map: the containers are the entries of the raw strings
   * that do not normalise to "", in input order. The lemma returns the
   * increasing positions they come from.
   */
  lemma ContainersInOrder(raws: seq<string>, g2p: G2P) returns (idx: seq<int>)
    ensures |idx| == |Containers(raws, g2p)|
    ensures forall k :: 0 <= k < |idx| ==>
      0 <= idx[k] < |raws| && Entry(raws[idx[k]], g2p) == Some(Containers(raws, g2p)[k])
    ensures forall k, l :: 0 <= k < l < |idx| ==> idx[k] < idx[l]
    ensures forall i :: 0 <= i < |raws| && i !in idx ==> Normalize(raws[i]) == ""
  {
    idx := SomesInOrder(Entries(raws, g2p));
  }

  /** Every entry survives when none normalises to "". */
  lemma ContainersKeepAll(raws: seq<string>, g2p: G2P)
    requires forall i :: 0 <= i < |raws| ==> Normalize(raws[i]) != ""
    ensures |Containers(raws, g2p)| == |raws|
    ensures forall i :: 0 <= i < |raws| ==> Entry(raws[i], g2p) == Some(Containers(raws, g2p)[i])
  {
    SomesAll(Entries(raws, g2p));
  }

  /**
   * The loop as written: `rawResults.remove(s)` is called with the
   * normalised string "" on the list being iterated. When the list holds an
   * element equal to "", that element goes, and the iteration ends (the
   * iterator either reports no next element or throws a
   * ConcurrentModificationException, which the surrounding catch swallows),
   * so the containers built so far are returned. When no element equals "",
   * the removal does nothing and the entry is skipped.
   */
  function ContainersAsWritten(raws: seq<string>, g2p: G2P): seq<PhonemeContainer>
  {
    ContainersFrom(raws, 0, g2p)
  }

  /** The as-written loop from position `i` on. */
  function ContainersFrom(raws: seq<string>, i: nat, g2p: G2P): seq<PhonemeContainer>
    decreases |raws| - i
  {
    if i >= |raws| then []
    else
      match Entry(raws[i], g2p)
      case Some(c) => [c] + ContainersFrom(raws, i + 1, g2p)
      case None => if "" in raws then [] else ContainersFrom(raws, i + 1, g2p)
  }

  /**
   * An empty first line hides every later entry from the loop as written,
   * while the filter keeps them.
   */
  lemma EmptyEntryHidesTheRest(rest: seq<string>, g2p: G2P)
    requires |rest| > 0 && Normalize(rest[0]) != ""
    ensures ContainersAsWritten([""] + rest, g2p) == []
    ensures |Containers([""] + rest, g2p)| > 0
  {
    var raws := [""] + rest;
    assert raws[0] == "" && "" in raws;
    assert Normalize("") == "";
    var idx := ContainersInOrder(raws, g2p);
    assert raws[1] == rest[0];
    assert 1 in idx;
  }

  /** `List.remove(Object)`: drops the first element equal to `x`, if any. */
  function RemoveFirst(xs: seq<string>, x: string): (r: seq<string>)
    ensures x in xs ==> |r| == |xs| - 1
    ensures x !in xs ==> r == xs
  {
    if xs == [] then []
    else if xs[0] == x then xs[1..]
    else [xs[0]] + RemoveFirst(xs[1..], x)
  }

  /**
   * The caller's list after the as-written loop has run from position `i`:
   * the first entry that normalises to "" triggers `remove("")`, which
   * changes the list only when it holds a literal "".
   */
  function RemainingFrom(raws: seq<string>, i: nat, g2p: G2P): seq<string>
    decreases |raws| - i
  {
    if i >= |raws| then raws
    else
      match Entry(raws[i], g2p)
      case Some(_) => RemainingFrom(raws, i + 1, g2p)
      case None => if "" in raws then RemoveFirst(raws, "") else RemainingFrom(raws, i + 1, g2p)
  }

  /**
   * `fillDatabase` calls `getPhonemes` twice on the same list. With an
   * empty first line, the first call (the containers behind the key map)
   * yields nothing and removes that line, so the second call (the
   * database list) sees only the rest: the list is full, the map empty.
   */
  lemma EmptyLineSplitsDatabase(rest: seq<string>, g2p: G2P)
    requires "" !in rest
    ensures ContainersAsWritten([""] + rest, g2p) == []
    ensures HashOf(ContainersAsWritten([""] + rest, g2p)) == map[]
    ensures RemainingFrom([""] + rest, 0, g2p) == rest
    ensures ContainersAsWritten(RemainingFrom([""] + rest, 0, g2p), g2p) == Containers(rest, g2p)
  {
    var raws := [""] + rest;
    assert raws[0] == "" && "" in raws;
    assert Normalize("") == "";
    AsWrittenIsFilterWithoutEmpty(rest, g2p);
  }

  lemma {:induction false} ContainersFromIsFilter(raws: seq<string>, i: nat, g2p: G2P)
    requires "" !in raws && i <= |raws|
    ensures ContainersFrom(raws, i, g2p) == Containers(raws[i..], g2p)
    decreases |raws| - i
  {
    if i < |raws| {
      ContainersFromIsFilter(raws, i + 1, g2p);
      assert raws[i..] == [raws[i]] + raws[i + 1..];
      ContainersCons(raws[i], raws[i + 1..], g2p);
    } else {
      assert raws[i..] == [];
    }
  }

  /** Without an element equal to "", the loop as written is the filter. */
  lemma AsWrittenIsFilterWithoutEmpty(raws: seq<string>, g2p: G2P)
    requires "" !in raws
    ensures ContainersAsWritten(raws, g2p) == Containers(raws, g2p)
  {
    ContainersFromIsFilter(raws, 0, g2p);
    assert raws[0..] == raws;
  }

  /** Plain text: letters, digits and single inner spaces only. */
  predicate Plain(s: string)
  {
    s != "" && s[0] != ' ' && s[|s| - 1] != ' ' && NoDoubleSpace(s) &&
    forall i :: 0 <= i < |s| ==> Kept(s[i])
  }

  /** A plain string's container reads back as the string lowercased. */
  lemma PlainEntry(raw: string, g2p: G2P)
    requires Plain(raw)
    ensures Entry(raw, g2p).Some?
    ensures Entry(raw, g2p).value.words == WordsOf(raw)
    ensures Entry(raw, g2p).value.GetResult() == ToLower(raw)
  {
    StripSpecialIdentity(raw);
    CollapseIdentity(raw);
    var low := ToLower(raw);
    assert low[|low| - 1] != ' ';
    JoinSplit(low, " ");
  }

  /**
   * For plain inputs there is one container per input, and each reads back
   * as its input lowercased.
   */
  lemma PlainContainers(raws: seq<string>, g2p: G2P)
    requires forall i :: 0 <= i < |raws| ==> Plain(raws[i])
    ensures |Containers(raws, g2p)| == |raws|
    ensures forall i :: 0 <= i < |raws| ==> Containers(raws, g2p)[i].GetResult() == ToLower(raws[i])
  {
    forall i | 0 <= i < |raws| ensures Normalize(raws[i]) != "" && Entry(raws[i], g2p).Some? {
      PlainEntry(raws[i], g2p);
    }
    ContainersKeepAll(raws, g2p);
    forall i | 0 <= i < |raws| ensures Containers(raws, g2p)[i].GetResult() == ToLower(raws[i]) {
      PlainEntry(raws[i], g2p);
    }
  }

  /** Deleting characters works piecewise. */
  lemma {:induction false} StripSpecialAppend(a: string, b: string)
    ensures StripSpecial(a + b) == StripSpecial(a) + StripSpecial(b)
    decreases |a|
  {
    if a != [] {
      StripSpecialAppend(a[1..], b);
      assert (a + b)[0] == a[0];
      assert (a + b)[1..] == a[1..] + b;
    } else {
      assert a + b == b;
    }
  }

  /** A character outside `[a-zA-Z 0-9]`, such as an apostrophe, is as good as absent. */
  lemma EntryIgnoresSpecial(a: string, c: char, b: string, g2p: G2P)
    requires !Kept(c)
    ensures Entry(a + [c] + b, g2p) == Entry(a + b, g2p)
  {
    assert StripSpecial(a + [c] + b) == StripSpecial(a + b) by {
      StripSpecialAppend(a + [c], b);
      StripSpecialAppend(a, [c]);
      StripSpecialAppend(a, b);
      assert StripSpecial([c]) == [];
      assert StripSpecial(a + [c]) == StripSpecial(a);
    }
    assert Normalize(a + [c] + b) == Normalize(a + b);
  }

  /**
   * A raw string that is plain text once its special characters are
   * deleted ("I'm done") reads back as that text lowercased ("im done").
   */
  lemma PlainAfterStrip(raw: string, g2p: G2P)
    requires Plain(StripSpecial(raw))
    ensures Entry(raw, g2p).Some?
    ensures Entry(raw, g2p).value.words == WordsOf(StripSpecial(raw))
    ensures Entry(raw, g2p).value.GetResult() == ToLower(StripSpecial(raw))
  {
    var kept := StripSpecial(raw);
    StripSpecialIdentity(kept);
    PlainEntry(kept, g2p);
  }

  /**
   * "I'm done" becomes the entry with the words "im" and "done", which reads
   * back as "im done".
   */
  lemma ImDone(g2p: G2P)
    ensures Entry("I'm done", g2p).Some?
    ensures Entry("I'm done", g2p).value.words == ["im", "done"]
    ensures Entry("I'm done", g2p).value.GetResult() == "im done"
  {
    StripImDone();
    ImDoneWords();
    PlainAfterStrip("I'm done", g2p);
  }

  /** The apostrophe of "I'm done" is deleted. */
  lemma StripImDone()
    ensures StripSpecial("I'm done") == "Im done"
  {
  }

  /** The words of "Im done". */
  lemma ImDoneWords()
    ensures Plain("Im done")
    ensures WordsOf("Im done") == ["im", "done"]
    ensures ToLower("Im done") == "im done"
  {
    assert ToLower("Im done") == "im done";
    assert Join(["im", "done"], " ") == "im done";
    SplitJoin(["im", "done"], " ");
  }

  // ---------------------------------------------------------------------
  // fillDatabase

  /** A line holding '\r' anywhere loses its last character. */
  function TrimLine(line: string): (r: string)
    ensures |r| == if '\r' in line then |line| - 1 else |line|
    ensures r == line[..|r|]
  {
    if '\r' in line then line[..|line| - 1] else line
  }

  /** A Windows line end is removed exactly. */
  lemma TrimLineCrLf(line: string)
    ensures TrimLine(line + "\r") == line
  {
    assert '\r' in line + "\r";
    assert (line + "\r")[..|line|] == line;
  }

  /** Every line of the file, trimmed. */
  function TrimLines(lines: seq<string>): (r: seq<string>)
    ensures |r| == |lines|
    ensures forall i :: 0 <= i < |lines| ==> r[i] == TrimLine(lines[i])
  {
    seq(|lines|, i requires 0 <= i < |lines| => TrimLine(lines[i]))
  }

  /**
   * The hash key of a container: its words glued with single spaces, where
   * an accumulated "" is replaced by the next word rather than extended.
   */
  function KeyOf(words: seq<string>): string
  {
    if words == [] then ""
    else
      var x := KeyOf(words[..|words| - 1]);
      var w := words[|words| - 1];
      if x == "" then w else x + " " + w
  }

  /**
   * The key is the words joined by single spaces unless an empty first word
   * is followed by others.
   */
  lemma {:induction false} KeyOfIsJoin(words: seq<string>)
    requires |words| <= 1 || words[0] != ""
    ensures KeyOf(words) == Join(words, " ")
    ensures |words| > 0 && words[0] != "" ==> KeyOf(words) != ""
    decreases |words|
  {
    if |words| > 1 {
      var n := |words| - 1;
      var init := words[..n];
      KeyOfIsJoin(init);
      JoinSnoc(init, words[n], " ");
      assert init + [words[n]] == words;
    } else if |words| == 1 {
      assert words[..0] == [];
    }
  }

  /** The words of a normalised entry never start with an empty word before others. */
  lemma WordsOfStart(t: string)
    requires |t| > 0 ==> t[0] != ' '
    ensures |WordsOf(t)| <= 1 || WordsOf(t)[0] != ""
  {
    var low := ToLower(t);
    if |low| >= 1 {
      assert low[..1] != " ";
    }
  }

  /** The key `fillDatabase` stores for a container is its `getResult`. */
  lemma EntryKey(raw: string, g2p: G2P)
    requires Entry(raw, g2p).Some?
    ensures KeyOf(Entry(raw, g2p).value.words) == Entry(raw, g2p).value.GetResult()
  {
    WordsOfStart(DropLeadingSpace(Normalize(raw)));
    KeyOfIsJoin(Entry(raw, g2p).value.words);
  }

  /** `hashContent` after the loop over the containers: later keys overwrite earlier ones. */
  function HashOf(cs: seq<PhonemeContainer>): map<string, seq<string>>
  {
    if cs == [] then map[]
    else
      var n := |cs| - 1;
      HashOf(cs[..n])[KeyOf(cs[n].words) := cs[n].phonemes]
  }

  /** The loop over the first k + 1 containers: the first k, then container k's key. */
  lemma HashOfSnoc(cs: seq<PhonemeContainer>, k: int)
    requires 0 <= k < |cs|
    ensures HashOf(cs[..k + 1]) == HashOf(cs[..k])[KeyOf(cs[k].words) := cs[k].phonemes]
  {
    assert cs[..k + 1][..k] == cs[..k];
  }

  /** Position `k` holds the last container whose key is `key`. */
  predicate LastWithKey(cs: seq<PhonemeContainer>, key: string, k: int)
  {
    0 <= k < |cs| && KeyOf(cs[k].words) == key &&
    forall l :: k < l < |cs| ==> KeyOf(cs[l].words) != key
  }

  /** Every container's key is in the map. */
  lemma {:induction false} HashOfHasEveryKey(cs: seq<PhonemeContainer>)
    ensures forall k :: 0 <= k < |cs| ==> KeyOf(cs[k].words) in HashOf(cs)
    decreases |cs|
  {
    if cs != [] {
      var n := |cs| - 1;
      HashOfHasEveryKey(cs[..n]);
      assert forall k :: 0 <= k < n ==> cs[..n][k] == cs[k];
    }
  }

  /**
   * Each key of the map comes from a container, and maps to the phonemes of
   * the last container having that key: later entries overwrite earlier ones.
   */
  lemma {:induction false} HashOfLastWins(cs: seq<PhonemeContainer>, key: string) returns (k: int)
    requires key in HashOf(cs)
    ensures LastWithKey(cs, key, k) && HashOf(cs)[key] == cs[k].phonemes
    decreases |cs|
  {
    var n := |cs| - 1;
    if key == KeyOf(cs[n].words) {
      k := n;
    } else {
      k := HashOfLastWins(cs[..n], key);
      assert forall l :: 0 <= l < n ==> cs[..n][l] == cs[l];
    }
  }
}
