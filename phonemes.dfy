/**
 * `phoneme/PhonemeDB.java` and the stateful part of
 * `phoneme/PhonemeCreator.java`: the cached phoneme database, the creator
 * holding the grapheme-to-phoneme converter, its `getPhonemes` loop, the
 * `fillDatabase` loops and the `getInstance` singleton.
 */
module Phonemes {
  import opened Base
  import opened Normalizer
  import opened Results

  /** The cached phonemes of a sentence file: a list and a map keyed by sentence. */
  class PhonemeDB {
    /** Written by `addHashContent`, read by no method. */
    var hashContent: map<string, seq<string>>
    var arrayContent: seq<PhonemeContainer>

    /** A new database holds an empty list and an empty map. */
    constructor ()
      ensures hashContent == map[] && arrayContent == []
    {
      hashContent := map[];
      arrayContent := [];
    }

    /** `getPhonemes`. */
    function GetPhonemes(): seq<PhonemeContainer>
      reads this
    {
      arrayContent
    }

    /** `setPhonemes`: what `getPhonemes` returns from now on; the map is untouched. */
    method SetPhonemes(phonemes: seq<PhonemeContainer>)
      modifies this
      ensures arrayContent == phonemes && GetPhonemes() == phonemes
      ensures hashContent == old(hashContent)
    {
      arrayContent := phonemes;
    }

    /**
     * `addHashContent`: maps `words` to `phonemes`, replacing an earlier
     * value; the other keys and the list, hence `getPhonemes`, are untouched.
     */
    method AddHashContent(words: string, phonemes: seq<string>)
      modifies this
      ensures hashContent == old(hashContent)[words := phonemes]
      ensures arrayContent == old(arrayContent) && GetPhonemes() == old(GetPhonemes())
    {
      hashContent := hashContent[words := phonemes];
    }
  }

  /** A phoneme creator: the converter and, when built from a sentence file, its database. */
  class PhonemeCreator {
    const g2p: G2P
    var pdb: PhonemeDB?

    /** The private constructor: loads the converter, no database. */
    constructor (g2p: G2P)
      ensures this.g2p == g2p && pdb == null
    {
      this.g2p := g2p;
      pdb := null;
    }

    /**
     * `PhonemeCreator(sentenceFile)`: `cached` is what the serialised
     * database file holds, `null` when it cannot be read. In that case the
     * lines of the sentence file are processed by `fillDatabase`, whose
     * result is written out and read back.
     */
    constructor FromSentenceFile(g2p: G2P, cached: PhonemeDB?, lines: seq<string>)
      ensures this.g2p == g2p
      ensures cached != null ==> pdb == cached
      ensures cached == null ==> (pdb != null && fresh(pdb) &&
        pdb.arrayContent == Containers(TrimLines(lines), g2p) &&
        pdb.hashContent == HashOf(Containers(TrimLines(lines), g2p)))
    {
      this.g2p := g2p;
      new;
      if cached != null {
        pdb := cached;
      } else {
        pdb := FillDatabase(lines);
      }
    }

    /**
     * `getPhonemes(List<String>)`: `null` gives `null`; otherwise the
     * container of every entry that does not normalise to "", in order.
     */
    method GetPhonemes(rawResults: Option<seq<string>>) returns (out: Option<seq<PhonemeContainer>>)
      ensures rawResults.None? <==> out.None?
      ensures rawResults.Some? ==> out.value == Containers(rawResults.value, g2p)
    {
      if rawResults.None? {
        return None;
      }
      var raws := rawResults.value;
      var resultsWithPhonemes: seq<PhonemeContainer> := [];
      for i := 0 to |raws|
        invariant resultsWithPhonemes == Containers(raws[..i], g2p)
      {
        ContainersSnoc(raws[..i], raws[i], g2p);
        assert raws[..i + 1] == raws[..i] + [raws[i]];
        var s := Normalize(raws[i]);
        if s == "" {
          continue;
        }
        if s[0] == ' ' {
          s := s[1..];
        }
        var words := WordsOf(s);
        var pc := PhonemeContainer(words, FirstPath(g2p(s)));
        resultsWithPhonemes := resultsWithPhonemes + [pc];
      }
      assert raws[..|raws|] == raws;
      return Some(resultsWithPhonemes);
    }

    /** `getPhonemes(Result)`: the same on the result's list. */
    method GetPhonemesOf(r: Result) returns (out: Option<seq<PhonemeContainer>>)
      ensures r.resultList.None? <==> out.None?
      ensures r.resultList.Some? ==> out.value == Containers(r.resultList.value, g2p)
    {
      out := GetPhonemes(r.GetResultList());
    }

    /**
     * The reading loop of `fillDatabase`: every line of the sentence file,
     * with its last character cut when it holds a '\r', is added in order
     * to a fresh Result.
     */
    method ReadLines(lines: seq<string>) returns (r: Result)
      ensures fresh(r) && r.resultList == Some(TrimLines(lines))
    {
      ghost var trimmed := TrimLines(lines);
      r := new Result();
      for i := 0 to |lines|
        invariant r.resultList == Some(trimmed[..i])
      {
        var temp := lines[i];
        if '\r' in temp {
          temp := temp[..|temp| - 1];
        }
        assert temp == trimmed[i];
        var _ := r.AddResult(temp);
        assert trimmed[..i + 1] == trimmed[..i] + [temp];
      }
      assert trimmed[..|lines|] == trimmed;
    }

    /**
     * `fillDatabase`: the trimmed lines become the list of a fresh Result,
     * its containers the database list, and each container's words, glued
     * by the key loop, a key of the map.
     */
    method FillDatabase(lines: seq<string>) returns (db: PhonemeDB)
      ensures fresh(db)
      ensures db.arrayContent == Containers(TrimLines(lines), g2p)
      ensures db.hashContent == HashOf(Containers(TrimLines(lines), g2p))
    {
      var r := ReadLines(lines);
      var phonemes := GetPhonemesOf(r);
      db := new PhonemeDB();
      var again := GetPhonemesOf(r);
      db.arrayContent := again.value;
      var cs := phonemes.value;
      for k := 0 to |cs|
        invariant db.hashContent == HashOf(cs[..k])
        invariant db.arrayContent == cs
      {
        var res := cs[k];
        var x := KeyLoop(res.words);
        HashOfSnoc(cs, k);
        db.hashContent := db.hashContent[x := res.phonemes];
      }
      assert cs[..|cs|] == cs;
    }
  }

  /**
   * The inner loop of `fillDatabase`: the words glued with single spaces,
   * where an accumulated "" is replaced by the next word.
   */
  method KeyLoop(words: seq<string>) returns (x: string)
    ensures x == KeyOf(words)
  {
    x := "";
    for w := 0 to |words|
      invariant x == KeyOf(words[..w])
    {
      assert words[..w + 1][..w] == words[..w];
      if x == "" {
        x := words[w];
      } else {
        x := x + " " + words[w];
      }
    }
    assert words[..|words|] == words;
  }

  /** The static field `PhonemeCreator.instance` behind `getInstance`. */
  class PhonemeCreatorRegistry {
    /** The converter the private constructor loads. */
    const g2p: G2P
    var instance: PhonemeCreator?

    /** Before the first call there is no instance. */
    constructor (g2p: G2P)
      ensures this.g2p == g2p && instance == null
    {
      this.g2p := g2p;
      instance := null;
    }

    /**
     * `getInstance`: the first call creates a creator without a database,
     * every later call returns that same object.
     */
    method GetInstance() returns (pc: PhonemeCreator)
      modifies this
      ensures old(instance) != null ==> pc == old(instance)
      ensures old(instance) == null ==> fresh(pc) && pc.g2p == g2p && pc.pdb == null
      ensures instance == pc
    {
      if instance == null {
        instance := new PhonemeCreator(g2p);
      }
      pc := instance;
    }
  }

  /** Two calls of `getInstance` hand back the same object. */
  method GetInstanceTwice(registry: PhonemeCreatorRegistry) returns (first: PhonemeCreator, second: PhonemeCreator)
    modifies registry
    ensures first == second && registry.instance == first
  {
    first := registry.GetInstance();
    second := registry.GetInstance();
  }
}
