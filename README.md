# DOCKS phonetic post-processing, modelled in Dafny

DOCKS improves the n-best list that a cloud speech recogniser returns. It
matches the list against a known list of sentences (or of words) by the
edit distance between phoneme sequences. This project models the engine:

- **Phoneme-list builder** (`PhonemeCreator`):
  - normalises each raw string: deletes special characters, collapses
    spaces, drops one leading space and skips empty entries;
  - lowercases the text and splits it into words;
  - keeps the first pronunciation path of the grapheme-to-phoneme
    converter;
  - builds the phoneme database of a sentence file (`fillDatabase`);
  - hands out one shared creator through `getInstance`.
- **Sentence-list post-processors**, in both versions:
  - `postprocessor` forms the cross product of hypotheses and grammar
    entries, sorts it stably by distance (`Collections.sort` under
    `LevenshteinResult.compareTo`) and keeps the first k;
  - `postprocessor2` has a one-best scan for k = 1 that keeps the first
    strict minimum;
  - both have `calculateAgainstArray`.
- **Word-list post-processor**: splits the best hypothesis on spaces,
  matches every word on its own and joins the winners with single spaces.
- **Data holders** `Result` and `PhonemeDB`, the `LevenshteinResult`
  comparator, and the request parser of the socket server.

The grapheme-to-phoneme converter is a foreign library. It enters as a
function value `g2p` from a text to its pronunciation paths. The token-level
edit distance that the source calls through `Levenshtein.diff` is not part
of this model's sources. It is defined here as the classic unit-cost edit
distance over phoneme sequences (`EditDistance.Lev`).

Java's behaviour is written out where it matters:
- `split` drops trailing empty strings, and a string without the separator
  splits into itself, so `"".split(x)` is `[""]` (`JavaText.Split`);
- `null` is `Option.None`;
- a thrown exception is an `Outcome.Err` naming the exception.

Modules, one file each:
- `Base`, `JavaText`, `EditDistance`;
- `LevenshteinResults`, `Results`, `Normalizer`, `Phonemes`;
- `Ranking`, `Matching`;
- `SentencelistV1` (`postprocessor`), `SentencelistV2` (`postprocessor2`);
- `Wordlist`, `SocketRequest`.

## Model

| member | source | states |
|---|---|---|
| JavaText.DropTrailingEmpty | src/main/java/de/unihamburg/informatik/wtm/docks/SocketPostProcessor.java:87-88 | the result is a prefix of the pieces, it does not end in an empty string, and only empty strings were cut off |
| JavaText.ToLower | src/main/java/de/unihamburg/informatik/wtm/docks/phoneme/PhonemeCreator.java:107 | same length; no capital letter remains; each capital becomes the small letter at the same place in the alphabet; every other character is unchanged |
| JavaText.ToLowerIdempotent | src/main/java/de/unihamburg/informatik/wtm/docks/phoneme/PhonemeCreator.java:107 | lowercasing twice is lowercasing once |
| JavaText.SplitJoin | src/main/java/de/unihamburg/informatik/wtm/docks/postprocessor/WordlistPostProcessor.java:57 | splitting the join of some strings gives them back when none holds the separator and the last one is not empty (or is the only one) |
| JavaText.JoinSplit | src/main/java/de/unihamburg/informatik/wtm/docks/postprocessor/WordlistPostProcessor.java:57 | joining the pieces of a split gives back a non-empty string that does not end with the separator |
| Normalizer.StripSpecial | src/main/java/de/unihamburg/informatik/wtm/docks/phoneme/PhonemeCreator.java:95 | only characters of `[a-zA-Z 0-9]` remain, and the string gets no longer |
| Normalizer.StripSpecialCounts | src/main/java/de/unihamburg/informatik/wtm/docks/phoneme/PhonemeCreator.java:95 | every kept character survives exactly as often as in the input; every other character disappears |
| Normalizer.StripSpecialIdentity | src/main/java/de/unihamburg/informatik/wtm/docks/phoneme/PhonemeCreator.java:95 | text made only of kept characters is unchanged |
| Normalizer.CollapseSpaces | src/main/java/de/unihamburg/informatik/wtm/docks/phoneme/PhonemeCreator.java:96 | the result is no longer, empty exactly when the input is, and starts with the input's first character |
| Normalizer.CollapseNoDoubleSpace | src/main/java/de/unihamburg/informatik/wtm/docks/phoneme/PhonemeCreator.java:96 | after collapsing no two spaces are neighbours |
| Normalizer.CollapseCount | src/main/java/de/unihamburg/informatik/wtm/docks/phoneme/PhonemeCreator.java:96 | collapsing introduces no character |
| Normalizer.CollapseKeepsNonSpaces | src/main/java/de/unihamburg/informatik/wtm/docks/phoneme/PhonemeCreator.java:96 | the characters other than spaces stay, in order |
| Normalizer.CollapseIdentity | src/main/java/de/unihamburg/informatik/wtm/docks/phoneme/PhonemeCreator.java:96 | text without a double space is unchanged |
| Normalizer.CollapseRun | src/main/java/de/unihamburg/informatik/wtm/docks/phoneme/PhonemeCreator.java:96 | a run of one or more spaces, followed by text that does not start with a space, becomes exactly one space |
| Normalizer.CollapseAppend | src/main/java/de/unihamburg/informatik/wtm/docks/phoneme/PhonemeCreator.java:96 | text that does not end in a space collapses on its own, whatever follows; with `CollapseRun` this fixes the result on every input |
| Normalizer.NormalizeClean | src/main/java/de/unihamburg/informatik/wtm/docks/phoneme/PhonemeCreator.java:95-96 | the normalised string holds only ASCII letters, digits and spaces, with no two spaces in a row |
| Normalizer.DropLeadingSpace | src/main/java/de/unihamburg/informatik/wtm/docks/phoneme/PhonemeCreator.java:101-102 | at most one leading space goes; after collapsing, no space is left at the front |
| Normalizer.ContainersOfOne | src/main/java/de/unihamburg/informatik/wtm/docks/phoneme/PhonemeCreator.java:92-124 | a one-element list yields that element's container, or nothing when it normalises to "" |
| Normalizer.ContainersSnoc | src/main/java/de/unihamburg/informatik/wtm/docks/phoneme/PhonemeCreator.java:92-124 | one more raw string appends its container, if it has one, at the end |
| Normalizer.ContainersCons | src/main/java/de/unihamburg/informatik/wtm/docks/phoneme/PhonemeCreator.java:92-124 | one more raw string in front puts its container, if it has one, in front |
| Normalizer.ContainersInOrder | src/main/java/de/unihamburg/informatik/wtm/docks/phoneme/PhonemeCreator.java:92-124 | the containers come from strictly increasing input positions and are those positions' entries; every skipped position normalises to "" |
| Normalizer.ContainersKeepAll | src/main/java/de/unihamburg/informatik/wtm/docks/phoneme/PhonemeCreator.java:92-124 | when no entry normalises to "", there is one container per entry, in place |
| Normalizer.EmptyEntryHidesTheRest | src/main/java/de/unihamburg/informatik/wtm/docks/phoneme/PhonemeCreator.java:97-100 | the loop as written returns nothing for an empty first line followed by a real entry, while the filter keeps that entry |
| Normalizer.EmptyLineSplitsDatabase | src/main/java/de/unihamburg/informatik/wtm/docks/phoneme/PhonemeCreator.java:234-253 | with an empty first line, the first `getPhonemes` call yields no container and removes that line, so the key map stays empty while the second call fills the database list with every later line |
| Normalizer.ContainersFromIsFilter | src/main/java/de/unihamburg/informatik/wtm/docks/phoneme/PhonemeCreator.java:92-124 | without an element equal to "", the loop as written from any position is the filter of the rest |
| Normalizer.AsWrittenIsFilterWithoutEmpty | src/main/java/de/unihamburg/informatik/wtm/docks/phoneme/PhonemeCreator.java:97-100 | without an element equal to "", the removal does nothing and the loop as written is the filter |
| Normalizer.PlainEntry | src/main/java/de/unihamburg/informatik/wtm/docks/phoneme/PhonemeCreator.java:95-109 | plain text gives a container whose words are the text's words and which reads back as the text lowercased |
| Normalizer.PlainContainers | src/test/java/de/unihamburg/informatik/wtm/docks/phoneme/PhonemeCreatorTest.java:21-38 | for plain inputs there is one container per input, and each reads back as its input lowercased |
| Normalizer.EntryIgnoresSpecial | src/main/java/de/unihamburg/informatik/wtm/docks/phoneme/PhonemeCreator.java:95 | a character outside `[a-zA-Z 0-9]` anywhere makes no difference to the container |
| Normalizer.PlainAfterStrip | src/main/java/de/unihamburg/informatik/wtm/docks/phoneme/PhonemeCreator.java:95-109 | a string that is plain once its special characters are deleted reads back as that text lowercased |
| Normalizer.ImDone | src/test/java/de/unihamburg/informatik/wtm/docks/postprocessor/SentencelistPostProcessorTest.java:50-61 | "I'm done" gives the words "im" and "done" and reads back as "im done" |
| Normalizer.TrimLine | src/main/java/de/unihamburg/informatik/wtm/docks/phoneme/PhonemeCreator.java:225-227 | a line holding '\r' anywhere loses its last character; any other line is kept whole |
| Normalizer.TrimLineCrLf | src/main/java/de/unihamburg/informatik/wtm/docks/phoneme/PhonemeCreator.java:225-226 | a Windows line end is removed exactly |
| Normalizer.TrimLines | src/main/java/de/unihamburg/informatik/wtm/docks/phoneme/PhonemeCreator.java:223-230 | every line is trimmed, in place |
| Normalizer.KeyOfIsJoin | src/main/java/de/unihamburg/informatik/wtm/docks/phoneme/PhonemeCreator.java:244-252 | the key loop joins the words with single spaces unless an empty first word is followed by others, and gives a non-empty key for a non-empty first word |
| Normalizer.EntryKey | src/main/java/de/unihamburg/informatik/wtm/docks/phoneme/PhonemeCreator.java:243-253 | the key stored for a container is its `getResult` |
| Normalizer.HashOfHasEveryKey | src/main/java/de/unihamburg/informatik/wtm/docks/phoneme/PhonemeCreator.java:243-254 | every container's key is in the map |
| Normalizer.HashOfLastWins | src/main/java/de/unihamburg/informatik/wtm/docks/phoneme/PhonemeCreator.java:243-254 | each key comes from a container and maps to the phonemes of the last container with that key |
| EditDistance.LevSelf | src/main/java/de/unihamburg/informatik/wtm/docks/postprocessor/SentencelistPostProcessor.java:102 | a phoneme sequence is at distance 0 from itself |
| EditDistance.LevZeroIff | src/main/java/de/unihamburg/informatik/wtm/docks/postprocessor/SentencelistPostProcessor.java:102 | the distance is 0 exactly when the sequences are equal |
| EditDistance.LevSymmetric | src/main/java/de/unihamburg/informatik/wtm/docks/postprocessor/SentencelistPostProcessor.java:102 | the distance does not depend on the order of the arguments |
| EditDistance.LevAtMostLonger | src/main/java/de/unihamburg/informatik/wtm/docks/postprocessor/SentencelistPostProcessor.java:102 | the distance is at most the longer length |
| EditDistance.LevAtLeastLengthGap | src/main/java/de/unihamburg/informatik/wtm/docks/postprocessor/SentencelistPostProcessor.java:102 | the distance is at least the difference of the lengths |
| LevenshteinResults.CompareTo | src/main/java/de/unihamburg/informatik/wtm/docks/data/LevenshteinResult.java:59-68 | -1, 0 or 1 exactly when the distance is smaller, equal or larger |
| LevenshteinResults.GettersReturnArguments | src/main/java/de/unihamburg/informatik/wtm/docks/data/LevenshteinResult.java:39-56 | `getDistance` and `getIndex` return the constructor's arguments |
| LevenshteinResults.CompareIgnoresIndex | src/main/java/de/unihamburg/informatik/wtm/docks/data/LevenshteinResult.java:63-64 | changing the indices never changes the comparison; equal distances compare 0 |
| LevenshteinResults.CompareAntisymmetric | src/main/java/de/unihamburg/informatik/wtm/docks/data/LevenshteinResult.java:59-68 | swapping the arguments negates the result |
| LevenshteinResults.CompareTotalPreorder | src/main/java/de/unihamburg/informatik/wtm/docks/data/LevenshteinResult.java:59-68 | the comparison is total and transitive, strictly and weakly |
| Ranking.Row | src/main/java/de/unihamburg/informatik/wtm/docks/postprocessor/SentencelistPostProcessor.java:101-104 | one candidate per grammar entry, in index order, carrying that entry's distance and index |
| Ranking.CrossSnoc | src/main/java/de/unihamburg/informatik/wtm/docks/postprocessor/SentencelistPostProcessor.java:100-105 | one more hypothesis appends its row |
| Ranking.CrossLength | src/main/java/de/unihamburg/informatik/wtm/docks/postprocessor/SentencelistPostProcessor.java:98-105 | the candidate list has exactly |speech|·|grammar| entries |
| Ranking.CrossAt | src/main/java/de/unihamburg/informatik/wtm/docks/postprocessor/SentencelistPostProcessor.java:100-104 | position i·|grammar| + j holds the distance of hypothesis i to grammar entry j, with index j |
| Ranking.CrossPosition | src/main/java/de/unihamburg/informatik/wtm/docks/postprocessor/SentencelistPostProcessor.java:100-104 | every position is the row-major position of some (hypothesis, grammar entry) pair and holds its candidate |
| Ranking.CrossMembers | src/main/java/de/unihamburg/informatik/wtm/docks/postprocessor/SentencelistPostProcessor.java:98-105 | a candidate is in the list exactly when some pair produces it |
| Ranking.Insert | src/main/java/de/unihamburg/informatik/wtm/docks/postprocessor/SentencelistPostProcessor.java:108 | inserting adds exactly the one element |
| Ranking.InsertSorted | src/main/java/de/unihamburg/informatik/wtm/docks/postprocessor/SentencelistPostProcessor.java:108 | inserting into a sorted list keeps it sorted by distance |
| Ranking.InsertStable | src/main/java/de/unihamburg/informatik/wtm/docks/postprocessor/SentencelistPostProcessor.java:108 | inserting keeps the inserted element in front of the entries of its distance that were already there |
| Ranking.SortIsSorted | src/main/java/de/unihamburg/informatik/wtm/docks/postprocessor/SentencelistPostProcessor.java:108 | the sorted list is in non-decreasing distance order |
| Ranking.SortPermutes | src/main/java/de/unihamburg/informatik/wtm/docks/postprocessor/SentencelistPostProcessor.java:108 | the sorted list is a permutation of its input |
| Ranking.SortIsStable | src/main/java/de/unihamburg/informatik/wtm/docks/postprocessor/SentencelistPostProcessor.java:108 | the entries of any one distance keep their original order |
| Ranking.TopK | src/main/java/de/unihamburg/informatik/wtm/docks/postprocessor/SentencelistPostProcessor.java:110 | the first min(k, n) entries, none when k ≤ 0 |
| Ranking.RankLength | src/main/java/de/unihamburg/informatik/wtm/docks/postprocessor/SentencelistPostProcessor.java:110 | min(k, |hyps|·|grammar|) candidates, none when k ≤ 0 |
| Ranking.RankOrdered | src/main/java/de/unihamburg/informatik/wtm/docks/postprocessor/SentencelistPostProcessor.java:108-115 | the returned candidates are in non-decreasing distance order |
| Ranking.RankFromGrammar | src/main/java/de/unihamburg/informatik/wtm/docks/postprocessor/SentencelistPostProcessor.java:111-114 | every returned candidate names a grammar entry and is the candidate of some pair |
| Ranking.SortedCrossIndicesIn | src/main/java/de/unihamburg/informatik/wtm/docks/postprocessor/SentencelistPostProcessor.java:111-112 | every sorted candidate names an index valid for `phonemesGrammar.get` |
| Ranking.RankStable | src/main/java/de/unihamburg/informatik/wtm/docks/postprocessor/SentencelistPostProcessor.java:108-110 | the returned candidates of one distance are a prefix of that distance's candidates in computation order |
| Ranking.RankHeadIsGlobalMin | src/main/java/de/unihamburg/informatik/wtm/docks/postprocessor/SentencelistPostProcessor.java:100-114 | the first returned candidate has the smallest distance over the whole cross product |
| Ranking.ScanMinSnoc | src/main/java/de/unihamburg/informatik/wtm/docks/postprocessor2/SentencelistPostProcessor.java:113-119 | one more entry replaces (minDist, result) only on a strictly smaller distance |
| Ranking.ScanMinFindsFirstMin | src/main/java/de/unihamburg/informatik/wtm/docks/postprocessor2/SentencelistPostProcessor.java:99-122 | the scan keeps the first entry of smallest distance, or (10000, -1) exactly when no distance is below 10000 |
| Ranking.SortedHeadIsFirstMin | src/main/java/de/unihamburg/informatik/wtm/docks/postprocessor/SentencelistPostProcessor.java:108 | the head of the stably sorted list is the first entry of smallest distance |
| Ranking.ScanMinIsSortedHead | src/main/java/de/unihamburg/informatik/wtm/docks/postprocessor2/SentencelistPostProcessor.java:109-147 | the scan's winner is the head of the stably sorted list, distance and index alike |
| Ranking.FastPathIsSortedHead | src/main/java/de/unihamburg/informatik/wtm/docks/postprocessor2/SentencelistPostProcessor.java:109-147 | on the cross product, the one-best scan's (minDist, result) is the single candidate of the top-1 ranking, or -1 when no distance is below 10000 |
| Ranking.FastPathWinner | src/main/java/de/unihamburg/informatik/wtm/docks/postprocessor2/SentencelistPostProcessor.java:109-122 | the scan picks the grammar index of the first pair, in row-major order, with the global minimum distance |
| Ranking.FirstMinAtPair | src/main/java/de/unihamburg/informatik/wtm/docks/postprocessor2/SentencelistPostProcessor.java:109-122 | the first minimum is no larger than any pair's distance, and strictly smaller than that of any earlier pair |
| Ranking.FirstMinOverPairs | src/main/java/de/unihamburg/informatik/wtm/docks/postprocessor2/SentencelistPostProcessor.java:109-122 | the same for all pairs at once |
| Matching.Names | src/main/java/de/unihamburg/informatik/wtm/docks/postprocessor/SentencelistPostProcessor.java:110-115 | one string per candidate: the text of the grammar entry it names |
| Matching.RecognizeLength | src/main/java/de/unihamburg/informatik/wtm/docks/postprocessor/SentencelistPostProcessor.java:110 | min(numberOfResults, |speech|·|grammar|) strings, none when numberOfResults ≤ 0 |
| Matching.RecognizeFromGrammar | src/main/java/de/unihamburg/informatik/wtm/docks/postprocessor/SentencelistPostProcessor.java:111-114 | each returned string is `getResult` of a grammar entry, and its candidate is that entry's distance to some hypothesis |
| Matching.RecognizeBestFirst | src/main/java/de/unihamburg/informatik/wtm/docks/postprocessor/SentencelistPostProcessor.java:100-114 | the first string belongs to a grammar entry at the smallest distance over all pairs |
| Matching.OneBestAgreesWithRank | src/main/java/de/unihamburg/informatik/wtm/docks/postprocessor2/SentencelistPostProcessor.java:106-147 | the one-best scan names the same sentence as the sorted ranking with k = 1, and keeps -1 exactly when no distance is below 10000 |
| Matching.SingleSentenceGrammar | src/main/java/de/unihamburg/informatik/wtm/docks/postprocessor/SentencelistPostProcessor.java:100-115 | with one grammar sentence, every returned string is that sentence, min(k, |speech|) times |
| Matching.SpecialCharactersExample | src/test/java/de/unihamburg/informatik/wtm/docks/postprocessor/SentencelistPostProcessorTest.java:47-61 | "I'm gone" against the one sentence "I'm done" returns "im done" |
| Matching.CandidateList | src/main/java/de/unihamburg/informatik/wtm/docks/postprocessor/SentencelistPostProcessor.java:98-105 | the nested loops build exactly the cross product, hypothesis-major then grammar index |
| Matching.RankedResult | src/main/java/de/unihamburg/informatik/wtm/docks/postprocessor/SentencelistPostProcessor.java:91-115 | a fresh Result holding the grammar sentences of the first k candidates of the stably sorted cross product |
| Matching.ResultOf | src/main/java/de/unihamburg/informatik/wtm/docks/postprocessor/SentencelistPostProcessor.java:131-135 | a fresh Result listing the input and then the array's strings |
| Matching.Distances | src/main/java/de/unihamburg/informatik/wtm/docks/postprocessor/SentencelistPostProcessor.java:129-145 | as many slots as the array has strings; slot q holds the distance of container q + 1 to container 0, counted by container and not by array string, and the slots beyond the last container stay 0 |
| Matching.DistancesStep | src/main/java/de/unihamburg/informatik/wtm/docks/postprocessor/SentencelistPostProcessor.java:142-145 | one loop step fills slot i - 1 with the distance of container i to container 0 and changes nothing else |
| Matching.DistancesAligned | src/main/java/de/unihamburg/informatik/wtm/docks/postprocessor/SentencelistPostProcessor.java:139-145 | when every string yields a container, slot i is the distance of string i to the input: 0 exactly for equal phonemes, between the length gap and the longer length |
| Results.Result.constructor | src/main/java/de/unihamburg/informatik/wtm/docks/data/Result.java:54-58 | a new Result has an empty list and no phoneme strings |
| Results.Result.SetHypPhoneme | src/main/java/de/unihamburg/informatik/wtm/docks/data/Result.java:63-72 | the getter returns the stored value; the other fields are unchanged |
| Results.Result.SetRefPhoneme | src/main/java/de/unihamburg/informatik/wtm/docks/data/Result.java:77-86 | the getter returns the stored value; the other fields are unchanged |
| Results.Result.SetResultList | src/main/java/de/unihamburg/informatik/wtm/docks/data/Result.java:91-100 | the list is replaced wholesale and `getResultList` returns it |
| Results.Result.AddResult | src/main/java/de/unihamburg/informatik/wtm/docks/data/Result.java:98-107 | `s` is appended at the end, and earlier entries and the other fields are unchanged; on a `null` list the call fails with a NullPointerException and changes nothing |
| Results.Result.GetBestResult | src/main/java/de/unihamburg/informatik/wtm/docks/data/Result.java:112-114 | element 0, an index failure on an empty list and a null-pointer failure on a `null` list |
| Results.Result.SetConfidence | src/main/java/de/unihamburg/informatik/wtm/docks/data/Result.java:119-121 | the confidence is stored; the other fields are unchanged |
| Results.Result.GetResult | src/main/java/de/unihamburg/informatik/wtm/docks/data/Result.java:126-130 | a fresh array with the list's length and elements, in order |
| Phonemes.PhonemeDB.constructor | src/main/java/de/unihamburg/informatik/wtm/docks/phoneme/PhonemeDB.java:39-40 | a new database has an empty list and an empty map |
| Phonemes.PhonemeDB.SetPhonemes | src/main/java/de/unihamburg/informatik/wtm/docks/phoneme/PhonemeDB.java:42-48 | `getPhonemes` returns what was stored; the map is unchanged |
| Phonemes.PhonemeDB.AddHashContent | src/main/java/de/unihamburg/informatik/wtm/docks/phoneme/PhonemeDB.java:50-52 | the key maps to the value, overwriting; other keys and the list are unchanged |
| Phonemes.PhonemeCreator.constructor | src/main/java/de/unihamburg/informatik/wtm/docks/phoneme/PhonemeCreator.java:139-147 | the creator holds the converter and no database |
| Phonemes.PhonemeCreator.FromSentenceFile | src/main/java/de/unihamburg/informatik/wtm/docks/phoneme/PhonemeCreator.java:164-209 | a readable cached database is used as is; otherwise the database is the one `fillDatabase` builds from the lines |
| Phonemes.PhonemeCreator.GetPhonemes | src/main/java/de/unihamburg/informatik/wtm/docks/phoneme/PhonemeCreator.java:78-132 | `null` gives `null`; otherwise the containers of the entries that do not normalise to "", in input order |
| Phonemes.PhonemeCreator.GetPhonemesOf | src/main/java/de/unihamburg/informatik/wtm/docks/phoneme/PhonemeCreator.java:68-70 | the same on the result's list |
| Phonemes.PhonemeCreator.ReadLines | src/main/java/de/unihamburg/informatik/wtm/docks/phoneme/PhonemeCreator.java:218-230 | a fresh Result whose list is every line in order, each with its last character cut when it holds a carriage return |
| Phonemes.KeyLoop | src/main/java/de/unihamburg/informatik/wtm/docks/phoneme/PhonemeCreator.java:244-252 | the key a container is stored under: its words glued with single spaces (`KeyOf`, equal to the space join whenever the first word is not empty, by `Normalizer.KeyOfIsJoin`) |
| Phonemes.PhonemeCreator.FillDatabase | src/main/java/de/unihamburg/informatik/wtm/docks/phoneme/PhonemeCreator.java:211-278 | the database list is the containers of the trimmed lines, and the map sends each container's key to its phonemes, later entries winning |
| Phonemes.PhonemeCreatorRegistry.constructor | src/main/java/de/unihamburg/informatik/wtm/docks/phoneme/PhonemeCreator.java:60 | no instance before the first call |
| Phonemes.PhonemeCreatorRegistry.GetInstance | src/main/java/de/unihamburg/informatik/wtm/docks/phoneme/PhonemeCreator.java:152-157 | the first call creates a creator without a database; every later call returns the same object |
| Phonemes.GetInstanceTwice | src/test/java/de/unihamburg/informatik/wtm/docks/phoneme/PhonemeCreatorTest.java:13-17 | two calls return the same object |
| SentencelistV1.SentencelistPostProcessor.FromSentenceFile | src/main/java/de/unihamburg/informatik/wtm/docks/postprocessor/SentencelistPostProcessor.java:65-74 | the grammar is the database list of a creator built from the sentence file; the defaults -1 and "LevenshteinRecognizer" stay |
| SentencelistV1.SentencelistPostProcessor.FromSentenceFileNamed | src/main/java/de/unihamburg/informatik/wtm/docks/postprocessor/SentencelistPostProcessor.java:59-63 | as above, then the recognizer id and the name are set |
| SentencelistV1.SentencelistPostProcessor.FromList | src/main/java/de/unihamburg/informatik/wtm/docks/postprocessor/SentencelistPostProcessor.java:76-80 | the shared creator turns the sentences into the grammar |
| SentencelistV1.SentencelistPostProcessor.RecognizeFromResult | src/main/java/de/unihamburg/informatik/wtm/docks/postprocessor/SentencelistPostProcessor.java:88-119 | a fresh Result with the grammar sentences of the k best candidates; empty when the phoneme list is `null` |
| SentencelistV1.SentencelistPostProcessor.CalculateAgainstArray | src/main/java/de/unihamburg/informatik/wtm/docks/postprocessor/SentencelistPostProcessor.java:128-147 | an array of `array.length` slots where slot i - 1 holds the distance of container i to container 0; with no container at all, `get(0)` throws |
| SentencelistV2.ScanNearest | src/main/java/de/unihamburg/informatik/wtm/docks/postprocessor2/SentencelistPostProcessor.java:99-122 | the nested loops end with the scan's (minDist, result) over the cross product |
| SentencelistV2.SentencelistPostProcessor.FromSentenceFile | src/main/java/de/unihamburg/informatik/wtm/docks/postprocessor2/SentencelistPostProcessor.java:64-73 | the grammar is the creator's database list; the recognizer id is -1 |
| SentencelistV2.SentencelistPostProcessor.FromSentenceFileNamed | src/main/java/de/unihamburg/informatik/wtm/docks/postprocessor2/SentencelistPostProcessor.java:58-62 | as above, then the recognizer id and the name are set |
| SentencelistV2.SentencelistPostProcessor.FromList | src/main/java/de/unihamburg/informatik/wtm/docks/postprocessor2/SentencelistPostProcessor.java:75-81 | the shared creator turns the sentences into the grammar |
| SentencelistV2.SentencelistPostProcessor.RecognizeFromResult | src/main/java/de/unihamburg/informatik/wtm/docks/postprocessor2/SentencelistPostProcessor.java:90-155 | `null` phonemes return `r` itself. With k = 1 the result holds exactly one sentence, the top-1 ranking's, and `get(-1)` fails exactly when no distance is below 10000. Otherwise the k best sentences of the stable ranking come back |
| SentencelistV2.SentencelistPostProcessor.CalculateAgainstArray | src/main/java/de/unihamburg/informatik/wtm/docks/postprocessor2/SentencelistPostProcessor.java:164-181 | as in the first variant, except that with no container nothing throws and every slot stays 0 |
| Wordlist.MatchAllOk | src/main/java/de/unihamburg/informatik/wtm/docks/postprocessor/WordlistPostProcessor.java:61-70 | on success there is one match per word, and each word's match stands in its place |
| Wordlist.MatchAllFailure | src/main/java/de/unihamburg/informatik/wtm/docks/postprocessor/WordlistPostProcessor.java:61-70 | on failure, the failure is that of the first word without a match, and every earlier word has one |
| Wordlist.MatchAllOkIff | src/main/java/de/unihamburg/informatik/wtm/docks/postprocessor/WordlistPostProcessor.java:61-70 | the word loop succeeds exactly when every word has a match |
| Wordlist.WordMatchFails | src/main/java/de/unihamburg/informatik/wtm/docks/postprocessor/WordlistPostProcessor.java:62-68 | a word has no match exactly when it normalises to "", the word list is empty or no result is wanted; the failure is `get(0)`'s |
| Wordlist.WordMatchIsNearest | src/main/java/de/unihamburg/informatik/wtm/docks/postprocessor/WordlistPostProcessor.java:62-66 | a word's match is a word-list entry at the smallest phoneme distance to the word |
| Wordlist.EmptyWordFails | src/main/java/de/unihamburg/informatik/wtm/docks/postprocessor/WordlistPostProcessor.java:57-68 | a hypothesis with an empty word from a double space, or a word of punctuation only, fails with `get(0)`'s failure |
| Wordlist.GluedSnoc | src/main/java/de/unihamburg/informatik/wtm/docks/postprocessor/WordlistPostProcessor.java:65-69 | the first match becomes `res`, and every later one is added after a single space |
| Wordlist.WordlistPostProcessor.constructor | src/main/java/de/unihamburg/informatik/wtm/docks/postprocessor/WordlistPostProcessor.java:42-45 | the inner matcher is built from the word file with numberOfResults = 1 |
| Wordlist.WordlistPostProcessor.MatchWord | src/main/java/de/unihamburg/informatik/wtm/docks/postprocessor/WordlistPostProcessor.java:62-66 | each word goes alone, in a one-element Result, through the inner matcher |
| Wordlist.WordlistPostProcessor.MatchWords | src/main/java/de/unihamburg/informatik/wtm/docks/postprocessor/WordlistPostProcessor.java:58-70 | the loop ends with the word matches, in word order, joined by single spaces, or with the first word's failure; `null` when there are no words |
| Wordlist.WordlistPostProcessor.RecognizeFromResult | src/main/java/de/unihamburg/informatik/wtm/docks/postprocessor/WordlistPostProcessor.java:53-74 | a fresh Result holding exactly one string: the per-word matches of the best hypothesis's words, in order, joined by single spaces; failures of either `getBestResult` are passed on |
| SocketRequest.ParseExpectedSentences | src/main/java/de/unihamburg/informatik/wtm/docks/SocketPostProcessor.java:84-92 | the text before the first `===`, split on `|`, in order; index 0 of an empty split throws |
| SocketRequest.ParseGoogleResult | src/main/java/de/unihamburg/informatik/wtm/docks/SocketPostProcessor.java:94-102 | a fresh Result holding the second `===` part split on `|`, in order; fewer than two parts throw on index 1 |
| SocketRequest.NoPartSeparator | src/main/java/de/unihamburg/informatik/wtm/docks/SocketPostProcessor.java:87-97 | a request without `===` has expected sentences but no hypotheses: `parseGoogleResult` throws on index 1 |
| SocketRequest.SeparatorsOnly | src/main/java/de/unihamburg/informatik/wtm/docks/SocketPostProcessor.java:87 | a request made only of `===` splits into no part, so both parsers throw |
| SocketRequest.RequestRoundTrip | src/main/java/de/unihamburg/informatik/wtm/docks/SocketPostProcessor.java:84-102 | both parts of a well-formed request come back whole and in order; a single empty expected sentence survives as one empty sentence |

## Left out

- The grapheme-to-phoneme converter and the loading of its model are a foreign library. They are the parameter `g2p`, so no statement depends on particular phonemes.
- The edit distance class that the source calls is not part of this model's sources. `EditDistance.Lev` is the classic unit-cost definition, and its triangle inequality is not proved.
- Serialisation and file I/O are parameters:
  - reading the cached database is the parameter `cached` (`null` when unreadable);
  - the sentence file is its list of lines, so `Scanner` tokenisation on `\n` is not modelled;
  - writing the `.ser` file and reading it back are taken to give the same database;
  - `Result.save`, `load`, `writeToFile` and `FileProcessor` are not modelled.
- Phonemes.PhonemeCreator.constructor: an IOException from loading the converter is not modelled; the source would leave the converter `null`.
- `getPhonemeDb()` is not among this model's sources. It is read as the creator's database field, as the second variant reads `pc.pdb` directly.
- Normalizer.KeyOfIsJoin: words are never `null` here, so the key loop's break at the first `null` word is not modelled.
- Confidence, raw result and `Result.print` are left out. No modelled code computes them, and they are floating point; `confidence` is a `real` that setters store.
- These are not modelled:
  - the socket server's accept loop and network I/O;
  - the `synchronized` on `getInstance`, which is concurrency (only the singleton state is modelled);
  - `SphinxBasedPostProcessor`, `DocksMain`, logging and `Printer` calls.
- The classes behind `PhonemeContainer` and the second variant's three-argument `LevenshteinResult(diff, j, i)` are not among this model's sources, and neither are the second variant's own `phoneme2.PhonemeCreator` and `data2.Result`:
  - a container is the record (words, phonemes), and its `getResult` is the words joined by single spaces;
  - the second variant's candidate is the same (distance, index) pair, and its `getId` is the grammar index it was built with;
  - the second variant's creator and Result are taken to behave like the first variant's, so `SentencelistV2` uses `Phonemes.PhonemeCreator` and `Results.Result`.
- `ToLower` lowercases ASCII letters only. Non-ASCII letters cannot reach it, because they are deleted first.
- Phonemes.PhonemeCreator.GetPhonemes: follows the corrected filter (see Findings). It does not remove anything from the caller's list and does not stop early; that as-written behaviour is stated separately, on values (`Normalizer.ContainersAsWritten`, `Normalizer.RemainingFrom`).
- Wordlist.WordlistPostProcessor.RecognizeFromResult: a hypothesis made only of spaces gives no words, and the source then stores `null` as the one entry. Strings here cannot be `null`, so the model reports the failure `NullString` instead.
- Matching.Names: an out-of-range index would make `get` throw; here it yields "". No such index occurs, because every sorted candidate names a grammar entry (`Ranking.SortedCrossIndicesIn`).
- `calculateAgainstArray` counts slots by container, not by array string. When the input or an array string normalises to "", later distances move down one slot, and the input's own distance is taken against a reference. The model states this as written (`Matching.Distances`); only `Matching.DistancesAligned` assumes that every string yields a container.
- Several loops are separate methods: `Phonemes.PhonemeCreator.ReadLines`, `Phonemes.KeyLoop`, `Matching.CandidateList`, `Matching.RankedResult`, `Matching.ResultOf`, `SentencelistV2.ScanNearest`, `Wordlist.WordlistPostProcessor.MatchWord` and `MatchWords`. Their callers then read as the source does.
- `Collections.sort` is library code. It is specified by a stable insertion sort on sequences (`Ranking.SortByDistance`), not by the library's merge sort, and it is not done in place.

## Findings

| source | as written | input that shows it | evidently intended | confidence | as-written member | corrected member |
|---|---|---|---|---|---|---|
| src/main/java/de/unihamburg/informatik/wtm/docks/phoneme/PhonemeCreator.java:97-100 | `rawResults.remove(s)` removes the first element equal to "" from the list that the for-each loop iterates. The iterator then stops, or throws a ConcurrentModificationException that the catch at lines 126-128 swallows. Either way, every later entry is lost. `fillDatabase` calls `getPhonemes(r)` twice on the same list (lines 234 and 240): the first call removes the empty line, so the database list gets the later lines while the key map stays empty (`Normalizer.EmptyLineSplitsDatabase`). | `["", "yes"]`: an empty first line followed by a real sentence gives no container at all | skip the entry that normalises to "" and go on with the rest, in input order | not executed | Normalizer.EmptyEntryHidesTheRest | Normalizer.ContainersInOrder |
