/**
  The spelling corrector `AutoCorrect`: a frequency table built once from a
  corpus, the total number of tokens, and a memo cache from a queried word to
  the correction returned for it. Lookups are literal and case-sensitive; the
  word is corrected as given, punctuation included.
*/
module Corrector {
  import opened Tokens
  import opened Frequency
  import opened Edits
  import opened Tiers

  /** The exception `word_probability` raises on an empty corpus. */
  datatype Error = ZeroDivisionError

  datatype Result<T> = Success(value: T) | Failure(error: Error)

  /** `count / total` as a real number. */
  function Ratio(count: nat, total: nat): (r: real)
    requires total > 0
    ensures r * total as real == count as real
  {
    count as real / total as real
  }

  /** A count no larger than the total gives a probability in [0, 1]. */
  lemma RatioBounds(count: nat, total: nat)
    requires total > 0 && count <= total
    ensures 0.0 <= Ratio(count, total) <= 1.0
    ensures count == 0 <==> Ratio(count, total) == 0.0
  {
  }

  /** With a fixed positive total, comparing probabilities is comparing counts. */
  lemma RatioOrder(a: nat, b: nat, total: nat)
    requires total > 0
    ensures Ratio(a, total) > Ratio(b, total) <==> a > b
  {
    assert Ratio(a, total) - Ratio(b, total) == (a - b) as real / total as real;
  }

  /**
    What a strict running maximum over `cands`, started at probability 0 with
    `w` as the answer, may return in some iteration order: `w` itself when
    every candidate has count 0, and otherwise a candidate of the highest
    count.
  */
  ghost predicate IsBestCorrection(counts: map<string, nat>, cands: set<string>, w: string, r: string) {
    || (r == w && forall c :: c in cands ==> Count(counts, c) == 0)
    || (r in cands && Count(counts, r) > 0 && forall c :: c in cands ==> Count(counts, c) <= Count(counts, r))
  }

  /** Every cached answer is the word itself or a counted word within two edits of it. */
  ghost predicate CacheSound(cache: map<string, string>, counts: map<string, nat>) {
    forall k :: k in cache ==> cache[k] == k || (cache[k] in Candidates(k) && Count(counts, cache[k]) > 0)
  }

  /** No count decreases: the cache stays sound. */
  lemma CacheSoundGrow(cache: map<string, string>, counts: map<string, nat>, counts': map<string, nat>)
    requires CacheSound(cache, counts)
    requires forall k :: Count(counts, k) <= Count(counts', k)
    ensures CacheSound(cache, counts')
  {
    forall k | k in cache ensures cache[k] == k || (cache[k] in Candidates(k) && Count(counts', cache[k]) > 0) {
      assert Count(counts, cache[k]) <= Count(counts', cache[k]);
    }
  }

  /** Caching a sound answer keeps the cache sound. */
  lemma CacheSoundAdd(cache: map<string, string>, counts: map<string, nat>, w: string, r: string)
    requires CacheSound(cache, counts)
    requires r == w || (r in Candidates(w) && Count(counts, r) > 0)
    ensures CacheSound(cache[w := r], counts)
  {
  }

  /** A cached word that is a key of the table has itself as its answer. */
  ghost predicate KeysAnswerThemselves(cache: map<string, string>, counts: map<string, nat>) {
    forall k :: k in cache && k in counts ==> cache[k] == k
  }

  /**
    The table built from a corpus: every key is a token of the corpus, made of
    word characters with no upper-case letter, and counted at least once.
  */
  lemma KeysAreTokens(corpus: string)
    ensures forall k :: k in AddCounts(map[], GetWords(corpus)) ==>
              && k in GetWords(corpus)
              && IsWord(k) && (forall i :: 0 <= i < |k| ==> !IsUpper(k[i]))
              && AddCounts(map[], GetWords(corpus))[k] > 0
  {
    var words := GetWords(corpus);
    GetWordsAreLowerWords(corpus);
    forall k | k in AddCounts(map[], words)
      ensures k in words && IsWord(k) && (forall i :: 0 <= i < |k| ==> !IsUpper(k[i]))
      ensures AddCounts(map[], words)[k] > 0
    {
      assert k in words;
      var j :| 0 <= j < |words| && words[j] == k;
      assert IsWord(words[j]);
    }
  }

  /** A word that is a key has itself as its only possibility, so it corrects to itself. */
  lemma KeyCorrectsToItself(counts: map<string, nat>, w: string, r: string)
    requires w in counts
    requires IsBestCorrection(counts, Possibilities(counts, w), w, r)
    ensures r == w
  {
  }

  /** With `the` counted and `there` a key, `teh` corrects to `the`. */
  lemma TehCorrectsToThe(counts: map<string, nat>, r: string)
    requires counts.Keys == {"the", "there"} && counts["the"] > 0
    requires IsBestCorrection(counts, Possibilities(counts, "teh"), "teh", r)
    ensures r == "the"
  {
    TehPossibilities(counts);
    assert "teh" != "the";
  }

  /**
    A phantom key changes a later answer. With `ab` the only key, `abcde` is
    far from it, so its correction scores the fallback and leaves `abcde` as a
    key with count 0. Before that `abcd` corrects to `ab`; after it, `abcd`
    stays as it is.
  */
  lemma PhantomKeyChangesAnswer(counts: map<string, nat>, after: map<string, nat>)
    requires counts.Keys == {"ab"} && counts["ab"] > 0
    requires after == counts["abcde" := 0]
    ensures Possibilities(counts, "abcde") == {"abcde"} && "abcde" !in counts
    ensures forall r :: IsBestCorrection(counts, Possibilities(counts, "abcd"), "abcd", r) ==> r == "ab"
    ensures forall r :: IsBestCorrection(after, Possibilities(after, "abcd"), "abcd", r) ==> r == "abcd"
  {
    assert Possibilities(counts, "abcde") == {"abcde"} by {
      FarFromEveryKey(counts, "abcde");
    }
    forall r | IsBestCorrection(counts, Possibilities(counts, "abcd"), "abcd", r) ensures r == "ab" {
      TwoDeletionsAway(counts);
      BestOfOne(counts, "ab", "abcd", r);
    }
    forall r | IsBestCorrection(after, Possibilities(after, "abcd"), "abcd", r) ensures r == "abcd" {
      ZeroCountKeyStopsSearch(after);
      BestOfOne(after, "abcde", "abcd", r);
    }
  }

  /** With one candidate, the best correction is that candidate when it is counted and the word otherwise. */
  lemma BestOfOne(counts: map<string, nat>, c: string, w: string, r: string)
    requires IsBestCorrection(counts, {c}, w, r)
    ensures Count(counts, c) > 0 ==> r == c
    ensures Count(counts, c) == 0 ==> r == w
  {
  }

  class AutoCorrect {
    var wordsCount: map<string, nat>
    var totalWords: nat
    var cache: map<string, string>

    /** The total is the sum of the counts, and the cache is sound. */
    ghost predicate Valid()
      reads this
    {
      && totalWords == SumValues(wordsCount)
      && CacheSound(cache, wordsCount)
    }

    /** `AutoCorrect()`, reading the corpus from `corpus` instead of a file. */
    constructor (corpus: string)
      ensures Valid()
      ensures wordsCount == AddCounts(map[], GetWords(corpus))
      ensures totalWords == |GetWords(corpus)|
      ensures cache == map[] && KeysAnswerThemselves(cache, wordsCount)
    {
      wordsCount := map[];
      totalWords := 0;
      cache := map[];
      new;
      CountWords(corpus);
      SumAddCounts(map[], GetWords(corpus));
    }

    /**
      `count_words`: the total becomes the number of tokens of the corpus, and
      each token's count grows by its number of occurrences.
    */
    method CountWords(corpus: string)
      modifies this
      ensures totalWords == |GetWords(corpus)|
      ensures wordsCount == AddCounts(old(wordsCount), GetWords(corpus))
      ensures cache == old(cache)
    {
      var words := GetWords(corpus);
      totalWords := |words|;
      AddCountsNone(wordsCount);
      for i := 0 to |words|
        invariant wordsCount == AddCounts(old(wordsCount), words[..i])
        invariant totalWords == |words| && cache == old(cache)
      {
        AddCountsSnoc(old(wordsCount), words[..i], words[i]);
        assert words[..i + 1] == words[..i] + [words[i]];
        wordsCount := Increment(wordsCount, words[i]);
      }
      assert words[..|words|] == words;
    }

    /**
      `word_probability(word)`: reading `words_count[word]` inserts the key
      with count 0 when it is absent; the division then fails on an empty
      corpus and otherwise gives a probability in [0, 1].
    */
    method WordProbability(word: string) returns (p: Result<real>)
      requires Valid()
      modifies this
      ensures Valid()
      ensures wordsCount == old(wordsCount)[word := Count(old(wordsCount), word)]
      ensures totalWords == old(totalWords) && cache == old(cache)
      ensures old(totalWords) == 0 ==> p == Failure(ZeroDivisionError)
      ensures old(totalWords) > 0 ==> p == Success(Ratio(Count(old(wordsCount), word), totalWords))
      ensures p.Success? ==> 0.0 <= p.value <= 1.0
    {
      var count := Count(wordsCount, word);
      CountAtMostSum(wordsCount, word);
      if word !in wordsCount {
        SumValuesInsertZero(wordsCount, word);
      } else {
        assert wordsCount[word := count] == wordsCount;
      }
      wordsCount := wordsCount[word := count];
      CacheSoundGrow(cache, old(wordsCount), wordsCount);
      if totalWords == 0 {
        return Failure(ZeroDivisionError);
      }
      RatioBounds(count, totalWords);
      p := Success(Ratio(count, totalWords));
    }

    /**
      `correct_word(word)`. A cached word returns its cached answer and
      changes nothing. Otherwise every possibility is scored, in an arbitrary
      order, with a strict running maximum that starts at probability 0 and
      answer `word`; the answer is cached and returned. Only the fallback
      `[word]` adds a key (the word, with count 0); no count and not the
      total ever change. On an empty corpus the first score fails and nothing
      is cached.
    */
    method CorrectWord(word: string) returns (r: Result<string>)
      requires Valid()
      modifies this
      ensures Valid()
      ensures totalWords == old(totalWords)
      ensures forall c :: c in old(wordsCount) ==> c in wordsCount && wordsCount[c] == old(wordsCount)[c]
      ensures wordsCount.Keys <= old(wordsCount).Keys + {word}
      ensures old(word in cache) ==>
                r == Success(old(cache)[word]) && wordsCount == old(wordsCount) && cache == old(cache)
      ensures old(word !in cache) ==>
                wordsCount == if word in Possibilities(old(wordsCount), word)
                              then old(wordsCount)[word := Count(old(wordsCount), word)]
                              else old(wordsCount)
      ensures old(word !in cache) && old(totalWords) == 0 ==>
                r == Failure(ZeroDivisionError) && cache == old(cache)
      ensures old(word !in cache) && old(totalWords) > 0 ==>
                && r.Success?
                && cache == old(cache)[word := r.value]
                && IsBestCorrection(old(wordsCount), Possibilities(old(wordsCount), word), word, r.value)
      ensures old(KeysAnswerThemselves(cache, wordsCount)) ==> KeysAnswerThemselves(cache, wordsCount)
      ensures old(KeysAnswerThemselves(cache, wordsCount)) && old(word in wordsCount) && r.Success? ==>
                r.value == word
    {
      if word in cache {
        return Success(cache[word]);
      }

      var possibilities := Possibilities(wordsCount, word);
      PossibilitiesWithinTwoEdits(wordsCount, word);
      var scored := ScorePossibilities(word, possibilities);
      if scored.Failure? {
        return scored;
      }
      CacheSoundAdd(cache, wordsCount, word, scored.value);
      cache := cache[word := scored.value];
      return scored;
    }

    /**
      The loop of `correct_word`: scores every possibility, in an arbitrary
      order, keeping a strict running maximum that starts at probability 0
      with `word` as the answer. Scoring a possibility that is not a key adds
      it with count 0.
    */
    method ScorePossibilities(word: string, possibilities: set<string>) returns (r: Result<string>)
      requires Valid()
      requires possibilities <= wordsCount.Keys || (possibilities == {word} && word !in wordsCount)
      modifies this
      ensures Valid()
      ensures totalWords == old(totalWords) && cache == old(cache)
      ensures wordsCount == if word in possibilities
                            then old(wordsCount)[word := Count(old(wordsCount), word)]
                            else old(wordsCount)
      ensures old(totalWords) == 0 && possibilities != {} ==> r == Failure(ZeroDivisionError)
      ensures old(totalWords) > 0 || possibilities == {} ==>
                r.Success? && IsBestCorrection(old(wordsCount), possibilities, word, r.value)
    {
      ghost var counts0 := wordsCount;
      var maxProbability: real := 0.0;
      var correctedWord := word;
      ghost var best: nat := 0;
      var pending := possibilities;
      if totalWords > 0 {
        RatioBounds(0, totalWords);
      }
      while pending != {}
        invariant Valid()
        invariant pending <= possibilities
        invariant totalWords == old(totalWords) && cache == old(cache)
        invariant wordsCount == if word in possibilities - pending
                                then counts0[word := Count(counts0, word)]
                                else counts0
        invariant pending != possibilities ==> totalWords > 0
        invariant totalWords > 0 ==> maxProbability == Ratio(best, totalWords)
        invariant best == 0 ==> maxProbability == 0.0
        invariant || (correctedWord == word && best == 0)
                  || (correctedWord in possibilities - pending && best == Count(counts0, correctedWord) > 0)
        invariant forall c :: c in possibilities - pending ==> Count(counts0, c) <= best
        decreases |pending|
      {
        var possibility :| possibility in pending;
        ghost var before := wordsCount;
        assert Count(before, possibility) == Count(counts0, possibility);
        var probability := WordProbability(possibility);
        assert possibility == word || possibility in counts0;
        if probability.Failure? {
          return Failure(probability.error);
        }
        assert probability.value == Ratio(Count(counts0, possibility), totalWords);
        RatioOrder(Count(counts0, possibility), best, totalWords);
        if probability.value > maxProbability {
          maxProbability := probability.value;
          correctedWord := possibility;
          best := Count(counts0, possibility);
        }
        pending := pending - {possibility};
      }

      assert possibilities - pending == possibilities;
      return Success(correctedWord);
    }
  }
}
