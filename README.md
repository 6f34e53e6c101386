# AutoCorrect: a verified model of a frequency-based spelling corrector

The model covers the spelling corrector `AutoCorrect` in `autocorrect.py`. It
builds a word-frequency table from a corpus, generates the strings one and two
edits away from a misspelt word, and searches them in tiers:

1. the word itself;
2. its one-edit neighbours;
3. its two-edit neighbours;
4. the word alone, as a fallback.

Each tier is filtered to the words of the table. The corrector answers with the
most frequent candidate of the first non-empty tier if its count is positive,
and otherwise with the word itself. It memoises every answer in a cache.

Modules, one per part of the class:

- `Tokens` covers `get_words`: it lower-cases the text, then takes the maximal
  runs of word characters.
- `Frequency` covers the `words_count` table. A read of an absent key counts
  as 0, as in `defaultdict(int)`. The module also gives the counts after a
  sequence of tokens and the sum of the table's counts.
- `Edits` covers `one_edit` and `two_edits`. They are imperative methods, each
  proved equal to a set-comprehension reference (`Edits1`, `Edits2`). The
  module also proves the neighbourhoods' own properties: lengths, the split
  families, symmetry and inclusion.
- `Tiers` covers `validate_word` and `possibilities`: the or-chain over the
  tiers, with lemmas about which tier wins.
- `Corrector` covers the class `AutoCorrect` itself. Its fields are
  `wordsCount`, `totalWords` and `cache`, and its methods are the constructor,
  `CountWords`, `WordProbability`, `CorrectWord` and `ScorePossibilities` (the
  scoring loop of `correct_word`). It keeps the invariant
  that the total is the sum of the counts and that every cached answer is the
  word itself or a counted word within two edits of it.

The model keeps four behaviours of the code that a reader might not expect:

- Words are looked up literally and case-sensitively. No punctuation is
  stripped and reattached.
- The cache is consulted before anything else (`autocorrect.py:26`).
- Ties between equally frequent candidates go to whichever comes first in
  set-iteration order. The model leaves that order arbitrary (`:|` choice), so
  every contract holds for every order. No deterministic tie-break is imposed.
- On an empty corpus, `word_probability` divides by zero. The model returns
  `Failure(ZeroDivisionError)` rather than a probability of 0.

The model also keeps a side effect of reading `words_count[word]` on a
`defaultdict`: the read inserts the key with count 0. That happens when the
fallback `[word]` is scored. Such a zero-count key then passes
`validate_word`, so it can stop a later tier search early.
`PhantomKeyChangesAnswer` exhibits this.

Probabilities are exact reals `count / total` (`Ratio`). The source promises
nothing about floating-point rounding. Because the total is the same for every
candidate, comparing probabilities is comparing counts (`RatioOrder`).

## Model

| member | source | states |
|---|---|---|
| Tokens.ToLower | autocorrect.py:18 | lower-casing one character gives no upper-case letter. It shifts A-Z by 32, fixes every other character and preserves being a word character |
| Tokens.Lower | autocorrect.py:18 | `text.lower()` keeps the length and lower-cases each position |
| Tokens.Scan | autocorrect.py:18 | the left-to-right scan behind `\w+`: a word character extends the current run, a separator or the end of the text closes it. Its properties are in ScanYieldsWords, ScanSplit and ScanOfWord |
| Tokens.Runs | autocorrect.py:18 | `re.findall(r'\w+', s)`: the maximal runs of word characters, left to right. RunsAreWords, RunsSplit and RunsOfWord characterise them |
| Tokens.GetWords | autocorrect.py:17-18 | `get_words(text)`: the runs of the lower-cased text. RunsSplit, RunsOfWord and GetWordsAreLowerWords give its properties |
| Tokens.RunsAreWords | autocorrect.py:18 | every token found by `\w+` is a non-empty run of word characters |
| Tokens.RunsSplit | autocorrect.py:18 | a non-word character splits the text into two independently tokenised halves, whose tokens are concatenated |
| Tokens.RunsOfWord | autocorrect.py:18 | a text that is a single run of word characters yields exactly itself as its only token |
| Tokens.GetWordsAreLowerWords | autocorrect.py:17-18 | every token of `get_words` is a word-character run with no upper-case letter |
| Frequency.Count | autocorrect.py:22 | the value read from the `defaultdict(int)`: the stored count, or 0 for an absent key. WordProbability adds the insertion the read performs |
| Frequency.Increment | autocorrect.py:15 | `words_count[w] += 1`: the keys grow by `w`, the entry of `w` is its old count plus one, and every other entry is unchanged. SumValuesIncrement gives the sum |
| Frequency.AddCounts | autocorrect.py:13-15 | the table after the counting loop: the old keys and the tokens, each count raised by its number of occurrences. AddCountsSnoc ties it to one loop step and SumAddCounts to the total |
| Frequency.SumValuesRemove | autocorrect.py:6 | the sum of the counts is the same whichever key is taken out first |
| Frequency.SumValuesIncrement | autocorrect.py:15 | `words_count[w] += 1` adds exactly one to the sum of the counts, whether or not `w` was a key |
| Frequency.SumValuesInsertZero | autocorrect.py:22 | the zero-count key that a `defaultdict` read inserts leaves the sum unchanged |
| Frequency.CountAtMostSum | autocorrect.py:22 | no count exceeds the sum of all counts, so no probability exceeds 1 |
| Frequency.AddCountsSnoc | autocorrect.py:14-15 | counting one more token is one increment of that token's entry |
| Frequency.SumAddCounts | autocorrect.py:13-15 | counting a token sequence raises the sum by its length, so `total_words` equals the sum of the counts |
| Corrector.KeysAreTokens | autocorrect.py:11-18 | every key of the table built from a corpus is a lower-case word-character token of that corpus with a positive count |
| Corrector.AutoCorrect.constructor | autocorrect.py:5-9 | the table holds each token's number of occurrences in the corpus, the total is the token count, the cache is empty and the class invariant holds |
| Corrector.AutoCorrect.CountWords | autocorrect.py:11-15 | the loop leaves each token's count raised by its number of occurrences (`AddCounts`) and sets the total to the number of tokens |
| Corrector.AutoCorrect.WordProbability | autocorrect.py:20-22 | the key is inserted with count 0 when absent. On an empty corpus it fails with ZeroDivisionError; otherwise it returns count/total, which lies in [0, 1]. The invariant is kept |
| Corrector.Ratio | autocorrect.py:22 | `words_count[word] / total_words` as an exact real: the ratio times the total is the count. RatioBounds and RatioOrder give its range and order |
| Corrector.RatioBounds | autocorrect.py:22 | a count at most the total gives a probability in [0, 1], which is 0 exactly when the count is 0 |
| Corrector.RatioOrder | autocorrect.py:31-35 | with one total, a higher probability is exactly a higher count |
| Corrector.AutoCorrect.CorrectWord | autocorrect.py:24-38 | a cached word returns its cached answer and changes nothing. Otherwise: an empty corpus fails without caching; a non-empty one caches and returns a best correction over `possibilities(word)`. No count and not the total changes. The only key added is the word, with count 0, when it is scored as the fallback. Cached keys that answer themselves keep doing so |
| Corrector.AutoCorrect.ScorePossibilities | autocorrect.py:29-35 | the strict running maximum, started at 0 with the word as the answer, returns in every iteration order either the word (all counts 0) or a candidate with positive, maximal count. It fails on the first candidate when the corpus is empty |
| Corrector.CacheSoundGrow | autocorrect.py:22 | counts that only grow keep every cached answer sound |
| Corrector.CacheSoundAdd | autocorrect.py:37 | storing the word itself or a counted word within two edits keeps the cache sound |
| Corrector.KeyCorrectsToItself | autocorrect.py:40-43 | a word that is a key has itself as its only possibility and corrects to itself |
| Corrector.TehCorrectsToThe | autocorrect.py:96 | with `the` counted and `there` a key, `teh` corrects to `the` |
| Corrector.PhantomKeyChangesAnswer | autocorrect.py:22 | with `ab` the only key, correcting `abcde` scores the fallback, which leaves `abcde` as a zero-count key. `abcd` corrects to `ab` before that and to `abcd` after it |
| Edits.Edits1Lengths | autocorrect.py:59-78 | deletions shorten by one, transpositions and substitutions keep the length, insertions lengthen by one |
| Edits.Edits1Length | autocorrect.py:49-80 | every one-edit neighbour is at most one character longer or shorter |
| Edits.Edits2Lengths | autocorrect.py:82-88 | every two-edit neighbour is at most two characters longer or shorter |
| Edits.SplitEditsIncluded | autocorrect.py:55-78 | for every split, the neighbourhood holds the deletion, the transposition when the suffix is longer than one, and every a-z substitution and insertion |
| Edits.CatNeighbours | autocorrect.py:59-78 | `at`, `cta`, `bat` and `cats` are one edit from `cat` |
| Edits.SelfInEdits2 | autocorrect.py:82-88 | every word is two edits from itself |
| Edits.Edits1InEdits2 | autocorrect.py:82-88 | for a word with no two adjacent distinct non-letters, every one-edit neighbour is also a two-edit neighbour (a transposition through a deletion and an insertion of its letter) |
| Edits.Edits1Symmetric | autocorrect.py:49-80 | for an a-z word, every one-edit neighbour has the word as a one-edit neighbour |
| Edits.Splits | autocorrect.py:55-57 | the split list is `(word[:i], word[i:])` for i = 0 .. len(word), in order |
| Edits.AddLetters | autocorrect.py:72-73 | the letter loop adds `left + c + right` for exactly the letters a-z |
| Edits.AddDeletes | autocorrect.py:60-62 | the deletion loop adds exactly the deletions of the word |
| Edits.AddTransposes | autocorrect.py:65-67 | the transposition loop adds exactly the adjacent transpositions |
| Edits.AddReplaces | autocorrect.py:70-73 | the substitution loop adds exactly the a-z substitutions |
| Edits.AddInserts | autocorrect.py:76-78 | the insertion loop adds exactly the a-z insertions |
| Edits.OneEdit | autocorrect.py:49-80 | `one_edit(word)` is exactly the union of the deletions, transpositions, substitutions and insertions |
| Edits.YieldEach | autocorrect.py:87-88 | the inner generator loop yields every member of its set, in any order |
| Edits.TwoEdits | autocorrect.py:82-88 | the strings `two_edits(word)` yields are exactly those one edit from some one-edit neighbour of the word |
| Tiers.ValidateWord | autocorrect.py:45-47 | the result is exactly the members of the input that are keys of the table |
| Tiers.Possibilities | autocorrect.py:40-43 | the result is non-empty. It is a set of keys, or the word alone when the word is not a key. A key word is its own only possibility |
| Tiers.PossibilitiesFirstTier | autocorrect.py:40-43 | the result is the keys of the lowest tier that has any, every tier below it having none. It is the word alone when no tier within two edits has a key |
| Tiers.PossibilitiesWithinTwoEdits | autocorrect.py:40-43 | every possibility is the word or one or two edits from it |
| Tiers.FallbackExactly | autocorrect.py:42-43 | the word is scored without being a key exactly when no key lies within two edits of it |
| Tiers.FarFromEveryKey | autocorrect.py:40-43 | when every key differs in length from the word by more than two, the word is its own only possibility |
| Tiers.NearTierWins | autocorrect.py:42 | for a word that is not a key, a non-empty validated one-edit tier is exactly the possibilities |
| Tiers.FarTierWins | autocorrect.py:42-43 | for a word that is not a key, with no key one edit away, a non-empty validated two-edit tier is exactly the possibilities |
| Tiers.NoKeyOneEditAway | autocorrect.py:42 | when every key's length differs from the word's by more than one, the validated one-edit tier is empty |
| Tiers.TehPossibilities | autocorrect.py:40-43 | with keys `the` and `there`, `teh` has `the` as its only possibility |
| Tiers.TwoDeletionsAway | autocorrect.py:40-43 | with `ab` the only key, `abcd` reaches it in the two-edit tier |
| Tiers.ZeroCountKeyStopsSearch | autocorrect.py:40-47 | once `abcde` is a key beside `ab`, it stops the search for `abcd` in the one-edit tier |

## Left out

- Reading `data/large.txt` (`autocorrect.py:12`): the corpus is a parameter of the constructor and of `CountWords`. File I/O is not modelled.
- Tokens.IsWordChar and Tokens.ToLower cover only ASCII. Python's `\w` and `str.lower()` also act on other Unicode characters, and that Unicode behaviour is not modelled.
- Corrector.AutoCorrect.WordProbability returns the exact real ratio. Floating-point division and rounding are not modelled; with one common total, they do not change which count wins.
- Edits.TwoEdits gives the yielded strings as a finished sequence. The generator's laziness is not modelled, nor is the order in which it yields.
- Edits.Edits1InEdits2 requires that no two adjacent characters are distinct non-letters: swapping two such characters (`!?` to `?!`) cannot be redone by two edits drawing on a-z.
- Edits.Edits1Symmetric requires a word of letters a-z: deleting or substituting a character outside the alphabet cannot be undone with a-z edits (`!` to the empty string has no way back).
- The ordering of `CorrectWord`'s loop is an arbitrary choice from the remaining candidates. The model does not pin down which of several equally frequent candidates Python's set iteration would pick.
- The demo function `main` (`autocorrect.py:92-100`) is not modelled; its `teh` case is `TehCorrectsToThe`.
- `text-editor.py` (a tkinter interface) is not part of this model.
- `next_word.py` and `next-word.py` (neural next-word prediction with external libraries) are not part of this model.
