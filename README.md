# wordsegment: a verified model of the segmentation core

This project models the core of `wordsegment.py` (English word segmentation,
after Norvig's chapter in "Beautiful Data"). It takes a run of characters with
no word boundaries and finds the most plausible sequence of words, using
unigram and bigram counts from a corpus. The model has six modules:

- `Normalize`: `clean` lower-cases the input and keeps only `a-z0-9`.
- `Splits`: `divide` lists the `(prefix, suffix)` splits of a text. A prefix
  has 1 to `limit` characters; the default limit is 24.
- `Scoring`: `score` is the stupid back-off rule. It uses the unigram and
  bigram tables and the constant `TOTAL` = 1024908267229.
- `BestPath` and `Segmenting`: the memoized best-path search of
  `segment`/`search`. `BestPath.Search` is a pure recursive definition of what
  `search` returns. `Segmenting.Segmenter` is the running search: a `memo` map
  filled in place and a loop that keeps the running `max`. Each of its results
  is proved equal to `BestPath.Search`.
- `Ordering` states Python's `<` on strings and on lists of strings. `max`
  relies on it when it compares `(score, words)` tuples.

The count tables are inputs, given as a `Corpus` of two `map<string, real>`.
Scores are exact `real` ratios. `log10` is a parameter of type `real -> real`
that the model does not interpret. So every property here holds for any
logarithm and any corpus with positive counts.

`max(candidates())` compares whole `(score, words)` tuples. Two candidates of
one text have different first words, and one of those words is a prefix of
the other. So on equal scores `max` does not keep the first enumerated
candidate: the tuple with the longer first word is greater, and it wins.
`BestPath.SearchPrefersLongerPrefix` proves this: the chosen candidate is the
LAST one of greatest score in `divide` order.

`BestPath.SearchIsOptimal` states what the search achieves overall. Take any
split of the text into words of 1 to 24 characters, scored as the sum of each
word's `log10(score(word, previous word))` (`BestPath.TotalScore`). Its
`(score, words)` tuple is never greater than the result of `search`, and
`BestPath.SearchScoreIsTotal` shows that the result's own score is exactly
that sum for its words.

## Model

| member | source | states |
|---|---|---|
| `Normalize.LowerText` | wordsegment.py:93 | the ASCII lower-casing of `text.lower()` keeps the length, and a character is in ALPHABET afterwards exactly when it was in ALPHABET before or is an upper-case ASCII letter |
| `Normalize.KeepAlphabet` | wordsegment.py:93 | the filtering comprehension returns only characters of ALPHABET and is no longer than its input |
| `Normalize.Clean` | wordsegment.py:91-93 | every character of `clean(text)` is in ALPHABET and the result is no longer than the input |
| `Normalize.CleanKeepsOrder` | wordsegment.py:91-93 | `clean(text)` is a subsequence of the lower-cased text; each alphabet character occurs in it exactly as often as in the lower-cased text, and no other character occurs |
| `Normalize.CleanAppend` | wordsegment.py:93 | cleaning distributes over concatenation: `clean(a + b) == clean(a) + clean(b)` |
| `Normalize.CleanAlphabeticIdentity` | wordsegment.py:36 | text made only of ALPHABET characters is left unchanged by `clean` |
| `Normalize.CleanIdempotent` | wordsegment.py:91-93 | `clean(clean(t)) == clean(t)` |
| `Normalize.CleanExample` | wordsegment.py:91-93 | `clean("Hello, World!") == "helloworld"` |
| `Splits.SplitCount` | wordsegment.py:56 | the number of splits is at most `len(text)` and at most `limit` (none for a negative limit), and equals one of them |
| `Splits.Divide` | wordsegment.py:51-57 | `divide` yields exactly `min(len(text), limit)` pairs; each pair's `prefix + suffix == text`; each prefix has 1 to `limit` characters; prefix lengths strictly increase in yield order |
| `Splits.DividePrefixLength` | wordsegment.py:56-57 | the i-th pair has a prefix of `i + 1` characters and a suffix of `len(text) - i - 1` |
| `Splits.DivideComplete` | wordsegment.py:51-57 | every split with a prefix of 1 to `limit` characters is among the yielded pairs |
| `Scoring.Score` | wordsegment.py:61-89 | the stupid back-off score: the unigram probability, the length penalty for unknown words, or the bigram estimate over `score(prev)`; with positive counts it is strictly positive in every branch. `ScorePositive`, `BackoffRatio`, `BackoffFallback` and `UnknownPenaltyDecreases` state its branches |
| `Scoring.Pow10Increasing` | wordsegment.py:74 | `10 ** n` strictly increases with `n` |
| `Scoring.UnknownPenaltyDecreases` | wordsegment.py:70-74 | for words missing from the unigrams, `10 / (TOTAL * 10 ** len(word))` is strictly smaller for the longer word |
| `Scoring.ScorePositive` | wordsegment.py:61-89 | with positive counts, `score(word, prev)` never divides by zero and is strictly positive, so `log10` of it (line 106) is defined |
| `Scoring.BackoffRatio` | wordsegment.py:75-85 | when both the bigram "prev word" and the unigram `prev` are present, `score(word, prev)` is `bigram / TOTAL / score(prev)`, which is `bigram count / unigram count of prev` |
| `Scoring.BackoffFallback` | wordsegment.py:86-89 | in every other case `score(word, prev) == score(word)` |
| `Scoring.ExampleBackoff` | wordsegment.py:61-89 | with unigrams {a: 10, b: 5} and bigram {"a b": 8}: `score("a") == 10 / TOTAL` and `score("b", "a") == 8 / TOTAL / (10 / TOTAL) == 0.8` |
| `Ordering.WordsOrder` | wordsegment.py:115 | Python's `<` on lists of strings is a strict total order |
| `Ordering.LexProperPrefix` | wordsegment.py:115 | a proper prefix compares smaller than the longer sequence |
| `BestPath.Less` | wordsegment.py:115 | the tuple `<` that `max` applies: a smaller score makes the tuple smaller, and a smaller tuple never has the greater score; equal scores fall back to the word lists. `LessTransitive` and `LessTrichotomous` make it a strict total order |
| `BestPath.LessTransitive` | wordsegment.py:115 | tuple comparison of `(score, words)` is transitive |
| `BestPath.LessTrichotomous` | wordsegment.py:115 | any two different `(score, words)` tuples are ordered one way or the other |
| `BestPath.MaxOf` | wordsegment.py:115 | `max` returns one of the candidates |
| `BestPath.MaxStep` | wordsegment.py:115 | the first candidate starts the running maximum and each later one replaces it only when strictly greater; after step i the running value is `max` of the first i + 1 candidates |
| `BestPath.MaxOfIsGreatest` | wordsegment.py:115 | no candidate is greater than what `max` returns |
| `BestPath.EqualScoreShorterFirstWordLess` | wordsegment.py:113-115 | of two equal-scored candidates, the one whose first word is a proper prefix of the other's is the smaller tuple |
| `BestPath.MaxOfIsLastGreatest` | wordsegment.py:115 | over candidates whose first words grow, `max` picks the last candidate of greatest score |
| `BestPath.Candidates` | wordsegment.py:104-113 | one candidate per `divide` pair, in order; the i-th candidate's first word is the i-th prefix; its words concatenate to the text and each is 1 to 24 characters long |
| `BestPath.Search` | wordsegment.py:100-115 | the words of `search(text, prev)` concatenate exactly to `text`, and each word is 1 to 24 characters long |
| `BestPath.SearchEmpty` | wordsegment.py:101-102 | `search("", prev)` returns `(0.0, [])` |
| `BestPath.SearchIsBest` | wordsegment.py:104-115 | the result is one of the candidates, and every other candidate is a smaller `(score, words)` tuple |
| `BestPath.SearchPrefersLongerPrefix` | wordsegment.py:104-115 | the result is the candidate at some index k; no candidate has a greater score; every candidate after k has a strictly smaller score, so ties go to the longer first word |
| `BestPath.SearchSplit` | wordsegment.py:104-115 | the result of `search` on a non-empty text is the candidate of one `divide` split: a first word of 1 to 24 characters, followed by the best result for the rest of the text |
| `BestPath.SearchScoreIsTotal` | wordsegment.py:100-113 | the score of `search(text, prev)` is the sum of `log10(score(word, previous word))` over its own words, the first word scored after `prev` |
| `BestPath.CandidateAtMostSearch` | wordsegment.py:104-115 | the candidate built from any split with a prefix of 1 to 24 characters is no greater than the result |
| `BestPath.SearchIsOptimal` | wordsegment.py:95-115 | for every list of words of 1 to 24 characters that concatenates to the text, the tuple of its total score and the words is equal to or smaller than the result of `search`, so no such split scores higher |
| `BestPath.Segmentation` | wordsegment.py:117-119 | the words `segment` returns concatenate to `clean(text)`; each is made of ALPHABET characters and has 1 to 24 of them. `ResegmentStable` builds on it |
| `BestPath.ResegmentStable` | wordsegment.py:117-119 | segmenting the space-joined words of `segment(text)` gives the same words again |
| `Segmenting.Segmenter.constructor` | wordsegment.py:98 | a segmentation call starts with an empty memo over the given corpus and logarithm |
| `Segmenting.Segmenter.Search` | wordsegment.py:100-115 | the in-place search returns exactly the pure `search` result; afterwards every memo entry still equals the pure result for its key, and no entry that existed before is changed |
| `Segmenting.Segmenter.BestCandidate` | wordsegment.py:104-115 | the loop over the `divide` splits returns exactly `max` of the pure candidates; afterwards every memo entry still equals the pure result for its key, and no entry that existed before is changed |
| `Segmenting.Segmenter.NextCandidate` | wordsegment.py:105-113 | one step of the `candidates` generator yields exactly the pure candidate for its split, with the same memo guarantees |
| `Segmenting.Segmenter.Lookup` | wordsegment.py:108-111 | the memo is consulted under key `(suffix, prefix)`. An entry is written only when the key is missing. Afterwards the key is present and its value is the pure `search(suffix, prefix)`. Existing entries are never overwritten |
| `Segmenting.Segment` | wordsegment.py:95-119 | `segment(text)` returns the words of the pure search of `clean(text)` from the start marker `<s>`, and they concatenate to `clean(text)` |

## Left out

- Loading the count tables (`parse_file` and the module-level reads of `unigrams.txt`/`bigrams.txt`, wordsegment.py:41-49) is file I/O and `float` parsing. The tables are parameters here.
- `main` (wordsegment.py:121-143) is command-line and stream glue. `BestPath.Join` models only its `' '.join`, which `ResegmentStable` uses.
- The Python 2 `xrange` shim (wordsegment.py:38-39) and the version metadata (wordsegment.py:145-150) are not modelled.
- Floating point is not modelled. Scores are exact reals and `log10` is an uninterpreted parameter, so IEEE rounding is absent, and so are ties or distinctions that come only from rounding. Float overflow in the unknown-word penalty (line 74) is absent too. For a word of 297 to 308 characters, `TOTAL * 10 ** len(word)` overflows to `inf` without raising, the score is `0.0`, and `log10` raises ValueError at line 106. From 309 characters on, converting `10 ** len(word)` to a float raises OverflowError. The model's score stays positive in both cases. `segment` never scores a word longer than 24 characters, so only direct calls of `score` reach these lengths.
- Lower-casing covers ASCII only. Python's `str.lower` also maps some non-ASCII characters into `a-z` (the Kelvin sign becomes `k`). The model drops such characters instead.
- BestPath.Search, BestPath.Segmentation and Segmenting.Segment require every count in both tables to be positive. This is stronger than the source needs: the source can fail only when the search reads a zero or negative count. A zero unigram of `prev` under a bigram that is used raises `ZeroDivisionError` (line 85). `log10` raises its domain error (line 106) whenever the score it is given is zero or negative, and that can happen only when that score reads a zero or negative count; reading one does not always fail (a negative bigram over a negative unigram of `prev` gives a positive score). A corpus whose bad counts are never consulted for a given text (unigrams `{"q": 0}` with text `"ab"`, say) segments normally in the source but is outside the model. The model does not describe the failures either. `Scoring.Score` itself requires only that it does not divide by zero.
- Python's recursion limit is not modelled. The first candidate at every level is a one-character prefix and the memo starts empty, so the nesting depth of `search` grows with the number of cleaned characters, not with the number of result words. A long enough input raises `RecursionError`.
- The docstring example `segment('thisisatest') == ['this', 'is', 'a', 'test']` (wordsegment.py:11-13) depends on the real corpus contents, which are not part of this model.
