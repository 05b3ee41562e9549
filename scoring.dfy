/** The corpus statistics and the stupid back-off `score` of wordsegment.py.

    The unigram and bigram tables are inputs (the module-level dictionaries
    that wordsegment.py loads from its data files); counts are `real`, so the
    score's ratios are exact rather than floating point. */
module Scoring {

  datatype Option<T> = None | Some(value: T)

  /** TOTAL (wordsegment.py:59): the number of words in the corpus. */
  const Total: real := 1024908267229.0

  /** `unigram_counts` maps a word to its count; `bigram_counts` maps the key
      "prev word" (the two words joined by one space) to its count. */
  datatype Corpus = Corpus(unigrams: map<string, real>, bigrams: map<string, real>)

  /** What the data files hold: every count is positive. */
  predicate PositiveCounts(c: Corpus) {
    && (forall w :: w in c.unigrams ==> c.unigrams[w] > 0.0)
    && (forall k :: k in c.bigrams ==> c.bigrams[k] > 0.0)
  }

  /** `10 ** n`. */
  function Pow10(n: nat): (r: real)
    ensures r >= 1.0
  {
    if n == 0 then 1.0 else 10.0 * Pow10(n - 1)
  }

  /** `'{0} {1}'.format(prev, word)`. */
  function BigramKey(prev: string, word: string): string {
    prev + " " + word
  }

  /** Both the bigram "prev word" and the unigram `prev` are in the tables:
      the case where `score` uses the conditional estimate. */
  predicate UsesBigram(c: Corpus, word: string, prev: string) {
    BigramKey(prev, word) in c.bigrams && prev in c.unigrams
  }

  /** `score` divides by `score(prev)` in the bigram case, which raises
      ZeroDivisionError when the count of `prev` is zero. */
  predicate ScoreDefined(c: Corpus, word: string, prev: Option<string>) {
    prev.Some? && UsesBigram(c, word, prev.value) ==> c.unigrams[prev.value] != 0.0
  }

  /** score (wordsegment.py:61-89): the unigram probability, the penalty for
      an unknown word, or the bigram estimate conditioned on `prev`. With
      positive counts every branch gives a positive probability estimate. */
  function Score(c: Corpus, word: string, prev: Option<string>): (r: real)
    requires ScoreDefined(c, word, prev)
    ensures PositiveCounts(c) ==> r > 0.0
    decreases if prev.Some? then 1 else 0
  {
    match prev
    case None =>
      if word in c.unigrams then c.unigrams[word] / Total
      else 10.0 / (Total * Pow10(|word|))
    case Some(p) =>
      if UsesBigram(c, word, p) then c.bigrams[BigramKey(p, word)] / Total / Score(c, p, None)
      else Score(c, word, None)
  }

  lemma {:induction false} Pow10Increasing(m: nat, n: nat)
    requires m < n
    ensures Pow10(m) < Pow10(n)
  {
    if m < n - 1 {
      Pow10Increasing(m, n - 1);
    }
  }

  /** The penalty for a word missing from the unigrams strictly decreases as
      the word gets longer. */
  lemma UnknownPenaltyDecreases(c: Corpus, shorter: string, longer: string)
    requires shorter !in c.unigrams && longer !in c.unigrams
    requires |shorter| < |longer|
    ensures Score(c, longer, None) < Score(c, shorter, None)
  {
    var a, b := Pow10(|shorter|), Pow10(|longer|);
    Pow10Increasing(|shorter|, |longer|);
    assert Total * a < Total * b;
    DivideByLarger(10.0, Total * a, Total * b);
  }

  lemma DivideByLarger(x: real, a: real, b: real)
    requires x > 0.0 && 0.0 < a < b
    ensures x / b < x / a
  {
    var q := x / a;
    assert q > 0.0;
    assert q * b > q * a == x;
    assert x / b < q;
  }

  /** With positive counts every score is defined and positive, so its
      logarithm (wordsegment.py:106) is defined. */
  lemma ScorePositive(c: Corpus, word: string, prev: Option<string>)
    requires PositiveCounts(c)
    ensures ScoreDefined(c, word, prev) && Score(c, word, prev) > 0.0
  {
  }

  /** In the bigram case the two divisions by TOTAL cancel: the score is the
      bigram count over the unigram count of the previous word. */
  lemma BackoffRatio(c: Corpus, word: string, prev: string)
    requires UsesBigram(c, word, prev) && c.unigrams[prev] != 0.0
    ensures Score(c, word, Some(prev)) == c.bigrams[BigramKey(prev, word)] / c.unigrams[prev]
  {
    var b, u := c.bigrams[BigramKey(prev, word)], c.unigrams[prev];
    assert Score(c, word, Some(prev)) == b / Total / (u / Total);
    assert b / Total / (u / Total) == b / u;
  }

  /** Without both the bigram and the previous word's unigram, the previous
      word is ignored. */
  lemma BackoffFallback(c: Corpus, word: string, prev: string)
    requires !UsesBigram(c, word, prev)
    ensures Score(c, word, Some(prev)) == Score(c, word, None)
  {
  }

  /** The synthetic corpus with unigrams {"a": 10, "b": 5} and bigram {"a b": 8}. */
  function ExampleCorpus(): Corpus {
    Corpus(map["a" := 10.0, "b" := 5.0], map["a b" := 8.0])
  }

  lemma ExampleBackoff()
    ensures Score(ExampleCorpus(), "a", None) == 10.0 / Total
    ensures Score(ExampleCorpus(), "b", Some("a")) == 8.0 / Total / (10.0 / Total)
    ensures Score(ExampleCorpus(), "b", Some("a")) == 0.8
  {
    assert BigramKey("a", "b") == "a b";
    BackoffRatio(ExampleCorpus(), "b", "a");
  }
}
