/** `segment` of wordsegment.py as it runs: one `memo` dictionary per call,
    filled in place by the nested recursive `search`, whose loop keeps the
    running maximum of the candidates as `max` does. Every result is proved
    equal to the pure `BestPath.Search`. */
module Segmenting {
  import opened Normalize
  import opened Splits
  import opened Scoring
  import opened BestPath

  /** The closure of one `segment` call: the corpus tables it reads, the
      logarithm it applies, and its `memo` (wordsegment.py:98), keyed by
      `(suffix, prefix)`. */
  class Segmenter {
    const corpus: Corpus
    const log10: real -> real
    var memo: map<(string, string), Scored>

    /** Every memo entry is the pure search result for its key. */
    ghost predicate Valid()
      reads this
    {
      && PositiveCounts(corpus)
      && forall key :: key in memo ==> memo[key] == BestPath.Search(corpus, log10, key.0, key.1)
    }

    constructor (corpus: Corpus, log10: real -> real)
      requires PositiveCounts(corpus)
      ensures Valid()
      ensures this.corpus == corpus && this.log10 == log10 && memo == map[]
    {
      this.corpus := corpus;
      this.log10 := log10;
      memo := map[];
    }

    /** search (wordsegment.py:100-115). The result is the pure search result;
        the memo only gains entries, each the pure result for its key, and an
        entry once written is never changed. */
    method Search(text: string, prev: string) returns (r: Scored)
      requires Valid()
      modifies this
      ensures Valid()
      ensures r == BestPath.Search(corpus, log10, text, prev)
      ensures forall key :: key in old(memo) ==> key in memo && memo[key] == old(memo)[key]
      decreases |text|, 1
    {
      if text == "" {
        return Scored(0.0, []);
      }
      r := BestCandidate(text, prev);
    }

    /** `max(candidates())` (wordsegment.py:104-115) for a non-empty text: the
        loop keeps the running maximum, and a candidate replaces it only when
        it is the strictly greater tuple. */
    method BestCandidate(text: string, prev: string) returns (r: Scored)
      requires Valid() && text != ""
      modifies this
      ensures Valid()
      ensures r == MaxOf(Candidates(corpus, log10, text, prev))
      ensures forall key :: key in old(memo) ==> key in memo && memo[key] == old(memo)[key]
      decreases |text|, 0
    {
      var splits := Divide(text, DefaultLimit);
      ghost var candidates := Candidates(corpus, log10, text, prev);
      r := Scored(0.0, []);  // replaced by the first candidate
      var i := 0;
      while i < |splits|
        invariant 0 <= i <= |splits|
        invariant Valid()
        invariant forall key :: key in old(memo) ==> key in memo && memo[key] == old(memo)[key]
        invariant i > 0 ==> r == MaxOf(candidates[..i])
      {
        var candidate := NextCandidate(splits[i].0, splits[i].1, prev);
        MaxStep(corpus, log10, text, prev, i, r);
        if i == 0 {
          r := candidate;
        } else {
          r := Better(r, candidate);
        }
        i := i + 1;
      }
      assert candidates[..i] == candidates;
    }

    /** One candidate of the generator `candidates` (wordsegment.py:105-113):
        the prefix's log score plus the memoized best result for the suffix. */
    method NextCandidate(prefix: string, suffix: string, prev: string) returns (candidate: Scored)
      requires Valid()
      modifies this
      ensures Valid()
      ensures candidate == Candidate(corpus, log10, prev, prefix, BestPath.Search(corpus, log10, suffix, prefix))
      ensures forall key :: key in old(memo) ==> key in memo && memo[key] == old(memo)[key]
      decreases |suffix|, 3
    {
      ScorePositive(corpus, prefix, Some(prev));
      var prefixScore := log10(Score(corpus, prefix, Some(prev)));
      var suffixResult := Lookup(suffix, prefix);
      candidate := Scored(prefixScore + suffixResult.score, [prefix] + suffixResult.words);
    }

    /** The memo step of `candidates` (wordsegment.py:108-111): search only on
        a missing key, store the result, and read the entry back. */
    method Lookup(suffix: string, prefix: string) returns (result: Scored)
      requires Valid()
      modifies this
      ensures Valid()
      ensures result == BestPath.Search(corpus, log10, suffix, prefix)
      ensures (suffix, prefix) in memo && memo[(suffix, prefix)] == result
      ensures forall key :: key in old(memo) ==> key in memo && memo[key] == old(memo)[key]
      decreases |suffix|, 2
    {
      var pair := (suffix, prefix);
      if pair !in memo {
        var found := Search(suffix, prefix);
        memo := memo[pair := found];
      }
      result := memo[pair];
    }
  }

  /** segment (wordsegment.py:95-119): a fresh memo, the search from the start
      marker over the cleaned text, and its words. */
  method Segment(corpus: Corpus, log10: real -> real, text: string) returns (words: seq<string>)
    requires PositiveCounts(corpus)
    ensures words == Segmentation(corpus, log10, text)
    ensures Concat(words) == Clean(text)
  {
    var segmenter := new Segmenter(corpus, log10);
    var result := segmenter.Search(Clean(text), Start);
    words := result.words;
  }
}
