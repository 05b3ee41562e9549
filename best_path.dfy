/** The best-path search of wordsegment.py as a pure recursive definition.

    `Search(c, log10, text, prev)` is what the nested `search` of `segment`
    returns: for every split `(prefix, suffix)` of `text` that `divide` yields,
    the candidate `(log10(score(prefix, prev)) + s, [prefix] + ws)` where
    `(s, ws)` is the best result for `(suffix, prefix)`, and then the greatest
    candidate under Python's tuple comparison, chosen as `max` chooses it.
    `log10` is a parameter: the model does not interpret the logarithm. */
module BestPath {
  import opened Ordering
  import opened Normalize
  import opened Splits
  import opened Scoring

  /** The previous word at the start of a text, the default `prev` of `search`. */
  const Start: string := "<s>"

  /** The pair `(score, words)` that `search` returns. */
  datatype Scored = Scored(score: real, words: seq<string>)

  /** Python's `<` on `(score, words)` tuples: the scores decide, and equal
      scores fall back to comparing the word lists. */
  predicate Less(a: Scored, b: Scored)
    ensures a.score < b.score ==> Less(a, b)
    ensures Less(a, b) ==> a.score <= b.score
  {
    a.score < b.score || (a.score == b.score && WordsLess(a.words, b.words))
  }

  /** One step of `max`: the item replaces the current maximum only when it is
      strictly greater. */
  function Better(best: Scored, item: Scored): Scored {
    if Less(best, item) then item else best
  }

  /** `max` over a non-empty sequence, folding from the first element. */
  function MaxOf(s: seq<Scored>): (r: Scored)
    requires |s| > 0
    ensures r in s
  {
    if |s| == 1 then s[0] else Better(MaxOf(s[..|s| - 1]), s[|s| - 1])
  }

  function Concat(words: seq<string>): string {
    if words == [] then "" else words[0] + Concat(words[1..])
  }

  /** Each word of a search result: non-empty and no longer than `divide`'s limit. */
  predicate WordsInRange(words: seq<string>) {
    forall i :: 0 <= i < |words| ==> 1 <= |words[i]| <= DefaultLimit
  }

  /** The candidate built from a prefix and the best result for its suffix. */
  function Candidate(c: Corpus, log10: real -> real, prev: string, prefix: string, rest: Scored): Scored
    requires PositiveCounts(c)
  {
    ScorePositive(c, prefix, Some(prev));
    Scored(log10(Score(c, prefix, Some(prev))) + rest.score, [prefix] + rest.words)
  }

  /** The candidates of `search(text, prev)`, in the order `divide` yields them
      (wordsegment.py:104-113). */
  function Candidates(c: Corpus, log10: real -> real, text: string, prev: string): (cs: seq<Scored>)
    requires PositiveCounts(c)
    ensures |cs| == |Divide(text, DefaultLimit)|
    ensures forall i :: 0 <= i < |cs| ==> cs[i].words != [] && cs[i].words[0] == Divide(text, DefaultLimit)[i].0
    ensures forall i :: 0 <= i < |cs| ==> Concat(cs[i].words) == text && WordsInRange(cs[i].words)
    decreases |text|, 0
  {
    var splits := Divide(text, DefaultLimit);
    seq(|splits|, i requires 0 <= i < |splits| =>
      Candidate(c, log10, prev, splits[i].0, Search(c, log10, splits[i].1, splits[i].0)))
  }

  /** search (wordsegment.py:100-115). Its words concatenate back to the text,
      and each is a `divide` prefix of what remained. */
  function Search(c: Corpus, log10: real -> real, text: string, prev: string): (r: Scored)
    requires PositiveCounts(c)
    ensures Concat(r.words) == text
    ensures WordsInRange(r.words)
    decreases |text|, 1
  {
    if text == "" then Scored(0.0, [])
    else MaxOf(Candidates(c, log10, text, prev))
  }

  /** The word list `segment` returns (wordsegment.py:95-119): words of the
      alphabet that partition the cleaned text. */
  function Segmentation(c: Corpus, log10: real -> real, text: string): (r: seq<string>)
    requires PositiveCounts(c)
    ensures Concat(r) == Clean(text)
    ensures forall i :: 0 <= i < |r| ==> Alphabetic(r[i]) && 1 <= |r[i]| <= DefaultLimit
  {
    var words := Search(c, log10, Clean(text), Start).words;
    ConcatAlphabetic(words);
    words
  }

  /** The score of one way to split a text into words: the sum of the log
      scores of the words, each conditioned on the word before it and the
      first on `prev`. This is what a search result's score adds up. */
  function TotalScore(c: Corpus, log10: real -> real, words: seq<string>, prev: string): real
    requires PositiveCounts(c)
  {
    if words == [] then 0.0
    else
      ScorePositive(c, words[0], Some(prev));
      log10(Score(c, words[0], Some(prev))) + TotalScore(c, log10, words[1..], words[0])
  }

  /** The i-th candidate, from the i-th split of `divide`. */
  lemma CandidateAt(c: Corpus, log10: real -> real, text: string, prev: string, i: nat)
    requires PositiveCounts(c) && i < |Divide(text, DefaultLimit)|
    ensures var split := Divide(text, DefaultLimit)[i];
      Candidates(c, log10, text, prev)[i] == Candidate(c, log10, prev, split.0, Search(c, log10, split.1, split.0))
  {
  }

  /** `max` over one more element is one more step of the fold. */
  lemma MaxOfExtend(s: seq<Scored>, i: nat)
    requires 0 < i < |s|
    ensures MaxOf(s[..i + 1]) == Better(MaxOf(s[..i]), s[i])
  {
    assert s[..i + 1][..i] == s[..i];
  }

  /** One step of the running maximum over the candidates: the first
      candidate starts it, each later one goes through `Better`. */
  lemma MaxStep(c: Corpus, log10: real -> real, text: string, prev: string, i: nat, best: Scored)
    requires PositiveCounts(c) && i < |Divide(text, DefaultLimit)|
    requires i > 0 ==> best == MaxOf(Candidates(c, log10, text, prev)[..i])
    ensures var split := Divide(text, DefaultLimit)[i];
      var cand := Candidate(c, log10, prev, split.0, Search(c, log10, split.1, split.0));
      (if i == 0 then cand else Better(best, cand)) == MaxOf(Candidates(c, log10, text, prev)[..i + 1])
  {
    var cs := Candidates(c, log10, text, prev);
    CandidateAt(c, log10, text, prev, i);
    if i == 0 {
      assert cs[..1] == [cs[0]];
    } else {
      MaxOfExtend(cs, i);
    }
  }

  lemma LessIrreflexive(a: Scored)
    ensures !Less(a, a)
  {
    WordsOrder();
  }

  lemma LessTransitive(a: Scored, b: Scored, c: Scored)
    requires Less(a, b) && Less(b, c)
    ensures Less(a, c)
  {
    WordsOrder();
  }

  lemma LessTrichotomous(a: Scored, b: Scored)
    ensures a == b || Less(a, b) || Less(b, a)
  {
    WordsOrder();
  }

  /** `max` returns an element that no element of the sequence exceeds. */
  lemma {:induction false} MaxOfIsGreatest(s: seq<Scored>)
    requires |s| > 0
    ensures forall x :: x in s ==> x == MaxOf(s) || Less(x, MaxOf(s))
  {
    if |s| > 1 {
      var init, last := s[..|s| - 1], s[|s| - 1];
      MaxOfIsGreatest(init);
      var m := MaxOf(init);
      assert s == init + [last];
      forall x | x in s
        ensures x == MaxOf(s) || Less(x, MaxOf(s))
      {
        if Less(m, last) {
          if x in init && x != m {
            LessTransitive(x, m, last);
          }
        } else {
          LessTrichotomous(last, m);
        }
      }
    }
  }

  /** The result of `search` is the greatest of its candidates under tuple
      comparison, and it is one of them: its first word is a `divide` prefix. */
  lemma SearchIsBest(c: Corpus, log10: real -> real, text: string, prev: string)
    requires PositiveCounts(c) && text != ""
    ensures var r, cs := Search(c, log10, text, prev), Candidates(c, log10, text, prev);
      && r in cs
      && (forall x :: x in cs ==> x == r || Less(x, r))
  {
    MaxOfIsGreatest(Candidates(c, log10, text, prev));
  }

  /** On equal scores, a candidate whose first word is a proper prefix of the
      other's first word is the smaller tuple. */
  lemma EqualScoreShorterFirstWordLess(a: Scored, b: Scored)
    requires a.score == b.score && a.words != [] && b.words != []
    requires |a.words[0]| < |b.words[0]| && a.words[0] == b.words[0][..|a.words[0]|]
    ensures Less(a, b)
  {
    LexProperPrefix(a.words[0], b.words[0], CharLess);
    assert a.words[0] != b.words[0];
  }

  /** The first words of the candidates are successively longer prefixes of
      one another, as the prefixes that `divide` yields are. */
  ghost predicate FirstWordsGrow(cs: seq<Scored>) {
    && (forall i :: 0 <= i < |cs| ==> cs[i].words != [])
    && (forall i, j :: 0 <= i < j < |cs| ==>
          |cs[i].words[0]| < |cs[j].words[0]| && cs[i].words[0] == cs[j].words[0][..|cs[i].words[0]|])
  }

  lemma CandidatesFirstWordsGrow(c: Corpus, log10: real -> real, text: string, prev: string)
    requires PositiveCounts(c)
    ensures FirstWordsGrow(Candidates(c, log10, text, prev))
  {
    var cs, splits := Candidates(c, log10, text, prev), Divide(text, DefaultLimit);
    forall i, j | 0 <= i < j < |cs|
      ensures |cs[i].words[0]| < |cs[j].words[0]| && cs[i].words[0] == cs[j].words[0][..|cs[i].words[0]|]
    {
      var p, q := splits[i].0, splits[j].0;
      assert p + splits[i].1 == text && q + splits[j].1 == text;
      assert p == text[..|p|] && q == text[..|q|];
    }
  }

  /** Over candidates whose first words grow, `max` picks the LAST candidate of
      greatest score: a later candidate of equal score has the longer first
      word and so is the greater tuple. */
  lemma {:induction false} MaxOfIsLastGreatest(cs: seq<Scored>) returns (k: nat)
    requires |cs| > 0 && FirstWordsGrow(cs)
    ensures k < |cs| && cs[k] == MaxOf(cs)
    ensures forall j :: 0 <= j < |cs| ==> cs[j].score <= cs[k].score
    ensures forall j :: k < j < |cs| ==> cs[j].score < cs[k].score
  {
    var r := MaxOf(cs);
    MaxOfIsGreatest(cs);
    k :| 0 <= k < |cs| && cs[k] == r;
    forall j | 0 <= j < |cs|
      ensures cs[j].score <= r.score
    {
      assert cs[j] in cs;
    }
    forall j | k < j < |cs|
      ensures cs[j].score < r.score
    {
      assert cs[j] in cs;
      assert cs[j] != r by {
        assert |cs[k].words[0]| < |cs[j].words[0]|;
      }
      if cs[j].score == r.score {
        EqualScoreShorterFirstWordLess(r, cs[j]);
        LessTransitive(r, cs[j], r);
        LessIrreflexive(r);
      }
    }
  }

  /** Ties go to the longer first word. The chosen candidate has the greatest
      score and every candidate enumerated after it (a longer prefix) has a
      strictly smaller one: it is the last candidate of greatest score, not the
      first. */
  lemma SearchPrefersLongerPrefix(c: Corpus, log10: real -> real, text: string, prev: string) returns (k: nat)
    requires PositiveCounts(c) && text != ""
    ensures var cs := Candidates(c, log10, text, prev);
      && k < |cs| && cs[k] == Search(c, log10, text, prev)
      && (forall j :: 0 <= j < |cs| ==> cs[j].score <= cs[k].score)
      && (forall j :: k < j < |cs| ==> cs[j].score < cs[k].score)
  {
    var cs := Candidates(c, log10, text, prev);
    CandidatesFirstWordsGrow(c, log10, text, prev);
    k := MaxOfIsLastGreatest(cs);
  }

  /** The result of `search` is the candidate of one split that `divide` yields. */
  lemma SearchSplit(c: Corpus, log10: real -> real, text: string, prev: string) returns (prefix: string, suffix: string)
    requires PositiveCounts(c) && text != ""
    ensures prefix + suffix == text && 1 <= |prefix| <= DefaultLimit
    ensures Search(c, log10, text, prev) == Candidate(c, log10, prev, prefix, Search(c, log10, suffix, prefix))
  {
    var cs := Candidates(c, log10, text, prev);
    SearchIsBest(c, log10, text, prev);
    var k :| 0 <= k < |cs| && cs[k] == Search(c, log10, text, prev);
    CandidateAt(c, log10, text, prev, k);
    prefix, suffix := Divide(text, DefaultLimit)[k].0, Divide(text, DefaultLimit)[k].1;
  }

  /** A result's score is the total score of its own words. */
  lemma {:induction false} SearchScoreIsTotal(c: Corpus, log10: real -> real, text: string, prev: string)
    requires PositiveCounts(c)
    ensures var r := Search(c, log10, text, prev);
      r.score == TotalScore(c, log10, r.words, prev)
    decreases |text|
  {
    if text != "" {
      var prefix, suffix := SearchSplit(c, log10, text, prev);
      SearchScoreIsTotal(c, log10, suffix, prefix);
      var rest := Search(c, log10, suffix, prefix);
      assert ([prefix] + rest.words)[1..] == rest.words;
    }
  }

  /** Putting the same word with the same score in front of two results keeps
      their order: equal heads leave the comparison to the tails. */
  lemma PrependKeepsOrder(h: real, p: string, a: Scored, b: Scored)
    requires a == b || Less(a, b)
    ensures var a', b' := Scored(h + a.score, [p] + a.words), Scored(h + b.score, [p] + b.words);
      a' == b' || Less(a', b')
  {
    if a != b && a.score == b.score {
      assert ([p] + a.words)[1..] == a.words;
      assert ([p] + b.words)[1..] == b.words;
    }
  }

  /** "Equal or smaller" is transitive. */
  lemma AtMostTransitive(a: Scored, b: Scored, c: Scored)
    requires a == b || Less(a, b)
    requires b == c || Less(b, c)
    ensures a == c || Less(a, c)
  {
    if a != b && b != c {
      LessTransitive(a, b, c);
    }
  }

  /** The candidate of any split `divide` yields is no greater than the result. */
  lemma CandidateAtMostSearch(c: Corpus, log10: real -> real, text: string, prev: string, prefix: string, suffix: string)
    requires PositiveCounts(c)
    requires prefix + suffix == text && 1 <= |prefix| <= DefaultLimit
    ensures var cand, r := Candidate(c, log10, prev, prefix, Search(c, log10, suffix, prefix)), Search(c, log10, text, prev);
      cand == r || Less(cand, r)
  {
    DivideComplete(text, DefaultLimit, prefix, suffix);
    var k := |prefix| - 1;
    CandidateAt(c, log10, text, prev, k);
    SearchIsBest(c, log10, text, prev);
    assert Candidates(c, log10, text, prev)[k] in Candidates(c, log10, text, prev);
  }

  /** A word in front of a segmentation that is no greater than the best result
      for the rest gives a segmentation no greater than that word's candidate. */
  lemma PrependAtMostCandidate(c: Corpus, log10: real -> real, prev: string, word: string, rest: seq<string>, best: Scored)
    requires PositiveCounts(c)
    requires var t := Scored(TotalScore(c, log10, rest, word), rest); t == best || Less(t, best)
    ensures var t := Scored(TotalScore(c, log10, [word] + rest, prev), [word] + rest);
      var cand := Candidate(c, log10, prev, word, best);
      t == cand || Less(t, cand)
  {
    assert ([word] + rest)[1..] == rest;
    ScorePositive(c, word, Some(prev));
    PrependKeepsOrder(log10(Score(c, word, Some(prev))), word, Scored(TotalScore(c, log10, rest, word), rest), best);
  }

  lemma WordsInRangeTail(words: seq<string>)
    requires WordsInRange(words) && words != []
    ensures WordsInRange(words[1..]) && 1 <= |words[0]| <= DefaultLimit
  {
    assert forall i :: 0 <= i < |words| - 1 ==> words[1..][i] == words[i + 1];
  }

  /** The search is optimal over every segmentation, not only over its own
      candidates: for any words of 1 to 24 characters that concatenate to the
      text, their total score and word list form a tuple no greater than the
      result of `search`. */
  lemma {:induction false} SearchIsOptimal(c: Corpus, log10: real -> real, text: string, prev: string, words: seq<string>)
    requires PositiveCounts(c)
    requires Concat(words) == text && WordsInRange(words)
    ensures var t, r := Scored(TotalScore(c, log10, words, prev), words), Search(c, log10, text, prev);
      t == r || Less(t, r)
    ensures TotalScore(c, log10, words, prev) <= Search(c, log10, text, prev).score
    decreases |words|
  {
    if words != [] {
      var word, rest := words[0], words[1..];
      var suffix := Concat(rest);
      WordsInRangeTail(words);
      SearchIsOptimal(c, log10, suffix, word, rest);
      var best := Search(c, log10, suffix, word);
      PrependAtMostCandidate(c, log10, prev, word, rest, best);
      assert [word] + rest == words;
      CandidateAtMostSearch(c, log10, text, prev, word, suffix);
      AtMostTransitive(Scored(TotalScore(c, log10, words, prev), words),
        Candidate(c, log10, prev, word, best), Search(c, log10, text, prev));
    }
  }

  lemma SearchEmpty(c: Corpus, log10: real -> real, prev: string)
    requires PositiveCounts(c)
    ensures Search(c, log10, "", prev) == Scored(0.0, [])
  {
  }

  /** `' '.join(words)`, as the command line writes a segmentation. */
  function Join(words: seq<string>): string {
    if |words| == 0 then ""
    else if |words| == 1 then words[0]
    else words[0] + " " + Join(words[1..])
  }

  lemma {:induction false} ConcatAlphabetic(words: seq<string>)
    requires Alphabetic(Concat(words))
    ensures forall i :: 0 <= i < |words| ==> Alphabetic(words[i])
  {
    if words != [] {
      var rest := Concat(words[1..]);
      assert Concat(words) == words[0] + rest;
      assert Alphabetic(rest) by {
        forall i | 0 <= i < |rest| ensures rest[i] in Alphabet {
          assert rest[i] == Concat(words)[|words[0]| + i];
        }
      }
      ConcatAlphabetic(words[1..]);
      forall i | 0 <= i < |words| ensures Alphabetic(words[i]) {
        if i > 0 {
          assert words[i] == words[1..][i - 1];
        } else {
          assert forall j :: 0 <= j < |words[0]| ==> words[0][j] == Concat(words)[j];
        }
      }
    }
  }

  /** Cleaning the space-joined words of the alphabet gives their concatenation. */
  lemma {:induction false} CleanJoin(words: seq<string>)
    requires forall i :: 0 <= i < |words| ==> Alphabetic(words[i])
    ensures Clean(Join(words)) == Concat(words)
  {
    if |words| == 1 {
      CleanAlphabeticIdentity(words[0]);
      assert Concat(words[1..]) == "";
    } else if |words| > 1 {
      CleanJoin(words[1..]);
      CleanAppend(words[0] + " ", Join(words[1..]));
      CleanAppend(words[0], " ");
      CleanAlphabeticIdentity(words[0]);
      CleanSpace();
    }
  }

  lemma CleanSpace()
    ensures Clean(" ") == ""
  {
    assert LowerText(" ") == " ";
    assert ' ' !in Alphabet;
  }

  /** Segmenting the space-joined output again gives the same words. */
  lemma ResegmentStable(c: Corpus, log10: real -> real, text: string)
    requires PositiveCounts(c)
    ensures Segmentation(c, log10, Join(Segmentation(c, log10, text))) == Segmentation(c, log10, text)
  {
    var words := Segmentation(c, log10, text);
    ConcatAlphabetic(words);
    CleanJoin(words);
  }
}
