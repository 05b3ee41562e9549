/** The candidate enumerator `divide` of wordsegment.py: every split of a text
    into a non-empty prefix of bounded length and the remaining suffix. */
module Splits {

  /** The default `limit` of `divide`, the longest word the search considers. */
  const DefaultLimit: int := 24

  /** The number of splits: `len(range(1, min(n, limit) + 1))`. */
  function SplitCount(n: nat, limit: int): (k: nat)
    ensures k <= n && k <= if limit < 0 then 0 else limit
    ensures k == n || k == limit || (limit < 0 && k == 0)
  {
    if n <= limit then n else if limit < 0 then 0 else limit
  }

  /** divide (wordsegment.py:51-57), as the finite sequence of pairs it yields. */
  function Divide(text: string, limit: int): (r: seq<(string, string)>)
    ensures |r| == SplitCount(|text|, limit)
    ensures forall i :: 0 <= i < |r| ==> r[i].0 + r[i].1 == text
    ensures forall i :: 0 <= i < |r| ==> 1 <= |r[i].0| <= limit
    ensures forall i, j :: 0 <= i < j < |r| ==> |r[i].0| < |r[j].0|
  {
    seq(SplitCount(|text|, limit), i requires 0 <= i < SplitCount(|text|, limit) => (text[..i + 1], text[i + 1..]))
  }

  /** The splits are listed by prefix length, starting from one character. */
  lemma DividePrefixLength(text: string, limit: int, i: nat)
    requires i < |Divide(text, limit)|
    ensures |Divide(text, limit)[i].0| == i + 1
    ensures |Divide(text, limit)[i].1| == |text| - i - 1
  {
  }

  /** Every split with a prefix of 1 to `limit` characters is yielded. */
  lemma DivideComplete(text: string, limit: int, prefix: string, suffix: string)
    requires prefix + suffix == text && 1 <= |prefix| <= limit
    ensures (prefix, suffix) in Divide(text, limit)
    ensures Divide(text, limit)[|prefix| - 1] == (prefix, suffix)
  {
    var r := Divide(text, limit);
    var k := |prefix| - 1;
    assert prefix == text[..k + 1] && suffix == text[k + 1..];
    assert r[k] == (prefix, suffix);
  }
}
