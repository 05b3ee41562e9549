/** Python's ordering of sequences, as used by `max` on `(score, words)` tuples.

    Python compares two `str` values, and two `list` values, element by element:
    the first position where the elements differ decides, and when one sequence
    is a prefix of the other the shorter one is smaller. `LexLess` states this
    once for any element ordering; `StrLess` and `WordsLess` instantiate it for
    characters (by code point) and for lists of strings. */
module Ordering {

  ghost predicate Irreflexive<T(!new)>(less: (T, T) -> bool) {
    forall x :: !less(x, x)
  }

  ghost predicate Transitive<T(!new)>(less: (T, T) -> bool) {
    forall x, y, z :: less(x, y) && less(y, z) ==> less(x, z)
  }

  ghost predicate Trichotomous<T(!new)>(less: (T, T) -> bool) {
    forall x, y :: x == y || less(x, y) || less(y, x)
  }

  ghost predicate StrictTotalOrder<T(!new)>(less: (T, T) -> bool) {
    Irreflexive(less) && Transitive(less) && Trichotomous(less)
  }

  /** Lexicographic comparison: the first unequal pair of elements decides;
      a proper prefix is smaller than the longer sequence. */
  predicate LexLess<T(==)>(a: seq<T>, b: seq<T>, less: (T, T) -> bool) {
    if |a| == 0 then |b| > 0
    else if |b| == 0 then false
    else if a[0] == b[0] then LexLess(a[1..], b[1..], less)
    else less(a[0], b[0])
  }

  lemma {:induction false} LexIrreflexive<T(!new)>(a: seq<T>, less: (T, T) -> bool)
    requires Irreflexive(less)
    ensures !LexLess(a, a, less)
  {
    if |a| > 0 {
      LexIrreflexive(a[1..], less);
    }
  }

  lemma {:induction false} LexTransitive<T(!new)>(a: seq<T>, b: seq<T>, c: seq<T>, less: (T, T) -> bool)
    requires Irreflexive(less) && Transitive(less)
    requires LexLess(a, b, less) && LexLess(b, c, less)
    ensures LexLess(a, c, less)
  {
    if |a| > 0 && a[0] == b[0] && b[0] == c[0] {
      LexTransitive(a[1..], b[1..], c[1..], less);
    }
  }

  lemma {:induction false} LexTrichotomous<T(!new)>(a: seq<T>, b: seq<T>, less: (T, T) -> bool)
    requires Trichotomous(less)
    ensures a == b || LexLess(a, b, less) || LexLess(b, a, less)
  {
    if |a| > 0 && |b| > 0 && a[0] == b[0] {
      LexTrichotomous(a[1..], b[1..], less);
      if a[1..] == b[1..] {
        assert a == [a[0]] + a[1..] && b == [b[0]] + b[1..];
      }
    }
  }

  /** A proper prefix compares smaller than the sequence it starts. */
  lemma {:induction false} LexProperPrefix<T>(a: seq<T>, b: seq<T>, less: (T, T) -> bool)
    requires |a| < |b| && a == b[..|a|]
    ensures LexLess(a, b, less)
  {
    if |a| > 0 {
      assert a[0] == b[0];
      LexProperPrefix(a[1..], b[1..], less);
    }
  }

  /** Characters compare by code point. */
  predicate CharLess(x: char, y: char) {
    x < y
  }

  /** Python's `<` on `str`. */
  predicate StrLess(a: string, b: string) {
    LexLess(a, b, CharLess)
  }

  /** Python's `<` on a `list` of `str`. */
  predicate WordsLess(a: seq<string>, b: seq<string>) {
    LexLess(a, b, StrLess)
  }

  lemma StrOrder()
    ensures StrictTotalOrder(StrLess)
  {
    assert StrictTotalOrder(CharLess);
    forall a: string
      ensures !StrLess(a, a)
    {
      LexIrreflexive(a, CharLess);
    }
    forall a: string, b: string, c: string | StrLess(a, b) && StrLess(b, c)
      ensures StrLess(a, c)
    {
      LexTransitive(a, b, c, CharLess);
    }
    forall a: string, b: string
      ensures a == b || StrLess(a, b) || StrLess(b, a)
    {
      LexTrichotomous(a, b, CharLess);
    }
  }

  lemma WordsOrder()
    ensures StrictTotalOrder(WordsLess)
  {
    StrOrder();
    forall a: seq<string>
      ensures !WordsLess(a, a)
    {
      LexIrreflexive(a, StrLess);
    }
    forall a: seq<string>, b: seq<string>, c: seq<string> | WordsLess(a, b) && WordsLess(b, c)
      ensures WordsLess(a, c)
    {
      LexTransitive(a, b, c, StrLess);
    }
    forall a: seq<string>, b: seq<string>
      ensures a == b || WordsLess(a, b) || WordsLess(b, a)
    {
      LexTrichotomous(a, b, StrLess);
    }
  }
}
