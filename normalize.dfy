/** The text normaliser `clean` of wordsegment.py: lower-case the input, then
    keep only the characters of the fixed alphabet a-z, 0-9, in order. */
module Normalize {

  /** ALPHABET (wordsegment.py:36). */
  const Alphabet: set<char> := {
    'a', 'b', 'c', 'd', 'e', 'f', 'g', 'h', 'i', 'j', 'k', 'l', 'm',
    'n', 'o', 'p', 'q', 'r', 's', 't', 'u', 'v', 'w', 'x', 'y', 'z',
    '0', '1', '2', '3', '4', '5', '6', '7', '8', '9'
  }

  predicate Alphabetic(s: string) {
    forall i :: 0 <= i < |s| ==> s[i] in Alphabet
  }

  /** `str.lower` on one character, restricted to ASCII. */
  function Lower(ch: char): char {
    if 'A' <= ch <= 'Z' then (ch as int + 32) as char else ch
  }

  /** `text.lower()` (wordsegment.py:93): a character ends up in ALPHABET
      exactly when it already was in it or is an upper-case ASCII letter. */
  function LowerText(text: string): (r: string)
    ensures |r| == |text|
    ensures forall i :: 0 <= i < |text| ==> (r[i] in Alphabet <==> text[i] in Alphabet || 'A' <= text[i] <= 'Z')
  {
    seq(|text|, i requires 0 <= i < |text| => Lower(text[i]))
  }

  /** The comprehension `letter for letter in ... if letter in ALPHABET`. */
  function KeepAlphabet(s: string): (r: string)
    ensures Alphabetic(r) && |r| <= |s|
  {
    if s == "" then ""
    else (if s[0] in Alphabet then [s[0]] else "") + KeepAlphabet(s[1..])
  }

  /** clean (wordsegment.py:91-93). */
  function Clean(text: string): (r: string)
    ensures Alphabetic(r) && |r| <= |text|
  {
    KeepAlphabet(LowerText(text))
  }

  /** `s` occurs in `t` in order, possibly with characters of `t` skipped. */
  predicate IsSubsequence(s: string, t: string) {
    if s == "" then true
    else if t == "" then false
    else if s[0] == t[0] then IsSubsequence(s[1..], t[1..])
    else IsSubsequence(s, t[1..])
  }

  lemma LowerKeepsAlphabet(ch: char)
    requires ch in Alphabet
    ensures Lower(ch) == ch
  {
  }

  lemma {:induction false} KeepAppend(a: string, b: string)
    ensures KeepAlphabet(a + b) == KeepAlphabet(a) + KeepAlphabet(b)
  {
    if a != "" {
      assert (a + b)[0] == a[0] && (a + b)[1..] == a[1..] + b;
      KeepAppend(a[1..], b);
    } else {
      assert a + b == b;
    }
  }

  lemma {:induction false} KeepAlphabeticIdentity(s: string)
    requires Alphabetic(s)
    ensures KeepAlphabet(s) == s
  {
    if s != "" {
      KeepAlphabeticIdentity(s[1..]);
    }
  }

  /** The kept characters appear in the input in the same order. */
  lemma {:induction false} KeepIsSubsequence(s: string)
    ensures IsSubsequence(KeepAlphabet(s), s)
  {
    if s != "" {
      KeepIsSubsequence(s[1..]);
      var rest := KeepAlphabet(s[1..]);
      if s[0] in Alphabet {
        assert KeepAlphabet(s) == [s[0]] + rest;
        assert ([s[0]] + rest)[1..] == rest;
      } else {
        assert KeepAlphabet(s) == rest;
        SubsequenceSkip(rest, s);
      }
    }
  }

  lemma {:induction false} SubsequenceSkip(s: string, t: string)
    requires t != "" && IsSubsequence(s, t[1..])
    ensures IsSubsequence(s, t)
    decreases |s| + |t|
  {
    if s != "" && s[0] == t[0] {
      // s[0] also starts t[1..] or is found later in it; either way dropping it
      // from s keeps a subsequence of t[1..]
      SubsequenceTail(s, t[1..]);
    }
  }

  lemma {:induction false} SubsequenceTail(s: string, t: string)
    requires s != "" && IsSubsequence(s, t)
    ensures IsSubsequence(s[1..], t)
    decreases |s| + |t|
  {
    if t != "" {
      if s[0] == t[0] {
        if s[1..] != "" {
          SubsequenceSkip(s[1..], t);
        }
      } else {
        SubsequenceTail(s, t[1..]);
        if s[1..] != "" {
          SubsequenceSkip(s[1..], t);
        }
      }
    }
  }

  /** Every alphabet character of the input is kept, as often as it occurs,
      and no other character is. */
  lemma {:induction false} KeepCount(s: string, ch: char)
    ensures multiset(KeepAlphabet(s))[ch] == if ch in Alphabet then multiset(s)[ch] else 0
  {
    if s != "" {
      KeepCount(s[1..], ch);
      assert s == [s[0]] + s[1..];
      var head := if s[0] in Alphabet then [s[0]] else "";
      assert KeepAlphabet(s) == head + KeepAlphabet(s[1..]);
      assert multiset(KeepAlphabet(s)) == multiset(head) + multiset(KeepAlphabet(s[1..]));
    }
  }

  /** clean keeps the order of the surviving characters of the lower-cased
      input, keeps every one of them and drops every other character. */
  lemma CleanKeepsOrder(text: string)
    ensures IsSubsequence(Clean(text), LowerText(text))
    ensures forall ch :: multiset(Clean(text))[ch] == if ch in Alphabet then multiset(LowerText(text))[ch] else 0
  {
    KeepIsSubsequence(LowerText(text));
    forall ch {
      KeepCount(LowerText(text), ch);
    }
  }

  lemma {:induction false} CleanAppend(a: string, b: string)
    ensures Clean(a + b) == Clean(a) + Clean(b)
  {
    assert LowerText(a + b) == LowerText(a) + LowerText(b);
    KeepAppend(LowerText(a), LowerText(b));
  }

  /** Text already in the alphabet is left as it is. */
  lemma CleanAlphabeticIdentity(s: string)
    requires Alphabetic(s)
    ensures Clean(s) == s
  {
    assert LowerText(s) == s by {
      forall i | 0 <= i < |s| ensures LowerText(s)[i] == s[i] {
        LowerKeepsAlphabet(s[i]);
      }
    }
    KeepAlphabeticIdentity(s);
  }

  lemma CleanIdempotent(text: string)
    ensures Clean(Clean(text)) == Clean(text)
  {
    CleanAlphabeticIdentity(Clean(text));
  }

  lemma LowerExample()
    ensures LowerText("Hello, World!") == "hello, world!"
  {
    var lowered := "hello, world!";
    forall i | 0 <= i < 13 ensures LowerText("Hello, World!")[i] == lowered[i] {
    }
  }

  lemma DropsPunctuation()
    ensures KeepAlphabet(", ") == "" && KeepAlphabet("!") == ""
  {
    assert ',' !in Alphabet && ' ' !in Alphabet && '!' !in Alphabet;
    assert ", "[1..] == " " && " "[1..] == "" && "!"[1..] == "";
  }

  /** The example clean("Hello, World!") == "helloworld". */
  lemma CleanExample()
    ensures Clean("Hello, World!") == "helloworld"
  {
    var hello, comma, world, bang := "hello", ", ", "world", "!";
    assert KeepAlphabet(hello + comma) == hello by {
      KeepAppend(hello, comma);
      KeepAlphabeticIdentity(hello);
      DropsPunctuation();
    }
    assert KeepAlphabet(hello + comma + world) == hello + world by {
      KeepAppend(hello + comma, world);
      KeepAlphabeticIdentity(world);
    }
    assert KeepAlphabet(hello + comma + world + bang) == hello + world by {
      KeepAppend(hello + comma + world, bang);
      DropsPunctuation();
    }
    assert hello + comma + world + bang == "hello, world!";
    assert hello + world == "helloworld";
    LowerExample();
  }
}
