/**
  The string operations the bot applies to scraped text: Python's
  `str.strip()` with no argument, `str.replace(c, '')`, and the discount
  normalisation built from them.
 */
module Text {

  /** The characters Python's `str.isspace()` accepts, which is the set
      `str.strip()` removes when called without an argument. */
  predicate IsSpace(c: char)
  {
    || ('\t' <= c <= '\r')
    || ('\U{1C}' <= c <= ' ')
    || c == '\U{85}' || c == '\U{A0}' || c == '\U{1680}'
    || ('\U{2000}' <= c <= '\U{200A}')
    || c == '\U{2028}' || c == '\U{2029}' || c == '\U{202F}'
    || c == '\U{205F}' || c == '\U{3000}'
  }

  predicate AllSpace(s: string)
  {
    forall k :: 0 <= k < |s| ==> IsSpace(s[k])
  }

  /** Neither end of `s` is a whitespace character. */
  predicate Trimmed(s: string)
  {
    s == [] || (!IsSpace(s[0]) && !IsSpace(s[|s| - 1]))
  }

  /** Drops the leading whitespace. */
  function TrimLeft(s: string): string
  {
    if s != [] && IsSpace(s[0]) then TrimLeft(s[1..]) else s
  }

  /** `TrimLeft` keeps the suffix of `s` that starts at its first non-space
      character. */
  lemma {:induction false} TrimLeftSpec(s: string)
    ensures |TrimLeft(s)| <= |s| && TrimLeft(s) == s[|s| - |TrimLeft(s)|..]
    ensures AllSpace(s[..|s| - |TrimLeft(s)|])
    ensures TrimLeft(s) == [] || !IsSpace(TrimLeft(s)[0])
  {
    if s != [] && IsSpace(s[0]) {
      TrimLeftSpec(s[1..]);
    }
  }

  /** Drops the trailing whitespace. */
  function TrimRight(s: string): string
  {
    if s != [] && IsSpace(s[|s| - 1]) then TrimRight(s[..|s| - 1]) else s
  }

  /** `TrimRight` keeps the prefix of `s` that ends at its last non-space
      character. */
  lemma {:induction false} TrimRightSpec(s: string)
    ensures |TrimRight(s)| <= |s| && TrimRight(s) == s[..|TrimRight(s)|]
    ensures AllSpace(s[|TrimRight(s)|..])
    ensures TrimRight(s) == [] || !IsSpace(TrimRight(s)[|TrimRight(s)| - 1])
  {
    if s != [] && IsSpace(s[|s| - 1]) {
      var p := s[..|s| - 1];
      TrimRightSpec(p);
      var r := TrimRight(p);
      assert s[|r|..] == p[|r|..] + [s[|s| - 1]];
    }
  }

  /** Python's `s.strip()`. */
  function Strip(s: string): string
  {
    TrimRight(TrimLeft(s))
  }

  /** The stripped text is a contiguous piece of `s`, with only whitespace
      cut off on either side, and no whitespace left at either end. */
  lemma StripSpec(s: string)
    ensures |Strip(s)| <= |s|
    ensures exists i :: 0 <= i <= |s| - |Strip(s)| && Strip(s) == s[i..i + |Strip(s)|]
                        && AllSpace(s[..i]) && AllSpace(s[i + |Strip(s)|..])
    ensures Trimmed(Strip(s))
  {
    var t := TrimLeft(s);
    var r := TrimRight(t);
    TrimLeftSpec(s);
    TrimRightSpec(t);
    var i := |s| - |t|;
    assert r == s[i..i + |r|] by {
      assert t == s[i..];
    }
    assert AllSpace(s[i + |r|..]) by {
      assert s[i + |r|..] == t[|r|..];
    }
    assert r != [] ==> r[0] == t[0];
  }

  /** A piece of `s` cut out by `Strip` holds no character `s` lacks. */
  lemma StripKeepsAbsence(s: string, c: char)
    requires c !in s
    ensures c !in Strip(s)
  {
    var t := TrimLeft(s);
    TrimLeftSpec(s);
    forall k | 0 <= k < |t| ensures t[k] != c {
      assert t[k] == s[|s| - |t| + k];
    }
    var r := TrimRight(t);
    TrimRightSpec(t);
    forall k | 0 <= k < |r| ensures r[k] != c {
      assert r[k] == t[k];
    }
  }

  /** A text without whitespace at either end is left as it is. */
  lemma StripTrimmed(s: string)
    requires Trimmed(s)
    ensures Strip(s) == s
  {
    assert TrimLeft(s) == s;
    assert TrimRight(s) == s;
  }

  /** Stripping is idempotent: the bot strips the prices once while reading
      a row and once more while building the message, to no effect. */
  lemma StripIdempotent(s: string)
    ensures Strip(Strip(s)) == Strip(s)
  {
    StripSpec(s);
    StripTrimmed(Strip(s));
  }

  /** Greedy test that `a` can be obtained from `b` by deleting characters,
      that is, that the characters of `a` occur in `b` in the same order. */
  predicate IsSubsequence(a: string, b: string)
    decreases |b|
  {
    if a == [] then true
    else if b == [] then false
    else if a[0] == b[0] then IsSubsequence(a[1..], b[1..])
    else IsSubsequence(a, b[1..])
  }

  lemma {:induction false} SubsequenceDropFirst(a: string, b: string)
    requires a != [] && IsSubsequence(a, b)
    ensures IsSubsequence(a[1..], b)
    decreases |b|
  {
    if a[1..] != [] && b != [] {
      if a[0] == b[0] {
        SubsequenceOfTail(a[1..], b);
      } else {
        SubsequenceDropFirst(a, b[1..]);
        SubsequenceOfTail(a[1..], b);
      }
    }
  }

  lemma {:induction false} SubsequenceOfTail(a: string, b: string)
    requires b != [] && IsSubsequence(a, b[1..])
    ensures IsSubsequence(a, b)
    decreases |b|, 1
  {
    if a != [] && a[0] == b[0] {
      SubsequenceDropFirst(a, b[1..]);
    }
  }

  /** Deleting characters twice is deleting characters once. */
  lemma {:induction false} SubsequenceTransitive(a: string, b: string, c: string)
    requires IsSubsequence(a, b) && IsSubsequence(b, c)
    ensures IsSubsequence(a, c)
    decreases |c|
  {
    if a != [] {
      assert b != [] && c != [];
      if b[0] == c[0] {
        if a[0] == b[0] {
          SubsequenceTransitive(a[1..], b[1..], c[1..]);
        } else {
          SubsequenceTransitive(a, b[1..], c[1..]);
        }
      } else {
        SubsequenceTransitive(a, b, c[1..]);
        SubsequenceOfTail(a, c);
      }
    }
  }

  /** Python's `s.replace(c, '')`. */
  function RemoveAll(s: string, c: char): string
  {
    if s == [] then []
    else (if s[0] == c then [] else [s[0]]) + RemoveAll(s[1..], c)
  }

  /** `RemoveAll` deletes every occurrence of `c`, not only the leading one,
      and keeps all other characters, in their order and with their
      multiplicities. */
  lemma {:induction false} RemoveAllSpec(s: string, c: char)
    ensures c !in RemoveAll(s, c)
    ensures IsSubsequence(RemoveAll(s, c), s)
    ensures forall d :: d != c ==> multiset(RemoveAll(s, c))[d] == multiset(s)[d]
  {
    if s != [] {
      var rest := RemoveAll(s[1..], c);
      RemoveAllSpec(s[1..], c);
      assert s == [s[0]] + s[1..];
      if s[0] == c {
        assert RemoveAll(s, c) == rest;
        assert rest == [] || rest[0] != s[0];
      } else {
        assert RemoveAll(s, c) == [s[0]] + rest;
        assert ([s[0]] + rest)[1..] == rest;
      }
    }
  }

  /** Removing a character that does not occur changes nothing. */
  lemma {:induction false} RemoveAbsent(s: string, c: char)
    requires c !in s
    ensures RemoveAll(s, c) == s
  {
    if s != [] {
      RemoveAbsent(s[1..], c);
    }
  }

  /** The discount badge text (`"-90%"`) reduced to its figure: strip the
      whitespace, then delete every `%` and every `-`. */
  function NormalizeDiscount(text: string): string
  {
    RemoveAll(RemoveAll(Strip(text), '%'), '-')
  }

  /** The normalised discount holds no `%` and no `-`; every other character
      of the stripped badge text is kept, as often and in the same order. */
  lemma NormalizeDiscountSpec(text: string)
    ensures '%' !in NormalizeDiscount(text) && '-' !in NormalizeDiscount(text)
    ensures IsSubsequence(NormalizeDiscount(text), Strip(text))
    ensures forall d :: d != '%' && d != '-' ==>
              multiset(NormalizeDiscount(text))[d] == multiset(Strip(text))[d]
  {
    var t := Strip(text);
    var u := RemoveAll(t, '%');
    var r := RemoveAll(u, '-');
    RemoveAllSpec(t, '%');
    RemoveAllSpec(u, '-');
    SubsequenceTransitive(r, u, t);
    assert multiset(r)['%'] == multiset(u)['%'] == 0;
  }

  /** A second normalisation only strips again: the first already deleted
      every `%` and `-`. */
  lemma NormalizeTwice(text: string)
    ensures NormalizeDiscount(NormalizeDiscount(text)) == Strip(NormalizeDiscount(text))
  {
    var n := NormalizeDiscount(text);
    NormalizeDiscountSpec(text);
    StripKeepsAbsence(n, '%');
    StripKeepsAbsence(n, '-');
    RemoveAbsent(Strip(n), '%');
    RemoveAbsent(Strip(n), '-');
  }

  /** Normalisation is idempotent exactly on the inputs whose normalised
      form has no whitespace at either end. */
  lemma NormalizeIdempotentIff(text: string)
    ensures NormalizeDiscount(NormalizeDiscount(text)) == NormalizeDiscount(text)
            <==> Trimmed(NormalizeDiscount(text))
  {
    var n := NormalizeDiscount(text);
    NormalizeTwice(text);
    StripSpec(n);
    if Trimmed(n) {
      StripTrimmed(n);
    }
  }

  /** For a text already free of surrounding whitespace, normalising only
      deletes the `%` and `-` characters. */
  lemma NormalizeTrimmed(text: string)
    requires Trimmed(text)
    ensures NormalizeDiscount(text) == RemoveAll(RemoveAll(text, '%'), '-')
  {
    StripTrimmed(text);
  }

  /** The deletions on the badge texts used below, worked out character by
      character. */
  lemma NinetyDeletions()
    ensures RemoveAll(RemoveAll("-90%", '%'), '-') == "90"
  {
    assert RemoveAll("-90%", '%') == "-90" by {
      assert RemoveAll("0%", '%') == "0";
    }
    assert RemoveAll("-90", '-') == "90" by {
      assert RemoveAll("0", '-') == "0";
    }
  }

  lemma FiveDeletions()
    ensures RemoveAll(RemoveAll("-5%", '%'), '-') == "5"
  {
    assert RemoveAll("-5%", '%') == "-5" by {
      assert RemoveAll("5%", '%') == "5";
    }
  }

  lemma SpacedDeletions()
    ensures RemoveAll(RemoveAll("- 5", '%'), '-') == " 5"
  {
    assert RemoveAll("- 5", '%') == "- 5" by {
      assert RemoveAll(" 5", '%') == " 5";
    }
  }

  /** The badge texts the store renders normalise to their bare figures;
      the sign and the percent sign both go. */
  lemma NormalizeExamples()
    ensures NormalizeDiscount("-90%") == "90"
    ensures NormalizeDiscount("-5%") == "5"
  {
    NinetyDeletions();
    FiveDeletions();
    NormalizeTrimmed("-90%");
    NormalizeTrimmed("-5%");
  }

  /** Whitespace around the badge never reaches the figure. */
  lemma NormalizeIgnoresPadding(a: string, m: string, b: string)
    requires AllSpace(a) && AllSpace(b) && Trimmed(m)
    ensures NormalizeDiscount(a + m + b) == NormalizeDiscount(m)
  {
    StripPadded(a, m, b);
    StripTrimmed(m);
  }

  lemma {:induction false} TrimLeftSpaces(a: string, t: string)
    requires AllSpace(a) && (t == [] || !IsSpace(t[0]))
    ensures TrimLeft(a + t) == t
    decreases |a|
  {
    if a != [] {
      assert (a + t)[1..] == a[1..] + t;
      TrimLeftSpaces(a[1..], t);
    }
  }

  lemma {:induction false} TrimRightSpaces(t: string, b: string)
    requires AllSpace(b) && (t == [] || !IsSpace(t[|t| - 1]))
    ensures TrimRight(t + b) == t
    decreases |b|
  {
    if b != [] {
      assert (t + b)[..|t + b| - 1] == t + b[..|b| - 1];
      TrimRightSpaces(t, b[..|b| - 1]);
    }
  }

  /** `Strip` is characterised by what it keeps: whatever whitespace
      surrounds a text without whitespace at its ends is exactly what goes. */
  lemma StripPadded(a: string, m: string, b: string)
    requires AllSpace(a) && AllSpace(b) && Trimmed(m)
    ensures Strip(a + m + b) == m
  {
    if m == [] {
      assert AllSpace(a + m + b);
      TrimLeftSpaces(a + m + b, []);
      assert a + m + b + [] == a + m + b;
    } else {
      assert a + m + b == a + (m + b);
      TrimLeftSpaces(a, m + b);
      TrimRightSpaces(m, b);
    }
  }

  /** A sign separated from the figure by a space is where normalising twice
      differs from normalising once: `"- 5"` gives `" 5"`, which is not
      trimmed, so a second pass gives `"5"`. */
  lemma NormalizeNotIdempotent()
    ensures NormalizeDiscount("- 5") == " 5"
    ensures NormalizeDiscount(NormalizeDiscount("- 5")) != NormalizeDiscount("- 5")
  {
    SpacedDeletions();
    NormalizeTrimmed("- 5");
    NormalizeIdempotentIff("- 5");
    assert !Trimmed(" 5") by { assert IsSpace(' '); }
  }

}
