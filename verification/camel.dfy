/** `toCamel` from serialize.ts, the regex rewrite `str.replace(/-([a-z])/g, c => c.toUpperCase())`,
    and its inverse: the camel-to-hyphen rewrite a renderer applies to style keys. */
module Camel {
  import opened Strings

  /** True when some `-` is directly followed by a lower-case ASCII letter: a match of `-([a-z])`. */
  predicate HasPair(s: string) {
    exists i :: 0 <= i < |s| && PairAt(s, i)
  }

  predicate PairAt(s: string, i: int) {
    0 <= i < |s| - 1 && s[i] == '-' && IsLowerAscii(s[i + 1])
  }

  /** The global regex scan: at each position either `-x` matches (and is replaced by `X`,
      resuming after it) or one character is copied. */
  function ToCamel(s: string): (r: string)
    ensures |r| <= |s|
    ensures |s| > 0 ==> |r| > 0 && (r[0] == s[0] || (s[0] == '-' && IsUpperAscii(r[0])))
    ensures !HasPair(r)
    ensures '-' !in s ==> r == s
  {
    if |s| >= 2 && s[0] == '-' && IsLowerAscii(s[1]) then
      var rest := ToCamel(s[2..]);
      var r := [Upper(s[1])] + rest;
      assert forall i :: 1 <= i < |r| ==> (PairAt(r, i) <==> PairAt(rest, i - 1));
      assert !PairAt(r, 0);
      r
    else if s == [] then []
    else
      var rest := ToCamel(s[1..]);
      var r := [s[0]] + rest;
      assert forall i :: 1 <= i < |r| ==> (PairAt(r, i) <==> PairAt(rest, i - 1));
      assert !PairAt(r, 0);
      assert '-' !in s ==> '-' !in s[1..];
      assert [s[0]] + s[1..] == s;
      r
  }

  /** Number of replacements the global scan performs. */
  function MatchCount(s: string): nat {
    if |s| >= 2 && s[0] == '-' && IsLowerAscii(s[1]) then 1 + MatchCount(s[2..])
    else if s == [] then 0
    else MatchCount(s[1..])
  }

  /** Each replacement turns two characters into one: `font-size` (one match) becomes `fontSize`. */
  lemma {:induction false} ToCamelLength(s: string)
    ensures |ToCamel(s)| == |s| - MatchCount(s)
  {
    if |s| >= 2 && s[0] == '-' && IsLowerAscii(s[1]) {
      ToCamelLength(s[2..]);
    } else if s != [] {
      ToCamelLength(s[1..]);
    }
  }

  /** A string with no `-x` pair is left unchanged. */
  lemma {:induction false} ToCamelFixedPoint(s: string)
    requires !HasPair(s)
    ensures ToCamel(s) == s
  {
    if s != [] {
      assert !PairAt(s, 0);
      assert !HasPair(s[1..]) by {
        forall i | 0 <= i < |s[1..]| - 1 ensures !PairAt(s[1..], i) {
          assert !PairAt(s, i + 1);
        }
      }
      ToCamelFixedPoint(s[1..]);
      assert [s[0]] + s[1..] == s;
    }
  }

  /** One pass removes every pair, so a second pass changes nothing. */
  lemma ToCamelIdempotent(s: string)
    ensures ToCamel(ToCamel(s)) == ToCamel(s)
  {
    ToCamelFixedPoint(ToCamel(s));
  }

  /** Delete the hyphens and lower-case the ASCII letters: what `toCamel` cannot change. */
  function Letters(s: string): string {
    if s == [] then []
    else if s[0] == '-' then Letters(s[1..])
    else [Lower(s[0])] + Letters(s[1..])
  }

  function Hyphens(s: string): nat {
    if s == [] then 0 else (if s[0] == '-' then 1 else 0) + Hyphens(s[1..])
  }

  /** `toCamel` only deletes hyphens and up-cases letters: the letters survive in order, case
      aside, and the output is shorter by exactly the number of hyphens it removed. */
  lemma {:induction false} ToCamelOnlyDropsHyphens(s: string)
    ensures Letters(ToCamel(s)) == Letters(s)
    ensures |s| - |ToCamel(s)| == Hyphens(s) - Hyphens(ToCamel(s))
  {
    if |s| >= 2 && s[0] == '-' && IsLowerAscii(s[1]) {
      ToCamelOnlyDropsHyphens(s[2..]);
      var r := ToCamel(s);
      assert r == [Upper(s[1])] + ToCamel(s[2..]);
      assert r[1..] == ToCamel(s[2..]);
      assert s[1..][1..] == s[2..];
    } else if s != [] {
      ToCamelOnlyDropsHyphens(s[1..]);
      var r := ToCamel(s);
      assert r[1..] == ToCamel(s[1..]);
    }
  }

  /** A hyphen-case CSS property name: lower-case letters and hyphens, each hyphen followed by
      a lower-case letter (`font-size`, `-webkit-line-clamp`). */
  predicate HyphenCase(k: string) {
    forall i :: 0 <= i < |k| ==> HyphenCaseAt(k, i)
  }

  predicate HyphenCaseAt(k: string, i: int)
    requires 0 <= i < |k|
  {
    IsLowerAscii(k[i]) || (k[i] == '-' && i + 1 < |k| && IsLowerAscii(k[i + 1]))
  }

  predicate AsciiLetters(s: string) {
    forall i :: 0 <= i < |s| ==> IsLowerAscii(s[i]) || IsUpperAscii(s[i])
  }

  /** The renderer's `hyphenateStyleName`: every upper-case letter becomes `-` and its lower case. */
  function Hyphenate(s: string): string {
    if s == [] then []
    else if IsUpperAscii(s[0]) then ['-', Lower(s[0])] + Hyphenate(s[1..])
    else [s[0]] + Hyphenate(s[1..])
  }

  /** On hyphen-case property names `toCamel` is undone by hyphenation, and its output is a
      plain identifier of ASCII letters. */
  lemma {:induction false} HyphenateUndoesToCamel(k: string)
    requires HyphenCase(k)
    ensures AsciiLetters(ToCamel(k))
    ensures Hyphenate(ToCamel(k)) == k
  {
    if k != [] {
      assert HyphenCaseAt(k, 0);
      if k[0] == '-' {
        HyphenCaseDrop(k, 2);
        HyphenateUndoesToCamel(k[2..]);
        assert k == ['-', k[1]] + k[2..];
        PairUndone(k[1], k[2..]);
      } else {
        HyphenCaseDrop(k, 1);
        HyphenateUndoesToCamel(k[1..]);
        assert k == [k[0]] + k[1..];
        LetterUndone(k[0], k[1..]);
      }
    }
  }

  lemma PairUndone(x: char, t: string)
    requires IsLowerAscii(x)
    requires AsciiLetters(ToCamel(t)) && Hyphenate(ToCamel(t)) == t
    ensures AsciiLetters(ToCamel(['-', x] + t)) && Hyphenate(ToCamel(['-', x] + t)) == ['-', x] + t
  {
    var u := Upper(x);
    assert IsUpperAscii(u) && Lower(u) == x;
    ToCamelPair(x, t);
    LettersCons(u, ToCamel(t));
    HyphenateCons(u, ToCamel(t));
  }

  lemma LetterUndone(c: char, t: string)
    requires IsLowerAscii(c)
    requires AsciiLetters(ToCamel(t)) && Hyphenate(ToCamel(t)) == t
    ensures AsciiLetters(ToCamel([c] + t)) && Hyphenate(ToCamel([c] + t)) == [c] + t
  {
    ToCamelPlain(c, t);
    LettersCons(c, ToCamel(t));
    HyphenateCons(c, ToCamel(t));
  }

  lemma HyphenCaseDrop(k: string, n: nat)
    requires HyphenCase(k) && n <= |k|
    ensures HyphenCase(k[n..])
  {
    forall i | 0 <= i < |k[n..]| ensures HyphenCaseAt(k[n..], i) {
      assert HyphenCaseAt(k, i + n);
    }
  }

  lemma LettersCons(c: char, t: string)
    requires IsLowerAscii(c) || IsUpperAscii(c)
    requires AsciiLetters(t)
    ensures AsciiLetters([c] + t)
  {
    assert forall i :: 1 <= i < |t| + 1 ==> ([c] + t)[i] == t[i - 1];
  }

  lemma HyphenateCons(c: char, t: string)
    ensures Hyphenate([c] + t) == (if IsUpperAscii(c) then ['-', Lower(c)] else [c]) + Hyphenate(t)
  {
    assert ([c] + t)[1..] == t;
  }

  /** The other direction: hyphenating a camel-case identifier and applying `toCamel` gives it back. */
  lemma {:induction false} ToCamelUndoesHyphenate(c: string)
    requires AsciiLetters(c)
    ensures ToCamel(Hyphenate(c)) == c
  {
    if c != [] {
      var t := c[1..];
      assert AsciiLetters(t) by {
        forall i | 0 <= i < |t| ensures IsLowerAscii(t[i]) || IsUpperAscii(t[i]) {
          assert t[i] == c[i + 1];
        }
      }
      ToCamelUndoesHyphenate(t);
      assert c == [c[0]] + t;
      HyphenateCons(c[0], t);
      if IsUpperAscii(c[0]) {
        var x := Lower(c[0]);
        assert IsLowerAscii(x) && Upper(x) == c[0];
        ToCamelPair(x, Hyphenate(t));
      } else {
        ToCamelPlain(c[0], Hyphenate(t));
      }
    }
  }

  lemma ToCamelPair(x: char, t: string)
    requires IsLowerAscii(x)
    ensures ToCamel(['-', x] + t) == [Upper(x)] + ToCamel(t)
  {
    assert (['-', x] + t)[2..] == t;
  }

  lemma ToCamelPlain(c: char, t: string)
    requires c != '-'
    ensures ToCamel([c] + t) == [c] + ToCamel(t)
  {
    assert ([c] + t)[1..] == t;
  }
}
