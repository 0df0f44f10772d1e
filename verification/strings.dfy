/** The JavaScript string primitives the editor relies on: `trim`, `split`, `join`,
    ASCII case mapping, and scanning up to a stop character. */
module Strings {

  /** ECMAScript WhiteSpace and LineTerminator code points: what `trim` and `parseInt` skip. */
  const Whitespace: set<char> := {
    '\t', '\n', '\U{B}', '\U{C}', '\r', ' ', '\U{A0}', '\U{1680}',
    '\U{2000}', '\U{2001}', '\U{2002}', '\U{2003}', '\U{2004}', '\U{2005}', '\U{2006}',
    '\U{2007}', '\U{2008}', '\U{2009}', '\U{200A}',
    '\U{2028}', '\U{2029}', '\U{202F}', '\U{205F}', '\U{3000}', '\U{FEFF}'
  }

  predicate IsWhitespace(c: char) {
    c in Whitespace
  }

  /** Printable ASCII other than the space is never white space. */
  lemma GraphicNotWhitespace(c: char)
    requires '!' <= c <= '~'
    ensures !IsWhitespace(c)
  {
  }

  predicate AllWhitespace(s: string) {
    forall i :: 0 <= i < |s| ==> IsWhitespace(s[i])
  }

  /** A string with no whitespace at either end: `trim` leaves it alone. */
  predicate IsTrimmed(s: string) {
    s == [] || (!IsWhitespace(s[0]) && !IsWhitespace(s[|s| - 1]))
  }

  /** `String.prototype.trimStart`: the suffix left after dropping the leading whitespace. */
  function TrimStart(s: string): (r: string)
    ensures |r| <= |s| && r == s[|s| - |r|..]
    ensures forall i :: 0 <= i < |s| - |r| ==> IsWhitespace(s[i])
    ensures r == [] || !IsWhitespace(r[0])
  {
    if s != [] && IsWhitespace(s[0]) then
      var r := TrimStart(s[1..]);
      assert forall i :: 1 <= i < |s| - |r| ==> s[i] == s[1..][i - 1];
      r
    else s
  }

  lemma TrimStartUnpadded(s: string)
    requires s == [] || !IsWhitespace(s[0])
    ensures TrimStart(s) == s
  {
  }

  /** `String.prototype.trimEnd`: the prefix left after dropping the trailing whitespace. */
  function TrimEnd(s: string): (r: string)
    ensures |r| <= |s| && r == s[..|r|]
    ensures forall i :: |r| <= i < |s| ==> IsWhitespace(s[i])
    ensures r == [] || !IsWhitespace(r[|r| - 1])
  {
    if s != [] && IsWhitespace(s[|s| - 1]) then
      var r := TrimEnd(s[..|s| - 1]);
      assert forall i :: |r| <= i < |s| - 1 ==> s[i] == s[..|s| - 1][i];
      r
    else s
  }

  /** `String.prototype.trim`: whitespace cut from both ends. */
  function Trim(s: string): (r: string)
    ensures IsTrimmed(r)
    ensures |r| <= |s|
  {
    TrimEnd(TrimStart(s))
  }

  /** `trim` yields the empty string exactly for all-whitespace input. */
  lemma TrimEmptyIff(s: string)
    ensures Trim(s) == [] <==> AllWhitespace(s)
  {
    var t := TrimStart(s);
    var p := s[..|s| - |t|];
    assert s == p + t;
    if Trim(s) == [] {
      assert AllWhitespace(t[0..]);
    }
  }

  lemma TrimOfTrimmed(s: string)
    requires IsTrimmed(s)
    ensures Trim(s) == s
  {
  }

  /** Leading whitespace never survives `trim`. */
  lemma {:induction false} TrimDropsLeadingWhitespace(pad: string, s: string)
    requires AllWhitespace(pad)
    ensures Trim(pad + s) == Trim(s)
  {
    if pad != [] {
      assert (pad + s)[1..] == pad[1..] + s;
      TrimDropsLeadingWhitespace(pad[1..], s);
    } else {
      assert pad + s == s;
    }
  }

  /** Leading whitespace is exactly what `trimStart` removes. */
  lemma {:induction false} TrimStartPadded(pad: string, s: string)
    requires AllWhitespace(pad)
    ensures TrimStart(pad + s) == TrimStart(s)
  {
    if pad != [] {
      TrimStartStep(pad, s);
      TrimStartPadded(pad[1..], s);
    } else {
      assert pad + s == s;
    }
  }

  lemma TrimStartStep(pad: string, s: string)
    requires pad != [] && IsWhitespace(pad[0])
    ensures TrimStart(pad + s) == TrimStart(pad[1..] + s)
    ensures AllWhitespace(pad) ==> AllWhitespace(pad[1..])
  {
    assert (pad + s)[1..] == pad[1..] + s;
  }

  /** `trim` of a trimmed string behind whitespace padding gives the string back. */
  lemma TrimPadded(pad: string, s: string)
    requires AllWhitespace(pad) && IsTrimmed(s)
    ensures Trim(pad + s) == s
  {
    TrimDropsLeadingWhitespace(pad, s);
    TrimOfTrimmed(s);
  }

  /** `parts.join(sep)`. */
  function Join(parts: seq<string>, sep: string): string {
    if |parts| == 0 then ""
    else if |parts| == 1 then parts[0]
    else parts[0] + sep + Join(parts[1..], sep)
  }

  /** `s.split(sep)` for a one-character separator: at least one piece, no piece holds `sep`,
      and joining the pieces with `sep` gives `s` back. The empty string splits into `[""]`. */
  function Split(s: string, sep: char): (r: seq<string>)
    ensures |r| >= 1
    ensures forall i :: 0 <= i < |r| ==> sep !in r[i]
    ensures Join(r, [sep]) == s
  {
    if |s| == 0 then [""]
    else
      var rest := Split(s[1..], sep);
      if s[0] == sep then
        assert [sep] + s[1..] == s;
        [""] + rest
      else
        var r := [[s[0]] + rest[0]] + rest[1..];
        assert r[1..] == rest[1..];
        assert Join(r, [sep]) == [s[0]] + Join(rest, [sep]);
        r
  }

  lemma {:induction false} SplitNoSeparator(s: string, sep: char)
    requires sep !in s
    ensures Split(s, sep) == [s]
  {
    if |s| > 0 {
      assert sep !in s[1..];
      SplitNoSeparator(s[1..], sep);
      assert [s[0]] + s[1..] == s;
    }
  }

  /** Splitting distributes over a separator: the pieces of `a;b` are the pieces of `a` then those of `b`. */
  lemma {:induction false} SplitAppend(a: string, b: string, sep: char)
    ensures Split(a + [sep] + b, sep) == Split(a, sep) + Split(b, sep)
  {
    var s := a + [sep] + b;
    if |a| == 0 {
      assert s[1..] == b;
    } else {
      assert s[1..] == a[1..] + [sep] + b;
      SplitAppend(a[1..], b, sep);
    }
  }

  /** Joining with `sep` and splitting on it again is the identity when no piece holds `sep`. */
  lemma {:induction false} SplitOfJoin(parts: seq<string>, sep: char)
    requires |parts| >= 1
    requires forall i :: 0 <= i < |parts| ==> sep !in parts[i]
    ensures Split(Join(parts, [sep]), sep) == parts
  {
    SplitNoSeparator(parts[0], sep);
    if |parts| > 1 {
      SplitOfJoin(parts[1..], sep);
      SplitAppend(parts[0], Join(parts[1..], [sep]), sep);
      assert parts[0] + [sep] + Join(parts[1..], [sep]) == Join(parts, [sep]);
      assert [parts[0]] + parts[1..] == parts;
    }
  }

  /** `join` of a concatenation puts one separator between the two joined halves. */
  lemma {:induction false} JoinAppend(x: seq<string>, y: seq<string>, sep: string)
    requires |x| >= 1 && |y| >= 1
    ensures Join(x + y, sep) == Join(x, sep) + sep + Join(y, sep)
  {
    if |x| > 1 {
      assert (x + y)[1..] == x[1..] + y;
      JoinAppend(x[1..], y, sep);
    } else {
      assert (x + y)[1..] == y;
    }
  }

  predicate IsLowerAscii(c: char) { 'a' <= c <= 'z' }
  predicate IsUpperAscii(c: char) { 'A' <= c <= 'Z' }
  predicate IsLetterOrDigit(c: char) { IsLowerAscii(c) || IsUpperAscii(c) || '0' <= c <= '9' }

  function Upper(c: char): (r: char)
    ensures IsLowerAscii(c) ==> IsUpperAscii(r) && r as int == c as int - 32
    ensures !IsLowerAscii(c) ==> r == c
  {
    if IsLowerAscii(c) then (c as int - 32) as char else c
  }

  function Lower(c: char): (r: char)
    ensures IsUpperAscii(c) ==> IsLowerAscii(r) && r as int == c as int + 32
    ensures !IsUpperAscii(c) ==> r == c
  {
    if IsUpperAscii(c) then (c as int + 32) as char else c
  }

  /** `toLowerCase` restricted to ASCII letters: same length, each letter mapped to its lower case. */
  function ToLower(s: string): (r: string)
    ensures |r| == |s|
    ensures forall i :: 0 <= i < |s| ==> r[i] == Lower(s[i])
  {
    if s == [] then [] else [Lower(s[0])] + ToLower(s[1..])
  }

  /** Length of the longest prefix of `s` holding no character of `stop`. */
  function Span(s: string, stop: set<char>): (n: nat)
    ensures n <= |s|
    ensures forall i :: 0 <= i < n ==> s[i] !in stop
    ensures n < |s| ==> s[n] in stop
  {
    if s == [] || s[0] in stop then 0 else 1 + Span(s[1..], stop)
  }

  /** Scanning `a + b` stops exactly at the border when `a` is free of stop characters
      and `b` is empty or starts with one. */
  lemma {:induction false} SpanAppend(a: string, b: string, stop: set<char>)
    requires forall i :: 0 <= i < |a| ==> a[i] !in stop
    requires b == [] || b[0] in stop
    ensures Span(a + b, stop) == |a|
    ensures (a + b)[..|a|] == a && (a + b)[|a|..] == b
  {
    if a == [] {
      assert a + b == b;
    } else {
      assert (a + b)[1..] == a[1..] + b;
      SpanAppend(a[1..], b, stop);
    }
  }
}
