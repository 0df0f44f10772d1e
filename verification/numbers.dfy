/** The number handling around the font-size control: `parseInt` with no radix, and the
    decimal text JavaScript writes for an integer (`value + "px"`). */
module Numbers {
  import opened Strings
  import opened Results

  /** A character's value as a digit in radix up to 36; 36 for anything that is no digit. */
  function DigitValue(c: char): (v: nat)
    ensures v <= 36
    ensures v < 10 <==> '0' <= c <= '9'
  {
    if '0' <= c <= '9' then c as int - '0' as int
    else if 'a' <= c <= 'z' then c as int - 'a' as int + 10
    else if 'A' <= c <= 'Z' then c as int - 'A' as int + 10
    else 36
  }

  /** Length of the longest prefix of radix-`radix` digits. */
  function DigitRun(s: string, radix: nat): (n: nat)
    ensures n <= |s|
    ensures forall i :: 0 <= i < n ==> DigitValue(s[i]) < radix
    ensures n < |s| ==> DigitValue(s[n]) >= radix
  {
    if s == [] || DigitValue(s[0]) >= radix then 0 else 1 + DigitRun(s[1..], radix)
  }

  /** The number a digit string denotes, most significant digit first. */
  function Value(s: string, radix: nat): nat {
    if s == [] then 0 else Value(s[..|s| - 1], radix) * radix + DigitValue(s[|s| - 1])
  }

  /** The optional sign: whether it is `-`, and the text after it. */
  function SignOf(t: string): (bool, string) {
    if t != [] && (t[0] == '-' || t[0] == '+') then (t[0] == '-', t[1..]) else (false, t)
  }

  /** The radix the text after the sign selects, and the digits after any `0x`/`0X` prefix. */
  function RadixOf(u: string): (nat, string) {
    if |u| >= 2 && u[0] == '0' && (u[1] == 'x' || u[1] == 'X') then (16, u[2..]) else (10, u)
  }

  /** The value of the longest leading run of digits; `None` when there is none. */
  function LeadingDigits(v: string, radix: nat): Option<nat> {
    var n := DigitRun(v, radix);
    if n == 0 then None else Some(Value(v[..n], radix))
  }

  /** `parseInt(s)`: leading white space is skipped, then an optional sign, then a `0x`/`0X`
      prefix switches to radix 16; the longest run of digits is read, and no digits at all is
      `NaN` (`None`). */
  function ParseInt(s: string): (r: Option<int>)
    ensures r.Some? && r.value < 0 ==> SignOf(TrimStart(s)).0
  {
    ParseTrimmed(TrimStart(s))
  }

  /** `parseInt` once the leading white space is gone. */
  function ParseTrimmed(t: string): (r: Option<int>)
    ensures r.Some? && r.value < 0 ==> SignOf(t).0
  {
    var (neg, u) := SignOf(t);
    var (radix, v) := RadixOf(u);
    var m := LeadingDigits(v, radix);
    if m.None? then None
    else
      var x: int := m.value;
      Some(if neg then -x else x)
  }

  function DigitChar(d: nat): (c: char)
    requires d < 10
    ensures DigitValue(c) == d
  {
    ('0' as int + d) as char
  }

  /** Decimal digits of a natural number, without leading zeros. */
  function Decimal(n: nat): (r: string)
    ensures r != []
    ensures forall i :: 0 <= i < |r| ==> '0' <= r[i] <= '9'
  {
    if n < 10 then [DigitChar(n)] else Decimal(n / 10) + [DigitChar(n % 10)]
  }

  /** `String(n)` for an integer number. */
  function IntText(n: int): string {
    if n < 0 then "-" + Decimal(-n) else Decimal(n)
  }

  /** `String(x)` for the value the font-size control holds: an integer or `NaN`. */
  function NumberText(x: Option<int>): string {
    if x.None? then "NaN" else IntText(x.value)
  }

  /** The decimal digits denote the number they were written for. */
  lemma {:induction false} DecimalValue(n: nat)
    ensures Value(Decimal(n), 10) == n
  {
    if n >= 10 {
      DecimalValue(n / 10);
      var s := Decimal(n);
      assert s[..|s| - 1] == Decimal(n / 10);
    }
  }

  lemma {:induction false} DigitRunAppend(a: string, b: string, radix: nat)
    requires forall i :: 0 <= i < |a| ==> DigitValue(a[i]) < radix
    requires b == [] || DigitValue(b[0]) >= radix
    ensures DigitRun(a + b, radix) == |a|
  {
    if a == [] {
      assert a + b == b;
    } else {
      assert (a + b)[1..] == a[1..] + b;
      DigitRunAppend(a[1..], b, radix);
    }
  }

  /** `parseInt` reads back what `String(n)` wrote, whatever non-digit text follows: this is why
      `fontSize + "px"` loads back as `fontSize`. */
  lemma ParseIntOfIntText(n: int, rest: string)
    requires rest == [] || (DigitValue(rest[0]) >= 10 && rest[0] != 'x' && rest[0] != 'X')
    ensures ParseInt(IntText(n) + rest) == Some(n)
  {
    var m := if n < 0 then -n else n;
    var u := Decimal(m) + rest;
    var t := IntText(n) + rest;
    SignedText(n, rest);
    GraphicNotWhitespace(t[0]);
    TrimStartUnpadded(t);
    DecimalRun(m, rest);
    SignedValue(n < 0, u, m);
  }

  /** `String(n) + rest` is the sign, if any, then the digits of `|n|`, then `rest`. */
  lemma SignedText(n: int, rest: string)
    ensures var m := if n < 0 then -n else n;
      SignOf(IntText(n) + rest) == (n < 0, Decimal(m) + rest)
    ensures var t := IntText(n) + rest; t != [] && (t[0] == '-' || '0' <= t[0] <= '9')
  {
    var m := if n < 0 then -n else n;
    var d := Decimal(m);
    if n < 0 {
      assert IntText(n) + rest == ['-'] + (d + rest);
    } else {
      assert IntText(n) + rest == d + rest;
    }
  }

  /** A signed digit run parses to the signed value of the digits. */
  lemma SignedValue(neg: bool, u: string, m: nat)
    requires RadixOf(u) == (10, u) && LeadingDigits(u, 10) == Some(m)
    ensures forall t :: SignOf(t) == (neg, u) ==> ParseTrimmed(t) == Some(if neg then -(m as int) else m as int)
  {
  }

  lemma DecimalRun(m: nat, rest: string)
    requires rest == [] || (DigitValue(rest[0]) >= 10 && rest[0] != 'x' && rest[0] != 'X')
    ensures RadixOf(Decimal(m) + rest) == (10, Decimal(m) + rest)
    ensures LeadingDigits(Decimal(m) + rest, 10) == Some(m)
  {
    var d := Decimal(m);
    NoHexPrefix(d, rest);
    DigitRunAppend(d, rest, 10);
    DecimalValue(m);
    PrefixOfAppend(d, rest);
  }

  /** Digits followed by anything but `x`/`X` carry no `0x` prefix. */
  lemma NoHexPrefix(d: string, rest: string)
    requires d != [] && forall i :: 0 <= i < |d| ==> '0' <= d[i] <= '9'
    requires rest == [] || (rest[0] != 'x' && rest[0] != 'X')
    ensures RadixOf(d + rest) == (10, d + rest)
  {
    var u := d + rest;
    if |u| >= 2 {
      assert u[1] == if |d| >= 2 then d[1] else rest[0];
    }
  }

  lemma PrefixOfAppend(a: string, b: string)
    ensures (a + b)[..|a|] == a
  {
  }

  /** `parseInt` skips leading white space. */
  lemma ParseIntSkipsWhitespace(pad: string, s: string)
    requires AllWhitespace(pad)
    ensures ParseInt(pad + s) == ParseInt(s)
  {
    TrimStartPadded(pad, s);
    assert ParseInt(pad + s) == ParseTrimmed(TrimStart(pad + s));
  }

  /** The default the load step falls back to. */
  lemma ParseIntDefault()
    ensures ParseInt("16") == Some(16)
  {
    assert IntText(16) == "16";
    ParseIntOfIntText(16, "");
    assert "16" + "" == "16";
  }

  /** With `el.style` taken as a plain property map that stores any text, a `NaN` size is
      stored as `NaNpx` and reads back as `NaN`. A browser's style object rejects `NaNpx` and
      keeps the previous size instead. */
  lemma ParseIntOfNumberText(x: Option<int>)
    ensures ParseInt(NumberText(x) + "px") == x
  {
    if x.Some? {
      ParseIntOfIntText(x.value, "px");
    } else {
      NoLeadingDigit("NaNpx");
      assert NumberText(x) + "px" == "NaNpx";
    }
  }

  /** Text that starts with an upper-case letter holds no number: `parseInt` gives `NaN`. */
  lemma NoLeadingDigit(t: string)
    requires t != [] && IsUpperAscii(t[0])
    ensures ParseInt(t) == None
  {
    GraphicNotWhitespace(t[0]);
    TrimStartUnpadded(t);
    NoDigitsTrimmed(t);
  }

  lemma NoDigitsTrimmed(t: string)
    requires t != [] && IsUpperAscii(t[0])
    ensures ParseTrimmed(t) == None
  {
    assert SignOf(t) == (false, t);
    assert RadixOf(t) == (10, t);
    assert DigitValue(t[0]) >= 10;
  }
}
