/** `styleToJs` from serialize.ts: turns a style attribute into the body of a JSX style object. */
module StyleCodec {
  import opened Strings
  import opened Results
  import opened Camel
  import opened Css

  /** One object-literal entry, `key: "value"`, with the value quoted but not escaped. */
  function JsEntry(key: string, value: string): string {
    key + ": \"" + value + "\""
  }

  /** A non-empty segment with no `:` makes `v` undefined, so `v.trim()` throws. */
  predicate Malformed(seg: string) {
    seg != "" && ':' !in seg
  }

  /** The `map` callback for one non-empty segment: `[k, v] = s.split(":")`, trim both, camel-case
      the key. Pieces after a second `:` are never looked at. */
  function Entry(seg: string): (r: Result<string, StyleError>)
    ensures r.Ok? ==> r.value != ""
  {
    var parts := Split(seg, ':');
    if |parts| < 2 then Err(MissingColon(seg))
    else Ok(JsEntry(ToCamel(Trim(parts[0])), Trim(parts[1])))
  }

  /** The callback throws exactly when the segment has no `:`. */
  lemma EntryFailsIff(seg: string)
    ensures Entry(seg).Err? <==> ':' !in seg
  {
    var parts := Split(seg, ':');
    if |parts| >= 2 {
      assert seg == parts[0] + [':'] + Join(parts[1..], [':']);
      assert seg[|parts[0]|] == ':';
    }
  }

  /** `filter(Boolean)` followed by `map(...)`: empty segments are skipped, the first malformed
      one throws, and otherwise there is one entry per non-empty segment. */
  function Entries(segs: seq<string>): (r: Result<seq<string>, StyleError>)
    ensures r.Ok? ==> forall i :: 0 <= i < |r.value| ==> r.value[i] != ""
    ensures r.Ok? ==> |r.value| <= |segs|
  {
    if segs == [] then Ok([])
    else if segs[0] == "" then Entries(segs[1..])
    else
      var e, rest := Entry(segs[0]), Entries(segs[1..]);
      PushKeeps(e, rest, |segs[1..]|);
      Push(e, rest)
  }

  /** Pushing a non-empty entry onto a list of non-empty entries gives a list of non-empty
      entries, one longer. */
  lemma PushKeeps(e: Result<string, StyleError>, rest: Result<seq<string>, StyleError>, n: nat)
    requires e.Ok? ==> e.value != ""
    requires rest.Ok? ==> |rest.value| <= n && forall i :: 0 <= i < |rest.value| ==> rest.value[i] != ""
    ensures var r := Push(e, rest);
      r.Ok? ==> |r.value| <= n + 1 && forall i :: 0 <= i < |r.value| ==> r.value[i] != ""
  {
    var r := Push(e, rest);
    if r.Ok? {
      assert forall i :: 1 <= i < |r.value| ==> r.value[i] == rest.value[i - 1];
    }
  }

  /** One mapped segment in front of the mapped rest: the earlier error wins. */
  function Push(e: Result<string, StyleError>, rest: Result<seq<string>, StyleError>): (r: Result<seq<string>, StyleError>)
    ensures r.Err? <==> e.Err? || rest.Err?
    ensures r.Ok? ==> |r.value| == |rest.value| + 1 && r.value[0] == e.value && r.value[1..] == rest.value
  {
    if e.Err? then Err(e.error)
    else if rest.Err? then rest
    else Ok([e.value] + rest.value)
  }

  /** Exactly the inputs with a malformed segment throw. */
  lemma {:induction false} EntriesFailIff(segs: seq<string>)
    ensures Entries(segs).Err? <==> exists i :: 0 <= i < |segs| && Malformed(segs[i])
  {
    if segs != [] {
      var t := segs[1..];
      EntriesFailIff(t);
      EntryFailsIff(segs[0]);
      MalformedHeadOrTail(segs);
    }
  }

  lemma MalformedHeadOrTail(segs: seq<string>)
    requires segs != []
    ensures (exists i :: 0 <= i < |segs| && Malformed(segs[i])) <==>
      Malformed(segs[0]) || exists j :: 0 <= j < |segs[1..]| && Malformed(segs[1..][j])
  {
    if j :| 0 <= j < |segs[1..]| && Malformed(segs[1..][j]) {
      assert Malformed(segs[j + 1]);
    }
    if i :| 0 <= i < |segs| && Malformed(segs[i]) {
      if i > 0 {
        assert Malformed(segs[1..][i - 1]);
      }
    }
  }

  /** `style.split(";").filter(Boolean).map(...).join(", ")`. */
  function StyleToJs(style: string): (r: Result<string, StyleError>)
    ensures style == "" ==> r == Ok("")
  {
    var es := Entries(Split(style, ';'));
    assert style == "" ==> es == Entries([""]) == Entries([]);
    if es.Err? then Err(es.error) else Ok(Join(es.value, ", "))
  }

  /** `styleToJs` throws exactly when some `;` segment is non-empty and has no `:`; whitespace
      counts as non-empty. */
  lemma StyleToJsThrowsIff(style: string)
    ensures StyleToJs(style).Err? <==>
      exists i :: 0 <= i < |Split(style, ';')| && Malformed(Split(style, ';')[i])
  {
    var segs := Split(style, ';');
    EntriesFailIff(segs);
    assert StyleToJs(style).Err? <==> Entries(segs).Err?;
    if i :| 0 <= i < |segs| && Malformed(segs[i]) {
      assert Entries(segs).Err?;
      assert StyleToJs(style).Err?;
      assert exists j :: 0 <= j < |Split(style, ';')| && Malformed(Split(style, ';')[j]);
    }
  }

  /** How the outputs of two style strings combine when they are glued with `;`: the first
      error wins; otherwise the two entry lists are joined with `, `. */
  function Combine(a: Result<string, StyleError>, b: Result<string, StyleError>): Result<string, StyleError> {
    if a.Err? then a
    else if b.Err? then b
    else if a.value == "" then b
    else if b.value == "" then a
    else Ok(a.value + ", " + b.value)
  }

  function CombineSeqs(a: Result<seq<string>, StyleError>, b: Result<seq<string>, StyleError>): Result<seq<string>, StyleError> {
    if a.Err? then a else if b.Err? then b else Ok(a.value + b.value)
  }

  lemma {:induction false} EntriesAppend(x: seq<string>, y: seq<string>)
    ensures Entries(x + y) == CombineSeqs(Entries(x), Entries(y))
  {
    if x == [] {
      assert x + y == y;
      CombineEmpty(Entries(y));
    } else {
      var xy := x + y;
      assert xy[0] == x[0] && xy[1..] == x[1..] + y;
      EntriesAppend(x[1..], y);
      if x[0] != "" {
        PushCombine(Entry(x[0]), Entries(x[1..]), Entries(y));
      }
    }
  }

  lemma CombineEmpty(b: Result<seq<string>, StyleError>)
    ensures CombineSeqs(Ok([]), b) == b
  {
    if b.Ok? {
      assert [] + b.value == b.value;
    }
  }

  lemma PushCombine(e: Result<string, StyleError>, a: Result<seq<string>, StyleError>, b: Result<seq<string>, StyleError>)
    ensures Push(e, CombineSeqs(a, b)) == CombineSeqs(Push(e, a), b)
  {
    if e.Ok? && a.Ok? && b.Ok? {
      assert [e.value] + (a.value + b.value) == ([e.value] + a.value) + b.value;
    }
  }

  lemma JoinOfNonEmpty(es: seq<string>, sep: string)
    requires forall i :: 0 <= i < |es| ==> es[i] != ""
    ensures Join(es, sep) == "" <==> es == []
  {
    if |es| > 1 {
      assert |Join(es, sep)| >= |es[0]|;
    }
  }

  /** Gluing two style strings with `;` combines their outputs: each `;` segment contributes its
      entries in input order, and the first malformed segment decides the error. */
  lemma StyleToJsAppend(a: string, b: string)
    ensures StyleToJs(a + ";" + b) == Combine(StyleToJs(a), StyleToJs(b))
  {
    SplitAppend(a, b, ';');
    var sa, sb := Split(a, ';'), Split(b, ';');
    EntriesAppend(sa, sb);
    var ea, eb := Entries(sa), Entries(sb);
    if ea.Ok? && eb.Ok? {
      JoinOfNonEmpty(ea.value, ", ");
      JoinOfNonEmpty(eb.value, ", ");
      if ea.value == [] {
        assert ea.value + eb.value == eb.value;
      } else if eb.value == [] {
        assert ea.value + eb.value == ea.value;
      } else {
        JoinAppend(ea.value, eb.value, ", ");
      }
    }
  }

  /** A single segment yields exactly its own entry, or nothing when it is empty. */
  lemma StyleToJsSegment(seg: string)
    requires ';' !in seg
    ensures StyleToJs(seg) == if seg == "" then Ok("") else Entry(seg)
  {
    SplitNoSeparator(seg, ';');
    var segs := Split(seg, ';');
    assert segs[1..] == [];
    var es := Entries(segs);
    if seg == "" {
      assert es == Entries([]) == Ok([]);
    } else {
      var e := Entry(seg);
      assert Entries(segs[1..]) == Ok([]);
      assert e.Ok? ==> [e.value] + [] == [e.value];
      assert es == if e.Err? then Err(e.error) else Ok([e.value]);
    }
  }

  /** The value is the text between the first and the second `:`; anything after a second `:`
      is dropped (`background: url(a:b)` keeps only `url(a`). */
  lemma EntryIgnoresAfterSecondColon(k: string, v: string, rest: string)
    requires ':' !in k && ':' !in v
    ensures Entry(k + ":" + v + ":" + rest) == Ok(JsEntry(ToCamel(Trim(k)), Trim(v)))
    ensures Entry(k + ":" + v) == Ok(JsEntry(ToCamel(Trim(k)), Trim(v)))
  {
    SplitAppend(k, v + ":" + rest, ':');
    SplitAppend(v, rest, ':');
    SplitNoSeparator(k, ':');
    SplitNoSeparator(v, ':');
    assert k + ":" + v + ":" + rest == k + [':'] + (v + [':'] + rest);
    SplitAppend(k, v, ':');
  }

  /** A whitespace-only segment survives `filter(Boolean)` and throws: a trailing `; ` is fatal. */
  lemma TrailingSpaceSegmentThrows(style: string)
    ensures StyleToJs(style + "; ").Err?
  {
    SemicolonSpace(style);
    StyleToJsAppend(style, " ");
    StyleToJsSegment(" ");
    EntryFailsIff(" ");
  }

  lemma SemicolonSpace(style: string)
    ensures style + "; " == style + ";" + " "
  {
  }

  /** `a;;b` with `b` lacking a `:`: the empty segment is skipped, but `b` throws rather than
      being dropped, unless an earlier segment of `a` already threw. */
  lemma MalformedAfterEmptySegmentThrows(a: string, b: string)
    requires ';' !in b && Malformed(b)
    ensures StyleToJs(a + ";;" + b) == if StyleToJs(a).Err? then StyleToJs(a) else Err(MissingColon(b))
  {
    assert a + ";;" + b == a + ";" + ("" + ";" + b);
    StyleToJsAppend(a, "" + ";" + b);
    StyleToJsAppend("", b);
    StyleToJsSegment("");
    StyleToJsSegment(b);
    assert "" + ";" + b == ";" + b;
  }

  /** The object-literal body the serializer is meant to produce for a declaration list:
      one `camelKey: "value"` entry per declaration, in order, separated by `, `. */
  function FormatDecls(ds: seq<Decl>): string {
    if ds == [] then ""
    else if |ds| == 1 then JsEntry(ToCamel(ds[0].key), ds[0].value)
    else JsEntry(ToCamel(ds[0].key), ds[0].value) + ", " + FormatDecls(ds[1..])
  }

  /** A declaration the attribute text carries intact: no `;` or `:` inside key or value, and no
      whitespace at their ends. */
  predicate PlainDecl(d: Decl) {
    && ';' !in d.key && ':' !in d.key && IsTrimmed(d.key)
    && ';' !in d.value && ':' !in d.value && IsTrimmed(d.value)
  }

  /** The codec round trip: the attribute text the browser writes for plain declarations goes
      through `styleToJs` to exactly one entry per declaration. */
  lemma AttrTextToJs(ds: seq<Decl>)
    requires forall i :: 0 <= i < |ds| ==> PlainDecl(ds[i])
    ensures StyleToJs(AttrText(ds)) == Ok(FormatDecls(ds))
  {
    if ds != [] {
      AttrTextToJsPadded(ds, "");
      assert "" + AttrText(ds) == AttrText(ds);
    }
  }

  lemma {:induction false} AttrTextToJsPadded(ds: seq<Decl>, pad: string)
    requires ds != []
    requires forall i :: 0 <= i < |ds| ==> PlainDecl(ds[i])
    requires AllWhitespace(pad) && ';' !in pad && ':' !in pad
    ensures StyleToJs(pad + AttrText(ds)) == Ok(FormatDecls(ds))
  {
    var d := ds[0];
    var seg := pad + d.key + ": " + d.value;
    var first := JsEntry(ToCamel(d.key), d.value);
    PlainDeclSegment(d, pad);
    var rest := if |ds| == 1 then "" else " " + AttrText(ds[1..]);
    AttrTextCons(ds, pad);
    StyleToJsAppend(seg, rest);
    if |ds| == 1 {
      StyleToJsSegment("");
      CombineOk(first, "");
    } else {
      var tail := ds[1..];
      AttrTextToJsPadded(tail, " ");
      FormatDeclsNonEmpty(tail);
      CombineOk(first, FormatDecls(tail));
    }
  }

  /** The attribute text splits at the end of its first declaration. */
  lemma AttrTextCons(ds: seq<Decl>, pad: string)
    requires ds != []
    ensures pad + AttrText(ds) ==
      (pad + ds[0].key + ": " + ds[0].value) + ";" + (if |ds| == 1 then "" else " " + AttrText(ds[1..]))
  {
    var c := if |ds| == 1 then "" else " " + AttrText(ds[1..]);
    AttrTextHead(ds);
    Glue(pad, ds[0].key, ds[0].value, c);
  }

  lemma AttrTextHead(ds: seq<Decl>)
    requires ds != []
    ensures AttrText(ds) == ds[0].key + ": " + ds[0].value + ";" + (if |ds| == 1 then "" else " " + AttrText(ds[1..]))
  {
    if |ds| == 1 {
      assert DeclText(ds[0]) + "" == DeclText(ds[0]);
    }
  }

  lemma CombineOk(a: string, b: string)
    requires a != ""
    ensures Combine(Ok(a), Ok(b)) == Ok(if b == "" then a else a + ", " + b)
  {
  }

  lemma FormatDeclsNonEmpty(ds: seq<Decl>)
    requires ds != []
    ensures FormatDecls(ds) != ""
  {
    assert |FormatDecls(ds)| >= |JsEntry(ToCamel(ds[0].key), ds[0].value)|;
  }

  /** One declaration's text, after the padding the previous `;` left, is one entry. */
  lemma PlainDeclSegment(d: Decl, pad: string)
    requires PlainDecl(d)
    requires AllWhitespace(pad) && ';' !in pad && ':' !in pad
    ensures ';' !in pad + d.key + ": " + d.value
    ensures StyleToJs(pad + d.key + ": " + d.value) == Ok(JsEntry(ToCamel(d.key), d.value))
  {
    var seg := pad + d.key + ": " + d.value;
    PlainDeclEntry(d, pad);
    SegmentChars(pad, d.key, d.value, ';');
    StyleToJsSegment(seg);
  }

  lemma PlainDeclEntry(d: Decl, pad: string)
    requires PlainDecl(d)
    requires AllWhitespace(pad) && ':' !in pad
    ensures Entry(pad + d.key + ": " + d.value) == Ok(JsEntry(ToCamel(d.key), d.value))
  {
    var v := " " + d.value;
    assert pad + d.key + ": " + d.value == (pad + d.key) + ":" + v;
    assert ':' !in v;
    EntryIgnoresAfterSecondColon(pad + d.key, v, "");
    TrimPadded(pad, d.key);
    TrimPadded(" ", d.value);
  }

  /** A character in none of the parts, other than `:` and space, is not in `pad + k + ": " + v`. */
  lemma SegmentChars(pad: string, k: string, v: string, c: char)
    requires c != ':' && c != ' ' && c !in pad && c !in k && c !in v
    ensures c !in pad + k + ": " + v
  {
    var seg := pad + k + ": " + v;
    forall i | 0 <= i < |seg| ensures seg[i] != c {
      if i < |pad| { assert seg[i] == pad[i]; }
      else if i < |pad| + |k| { assert seg[i] == k[i - |pad|]; }
      else if i < |pad| + |k| + 2 { assert seg[i] == ": "[i - |pad| - |k|]; }
      else { assert seg[i] == v[i - |pad| - |k| - 2]; }
    }
  }

  lemma Glue(pad: string, k: string, v: string, c: string)
    ensures pad + (k + ": " + v + ";" + c) == (pad + k + ": " + v) + ";" + c
  {
  }
}
