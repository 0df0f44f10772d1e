/** A reader for the serializer's output grammar, which shows that the output carries the
    whole tree: `<tag style={{ key: "value", … }}>children</tag>`, text up to the next `<`. Style keys
    are turned back into hyphen case, as a renderer does with a JSX style object. */
module Reparse {
  import opened Strings
  import opened Results
  import opened Camel
  import opened Css
  import opened StyleCodec
  import opened Tree
  import opened Serializer

  /** `s` with the prefix `p` removed, if `s` starts with `p`. */
  function Eat(s: string, p: string): (r: Option<string>)
    ensures r.Some? ==> |r.value| == |s| - |p| && s == p + r.value
  {
    if |p| <= |s| && s[..|p|] == p then
      assert s == s[..|p|] + s[|p|..];
      Some(s[|p|..])
    else None
  }

  lemma EatPrefix(p: string, t: string)
    ensures Eat(p + t, p) == Some(t)
  {
    assert (p + t)[..|p|] == p;
  }

  /** One `camelKey: "value"` entry; the key is hyphenated back. */
  function ParseEntry(s: string): (r: Option<(Decl, string)>)
    ensures r.Some? ==> |r.value.1| < |s|
  {
    var k := Span(s, {':'});
    var e := Eat(s[k..], ": \"");
    if e.None? then None
    else
      var v := Span(e.value, {'"'});
      var after := Eat(e.value[v..], "\"");
      if after.None? then None else Some((Decl(Hyphenate(s[..k]), e.value[..v]), after.value))
  }

  /** Entries separated by `, `. */
  function ParseEntries(s: string): (r: Option<(seq<Decl>, string)>)
    ensures r.Some? ==> |r.value.1| < |s|
    decreases |s|
  {
    var e := ParseEntry(s);
    if e.None? then None
    else
      var more := Eat(e.value.1, ", ");
      if more.None? then Some(([e.value.0], e.value.1))
      else
        var tail := ParseEntries(more.value);
        if tail.None? then None else Some(([e.value.0] + tail.value.0, tail.value.1))
  }

  /** Nothing before `>`, or ` style={{ entries }}`. */
  function ParseStyleAttr(s: string): (r: Option<(seq<Decl>, string)>)
    ensures r.Some? ==> |r.value.1| <= |s|
  {
    if s != [] && s[0] == '>' then Some(([], s))
    else
      var open := Eat(s, " style={{ ");
      if open.None? then None
      else
        var es := ParseEntries(open.value);
        if es.None? then None
        else
          var close := Eat(es.value.1, " }}");
          if close.None? then None else Some((es.value.0, close.value))
  }

  /** One node: text up to the next `<`, or an element with its matching closing tag. */
  function ParseNode(s: string): (r: Option<(Node, string)>)
    ensures r.Some? ==> |r.value.1| < |s|
    decreases |s|, 0
  {
    if s == [] then None
    else if s[0] != '<' then
      var n := Span(s, {'<'});
      Some((Text(s[..n]), s[n..]))
    else
      var s1 := s[1..];
      var k := Span(s1, {' ', '>'});
      var tag := s1[..k];
      var st := ParseStyleAttr(s1[k..]);
      if k == 0 || st.None? then None
      else
        var body := Eat(st.value.1, ">");
        if body.None? then None
        else
          var kids := ParseKids(body.value);
          if kids.None? then None
          else
            var close := Eat(kids.value.1, "</" + tag + ">");
            if close.None? then None else Some((Elem(tag, st.value.0, kids.value.0), close.value))
  }

  /** Nodes up to a closing tag or the end of the input. */
  function ParseKids(s: string): (r: Option<(seq<Node>, string)>)
    ensures r.Some? ==> |r.value.1| <= |s|
    decreases |s|, 1
  {
    if s == [] || (|s| >= 2 && s[0] == '<' && s[1] == '/') then Some(([], s))
    else
      var a := ParseNode(s);
      if a.None? then None
      else
        var b := ParseKids(a.value.1);
        if b.None? then None else Some(([a.value.0] + b.value.0, b.value.1))
  }

  /** A declaration the reader gets back intact: a hyphen-case name and a plain value with no `"`. */
  predicate NormalDecl(d: Decl) {
    HyphenCase(d.key) && PlainDecl(d) && '"' !in d.value
  }

  predicate NormalTag(t: string) {
    t != [] && forall i :: 0 <= i < |t| ==> IsLetterOrDigit(t[i])
  }

  /** Trees whose output reads back unambiguously: text is non-empty and has no `<`, two text
      children are never adjacent, tags are ASCII letters and digits, declarations are normal. */
  predicate NormalNode(n: Node)
    decreases n
  {
    match n
    case Text(t) => t != "" && '<' !in t
    case Elem(tag, style, kids) =>
      NormalTag(tag) && (forall i :: 0 <= i < |style| ==> NormalDecl(style[i])) && NormalKids(kids)
  }

  predicate NormalKids(ks: seq<Node>)
    decreases ks
  {
    ks != [] ==>
      && NormalNode(ks[0]) && NormalKids(ks[1..])
      && (ks[0].Text? && |ks| > 1 ==> ks[1].Elem?)
  }

  /** One entry reads back as its declaration, hyphen-case name restored. */
  lemma ParseEntryOf(d: Decl, after: string)
    requires NormalDecl(d)
    ensures ParseEntry(JsEntry(ToCamel(d.key), d.value) + after) == Some((d, after))
  {
    var c := ToCamel(d.key);
    HyphenateUndoesToCamel(d.key);
    LettersHaveNoColon(c);
    EntryText(c, d.value, after);
    ParseEntryStep(c, d.value, after);
  }

  lemma LettersHaveNoColon(c: string)
    requires AsciiLetters(c)
    ensures forall i :: 0 <= i < |c| ==> c[i] !in {':'}
  {
    forall i | 0 <= i < |c| ensures c[i] !in {':'} {
      assert IsLowerAscii(c[i]) || IsUpperAscii(c[i]);
    }
  }

  lemma EntryText(c: string, v: string, after: string)
    ensures JsEntry(c, v) + after == c + (": \"" + (v + "\"" + after))
  {
  }

  /** Reading `key: "value"` when the key has no `:` and the value no `"`. */
  lemma ParseEntryStep(c: string, v: string, after: string)
    requires forall i :: 0 <= i < |c| ==> c[i] !in {':'}
    requires '"' !in v
    ensures ParseEntry(c + (": \"" + (v + "\"" + after))) == Some((Decl(Hyphenate(c), v), after))
  {
    var q := ": \"";
    var r1 := v + "\"" + after;
    SpanAppend(c, q + r1, {':'});
    EatPrefix(q, r1);
    ValuePart(v, after);
  }

  lemma ValuePart(v: string, after: string)
    requires '"' !in v
    ensures Span(v + "\"" + after, {'"'}) == |v|
    ensures (v + "\"" + after)[..|v|] == v
    ensures Eat((v + "\"" + after)[|v|..], "\"") == Some(after)
  {
    SpanAppend(v, "\"" + after, {'"'});
    assert v + "\"" + after == v + ("\"" + after);
    EatPrefix("\"", after);
  }

  /** The formatted entries read back as the declaration list, up to whatever follows. */
  lemma {:induction false} EntriesRoundTrip(ds: seq<Decl>, rest: string)
    requires ds != []
    requires forall i :: 0 <= i < |ds| ==> NormalDecl(ds[i])
    requires Eat(rest, ", ").None?
    ensures ParseEntries(FormatDecls(ds) + rest) == Some((ds, rest))
  {
    var d := ds[0];
    var e := JsEntry(ToCamel(d.key), d.value);
    if |ds| == 1 {
      FormatDeclsOne(ds, rest);
      ParseEntryOf(d, rest);
      ParseLastEntry(e + rest, d, rest);
    } else {
      var tail := ds[1..];
      var more := FormatDecls(tail) + rest;
      FormatDeclsCons(ds, rest);
      ParseEntryOf(d, ", " + more);
      EatPrefix(", ", more);
      NormalDeclsTail(ds);
      EntriesRoundTrip(tail, rest);
      ParseMoreEntries(e + (", " + more), d, ", " + more, more, tail, rest);
    }
  }

  lemma NormalDeclsTail(ds: seq<Decl>)
    requires ds != [] && forall i :: 0 <= i < |ds| ==> NormalDecl(ds[i])
    ensures forall i :: 0 <= i < |ds[1..]| ==> NormalDecl(ds[1..][i])
    ensures [ds[0]] + ds[1..] == ds
  {
    assert forall i :: 0 <= i < |ds[1..]| ==> ds[1..][i] == ds[i + 1];
  }

  lemma FormatDeclsOne(ds: seq<Decl>, rest: string)
    requires |ds| == 1
    ensures FormatDecls(ds) + rest == JsEntry(ToCamel(ds[0].key), ds[0].value) + rest
    ensures [ds[0]] == ds
  {
  }

  lemma ParseLastEntry(s: string, d: Decl, rest: string)
    requires ParseEntry(s) == Some((d, rest)) && Eat(rest, ", ").None?
    ensures ParseEntries(s) == Some(([d], rest))
  {
  }

  lemma ParseMoreEntries(s: string, d: Decl, after: string, more: string, tail: seq<Decl>, rest: string)
    requires ParseEntry(s) == Some((d, after)) && Eat(after, ", ") == Some(more)
    requires ParseEntries(more) == Some((tail, rest))
    ensures ParseEntries(s) == Some(([d] + tail, rest))
  {
  }

  lemma FormatDeclsCons(ds: seq<Decl>, rest: string)
    requires |ds| > 1
    ensures FormatDecls(ds) + rest == JsEntry(ToCamel(ds[0].key), ds[0].value) + (", " + (FormatDecls(ds[1..]) + rest))
  {
    var e := JsEntry(ToCamel(ds[0].key), ds[0].value);
    var f := FormatDecls(ds[1..]);
    assert FormatDecls(ds) == e + ", " + f;
    Assoc4(e, ", ", f, rest);
  }

  lemma Assoc4(a: string, b: string, c: string, d: string)
    ensures a + b + c + d == a + (b + (c + d))
  {
  }

  /** A normal tree never makes the serializer throw. */
  lemma {:induction false} NormalIsPlain(n: Node)
    requires NormalNode(n)
    ensures PlainStyles(n)
    decreases n
  {
    if n.Elem? {
      NormalKidsArePlain(n.children);
    }
  }

  lemma {:induction false} NormalKidsArePlain(ks: seq<Node>)
    requires NormalKids(ks)
    ensures PlainKids(ks)
    decreases ks
  {
    if ks != [] {
      NormalIsPlain(ks[0]);
      NormalKidsArePlain(ks[1..]);
    }
  }

  /** How a normal node's output starts: text with something other than `<`, an element with
      `<` and a tag character. */
  lemma NodeOutputHead(n: Node)
    requires NormalNode(n)
    ensures Serialize(n).Ok? && Serialize(n).value != []
    ensures n.Text? ==> Serialize(n).value[0] != '<'
    ensures n.Elem? ==> |Serialize(n).value| >= 2 && Serialize(n).value[0] == '<' && Serialize(n).value[1] != '/'
  {
    NormalIsPlain(n);
    PlainStylesSerialize(n);
    if n.Elem? {
      ElementShape(n.tag, n.style, n.children);
      var t := ToLower(n.tag);
      assert IsLetterOrDigit(n.tag[0]);
      assert t[0] == Lower(n.tag[0]);
      var out := Serialize(n).value;
      var a, k := StyleAttr(n.style).value, SerializeKids(n.children).value;
      ElemOutput(t, a, k, "");
      assert out + "" == out;
      assert out == "<" + (t + (a + (">" + (k + (("</" + t + ">") + "")))));
      assert out[1] == t[0];
    }
  }

  lemma LowerTagChars(tag: string)
    requires NormalTag(tag)
    ensures NormalTag(ToLower(tag))
    ensures forall i :: 0 <= i < |ToLower(tag)| ==> ToLower(tag)[i] !in {' ', '>'}
  {
    var t := ToLower(tag);
    forall i | 0 <= i < |t| ensures IsLetterOrDigit(t[i]) && t[i] !in {' ', '>'} {
      assert t[i] == Lower(tag[i]);
      assert IsLetterOrDigit(tag[i]);
    }
  }

  /** The style attribute, if any, reads back as the declaration list. */
  lemma StyleAttrRoundTrip(style: seq<Decl>, r: string)
    requires forall i :: 0 <= i < |style| ==> NormalDecl(style[i])
    ensures StyleAttr(style).Ok?
    ensures ParseStyleAttr(StyleAttr(style).value + (">" + r)) == Some((style, ">" + r))
  {
    NormalDeclsPlain(style);
    StyleAttrOfPlain(style);
    var gt := ">" + r;
    if style == [] {
      assert StyleAttr(style).value + gt == gt;
    } else {
      var f := FormatDecls(style);
      Assoc4(" style={{ ", f, " }}", gt);
      CloseIsNoComma(gt);
      EntriesRoundTrip(style, " }}" + gt);
      ParseStyleAttrOf(f, style, gt);
    }
  }

  lemma CloseIsNoComma(gt: string)
    ensures Eat(" }}" + gt, ", ").None?
  {
    assert (" }}" + gt)[1] == '}';
  }

  /** Reading ` style={{ entries }}` once the entries are known to read back. */
  lemma ParseStyleAttrOf(f: string, style: seq<Decl>, gt: string)
    requires ParseEntries(f + (" }}" + gt)) == Some((style, " }}" + gt))
    ensures ParseStyleAttr(" style={{ " + (f + (" }}" + gt))) == Some((style, gt))
  {
    EatPrefix(" style={{ ", f + (" }}" + gt));
    EatPrefix(" }}", gt);
  }

  lemma ElemOutput(t: string, a: string, k: string, rest: string)
    ensures "<" + t + a + ">" + k + "</" + t + ">" + rest == "<" + (t + (a + (">" + (k + (("</" + t + ">") + rest)))))
  {
  }

  /** The round trip: reading back a normal node's output gives the node with its tags
      lower-cased, and leaves what follows it untouched. A text node must be followed by the end
      of the input or by `<`. */
  lemma {:induction false} NodeRoundTrip(n: Node, rest: string)
    requires NormalNode(n)
    requires n.Text? ==> rest == [] || rest[0] == '<'
    ensures Serialize(n).Ok?
    ensures ParseNode(Serialize(n).value + rest) == Some((LowerTags(n), rest))
    decreases n
  {
    NormalIsPlain(n);
    PlainStylesSerialize(n);
    match n
    case Text(t) =>
      SpanAppend(t, rest, {'<'});
    case Elem(tag, style, kids) =>
      ElementShape(tag, style, kids);
      var t := ToLower(tag);
      var a := StyleAttr(style).value;
      var k := SerializeKids(kids).value;
      var c := "</" + t + ">" + rest;
      ClosingTagHead(t, rest);
      KidsRoundTrip(kids, c);
      LowerTagChars(tag);
      StyleAttrRoundTrip(style, k + c);
      StyleAttrHead(style);
      ElemOutput(t, a, k, rest);
      ParseElemStep(t, a, k + c, style, LowerKids(kids), c, rest);
  }

  lemma ClosingTagHead(t: string, rest: string)
    ensures var c := "</" + t + ">" + rest; |c| >= 2 && c[0] == '<' && c[1] == '/'
  {
  }

  /** The style attribute is empty or starts with a space. */
  lemma StyleAttrHead(style: seq<Decl>)
    requires forall i :: 0 <= i < |style| ==> NormalDecl(style[i])
    ensures StyleAttr(style).Ok?
    ensures var a := StyleAttr(style).value; a == [] || a[0] == ' '
  {
    NormalDeclsPlain(style);
    StyleAttrOfPlain(style);
  }

  lemma NormalDeclsPlain(style: seq<Decl>)
    requires forall i :: 0 <= i < |style| ==> NormalDecl(style[i])
    ensures forall i :: 0 <= i < |style| ==> PlainDecl(style[i])
  {
  }

  /** Reading an element: `<`, the tag, the style attribute, `>`, the children, the closing tag. */
  lemma ParseElemStep(t: string, a: string, r: string, style: seq<Decl>, kids: seq<Node>, c: string, rest: string)
    requires t != [] && forall i :: 0 <= i < |t| ==> t[i] !in {' ', '>'}
    requires a == [] || a[0] == ' '
    requires ParseStyleAttr(a + (">" + r)) == Some((style, ">" + r))
    requires ParseKids(r) == Some((kids, c))
    requires c == "</" + t + ">" + rest
    ensures ParseNode("<" + (t + (a + (">" + r)))) == Some((Elem(t, style, kids), rest))
  {
    var x := a + (">" + r);
    var s := "<" + (t + x);
    assert s[1..] == t + x;
    SpanAppend(t, x, {' ', '>'});
    EatPrefix(">", r);
    EatPrefix("</" + t + ">", rest);
  }

  lemma {:induction false} KidsRoundTrip(ks: seq<Node>, rest: string)
    requires NormalKids(ks)
    requires rest == [] || (|rest| >= 2 && rest[0] == '<' && rest[1] == '/')
    ensures SerializeKids(ks).Ok?
    ensures ParseKids(SerializeKids(ks).value + rest) == Some((LowerKids(ks), rest))
    decreases ks
  {
    NormalKidsArePlain(ks);
    PlainKidsSerialize(ks);
    if ks == [] {
      assert SerializeKids(ks).value + rest == rest;
    } else {
      var first, tl := ks[0], ks[1..];
      var s0, s1 := Serialize(first).value, SerializeKids(tl).value;
      var r1 := s1 + rest;
      KidsOutputCons(ks, rest);
      NodeOutputHead(first);
      if first.Text? {
        FollowerOfText(ks, rest);
      }
      NodeRoundTrip(first, r1);
      KidsRoundTrip(tl, rest);
      ParseKidsCons(s0, r1, LowerTags(first), LowerKids(tl), rest);
    }
  }

  lemma KidsOutputCons(ks: seq<Node>, rest: string)
    requires ks != [] && SerializeKids(ks).Ok? && Serialize(ks[0]).Ok? && SerializeKids(ks[1..]).Ok?
    ensures SerializeKids(ks).value + rest == Serialize(ks[0]).value + (SerializeKids(ks[1..]).value + rest)
    ensures [LowerTags(ks[0])] + LowerKids(ks[1..]) == LowerKids(ks)
  {
  }

  /** What follows a text child's output starts with `<`: a sibling element or the closing tag. */
  lemma FollowerOfText(ks: seq<Node>, rest: string)
    requires ks != [] && NormalKids(ks) && ks[0].Text?
    requires rest == [] || (|rest| >= 2 && rest[0] == '<' && rest[1] == '/')
    ensures SerializeKids(ks[1..]).Ok?
    ensures var r1 := SerializeKids(ks[1..]).value + rest; r1 == [] || r1[0] == '<'
  {
    var tl := ks[1..];
    NormalKidsArePlain(tl);
    PlainKidsSerialize(tl);
    if tl != [] {
      NodeOutputHead(tl[0]);
      PlainKidsSerialize(tl[1..]);
      assert SerializeKids(tl).value == Serialize(tl[0]).value + SerializeKids(tl[1..]).value;
    } else {
      assert SerializeKids(tl).value + rest == rest;
    }
  }

  /** One step of reading a child list: a node, then the rest of the list. */
  lemma ParseKidsCons(s0: string, r1: string, x: Node, xs: seq<Node>, rest: string)
    requires s0 != [] && (s0[0] != '<' || (|s0| >= 2 && s0[1] != '/'))
    requires ParseNode(s0 + r1) == Some((x, r1))
    requires ParseKids(r1) == Some((xs, rest))
    ensures ParseKids(s0 + r1) == Some(([x] + xs, rest))
  {
    var s := s0 + r1;
    assert s[0] == s0[0];
    if |s0| >= 2 {
      assert s[1] == s0[1];
    }
  }

  /** The whole output of a normal tree reads back as the tree, tags lower-cased. */
  lemma SerializeReadsBack(n: Node)
    requires NormalNode(n)
    ensures Serialize(n).Ok? && ParseNode(Serialize(n).value) == Some((LowerTags(n), ""))
  {
    NodeRoundTrip(n, "");
    assert Serialize(n).value + "" == Serialize(n).value;
  }

  /** Text is not escaped: a `<` inside it is read back as the start of a tag. */
  lemma UnescapedTextMisread()
    ensures Serialize(Text("a<b")) == Ok("a<b")
    ensures ParseNode("a<b") == Some((Text("a"), "<b"))
  {
    SpanAppend("a", "<b", {'<'});
    assert "a" + "<b" == "a<b";
  }

  /** Two adjacent text children print as one run and read back as a single text node. */
  lemma AdjacentTextsMerge()
    ensures SerializeKids([Text("a"), Text("b")]) == Ok("ab")
    ensures ParseKids("ab") == Some(([Text("ab")], ""))
  {
    var ks := [Text("a"), Text("b")];
    assert ks[1..] == [Text("b")] && ks[1..][1..] == [];
    assert "b" + "" == "b" && "a" + "b" == "ab";
    SpanAppend("ab", "", {'<'});
    assert "ab" + "" == "ab";
    assert ParseNode("ab") == Some((Text("ab"), ""));
    assert [Text("ab")] + [] == [Text("ab")];
  }
}
