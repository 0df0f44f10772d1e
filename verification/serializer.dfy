/** `serializeElement` (serialize.ts, repeated in websiteEditor.tsx): prints a node tree as JSX. */
module Serializer {
  import opened Strings
  import opened Results
  import opened Css
  import opened StyleCodec
  import opened Tree

  /** ` style={{ … }}` when the style attribute is non-empty, and nothing otherwise. */
  function StyleAttr(ds: seq<Decl>): (r: Result<string, StyleError>)
    ensures r.Ok? && r.value == "" <==> ds == []
  {
    var style := AttrText(ds);
    AttrTextEmpty(ds);
    if style == "" then Ok("")
    else
      var js := StyleToJs(style);
      if js.Err? then Err(js.error) else Ok(" style={{ " + js.value + " }}")
  }

  /** For plain declarations the attribute holds one `camelKey: "value"` entry per declaration. */
  lemma StyleAttrOfPlain(ds: seq<Decl>)
    requires forall i :: 0 <= i < |ds| ==> PlainDecl(ds[i])
    ensures StyleAttr(ds) == Ok(if ds == [] then "" else " style={{ " + FormatDecls(ds) + " }}")
  {
    AttrTextEmpty(ds);
    if ds != [] {
      AttrTextToJs(ds);
    }
  }

  /** Text nodes print their text as is; an element prints its children first (so an error
      deeper in the tree wins), then its style attribute, then the tag pair. */
  function Serialize(n: Node): Result<string, StyleError>
    decreases n
  {
    match n
    case Text(t) => Ok(t)
    case Elem(tag, style, kids) =>
      var ks := SerializeKids(kids);
      if ks.Err? then Err(ks.error)
      else
        var sa := StyleAttr(style);
        if sa.Err? then Err(sa.error)
        else
          var t := ToLower(tag);
          Ok("<" + t + sa.value + ">" + ks.value + "</" + t + ">")
  }

  /** `Array.from(el.childNodes).map(...).join("")`: the first child that throws decides. */
  function SerializeKids(ks: seq<Node>): Result<string, StyleError>
    decreases ks
  {
    if ks == [] then Ok("")
    else
      var a := Serialize(ks[0]);
      if a.Err? then a
      else
        var b := SerializeKids(ks[1..]);
        if b.Err? then b else Ok(a.value + b.value)
  }

  /** Some element's style attribute makes `styleToJs` throw. */
  predicate StyleThrows(n: Node)
    decreases n
  {
    n.Elem? && (StyleToJs(AttrText(n.style)).Err? || KidsStyleThrows(n.children))
  }

  predicate KidsStyleThrows(ks: seq<Node>)
    decreases ks
  {
    ks != [] && (StyleThrows(ks[0]) || KidsStyleThrows(ks[1..]))
  }

  /** Serialization throws exactly when some element's style attribute makes `styleToJs` throw. */
  lemma {:induction false} SerializeThrowsIff(n: Node)
    ensures Serialize(n).Err? <==> StyleThrows(n)
    decreases n
  {
    if n.Elem? {
      SerializeKidsThrowsIff(n.children);
      AttrTextEmpty(n.style);
    }
  }

  lemma {:induction false} SerializeKidsThrowsIff(ks: seq<Node>)
    ensures SerializeKids(ks).Err? <==> KidsStyleThrows(ks)
    decreases ks
  {
    if ks != [] {
      SerializeThrowsIff(ks[0]);
      SerializeKidsThrowsIff(ks[1..]);
    }
  }

  /** Every element of the tree carries only plain declarations. */
  predicate PlainStyles(n: Node)
    decreases n
  {
    n.Elem? ==> (forall i :: 0 <= i < |n.style| ==> PlainDecl(n.style[i])) && PlainKids(n.children)
  }

  predicate PlainKids(ks: seq<Node>)
    decreases ks
  {
    ks != [] ==> PlainStyles(ks[0]) && PlainKids(ks[1..])
  }

  /** Trees with plain declarations never make the serializer throw. */
  lemma {:induction false} PlainStylesSerialize(n: Node)
    requires PlainStyles(n)
    ensures Serialize(n).Ok?
    decreases n
  {
    if n.Elem? {
      PlainKidsSerialize(n.children);
      StyleAttrOfPlain(n.style);
    }
  }

  lemma {:induction false} PlainKidsSerialize(ks: seq<Node>)
    requires PlainKids(ks)
    ensures SerializeKids(ks).Ok?
    decreases ks
  {
    if ks != [] {
      PlainStylesSerialize(ks[0]);
      PlainKidsSerialize(ks[1..]);
    }
  }

  /** The output for an element: the lower-cased tag pair around the children's output, with a
      style attribute exactly when the element has declarations, holding one entry per
      declaration when they are plain. */
  lemma ElementShape(tag: string, style: seq<Decl>, kids: seq<Node>)
    requires Serialize(Elem(tag, style, kids)).Ok?
    ensures SerializeKids(kids).Ok? && StyleAttr(style).Ok?
    ensures Serialize(Elem(tag, style, kids)).value ==
      "<" + ToLower(tag) + StyleAttr(style).value + ">" + SerializeKids(kids).value + "</" + ToLower(tag) + ">"
    ensures StyleAttr(style).value == "" <==> style == []
    ensures (forall i :: 0 <= i < |style| ==> PlainDecl(style[i])) && style != [] ==>
      StyleAttr(style).value == " style={{ " + FormatDecls(style) + " }}"
  {
    if forall i :: 0 <= i < |style| ==> PlainDecl(style[i]) {
      StyleAttrOfPlain(style);
    }
  }

  /** Children print in order, each after the ones before it; the first one that throws decides. */
  lemma {:induction false} SerializeKidsAppend(a: seq<Node>, b: seq<Node>)
    ensures SerializeKids(a + b) ==
      if SerializeKids(a).Err? then SerializeKids(a)
      else if SerializeKids(b).Err? then SerializeKids(b)
      else Ok(SerializeKids(a).value + SerializeKids(b).value)
  {
    if a == [] {
      assert a + b == b;
      if SerializeKids(b).Ok? { assert "" + SerializeKids(b).value == SerializeKids(b).value; }
    } else {
      assert (a + b)[0] == a[0] && (a + b)[1..] == a[1..] + b;
      SerializeKidsAppend(a[1..], b);
      var x, y, z := Serialize(a[0]), SerializeKids(a[1..]), SerializeKids(b);
      if x.Ok? && y.Ok? && z.Ok? {
        assert x.value + (y.value + z.value) == (x.value + y.value) + z.value;
      }
    }
  }

  /** A text child is printed verbatim, unescaped, between what its siblings print. */
  lemma TextChildVerbatim(before: seq<Node>, t: string, after: seq<Node>)
    requires SerializeKids(before).Ok? && SerializeKids(after).Ok?
    ensures SerializeKids(before + [Text(t)] + after) ==
      Ok(SerializeKids(before).value + t + SerializeKids(after).value)
  {
    SerializeKidsAppend(before + [Text(t)], after);
    SerializeKidsAppend(before, [Text(t)]);
    assert [Text(t)][1..] == [];
    assert t + "" == t;
  }

  /** Only text children: the output is the children's text, that is the element's `textContent`. */
  lemma {:induction false} TextKidsVerbatim(ks: seq<Node>)
    requires forall i :: 0 <= i < |ks| ==> ks[i].Text?
    ensures SerializeKids(ks) == Ok(KidsText(ks))
  {
    if ks != [] {
      TextKidsVerbatim(ks[1..]);
    }
  }
}
