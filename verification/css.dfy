/** An element's inline style as the browser keeps it: an ordered list of declarations with
    hyphen-case property names. Editing goes through `el.style` (a property getter and
    setter); serialization reads the `style` attribute, taken here to be the declarations
    written out as `key: value;` separated by single spaces. */
module Css {

  datatype Decl = Decl(key: string, value: string)

  function DeclText(d: Decl): string {
    d.key + ": " + d.value + ";"
  }

  /** The text `getAttribute("style")` returns for a declaration list; empty when there are none. */
  function AttrText(ds: seq<Decl>): string {
    if ds == [] then ""
    else if |ds| == 1 then DeclText(ds[0])
    else DeclText(ds[0]) + " " + AttrText(ds[1..])
  }

  lemma AttrTextEmpty(ds: seq<Decl>)
    ensures AttrText(ds) == "" <==> ds == []
  {
    if ds != [] {
      assert |AttrText(ds)| >= |DeclText(ds[0])| > 0;
    }
  }

  /** The getter `el.style[key]`: the first declaration's value, or "" when the property is unset. */
  function Lookup(ds: seq<Decl>, key: string): string {
    if ds == [] then ""
    else if ds[0].key == key then ds[0].value
    else Lookup(ds[1..], key)
  }

  /** The setter `el.style[key] = value`: an existing declaration keeps its place and takes the
      new value; otherwise the declaration is appended. */
  function SetProp(ds: seq<Decl>, key: string, value: string): (r: seq<Decl>)
    ensures Lookup(r, key) == value
    ensures forall k :: k != key ==> Lookup(r, k) == Lookup(ds, k)
    ensures |ds| <= |r| <= |ds| + 1
    ensures forall i :: 0 <= i < |ds| ==> r[i].key == ds[i].key
    ensures |r| == |ds| + 1 ==> r[|ds|] == Decl(key, value)
  {
    if ds == [] then [Decl(key, value)]
    else if ds[0].key == key then [Decl(key, value)] + ds[1..]
    else
      var rest := SetProp(ds[1..], key, value);
      assert ([ds[0]] + rest)[1..] == rest;
      [ds[0]] + rest
  }

  /** Setting a property twice leaves what setting it once to the second value would. */
  lemma {:induction false} SetPropTwice(ds: seq<Decl>, key: string, v1: string, v2: string)
    ensures SetProp(SetProp(ds, key, v1), key, v2) == SetProp(ds, key, v2)
  {
    if ds != [] && ds[0].key != key {
      SetPropTwice(ds[1..], key, v1, v2);
      assert ([ds[0]] + SetProp(ds[1..], key, v1))[1..] == SetProp(ds[1..], key, v1);
    }
  }
}
