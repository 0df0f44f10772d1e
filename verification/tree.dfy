/** The nodes `serializeElement` walks: text nodes (`nodeType === 3`) and elements. Other node
    kinds (comments, processing instructions) are excluded by construction. */
module Tree {
  import opened Strings
  import opened Css

  /** An element keeps its tag as `tagName` reports it, its inline style, and its child nodes. */
  datatype Node = Text(text: string) | Elem(tag: string, style: seq<Decl>, children: seq<Node>)

  /** `textContent`: the element's text leaves concatenated in document order. */
  function TextContent(n: Node): string
    decreases n
  {
    match n
    case Text(t) => t
    case Elem(_, _, kids) => KidsText(kids)
  }

  function KidsText(ks: seq<Node>): string
    decreases ks
  {
    if ks == [] then "" else TextContent(ks[0]) + KidsText(ks[1..])
  }

  /** The same tree with every tag lower-cased: what reading the serializer's output back yields. */
  function LowerTags(n: Node): (r: Node)
    ensures r.Text? <==> n.Text?
    ensures n.Text? ==> r == n
    ensures n.Elem? ==> r.tag == ToLower(n.tag) && r.style == n.style && |r.children| == |n.children|
    decreases n
  {
    match n
    case Text(_) => n
    case Elem(tag, style, kids) => Elem(ToLower(tag), style, LowerKids(kids))
  }

  function LowerKids(ks: seq<Node>): (r: seq<Node>)
    ensures |r| == |ks|
    ensures forall i :: 0 <= i < |ks| ==> r[i] == LowerTags(ks[i])
    decreases ks
  {
    if ks == [] then [] else [LowerTags(ks[0])] + LowerKids(ks[1..])
  }
}
