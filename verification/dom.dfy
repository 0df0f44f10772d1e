/** The live DOM the editor mutates, as an arena of element records addressed by handles.
    A child is a text leaf or the handle of an element; every child handle is smaller than its
    parent's, which orders the arena and bounds every walk. Nodes that are detached stay in the
    arena: a stale handle still points at a record that edits can change. */
module Dom {
  import opened Css
  import opened Tree

  type Handle = nat

  datatype Child = Leaf(text: string) | Sub(handle: Handle)

  /** An element: `tagName`, inline style, whether it carries `data-selected`, child nodes. */
  datatype Record = Record(tag: string, style: seq<Decl>, marked: bool, children: seq<Child>)

  /** `next` is the first handle never handed out. */
  datatype Dom = Dom(nodes: map<Handle, Record>, next: Handle)

  predicate ChildOk(d: Dom, p: Handle, c: Child) {
    c.Sub? ==> c.handle in d.nodes && c.handle < p
  }

  predicate KidsOk(d: Dom, p: Handle, cs: seq<Child>) {
    forall i :: 0 <= i < |cs| ==> ChildOk(d, p, cs[i])
  }

  predicate RecordOk(d: Dom, h: Handle)
    requires h in d.nodes
  {
    h < d.next && KidsOk(d, h, d.nodes[h].children)
  }

  predicate WF(d: Dom) {
    forall h :: h in d.nodes ==> RecordOk(d, h)
  }

  /** The element at `h` as a node tree: what `serializeElement` sees when handed it. */
  function ToTree(d: Dom, h: Handle): Node
    requires WF(d) && h in d.nodes
    decreases h, 1
  {
    var r := d.nodes[h];
    Elem(r.tag, r.style, KidsTrees(d, h, r.children))
  }

  function KidsTrees(d: Dom, p: Handle, cs: seq<Child>): (r: seq<Node>)
    requires WF(d) && KidsOk(d, p, cs)
    ensures |r| == |cs|
    decreases p, 0, |cs|
  {
    if cs == [] then [] else [ChildTree(d, p, cs[0])] + KidsTrees(d, p, cs[1..])
  }

  function ChildTree(d: Dom, p: Handle, c: Child): Node
    requires WF(d) && ChildOk(d, p, c)
    decreases p, 0, 0
  {
    match c
    case Leaf(t) => Text(t)
    case Sub(h) => ToTree(d, h)
  }

  /** The handles of the element at `h` and all its element descendants. */
  function Subtree(d: Dom, h: Handle): (r: set<Handle>)
    requires WF(d) && h in d.nodes
    ensures h in r
    ensures forall x :: x in r ==> x in d.nodes && x <= h
    decreases h, 1
  {
    {h} + KidsSubtree(d, h, d.nodes[h].children)
  }

  function KidsSubtree(d: Dom, p: Handle, cs: seq<Child>): (r: set<Handle>)
    requires WF(d) && KidsOk(d, p, cs)
    ensures forall x :: x in r ==> x in d.nodes && x < p
    decreases p, 0, |cs|
  {
    if cs == [] then {} else ChildSubtree(d, p, cs[0]) + KidsSubtree(d, p, cs[1..])
  }

  function ChildSubtree(d: Dom, p: Handle, c: Child): (r: set<Handle>)
    requires WF(d) && ChildOk(d, p, c)
    ensures forall x :: x in r ==> x in d.nodes && x < p
    decreases p, 0, 0
  {
    if c.Sub? then Subtree(d, c.handle) else {}
  }

  /** Two records that print the same: `data-selected` aside, everything equal. */
  predicate SameContent(a: Record, b: Record) {
    a.tag == b.tag && a.style == b.style && a.children == b.children
  }

  /** On the handles `s`, both arenas hold records that print the same. */
  predicate AgreeOn(d1: Dom, d2: Dom, s: set<Handle>) {
    forall x :: x in s ==> x in d1.nodes && x in d2.nodes && SameContent(d1.nodes[x], d2.nodes[x])
  }

  /** An element's tree and subtree depend only on the records inside that subtree. */
  lemma {:induction false} TreeFrame(d1: Dom, d2: Dom, h: Handle)
    requires WF(d1) && WF(d2) && h in d1.nodes
    requires AgreeOn(d1, d2, Subtree(d1, h))
    ensures h in d2.nodes
    ensures Subtree(d2, h) == Subtree(d1, h)
    ensures ToTree(d2, h) == ToTree(d1, h)
    decreases h, 1
  {
    var cs := d1.nodes[h].children;
    assert d2.nodes[h].children == cs;
    KidsFrame(d1, d2, h, cs);
  }

  lemma {:induction false} KidsFrame(d1: Dom, d2: Dom, p: Handle, cs: seq<Child>)
    requires WF(d1) && WF(d2) && KidsOk(d1, p, cs)
    requires AgreeOn(d1, d2, KidsSubtree(d1, p, cs))
    ensures KidsOk(d2, p, cs)
    ensures KidsSubtree(d2, p, cs) == KidsSubtree(d1, p, cs)
    ensures KidsTrees(d2, p, cs) == KidsTrees(d1, p, cs)
    decreases p, 0, |cs|
  {
    if cs != [] {
      assert AgreeOn(d1, d2, KidsSubtree(d1, p, cs[1..]));
      KidsFrame(d1, d2, p, cs[1..]);
      assert forall i :: 1 <= i < |cs| ==> cs[1..][i - 1] == cs[i];
      if cs[0].Sub? {
        assert ChildSubtree(d1, p, cs[0]) == Subtree(d1, cs[0].handle);
        assert AgreeOn(d1, d2, Subtree(d1, cs[0].handle));
        TreeFrame(d1, d2, cs[0].handle);
      }
      assert ChildTree(d2, p, cs[0]) == ChildTree(d1, p, cs[0]);
    }
  }

  /** `d2` keeps every record of `d1` and hands out no handle `d1` already used. */
  predicate Extends(d1: Dom, d2: Dom) {
    && d1.next <= d2.next
    && (forall x :: x in d1.nodes ==> x in d2.nodes && d2.nodes[x] == d1.nodes[x])
    && (forall x :: x in d2.nodes && x !in d1.nodes ==> d1.next <= x && !d2.nodes[x].marked)
  }

  /** Growing the arena leaves every existing element's tree and subtree as they were. */
  lemma ExtendsFrame(d1: Dom, d2: Dom, h: Handle)
    requires WF(d1) && WF(d2) && Extends(d1, d2) && h in d1.nodes
    ensures h in d2.nodes && Subtree(d2, h) == Subtree(d1, h) && ToTree(d2, h) == ToTree(d1, h)
  {
    TreeFrame(d1, d2, h);
  }

  /** A child keeps its tree and subtree when the arena grows. */
  lemma ChildExtendsFrame(d1: Dom, d2: Dom, p: Handle, c: Child)
    requires WF(d1) && WF(d2) && Extends(d1, d2) && ChildOk(d1, p, c) && p <= d2.next
    ensures ChildOk(d2, d2.next, c)
    ensures ChildTree(d2, d2.next, c) == ChildTree(d1, p, c)
    ensures ChildSubtree(d2, d2.next, c) == ChildSubtree(d1, p, c)
  {
    if c.Sub? {
      ExtendsFrame(d1, d2, c.handle);
    }
  }

  lemma ExtendsTrans(d1: Dom, d2: Dom, d3: Dom)
    requires Extends(d1, d2) && Extends(d2, d3)
    ensures Extends(d1, d3)
  {
  }

  /** Builds the live elements for a rendered node, children before their parent, and returns
      the child to hang under the parent: the node's tree is exactly `n`, nothing that existed
      changes, and the new elements are unmarked and carry fresh handles. */
  function Alloc(d: Dom, n: Node): (r: (Dom, Child))
    requires WF(d)
    ensures WF(r.0) && Extends(d, r.0)
    ensures ChildOk(r.0, r.0.next, r.1)
    ensures r.1.Leaf? <==> n.Text?
    ensures ChildTree(r.0, r.0.next, r.1) == n
    ensures forall x :: x in ChildSubtree(r.0, r.0.next, r.1) ==> d.next <= x
    decreases n
  {
    match n
    case Text(t) => (d, Leaf(t))
    case Elem(tag, style, kids) =>
      var (d1, cs) := AllocAll(d, kids);
      var h := d1.next;
      var d2 := Dom(d1.nodes[h := Record(tag, style, false, cs)], h + 1);
      assert forall x :: x in d2.nodes ==> RecordOk(d2, x) by {
        forall x | x in d2.nodes ensures RecordOk(d2, x) {
          if x != h {
            assert RecordOk(d1, x);
            assert forall i :: 0 <= i < |d1.nodes[x].children| ==> ChildOk(d1, x, d1.nodes[x].children[i]);
          }
        }
      }
      assert Extends(d1, d2);
      KidsFrame(d1, d2, h, cs);
      (d2, Sub(h))
  }

  function AllocAll(d: Dom, ks: seq<Node>): (r: (Dom, seq<Child>))
    requires WF(d)
    ensures WF(r.0) && Extends(d, r.0) && |r.1| == |ks|
    ensures KidsOk(r.0, r.0.next, r.1)
    ensures KidsTrees(r.0, r.0.next, r.1) == ks
    ensures forall x :: x in KidsSubtree(r.0, r.0.next, r.1) ==> d.next <= x
    decreases ks
  {
    if ks == [] then (d, [])
    else
      var (d1, c) := Alloc(d, ks[0]);
      var (d2, cs) := AllocAll(d1, ks[1..]);
      ExtendsTrans(d, d1, d2);
      ChildExtendsFrame(d1, d2, d1.next, c);
      var all := [c] + cs;
      assert all[1..] == cs;
      (d2, all)
  }

  /** Same handles and the same child lists everywhere: only styles and markers may differ. */
  predicate SameShape(d1: Dom, d2: Dom) {
    && d1.next == d2.next && d1.nodes.Keys == d2.nodes.Keys
    && forall x :: x in d1.nodes ==> d2.nodes[x].children == d1.nodes[x].children
  }

  lemma ShapeWF(d1: Dom, d2: Dom)
    requires WF(d1) && SameShape(d1, d2)
    ensures WF(d2)
  {
    forall x | x in d2.nodes ensures RecordOk(d2, x) {
      assert RecordOk(d1, x);
      assert forall i :: 0 <= i < |d1.nodes[x].children| ==> ChildOk(d1, x, d1.nodes[x].children[i]);
    }
  }

  /** Restyling and re-marking elements never moves them in or out of a subtree. */
  lemma {:induction false} ShapeSubtree(d1: Dom, d2: Dom, h: Handle)
    requires WF(d1) && WF(d2) && SameShape(d1, d2) && h in d1.nodes
    ensures Subtree(d2, h) == Subtree(d1, h)
    decreases h, 1
  {
    ShapeKidsSubtree(d1, d2, h, d1.nodes[h].children);
  }

  lemma {:induction false} ShapeKidsSubtree(d1: Dom, d2: Dom, p: Handle, cs: seq<Child>)
    requires WF(d1) && WF(d2) && SameShape(d1, d2) && KidsOk(d1, p, cs)
    ensures KidsOk(d2, p, cs)
    ensures KidsSubtree(d2, p, cs) == KidsSubtree(d1, p, cs)
    decreases p, 0, |cs|
  {
    if cs != [] {
      assert forall i :: 1 <= i < |cs| ==> cs[1..][i - 1] == cs[i];
      ShapeKidsSubtree(d1, d2, p, cs[1..]);
      if cs[0].Sub? {
        ShapeSubtree(d1, d2, cs[0].handle);
      }
      assert ChildSubtree(d2, p, cs[0]) == ChildSubtree(d1, p, cs[0]);
    }
  }

  /** `d2` is `d1` with the children of `t` replaced by text only (what setting `innerText`
      does); every other child list is as it was. */
  predicate CutBelow(d1: Dom, d2: Dom, t: Handle) {
    && d1.next == d2.next && d1.nodes.Keys == d2.nodes.Keys && t in d1.nodes
    && (forall x :: x in d1.nodes && x != t ==> d2.nodes[x].children == d1.nodes[x].children)
    && (forall i :: 0 <= i < |d2.nodes[t].children| ==> d2.nodes[t].children[i].Leaf?)
  }

  /** Cutting an element's children out can only shrink a subtree. */
  lemma {:induction false} CutSubtree(d1: Dom, d2: Dom, t: Handle, h: Handle)
    requires WF(d1) && WF(d2) && CutBelow(d1, d2, t) && h in d1.nodes
    ensures Subtree(d2, h) <= Subtree(d1, h)
    decreases h, 1
  {
    if h == t {
      LeavesSubtree(d2, h, d2.nodes[h].children);
    } else {
      CutKidsSubtree(d1, d2, t, h, d1.nodes[h].children);
    }
  }

  lemma {:induction false} CutKidsSubtree(d1: Dom, d2: Dom, t: Handle, p: Handle, cs: seq<Child>)
    requires WF(d1) && WF(d2) && CutBelow(d1, d2, t) && KidsOk(d1, p, cs) && KidsOk(d2, p, cs)
    ensures KidsSubtree(d2, p, cs) <= KidsSubtree(d1, p, cs)
    decreases p, 0, |cs|
  {
    if cs != [] {
      assert forall i :: 1 <= i < |cs| ==> cs[1..][i - 1] == cs[i];
      CutKidsSubtree(d1, d2, t, p, cs[1..]);
      if cs[0].Sub? {
        CutSubtree(d1, d2, t, cs[0].handle);
      }
      assert ChildSubtree(d2, p, cs[0]) <= ChildSubtree(d1, p, cs[0]);
    }
  }

  lemma {:induction false} LeavesSubtree(d: Dom, p: Handle, cs: seq<Child>)
    requires WF(d) && KidsOk(d, p, cs)
    requires forall i :: 0 <= i < |cs| ==> cs[i].Leaf?
    ensures KidsSubtree(d, p, cs) == {}
    decreases |cs|
  {
    if cs != [] {
      assert forall i :: 1 <= i < |cs| ==> cs[1..][i - 1] == cs[i];
      LeavesSubtree(d, p, cs[1..]);
    }
  }
}
