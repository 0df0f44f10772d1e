/** `enableSelection`: the click handler on the mount element. It clears every marked element
    the handler can see (marker removed, outline set to `none`), then marks the target and
    outlines it. Both changes go into the elements' own inline style. */
module Selection {
  import opened Css
  import opened Dom

  /** The outline a selected element gets. */
  const Highlight := "2px solid #4A90E2"

  /** `removeAttribute("data-selected")` and `style.outline = "none"`. */
  function Unmark(r: Record): Record {
    r.(marked := false, style := SetProp(r.style, "outline", "none"))
  }

  /** `setAttribute("data-selected", "true")` and `style.outline = Highlight`. */
  function Mark(r: Record): Record {
    r.(marked := true, style := SetProp(r.style, "outline", Highlight))
  }

  /** The `forEach` over `[data-selected]` matches: each marked element in `scope` is unmarked. */
  function ClearMarks(d: Dom, scope: set<Handle>): (r: Dom)
    ensures SameShape(d, r)
    ensures forall x :: x in d.nodes ==>
      r.nodes[x] == if x in scope && d.nodes[x].marked then Unmark(d.nodes[x]) else d.nodes[x]
  {
    Dom(map x | x in d.nodes :: if x in scope && d.nodes[x].marked then Unmark(d.nodes[x]) else d.nodes[x], d.next)
  }

  /** What a click that clears `scope` and then marks `t` does to the elements: `t` is marked
      and outlined, every other marked element of `scope` loses its marker and gets outline
      `none`, no other style property of either changes, and every other element is untouched. */
  ghost predicate Clicked(d: Dom, r: Dom, scope: set<Handle>, t: Handle) {
    && t in d.nodes && d.nodes.Keys == r.nodes.Keys
    && r.nodes[t].marked
    && Lookup(r.nodes[t].style, "outline") == Highlight
    && (forall k :: k != "outline" ==> Lookup(r.nodes[t].style, k) == Lookup(d.nodes[t].style, k))
    && (forall x :: x in scope && x in d.nodes && x != t && d.nodes[x].marked ==>
          && !r.nodes[x].marked && Lookup(r.nodes[x].style, "outline") == "none"
          && forall k :: k != "outline" ==> Lookup(r.nodes[x].style, k) == Lookup(d.nodes[x].style, k))
    && (forall x :: x in d.nodes && x != t && !(x in scope && d.nodes[x].marked) ==> r.nodes[x] == d.nodes[x])
  }

  /** Clear the marks in `scope`, then mark the target. */
  function ClickIn(d: Dom, scope: set<Handle>, t: Handle): (r: Dom)
    requires WF(d) && t in d.nodes
    ensures WF(r) && SameShape(d, r)
    ensures Clicked(d, r, scope, t)
    ensures forall x :: x in d.nodes && x != t ==>
      r.nodes[x].marked == (d.nodes[x].marked && x !in scope)
  {
    var d1 := ClearMarks(d, scope);
    SetPropTwice(d.nodes[t].style, "outline", "none", Highlight);
    var r := Dom(d1.nodes[t := Mark(d1.nodes[t])], d1.next);
    assert r.nodes[t] == Mark(d.nodes[t]);
    assert SameShape(d, r);
    ShapeWF(d, r);
    r
  }

  /** A click on `t` inside the mount `root`, with the clearing step reaching the mount itself.
      Afterwards exactly one element of the mount's subtree is marked, the target, and it is
      outlined; marked elements lose marker and outline; nothing else changes. */
  function Click(d: Dom, root: Handle, t: Handle): (r: Dom)
    requires WF(d) && root in d.nodes && t in Subtree(d, root)
    ensures WF(r) && SameShape(d, r) && Subtree(r, root) == Subtree(d, root)
    ensures Clicked(d, r, Subtree(d, root), t)
    ensures forall x :: x in Subtree(d, root) ==> (r.nodes[x].marked <==> x == t)
  {
    var r := ClickIn(d, Subtree(d, root), t);
    ShapeSubtree(d, r, root);
    r
  }

  /** The handler as written: `root.querySelectorAll` only matches descendants of the mount, so
      the clearing step skips the mount and a mark on it is never removed. Below the mount
      exactly the target is marked; the mount is marked when it is the target or already was. */
  function ClickAsWritten(d: Dom, root: Handle, t: Handle): (r: Dom)
    requires WF(d) && root in d.nodes && t in Subtree(d, root)
    ensures WF(r) && SameShape(d, r) && Subtree(r, root) == Subtree(d, root)
    ensures Clicked(d, r, Subtree(d, root) - {root}, t)
    ensures forall x :: x in Subtree(d, root) && x != root ==> (r.nodes[x].marked <==> x == t)
    ensures r.nodes[root].marked <==> root == t || d.nodes[root].marked
  {
    var r := ClickIn(d, Subtree(d, root) - {root}, t);
    ShapeSubtree(d, r, root);
    r
  }

  /** The discrepancy: click on the mount itself (the area beside an inline or text-only
      component), then on an element inside it; two elements stay marked and outlined, and the
      mount's outline would be saved with the page. */
  lemma MountMarkSurvives(d: Dom, root: Handle, t: Handle)
    requires WF(d) && root in d.nodes && t in Subtree(d, root) && t != root
    ensures var d1 := ClickAsWritten(d, root, root);
      var d2 := ClickAsWritten(d1, root, t);
      && d2.nodes[root].marked && d2.nodes[t].marked
      && Lookup(d2.nodes[root].style, "outline") == Highlight
  {
    var d1 := ClickAsWritten(d, root, root);
    var d2 := ClickAsWritten(d1, root, t);
    assert d2.nodes[root] == d1.nodes[root];
  }

  /** A run of clicks inside the mount, as the handler is written: the element marked at the
      end below the mount is the last one clicked. */
  function Clicks(d: Dom, root: Handle, ts: seq<Handle>): (r: Dom)
    requires WF(d) && root in d.nodes
    requires forall i :: 0 <= i < |ts| ==> ts[i] in Subtree(d, root)
    ensures WF(r) && SameShape(d, r) && Subtree(r, root) == Subtree(d, root)
    ensures ts != [] ==> forall x :: x in Subtree(d, root) && x != root ==> (r.nodes[x].marked <==> x == ts[|ts| - 1])
    decreases |ts|
  {
    if ts == [] then d
    else
      var d1 := ClickAsWritten(d, root, ts[0]);
      TailInSubtree(ts, Subtree(d, root));
      var r := Clicks(d1, root, ts[1..]);
      ClicksStep(d, d1, r, root, ts);
      r
  }

  lemma ClicksStep(d: Dom, d1: Dom, r: Dom, root: Handle, ts: seq<Handle>)
    requires WF(d) && root in d.nodes && ts != []
    requires WF(d1) && SameShape(d, d1) && Subtree(d1, root) == Subtree(d, root)
    requires forall x :: x in Subtree(d, root) && x != root ==> (d1.nodes[x].marked <==> x == ts[0])
    requires WF(r) && SameShape(d1, r) && Subtree(r, root) == Subtree(d1, root)
    requires ts[1..] == [] ==> r == d1
    requires ts[1..] != [] ==>
      forall x :: x in Subtree(d1, root) && x != root ==> (r.nodes[x].marked <==> x == ts[1..][|ts[1..]| - 1])
    ensures SameShape(d, r) && Subtree(r, root) == Subtree(d, root)
    ensures forall x :: x in Subtree(d, root) && x != root ==> (r.nodes[x].marked <==> x == ts[|ts| - 1])
  {
    if |ts| > 1 {
      assert ts[1..][|ts[1..]| - 1] == ts[|ts| - 1];
    }
  }

  lemma TailInSubtree(ts: seq<Handle>, s: set<Handle>)
    requires ts != [] && forall i :: 0 <= i < |ts| ==> ts[i] in s
    ensures forall i :: 0 <= i < |ts[1..]| ==> ts[1..][i] in s
  {
    assert forall i :: 0 <= i < |ts[1..]| ==> ts[1..][i] == ts[i + 1];
  }

}
