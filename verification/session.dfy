/** The editor component's state and the events that change it: a recompile of the component
    source, a click in the preview, a change in one of the sidebar controls, and save. */
module Session {
  import opened Strings
  import opened Results
  import opened Css
  import opened Tree
  import opened Serializer
  import opened Numbers
  import opened Dom
  import opened Selection
  import opened Reparse

  /** `editorValues`; a `fontSize` of `None` is `NaN`. */
  datatype Snapshot = Snapshot(text: string, color: string, fontSize: Option<int>, fontWeight: string)

  const Initial := Snapshot("", "#000000", Some(16), "normal")

  /** The live preview, its mount element (`previewRef.current.children[0]`, absent before the
      first render), whether the click handler was attached to that mount, the selected
      element, and the sidebar values. */
  datatype Editor = Editor(dom: Dom, mount: Option<Handle>, armed: bool, selected: Option<Handle>, values: Snapshot)

  const Start := Editor(Dom(map[], 0), None, false, None, Initial)

  /** Every handle the editor holds points into a well-formed arena. */
  predicate Inv(e: Editor) {
    && WF(e.dom)
    && (e.mount.Some? ==> e.mount.value in e.dom.nodes)
    && (e.armed ==> e.mount.Some?)
    && (e.selected.Some? ==> e.selected.value in e.dom.nodes)
  }

  /** What compiling and rendering the component source gives: Babel or `eval` throws,
      `renderToString` throws, or the rendered nodes that `mount.innerHTML` parses into. */
  datatype Render = CompileError | RenderError | Rendered(nodes: seq<Node>)

  /** The effect of a change of `componentCode`. A compile error throws before the preview is
      touched. Otherwise the preview is emptied and a fresh `div` mount appended; if rendering
      throws, that mount stays empty and no click handler is attached. The selection and the
      sidebar values are kept either way. */
  function Recompile(e: Editor, out: Render): (r: Editor)
    requires Inv(e)
    ensures Inv(r) && Extends(e.dom, r.dom)
    ensures r.selected == e.selected && r.values == e.values
    ensures out.CompileError? ==> r == e
    ensures !out.CompileError? ==>
      && r.mount.Some? && (r.armed <==> out.Rendered?)
      && ToTree(r.dom, r.mount.value) == Elem("DIV", [], if out.Rendered? then out.nodes else [])
      && forall x :: x in Subtree(r.dom, r.mount.value) ==> e.dom.next <= x
  {
    match out
    case CompileError => e
    case RenderError =>
      var (d, c) := Alloc(e.dom, Elem("DIV", [], []));
      assert ChildSubtree(d, d.next, c) == Subtree(d, c.handle);
      e.(dom := d, mount := Some(c.handle), armed := false)
    case Rendered(ns) =>
      var (d, c) := Alloc(e.dom, Elem("DIV", [], ns));
      assert ChildSubtree(d, d.next, c) == Subtree(d, c.handle);
      e.(dom := d, mount := Some(c.handle), armed := true)
  }

  /** JavaScript `a || b` on strings. */
  function Or(a: string, b: string): string {
    if a == "" then b else a
  }

  /** The values the selection callback loads from an element (`innerText`, `style.color`,
      `style.fontSize`, `style.fontWeight`), with their defaults. */
  function LoadSnapshot(d: Dom, t: Handle): (r: Snapshot)
    requires WF(d) && t in d.nodes
    ensures r.color != "" && r.fontWeight != ""
    ensures Lookup(d.nodes[t].style, "color") != "" ==> r.color == Lookup(d.nodes[t].style, "color")
    ensures Lookup(d.nodes[t].style, "font-size") == "" ==> r.fontSize == Some(16)
  {
    ParseIntDefault();
    var st := d.nodes[t].style;
    Snapshot(
      TextContent(ToTree(d, t)),
      Or(Lookup(st, "color"), "#000000"),
      ParseInt(Or(Lookup(st, "font-size"), "16")),
      Or(Lookup(st, "font-weight"), "normal"))
  }

  /** A click on element `t`. It reaches the handler only inside the current mount, and only
      when the handler was attached; then the handler as written moves the marks to `t` (a mark
      on the mount itself is never cleared), `t` is selected, and the sidebar values are loaded
      from it. */
  function ClickOn(e: Editor, t: Handle): (r: Editor)
    requires Inv(e)
    ensures Inv(r) && r.mount == e.mount && r.armed == e.armed && SameShape(e.dom, r.dom)
    ensures e.armed && t in Subtree(e.dom, e.mount.value) ==>
      && r.selected == Some(t) && r.values == LoadSnapshot(r.dom, t)
      && Clicked(e.dom, r.dom, Subtree(e.dom, e.mount.value) - {e.mount.value}, t)
    ensures !(e.armed && t in Subtree(e.dom, e.mount.value)) ==> r == e
  {
    if e.armed && t in Subtree(e.dom, e.mount.value) then
      var d := ClickAsWritten(e.dom, e.mount.value, t);
      e.(dom := d, selected := Some(t), values := LoadSnapshot(d, t))
    else e
  }

  /** The same click with the clearing step reaching the mount too. */
  function ClickOnFixed(e: Editor, t: Handle): (r: Editor)
    requires Inv(e)
    ensures Inv(r) && r.mount == e.mount && r.armed == e.armed && SameShape(e.dom, r.dom)
    ensures e.armed && t in Subtree(e.dom, e.mount.value) ==>
      && r.selected == Some(t) && r.values == LoadSnapshot(r.dom, t)
      && Clicked(e.dom, r.dom, Subtree(e.dom, e.mount.value), t)
    ensures !(e.armed && t in Subtree(e.dom, e.mount.value)) ==> r == e
  {
    if e.armed && t in Subtree(e.dom, e.mount.value) then
      var d := Click(e.dom, e.mount.value, t);
      e.(dom := d, selected := Some(t), values := LoadSnapshot(d, t))
    else e
  }

  /** The three sidebar style controls: the colour picker, the font-size number field (its
      `parseInt`, possibly `NaN`), and the weight select. */
  datatype Edit = SetColor(color: string) | SetFontSize(size: Option<int>) | SetFontWeight(weight: string)

  /** The style property `el.style[key]` writes for the control's key. */
  function EditKey(ed: Edit): string {
    match ed
    case SetColor(_) => "color"
    case SetFontSize(_) => "font-size"
    case SetFontWeight(_) => "font-weight"
  }

  /** The text written into the style: the size gets `px` appended. */
  function EditValue(ed: Edit): string {
    match ed
    case SetColor(c) => c
    case SetFontSize(n) => NumberText(n) + "px"
    case SetFontWeight(w) => w
  }

  /** `{ ...prev, [key]: value }`: the control's own field takes the raw value. */
  function ApplyEdit(v: Snapshot, ed: Edit): Snapshot {
    match ed
    case SetColor(c) => v.(color := c)
    case SetFontSize(n) => v.(fontSize := n)
    case SetFontWeight(w) => v.(fontWeight := w)
  }

  /** `updateStyle`: nothing happens without a selection; otherwise the selected element's
      style gets the control's property and the matching sidebar field the raw value. */
  function UpdateStyle(e: Editor, ed: Edit): (r: Editor)
    requires Inv(e)
    ensures Inv(r) && r.mount == e.mount && r.armed == e.armed && r.selected == e.selected
    ensures e.selected.None? ==> r == e
    ensures e.selected.Some? ==> SameShape(e.dom, r.dom)
    ensures e.selected.Some? ==>
      var t := e.selected.value;
      && Lookup(r.dom.nodes[t].style, EditKey(ed)) == EditValue(ed)
      && (forall k :: k != EditKey(ed) ==> Lookup(r.dom.nodes[t].style, k) == Lookup(e.dom.nodes[t].style, k))
      && r.dom.nodes[t].marked == e.dom.nodes[t].marked && r.dom.nodes[t].tag == e.dom.nodes[t].tag
      && (forall x :: x in e.dom.nodes && x != t ==> r.dom.nodes[x] == e.dom.nodes[x])
    ensures r.values.text == e.values.text
    ensures ed.SetColor? && e.selected.Some? ==> r.values == e.values.(color := ed.color)
    ensures ed.SetFontSize? && e.selected.Some? ==> r.values == e.values.(fontSize := ed.size)
    ensures ed.SetFontWeight? && e.selected.Some? ==> r.values == e.values.(fontWeight := ed.weight)
  {
    if e.selected.None? then e
    else
      var t := e.selected.value;
      var rec := e.dom.nodes[t];
      var d := Dom(e.dom.nodes[t := rec.(style := SetProp(rec.style, EditKey(ed), EditValue(ed)))], e.dom.next);
      assert SameShape(e.dom, d);
      ShapeWF(e.dom, d);
      e.(dom := d, values := ApplyEdit(e.values, ed))
  }

  /** The text field: `selectedEl.innerText = value` replaces the children by one text node, or
      by nothing for the empty string, and the sidebar text takes the value. The field exists
      only while something is selected. */
  function EditText(e: Editor, v: string): (r: Editor)
    requires Inv(e)
    ensures Inv(r) && r.mount == e.mount && r.armed == e.armed && r.selected == e.selected
    ensures e.selected.None? ==> r == e
    ensures r.dom.nodes.Keys == e.dom.nodes.Keys && r.dom.next == e.dom.next
    ensures e.selected.Some? ==>
      var t := e.selected.value;
      && TextContent(ToTree(r.dom, t)) == v && r.values == e.values.(text := v)
      && r.dom.nodes[t].children == (if v == "" then [] else [Leaf(v)])
      && r.dom.nodes[t].tag == e.dom.nodes[t].tag
      && r.dom.nodes[t].style == e.dom.nodes[t].style && r.dom.nodes[t].marked == e.dom.nodes[t].marked
      && (forall x :: x in e.dom.nodes && x != t ==> r.dom.nodes[x] == e.dom.nodes[x])
  {
    if e.selected.None? then e
    else
      var t := e.selected.value;
      var rec := e.dom.nodes[t];
      var kids := if v == "" then [] else [Leaf(v)];
      var d := Dom(e.dom.nodes[t := rec.(children := kids)], e.dom.next);
      assert forall x :: x in d.nodes ==> RecordOk(d, x) by {
        forall x | x in d.nodes ensures RecordOk(d, x) {
          if x != t {
            assert RecordOk(e.dom, x);
            assert forall i :: 0 <= i < |e.dom.nodes[x].children| ==> ChildOk(e.dom, x, e.dom.nodes[x].children[i]);
          }
        }
      }
      assert KidsText(KidsTrees(d, t, kids)) == v by {
        if v != "" {
          assert kids[1..] == [];
          assert v + "" == v;
        }
      }
      e.(dom := d, values := e.values.(text := v))
  }

  /** Why `save` throws: there is no mount before the first render (so `serializeElement`
      gets `undefined`), or `styleToJs` throws. */
  datatype SaveError = NoMount | BadStyle(cause: StyleError)

  /** `save`: the string handed to `onSave`, the serialization of the mount. */
  function Save(e: Editor): (r: Result<string, SaveError>)
    requires Inv(e)
    ensures r.Err? && r.error.NoMount? <==> e.mount.None?
  {
    if e.mount.None? then Err(NoMount)
    else
      var s := Serialize(ToTree(e.dom, e.mount.value));
      if s.Err? then Err(BadStyle(s.error)) else Ok(s.value)
  }

  /** The sidebar shows what the selected element holds: the values a fresh click on it would
      load. */
  predicate Consistent(e: Editor)
    requires Inv(e)
  {
    e.selected.Some? ==> e.values == LoadSnapshot(e.dom, e.selected.value)
  }

  /** Inside the current mount, only the selected element can be marked. */
  predicate OneMark(e: Editor)
    requires Inv(e)
  {
    e.mount.Some? ==>
      forall x :: x in Subtree(e.dom, e.mount.value) && e.dom.nodes[x].marked ==> e.selected == Some(x)
  }

  /** Below the current mount, only the selected element can be marked: the mount itself may
      carry a mark besides. */
  predicate OneMarkBelow(e: Editor)
    requires Inv(e)
  {
    e.mount.Some? ==>
      forall x :: x in Subtree(e.dom, e.mount.value) && x != e.mount.value && e.dom.nodes[x].marked ==>
        e.selected == Some(x)
  }

  /** The controls never send an empty colour or weight: the picker always holds a colour and
      the select one of its options. */
  predicate GoodEdit(ed: Edit) {
    (ed.SetColor? ==> ed.color != "") && (ed.SetFontWeight? ==> ed.weight != "")
  }

  /** Changing records other than `t`'s and `t`'s style only leaves `t`'s text as it was. */
  lemma TextFrame(d1: Dom, d2: Dom, t: Handle)
    requires WF(d1) && WF(d2) && t in d1.nodes && t in d2.nodes
    requires d2.nodes[t].children == d1.nodes[t].children
    requires forall x :: x in d1.nodes && x != t ==> x in d2.nodes && d2.nodes[x] == d1.nodes[x]
    ensures TextContent(ToTree(d2, t)) == TextContent(ToTree(d1, t))
  {
    var cs := d1.nodes[t].children;
    assert AgreeOn(d1, d2, KidsSubtree(d1, t, cs));
    KidsFrame(d1, d2, t, cs);
  }

  lemma LookupAfterSetProp(ds: seq<Decl>, key: string, val: string, k: string)
    ensures Lookup(SetProp(ds, key, val), k) == if k == key then val else Lookup(ds, k)
  {
  }

  /** Loading an element after a control wrote its property gives the loaded values with the
      control's field replaced: the size written as `n + "px"` parses back as `n`. */
  lemma LoadAfterEdit(d1: Dom, d2: Dom, t: Handle, ed: Edit)
    requires WF(d1) && WF(d2) && t in d1.nodes && t in d2.nodes && GoodEdit(ed)
    requires d2.nodes[t] == d1.nodes[t].(style := SetProp(d1.nodes[t].style, EditKey(ed), EditValue(ed)))
    requires forall x :: x in d1.nodes && x != t ==> x in d2.nodes && d2.nodes[x] == d1.nodes[x]
    ensures LoadSnapshot(d2, t) == ApplyEdit(LoadSnapshot(d1, t), ed)
  {
    TextFrame(d1, d2, t);
    var st1 := d1.nodes[t].style;
    var key, val := EditKey(ed), EditValue(ed);
    var st2 := d2.nodes[t].style;
    LookupAfterSetProp(st1, key, val, "color");
    LookupAfterSetProp(st1, key, val, "font-size");
    LookupAfterSetProp(st1, key, val, "font-weight");
    if ed.SetFontSize? {
      ParseIntOfNumberText(ed.size);
    }
  }

  /** Writing a control's value into the selected element and into the sidebar keeps the two
      in step: loading the element back gives the sidebar values. This rests on `el.style`
      being a plain property map: a browser rejects a `NaNpx` size and keeps the old one, and
      then the sidebar shows `NaN` while the element keeps its size. */
  lemma UpdateStyleConsistent(e: Editor, ed: Edit)
    requires Inv(e) && Consistent(e) && GoodEdit(ed)
    ensures Consistent(UpdateStyle(e, ed))
  {
    if e.selected.Some? {
      var r := UpdateStyle(e, ed);
      LoadAfterEdit(e.dom, r.dom, e.selected.value, ed);
    }
  }

  lemma EditTextConsistent(e: Editor, v: string)
    requires Inv(e) && Consistent(e)
    ensures Consistent(EditText(e, v))
  {
  }

  lemma RecompileConsistent(e: Editor, out: Render)
    requires Inv(e) && Consistent(e)
    ensures Consistent(Recompile(e, out))
  {
    if e.selected.Some? {
      ExtendsFrame(e.dom, Recompile(e, out).dom, e.selected.value);
    }
  }

  /** A fresh mount holds no marks; re-styling keeps the marks and the subtree; a text edit can
      only cut the subtree down; a click leaves the target as the only mark below the mount,
      and the corrected click as the only mark in the whole mount. */
  lemma RecompileOneMark(e: Editor, out: Render)
    requires Inv(e)
    ensures OneMark(e) ==> OneMark(Recompile(e, out))
    ensures OneMarkBelow(e) ==> OneMarkBelow(Recompile(e, out))
  {
    var r := Recompile(e, out);
    if !out.CompileError? {
      assert forall x :: x in Subtree(r.dom, r.mount.value) ==> x !in e.dom.nodes;
    }
  }

  lemma UpdateStyleOneMark(e: Editor, ed: Edit)
    requires Inv(e)
    ensures OneMark(e) ==> OneMark(UpdateStyle(e, ed))
    ensures OneMarkBelow(e) ==> OneMarkBelow(UpdateStyle(e, ed))
  {
    var r := UpdateStyle(e, ed);
    if e.selected.Some? && e.mount.Some? {
      ShapeSubtree(e.dom, r.dom, e.mount.value);
    }
  }

  lemma EditTextOneMark(e: Editor, v: string)
    requires Inv(e)
    ensures OneMark(e) ==> OneMark(EditText(e, v))
    ensures OneMarkBelow(e) ==> OneMarkBelow(EditText(e, v))
  {
    var r := EditText(e, v);
    if e.selected.Some? && e.mount.Some? {
      var t := e.selected.value;
      assert CutBelow(e.dom, r.dom, t);
      CutSubtree(e.dom, r.dom, t, e.mount.value);
    }
  }

  lemma ClickOnOneMark(e: Editor, t: Handle)
    requires Inv(e)
    ensures OneMarkBelow(e) ==> OneMarkBelow(ClickOn(e, t))
    ensures e.armed && t in Subtree(e.dom, e.mount.value) ==>
      forall x :: x in Subtree(ClickOn(e, t).dom, e.mount.value) && x != e.mount.value ==>
        (ClickOn(e, t).dom.nodes[x].marked <==> x == t)
  {
    if e.armed && t in Subtree(e.dom, e.mount.value) {
      var m := e.mount.value;
      var r := ClickOn(e, t);
      assert r.dom == ClickAsWritten(e.dom, m, t);
      assert Subtree(r.dom, m) == Subtree(e.dom, m);
      assert r.selected == Some(t);
    }
  }

  lemma ClickOnFixedOneMark(e: Editor, t: Handle)
    requires Inv(e)
    ensures OneMark(e) ==> OneMark(ClickOnFixed(e, t))
    ensures OneMarkBelow(e) ==> OneMarkBelow(ClickOnFixed(e, t))
    ensures e.armed && t in Subtree(e.dom, e.mount.value) ==>
      forall x :: x in Subtree(ClickOnFixed(e, t).dom, e.mount.value) ==>
        (ClickOnFixed(e, t).dom.nodes[x].marked <==> x == t)
  {
    if e.armed && t in Subtree(e.dom, e.mount.value) {
      var m := e.mount.value;
      var r := ClickOnFixed(e, t);
      assert r.dom == Click(e.dom, m, t);
      assert Subtree(r.dom, m) == Subtree(e.dom, m);
      assert r.selected == Some(t);
    }
  }

  lemma ClickOnConsistent(e: Editor, t: Handle)
    requires Inv(e) && Consistent(e)
    ensures Consistent(ClickOn(e, t)) && Consistent(ClickOnFixed(e, t))
  {
  }

  /** The discrepancy at the level of the editor: click the mount, then an element inside it.
      The mount keeps its marker and its outline, so two elements are marked and the outline
      is part of what `save` serialises; the corrected click leaves only the element marked. */
  lemma MountMarkSaved(e: Editor, c: Handle)
    requires Inv(e) && e.armed && c in Subtree(e.dom, e.mount.value) && c != e.mount.value
    ensures var m := e.mount.value;
      var e2 := ClickOn(ClickOn(e, m), c);
      && e2.selected == Some(c) && e2.dom.nodes[m].marked && e2.dom.nodes[c].marked
      && Lookup(e2.dom.nodes[m].style, "outline") == Highlight
      && !OneMark(e2)
    ensures var m := e.mount.value;
      var f2 := ClickOnFixed(ClickOnFixed(e, m), c);
      f2.selected == Some(c) && !f2.dom.nodes[m].marked && OneMark(f2)
  {
    var m := e.mount.value;
    var e1 := ClickOn(e, m);
    assert Subtree(e1.dom, m) == Subtree(e.dom, m);
    var e2 := ClickOn(e1, c);
    assert e2.dom.nodes[m] == e1.dom.nodes[m];
    assert m in Subtree(e2.dom, m);
    var f1 := ClickOnFixed(e, m);
    ClickOnFixedOneMark(f1, c);
  }

  /** One event the editor reacts to. */
  datatype Action = Compile(out: Render) | Select(target: Handle) | Restyle(edit: Edit) | Type(text: string)

  /** One event; `fixed` selects the corrected click handler. */
  function Step(e: Editor, a: Action, fixed: bool): (r: Editor)
    requires Inv(e)
    ensures Inv(r)
  {
    match a
    case Compile(out) => Recompile(e, out)
    case Select(t) => if fixed then ClickOnFixed(e, t) else ClickOn(e, t)
    case Restyle(ed) => UpdateStyle(e, ed)
    case Type(v) => EditText(e, v)
  }

  function Run(e: Editor, acts: seq<Action>, fixed: bool): (r: Editor)
    requires Inv(e)
    ensures Inv(r)
    decreases |acts|
  {
    if acts == [] then e else Run(Step(e, acts[0], fixed), acts[1..], fixed)
  }

  predicate GoodAction(a: Action) {
    a.Restyle? ==> GoodEdit(a.edit)
  }

  lemma StepKeeps(e: Editor, a: Action, fixed: bool)
    requires Inv(e) && Consistent(e) && OneMarkBelow(e) && GoodAction(a)
    ensures Consistent(Step(e, a, fixed)) && OneMarkBelow(Step(e, a, fixed))
    ensures fixed && OneMark(e) ==> OneMark(Step(e, a, fixed))
  {
    match a
    case Compile(out) => RecompileConsistent(e, out); RecompileOneMark(e, out);
    case Select(t) => ClickOnConsistent(e, t); ClickOnOneMark(e, t); ClickOnFixedOneMark(e, t);
    case Restyle(ed) => UpdateStyleConsistent(e, ed); UpdateStyleOneMark(e, ed);
    case Type(v) => EditTextConsistent(e, v); EditTextOneMark(e, v);
  }

  /** Whatever the user does: the sidebar shows what the selected element holds, and below the
      mount at most the selected element is marked; with the corrected handler, at most the
      selected element is marked in the whole mount. */
  lemma {:induction false} RunKeeps(e: Editor, acts: seq<Action>, fixed: bool)
    requires Inv(e) && Consistent(e) && OneMarkBelow(e)
    requires forall i :: 0 <= i < |acts| ==> GoodAction(acts[i])
    ensures Consistent(Run(e, acts, fixed)) && OneMarkBelow(Run(e, acts, fixed))
    ensures fixed && OneMark(e) ==> OneMark(Run(e, acts, fixed))
    decreases |acts|
  {
    if acts != [] {
      StepKeeps(e, acts[0], fixed);
      GoodTail(acts);
      RunKeeps(Step(e, acts[0], fixed), acts[1..], fixed);
    }
  }

  lemma GoodTail(acts: seq<Action>)
    requires acts != [] && forall i :: 0 <= i < |acts| ==> GoodAction(acts[i])
    ensures forall i :: 0 <= i < |acts[1..]| ==> GoodAction(acts[1..][i])
  {
    assert forall i :: 0 <= i < |acts[1..]| ==> acts[1..][i] == acts[i + 1];
  }

  /** From the initial state, for any sequence of events. */
  lemma FromStart(acts: seq<Action>)
    requires forall i :: 0 <= i < |acts| ==> GoodAction(acts[i])
    ensures Inv(Start)
    ensures Consistent(Run(Start, acts, false)) && OneMarkBelow(Run(Start, acts, false))
    ensures Consistent(Run(Start, acts, true)) && OneMark(Run(Start, acts, true))
  {
    RunKeeps(Start, acts, false);
    RunKeeps(Start, acts, true);
  }

  /** Before the first render there is no mount, so `save` throws. */
  lemma SaveBeforeRender()
    ensures Save(Start) == Err(NoMount)
  {
  }

  /** After a successful render, `save` prints the style-less mount `div` around the rendered
      nodes. */
  lemma SaveAfterRender(e: Editor, ns: seq<Node>)
    requires Inv(e)
    ensures var r := Recompile(e, Rendered(ns));
      Save(r) == if SerializeKids(ns).Err? then Err(BadStyle(SerializeKids(ns).error))
                 else Ok("<div>" + SerializeKids(ns).value + "</div>")
  {
    var r := Recompile(e, Rendered(ns));
    assert ToTree(r.dom, r.mount.value) == Elem("DIV", [], ns);
    assert ToLower("DIV") == "div";
    assert StyleAttr([]) == Ok("");
    var ks := SerializeKids(ns);
    if ks.Ok? {
      assert Serialize(Elem("DIV", [], ns)) == Ok("<" + "div" + "" + ">" + ks.value + "</" + "div" + ">");
      assert "<" + "div" + "" + ">" + ks.value + "</" + "div" + ">" == "<div>" + ks.value + "</div>";
    }
  }

  /** A render of a normal tree saves as text that reads back as the rendered nodes, tags
      lower-cased, inside a `div`. */
  lemma SaveReadsBack(e: Editor, ns: seq<Node>)
    requires Inv(e) && NormalKids(ns)
    ensures var r := Recompile(e, Rendered(ns));
      Save(r).Ok? && ParseNode(Save(r).value) == Some((Elem("div", [], LowerKids(ns)), ""))
  {
    var n := Elem("DIV", [], ns);
    assert NormalTag("DIV") by {
      assert forall i :: 0 <= i < 3 ==> IsLetterOrDigit("DIV"[i]);
    }
    assert NormalNode(n);
    SerializeReadsBack(n);
    assert ToLower("DIV") == "div";
  }

  /** A recompile leaves any selection outside the new mount: the handle is stale. */
  lemma RecompileDetachesSelection(e: Editor, out: Render)
    requires Inv(e) && !out.CompileError? && e.selected.Some?
    ensures var r := Recompile(e, out); e.selected.value !in Subtree(r.dom, r.mount.value)
  {
    assert RecordOk(e.dom, e.selected.value);
  }

  /** With a stale selection, the sidebar controls change a detached element: `save` output
      does not change. */
  lemma StaleEditsInvisible(e: Editor, ed: Edit, v: string)
    requires Inv(e) && e.mount.Some? && e.selected.Some?
    requires e.selected.value !in Subtree(e.dom, e.mount.value)
    ensures Save(UpdateStyle(e, ed)) == Save(e)
    ensures Save(EditText(e, v)) == Save(e)
  {
    var m, t := e.mount.value, e.selected.value;
    var r1, r2 := UpdateStyle(e, ed), EditText(e, v);
    assert AgreeOn(e.dom, r1.dom, Subtree(e.dom, m));
    TreeFrame(e.dom, r1.dom, m);
    assert AgreeOn(e.dom, r2.dom, Subtree(e.dom, m));
    TreeFrame(e.dom, r2.dom, m);
  }
}
