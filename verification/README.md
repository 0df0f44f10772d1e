# React website editor: style codec, serializer, selection and session

The editor shows a React component's rendered HTML in a preview. A click in the preview
selects an element. Sidebar controls change the selected element's text, colour, font size
and font weight. "Save" prints the preview back as JSX. This project models that core in
Dafny and proves properties of the model:

- `toCamel`, `styleToJs` and `serializeElement` (modules `Camel`, `StyleCodec`, `Serializer`).
  They are built on the JavaScript string primitives they use (`Strings`), on the inline
  style as a list of declarations (`Css`), and on the node tree (`Tree`).
- A reader for the serializer's output (`Reparse`). It shows that the JSX text carries the
  whole tree back: tags lower-cased, style keys hyphenated again.
- The preview as an arena of element records (`Dom`), the click handler of `enableSelection`
  (`Selection`), and `parseInt` / `String(n)` for the font-size control (`Numbers`).
- The editor component's state and events (`Session`): a recompile of the component source,
  a click, a sidebar control change, a text edit, and save. Every event preserves the
  invariants: the sidebar shows what the selected element holds, and the marks sit where the
  handler leaves them.

Where the editor's description and its code differ, the model follows the code:

- A compile error throws before the preview is touched. The old preview and the old
  selection stay.
- A successful recompile does not reset the selection. The selected handle then points at a
  detached element, and edits to it never reach `save` (`Session.StaleEditsInvisible`).

## Model

| member | source | states |
|---|---|---|
| Strings.Split | reactjs/Assignment/react-editor/src/utils/serialize.ts:20 | `split(";")` gives at least one part, no part holds the separator, and joining the parts with it gives the input back |
| Strings.SplitOfJoin | reactjs/Assignment/react-editor/src/utils/serialize.ts:20 | splitting the join of separator-free parts gives the parts back |
| Strings.SplitAppend | reactjs/Assignment/react-editor/src/utils/serialize.ts:20 | splitting `a;b` gives the parts of `a` followed by the parts of `b` |
| Strings.Trim | reactjs/Assignment/react-editor/src/utils/serialize.ts:24 | `trim` leaves no ECMAScript white space at either end and never lengthens the text |
| Strings.TrimEmptyIff | reactjs/Assignment/react-editor/src/utils/serialize.ts:24 | `trim` gives "" exactly for all-white-space input |
| Strings.TrimPadded | reactjs/Assignment/react-editor/src/utils/serialize.ts:24 | leading white space before a trimmed string is removed and the string comes back unchanged |
| Strings.TrimStartPadded | reactjs/Assignment/react-editor/src/components/websiteEditor.tsx:55 | the white space `parseInt` skips is exactly a white-space prefix |
| Strings.ToLower | reactjs/Assignment/react-editor/src/utils/serialize.ts:2 | `tagName.toLowerCase()` keeps the length and maps each character to its lower case (ASCII letters only) |
| Camel.ToCamel | reactjs/Assignment/react-editor/src/utils/serialize.ts:29-31 | the output is no longer than the input, holds no `-x` pair any more, keeps or up-cases the first character, and is the input itself when there is no hyphen |
| Camel.ToCamelLength | reactjs/Assignment/react-editor/src/utils/serialize.ts:29-31 | each regex match shortens the text by one character |
| Camel.ToCamelFixedPoint | reactjs/Assignment/react-editor/src/utils/serialize.ts:29-31 | text without a `-x` pair is left unchanged |
| Camel.ToCamelIdempotent | reactjs/Assignment/react-editor/src/utils/serialize.ts:29-31 | a second pass of `toCamel` changes nothing |
| Camel.ToCamelOnlyDropsHyphens | reactjs/Assignment/react-editor/src/utils/serialize.ts:29-31 | the letters survive in order, case aside, and the length lost equals the number of hyphens removed |
| Camel.HyphenateUndoesToCamel | reactjs/Assignment/react-editor/src/utils/serialize.ts:29-31 | on hyphen-case property names the camel-to-hyphen rewrite undoes `toCamel`, and the output is ASCII letters only |
| Camel.ToCamelUndoesHyphenate | reactjs/Assignment/react-editor/src/utils/serialize.ts:29-31 | on ASCII-letter identifiers `toCamel` undoes the camel-to-hyphen rewrite |
| StyleCodec.Entry | reactjs/Assignment/react-editor/src/utils/serialize.ts:23-24 | the destructured `[k, v]` entry for one segment is never empty when it succeeds |
| StyleCodec.EntryFailsIff | reactjs/Assignment/react-editor/src/utils/serialize.ts:23-24 | the callback throws (`v` undefined) exactly when the segment holds no `:` |
| StyleCodec.EntryIgnoresAfterSecondColon | reactjs/Assignment/react-editor/src/utils/serialize.ts:23-24 | the value is the text between the first and the second `:`, trimmed, and the key is trimmed and camel-cased |
| StyleCodec.Entries | reactjs/Assignment/react-editor/src/utils/serialize.ts:21-25 | after `filter(Boolean)` and `map` every entry is non-empty and there are no more entries than segments |
| StyleCodec.EntriesFailIff | reactjs/Assignment/react-editor/src/utils/serialize.ts:21-25 | the mapping throws exactly when some non-empty segment has no `:` |
| StyleCodec.EntriesAppend | reactjs/Assignment/react-editor/src/utils/serialize.ts:21-25 | mapping two segment lists one after the other concatenates the entries, and the first error wins |
| StyleCodec.StyleToJs | reactjs/Assignment/react-editor/src/utils/serialize.ts:18-27 | the empty style gives the empty body |
| StyleCodec.StyleToJsThrowsIff | reactjs/Assignment/react-editor/src/utils/serialize.ts:18-27 | `styleToJs` throws exactly when some `;` segment is non-empty and has no `:`; white space counts as non-empty |
| StyleCodec.StyleToJsAppend | reactjs/Assignment/react-editor/src/utils/serialize.ts:19-26 | the output for `a;b` is the entries of `a` and then those of `b`, joined by `, `, and the first error wins |
| StyleCodec.StyleToJsSegment | reactjs/Assignment/react-editor/src/utils/serialize.ts:19-26 | a single segment gives its own entry, or nothing when it is empty |
| StyleCodec.TrailingSpaceSegmentThrows | reactjs/Assignment/react-editor/src/utils/serialize.ts:21-24 | a trailing `; ` survives `filter(Boolean)` and makes `styleToJs` throw |
| StyleCodec.MalformedAfterEmptySegmentThrows | reactjs/Assignment/react-editor/src/utils/serialize.ts:21-24 | an empty segment is skipped, but a later colon-less segment throws unless an earlier one already did |
| StyleCodec.AttrTextToJs | reactjs/Assignment/react-editor/src/utils/serialize.ts:18-27 | the style attribute the browser writes for plain declarations becomes exactly one `camelKey: "value"` entry per declaration, in order |
| Css.AttrTextEmpty | reactjs/Assignment/react-editor/src/utils/serialize.ts:12-13 | the style attribute is empty exactly when the element has no declarations |
| Css.SetProp | reactjs/Assignment/react-editor/src/components/websiteEditor.tsx:69-73 | the style setter makes the property read back as the value, leaves every other property as it was, keeps the order, and appends a new property at the end |
| Css.SetPropTwice | reactjs/Assignment/react-editor/src/components/websiteEditor.tsx:242-246 | setting a property twice leaves what setting it once to the second value would |
| Serializer.StyleAttr | reactjs/Assignment/react-editor/src/utils/serialize.ts:12-13 | the ` style={{ … }}` part is empty exactly when the element has no declarations |
| Serializer.StyleAttrOfPlain | reactjs/Assignment/react-editor/src/utils/serialize.ts:12-13 | for plain declarations the attribute is ` style={{ ` + one entry per declaration + ` }}` |
| Serializer.SerializeThrowsIff | reactjs/Assignment/react-editor/src/utils/serialize.ts:1-16 | `serializeElement` throws exactly when some element of the tree has a style that makes `styleToJs` throw |
| Serializer.PlainStylesSerialize | reactjs/Assignment/react-editor/src/utils/serialize.ts:1-16 | a tree whose declarations are all plain always serializes |
| Serializer.ElementShape | reactjs/Assignment/react-editor/src/utils/serialize.ts:1-16 | an element prints as the lower-cased tag pair around its children's output, with a style attribute exactly when it has declarations |
| Serializer.SerializeKidsAppend | reactjs/Assignment/react-editor/src/utils/serialize.ts:4-10 | children print in document order, and the first child that throws decides |
| Serializer.TextChildVerbatim | reactjs/Assignment/react-editor/src/utils/serialize.ts:6-7 | a text child prints as its text, unescaped, between its siblings' output |
| Serializer.TextKidsVerbatim | reactjs/Assignment/react-editor/src/utils/serialize.ts:4-10 | the children of an element with only text children print as its `textContent` |
| Reparse.SerializeReadsBack | reactjs/Assignment/react-editor/src/utils/serialize.ts:1-16 | the output for a normal tree reads back as the same tree with lower-cased tags and nothing left over |
| Reparse.UnescapedTextMisread | reactjs/Assignment/react-editor/src/utils/serialize.ts:7 | a `<` in text is printed as is and reads back as the start of a tag |
| Reparse.AdjacentTextsMerge | reactjs/Assignment/react-editor/src/utils/serialize.ts:4-10 | two adjacent text children print as one run and read back as a single text node |
| Numbers.ParseInt | reactjs/Assignment/react-editor/src/components/websiteEditor.tsx:55 | `parseInt` gives a negative number only after a `-` sign |
| Numbers.ParseIntOfIntText | reactjs/Assignment/react-editor/src/components/websiteEditor.tsx:70 | `parseInt` reads back `String(n)` for every integer `n`, whatever text follows that is not a digit, `x` or `X` |
| Numbers.ParseIntOfNumberText | reactjs/Assignment/react-editor/src/components/websiteEditor.tsx:184-185 | a size written as `n + "px"` parses back as `n`, and `NaNpx` as `NaN` |
| Numbers.ParseIntSkipsWhitespace | reactjs/Assignment/react-editor/src/components/websiteEditor.tsx:55 | `parseInt` ignores leading white space |
| Numbers.ParseIntDefault | reactjs/Assignment/react-editor/src/components/websiteEditor.tsx:55 | the fallback `parseInt("16")` is 16 |
| Numbers.NoLeadingDigit | reactjs/Assignment/react-editor/src/components/websiteEditor.tsx:184-185 | text that starts with an upper-case letter parses as `NaN` |
| Dom.Alloc | reactjs/Assignment/react-editor/src/components/websiteEditor.tsx:41-46 | inserting a parsed tree adds fresh records only, keeps every existing record, and the new node reads back as exactly that tree |
| Dom.AllocAll | reactjs/Assignment/react-editor/src/components/websiteEditor.tsx:46 | the children `innerHTML` creates read back as the rendered nodes, in order, all of them fresh |
| Selection.ClearMarks | reactjs/Assignment/react-editor/src/components/websiteEditor.tsx:240-243 | each marked element in the cleared scope loses its marker and gets outline `none`; every other record is unchanged |
| Selection.ClickIn | reactjs/Assignment/react-editor/src/components/websiteEditor.tsx:240-246 | the target is marked and outlined, the marked elements of the scope are cleared, and nothing else changes |
| Selection.ClickAsWritten | reactjs/Assignment/react-editor/src/components/websiteEditor.tsx:233-249 | the handler as written: below the mount only the target stays marked, the mount keeps a mark it already had, outlines change as for a click, and nothing else changes |
| Selection.Click | reactjs/Assignment/react-editor/src/components/websiteEditor.tsx:233-249 | the corrected handler: exactly the target is marked in the whole mount subtree |
| Selection.MountMarkSurvives | reactjs/Assignment/react-editor/src/components/websiteEditor.tsx:240 | after clicks on the mount and then on an element inside it, both are marked and the mount keeps its highlight outline |
| Selection.Clicks | reactjs/Assignment/react-editor/src/components/websiteEditor.tsx:233-249 | after a run of clicks, below the mount only the last element clicked is marked |
| Session.Recompile | reactjs/Assignment/react-editor/src/components/websiteEditor.tsx:22-63 | a compile error changes nothing; otherwise a fresh `div` mount holds the rendered nodes (none after a render error, and then no click handler), and the selection and sidebar values are kept |
| Session.LoadSnapshot | reactjs/Assignment/react-editor/src/components/websiteEditor.tsx:52-57 | the loaded colour and weight are never empty, a set colour is loaded as is, and an unset size loads as 16 |
| Session.ClickOn | reactjs/Assignment/react-editor/src/components/websiteEditor.tsx:48-58 | a click inside an armed mount selects the target, loads its values, and moves the marks as the handler as written does; any other click changes nothing |
| Session.ClickOnFixed | reactjs/Assignment/react-editor/src/components/websiteEditor.tsx:48-58 | the same click with the corrected handler, which clears the mount too |
| Session.UpdateStyle | reactjs/Assignment/react-editor/src/components/websiteEditor.tsx:65-80 | without a selection nothing changes; otherwise only the selected element's one property changes (tag, marker and all other properties kept), and only the matching sidebar field |
| Session.EditText | reactjs/Assignment/react-editor/src/components/websiteEditor.tsx:150-156 | the selected element's children become one text node holding the value (none for ""), its tag, style and marker stay, other elements are untouched, and the sidebar text takes the value |
| Session.Save | reactjs/Assignment/react-editor/src/components/websiteEditor.tsx:82-88 | `save` fails for want of a mount exactly when nothing was rendered yet |
| Session.LoadAfterEdit | reactjs/Assignment/react-editor/src/components/websiteEditor.tsx:65-80 | loading an element after a control wrote its property gives the earlier load with that control's field replaced |
| Session.UpdateStyleConsistent | reactjs/Assignment/react-editor/src/components/websiteEditor.tsx:65-80 | a style control keeps the sidebar equal to what the selected element holds |
| Session.EditTextConsistent | reactjs/Assignment/react-editor/src/components/websiteEditor.tsx:152-155 | the text field keeps the sidebar equal to what the selected element holds |
| Session.RecompileConsistent | reactjs/Assignment/react-editor/src/components/websiteEditor.tsx:22-63 | a recompile keeps the sidebar equal to what the selected element holds |
| Session.ClickOnConsistent | reactjs/Assignment/react-editor/src/components/websiteEditor.tsx:48-58 | a click, with either handler, keeps the sidebar equal to what the selected element holds |
| Session.RecompileOneMark | reactjs/Assignment/react-editor/src/components/websiteEditor.tsx:40-46 | a fresh mount holds no marks, so the mark invariants survive a recompile |
| Session.UpdateStyleOneMark | reactjs/Assignment/react-editor/src/components/websiteEditor.tsx:65-73 | a style edit keeps the mark invariants |
| Session.EditTextOneMark | reactjs/Assignment/react-editor/src/components/websiteEditor.tsx:154 | a text edit keeps the mark invariants |
| Session.ClickOnOneMark | reactjs/Assignment/react-editor/src/components/websiteEditor.tsx:240-246 | after a click as written, below the mount exactly the target is marked |
| Session.ClickOnFixedOneMark | reactjs/Assignment/react-editor/src/components/websiteEditor.tsx:240-246 | after a corrected click, exactly the target is marked in the whole mount |
| Session.MountMarkSaved | reactjs/Assignment/react-editor/src/components/websiteEditor.tsx:240-243 | click the mount and then an element in it: as written both stay marked and the mount keeps its outline; corrected, only the element is marked |
| Session.RunKeeps | reactjs/Assignment/react-editor/src/components/websiteEditor.tsx:12-20 | over any sequence of events the sidebar matches the selected element and, below the mount, only the selected element is marked; with the corrected handler this holds in the whole mount |
| Session.FromStart | reactjs/Assignment/react-editor/src/components/websiteEditor.tsx:12-20 | from the initial state every sequence of events keeps the invariants, for both handlers |
| Session.SaveBeforeRender | reactjs/Assignment/react-editor/src/components/websiteEditor.tsx:82-86 | before the first render there is no mount, and `save` throws |
| Session.SaveAfterRender | reactjs/Assignment/react-editor/src/components/websiteEditor.tsx:82-88 | after a render, `save` prints `<div>` around the rendered nodes' output, or fails with their style error |
| Session.SaveReadsBack | reactjs/Assignment/react-editor/src/components/websiteEditor.tsx:82-88 | the saved text of a normal render reads back as the rendered nodes inside a `div` |
| Session.RecompileDetachesSelection | reactjs/Assignment/react-editor/src/components/websiteEditor.tsx:40-42 | after a recompile the old selection lies outside the new mount |
| Session.StaleEditsInvisible | reactjs/Assignment/react-editor/src/components/websiteEditor.tsx:65-73 | edits to a detached selection leave the `save` output unchanged |

## Left out

- `el.style` is modelled as a plain property map that stores any text. There is no `rgb()` normalisation of colours, no expansion of shorthands, and no rejection of invalid values: a browser drops `NaNpx`, negative sizes and other invalid values, and `""` deletes a property. `Session.UpdateStyleConsistent` and `Numbers.ParseIntOfNumberText` rest on this assumption. A browser keeps the old size when given `NaNpx`, so the sidebar would show `NaN` while the element keeps its size.
- The style attribute text is taken to be the declarations written as `key: value;`, separated by single spaces. That is how browsers serialize an inline style, but it is not checked against a CSS engine.
- `innerText` is read as `textContent`, so layout-dependent text (hidden elements, `\n` from block boundaries) is not modelled. Writing `innerText` does not turn `\n` into `<br>`.
- Strings.ToLower: lower-cases ASCII letters only, where JavaScript `toLowerCase` is full Unicode. Serializer output therefore matches the source only for tags that are ASCII, which HTML tag names are.
- Numbers.ParseInt: works on unbounded integers where JavaScript uses IEEE doubles. Precision loss above 2^53 and the `1e+21` exponent form of `String(n)` are not modelled.
- Comment nodes and other non-element, non-text nodes are excluded by the `Tree.Node` datatype. `renderToString` puts `<!-- -->` between adjacent text nodes, and the real serializer would pass such a comment to `serializeElement`, where `el.tagName.toLowerCase()` throws (`tagName` is undefined on a comment).
- Session.RecompileOneMark: rendered elements are taken to carry no `data-selected` attribute (`Dom.Alloc` creates unmarked records). A component that renders one starts with a mark, because `mount.innerHTML` keeps the attribute. The mark invariants then hold only from the first click on, as the second ensures of `Session.ClickOnOneMark` states: it needs no invariant beforehand.
- Session.RunKeeps: its mark invariant rests on the same assumption through the recompile step.
- Session.FromStart: its mark invariants rest on the same assumption. A sequence that renders a component with a `data-selected` element is outside what the `Render` input can express.
- Babel compilation, `eval`, `renderToString` and the HTML parse of `mount.innerHTML` are reduced to the `Session.Render` input: a compile error, a render error, or the parsed nodes.
- `save` is modelled as callable at any time. In the UI the Save button is rendered only while an element is selected (websiteEditor.tsx:144, 205-206), so the state of `Session.SaveBeforeRender` cannot be reached by clicking.
- `previewRef.current` being `null` (before React attaches the ref) is not modelled: the effect and `save` then return without doing anything.
- React's rendering, event bubbling (`preventDefault`, `stopPropagation`), the asynchronous batching of `setState`, and the sidebar markup are left out. A click is modelled as landing directly on its target element.
- The `onSave` callback, `console.error`, and the rest of the application (the editor page, `main.tsx`, the Babel type declarations) are not part of this model.
- The renderer's `ms-` vendor-prefix rule in the camel-to-hyphen rewrite is not modelled. The rewrite is only used to read the serializer's output back.

## Findings

| source | as written | input that shows it | evidently intended | confidence | as-written member | corrected member |
|---|---|---|---|---|---|---|
| reactjs/Assignment/react-editor/src/components/websiteEditor.tsx:240 | the click handler clears old marks with `root.querySelectorAll("[data-selected]")`, which matches descendants of the mount only, so a mark on the mount itself is never removed | click the mount (the area beside an inline or text-only component), then click an element inside it: both keep `data-selected` and the highlight outline, and `save` prints the mount's outline | clearing every mark in the mount subtree, the mount included, so that only the selected element is marked | not executed | Session.MountMarkSaved | Session.ClickOnFixed |
