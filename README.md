# ousupsub editor: tag normalisation and HTML cleaning, in Dafny

This project models the core of the ousupsub (superscript/subscript) editor
plugin for Moodle. That core is the logic that keeps the editable area
holding nothing but text, `sup` and `sub`. It has three parts.

- **Tree surgery on the editable area.** The editable area is a DOM tree.
  `dom.dfy` holds it as an arena (`Store`): child lists, parent links, tag
  names, ids, and a bookkeeping rank that decreases downwards. `document.dfy`
  wraps the same fields in the class `Document.Doc`, whose methods are the
  DOM calls the editor makes: `remove`, `insertBefore`, `appendChild`,
  `createElement`, `parentNode`, `firstChild`, `lastChild` and
  `previousSibling`. Each changing method is proved to take the fields from
  `old(Model())` to the store a `Dom` function computes, keeping the tree
  well formed (`Valid`): `Remove` gives `Dom.Detach`, `InsertBefore` and
  `AppendChild` give `Dom.Move`, and `CreateElement` gives
  `Dom.CreateElement`. The four readers return the field they read.
  - `_removeSingleNodesByName` is in `prune.dfy`.
  - `_removeNodesByName` is in `unwrap.dfy`.
  - `_mergeNodes` is in `merge.dfy`.
  - `_splitParentNode` is in `split.dfy`.
  - `_normaliseTagInTextarea`, in both published forms, and
    `_normaliseTextarea` are in `normalise.dfy`.

  All of these are imperative methods with loops over snapshot arrays, as in
  the JavaScript. Their contracts relate the store after a call to the store
  before it, to the extent the table below says. `_removeSingleNodesByName`
  and `_mergeNodes` are tied to a reference function of the whole result.
  The other operations are stated in part, and what is missing is listed
  under "Left out". The de-nesting pass, for example, is stated only as
  keeping the tree well formed and the set of nodes in the store.
  `order.dfy` defines the document-order walk below a node and the previous
  sibling in it. The merging pass is proved against these.
- **The ordered string-rule pipeline** (`rules.dfy`). This covers
  `_filterContentWithRules`, `_cleanHTML`, `_cleanPasteHTML` and
  `getCleanHTML`.
  - The literal rules are defined concretely as a global, ASCII
    case-insensitive replace. These are `&nbsp;`, `</sup> <sup>`,
    ` </sup>`, `<br>` and their `sub` forms.
  - Every other rule is an abstract `string -> string` function.
- **Small decision and state logic.**
  - The `pasteCleanup` branch table is in `paste.dfy`.
  - `_getAdjustedOffset` is in `offset.dfy`.
  - `buttons.dfy` has button-class naming, the button-state map with
    `isEnabled` and `_setButtonState`, `_normalizeCallback`, exact key-modifier
    matching and the arrow-key shortcuts.

A JavaScript TypeError is modelled as a result `ok == false`, with the
document left as it was at the throw. It arises when the code reads
`firstChild` or `appendChild` of a `null` parent, calls `appendChild(null)`,
or calls `parentNode.insertBefore` when `parentNode` is `null`
(clean.js:702-703, `Unwrap.RemoveNodesByName`).
The two places where the published sources differ are modelled side by side
as `Normalise.Variant`:

- `SplitParent` is the module source `yui/src/editor/js/clean.js`.
- `FirstChildOnly` is the built plugin
  `yui/build/moodle-editor_ousupsub-plugin/moodle-editor_ousupsub-plugin-debug.js`.

Where the doc comments in the source and the code disagree, the model
follows the code:

- The doc comment of `_splitParentNode` (clean.js:645) says the parent is
  split in two around the named node. The code calls
  `appendChild(piece, container)`, whose second argument is ignored, so every
  piece goes to the *end* of the parent of the container
  (`Split.SplitAt`).
- The doc comment of `_removeNodesByName` (clean.js:673-676) says it moves
  all elements of the container before the reference node. The code does not
  preserve content in general (clean.js:698-709). The model states only the
  cases the code guarantees: the frame, the splice when nothing below the
  container is unwrapped, and the error condition.

"No node is lost" in this model means that the set of nodes in the store
does not shrink. It does not mean that every node stays in the document:
`_removeNodesByName` can detach content (clean.js:698-709).

## Model

| member | source | states |
|---|---|---|
| Document.Doc.Remove | yui/src/editor/js/clean.js:709 | `node.remove()` takes the node out of its parent's child list and drops its parent link; a parentless node stays as it is; the tree stays well formed |
| Document.Doc.InsertBefore | yui/src/editor/js/clean.js:704 | `insertBefore(n, ref)` moves `n` just before `ref`, or fails with NotFoundError and no change when `ref` is not a child of the parent |
| Document.Doc.AppendChild | yui/src/editor/js/clean.js:639 | `appendChild(n)` moves `n` from wherever it was to the end of the parent's child list |
| Document.Doc.CreateElement | yui/src/editor/js/clean.js:665 | `createElement(name)` allocates a fresh, parentless, childless element with that name |
| Document.Doc.ParentNode | yui/src/editor/js/clean.js:578 | `parentNode` is `null` exactly for a node without a parent |
| Document.Doc.FirstChild | yui/src/editor/js/clean.js:583 | `firstChild` is `null` exactly for a childless node, otherwise its first child |
| Document.Doc.LastChild | yui/src/editor/js/clean.js:583 | `lastChild` is `null` exactly for a childless node, otherwise its last child |
| Document.Doc.PreviousSibling | yui/src/editor/js/clean.js:612 | `previousSibling` is a child of the same parent just before the node, and exists whenever the node is not the first child |
| Rules.ReplaceAllShorter | yui/src/editor/js/clean.js:112-123 | a literal global replace whose replacement is no longer than its pattern never lengthens the string |
| Rules.ReplaceAllFree | yui/src/editor/js/clean.js:112-123 | a string in which the pattern does not occur, in any letter case, comes back unchanged |
| Rules.ReplaceAllClears | yui/src/editor/js/clean.js:112 | a literal global replace leaves no occurrence of its pattern when the replacement cannot create one |
| Rules.NbspCleared | yui/src/editor/js/clean.js:112 | after the `&nbsp;` rule no `&nbsp;`, in any letter case, remains |
| Rules.FilterContentWithRules | yui/src/editor/js/clean.js:150-157 | the loop returns the fold of the rules over the content, and the content itself for an empty list |
| Rules.FilterCons | yui/src/editor/js/clean.js:150-157 | the first rule is applied first, to the input itself |
| Rules.FilterAppend | yui/src/editor/js/clean.js:150-157 | running two rule lists in turn is running their concatenation: strict list order, each rule on the previous output |
| Rules.FilterShorter | yui/src/editor/js/clean.js:150-157 | a list of rules none of which lengthens its input never lengthens the content |
| Rules.CleanRules | yui/src/editor/js/clean.js:103-136 | the twelve rules of `_cleanHTML`, in order, each no longer in its replacement than in what it matches |
| Rules.CleanHTMLShorter | yui/src/editor/js/clean.js:100-139 | `_cleanHTML` never returns a string longer than its input |
| Rules.OfficeRules | yui/src/editor/js/clean.js:300-314 | the six harsher rules of `_cleanPasteHTML`, none lengthening its input |
| Rules.AttributeRules | yui/src/editor/js/clean.js:336-347 | the five rules run on the browser-normalised paste, none lengthening its input |
| Rules.CleanPasteShorter | yui/src/editor/js/clean.js:293-356 | `_cleanPasteHTML` never lengthens its input when the browser round trip does not |
| Rules.CleanPasteBlank | yui/src/editor/js/clean.js:322-325 | markup that is blank after the first pass is returned without the browser round trip |
| Rules.Substr | yui/src/editor/js/clean.js:74 | `substr` returns a slice of the string from `start`, no longer than what is left of it |
| Rules.StripIdentity | yui/src/editor/js/clean.js:72-75 | with both paragraph markers empty the strip is the identity |
| Rules.GetCleanHTMLSpec | yui/src/editor/js/clean.js:43-79 | `getCleanHTML` gives `""` for `""` and `"<br>"`, and otherwise the cleaned markup, never longer than the input |
| Paste.PasteCleanup | yui/src/editor/js/clean.js:166-246 | `pasteCleanup` returns `false` exactly for a paste event with a clipboard, an HTML flavour and a `getData` that does not throw, and then inserts the cleaned markup |
| Paste.PasteFallback | yui/src/editor/js/clean.js:166-246 | the deferred fallback clean runs exactly for a missing clipboard, an unknown types interface, an Apple-only paste or a throwing `getData` |
| Offset.GetAdjustedOffset | yui/build/moodle-editor_ousupsub-plugin/moodle-editor_ousupsub-plugin-debug.js:1544-1557 | a missing or empty list leaves the offset unchanged; otherwise the loop returns the reference `Adjusted` (the module source has the same code at clean.js:780-793) |
| Offset.AdjustedBounds | yui/src/editor/js/clean.js:780-793 | the adjusted offset is never below the input and never beyond it plus all tag lengths |
| Offset.AdjustedPrefix | yui/src/editor/js/clean.js:780-793 | the adjusted offset skips exactly a prefix of the tags, each at or before the running offset, and stops at the first tag beyond it |
| Buttons.ButtonNaming | yui/build/moodle-editor_ousupsub-plugin/moodle-editor_ousupsub-plugin-debug.js:353-369 | the class is `ousupsub_<plugin>_button`, then `_<exec>` when set, then `_<buttonName>` when given; the default name is exec, else the plugin name |
| Buttons.PluginButtons.constructor | yui/build/moodle-editor_ousupsub-plugin/moodle-editor_ousupsub-plugin-debug.js:81-98 | a new plugin has no buttons, names or states |
| Buttons.PluginButtons.Register | yui/build/moodle-editor_ousupsub-plugin/moodle-editor_ousupsub-plugin-debug.js:454-456 | a new button is filed under its name and starts enabled, keeping the state map consistent |
| Buttons.PluginButtons.IsEnabled | yui/build/moodle-editor_ousupsub-plugin/moodle-editor_ousupsub-plugin-debug.js:978-985 | `isEnabled` is true exactly when some state is ENABLED |
| Buttons.PluginButtons.SetButtonState | yui/build/moodle-editor_ousupsub-plugin/moodle-editor_ousupsub-plugin-debug.js:1022-1041 | a known name gets the new state and `disabled` attribute; an unknown name changes nothing; no name sets every button of `buttonNames` |
| Buttons.NormalizeCallback | yui/build/moodle-editor_ousupsub-plugin/moodle-editor_ousupsub-plugin-debug.js:755-774 | a flagged config is returned untouched; otherwise `_callback` is the own or the inherited callback, `callback` the wrapper, and the flag is set |
| Buttons.IndexOf | yui/build/moodle-editor_ousupsub-plugin/moodle-editor_ousupsub-plugin-debug.js:960 | `indexOf` is -1 exactly for an absent element, otherwise the index of its first occurrence |
| Buttons.EventUsesExactKeyModifiers | yui/build/moodle-editor_ousupsub-plugin/moodle-editor_ousupsub-plugin-debug.js:952-970 | false for a non-`key` event; otherwise true exactly when each of alt, ctrl, meta and shift is pressed exactly when listed |
| Buttons.KeyPress | yui/build/moodle-editor_ousupsub-plugin/moodle-editor_ousupsub-plugin-debug.js:463-503 | 38 or 94 apply the text command 1, 40 or 95 apply -1, other codes none; only Enter has its default prevented |
| Prune.RemoveSingleNodesByName | yui/src/editor/js/clean.js:721-742 | the subtree of the container becomes the reference `PruneTree` of the old one; node by node, every node of the old subtree keeps exactly its children without the name, in their order (`KidsPruned`); only lists inside it change and the container keeps its place |
| Prune.PrunedOrder | yui/src/editor/js/clean.js:721-742 | by node id, two children that stay come in the order they had before the removal |
| Prune.UnnamedOrder | yui/src/editor/js/clean.js:732-741 | two survivors of a child list appear in the original list in the same order |
| Prune.PruneClean | yui/src/editor/js/clean.js:721-742 | after the removal no node below the container has the name |
| Prune.PruneFixed | yui/src/editor/js/clean.js:721-742 | the removal changes the subtree exactly when some node below the container has the name |
| Prune.PruneTwice | yui/src/editor/js/clean.js:721-742 | removing twice is removing once |
| Prune.PruneForest | yui/src/editor/js/clean.js:732-741 | the pruned list of children never holds more trees than the list it prunes |
| Unwrap.Removable | yui/src/editor/js/clean.js:683-690 | a node is unwrapped only when its name matches, and always then unless it is the selection-boundary span |
| Unwrap.OccursAt | yui/src/editor/js/clean.js:688 | `id.indexOf(mark) > -1` holds exactly when the mark is a slice of the id |
| Unwrap.MarkerKept | yui/src/editor/js/clean.js:686-690 | a span whose id contains `selectionBoundary_` is never unwrapped, whatever the name |
| Unwrap.RemoveNodesByName | yui/src/editor/js/clean.js:682-711 | the frame of what changes; a TypeError exactly for an unwrapped, parentless container with children; the splice of the children into the parent when nothing below is unwrapped; children that are kept and childless, or not unwrapped, stay |
| Unwrap.UnwrapChildren | yui/src/editor/js/clean.js:696-706 | the loop over the snapshot keeps its invariant to the end, or stops at the TypeError |
| Unwrap.UnwrapChild | yui/src/editor/js/clean.js:697-705 | one child: recursion when it has children, then, for an unwrapped container, the move before the container |
| Unwrap.UnwrappedLeaf | yui/src/editor/js/clean.js:698 | a childless node is not recursed into: nothing changes |
| Merge.MoveChildren | yui/src/editor/js/clean.js:632-640 | the children of `from` are appended to `to` in order; `from` is left empty |
| Merge.MergeNodes | yui/build/moodle-editor_ousupsub-plugin/moodle-editor_ousupsub-plugin-debug.js:1420-1434 | `to` keeps its children and gains those of `from` after them, in order; `from` leaves its parent; names and ids stay |
| Split.SplitParentNode | yui/src/editor/js/clean.js:652-670 | the pieces (a fresh `name` wrapper around each other child, the first child of each `name` child) end up at the end of the parent, in order; a TypeError exactly for a `name` child without children or a parentless container with children |
| Split.SplitChildren | yui/src/editor/js/clean.js:658-669 | the loop reaches the end with every child split off, or stops at the TypeError |
| Split.SplitTurn | yui/src/editor/js/clean.js:659-668 | one child is split off, or the turn throws exactly when the child is a childless `name` element or the container has no parent |
| Split.TakePiece | yui/src/editor/js/clean.js:660-666 | the piece of a `name` child is its first child, with nothing changed; any other child moves into a fresh `name` element |
| Split.NoFirst | yui/src/editor/js/clean.js:661 | a childless `name` child makes `appendChild(null)` throw |
| Normalise.Query | yui/src/editor/js/clean.js:569-572 | `querySelectorAll(name)` holds exactly the nodes with that name strictly below the root, in document order (the named nodes of the walk `Order.Below`), each once |
| Normalise.QueryAll | yui/src/editor/js/clean.js:569-572 | the same for the subtrees of a list of siblings: the named nodes of their walk, in order |
| Order.BelowMembers | yui/src/editor/js/clean.js:569 | the document-order walk below a node visits exactly the nodes strictly below it |
| Order.BelowSplit | yui/src/editor/js/clean.js:569 | document order: the walk below a node is the walk of its earlier children, then the child, the walk below it, and the walk of the later children |
| Order.BelowDistinct | yui/src/editor/js/clean.js:569 | in a well-formed tree the walk meets no node twice |
| Order.OfNameMembers | yui/src/editor/js/clean.js:569 | picking the nodes with a name keeps exactly the members with that name |
| Order.PrevKept | yui/src/editor/js/clean.js:612-615 | a merge changes the previous sibling only of the merged node, of its first child and of its next sibling |
| Order.MergeKeeps | yui/src/editor/js/clean.js:609-616 | one turn of the merging pass: the nodes already passed keep no previous sibling with the name, and the named nodes still ahead are the rest of the snapshot |
| Order.RunsGone | yui/src/editor/js/clean.js:601-616 | once the pass has met every named node below the root, no named node there has a named previous sibling |
| Order.MergeThins | yui/src/editor/js/clean.js:612-615 | one merge drops the merged node, and nothing else, from the walk below the root; only its children change parent, and they now hang from the named previous sibling (`Regrouped`) |
| Order.ThinnedOthers | yui/src/editor/js/clean.js:601-616 | a walk from which only named nodes were dropped holds every node without the name, in the same order |
| Order.ThinnedStays | yui/src/editor/js/clean.js:601-616 | a node without the name is never dropped from a thinned walk |
| Normalise.PrevIs | yui/src/editor/js/clean.js:612 | `previousSibling` is the previous sibling `Order.Prev` of the tree model |
| Normalise.DenestPlan | yui/src/editor/js/clean.js:583-590 | in the split form the parent is unwrapped exactly when it has the name, and split first unless the node is its only child; in the first-child form only a first child takes its parent along |
| Normalise.PlanAlone | yui/build/moodle-editor_ousupsub-plugin/moodle-editor_ousupsub-plugin-debug.js:1381-1388 | in both forms a node whose parent has another name is unwrapped alone |
| Normalise.PlanAgree | yui/build/moodle-editor_ousupsub-plugin/moodle-editor_ousupsub-plugin-debug.js:1381-1383 | the two forms decide alike exactly when the parent has another name or the node is its only child |
| Normalise.DenestTurn | yui/src/editor/js/clean.js:577-596 | a detached node throws on `null.firstChild`; a node directly below the root is skipped; a node whose parent stays is unwrapped alone |
| Normalise.Denest | yui/src/editor/js/clean.js:576-597 | the de-nesting pass over the snapshot keeps the tree well formed and the set of nodes in the store |
| Normalise.MergeTurn | yui/src/editor/js/clean.js:610-615 | a node whose previous sibling has the name is merged into it (`Order.MergedInto`: its children appended to the sibling, itself detached); otherwise nothing changes |
| Normalise.MergeNext | yui/src/editor/js/clean.js:609-616 | one turn of the pass keeps the pass state `Pass`: names, ids and nodes kept, only snapshot nodes detached, passed nodes without a named previous sibling |
| Normalise.PassOn | yui/src/editor/js/clean.js:609-616 | the pass state after a turn that merged the node or left the tree as it was |
| Normalise.WalkOn | yui/src/editor/js/clean.js:609-616 | after a turn the walk below the root is the first walk less the merged nodes, all named, and only nodes adopted by a named node changed parent |
| Normalise.MergeSiblings | yui/src/editor/js/clean.js:601-616 | the merging pass keeps names, ids and nodes; only named nodes of the root's subtree lose their parent; the walk below the root is the old walk less some named nodes (`Order.Thinned`), so every other node stays in order; a node that changes parent is adopted by a named node (`Order.Regrouped`); afterwards no named node below the root has a named previous sibling |
| Normalise.NormaliseTagInTextarea | yui/src/editor/js/clean.js:558-616 | the merging pass runs after the de-nesting pass unless that threw; the tree stays well formed; when nothing threw, the document after de-nesting (`mid`) holds every old node and the result is `MergePassed` from it: no named runs, the walk thinned only of named nodes, regrouping only under named nodes |
| Normalise.MergeKeepsContent | yui/src/editor/js/clean.js:601-616 | after the merging pass every node below the root without the name is still below it, and those nodes keep their tree order |
| Normalise.TagsToRemove | yui/src/editor/js/clean.js:443 | the tags unwrapped before `sup` and `sub`; `span` is among them only in the built plugin |
| Normalise.Steps | yui/src/editor/js/clean.js:440-449 | the step order: `br` removal, the unwrapping of each tag of `TagsToRemove`, `sup`, `sub`, and in the module source a last unwrapping of `span` (the built plugin: debug.js:1216-1224) |
| Normalise.RunPrune | yui/src/editor/js/clean.js:440 | the `br` removal is recorded as a step whose effect is `Prune.Pruned` |
| Normalise.RunUnwrap | yui/src/editor/js/clean.js:445 | an unwrapping is recorded as a step whose effect is `Unwrap.Unwrapped`, failing exactly as `_removeNodesByName` does |
| Normalise.RunTag | yui/src/editor/js/clean.js:447-448 | a tag normalisation is recorded as a step that keeps the nodes and, unless it threw, ends with a merging pass (`MergePassed`) from a document holding every old node |
| Normalise.UnwrapTags | yui/src/editor/js/clean.js:443-446 | the loop runs the unwrapping steps in list order and stops at the first TypeError |
| Normalise.FinishTags | yui/src/editor/js/clean.js:447-449 | `sup`, then `sub`, then (module source) `span`, each only if the previous step did not throw |
| Normalise.NormaliseTextarea | yui/src/editor/js/clean.js:430-456 | the ghost trace runs from the document before to the document after, each step of `Steps` taking one document to the next with its stated `Effect`; every recorded step but the last succeeded, and a success runs all steps |

## Left out

- The browser `innerHTML` parse and serialise round trip is a parameter
  (`reparse`) of `_cleanPasteHTML`. `cleanEditorHTML` is not modelled as a
  step of `NormaliseTextarea`, because it rebuilds the tree from markup. The
  pipeline starts from the tree that results.
- The regular-expression engine is not modelled. The non-literal rules are
  abstract functions, known only not to lengthen their input.
- rangy `saveSelection`/`restoreSelection`, `document.execCommand`, Range
  objects, `Y.soon` deferrals, Handlebars templates, focus and tab handling,
  `M.util.get_string` and browser sniffing are foreign or asynchronous. They
  are left out. The paste handler records the deferrals as an outcome tag.
- `getCleanHTML` works on a clone, so its edits of that clone cannot reach the
  live editor: removing YUI ids, selection nodes and controls. They are left
  out. The model starts from the serialised markup of the clone.
- `editor_node.normalize()`, the merging of adjacent text nodes, is left out,
  because text content is not modelled.
- `_applyTextCommand` is left out (it goes through `execCommand`). So are the
  extra key listeners that `_addKeyboardListener` wires up.
- Buttons.KeyPress: models the handling of one key event by one listener.
  `addButton` calls `_preventEnter` and `_handle_key_press` on every call
  (debug.js:448-452), so a plugin with several buttons has several listeners,
  and one arrow key press applies the text command once per button. Listener
  registration is not modelled.
- `_getSelectedNodes` and the code after the early `return` in
  `_normaliseTextareaAndGetSelectedNodes` are left out, because they are
  unreachable.
- Unwrap.RemoveNodesByName: the general outcome is not stated. When a
  same-named child with content is re-inserted, its moved grandchildren leave
  with the container. The contract covers the frame, the error condition,
  the splice case and the kept children.
- Normalise.NormaliseTagInTextarea: the claim that no same-named nesting
  remains is not stated. The de-nesting pass can throw: a node of the
  snapshot may already have been detached by an earlier turn, and then
  `parentNode.firstChild` reads `null`. When it does not throw, what it
  leaves is stated only as a well-formed tree with the same nodes in the
  store. For the merging pass that follows it, the contract states that no
  named node keeps a named previous sibling, that only named nodes leave the
  walk below the root and every other node keeps its order, and that a node
  changing parent is adopted by a named node. It does not state which named
  node each merged node joined.
- Normalise.Denest: the effect of a turn that also unwraps or splits the
  parent is stated only as well-formedness. The parts are stated by
  `Split.SplitParentNode` and `Unwrap.RemoveNodesByName`.
- Normalise.NormaliseTextarea: the effect of a `sup` or `sub` step is
  stated as the contract of `NormaliseTagInTextarea` gives it, which leaves
  out the de-nesting result.
- The bookkeeping rank in `Dom` is not part of the DOM. It stands in for the
  DOM's hierarchy check that a node is never appended below itself.
- Normalise.DenestTurn: when the parent is unwrapped or split as well, the
  contract states only well-formedness and that the set of nodes in the
  store does not shrink.
- The characters of a text node are not modelled. A text node is a node named
  `#text`. The selection-boundary span is recognised by its id.
