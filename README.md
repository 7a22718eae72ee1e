# Tree editor core, modelled in Dafny

This project models the tree-mutation and identity layer of a browser editor for
trees of tasks. The tree is a rooted structure of `{name, children}` objects.
`d3.hierarchy` wraps each object in a hierarchy node that carries the visible child
list (`children`), the list parked by a collapse (`_children`), a render `id`, the
`depth`, the layout position `x`/`y` and the position `x0`/`y0` remembered from the
previous render pass.

Two revisions of the renderer are modelled side by side.

- **`TreeRenderer`** (current revision). This is a class holding the selected node,
  the id counter `i` and the hierarchy. It supports:
  - adding a placeholder child `Edit Task k+1` to the selected node;
  - deleting the selected non-root node from its parent's data, comparing by
    reference;
  - changing the selection.

  Adding and deleting call the `setData` callback with a shallow copy of the root
  data. All three operations draw the tree again; changing the selection makes no
  callback.
- **`D3Container`** (earlier revision). The same drawing is done by closures inside
  one React effect. It differs from the current revision in five ways:
  - there is no selection;
  - there is no `deleteNode`;
  - circles are painted only when they enter;
  - `addChildNode(parentNode)` works on the node that was clicked;
  - the rename stores the typed text untrimmed.

The render pass shared by both revisions lives in `RenderPass`:

- `y = depth * 180`;
- one id per node from the counter, given once (`d.id || (d.id = ++i)`);
- the enter/update/exit join of nodes and links, keyed by id (a link is keyed by its
  target's id);
- the circle fill rule;
- the elbow connectors;
- the closing `x0, y0 := x, y` snapshot.

The rest is split over six more modules:

- `TreeUtility`: collapse/expand (`toggleNode`) and the connector path
  (`createDiagonalPath`, a record of four points).
- `NodeEditor`: the inline rename of the current revision. It has JavaScript's
  `String.prototype.trim` over the ECMAScript WhiteSpace and LineTerminator code
  points, the commit rule, and the commit on blur or on Enter.
- `Hierarchy`: the two node classes, the shared data edit of `addChildNode`, and
  id/distinctness helpers.
- `NatLists`: lists of natural numbers (the values in a range of positions, and the
  absence of repeats), which the id and key lists are.
- `Decimal`: the decimal numeral inside `Edit Task ${n}`.
- `Optional`: the `Option` type, used for a child list that may be absent.

Modelling choices:

- **Node objects are Dafny classes.** Both kinds of node, data nodes and hierarchy
  nodes, are compared by reference and updated in place.
- **`setData` is an effect log:** `effects`, one snapshot per call.
- **The drawing surface is a value.** It holds the painted circle of every rendered
  id, the ids of the rendered links, and what the last pass did: the two joins,
  where entering shapes start and exiting shapes go, and the connector of every link.
- **The id counter is tied to the nodes holding the ids.** A ghost map records, for
  every id, which node received it. `IdsIssued` states that the ids issued are
  exactly `1..i` and that each node holds either no id or the id it was given.
- **The layout library is outside the model.** `d3.tree`, `descendants()` and
  `links()` are foreign, so callers pass `nodes` (the visible nodes, root first) and
  `layoutX` (the tidy-layout coordinate). `Descendants` states what the renderer
  relies on about that list.

## Model

| member | source | states |
|---|---|---|
| Decimal.NatToString | src/TreeRenderer.js:144-146 | the `${n}` rendering of a count: digits only, a leading `0` exactly for zero, one digit exactly below ten |
| Decimal.ParseNatToString | src/TreeRenderer.js:144-146 | reading the numeral back gives the count |
| Decimal.TaskName | src/TreeRenderer.js:145-147 | a placeholder name is `Edit Task ` followed by the numeral of the count |
| Decimal.TaskNameInjective | src/TreeRenderer.js:144-147 | two placeholder names are equal exactly when their counts are, and the count can be read back from the name |
| Decimal.FirstTaskNames | src/TreeRenderer.js:146 | the first child is named `Edit Task 1`, the twelfth `Edit Task 12` |
| Hierarchy.AppendTask | src/TreeRenderer.js:140-149 | an absent child list becomes empty; then one fresh leaf named `Edit Task k+1` (k = the earlier count) is appended; the earlier children stay, in order |
| Hierarchy.DistinctPairwise | src/TreeRenderer.js:42 | a list of hierarchy nodes without repeats has pairwise different entries |
| Hierarchy.SnapshotOf | src/TreeRenderer.js:150 | `{ ...this.data }` (also line 171, and src/D3Container.js:182): the copy handed to `setData` carries the root data's name and its child list |
| TreeUtility.Toggled | src/TreeUtility.js:1-9 | a visible list moves to `_children` and `children` is cleared; otherwise `_children` moves back and is cleared; a leaf stays a leaf; the result never holds two lists |
| TreeUtility.ToggleNode | src/TreeUtility.js:1-9 | the in-place toggle: the node's lists become the toggle rule applied to the old ones; only `children` and `_children` may change |
| TreeUtility.ToggleTwice | src/TreeUtility.js:1-9 | toggling twice restores both lists exactly when they did not both hold a sequence |
| TreeUtility.CollapseExpandRestoresChildren | src/TreeUtility.js:2-8 | collapsing and expanding an expanded node gives back the identical `children` sequence, with `_children` cleared |
| TreeUtility.ToggleKeepsChildren | src/TreeUtility.js:1-9 | a toggle neither loses nor adds a child sequence |
| TreeUtility.DiagonalPath | src/TreeUtility.js:11-16 | `createDiagonalPath` (and the earlier revision's `diagonal`, src/D3Container.js:124-129): the connector starts at `(s.y, s.x)` and ends at `(d.y, d.x)`; it leaves and arrives horizontally, with both control points halfway along the depth axis |
| TreeUtility.DiagonalToSelf | src/TreeRenderer.js:108-110 | the connector from a point to itself is degenerate: four identical points, at that point |
| TreeUtility.DiagonalSymmetric | src/TreeUtility.js:11-16 | drawing from `d` to `s` gives the same curve as from `s` to `d`, reversed |
| TreeUtility.DegenerateIsStationary | src/TreeRenderer.js:119-123 | every point of a degenerate connector is its start point |
| TreeUtility.DiagonalEndpointsAndMidpoint | src/TreeUtility.js:11-16 | the curve passes `s` at t = 0, `d` at t = 1, and the midpoint of the two at t = 1/2 |
| RenderPass.ChildOneLevelFurther | src/TreeRenderer.js:45 | after the layout step the root's `y` is 0, and every other visible node's `y` is its parent's plus 180 |
| RenderPass.PlaceNodes | src/TreeRenderer.js:41-45 | every visible node gets the layout's `x` and `y = depth * 180` |
| RenderPass.SnapshotPositions | src/TreeRenderer.js:126-129 | every visible node ends with `x0 = x` and `y0 = y` |
| RenderPass.IssuedIdsDistinct | src/TreeRenderer.js:47-48 | two hierarchy nodes that hold the same non-zero id are the same node |
| RenderPass.CounterIsLargestId | src/TreeRenderer.js:47-48 | no node holds an id above `i`, and a positive `i` is the id of a node: the largest id issued |
| RenderPass.VisibleIdsDistinct | src/TreeRenderer.js:47-48 | visible nodes that all hold ids hold pairwise different ones |
| RenderPass.JoinKeys | src/TreeRenderer.js:47-50 | entering keys are the visible keys without a shape; exiting keys are the rendered keys that are no longer visible; updating keys are the rest |
| RenderPass.RejoinIsQuiet | src/TreeRenderer.js:47-50 | joining the same ids again enters nothing and removes nothing |
| RenderPass.Restrict | src/TreeRenderer.js:99-101 | removing the exiting shapes keeps exactly the shapes whose key stays, unchanged |
| RenderPass.FillRule | src/TreeRenderer.js:96-97 | the selected node gets the selection fill; otherwise a node with `_children` is shaded, and any other node is plain (each case both ways) |
| RenderPass.ColoursDiffer | src/TreeRenderer.js:67 | `#89CFF0`, `lightsteelblue` and `#fff` are pairwise different, so the fill can be read from the colour |
| RenderPass.LinkKeysAreNonRootKeys | src/TreeRenderer.js:103-104 | links are keyed by every node id except the root's |
| RenderPass.ViewsCarryIds | src/TreeRenderer.js:47-48 | the join keys of a pass are the nodes' ids, in order, whatever the selection |
| RenderPass.PaintCircles | src/TreeRenderer.js:96-97 | the circles of the targeted keys get their node's fill; every other circle keeps its own |
| RenderPass.RouteLinks | src/TreeRenderer.js:116-117 | every link, keyed by its target, gets the connector from its parent's position to its own |
| RenderPass.NodeShapes | src/TreeRenderer.js:64-101 | after the node join there is exactly one circle per visible id, each painted by the fill rule, and the join itself is the one computed by `JoinKeys` |
| RenderPass.Draw | src/TreeRenderer.js:90-124 | the surface after a pass: circles and links for exactly the visible ids and the non-root ids; both joins; entering links start collapsed at the source's old position; exiting links collapse to its new one; steady-state connectors |
| TreeRenderer.Without | src/TreeRenderer.js:164 | `filter(child => child !== target)`: the deleted object no longer occurs, every other entry still does, and the list gets no longer |
| TreeRenderer.WithoutKeepsOthers | src/TreeRenderer.js:164 | the filter drops every entry that is the deleted object and keeps every other entry as often as before |
| TreeRenderer.WithoutConcat | src/TreeRenderer.js:164 | filtering works piecewise, so the siblings that stay keep their order |
| TreeRenderer.WithoutAbsent | src/TreeRenderer.js:164 | a list without the deleted object is left as it is |
| TreeRenderer.WithoutSingle | src/TreeRenderer.js:164 | deleting one child from among its siblings leaves the siblings before and after it, in order |
| TreeRenderer.Renderer.constructor | src/TreeRenderer.js:6-38 | the counter starts at 0 with nothing selected and no callback made; the root starts at `(250, 0)`; after the first pass every visible node is entering and is drawn from there |
| TreeRenderer.Renderer.Update | src/TreeRenderer.js:40-130 | one pass: ids (kept when present, fresh above the old counter otherwise, pairwise distinct), `y = depth*180`, the snapshot, the surface as `Draw` describes it, and a quiet join (nothing entering or exiting) when the surface already showed exactly these ids; selection and callback log untouched |
| TreeRenderer.Renderer.Paint | src/TreeRenderer.js:90-124 | the drawing step: the surface shows the views of the laid-out nodes, with every circle painted by the fill rule under the current selection |
| TreeRenderer.Renderer.Arrange | src/TreeRenderer.js:41-129 | the layout and the snapshot, which change neither the ids nor the renderer's own state |
| TreeRenderer.Renderer.Issue | src/TreeRenderer.js:48 | `++this.i` assigned to a node without an id: the counter goes up by one and the node holds the new value |
| TreeRenderer.Renderer.AssignIds | src/TreeRenderer.js:47-48 | the key function over the visible nodes: afterwards each holds an id of at least 1; the ones that had an id keep it; the others get ids above the old counter |
| TreeRenderer.Renderer.GiveIds | src/TreeRenderer.js:47-48 | as `AssignIds`, and after it the visible ids are pairwise distinct |
| TreeRenderer.Renderer.SetSelectedNode | src/TreeRenderer.js:175-178 | the selection becomes the given node (or none); the tree is redrawn with fills for that selection; no callback is made; held ids are kept, and a redraw over an unchanged set of visible ids enters and removes no node or link |
| TreeRenderer.Renderer.Publish | src/TreeRenderer.js:150-151 | exactly one callback, with the top-level fields of the root data, then a redraw, quiet for nodes and links when the visible ids did not change; every id a node held before is kept, and every id issued before stays with its node |
| TreeRenderer.Renderer.AddChildNode | src/TreeRenderer.js:132-152 | without a selection: rejected, no state changes and no callback; otherwise the selected node's data ends with its old children plus one fresh placeholder `Edit Task k+1`, with exactly one callback; every id a node held before is kept, and every id issued before stays with its node |
| TreeRenderer.Renderer.AppendToSelected | src/TreeRenderer.js:138-151 | the applied path of `addChildNode`: the data edit, one callback and the redraw; every id a node held before is kept, and every id issued before stays with its node |
| TreeRenderer.Renderer.DeleteNode | src/TreeRenderer.js:154-173 | without a selection, or with the root selected: rejected, no state changes and no callback; otherwise the deletion described by `CutSelected`; every id a node held before is kept, and every id issued before stays with its node |
| TreeRenderer.Renderer.CutSelected | src/TreeRenderer.js:160-172 | the parent's data children become the old ones without the deleted data object; the selection is cleared; one callback; after the last pass no node and no link enters or exits; every id a node held before is kept, and every id issued before stays with its node |
| TreeRenderer.Renderer.Unselect | src/TreeRenderer.js:170-172 | the close of `deleteNode`: the selection is cleared, exactly one callback with the top-level fields of the root data, and after the last redraw no node and no link enters or exits; every id a node held before is kept, and every id issued before stays with its node |
| NodeEditor.SkipBlanks | src/NodeEditor.js:42 | the first position from `lo` on that is not blank |
| NodeEditor.BackBlanks | src/NodeEditor.js:42 | the end of the last stretch before `hi` that is not blank |
| NodeEditor.Trim | src/NodeEditor.js:42 | `trim()` leaves no blank at either end, and leaves nothing exactly when the text is all blank |
| NodeEditor.TrimIsInfix | src/NodeEditor.js:42 | the trimmed text is a slice of the input with only blanks around it |
| NodeEditor.TrimTrimmed | src/NodeEditor.js:42 | a text without blanks at its ends is left as it is |
| NodeEditor.TrimIdempotent | src/NodeEditor.js:42 | trimming twice is trimming once |
| NodeEditor.TrimPadded | src/NodeEditor.js:42 | blanks typed around a trimmed text are all removed again |
| NodeEditor.CommitRule | src/NodeEditor.js:41-51 | the caption gets the trimmed text; the name gets it too when it is not empty, and keeps its prior value when the text is all blank |
| NodeEditor.CommitDiverges | src/NodeEditor.js:42-50 | caption and name differ exactly when an all-blank text is committed over a non-empty name |
| NodeEditor.CommitKeepsNameNonBlank | src/NodeEditor.js:43-45 | a commit never blanks a name that was not blank |
| NodeEditor.CommitIdempotent | src/NodeEditor.js:41-51 | committing what the caption shows, over the name the commit left, changes nothing |
| NodeEditor.UneditedCommit | src/NodeEditor.js:10-45 | opening the editor and leaving it without typing changes the name exactly when the name is not blank and has blanks at an end |
| NodeEditor.CommitIgnoresPadding | src/NodeEditor.js:42-45 | `"  Buy milk  "` commits as `"Buy milk"`: blanks around a text are not stored |
| NodeEditor.InlineEditor.Open | src/NodeEditor.js:8-22 | the editor's text starts as the node's current name |
| NodeEditor.InlineEditor.Edit | src/NodeEditor.js:22 | typing replaces the editor's text |
| NodeEditor.InlineEditor.Blur | src/NodeEditor.js:41-51 | the name and the caption become what `CommitRule` gives for the old name and the typed text; the editor leaves the document; the node's child list is untouched |
| NodeEditor.InlineEditor.KeyDown | src/NodeEditor.js:54-58 | Enter commits exactly as a blur does; any other key changes nothing |
| D3Container.Toggle | src/D3Container.js:132-140 | the same collapse/expand rule as `toggleNode`, so `ToggleTwice` applies to it |
| D3Container.EnterShapes | src/D3Container.js:48-94 | one circle per visible id; entering circles painted by the fill rule (which without a selection is only the hidden-children test); staying circles keep the fill they had |
| D3Container.EnterDraw | src/D3Container.js:48-117 | the pass of this revision: as in the current one, with the same connectors (`diagonal` at 124-129), except that staying circles are not repainted |
| D3Container.EnterDrawnFillsFit | src/D3Container.js:55-58 | after a pass every circle shows the fill of the rule exactly when every staying circle already showed it |
| D3Container.StaleFillAfterCollapse | src/D3Container.js:58 | a circle drawn plain whose node has since been collapsed stays plain after the pass instead of being shaded |
| D3Container.RawCommit | src/D3Container.js:154-157 | the typed text, untrimmed, becomes both the name and the caption |
| D3Container.CommitRevisionsAgree | src/D3Container.js:154-157 | the two revisions commit the same thing exactly when the typed text has no blank at either end and is non-empty, or is empty over an empty name |
| D3Container.RawCommitStoresBlank | src/D3Container.js:155-156 | this revision stores a blank name where the later one keeps the old name |
| D3Container.RawEditor.Open | src/D3Container.js:142-153 | the input's text starts as the node's current name |
| D3Container.RawEditor.Edit | src/D3Container.js:153 | typing replaces the input's text |
| D3Container.RawEditor.Blur | src/D3Container.js:154-159 | the name and the caption become the typed text exactly as typed; the node's child list is untouched |
| D3Container.RawEditor.KeyDown | src/D3Container.js:160-164 | Enter commits exactly as a blur does; any other key changes nothing |
| D3Container.Container.constructor | src/D3Container.js:16-36 | the counter starts at 0; the root starts at `(250, 0)`; after the first pass every visible node is entering and every circle shows the fill of the rule |
| D3Container.Container.Update | src/D3Container.js:41-130 | one pass: ids kept or fresh and pairwise distinct, `y = depth*180`, the snapshot, the surface as `EnterDraw` describes it; the callback log untouched |
| D3Container.Container.Paint | src/D3Container.js:88-117 | the drawing step of this revision over the laid-out nodes |
| D3Container.Container.Arrange | src/D3Container.js:42-122 | the layout and the snapshot, which change neither the ids nor the counter |
| D3Container.Container.Issue | src/D3Container.js:49 | `++i` assigned to a node without an id: the counter goes up by one and the node holds the new value |
| D3Container.Container.AssignIds | src/D3Container.js:48-49 | the key function over the visible nodes: afterwards each holds an id of at least 1; the ones that had an id keep it; the others get ids above the old counter |
| D3Container.Container.GiveIds | src/D3Container.js:48-49 | as `AssignIds`, and after it the visible ids are pairwise distinct |
| D3Container.Container.Publish | src/D3Container.js:182-183 | exactly one callback, with the top-level fields of the data, then a redraw; every id a node held before is kept, and every id issued before stays with its node |
| D3Container.Container.AddChildNode | src/D3Container.js:170-184 | with no selection involved, the clicked node's data ends with its old children plus one fresh placeholder `Edit Task k+1`; exactly one callback; then a redraw; every id a node held before is kept, and every id issued before stays with its node |

## Left out

- `src/D3Component.js` is not part of this model. It is React state and `localStorage`
  persistence glue.
- **DOM and SVG construction** is left out: element creation, CSS, `foreignObject`,
  text areas, bounding-box sizing, focus and `removeChild`. The caption of a node is
  modelled only as the text the editor writes to it.
- **Transitions and durations** are left out. The model keeps the animation targets:
  - entering nodes and links start at the old position of `source`;
  - exiting ones go to its new position;
  - staying ones go to their own position.
- **The stroke colour and the label placement** are left out: the stroke colour and
  the text offset and anchor that entering nodes get.
- **The layout library is foreign.** `d3.hierarchy`, `d3.tree`, `descendants()` and
  `links()` are outside the model.
  - The visible node list and the layout `x` are parameters.
  - `Descendants` assumes only the following: the root is first, no node repeats, and
    every other node's parent is listed one level above it. Reachability through
    `children` is not stated.
  - The hierarchy is not rebuilt after a data edit. A new child therefore stays
    invisible until the host creates the renderer again, so the model claims nothing
    about its visibility.
- **Event wiring is left out:** the click, double-click, blur and keydown listeners.
  - Each handler is a method called directly.
  - A toggle handler is `ToggleNode` (or `Toggle`) followed by `Update` from the
    toggled node.
  - The user's typing is the `Edit` method.
  - `Blur` and `KeyDown` require the editor to be attached, because a removed text
    area receives no more events.
  - The newline that Enter would insert into the text area is not modelled.
- **`console.error` is not modelled.** A rejected edit returns `Rejected(reason)`
  instead of logging.
- **The `setData` re-render cycle is not modelled.** `setData` only appends its
  argument to `effects`. What React does with it afterwards is not modelled, and
  neither is the reset of the earlier revision's counter `let i = 0` on every render:
  `Container` is one run of the effect.
- **Ids are unbounded naturals.** JavaScript numbers are exact only up to 2^53, which
  no editing session reaches.
- TreeRenderer.Renderer.Update: ids are given before the layout and the snapshot is taken before
  the drawing step. The source computes `y` first and snapshots last. The drawing
  step reads the source's old position, captured at the start of the pass, so the
  order of these independent steps does not change the result.
- TreeRenderer.Renderer.DeleteNode: requires that the parent of a selected non-root
  node has a child list. The source would throw on an absent one, but a node with a
  parent was built from its parent's `children`, which deletion only ever replaces by
  another list.
- A rename changes the data in place without a callback: neither revision's rename
  calls `setData`. In the current revision a blank rename clears the caption and keeps
  the name; the earlier revision stores even a blank name.
- Hierarchy.AppendTask: replaces the parent's child list by a longer list instead of
  pushing into the array in place. Each `effects` entry therefore freezes the root's
  child list as it was at that call. In the source, the shallow copy `{...data}` shares
  the live `children` array, so a later `push` into the root's list also shows in an
  earlier copy. The model does not capture that aliasing.

## Findings

| source | as written | input that shows it | evidently intended | confidence | as-written member | corrected member |
|---|---|---|---|---|---|---|
| src/D3Container.js:55-58 | the fill is set only on entering circles, so a circle already drawn keeps its old fill | a drawn, expanded node with children is clicked: `toggle(d)` collapses it, `update(d)` puts its circle in the update selection, and the circle stays `#fff` | every circle shows `lightsteelblue` exactly when its node has hidden children. The later revision repaints the merged circles at src/TreeRenderer.js:96-97 | medium, not executed | D3Container.StaleFillAfterCollapse | RenderPass.NodeShapes |
