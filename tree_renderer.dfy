/**
 * The renderer of the current revision: the selection, the id counter, the
 * rendered shapes and the three structural operations: add a child to the
 * selected node, delete the selected node, change the selection. The change
 * callback `setData` is an effect log: every call appends the snapshot it was
 * given to `effects`.
 */
module TreeRenderer {
  import opened Optional
  import opened Hierarchy
  import opened TreeUtility
  import opened RenderPass

  // ---------------------------------------------------------------------------
  // Removing a child by reference

  /** `s.filter(child => child !== target)`: the entries of `s` that are not the object `target`, in order. */
  function Without(s: seq<DataNode>, target: DataNode): (r: seq<DataNode>)
    ensures target !in r && |r| <= |s|
    ensures forall c :: c in s && c != target ==> c in r
  {
    if s == [] then [] else (if s[0] == target then [] else [s[0]]) + Without(s[1..], target)
  }

  /**
   * The filter keeps exactly the entries other than `target`: each as often as
   * before, and `target` not at all.
   */
  lemma {:induction false} WithoutKeepsOthers(s: seq<DataNode>, target: DataNode)
    ensures forall c :: c in Without(s, target) <==> c in s && c != target
    ensures multiset(Without(s, target)) == multiset(s)[target := 0]
    ensures |Without(s, target)| == |s| - multiset(s)[target]
  {
    if s != [] {
      WithoutKeepsOthers(s[1..], target);
      assert s == [s[0]] + s[1..];
    }
  }

  /** Filtering works piecewise, so the siblings that stay keep their order. */
  lemma {:induction false} WithoutConcat(a: seq<DataNode>, b: seq<DataNode>, target: DataNode)
    ensures Without(a + b, target) == Without(a, target) + Without(b, target)
    decreases |a|
  {
    if a == [] {
      assert a + b == b;
    } else {
      var ab := a + b;
      assert ab != [] && ab[0] == a[0] && ab[1..] == a[1..] + b;
      WithoutConcat(a[1..], b, target);
      var head := if a[0] == target then [] else [a[0]];
      calc {
        Without(ab, target);
        head + Without(a[1..] + b, target);
        head + (Without(a[1..], target) + Without(b, target));
        (head + Without(a[1..], target)) + Without(b, target);
        Without(a, target) + Without(b, target);
      }
    }
  }

  /** A list in which `target` does not occur is left as it is. */
  lemma {:induction false} WithoutAbsent(s: seq<DataNode>, target: DataNode)
    requires target !in s
    ensures Without(s, target) == s
  {
    if s != [] {
      WithoutAbsent(s[1..], target);
    }
  }

  /** Deleting one child from the middle of its siblings leaves the others around it. */
  lemma WithoutSingle(before: seq<DataNode>, target: DataNode, after: seq<DataNode>)
    requires target !in before && target !in after
    ensures Without(before + [target] + after, target) == before + after
  {
    assert [target][1..] == [];
    assert Without([target], target) == [];
    calc {
      Without(before + [target] + after, target);
      { WithoutConcat(before + [target], after, target); }
      Without(before + [target], target) + Without(after, target);
      { WithoutConcat(before, [target], target); }
      Without(before, target) + Without([target], target) + Without(after, target);
      { WithoutAbsent(before, target); WithoutAbsent(after, target); assert before + [] == before; }
      before + after;
    }
  }

  // ---------------------------------------------------------------------------
  // The renderer

  /** Where the root is drawn before the first layout. */
  const RootX0: real := 250.0
  const RootY0: real := 0.0

  class Renderer {
    /** `this.data`: the root of the persisted tree. */
    const data: DataNode
    /** `this.root`: the hierarchy built over `data`. */
    const root: HNode
    /** `this.i`: the id counter. */
    var i: nat
    /** `this.selectedNode`. */
    var selected: HNode?
    /** The snapshots passed to `setData`, oldest first. */
    var effects: seq<Snapshot>
    /** The drawing surface: rendered circles, rendered connectors and the last pass. */
    var surface: Surface
    /** The hierarchy's nodes. */
    ghost const Hier: set<HNode>
    /** `Issued[id]` is the node that received `id`. */
    ghost var Issued: map<nat, HNode>

    ghost predicate Valid()
      reads this`i, this`Issued, this`selected, Hier`id
    {
      && IdsIssued(Hier, i, Issued)
      && (selected != null ==> selected in Hier)
    }

    /**
     * `new TreeRenderer(container, data, setData)`: clears the surface, places
     * the root of the freshly built hierarchy `hier` at its start position and
     * renders once.
     */
    constructor (data: DataNode, root: HNode, ghost hier: set<HNode>, nodes: seq<HNode>, layoutX: seq<real>)
      requires root in hier && root.data == data && root.parent == null && root.depth == 0
      requires forall n :: n in hier ==> n.id == 0
      requires Descendants(root, nodes) && (forall k :: 0 <= k < |nodes| ==> nodes[k] in hier) && |layoutX| == |nodes|
      modifies nodes`x, nodes`y, nodes`x0, nodes`y0, nodes`id
      ensures Valid() && Hier == hier && this.data == data && this.root == root
      ensures selected == null && effects == []
      ensures Shown(surface, nodes, layoutX, selected)
      ensures surface.pass.nodes.entering == IdsOf(nodes) && surface.pass.enterFrom == Point(RootX0, RootY0)
    {
      this.data := data;
      this.root := root;
      i := 0;
      selected := null;
      effects := [];
      surface := Blank;
      Hier := hier;
      Issued := map[];
      new;
      root.x0 := RootX0;
      root.y0 := RootY0;
      Update(root, nodes, layoutX);
    }

    /**
     * `update(source)`: lays out `nodes` (the visible nodes, as the layout
     * library lists them; `layoutX` is its across-tree coordinate), gives ids,
     * joins the nodes and links against the rendered shapes by id, paints the
     * circles and snapshots the positions.
     */
    method Update(source: HNode, nodes: seq<HNode>, layoutX: seq<real>)
      requires Valid()
      requires Descendants(root, nodes) && (forall k :: 0 <= k < |nodes| ==> nodes[k] in Hier) && |layoutX| == |nodes|
      modifies this`i, this`Issued, this`surface, nodes`x, nodes`y, nodes`x0, nodes`y0, nodes`id
      ensures Valid() && selected == old(selected) && effects == old(effects)
      ensures forall id :: id in old(Issued) ==> id in Issued && Issued[id] == old(Issued)[id]
      ensures Shown(surface, nodes, layoutX, selected)
      ensures forall k :: 0 <= k < |nodes| && old(nodes[k].id) != 0 ==> nodes[k].id == old(nodes[k].id)
      ensures forall k :: 0 <= k < |nodes| && old(nodes[k].id) == 0 ==> old(i) < nodes[k].id <= i
      ensures Drawn(surface, old(surface), ViewsOf(nodes, selected), Point(old(source.x0), old(source.y0)), PosOf(source))
      ensures old(Displayed(surface, nodes)) ==> surface.pass.nodes == Join({}, IdsOf(nodes), {}) && surface.pass.links == Join({}, LinkTargets(nodes), {})
    {
      ghost var shownBefore := Displayed(surface, nodes);
      var enterFrom := Point(source.x0, source.y0);
      GiveIds(nodes);
      Arrange(nodes, layoutX);
      if shownBefore {
        assert forall k :: 0 <= k < |nodes| ==> old(nodes[k].id) != 0;
        assert IdsOf(nodes) == old(IdsOf(nodes)) && LinkTargets(nodes) == old(LinkTargets(nodes));
      }
      Paint(source, nodes, layoutX, enterFrom);
    }

    /**
     * The drawing step of a pass: the views of the laid-out nodes (ids, fills
     * and positions) are joined against the surface and painted.
     */
    method Paint(source: HNode, nodes: seq<HNode>, layoutX: seq<real>, enterFrom: Point)
      requires Valid()
      requires |nodes| > 0 && DistinctIds(nodes) && forall k :: 0 <= k < |nodes| ==> nodes[k].id >= 1
      requires Placed(nodes, layoutX) && Snapshotted(nodes)
      modifies this`surface
      ensures Valid() && i == old(i) && Issued == old(Issued) && selected == old(selected) && effects == old(effects)
      ensures forall k :: 0 <= k < |nodes| ==> nodes[k].id == old(nodes[k].id)
      ensures Shown(surface, nodes, layoutX, selected)
      ensures Drawn(surface, old(surface), ViewsOf(nodes, selected), enterFrom, PosOf(source))
      ensures old(Displayed(surface, nodes)) ==> surface.pass.nodes == Join({}, IdsOf(nodes), {}) && surface.pass.links == Join({}, LinkTargets(nodes), {})
    {
      ghost var shownBefore := Displayed(surface, nodes);
      var views := ViewsOf(nodes, selected);
      ViewsCarryIds(nodes, selected);
      var exitTo := PosOf(source);
      surface := Draw(surface, views, enterFrom, exitTo);
      assert views == ViewsOf(nodes, selected) && exitTo == PosOf(source);
      if shownBefore {
        RejoinIsQuiet(IdsOf(nodes));
        RejoinIsQuiet(LinkTargets(nodes));
      }
    }

    /**
     * The position steps of a pass, both of which leave the ids and the
     * renderer's own state alone: the layout and the snapshot of the new
     * positions as the origin of the next pass.
     */
    method Arrange(nodes: seq<HNode>, layoutX: seq<real>)
      requires Valid() && Distinct(nodes) && |layoutX| == |nodes|
      modifies nodes`x, nodes`y, nodes`x0, nodes`y0
      ensures Valid() && i == old(i) && Issued == old(Issued) && selected == old(selected)
      ensures effects == old(effects) && surface == old(surface)
      ensures Placed(nodes, layoutX) && Snapshotted(nodes)
      ensures forall k :: 0 <= k < |nodes| ==> nodes[k].id == old(nodes[k].id)
      ensures IdList(nodes) == old(IdList(nodes))
    {
      PlaceNodes(nodes, layoutX);
      SnapshotPositions(nodes);
    }

    /** `d.id = ++this.i` for a node without an id: the counter moves on by one and the node is logged as its holder. */
    method Issue(n: HNode)
      requires IdsIssued(Hier, i, Issued) && n in Hier && n.id == 0
      modifies this`i, this`Issued, n`id
      ensures IdsIssued(Hier, i, Issued)
      ensures i == old(i) + 1 && n.id == i && Issued == old(Issued)[i := n]
      ensures selected == old(selected) && effects == old(effects) && surface == old(surface)
      ensures forall id :: id in old(Issued) ==> id in Issued && Issued[id] == old(Issued)[id]
    {
      i := i + 1;
      n.id := i;
      Issued := Issued[i := n];
    }

    /**
     * The key function of the node join, `d.id || (d.id = ++this.i)`, applied
     * to `nodes` in order: a node keeps the id it has; a node without one gets
     * the next value of the counter.
     */
    method AssignIds(nodes: seq<HNode>)
      requires Valid()
      requires forall k :: 0 <= k < |nodes| ==> nodes[k] in Hier
      modifies this`i, this`Issued, nodes`id
      ensures Valid() && old(i) <= i && selected == old(selected) && effects == old(effects) && surface == old(surface)
      ensures forall id :: id in old(Issued) ==> id in Issued && Issued[id] == old(Issued)[id]
      ensures forall k :: 0 <= k < |nodes| ==>
                && nodes[k].id >= 1
                && (old(nodes[k].id) != 0 ==> nodes[k].id == old(nodes[k].id))
                && (old(nodes[k].id) == 0 ==> old(i) < nodes[k].id <= i)
    {
      ghost var before := IdList(nodes);
      var k := 0;
      while k < |nodes|
        invariant 0 <= k <= |nodes|
        invariant IdsIssued(Hier, i, Issued) && selected == old(selected) && effects == old(effects) && surface == old(surface)
        invariant old(i) <= i && (forall id :: id in old(Issued) ==> id in Issued && Issued[id] == old(Issued)[id])
        invariant forall j :: 0 <= j < |nodes| ==>
                    && (j < k ==> nodes[j].id >= 1)
                    && (before[j] != 0 ==> nodes[j].id == before[j])
                    && (before[j] == 0 ==> nodes[j].id == 0 || old(i) < nodes[j].id <= i)
      {
        if nodes[k].id == 0 {
          Issue(nodes[k]);
        }
        k := k + 1;
      }
    }

    /**
     * The id step of a pass: after it every visible node holds an id, no two
     * visible nodes hold the same one, and a pass that gives no new id leaves
     * the id list as it was.
     */
    method GiveIds(nodes: seq<HNode>)
      requires Valid()
      requires Distinct(nodes) && (forall k :: 0 <= k < |nodes| ==> nodes[k] in Hier)
      modifies this`i, this`Issued, nodes`id
      ensures Valid() && old(i) <= i && selected == old(selected) && effects == old(effects) && surface == old(surface)
      ensures forall id :: id in old(Issued) ==> id in Issued && Issued[id] == old(Issued)[id]
      ensures forall k :: 0 <= k < |nodes| ==>
                && nodes[k].id >= 1
                && (old(nodes[k].id) != 0 ==> nodes[k].id == old(nodes[k].id))
                && (old(nodes[k].id) == 0 ==> old(i) < nodes[k].id <= i)
      ensures DistinctIds(nodes)
      ensures (forall k :: 0 <= k < |nodes| ==> old(nodes[k].id) != 0) ==> IdList(nodes) == old(IdList(nodes))
    {
      AssignIds(nodes);
      VisibleIdsDistinct(Hier, i, Issued, nodes);
      if forall k :: 0 <= k < |nodes| ==> old(nodes[k].id) != 0 {
        IdsKept(nodes);
      }
    }

    /** `setSelectedNode(node)`: holds the one selection and re-renders from the root. */
    method SetSelectedNode(node: HNode?, nodes: seq<HNode>, layoutX: seq<real>)
      requires Valid() && (node != null ==> node in Hier)
      requires Descendants(root, nodes) && (forall k :: 0 <= k < |nodes| ==> nodes[k] in Hier) && |layoutX| == |nodes|
      modifies this`i, this`Issued, this`surface, this`selected, nodes`x, nodes`y, nodes`x0, nodes`y0, nodes`id
      ensures Valid() && selected == node && effects == old(effects)
      ensures Shown(surface, nodes, layoutX, selected)
      ensures forall k :: 0 <= k < |nodes| && old(nodes[k].id) != 0 ==> nodes[k].id == old(nodes[k].id)
      ensures old(Displayed(surface, nodes)) ==> surface.pass.nodes == Join({}, IdsOf(nodes), {}) && surface.pass.links == Join({}, LinkTargets(nodes), {})
    {
      selected := node;
      Update(root, nodes, layoutX);
    }

    /**
     * The close of both structural edits: the change callback receives a
     * shallow copy of the root data, then the tree is re-rendered from `source`.
     */
    method Publish(source: HNode, nodes: seq<HNode>, layoutX: seq<real>)
      requires Valid()
      requires Descendants(root, nodes) && (forall k :: 0 <= k < |nodes| ==> nodes[k] in Hier) && |layoutX| == |nodes|
      modifies this`i, this`Issued, this`surface, this`effects, nodes`x, nodes`y, nodes`x0, nodes`y0, nodes`id
      ensures Valid() && selected == old(selected)
      ensures effects == old(effects) + [SnapshotOf(data)]
      ensures Shown(surface, nodes, layoutX, selected)
      ensures old(Displayed(surface, nodes)) ==> surface.pass.nodes == Join({}, IdsOf(nodes), {}) && surface.pass.links == Join({}, LinkTargets(nodes), {})
      ensures forall k :: 0 <= k < |nodes| && old(nodes[k].id) != 0 ==> nodes[k].id == old(nodes[k].id)
      ensures forall id :: id in old(Issued) ==> id in Issued && Issued[id] == old(Issued)[id]
    {
      var snapshot := SnapshotOf(data);
      effects := effects + [snapshot];
      Update(source, nodes, layoutX);
      assert snapshot == SnapshotOf(data);
    }

    /**
     * `addChildNode()`: without a selection, nothing happens; otherwise the
     * selected node's data gets a child list if it had none, a new child
     * `Edit Task k+1` is appended to it, the change callback receives a
     * shallow copy of the root data and the tree is re-rendered from the
     * selected node.
     */
    method AddChildNode(nodes: seq<HNode>, layoutX: seq<real>) returns (r: Outcome, ghost added: DataNode?)
      requires Valid()
      requires Descendants(root, nodes) && (forall k :: 0 <= k < |nodes| ==> nodes[k] in Hier) && |layoutX| == |nodes|
      modifies this`i, this`Issued, this`surface, this`effects, (if selected == null then {} else {selected.data})`children
      modifies nodes`x, nodes`y, nodes`x0, nodes`y0, nodes`id
      ensures Valid()
      ensures old(selected) == null ==> r == Rejected(NoNodeSelected) && unchanged(this) && unchanged(nodes)
      ensures old(selected) != null ==> r == Applied && selected == old(selected) && added != null && fresh(added)
      ensures old(selected) != null && added != null ==> selected.data.children == Some(old(ChildList(selected.data)) + [added])
      ensures old(selected) != null && added != null ==> PlaceholderAt(added, |selected.data.children.value|)
      ensures old(selected) != null ==> effects == old(effects) + [SnapshotOf(data)]
      ensures old(selected) != null ==> Shown(surface, nodes, layoutX, selected)
      ensures forall k :: 0 <= k < |nodes| && old(nodes[k].id) != 0 ==> nodes[k].id == old(nodes[k].id)
      ensures forall id :: id in old(Issued) ==> id in Issued && Issued[id] == old(Issued)[id]
    {
      if selected == null {
        r, added := Rejected(NoNodeSelected), null;
        return;
      }
      added := AppendToSelected(nodes, layoutX);
      r := Applied;
    }

    /** The applied path of `addChildNode`: the data edit, the change callback and the render from the selected node. */
    method AppendToSelected(nodes: seq<HNode>, layoutX: seq<real>) returns (ghost added: DataNode)
      requires Valid() && selected != null
      requires Descendants(root, nodes) && (forall k :: 0 <= k < |nodes| ==> nodes[k] in Hier) && |layoutX| == |nodes|
      modifies this`i, this`Issued, this`surface, this`effects, selected.data`children
      modifies nodes`x, nodes`y, nodes`x0, nodes`y0, nodes`id
      ensures Valid() && selected == old(selected) && fresh(added)
      ensures selected.data.children == Some(old(ChildList(selected.data)) + [added])
      ensures PlaceholderAt(added, |selected.data.children.value|)
      ensures effects == old(effects) + [SnapshotOf(data)]
      ensures Shown(surface, nodes, layoutX, selected)
      ensures forall k :: 0 <= k < |nodes| && old(nodes[k].id) != 0 ==> nodes[k].id == old(nodes[k].id)
      ensures forall id :: id in old(Issued) ==> id in Issued && Issued[id] == old(Issued)[id]
    {
      var parentNode := selected;
      var newNode := AppendTask(parentNode.data);
      ghost var grown := parentNode.data.children;
      assert PlaceholderAt(newNode, |grown.value|);
      Publish(parentNode, nodes, layoutX);
      assert parentNode.data.children == grown && PlaceholderAt(newNode, |grown.value|);
      added := newNode;
    }

    /**
     * `deleteNode()`: without a selection, or with the root selected, nothing
     * happens; otherwise the selected node is cut from its parent's data.
     */
    method DeleteNode(nodes: seq<HNode>, layoutX: seq<real>) returns (r: Outcome)
      requires Valid()
      requires Descendants(root, nodes) && (forall k :: 0 <= k < |nodes| ==> nodes[k] in Hier) && |layoutX| == |nodes|
      requires selected != null && selected.parent != null ==> selected.parent.data.children.Some?
      modifies this`i, this`Issued, this`surface, this`effects, this`selected
      modifies (if selected != null && selected.parent != null then {selected.parent.data} else {})`children
      modifies nodes`x, nodes`y, nodes`x0, nodes`y0, nodes`id
      ensures Valid()
      ensures old(selected) == null ==> r == Rejected(NoNodeSelected) && unchanged(this) && unchanged(nodes)
      ensures old(selected) != null && old(selected).parent == null ==>
                r == Rejected(CannotDeleteRoot) && unchanged(this) && unchanged(nodes)
      ensures old(selected) != null && old(selected).parent != null ==>
                && r == Applied && effects == old(effects) + [SnapshotOf(data)]
                && Deleted(old(selected), old(selected.parent.data.children.value), nodes, layoutX)
      ensures forall k :: 0 <= k < |nodes| && old(nodes[k].id) != 0 ==> nodes[k].id == old(nodes[k].id)
      ensures forall id :: id in old(Issued) ==> id in Issued && Issued[id] == old(Issued)[id]
    {
      if selected == null {
        r := Rejected(NoNodeSelected);
      } else if selected.parent == null {
        r := Rejected(CannotDeleteRoot);
      } else {
        CutSelected(nodes, layoutX);
        r := Applied;
      }
    }

    /**
     * The state a deletion of `node` leaves: the node's data object is
     * filtered out of `siblings`, its parent's former data children, the
     * selection is empty, one snapshot has been published and the tree is
     * rendered again with nothing entering or leaving in the last pass.
     */
    ghost predicate Deleted(node: HNode, siblings: seq<DataNode>, nodes: seq<HNode>, layoutX: seq<real>)
      requires node.parent != null
      reads this`selected, this`surface, node.parent.data`children, nodes`id, nodes`x, nodes`y, nodes`x0, nodes`y0, nodes`hidden
    {
      && selected == null
      && node.parent.data.children == Some(Without(siblings, node.data))
      && Shown(surface, nodes, layoutX, selected) && surface.pass.nodes == Join({}, IdsOf(nodes), {})
      && surface.pass.links == Join({}, LinkTargets(nodes), {})
    }

    /**
     * The applied path of `deleteNode`: every entry that is the selected node's
     * data object is filtered out of its parent's data children, the selection
     * is cleared (which re-renders), the change callback receives a shallow
     * copy of the root data and the tree is re-rendered from the root.
     */
    method CutSelected(nodes: seq<HNode>, layoutX: seq<real>)
      requires Valid() && selected != null && selected.parent != null && selected.parent.data.children.Some?
      requires Descendants(root, nodes) && (forall k :: 0 <= k < |nodes| ==> nodes[k] in Hier) && |layoutX| == |nodes|
      modifies this`i, this`Issued, this`surface, this`effects, this`selected, selected.parent.data`children
      modifies nodes`x, nodes`y, nodes`x0, nodes`y0, nodes`id
      ensures Valid() && effects == old(effects) + [SnapshotOf(data)] && selected == null
      ensures old(selected).parent.data.children == Some(Without(old(selected.parent.data.children.value), old(selected).data))
      ensures Shown(surface, nodes, layoutX, selected) && surface.pass.nodes == Join({}, IdsOf(nodes), {})
      ensures surface.pass.links == Join({}, LinkTargets(nodes), {})
      ensures forall k :: 0 <= k < |nodes| && old(nodes[k].id) != 0 ==> nodes[k].id == old(nodes[k].id)
      ensures forall id :: id in old(Issued) ==> id in Issued && Issued[id] == old(Issued)[id]
    {
      var nodeToDelete := selected;
      var parent := nodeToDelete.parent;
      parent.data.children := Some(Without(parent.data.children.value, nodeToDelete.data));
      ghost var kept := parent.data.children;
      Unselect(nodes, layoutX);
      assert parent.data.children == kept;
    }

    /**
     * The close of `deleteNode`: the selection is cleared (which re-renders),
     * the change callback receives a shallow copy of the root data and the
     * tree is re-rendered from the root, into which nothing enters any more.
     */
    method Unselect(nodes: seq<HNode>, layoutX: seq<real>)
      requires Valid()
      requires Descendants(root, nodes) && (forall k :: 0 <= k < |nodes| ==> nodes[k] in Hier) && |layoutX| == |nodes|
      modifies this`i, this`Issued, this`surface, this`effects, this`selected
      modifies nodes`x, nodes`y, nodes`x0, nodes`y0, nodes`id
      ensures Valid() && effects == old(effects) + [SnapshotOf(data)] && selected == null
      ensures Shown(surface, nodes, layoutX, selected) && surface.pass.nodes == Join({}, IdsOf(nodes), {})
      ensures surface.pass.links == Join({}, LinkTargets(nodes), {})
      ensures forall k :: 0 <= k < |nodes| && old(nodes[k].id) != 0 ==> nodes[k].id == old(nodes[k].id)
      ensures forall id :: id in old(Issued) ==> id in Issued && Issued[id] == old(Issued)[id]
    {
      SetSelectedNode(null, nodes, layoutX);
      Publish(root, nodes, layoutX);
    }
  }
}
