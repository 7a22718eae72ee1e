/**
 * The earlier revision of the editor, where the tree is drawn by closures
 * inside one effect of the React component: the same ids, layout, snapshot
 * and connectors, but no selection, circles painted only when they enter,
 * `addChildNode` on the node whose `+` was clicked, and a rename that stores
 * the typed text as it is.
 */
module D3Container {
  import opened Optional
  import opened NatLists
  import opened Hierarchy
  import opened TreeUtility
  import opened RenderPass
  import opened NodeEditor
  import opened Decimal

  // ---------------------------------------------------------------------------
  // Collapse / expand

  /** `toggle(d)`: the same swap of `children` and `_children` as the later `toggleNode`. */
  method Toggle(d: HNode)
    modifies d`children, d`hidden
    ensures ListsOf(d) == Toggled(old(ListsOf(d)))
  {
    if d.children.Some? {
      d.hidden := d.children;
      d.children := None;
    } else {
      d.children := d.hidden;
      d.hidden := None;
    }
  }

  // ---------------------------------------------------------------------------
  // Drawing without repainting

  /**
   * The node join of this revision: circles are painted by the fill rule when
   * they enter, circles that stay keep the fill they had, and exiting ones are
   * removed.
   */
  method EnterShapes(fills: map<nat, Fill>, vs: seq<View>) returns (r: map<nat, Fill>, nodeJoin: Join)
    requires UniqueKeys(vs)
    ensures r.Keys == Keys(vs) && nodeJoin == JoinKeys(Keys(vs), fills.Keys)
    ensures EnteredFillsFit(r, fills, vs) && StayingFillsKept(r, fills)
  {
    var visible := Keys(vs);
    nodeJoin := JoinKeys(visible, fills.Keys);
    r := PaintCircles(fills, vs, nodeJoin.entering);
    r := Restrict(r, visible);
    BetweenHas(KeyList(vs), 0, |vs|);
  }

  /** Every view without a circle in `prior` has one in `fills`, painted by the fill rule. */
  ghost predicate EnteredFillsFit(fills: map<nat, Fill>, prior: map<nat, Fill>, vs: seq<View>)
  {
    forall k :: 0 <= k < |vs| && vs[k].id !in prior ==> vs[k].id in fills && fills[vs[k].id] == vs[k].fill
  }

  /** Every circle of `prior` that is still drawn in `fills` has kept its fill. */
  ghost predicate StayingFillsKept(fills: map<nat, Fill>, prior: map<nat, Fill>)
  {
    forall id :: id in prior && id in fills ==> fills[id] == prior[id]
  }

  /** The surface after a pass of this revision over the views `vs` drawn on `prior`. */
  ghost predicate EnterDrawn(s: Surface, prior: Surface, vs: seq<View>, enterFrom: Point, exitTo: Point)
  {
    && |vs| > 0
    && s.fills.Keys == Keys(vs) && s.linkKeys == LinkKeys(vs)
    && EnteredFillsFit(s.fills, prior.fills, vs) && StayingFillsKept(s.fills, prior.fills)
    && s.pass.nodes == JoinKeys(Keys(vs), prior.fills.Keys)
    && s.pass.links == JoinKeys(LinkKeys(vs), prior.linkKeys)
    && s.pass.enterFrom == enterFrom && s.pass.exitTo == exitTo
    && s.pass.linkEnterPath == DiagonalPath(enterFrom, enterFrom)
    && s.pass.linkExitPath == DiagonalPath(exitTo, exitTo)
    && s.pass.linkPaths.Keys == LinkKeys(vs) && LinksFit(s.pass.linkPaths, vs)
  }

  /** The drawing of one pass of this revision: as in the later one, except that staying circles are not repainted. */
  method EnterDraw(prior: Surface, vs: seq<View>, enterFrom: Point, exitTo: Point) returns (s: Surface)
    requires |vs| > 0 && UniqueKeys(vs)
    ensures EnterDrawn(s, prior, vs, enterFrom, exitTo)
  {
    var painted, nodeJoin := EnterShapes(prior.fills, vs);
    var linkJoin := JoinKeys(LinkKeys(vs), prior.linkKeys);
    var paths := RouteLinks(vs);
    s := Surface(painted, LinkKeys(vs),
                 Pass(nodeJoin, linkJoin, enterFrom, exitTo, DiagonalPath(enterFrom, enterFrom), DiagonalPath(exitTo, exitTo), paths));
  }

  /**
   * After a pass of this revision, every circle shows the fill the rule gives
   * its node exactly when every circle that stayed already showed it.
   */
  lemma EnterDrawnFillsFit(s: Surface, prior: Surface, vs: seq<View>, enterFrom: Point, exitTo: Point)
    requires EnterDrawn(s, prior, vs, enterFrom, exitTo)
    ensures FillsFit(s.fills, vs) <==>
              forall k :: 0 <= k < |vs| && vs[k].id in prior.fills ==> prior.fills[vs[k].id] == vs[k].fill
  {
    BetweenHas(KeyList(vs), 0, |vs|);
  }

  /**
   * The circle of a node collapsed since the last pass keeps its plain fill:
   * node 1 was drawn plain, it now has hidden children, and after the pass its
   * circle is still plain instead of shaded.
   */
  lemma StaleFillAfterCollapse(s: Surface, prior: Surface, at: Point, enterFrom: Point, exitTo: Point)
    requires prior.fills == map[1 := PlainFill]
    requires EnterDrawn(s, prior, [View(1, FillRule(false, true), at, at)], enterFrom, exitTo)
    ensures s.fills[1] == PlainFill && FillRule(false, true) == CollapsedFill
    ensures !FillsFit(s.fills, [View(1, FillRule(false, true), at, at)])
  {
    var vs := [View(1, FillRule(false, true), at, at)];
    assert KeyList(vs) == [1];
    assert Keys(vs) == {1};
  }

  // ---------------------------------------------------------------------------
  // The rename

  /** The commit of this revision: the typed text, as it is, becomes both the stored name and the caption. */
  function RawCommit(name: string, input: string): (c: Commit)
    ensures c.name == c.caption == input
  {
    Commit(input, input)
  }

  /**
   * The two revisions commit the same thing exactly when the typed text has no
   * blank at either end and is not empty, or is empty over an empty name.
   */
  lemma CommitRevisionsAgree(name: string, input: string)
    ensures RawCommit(name, input) == CommitRule(name, input) <==> Trimmed(input) && (input != [] || name == [])
  {
    if Trimmed(input) {
      TrimTrimmed(input);
    }
  }

  /** Unlike the later revision, this one can store a blank name. */
  lemma RawCommitStoresBlank(name: string)
    requires name != []
    ensures RawCommit(name, " ").name == " " && CommitRule(name, " ").name == name
  {
    assert AllBlank(" ");
  }

  /** `editText(d, textElement)`: an input laid over the caption of `node`, holding the text being typed. */
  class RawEditor {
    const node: HNode
    const caption: Caption
    var value: string
    var attached: bool

    /** Opening the editor: its text starts as the node's current name. */
    constructor Open(node: HNode, caption: Caption)
      ensures this.node == node && this.caption == caption
      ensures value == node.data.name && attached
    {
      this.node := node;
      this.caption := caption;
      value := node.data.name;
      attached := true;
    }

    /** The user's typing replaces the text of the editor. */
    method Edit(text: string)
      requires attached
      modifies this`value
      ensures value == text && attached
    {
      value := text;
    }

    /** The blur handler: the typed text, untrimmed and possibly empty, becomes the name and the caption. */
    method Blur()
      requires attached
      modifies node.data`name, caption`text, this`attached
      ensures Commit(node.data.name, caption.text) == RawCommit(old(node.data.name), value)
      ensures !attached && node.data.children == old(node.data.children)
    {
      var newValue := value;
      node.data.name := newValue;
      caption.text := newValue;
      attached := false;
    }

    /** A key press in the editor: Enter blurs it, which commits; any other key leaves everything as it was. */
    method KeyDown(key: string)
      requires attached
      modifies node.data`name, caption`text, this`attached
      ensures key == "Enter" ==> Commit(node.data.name, caption.text) == RawCommit(old(node.data.name), value) && !attached
      ensures key != "Enter" ==> node.data.name == old(node.data.name) && caption.text == old(caption.text) && attached
      ensures node.data.children == old(node.data.children)
    {
      if key == "Enter" {
        Blur();
      }
    }
  }

  // ---------------------------------------------------------------------------
  // The component's drawing effect

  /** The state a pass of this revision over `nodes`, laid out at `layoutX`, leaves behind on `s`. */
  ghost predicate EnterShown(s: Surface, nodes: seq<HNode>, layoutX: seq<real>)
    reads nodes`id, nodes`x, nodes`y, nodes`x0, nodes`y0
  {
    && Displayed(s, nodes)
    && DistinctIds(nodes)
    && Placed(nodes, layoutX)
    && Snapshotted(nodes)
  }

  /**
   * One run of the component's effect: the hierarchy over the state's data,
   * the closure counter `i`, the drawing surface and the change callback
   * (`setData`), kept as a log of the snapshots it was given.
   */
  class Container {
    /** The component state `data`. */
    const data: DataNode
    /** `root`: the hierarchy built over `data`. */
    const root: HNode
    /** The closure counter `i`. */
    var i: nat
    /** The snapshots passed to `setData`, oldest first. */
    var effects: seq<Snapshot>
    /** The drawing surface. */
    var surface: Surface
    /** The hierarchy's nodes. */
    ghost const Hier: set<HNode>
    /** `Issued[id]` is the node that received `id`. */
    ghost var Issued: map<nat, HNode>

    ghost predicate Valid()
      reads this`i, this`Issued, Hier`id
    {
      IdsIssued(Hier, i, Issued)
    }

    /**
     * The effect body: the counter starts at 0, the surface is cleared, the
     * root of the hierarchy `hier` is placed at its start position and the
     * tree is drawn once.
     */
    constructor (data: DataNode, root: HNode, ghost hier: set<HNode>, nodes: seq<HNode>, layoutX: seq<real>)
      requires root in hier && root.data == data && root.parent == null && root.depth == 0
      requires forall n :: n in hier ==> n.id == 0
      requires Descendants(root, nodes) && (forall k :: 0 <= k < |nodes| ==> nodes[k] in hier) && |layoutX| == |nodes|
      modifies nodes`x, nodes`y, nodes`x0, nodes`y0, nodes`id
      ensures Valid() && Hier == hier && this.data == data && this.root == root && effects == []
      ensures EnterShown(surface, nodes, layoutX) && FillsFit(surface.fills, ViewsOf(nodes, null))
      ensures surface.pass.nodes.entering == IdsOf(nodes) && surface.pass.enterFrom == Point(250.0, 0.0)
    {
      this.data := data;
      this.root := root;
      i := 0;
      effects := [];
      surface := Blank;
      Hier := hier;
      Issued := map[];
      new;
      root.x0 := 250.0;
      root.y0 := 0.0;
      Update(root, nodes, layoutX);
      EnterDrawnFillsFit(surface, Blank, ViewsOf(nodes, null), Point(250.0, 0.0), PosOf(root));
    }

    /**
     * `update(source)`: lays out `nodes`, gives ids, joins nodes and links
     * against the surface by id, paints the entering circles and snapshots
     * the positions.
     */
    method Update(source: HNode, nodes: seq<HNode>, layoutX: seq<real>)
      requires Valid()
      requires Descendants(root, nodes) && (forall k :: 0 <= k < |nodes| ==> nodes[k] in Hier) && |layoutX| == |nodes|
      modifies this`i, this`Issued, this`surface, nodes`x, nodes`y, nodes`x0, nodes`y0, nodes`id
      ensures Valid() && effects == old(effects)
      ensures forall id :: id in old(Issued) ==> id in Issued && Issued[id] == old(Issued)[id]
      ensures EnterShown(surface, nodes, layoutX)
      ensures forall k :: 0 <= k < |nodes| && old(nodes[k].id) != 0 ==> nodes[k].id == old(nodes[k].id)
      ensures forall k :: 0 <= k < |nodes| && old(nodes[k].id) == 0 ==> old(i) < nodes[k].id <= i
      ensures EnterDrawn(surface, old(surface), ViewsOf(nodes, null), Point(old(source.x0), old(source.y0)), PosOf(source))
    {
      var enterFrom := Point(source.x0, source.y0);
      GiveIds(nodes);
      Arrange(nodes, layoutX);
      Paint(source, nodes, layoutX, enterFrom);
    }

    /** The drawing step of a pass: the views of the laid-out nodes are joined against the surface and drawn. */
    method Paint(source: HNode, nodes: seq<HNode>, layoutX: seq<real>, enterFrom: Point)
      requires Valid()
      requires |nodes| > 0 && DistinctIds(nodes) && forall k :: 0 <= k < |nodes| ==> nodes[k].id >= 1
      requires Placed(nodes, layoutX) && Snapshotted(nodes)
      modifies this`surface
      ensures Valid() && i == old(i) && Issued == old(Issued) && effects == old(effects)
      ensures forall k :: 0 <= k < |nodes| ==> nodes[k].id == old(nodes[k].id)
      ensures EnterShown(surface, nodes, layoutX)
      ensures EnterDrawn(surface, old(surface), ViewsOf(nodes, null), enterFrom, PosOf(source))
    {
      var views := ViewsOf(nodes, null);
      ViewsCarryIds(nodes, null);
      var exitTo := PosOf(source);
      surface := EnterDraw(surface, views, enterFrom, exitTo);
      assert views == ViewsOf(nodes, null) && exitTo == PosOf(source);
    }

    /** The position steps of a pass: the layout, then the snapshot of the new positions. */
    method Arrange(nodes: seq<HNode>, layoutX: seq<real>)
      requires Valid() && Distinct(nodes) && |layoutX| == |nodes|
      modifies nodes`x, nodes`y, nodes`x0, nodes`y0
      ensures Valid() && i == old(i) && Issued == old(Issued)
      ensures effects == old(effects) && surface == old(surface)
      ensures Placed(nodes, layoutX) && Snapshotted(nodes)
      ensures forall k :: 0 <= k < |nodes| ==> nodes[k].id == old(nodes[k].id)
    {
      PlaceNodes(nodes, layoutX);
      SnapshotPositions(nodes);
    }

    /** `d.id = ++i` for a node without an id: the counter moves on by one and the node is logged as its holder. */
    method Issue(n: HNode)
      requires IdsIssued(Hier, i, Issued) && n in Hier && n.id == 0
      modifies this`i, this`Issued, n`id
      ensures IdsIssued(Hier, i, Issued)
      ensures i == old(i) + 1 && n.id == i && Issued == old(Issued)[i := n]
      ensures effects == old(effects) && surface == old(surface)
      ensures forall id :: id in old(Issued) ==> id in Issued && Issued[id] == old(Issued)[id]
    {
      i := i + 1;
      n.id := i;
      Issued := Issued[i := n];
    }

    /** The key function of the node join, `d.id || (d.id = ++i)`, applied to `nodes` in order. */
    method AssignIds(nodes: seq<HNode>)
      requires Valid()
      requires forall k :: 0 <= k < |nodes| ==> nodes[k] in Hier
      modifies this`i, this`Issued, nodes`id
      ensures Valid() && old(i) <= i && effects == old(effects) && surface == old(surface)
      ensures forall id :: id in old(Issued) ==> id in Issued && Issued[id] == old(Issued)[id]
      ensures forall k :: 0 <= k < |nodes| ==>
                && nodes[k].id >= 1
                && (old(nodes[k].id) != 0 ==> nodes[k].id == old(nodes[k].id))
                && (old(nodes[k].id) == 0 ==> old(i) < nodes[k].id <= i)
    {
      ghost var before := IdList(nodes);
      var k := 0;
      while k < |nodes|
        invariant 0 <= k <= |nodes|
        invariant IdsIssued(Hier, i, Issued) && effects == old(effects) && surface == old(surface)
        invariant old(i) <= i && (forall id :: id in old(Issued) ==> id in Issued && Issued[id] == old(Issued)[id])
        invariant forall j :: 0 <= j < |nodes| ==>
                    && (j < k ==> nodes[j].id >= 1)
                    && (before[j] != 0 ==> nodes[j].id == before[j])
                    && (before[j] == 0 ==> nodes[j].id == 0 || old(i) < nodes[j].id <= i)
      {
        if nodes[k].id == 0 {
          Issue(nodes[k]);
        }
        k := k + 1;
      }
    }

    /** The id step of a pass: every visible node ends with an id, and no two visible nodes share one. */
    method GiveIds(nodes: seq<HNode>)
      requires Valid()
      requires Distinct(nodes) && (forall k :: 0 <= k < |nodes| ==> nodes[k] in Hier)
      modifies this`i, this`Issued, nodes`id
      ensures Valid() && old(i) <= i && effects == old(effects) && surface == old(surface)
      ensures forall id :: id in old(Issued) ==> id in Issued && Issued[id] == old(Issued)[id]
      ensures forall k :: 0 <= k < |nodes| ==>
                && nodes[k].id >= 1
                && (old(nodes[k].id) != 0 ==> nodes[k].id == old(nodes[k].id))
                && (old(nodes[k].id) == 0 ==> old(i) < nodes[k].id <= i)
      ensures DistinctIds(nodes)
    {
      AssignIds(nodes);
      VisibleIdsDistinct(Hier, i, Issued, nodes);
    }

    /**
     * The close of `addChildNode`: the change callback receives a shallow copy
     * of the data, then the tree is re-rendered from `source`.
     */
    method Publish(source: HNode, nodes: seq<HNode>, layoutX: seq<real>)
      requires Valid()
      requires Descendants(root, nodes) && (forall k :: 0 <= k < |nodes| ==> nodes[k] in Hier) && |layoutX| == |nodes|
      modifies this`i, this`Issued, this`surface, this`effects, nodes`x, nodes`y, nodes`x0, nodes`y0, nodes`id
      ensures Valid() && effects == old(effects) + [SnapshotOf(data)]
      ensures EnterShown(surface, nodes, layoutX)
      ensures forall k :: 0 <= k < |nodes| && old(nodes[k].id) != 0 ==> nodes[k].id == old(nodes[k].id)
      ensures forall id :: id in old(Issued) ==> id in Issued && Issued[id] == old(Issued)[id]
    {
      var snapshot := SnapshotOf(data);
      effects := effects + [snapshot];
      Update(source, nodes, layoutX);
      assert snapshot == SnapshotOf(data);
    }

    /**
     * `addChildNode(parentNode)`, on the node whose `+` was clicked and with no
     * selection involved: the data edit, the change callback with a shallow
     * copy of the data, and the render from `parentNode`.
     */
    method AddChildNode(parentNode: HNode, nodes: seq<HNode>, layoutX: seq<real>) returns (ghost added: DataNode)
      requires Valid()
      requires Descendants(root, nodes) && (forall k :: 0 <= k < |nodes| ==> nodes[k] in Hier) && |layoutX| == |nodes|
      modifies this`i, this`Issued, this`surface, this`effects, parentNode.data`children
      modifies nodes`x, nodes`y, nodes`x0, nodes`y0, nodes`id
      ensures Valid() && fresh(added)
      ensures parentNode.data.children == Some(old(ChildList(parentNode.data)) + [added])
      ensures PlaceholderAt(added, |parentNode.data.children.value|)
      ensures effects == old(effects) + [SnapshotOf(data)]
      ensures EnterShown(surface, nodes, layoutX)
      ensures forall k :: 0 <= k < |nodes| && old(nodes[k].id) != 0 ==> nodes[k].id == old(nodes[k].id)
      ensures forall id :: id in old(Issued) ==> id in Issued && Issued[id] == old(Issued)[id]
    {
      var newNode := AppendTask(parentNode.data);
      ghost var grown := parentNode.data.children;
      assert PlaceholderAt(newNode, |grown.value|);
      Publish(parentNode, nodes, layoutX);
      assert parentNode.data.children == grown && PlaceholderAt(newNode, |grown.value|);
      added := newNode;
    }
  }
}
