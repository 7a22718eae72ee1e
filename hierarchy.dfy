/**
 * The two node shapes of the tree editor.
 *
 * A `DataNode` is the persisted `{name, children}` object that the application
 * stores; a `HNode` is the layout wrapper that d3's hierarchy builds around one
 * `DataNode`, carrying the visible and hidden child lists, the render id and
 * the layout coordinates. Both are objects: the editor compares them by
 * reference and updates their fields in place.
 */
module Hierarchy {
  import opened Optional
  import opened Decimal
  import opened NatLists

  /** The persisted tree node `{name, children?}`; `children == None` is an absent list. */
  class DataNode {
    var name: string
    var children: Option<seq<DataNode>>

    constructor (name: string)
      ensures this.name == name && children == None
    {
      this.name := name;
      children := None;
    }
  }

  /** The child list of a data node, an absent list read as empty. */
  function ChildList(d: DataNode): (r: seq<DataNode>)
    reads d`children
  {
    d.children.GetOr([])
  }

  /**
   * A hierarchy node. `data`, `parent` and `depth` are fixed when the
   * hierarchy is built; `children` is the visible child list (None when
   * collapsed or a leaf), `hidden` the list parked by a collapse (`_children`),
   * `id` the render key (0 while none has been given: the source's
   * `undefined`), `x`/`y` the layout position and `x0`/`y0` the position
   * snapshotted at the end of the previous render pass.
   */
  class HNode {
    const data: DataNode
    const parent: HNode?
    const depth: nat
    var children: Option<seq<HNode>>
    var hidden: Option<seq<HNode>>
    var id: nat
    var x: real
    var y: real
    var x0: real
    var y0: real

    /** A node as the hierarchy builder creates it: no lists, no id, at the origin. */
    constructor (data: DataNode, parent: HNode?, depth: nat)
      ensures this.data == data && this.parent == parent && this.depth == depth
      ensures children == None && hidden == None && id == 0
      ensures x == 0.0 && y == 0.0 && x0 == 0.0 && y0 == 0.0
    {
      this.data := data;
      this.parent := parent;
      this.depth := depth;
      children := None;
      hidden := None;
      id := 0;
      x, y, x0, y0 := 0.0, 0.0, 0.0, 0.0;
    }
  }

  /**
   * The data edit of `addChildNode`, the same in both revisions: the node
   * gets an empty child list if it had none, then a new leaf named
   * `Edit Task k+1` (k its number of children before) is appended to it.
   */
  method AppendTask(p: DataNode) returns (c: DataNode)
    modifies p`children
    ensures fresh(c) && c.name == TaskName(|old(ChildList(p))| + 1) && c.children == None
    ensures p.children == Some(old(ChildList(p)) + [c])
  {
    if p.children.None? {
      p.children := Some([]);
    }
    var newTaskNumber := |p.children.value| + 1;
    c := new DataNode(TaskName(newTaskNumber));
    p.children := Some(p.children.value + [c]);
  }

  /** `c` is the placeholder child added as the `k`-th child: `{name: "Edit Task k"}`. */
  ghost predicate PlaceholderAt(c: DataNode, k: nat)
    reads c`name, c`children
  {
    c.name == TaskName(k) && c.children == None
  }

  /** A layout position: `x` across the tree, `y` along the depth axis. */
  datatype Point = Point(x: real, y: real)

  /** The shallow copy `{...data}` handed to the change callback: the top-level fields of the root data node. */
  datatype Snapshot = Snapshot(name: string, children: Option<seq<DataNode>>)

  function SnapshotOf(d: DataNode): (s: Snapshot)
    reads d`name, d`children
    ensures s.name == d.name && s.children == d.children
  {
    Snapshot(d.name, d.children)
  }

  /** Why a structural edit was refused (the source logs these and returns). */
  datatype Reason = NoNodeSelected | CannotDeleteRoot

  /** The typed result of a structural edit. */
  datatype Outcome = Applied | Rejected(reason: Reason)

  /** No hierarchy node occurs twice in `nodes`: each one is absent from the part before it. */
  ghost predicate Distinct(nodes: seq<HNode>)
    decreases |nodes|
  {
    nodes == [] || (nodes[|nodes| - 1] !in nodes[..|nodes| - 1] && Distinct(nodes[..|nodes| - 1]))
  }

  /** Distinctness, pair by pair. */
  lemma {:induction false} DistinctPairwise(nodes: seq<HNode>)
    requires Distinct(nodes)
    ensures forall j, k :: 0 <= j < k < |nodes| ==> nodes[j] != nodes[k]
    decreases |nodes|
  {
    if nodes != [] {
      var init := nodes[..|nodes| - 1];
      DistinctPairwise(init);
      forall j, k | 0 <= j < k < |nodes|
        ensures nodes[j] != nodes[k]
      {
        assert nodes[j] == init[j];
        if k < |nodes| - 1 {
          assert nodes[k] == init[k];
        }
      }
    }
  }

  /**
   * What the renderer relies on about the list of visible nodes the layout's
   * `descendants()` returns: the root comes first, no node is listed twice,
   * and every other node sits one level below a parent that is listed too.
   */
  ghost predicate Descendants(root: HNode, nodes: seq<HNode>)
  {
    && |nodes| > 0 && nodes[0] == root && root.parent == null && root.depth == 0
    && Distinct(nodes)
    && (forall k :: 0 < k < |nodes| ==>
          && nodes[k].parent != null && nodes[k].parent in nodes
          && nodes[k].depth == nodes[k].parent.depth + 1)
  }

  // ---------------------------------------------------------------------------
  // Render ids

  /** The ids of the first `hi` nodes of `nodes`, position by position. */
  function IdsUpTo(nodes: seq<HNode>, hi: nat): (ids: seq<nat>)
    requires hi <= |nodes|
    reads nodes`id
    ensures |ids| == hi && forall k :: 0 <= k < hi ==> ids[k] == nodes[k].id
  {
    if hi == 0 then [] else IdsUpTo(nodes, hi - 1) + [nodes[hi - 1].id]
  }

  /** The ids of `nodes`, position by position. */
  function IdList(nodes: seq<HNode>): (ids: seq<nat>)
    reads nodes`id
    ensures |ids| == |nodes| && forall k :: 0 <= k < |nodes| ==> ids[k] == nodes[k].id
  {
    IdsUpTo(nodes, |nodes|)
  }

  /** Between two states in which every node of `nodes` holds the same id, the id list is the same. */
  twostate lemma IdsKept(nodes: seq<HNode>)
    requires forall k :: 0 <= k < |nodes| ==> nodes[k].id == old(nodes[k].id)
    ensures IdList(nodes) == old(IdList(nodes))
  {
  }

  /** The ids carried by `nodes`. */
  function IdsOf(nodes: seq<HNode>): (ids: set<nat>)
    reads nodes`id
  {
    Members(IdList(nodes))
  }

  /** No two nodes of `nodes` carry the same id. */
  ghost predicate DistinctIds(nodes: seq<HNode>)
    reads nodes`id
  {
    NoRepeats(IdList(nodes))
  }

  /** Different ids, pair by pair, in both directions. */
  lemma DistinctIdsPairwise(nodes: seq<HNode>)
    ensures DistinctIds(nodes) <==> forall j, k :: 0 <= j < k < |nodes| ==> nodes[j].id != nodes[k].id
  {
    NoRepeatsPairwise(IdList(nodes));
  }

  /** The position of a hierarchy node. */
  function PosOf(n: HNode): (p: Point)
    reads n`x, n`y
  {
    Point(n.x, n.y)
  }
}
