/**
 * The steps of one render pass that both revisions of the renderer share:
 * placing the visible nodes (`y = depth * 180`), giving every node its render
 * id once from a counter (`d.id || (d.id = ++i)`), the enter/update/exit join
 * keyed by id, the circle fill rule, the connector of every visible link and
 * the closing `x0, y0 := x, y` snapshot.
 */
module RenderPass {
  import opened Optional
  import opened NatLists
  import opened Hierarchy
  import opened TreeUtility

  // ---------------------------------------------------------------------------
  // Layout

  /** Horizontal distance between two generations. */
  const LevelWidth: real := 180.0

  /** The depth coordinate the renderer gives a node: its depth times the level width. */
  function DepthY(depth: nat): real
  {
    depth as real * LevelWidth
  }

  /** Every node of `nodes` sits at its layout coordinate across the tree and at its depth's level. */
  ghost predicate Placed(nodes: seq<HNode>, layoutX: seq<real>)
    reads nodes`x, nodes`y
  {
    && |layoutX| == |nodes|
    && forall k :: 0 <= k < |nodes| ==> nodes[k].x == layoutX[k] && nodes[k].y == DepthY(nodes[k].depth)
  }

  /**
   * After the layout step, generations are evenly spaced: the root sits at 0
   * and every other visible node one level width further than its parent.
   */
  lemma ChildOneLevelFurther(root: HNode, nodes: seq<HNode>, layoutX: seq<real>)
    requires Descendants(root, nodes) && Placed(nodes, layoutX)
    ensures nodes[0].y == 0.0
    ensures forall k :: 0 < k < |nodes| ==> nodes[k].y == nodes[k].parent.y + LevelWidth
  {
    forall k | 0 < k < |nodes|
      ensures nodes[k].y == nodes[k].parent.y + LevelWidth
    {
      var j :| 0 <= j < |nodes| && nodes[j] == nodes[k].parent;
      assert nodes[j].y == DepthY(nodes[j].depth);
    }
  }

  /** Every node of `nodes` remembers its current position as the origin of the next pass. */
  ghost predicate Snapshotted(nodes: seq<HNode>)
    reads nodes`x, nodes`y, nodes`x0, nodes`y0
  {
    forall k :: 0 <= k < |nodes| ==> nodes[k].x0 == nodes[k].x && nodes[k].y0 == nodes[k].y
  }

  /**
   * The layout step: the tidy layout's across-tree coordinate (`layoutX`, computed
   * by the layout library) is stored in `x`, and `y` is overwritten by the depth rule.
   */
  method PlaceNodes(nodes: seq<HNode>, layoutX: seq<real>)
    requires Distinct(nodes) && |layoutX| == |nodes|
    modifies nodes`x, nodes`y
    ensures Placed(nodes, layoutX)
  {
    DistinctPairwise(nodes);
    var k := 0;
    while k < |nodes|
      invariant 0 <= k <= |nodes|
      invariant forall j :: 0 <= j < k ==> nodes[j].x == layoutX[j] && nodes[j].y == DepthY(nodes[j].depth)
    {
      nodes[k].x := layoutX[k];
      nodes[k].y := DepthY(nodes[k].depth);
      k := k + 1;
    }
  }

  /** The closing step of a pass: every visible node remembers its position as the next pass's origin. */
  method SnapshotPositions(nodes: seq<HNode>)
    modifies nodes`x0, nodes`y0
    ensures Snapshotted(nodes)
  {
    var k := 0;
    while k < |nodes|
      invariant 0 <= k <= |nodes|
      invariant forall j :: 0 <= j < k ==> nodes[j].x0 == nodes[j].x && nodes[j].y0 == nodes[j].y
    {
      nodes[k].x0 := nodes[k].x;
      nodes[k].y0 := nodes[k].y;
      k := k + 1;
    }
  }

  // ---------------------------------------------------------------------------
  // Render ids

  /**
   * The id bookkeeping of a counter: `holder[id]` is the node that received
   * `id`, the ids issued so far are exactly `1..counter`, and every node of
   * the hierarchy holds either no id or the one it was issued.
   */
  ghost predicate IdsIssued(hier: set<HNode>, counter: nat, holder: map<nat, HNode>)
    reads hier`id
  {
    && (forall id :: id in holder <==> 1 <= id <= counter)
    && (forall id :: id in holder ==> holder[id] in hier && holder[id].id == id)
    && (forall n {:trigger n in hier} :: n in hier ==> n.id <= counter && (n.id != 0 ==> n.id in holder && holder[n.id] == n))
  }

  /** No two nodes of the hierarchy share an id. */
  lemma IssuedIdsDistinct(hier: set<HNode>, counter: nat, holder: map<nat, HNode>, m: HNode, n: HNode)
    requires IdsIssued(hier, counter, holder)
    requires m in hier && n in hier && m.id != 0 && m.id == n.id
    ensures m == n
  {
  }

  /** When the counter is positive, its value is the id of some node: the largest id issued. */
  lemma CounterIsLargestId(hier: set<HNode>, counter: nat, holder: map<nat, HNode>)
    requires IdsIssued(hier, counter, holder)
    ensures counter > 0 ==> counter in holder && holder[counter] in hier && holder[counter].id == counter
    ensures forall n :: n in hier ==> n.id <= counter
  {
  }

  /** Visible nodes that all hold ids hold pairwise different ones. */
  lemma VisibleIdsDistinct(hier: set<HNode>, counter: nat, holder: map<nat, HNode>, nodes: seq<HNode>)
    requires IdsIssued(hier, counter, holder) && Distinct(nodes)
    requires forall k :: 0 <= k < |nodes| ==> nodes[k] in hier && nodes[k].id >= 1
    ensures DistinctIds(nodes)
  {
    DistinctPairwise(nodes);
    forall j, k | 0 <= j < k < |nodes|
      ensures nodes[j].id != nodes[k].id
    {
      if nodes[j].id == nodes[k].id {
        IssuedIdsDistinct(hier, counter, holder, nodes[j], nodes[k]);
      }
    }
    DistinctIdsPairwise(nodes);
  }

  // ---------------------------------------------------------------------------
  // The data join

  /** The three selections of a keyed join. */
  datatype Join = Join(entering: set<nat>, updating: set<nat>, exiting: set<nat>)

  /**
   * Joining the keys of the new data against the keys of the rendered shapes:
   * entering keys have no shape, updating keys have one, exiting shapes have no
   * datum any more.
   */
  function JoinKeys(visible: set<nat>, rendered: set<nat>): (j: Join)
    ensures j.entering + j.updating == visible && j.entering !! rendered
    ensures j.updating + j.exiting == rendered && j.exiting !! visible
  {
    Join(visible - rendered, visible * rendered, rendered - visible)
  }

  /** Rendering the same nodes again enters and removes nothing. */
  lemma RejoinIsQuiet(visible: set<nat>)
    ensures JoinKeys(visible, visible) == Join({}, visible, {})
  {
  }

  /** The part of a map whose keys are in `keep`: the shapes left once the exiting ones are removed. */
  function Restrict<V>(m: map<nat, V>, keep: set<nat>): (r: map<nat, V>)
    ensures r.Keys == m.Keys * keep
    ensures forall id :: id in r ==> r[id] == m[id]
  {
    map id | id in m && id in keep :: m[id]
  }

  // ---------------------------------------------------------------------------
  // Circle fill

  /** The three circle fills. */
  datatype Fill = SelectedFill | CollapsedFill | PlainFill

  /** The colour each fill paints. */
  function Colour(f: Fill): (c: string)
  {
    match f
    case SelectedFill => "#89CFF0"
    case CollapsedFill => "lightsteelblue"
    case PlainFill => "#fff"
  }

  /** The three colours are different, so the fill can be read back from the colour. */
  lemma ColoursDiffer(f: Fill, g: Fill)
    ensures Colour(f) == Colour(g) <==> f == g
  {
    if f != g {
      assert Colour(f)[1] != Colour(g)[1] || |Colour(f)| != |Colour(g)|;
    }
  }

  /** The fill of a node's circle: the selection colour wins, then a node with hidden children is shaded. */
  function FillRule(isSelected: bool, hasHidden: bool): (f: Fill)
    ensures f == SelectedFill <==> isSelected
    ensures f == CollapsedFill <==> !isSelected && hasHidden
    ensures f == PlainFill <==> !isSelected && !hasHidden
  {
    if isSelected then SelectedFill else if hasHidden then CollapsedFill else PlainFill
  }

  // ---------------------------------------------------------------------------
  // What the drawing reads of a node

  /**
   * What the attribute callbacks of one pass read of a visible node: its id
   * (the join key), the fill the rule gives it, its position and the
   * position of its parent (where its connector starts; the root's own
   * position for the root, which has no connector).
   */
  datatype View = View(id: nat, fill: Fill, at: Point, from: Point)

  /** The view of node `k` of `nodes` with `selected` as the selection. */
  function ViewOf(nodes: seq<HNode>, k: nat, selected: HNode?): (v: View)
    requires k < |nodes|
    reads nodes`id, nodes`hidden, nodes`x, nodes`y
  {
    var n := nodes[k];
    View(n.id, FillRule(n == selected, n.hidden.Some?), PosOf(n),
         if n.parent != null && n.parent in nodes then PosOf(n.parent) else PosOf(n))
  }

  /** The views of the first `hi` nodes of `nodes`. */
  function ViewsUpTo(nodes: seq<HNode>, hi: nat, selected: HNode?): (vs: seq<View>)
    requires hi <= |nodes|
    reads nodes`id, nodes`hidden, nodes`x, nodes`y
    ensures |vs| == hi && forall k :: 0 <= k < hi ==> vs[k] == ViewOf(nodes, k, selected)
  {
    if hi == 0 then [] else ViewsUpTo(nodes, hi - 1, selected) + [ViewOf(nodes, hi - 1, selected)]
  }

  /** The views of the visible nodes, in layout order. */
  function ViewsOf(nodes: seq<HNode>, selected: HNode?): (vs: seq<View>)
    reads nodes`id, nodes`hidden, nodes`x, nodes`y
    ensures |vs| == |nodes| && forall k :: 0 <= k < |nodes| ==> vs[k] == ViewOf(nodes, k, selected)
  {
    ViewsUpTo(nodes, |nodes|, selected)
  }

  /** The keys of the views `vs`, position by position. */
  function KeysUpTo(vs: seq<View>, hi: nat): (ks: seq<nat>)
    requires hi <= |vs|
    ensures |ks| == hi && forall k :: 0 <= k < hi ==> ks[k] == vs[k].id
  {
    if hi == 0 then [] else KeysUpTo(vs, hi - 1) + [vs[hi - 1].id]
  }

  function KeyList(vs: seq<View>): (ks: seq<nat>)
    ensures |ks| == |vs| && forall k :: 0 <= k < |vs| ==> ks[k] == vs[k].id
  {
    KeysUpTo(vs, |vs|)
  }

  /** The node keys of a pass. */
  function Keys(vs: seq<View>): (ks: set<nat>)
  {
    Members(KeyList(vs))
  }

  /** The link keys of a pass: the key of every view but the first (the root's), since a link is keyed by its target. */
  function LinkKeys(vs: seq<View>): (ks: set<nat>)
  {
    if vs == [] then {} else Between(KeyList(vs), 1, |vs|)
  }

  /** No two views share a key. */
  ghost predicate UniqueKeys(vs: seq<View>)
  {
    NoRepeats(KeyList(vs))
  }

  /** With unique keys, the links are keyed by every node key but the root's. */
  lemma LinkKeysAreNonRootKeys(vs: seq<View>)
    requires |vs| > 0 && UniqueKeys(vs)
    ensures LinkKeys(vs) == Keys(vs) - {vs[0].id}
  {
    var ks := KeyList(vs);
    NoRepeatsAt(ks, 0);
    BetweenLacks(ks, 1, |vs|, ks[0]);
    assert Between(ks, 0, 1) == {ks[0]};
    BetweenJoin(ks, 0, 1, |vs|);
  }

  /** The ids of the link targets: every visible node but the root, which is listed first. */
  function LinkTargets(nodes: seq<HNode>): (ids: set<nat>)
    reads nodes`id
  {
    if nodes == [] then {} else Between(IdList(nodes), 1, |nodes|)
  }

  /** The views carry the nodes' ids: the keys of a pass are the ids of its nodes, whatever the selection. */
  lemma ViewsCarryIds(nodes: seq<HNode>, selected: HNode?)
    ensures KeyList(ViewsOf(nodes, selected)) == IdList(nodes)
    ensures Keys(ViewsOf(nodes, selected)) == IdsOf(nodes)
    ensures LinkKeys(ViewsOf(nodes, selected)) == LinkTargets(nodes)
    ensures UniqueKeys(ViewsOf(nodes, selected)) == DistinctIds(nodes)
  {
  }

  /** Every view has a circle in `fills`, painted by the fill rule. */
  ghost predicate FillsFit(fills: map<nat, Fill>, vs: seq<View>)
  {
    forall k :: 0 <= k < |vs| ==> vs[k].id in fills && fills[vs[k].id] == vs[k].fill
  }

  /**
   * `selection.attr('fill', rule)` over the circles whose key is in `targets`:
   * those circles get their view's fill, every other rendered circle keeps its own.
   */
  method PaintCircles(fills: map<nat, Fill>, vs: seq<View>, targets: set<nat>) returns (r: map<nat, Fill>)
    requires UniqueKeys(vs) && targets <= Keys(vs)
    ensures r.Keys == fills.Keys + targets
    ensures forall k :: 0 <= k < |vs| && vs[k].id in targets ==> vs[k].id in r && r[vs[k].id] == vs[k].fill
    ensures forall id :: id in fills && id !in targets ==> r[id] == fills[id]
  {
    var ks := KeyList(vs);
    r := fills;
    var k := 0;
    while k < |vs|
      invariant 0 <= k <= |vs|
      invariant r.Keys == fills.Keys + Between(ks, 0, k) * targets
      invariant forall j :: 0 <= j < k && vs[j].id in targets ==> vs[j].id in r && r[vs[j].id] == vs[j].fill
      invariant forall id :: id in fills && id !in targets ==> r[id] == fills[id]
    {
      NoRepeatsAt(ks, k);
      if vs[k].id in targets {
        r := r[vs[k].id := vs[k].fill];
      }
      k := k + 1;
    }
  }

  // ---------------------------------------------------------------------------
  // Connectors

  /** Every view but the first has, under its key, the connector from its parent's position to its own. */
  ghost predicate LinksFit(paths: map<nat, Path>, vs: seq<View>)
  {
    forall k :: 0 < k < |vs| ==> vs[k].id in paths && paths[vs[k].id] == DiagonalPath(vs[k].from, vs[k].at)
  }

  /** The steady-state connector of every visible link, keyed by its target's id. */
  method RouteLinks(vs: seq<View>) returns (paths: map<nat, Path>)
    requires |vs| > 0 && UniqueKeys(vs)
    ensures paths.Keys == LinkKeys(vs)
    ensures LinksFit(paths, vs)
  {
    var ks := KeyList(vs);
    paths := map[];
    var k := 1;
    while k < |vs|
      invariant 1 <= k <= |vs|
      invariant paths.Keys == Between(ks, 1, k)
      invariant forall j :: 0 < j < k ==> vs[j].id in paths && paths[vs[j].id] == DiagonalPath(vs[j].from, vs[j].at)
    {
      NoRepeatsAt(ks, k);
      paths := paths[vs[k].id := DiagonalPath(vs[k].from, vs[k].at)];
      k := k + 1;
    }
  }

  // ---------------------------------------------------------------------------
  // One pass over the drawing surface

  /**
   * What one pass asks the drawing surface to do: the node and link joins,
   * where entering nodes appear and exiting ones go, and the connectors.
   */
  datatype Pass = Pass(
    nodes: Join,
    links: Join,
    enterFrom: Point,
    exitTo: Point,
    linkEnterPath: Path,
    linkExitPath: Path,
    linkPaths: map<nat, Path>)

  /** The surface before any pass. */
  const NoPass := Pass(Join({}, {}, {}), Join({}, {}, {}), Point(0.0, 0.0), Point(0.0, 0.0),
                       DiagonalPath(Point(0.0, 0.0), Point(0.0, 0.0)),
                       DiagonalPath(Point(0.0, 0.0), Point(0.0, 0.0)), map[])

  /** The drawing surface: the rendered circles with their fill, the rendered connectors and the last pass. */
  datatype Surface = Surface(fills: map<nat, Fill>, linkKeys: set<nat>, pass: Pass)

  /** The surface before any pass. */
  const Blank := Surface(map[], {}, NoPass)

  /**
   * The node join over the rendered circles `fills`: entering circles are
   * painted, then every merged circle is repainted, and the exiting shapes
   * are removed.
   */
  method NodeShapes(fills: map<nat, Fill>, vs: seq<View>) returns (r: map<nat, Fill>, nodeJoin: Join)
    requires UniqueKeys(vs)
    ensures r.Keys == Keys(vs) && nodeJoin == JoinKeys(Keys(vs), fills.Keys)
    ensures FillsFit(r, vs)
  {
    var visible := Keys(vs);
    nodeJoin := JoinKeys(visible, fills.Keys);
    r := PaintCircles(fills, vs, nodeJoin.entering);
    r := PaintCircles(r, vs, visible);
    r := Restrict(r, visible);
    BetweenHas(KeyList(vs), 0, |vs|);
  }

  /** The surface after a pass over the views `vs` drawn on `prior`, entering at `enterFrom` and exiting to `exitTo`. */
  ghost predicate Drawn(s: Surface, prior: Surface, vs: seq<View>, enterFrom: Point, exitTo: Point)
  {
    && |vs| > 0
    && s.fills.Keys == Keys(vs) && s.linkKeys == LinkKeys(vs)
    && FillsFit(s.fills, vs)
    && s.pass.nodes == JoinKeys(Keys(vs), prior.fills.Keys)
    && s.pass.links == JoinKeys(LinkKeys(vs), prior.linkKeys)
    && s.pass.enterFrom == enterFrom && s.pass.exitTo == exitTo
    && s.pass.linkEnterPath == DiagonalPath(enterFrom, enterFrom)
    && s.pass.linkExitPath == DiagonalPath(exitTo, exitTo)
    && s.pass.linkPaths.Keys == LinkKeys(vs) && LinksFit(s.pass.linkPaths, vs)
  }

  /**
   * The drawing of one pass: the node join with the fills, the link join keyed
   * by target, entering links drawn from the collapsed path at `enterFrom` and
   * exiting ones shrunk to the collapsed path at `exitTo`.
   */
  method Draw(prior: Surface, vs: seq<View>, enterFrom: Point, exitTo: Point) returns (s: Surface)
    requires |vs| > 0 && UniqueKeys(vs)
    ensures Drawn(s, prior, vs, enterFrom, exitTo)
  {
    var painted, nodeJoin := NodeShapes(prior.fills, vs);
    var linkJoin := JoinKeys(LinkKeys(vs), prior.linkKeys);
    var paths := RouteLinks(vs);
    s := Surface(painted, LinkKeys(vs),
                 Pass(nodeJoin, linkJoin, enterFrom, exitTo, DiagonalPath(enterFrom, enterFrom), DiagonalPath(exitTo, exitTo), paths));
  }

  /** The surface `s` holds one node shape per node of `nodes` and one connector per non-root node of it. */
  ghost predicate Displayed(s: Surface, nodes: seq<HNode>)
    reads nodes`id
  {
    && |nodes| > 0
    && (forall k :: 0 <= k < |nodes| ==> nodes[k].id >= 1)
    && s.fills.Keys == IdsOf(nodes) && s.linkKeys == LinkTargets(nodes)
  }

  /** The state a render pass over `nodes`, laid out at `layoutX` with `selected` selected, leaves behind on `s`. */
  ghost predicate Shown(s: Surface, nodes: seq<HNode>, layoutX: seq<real>, selected: HNode?)
    reads nodes`id, nodes`x, nodes`y, nodes`x0, nodes`y0, nodes`hidden
  {
    && Displayed(s, nodes)
    && DistinctIds(nodes)
    && Placed(nodes, layoutX)
    && Snapshotted(nodes)
    && FillsFit(s.fills, ViewsOf(nodes, selected))
  }
}
