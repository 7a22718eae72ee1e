/**
 * The two tree utilities: collapsing/expanding a hierarchy node by swapping its
 * visible and hidden child lists, and the connector path between two nodes.
 */
module TreeUtility {
  import opened Optional
  import opened Hierarchy

  // ---------------------------------------------------------------------------
  // Collapse / expand

  /** The pair of child lists of a hierarchy node: `shown` is `children`, `hidden` is `_children`. */
  datatype Lists<T> = Lists(shown: Option<seq<T>>, hidden: Option<seq<T>>) {
    /** A node with a visible list is expanded. */
    predicate Expanded() { shown.Some? }
    /** A node whose only list is hidden is collapsed. */
    predicate Collapsed() { shown.None? && hidden.Some? }
    /** A node with neither list is a leaf. */
    predicate Leaf() { shown.None? && hidden.None? }
    /** The lists never hold two child sequences at once. */
    predicate AtMostOne() { shown.None? || hidden.None? }
  }

  /**
   * The toggle rule: a visible list is parked in `hidden` and `shown` cleared;
   * otherwise `hidden` is brought back into `shown` and cleared.
   */
  function Toggled<T>(l: Lists<T>): (r: Lists<T>)
    ensures r.AtMostOne()
    ensures l.Expanded() ==> r.Collapsed() && r.hidden == l.shown
    ensures l.Collapsed() ==> r.Expanded() && r.shown == l.hidden
    ensures l.Leaf() ==> r.Leaf()
    ensures !l.Expanded() ==> r.hidden.None?
  {
    if l.shown.Some? then Lists(None, l.shown) else Lists(l.hidden, None)
  }

  /** The child lists of a hierarchy node, as a value. */
  function ListsOf(d: HNode): Lists<HNode>
    reads d
  {
    Lists(d.children, d.hidden)
  }

  /** The toggle: swaps `children` and `_children` of `d` in place and touches nothing else. */
  method ToggleNode(d: HNode)
    modifies d`children, d`hidden
    ensures ListsOf(d) == Toggled(old(ListsOf(d)))
  {
    if d.children.Some? {
      d.hidden := d.children;
      d.children := None;
    } else {
      d.children := d.hidden;
      d.hidden := None;
    }
  }

  /** Toggling twice restores both lists exactly when they did not both hold a sequence. */
  lemma ToggleTwice<T>(l: Lists<T>)
    ensures Toggled(Toggled(l)) == l <==> l.AtMostOne()
  {
    if l.shown.Some? && l.hidden.Some? {
      assert Toggled(Toggled(l)).hidden.None?;
    }
  }

  /** Collapsing then expanding brings back the identical visible sequence. */
  lemma CollapseExpandRestoresChildren<T>(l: Lists<T>)
    requires l.Expanded()
    ensures Toggled(Toggled(l)).shown == l.shown
    ensures Toggled(Toggled(l)).hidden.None?
  {
  }

  /** The sequences a node's lists hold; a toggle of a well-formed pair neither loses nor adds one. */
  ghost function Held<T>(l: Lists<T>): multiset<seq<T>>
  {
    (if l.shown.Some? then multiset{l.shown.value} else multiset{})
      + (if l.hidden.Some? then multiset{l.hidden.value} else multiset{})
  }

  lemma ToggleKeepsChildren<T>(l: Lists<T>)
    requires l.AtMostOne()
    ensures Held(Toggled(l)) == Held(l)
  {
  }

  // ---------------------------------------------------------------------------
  // Connector paths

  /** A point of the drawing surface: `h` horizontal, `v` vertical. The tree is drawn sideways, so `h` is a layout `y`. */
  datatype Vec2 = Vec2(h: real, v: real)

  /** A cubic Bezier path `M start C c1 c2 end`. */
  datatype Path = Path(start: Vec2, c1: Vec2, c2: Vec2, end: Vec2)

  /** The surface point at which a layout position is drawn. */
  function Screen(p: Point): Vec2
  {
    Vec2(p.y, p.x)
  }

  /**
   * The elbow connector from `s` to `d`, `M s C mid,s.x mid,d.x d` with `mid`
   * halfway along the depth axis: it starts at `s` and ends at `d`, leaves and
   * arrives horizontally, and both control points sit halfway along the depth axis.
   */
  function DiagonalPath(s: Point, d: Point): (p: Path)
    ensures p.start == Screen(s) && p.end == Screen(d)
    ensures p.c1.v == p.start.v && p.c2.v == p.end.v
    ensures p.c1.h == p.c2.h && p.c1.h - p.start.h == p.end.h - p.c1.h
  {
    var mid := (s.y + d.y) / 2.0;
    Path(Screen(s), Vec2(mid, s.x), Vec2(mid, d.x), Screen(d))
  }

  /** A path whose four points coincide. */
  predicate Degenerate(p: Path)
  {
    p.start == p.c1 == p.c2 == p.end
  }

  /** Drawing from a point to itself collapses the connector to that point. */
  lemma DiagonalToSelf(o: Point)
    ensures Degenerate(DiagonalPath(o, o))
    ensures DiagonalPath(o, o).start == Screen(o)
  {
  }

  /** The path traversed backwards. */
  function Reversed(p: Path): Path
  {
    Path(p.end, p.c2, p.c1, p.start)
  }

  /** The connector between two nodes is the same curve whichever end it is drawn from. */
  lemma DiagonalSymmetric(s: Point, d: Point)
    ensures DiagonalPath(d, s) == Reversed(DiagonalPath(s, d))
  {
  }

  /** The point of the curve at parameter `t` (Bernstein form of a cubic Bezier). */
  function At(p: Path, t: real): Vec2
  {
    var u := 1.0 - t;
    var b0, b1, b2, b3 := u * u * u, 3.0 * u * u * t, 3.0 * u * t * t, t * t * t;
    Vec2(b0 * p.start.h + b1 * p.c1.h + b2 * p.c2.h + b3 * p.end.h,
         b0 * p.start.v + b1 * p.c1.v + b2 * p.c2.v + b3 * p.end.v)
  }

  /** The four cubic Bernstein weights add up to one. */
  lemma BernsteinSum(t: real)
    ensures (1.0 - t) * (1.0 - t) * (1.0 - t) + 3.0 * (1.0 - t) * (1.0 - t) * t
            + 3.0 * (1.0 - t) * t * t + t * t * t == 1.0
  {
    var u := 1.0 - t;
    calc {
      u * u * u + 3.0 * u * u * t + 3.0 * u * t * t + t * t * t;
      (u + t) * (u + t) * (u + t);
      1.0;
    }
  }

  /** A degenerate connector never moves: every point of it is the start point (zero displacement). */
  lemma DegenerateIsStationary(p: Path, t: real)
    requires Degenerate(p)
    ensures At(p, t) == p.start
  {
    BernsteinSum(t);
    var u := 1.0 - t;
    var b0, b1, b2, b3 := u * u * u, 3.0 * u * u * t, 3.0 * u * t * t, t * t * t;
    assert b0 * p.start.h + b1 * p.c1.h + b2 * p.c2.h + b3 * p.end.h == (b0 + b1 + b2 + b3) * p.start.h;
    assert b0 * p.start.v + b1 * p.c1.v + b2 * p.c2.v + b3 * p.end.v == (b0 + b1 + b2 + b3) * p.start.v;
  }

  /** The connector runs from the first node at t = 0 to the second at t = 1 and passes their midpoint at t = 1/2. */
  lemma DiagonalEndpointsAndMidpoint(s: Point, d: Point)
    ensures At(DiagonalPath(s, d), 0.0) == Screen(s)
    ensures At(DiagonalPath(s, d), 1.0) == Screen(d)
    ensures At(DiagonalPath(s, d), 0.5) == Vec2((s.y + d.y) / 2.0, (s.x + d.x) / 2.0)
  {
  }
}
