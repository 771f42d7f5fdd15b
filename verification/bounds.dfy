/** The blocks bounding box `WorkspaceView.onMeasure` computes: the union of
    every child block group's rectangle in view coordinates. */
module Bounds {
  import opened Geometry
  import opened JavaInt

  /** A child block group: its first block's workspace position and its
      measured size. */
  datatype Child = Child(position: Point, width: nat, height: nat)

  /** No edge computation for this child leaves the Java `int` range. */
  predicate FitsInInt(toViewDelta: Point -> Point, rtl: bool, c: Child) {
    var p := toViewDelta(c.position);
    var x := if rtl then p.x - c.width else p.x;
    IsInt(p.x) && IsInt(p.y) && IsInt(x) && IsInt(x + c.width) && IsInt(p.y + c.height)
  }

  /** The child's rectangle in view coordinates, independent of scrolling:
      the workspace-to-view delta of its position, moved left by its width
      under right-to-left layout, with Java's 32-bit `int` arithmetic. Its
      computed edges are Java `int`s; a right edge that overflows wraps
      below the left edge, so the rectangle is empty and the union ignores
      it. */
  function ChildRect(toViewDelta: Point -> Point, rtl: bool, c: Child): (r: Rect)
    ensures IsInt(r.right) && IsInt(r.bottom) && (rtl ==> IsInt(r.left))
    ensures var p := toViewDelta(c.position);
            !rtl && IsInt(p.x) && c.width <= MAX_INT && p.x + c.width > MAX_INT ==> IsEmpty(r)
  {
    var p := toViewDelta(c.position);
    var x := if rtl then Wrap(p.x - c.width) else p.x;
    Rect(x, p.y, Wrap(x + c.width), Wrap(p.y + c.height))
  }

  /** When no edge overflows, a child's rectangle has the child's measured
      size and is anchored at the view delta of its position: on its left
      edge, or on its right edge under right-to-left layout. */
  lemma ChildRectSize(toViewDelta: Point -> Point, rtl: bool, c: Child)
    requires FitsInInt(toViewDelta, rtl, c)
    ensures var r := ChildRect(toViewDelta, rtl, c);
            && r.right - r.left == c.width && r.bottom - r.top == c.height
            && r.top == toViewDelta(c.position).y
            && (if rtl then r.right else r.left) == toViewDelta(c.position).x
  {
  }

  /** The `i`-th child has a non-empty rectangle. */
  predicate Shows(toViewDelta: Point -> Point, rtl: bool, children: seq<Child>, i: int)
    requires 0 <= i < |children|
  {
    !IsEmpty(ChildRect(toViewDelta, rtl, children[i]))
  }

  /** The bounding-box loop of `onMeasure`. The result is empty (all zero)
      when no child shows, in particular with no children; otherwise it
      contains every showing child's rectangle and each of its edges is an
      edge of one of them, so it is the smallest such rectangle. */
  method MeasureBoundingBox(toViewDelta: Point -> Point, rtl: bool, children: seq<Child>)
    returns (box: Rect)
    ensures (forall i :: 0 <= i < |children| ==> !Shows(toViewDelta, rtl, children, i)) ==> box == EmptyRect
    ensures forall i :: 0 <= i < |children| && Shows(toViewDelta, rtl, children, i) ==>
              Contains(box, ChildRect(toViewDelta, rtl, children[i]))
    ensures (exists i :: 0 <= i < |children| && Shows(toViewDelta, rtl, children, i)) ==>
              && !IsEmpty(box)
              && (exists i :: 0 <= i < |children| && Shows(toViewDelta, rtl, children, i)
                                && box.left == ChildRect(toViewDelta, rtl, children[i]).left)
              && (exists i :: 0 <= i < |children| && Shows(toViewDelta, rtl, children, i)
                                && box.top == ChildRect(toViewDelta, rtl, children[i]).top)
              && (exists i :: 0 <= i < |children| && Shows(toViewDelta, rtl, children, i)
                                && box.right == ChildRect(toViewDelta, rtl, children[i]).right)
              && (exists i :: 0 <= i < |children| && Shows(toViewDelta, rtl, children, i)
                                && box.bottom == ChildRect(toViewDelta, rtl, children[i]).bottom)
  {
    box := EmptyRect;
    // Whether some child so far shows, and which children give the edges.
    ghost var shown := false;
    ghost var li, ti, ri, bi := 0, 0, 0, 0;
    var n := 0;
    while n < |children|
      invariant 0 <= n <= |children|
      invariant !shown ==> box == EmptyRect
      invariant !shown ==> forall i :: 0 <= i < n ==> !Shows(toViewDelta, rtl, children, i)
      invariant forall i :: 0 <= i < n && Shows(toViewDelta, rtl, children, i) ==>
                  Contains(box, ChildRect(toViewDelta, rtl, children[i]))
      invariant shown ==> !IsEmpty(box)
      invariant shown ==> 0 <= li < n && Shows(toViewDelta, rtl, children, li)
                          && box.left == ChildRect(toViewDelta, rtl, children[li]).left
      invariant shown ==> 0 <= ti < n && Shows(toViewDelta, rtl, children, ti)
                          && box.top == ChildRect(toViewDelta, rtl, children[ti]).top
      invariant shown ==> 0 <= ri < n && Shows(toViewDelta, rtl, children, ri)
                          && box.right == ChildRect(toViewDelta, rtl, children[ri]).right
      invariant shown ==> 0 <= bi < n && Shows(toViewDelta, rtl, children, bi)
                          && box.bottom == ChildRect(toViewDelta, rtl, children[bi]).bottom
    {
      var rect := ChildRect(toViewDelta, rtl, children[n]);
      if !IsEmpty(rect) {
        if !shown {
          li, ti, ri, bi := n, n, n, n;
        } else {
          if box.left > rect.left { li := n; }
          if box.top > rect.top { ti := n; }
          if box.right < rect.right { ri := n; }
          if box.bottom < rect.bottom { bi := n; }
        }
        shown := true;
      }
      box := Union(box, rect);
      n := n + 1;
    }
  }
}
