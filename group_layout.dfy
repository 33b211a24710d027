/** Geometry of the tree: RecalculateBoundary of every node kind, Group's two-phase layout
    and OffsetBoundary. Each operation has a specification function on node values and a
    method with the source's loops that is proved to compute it. */
module GroupLayout {
  import opened Geometry
  import opened GraphicObjects

  /** A point where a child is laid out. */
  datatype Point = Point(x: real, y: real)

  // ---------------------------------------------------------------- OffsetBoundary

  /** Object::OffsetBoundary moves the node's own boundary; Group's override also moves
      every visible child (and, through them, every visible descendant). */
  function Offset(n: Node, dx: real, dy: real): (r: Node)
    decreases n, 1, 0
    ensures r.boundary == n.boundary.Offset(dx, dy)
    ensures KindOf(r) == KindOf(n) && IsCollapsed(r) == IsCollapsed(n)
    ensures !n.Group? ==> r == WithBoundary(n, r.boundary)
    ensures n.Group? ==> r.Group? && |r.slots| == |n.slots| &&
                         r == n.(boundary := r.boundary, slots := r.slots)
  {
    if n.Group? then n.(boundary := n.boundary.Offset(dx, dy), slots := OffsetUpTo(n, |n.slots|, dx, dy))
    else WithBoundary(n, n.boundary.Offset(dx, dy))
  }

  /** The slots of group g once Group::OffsetBoundary's loop has run for indices below k:
      each visible child among them moved, everything else as it was. */
  function OffsetUpTo(g: Node, k: nat, dx: real, dy: real): (s: seq<Slot>)
    requires g.Group? && k <= |g.slots|
    decreases g, 0, k
    ensures |s| == |g.slots| && TitleCollapsed(s) == TitleCollapsed(g.slots)
    ensures forall j :: 0 <= j < |g.slots| ==>
              s[j] == if j < k && Placed(g.rule, g.slots, j)
                      then g.slots[j].(obj := Some(Offset(g.slots[j].obj.value, dx, dy)))
                      else g.slots[j]
  {
    if k == 0 then g.slots
    else
      var s := OffsetUpTo(g, k - 1, dx, dy);
      var i := k - 1;
      if Visible(g.rule, s, i) && g.slots[i].obj.Some? then
        s[i := g.slots[i].(obj := Some(Offset(g.slots[i].obj.value, dx, dy)))]
      else s
  }

  /** Group::OffsetBoundary and Object::OffsetBoundary, with the source's loop. */
  method OffsetBoundary(n: Node, dx: real, dy: real) returns (r: Node)
    decreases n
    ensures r == Offset(n, dx, dy)
  {
    if !n.Group? {
      return WithBoundary(n, n.boundary.Offset(dx, dy));
    }
    var slots := n.slots;
    var i := 0;
    while i < |slots|
      invariant 0 <= i <= |n.slots|
      invariant slots == OffsetUpTo(n, i, dx, dy)
    {
      assert slots[i] == n.slots[i];
      if Visible(n.rule, slots, i) {
        var obj := slots[i].obj;
        if obj.Some? {
          var moved := OffsetBoundary(obj.value, dx, dy);
          slots := slots[i := slots[i].(obj := Some(moved))];
        }
      }
      i := i + 1;
    }
    r := n.(boundary := n.boundary.Offset(dx, dy), slots := slots);
  }

  // ---------------------------------------------------------------- RecalculateBoundary

  /** Text::RecalculateBoundary: the extent MeasureString reports for the text in the
      leaf's effective font, anchored at (x, y). */
  function TextBoundary(n: Node, x: real, y: real, measure: Measure): (r: Rect)
    requires IsText(n)
    ensures r.Left() == x && r.Top() == y
  {
    var size := measure(n.text, FontOf(n));
    Rect(x, y, size.width, size.height)
  }

  /** The state of Group::RecalculateBoundary's first loop: the slots so far, the running
      boundary and the indents for the next visible child. */
  datatype Pass = Pass(slots: seq<Slot>, bound: Rect, indentX: real, indentY: real)

  /** Where the next visible child goes: on the primary axis at the far edge of the running
      boundary, on the cross axis at its near edge, each plus the pending indent. */
  function Origin(t: GroupType, p: Pass): Point {
    Point(p.indentX + (if t == Horizontal then p.bound.Right() else p.bound.Left()),
          p.indentY + (if t == Vertical then p.bound.Bottom() else p.bound.Top()))
  }

  /** RecalculateBoundary of any node laid out at (x, y). Line is its width wide and 2 high;
      the Image stub is 10 wide and 0 high; a group runs its two phases. */
  function Layout(n: Node, x: real, y: real, measure: Measure): (r: Node)
    decreases n, 2, 0
    ensures KindOf(r) == KindOf(n) && IsCollapsed(r) == IsCollapsed(n)
    ensures !n.Group? ==> r == WithBoundary(n, r.boundary) && r.boundary.Left() == x && r.boundary.Top() == y
    ensures n.Line? ==> r.boundary == Rect(x, y, n.width as real, 2.0)
    ensures n.Image? ==> r.boundary == Rect(x, y, 10.0, 0.0)
    ensures n.Group? ==> r.Group? && |r.slots| == |n.slots| &&
                         r == n.(boundary := r.boundary, slots := r.slots)
  {
    match n
    case Line(_, _, _, width) => WithBoundary(n, Rect(x, y, width as real, 2.0))
    case Image(_) => WithBoundary(n, Rect(x, y, 10.0, 0.0))
    case Group(_, t, _, _, _, rule) =>
      var p := PlaceUpTo(n, |n.slots|, x, y, measure);
      n.(boundary := p.bound, slots := AlignUpTo(t, rule, p.slots, p.bound, |p.slots|))
    case _ => WithBoundary(n, TextBoundary(n, x, y, measure))
  }

  /** Phase 1 after the slots below k: the group's boundary starts as the zero-size rect at
      (x, y) and the first indents are the group's leading insets. */
  function PlaceUpTo(g: Node, k: nat, x: real, y: real, measure: Measure): (p: Pass)
    requires g.Group? && k <= |g.slots|
    decreases g, 1, k
    ensures |p.slots| == |g.slots| && TitleCollapsed(p.slots) == TitleCollapsed(g.slots)
    ensures forall j :: k <= j < |g.slots| ==> p.slots[j] == g.slots[j]
    ensures forall j :: 0 <= j < |g.slots| ==>
              if Placed(g.rule, g.slots, j) then p.slots[j].obj.Some? && p.slots[j].(obj := None) == g.slots[j].(obj := None)
              else p.slots[j] == g.slots[j]
  {
    if k == 0 then Pass(g.slots, Anchor(x, y), g.indentBeforeX, g.indentBeforeY)
    else PlaceStep(g, PlaceUpTo(g, k - 1, x, y, measure), k - 1, measure)
  }

  /** One iteration of phase 1 at slot i: a visible child is laid out at the origin, the
      indents become its indent_after on the primary axis and 0 on the cross axis, and the
      running boundary grows by the union with the child's boundary. */
  function PlaceStep(g: Node, p: Pass, i: nat, measure: Measure): (q: Pass)
    requires g.Group? && i < |g.slots| && |p.slots| == |g.slots|
    decreases g, 0, 0
  {
    if Visible(g.rule, p.slots, i) && g.slots[i].obj.Some? then
      var o := Origin(g.groupType, p);
      var child := Layout(g.slots[i].obj.value, o.x, o.y, measure);
      var after := g.slots[i].indentAfter;
      Pass(p.slots[i := g.slots[i].(obj := Some(child))], Union(p.bound, child.boundary),
           if g.groupType == Horizontal then after else 0.0,
           if g.groupType == Horizontal then 0.0 else after)
    else p
  }

  /** The cross-axis move phase 2 gives a child with boundary c in a group with boundary b:
      the difference of the extents (halved for Middle) when the group is strictly larger
      on the cross axis, nothing otherwise. */
  function AlignShift(t: GroupType, b: Rect, c: Rect, a: AligningType): Point {
    if t == Horizontal && b.height > c.height then
      Point(0.0, if a == Middle then (b.height - c.height) / 2.0 else b.height - c.height)
    else if t == Vertical && b.width > c.width then
      Point(if a == Middle then (b.width - c.width) / 2.0 else b.width - c.width, 0.0)
    else Point(0.0, 0.0)
  }

  /** Phase 2 after the slots below k: each visible child that is not Min-aligned moved by
      its AlignShift against the phase-1 boundary b. */
  function AlignUpTo(t: GroupType, rule: VisibilityRule, s: seq<Slot>, b: Rect, k: nat): (r: seq<Slot>)
    requires k <= |s|
    ensures |r| == |s| && TitleCollapsed(r) == TitleCollapsed(s)
    ensures forall j :: 0 <= j < |s| ==>
              r[j] == if j < k && Placed(rule, s, j) && s[j].aligning != Min
                      then var c := s[j].obj.value;
                           var d := AlignShift(t, b, c.boundary, s[j].aligning);
                           s[j].(obj := Some(Offset(c, d.x, d.y)))
                      else s[j]
  {
    if k == 0 then s
    else
      var r := AlignUpTo(t, rule, s, b, k - 1);
      var i := k - 1;
      if Visible(rule, r, i) && r[i].aligning != Min && r[i].obj.Some? then
        var c := r[i].obj.value;
        var d := AlignShift(t, b, c.boundary, r[i].aligning);
        r[i := r[i].(obj := Some(Offset(c, d.x, d.y)))]
      else r
  }

  /** Object::RecalculateBoundary for every node kind. */
  method RecalculateBoundary(n: Node, x: real, y: real, measure: Measure) returns (r: Node)
    decreases n, 2
    ensures r == Layout(n, x, y, measure)
  {
    if n.Line? {
      r := WithBoundary(n, Rect(x, y, n.width as real, 2.0));
    } else if n.Image? {
      r := WithBoundary(n, Rect(x, y, 10.0, 0.0));
    } else if n.Group? {
      r := RecalculateGroupBoundary(n, x, y, measure);
    } else {
      r := WithBoundary(n, TextBoundary(n, x, y, measure));
    }
  }

  /** Group::RecalculateBoundary: phase 1 places the visible children and unions their
      boundaries, phase 2 moves the children that are not Min-aligned. */
  method RecalculateGroupBoundary(g: Node, x: real, y: real, measure: Measure) returns (r: Node)
    requires g.Group?
    decreases g, 1
    ensures r == Layout(g, x, y, measure)
  {
    var p := PlaceChildren(g, x, y, measure);
    var slots := AlignChildren(g.groupType, g.rule, p.slots, p.bound);
    r := g.(boundary := p.bound, slots := slots);
  }

  /** The first loop of Group::RecalculateBoundary. */
  method PlaceChildren(g: Node, x: real, y: real, measure: Measure) returns (p: Pass)
    requires g.Group?
    decreases g, 0
    ensures p == PlaceUpTo(g, |g.slots|, x, y, measure)
  {
    var slots := g.slots;
    var bound := Anchor(x, y);
    var indentX := g.indentBeforeX;
    var indentY := g.indentBeforeY;
    var i := 0;
    while i < |slots|
      invariant 0 <= i <= |g.slots|
      invariant Pass(slots, bound, indentX, indentY) == PlaceUpTo(g, i, x, y, measure)
    {
      assert slots[i] == g.slots[i];
      if Visible(g.rule, slots, i) {
        var info := slots[i];
        if info.obj.Some? {
          var ox := indentX + (if g.groupType == Horizontal then bound.Right() else bound.Left());
          var oy := indentY + (if g.groupType == Vertical then bound.Bottom() else bound.Top());
          assert Point(ox, oy) == Origin(g.groupType, Pass(slots, bound, indentX, indentY));
          var child := RecalculateBoundary(info.obj.value, ox, oy, measure);
          if g.groupType == Horizontal {
            indentX := info.indentAfter;
            indentY := 0.0;
          } else {
            indentX := 0.0;
            indentY := info.indentAfter;
          }
          slots := slots[i := info.(obj := Some(child))];
          bound := Union(bound, child.boundary);
        }
      }
      i := i + 1;
    }
    p := Pass(slots, bound, indentX, indentY);
  }

  /** The second loop of Group::RecalculateBoundary, over the slots phase 1 left and the
      group boundary b it computed. */
  method AlignChildren(t: GroupType, rule: VisibilityRule, placed: seq<Slot>, b: Rect) returns (slots: seq<Slot>)
    ensures slots == AlignUpTo(t, rule, placed, b, |placed|)
  {
    slots := placed;
    var i := 0;
    while i < |slots|
      invariant 0 <= i <= |placed|
      invariant slots == AlignUpTo(t, rule, placed, b, i)
    {
      var info := slots[i];
      if Visible(rule, slots, i) && info.aligning != Min && info.obj.Some? {
        var c := info.obj.value.boundary;
        var offsetX := 0.0;
        var offsetY := 0.0;
        if t == Horizontal && b.height > c.height {
          offsetY := b.height - c.height;
          if info.aligning == Middle {
            offsetY := offsetY / 2.0;
          }
        } else if t == Vertical && b.width > c.width {
          offsetX := b.width - c.width;
          if info.aligning == Middle {
            offsetX := offsetX / 2.0;
          }
        }
        assert Point(offsetX, offsetY) == AlignShift(t, b, c, info.aligning);
        var moved := OffsetBoundary(info.obj.value, offsetX, offsetY);
        slots := slots[i := info.(obj := Some(moved))];
      }
      i := i + 1;
    }
  }
}

module GroupLayoutProofs {
  import opened Geometry
  import opened GraphicObjects
  import opened GroupLayout

  // ---------------------------------------------------------------- phase 1

  /** Phase 1 changes each slot at most once: the slots before k stay as the steps before
      k left them. */
  lemma {:induction false} PlaceKeeps(g: Node, k: nat, m: nat, x: real, y: real, measure: Measure)
    requires g.Group? && k <= m <= |g.slots|
    ensures PlaceUpTo(g, m, x, y, measure).slots[..k] == PlaceUpTo(g, k, x, y, measure).slots[..k]
    decreases m
  {
    if k < m {
      PlaceKeeps(g, k, m - 1, x, y, measure);
      var p := PlaceUpTo(g, m - 1, x, y, measure);
      assert PlaceUpTo(g, m, x, y, measure).slots[..k] == p.slots[..k];
    }
  }

  /** Phase 1's running boundary after the slots below k is the union of the anchor at
      (x, y) with the boundaries of the visible children among them: a rect covers it
      exactly when it covers the anchor and each of those children. */
  lemma {:induction false} PlaceBoundIsUnion(g: Node, k: nat, x: real, y: real, measure: Measure, outer: Rect)
    requires g.Group? && k <= |g.slots|
    ensures forall j :: 0 <= j < k && Placed(g.rule, g.slots, j) ==>
              PlaceUpTo(g, k, x, y, measure).slots[j].obj.Some?
    ensures Covers(outer, PlaceUpTo(g, k, x, y, measure).bound) <==>
              Covers(outer, Anchor(x, y)) &&
              forall j :: 0 <= j < k && Placed(g.rule, g.slots, j) ==>
                Covers(outer, PlaceUpTo(g, k, x, y, measure).slots[j].obj.value.boundary)
    decreases k
  {
    if k > 0 {
      PlaceBoundIsUnion(g, k - 1, x, y, measure, outer);
      var p := PlaceUpTo(g, k - 1, x, y, measure);
      var q := PlaceUpTo(g, k, x, y, measure);
      assert q == PlaceStep(g, p, k - 1, measure);
      assert forall j :: 0 <= j < k - 1 ==> q.slots[j] == p.slots[j];
      assert Visible(g.rule, p.slots, k - 1) == Visible(g.rule, g.slots, k - 1);
      if Placed(g.rule, g.slots, k - 1) {
        UnionLeast(p.bound, q.slots[k - 1].obj.value.boundary, outer);
      }
    }
  }

  /** The last slot below k that phase 1 places, if any. */
  function LastPlaced(rule: VisibilityRule, slots: seq<Slot>, k: nat): (r: Option<nat>)
    requires k <= |slots|
    ensures r.Some? ==> r.value < k && Placed(rule, slots, r.value)
    ensures r.Some? ==> forall j :: r.value < j < k ==> !Placed(rule, slots, j)
    ensures r.None? ==> forall j :: 0 <= j < k ==> !Placed(rule, slots, j)
  {
    if k == 0 then None
    else if Placed(rule, slots, k - 1) then Some(k - 1)
    else LastPlaced(rule, slots, k - 1)
  }

  /** Before any visible child, the running boundary is still the anchor and the indents
      are the group's leading insets; after one, the indents are that child's indent_after
      on the primary axis and 0 on the cross axis. */
  lemma {:induction false} PendingIndents(g: Node, k: nat, x: real, y: real, measure: Measure)
    requires g.Group? && k <= |g.slots|
    ensures var p := PlaceUpTo(g, k, x, y, measure);
            match LastPlaced(g.rule, g.slots, k)
            case None =>
              p.bound == Anchor(x, y) && p.indentX == g.indentBeforeX && p.indentY == g.indentBeforeY
            case Some(j) =>
              p.indentX == (if g.groupType == Horizontal then g.slots[j].indentAfter else 0.0) &&
              p.indentY == (if g.groupType == Horizontal then 0.0 else g.slots[j].indentAfter)
    decreases k
  {
    if k > 0 {
      PendingIndents(g, k - 1, x, y, measure);
      var p := PlaceUpTo(g, k - 1, x, y, measure);
      assert Visible(g.rule, p.slots, k - 1) == Visible(g.rule, g.slots, k - 1);
    }
  }

  /** Where phase 1 puts the visible child in slot k, stated without the loop's state:
      the first visible child goes to (x + indent_before_x, y + indent_before_y); every later
      one, on the primary axis, to the far edge of the union b so far plus the previous
      visible child's indent_after, and on the cross axis to the union's near edge. */
  function ExpectedOrigin(g: Node, k: nat, b: Rect, x: real, y: real): Point
    requires g.Group? && k <= |g.slots|
  {
    match LastPlaced(g.rule, g.slots, k)
    case None => Point(x + g.indentBeforeX, y + g.indentBeforeY)
    case Some(j) =>
      if g.groupType == Horizontal then Point(b.Right() + g.slots[j].indentAfter, b.Top())
      else Point(b.Left(), b.Bottom() + g.slots[j].indentAfter)
  }

  /** The loop's origin for slot k is the expected one. */
  lemma OriginIsExpected(g: Node, k: nat, x: real, y: real, measure: Measure)
    requires g.Group? && k <= |g.slots|
    ensures var p := PlaceUpTo(g, k, x, y, measure);
            Origin(g.groupType, p) == ExpectedOrigin(g, k, p.bound, x, y)
  {
    PendingIndents(g, k, x, y, measure);
  }

  /** Phase 1 lays the visible child in slot k out at its expected origin, and the child
      keeps that layout to the end of phase 1. */
  lemma ChildPlacement(g: Node, k: nat, x: real, y: real, measure: Measure)
    requires g.Group? && k < |g.slots| && Placed(g.rule, g.slots, k)
    ensures var o := ExpectedOrigin(g, k, PlaceUpTo(g, k, x, y, measure).bound, x, y);
            PlaceUpTo(g, |g.slots|, x, y, measure).slots[k] ==
              g.slots[k].(obj := Some(Layout(g.slots[k].obj.value, o.x, o.y, measure)))
  {
    OriginIsExpected(g, k, x, y, measure);
    PlaceKeeps(g, k + 1, |g.slots|, x, y, measure);
    var p := PlaceUpTo(g, k, x, y, measure);
    assert Visible(g.rule, p.slots, k) == Visible(g.rule, g.slots, k);
    assert PlaceUpTo(g, |g.slots|, x, y, measure).slots[k] == PlaceUpTo(g, k + 1, x, y, measure).slots[..k + 1][k];
  }

  // ---------------------------------------------------------------- phase 2

  /** What phase 2 does to slot k of a laid-out group, measured against phase 1: hidden and
      empty slots are left alone by both phases; a visible child keeps its size and the
      group boundary is the phase-1 union; a Min child, or one at least as large as the
      group on the cross axis, stays where phase 1 put it; otherwise the child and all its
      visible descendants move along the cross axis only, by the difference of the extents
      for Max and half of it for Middle. */
  lemma AlignedChild(g: Node, k: nat, x: real, y: real, measure: Measure)
    requires g.Group? && k < |g.slots|
    ensures var p := PlaceUpTo(g, |g.slots|, x, y, measure);
            var r := Layout(g, x, y, measure);
            r.boundary == p.bound &&
            (!Placed(g.rule, g.slots, k) ==> r.slots[k] == g.slots[k]) &&
            (Placed(g.rule, g.slots, k) ==>
               p.slots[k].obj.Some? && r.slots[k].obj.Some? &&
               var c1 := p.slots[k].obj.value;
               var c2 := r.slots[k].obj.value;
               var b := p.bound;
               var a := g.slots[k].aligning;
               c2 == Offset(c1, c2.boundary.x - c1.boundary.x, c2.boundary.y - c1.boundary.y) &&
               c2.boundary.width == c1.boundary.width && c2.boundary.height == c1.boundary.height &&
               (g.groupType == Horizontal ==> c2.boundary.x == c1.boundary.x) &&
               (g.groupType == Vertical ==> c2.boundary.y == c1.boundary.y) &&
               ((a == Min || (g.groupType == Horizontal && b.height <= c1.boundary.height) ||
                 (g.groupType == Vertical && b.width <= c1.boundary.width)) ==> c2 == c1) &&
               (a == Max && g.groupType == Horizontal && b.height > c1.boundary.height ==>
                  c2.boundary.y == c1.boundary.y + (b.height - c1.boundary.height)) &&
               (a == Middle && g.groupType == Horizontal && b.height > c1.boundary.height ==>
                  c2.boundary.y == c1.boundary.y + (b.height - c1.boundary.height) / 2.0) &&
               (a == Max && g.groupType == Vertical && b.width > c1.boundary.width ==>
                  c2.boundary.x == c1.boundary.x + (b.width - c1.boundary.width)) &&
               (a == Middle && g.groupType == Vertical && b.width > c1.boundary.width ==>
                  c2.boundary.x == c1.boundary.x + (b.width - c1.boundary.width) / 2.0))
  {
    var p := PlaceUpTo(g, |g.slots|, x, y, measure);
    PlaceBoundIsUnion(g, |g.slots|, x, y, measure, p.bound);
    assert Placed(g.rule, p.slots, k) == Placed(g.rule, g.slots, k);
    if Placed(g.rule, g.slots, k) {
      var c1 := p.slots[k].obj.value;
      if g.slots[k].aligning == Min {
        OffsetZero(c1);
      } else {
        var d := AlignShift(g.groupType, p.bound, c1.boundary, g.slots[k].aligning);
        if d == Point(0.0, 0.0) {
          OffsetZero(c1);
        }
      }
    }
  }

  // ---------------------------------------------------------------- OffsetBoundary

  /** Offsetting by (0, 0) changes nothing. */
  lemma {:induction false} OffsetZero(n: Node)
    ensures Offset(n, 0.0, 0.0) == n
    decreases n
  {
    if n.Group? {
      var s := OffsetUpTo(n, |n.slots|, 0.0, 0.0);
      forall j | 0 <= j < |n.slots| ensures s[j] == n.slots[j] {
        if Placed(n.rule, n.slots, j) {
          OffsetZero(n.slots[j].obj.value);
        }
      }
      assert s == n.slots;
    }
  }

  /** Two offsets of a node add up, for the node and every visible descendant. */
  lemma {:induction false} OffsetTwice(n: Node, dx1: real, dy1: real, dx2: real, dy2: real)
    ensures Offset(Offset(n, dx1, dy1), dx2, dy2) == Offset(n, dx1 + dx2, dy1 + dy2)
    decreases n
  {
    if n.Group? {
      var m := Offset(n, dx1, dy1);
      var s := OffsetUpTo(m, |m.slots|, dx2, dy2);
      var t := OffsetUpTo(n, |n.slots|, dx1 + dx2, dy1 + dy2);
      forall j | 0 <= j < |n.slots| ensures s[j] == t[j] {
        assert Placed(m.rule, m.slots, j) == Placed(n.rule, n.slots, j);
        if Placed(n.rule, n.slots, j) {
          OffsetTwice(n.slots[j].obj.value, dx1, dy1, dx2, dy2);
        }
      }
      assert s == t;
    }
  }

  // ---------------------------------------------------------------- tree structure

  /** OffsetBoundary changes geometry only: the moved tree has the same kinds, group
      configuration and filled slots. */
  lemma {:induction false} OffsetSameKinds(n: Node, dx: real, dy: real)
    ensures SameKinds(n, Offset(n, dx, dy), true)
    decreases n
  {
    if n.Group? {
      var r := Offset(n, dx, dy);
      forall j | 0 <= j < |n.slots| ensures SameSlotKinds(n.slots[j], r.slots[j], true) {
        if Placed(n.rule, n.slots, j) {
          OffsetSameKinds(n.slots[j].obj.value, dx, dy);
        } else {
          SameSlotKindsRefl(n.slots[j], true);
        }
      }
    }
  }

  /** RecalculateBoundary changes geometry only. */
  lemma {:induction false} LayoutSameKinds(n: Node, x: real, y: real, measure: Measure)
    ensures SameKinds(n, Layout(n, x, y, measure), true)
    decreases n, 1
  {
    if n.Group? {
      var r := Layout(n, x, y, measure);
      forall j | 0 <= j < |n.slots| ensures SameSlotKinds(n.slots[j], r.slots[j], true) {
        LayoutSlotSameKinds(n, j, x, y, measure);
      }
    }
  }

  lemma {:induction false} LayoutSlotSameKinds(n: Node, j: nat, x: real, y: real, measure: Measure)
    requires n.Group? && j < |n.slots|
    ensures SameSlotKinds(n.slots[j], Layout(n, x, y, measure).slots[j], true)
    decreases n, 0
  {
    var r := Layout(n, x, y, measure);
    var p := PlaceUpTo(n, |n.slots|, x, y, measure);
    assert r.slots == AlignUpTo(n.groupType, n.rule, p.slots, p.bound, |p.slots|);
    assert Placed(n.rule, p.slots, j) == Placed(n.rule, n.slots, j);
    if Placed(n.rule, n.slots, j) {
      ChildPlacement(n, j, x, y, measure);
      var child := n.slots[j].obj.value;
      var o := ExpectedOrigin(n, j, PlaceUpTo(n, j, x, y, measure).bound, x, y);
      var c1 := Layout(child, o.x, o.y, measure);
      assert p.slots[j] == n.slots[j].(obj := Some(c1));
      LayoutSameKinds(child, o.x, o.y, measure);
      if n.slots[j].aligning != Min {
        var d := AlignShift(n.groupType, p.bound, c1.boundary, n.slots[j].aligning);
        assert r.slots[j] == p.slots[j].(obj := Some(Offset(c1, d.x, d.y)));
        OffsetSameKinds(c1, d.x, d.y);
        SameKindsTrans(child, c1, Offset(c1, d.x, d.y), true);
      }
    } else {
      assert r.slots[j] == n.slots[j];
      SameSlotKindsRefl(n.slots[j], true);
    }
  }
}
