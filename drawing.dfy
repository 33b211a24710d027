/** Drawing, as the list of GDI+ calls each node's Draw issues, in order. */
module Drawing {
  import opened Geometry
  import opened GraphicObjects
  import opened GroupLayout

  /** Graphics::FillRectangle with a solid brush, Graphics::DrawString with a solid brush in
      a layout rect, and Graphics::DrawLine with a one-pixel pen. */
  datatype DrawCommand =
    | FillRectangle(color: Color, rect: Rect)
    | DrawString(text: string, font: Font, rect: Rect, brush: Color)
    | DrawLine(pen: Color, x1: real, y1: real, x2: real, y2: real)

  /** ObjectWithBackground::Draw: the background, unless the boundary has no area. */
  function Background(color: Color, b: Rect): (cs: seq<DrawCommand>)
    ensures cs == [] <==> b.IsEmptyArea()
    ensures !b.IsEmptyArea() ==> cs == [FillRectangle(color, b)]
  {
    if b.IsEmptyArea() then [] else [FillRectangle(color, b)]
  }

  /** The colour of Line's second stroke: the line colour at half its alpha. */
  function Shadow(c: Color): (s: Color)
    ensures s.r == c.r && s.g == c.g && s.b == c.b
    ensures 2 * (s.a as int) <= c.a as int <= 2 * (s.a as int) + 1
  {
    Color(c.a / 2, c.r, c.g, c.b)
  }

  /** The calls Draw of any node issues. Text draws its background and then its string in
      the effective font and colour, both only when its boundary has area; Line draws its
      background and always two strokes along its top edge, the second one pixel lower in
      the shadow colour; the Image stub draws nothing; a group draws its visible children
      in slot order. */
  function Draw(n: Node): (cs: seq<DrawCommand>)
    decreases n, 1, 0
    ensures n.Image? ==> cs == []
    ensures n.Line? ==>
              (var b := n.boundary;
               |cs| == (if b.IsEmptyArea() then 2 else 3) &&
               (!b.IsEmptyArea() ==> cs[0] == FillRectangle(n.backColor, b)) &&
               cs[|cs| - 2] == DrawLine(n.color, b.Left(), b.Top(), b.Right(), b.Top()) &&
               cs[|cs| - 1] == DrawLine(Shadow(n.color), b.Left(), b.Top() + 1.0, b.Right(), b.Top() + 1.0))
    ensures IsText(n) ==>
              (cs == [] <==> n.boundary.IsEmptyArea()) &&
              (!n.boundary.IsEmptyArea() ==>
                 cs == [FillRectangle(n.look.backColor, n.boundary), DrawString(n.text, FontOf(n), n.boundary, FontColorOf(n))])
  {
    match n
    case Line(b, back, color, _) =>
      Background(back, b) +
      [DrawLine(color, b.Left(), b.Top(), b.Right(), b.Top()),
       DrawLine(Shadow(color), b.Left(), b.Top() + 1.0, b.Right(), b.Top() + 1.0)]
    case Image(_) => []
    case Group(_, _, _, _, _, _) => DrawUpTo(n, |n.slots|)
    case _ =>
      Background(n.look.backColor, n.boundary) +
      (if n.boundary.IsEmptyArea() then []
       else [DrawString(n.text, FontOf(n), n.boundary, FontColorOf(n))])
  }

  /** Group::Draw's loop after the slots below k. */
  function DrawUpTo(g: Node, k: nat): seq<DrawCommand>
    requires g.Group? && k <= |g.slots|
    decreases g, 0, k
  {
    if k == 0 then []
    else if Placed(g.rule, g.slots, k - 1) then DrawUpTo(g, k - 1) + Draw(g.slots[k - 1].obj.value)
    else DrawUpTo(g, k - 1)
  }

  /** Object::Draw and its overrides, appending to the calls issued so far. */
  method DrawNode(n: Node, issued: seq<DrawCommand>) returns (out: seq<DrawCommand>)
    decreases n, 1
    ensures out == issued + Draw(n)
  {
    out := issued;
    if n.Group? {
      out := DrawGroup(n, issued);
    } else if n.Line? {
      if !n.boundary.IsEmptyArea() {
        out := out + [FillRectangle(n.backColor, n.boundary)];
      }
      var b := n.boundary;
      out := out + [DrawLine(n.color, b.Left(), b.Top(), b.Right(), b.Top())];
      var shadow := Color(n.color.a / 2, n.color.r, n.color.g, n.color.b);
      out := out + [DrawLine(shadow, b.Left(), b.Top() + 1.0, b.Right(), b.Top() + 1.0)];
    } else if IsText(n) {
      if !n.boundary.IsEmptyArea() {
        out := out + [FillRectangle(n.look.backColor, n.boundary)];
      }
      if !n.boundary.IsEmptyArea() {
        out := out + [DrawString(n.text, FontOf(n), n.boundary, FontColorOf(n))];
      }
    }
  }

  /** Group::Draw: every visible child in slot order. */
  method DrawGroup(g: Node, issued: seq<DrawCommand>) returns (out: seq<DrawCommand>)
    requires g.Group?
    decreases g, 0
    ensures out == issued + DrawUpTo(g, |g.slots|)
  {
    out := issued;
    var i := 0;
    while i < |g.slots|
      invariant 0 <= i <= |g.slots|
      invariant out == issued + DrawUpTo(g, i)
    {
      if Visible(g.rule, g.slots, i) {
        var obj := g.slots[i].obj;
        if obj.Some? {
          out := DrawNode(obj.value, out);
        }
      }
      i := i + 1;
    }
  }

  // ---------------------------------------------------------------- properties

  /** A command moved by (dx, dy). */
  function MoveCommand(c: DrawCommand, dx: real, dy: real): DrawCommand {
    match c
    case FillRectangle(color, r) => FillRectangle(color, r.Offset(dx, dy))
    case DrawString(t, f, r, b) => DrawString(t, f, r.Offset(dx, dy), b)
    case DrawLine(p, x1, y1, x2, y2) => DrawLine(p, x1 + dx, y1 + dy, x2 + dx, y2 + dy)
  }

  function MoveCommands(cs: seq<DrawCommand>, dx: real, dy: real): (r: seq<DrawCommand>)
    ensures |r| == |cs| && forall i :: 0 <= i < |cs| ==> r[i] == MoveCommand(cs[i], dx, dy)
  {
    if cs == [] then [] else [MoveCommand(cs[0], dx, dy)] + MoveCommands(cs[1..], dx, dy)
  }

  lemma MoveCommandsAppend(a: seq<DrawCommand>, b: seq<DrawCommand>, dx: real, dy: real)
    ensures MoveCommands(a + b, dx, dy) == MoveCommands(a, dx, dy) + MoveCommands(b, dx, dy)
  {
  }

  /** Drawing a node after OffsetBoundary issues the same calls as before, each moved by the
      offset: the offset carries every visible descendant, and nothing that is drawn is
      left behind. */
  lemma {:induction false} DrawAfterOffset(n: Node, dx: real, dy: real)
    ensures Draw(Offset(n, dx, dy)) == MoveCommands(Draw(n), dx, dy)
    decreases n, 1, 0
  {
    if n.Group? {
      DrawUpToAfterOffset(n, |n.slots|, dx, dy);
    } else {
      LeafDrawAfterOffset(n, dx, dy);
    }
  }

  /** The leaf case: a leaf's calls depend on its boundary only through their rects and
      whether the boundary has area, which an offset keeps. */
  lemma LeafDrawAfterOffset(n: Node, dx: real, dy: real)
    requires !n.Group?
    ensures Draw(Offset(n, dx, dy)) == MoveCommands(Draw(n), dx, dy)
  {
    var b := n.boundary;
    var bm := b.Offset(dx, dy);
    var m := Offset(n, dx, dy);
    assert m == WithBoundary(n, bm);
    if n.Line? {
      var strokes := [DrawLine(n.color, b.Left(), b.Top(), b.Right(), b.Top()),
                      DrawLine(Shadow(n.color), b.Left(), b.Top() + 1.0, b.Right(), b.Top() + 1.0)];
      assert Draw(n) == Background(n.backColor, b) + strokes;
      BackgroundAfterOffset(n.backColor, b, dx, dy);
      MoveCommandsAppend(Background(n.backColor, b), strokes, dx, dy);
    } else if IsText(n) {
      assert FontOf(m) == FontOf(n) && FontColorOf(m) == FontColorOf(n);
      var text := if b.IsEmptyArea() then [] else [DrawString(n.text, FontOf(n), b, FontColorOf(n))];
      assert Draw(n) == Background(n.look.backColor, b) + text;
      BackgroundAfterOffset(n.look.backColor, b, dx, dy);
      assert Draw(m) == Background(n.look.backColor, bm) +
        (if bm.IsEmptyArea() then [] else [DrawString(n.text, FontOf(n), bm, FontColorOf(n))]);
      MoveCommandsAppend(Background(n.look.backColor, b), text, dx, dy);
    }
  }

  lemma BackgroundAfterOffset(color: Color, b: Rect, dx: real, dy: real)
    ensures Background(color, b.Offset(dx, dy)) == MoveCommands(Background(color, b), dx, dy)
  {
  }

  lemma {:induction false} DrawUpToAfterOffset(g: Node, k: nat, dx: real, dy: real)
    requires g.Group? && k <= |g.slots|
    ensures var m := Offset(g, dx, dy);
            DrawUpTo(m, k) == MoveCommands(DrawUpTo(g, k), dx, dy)
    decreases g, 0, k
  {
    if k > 0 {
      var m := Offset(g, dx, dy);
      DrawUpToAfterOffset(g, k - 1, dx, dy);
      assert Placed(m.rule, m.slots, k - 1) == Placed(g.rule, g.slots, k - 1);
      if Placed(g.rule, g.slots, k - 1) {
        DrawAfterOffset(g.slots[k - 1].obj.value, dx, dy);
        MoveCommandsAppend(DrawUpTo(g, k - 1), Draw(g.slots[k - 1].obj.value), dx, dy);
      }
    }
  }

  /** A group whose title (slot 0) is collapsed under the title rule draws its title and
      nothing else. */
  lemma CollapsedDrawsTitleOnly(g: Node)
    requires g.Group? && g.rule == TitleGatesRest && TitleCollapsed(g.slots)
    ensures Draw(g) == Draw(g.slots[0].obj.value)
  {
    CollapsedDrawUpTo(g, |g.slots|);
  }

  lemma {:induction false} CollapsedDrawUpTo(g: Node, k: nat)
    requires g.Group? && g.rule == TitleGatesRest && TitleCollapsed(g.slots) && 0 < k <= |g.slots|
    ensures DrawUpTo(g, k) == Draw(g.slots[0].obj.value)
    decreases k
  {
    if k > 1 {
      CollapsedDrawUpTo(g, k - 1);
    } else {
      assert DrawUpTo(g, 0) == [];
    }
  }
}
