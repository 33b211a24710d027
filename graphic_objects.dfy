/** The node kinds of the retained scene graph (namespace BGO): their leaf-local state, the
    change-detecting setters, the effective font a text leaf is measured and drawn with, a
    group's ordered slots and the visibility hook that layout, drawing and dispatch consult.

    Every node is owned by exactly one slot (unique_ptr, and Object is not copyable), so the
    tree is a value: a member that updates a node in place returns the updated node. */
module GraphicObjects {
  import opened Geometry

  datatype Option<+T> = None | Some(value: T)

  newtype byte = x: int | 0 <= x < 256

  /** Gdiplus::Color, alpha first. */
  datatype Color = Color(a: byte, r: byte, g: byte, b: byte)

  /** Gdiplus::Color(r, g, b): an opaque colour. */
  function Rgb(r: byte, g: byte, b: byte): Color { Color(255, r, g, b) }

  /** Gdiplus::FontStyle flags, an unsigned long in the source. */
  type FontStyle = bv32
  const FontStyleRegular: FontStyle := 0
  const FontStyleBold: FontStyle := 1
  const FontStyleUnderline: FontStyle := 4

  datatype Font = Font(name: string, size: nat, style: FontStyle)

  /** The extent Graphics::MeasureString reports for a string laid out from a point. */
  datatype Size = Size(width: real, height: real)

  /** Text measurement, a capability of the host's Graphics object. */
  type Measure = (string, Font) -> Size

  /** Object::ClickType: exactly three outcomes. */
  datatype ClickType = NoClick | ClickDone | ClickDoneNeedResize

  /** Group::GroupType: the primary axis along which children are placed. */
  datatype GroupType = Horizontal | Vertical

  /** Group::AligningType: where a child sits on the cross axis. */
  datatype AligningType = Min | Middle | Max

  /** Which IsObjectVisible a group runs: Group's own (every slot visible) or the override
      of the sticker's Section (the title in slot 0 hides the other slots while collapsed). */
  datatype VisibilityRule = AllVisible | TitleGatesRest

  /** The constructor arguments shared by every Text: background and base font. */
  datatype TextLook = TextLook(backColor: Color, fontName: string, fontSize: nat,
                               fontStyle: FontStyle, fontColor: Color)

  /** One node of the tree. The four text kinds mirror Text and its subclasses:
      HoverableText adds the hover flag, and ClickableText and CollapsibleText are its two
      sibling subclasses, so no leaf is both clickable and collapsible. */
  datatype Node =
    | Text(boundary: Rect, look: TextLook, text: string)
    | HoverableText(boundary: Rect, look: TextLook, text: string, hovered: bool)
    | ClickableText(boundary: Rect, look: TextLook, text: string, hovered: bool,
                    clickableColor: Color, clickable: bool)
    | CollapsibleText(boundary: Rect, look: TextLook, text: string, hovered: bool,
                      collapsedStyle: FontStyle, collapsedColor: Color, collapsed: bool)
    | Line(boundary: Rect, backColor: Color, color: Color, width: nat)
    | Image(boundary: Rect)
    | Group(boundary: Rect, groupType: GroupType, indentBeforeX: real, indentBeforeY: real,
            slots: seq<Slot>, rule: VisibilityRule)

  /** Group::ObjectInfo: the owned child (None for a null pointer), its alignment and the
      gap placed after it along the primary axis. */
  datatype Slot = Slot(obj: Option<Node>, aligning: AligningType, indentAfter: real)

  /** Slot indices from a node down to one of its descendants. */
  type Path = seq<nat>

  /** A setter's report and the node it leaves behind. */
  datatype Updated = Updated(changed: bool, node: Node)

  predicate IsText(n: Node) {
    n.Text? || n.HoverableText? || n.ClickableText? || n.CollapsibleText?
  }

  predicate IsHoverable(n: Node) {
    n.HoverableText? || n.ClickableText? || n.CollapsibleText?
  }

  /** The boundary every Object starts with (RectF's default constructor). */
  const NoBoundary := Rect(0.0, 0.0, 0.0, 0.0)

  /** The node with its boundary replaced and everything else kept. */
  function WithBoundary(n: Node, b: Rect): (r: Node)
    ensures r.boundary == b && KindOf(r) == KindOf(n) && IsCollapsed(r) == IsCollapsed(n)
    ensures r.(boundary := n.boundary) == n
  {
    n.(boundary := b)
  }

  /** A text leaf with its string replaced and everything else kept. */
  function WithText(n: Node, text: string): (r: Node)
    requires IsText(n)
    ensures IsText(r) && r.text == text && KindOf(r) == KindOf(n) && IsCollapsed(r) == IsCollapsed(n)
    ensures r.(text := n.text) == n
  {
    n.(text := text)
  }

  // ---------------------------------------------------------------- constructors

  function NewText(backColor: Color, fontName: string, fontSize: nat, fontStyle: FontStyle,
                   fontColor: Color): (n: Node)
    ensures n.Text? && n.text == [] && n.boundary == NoBoundary
    ensures n.look == TextLook(backColor, fontName, fontSize, fontStyle, fontColor)
  {
    Text(NoBoundary, TextLook(backColor, fontName, fontSize, fontStyle, fontColor), [])
  }

  function NewHoverableText(backColor: Color, fontName: string, fontSize: nat,
                            fontStyle: FontStyle, fontColor: Color): (n: Node)
    ensures n.HoverableText? && !n.hovered && n.text == [] && n.boundary == NoBoundary
  {
    HoverableText(NoBoundary, TextLook(backColor, fontName, fontSize, fontStyle, fontColor), [], false)
  }

  /** A ClickableText starts clickable and not hovered. */
  function NewClickableText(backColor: Color, fontName: string, fontSize: nat,
                            fontStyle: FontStyle, fontColor: Color, clickableColor: Color): (n: Node)
    ensures n.ClickableText? && n.clickable && !n.hovered && n.text == [] && n.boundary == NoBoundary
    ensures n.clickableColor == clickableColor
  {
    ClickableText(NoBoundary, TextLook(backColor, fontName, fontSize, fontStyle, fontColor), [],
                  false, clickableColor, true)
  }

  /** A CollapsibleText starts collapsed and not hovered. */
  function NewCollapsibleText(backColor: Color, fontName: string, fontSize: nat,
                              fontStyle: FontStyle, fontColor: Color,
                              collapsedStyle: FontStyle, collapsedColor: Color): (n: Node)
    ensures n.CollapsibleText? && n.collapsed && !n.hovered && n.text == [] && n.boundary == NoBoundary
    ensures n.collapsedStyle == collapsedStyle && n.collapsedColor == collapsedColor
  {
    CollapsibleText(NoBoundary, TextLook(backColor, fontName, fontSize, fontStyle, fontColor), [],
                    false, collapsedStyle, collapsedColor, true)
  }

  function NewLine(backColor: Color, color: Color, width: nat): (n: Node)
    ensures n.Line? && n.width == width && n.boundary == NoBoundary
  {
    Line(NoBoundary, backColor, color, width)
  }

  function NewImage(): (n: Node)
    ensures n.Image? && n.boundary == NoBoundary
  {
    Image(NoBoundary)
  }

  /** Group's constructor: the leading insets default to 0, there are no slots yet, and
      every slot is visible. */
  function NewGroup(groupType: GroupType, indentBeforeX: real := 0.0, indentBeforeY: real := 0.0): (g: Node)
    ensures g.Group? && g.slots == [] && g.rule == AllVisible && g.boundary == NoBoundary
    ensures g.groupType == groupType && g.indentBeforeX == indentBeforeX && g.indentBeforeY == indentBeforeY
  {
    Group(NoBoundary, groupType, indentBeforeX, indentBeforeY, [], AllVisible)
  }

  // ---------------------------------------------------------------- leaf setters

  /** Text::SetText: stores the text and reports whether it differed from the stored one. */
  function SetText(n: Node, text: string): (u: Updated)
    requires IsText(n)
    ensures u.changed <==> n.text != text
    ensures u.node == n.(text := text)
  {
    if n.text != text then Updated(true, n.(text := text)) else Updated(false, n)
  }

  /** ClickableText::SetClickable: stores the flag and reports whether it differed. */
  function SetClickable(n: Node, clickable: bool): (u: Updated)
    requires n.ClickableText?
    ensures u.changed <==> n.clickable != clickable
    ensures u.node == n.(clickable := clickable)
  {
    if clickable != n.clickable then Updated(true, n.(clickable := clickable)) else Updated(false, n)
  }

  /** A setter called twice with the same argument reports no change the second time and
      leaves the node as the first call left it. */
  lemma SettersIdempotent(n: Node, text: string, clickable: bool)
    requires IsText(n)
    ensures IsText(SetText(n, text).node)
    ensures SetText(SetText(n, text).node, text) == Updated(false, SetText(n, text).node)
    ensures n.ClickableText? ==>
      SetClickable(SetClickable(n, clickable).node, clickable) == Updated(false, SetClickable(n, clickable).node)
  {
  }

  /** CollapsibleText::SetCollapsed (no change report). */
  function SetCollapsed(n: Node, collapsed: bool): (r: Node)
    requires n.CollapsibleText?
    ensures r.CollapsibleText? && r.collapsed == collapsed
    ensures r.(collapsed := n.collapsed) == n
  {
    n.(collapsed := collapsed)
  }

  /** A node whose collapsed flag is set: CollapsibleText::GetCollapsed for a title. */
  predicate IsCollapsed(n: Node) {
    n.CollapsibleText? && n.collapsed
  }

  // ---------------------------------------------------------------- effective font

  /** HoverableText::GetFontStyleWithoutHover with CollapsibleText's override: the collapsed
      style replaces the base style while collapsed. */
  function StyleWithoutHover(n: Node): FontStyle
    requires IsText(n)
  {
    if IsCollapsed(n) then n.collapsedStyle else n.look.fontStyle
  }

  /** The style a hoverable leaf shows for an unhovered style s. */
  function HoverStyle(s: FontStyle, hovered: bool): FontStyle {
    if hovered then s | FontStyleUnderline else s
  }

  /** GetFontStyle: Text's base style; for the hoverable kinds the underline bit is OR-ed in
      while hovered. */
  function FontStyleOf(n: Node): FontStyle
    requires IsText(n)
  {
    if IsHoverable(n) then HoverStyle(StyleWithoutHover(n), n.hovered) else StyleWithoutHover(n)
  }

  /** GetFontColor: the clickable colour while clickable (ClickableText), the collapsed
      colour while collapsed (CollapsibleText), otherwise the base colour. */
  function FontColorOf(n: Node): Color
    requires IsText(n)
  {
    if n.ClickableText? && n.clickable then n.clickableColor
    else if IsCollapsed(n) then n.collapsedColor
    else n.look.fontColor
  }

  /** The font Text::RecalculateBoundary and Text::Draw build: GetFontName and GetFontSize
      are never overridden, GetFontStyle is. */
  function FontOf(n: Node): (f: Font)
    requires IsText(n)
    ensures f.name == n.look.fontName && f.size == n.look.fontSize
  {
    Font(n.look.fontName, n.look.fontSize, FontStyleOf(n))
  }

  /** Hovering affects the effective font through the style alone: the colour is that of
      the unhovered leaf and the style is the unhovered style passed through HoverStyle. */
  lemma HoverOnlyUnderlines(n: Node, hovered: bool)
    requires IsHoverable(n)
    ensures FontColorOf(n.(hovered := hovered)) == FontColorOf(n)
    ensures FontStyleOf(n.(hovered := hovered)) == HoverStyle(StyleWithoutHover(n), hovered)
  {
  }

  /** Hovering sets the underline bit and leaves every other bit alone; the underline bit
      is shown exactly when the leaf is hovered or its unhovered style already has it. */
  lemma HoverStyleBits(s: FontStyle, hovered: bool)
    ensures HoverStyle(s, hovered) & !FontStyleUnderline == s & !FontStyleUnderline
    ensures (HoverStyle(s, hovered) & FontStyleUnderline != 0) <==> (hovered || s & FontStyleUnderline != 0)
  {
  }

  /** Precedence of the derived attributes: collapsed beats base (style and colour),
      clickable beats base (colour), and plain Text always shows its base attributes. */
  lemma FontPrecedence(n: Node)
    requires IsText(n)
    ensures IsCollapsed(n) ==> FontColorOf(n) == n.collapsedColor && StyleWithoutHover(n) == n.collapsedStyle
    ensures n.ClickableText? ==>
              (StyleWithoutHover(n) == n.look.fontStyle &&
               FontColorOf(n) == (if n.clickable then n.clickableColor else n.look.fontColor))
    ensures n.Text? ==>
              (FontOf(n) == Font(n.look.fontName, n.look.fontSize, n.look.fontStyle) &&
               FontColorOf(n) == n.look.fontColor)
  {
  }

  // ---------------------------------------------------------------- visibility

  /** Slot 0 holds a collapsed title (what Section::IsObjectVisible reads). */
  predicate TitleCollapsed(slots: seq<Slot>) {
    |slots| > 0 && slots[0].obj.Some? && IsCollapsed(slots[0].obj.value)
  }

  /** IsObjectVisible(i) of a group with the given rule and current slots. Group's own hook
      shows every slot; Section's shows the title always and the other slots only while
      the title is not collapsed. */
  predicate Visible(rule: VisibilityRule, slots: seq<Slot>, i: nat) {
    match rule
    case AllVisible => true
    case TitleGatesRest => i == 0 || !TitleCollapsed(slots)
  }

  /** Slot k takes part in layout, drawing and dispatch: it is visible and holds an object. */
  predicate Placed(rule: VisibilityRule, slots: seq<Slot>, k: nat) {
    k < |slots| && Visible(rule, slots, k) && slots[k].obj.Some?
  }

  /** Visibility of slot k reads nothing beyond slot 0 and the rule, so any two slot
      sequences that agree on slot 0 agree on it; slot 0 itself is visible under both rules. */
  lemma VisibleSameTitle(rule: VisibilityRule, s: seq<Slot>, t: seq<Slot>, k: nat)
    requires k == 0 || (|s| > 0 && |t| > 0 && s[0] == t[0])
    ensures Visible(rule, s, k) == Visible(rule, t, k)
    ensures k == 0 ==> Visible(rule, s, k)
  {
  }

  // ---------------------------------------------------------------- group slots

  /** A value-initialised ObjectInfo: no object, Min alignment, no indent. */
  const EmptySlot := Slot(None, Min, 0.0)

  /** std::vector::resize: the first min(count, old size) slots keep their place and
      content, new positions hold empty slots, slots past count are dropped. */
  function Resize(slots: seq<Slot>, count: nat): (r: seq<Slot>)
    ensures |r| == count
    ensures forall i :: 0 <= i < count && i < |slots| ==> r[i] == slots[i]
    ensures forall i :: |slots| <= i < count ==> r[i] == EmptySlot
  {
    if count <= |slots| then slots[..count] else slots + seq(count - |slots|, _ => EmptySlot)
  }

  /** Group::SetObjectCount: resizes the slots and reports whether the count differed. */
  function SetObjectCount(g: Node, count: nat): (u: Updated)
    requires g.Group?
    ensures u.changed <==> |g.slots| != count
    ensures u.node == g.(slots := Resize(g.slots, count))
  {
    if |g.slots| == count then Updated(false, g) else Updated(true, g.(slots := Resize(g.slots, count)))
  }

  /** Resizing to the current count is the identity, so SetObjectCount with the current
      count reports no change and changes nothing. */
  lemma {:induction false} SetObjectCountSame(g: Node)
    requires g.Group?
    ensures SetObjectCount(g, |g.slots|) == Updated(false, g)
    ensures Resize(g.slots, |g.slots|) == g.slots
  {
    assert g.slots[..|g.slots|] == g.slots;
  }

  /** Group::SetObject: installs an object with its alignment and indent into an existing
      slot (indent_after defaults to 0); the other slots are untouched. */
  function SetObject(g: Node, index: nat, obj: Node, aligning: AligningType, indentAfter: real := 0.0): (r: Node)
    requires g.Group? && index < |g.slots|
    ensures r.Group? && |r.slots| == |g.slots|
    ensures r.slots[index] == Slot(Some(obj), aligning, indentAfter)
    ensures forall j :: 0 <= j < |g.slots| && j != index ==> r.slots[j] == g.slots[j]
    ensures r.(slots := g.slots) == g
  {
    g.(slots := g.slots[index := Slot(Some(obj), aligning, indentAfter)])
  }

  /** Group::GetObject: the object in a slot, None if it was never set. */
  function GetObject(g: Node, index: nat): Option<Node>
    requires g.Group? && index < |g.slots|
  {
    g.slots[index].obj
  }

  // ---------------------------------------------------------------- tree skeleton

  datatype NodeKind = KText | KHoverable | KClickable | KCollapsible | KLine | KImage | KGroup

  function KindOf(n: Node): NodeKind {
    match n
    case Text(_, _, _) => KText
    case HoverableText(_, _, _, _) => KHoverable
    case ClickableText(_, _, _, _, _, _) => KClickable
    case CollapsibleText(_, _, _, _, _, _, _) => KCollapsible
    case Line(_, _, _, _) => KLine
    case Image(_) => KImage
    case Group(_, _, _, _, _, _) => KGroup
  }

  /** a and b are the same tree apart from geometry and leaf state: the same kind at every
      position, the same group configuration and the same slots filled. With flags, every
      CollapsibleText also keeps its collapsed flag. */
  predicate SameKinds(a: Node, b: Node, flags: bool)
    decreases a
  {
    KindOf(a) == KindOf(b) &&
    (flags && a.CollapsibleText? ==> a.collapsed == b.collapsed) &&
    (a.Group? ==>
      a.groupType == b.groupType && a.indentBeforeX == b.indentBeforeX &&
      a.indentBeforeY == b.indentBeforeY && a.rule == b.rule && |a.slots| == |b.slots| &&
      forall i :: 0 <= i < |a.slots| ==> SameSlotKinds(a.slots[i], b.slots[i], flags))
  }

  predicate SameSlotKinds(s: Slot, t: Slot, flags: bool)
    decreases s
  {
    s.aligning == t.aligning && s.indentAfter == t.indentAfter &&
    (s.obj.Some? <==> t.obj.Some?) &&
    (s.obj.Some? ==> SameKinds(s.obj.value, t.obj.value, flags))
  }

  lemma {:induction false} SameKindsRefl(a: Node, flags: bool)
    ensures SameKinds(a, a, flags)
    decreases a
  {
    if a.Group? {
      forall i | 0 <= i < |a.slots| ensures SameSlotKinds(a.slots[i], a.slots[i], flags) {
        if a.slots[i].obj.Some? { SameKindsRefl(a.slots[i].obj.value, flags); }
      }
    }
  }

  lemma {:induction false} SameKindsTrans(a: Node, b: Node, c: Node, flags: bool)
    requires SameKinds(a, b, flags) && SameKinds(b, c, flags)
    ensures SameKinds(a, c, flags)
    decreases a
  {
    if a.Group? {
      forall i | 0 <= i < |a.slots| ensures SameSlotKinds(a.slots[i], c.slots[i], flags) {
        if a.slots[i].obj.Some? {
          SameKindsTrans(a.slots[i].obj.value, b.slots[i].obj.value, c.slots[i].obj.value, flags);
        }
      }
    }
  }

  /** Keeping the flags as well implies keeping the kinds. */
  lemma {:induction false} SameKindsWithFlags(a: Node, b: Node)
    requires SameKinds(a, b, true)
    ensures SameKinds(a, b, false)
    decreases a
  {
    if a.Group? {
      forall i | 0 <= i < |a.slots| ensures SameSlotKinds(a.slots[i], b.slots[i], false) {
        if a.slots[i].obj.Some? {
          SameKindsWithFlags(a.slots[i].obj.value, b.slots[i].obj.value);
        }
      }
    }
  }

  lemma SameSlotKindsRefl(s: Slot, flags: bool)
    ensures SameSlotKinds(s, s, flags)
  {
    if s.obj.Some? { SameKindsRefl(s.obj.value, flags); }
  }
}
