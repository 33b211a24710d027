/** The sticker's content built on the engine: the parts of a section, the setters the
    sticker's owner calls, the lazy creation of sections and items, "collapse all but the
    first", and the decoding of a click path into the owner's events. */
module StickerObjects {
  import opened Geometry
  import opened GraphicObjects

  // ---------------------------------------------------------------- constants

  const TahomaName: string := "Tahoma"
  const IndentVert: real := 3.0
  const IndentHorz: real := 3.0

  const Black := Rgb(0x00, 0x00, 0x00)
  const GreyLight := Rgb(0xCC, 0xCC, 0xCC)
  const GreyVeryLight := Rgb(0xF5, 0xF5, 0xF5)
  const GreyDark := Rgb(0x99, 0x99, 0x99)
  const GreyDarkWithBlue := Rgb(0x89, 0x91, 0xA9)
  const GreenDark := Rgb(0x72, 0xBE, 0x44)
  const BlueDark := Rgb(0x00, 0x55, 0xBB)
  const RedDark := Rgb(0xD9, 0x47, 0x00)

  /** The collapsed title's style, passed as the number 9 (the Bold and Strikeout bits). */
  const TitleCollapsedStyle: FontStyle := 9

  // Slot indices of SectionItem, SectionFooter, Section and StickerObject.
  const DateIdx: nat := 0
  const TimeIdx: nat := 1
  const ItemDescIdx: nat := 2
  const PrefixIdx: nat := 0
  const FooterDescIdx: nat := 1
  const TitleIdx: nat := 0
  const HeaderIdx: nat := 1
  const ItemsIdx: nat := 2
  const FooterIdx: nat := 3
  const SectionsIdx: nat := 0

  // ---------------------------------------------------------------- parts

  function ItemDate(): Node {
    NewText(GreyVeryLight, TahomaName, 9, FontStyleRegular, GreyDarkWithBlue)
  }

  function ItemTime(): Node {
    NewText(GreyVeryLight, TahomaName, 8, FontStyleRegular, GreyLight)
  }

  /** ItemDescription passes five arguments to a six-parameter constructor; the model takes
      the one colour it names as both the base and the clickable colour. */
  function ItemDescription(): Node {
    NewClickableText(GreyVeryLight, TahomaName, 9, FontStyleRegular, GreyDarkWithBlue, GreyDarkWithBlue)
  }

  /** SectionItem: date, time and description glued to the right of each other. */
  function NewSectionItem(): Node {
    var g0 := SetObjectCount(NewGroup(Horizontal), 3).node;
    var g1 := SetObject(g0, DateIdx, ItemDate(), Min, IndentHorz);
    var g2 := SetObject(g1, TimeIdx, ItemTime(), Min, IndentHorz);
    SetObject(g2, ItemDescIdx, ItemDescription(), Min, IndentHorz)
  }

  function SectionHeader(): Node {
    NewText(GreyVeryLight, TahomaName, 9, FontStyleRegular, GreyDark)
  }

  function FooterPrefix(): Node {
    NewText(GreyVeryLight, TahomaName, 9, FontStyleRegular, GreyDark)
  }

  function FooterDescription(): Node {
    NewText(GreyVeryLight, TahomaName, 9, FontStyleRegular, Black)
  }

  /** SectionFooter: prefix and description glued to the right of each other. */
  function NewSectionFooter(): Node {
    var g0 := SetObjectCount(NewGroup(Horizontal), 2).node;
    var g1 := SetObject(g0, PrefixIdx, FooterPrefix(), Min, IndentHorz);
    SetObject(g1, FooterDescIdx, FooterDescription(), Min, IndentHorz)
  }

  /** SectionTitle: bold red while expanded, style 9 in grey while collapsed. */
  function SectionTitle(): Node {
    NewCollapsibleText(GreyVeryLight, TahomaName, 9, FontStyleBold, RedDark, TitleCollapsedStyle, GreyDark)
  }

  /** Section: title, header, an empty items group and footer stacked vertically; its
      visibility hook is the title rule. */
  function NewSection(): Node {
    var g0 := SetObjectCount(Group(NoBoundary, Vertical, 0.0, 0.0, [], TitleGatesRest), 4).node;
    var g1 := SetObject(g0, TitleIdx, SectionTitle(), Min, IndentVert);
    var g2 := SetObject(g1, HeaderIdx, SectionHeader(), Min, IndentVert);
    var g3 := SetObject(g2, ItemsIdx, NewGroup(Vertical), Min, IndentVert);
    SetObject(g3, FooterIdx, NewSectionFooter(), Min, IndentVert)
  }

  /** StickerObject's group: one slot holding the (empty) Sections group. */
  function NewStickerRoot(): Node {
    var g0 := SetObjectCount(NewGroup(Vertical), 1).node;
    SetObject(g0, SectionsIdx, NewGroup(Vertical), Min, IndentVert)
  }

  // ---------------------------------------------------------------- shapes

  predicate HoldsText(s: Slot) {
    s.obj.Some? && s.obj.value.Text?
  }

  predicate IsSectionItem(n: Node) {
    n.Group? && n.groupType == Horizontal && n.rule == AllVisible && |n.slots| == 3 &&
    HoldsText(n.slots[DateIdx]) && HoldsText(n.slots[TimeIdx]) &&
    n.slots[ItemDescIdx].obj.Some? && n.slots[ItemDescIdx].obj.value.ClickableText?
  }

  /** The items group: any number of slots, each empty or holding a SectionItem. */
  predicate IsItems(n: Node) {
    n.Group? && n.groupType == Vertical && n.rule == AllVisible &&
    forall i :: 0 <= i < |n.slots| && n.slots[i].obj.Some? ==> IsSectionItem(n.slots[i].obj.value)
  }

  predicate IsFooter(n: Node) {
    n.Group? && n.groupType == Horizontal && n.rule == AllVisible && |n.slots| == 2 &&
    HoldsText(n.slots[PrefixIdx]) && HoldsText(n.slots[FooterDescIdx])
  }

  predicate IsSection(n: Node) {
    n.Group? && n.groupType == Vertical && n.rule == TitleGatesRest && |n.slots| == 4 &&
    n.slots[TitleIdx].obj.Some? && n.slots[TitleIdx].obj.value.CollapsibleText? &&
    HoldsText(n.slots[HeaderIdx]) &&
    n.slots[ItemsIdx].obj.Some? && IsItems(n.slots[ItemsIdx].obj.value) &&
    n.slots[FooterIdx].obj.Some? && IsFooter(n.slots[FooterIdx].obj.value)
  }

  /** The sections group: any number of slots, each empty or holding a Section. */
  predicate IsSections(n: Node) {
    n.Group? && n.groupType == Vertical && n.rule == AllVisible &&
    forall i :: 0 <= i < |n.slots| && n.slots[i].obj.Some? ==> IsSection(n.slots[i].obj.value)
  }

  predicate IsStickerRoot(n: Node) {
    n.Group? && n.groupType == Vertical && n.rule == AllVisible && |n.slots| == 1 &&
    n.slots[SectionsIdx].obj.Some? && IsSections(n.slots[SectionsIdx].obj.value)
  }

  // ---------------------------------------------------------------- navigation

  /** Section 0, when it exists, shows its content: its title is not collapsed. */
  predicate FirstExpanded(secs: Node)
    requires IsSections(secs)
  {
    |secs.slots| > 0 && secs.slots[0].obj.Some? ==> !IsCollapsed(secs.slots[0].obj.value.slots[TitleIdx].obj.value)
  }

  /** A group with the object in slot i replaced; the slot keeps its alignment and indent. */
  function WithPart(g: Node, i: nat, c: Node): Node
    requires g.Group? && i < |g.slots|
  {
    g.(slots := g.slots[i := g.slots[i].(obj := Some(c))])
  }

  function Part(g: Node, i: nat): Node
    requires g.Group? && i < |g.slots| && g.slots[i].obj.Some?
  {
    g.slots[i].obj.value
  }

  /** Section::GetTitle. */
  function Title(s: Node): Node
    requires IsSection(s)
  {
    Part(s, TitleIdx)
  }

  function Items(s: Node): Node
    requires IsSection(s)
  {
    Part(s, ItemsIdx)
  }

  function Footer(s: Node): Node
    requires IsSection(s)
  {
    Part(s, FooterIdx)
  }

  /** A section with its title's collapsed flag set. */
  function WithTitleCollapsed(s: Node, collapsed: bool): (r: Node)
    requires IsSection(s)
    ensures IsSection(r) && IsCollapsed(Title(r)) == collapsed
    ensures Title(r) == SetCollapsed(Title(s), collapsed)
    ensures r == WithPart(s, TitleIdx, Title(r))
  {
    WithPart(s, TitleIdx, SetCollapsed(Title(s), collapsed))
  }

  // ---------------------------------------------------------------- section setters

  /** Section::SetTitle: the title's text; the report is the title's. */
  function SetSectionTitle(s: Node, title: string): (u: Updated)
    requires IsSection(s)
    ensures IsSection(u.node)
    ensures u.changed <==> Title(s).text != title
    ensures Title(u.node) == WithText(Title(s), title)
    ensures u.node == WithPart(s, TitleIdx, Title(u.node))
  {
    var t := SetText(Title(s), title);
    Updated(t.changed, WithPart(s, TitleIdx, t.node))
  }

  /** Section::SetHeader: the header's text; the report is the header's. */
  function SetSectionHeader(s: Node, description: string): (u: Updated)
    requires IsSection(s)
    ensures IsSection(u.node)
    ensures u.changed <==> Part(s, HeaderIdx).text != description
    ensures Part(u.node, HeaderIdx) == WithText(Part(s, HeaderIdx), description)
    ensures u.node == WithPart(s, HeaderIdx, Part(u.node, HeaderIdx))
  {
    var h := SetText(Part(s, HeaderIdx), description);
    Updated(h.changed, WithPart(s, HeaderIdx, h.node))
  }

  /** Section::SetFooter: both texts of the footer are set (no short-circuit), and the
      report is whether either of them changed. */
  function SetSectionFooter(s: Node, prefix: string, description: string): (u: Updated)
    requires IsSection(s)
    ensures IsSection(u.node)
    ensures u.changed <==> Part(Footer(s), PrefixIdx).text != prefix ||
                           Part(Footer(s), FooterDescIdx).text != description
    ensures Part(Footer(u.node), PrefixIdx) == WithText(Part(Footer(s), PrefixIdx), prefix)
    ensures Part(Footer(u.node), FooterDescIdx) == WithText(Part(Footer(s), FooterDescIdx), description)
    ensures Footer(u.node) == WithPart(WithPart(Footer(s), PrefixIdx, Part(Footer(u.node), PrefixIdx)),
                                       FooterDescIdx, Part(Footer(u.node), FooterDescIdx))
    ensures u.node == WithPart(s, FooterIdx, Footer(u.node))
  {
    var f := Footer(s);
    var p := SetText(Part(f, PrefixIdx), prefix);
    var d := SetText(Part(f, FooterDescIdx), description);
    Updated(p.changed || d.changed, WithPart(s, FooterIdx, WithPart(WithPart(f, PrefixIdx, p.node), FooterDescIdx, d.node)))
  }

  /** Section::SetItemCount: resizes the items group; the report is SetObjectCount's. */
  function SetSectionItemCount(s: Node, count: nat): (u: Updated)
    requires IsSection(s)
    ensures IsSection(u.node)
    ensures u.changed <==> |Items(s).slots| != count
    ensures Items(u.node) == Items(s).(slots := Resize(Items(s).slots, count))
    ensures u.node == WithPart(s, ItemsIdx, Items(u.node))
  {
    var i := SetObjectCount(Items(s), count);
    Updated(i.changed, WithPart(s, ItemsIdx, i.node))
  }

  /** The item SetItem writes to: the existing one, or a new SectionItem installed in the
      empty slot glued to the bottom. */
  function EnsureItem(items: Node, index: nat): (r: Node)
    requires IsItems(items) && index < |items.slots|
    ensures IsItems(r) && |r.slots| == |items.slots| && r.slots[index].obj.Some?
    ensures items.slots[index].obj.Some? ==> r == items
    ensures items.slots[index].obj.None? ==> r == SetObject(items, index, NewSectionItem(), Min, IndentVert)
  {
    if items.slots[index].obj.Some? then items else SetObject(items, index, NewSectionItem(), Min, IndentVert)
  }

  /** SectionItem's three setters in order; the report is whether any of them changed. */
  function SetItemTexts(item: Node, date: string, time: string, description: string): (u: Updated)
    requires IsSectionItem(item)
    ensures IsSectionItem(u.node)
    ensures u.changed <==> Part(item, DateIdx).text != date || Part(item, TimeIdx).text != time ||
                           Part(item, ItemDescIdx).text != description
    ensures Part(u.node, DateIdx) == WithText(Part(item, DateIdx), date)
    ensures Part(u.node, TimeIdx) == WithText(Part(item, TimeIdx), time)
    ensures Part(u.node, ItemDescIdx) == WithText(Part(item, ItemDescIdx), description)
    ensures u.node == WithPart(WithPart(WithPart(item, DateIdx, Part(u.node, DateIdx)),
                                        TimeIdx, Part(u.node, TimeIdx)),
                               ItemDescIdx, Part(u.node, ItemDescIdx))
  {
    var d := SetText(Part(item, DateIdx), date);
    var t := SetText(Part(item, TimeIdx), time);
    var e := SetText(Part(item, ItemDescIdx), description);
    Updated(d.changed || t.changed || e.changed,
            WithPart(WithPart(WithPart(item, DateIdx, d.node), TimeIdx, t.node), ItemDescIdx, e.node))
  }

  /** Section::SetItem: an index past the item count is out of range (vector::at); an empty
      slot first gets a new SectionItem, whose creation alone is not reported; then the
      item's texts are set and any change is reported. */
  function SetSectionItem(s: Node, index: nat, date: string, time: string, description: string): (u: Updated)
    requires IsSection(s) && index < |Items(s).slots|
    ensures IsSection(u.node) && |Items(u.node).slots| == |Items(s).slots|
    ensures var e := EnsureItem(Items(s), index);
            var t := SetItemTexts(Part(e, index), date, time, description);
            u.changed == t.changed && Items(u.node) == WithPart(e, index, t.node)
    ensures forall j :: 0 <= j < |Items(s).slots| && j != index ==> Items(u.node).slots[j] == Items(s).slots[j]
    ensures u.node == WithPart(s, ItemsIdx, Items(u.node))
  {
    var e := EnsureItem(Items(s), index);
    var t := SetItemTexts(Part(e, index), date, time, description);
    Updated(t.changed, WithPart(s, ItemsIdx, WithPart(e, index, t.node)))
  }

  // ---------------------------------------------------------------- sections

  /** The section Sections::GetSection creates for an empty slot: collapsed unless it is
      the first. */
  function FreshSection(index: nat): (s: Node)
    ensures IsSection(s) && IsCollapsed(Title(s)) == (index > 0)
  {
    WithTitleCollapsed(NewSection(), index > 0)
  }

  /** Sections::GetSection (the non-const one): an index past the count is out of range
      (vector::at); an empty slot gets a fresh section glued to the bottom; an existing
      section is returned as it is. The result is the sections group afterwards. */
  function EnsureSection(secs: Node, index: nat): (r: Node)
    requires IsSections(secs) && index < |secs.slots|
    ensures IsSections(r) && |r.slots| == |secs.slots| && r.slots[index].obj.Some?
    ensures secs.slots[index].obj.Some? ==> r == secs
    ensures secs.slots[index].obj.None? ==> r == SetObject(secs, index, FreshSection(index), Min, IndentVert)
  {
    if secs.slots[index].obj.Some? then secs else SetObject(secs, index, FreshSection(index), Min, IndentVert)
  }

  /** The section GetSection(index) returns. */
  function SectionAt(secs: Node, index: nat): (s: Node)
    requires IsSections(secs) && index < |secs.slots|
    ensures IsSection(s)
  {
    Part(EnsureSection(secs, index), index)
  }

  /** Writes a section back into slot index of the group GetSection(index) left. */
  function PutSection(secs: Node, index: nat, s: Node): (r: Node)
    requires IsSections(secs) && index < |secs.slots| && IsSection(s)
    ensures IsSections(r) && |r.slots| == |secs.slots| && r.slots[index].obj == Some(s)
    ensures forall j :: 0 <= j < |secs.slots| && j != index ==> r.slots[j] == secs.slots[j]
  {
    WithPart(EnsureSection(secs, index), index, s)
  }

  /** A sections slot once GetSection has run on it and its title's flag is set: the
      existing section with the flag set, or a new section with the flag set, glued to the
      bottom. */
  function CollapsedSlot(s: Slot, collapsed: bool): (r: Slot)
    requires s.obj.Some? ==> IsSection(s.obj.value)
    ensures r.obj.Some? && IsSection(r.obj.value) && IsCollapsed(Title(r.obj.value)) == collapsed
  {
    if s.obj.Some? then s.(obj := Some(WithTitleCollapsed(s.obj.value, collapsed)))
    else Slot(Some(WithTitleCollapsed(NewSection(), collapsed)), Min, IndentVert)
  }

  /** GetSection(index).GetTitle().SetCollapsed(collapsed): only slot index changes, to its
      CollapsedSlot; a section created on the way has its initial flag overwritten. */
  function SetSectionCollapsed(secs: Node, index: nat, collapsed: bool): (r: Node)
    requires IsSections(secs) && index < |secs.slots|
    ensures IsSections(r)
    ensures r == secs.(slots := secs.slots[index := CollapsedSlot(secs.slots[index], collapsed)])
  {
    var r := PutSection(secs, index, WithTitleCollapsed(SectionAt(secs, index), collapsed));
    if secs.slots[index].obj.None? then
      TitleCollapsedTwice(NewSection(), index > 0, collapsed);
      assert r.slots == secs.slots[index := CollapsedSlot(secs.slots[index], collapsed)];
      r
    else
      assert r.slots == secs.slots[index := CollapsedSlot(secs.slots[index], collapsed)];
      r
  }

  /** Setting the title's flag twice is setting it once to the second value. */
  lemma TitleCollapsedTwice(s: Node, first: bool, second: bool)
    requires IsSection(s)
    ensures WithTitleCollapsed(WithTitleCollapsed(s, first), second) == WithTitleCollapsed(s, second)
  {
    var t := Title(s);
    assert SetCollapsed(SetCollapsed(t, first), second) == SetCollapsed(t, second);
    assert s.slots[TitleIdx := s.slots[TitleIdx].(obj := Some(SetCollapsed(t, first)))]
              [TitleIdx := s.slots[TitleIdx].(obj := Some(SetCollapsed(t, second)))]
           == s.slots[TitleIdx := s.slots[TitleIdx].(obj := Some(SetCollapsed(t, second)))];
  }

  /** Sections::CollapseAllExcludingFirst after the slots below k: slot 0 expanded, each
      other slot below k collapsed (each created if missing), the remaining slots as they
      were. */
  function CollapsedUpTo(secs: Node, k: nat): (r: Node)
    requires IsSections(secs) && 1 <= k <= |secs.slots|
    ensures IsSections(r) && r == secs.(slots := r.slots) && |r.slots| == |secs.slots|
    ensures forall j :: 0 <= j < |secs.slots| ==>
              r.slots[j] == if j < k then CollapsedSlot(secs.slots[j], j > 0) else secs.slots[j]
    decreases k
  {
    if k == 1 then SetSectionCollapsed(secs, 0, false)
    else SetSectionCollapsed(CollapsedUpTo(secs, k - 1), k - 1, true)
  }

  /** Sections::CollapseAllExcludingFirst: GetSection(0) is expanded, then every later
      section is collapsed, creating missing sections on the way; GetSection(0) needs at
      least one slot. */
  method CollapseAllExcludingFirst(secs: Node) returns (r: Node)
    requires IsSections(secs) && |secs.slots| >= 1
    ensures r == CollapsedUpTo(secs, |secs.slots|)
  {
    var count := |secs.slots|;
    r := SetSectionCollapsed(secs, 0, false);
    var index := 1;
    while index < count
      invariant 1 <= index <= count
      invariant IsSections(r) && r == secs.(slots := r.slots) && |r.slots| == count
      invariant forall j :: 0 <= j < count ==>
                  r.slots[j] == if j < index then CollapsedSlot(secs.slots[j], j > 0) else secs.slots[j]
    {
      r := SetSectionCollapsed(r, index, true);
      index := index + 1;
    }
    assert r.slots == CollapsedUpTo(secs, count).slots;
  }

  // ---------------------------------------------------------------- events

  /** The callbacks of IStickerCallback, as the event Sections::ProcessClick raises. */
  datatype StickerEvent =
    | HeaderClick(section: nat)
    | ItemClick(section: nat, item: nat)
    | FooterClick(section: nat)

  /** Sections::ProcessClick's decoding of its own path, read only for a ClickDone with a
      callback present: path[0] is the section, path[1] the part, and for the items part
      path[2] is the item; any other part raises nothing. The source indexes the path
      without checking its length. */
  function SectionsEvent(click: ClickType, path: Path, hasCallback: bool): (e: Option<StickerEvent>)
    requires hasCallback && click == ClickDone ==> |path| >= 2 && (path[1] == ItemsIdx ==> |path| >= 3)
    ensures e.Some? ==> hasCallback && click == ClickDone && e.value.section == path[0]
    ensures e.Some? <==> hasCallback && click == ClickDone && path[1] in {HeaderIdx, ItemsIdx, FooterIdx}
  {
    if !hasCallback || click != ClickDone then None
    else if path[1] == HeaderIdx then Some(HeaderClick(path[0]))
    else if path[1] == ItemsIdx then Some(ItemClick(path[0], path[2]))
    else if path[1] == FooterIdx then Some(FooterClick(path[0]))
    else None
  }

  /** The path prefix that identifies an event: section, part and, for an item, its index. */
  function EventPath(e: StickerEvent): (p: Path)
    ensures |p| >= 2 && p[0] == e.section
  {
    match e
    case HeaderClick(s) => [s, HeaderIdx]
    case ItemClick(s, i) => [s, ItemsIdx, i]
    case FooterClick(s) => [s, FooterIdx]
  }
}
