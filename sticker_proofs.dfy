/** What the sticker's tree guarantees: the shape of its fresh parts, the setters' change
    reports, which clicks the built tree can produce and the events they raise, and that
    the engine's operations keep the tree's shape. */
module StickerProofs {
  import opened Geometry
  import opened GraphicObjects
  import opened GroupDispatch
  import opened GroupDispatchProofs
  import opened StickerObjects

  // ---------------------------------------------------------------- fresh parts

  /** Every part starts with empty texts; a fresh section has its title collapsed and no
      items; the description of an item starts clickable; a fresh sticker has no sections. */
  lemma FreshParts()
    ensures var item := NewSectionItem();
            IsSectionItem(item) && Part(item, DateIdx).text == [] && Part(item, TimeIdx).text == [] &&
            Part(item, ItemDescIdx).text == [] && Part(item, ItemDescIdx).clickable
    ensures var s := NewSection();
            IsSection(s) && IsCollapsed(Title(s)) && Title(s).text == [] && Part(s, HeaderIdx).text == [] &&
            Items(s).slots == [] &&
            Part(Footer(s), PrefixIdx).text == [] && Part(Footer(s), FooterDescIdx).text == []
    ensures IsStickerRoot(NewStickerRoot()) && Part(NewStickerRoot(), SectionsIdx).slots == []
  {
  }

  /** The leaf parts as their constructors make them: kind, empty text, the light grey
      background, and the effective font and colour they first show. The title starts
      collapsed, in its collapsed style and colour. */
  lemma PartLooks()
    ensures ItemDate().Text? && ItemDate().text == [] && ItemDate().look.backColor == GreyVeryLight &&
            FontOf(ItemDate()) == Font(TahomaName, 9, FontStyleRegular) && FontColorOf(ItemDate()) == GreyDarkWithBlue
    ensures ItemTime().Text? && ItemTime().text == [] && ItemTime().look.backColor == GreyVeryLight &&
            FontOf(ItemTime()) == Font(TahomaName, 8, FontStyleRegular) && FontColorOf(ItemTime()) == GreyLight
    ensures var d := ItemDescription();
            d.ClickableText? && d.clickable && !d.hovered && d.text == [] && d.look.backColor == GreyVeryLight &&
            FontOf(d) == Font(TahomaName, 9, FontStyleRegular) && FontColorOf(d) == GreyDarkWithBlue
    ensures SectionHeader().Text? && SectionHeader().text == [] && SectionHeader().look.backColor == GreyVeryLight &&
            FontOf(SectionHeader()) == Font(TahomaName, 9, FontStyleRegular) && FontColorOf(SectionHeader()) == GreyDark
    ensures FooterPrefix().Text? && FooterPrefix().text == [] && FooterPrefix().look.backColor == GreyVeryLight &&
            FontOf(FooterPrefix()) == Font(TahomaName, 9, FontStyleRegular) && FontColorOf(FooterPrefix()) == GreyDark
    ensures FooterDescription().Text? && FooterDescription().text == [] && FooterDescription().look.backColor == GreyVeryLight &&
            FontOf(FooterDescription()) == Font(TahomaName, 9, FontStyleRegular) && FontColorOf(FooterDescription()) == Black
    ensures var t := SectionTitle();
            t.CollapsibleText? && IsCollapsed(t) && !t.hovered && t.text == [] && t.look.backColor == GreyVeryLight &&
            FontOf(t) == Font(TahomaName, 9, TitleCollapsedStyle) && FontColorOf(t) == GreyDark
  {
  }

  /** A title made by SectionTitle, whatever its flags, shows Tahoma 9 bold in red while
      expanded and style 9 in dark grey while collapsed, with the underline bit added while
      the pointer is over it. */
  lemma TitleFonts(t: Node)
    requires t.CollapsibleText? && t.look == SectionTitle().look
    requires t.collapsedStyle == SectionTitle().collapsedStyle && t.collapsedColor == SectionTitle().collapsedColor
    ensures FontOf(t) == Font(TahomaName, 9, HoverStyle(if t.collapsed then TitleCollapsedStyle else FontStyleBold, t.hovered))
    ensures FontColorOf(t) == if t.collapsed then GreyDark else RedDark
  {
  }

  // ---------------------------------------------------------------- setters

  /** Calling a section setter a second time with the same arguments reports no change and
      leaves the section as the first call left it. */
  lemma SectionSettersIdempotent(s: Node, a: string, b: string, count: nat)
    requires IsSection(s)
    ensures var u := SetSectionTitle(s, a); SetSectionTitle(u.node, a) == Updated(false, u.node)
    ensures var u := SetSectionHeader(s, a); SetSectionHeader(u.node, a) == Updated(false, u.node)
    ensures var u := SetSectionFooter(s, a, b); SetSectionFooter(u.node, a, b) == Updated(false, u.node)
    ensures var u := SetSectionItemCount(s, count); SetSectionItemCount(u.node, count) == Updated(false, u.node)
  {
    var u := SetSectionTitle(s, a);
    assert u.node.slots[TitleIdx := u.node.slots[TitleIdx]] == u.node.slots;
    var h := SetSectionHeader(s, a);
    assert h.node.slots[HeaderIdx := h.node.slots[HeaderIdx]] == h.node.slots;
    var f := SetSectionFooter(s, a, b);
    var ft := Footer(f.node);
    assert ft.slots[PrefixIdx := ft.slots[PrefixIdx]] == ft.slots;
    assert ft.slots[FooterDescIdx := ft.slots[FooterDescIdx]] == ft.slots;
    assert f.node.slots[FooterIdx := f.node.slots[FooterIdx]] == f.node.slots;
    var c := SetSectionItemCount(s, count);
    SetObjectCountSame(Items(c.node));
    assert c.node.slots[ItemsIdx := c.node.slots[ItemsIdx]] == c.node.slots;
  }

  /** SetItem twice with the same texts: the second call finds the item the first created
      and reports no change. */
  lemma SetSectionItemIdempotent(s: Node, index: nat, date: string, time: string, description: string)
    requires IsSection(s) && index < |Items(s).slots|
    ensures var u := SetSectionItem(s, index, date, time, description);
            SetSectionItem(u.node, index, date, time, description) == Updated(false, u.node)
  {
    var u := SetSectionItem(s, index, date, time, description);
    var items := Items(u.node);
    var item := Part(items, index);
    assert EnsureItem(items, index) == items;
    assert item.slots[DateIdx := item.slots[DateIdx]] == item.slots;
    assert item.slots[TimeIdx := item.slots[TimeIdx]] == item.slots;
    assert item.slots[ItemDescIdx := item.slots[ItemDescIdx]] == item.slots;
    assert SetItemTexts(item, date, time, description) == Updated(false, item);
    assert items.slots[index := items.slots[index]] == items.slots;
    assert u.node.slots[ItemsIdx := u.node.slots[ItemsIdx]] == u.node.slots;
  }

  // ---------------------------------------------------------------- sections

  /** GetSection creates a section at most once: a second call finds it and changes
      nothing; the section it creates is collapsed exactly when it is not the first. */
  lemma EnsureSectionOnce(secs: Node, index: nat)
    requires IsSections(secs) && index < |secs.slots|
    ensures EnsureSection(EnsureSection(secs, index), index) == EnsureSection(secs, index)
    ensures secs.slots[index].obj.None? ==> IsCollapsed(Title(SectionAt(secs, index))) == (index > 0)
    ensures secs.slots[index].obj.Some? ==> SectionAt(secs, index) == Part(secs, index)
  {
  }

  /** After CollapseAllExcludingFirst every slot holds a section, section 0 is expanded,
      every other section is collapsed, and each section that existed keeps everything but
      its title's collapsed flag. */
  lemma CollapseAllOutcome(secs: Node)
    requires IsSections(secs) && |secs.slots| >= 1
    ensures var r := CollapsedUpTo(secs, |secs.slots|);
            FirstExpanded(r) &&
            (forall j :: 0 <= j < |r.slots| ==>
               r.slots[j].obj.Some? && IsCollapsed(Title(Part(r, j))) == (j > 0)) &&
            (forall j :: 0 <= j < |r.slots| && secs.slots[j].obj.Some? ==>
               Part(r, j) == WithTitleCollapsed(Part(secs, j), j > 0))
  {
  }

  // ---------------------------------------------------------------- clicks

  lemma TextNeverClicks(n: Node, x: int, y: int)
    requires n.Text?
    ensures Click(n, x, y) == ClickResult(NoClick, [], n)
  {
  }

  /** In an item only the description can be hit, and it reports ClickDone. */
  lemma ItemClickPath(n: Node, x: int, y: int)
    requires IsSectionItem(n)
    ensures var r := Click(n, x, y);
            r.click != ClickDoneNeedResize && (r.click == ClickDone ==> r.path == [ItemDescIdx])
  {
    var r := Click(n, x, y);
    if r.click != NoClick {
      GroupClickFirstHit(n, x, y);
      TextNeverClicks(Part(n, DateIdx), x, y);
      TextNeverClicks(Part(n, TimeIdx), x, y);
      ClickLeafOutcomes(Part(n, ItemDescIdx), x, y);
      assert r.path == [r.path[0]] + r.path[1..];
    }
  }

  /** In the items group a hit is an item's description. */
  lemma ItemsClickPath(n: Node, x: int, y: int)
    requires IsItems(n)
    ensures var r := Click(n, x, y);
            r.click != ClickDoneNeedResize &&
            (r.click == ClickDone ==>
               |r.path| == 2 && r.path[0] < |n.slots| && n.slots[r.path[0]].obj.Some? &&
               r.path[1] == ItemDescIdx)
  {
    var r := Click(n, x, y);
    if r.click != NoClick {
      GroupClickFirstHit(n, x, y);
      ItemClickPath(Part(n, r.path[0]), x, y);
    }
  }

  /** The footer holds plain texts only and is never hit. */
  lemma FooterNeverClicks(n: Node, x: int, y: int)
    requires IsFooter(n)
    ensures Click(n, x, y).click == NoClick
  {
    GroupClickFirstHit(n, x, y);
    TextNeverClicks(Part(n, PrefixIdx), x, y);
    TextNeverClicks(Part(n, FooterDescIdx), x, y);
  }

  /** In a section a hit is either its title, which flips, or an item's description. */
  lemma SectionClickPath(n: Node, x: int, y: int)
    requires IsSection(n)
    ensures var r := Click(n, x, y);
            (r.click == ClickDoneNeedResize ==>
               r.path == [TitleIdx] && r.node == WithTitleCollapsed(n, !IsCollapsed(Title(n)))) &&
            (r.click == ClickDone ==>
               |r.path| == 3 && r.path[0] == ItemsIdx && r.path[1] < |Items(n).slots| &&
               Items(n).slots[r.path[1]].obj.Some? && r.path[2] == ItemDescIdx)
  {
    var r := Click(n, x, y);
    if r.click != NoClick {
      GroupClickFirstHit(n, x, y);
      TextNeverClicks(Part(n, HeaderIdx), x, y);
      FooterNeverClicks(Footer(n), x, y);
      ClickLeafOutcomes(Title(n), x, y);
      ItemsClickPath(Items(n), x, y);
      assert r.path == [r.path[0]] + r.path[1..];
    }
  }

  /** In the sections group a hit is a section's title, which flips, or one of its items'
      descriptions. */
  lemma SectionsClickPath(secs: Node, x: int, y: int)
    requires IsSections(secs)
    ensures var r := Click(secs, x, y);
            (r.click != NoClick ==>
               |r.path| >= 2 && r.path[0] < |secs.slots| && secs.slots[r.path[0]].obj.Some?) &&
            (r.click == ClickDoneNeedResize ==>
               r.path == [r.path[0], TitleIdx] &&
               r.node == WithPart(secs, r.path[0], WithTitleCollapsed(Part(secs, r.path[0]), !IsCollapsed(Title(Part(secs, r.path[0])))))) &&
            (r.click == ClickDone ==>
               |r.path| == 4 && r.path[1] == ItemsIdx && r.path[3] == ItemDescIdx &&
               r.path[2] < |Items(Part(secs, r.path[0])).slots| &&
               Items(Part(secs, r.path[0])).slots[r.path[2]].obj.Some?)
  {
    var r := Click(secs, x, y);
    if r.click != NoClick {
      GroupClickFirstHit(secs, x, y);
      SectionClickPath(Part(secs, r.path[0]), x, y);
      assert r.path == [r.path[0]] + r.path[1..];
    }
  }

  /** Sections::ProcessClick only ever raises the item event: headers and footers are
      plain texts that never report a hit, so with a callback present every ClickDone is a
      click on an existing item's description and is reported as that item. */
  lemma OnlyItemEvents(secs: Node, x: int, y: int, hasCallback: bool)
    requires IsSections(secs)
    ensures var r := Click(secs, x, y);
            hasCallback && r.click == ClickDone ==>
              |r.path| == 4 && SectionsEvent(r.click, r.path, hasCallback) == Some(ItemClick(r.path[0], r.path[2]))
    ensures var r := Click(secs, x, y);
            !(hasCallback && r.click == ClickDone) ==> SectionsEvent(r.click, r.path, hasCallback) == None
  {
    SectionsClickPath(secs, x, y);
  }

  /** The event decoding inverts the path prefix of each event. */
  lemma EventPathRoundTrip(e: StickerEvent, rest: Path)
    ensures SectionsEvent(ClickDone, EventPath(e) + rest, true) == Some(e)
  {
  }

  /** Every event raised is named by a prefix of the path it was decoded from. */
  lemma EventNamesItsPath(click: ClickType, path: Path, hasCallback: bool)
    requires hasCallback && click == ClickDone ==> |path| >= 2 && (path[1] == ItemsIdx ==> |path| >= 3)
    ensures SectionsEvent(click, path, hasCallback).Some? ==>
              var p := EventPath(SectionsEvent(click, path, hasCallback).value);
              |p| <= |path| && path[..|p|] == p
  {
  }

  /** StickerObject's group forwards a click to its one child, the sections group: a hit
      there is a hit of the sticker, one index longer. */
  lemma RootClick(root: Node, x: int, y: int)
    requires IsStickerRoot(root)
    ensures var c := Click(Part(root, SectionsIdx), x, y);
            Click(root, x, y) ==
              if c.click == NoClick then ClickResult(NoClick, [], root)
              else ClickResult(c.click, [SectionsIdx] + c.path, WithPart(root, SectionsIdx, c.node))
  {
    GroupClickFirstHit(root, x, y);
  }

  /** While section 0 is expanded, a click leaves it collapsed exactly when the click hit
      section 0's title; the click keeps the sections group's shape. */
  lemma ClickCollapsesFirst(secs: Node, x: int, y: int)
    requires IsSections(secs) && FirstExpanded(secs)
    ensures var r := Click(secs, x, y);
            IsSections(r.node) && |r.node.slots| == |secs.slots| &&
            (forall i :: 0 <= i < |secs.slots| ==> (r.node.slots[i].obj.Some? <==> secs.slots[i].obj.Some?)) &&
            (!FirstExpanded(r.node) <==> r.click == ClickDoneNeedResize && r.path == [0, TitleIdx])
  {
    var r := Click(secs, x, y);
    ClickSameKinds(secs, x, y);
    SectionsKinds(secs, r.node, false);
    ClickDoneKeepsTree(secs, x, y);
    SectionsClickPath(secs, x, y);
  }

  // ---------------------------------------------------------------- shape

  lemma SlotKinds(s: Slot, t: Slot, flags: bool)
    requires SameSlotKinds(s, t, flags) && s.obj.Some?
    ensures t.obj.Some? && KindOf(t.obj.value) == KindOf(s.obj.value) && SameKinds(s.obj.value, t.obj.value, flags)
    ensures flags && s.obj.value.CollapsibleText? ==> s.obj.value.collapsed == t.obj.value.collapsed
  {
  }

  lemma ItemKinds(a: Node, b: Node, flags: bool)
    requires SameKinds(a, b, flags) && IsSectionItem(a)
    ensures IsSectionItem(b)
  {
    SlotKinds(a.slots[DateIdx], b.slots[DateIdx], flags);
    SlotKinds(a.slots[TimeIdx], b.slots[TimeIdx], flags);
    SlotKinds(a.slots[ItemDescIdx], b.slots[ItemDescIdx], flags);
  }

  lemma ItemsKinds(a: Node, b: Node, flags: bool)
    requires SameKinds(a, b, flags) && IsItems(a)
    ensures IsItems(b)
  {
    forall i | 0 <= i < |b.slots| && b.slots[i].obj.Some? ensures IsSectionItem(b.slots[i].obj.value) {
      SlotKinds(a.slots[i], b.slots[i], flags);
      ItemKinds(a.slots[i].obj.value, b.slots[i].obj.value, flags);
    }
  }

  lemma FooterKinds(a: Node, b: Node, flags: bool)
    requires SameKinds(a, b, flags) && IsFooter(a)
    ensures IsFooter(b)
  {
    SlotKinds(a.slots[PrefixIdx], b.slots[PrefixIdx], flags);
    SlotKinds(a.slots[FooterDescIdx], b.slots[FooterDescIdx], flags);
  }

  /** Operations that keep the kinds keep a section a section; those that keep the flags
      keep its title's collapsed state. */
  lemma SectionKinds(a: Node, b: Node, flags: bool)
    requires SameKinds(a, b, flags) && IsSection(a)
    ensures IsSection(b)
    ensures flags ==> IsCollapsed(Title(b)) == IsCollapsed(Title(a))
  {
    SlotKinds(a.slots[TitleIdx], b.slots[TitleIdx], flags);
    SlotKinds(a.slots[HeaderIdx], b.slots[HeaderIdx], flags);
    SlotKinds(a.slots[ItemsIdx], b.slots[ItemsIdx], flags);
    SlotKinds(a.slots[FooterIdx], b.slots[FooterIdx], flags);
    ItemsKinds(Items(a), b.slots[ItemsIdx].obj.value, flags);
    FooterKinds(Footer(a), b.slots[FooterIdx].obj.value, flags);
  }

  lemma SectionsKinds(a: Node, b: Node, flags: bool)
    requires SameKinds(a, b, flags) && IsSections(a)
    ensures IsSections(b) && |b.slots| == |a.slots|
    ensures forall i :: 0 <= i < |a.slots| ==> (a.slots[i].obj.Some? <==> b.slots[i].obj.Some?)
    ensures flags && FirstExpanded(a) ==> FirstExpanded(b)
  {
    forall i | 0 <= i < |b.slots| && b.slots[i].obj.Some? ensures IsSection(b.slots[i].obj.value) {
      SlotKinds(a.slots[i], b.slots[i], flags);
      SectionKinds(a.slots[i].obj.value, b.slots[i].obj.value, flags);
    }
    forall i | 0 <= i < |a.slots| ensures a.slots[i].obj.Some? <==> b.slots[i].obj.Some? {
      assert SameSlotKinds(a.slots[i], b.slots[i], flags);
    }
    if |a.slots| > 0 && a.slots[0].obj.Some? {
      SlotKinds(a.slots[0], b.slots[0], flags);
      SectionKinds(a.slots[0].obj.value, b.slots[0].obj.value, flags);
    }
  }

  /** Operations that keep the kinds keep the sticker's tree a sticker's tree; those that
      keep the flags keep section 0 expanded. */
  lemma RootKinds(a: Node, b: Node, flags: bool)
    requires SameKinds(a, b, flags) && IsStickerRoot(a)
    ensures IsStickerRoot(b) && |Part(b, SectionsIdx).slots| == |Part(a, SectionsIdx).slots|
    ensures flags && FirstExpanded(Part(a, SectionsIdx)) ==> FirstExpanded(Part(b, SectionsIdx))
  {
    SlotKinds(a.slots[SectionsIdx], b.slots[SectionsIdx], flags);
    SectionsKinds(Part(a, SectionsIdx), b.slots[SectionsIdx].obj.value, flags);
  }
}
