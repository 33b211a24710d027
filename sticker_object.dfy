/** StickerObject: the sticker's root group, its Minimized/Opened state, the rectangle it
    occupies while minimized, and the owning sticker's dirty flag, which every setter
    raises when it reports a change. */
module StickerMachine {
  import opened Geometry
  import opened GraphicObjects
  import opened GroupLayout
  import opened GroupLayoutProofs
  import opened GroupDispatch
  import opened GroupDispatchProofs
  import opened Drawing
  import opened StickerObjects
  import opened StickerProofs

  /** StickerObject::StateType. Expanded is declared but never entered. */
  datatype StateType = Minimized | Opened | Expanded

  function Secs(root: Node): Node
    requires IsStickerRoot(root)
  {
    Part(root, SectionsIdx)
  }

  function WithSecs(root: Node, secs: Node): (r: Node)
    requires IsStickerRoot(root) && IsSections(secs)
    ensures IsStickerRoot(r) && Secs(r) == secs && r.boundary == root.boundary
  {
    WithPart(root, SectionsIdx, secs)
  }

  // ---------------------------------------------------------------- click

  /** What ProcessClick does outside the Minimized state: the click outcome, the tree
      afterwards, whether the sticker minimizes, and the event Sections raises. */
  datatype OpenedClick = OpenedClick(click: ClickType, root: Node, minimize: bool, event: Option<StickerEvent>)

  /** The sections group after a resize request and whether the sticker minimizes. */
  datatype Resized = Resized(secs: Node, minimize: bool)

  /** StickerObject::ProcessClick's reaction to a resize request: GetSection(0) (creating
      section 0 if it is missing); if its title is collapsed, the title is expanded again,
      every other section is collapsed and the sticker minimizes. Either way section 0
      ends expanded. */
  function AfterResize(secs: Node): (r: Resized)
    requires IsSections(secs) && |secs.slots| >= 1
    ensures IsSections(r.secs) && FirstExpanded(r.secs) && |r.secs.slots| == |secs.slots|
    ensures r.minimize <==> !FirstExpanded(secs)
    ensures r.minimize ==> forall j :: 0 < j < |r.secs.slots| ==>
                             r.secs.slots[j].obj.Some? && IsCollapsed(Title(Part(r.secs, j)))
    ensures !r.minimize ==> r.secs == EnsureSection(secs, 0)
  {
    var secs1 := EnsureSection(secs, 0);
    if IsCollapsed(Title(Part(secs1, 0))) then
      var secs2 := SetSectionCollapsed(secs1, 0, false);
      CollapseAllOutcome(secs2);
      Resized(CollapsedUpTo(secs2, |secs2.slots|), true)
    else
      Resized(secs1, false)
  }

  /** StickerObject::ProcessClick outside the Minimized state: the base dispatch (the
      sections group raising its event on the way), then AfterResize on a resize request.
      While section 0 starts expanded the sticker minimizes exactly when the click hit
      section 0's title, and the only event that can be raised is an item click. */
  function ClickOpened(root: Node, x: int, y: int, hasCallback: bool): (o: OpenedClick)
    requires IsStickerRoot(root) && FirstExpanded(Secs(root))
    ensures IsStickerRoot(o.root) && FirstExpanded(Secs(o.root)) && o.root.boundary == root.boundary
    ensures |Secs(o.root).slots| == |Secs(root).slots|
    ensures o.click == Click(root, x, y).click
    ensures o.minimize <==> o.click == ClickDoneNeedResize && Click(root, x, y).path == [SectionsIdx, 0, TitleIdx]
    ensures o.minimize ==> forall j :: 0 < j < |Secs(o.root).slots| ==>
                             Secs(o.root).slots[j].obj.Some? && IsCollapsed(Title(Part(Secs(o.root), j)))
    ensures o.click != ClickDoneNeedResize ==> o.root == root
    ensures o.event.Some? ==> hasCallback && o.click == ClickDone && o.event.value.ItemClick?
    ensures hasCallback && o.click == ClickDone ==> o.event.Some?
  {
    var secs := Secs(root);
    var sc := Click(secs, x, y);
    RootClick(root, x, y);
    OnlyItemEvents(secs, x, y, hasCallback);
    var event := SectionsEvent(sc.click, sc.path, hasCallback);
    if sc.click == ClickDoneNeedResize then
      ResizeMinimizes(root, x, y);
      var a := AfterResize(sc.node);
      OpenedClick(ClickDoneNeedResize, WithSecs(root, a.secs), a.minimize, event)
    else
      OpenedClick(sc.click, root, false, event)
  }

  /** With section 0 expanded, a resize request minimizes exactly when the click hit
      section 0's title. */
  lemma ResizeMinimizes(root: Node, x: int, y: int)
    requires IsStickerRoot(root) && FirstExpanded(Secs(root))
    requires Click(Secs(root), x, y).click == ClickDoneNeedResize
    ensures var sc := Click(Secs(root), x, y);
            IsSections(sc.node) && |sc.node.slots| == |Secs(root).slots| && |sc.node.slots| >= 1 &&
            (AfterResize(sc.node).minimize <==> Click(root, x, y).path == [SectionsIdx, 0, TitleIdx])
  {
    var secs := Secs(root);
    var sc := Click(secs, x, y);
    RootClick(root, x, y);
    ClickCollapsesFirst(secs, x, y);
    SectionsClickPath(secs, x, y);
    assert ([SectionsIdx] + sc.path)[1..] == sc.path;
  }

  /** Sections::ProcessClick: the group dispatch, then, for a ClickDone with a callback
      present, the event decoded from the indices. */
  method ProcessSectionsClick(secs: Node, x: int, y: int, hasCallback: bool, groupIndexes: Path)
    returns (click: ClickType, indexes: Path, r: Node, event: Option<StickerEvent>)
    requires IsSections(secs)
    ensures click == Click(secs, x, y).click && r == Click(secs, x, y).node
    ensures indexes == Click(secs, x, y).path + groupIndexes
    ensures hasCallback && click == ClickDone ==> |Click(secs, x, y).path| == 4
    ensures event == SectionsEvent(click, Click(secs, x, y).path, hasCallback)
  {
    OnlyItemEvents(secs, x, y, hasCallback);
    click, indexes, r := ProcessGroupClick(secs, x, y, groupIndexes);
    event := None;
    if hasCallback && click == ClickDone {
      var sectionIndex := indexes[0];
      var sectionObjectIndex := indexes[1];
      if sectionObjectIndex == HeaderIdx {
        event := Some(HeaderClick(sectionIndex));
      } else if sectionObjectIndex == ItemsIdx {
        event := Some(ItemClick(sectionIndex, indexes[2]));
      } else if sectionObjectIndex == FooterIdx {
        event := Some(FooterClick(sectionIndex));
      }
    }
  }

  /** The resize branch of StickerObject::ProcessClick, with CollapseAllExcludingFirst's
      loop. */
  method ResizeSections(secs: Node) returns (r: Node, minimize: bool)
    requires IsSections(secs) && |secs.slots| >= 1
    ensures Resized(r, minimize) == AfterResize(secs)
  {
    r := EnsureSection(secs, 0);
    minimize := IsCollapsed(Title(Part(r, 0)));
    if minimize {
      r := SetSectionCollapsed(r, 0, false);
      r := CollapseAllExcludingFirst(r);
    }
  }

  // ---------------------------------------------------------------- layout

  /** StickerObject::RecalculateBoundary in the Minimized state: GetSection(0) (section 0
      is created if missing), its title alone is laid out at (x, y), and the sticker's
      boundary becomes the stored minimized rectangle; nothing else moves. */
  function LayoutMinimized(root: Node, x: real, y: real, measure: Measure, minimized: Rect): (r: Node)
    requires IsStickerRoot(root) && FirstExpanded(Secs(root)) && |Secs(root).slots| >= 1
    ensures IsStickerRoot(r) && FirstExpanded(Secs(r)) && r.boundary == minimized
    ensures |Secs(r).slots| == |Secs(root).slots| && Secs(r).slots[0].obj.Some?
    ensures var t := Title(Part(Secs(r), 0));
            t == WithBoundary(Title(SectionAt(Secs(root), 0)), t.boundary) &&
            t.boundary.Left() == x && t.boundary.Top() == y
    ensures forall j :: 0 < j < |Secs(r).slots| ==> Secs(r).slots[j] == Secs(root).slots[j]
    ensures Part(Secs(r), 0) == WithPart(SectionAt(Secs(root), 0), TitleIdx, Title(Part(Secs(r), 0)))
    ensures Secs(r) == PutSection(Secs(root), 0, Part(Secs(r), 0))
    ensures r == WithBoundary(WithSecs(root, Secs(r)), minimized)
  {
    var secs := SecsWithTitleLaidOut(Secs(root), x, y, measure);
    var r := WithBoundary(WithSecs(root, secs), minimized);
    assert Secs(r) == secs;
    r
  }

  /** The sections group once GetSection(0) has run and section 0's title alone is laid
      out at (x, y). */
  function SecsWithTitleLaidOut(secs: Node, x: real, y: real, measure: Measure): (r: Node)
    requires IsSections(secs) && FirstExpanded(secs) && |secs.slots| >= 1
    ensures IsSections(r) && FirstExpanded(r)
    ensures |r.slots| == |secs.slots| && r.slots[0].obj.Some?
    ensures var t := Title(Part(r, 0));
            t == WithBoundary(Title(SectionAt(secs, 0)), t.boundary) &&
            t.boundary.Left() == x && t.boundary.Top() == y
    ensures forall j :: 0 < j < |r.slots| ==> r.slots[j] == secs.slots[j]
    ensures Part(r, 0) == WithPart(SectionAt(secs, 0), TitleIdx, Title(Part(r, 0)))
    ensures r == PutSection(secs, 0, Part(r, 0))
  {
    var secs1 := EnsureSection(secs, 0);
    var s1 := WithTitleLaidOut(Part(secs1, 0), x, y, measure);
    var secs2 := PutSection(secs1, 0, s1);
    assert Part(secs2, 0) == s1;
    assert SectionAt(secs, 0) == Part(secs1, 0);
    secs2
  }

  /** A section with its title alone laid out at (x, y). */
  function WithTitleLaidOut(s: Node, x: real, y: real, measure: Measure): (r: Node)
    requires IsSection(s)
    ensures IsSection(r) && r == WithPart(s, TitleIdx, Layout(Title(s), x, y, measure))
    ensures r == WithPart(s, TitleIdx, Title(r))
    ensures Title(r) == WithBoundary(Title(s), Title(r).boundary) && IsCollapsed(Title(r)) == IsCollapsed(Title(s))
    ensures Title(r).boundary.Left() == x && Title(r).boundary.Top() == y
  {
    WithPart(s, TitleIdx, Layout(Title(s), x, y, measure))
  }

  // ---------------------------------------------------------------- the object

  class StickerObject {
    var state: StateType
    var minimizedBoundary: Rect
    var root: Node
    /** Sticker's m_is_dirty, which the section setters raise. */
    var dirty: bool

    /** The tree is the sticker's tree, section 0 (when it exists) is expanded, and the
        state is never Expanded. */
    predicate Valid()
      reads this
    {
      IsStickerRoot(root) && FirstExpanded(Secs(root)) && state != Expanded
    }

    /** StickerObject::GetSectionCount. */
    function SectionCount(): nat
      reads this
      requires Valid()
    {
      |Secs(root).slots|
    }

    /** The constructor: Minimized, an empty minimized rectangle, one slot holding the empty
        sections group; the owning sticker starts dirty. */
    constructor()
      ensures Valid() && state == Minimized && minimizedBoundary == NoBoundary
      ensures root == NewStickerRoot() && SectionCount() == 0 && dirty
    {
      state := Minimized;
      minimizedBoundary := NoBoundary;
      root := NewStickerRoot();
      dirty := true;
    }

    /** StickerObject::Initialize: the minimized rectangle from a RECT's edges. */
    method Initialize(left: int, top: int, right: int, bottom: int)
      modifies this
      ensures minimizedBoundary == Rect(left as real, top as real, (right - left) as real, (bottom - top) as real)
      ensures minimizedBoundary.Right() == right as real && minimizedBoundary.Bottom() == bottom as real
      ensures state == old(state) && root == old(root) && dirty == old(dirty)
    {
      minimizedBoundary := Rect(left as real, top as real, (right - left) as real, (bottom - top) as real);
    }

    /** StickerObject::SetSectionCount (Sections::SetSectionCount): resizes the sections
        group and raises the dirty flag when the count changed. */
    method SetSectionCount(count: nat)
      requires Valid()
      modifies this
      ensures Valid() && SectionCount() == count
      ensures Secs(root) == Secs(old(root)).(slots := Resize(Secs(old(root)).slots, count))
      ensures root == WithSecs(old(root), Secs(root))
      ensures dirty == (old(dirty) || old(SectionCount()) != count)
      ensures state == old(state) && minimizedBoundary == old(minimizedBoundary)
    {
      var u := SetObjectCount(Secs(root), count);
      root := WithSecs(root, u.node);
      if u.changed {
        dirty := true;
      }
    }

    /** Writes back the section GetSection(index) returned, after a setter that keeps its
        title's collapsed flag, and raises the dirty flag on a reported change. */
    method StoreSection(index: nat, u: Updated)
      requires Valid() && index < SectionCount()
      requires IsSection(u.node) && IsCollapsed(Title(u.node)) == IsCollapsed(Title(SectionAt(Secs(root), index)))
      modifies this
      ensures Valid() && SectionCount() == old(SectionCount())
      ensures root == WithSecs(old(root), PutSection(Secs(old(root)), index, u.node))
      ensures dirty == (old(dirty) || u.changed)
      ensures state == old(state) && minimizedBoundary == old(minimizedBoundary)
    {
      root := WithSecs(root, PutSection(Secs(root), index, u.node));
      if u.changed {
        dirty := true;
      }
    }

    /** GetSection(index).SetTitle(title). */
    method SetTitle(index: nat, title: string)
      requires Valid() && index < SectionCount()
      modifies this
      ensures Valid() && SectionCount() == old(SectionCount())
      ensures var u := SetSectionTitle(SectionAt(Secs(old(root)), index), title);
              root == WithSecs(old(root), PutSection(Secs(old(root)), index, u.node)) &&
              dirty == (old(dirty) || u.changed)
      ensures state == old(state) && minimizedBoundary == old(minimizedBoundary)
    {
      StoreSection(index, SetSectionTitle(SectionAt(Secs(root), index), title));
    }

    /** GetSection(index).SetHeader(description). */
    method SetHeader(index: nat, description: string)
      requires Valid() && index < SectionCount()
      modifies this
      ensures Valid() && SectionCount() == old(SectionCount())
      ensures var u := SetSectionHeader(SectionAt(Secs(old(root)), index), description);
              root == WithSecs(old(root), PutSection(Secs(old(root)), index, u.node)) &&
              dirty == (old(dirty) || u.changed)
      ensures state == old(state) && minimizedBoundary == old(minimizedBoundary)
    {
      StoreSection(index, SetSectionHeader(SectionAt(Secs(root), index), description));
    }

    /** GetSection(index).SetFooter(prefix, description). */
    method SetFooter(index: nat, prefix: string, description: string)
      requires Valid() && index < SectionCount()
      modifies this
      ensures Valid() && SectionCount() == old(SectionCount())
      ensures var u := SetSectionFooter(SectionAt(Secs(old(root)), index), prefix, description);
              root == WithSecs(old(root), PutSection(Secs(old(root)), index, u.node)) &&
              dirty == (old(dirty) || u.changed)
      ensures state == old(state) && minimizedBoundary == old(minimizedBoundary)
    {
      StoreSection(index, SetSectionFooter(SectionAt(Secs(root), index), prefix, description));
    }

    /** GetSection(index).SetItemCount(count). */
    method SetItemCount(index: nat, count: nat)
      requires Valid() && index < SectionCount()
      modifies this
      ensures Valid() && SectionCount() == old(SectionCount())
      ensures var u := SetSectionItemCount(SectionAt(Secs(old(root)), index), count);
              root == WithSecs(old(root), PutSection(Secs(old(root)), index, u.node)) &&
              dirty == (old(dirty) || u.changed)
      ensures state == old(state) && minimizedBoundary == old(minimizedBoundary)
    {
      StoreSection(index, SetSectionItemCount(SectionAt(Secs(root), index), count));
    }

    /** GetSection(index).SetItem(item, date, time, description); the item index must be
        below the section's item count. */
    method SetItem(index: nat, item: nat, date: string, time: string, description: string)
      requires Valid() && index < SectionCount()
      requires item < |Items(SectionAt(Secs(root), index)).slots|
      modifies this
      ensures Valid() && SectionCount() == old(SectionCount())
      ensures var u := SetSectionItem(SectionAt(Secs(old(root)), index), item, date, time, description);
              root == WithSecs(old(root), PutSection(Secs(old(root)), index, u.node)) &&
              dirty == (old(dirty) || u.changed)
      ensures state == old(state) && minimizedBoundary == old(minimizedBoundary)
    {
      StoreSection(index, SetSectionItem(SectionAt(Secs(root), index), item, date, time, description));
    }

    /** StickerObject::ProcessClick(x, y). Minimized: any click opens the sticker and asks
        for a resize. Otherwise the root group forwards the click to its one child, the
        sections group, and the outcome is ClickOpened's. */
    method ProcessClick(x: int, y: int, hasCallback: bool) returns (click: ClickType, event: Option<StickerEvent>)
      requires Valid()
      modifies this
      ensures Valid() && minimizedBoundary == old(minimizedBoundary) && dirty == old(dirty)
      ensures old(state) == Minimized ==>
                state == Opened && click == ClickDoneNeedResize && root == old(root) && event == None
      ensures old(state) != Minimized ==>
                var o := ClickOpened(old(root), x, y, hasCallback);
                click == o.click && root == o.root && event == o.event &&
                state == (if o.minimize then Minimized else old(state))
    {
      if state == Minimized {
        state := Opened;
        return ClickDoneNeedResize, None;
      }
      var root0 := root;
      var indexes, secs;
      click, indexes, secs, event := ProcessSectionsClick(Secs(root0), x, y, hasCallback, []);
      if click == ClickDoneNeedResize {
        ClickCollapsesFirst(Secs(root0), x, y);
        var secs1, minimize := ResizeSections(secs);
        root := WithSecs(root0, secs1);
        if minimize {
          state := Minimized;
        }
      }
    }

    /** StickerObject::RecalculateBoundary. Minimized: LayoutMinimized (section 0 must be
        reachable through GetSection(0)); otherwise the root group's layout. */
    method RecalculateBoundary(x: real, y: real, measure: Measure)
      requires Valid() && (state == Minimized ==> SectionCount() >= 1)
      modifies this
      ensures Valid() && SectionCount() == old(SectionCount())
      ensures state == old(state) && minimizedBoundary == old(minimizedBoundary) && dirty == old(dirty)
      ensures state == Minimized ==> root == LayoutMinimized(old(root), x, y, measure, minimizedBoundary)
      ensures state != Minimized ==> root == Layout(old(root), x, y, measure)
    {
      if state == Minimized {
        var root0 := root;
        var secs1 := EnsureSection(Secs(root), 0);
        var s := Part(secs1, 0);
        var t := GroupLayout.RecalculateBoundary(Title(s), x, y, measure);
        root := WithBoundary(WithSecs(root, PutSection(secs1, 0, WithPart(s, TitleIdx, t))), minimizedBoundary);
        assert root == LayoutMinimized(root0, x, y, measure, minimizedBoundary);
      } else {
        LayoutSameKinds(root, x, y, measure);
        RootKinds(root, Layout(root, x, y, measure), true);
        root := GroupLayout.RecalculateBoundary(root, x, y, measure);
      }
    }

    /** ProcessHover on the sticker (Group::ProcessHover, not overridden): returns the
        paths of the leaves whose hover flag changed. */
    method ProcessHover(x: int, y: int) returns (invalidated: seq<Path>)
      requires Valid()
      modifies this
      ensures Valid() && SectionCount() == old(SectionCount())
      ensures root == Hover(old(root), x, y).node && invalidated == Hover(old(root), x, y).invalidated
      ensures state == old(state) && minimizedBoundary == old(minimizedBoundary) && dirty == old(dirty)
    {
      HoverSameKinds(root, x, y);
      RootKinds(root, Hover(root, x, y).node, true);
      root, invalidated := ProcessGroupHover(root, x, y, []);
    }

    /** StickerObject::Draw: the background over the whole boundary, unconditionally, then
        section 0's title alone while minimized (the const GetSection asserts it exists), or
        the root group otherwise. */
    function DrawCommands(): (cs: seq<DrawCommand>)
      reads this
      requires Valid() && (state == Minimized ==> SectionCount() >= 1 && Secs(root).slots[0].obj.Some?)
      ensures |cs| >= 1 && cs[0] == FillRectangle(GreyVeryLight, root.boundary)
      ensures state == Minimized ==> cs[1..] == Draw(Title(Part(Secs(root), 0)))
      ensures state != Minimized ==> cs[1..] == Draw(root)
    {
      [FillRectangle(GreyVeryLight, root.boundary)] +
      (if state == Minimized then Draw(Title(Part(Secs(root), 0))) else Draw(root))
    }
  }
}
