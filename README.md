# Sticker scene graph — a verified model

The sticker is a small desktop note drawn with GDI+. Its content is a retained scene graph
(namespace `BGO`): leaves (`Text`, `HoverableText`, `ClickableText`, `CollapsibleText`,
`Line`, an `Image` stub) and `Group`, an ordered, resizable sequence of slots, each holding
an owned child, an alignment (`Min`, `Middle`, `Max`) and an `indent_after`. A group lays its
children out in two phases, dispatches a click to the first visible child that reports a
hit (recording the slot path), forwards a hover to every visible child, and moves all
visible descendants when it is offset. Every per-slot operation consults an overridable
visibility hook.

The sticker's composition (namespace `SGO`) builds on it: sections of title, header, items
and footer whose collapsed title hides the rest; sections and items created lazily when
first addressed; "collapse all but the first"; the decoding of a click path into header,
item or footer events; and `StickerObject`, which switches between Minimized and Opened.

Modules:

- `Geometry` (`geometry.dfy`): `RectF` over reals with GDI+'s `Union` and half-open
  `Contains`.
- `GraphicObjects` (`graphic_objects.dfy`): the node kinds as one datatype, the
  change-detecting setters, the effective font, slots and the visibility hook.
- `GroupLayout` / `GroupLayoutProofs` (`group_layout.dfy`): `RecalculateBoundary` and
  `OffsetBoundary` as specification functions and as methods with the source's loops,
  and what they guarantee.
- `GroupDispatch` / `GroupDispatchProofs` (`group_dispatch.dfy`): `ProcessClick` and
  `ProcessHover`, in the same two forms.
- `Drawing` (`drawing.dfy`): the GDI+ calls each `Draw` issues, in order.
- `StickerObjects` / `StickerProofs` (`sticker_objects.dfy`, `sticker_proofs.dfy`): the
  sticker's parts, section setters, `GetSection`, `CollapseAllExcludingFirst`, event
  decoding and the properties of the sticker's tree.
- `StickerMachine` (`sticker_object.dfy`): `StickerObject` as a class with its state, its
  minimized rectangle, its tree and the owning sticker's dirty flag.

Every node is owned by exactly one slot (`unique_ptr`, and `Object` is not copyable), so
the tree is a Dafny value. A member that updates a node in place returns the updated node,
and a group's loop is a method whose invariant ties its progress to an "up to slot k"
specification function. `StickerObject` is the one class: its methods reassign its fields.

## Model

| member | source | states |
|---|---|---|
| Geometry.Rect.Offset | src/graphic_objects.cpp:49-52 | Offsetting keeps width and height and moves the left and top edges by exactly (dx, dy). |
| Geometry.Union | src/graphic_objects.cpp:394 | The union covers both rects, and each of its edges is the corresponding edge of one of them. |
| Geometry.UnionLeast | src/graphic_objects.cpp:394 | A rect covers the union exactly when it covers both parts, so the union is the least covering rect. |
| Geometry.UnionOffset | src/graphic_objects.cpp:473-483 | Moving both parts moves their union by the same amount. |
| Geometry.OffsetTwice | src/graphic_objects.cpp:49-52 | Two rect offsets compose by adding their components. |
| GraphicObjects.WithBoundary | src/graphic_objects.h:37 | Replacing a node's boundary keeps its kind and collapsed flag, and nothing else differs. |
| GraphicObjects.WithText | src/graphic_objects.cpp:92-101 | Replacing a text leaf's string keeps its kind and collapsed flag, and nothing else differs. |
| GraphicObjects.NewText | src/graphic_objects.cpp:83-90 | A new Text has empty text, the default boundary and the constructor's colours and font. |
| GraphicObjects.NewHoverableText | src/graphic_objects.cpp:144-150 | A new HoverableText is not hovered, with empty text and the default boundary. |
| GraphicObjects.NewClickableText | src/graphic_objects.cpp:175-182 | A new ClickableText starts clickable and not hovered, and keeps its clickable colour. |
| GraphicObjects.NewCollapsibleText | src/graphic_objects.cpp:218-226 | A new CollapsibleText starts collapsed and not hovered, and keeps its collapsed style and colour. |
| GraphicObjects.NewLine | src/graphic_objects.cpp:260-264 | A new Line keeps its width and has the default boundary. |
| GraphicObjects.NewImage | src/graphic_objects.cpp:293-296 | A new Image has the default boundary. |
| GraphicObjects.NewGroup | src/graphic_objects.h:174 | A new Group has no slots, keeps its type and insets (which default to 0), and shows every slot. |
| GraphicObjects.SetText | src/graphic_objects.cpp:92-101 | The report is true exactly when the new text differs from the stored one, and the text is stored. |
| GraphicObjects.SetClickable | src/graphic_objects.cpp:184-192 | The report is true exactly when the flag differs from the stored one, and the flag is stored. |
| GraphicObjects.SettersIdempotent | src/graphic_objects.cpp:92-101 | A second SetText or SetClickable with the same argument reports no change and changes nothing. |
| GraphicObjects.SetCollapsed | src/graphic_objects.cpp:228-231 | The collapsed flag takes the argument, and nothing else changes. |
| GraphicObjects.FontOf | src/graphic_objects.cpp:103-108 | The font has the leaf's base name and size; the style alone is derived. |
| GraphicObjects.HoverOnlyUnderlines | src/graphic_objects.cpp:162-166 | The hover flag never affects the colour; the style is the unhovered style with underline OR-ed in while hovered. |
| GraphicObjects.HoverStyleBits | src/graphic_objects.cpp:165 | Hovering leaves every bit but underline alone, and underline is shown iff hovered or already set. |
| GraphicObjects.FontPrecedence | src/graphic_objects.cpp:211-214 | Collapsed beats base in style and colour; clickable beats base in colour; plain Text shows its base font and colour. |
| GraphicObjects.VisibleSameTitle | src/sticker_objects.cpp:147-150 | Visibility reads only slot 0 and the rule, and slot 0 is always visible. |
| GraphicObjects.Resize | src/graphic_objects.cpp:321-329 | Resizing gives exactly count slots; existing slots keep their index and content; new slots are empty. |
| GraphicObjects.SetObjectCount | src/graphic_objects.cpp:321-329 | The report is true iff the count differs, and the slots are resized. |
| GraphicObjects.SetObjectCountSame | src/graphic_objects.cpp:321-329 | Setting the current count reports no change and leaves the group as it was. |
| GraphicObjects.SetObject | src/graphic_objects.cpp:336-343 | Only the addressed slot changes; it holds the object, alignment and indent given. |
| GroupLayout.Offset | src/graphic_objects.cpp:473-483 | The node's boundary moves by (dx, dy); kind and collapsed flag stay; a leaf changes only its boundary; a group keeps its slot count and configuration. |
| GroupLayout.OffsetUpTo | src/graphic_objects.cpp:476-482 | After the loop's first k steps, each visible filled slot below k holds its child offset, and every other slot is unchanged. |
| GroupLayout.OffsetBoundary | src/graphic_objects.cpp:473-483 | The loop computes Offset. |
| GroupLayout.TextBoundary | src/graphic_objects.cpp:103-108 | A text's boundary is anchored at the point where it is laid out. |
| GroupLayout.Layout | src/graphic_objects.cpp:266-430 | Layout keeps kind and collapsed flag. A leaf changes only its boundary, which starts at (x, y); a Line is its width by 2 and the Image stub is 10 by 0. A group keeps its slot count and configuration. |
| GroupLayout.PlaceUpTo | src/graphic_objects.cpp:369-396 | Phase 1 leaves slots from k on untouched; it fills each visible filled slot below k, keeping its alignment and indent; it leaves the rest as they were. |
| GroupLayout.AlignUpTo | src/graphic_objects.cpp:398-430 | Phase 2 offsets each visible non-Min child below k by its AlignShift, and leaves every other slot unchanged. |
| GroupLayout.RecalculateBoundary | src/graphic_objects.cpp:266-272 | The per-kind RecalculateBoundary computes Layout (a Line is width × 2, the Image stub 10 × 0). |
| GroupLayout.RecalculateGroupBoundary | src/graphic_objects.cpp:355-430 | The two loops together compute Layout of the group. |
| GroupLayout.PlaceChildren | src/graphic_objects.cpp:357-396 | The first loop computes PlaceUpTo over every slot. |
| GroupLayout.AlignChildren | src/graphic_objects.cpp:398-430 | The second loop computes AlignUpTo over every slot. |
| GroupLayoutProofs.PlaceKeeps | src/graphic_objects.cpp:369-396 | Later phase-1 steps never change slots already processed. |
| GroupLayoutProofs.PlaceBoundIsUnion | src/graphic_objects.cpp:357-360 | The group's boundary is the union of the zero-size anchor at (x, y) with every visible child's boundary: a rect covers it iff it covers all of them. |
| GroupLayoutProofs.PendingIndents | src/graphic_objects.cpp:362-390 | Before any visible child the indents are the group's insets and the boundary is the anchor. After one, the indents are its indent_after on the primary axis and 0 on the cross axis. |
| GroupLayoutProofs.OriginIsExpected | src/graphic_objects.cpp:376-381 | The loop's origin for a child equals the closed-form expected origin. |
| GroupLayoutProofs.ChildPlacement | src/graphic_objects.cpp:376-381 | The first visible child is laid out at (x + indent_before_x, y + indent_before_y). Each later one goes to the union's far primary edge plus the previous child's indent_after, and to its near cross edge. |
| GroupLayoutProofs.AlignedChild | src/graphic_objects.cpp:398-430 | Phase 2 leaves the group boundary alone and leaves hidden, empty, Min and not-smaller children in place. Other children move only along the cross axis, by the extent difference (halved for Middle). |
| GroupLayoutProofs.OffsetZero | src/graphic_objects.cpp:473-483 | Offsetting by (0, 0) changes nothing. |
| GroupLayoutProofs.OffsetTwice | src/graphic_objects.cpp:473-483 | Two offsets of a tree compose into one by the sum. |
| GroupLayoutProofs.OffsetSameKinds | src/graphic_objects.cpp:473-483 | Offsetting keeps the tree's shape and collapsed flags. |
| GroupLayoutProofs.LayoutSameKinds | src/graphic_objects.cpp:355-430 | Layout keeps the tree's shape and collapsed flags. |
| GroupLayoutProofs.LayoutSlotSameKinds | src/graphic_objects.cpp:369-430 | Layout keeps each slot's shape and collapsed flags. |
| GroupDispatch.Click | src/graphic_objects.cpp:444-460 | With no hit the path is empty and the tree unchanged; a click never changes a boundary or a kind. |
| GroupDispatch.ClickFrom | src/graphic_objects.cpp:446-459 | The loop from slot i with no hit leaves the group unchanged and the path empty. |
| GroupDispatch.ProcessClick | src/graphic_objects.cpp:54-57 | Dispatch computes Click, and a hit's path is put in front of the caller's indices. |
| GroupDispatch.ProcessGroupClick | src/graphic_objects.cpp:444-460 | The group's loop computes Click, putting the hit slot's index in front. |
| GroupDispatch.Hover | src/graphic_objects.cpp:59-62 | A hover keeps boundary, kind and collapsed flag; a hover that reports nothing changes nothing. |
| GroupDispatch.Under | src/graphic_objects.cpp:462-471 | A child's reports are seen from the group with the child's index in front. |
| GroupDispatch.HoverUpTo | src/graphic_objects.cpp:462-471 | The loop after k slots changes only visible filled slots below k, and reports nothing only when nothing changed. |
| GroupDispatch.ProcessHover | src/graphic_objects.cpp:152-160 | Dispatch computes Hover and appends its reports to the caller's vector. |
| GroupDispatch.ProcessGroupHover | src/graphic_objects.cpp:462-471 | The group's loop visits every visible child with no early exit and computes Hover. |
| GroupDispatch.HoverLeaf | src/graphic_objects.cpp:152-160 | The hover flag becomes "the boundary contains the point", and the leaf reports itself exactly when the flag changed. |
| GroupDispatchProofs.ClickLeafOutcomes | src/graphic_objects.cpp:194-201 | ClickableText reports ClickDone iff clickable and the point is inside, changing nothing. CollapsibleText flips and reports ClickDoneNeedResize iff the point is inside. Every other leaf reports NoClick. |
| GroupDispatchProofs.CollapsibleClickTwice | src/graphic_objects.cpp:238-246 | Two clicks inside a collapsible leaf restore it; one click flips its collapsed flag. |
| GroupDispatchProofs.ClickFromFirstHit | src/graphic_objects.cpp:446-459 | The loop hits iff some visible child from i on hits. The first such child decides the outcome, path and new node, and no earlier visible child hits. |
| GroupDispatchProofs.GroupClickFirstHit | src/graphic_objects.cpp:444-460 | A group hits iff a visible child hits; the first in slot order decides, with its index prepended to the path. |
| GroupDispatchProofs.ClickPathLeadsToLeaf | src/graphic_objects.cpp:444-460 | A hit's path leads to a leaf containing the point: a clickable ClickableText for ClickDone, a CollapsibleText for ClickDoneNeedResize. |
| GroupDispatchProofs.ClickDoneKeepsTree | src/graphic_objects.cpp:194-201 | A ClickDone leaves the whole tree unchanged. |
| GroupDispatchProofs.HoverLeafOutcome | src/graphic_objects.cpp:152-160 | A taking-part hoverable leaf sets its flag to point-in-rect and reports itself iff the flag changed. A non-clickable ClickableText and every other leaf do nothing. |
| GroupDispatchProofs.HoverIdempotent | src/graphic_objects.cpp:152-160 | A second hover at the same point changes nothing and reports nothing. |
| GroupDispatchProofs.HoverUpToSilent | src/graphic_objects.cpp:462-471 | If no visible child changes, the group's loop reports nothing. |
| GroupDispatchProofs.HoverReportsSome | src/graphic_objects.cpp:462-471 | A hover reports something iff it changed the tree. |
| GroupDispatchProofs.HoverUpToReports | src/graphic_objects.cpp:462-471 | The loop's reports are exactly the child reports of visible slots below k, prefixed with the slot index. |
| GroupDispatchProofs.HoverUpToInOrder | src/graphic_objects.cpp:462-471 | The loop appends in visit order: every report starts with a slot index, and those indices never decrease along the list. |
| GroupDispatchProofs.HoverReportsOnce | src/graphic_objects.cpp:462-471 | No path is reported twice. |
| GroupDispatchProofs.HoverUpToOnce | src/graphic_objects.cpp:462-471 | The loop over the slots below k reports no path twice. |
| GroupDispatchProofs.HoverReportsChanged | src/graphic_objects.cpp:152-160 | A path is reported iff it leads to a hoverable leaf whose hover flag the call flipped. |
| GroupDispatchProofs.ClickSameKinds | src/graphic_objects.cpp:444-460 | A click keeps the tree's kinds, group configuration and filled slots. |
| GroupDispatchProofs.HoverSameKinds | src/graphic_objects.cpp:462-471 | A hover keeps the tree's shape and every collapsed flag. |
| Drawing.Draw | src/graphic_objects.cpp:110-311 | Text draws its background fill and then its string in the effective font and colour, both only when the boundary has area. Line fills its boundary in its background colour first when there is area, then always draws two strokes along its top edge, the second one pixel lower in the shadow colour. The Image stub draws nothing. |
| Drawing.Background | src/graphic_objects.cpp:72-79 | The background is drawn iff the boundary has area, and then it is one fill of the whole boundary in the background colour. |
| Drawing.Shadow | src/graphic_objects.cpp:285 | The shadow colour keeps red, green and blue and halves alpha, rounding down. |
| Drawing.DrawNode | src/graphic_objects.cpp:110-120 | Every node's Draw appends exactly Draw(n) to the calls issued so far. |
| Drawing.DrawGroup | src/graphic_objects.cpp:433-442 | The group's loop appends the draws of its visible children in slot order. |
| Drawing.MoveCommands | src/graphic_objects.cpp:49-52 | Each command is moved individually, in order. |
| Drawing.MoveCommandsAppend | src/graphic_objects.cpp:433-442 | Moving distributes over concatenation. |
| Drawing.DrawAfterOffset | src/graphic_objects.cpp:473-483 | Drawing after OffsetBoundary issues the same calls, each moved by (dx, dy). |
| Drawing.DrawUpToAfterOffset | src/graphic_objects.cpp:433-442 | The same holds for a group's draw loop after k slots. |
| Drawing.CollapsedDrawsTitleOnly | src/sticker_objects.cpp:147-150 | A section whose title is collapsed draws its title alone. |
| Drawing.CollapsedDrawUpTo | src/graphic_objects.cpp:433-442 | The draw loop of a collapsed section draws only the title, for every k > 0. |
| StickerObjects.WithTitleCollapsed | src/sticker_objects.cpp:137-145 | A section with its title's flag set stays a section, its title is SetCollapsed of the old one, and nothing else changes. |
| StickerObjects.SetSectionTitle | src/sticker_objects.cpp:152-159 | The report is true iff the title differs; only the title's text changes. |
| StickerObjects.SetSectionHeader | src/sticker_objects.cpp:171-178 | The report is true iff the header differs; only the header's text changes. |
| StickerObjects.SetSectionFooter | src/sticker_objects.cpp:180-192 | Both footer texts are set. The report is true iff either differed. Only those two texts change. |
| StickerObjects.SetSectionItemCount | src/sticker_objects.cpp:194-202 | The report is true iff the item count differs; the items group is resized and nothing else changes. |
| StickerObjects.EnsureItem | src/sticker_objects.cpp:208-214 | An existing item is kept; an empty slot receives a new SectionItem glued to the bottom. |
| StickerObjects.SetItemTexts | src/sticker_objects.cpp:216-227 | Date, time and description are set; the report is true iff any of them differed. |
| StickerObjects.SetSectionItem | src/sticker_objects.cpp:204-230 | The item (created if missing) gets its texts; the report is the texts' report; other items and parts are unchanged. |
| StickerObjects.FreshSection | src/sticker_objects.cpp:265-267 | A section created by GetSection is collapsed iff its index is above 0. |
| StickerObjects.EnsureSection | src/sticker_objects.cpp:260-271 | An existing section is returned unchanged; an empty slot receives a fresh section glued to the bottom. |
| StickerObjects.SectionAt | src/sticker_objects.cpp:260-271 | GetSection always yields a section. |
| StickerObjects.PutSection | src/sticker_objects.cpp:260-271 | Writing a section back changes only its slot. |
| StickerObjects.CollapsedSlot | src/sticker_objects.cpp:260-271 | A slot after GetSection then SetCollapsed(c) on its title always holds a section whose title flag is c. |
| StickerObjects.SetSectionCollapsed | src/sticker_objects.cpp:275-280 | GetSection(i).GetTitle().SetCollapsed(c) turns slot i into its CollapsedSlot (a created section is glued to the bottom) and changes no other slot or field. |
| StickerObjects.TitleCollapsedTwice | src/sticker_objects.cpp:265-267 | Setting the flag twice equals setting it once to the second value, so a created section's initial flag is overwritten. |
| StickerObjects.CollapsedUpTo | src/sticker_objects.cpp:273-281 | After k steps, slot 0 is expanded, slots 1..k-1 are collapsed (created if missing), the rest are unchanged, and so is every other field of the group. |
| StickerObjects.CollapseAllExcludingFirst | src/sticker_objects.cpp:273-281 | The loop computes CollapsedUpTo over every section. |
| StickerObjects.SectionsEvent | src/sticker_objects.cpp:284-315 | An event is raised iff there is a callback, the click is ClickDone and path[1] is header, items or footer; it names section path[0]. |
| StickerObjects.EventPath | src/sticker_objects.cpp:291-312 | An event's path prefix starts with its section. |
| StickerProofs.FreshParts | src/sticker_objects.cpp:41-135 | New items, sections and the root have the expected shape and empty texts. A new section is collapsed with no items. The description starts clickable. |
| StickerProofs.PartLooks | src/sticker_objects.cpp:41-126 | Each leaf part starts with empty text on the light grey background, in the font and colour its constructor names; the description starts clickable, and the title starts collapsed in style 9 and grey. |
| StickerProofs.TitleFonts | src/sticker_objects.cpp:121-123 | A section title is Tahoma 9: bold red when expanded, style 9 grey when collapsed, underlined while hovered. |
| StickerProofs.SectionSettersIdempotent | src/sticker_objects.cpp:152-202 | Repeating a section setter with the same arguments reports no change and changes nothing. |
| StickerProofs.SetSectionItemIdempotent | src/sticker_objects.cpp:204-230 | Repeating SetItem with the same texts reports no change and changes nothing. |
| StickerProofs.EnsureSectionOnce | src/sticker_objects.cpp:260-271 | GetSection creates a section at most once; a created one is collapsed iff index > 0; an existing one is returned. |
| StickerProofs.CollapseAllOutcome | src/sticker_objects.cpp:273-281 | Afterwards every slot holds a section, only section 0 is expanded, and existing sections change only their title flag. |
| StickerProofs.TextNeverClicks | src/graphic_objects.cpp:54-57 | A plain Text never reports a hit. |
| StickerProofs.ItemClickPath | src/sticker_objects.cpp:53-64 | In an item, only the description can be hit, and it reports ClickDone. |
| StickerProofs.ItemsClickPath | src/sticker_objects.cpp:204-214 | A hit in the items group is an existing item's description. |
| StickerProofs.FooterNeverClicks | src/sticker_objects.cpp:90-107 | The footer is never hit. |
| StickerProofs.SectionClickPath | src/sticker_objects.cpp:128-135 | A resize hit in a section is its title, which flips; a ClickDone is an existing item's description. |
| StickerProofs.SectionsClickPath | src/sticker_objects.cpp:284-287 | A hit is in an existing section. A resize flips that section's title and nothing else. A ClickDone has path [section, items, item, description] with an existing item. |
| StickerProofs.OnlyItemEvents | src/sticker_objects.cpp:284-315 | The only event ever raised is ItemClick(path[0], path[2]), exactly when there is a callback and a ClickDone. |
| StickerProofs.EventPathRoundTrip | src/sticker_objects.cpp:291-312 | Decoding any path that starts with an event's prefix yields that event. |
| StickerProofs.EventNamesItsPath | src/sticker_objects.cpp:291-312 | Every raised event's prefix is a prefix of the path it was decoded from. |
| StickerProofs.RootClick | src/sticker_objects.cpp:319-325 | The root forwards a click to its one child, the sections group, prefixing index 0. |
| StickerProofs.ClickCollapsesFirst | src/sticker_objects.cpp:403-410 | A click keeps the sections' shape. While section 0 is expanded, it ends collapsed iff the click hit section 0's title. |
| StickerProofs.SlotKinds | src/graphic_objects.h:202-209 | Slots of the same shape hold objects of the same kind. |
| StickerProofs.ItemKinds | src/sticker_objects.h:38 | Same-shape trees keep an item an item. |
| StickerProofs.ItemsKinds | src/sticker_objects.cpp:133 | Same-shape trees keep the items group an items group. |
| StickerProofs.FooterKinds | src/sticker_objects.h:69 | Same-shape trees keep a footer a footer. |
| StickerProofs.SectionKinds | src/sticker_objects.h:103 | Same-shape trees keep a section a section; with flags, the title's collapsed flag too. |
| StickerProofs.SectionsKinds | src/sticker_objects.cpp:260-271 | Same-shape trees keep the sections group, its length and filled slots; with flags, section 0 stays expanded. |
| StickerProofs.RootKinds | src/sticker_objects.h:151 | Same-shape trees keep the sticker root and its section count; with flags, section 0 stays expanded. |
| StickerMachine.WithSecs | src/sticker_objects.h:151 | Replacing the sections group keeps the root a sticker root with the same boundary. |
| StickerMachine.AfterResize | src/sticker_objects.cpp:405-415 | After a resize request, section 0 exists and is expanded. The sticker minimizes iff section 0 was collapsed, and then every other section is collapsed. Otherwise only GetSection(0) ran. |
| StickerMachine.ResizeMinimizes | src/sticker_objects.cpp:405-415 | With section 0 expanded, a resize request minimizes the sticker exactly when the click hit section 0's title. |
| StickerMachine.ClickOpened | src/sticker_objects.cpp:402-418 | The outcome is the base dispatch's. The sticker minimizes iff the click hit section 0's title, then all other sections are collapsed. Without a resize the tree is unchanged. Only ItemClick events arise, always with a callback and ClickDone. |
| StickerMachine.ProcessSectionsClick | src/sticker_objects.cpp:284-315 | The outcome, path and tree are the base group's, and the event is SectionsEvent of that path. |
| StickerMachine.ResizeSections | src/sticker_objects.cpp:405-415 | The resize branch, with the collapse loop, computes AfterResize. |
| StickerMachine.LayoutMinimized | src/sticker_objects.cpp:366-372 | While minimized, GetSection(0) runs (creating section 0 if missing) and only its title is laid out, at (x, y), keeping every field but its boundary. Section 0's other parts, the other sections and the root's other fields are untouched, and the sticker's boundary becomes the stored rectangle. |
| StickerMachine.StickerObject.constructor | src/sticker_objects.cpp:319-325 | The sticker starts Minimized, with an empty rectangle and an empty sections group, and dirty. |
| StickerMachine.StickerObject.Initialize | src/sticker_objects.cpp:327-333 | The stored rectangle's edges are the RECT's: width = right − left, height = bottom − top. |
| StickerMachine.StickerObject.SetSectionCount | src/sticker_objects.cpp:239-246 | The sections are resized, and dirty is raised iff the count changed. |
| StickerMachine.StickerObject.SetTitle | src/sticker_objects.cpp:152-159 | GetSection(i).SetTitle: the section is written back, and dirty is raised iff the title changed. |
| StickerMachine.StickerObject.SetHeader | src/sticker_objects.cpp:171-178 | GetSection(i).SetHeader: the section is written back, and dirty is raised iff the header changed. |
| StickerMachine.StickerObject.SetFooter | src/sticker_objects.cpp:180-192 | GetSection(i).SetFooter: the section is written back, and dirty is raised iff a footer text changed. |
| StickerMachine.StickerObject.SetItemCount | src/sticker_objects.cpp:194-202 | GetSection(i).SetItemCount: the section is written back, and dirty is raised iff the count changed. |
| StickerMachine.StickerObject.SetItem | src/sticker_objects.cpp:204-230 | GetSection(i).SetItem: the section is written back, and dirty is raised iff an item text changed. |
| StickerMachine.StickerObject.ProcessClick | src/sticker_objects.cpp:394-418 | Minimized: becomes Opened, returns ClickDoneNeedResize and changes nothing else. Otherwise the result is ClickOpened's, and it minimizes exactly when ClickOpened says so. Section 0 stays expanded. |
| StickerMachine.StickerObject.RecalculateBoundary | src/sticker_objects.cpp:366-377 | Minimized: LayoutMinimized. Otherwise: the root group's Layout. The invariant is kept. |
| StickerMachine.StickerObject.ProcessHover | src/graphic_objects.cpp:462-471 | The root group's Hover: the invariant is kept, and the reported paths are the leaves whose flag changed. |
| StickerMachine.StickerObject.DrawCommands | src/sticker_objects.cpp:379-392 | The background fills the whole boundary first. Then, when minimized, section 0's title alone is drawn; otherwise the root group. |

Some definitions carry no contract of their own. Their behaviour is stated by the rows above:

- `Drawing.DrawUpTo` (`Group::Draw`, src/graphic_objects.cpp:433-442): `Drawing.DrawGroup`,
  `Drawing.DrawUpToAfterOffset` and `Drawing.CollapsedDrawUpTo`.
- `GraphicObjects.StyleWithoutHover`, `FontStyleOf` and `FontColorOf` (`GetFontStyleWithoutHover`,
  `GetFontStyle`, `GetFontColor`, src/graphic_objects.cpp:132-171, 211-214, 248-256):
  `GraphicObjects.FontPrecedence`, `HoverStyleBits`, `HoverOnlyUnderlines` and
  `StickerProofs.TitleFonts`.
- `GraphicObjects.Visible` (both `IsObjectVisible`s, src/graphic_objects.cpp:485-488 and
  src/sticker_objects.cpp:147-150): `GraphicObjects.VisibleSameTitle`.
- `GraphicObjects.GetObject` (src/graphic_objects.cpp:345-353), `StickerObjects.Title`
  (`GetTitle`, src/sticker_objects.cpp:137-145) and `StickerMachine.StickerObject.SectionCount`
  (`GetSectionCount`, src/sticker_objects.cpp:345-348) are plain reads. `GraphicObjects.SetObject`,
  `StickerObjects.WithTitleCollapsed` and the class's constructor and `SetSectionCount` rows say
  what they read back.
- The part constructors `ItemDate`, `ItemTime`, `ItemDescription`, `SectionHeader`,
  `FooterPrefix`, `FooterDescription` and `SectionTitle` (src/sticker_objects.cpp:41-126):
  `StickerProofs.PartLooks` and `StickerProofs.TitleFonts`. The group constructors
  `NewSectionItem`, `NewSectionFooter`, `NewSection` and `NewStickerRoot`
  (src/sticker_objects.cpp:59-135, 319-328): `StickerProofs.FreshParts`.

## Left out

- Win32 window plumbing, the message loop, `main.cpp` and `sticker.cpp` (bitmap paint cycle,
  mouse tracking, invalidation, float-to-`LONG` rounding, `Sticker::Update`) are not part of
  this model. The owning sticker appears only as the dirty flag the setters raise; clearing
  it after a paint is not modelled.
- Text is an abstract string; the ANSI-to-wide conversion (`AsciiToWide`) is left out.
- `MeasureString` is a function parameter (`Measure`); the laid-out rect is anchored at the
  given origin. GDI+'s `RectF::Union`, `RectF::Contains` and `RectF::IsEmptyArea` are not
  in the repository; their GDI+ meaning (min/max of edges, half-open point test, a side no
  longer than `REAL_EPSILON`, taken as `FLT_EPSILON` = 2^-23) is an assumption.
- `Gdiplus::REAL` is a Dafny `real`; floating-point rounding is not modelled.
- Drawing is the ordered list of GDI+ calls; pixels, pens and brushes are not modelled.
- The `Image` stub has only its fixed 10 × 0 geometry and draws nothing.
- `Text`'s `width` parameter and `SetColor` are declared without a definition; they are left out.
- A visible slot holding no object is skipped. The source asserts or dereferences null
  there, so the model is total where the source would crash.
- Indexing past a group's slot count (`vector::at`, which throws) is a precondition of
  `SetObject`, `GetObject`, `EnsureSection`, `SetSectionItem`, the class's section setters,
  `StickerMachine.LayoutMinimized` and `StickerMachine.StickerObject.RecalculateBoundary`
  (the latter two reach `GetSection(0)` while minimized, so they require at least one
  section; `main.cpp` sets three sections before any layout runs).
- `sticker_objects.cpp` is written against a slightly different `Group` API than the
  header declares. `GluingType::Right` is read as a Horizontal group and
  `GluingType::Bottom` as a Vertical one, and every child is `Min`-aligned. A group built
  with the parameterless `Group()` takes its type from how its children are glued:
  `SectionItem` and `SectionFooter` (children glued `Right`) are Horizontal, and the items
  group and `Section` (children glued `Bottom`) are Vertical.
- `ItemDescription` passes five arguments to `ClickableText`'s six-parameter constructor; its
  one colour is used as both the base and the clickable colour.
- `CollapsibleText` does not override `GetFontSize`, so a title keeps its base size whether
  collapsed or not.
- The `IStickerCallback` calls are returned as a `StickerEvent` value; `hasCallback` says
  whether a callback is installed.
- `Section::SetOwnerName` has an empty body and is not modelled.
- `GetState` and the const `GetSection` are plain reads; the latter's assertion becomes the
  precondition of `StickerMachine.StickerObject.DrawCommands`.
- `StickerMachine.StickerObject.Initialize`: the RECT's `LONG` edges are unbounded integers, so
  an overflowing `right - left` is not modelled.
- Object identity: a path of slot indices stands in for the `Object*` the source pushes
  into `invalidated_objects`.
