/** Input dispatch over the tree: ProcessClick, which stops at the first visible child that
    reports a click and records the slot indices down to it, and ProcessHover, which visits
    every visible child and collects the leaves whose hover flag changed. */
module GroupDispatch {
  import opened Geometry
  import opened GraphicObjects

  /** The node reached from n by following a path of slot indices, if every step exists. */
  function At(n: Node, path: Path): Option<Node>
    decreases path
  {
    if path == [] then Some(n)
    else if n.Group? && path[0] < |n.slots| && n.slots[path[0]].obj.Some? then
      At(n.slots[path[0]].obj.value, path[1..])
    else None
  }

  // ---------------------------------------------------------------- ProcessClick

  /** A click's outcome, the slot indices from the clicked node down to the leaf that
      reported it (the part of group_indexes this call prepends), and the node afterwards. */
  datatype ClickResult = ClickResult(click: ClickType, path: Path, node: Node)

  /** ProcessClick of any node at pixel (x, y). Object's default never hits. A ClickableText
      hits while clickable and under the point. A CollapsibleText under the point flips its
      collapsed flag and asks for a resize. A group asks its visible children in slot order
      and stops at the first hit. */
  function Click(n: Node, x: int, y: int): (r: ClickResult)
    decreases n, 1, 0
    ensures r.click == NoClick ==> r.path == [] && r.node == n
    ensures r.node.boundary == n.boundary && KindOf(r.node) == KindOf(n)
  {
    match n
    case ClickableText(b, _, _, _, _, clickable) =>
      if clickable && b.Contains(x, y) then ClickResult(ClickDone, [], n)
      else ClickResult(NoClick, [], n)
    case CollapsibleText(b, _, _, _, _, _, collapsed) =>
      if b.Contains(x, y) then ClickResult(ClickDoneNeedResize, [], SetCollapsed(n, !collapsed))
      else ClickResult(NoClick, [], n)
    case Group(_, _, _, _, _, _) => ClickFrom(n, 0, x, y)
    case _ => ClickResult(NoClick, [], n)
  }

  /** Group::ProcessClick's loop from slot i on. Nothing changes before the first hit, so
      the visibility of every slot is read from the group as it was. */
  function ClickFrom(g: Node, i: nat, x: int, y: int): (r: ClickResult)
    requires g.Group? && i <= |g.slots|
    decreases g, 0, |g.slots| - i
    ensures r.click == NoClick ==> r.path == [] && r.node == g
    ensures r.node.boundary == g.boundary && r.node.Group?
  {
    if i == |g.slots| then ClickResult(NoClick, [], g)
    else if Placed(g.rule, g.slots, i) then
      var c := Click(g.slots[i].obj.value, x, y);
      if c.click != NoClick then
        ClickResult(c.click, [i] + c.path, g.(slots := g.slots[i := g.slots[i].(obj := Some(c.node))]))
      else ClickFrom(g, i + 1, x, y)
    else ClickFrom(g, i + 1, x, y)
  }

  /** Object::ProcessClick and its overrides. group_indexes is the caller's deque; a hit
      prepends the indices down to the leaf. */
  method ProcessClick(n: Node, x: int, y: int, groupIndexes: Path) returns (click: ClickType, indexes: Path, r: Node)
    decreases n, 1
    ensures click == Click(n, x, y).click && r == Click(n, x, y).node
    ensures indexes == Click(n, x, y).path + groupIndexes
  {
    indexes := groupIndexes;
    r := n;
    if n.ClickableText? {
      if n.clickable {
        click := if n.boundary.Contains(x, y) then ClickDone else NoClick;
        return;
      }
      click := NoClick;
    } else if n.CollapsibleText? {
      if n.boundary.Contains(x, y) {
        r := SetCollapsed(n, !n.collapsed);
        click := ClickDoneNeedResize;
        return;
      }
      click := NoClick;
    } else if n.Group? {
      click, indexes, r := ProcessGroupClick(n, x, y, groupIndexes);
    } else {
      click := NoClick;
    }
  }

  /** Group::ProcessClick: the first visible child whose answer is not NoClick decides;
      its index is pushed in front of the indices the child pushed. */
  method ProcessGroupClick(g: Node, x: int, y: int, groupIndexes: Path) returns (click: ClickType, indexes: Path, r: Node)
    requires g.Group?
    decreases g, 0
    ensures click == ClickFrom(g, 0, x, y).click && r == ClickFrom(g, 0, x, y).node
    ensures indexes == ClickFrom(g, 0, x, y).path + groupIndexes
  {
    var i := 0;
    while i < |g.slots|
      invariant 0 <= i <= |g.slots|
      invariant ClickFrom(g, i, x, y) == ClickFrom(g, 0, x, y)
    {
      if Visible(g.rule, g.slots, i) {
        var obj := g.slots[i].obj;
        if obj.Some? {
          var childIndexes, child;
          click, childIndexes, child := ProcessClick(obj.value, x, y, groupIndexes);
          if click != NoClick {
            indexes := [i] + childIndexes;
            r := g.(slots := g.slots[i := g.slots[i].(obj := Some(child))]);
            return;
          }
        }
      }
      i := i + 1;
    }
    click, indexes, r := NoClick, groupIndexes, g;
  }

  // ---------------------------------------------------------------- ProcessHover

  /** The node after a hover and the paths (from that node) of the leaves that pushed
      themselves onto invalidated_objects, in push order. */
  datatype HoverResult = HoverResult(node: Node, invalidated: seq<Path>)

  /** HoverableText::ProcessHover: the flag becomes "the boundary contains the point", and
      the leaf reports itself exactly when the flag changed. */
  function HoverLeaf(n: Node, x: int, y: int): (r: HoverResult)
    requires IsHoverable(n)
    ensures r.node == n.(hovered := n.boundary.Contains(x, y))
    ensures r.invalidated == (if n.hovered != n.boundary.Contains(x, y) then [[]] else [])
  {
    var inside := n.boundary.Contains(x, y);
    if inside != n.hovered then HoverResult(n.(hovered := inside), [[]]) else HoverResult(n, [])
  }

  /** ProcessHover of any node. Object's default and plain Text ignore it; ClickableText
      takes part only while clickable; a group forwards to every visible child. */
  function Hover(n: Node, x: int, y: int): (r: HoverResult)
    decreases n, 1, 0
    ensures r.node.boundary == n.boundary && KindOf(r.node) == KindOf(n) && IsCollapsed(r.node) == IsCollapsed(n)
    ensures r.invalidated == [] ==> r.node == n
  {
    match n
    case HoverableText(_, _, _, _) => HoverLeaf(n, x, y)
    case ClickableText(_, _, _, _, _, clickable) => if clickable then HoverLeaf(n, x, y) else HoverResult(n, [])
    case CollapsibleText(_, _, _, _, _, _, _) => HoverLeaf(n, x, y)
    case Group(_, _, _, _, _, _) =>
      var h := HoverUpTo(n, |n.slots|, x, y);
      HoverResult(n.(slots := h.node.slots), h.invalidated)
    case _ => HoverResult(n, [])
  }

  /** The paths of a child's report, seen from the group: the child's index in front. */
  function Under(i: nat, paths: seq<Path>): (r: seq<Path>)
    ensures |r| == |paths| && forall j :: 0 <= j < |paths| ==> r[j] == [i] + paths[j]
  {
    if paths == [] then [] else [[i] + paths[0]] + Under(i, paths[1..])
  }

  /** Group::ProcessHover's loop after the slots below k, as a group holding the slots so
      far and the reports so far. */
  function HoverUpTo(g: Node, k: nat, x: int, y: int): (r: HoverResult)
    requires g.Group? && k <= |g.slots|
    decreases g, 0, k
    ensures r.node.Group? && r.node == g.(slots := r.node.slots) && |r.node.slots| == |g.slots|
    ensures TitleCollapsed(r.node.slots) == TitleCollapsed(g.slots)
    ensures forall j :: 0 <= j < |g.slots| ==>
              r.node.slots[j] == if j < k && Placed(g.rule, g.slots, j)
                                 then g.slots[j].(obj := Some(Hover(g.slots[j].obj.value, x, y).node))
                                 else g.slots[j]
    ensures r.invalidated == [] ==> r.node == g
  {
    if k == 0 then HoverResult(g, [])
    else
      var h := HoverUpTo(g, k - 1, x, y);
      var i := k - 1;
      if Visible(g.rule, h.node.slots, i) && g.slots[i].obj.Some? then
        var c := Hover(g.slots[i].obj.value, x, y);
        HoverResult(h.node.(slots := h.node.slots[i := g.slots[i].(obj := Some(c.node))]),
                    h.invalidated + Under(i, c.invalidated))
      else h
  }

  /** Object::ProcessHover and its overrides; invalidated_objects is the caller's vector. */
  method ProcessHover(n: Node, x: int, y: int, invalidated: seq<Path>) returns (r: Node, reported: seq<Path>)
    decreases n, 1
    ensures r == Hover(n, x, y).node && reported == invalidated + Hover(n, x, y).invalidated
  {
    r, reported := n, invalidated;
    if n.HoverableText? || n.CollapsibleText? || (n.ClickableText? && n.clickable) {
      var inside := n.boundary.Contains(x, y);
      if inside != n.hovered {
        r := n.(hovered := inside);
        reported := reported + [[]];
      }
    } else if n.Group? {
      r, reported := ProcessGroupHover(n, x, y, invalidated);
    }
  }

  /** Group::ProcessHover: every visible child, in slot order, with no early exit. */
  method ProcessGroupHover(g: Node, x: int, y: int, invalidated: seq<Path>) returns (r: Node, reported: seq<Path>)
    requires g.Group?
    decreases g, 0
    ensures r == Hover(g, x, y).node && reported == invalidated + Hover(g, x, y).invalidated
  {
    var slots := g.slots;
    var own: seq<Path> := [];
    var i := 0;
    while i < |slots|
      invariant 0 <= i <= |g.slots|
      invariant HoverUpTo(g, i, x, y) == HoverResult(g.(slots := slots), own)
    {
      assert slots[i] == g.slots[i];
      if Visible(g.rule, slots, i) {
        var obj := slots[i].obj;
        if obj.Some? {
          var child, childReported := ProcessHover(obj.value, x, y, []);
          assert HoverResult(child, childReported) == Hover(obj.value, x, y);
          slots := slots[i := slots[i].(obj := Some(child))];
          own := own + Under(i, childReported);
        }
      }
      i := i + 1;
    }
    r := g.(slots := slots);
    reported := invalidated + own;
  }
}

module GroupDispatchProofs {
  import opened Geometry
  import opened GraphicObjects
  import opened GroupDispatch

  // ---------------------------------------------------------------- clicks

  /** The leaf outcomes: a ClickableText reports ClickDone exactly when it is clickable and
      under the point, and never changes; a CollapsibleText under the point flips its
      collapsed flag and reports ClickDoneNeedResize, in either direction, and anywhere else
      reports NoClick and stays as it was; every other leaf reports NoClick. */
  lemma ClickLeafOutcomes(n: Node, x: int, y: int)
    requires !n.Group?
    ensures n.ClickableText? ==>
              Click(n, x, y).node == n &&
              (Click(n, x, y).click == ClickDone <==> n.clickable && n.boundary.Contains(x, y)) &&
              Click(n, x, y).click != ClickDoneNeedResize
    ensures n.CollapsibleText? && n.boundary.Contains(x, y) ==>
              Click(n, x, y).click == ClickDoneNeedResize &&
              Click(n, x, y).node == n.(collapsed := !n.collapsed)
    ensures n.CollapsibleText? && !n.boundary.Contains(x, y) ==> Click(n, x, y) == ClickResult(NoClick, [], n)
    ensures !n.ClickableText? && !n.CollapsibleText? ==> Click(n, x, y) == ClickResult(NoClick, [], n)
    ensures Click(n, x, y).path == []
  {
  }

  /** Two clicks at the same point inside a CollapsibleText leave it as it was. */
  lemma CollapsibleClickTwice(n: Node, x: int, y: int)
    requires n.CollapsibleText? && n.boundary.Contains(x, y)
    ensures Click(Click(n, x, y).node, x, y).node == n
    ensures IsCollapsed(Click(n, x, y).node) == !IsCollapsed(n)
  {
  }

  /** ClickFrom(g, i) is decided by the first visible slot from i on whose child reports a
      click: its index heads the path, the child's path and outcome follow, and only that
      child changes; with no such slot the answer is NoClick. */
  lemma {:induction false} ClickFromFirstHit(g: Node, i: nat, x: int, y: int)
    requires g.Group? && i <= |g.slots|
    ensures var r := ClickFrom(g, i, x, y);
            (r.click != NoClick <==>
               exists k :: i <= k < |g.slots| && Placed(g.rule, g.slots, k) &&
                           Click(g.slots[k].obj.value, x, y).click != NoClick) &&
            (r.click != NoClick ==>
               |r.path| > 0 && i <= r.path[0] < |g.slots| && Placed(g.rule, g.slots, r.path[0]) &&
               var c := Click(g.slots[r.path[0]].obj.value, x, y);
               c.click == r.click && c.path == r.path[1..] &&
               r.node == g.(slots := g.slots[r.path[0] := g.slots[r.path[0]].(obj := Some(c.node))]) &&
               forall j :: i <= j < r.path[0] && Placed(g.rule, g.slots, j) ==>
                 Click(g.slots[j].obj.value, x, y).click == NoClick)
    decreases |g.slots| - i
  {
    if i < |g.slots| {
      ClickFromFirstHit(g, i + 1, x, y);
    }
  }

  /** Group::ProcessClick answers with the first visible child, in slot order, that reports
      a click (the later children are not asked), and NoClick when there is none. */
  lemma GroupClickFirstHit(g: Node, x: int, y: int)
    requires g.Group?
    ensures var r := Click(g, x, y);
            (r.click != NoClick <==>
               exists k :: 0 <= k < |g.slots| && Placed(g.rule, g.slots, k) &&
                           Click(g.slots[k].obj.value, x, y).click != NoClick) &&
            (r.click != NoClick ==>
               |r.path| > 0 && r.path[0] < |g.slots| && Placed(g.rule, g.slots, r.path[0]) &&
               var c := Click(g.slots[r.path[0]].obj.value, x, y);
               c.click == r.click && c.path == r.path[1..] &&
               r.node == g.(slots := g.slots[r.path[0] := g.slots[r.path[0]].(obj := Some(c.node))]) &&
               forall j :: 0 <= j < r.path[0] && Placed(g.rule, g.slots, j) ==>
                 Click(g.slots[j].obj.value, x, y).click == NoClick)
  {
    ClickFromFirstHit(g, 0, x, y);
  }

  /** A click's path leads from the clicked node to the leaf that reported it: a clickable
      ClickableText under the point for ClickDone, a CollapsibleText under the point for
      ClickDoneNeedResize; afterwards the path leads to that leaf as its own click left it. */
  lemma {:induction false} ClickPathLeadsToLeaf(n: Node, x: int, y: int)
    ensures var r := Click(n, x, y);
            r.click != NoClick ==>
              At(n, r.path).Some? &&
              var leaf := At(n, r.path).value;
              leaf.boundary.Contains(x, y) &&
              (r.click == ClickDone ==> leaf.ClickableText? && leaf.clickable) &&
              (r.click == ClickDoneNeedResize ==> leaf.CollapsibleText?) &&
              At(r.node, r.path) == Some(Click(leaf, x, y).node)
    decreases n
  {
    var r := Click(n, x, y);
    if n.Group? && r.click != NoClick {
      GroupClickFirstHit(n, x, y);
      var k := r.path[0];
      ClickPathLeadsToLeaf(n.slots[k].obj.value, x, y);
      assert r.path[1..] == Click(n.slots[k].obj.value, x, y).path;
    }
  }

  /** Only a collapsible title changes state on a click, so a ClickDone leaves the whole
      tree as it was. */
  lemma {:induction false} ClickDoneKeepsTree(n: Node, x: int, y: int)
    ensures Click(n, x, y).click == ClickDone ==> Click(n, x, y).node == n
    decreases n
  {
    var r := Click(n, x, y);
    if n.Group? && r.click == ClickDone {
      GroupClickFirstHit(n, x, y);
      var k := r.path[0];
      ClickDoneKeepsTree(n.slots[k].obj.value, x, y);
      assert n.slots[k := n.slots[k].(obj := Some(n.slots[k].obj.value))] == n.slots;
    }
  }

  // ---------------------------------------------------------------- hover

  /** The leaf outcomes: a hoverable leaf that takes part sets its flag to "the boundary
      contains the point", changes nothing else, and reports itself exactly when the flag
      changed; a ClickableText that is not clickable, plain Text, Line and Image ignore it. */
  lemma HoverLeafOutcome(n: Node, x: int, y: int)
    requires !n.Group?
    ensures IsHoverable(n) && (n.ClickableText? ==> n.clickable) ==>
              Hover(n, x, y).node == n.(hovered := n.boundary.Contains(x, y)) &&
              (Hover(n, x, y).invalidated == [[]] <==> n.hovered != n.boundary.Contains(x, y)) &&
              (Hover(n, x, y).invalidated == [] <==> n.hovered == n.boundary.Contains(x, y))
    ensures !IsHoverable(n) || (n.ClickableText? && !n.clickable) ==> Hover(n, x, y) == HoverResult(n, [])
  {
  }

  /** A second hover at the same point changes nothing and reports nothing, anywhere in the
      tree. */
  lemma {:induction false} HoverIdempotent(n: Node, x: int, y: int)
    ensures Hover(Hover(n, x, y).node, x, y) == HoverResult(Hover(n, x, y).node, [])
    decreases n
  {
    if n.Group? {
      var m := Hover(n, x, y).node;
      var h := HoverUpTo(m, |m.slots|, x, y);
      forall j | 0 <= j < |m.slots| ensures h.node.slots[j] == m.slots[j] {
        if Placed(n.rule, n.slots, j) {
          HoverIdempotent(n.slots[j].obj.value, x, y);
        }
      }
      assert h.node.slots == m.slots;
      HoverUpToSilent(m, |m.slots|, x, y);
    }
  }

  /** When no visible child of g changes under a hover, the group's loop reports nothing. */
  lemma {:induction false} HoverUpToSilent(g: Node, k: nat, x: int, y: int)
    requires g.Group? && k <= |g.slots|
    requires forall j :: 0 <= j < |g.slots| && Placed(g.rule, g.slots, j) ==>
               Hover(g.slots[j].obj.value, x, y).node == g.slots[j].obj.value
    ensures HoverUpTo(g, k, x, y).invalidated == []
    decreases k
  {
    if k > 0 {
      HoverUpToSilent(g, k - 1, x, y);
      var i := k - 1;
      var h := HoverUpTo(g, i, x, y);
      assert Visible(g.rule, h.node.slots, i) == Visible(g.rule, g.slots, i);
      if Placed(g.rule, g.slots, i) {
        var c := Hover(g.slots[i].obj.value, x, y);
        if c.invalidated != [] {
          HoverReportsSome(g.slots[i].obj.value, x, y);
        }
      }
    }
  }

  /** A node that changes under a hover reports at least one leaf, and a node that reports
      one has changed. */
  lemma {:induction false} HoverReportsSome(n: Node, x: int, y: int)
    ensures Hover(n, x, y).invalidated != [] <==> Hover(n, x, y).node != n
    decreases n
  {
    if n.Group? && Hover(n, x, y).invalidated != [] {
      var h := HoverUpTo(n, |n.slots|, x, y);
      var p := h.invalidated[0];
      HoverUpToReports(n, |n.slots|, x, y, p);
      var i := p[0];
      var child := n.slots[i].obj.value;
      HoverReportsSome(child, x, y);
      assert h.node.slots[i].obj.value == Hover(child, x, y).node;
    }
  }

  /** The reports of the loop after the slots below k are exactly the paths [i] + q where
      slot i < k is visible and q is a report of its child's hover. */
  lemma {:induction false} HoverUpToReports(g: Node, k: nat, x: int, y: int, p: Path)
    requires g.Group? && k <= |g.slots|
    ensures p in HoverUpTo(g, k, x, y).invalidated <==>
              |p| > 0 && p[0] < k && Placed(g.rule, g.slots, p[0]) &&
              p[1..] in Hover(g.slots[p[0]].obj.value, x, y).invalidated
    decreases k
  {
    if k > 0 {
      HoverUpToReports(g, k - 1, x, y, p);
      var i := k - 1;
      var h := HoverUpTo(g, i, x, y);
      assert Visible(g.rule, h.node.slots, i) == Visible(g.rule, g.slots, i);
      if Placed(g.rule, g.slots, i) {
        var c := Hover(g.slots[i].obj.value, x, y);
        UnderHolds(i, c.invalidated, p);
        assert HoverUpTo(g, k, x, y).invalidated == h.invalidated + Under(i, c.invalidated);
      } else {
        assert HoverUpTo(g, k, x, y) == h;
      }
    }
  }

  /** Reports listed slot by slot: every path starts with a slot index, and the indices
      never decrease along the list. */
  predicate InSlotOrder(inv: seq<Path>) {
    forall a, b :: 0 <= a < b < |inv| ==> |inv[a]| > 0 && |inv[b]| > 0 && inv[a][0] <= inv[b][0]
  }

  /** Every path starts with a slot index below i. */
  predicate HeadsBelow(inv: seq<Path>, i: nat) {
    forall a :: 0 <= a < |inv| ==> |inv[a]| > 0 && inv[a][0] < i
  }

  /** Every path starts with slot index i. */
  predicate HeadsAt(inv: seq<Path>, i: nat) {
    forall a :: 0 <= a < |inv| ==> |inv[a]| > 0 && inv[a][0] == i
  }

  /** No path is listed twice. */
  predicate NoRepeats(inv: seq<Path>) {
    forall a, b :: 0 <= a < b < |inv| ==> inv[a] != inv[b]
  }

  /** Group::ProcessHover appends in visit order: the loop's reports run through the slots
      in index order. */
  lemma {:induction false} HoverUpToInOrder(g: Node, k: nat, x: int, y: int)
    requires g.Group? && k <= |g.slots|
    ensures InSlotOrder(HoverUpTo(g, k, x, y).invalidated)
    decreases k
  {
    if k > 0 {
      HoverUpToInOrder(g, k - 1, x, y);
      var i := k - 1;
      var h := HoverUpTo(g, i, x, y);
      assert Visible(g.rule, h.node.slots, i) == Visible(g.rule, g.slots, i);
      if Placed(g.rule, g.slots, i) {
        var c := Hover(g.slots[i].obj.value, x, y);
        ReportsBelow(g, i, x, y);
        UnderHeads(i, c.invalidated);
        InSlotOrderAppend(h.invalidated, Under(i, c.invalidated), i);
        assert HoverUpTo(g, k, x, y).invalidated == h.invalidated + Under(i, c.invalidated);
      } else {
        assert HoverUpTo(g, k, x, y) == h;
      }
    }
  }

  /** No changed leaf is reported twice. */
  lemma {:induction false} HoverReportsOnce(n: Node, x: int, y: int)
    ensures NoRepeats(Hover(n, x, y).invalidated)
    decreases n, 1
  {
    if n.Group? {
      HoverUpToOnce(n, |n.slots|, x, y);
    }
  }

  /** The same for the loop over the slots below k: reports of different slots differ in
      their first index, and a child reports each of its paths once. */
  lemma {:induction false} HoverUpToOnce(g: Node, k: nat, x: int, y: int)
    requires g.Group? && k <= |g.slots|
    ensures NoRepeats(HoverUpTo(g, k, x, y).invalidated)
    decreases g, 0, k
  {
    if k > 0 {
      HoverUpToOnce(g, k - 1, x, y);
      var i := k - 1;
      var h := HoverUpTo(g, i, x, y);
      assert Visible(g.rule, h.node.slots, i) == Visible(g.rule, g.slots, i);
      if Placed(g.rule, g.slots, i) {
        var c := Hover(g.slots[i].obj.value, x, y);
        HoverReportsOnce(g.slots[i].obj.value, x, y);
        ReportsBelow(g, i, x, y);
        UnderHeads(i, c.invalidated);
        UnderNoRepeats(i, c.invalidated);
        NoRepeatsAppend(h.invalidated, Under(i, c.invalidated), i);
        assert HoverUpTo(g, k, x, y).invalidated == h.invalidated + Under(i, c.invalidated);
      } else {
        assert HoverUpTo(g, k, x, y) == h;
      }
    }
  }

  /** The loop's reports so far all come from slots below k. */
  lemma ReportsBelow(g: Node, k: nat, x: int, y: int)
    requires g.Group? && k <= |g.slots|
    ensures HeadsBelow(HoverUpTo(g, k, x, y).invalidated, k)
  {
    var inv := HoverUpTo(g, k, x, y).invalidated;
    forall a | 0 <= a < |inv|
      ensures |inv[a]| > 0 && inv[a][0] < k
    {
      HoverUpToReports(g, k, x, y, inv[a]);
    }
  }

  lemma UnderHeads(i: nat, paths: seq<Path>)
    ensures HeadsAt(Under(i, paths), i)
  {
  }

  lemma UnderNoRepeats(i: nat, paths: seq<Path>)
    requires NoRepeats(paths)
    ensures NoRepeats(Under(i, paths))
  {
    var u := Under(i, paths);
    forall a, b | 0 <= a < b < |u|
      ensures u[a] != u[b]
    {
      assert u[a][1..] == paths[a] && u[b][1..] == paths[b];
    }
  }

  lemma InSlotOrderAppend(s: seq<Path>, t: seq<Path>, i: nat)
    requires InSlotOrder(s) && HeadsBelow(s, i) && HeadsAt(t, i)
    ensures InSlotOrder(s + t)
  {
    var st := s + t;
    forall a, b | 0 <= a < b < |st|
      ensures |st[a]| > 0 && |st[b]| > 0 && st[a][0] <= st[b][0]
    {
      if b < |s| {
        assert st[a] == s[a] && st[b] == s[b];
      } else if a < |s| {
        assert st[a] == s[a] && st[b] == t[b - |s|];
      } else {
        assert st[a] == t[a - |s|] && st[b] == t[b - |s|];
      }
    }
  }

  lemma NoRepeatsAppend(s: seq<Path>, t: seq<Path>, i: nat)
    requires NoRepeats(s) && NoRepeats(t) && HeadsBelow(s, i) && HeadsAt(t, i)
    ensures NoRepeats(s + t)
  {
    var st := s + t;
    forall a, b | 0 <= a < b < |st|
      ensures st[a] != st[b]
    {
      if b < |s| {
        assert st[a] == s[a] && st[b] == s[b];
      } else if a < |s| {
        assert st[a] == s[a] && st[b] == t[b - |s|];
      } else {
        assert st[a] == t[a - |s|] && st[b] == t[b - |s|];
      }
    }
  }

  /** A path is under child i's reports exactly when it starts with i and the child
      reported the rest. */
  lemma UnderHolds(i: nat, paths: seq<Path>, p: Path)
    ensures p in Under(i, paths) <==> |p| > 0 && p[0] == i && p[1..] in paths
  {
    var u := Under(i, paths);
    if |p| > 0 && p[0] == i && p[1..] in paths {
      var j :| 0 <= j < |paths| && paths[j] == p[1..];
      assert u[j] == [i] + p[1..] == p;
    }
    if p in u {
      var j :| 0 <= j < |u| && u[j] == p;
      assert p[1..] == paths[j];
    }
  }

  /** The reported paths are exactly the leaves whose hover flag the call changed: each
      leads to a hoverable leaf whose flag flipped, and every hoverable leaf whose flag
      changed is reported. */
  lemma {:induction false} HoverReportsChanged(n: Node, x: int, y: int, p: Path)
    ensures var r := Hover(n, x, y);
            p in r.invalidated <==>
              At(n, p).Some? && IsHoverable(At(n, p).value) && At(r.node, p).Some? &&
              At(r.node, p).value == At(n, p).value.(hovered := !At(n, p).value.hovered)
    decreases n
  {
    var r := Hover(n, x, y);
    if n.Group? {
      HoverUpToReports(n, |n.slots|, x, y, p);
      if |p| > 0 && p[0] < |n.slots| && n.slots[p[0]].obj.Some? {
        var child := n.slots[p[0]].obj.value;
        HoverReportsChanged(child, x, y, p[1..]);
        if !Placed(n.rule, n.slots, p[0]) {
          assert r.node.slots[p[0]] == n.slots[p[0]];
        }
      }
    } else if p != [] {
      assert At(n, p).None?;
    }
  }

  // ---------------------------------------------------------------- tree structure

  /** A click changes leaf state only: the tree keeps its kinds, group configuration and
      filled slots. */
  lemma {:induction false} ClickSameKinds(n: Node, x: int, y: int)
    ensures SameKinds(n, Click(n, x, y).node, false)
    decreases n
  {
    var r := Click(n, x, y);
    if n.Group? {
      if r.click == NoClick {
        SameKindsRefl(n, false);
      } else {
        GroupClickFirstHit(n, x, y);
        var k := r.path[0];
        forall j | 0 <= j < |n.slots| ensures SameSlotKinds(n.slots[j], r.node.slots[j], false) {
          if j == k {
            ClickSameKinds(n.slots[k].obj.value, x, y);
          } else {
            SameSlotKindsRefl(n.slots[j], false);
          }
        }
      }
    }
  }

  /** A hover changes hover flags only: kinds, collapsed flags and slots stay. */
  lemma {:induction false} HoverSameKinds(n: Node, x: int, y: int)
    ensures SameKinds(n, Hover(n, x, y).node, true)
    decreases n
  {
    if n.Group? {
      var r := Hover(n, x, y);
      forall j | 0 <= j < |n.slots| ensures SameSlotKinds(n.slots[j], r.node.slots[j], true) {
        if Placed(n.rule, n.slots, j) {
          HoverSameKinds(n.slots[j].obj.value, x, y);
        } else {
          SameSlotKindsRefl(n.slots[j], true);
        }
      }
    }
  }
}
