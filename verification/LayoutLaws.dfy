/** Reopening a pane undoes closing it: exactly, when its sibling was a single pane; and in
    every case with its direction and its share of the split, disturbing nothing else. */
module LayoutLaws {
  import opened Prelude
  import opened Model
  import opened Layouts

  // ---------------------------------------------------------------- trees without the pane

  lemma AbsentIsUntouched(n: LayoutNode, id: Id, leaf: LayoutNode)
    requires id !in n.LeafPaneIds()
    ensures ServerClose(n, id) == n && ReplaceLeaf(n, id, leaf) == n && FindLeaf(n, id).None?
    ensures !IsPane(n, id) && Locate(n, id).None?
  {
    if n.Split? {
      AbsentIsUntouched(n.first, id, leaf);
      AbsentIsUntouched(n.second, id, leaf);
    }
  }

  lemma PresentIsFound(n: LayoutNode, id: Id)
    requires id in n.LeafPaneIds()
    ensures FindLeaf(n, id).Some? && IsPane(FindLeaf(n, id).value, id)
  {
    if n.Split? {
      if id in n.first.LeafPaneIds() {
        PresentIsFound(n.first, id);
      } else {
        AbsentIsUntouched(n.first, id, n);
        PresentIsFound(n.second, id);
      }
    }
  }

  lemma ProperJoin(direction: SplitDir, ratio: real, a: LayoutNode, b: LayoutNode)
    requires Proper(a) && Proper(b) && forall x | x in a.LeafPaneIds() :: x !in b.LeafPaneIds()
    ensures Proper(Split(direction, ratio, a, b))
  {
    var n := Split(direction, ratio, a, b);
    var s, t := a.LeafPaneIds(), b.LeafPaneIds();
    assert n.LeafPaneIds() == s + t;
    forall i, j | 0 <= i < j < |s + t| ensures (s + t)[i] != (s + t)[j] {
      if i < |s| <= j {
        assert s[i] in s && t[j - |s|] in t;
      }
    }
  }

  /** Closing takes the pane and no other out of a proper tree. */
  lemma {:induction false} CloseRemovesOnlyIt(n: LayoutNode, id: Id)
    requires Proper(n) && Locate(n, id).Some?
    ensures Proper(ServerClose(n, id))
    ensures forall x :: x in ServerClose(n, id).LeafPaneIds() <==> x in n.LeafPaneIds() && x != id
  {
    ProperChildren(n);
    if IsPane(n.first, id) || IsPane(n.second, id) {
    } else {
      LocateIsExact(n.first, id);
      LocateIsExact(n.second, id);
      if Locate(n.first, id).Some? {
        CloseRemovesOnlyIt(n.first, id);
        AbsentIsUntouched(n.second, id, n);
        ProperJoin(n.direction, n.ratio, ServerClose(n.first, id), n.second);
      } else {
        CloseRemovesOnlyIt(n.second, id);
        AbsentIsUntouched(n.first, id, n);
        ProperJoin(n.direction, n.ratio, n.first, ServerClose(n.second, id));
      }
    }
  }

  // ---------------------------------------------------------------- acting at a position

  lemma {:induction false} PutAgain(n: LayoutNode, path: seq<Side>, x: LayoutNode)
    requires At(n, path).Some?
    ensures Put(n, path, At(n, path).value) == n
    ensures At(Put(n, path, x), path) == Some(x)
    decreases |path|
  {
    if path != [] { PutAgain(Child(n, path[0]), path[1..], x); }
  }

  lemma SubtreeIds(n: LayoutNode, path: seq<Side>, x: Id)
    requires At(n, path).Some? && x in At(n, path).value.LeafPaneIds()
    ensures x in n.LeafPaneIds()
    decreases |path|
  {
    if path != [] { SubtreeIds(Child(n, path[0]), path[1..], x); }
  }

  /** Replacing a leaf of the subtree at a position happens at that position only. */
  lemma {:induction false} ReplaceAt(n: LayoutNode, path: seq<Side>, id: Id, x: LayoutNode)
    requires Proper(n) && At(n, path).Some? && id in At(n, path).value.LeafPaneIds()
    ensures ReplaceLeaf(n, id, x) == Put(n, path, ReplaceLeaf(At(n, path).value, id, x))
    decreases |path|
  {
    if path != [] {
      ProperChildren(n);
      SubtreeIds(Child(n, path[0]), path[1..], id);
      AbsentIsUntouched(Child(n, Other(path[0])), id, x);
      ReplaceAt(Child(n, path[0]), path[1..], id, x);
    }
  }

  /** Closing a pane puts its sibling in the place of their split. */
  lemma {:induction false} CloseAt(n: LayoutNode, path: seq<Side>, side: Side, id: Id)
    requires Proper(n) && ParentAt(n, path, side, id)
    ensures ServerClose(n, id) == Put(n, path, Child(At(n, path).value, Other(side)))
    decreases |path|
  {
    ProperChildren(n);
    LeavesAlong(n, path, side, id);
    if path == [] {
      AbsentIsUntouched(Child(n, Other(side)), id, n);
    } else {
      AbsentIsUntouched(Child(n, Other(path[0])), id, n);
      CloseAt(Child(n, path[0]), path[1..], side, id);
    }
  }

  // ---------------------------------------------------------------- the calls of a plan

  /** The split the restored pane joins. */
  function Joined(tree: LayoutNode, plan: Plan, added: LayoutNode): LayoutNode
    requires plan.anchor in tree.LeafPaneIds()
  {
    PresentIsFound(tree, plan.anchor);
    var anchor := FindLeaf(tree, plan.anchor).value;
    if plan.swap then Split(plan.direction, plan.ratio, added, anchor)
    else Split(plan.direction, plan.ratio, anchor, added)
  }

  lemma SplitReplaces(n: LayoutNode, id: Id, leaf: LayoutNode, direction: SplitDir, ratio: real, added: LayoutNode)
    requires Proper(n) && (id in n.LeafPaneIds() ==> FindLeaf(n, id) == Some(leaf))
    ensures ServerSplit(n, id, direction, ratio, added) == ReplaceLeaf(n, id, Split(direction, ratio, leaf, added))
  {
    if n.Split? {
      ProperChildren(n);
      if id in n.second.LeafPaneIds() { AbsentIsUntouched(n.first, id, n); }
      if id in n.first.LeafPaneIds() { PresentIsFound(n.first, id); }
      SplitReplaces(n.first, id, leaf, direction, ratio, added);
      SplitReplaces(n.second, id, leaf, direction, ratio, added);
    }
  }

  lemma ExchangeReplaces(n: LayoutNode, leaf: LayoutNode, direction: SplitDir, ratio: real, added: LayoutNode)
    requires leaf.Leaf? && leaf.paneId.Some? && added.Leaf? && added.paneId.Some?
    requires added.paneId.value !in n.LeafPaneIds() && added != leaf
    requires leaf.paneId.value in n.LeafPaneIds() ==> FindLeaf(n, leaf.paneId.value) == Some(leaf)
    requires Proper(n)
    ensures ExchangeLeaves(ReplaceLeaf(n, leaf.paneId.value, Split(direction, ratio, leaf, added)), added, leaf) ==
            ReplaceLeaf(n, leaf.paneId.value, Split(direction, ratio, added, leaf))
  {
    if n.Split? {
      ProperChildren(n);
      if leaf.paneId.value in n.second.LeafPaneIds() { AbsentIsUntouched(n.first, leaf.paneId.value, n); }
      if leaf.paneId.value in n.first.LeafPaneIds() { PresentIsFound(n.first, leaf.paneId.value); }
      ExchangeReplaces(n.first, leaf, direction, ratio, added);
      ExchangeReplaces(n.second, leaf, direction, ratio, added);
    }
  }

  lemma {:induction false} FindInReplaced(n: LayoutNode, leaf: LayoutNode, direction: SplitDir, ratio: real, added: LayoutNode)
    requires leaf.Leaf? && leaf.paneId.Some? && added.Leaf? && added.paneId.Some?
    requires added.paneId.value !in n.LeafPaneIds() && leaf.paneId.value in n.LeafPaneIds()
    requires added.paneId != leaf.paneId
    ensures
      var m := ReplaceLeaf(n, leaf.paneId.value, Split(direction, ratio, leaf, added));
      FindLeaf(m, added.paneId.value) == Some(added) && FindLeaf(m, leaf.paneId.value) == Some(leaf)
  {
    if n.Split? {
      var id := leaf.paneId.value;
      AbsentIsUntouched(n.first, added.paneId.value, n);
      if id in n.first.LeafPaneIds() {
        FindInReplaced(n.first, leaf, direction, ratio, added);
      } else {
        AbsentIsUntouched(n.first, id, Split(direction, ratio, leaf, added));
        FindInReplaced(n.second, leaf, direction, ratio, added);
      }
    }
  }

  /** Whatever tree is live, the calls of a plan replace the anchor by the joined split. */
  lemma RestoreReplacesAnchor(tree: LayoutNode, plan: Plan, added: LayoutNode)
    requires Proper(tree) && plan.anchor in tree.LeafPaneIds()
    requires added.Leaf? && added.paneId.Some? && added.paneId.value !in tree.LeafPaneIds()
    ensures Restored(tree, plan, added) == ReplaceLeaf(tree, plan.anchor, Joined(tree, plan, added))
  {
    PresentIsFound(tree, plan.anchor);
    var leaf := FindLeaf(tree, plan.anchor).value;
    SplitReplaces(tree, plan.anchor, leaf, plan.direction, plan.ratio, added);
    if plan.swap {
      FindInReplaced(tree, leaf, plan.direction, plan.ratio, added);
      ExchangeReplaces(tree, leaf, plan.direction, plan.ratio, added);
    }
  }

  // ---------------------------------------------------------------- share and direction

  /** The fraction of its split a child on this side gets. */
  function Share(ratio: real, side: Side): real {
    if side.FirstSide? then ratio else 1.0 - ratio
  }

  lemma FirstLiveIsLive(ids: seq<Id>, live: seq<Id>)
    ensures FirstLive(ids, live).Some? ==> FirstLive(ids, live).value in ids && FirstLive(ids, live).value in live
    ensures FirstLive(ids, live).Some? <==> exists x | x in ids :: x in live
  {
  }

  /** The anchor is live; it is a leaf of the pane's old sibling whenever one is live. */
  lemma AnchorIsLive(layout: LayoutNode, pane: Id, live: seq<Id>)
    requires live != []
    ensures PlanRestore(layout, pane, live).Some?
    ensures
      var anchor := PlanRestore(layout, pane, live).value.anchor;
      && anchor in live
      && (Locate(layout, pane).Some? && (exists x | x in Locate(layout, pane).value.sibling.LeafPaneIds() :: x in live) ==>
            anchor in Locate(layout, pane).value.sibling.LeafPaneIds())
  {
    var l := Locate(layout, pane).GetOr(Located(Right, 0.5, SecondSide, PaneLeaf(None, None, None)));
    FirstLiveIsLive(l.sibling.LeafPaneIds(), live);
  }

  lemma {:induction false} LocateInReplaced(n: LayoutNode, id: Id, joined: LayoutNode, q: Id)
    requires id in n.LeafPaneIds() && q !in n.LeafPaneIds() && joined.Split?
    requires Proper(n) && Locate(joined, q).Some?
    ensures Locate(ReplaceLeaf(n, id, joined), q) == Locate(joined, q)
  {
    if n.Split? {
      ProperChildren(n);
      if id in n.first.LeafPaneIds() {
        AbsentIsUntouched(n.second, id, joined);
        AbsentIsUntouched(n.second, q, joined);
        LocateInReplaced(n.first, id, joined, q);
      } else {
        AbsentIsUntouched(n.first, id, joined);
        AbsentIsUntouched(n.first, q, joined);
        LocateInReplaced(n.second, id, joined, q);
      }
      LocateIsExact(ReplaceLeaf(n, id, joined), q);
    }
  }

  /** For every sibling shape, on either side, and for every live tree, the restored pane
      sits in a split of the old direction and gets the old share of it. */
  lemma RestoredPaneKeepsItsShare(layout: LayoutNode, pane: Id, tree: LayoutNode, live: seq<Id>, added: LayoutNode)
    requires Locate(layout, pane).Some?
    requires Proper(tree) && live != [] && forall x | x in live :: x in tree.LeafPaneIds()
    requires added.Leaf? && added.paneId.Some? && added.paneId.value !in tree.LeafPaneIds()
    ensures
      var before := Locate(layout, pane).value;
      var plan := PlanRestore(layout, pane, live);
      && plan.Some?
      && var after := Locate(Restored(tree, plan.value, added), added.paneId.value);
         && after.Some?
         && after.value.direction == before.direction
         && Share(after.value.ratio, after.value.side) == Share(before.ratio, before.side)
  {
    AnchorIsLive(layout, pane, live);
    var plan := PlanRestore(layout, pane, live).value;
    RestoreReplacesAnchor(tree, plan, added);
    PresentIsFound(tree, plan.anchor);
    LocateInReplaced(tree, plan.anchor, Joined(tree, plan, added), added.paneId.value);
  }

  /** For every layout and live tree: the restored pane is on its old side exactly when it was
      a second child or is swapped back, which happens exactly when the sibling lists one pane
      and that one is the anchor; and on its old side it has its old ratio. */
  lemma RestoredSideExactlyWhen(layout: LayoutNode, pane: Id, tree: LayoutNode, live: seq<Id>, added: LayoutNode)
    requires Locate(layout, pane).Some?
    requires Proper(tree) && live != [] && forall x | x in live :: x in tree.LeafPaneIds()
    requires added.Leaf? && added.paneId.Some? && added.paneId.value !in tree.LeafPaneIds()
    ensures
      var before := Locate(layout, pane).value;
      var plan := PlanRestore(layout, pane, live);
      && plan.Some?
      && var after := Locate(Restored(tree, plan.value, added), added.paneId.value);
         && after.Some?
         && (after.value.side == before.side <==> before.side.SecondSide? || plan.value.swap)
         && (after.value.side == before.side ==> after.value.ratio == before.ratio)
         && (after.value.side != before.side ==> after.value.ratio == 1.0 - before.ratio)
         && (plan.value.swap <==> before.side.FirstSide? && before.sibling.LeafPaneIds() == [plan.value.anchor])
  {
    AnchorIsLive(layout, pane, live);
    var plan := PlanRestore(layout, pane, live).value;
    RestoreReplacesAnchor(tree, plan, added);
    PresentIsFound(tree, plan.anchor);
    LocateInReplaced(tree, plan.anchor, Joined(tree, plan, added), added.paneId.value);
  }

  /** The first leaf of the list that is live. */
  lemma {:induction false} FirstLiveMeans(ids: seq<Id>, live: seq<Id>) returns (k: nat)
    ensures FirstLive(ids, live).None? <==> forall x | x in ids :: x !in live
    ensures FirstLive(ids, live).Some? ==>
              k < |ids| && ids[k] == FirstLive(ids, live).value && ids[k] in live && forall j | 0 <= j < k :: ids[j] !in live
  {
    k := 0;
    if ids != [] && ids[0] !in live {
      var j := FirstLiveMeans(ids[1..], live);
      k := j + 1;
    }
  }

  /** The plan for a pane: split the first live leaf of its old sibling, or else the tab's first
      pane, in the old direction; first children swap back with a sibling that is that one
      pane, and otherwise take their share from the other end. A pane the layout does not have
      is split off to the right of the tab's first pane, half and half. */
  lemma PlanMeans(layout: LayoutNode, pane: Id, live: seq<Id>)
    ensures PlanRestore(layout, pane, live).None? <==> live == []
    ensures live != [] ==>
              var plan := PlanRestore(layout, pane, live).value;
              match Locate(layout, pane)
              case None => plan == Plan(live[0], Right, 0.5, false)
              case Some(l) =>
                var ids := l.sibling.LeafPaneIds();
                && plan.anchor == FirstLive(ids, live).GetOr(live[0]) && plan.direction == l.direction
                && (plan.swap <==> l.side.FirstSide? && ids == [plan.anchor])
                && plan.ratio == if l.side.FirstSide? && ids != [plan.anchor] then 1.0 - l.ratio else l.ratio
  {
  }

  // ---------------------------------------------------------------- nothing else moves

  lemma {:induction false} ReplacedLeaves(n: LayoutNode, id: Id, x: LayoutNode)
    returns (left: seq<LayoutNode>, right: seq<LayoutNode>)
    requires Proper(n) && id in n.LeafPaneIds()
    ensures FindLeaf(n, id).Some? && n.Leaves() == left + [FindLeaf(n, id).value] + right
    ensures ReplaceLeaf(n, id, x).Leaves() == left + x.Leaves() + right
  {
    if n.Leaf? {
      left, right := [], [];
    } else {
      ProperChildren(n);
      PresentIsFound(n, id);
      if id in n.first.LeafPaneIds() {
        var l, r := ReplacedLeaves(n.first, id, x);
        AbsentIsUntouched(n.second, id, x);
        left, right := l, r + n.second.Leaves();
        Regroup(l, [FindLeaf(n, id).value], r, [], n.second.Leaves());
        Regroup(l, x.Leaves(), r, [], n.second.Leaves());
      } else {
        var l, r := ReplacedLeaves(n.second, id, x);
        AbsentIsUntouched(n.first, id, x);
        left, right := n.first.Leaves() + l, r;
        Regroup(l, [FindLeaf(n, id).value], r, n.first.Leaves(), []);
        Regroup(l, x.Leaves(), r, n.first.Leaves(), []);
      }
    }
  }

  lemma Regroup<T>(l: seq<T>, m: seq<T>, r: seq<T>, before: seq<T>, after: seq<T>)
    ensures before == [] ==> (l + m + r) + after == l + m + (r + after)
    ensures after == [] ==> before + (l + m + r) == (before + l) + m + r
  {
  }

  /** Every surviving leaf stays, in order; the new pane stands right beside the anchor. */
  lemma SurvivorsKeepTheirOrder(tree: LayoutNode, plan: Plan, added: LayoutNode)
    returns (left: seq<LayoutNode>, right: seq<LayoutNode>)
    requires Proper(tree) && plan.anchor in tree.LeafPaneIds()
    requires added.Leaf? && added.paneId.Some? && added.paneId.value !in tree.LeafPaneIds()
    ensures FindLeaf(tree, plan.anchor).Some?
    ensures tree.Leaves() == left + [FindLeaf(tree, plan.anchor).value] + right
    ensures Restored(tree, plan, added).Leaves() ==
            left + (if plan.swap then [added, FindLeaf(tree, plan.anchor).value]
                    else [FindLeaf(tree, plan.anchor).value, added]) + right
  {
    RestoreReplacesAnchor(tree, plan, added);
    left, right := ReplacedLeaves(tree, plan.anchor, Joined(tree, plan, added));
    PresentIsFound(tree, plan.anchor);
    var anchor := FindLeaf(tree, plan.anchor).value;
    assert Joined(tree, plan, added).Leaves() == if plan.swap then [added, anchor] else [anchor, added];
  }

  // ---------------------------------------------------------------- reopen undoes close

  lemma IdentifiedHasLeaves(n: LayoutNode)
    requires Identified(n)
    ensures |n.LeafPaneIds()| >= if n.Leaf? then 1 else 2
  {
  }

  lemma IdentifiedAt(n: LayoutNode, path: seq<Side>)
    requires Identified(n) && At(n, path).Some?
    ensures Identified(At(n, path).value)
    decreases |path|
  {
    if path != [] { IdentifiedAt(Child(n, path[0]), path[1..]); }
  }

  lemma {:induction false} FindAt(n: LayoutNode, path: seq<Side>, id: Id)
    requires Proper(n) && At(n, path).Some? && id in At(n, path).value.LeafPaneIds()
    ensures FindLeaf(n, id) == FindLeaf(At(n, path).value, id)
    decreases |path|
  {
    if path != [] {
      ProperChildren(n);
      SubtreeIds(Child(n, path[0]), path[1..], id);
      AbsentIsUntouched(Child(n, Other(path[0])), id, n);
      PresentIsFound(Child(n, path[0]), id);
      FindAt(Child(n, path[0]), path[1..], id);
    }
  }

  lemma PutTwice(n: LayoutNode, path: seq<Side>, x: LayoutNode, y: LayoutNode)
    requires At(n, path).Some?
    ensures At(Put(n, path, x), path).Some? && Put(Put(n, path, x), path, y) == Put(n, path, y)
    decreases |path|
  {
    if path != [] { PutTwice(Child(n, path[0]), path[1..], x, y); }
  }

  /** Closing and reopening changes the tree only where the pane's split stood: there the
      sibling now has its anchor leaf split in two. */
  lemma ReopenIsConfined(tree: LayoutNode, pane: Id, live: seq<Id>, added: LayoutNode)
    returns (path: seq<Side>)
    requires Proper(tree) && Identified(tree) && Locate(tree, pane).Some?
    requires forall x :: x in live <==> x in ServerClose(tree, pane).LeafPaneIds()
    requires added.Leaf? && added.paneId.Some? && added.paneId.value !in tree.LeafPaneIds()
    ensures
      var l := Locate(tree, pane).value;
      var plan := PlanRestore(tree, pane, live);
      && ParentAt(tree, path, l.side, pane)
      && plan.Some? && plan.value.anchor in l.sibling.LeafPaneIds()
      && ServerClose(tree, pane) == Put(tree, path, l.sibling)
      && Restored(ServerClose(tree, pane), plan.value, added) ==
         Put(tree, path, ReplaceLeaf(l.sibling, plan.value.anchor, Joined(l.sibling, plan.value, added)))
  {
    path := LocateFindsAParent(tree, pane);
    var l := Locate(tree, pane).value;
    var closed := ServerClose(tree, pane);
    CloseAt(tree, path, l.side, pane);
    CloseRemovesOnlyIt(tree, pane);
    PutAgain(tree, path, l.sibling);
    IdentifiedAt(tree, path);
    IdentifiedHasLeaves(l.sibling);
    forall x | x in l.sibling.LeafPaneIds() ensures x in live {
      SubtreeIds(closed, path, x);
    }
    assert l.sibling.LeafPaneIds()[0] in l.sibling.LeafPaneIds();
    AnchorIsLive(tree, pane, live);
    var plan := PlanRestore(tree, pane, live).value;
    RestoreReplacesAnchor(closed, plan, added);
    FindAt(closed, path, plan.anchor);
    ReplaceAt(closed, path, plan.anchor, Joined(closed, plan, added));
    PutTwice(tree, path, l.sibling, ReplaceLeaf(l.sibling, plan.anchor, Joined(closed, plan, added)));
  }

  lemma ReplaceChild(tree: LayoutNode, path: seq<Side>, side: Side, pane: Id, added: LayoutNode)
    requires Proper(tree) && ParentAt(tree, path, side, pane)
    ensures
      var at := At(tree, path).value;
      ReplaceLeaf(tree, pane, added) ==
      Put(tree, path, if side.FirstSide? then at.(first := added) else at.(second := added))
  {
    var at := At(tree, path).value;
    assert pane in Child(at, side).LeafPaneIds();
    ReplaceAt(tree, path, pane, added);
    ProperAt(tree, path);
    ProperChildren(at);
    AbsentIsUntouched(Child(at, Other(side)), pane, added);
  }

  lemma ProperAt(n: LayoutNode, path: seq<Side>)
    requires Proper(n) && At(n, path).Some?
    ensures Proper(At(n, path).value)
    decreases |path|
  {
    if path != [] {
      ProperChildren(n);
      ProperAt(Child(n, path[0]), path[1..]);
    }
  }

  /** Reopening restores the original tree, with only the pane's own leaf replaced, at any
      depth and on either side, exactly when the pane's sibling was a single pane. */
  lemma ReopenUndoesCloseExactlyWhen(tree: LayoutNode, pane: Id, live: seq<Id>, added: LayoutNode)
    requires Proper(tree) && Identified(tree) && Locate(tree, pane).Some?
    requires forall x :: x in live <==> x in ServerClose(tree, pane).LeafPaneIds()
    requires added.Leaf? && added.paneId.Some? && added.paneId.value !in tree.LeafPaneIds()
    ensures
      var plan := PlanRestore(tree, pane, live);
      && plan.Some?
      && (Restored(ServerClose(tree, pane), plan.value, added) == ReplaceLeaf(tree, pane, added)
          <==> Locate(tree, pane).value.sibling.Leaf?)
  {
    var path := ReopenIsConfined(tree, pane, live, added);
    var l := Locate(tree, pane).value;
    var parent := LocateFindsAParent(tree, pane);
    ParentIsUnique(tree, path, l.side, parent, l.side, pane);
    var at := At(tree, path).value;
    var plan := PlanRestore(tree, pane, live).value;
    ReplaceChild(tree, path, l.side, pane, added);
    IdentifiedAt(tree, path);
    IdentifiedHasLeaves(l.sibling);
    var got := ReplaceLeaf(l.sibling, plan.anchor, Joined(l.sibling, plan, added));
    var want := if l.side.FirstSide? then at.(first := added) else at.(second := added);
    PutAgain(tree, path, got);
    PutAgain(tree, path, want);
    if l.sibling.Split? && got == want {
      assert added.paneId.value in Child(l.sibling, l.side).LeafPaneIds() by {
        assert Child(got, l.side) == added;
      }
      SubtreeIds(at, [Other(l.side)], added.paneId.value);
      SubtreeIds(tree, path, added.paneId.value);
    }
  }

  /** Reopened in the tab its close left, a pane is back on its side with its ratio exactly
      when it was a second child or its sibling was a single pane. */
  lemma ReopenedSideExactlyWhen(tree: LayoutNode, pane: Id, live: seq<Id>, added: LayoutNode)
    requires Proper(tree) && Identified(tree) && Locate(tree, pane).Some?
    requires forall x :: x in live <==> x in ServerClose(tree, pane).LeafPaneIds()
    requires added.Leaf? && added.paneId.Some? && added.paneId.value !in tree.LeafPaneIds()
    ensures
      var before := Locate(tree, pane).value;
      var plan := PlanRestore(tree, pane, live);
      && plan.Some?
      && var after := Locate(Restored(ServerClose(tree, pane), plan.value, added), added.paneId.value);
         && after.Some?
         && (after.value.side == before.side <==> before.side.SecondSide? || before.sibling.Leaf?)
         && (after.value.side == before.side ==> after.value.ratio == before.ratio)
  {
    var path := ReopenIsConfined(tree, pane, live, added);
    var l := Locate(tree, pane).value;
    var parent := LocateFindsAParent(tree, pane);
    IdentifiedAt(tree, parent);
    IdentifiedHasLeaves(l.sibling);
    CloseRemovesOnlyIt(tree, pane);
    var anchor := PlanRestore(tree, pane, live).value.anchor;
    RestoredSideExactlyWhen(tree, pane, ServerClose(tree, pane), live, added);
    if l.sibling.Leaf? {
      assert l.sibling.LeafPaneIds() == [anchor];
    }
  }
}
