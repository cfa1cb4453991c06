/** Undo over whole histories of one tab: any number of panes closed one after the other and
    reopened last-closed-first. Reopened panes get new ids, so the layouts recorded with the
    older closes no longer name them; the laws say exactly when that matters. */
module UndoOrder {
  import opened Prelude
  import opened Model
  import opened Layouts
  import opened LayoutLaws

  /** One close and what its reopening meets: the leaf the server creates for it and the
      server's list of the tab's panes at that time. */
  datatype Closing = Closing(pane: Id, added: LayoutNode, live: seq<Id>)

  predicate NewLeaf(n: LayoutNode) {
    n.Leaf? && n.paneId.Some?
  }

  function Panes(cs: seq<Closing>): set<Id> {
    set i | 0 <= i < |cs| :: cs[i].pane
  }

  function AddedIds(cs: seq<Closing>): set<Id> {
    set i | 0 <= i < |cs| && cs[i].added.Leaf? && cs[i].added.paneId.Some? :: cs[i].added.paneId.value
  }

  /** The tab after all closes, in order, and all reopens, in reverse order. Each reopen
      uses the layout recorded at its own close. */
  function AfterReopens(tree: LayoutNode, cs: seq<Closing>): LayoutNode
    decreases |cs|
  {
    if cs == [] then tree
    else
      var inner := AfterReopens(ServerClose(tree, cs[0].pane), cs[1..]);
      var plan := PlanRestore(tree, cs[0].pane, cs[0].live);
      if plan.Some? && NewLeaf(cs[0].added) then Restored(inner, plan.value, cs[0].added) else inner
  }

  /** The original tab with the closed panes replaced by the reopened ones. */
  function Renamed(tree: LayoutNode, cs: seq<Closing>): LayoutNode
    decreases |cs|
  {
    if cs == [] then tree else ReplaceLeaf(Renamed(tree, cs[1..]), cs[0].pane, cs[0].added)
  }

  predicate SameIds(live: seq<Id>, tree: LayoutNode) {
    && (forall x | x in live :: x in tree.LeafPaneIds())
    && (forall x | x in tree.LeafPaneIds() :: x in live)
  }

  /** What the server guarantees: a closed pane was in the tab, new ids are new, and the
      pane list of the tab names exactly its leaves. */
  predicate Faithful(tree: LayoutNode, cs: seq<Closing>)
    decreases |cs|
  {
    cs == [] ||
    (var c, rest := cs[0], cs[1..];
     && Locate(tree, c.pane).Some?
     && NewLeaf(c.added) && c.added.paneId.value !in AddedIds(rest)
     && (forall x | x in tree.LeafPaneIds() :: x !in AddedIds(cs))
     && SameIds(c.live, AfterReopens(ServerClose(tree, c.pane), rest))
     && Faithful(ServerClose(tree, c.pane), rest))
  }

  // ---------------------------------------------------------------- one reopen, any plan

  lemma LocateReplaced(n: LayoutNode, p: Id, a: LayoutNode)
    requires Proper(n) && Locate(n, p).Some? && NewLeaf(a) && a.paneId.value !in n.LeafPaneIds()
    ensures Locate(ReplaceLeaf(n, p, a), a.paneId.value) == Locate(n, p)
  {
    ProperChildren(n);
    LocateIsExact(n.first, p);
    LocateIsExact(n.second, p);
    if IsPane(n.first, p) {
      AbsentIsUntouched(n.second, p, a);
    } else if IsPane(n.second, p) {
      AbsentIsUntouched(n.first, p, a);
      AbsentIsUntouched(n.first, a.paneId.value, a);
    } else if Locate(n.first, p).Some? {
      AbsentIsUntouched(n.second, p, a);
      AbsentIsUntouched(n.second, a.paneId.value, a);
      LocateReplaced(n.first, p, a);
    } else {
      AbsentIsUntouched(n.first, p, a);
      AbsentIsUntouched(n.first, a.paneId.value, a);
      LocateReplaced(n.second, p, a);
    }
  }

  /** The plan that puts a closed pane back exactly: beside its sibling, a single pane, with
      the old direction, ratio and side. */
  predicate ExactPlan(l: Located, plan: Plan) {
    && IsPane(l.sibling, plan.anchor)
    && plan.direction == l.direction && plan.ratio == l.ratio && (plan.swap <==> l.side.FirstSide?)
  }

  /** Whatever plan is followed, closing and reopening restores the tree exactly when it is
      the exact plan. */
  lemma {:induction false} ExactPlanIsNeeded(tree: LayoutNode, p: Id, plan: Plan, a: LayoutNode)
    requires Proper(tree) && Locate(tree, p).Some?
    requires NewLeaf(a) && a.paneId.value !in tree.LeafPaneIds()
    requires plan.anchor in ServerClose(tree, p).LeafPaneIds()
    ensures Restored(ServerClose(tree, p), plan, a) == ReplaceLeaf(tree, p, a)
            <==> ExactPlan(Locate(tree, p).value, plan)
  {
    var closed := ServerClose(tree, p);
    var l := Locate(tree, p).value;
    CloseRemovesOnlyIt(tree, p);
    RestoreReplacesAnchor(closed, plan, a);
    PresentIsFound(closed, plan.anchor);
    LocateReplaced(tree, p, a);
    LocateInReplaced(closed, plan.anchor, Joined(closed, plan, a), a.paneId.value);
    if ExactPlan(l, plan) {
      ExactPlanRestores(tree, p, plan, a);
    }
  }

  lemma {:induction false} ExactPlanRestores(tree: LayoutNode, p: Id, plan: Plan, a: LayoutNode)
    requires Proper(tree) && Locate(tree, p).Some? && ExactPlan(Locate(tree, p).value, plan)
    requires NewLeaf(a) && a.paneId.value !in tree.LeafPaneIds()
    requires plan.anchor in ServerClose(tree, p).LeafPaneIds()
    ensures ReplaceLeaf(ServerClose(tree, p), plan.anchor, Joined(ServerClose(tree, p), plan, a)) ==
            ReplaceLeaf(tree, p, a)
  {
    var closed := ServerClose(tree, p);
    var l := Locate(tree, p).value;
    var path := LocateFindsAParent(tree, p);
    CloseRemovesOnlyIt(tree, p);
    CloseAt(tree, path, l.side, p);
    PutAgain(tree, path, l.sibling);
    FindAt(closed, path, plan.anchor);
    ReplaceAt(closed, path, plan.anchor, Joined(closed, plan, a));
    PutTwice(tree, path, l.sibling, Joined(closed, plan, a));
    ReplaceChild(tree, path, l.side, p, a);
  }

  /** Closing the pane that was just reopened gives back the tree it was reopened in. */
  lemma {:induction false} CloseUndoesReopen(tree: LayoutNode, plan: Plan, a: LayoutNode)
    requires Proper(tree) && plan.anchor in tree.LeafPaneIds()
    requires NewLeaf(a) && a.paneId.value !in tree.LeafPaneIds()
    ensures ServerClose(Restored(tree, plan, a), a.paneId.value) == tree
  {
    RestoreReplacesAnchor(tree, plan, a);
    PresentIsFound(tree, plan.anchor);
    CloseInJoined(tree, plan.anchor, a, Joined(tree, plan, a));
  }

  lemma CloseInJoined(n: LayoutNode, id: Id, a: LayoutNode, joined: LayoutNode)
    requires Proper(n) && id in n.LeafPaneIds()
    requires NewLeaf(a) && a.paneId.value !in n.LeafPaneIds()
    requires FindLeaf(n, id).Some? && joined.Split?
    requires || (joined.first == a && joined.second == FindLeaf(n, id).value)
             || (joined.second == a && joined.first == FindLeaf(n, id).value)
    ensures ServerClose(ReplaceLeaf(n, id, joined), a.paneId.value) == n
  {
    var q := a.paneId.value;
    if n.Leaf? {
    } else {
      ProperChildren(n);
      AbsentIsUntouched(n.first, q, a);
      AbsentIsUntouched(n.second, q, a);
      if id in n.first.LeafPaneIds() {
        PresentIsFound(n.first, id);
        AbsentIsUntouched(n.second, id, joined);
        CloseInJoined(n.first, id, a, joined);
      } else {
        AbsentIsUntouched(n.first, id, joined);
        PresentIsFound(n.second, id);
        CloseInJoined(n.second, id, a, joined);
      }
    }
  }

  // ---------------------------------------------------------------- which panes are in the tab

  lemma {:induction false} ReplacedIds(n: LayoutNode, q: Id, x: LayoutNode, y: Id)
    ensures y in ReplaceLeaf(n, q, x).LeafPaneIds() <==>
            (y in n.LeafPaneIds() && y != q) || (q in n.LeafPaneIds() && y in x.LeafPaneIds())
  {
    if n.Split? {
      ReplacedIds(n.first, q, x, y);
      ReplacedIds(n.second, q, x, y);
    }
  }

  lemma {:induction false} ReplacedIsProper(n: LayoutNode, q: Id, x: LayoutNode)
    requires Proper(n) && Proper(x)
    requires forall y | y in x.LeafPaneIds() :: y == q || y !in n.LeafPaneIds()
    ensures Proper(ReplaceLeaf(n, q, x))
  {
    if n.Split? {
      ProperChildren(n);
      ReplacedIsProper(n.first, q, x);
      ReplacedIsProper(n.second, q, x);
      var m := ReplaceLeaf(n, q, x);
      forall y | y in m.first.LeafPaneIds() ensures y !in m.second.LeafPaneIds() {
        ReplacedIds(n.first, q, x, y);
        ReplacedIds(n.second, q, x, y);
      }
      ProperJoin(n.direction, n.ratio, m.first, m.second);
    }
  }

  lemma ReplacedIsIdentified(n: LayoutNode, q: Id, x: LayoutNode)
    requires Identified(n) && Identified(x)
    ensures Identified(ReplaceLeaf(n, q, x))
  {
  }

  lemma CloseKeepsIdentified(n: LayoutNode, p: Id)
    requires Identified(n)
    ensures Identified(ServerClose(n, p))
  {
  }

  /** Reopening adds the new pane and touches no other. */
  lemma ReopenAddsOne(tree: LayoutNode, plan: Plan, a: LayoutNode)
    requires Proper(tree) && Identified(tree) && plan.anchor in tree.LeafPaneIds()
    requires NewLeaf(a) && a.paneId.value !in tree.LeafPaneIds()
    ensures
      var after := Restored(tree, plan, a);
      && Proper(after) && Identified(after)
      && forall y :: y in after.LeafPaneIds() <==> y in tree.LeafPaneIds() || y == a.paneId.value
  {
    RestoreReplacesAnchor(tree, plan, a);
    PresentIsFound(tree, plan.anchor);
    var joined := Joined(tree, plan, a);
    var leaf := FindLeaf(tree, plan.anchor).value;
    ProperJoin(plan.direction, plan.ratio, if plan.swap then a else leaf, if plan.swap then leaf else a);
    ReplacedIsProper(tree, plan.anchor, joined);
    ReplacedIsIdentified(tree, plan.anchor, joined);
    forall y ensures y in Restored(tree, plan, a).LeafPaneIds() <==> y in tree.LeafPaneIds() || y == a.paneId.value {
      ReplacedIds(tree, plan.anchor, joined, y);
    }
  }

  lemma PanesTail(cs: seq<Closing>)
    requires cs != []
    ensures Panes(cs) == {cs[0].pane} + Panes(cs[1..])
    ensures NewLeaf(cs[0].added) ==> AddedIds(cs) == {cs[0].added.paneId.value} + AddedIds(cs[1..])
  {
    forall i | 0 < i < |cs| ensures cs[i] == cs[1..][i - 1] {}
  }

  /** After all reopens the tab holds its untouched panes and the new ones, no other. */
  lemma {:induction false} ReopenedPanes(tree: LayoutNode, cs: seq<Closing>)
    requires Proper(tree) && Identified(tree) && Faithful(tree, cs)
    ensures
      var after := AfterReopens(tree, cs);
      && Proper(after) && Identified(after)
      && (forall x | x in Panes(cs) :: x in tree.LeafPaneIds())
      && forall y :: y in after.LeafPaneIds() <==> (y in tree.LeafPaneIds() && y !in Panes(cs)) || y in AddedIds(cs)
    decreases |cs|
  {
    if cs != [] {
      var c, rest := cs[0], cs[1..];
      var closed := ServerClose(tree, c.pane);
      CloseRemovesOnlyIt(tree, c.pane);
      CloseKeepsIdentified(tree, c.pane);
      LocateIsExact(tree, c.pane);
      ReopenedPanes(closed, rest);
      PanesTail(cs);
      var inner := AfterReopens(closed, rest);
      IdentifiedHasLeaves(inner);
      assert inner.LeafPaneIds()[0] in c.live;
      assert c.added.paneId.value in AddedIds(cs);
      AnchorIsLive(tree, c.pane, c.live);
      ReopenAddsOne(inner, PlanRestore(tree, c.pane, c.live).value, c.added);
    }
  }

  // ---------------------------------------------------------------- closing commutes with renaming

  lemma {:induction false} CloseThenRename(n: LayoutNode, q: Id, x: LayoutNode, p: Id)
    requires NewLeaf(x) && x.paneId != Some(p) && p != q
    ensures ServerClose(ReplaceLeaf(n, q, x), p) == ReplaceLeaf(ServerClose(n, p), q, x)
  {
    if n.Split? {
      CloseThenRename(n.first, q, x, p);
      CloseThenRename(n.second, q, x, p);
    }
  }

  lemma {:induction false} LocateThenRename(n: LayoutNode, q: Id, x: LayoutNode, p: Id)
    requires NewLeaf(x) && x.paneId != Some(p) && p != q
    ensures Locate(ReplaceLeaf(n, q, x), p) ==
            match Locate(n, p)
            case None => None
            case Some(l) => Some(l.(sibling := ReplaceLeaf(l.sibling, q, x)))
  {
    if n.Split? {
      LocateThenRename(n.first, q, x, p);
      LocateThenRename(n.second, q, x, p);
    }
  }

  /** A pane that no close of the list names is closed and located as before renaming. */
  lemma {:induction false} RenamedCommutes(tree: LayoutNode, cs: seq<Closing>, p: Id)
    requires p !in Panes(cs) && p !in AddedIds(cs) && forall c | c in cs :: NewLeaf(c.added)
    ensures ServerClose(Renamed(tree, cs), p) == Renamed(ServerClose(tree, p), cs)
    ensures Locate(Renamed(tree, cs), p) ==
            match Locate(tree, p)
            case None => None
            case Some(l) => Some(l.(sibling := Renamed(l.sibling, cs)))
    decreases |cs|
  {
    if cs != [] {
      PanesTail(cs);
      RenamedCommutes(tree, cs[1..], p);
      CloseThenRename(Renamed(tree, cs[1..]), cs[0].pane, cs[0].added, p);
      LocateThenRename(Renamed(tree, cs[1..]), cs[0].pane, cs[0].added, p);
    }
  }

  /** The leaves the reopens create all have ids, and different ones. */
  predicate NewAndDifferent(cs: seq<Closing>) {
    && (forall i | 0 <= i < |cs| :: NewLeaf(cs[i].added))
    && (forall i, j | 0 <= i < j < |cs| :: cs[i].added.paneId != cs[j].added.paneId)
  }

  lemma {:induction false} FaithfulIsNew(tree: LayoutNode, cs: seq<Closing>)
    requires Faithful(tree, cs)
    ensures NewAndDifferent(cs)
    decreases |cs|
  {
    if cs != [] {
      var rest := cs[1..];
      FaithfulIsNew(ServerClose(tree, cs[0].pane), rest);
      forall i | 0 <= i < |cs| ensures NewLeaf(cs[i].added) {
        assert i > 0 ==> cs[i] == rest[i - 1];
      }
      forall i, j | 0 <= i < j < |cs| ensures cs[i].added.paneId != cs[j].added.paneId {
        assert cs[j] == rest[j - 1] && rest[j - 1].added.paneId.value in AddedIds(rest);
        assert i > 0 ==> cs[i] == rest[i - 1];
      }
    }
  }

  /** Renaming keeps a tree proper and adds at most the new ids. */
  lemma {:induction false} RenamedPanes(tree: LayoutNode, cs: seq<Closing>)
    requires Proper(tree) && NewAndDifferent(cs)
    requires forall x | x in tree.LeafPaneIds() :: x !in AddedIds(cs)
    ensures Proper(Renamed(tree, cs))
    ensures forall y | y in Renamed(tree, cs).LeafPaneIds() :: y in tree.LeafPaneIds() || y in AddedIds(cs)
    decreases |cs|
  {
    if cs != [] {
      var c, rest := cs[0], cs[1..];
      PanesTail(cs);
      RenamedPanes(tree, rest);
      var inner := Renamed(tree, rest);
      assert forall k | 0 <= k < |rest| :: rest[k] == cs[k + 1];
      assert c.added.paneId.value !in AddedIds(rest);
      ReplacedIsProper(inner, c.pane, c.added);
      forall y | y in Renamed(tree, cs).LeafPaneIds() ensures y in tree.LeafPaneIds() || y in AddedIds(cs) {
        ReplacedIds(inner, c.pane, c.added, y);
      }
    }
  }

  // ---------------------------------------------------------------- the law

  /** Reopening this pane puts it back: its sibling was a single pane, which still has the id
      it had, or was itself closed and reopened and the pane's side and the server's pane
      list happen to agree with it. */
  predicate Fits(tree: LayoutNode, c: Closing, later: seq<Closing>) {
    var l := Locate(tree, c.pane);
    && l.Some? && NewLeaf(l.value.sibling)
    && (|| l.value.sibling.paneId.value !in Panes(later)
        || (l.value.side.SecondSide? && c.live != [] && IsPane(Renamed(l.value.sibling, later), c.live[0])))
  }

  predicate AllFit(tree: LayoutNode, cs: seq<Closing>)
    decreases |cs|
  {
    cs == [] || (Fits(tree, cs[0], cs[1..]) && AllFit(ServerClose(tree, cs[0].pane), cs[1..]))
  }

  lemma {:induction false} RenamedLeaf(leaf: LayoutNode, cs: seq<Closing>)
    requires NewLeaf(leaf) && forall c | c in cs :: NewLeaf(c.added)
    ensures NewLeaf(Renamed(leaf, cs))
    ensures leaf.paneId.value !in Panes(cs) ==> Renamed(leaf, cs) == leaf
    decreases |cs|
  {
    if cs != [] {
      PanesTail(cs);
      RenamedLeaf(leaf, cs[1..]);
    }
  }

  lemma {:induction false} RenamedSplit(n: LayoutNode, cs: seq<Closing>)
    requires n.Split?
    ensures Renamed(n, cs).Split?
    decreases |cs|
  {
    if cs != [] { RenamedSplit(n, cs[1..]); }
  }

  /** The plan made from the old layout is the exact plan for the renamed tab just when the
      pane fits. */
  lemma {:induction false} FitsIsExactPlan(tree: LayoutNode, c: Closing, later: seq<Closing>)
    requires Proper(tree) && Identified(tree) && Locate(tree, c.pane).Some? && c.live != []
    requires forall d | d in later :: NewLeaf(d.added)
    requires
      var l := Locate(tree, c.pane).value;
      NewLeaf(l.sibling) ==> (l.sibling.paneId.value in c.live <==> l.sibling.paneId.value !in Panes(later))
    ensures PlanRestore(tree, c.pane, c.live).Some?
    ensures
      var l := Locate(tree, c.pane).value;
      ExactPlan(l.(sibling := Renamed(l.sibling, later)), PlanRestore(tree, c.pane, c.live).value)
      <==> Fits(tree, c, later)
  {
    var l := Locate(tree, c.pane).value;
    var path := LocateFindsAParent(tree, c.pane);
    IdentifiedAt(tree, path);
    if l.sibling.Split? {
      RenamedSplit(l.sibling, later);
    } else {
      RenamedLeaf(l.sibling, later);
      var s := l.sibling.paneId.value;
      assert l.sibling.LeafPaneIds() == [s];
      assert FirstLive([s], c.live) == (if s in c.live then Some(s) else None) by {
        assert [s][1..] == [];
      }
    }
  }

  /** Closing and reopening one pane of a tab whose later closes have all been undone. */
  lemma {:induction false} LastReopenIsExactWhen(tree: LayoutNode, cs: seq<Closing>)
    requires cs != [] && Proper(tree) && Identified(tree) && Faithful(tree, cs)
    requires AfterReopens(ServerClose(tree, cs[0].pane), cs[1..]) == Renamed(ServerClose(tree, cs[0].pane), cs[1..])
    ensures AfterReopens(tree, cs) == Renamed(tree, cs) <==> Fits(tree, cs[0], cs[1..])
  {
    var c, later := cs[0], cs[1..];
    var p, closed := c.pane, ServerClose(tree, cs[0].pane);
    var inner := AfterReopens(closed, later);
    var renamed := Renamed(tree, later);
    HeadIsFresh(tree, cs);
    RenamedCommutes(tree, later, p);
    assert ServerClose(renamed, p) == inner;
    CloseRemovesOnlyIt(tree, p);
    CloseKeepsIdentified(tree, p);
    ReopenedPanes(closed, later);
    IdentifiedHasLeaves(inner);
    assert inner.LeafPaneIds()[0] in c.live;
    if NewLeaf(Locate(tree, p).value.sibling) { SiblingIsLive(tree, cs); }
    FitsIsExactPlan(tree, c, later);
    AnchorIsLive(tree, p, c.live);
    ExactPlanIsNeeded(renamed, p, PlanRestore(tree, p, c.live).value, c.added);
  }

  lemma {:induction false} HeadIsFresh(tree: LayoutNode, cs: seq<Closing>)
    requires cs != [] && Proper(tree) && Identified(tree) && Faithful(tree, cs)
    ensures
      var c, later := cs[0], cs[1..];
      && (forall d | d in later :: NewLeaf(d.added))
      && c.pane !in Panes(later) && c.pane !in AddedIds(later)
      && Proper(Renamed(tree, later)) && c.added.paneId.value !in Renamed(tree, later).LeafPaneIds()
  {
    var c, later := cs[0], cs[1..];
    PanesTail(cs);
    FaithfulIsNew(tree, cs);
    LocateIsExact(tree, c.pane);
    CloseRemovesOnlyIt(tree, c.pane);
    CloseKeepsIdentified(tree, c.pane);
    ReopenedPanes(ServerClose(tree, c.pane), later);
    assert forall k | 0 <= k < |later| :: later[k] == cs[k + 1];
    RenamedPanes(tree, later);
  }

  /** A single sibling is in the tab at the reopen exactly when it was not closed later. */
  lemma {:induction false} SiblingIsLive(tree: LayoutNode, cs: seq<Closing>)
    requires cs != [] && Proper(tree) && Identified(tree) && Faithful(tree, cs)
    requires NewLeaf(Locate(tree, cs[0].pane).value.sibling)
    ensures
      var s := Locate(tree, cs[0].pane).value.sibling.paneId.value;
      s in cs[0].live <==> s !in Panes(cs[1..])
  {
    var c, later := cs[0], cs[1..];
    var l := Locate(tree, c.pane).value;
    var s := l.sibling.paneId.value;
    var path := LocateFindsAParent(tree, c.pane);
    var at := At(tree, path).value;
    assert s in Child(at, Other(l.side)).LeafPaneIds();
    SubtreeIds(tree, path, s);
    ProperAt(tree, path);
    ProperChildren(at);
    assert c.pane in Child(at, l.side).LeafPaneIds();
    PanesTail(cs);
    CloseRemovesOnlyIt(tree, c.pane);
    CloseKeepsIdentified(tree, c.pane);
    ReopenedPanes(ServerClose(tree, c.pane), later);
  }

  lemma {:induction false} WrongStaysWrong(tree: LayoutNode, cs: seq<Closing>)
    requires cs != [] && Proper(tree) && Identified(tree) && Faithful(tree, cs)
    requires AfterReopens(tree, cs) == Renamed(tree, cs)
    ensures AfterReopens(ServerClose(tree, cs[0].pane), cs[1..]) == Renamed(ServerClose(tree, cs[0].pane), cs[1..])
  {
    var c, later := cs[0], cs[1..];
    var p, closed := c.pane, ServerClose(tree, cs[0].pane);
    var inner := AfterReopens(closed, later);
    var renamed := Renamed(tree, later);
    HeadIsFresh(tree, cs);
    RenamedCommutes(tree, later, p);
    CloseRemovesOnlyIt(tree, p);
    CloseKeepsIdentified(tree, p);
    ReopenedPanes(closed, later);
    IdentifiedHasLeaves(inner);
    assert inner.LeafPaneIds()[0] in c.live;
    AnchorIsLive(tree, p, c.live);
    assert c.added.paneId.value in AddedIds(cs);
    CloseUndoesReopen(inner, PlanRestore(tree, p, c.live).value, c.added);
    CloseReplaced(renamed, p, c.added);
  }

  lemma {:induction false} CloseReplaced(n: LayoutNode, p: Id, a: LayoutNode)
    requires Proper(n) && NewLeaf(a) && a.paneId.value !in n.LeafPaneIds() && !IsPane(n, p)
    ensures ServerClose(ReplaceLeaf(n, p, a), a.paneId.value) == ServerClose(n, p)
  {
    if n.Split? {
      ProperChildren(n);
      if IsPane(n.first, p) {
        AbsentIsUntouched(n.second, p, a);
      } else if IsPane(n.second, p) {
        AbsentIsUntouched(n.first, p, a);
        AbsentIsUntouched(n.first, a.paneId.value, a);
      } else {
        CloseReplaced(n.first, p, a);
        CloseReplaced(n.second, p, a);
      }
    }
  }

  /** Closing any number of panes of a tab and reopening them last-closed-first gives back
      the original tab, with only the ids of those panes new, exactly when every one of them
      fits. */
  lemma {:induction false} UndoInReverseExactlyWhen(tree: LayoutNode, cs: seq<Closing>)
    requires Proper(tree) && Identified(tree) && Faithful(tree, cs)
    ensures AfterReopens(tree, cs) == Renamed(tree, cs) <==> AllFit(tree, cs)
    decreases |cs|
  {
    if cs != [] {
      var closed := ServerClose(tree, cs[0].pane);
      CloseRemovesOnlyIt(tree, cs[0].pane);
      CloseKeepsIdentified(tree, cs[0].pane);
      UndoInReverseExactlyWhen(closed, cs[1..]);
      if AfterReopens(tree, cs) == Renamed(tree, cs) { WrongStaysWrong(tree, cs); }
      if AfterReopens(closed, cs[1..]) == Renamed(closed, cs[1..]) { LastReopenIsExactWhen(tree, cs); }
    }
  }

  // ---------------------------------------------------------------- a tab that is not restored

  function Pane(id: Id): LayoutNode {
    PaneLeaf(Some(id), None, None)
  }

  const Nested := Split(Right, 0.5, Split(Down, 0.3, Pane("a"), Pane("b")), Pane("c"))

  /** Close `a`, then its sibling `b`; reopen `b` as `y` and `a` as `x`. */
  const SiblingsClosed := [Closing("a", Pane("x"), ["y", "c"]), Closing("b", Pane("y"), ["c"])]

  const Closed1 := Split(Right, 0.5, Pane("b"), Pane("c"))
  const Reopened1 := Split(Right, 0.5, Pane("y"), Pane("c"))

  lemma SecondClose()
    ensures ServerClose(Closed1, "b") == Pane("c") && Closed1.LeafPaneIds() == ["b", "c"]
    ensures Faithful(Closed1, SiblingsClosed[1..]) && AfterReopens(Closed1, SiblingsClosed[1..]) == Reopened1
  {
    var rest := SiblingsClosed[1..];
    assert rest == [SiblingsClosed[1]] && rest[1..] == [];
    assert AfterReopens(Pane("c"), []) == Pane("c") && Pane("c").LeafPaneIds() == ["c"];
    assert Locate(Closed1, "b") == Some(Located(Right, 0.5, FirstSide, Pane("c")));
    assert FirstLive(["c"], ["c"]) == Some("c");
    assert PlanRestore(Closed1, "b", ["c"]) == Some(Plan("c", Right, 0.5, true));
  }

  lemma FirstClose()
    ensures Proper(Nested) && Identified(Nested) && Nested.LeafPaneIds() == ["a", "b", "c"]
    ensures ServerClose(Nested, "a") == Closed1 && Reopened1.LeafPaneIds() == ["y", "c"]
    ensures Locate(Nested, "a").Some? && PlanRestore(Nested, "a", ["y", "c"]) == Some(Plan("y", Down, 0.7, false))
  {
    assert Locate(Nested, "a") == Some(Located(Down, 0.3, FirstSide, Pane("b")));
    assert ["b"][1..] == [] && FirstLive(["b"], ["y", "c"]) == None;
  }

  lemma RestoredWrong()
    ensures Restored(Reopened1, Plan("y", Down, 0.7, false), Pane("x")) ==
            Split(Right, 0.5, Split(Down, 0.7, Pane("y"), Pane("x")), Pane("c"))
  {
  }

  lemma BothRenamed()
    ensures Renamed(Nested, SiblingsClosed) ==
            Split(Right, 0.5, Split(Down, 0.3, Pane("x"), Pane("y")), Pane("c"))
  {
    assert SiblingsClosed[1..][1..] == [];
    assert Renamed(Nested, SiblingsClosed[1..]) == ReplaceLeaf(Nested, "b", Pane("y"));
  }

  /** Two siblings closed one after the other and undone in reverse: everything the server
      guarantees holds, and yet the older pane comes back on the wrong side of its split with
      the wrong ratio. */
  lemma SiblingsClosedAreMisplaced()
    ensures Proper(Nested) && Identified(Nested) && Faithful(Nested, SiblingsClosed)
    ensures AfterReopens(Nested, SiblingsClosed) ==
            Split(Right, 0.5, Split(Down, 0.7, Pane("y"), Pane("x")), Pane("c"))
    ensures Renamed(Nested, SiblingsClosed) ==
            Split(Right, 0.5, Split(Down, 0.3, Pane("x"), Pane("y")), Pane("c"))
  {
    SecondClose();
    FirstClose();
    RestoredWrong();
    BothRenamed();
    NewIdsAreNew();
  }

  lemma NewIdsAreNew()
    ensures "x" !in AddedIds(SiblingsClosed[1..])
    ensures forall t | t in ["a", "b", "c"] :: t !in AddedIds(SiblingsClosed)
  {
    forall i | 0 <= i < |SiblingsClosed|
      ensures SiblingsClosed[i].added.paneId == Some("x") || SiblingsClosed[i].added.paneId == Some("y")
    {}
  }
}
