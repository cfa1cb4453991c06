/** Undo of one burst: several panes of a tab closed together share the layout frozen at the
    first of these closes, and the first one closed is on top of the stack, so they are
    reopened in the order they were closed. The laws say exactly when that restores the tab. */
module BurstUndo {
  import opened Prelude
  import opened Model
  import opened Layouts
  import opened LayoutLaws
  import opened UndoOrder

  /** The tab after all closes of the burst. */
  function CloseAll(tree: LayoutNode, cs: seq<Closing>): LayoutNode
    decreases |cs|
  {
    if cs == [] then tree else CloseAll(ServerClose(tree, cs[0].pane), cs[1..])
  }

  /** One reopen, by the frozen layout. */
  function Reopen(layout: LayoutNode, tab: LayoutNode, c: Closing): LayoutNode {
    var plan := PlanRestore(layout, c.pane, c.live);
    if plan.Some? && NewLeaf(c.added) then Restored(tab, plan.value, c.added) else tab
  }

  /** The reopens, first closed first. */
  function ReopenAll(layout: LayoutNode, tab: LayoutNode, cs: seq<Closing>): LayoutNode
    decreases |cs|
  {
    if cs == [] then tab else ReopenAll(layout, Reopen(layout, tab, cs[0]), cs[1..])
  }

  /** The tab with the panes of the burst replaced by the reopened ones. */
  function RenameAll(tree: LayoutNode, cs: seq<Closing>): LayoutNode
    decreases |cs|
  {
    if cs == [] then tree else RenameAll(ReplaceLeaf(tree, cs[0].pane, cs[0].added), cs[1..])
  }

  /** The panes closed are different panes of the tab, not all of it, and the ids of the
      reopened ones are new. */
  predicate ClosesSome(tree: LayoutNode, cs: seq<Closing>) {
    && NewAndDifferent(cs)
    && (forall i, j | 0 <= i < j < |cs| :: cs[i].pane != cs[j].pane)
    && (forall p | p in Panes(cs) :: p in tree.LeafPaneIds())
    && (exists z | z in tree.LeafPaneIds() :: z !in Panes(cs))
    && (forall x | x in tree.LeafPaneIds() :: x !in AddedIds(cs))
  }

  /** At each reopen the server lists the panes that are in the tab then. */
  predicate ListsAreTrue(layout: LayoutNode, tab: LayoutNode, cs: seq<Closing>)
    decreases |cs|
  {
    cs == [] || (SameIds(cs[0].live, tab) && ListsAreTrue(layout, Reopen(layout, tab, cs[0]), cs[1..]))
  }

  // ---------------------------------------------------------------- closes commute

  predicate Pair(n: LayoutNode, p: Id, q: Id) {
    n.Split? && ((IsPane(n.first, p) && IsPane(n.second, q)) || (IsPane(n.first, q) && IsPane(n.second, p)))
  }

  lemma LeftAlone(n: LayoutNode, p: Id, q: Id)
    requires !IsPane(n, q)
    ensures IsPane(ServerClose(n, p), q) ==> Pair(n, p, q)
  {
  }

  lemma {:induction false} ClosesCommute(n: LayoutNode, p: Id, q: Id)
    requires Proper(n) && p != q && !Pair(n, p, q)
    ensures ServerClose(ServerClose(n, p), q) == ServerClose(ServerClose(n, q), p)
  {
    if n.Split? {
      ProperChildren(n);
      if IsPane(n.first, p) || IsPane(n.second, p) {
        ChildCommutes(n, p, q);
      } else if IsPane(n.first, q) || IsPane(n.second, q) {
        ChildCommutes(n, q, p);
      } else if Pair(n.first, p, q) {
        PairIsPresent(n.first, p, q);
        AbsentIsUntouched(n.second, p, n);
        AbsentIsUntouched(n.second, q, n);
      } else if Pair(n.second, p, q) {
        PairIsPresent(n.second, p, q);
        AbsentIsUntouched(n.first, p, n);
        AbsentIsUntouched(n.first, q, n);
      } else {
        BothStay(n.first, p, q);
        BothStay(n.second, p, q);
        ClosesCommute(n.first, p, q);
        ClosesCommute(n.second, p, q);
      }
    }
  }

  lemma PairIsPresent(n: LayoutNode, p: Id, q: Id)
    requires Pair(n, p, q)
    ensures p in n.LeafPaneIds() && q in n.LeafPaneIds()
  {
  }

  /** A child of the root and any other pane. */
  lemma ChildCommutes(n: LayoutNode, p: Id, q: Id)
    requires Proper(n) && n.Split? && p != q && !Pair(n, p, q) && (IsPane(n.first, p) || IsPane(n.second, p))
    ensures ServerClose(ServerClose(n, p), q) == ServerClose(ServerClose(n, q), p)
  {
    ProperChildren(n);
    var other := if IsPane(n.first, p) then n.second else n.first;
    assert p !in other.LeafPaneIds();
    if Pair(other, q, p) { PairIsPresent(other, q, p); }
    LeftAlone(other, q, p);
  }

  lemma BothStay(n: LayoutNode, p: Id, q: Id)
    requires !IsPane(n, p) && !IsPane(n, q) && !Pair(n, p, q)
    ensures !IsPane(ServerClose(n, p), q) && !IsPane(ServerClose(n, q), p)
  {
    LeftAlone(n, p, q);
    LeftAlone(n, q, p);
  }

  /** Three different panes of a tree: it is a split of more than two of them. */
  lemma NotAPair(n: LayoutNode, p: Id, q: Id, z: Id)
    requires z in n.LeafPaneIds() && z != p && z != q
    ensures !Pair(n, p, q)
  {
  }

  lemma LocatedBeside(n: LayoutNode, p: Id, z: Id)
    requires p in n.LeafPaneIds() && z in n.LeafPaneIds() && p != z
    ensures Locate(n, p).Some? && !IsPane(n, p)
  {
    LocateIsExact(n, p);
  }

  /** What the tab keeps while panes of the burst are closed. */
  lemma {:induction false} CloseAllKeeps(tree: LayoutNode, cs: seq<Closing>, z: Id)
    requires Proper(tree) && z in tree.LeafPaneIds() && z !in Panes(cs)
    requires forall i, j | 0 <= i < j < |cs| :: cs[i].pane != cs[j].pane
    requires forall p | p in Panes(cs) :: p in tree.LeafPaneIds()
    ensures Proper(CloseAll(tree, cs))
    ensures forall y :: y in CloseAll(tree, cs).LeafPaneIds() <==> y in tree.LeafPaneIds() && y !in Panes(cs)
    decreases |cs|
  {
    if cs != [] {
      var p := cs[0].pane;
      PanesSplit(cs);
      LocatedBeside(tree, p, z);
      CloseRemovesOnlyIt(tree, p);
      CloseAllKeeps(ServerClose(tree, p), cs[1..], z);
    }
  }

  lemma PanesSplit(cs: seq<Closing>)
    requires cs != [] && forall i, j | 0 <= i < j < |cs| :: cs[i].pane != cs[j].pane
    ensures Panes(cs) == {cs[0].pane} + Panes(cs[1..]) && cs[0].pane !in Panes(cs[1..])
    ensures forall i, j | 0 <= i < j < |cs[1..]| :: cs[1..][i].pane != cs[1..][j].pane
  {
    PanesTail(cs);
    assert forall i | 0 <= i < |cs[1..]| :: cs[1..][i] == cs[i + 1];
  }

  /** The first pane closed might as well be the last. */
  lemma {:induction false} FirstClosedLast(tree: LayoutNode, p: Id, cs: seq<Closing>, z: Id)
    requires Proper(tree) && z in tree.LeafPaneIds() && z !in Panes(cs) && z != p
    requires p in tree.LeafPaneIds() && p !in Panes(cs)
    requires forall i, j | 0 <= i < j < |cs| :: cs[i].pane != cs[j].pane
    requires forall q | q in Panes(cs) :: q in tree.LeafPaneIds()
    ensures CloseAll(ServerClose(tree, p), cs) == ServerClose(CloseAll(tree, cs), p)
    decreases |cs|
  {
    if cs != [] {
      var q := cs[0].pane;
      PanesSplit(cs);
      NotAPair(tree, p, q, z);
      ClosesCommute(tree, p, q);
      LocatedBeside(tree, q, z);
      CloseRemovesOnlyIt(tree, q);
      FirstClosedLast(ServerClose(tree, q), p, cs[1..], z);
    }
  }

  lemma {:induction false} CloseAllThenRename(tree: LayoutNode, q: Id, x: LayoutNode, cs: seq<Closing>)
    requires NewLeaf(x) && x.paneId.value !in Panes(cs) && q !in Panes(cs)
    ensures CloseAll(ReplaceLeaf(tree, q, x), cs) == ReplaceLeaf(CloseAll(tree, cs), q, x)
    decreases |cs|
  {
    if cs != [] {
      PanesTail(cs);
      CloseThenRename(tree, q, x, cs[0].pane);
      CloseAllThenRename(ServerClose(tree, cs[0].pane), q, x, cs[1..]);
    }
  }

  // ---------------------------------------------------------------- the law

  /** The tab once the earlier panes of the burst are back, this one is, and the later ones
      are not. */
  function AtItsTurn(tree: LayoutNode, cs: seq<Closing>): LayoutNode
    requires cs != []
  {
    CloseAll(tree, cs[1..])
  }

  /** The frozen layout puts this pane back: in the tab at its turn the pane belongs beside a
      single pane, which is the one the layout leads to, and in a split with the direction,
      ratio and side that the layout recorded. */
  predicate FitsBurst(layout: LayoutNode, tree: LayoutNode, cs: seq<Closing>)
    requires cs != []
  {
    var l := Locate(AtItsTurn(tree, cs), cs[0].pane);
    var plan := PlanRestore(layout, cs[0].pane, cs[0].live);
    l.Some? && plan.Some? && ExactPlan(l.value, plan.value)
  }

  predicate AllFitBurst(layout: LayoutNode, tree: LayoutNode, cs: seq<Closing>)
    decreases |cs|
  {
    cs == [] ||
    (FitsBurst(layout, tree, cs) && AllFitBurst(layout, ReplaceLeaf(tree, cs[0].pane, cs[0].added), cs[1..]))
  }

  /** A tab that some of the reopens have already changed. */
  predicate PartlyBack(layout: LayoutNode, tab: LayoutNode, cs: seq<Closing>) {
    && Proper(tab) && Identified(tab) && tab.LeafPaneIds() != []
    && (forall x | x in tab.LeafPaneIds() :: x !in AddedIds(cs))
    && ListsAreTrue(layout, tab, cs)
  }

  lemma NextIsPartlyBack(layout: LayoutNode, tab: LayoutNode, cs: seq<Closing>)
    requires cs != [] && NewAndDifferent(cs) && PartlyBack(layout, tab, cs)
    ensures PlanRestore(layout, cs[0].pane, cs[0].live).Some?
    ensures PlanRestore(layout, cs[0].pane, cs[0].live).value.anchor in tab.LeafPaneIds()
    ensures cs[0].added.paneId.value !in tab.LeafPaneIds()
    ensures PartlyBack(layout, Reopen(layout, tab, cs[0]), cs[1..])
  {
    var c := cs[0];
    PanesTail(cs);
    AddedSplit(cs);
    assert tab.LeafPaneIds()[0] in c.live;
    AnchorIsLive(layout, c.pane, c.live);
    ReopenAddsOne(tab, PlanRestore(layout, c.pane, c.live).value, c.added);
    assert tab.LeafPaneIds()[0] in Reopen(layout, tab, c).LeafPaneIds();
  }

  lemma AddedSplit(cs: seq<Closing>)
    requires cs != [] && NewAndDifferent(cs)
    ensures NewLeaf(cs[0].added) && cs[0].added.paneId.value in AddedIds(cs)
    ensures cs[0].added.paneId.value !in AddedIds(cs[1..])
    ensures NewAndDifferent(cs[1..])
  {
    assert forall i | 0 <= i < |cs[1..]| :: cs[1..][i] == cs[i + 1];
  }

  lemma NextClosesSome(tree: LayoutNode, cs: seq<Closing>)
    requires cs != [] && Proper(tree) && Identified(tree) && ClosesSome(tree, cs)
    ensures
      var after := ReplaceLeaf(tree, cs[0].pane, cs[0].added);
      Proper(after) && Identified(after) && ClosesSome(after, cs[1..])
  {
    var c, rest := cs[0], cs[1..];
    PanesSplit(cs);
    PanesTail(cs);
    AddedSplit(cs);
    ReplacedIsProper(tree, c.pane, c.added);
    ReplacedIsIdentified(tree, c.pane, c.added);
    var after := ReplaceLeaf(tree, c.pane, c.added);
    forall y ensures y in after.LeafPaneIds() <==>
                     (y in tree.LeafPaneIds() && y != c.pane) || (c.pane in tree.LeafPaneIds() && y == c.added.paneId.value) {
      ReplacedIds(tree, c.pane, c.added, y);
    }
    var z :| z in tree.LeafPaneIds() && z !in Panes(cs);
    assert z in after.LeafPaneIds() && z !in Panes(rest);
  }

  /** One reopen brings the tab to where it should be exactly when the tab was where it
      should be and the pane fits. */
  lemma {:induction false} StepIsExactWhen(layout: LayoutNode, tree: LayoutNode, tab: LayoutNode, cs: seq<Closing>)
    requires cs != [] && Proper(tree) && Identified(tree) && ClosesSome(tree, cs) && PartlyBack(layout, tab, cs)
    ensures
      var renamed := ReplaceLeaf(tree, cs[0].pane, cs[0].added);
      Reopen(layout, tab, cs[0]) == CloseAll(renamed, cs[1..])
      <==> tab == CloseAll(tree, cs) && FitsBurst(layout, tree, cs)
  {
    var c, rest := cs[0], cs[1..];
    var p, a, turn := c.pane, c.added, AtItsTurn(tree, cs);
    NextIsPartlyBack(layout, tab, cs);
    var plan := PlanRestore(layout, p, c.live).value;
    AddedSplit(cs);
    TurnIsProper(tree, cs);
    CloseUndoesReopen(tab, plan, a);
    CloseReplaced(turn, p, a);
    if tab == ServerClose(turn, p) { ExactPlanIsNeeded(turn, p, plan, a); }
  }

  lemma TurnIsProper(tree: LayoutNode, cs: seq<Closing>)
    requires cs != [] && Proper(tree) && Identified(tree) && ClosesSome(tree, cs)
    ensures
      var turn, p, a := AtItsTurn(tree, cs), cs[0].pane, cs[0].added;
      && Proper(turn) && Locate(turn, p).Some? && !IsPane(turn, p)
      && NewLeaf(a) && a.paneId.value !in turn.LeafPaneIds()
      && CloseAll(tree, cs) == ServerClose(turn, p)
      && CloseAll(ReplaceLeaf(tree, p, a), cs[1..]) == ReplaceLeaf(turn, p, a)
  {
    var c, rest := cs[0], cs[1..];
    var z :| z in tree.LeafPaneIds() && z !in Panes(cs);
    PanesSplit(cs);
    AddedSplit(cs);
    CloseAllKeeps(tree, rest, z);
    LocatedBeside(CloseAll(tree, rest), c.pane, z);
    FirstClosedLast(tree, c.pane, rest, z);
    CloseAllThenRename(tree, c.pane, c.added, rest);
  }

  /** Whatever the tab looks like before the reopens: they end in the renamed tab exactly when
      it was the tab the closes left and every pane fits. */
  lemma {:induction false} ReopenedIsRenamedExactlyWhen(
    layout: LayoutNode, tree: LayoutNode, tab: LayoutNode, cs: seq<Closing>)
    requires Proper(tree) && Identified(tree) && ClosesSome(tree, cs) && PartlyBack(layout, tab, cs)
    ensures ReopenAll(layout, tab, cs) == RenameAll(tree, cs)
            <==> tab == CloseAll(tree, cs) && AllFitBurst(layout, tree, cs)
    decreases |cs|
  {
    if cs != [] {
      NextClosesSome(tree, cs);
      NextIsPartlyBack(layout, tab, cs);
      StepIsExactWhen(layout, tree, tab, cs);
      ReopenedIsRenamedExactlyWhen(
        layout, ReplaceLeaf(tree, cs[0].pane, cs[0].added), Reopen(layout, tab, cs[0]), cs[1..]);
    }
  }

  /** Any number of panes of a tab closed in one burst and undone, first closed first, by the
      one layout the burst froze: the tab is as before, with only their ids new, exactly when
      each of them fits at its turn. */
  lemma {:induction false} BurstUndoneExactlyWhen(tree: LayoutNode, cs: seq<Closing>)
    requires Proper(tree) && Identified(tree) && ClosesSome(tree, cs)
    requires ListsAreTrue(tree, CloseAll(tree, cs), cs)
    ensures ReopenAll(tree, CloseAll(tree, cs), cs) == RenameAll(tree, cs) <==> AllFitBurst(tree, tree, cs)
  {
    var z :| z in tree.LeafPaneIds() && z !in Panes(cs);
    CloseAllKeeps(tree, cs, z);
    CloseAllIsIdentified(tree, cs);
    assert z in CloseAll(tree, cs).LeafPaneIds();
    ReopenedIsRenamedExactlyWhen(tree, tree, CloseAll(tree, cs), cs);
  }

  lemma CloseAllIsIdentified(tree: LayoutNode, cs: seq<Closing>)
    requires Identified(tree)
    ensures Identified(CloseAll(tree, cs))
    decreases |cs|
  {
    if cs != [] {
      CloseKeepsIdentified(tree, cs[0].pane);
      CloseAllIsIdentified(ServerClose(tree, cs[0].pane), cs[1..]);
    }
  }

  // ---------------------------------------------------------------- a burst that is restored

  /** Every pane of the burst stood beside a single pane that the burst leaves alone. */
  predicate Lone(layout: LayoutNode, p: Id, closed: set<Id>) {
    var l := Locate(layout, p);
    l.Some? && NewLeaf(l.value.sibling) && l.value.sibling.paneId.value !in closed
  }

  lemma AbsentAfterClose(n: LayoutNode, q: Id, p: Id)
    requires p !in n.LeafPaneIds()
    ensures p !in ServerClose(n, q).LeafPaneIds()
  {
  }

  /** Closing neither the pane nor its single sibling leaves it where it is. */
  lemma {:induction false} LocateAfterClose(n: LayoutNode, q: Id, p: Id)
    requires Proper(n) && p != q && Lone(n, p, {q})
    ensures Locate(ServerClose(n, q), p) == Locate(n, p)
  {
    ProperChildren(n);
    if !IsPane(n.first, p) && !IsPane(n.second, p) && !IsPane(n.first, q) && !IsPane(n.second, q) {
      LocateIsExact(n.first, p);
      LocateIsExact(n.second, p);
      LeftAlone(n.first, q, p);
      LeftAlone(n.second, q, p);
      if Locate(n.first, p).Some? {
        AbsentIsUntouched(n.second, p, n);
        AbsentAfterClose(n.second, q, p);
        LocateAfterClose(n.first, q, p);
      } else {
        AbsentAfterClose(n.first, q, p);
        AbsentIsUntouched(ServerClose(n.first, q), p, n);
        LocateAfterClose(n.second, q, p);
      }
    }
  }

  lemma {:induction false} LocateAfterCloses(tree: LayoutNode, p: Id, cs: seq<Closing>, z: Id)
    requires Proper(tree) && Lone(tree, p, Panes(cs)) && p !in Panes(cs)
    requires z in tree.LeafPaneIds() && z !in Panes(cs)
    requires forall i, j | 0 <= i < j < |cs| :: cs[i].pane != cs[j].pane
    requires forall q | q in Panes(cs) :: q in tree.LeafPaneIds()
    ensures Locate(CloseAll(tree, cs), p) == Locate(tree, p)
    decreases |cs|
  {
    if cs != [] {
      var q := cs[0].pane;
      PanesSplit(cs);
      LocateAfterClose(tree, q, p);
      LocatedBeside(tree, q, z);
      CloseRemovesOnlyIt(tree, q);
      LocateAfterCloses(ServerClose(tree, q), p, cs[1..], z);
    }
  }

  lemma {:induction false} LoneFits(layout: LayoutNode, tree: LayoutNode, cs: seq<Closing>)
    requires cs != [] && Proper(tree) && Identified(tree) && ClosesSome(tree, cs)
    requires Lone(layout, cs[0].pane, Panes(cs)) && Locate(tree, cs[0].pane) == Locate(layout, cs[0].pane)
    requires SameIds(cs[0].live, CloseAll(tree, cs))
    ensures FitsBurst(layout, tree, cs)
  {
    var p := cs[0].pane;
    var l := Locate(layout, p).value;
    var s := l.sibling.paneId.value;
    var z :| z in tree.LeafPaneIds() && z !in Panes(cs);
    PanesSplit(cs);
    LocateAfterCloses(tree, p, cs[1..], z);
    CloseAllKeeps(tree, cs, z);
    var path := LocateFindsAParent(tree, p);
    assert s in Child(At(tree, path).value, Other(l.side)).LeafPaneIds();
    SubtreeIds(tree, path, s);
    assert l.sibling.LeafPaneIds() == [s] && s in cs[0].live;
  }

  /** Putting one pane back moves none of the others that stood beside a single pane. */
  lemma LoneStays(layout: LayoutNode, tree: LayoutNode, c: Closing, d: Closing, closed: set<Id>)
    requires Lone(layout, d.pane, closed) && Locate(tree, d.pane) == Locate(layout, d.pane)
    requires NewLeaf(c.added) && c.added.paneId != Some(d.pane) && d.pane != c.pane && c.pane in closed
    ensures Locate(ReplaceLeaf(tree, c.pane, c.added), d.pane) == Locate(layout, d.pane)
  {
    LocateThenRename(tree, c.pane, c.added, d.pane);
  }

  lemma {:induction false} AllLoneFit(layout: LayoutNode, tree: LayoutNode, cs: seq<Closing>, closed: set<Id>)
    requires Proper(tree) && Identified(tree) && ClosesSome(tree, cs) && Panes(cs) <= closed
    requires PartlyBack(layout, CloseAll(tree, cs), cs)
    requires forall c | c in cs :: Lone(layout, c.pane, closed) && Locate(tree, c.pane) == Locate(layout, c.pane)
    ensures AllFitBurst(layout, tree, cs)
    decreases |cs|
  {
    if cs != [] {
      var c, rest := cs[0], cs[1..];
      PanesSplit(cs);
      AddedSplit(cs);
      LoneFits(layout, tree, cs);
      NextClosesSome(tree, cs);
      StepIsExactWhen(layout, tree, CloseAll(tree, cs), cs);
      NextIsPartlyBack(layout, CloseAll(tree, cs), cs);
      forall d | d in rest
        ensures Lone(layout, d.pane, closed) && Locate(ReplaceLeaf(tree, c.pane, c.added), d.pane) == Locate(layout, d.pane)
      {
        assert d in cs && d.pane in Panes(rest) && d.pane in tree.LeafPaneIds();
        LoneStays(layout, tree, c, d, closed);
      }
      AllLoneFit(layout, ReplaceLeaf(tree, c.pane, c.added), rest, closed);
    }
  }

  /** A burst whose panes all stood beside single panes that stayed open is undone exactly. */
  lemma LoneBurstIsUndone(tree: LayoutNode, cs: seq<Closing>)
    requires Proper(tree) && Identified(tree) && ClosesSome(tree, cs)
    requires ListsAreTrue(tree, CloseAll(tree, cs), cs)
    requires forall c | c in cs :: Lone(tree, c.pane, Panes(cs))
    ensures ReopenAll(tree, CloseAll(tree, cs), cs) == RenameAll(tree, cs)
  {
    var z :| z in tree.LeafPaneIds() && z !in Panes(cs);
    CloseAllKeeps(tree, cs, z);
    CloseAllIsIdentified(tree, cs);
    assert z in CloseAll(tree, cs).LeafPaneIds();
    AllLoneFit(tree, tree, cs, Panes(cs));
    BurstUndoneExactlyWhen(tree, cs);
  }

  // ---------------------------------------------------------------- a burst that is not restored

  /** Close `a` and its sibling `b` in one burst; reopen `a` as `x`, then `b` as `y`. */
  const BothClosed := [Closing("a", Pane("x"), ["c"]), Closing("b", Pane("y"), ["c", "x"])]

  const OneBack := Split(Down, 0.7, Pane("c"), Pane("x"))

  lemma BothAreClosed()
    ensures CloseAll(Nested, BothClosed) == Pane("c")
    ensures RenameAll(Nested, BothClosed) == Split(Right, 0.5, Split(Down, 0.3, Pane("x"), Pane("y")), Pane("c"))
  {
    FirstClose();
    assert BothClosed[1..] == [BothClosed[1]] && BothClosed[1..][1..] == [];
    assert CloseAll(Closed1, BothClosed[1..]) == CloseAll(Pane("c"), []);
    var half := ReplaceLeaf(Nested, "a", Pane("x"));
    assert RenameAll(half, BothClosed[1..]) == RenameAll(ReplaceLeaf(half, "b", Pane("y")), []);
  }

  lemma FirstBack()
    ensures Reopen(Nested, Pane("c"), BothClosed[0]) == OneBack
  {
    assert Locate(Nested, "a") == Some(Located(Down, 0.3, FirstSide, Pane("b")));
    assert Pane("b").LeafPaneIds() == ["b"] && ["b"][1..] == [];
    assert FirstLive(["b"], ["c"]) == None;
    assert PlanRestore(Nested, "a", ["c"]) == Some(Plan("c", Down, 0.7, false));
  }

  lemma SecondBack()
    ensures Reopen(Nested, OneBack, BothClosed[1]) ==
            Split(Down, 0.7, Split(Down, 0.3, Pane("c"), Pane("y")), Pane("x"))
  {
    assert Locate(Nested, "b") == Some(Located(Down, 0.3, SecondSide, Pane("a")));
    assert Pane("a").LeafPaneIds() == ["a"] && ["a"][1..] == [];
    assert FirstLive(["a"], ["c", "x"]) == None;
    assert PlanRestore(Nested, "b", ["c", "x"]) == Some(Plan("c", Down, 0.3, false));
  }

  /** Two siblings closed in one burst and undone in order: everything the server guarantees
      holds, and yet both come back into the wrong splits. */
  lemma BurstSiblingsAreMisplaced()
    ensures Proper(Nested) && Identified(Nested) && ClosesSome(Nested, BothClosed)
    ensures ListsAreTrue(Nested, CloseAll(Nested, BothClosed), BothClosed)
    ensures ReopenAll(Nested, CloseAll(Nested, BothClosed), BothClosed) ==
            Split(Down, 0.7, Split(Down, 0.3, Pane("c"), Pane("y")), Pane("x"))
    ensures RenameAll(Nested, BothClosed) ==
            Split(Right, 0.5, Split(Down, 0.3, Pane("x"), Pane("y")), Pane("c"))
  {
    FirstClose();
    BothAreClosed();
    FirstBack();
    SecondBack();
    BothCloseSome();
    assert BothClosed[1..] == [BothClosed[1]] && BothClosed[1..][1..] == [];
    assert Pane("c").LeafPaneIds() == ["c"] && OneBack.LeafPaneIds() == ["c", "x"];
    var after := Reopen(Nested, OneBack, BothClosed[1]);
    assert ListsAreTrue(Nested, after, []) && ReopenAll(Nested, after, []) == after;
    assert ListsAreTrue(Nested, OneBack, BothClosed[1..]);
    assert ReopenAll(Nested, OneBack, BothClosed[1..]) == after;
  }

  lemma BothCloseSome()
    ensures ClosesSome(Nested, BothClosed)
  {
    FirstClose();
    assert "c" in Nested.LeafPaneIds() && "c" !in Panes(BothClosed);
  }
}
