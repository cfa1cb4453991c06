/** Layout-tree surgery: where a pane sat in its tab, what closing it does to the tree, and
    how splitting the tree again puts it back. Server calls are tree functions. */
module Layouts {
  import opened Prelude
  import opened Model

  // ---------------------------------------------------------------- finding the parent split

  datatype Side = FirstSide | SecondSide

  datatype Located = Located(direction: SplitDir, ratio: real, side: Side, sibling: LayoutNode)

  predicate IsPane(n: LayoutNode, id: Id) {
    n.Leaf? && n.paneId == Some(id)
  }

  function Locate(n: LayoutNode, id: Id): Option<Located> {
    if n.Leaf? then None
    else if IsPane(n.first, id) then Some(Located(n.direction, n.ratio, FirstSide, n.second))
    else if IsPane(n.second, id) then Some(Located(n.direction, n.ratio, SecondSide, n.first))
    else Locate(n.first, id).OrElse(Locate(n.second, id))
  }

  // ---------------------------------------------------------------- the server's operations

  /** Closing a pane: its parent split collapses to the sibling. */
  function ServerClose(n: LayoutNode, id: Id): LayoutNode {
    if n.Leaf? then n
    else if IsPane(n.first, id) then n.second
    else if IsPane(n.second, id) then n.first
    else n.(first := ServerClose(n.first, id), second := ServerClose(n.second, id))
  }

  /** `pane.split`: the target becomes the first child, the new pane the second. */
  function ServerSplit(n: LayoutNode, target: Id, direction: SplitDir, ratio: real, added: LayoutNode): LayoutNode {
    if n.Leaf? then (if IsPane(n, target) then Split(direction, ratio, n, added) else n)
    else n.(first := ServerSplit(n.first, target, direction, ratio, added),
            second := ServerSplit(n.second, target, direction, ratio, added))
  }

  function FindLeaf(n: LayoutNode, id: Id): Option<LayoutNode> {
    if n.Leaf? then (if IsPane(n, id) then Some(n) else None)
    else FindLeaf(n.first, id).OrElse(FindLeaf(n.second, id))
  }

  function ExchangeLeaves(n: LayoutNode, a: LayoutNode, b: LayoutNode): LayoutNode {
    if n.Leaf? then (if n == a then b else if n == b then a else n)
    else n.(first := ExchangeLeaves(n.first, a, b), second := ExchangeLeaves(n.second, a, b))
  }

  /** `pane.swap`: two panes change places. */
  function ServerSwap(n: LayoutNode, a: Id, b: Id): LayoutNode {
    var la, lb := FindLeaf(n, a), FindLeaf(n, b);
    if la.Some? && lb.Some? then ExchangeLeaves(n, la.value, lb.value) else n
  }

  function ReplaceLeaf(n: LayoutNode, id: Id, leaf: LayoutNode): LayoutNode {
    if n.Leaf? then (if IsPane(n, id) then leaf else n)
    else n.(first := ReplaceLeaf(n.first, id, leaf), second := ReplaceLeaf(n.second, id, leaf))
  }

  // ---------------------------------------------------------------- restoring one pane

  /** What `restore_pane_granularity` asks of the server. */
  datatype Plan = Plan(anchor: Id, direction: SplitDir, ratio: real, swap: bool)

  function FirstLive(ids: seq<Id>, live: seq<Id>): Option<Id> {
    if ids == [] then None
    else if ids[0] in live then Some(ids[0])
    else FirstLive(ids[1..], live)
  }

  /** None when the tab has no live pane to split from. */
  function PlanRestore(layout: LayoutNode, pane: Id, live: seq<Id>): Option<Plan> {
    if live == [] then None
    else
      var located := Locate(layout, pane).GetOr(Located(Right, 0.5, SecondSide, PaneLeaf(None, None, None)));
      var siblings := located.sibling.LeafPaneIds();
      var anchor := FirstLive(siblings, live).GetOr(live[0]);
      var single := |siblings| == 1 && siblings[0] == anchor;
      Some(Plan(anchor, located.direction,
                if located.side.FirstSide? && !single then 1.0 - located.ratio else located.ratio,
                located.side.FirstSide? && single))
  }

  /** The live tree after the calls of the plan; `added` is the leaf the server creates. */
  function Restored(tree: LayoutNode, plan: Plan, added: LayoutNode): LayoutNode
    requires added.Leaf? && added.paneId.Some?
  {
    var split := ServerSplit(tree, plan.anchor, plan.direction, plan.ratio, added);
    if plan.swap then ServerSwap(split, added.paneId.value, plan.anchor) else split
  }

  // ---------------------------------------------------------------- positions

  function At(n: LayoutNode, path: seq<Side>): Option<LayoutNode> {
    if path == [] then Some(n)
    else if n.Leaf? then None
    else At(if path[0].FirstSide? then n.first else n.second, path[1..])
  }

  function Put(n: LayoutNode, path: seq<Side>, sub: LayoutNode): LayoutNode
    requires At(n, path).Some?
    decreases |path|
  {
    if path == [] then sub
    else if path[0].FirstSide? then n.(first := Put(n.first, path[1..], sub))
    else n.(second := Put(n.second, path[1..], sub))
  }

  function Child(n: LayoutNode, side: Side): LayoutNode
    requires n.Split?
  {
    if side.FirstSide? then n.first else n.second
  }

  function Other(side: Side): Side {
    if side.FirstSide? then SecondSide else FirstSide
  }

  /** `at` is a split with the pane as its child on this side. */
  predicate IsParent(at: LayoutNode, side: Side, id: Id) {
    at.Split? && IsPane(Child(at, side), id)
  }

  predicate ParentAt(n: LayoutNode, path: seq<Side>, side: Side, id: Id) {
    At(n, path).Some? && IsParent(At(n, path).value, side, id)
  }

  predicate Identified(n: LayoutNode) {
    if n.Leaf? then n.paneId.Some? else Identified(n.first) && Identified(n.second)
  }

  /** No pane occurs twice in the tree. */
  predicate Proper(n: LayoutNode) {
    Distinct(n.LeafPaneIds())
  }

  lemma ProperChildren(n: LayoutNode)
    requires Proper(n) && n.Split?
    ensures Proper(n.first) && Proper(n.second)
    ensures forall x | x in n.first.LeafPaneIds() :: x !in n.second.LeafPaneIds()
  {
    var a, b := n.first.LeafPaneIds(), n.second.LeafPaneIds();
    assert n.LeafPaneIds() == a + b;
    forall i, j | 0 <= i < j < |b| ensures b[i] != b[j] {
      assert (a + b)[|a| + i] != (a + b)[|a| + j];
    }
    forall i, j | 0 <= i < j < |a| ensures a[i] != a[j] {
      assert (a + b)[i] != (a + b)[j];
    }
    forall x | x in a ensures x !in b {
      var i :| 0 <= i < |a| && a[i] == x;
      forall j | 0 <= j < |b| ensures b[j] != x {
        assert (a + b)[i] != (a + b)[|a| + j];
      }
    }
  }

  /** What locate returns is a split of the tree with the pane as a child. */
  lemma {:induction false} LocateFindsAParent(n: LayoutNode, id: Id) returns (path: seq<Side>)
    requires Locate(n, id).Some?
    ensures
      var l := Locate(n, id).value;
      && ParentAt(n, path, l.side, id)
      && var at := At(n, path).value;
         at.direction == l.direction && at.ratio == l.ratio && Child(at, Other(l.side)) == l.sibling
  {
    path := [];
    if !IsPane(n.first, id) && !IsPane(n.second, id) {
      var side := if Locate(n.first, id).Some? then FirstSide else SecondSide;
      var rest := LocateFindsAParent(Child(n, side), id);
      path := [side] + rest;
      assert path[1..] == rest;
    }
  }

  /** The path from the root to a child of a split is a leaf the tree lists. */
  lemma {:induction false} ChildIsLeaf(n: LayoutNode, path: seq<Side>, side: Side, id: Id)
    requires ParentAt(n, path, side, id)
    ensures id in n.LeafPaneIds() && Locate(n, id).Some?
    decreases |path|
  {
    if path == [] {
      assert id in Child(n, side).LeafPaneIds();
    } else {
      ChildIsLeaf(Child(n, path[0]), path[1..], side, id);
    }
  }

  lemma LeafIsChild(n: LayoutNode, id: Id)
    requires n.Split? && id in n.LeafPaneIds()
    ensures Locate(n, id).Some?
  {
  }

  /** `locate` is None exactly when the id is no split's child. */
  lemma LocateIsExact(n: LayoutNode, id: Id)
    ensures Locate(n, id).Some? <==> exists path, side :: ParentAt(n, path, side, id)
    ensures Locate(n, id).Some? <==> n.Split? && id in n.LeafPaneIds()
  {
    if Locate(n, id).Some? {
      var path := LocateFindsAParent(n, id);
      assert ParentAt(n, path, Locate(n, id).value.side, id);
      ChildIsLeaf(n, path, Locate(n, id).value.side, id);
    }
    if path, side :| ParentAt(n, path, side, id) {
      ChildIsLeaf(n, path, side, id);
    }
    if n.Split? && id in n.LeafPaneIds() { LeafIsChild(n, id); }
  }

  /** In a proper tree the parent split, and the side, are unique. */
  lemma {:induction false} ParentIsUnique(n: LayoutNode, p: seq<Side>, s: Side, q: seq<Side>, t: Side, id: Id)
    requires Proper(n) && ParentAt(n, p, s, id) && ParentAt(n, q, t, id)
    ensures p == q && s == t
    decreases |p|
  {
    ProperChildren(n);
    LeavesAlong(n, p, s, id);
    LeavesAlong(n, q, t, id);
    if p != [] && q != [] {
      ParentIsUnique(Child(n, p[0]), p[1..], s, q[1..], t, id);
      assert p == [p[0]] + p[1..] && q == [q[0]] + q[1..];
    }
  }

  /** The child lies on the side of the root where the path starts. */
  lemma LeavesAlong(n: LayoutNode, p: seq<Side>, s: Side, id: Id)
    requires ParentAt(n, p, s, id)
    ensures n.Split?
    ensures id in Child(n, if p == [] then s else p[0]).LeafPaneIds()
    ensures p != [] ==> Child(n, p[0]).Split?
  {
    if p != [] {
      ChildIsLeaf(Child(n, p[0]), p[1..], s, id);
    }
  }
}
