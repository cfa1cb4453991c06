/** Rebuilding whole tabs: mapping old panes to new ones by position after `layout.apply`,
    and moving the rebuilt tabs into their remembered order. */
module Tabs {
  import opened Prelude
  import opened Model

  // ---------------------------------------------------------------- old pane, new pane

  function StripPaneIds(n: LayoutNode): LayoutNode {
    if n.Leaf? then n.(paneId := None)
    else n.(first := StripPaneIds(n.first), second := StripPaneIds(n.second))
  }

  /** `layout.apply`: the server gives every leaf a fresh id, depth first. */
  function Fill(n: LayoutNode, ids: seq<Id>): LayoutNode
    requires |ids| == |n.Leaves()|
  {
    if n.Leaf? then n.(paneId := Some(ids[0]))
    else
      var k := |n.first.Leaves()|;
      n.(first := Fill(n.first, ids[..k]), second := Fill(n.second, ids[k..]))
  }

  function IdOf(n: LayoutNode): Option<Id> {
    if n.Leaf? then n.paneId else None
  }

  /** The pairs of leaves at the same position that both carry an id. */
  function Pairs(a: seq<LayoutNode>, b: seq<LayoutNode>): seq<(Id, Id)>
    requires |a| == |b|
  {
    if a == [] then []
    else
      var before := Pairs(a[..|a| - 1], b[..|b| - 1]);
      var x, y := IdOf(a[|a| - 1]), IdOf(b[|b| - 1]);
      if x.Some? && y.Some? then before + [(x.value, y.value)] else before
  }

  function Zipped(a: seq<LayoutNode>, b: seq<LayoutNode>): seq<(Id, Id)> {
    var n := Min(|a|, |b|);
    Pairs(a[..n], b[..n])
  }

  /** `map_pane_ids`. */
  method MapPaneIds(before: LayoutNode, after: LayoutNode) returns (out: seq<(Id, Id)>)
    ensures out == Zipped(before.Leaves(), after.Leaves())
  {
    var o, n := before.Leaves(), after.Leaves();
    out := [];
    var count := Min(|o|, |n|);
    for i := 0 to count
      invariant out == Pairs(o[..i], n[..i])
    {
      assert o[..i + 1][..i] == o[..i] && n[..i + 1][..i] == n[..i];
      var a, b := o[i], n[i];
      if a.Leaf? && a.paneId.Some? && b.Leaf? && b.paneId.Some? {
        out := out + [(a.paneId.value, b.paneId.value)];
      }
    }
  }

  lemma StripKeepsLeaves(n: LayoutNode)
    ensures |StripPaneIds(n).Leaves()| == |n.Leaves()| >= 1
    ensures StripPaneIds(n).LeafPaneIds() == []
    ensures forall i | 0 <= i < |n.Leaves()| ::
              n.Leaves()[i].Leaf? && StripPaneIds(n).Leaves()[i] == n.Leaves()[i].(paneId := None)
  {
  }

  /** Stripping takes the ids and nothing else: filled with its own ids again, a layout is the
      one it was. */
  lemma {:induction false} StripTakesIdsOnly(n: LayoutNode)
    requires forall i | 0 <= i < |n.Leaves()| :: IdOf(n.Leaves()[i]).Some?
    ensures |n.LeafPaneIds()| == |StripPaneIds(n).Leaves()|
    ensures Fill(StripPaneIds(n), n.LeafPaneIds()) == n
  {
    if n.Split? {
      var a, b := n.first.Leaves(), n.second.Leaves();
      assert forall i | 0 <= i < |a| :: n.Leaves()[i] == a[i];
      assert forall i | 0 <= i < |b| :: n.Leaves()[|a| + i] == b[i];
      StripTakesIdsOnly(n.first);
      StripTakesIdsOnly(n.second);
      StripKeepsLeaves(n.first);
      var p, q := n.first.LeafPaneIds(), n.second.LeafPaneIds();
      assert (p + q)[..|p|] == p && (p + q)[|p|..] == q;
    } else {
      assert n.Leaves()[0] == n;
    }
  }

  lemma {:induction false} FilledLeaves(n: LayoutNode, ids: seq<Id>)
    requires |ids| == |n.Leaves()|
    ensures |Fill(n, ids).Leaves()| == |ids|
    ensures forall i | 0 <= i < |ids| ::
              n.Leaves()[i].Leaf? && Fill(n, ids).Leaves()[i] == n.Leaves()[i].(paneId := Some(ids[i]))
  {
    if n.Split? {
      var k := |n.first.Leaves()|;
      FilledLeaves(n.first, ids[..k]);
      FilledLeaves(n.second, ids[k..]);
      var a, b := Fill(n.first, ids[..k]).Leaves(), Fill(n.second, ids[k..]).Leaves();
      assert Fill(n, ids).Leaves() == a + b;
      forall i | 0 <= i < |ids|
        ensures n.Leaves()[i].Leaf? && Fill(n, ids).Leaves()[i] == n.Leaves()[i].(paneId := Some(ids[i]))
      {
        if i < k {
          assert n.Leaves()[i] == n.first.Leaves()[i] && (a + b)[i] == a[i] && ids[i] == ids[..k][i];
        } else {
          assert n.Leaves()[i] == n.second.Leaves()[i - k] && (a + b)[i] == b[i - k] && ids[i] == ids[k..][i - k];
        }
      }
    }
  }

  lemma {:induction false} FilledIds(n: LayoutNode, ids: seq<Id>)
    requires |ids| == |n.Leaves()|
    ensures Fill(n, ids).LeafPaneIds() == ids
  {
    if n.Split? {
      var k := |n.first.Leaves()|;
      FilledIds(n.first, ids[..k]);
      FilledIds(n.second, ids[k..]);
      assert ids == ids[..k] + ids[k..];
    }
  }

  /** The ids of a list of leaves, in order. */
  function IdsOf(leaves: seq<LayoutNode>): seq<Id> {
    if leaves == [] then []
    else
      var before := IdsOf(leaves[..|leaves| - 1]);
      var x := IdOf(leaves[|leaves| - 1]);
      if x.Some? then before + [x.value] else before
  }

  lemma {:induction false} IdsOfAppend(a: seq<LayoutNode>, b: seq<LayoutNode>)
    ensures IdsOf(a + b) == IdsOf(a) + IdsOf(b)
  {
    if b == [] {
      assert a + b == a;
    } else {
      IdsOfAppend(a, b[..|b| - 1]);
      assert (a + b)[..|a + b| - 1] == a + b[..|b| - 1];
    }
  }

  lemma {:induction false} LeafIdsAreIdsOf(n: LayoutNode)
    ensures IdsOf(n.Leaves()) == n.LeafPaneIds()
  {
    if n.Leaf? {
      assert [n][..0] == [];
    } else {
      LeafIdsAreIdsOf(n.first);
      LeafIdsAreIdsOf(n.second);
      IdsOfAppend(n.first.Leaves(), n.second.Leaves());
    }
  }

  function Olds(pairs: seq<(Id, Id)>): seq<Id> {
    seq(|pairs|, i requires 0 <= i < |pairs| => pairs[i].0)
  }

  /** Where the old pane of each pair sat among all leaves. */
  ghost predicate SamePlace(pair: (Id, Id), leaves: seq<LayoutNode>, ids: seq<Id>) {
    exists k | 0 <= k < |leaves| && k < |ids| :: IdOf(leaves[k]) == Some(pair.0) && ids[k] == pair.1
  }

  lemma {:induction false} PairsLaw(leaves: seq<LayoutNode>, news: seq<LayoutNode>, ids: seq<Id>)
    requires |leaves| == |news| == |ids|
    requires forall i | 0 <= i < |ids| :: IdOf(news[i]) == Some(ids[i])
    ensures
      var out := Pairs(leaves, news);
      && Olds(out) == IdsOf(leaves)
      && (forall j | 0 <= j < |out| :: SamePlace(out[j], leaves, ids))
      && (Distinct(ids) ==> forall i, j | 0 <= i < j < |out| :: out[i].1 != out[j].1)
  {
    if leaves != [] {
      var n := |leaves| - 1;
      PairsLaw(leaves[..n], news[..n], ids[..n]);
      var before := Pairs(leaves[..n], news[..n]);
      var out := Pairs(leaves, news);
      forall j | 0 <= j < |out| ensures SamePlace(out[j], leaves, ids)
        ensures j < |before| && Distinct(ids) ==> out[j].1 != ids[n]
      {
        if j < |before| {
          assert SamePlace(before[j], leaves[..n], ids[..n]);
          var k :| 0 <= k < n && IdOf(leaves[..n][k]) == Some(before[j].0) && ids[..n][k] == before[j].1;
          assert IdOf(leaves[k]) == Some(out[j].0) && ids[k] == out[j].1;
        } else {
          assert IdOf(leaves[n]) == Some(out[j].0) && ids[n] == out[j].1;
        }
      }
    }
  }

  /** After stripping and a depth-first fill with fresh ids, the map takes every identified
      old leaf, in order, to the new leaf at the same position of a tree that differs in its
      ids only; no two old panes share a new one. */
  lemma MapIsTotalAndPositional(layout: LayoutNode, ids: seq<Id>)
    requires |ids| == |StripPaneIds(layout).Leaves()| && Distinct(ids)
    ensures
      var applied := Fill(StripPaneIds(layout), ids);
      var out := Zipped(layout.Leaves(), applied.Leaves());
      && applied.LeafPaneIds() == ids
      && Olds(out) == layout.LeafPaneIds()
      && (forall j | 0 <= j < |out| :: SamePlace(out[j], layout.Leaves(), ids))
      && (forall i, j | 0 <= i < j < |out| :: out[i].1 != out[j].1)
  {
    var stripped := StripPaneIds(layout);
    var applied := Fill(stripped, ids);
    StripKeepsLeaves(layout);
    FilledLeaves(stripped, ids);
    FilledIds(stripped, ids);
    LeafIdsAreIdsOf(layout);
    var n := |ids|;
    assert layout.Leaves()[..n] == layout.Leaves() && applied.Leaves()[..n] == applied.Leaves();
    PairsLaw(layout.Leaves(), applied.Leaves(), ids);
  }

  lemma {:induction false} StripUndoesFill(layout: LayoutNode, ids: seq<Id>)
    requires |ids| == |StripPaneIds(layout).Leaves()|
    ensures StripPaneIds(Fill(StripPaneIds(layout), ids)) == StripPaneIds(layout)
  {
    if layout.Split? {
      var k := |StripPaneIds(layout.first).Leaves()|;
      StripUndoesFill(layout.first, ids[..k]);
      StripUndoesFill(layout.second, ids[k..]);
    }
  }

  // ---------------------------------------------------------------- restoring the occupants

  /** The remembered panes that have a place in the new tab, with that place. */
  function Occupants(panes: seq<PaneSnap>, mapping: seq<(Id, Id)>): seq<(PaneSnap, Id)> {
    if mapping == [] then []
    else
      var before := Occupants(panes, mapping[..|mapping| - 1]);
      var (o, n) := mapping[|mapping| - 1];
      var p := FindPaneIn(panes, o);
      if p.Some? then before + [(p.value, n)] else before
  }

  /** `finish_tab`: the occupants handed to `restore_occupant`, in order. */
  method FinishTab(tab: TabSnap, newRoot: LayoutNode) returns (occupants: seq<(PaneSnap, Id)>, created: seq<Id>)
    ensures created == newRoot.LeafPaneIds()
    ensures occupants == Occupants(tab.panes, Zipped(tab.layout.Leaves(), newRoot.Leaves()))
  {
    var mapping := MapPaneIds(tab.layout, newRoot);
    created := newRoot.LeafPaneIds();
    occupants := [];
    for i := 0 to |mapping|
      invariant occupants == Occupants(tab.panes, mapping[..i])
    {
      assert mapping[..i + 1][..i] == mapping[..i];
      var p := FindPaneIn(tab.panes, mapping[i].0);
      if p.Some? { occupants := occupants + [(p.value, mapping[i].1)]; }
    }
    assert mapping[..|mapping|] == mapping;
  }

  predicate DistinctPanes(panes: seq<PaneSnap>) {
    forall i, j | 0 <= i < j < |panes| :: panes[i].paneId != panes[j].paneId
  }

  lemma FindDistinctPane(panes: seq<PaneSnap>, p: PaneSnap)
    requires DistinctPanes(panes) && p in panes
    ensures FindPaneIn(panes, p.paneId) == Some(p)
  {
    if panes[0] != p {
      assert p in panes[1..];
      FindDistinctPane(panes[1..], p);
      var k :| 0 <= k < |panes| && panes[k] == p;
    }
  }

  /** The occupant comes from this pair of the mapping. */
  predicate From(pair: (Id, Id), panes: seq<PaneSnap>, occupant: (PaneSnap, Id)) {
    occupant.0 in panes && occupant.0.paneId == pair.0 && occupant.1 == pair.1
  }

  lemma {:induction false} OccupantFrom(panes: seq<PaneSnap>, mapping: seq<(Id, Id)>, k: nat) returns (i: nat)
    requires k < |Occupants(panes, mapping)|
    ensures i < |mapping| && From(mapping[i], panes, Occupants(panes, mapping)[k])
  {
    var n := |mapping| - 1;
    FindPaneInIff(panes, mapping[n].0);
    if k == |Occupants(panes, mapping[..n])| {
      i := n;
    } else {
      i := OccupantFrom(panes, mapping[..n], k);
    }
  }

  predicate OneToOne(mapping: seq<(Id, Id)>) {
    forall i, j | 0 <= i < j < |mapping| :: mapping[i].0 != mapping[j].0 && mapping[i].1 != mapping[j].1
  }

  lemma {:induction false} OccupantsDiffer(panes: seq<PaneSnap>, mapping: seq<(Id, Id)>, a: nat, b: nat)
    requires OneToOne(mapping) && a < b < |Occupants(panes, mapping)|
    ensures Occupants(panes, mapping)[a].0 != Occupants(panes, mapping)[b].0
    ensures Occupants(panes, mapping)[a].1 != Occupants(panes, mapping)[b].1
  {
    var n := |mapping| - 1;
    var rest := mapping[..n];
    FindPaneInIff(panes, mapping[n].0);
    if b < |Occupants(panes, rest)| {
      OccupantsDiffer(panes, rest, a, b);
    } else {
      var i := OccupantFrom(panes, rest, a);
      assert mapping[i] == rest[i];
    }
  }

  lemma {:induction false} OccupantsCover(panes: seq<PaneSnap>, mapping: seq<(Id, Id)>, p: PaneSnap) returns (k: nat)
    requires DistinctPanes(panes) && p in panes
    ensures p.paneId in Olds(mapping) ==>
              k < |Occupants(panes, mapping)| && Occupants(panes, mapping)[k].0 == p
  {
    k := 0;
    if mapping != [] {
      var n := |mapping| - 1;
      assert Olds(mapping) == Olds(mapping[..n]) + [mapping[n].0];
      if p.paneId == mapping[n].0 {
        FindDistinctPane(panes, p);
        k := |Occupants(panes, mapping[..n])|;
      } else {
        k := OccupantsCover(panes, mapping[..n], p);
      }
    }
  }

  /** Every remembered pane that has a leaf is restored exactly once, into its own new pane
      at the place of that leaf; panes without a leaf are not restored. */
  lemma EachPaneIsRestoredOnce(tab: TabSnap, ids: seq<Id>, p: PaneSnap)
    requires |ids| == |StripPaneIds(tab.layout).Leaves()| && Distinct(ids)
    requires Distinct(tab.layout.LeafPaneIds()) && DistinctPanes(tab.panes) && p in tab.panes
    ensures
      var applied := Fill(StripPaneIds(tab.layout), ids);
      var out := Occupants(tab.panes, Zipped(tab.layout.Leaves(), applied.Leaves()));
      && (forall k | 0 <= k < |out| :: SamePlace((out[k].0.paneId, out[k].1), tab.layout.Leaves(), ids))
      && (forall i, j | 0 <= i < j < |out| :: out[i].0 != out[j].0 && out[i].1 != out[j].1)
      && ((exists k | 0 <= k < |out| :: out[k].0 == p) <==> p.paneId in tab.layout.LeafPaneIds())
  {
    MapIsTotalAndPositional(tab.layout, ids);
    var mapping := Zipped(tab.layout.Leaves(), Fill(StripPaneIds(tab.layout), ids).Leaves());
    assert OneToOne(mapping) by {
      assert forall i | 0 <= i < |mapping| :: Olds(mapping)[i] == mapping[i].0;
    }
    var out := Occupants(tab.panes, mapping);
    forall k | 0 <= k < |out| ensures SamePlace((out[k].0.paneId, out[k].1), tab.layout.Leaves(), ids)
      ensures out[k].0.paneId in tab.layout.LeafPaneIds()
    {
      var j := OccupantFrom(tab.panes, mapping, k);
      assert SamePlace(mapping[j], tab.layout.Leaves(), ids);
      assert mapping[j] == (out[k].0.paneId, out[k].1) && Olds(mapping)[j] == mapping[j].0;
    }
    forall a, b | 0 <= a < b < |out| ensures out[a].0 != out[b].0 && out[a].1 != out[b].1 {
      OccupantsDiffer(tab.panes, mapping, a, b);
    }
    var found := OccupantsCover(tab.panes, mapping, p);
  }

  // ---------------------------------------------------------------- tab order

  function WithoutAt<T>(tabs: seq<T>, i: nat): seq<T>
    requires i < |tabs|
  {
    tabs[..i] + tabs[i + 1..]
  }

  function InsertAt<T>(tabs: seq<T>, i: nat, t: T): seq<T> {
    var k := Min(i, |tabs|);
    tabs[..k] + [t] + tabs[k..]
  }

  /** `tab.move`: take the tab out and put it at the index. If the server counts positions
      with the moved tab still in place, an index behind it shifts down by one. */
  function ServerMove<T(==)>(tabs: seq<T>, t: T, index: nat, countsMoved: bool): seq<T> {
    match IndexOf(tabs, t)
    case None => tabs
    case Some(from) =>
      InsertAt(WithoutAt(tabs, from), if countsMoved && from < index then index - 1 else index, t)
  }

  function Others<T(==)>(tabs: seq<T>, created: seq<T>): seq<T> {
    Filter(tabs, (t: T) => t !in created)
  }

  lemma {:induction false} FilterSkips<T>(a: seq<T>, x: T, b: seq<T>, p: T -> bool)
    requires !p(x)
    ensures Filter(a + [x] + b, p) == Filter(a + b, p)
  {
    if b == [] {
      assert a + [x] + b == a + [x] && a + b == a;
      FilterSnoc(a, x, p);
    } else {
      var n := |b| - 1;
      FilterSkips(a, x, b[..n], p);
      assert a + [x] + b == (a + [x] + b[..n]) + [b[n]];
      assert a + b == (a + b[..n]) + [b[n]];
      FilterSnoc(a + [x] + b[..n], b[n], p);
      FilterSnoc(a + b[..n], b[n], p);
    }
  }

  lemma PositionInRest<T>(front: seq<T>, rest: seq<T>, k: nat)
    requires Distinct(front + rest) && k < |rest|
    ensures IndexOf(front + rest, rest[k]) == Some(|front| + k)
  {
    var tabs := front + rest;
    assert tabs[|front| + k] == rest[k];
  }

  /** One move of the ascending pass: with the first tabs in place, the next one joins them,
      whichever way the server counts. */
  lemma MoveExtendsFront<T>(front: seq<T>, rest: seq<T>, k: nat, countsMoved: bool)
    requires Distinct(front + rest) && k < |rest|
    ensures ServerMove(front + rest, rest[k], |front|, countsMoved) == front + [rest[k]] + WithoutAt(rest, k)
  {
    PositionInRest(front, rest, k);
    assert WithoutAt(front + rest, |front| + k) == front + WithoutAt(rest, k);
  }

  lemma MoveKeepsDistinct<T>(front: seq<T>, rest: seq<T>, k: nat)
    requires Distinct(front + rest) && k < |rest|
    ensures Distinct(front + [rest[k]] + WithoutAt(rest, k))
  {
    var tabs := front + rest;
    var now := front + [rest[k]] + WithoutAt(rest, k);
    var from := |front| + k;
    forall m | 0 <= m < |now| ensures now[m] ==
        tabs[if m < |front| then m else if m == |front| then from else if m <= from then m - 1 else m]
    {
    }
  }

  /** After `i` moves the first `i` created tabs lead and `rest` is everything else. */
  ghost predicate InFront<T>(tabs: seq<T>, created: seq<T>, i: nat, rest: seq<T>) {
    && i <= |created|
    && Distinct(created[..i] + rest)
    && (forall k | i <= k < |created| :: created[k] in rest)
    && Filter(rest, (t: T) => t !in created) == Others(tabs, created)
  }

  lemma MoveAdvances<T>(tabs: seq<T>, created: seq<T>, i: nat, rest: seq<T>, countsMoved: bool)
    returns (rest': seq<T>)
    requires InFront(tabs, created, i, rest) && i < |created| && Distinct(created)
    ensures InFront(tabs, created, i + 1, rest')
    ensures ServerMove(created[..i] + rest, created[i], i, countsMoved) == created[..i + 1] + rest'
  {
    var t := created[i];
    var k: nat :| k < |rest| && rest[k] == t;
    rest' := WithoutAt(rest, k);
    assert created[..i + 1] == created[..i] + [t];
    assert Distinct(created[..i + 1] + rest') by { MoveKeepsDistinct(created[..i], rest, k); }
    assert ServerMove(created[..i] + rest, t, i, countsMoved) == created[..i + 1] + rest' by {
      MoveExtendsFront(created[..i], rest, k, countsMoved);
    }
    assert Filter(rest', (x: T) => x !in created) == Others(tabs, created) by {
      SkipsCreated(rest, k, created);
    }
    LaterStillThere(created, i, rest, k);
  }

  lemma SkipsCreated<T>(rest: seq<T>, k: nat, created: seq<T>)
    requires k < |rest| && rest[k] in created
    ensures Filter(WithoutAt(rest, k), (x: T) => x !in created) == Filter(rest, (x: T) => x !in created)
  {
    assert rest == rest[..k] + [rest[k]] + rest[k + 1..];
    FilterSkips(rest[..k], rest[k], rest[k + 1..], (x: T) => x !in created);
  }

  lemma LaterStillThere<T>(created: seq<T>, i: nat, rest: seq<T>, k: nat)
    requires i < |created| && k < |rest| && rest[k] == created[i] && Distinct(created)
    requires forall m | i <= m < |created| :: created[m] in rest
    ensures forall m | i + 1 <= m < |created| :: created[m] in WithoutAt(rest, k)
  {
    var rest' := WithoutAt(rest, k);
    forall m | i < m < |created| ensures created[m] in rest' {
      var n: nat :| n < |rest| && rest[n] == created[m];
      assert rest'[if n < k then n else n - 1] == created[m];
    }
  }

  /** The ascending `tab.move` pass of `restore_workspace`: wherever the appends left the
      created tabs, they end up in front, in remembered order, and the others keep theirs. */
  method OrderTabs<T(==)>(tabs: seq<T>, created: seq<T>, countsMoved: bool) returns (out: seq<T>)
    requires Distinct(tabs) && Distinct(created) && forall t | t in created :: t in tabs
    ensures out == created + Others(tabs, created)
  {
    out := tabs;
    ghost var rest := tabs;
    assert created[..0] + tabs == tabs;
    for i := 0 to |created|
      invariant InFront(tabs, created, i, rest) && out == created[..i] + rest
    {
      rest := MoveAdvances(tabs, created, i, rest, countsMoved);
      out := ServerMove(out, created[i], i, countsMoved);
    }
    assert created[..|created|] == created;
    NothingLeft(created, rest);
    FilterAll(rest, (t: T) => t !in created);
  }

  lemma NothingLeft<T>(created: seq<T>, rest: seq<T>)
    requires Distinct(created + rest)
    ensures forall t | t in rest :: t !in created
  {
    forall t | t in rest ensures t !in created {
      var j :| 0 <= j < |rest| && rest[j] == t;
      forall i | 0 <= i < |created| ensures created[i] != t {
        assert (created + rest)[i] != (created + rest)[|created| + j];
      }
    }
  }

  /** Closing one tab of a live workspace and reopening it, as `create_tab_from_layout` does
      with its append and its one move to the clamped remembered index, puts the new tab
      exactly where the old one was. */
  lemma ReopenedTabIsInItsPlace<T>(tabs: seq<T>, index: nat, added: T, countsMoved: bool)
    requires Distinct(tabs) && index < |tabs| && added !in tabs
    ensures
      var live := WithoutAt(tabs, index);
      ServerMove(live + [added], added, Min(index, |live| + 1), countsMoved) == tabs[index := added]
  {
    var live := WithoutAt(tabs, index);
    var appended := live + [added];
    forall j | 0 <= j < |live| ensures appended[j] != added {
      assert live[j] == tabs[if j < index then j else j + 1];
    }
    assert appended[|live|] == added;
    var from := IndexOf(appended, added).value;
    assert WithoutAt(appended, from) == live;
  }
}
