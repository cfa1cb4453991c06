/** Putting the missing ones of a list of tabs back one after the other, each at its old place
    clamped to a count that was read before the first was put back. */
module TabOrder {
  import opened Prelude
  import opened Tabs

  /** The index a reopened tab is moved to: the live tabs are counted once, at the start. */
  function MoveIndex(i: nat, liveCount: nat): nat {
    Min(i, liveCount + 1)
  }

  /** What the server makes of the tabs when a new one is put at an index. */
  type Put<!T> = (seq<T>, T, nat) -> seq<T>

  ghost predicate Inserts<T(!new)>(put: Put<T>) {
    forall tabs: seq<T>, t: T, index: nat | t !in tabs && index <= |tabs| + 1 ::
      put(tabs, t, index) == InsertAt(tabs, Min(index, |tabs|), t)
  }

  /** The tabs once the first `k` remembered ones have been looked at; each missing one is
      put at the index stored with it. */
  function Restored<T(==)>(remembered: seq<T>, stored: seq<nat>, live: seq<T>, put: Put<T>, k: nat): seq<T>
    requires k <= |remembered| == |stored|
  {
    if k == 0 then live
    else
      var tabs, t := Restored(remembered, stored, live, put, k - 1), remembered[k - 1];
      if t in live then tabs else put(tabs, t, MoveIndex(stored[k - 1], |live|))
  }

  lemma {:induction false} StoredIsPosition<T>(
    remembered: seq<T>, stored: seq<nat>, live: seq<T>, put: Put<T>, k: nat)
    requires k <= |remembered| == |stored| && forall i | 0 <= i < |stored| :: stored[i] == i
    ensures Restored(remembered, stored, live, put, k) == Reopened(remembered, live, put, k)
    decreases k
  {
    if k > 0 { StoredIsPosition(remembered, stored, live, put, k - 1); }
  }

  /** The same with list positions for the stored indices. */
  function Reopened<T(==)>(remembered: seq<T>, live: seq<T>, put: Put<T>, k: nat): seq<T>
    requires k <= |remembered|
  {
    if k == 0 then live
    else
      var tabs, t := Reopened(remembered, live, put, k - 1), remembered[k - 1];
      if t in live then tabs else put(tabs, t, MoveIndex(k - 1, |live|))
  }

  /** The remembered tabs from `k` on that are still open. */
  function Survivors<T(==)>(remembered: seq<T>, live: seq<T>, k: nat): (r: seq<T>)
    requires k <= |remembered|
    ensures |r| <= |remembered| - k
    decreases |remembered| - k
  {
    if k == |remembered| then []
    else (if remembered[k] in live then [remembered[k]] else []) + Survivors(remembered, live, k + 1)
  }

  lemma {:induction false} SurvivorsFrom<T>(remembered: seq<T>, live: seq<T>, k: nat)
    requires k <= |remembered|
    ensures forall t | t in Survivors(remembered, live, k) :: t in remembered[k..] && t in live
    decreases |remembered| - k
  {
    if k < |remembered| {
      SurvivorsFrom(remembered, live, k + 1);
      assert remembered[k..] == [remembered[k]] + remembered[k + 1..];
    }
  }

  /** Everything in place so far. */
  function InPlace<T(==)>(remembered: seq<T>, live: seq<T>, k: nat): seq<T>
    requires k <= |remembered|
  {
    remembered[..k] + Survivors(remembered, live, k)
  }

  /** Appending a new tab and moving it is inserting it. */
  lemma MoveInserts<T>(tabs: seq<T>, t: T, index: nat, countsMoved: bool)
    requires t !in tabs && index <= |tabs| + 1
    ensures ServerMove(tabs + [t], t, index, countsMoved) == InsertAt(tabs, Min(index, |tabs|), t)
  {
    var all := tabs + [t];
    assert all[|tabs|] == t;
    var from := IndexOf(all, t).value;
    assert WithoutAt(all, |tabs|) == tabs;
  }

  /** The server's answer to a new tab and its `tab.move`, under either index convention. */
  function ServerPut<T(==)>(countsMoved: bool): Put<T> {
    (tabs, t, index: nat) => ServerMove(tabs + [t], t, index, countsMoved)
  }

  lemma ServerInserts<T(!new)>(countsMoved: bool)
    ensures Inserts<T>(ServerPut(countsMoved))
  {
    forall tabs: seq<T>, t, index: nat | t !in tabs && index <= |tabs| + 1
      ensures ServerPut(countsMoved)(tabs, t, index) == InsertAt(tabs, Min(index, |tabs|), t)
    {
      MoveInserts(tabs, t, index, countsMoved);
    }
  }

  lemma {:induction false} ReopenedFrom<T(!new)>(remembered: seq<T>, live: seq<T>, put: Put<T>, k: nat)
    requires Inserts(put) && k <= |remembered| && Distinct(remembered)
    ensures forall t | t in Reopened(remembered, live, put, k) :: t in live || t in remembered[..k]
    ensures |Reopened(remembered, live, put, k)| >= |live|
    decreases k
  {
    if k > 0 {
      var tabs, t := Reopened(remembered, live, put, k - 1), remembered[k - 1];
      ReopenedFrom(remembered, live, put, k - 1);
      assert remembered[..k] == remembered[..k - 1] + [t];
      if t !in live {
        NotYetThere(remembered, live, put, k - 1);
      }
    }
  }

  lemma NotYetThere<T>(remembered: seq<T>, live: seq<T>, put: Put<T>, k: nat)
    requires k < |remembered| && Distinct(remembered) && remembered[k] !in live
    requires forall t | t in Reopened(remembered, live, put, k) :: t in live || t in remembered[..k]
    ensures remembered[k] !in Reopened(remembered, live, put, k)
  {
  }

  /** A reopened tab is an insertion into the tabs so far. */
  lemma ReopenInserts<T(!new)>(remembered: seq<T>, live: seq<T>, put: Put<T>, k: nat)
    requires Inserts(put) && k < |remembered| && Distinct(remembered) && remembered[k] !in live
    ensures
      var tabs := Reopened(remembered, live, put, k);
      Reopened(remembered, live, put, k + 1) ==
      InsertAt(tabs, Min(MoveIndex(k, |live|), |tabs|), remembered[k])
  {
    ReopenedFrom(remembered, live, put, k);
    NotYetThere(remembered, live, put, k);
  }

  /** No missing tab before `k` has a remembered index beyond the clamp. */
  predicate AllReach<T(==)>(remembered: seq<T>, live: seq<T>, k: nat)
    requires k <= |remembered|
  {
    forall i | 0 <= i < k :: remembered[i] in live || i <= |live| + 1
  }

  lemma SurvivorStays<T>(remembered: seq<T>, live: seq<T>, i: nat)
    requires i < |remembered| && remembered[i] in live
    ensures InPlace(remembered, live, i + 1) == InPlace(remembered, live, i)
  {
    var rest := Survivors(remembered, live, i + 1);
    assert remembered[..i + 1] == remembered[..i] + [remembered[i]];
    assert remembered[..i] + ([remembered[i]] + rest) == remembered[..i] + [remembered[i]] + rest;
  }

  lemma MissingIsInserted<T>(remembered: seq<T>, live: seq<T>, i: nat)
    requires i < |remembered| && remembered[i] !in live
    ensures InPlace(remembered, live, i + 1) == InsertAt(InPlace(remembered, live, i), i, remembered[i])
    ensures i <= |InPlace(remembered, live, i)|
  {
    var rest := Survivors(remembered, live, i + 1);
    assert [] + rest == rest;
    assert remembered[..i + 1] == remembered[..i] + [remembered[i]];
    var tabs := remembered[..i] + rest;
    assert tabs[..i] == remembered[..i] && tabs[i..] == rest;
  }

  lemma {:induction false} ReachingIsInPlace<T(!new)>(remembered: seq<T>, live: seq<T>, put: Put<T>, k: nat)
    requires Inserts(put) && k <= |remembered| && Distinct(remembered) && live == Survivors(remembered, live, 0)
    requires AllReach(remembered, live, k)
    ensures Reopened(remembered, live, put, k) == InPlace(remembered, live, k)
    decreases k
  {
    if k == 0 {
      assert remembered[..0] + live == live;
    } else {
      var i := k - 1;
      ReachingIsInPlace(remembered, live, put, i);
      if remembered[i] in live {
        SurvivorStays(remembered, live, i);
      } else {
        ReopenInserts(remembered, live, put, i);
        MissingIsInserted(remembered, live, i);
      }
    }
  }

  predicate Before<T(==)>(tabs: seq<T>, a: T, b: T) {
    exists i, j | 0 <= i < j < |tabs| :: tabs[i] == a && tabs[j] == b
  }

  lemma InsertKeepsBefore<T>(tabs: seq<T>, index: nat, t: T, a: T, b: T)
    requires Before(tabs, a, b)
    ensures Before(InsertAt(tabs, index, t), a, b)
  {
    var i, j :| 0 <= i < j < |tabs| && tabs[i] == a && tabs[j] == b;
    var k := Min(index, |tabs|);
    var after := InsertAt(tabs, index, t);
    assert after[if i < k then i else i + 1] == a && after[if j < k then j else j + 1] == b;
  }

  lemma {:induction false} BeforeStays<T(!new)>(
    remembered: seq<T>, live: seq<T>, put: Put<T>, from: nat, k: nat, a: T, b: T)
    requires Inserts(put) && from <= k <= |remembered| && Distinct(remembered)
    requires Before(Reopened(remembered, live, put, from), a, b)
    ensures Before(Reopened(remembered, live, put, k), a, b)
    decreases k - from
  {
    if from < k {
      BeforeStays(remembered, live, put, from, k - 1, a, b);
      StepKeepsBefore(remembered, live, put, k - 1, a, b);
    }
  }

  lemma StepKeepsBefore<T(!new)>(remembered: seq<T>, live: seq<T>, put: Put<T>, k: nat, a: T, b: T)
    requires Inserts(put) && k < |remembered| && Distinct(remembered)
    requires Before(Reopened(remembered, live, put, k), a, b)
    ensures Before(Reopened(remembered, live, put, k + 1), a, b)
  {
    if remembered[k] !in live {
      var tabs := Reopened(remembered, live, put, k);
      ReopenInserts(remembered, live, put, k);
      InsertKeepsBefore(tabs, Min(MoveIndex(k, |live|), |tabs|), remembered[k], a, b);
    }
  }

  lemma DistinctIsNotBefore<T>(tabs: seq<T>, i: nat, j: nat)
    requires Distinct(tabs) && i < j < |tabs|
    ensures !Before(tabs, tabs[j], tabs[i])
  {
  }

  /** The first missing tab beyond the clamp lands in front of one it should follow. */
  lemma {:induction false} FirstBeyondIsMisplaced<T(!new)>(remembered: seq<T>, live: seq<T>, put: Put<T>, k: nat)
    requires Inserts(put) && k < |remembered| && Distinct(remembered) && live == Survivors(remembered, live, 0)
    requires AllReach(remembered, live, k) && remembered[k] !in live && k > |live| + 1
    ensures Before(Reopened(remembered, live, put, k + 1), remembered[k], remembered[|live| + 1])
  {
    ReachingIsInPlace(remembered, live, put, k);
    ReopenInserts(remembered, live, put, k);
    var tabs, p := InPlace(remembered, live, k), |live| + 1;
    var after := InsertAt(tabs, p, remembered[k]);
    assert tabs[p] == remembered[p];
    assert after[p] == remembered[k] && after[p + 1] == remembered[p];
  }

  lemma FirstBeyond<T>(remembered: seq<T>, live: seq<T>, n: nat) returns (k: nat)
    requires n <= |remembered| && !AllReach(remembered, live, n)
    ensures k < n && AllReach(remembered, live, k) && remembered[k] !in live && k > |live| + 1
  {
    k := n - 1;
    if !AllReach(remembered, live, k) { k := FirstBeyond(remembered, live, k); }
  }

  lemma InOrderExactlyWhen<T(!new)>(remembered: seq<T>, live: seq<T>, put: Put<T>)
    requires Inserts(put) && Distinct(remembered) && live == Survivors(remembered, live, 0)
    ensures Reopened(remembered, live, put, |remembered|) == remembered
            <==> AllReach(remembered, live, |remembered|)
  {
    var n := |remembered|;
    if AllReach(remembered, live, n) {
      ReachingIsInPlace(remembered, live, put, n);
      assert remembered[..n] + [] == remembered;
    } else {
      var k := FirstBeyond(remembered, live, n);
      FirstBeyondIsMisplaced(remembered, live, put, k);
      BeforeStays(remembered, live, put, k + 1, n, remembered[k], remembered[|live| + 1]);
      DistinctIsNotBefore(remembered, |live| + 1, k);
    }
  }

  lemma StepAt<T(!new)>(remembered: seq<T>, live: seq<T>, put: Put<T>, k: nat, tabs: seq<T>, after: seq<T>)
    requires Inserts(put) && k < |remembered| && Distinct(remembered) && remembered[k] !in live
    requires Reopened(remembered, live, put, k) == tabs && MoveIndex(k, |live|) <= |tabs|
    requires InsertAt(tabs, MoveIndex(k, |live|), remembered[k]) == after
    ensures Reopened(remembered, live, put, k + 1) == after
  {
    ReopenInserts(remembered, live, put, k);
  }

  lemma Insertions<T>(a: T, b: T, c: T, d: T)
    ensures InsertAt([a], 1, b) == [a, b]
    ensures InsertAt([a, b], 2, c) == [a, b, c]
    ensures InsertAt([a, b, c], 2, d) == [a, b, d, c]
  {
  }

  lemma ThreeMissing<T(!new)>(r: seq<T>, put: Put<T>)
    requires Inserts(put) && |r| == 4 && Distinct(r)
    ensures Reopened(r, [r[0]], put, |r|) == [r[0], r[1], r[3], r[2]]
  {
    var live, k := [r[0]], |r| - 3;
    assert Reopened(r, live, put, k) == live by {
      assert Reopened(r, live, put, k - 1) == live;
    }
    Insertions(r[0], r[1], r[2], r[3]);
    StepAt(r, live, put, k, live, [r[0], r[1]]);
    StepAt(r, live, put, k + 1, [r[0], r[1]], [r[0], r[1], r[2]]);
    StepAt(r, live, put, k + 2, [r[0], r[1], r[2]], [r[0], r[1], r[3], r[2]]);
  }
}
