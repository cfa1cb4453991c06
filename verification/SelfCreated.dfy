/** The ids a restore has just created: their close events are not the user's and must not
    be captured again. The file is pruned on every write, by the clock of that write. */
module SelfCreated {
  import opened Prelude
  import opened Model

  datatype Made = Made(id: Id, at: nat)

  predicate Shields(m: Made, now: nat) {
    SatSub(now, m.at) < SELF_CREATED_TTL_MS
  }

  predicate IsSelfCreated(file: seq<Made>, id: Id, now: nat) {
    exists m | m in file :: m.id == id && Shields(m, now)
  }

  function MadeAll(ids: seq<Id>, now: nat): seq<Made> {
    seq(|ids|, i requires 0 <= i < |ids| => Made(ids[i], now))
  }

  function Record(file: seq<Made>, ids: seq<Id>, now: nat): seq<Made> {
    Filter(file, (m: Made) => Shields(m, now)) + MadeAll(ids, now)
  }

  /** What changes the file: one restore's call, or a recovery pass, which empties it. */
  datatype Change = Recorded(ids: seq<Id>, now: nat) | Recovered

  function FileAfter(history: seq<Change>): seq<Made> {
    if history == [] then []
    else
      match history[|history| - 1]
      case Recorded(ids, now) => Record(FileAfter(history[..|history| - 1]), ids, now)
      case Recovered => []
  }

  /** Change `i` is a recording, and no recovery pass came after it. */
  predicate NotRecoveredSince(history: seq<Change>, i: nat)
    requires i < |history|
  {
    forall j | i <= j < |history| :: history[j].Recorded?
  }

  /** Recording `i` was young enough for the pruning of every later recording. */
  predicate NotPrunedSince(history: seq<Change>, i: nat)
    requires i < |history| && NotRecoveredSince(history, i)
  {
    forall j | i < j < |history| :: SatSub(history[j].now, history[i].now) < SELF_CREATED_TTL_MS
  }

  lemma MadeAllHas(ids: seq<Id>, now: nat, m: Made)
    ensures m in MadeAll(ids, now) <==> m.at == now && m.id in ids
  {
    if m.at == now && m.id in ids {
      var k :| 0 <= k < |ids| && ids[k] == m.id;
      assert MadeAll(ids, now)[k] == m;
    }
  }

  /** Change `i` put this line into the file, and no later one took it out. */
  predicate Holds(history: seq<Change>, i: nat, m: Made)
    requires i < |history|
  {
    && NotRecoveredSince(history, i) && NotPrunedSince(history, i)
    && history[i].now == m.at && m.id in history[i].ids
  }

  lemma HoldsBefore(history: seq<Change>, i: nat, m: Made)
    requires i + 1 < |history|
    ensures
      var last := history[|history| - 1];
      Holds(history, i, m) <==> Holds(history[..|history| - 1], i, m) && last.Recorded? && Shields(m, last.now)
  {
    var n := |history| - 1;
    assert forall j | i <= j < n :: history[..n][j] == history[j];
  }

  lemma FileStep(history: seq<Change>, m: Made)
    requires history != []
    ensures
      var before, last := history[..|history| - 1], history[|history| - 1];
      m in FileAfter(history) <==>
      last.Recorded? && ((last.now == m.at && m.id in last.ids) || (m in FileAfter(before) && Shields(m, last.now)))
  {
    var before, last := history[..|history| - 1], history[|history| - 1];
    if last.Recorded? {
      MadeAllHas(last.ids, last.now, m);
      FilterIn(FileAfter(before), (x: Made) => Shields(x, last.now));
    }
  }

  lemma HoldsLast(history: seq<Change>, m: Made)
    requires history != []
    ensures
      var last := history[|history| - 1];
      Holds(history, |history| - 1, m) <==> last.Recorded? && last.now == m.at && m.id in last.ids
  {
  }

  lemma {:induction false} FileHolds(history: seq<Change>, m: Made)
    ensures m in FileAfter(history) <==> exists i | 0 <= i < |history| :: Holds(history, i, m)
  {
    if history != [] {
      var n := |history| - 1;
      var before, last := history[..n], history[n];
      FileStep(history, m);
      HoldsLast(history, m);
      FileHolds(before, m);
      forall i | 0 <= i < n ensures Holds(history, i, m) <==> Holds(before, i, m) && last.Recorded? && Shields(m, last.now) {
        HoldsBefore(history, i, m);
      }
    }
  }

  /** For any clock readings: an id is shielded at time `t` exactly when some restore made it
      less than five seconds before `t` and before every recording in between, and no recovery
      pass came after that restore. */
  lemma ShieldedExactlyWhen(history: seq<Change>, id: Id, t: nat)
    ensures IsSelfCreated(FileAfter(history), id, t) <==>
            exists i | 0 <= i < |history| ::
              && NotRecoveredSince(history, i) && NotPrunedSince(history, i)
              && id in history[i].ids && SatSub(t, history[i].now) < SELF_CREATED_TTL_MS
  {
    if m :| m in FileAfter(history) && m.id == id && Shields(m, t) {
      FileHolds(history, m);
      var i :| 0 <= i < |history| && Holds(history, i, m);
    }
    if i :| && 0 <= i < |history| && NotRecoveredSince(history, i) && NotPrunedSince(history, i)
            && id in history[i].ids && SatSub(t, history[i].now) < SELF_CREATED_TTL_MS
    {
      assert Holds(history, i, Made(id, history[i].now));
      FileHolds(history, Made(id, history[i].now));
    }
  }

  /** Under a clock that never runs backwards pruning is invisible: an id is shielded for
      five seconds after any restore that made it, unless a recovery pass comes first. */
  lemma PruningIsInvisible(history: seq<Change>, id: Id, t: nat)
    requires forall i, j | 0 <= i < j < |history| && history[i].Recorded? && history[j].Recorded? ::
               history[i].now <= history[j].now
    requires forall i | 0 <= i < |history| && history[i].Recorded? :: history[i].now <= t
    ensures IsSelfCreated(FileAfter(history), id, t) <==>
            exists i | 0 <= i < |history| ::
              NotRecoveredSince(history, i) && id in history[i].ids && t < history[i].now + SELF_CREATED_TTL_MS
  {
    ShieldedExactlyWhen(history, id, t);
    if i :| && 0 <= i < |history| && NotRecoveredSince(history, i)
            && id in history[i].ids && t < history[i].now + SELF_CREATED_TTL_MS
    {
      assert NotPrunedSince(history, i);
    }
  }

  /** A recovery pass forgets everything before it: only restores after it shield. */
  lemma {:induction false} RecoveryForgets(before: seq<Change>, after: seq<Change>)
    ensures FileAfter(before + [Recovered] + after) == FileAfter(after)
    decreases |after|
  {
    var history := before + [Recovered] + after;
    var n := |history| - 1;
    if after == [] {
      assert history[n] == Recovered;
    } else {
      RecoveryForgets(before, after[..|after| - 1]);
      assert history[..n] == before + [Recovered] + after[..|after| - 1];
      assert history[n] == after[|after| - 1];
    }
  }
}
