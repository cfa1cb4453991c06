/** What the five-second guard of `push_event` does to a real sequence of hooks: closes that
    keep arriving within the window of each other, each hook with its own token and its own
    freeze, none of them getting to finalise in between. */
module Chains {
  import opened Prelude
  import opened Model
  import opened Bursts
  import opened Protocol
  import opened Runs

  /** One close hook. */
  datatype Close = Close(token: Token, ev: BurstEvent, frozen: seq<WorkspaceSnap>, now: nat)

  function PushOf(c: Close): Step {
    HookPush(c.token, c.ev, c.frozen, c.now)
  }

  function Pushes(cs: seq<Close>): seq<Step> {
    if cs == [] then [] else Pushes(cs[..|cs| - 1]) + [PushOf(cs[|cs| - 1])]
  }

  function Events(cs: seq<Close>): seq<BurstEvent> {
    if cs == [] then [] else Events(cs[..|cs| - 1]) + [cs[|cs| - 1].ev]
  }

  function Tokens(cs: seq<Close>): set<Token> {
    if cs == [] then {} else Tokens(cs[..|cs| - 1]) + {cs[|cs| - 1].token}
  }

  /** The first time stamp of the chain. */
  function Start(cs: seq<Close>): nat
    requires cs != []
  {
    cs[0].ev.t0
  }

  /** Hooks with tokens of their own; each close is within 250 ms of the latest before it and
      within five seconds of the first. */
  predicate Unbroken(cs: seq<Close>)
    requires cs != []
  {
    var n := |cs| - 1;
    && Start(cs) > 0
    && IsCloseEvent(cs[n].ev.name)
    && (n > 0 ==>
          && Unbroken(cs[..n]) && cs[n].token !in Tokens(cs[..n])
          && cs[n].ev.t0 <= MaxT0(Events(cs[..n])) + BURST_WINDOW_MS
          && cs[n].ev.t0 <= Start(cs) + BURST_STALE_MS)
  }

  /** All closes of the chain are pending. */
  predicate PendingIs(p: Option<Burst>, cs: seq<Close>)
    requires cs != []
  {
    && p.Some?
    && p.value.events == Events(cs)
    && p.value.firstMs == Start(cs)
    && p.value.lastMs == MaxT0(Events(cs))
  }

  /** And nothing else has happened. */
  predicate Pends(s: System, cs: seq<Close>)
    requires cs != []
  {
    && PendingIs(s.capture.pending, cs)
    && s.capture.hooks.Keys == Tokens(cs)
    && s.capture.finalised == [] && s.capture.dropped == []
    && s.undo == Initial.undo
  }

  lemma EventsSnoc(cs: seq<Close>, c: Close)
    ensures Pushes(cs + [c]) == Pushes(cs) + [PushOf(c)] && Events(cs + [c]) == Events(cs) + [c.ev]
    ensures Tokens(cs + [c]) == Tokens(cs) + {c.token}
    ensures MaxT0(Events(cs + [c])) == Max(MaxT0(Events(cs)), c.ev.t0)
  {
    assert (cs + [c])[..|cs|] == cs;
    assert (Events(cs) + [c.ev])[..|Events(cs)|] == Events(cs);
  }

  lemma FirstPends(cfg: Config, c: Close)
    requires c.ev.t0 > 0 && IsCloseEvent(c.ev.name)
    ensures Pends(Next(cfg, Initial, PushOf(c)), [c])
  {
    EventsSnoc([], c);
    assert [] + [c] == [c] && Events([c]) == [c.ev] && Events([]) == [];
  }

  /** A push that joins leaves everything but the pending burst and the hooks alone. */
  lemma JoiningPush(cfg: Config, s: System, c: Close)
    requires Enabled(s, PushOf(c)) && s.capture.pending.Some?
    requires FateOf(s.capture.pending.value, c.ev.t0) == Joins
    ensures
      var t := Next(cfg, s, PushOf(c));
      && t.capture.pending == Some(Join(s.capture.pending.value, c.ev, c.token, c.frozen))
      && t.capture.hooks == s.capture.hooks[c.token := Sleeping]
      && t.capture.finalised == s.capture.finalised && t.capture.dropped == s.capture.dropped
      && t.undo == s.undo
  {
  }

  lemma JoinsChain(p: Option<Burst>, cs: seq<Close>, c: Close)
    requires cs != [] && PendingIs(p, cs) && Start(cs) > 0
    requires c.ev.t0 <= MaxT0(Events(cs)) + BURST_WINDOW_MS && c.ev.t0 <= Start(cs) + BURST_STALE_MS
    ensures FateOf(p.value, c.ev.t0) == Joins
    ensures PendingIs(Some(Join(p.value, c.ev, c.token, c.frozen)), cs + [c])
  {
    EventsSnoc(cs, c);
    assert (cs + [c])[0] == cs[0];
  }

  lemma TokensAdd(hooks: map<Token, Phase>, cs: seq<Close>, c: Close)
    requires hooks.Keys == Tokens(cs)
    ensures hooks[c.token := Sleeping].Keys == Tokens(cs + [c])
  {
    EventsSnoc(cs, c);
  }

  lemma ExtendRun(cfg: Config, cs: seq<Close>, c: Close)
    requires ValidRun(cfg, Initial, Pushes(cs)) && Enabled(Exec(cfg, Initial, Pushes(cs)), PushOf(c))
    ensures ValidRun(cfg, Initial, Pushes(cs + [c]))
    ensures Exec(cfg, Initial, Pushes(cs + [c])) == Next(cfg, Exec(cfg, Initial, Pushes(cs)), PushOf(c))
  {
    EventsSnoc(cs, c);
    OneStep(cfg, Exec(cfg, Initial, Pushes(cs)), PushOf(c));
    RunsCompose(cfg, Initial, Pushes(cs), [PushOf(c)]);
  }

  lemma {:induction false} ChainPends(cfg: Config, cs: seq<Close>)
    requires cs != [] && Unbroken(cs)
    ensures ValidRun(cfg, Initial, Pushes(cs)) && Pends(Exec(cfg, Initial, Pushes(cs)), cs)
  {
    var n := |cs| - 1;
    var before, last := cs[..n], cs[n];
    assert cs == before + [last];
    if n == 0 {
      assert cs == [last] && before == [] && Pushes(before) == [];
      assert ValidRun(cfg, Initial, []);
      FirstPends(cfg, last);
    } else {
      ChainPends(cfg, before);
      var s := Exec(cfg, Initial, Pushes(before));
      JoinsChain(s.capture.pending, before, last);
      TokensAdd(s.capture.hooks, before, last);
      JoiningPush(cfg, s, last);
    }
    ExtendRun(cfg, before, last);
  }

  /** A push that finds the burst stale throws it away and finalises nothing. */
  lemma DroppingPush(cfg: Config, s: System, c: Close)
    requires Enabled(s, PushOf(c)) && s.capture.pending.Some?
    requires FateOf(s.capture.pending.value, c.ev.t0) == GoesStale
    ensures
      var t := Next(cfg, s, PushOf(c));
      && t.capture.pending.Some? && t.capture.pending.value.events == [c.ev]
      && t.capture.finalised == s.capture.finalised
      && t.capture.dropped == s.capture.dropped + [s.capture.pending.value]
      && t.undo == s.undo
  {
    assert [] + [c.ev] == [c.ev];
  }

  lemma StaleChain(p: Option<Burst>, cs: seq<Close>, last: Close)
    requires cs != [] && PendingIs(p, cs)
    requires last.ev.t0 <= MaxT0(Events(cs)) + BURST_WINDOW_MS && Start(cs) + BURST_STALE_MS < last.ev.t0
    ensures FateOf(p.value, last.ev.t0) == GoesStale
  {
  }

  /** The chain is lost. Its hooks and the one after them are a run of the protocol like any
      other; the close that comes more than five seconds after the first, still inside the
      window, leaves every earlier close in a dropped burst, with no entry made for any. */
  lemma ChainIsDropped(cfg: Config, cs: seq<Close>, last: Close)
    requires cs != [] && Unbroken(cs) && IsCloseEvent(last.ev.name) && last.token !in Tokens(cs)
    requires last.ev.t0 <= MaxT0(Events(cs)) + BURST_WINDOW_MS && Start(cs) + BURST_STALE_MS < last.ev.t0
    ensures ValidRun(cfg, Initial, Pushes(cs + [last]))
    ensures
      var s := Exec(cfg, Initial, Pushes(cs + [last]));
      && |s.capture.dropped| == 1 && s.capture.dropped[0].events == Events(cs)
      && s.capture.finalised == [] && s.undo == Initial.undo
      && s.capture.pending.Some? && s.capture.pending.value.events == [last.ev]
  {
    ChainPends(cfg, cs);
    var s := Exec(cfg, Initial, Pushes(cs));
    ExtendRun(cfg, cs, last);
    StaleChain(s.capture.pending, cs, last);
    DroppingPush(cfg, s, last);
  }

  // ---------------------------------------------------------------- closes at a steady pace

  predicate Steady(cs: seq<Close>, start: nat, gap: nat) {
    forall i | 0 <= i < |cs| :: cs[i].ev.t0 == start + i * gap
  }

  lemma {:induction false} SteadyMax(cs: seq<Close>, start: nat, gap: nat)
    requires cs != [] && Steady(cs, start, gap)
    ensures MaxT0(Events(cs)) == start + (|cs| - 1) * gap
  {
    var n := |cs| - 1;
    var before := cs[..n];
    assert cs == before + [cs[n]];
    EventsSnoc(before, cs[n]);
    var here := n * gap;
    assert cs[n].ev.t0 == start + here;
    if n > 0 {
      assert Steady(before, start, gap);
      SteadyMax(before, start, gap);
      OneGapMore(n, gap);
    } else {
      assert Events(before) == [] && here == 0;
    }
  }

  lemma OneGapMore(n: nat, gap: nat)
    requires n > 0
    ensures n * gap == (n - 1) * gap + gap
  {
  }

  lemma {:induction false} TokenIsNew(cs: seq<Close>, t: Token)
    requires forall i | 0 <= i < |cs| :: cs[i].token != t
    ensures t !in Tokens(cs)
  {
    if cs != [] { TokenIsNew(cs[..|cs| - 1], t); }
  }

  lemma {:induction false} SteadyIsUnbroken(cs: seq<Close>, start: nat, gap: nat)
    requires cs != [] && start > 0 && gap <= BURST_WINDOW_MS && Steady(cs, start, gap)
    requires (|cs| - 1) * gap <= BURST_STALE_MS
    requires forall i, j | 0 <= i < j < |cs| :: cs[i].token != cs[j].token
    requires forall i | 0 <= i < |cs| :: IsCloseEvent(cs[i].ev.name)
    ensures Unbroken(cs)
  {
    var n := |cs| - 1;
    if n > 0 {
      var before := cs[..n];
      OneGapMore(n, gap);
      SteadyIsUnbroken(before, start, gap);
      TokenIsNew(before, cs[n].token);
      SteadyMax(before, start, gap);
      assert cs[0].ev.t0 == start + 0 * gap;
    }
  }

  /** At any pace up to the window, with `n` the number of closes that fit into five seconds:
      the close after them throws all `n` away. */
  lemma SteadyChainIsDropped(cfg: Config, cs: seq<Close>, last: Close, start: nat, gap: nat)
    requires cs != [] && start > 0 && gap <= BURST_WINDOW_MS && Steady(cs + [last], start, gap)
    requires (|cs| - 1) * gap <= BURST_STALE_MS < |cs| * gap
    requires forall i, j | 0 <= i < j < |cs + [last]| :: (cs + [last])[i].token != (cs + [last])[j].token
    requires forall i | 0 <= i < |cs + [last]| :: IsCloseEvent((cs + [last])[i].ev.name)
    ensures ValidRun(cfg, Initial, Pushes(cs + [last]))
    ensures
      var s := Exec(cfg, Initial, Pushes(cs + [last]));
      && |s.capture.dropped| == 1 && s.capture.dropped[0].events == Events(cs) && |Events(cs)| == |cs|
      && s.capture.finalised == [] && s.undo == Initial.undo
  {
    var all, n := cs + [last], |cs|;
    assert forall i | 0 <= i < n :: cs[i] == all[i];
    assert all[n] == last && cs[0].ev.t0 == start + 0 * gap;
    SteadyIsUnbroken(cs, start, gap);
    SteadyMax(cs, start, gap);
    OneGapMore(n, gap);
    EventCount(cs);
    TokenIsNew(cs, last.token);
    ChainIsDropped(cfg, cs, last);
  }

  lemma EventCount(cs: seq<Close>)
    ensures |Events(cs)| == |cs|
  {
  }
}
