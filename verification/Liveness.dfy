/** The ping/pong heartbeat of a peer link, over everything that can happen to it. */
module Liveness {
  const MAX_MISSES := 3

  /** `running` is whether the interval is set; `pending` are the tokens of pings not yet answered. */
  datatype State = State(running: bool, missed: nat, pending: set<string>, hasPonged: bool)

  /** `Tick` carries the fresh token and whether the send went through. */
  datatype Event = Tick(corr: string, sent: bool) | Pong(corr: string) | Stop

  datatype Signal = Miss(missed: nat) | Dead(missed: nat) | Recover

  const STARTED := State(true, 0, {}, false)

  function Stopped(s: State): State { s.(running := false, pending := {}) }

  function Step(s: State, e: Event): (State, seq<Signal>) {
    match e
    case Stop => (Stopped(s), [])
    case Pong(corr) =>
      if corr !in s.pending then (s, [])
      else (s.(pending := s.pending - {corr}, missed := 0, hasPonged := true), if s.missed > 0 then [Recover] else [])
    case Tick(corr, sent) =>
      if !s.running then (s, [])
      else
        var unanswered := s.pending != {};
        var missed := if unanswered then s.missed + 1 else s.missed;
        if unanswered && s.hasPonged &&
            missed >= MAX_MISSES then (Stopped(s.(missed := missed)), [Miss(missed), Dead(missed)])
        else (s.(missed := missed, pending := if sent then {corr} else {}), if unanswered then [Miss(missed)] else [])
  }

  function After(events: seq<Event>): State {
    if events == [] then STARTED else Step(After(events[..|events| - 1]), events[|events| - 1]).0
  }

  function Signals(events: seq<Event>): seq<Signal> {
    if events == [] then []
    else Signals(events[..|events| - 1]) + Step(After(events[..|events| - 1]), events[|events| - 1]).1
  }

  // ── What the counter is to mean, read off the events alone ───────────────────

  /** Before event `i`, the ping of the latest tick went out with token `corr` and has not been answered. */
  ghost predicate Awaiting(events: seq<Event>, i: int, corr: string) {
    exists t | 0 <= t < i <= |events| :: events[t] == Tick(corr, true) && forall k | t < k < i ::
        !events[k].Tick? && events[k] != Pong(corr)
  }

  /** A tick that finds the ping of the tick before it unanswered. */
  ghost predicate Unanswered(events: seq<Event>, j: int) {
    0 <= j < |events| && events[j].Tick? && exists corr :: Awaiting(events, j, corr)
  }

  ghost predicate Matched(events: seq<Event>, k: int) {
    0 <= k < |events| && events[k].Pong? && Awaiting(events, k, events[k].corr)
  }

  /** The ticks since the last matched pong, or since the start, that found a ping unanswered. */
  ghost function Misses(events: seq<Event>): set<int> {
    set j | 0 <= j < |events| && Unanswered(events, j) && forall k | j < k < |events| :: !Matched(events, k)
  }

  ghost predicate EverMatched(events: seq<Event>) { exists k :: Matched(events, k) }

  lemma AwaitingLonger(events: seq<Event>, e: Event, i: int, corr: string)
    requires i <= |events|
    ensures Awaiting(events + [e], i, corr) <==> Awaiting(events, i, corr)
  {
    var all := events + [e];
    if Awaiting(all, i, corr) {
      var t :| 0 <= t < i <= |all| && all[t] == Tick(corr, true) && forall k | t < k < i ::
          !all[k].Tick? && all[k] != Pong(corr);
      assert events[t] == Tick(corr, true);
      assert forall k | t < k < i :: events[k] == all[k];
    }
    if Awaiting(events, i, corr) {
      var t :| 0 <= t < i <= |events| && events[t] == Tick(corr, true) && forall k | t < k < i ::
          !events[k].Tick? && events[k] != Pong(corr);
      assert all[t] == Tick(corr, true);
      assert forall k | t < k < i :: events[k] == all[k];
    }
  }

  lemma AwaitingNext(events: seq<Event>, e: Event, corr: string)
    ensures Awaiting(events + [e], |events| + 1, corr) <==>
            e == Tick(corr, true) || (!e.Tick? && e != Pong(corr) && Awaiting(events, |events|, corr))
  {
    var all, n := events + [e], |events|;
    if Awaiting(all, n + 1, corr) {
      var t :| 0 <= t < n + 1 && all[t] == Tick(corr, true) && forall k | t < k < n + 1 ::
          !all[k].Tick? && all[k] != Pong(corr);
      if t < n {
        assert all[n] == e;
        assert events[t] == Tick(corr, true);
        assert forall k | t < k < n :: events[k] == all[k];
      }
    }
    if e == Tick(corr, true) { assert all[n] == Tick(corr, true); }
    if !e.Tick? && e != Pong(corr) && Awaiting(events, n, corr) {
      var t :| 0 <= t < n && events[t] == Tick(corr, true) && forall k | t < k < n ::
          !events[k].Tick? && events[k] != Pong(corr);
      assert all[t] == Tick(corr, true);
      assert forall k | t < k < n + 1 :: all[k] == if k < n then events[k] else e;
    }
  }

  lemma MissesNext(events: seq<Event>, e: Event)
    ensures var n := |events|;
      Misses(events + [e]) ==
        if e.Pong? && Awaiting(events, n, e.corr) then {}
        else if e.Tick? && exists corr :: Awaiting(events, n, corr) then Misses(events) + {n}
        else Misses(events)
    ensures EverMatched(events + [e]) <==> EverMatched(events) || (e.Pong? && Awaiting(events, |events|, e.corr))
  {
    hide Awaiting;
    var all, n := events + [e], |events|;
    forall i, corr | i <= n ensures Awaiting(all, i, corr) <==> Awaiting(events, i, corr) {
      AwaitingLonger(events, e, i, corr);
    }
    assert forall i | 0 <= i < n :: all[i] == events[i];
    forall k | 0 <= k < n ensures Matched(all, k) <==> Matched(events, k) {}
    forall k | 0 <= k < n ensures Unanswered(all, k) <==> Unanswered(events, k) {}
    assert Matched(all, n) <==> e.Pong? && Awaiting(events, n, e.corr);
    assert Unanswered(all, n) <==> e.Tick? && exists corr :: Awaiting(events, n, corr);
    if EverMatched(events) { var k :| Matched(events, k); assert Matched(all, k); }
    if EverMatched(all) { var k :| Matched(all, k); assert k < n ==> Matched(events, k); }
  }

  /** While it runs the counter is exact: it counts the unanswered windows since the last
      matched pong, at most one ping is pending, and a peer that ever answered is below the limit. */
  ghost predicate Exact(events: seq<Event>, s: State) {
    && (forall corr :: corr in s.pending <==> Awaiting(events, |events|, corr))
    && |s.pending| <= 1
    && s.missed == |Misses(events)|
    && (s.hasPonged <==> EverMatched(events))
    && (s.hasPonged ==> s.missed < MAX_MISSES)
  }

  lemma CardinalityOfSubset(a: set<string>, b: set<string>)
    requires a <= b
    ensures |a| <= |b|
  {
    assert b == a + (b - a);
  }

  lemma OneElement(s: set<string>, x: string)
    requires |s| <= 1 && x in s
    ensures s == {x}
  {
    if y :| y in s && y != x { assert {x, y} <= s; CardinalityOfSubset({x, y}, s); }
  }

  lemma PendingNext(events: seq<Event>, s: State, e: Event)
    requires s.running && Step(s, e).0.running
    requires (forall corr :: corr in s.pending <==> Awaiting(events, |events|, corr)) && |s.pending| <= 1
    ensures var t := Step(s, e).0;
      (forall corr :: corr in t.pending <==> Awaiting(events + [e], |events + [e]|, corr)) && |t.pending| <= 1
  {
    hide Awaiting;
    var t := Step(s, e).0;
    forall corr ensures corr in t.pending <==> Awaiting(events + [e], |events + [e]|, corr) {
      AwaitingNext(events, e, corr);
    }
    if e.Pong? && e.corr in s.pending { OneElement(s.pending, e.corr); }
  }

  lemma MissesBelow(events: seq<Event>)
    ensures |events| !in Misses(events)
  {
  }

  lemma PendingIsAwaiting(events: seq<Event>, s: State)
    requires forall corr :: corr in s.pending <==> Awaiting(events, |events|, corr)
    ensures s.pending != {} <==> exists corr :: Awaiting(events, |events|, corr)
  {
    if s.pending != {} { var corr :| corr in s.pending; }
  }

  lemma CounterNext(events: seq<Event>, s: State, e: Event)
    requires s.running && Step(s, e).0.running && Exact(events, s)
    ensures var t := Step(s, e).0;
      && t.missed == |Misses(events + [e])|
      && (t.hasPonged <==> EverMatched(events + [e]))
      && (t.hasPonged ==> t.missed < MAX_MISSES)
  {
    hide Awaiting, Misses, EverMatched;
    MissesNext(events, e);
    MissesBelow(events);
    PendingIsAwaiting(events, s);
  }

  lemma RunningBefore(s: State, e: Event)
    requires Step(s, e).0.running
    ensures s.running
  {
  }

  lemma {:induction false} CounterIsExact(events: seq<Event>)
    requires After(events).running
    ensures Exact(events, After(events))
  {
    if events == [] {
      assert Misses(events) == {};
    } else {
      hide Awaiting, Misses, EverMatched, Step;
      var n := |events| - 1;
      assert events == events[..n] + [events[n]];
      RunningBefore(After(events[..n]), events[n]);
      CounterIsExact(events[..n]);
      PendingNext(events[..n], After(events[..n]), events[n]);
      CounterNext(events[..n], After(events[..n]), events[n]);
    }
  }

  // ── Who is declared dead, and when ───────────────────────────────────────────

  function Deaths(signals: seq<Signal>): nat {
    if signals == [] then 0
    else Deaths(signals[..|signals| - 1]) + if signals[|signals| - 1].Dead? then 1 else 0
  }

  lemma {:induction false} DeathsAppend(a: seq<Signal>, b: seq<Signal>)
    ensures Deaths(a + b) == Deaths(a) + Deaths(b)
  {
    if b == [] { assert a + b == a; }
    else {
      assert (a + b)[..|a + b| - 1] == a + b[..|b| - 1];
      DeathsAppend(a, b[..|b| - 1]);
    }
  }

  lemma DeathsOfNone()
    ensures Deaths([]) == 0
  {
  }

  lemma DeathsOfOne(a: Signal)
    ensures Deaths([a]) == if a.Dead? then 1 else 0
  {
    var s := [a];
    assert s[..0] == [];
    assert Deaths(s) == Deaths(s[..0]) + if s[0].Dead? then 1 else 0;
  }

  lemma DeathsOfTwo(a: Signal, b: Signal)
    ensures Deaths([a, b]) == (if a.Dead? then 1 else 0) + if b.Dead? then 1 else 0
  {
    var s := [a, b];
    assert s[..1] == [a];
    DeathsOfOne(a);
    assert Deaths(s) == Deaths(s[..1]) + if s[1].Dead? then 1 else 0;
  }

  lemma StepDeaths(s: State, e: Event)
    ensures Deaths(Step(s, e).1) == if s.running && !Step(s, e).0.running && e != Stop then 1 else 0
    ensures !s.running ==> !Step(s, e).0.running
  {
    hide Deaths;
    var signals := Step(s, e).1;
    DeathsOfNone();
    if |signals| == 1 {
      DeathsOfOne(signals[0]);
      assert signals == [signals[0]];
    } else if |signals| == 2 {
      DeathsOfTwo(signals[0], signals[1]);
      assert signals == [signals[0], signals[1]];
    }
  }

  /** A link is declared dead at most once, and never while its heartbeat still runs. */
  lemma {:induction false} DeadAtMostOnce(events: seq<Event>)
    ensures Deaths(Signals(events)) <= 1
    ensures After(events).running ==> Deaths(Signals(events)) == 0
  {
    if events != [] {
      hide Step, Deaths;
      var n := |events| - 1;
      DeadAtMostOnce(events[..n]);
      DeathsAppend(Signals(events[..n]), Step(After(events[..n]), events[n]).1);
      StepDeaths(After(events[..n]), events[n]);
    } else {
      assert Deaths([]) == 0;
    }
  }

  /** Exactly when: the tick that finds a ping unanswered for the third time since the last
      matched pong of a peer that has answered before. */
  lemma {:induction false} DeadExactlyWhen(events: seq<Event>, e: Event)
    requires After(events).running
    ensures Deaths(Step(After(events), e).1) == 1 <==>
            e.Tick? && EverMatched(events) && (exists corr ::
                Awaiting(events, |events|, corr)) && |Misses(events)| == MAX_MISSES - 1
  {
    hide Awaiting, Misses, EverMatched, Deaths;
    CounterIsExact(events);
    PendingIsAwaiting(events, After(events));
    StepDeaths(After(events), e);
  }

  /** A miss is reported exactly at a tick that finds a ping unanswered, with the count it
      makes; a recovery exactly at a matched pong after misses. */
  lemma {:induction false} SignalsExactlyWhen(events: seq<Event>, e: Event, count: nat)
    requires After(events).running
    ensures Miss(count) in Step(After(events), e).1 <==>
            e.Tick? && (exists corr :: Awaiting(events, |events|, corr)) && count == |Misses(events)| + 1
    ensures Recover in Step(After(events), e).1 <==>
            e.Pong? && Awaiting(events, |events|, e.corr) && Misses(events) != {}
  {
    hide Awaiting, Misses, EverMatched;
    CounterIsExact(events);
    PendingIsAwaiting(events, After(events));
  }

  lemma NothingEarlier(before: seq<Event>, e: Event)
    ensures forall j | Unanswered(before, j) :: Unanswered(before + [e], j)
    ensures forall k | Matched(before, k) :: Matched(before + [e], k)
    ensures (forall k :: !Matched(before + [e], k)) ==> !EverMatched(before)
  {
    hide Awaiting;
    var all := before + [e];
    forall i, corr | i <= |before| ensures Awaiting(all, i, corr) <==> Awaiting(before, i, corr) {
      AwaitingLonger(before, e, i, corr);
    }
    assert forall i | 0 <= i < |before| :: all[i] == before[i];
    forall j | Unanswered(before, j) ensures Unanswered(all, j) {
      var corr :| Awaiting(before, j, corr);
      assert Awaiting(all, j, corr);
    }
    forall k | Matched(before, k) ensures Matched(all, k) {}
    if EverMatched(before) { var k :| Matched(before, k); assert Matched(all, k); }
  }

  lemma {:induction false} StoppedIsIdle(events: seq<Event>)
    ensures After(events).running || After(events).pending == {}
  {
    if events == [] {
    } else {
      StoppedIsIdle(events[..|events| - 1]);
    }
  }

  lemma IdleStep(s: State, e: Event)
    requires !s.running && s.pending == {}
    ensures Step(s, e) == (s, [])
  {
  }

  lemma {:induction false} StopEnds(events: seq<Event>)
    requires Stop in events
    ensures !After(events).running
  {
    var n := |events| - 1;
    assert events == events[..n] + [events[n]];
    if events[n] != Stop { StopEnds(events[..n]); }
  }

  /** A heartbeat runs until it is stopped or its peer is declared dead; after that nothing that
      happens, a late pong above all, starts it again or raises a signal. */
  lemma {:induction false} SilentOnceStopped(events: seq<Event>, more: seq<Event>)
    requires Stop in events || !After(events).running
    ensures After(events + more) == After(events) && Signals(events + more) == Signals(events)
    ensures !After(events).running
  {
    if Stop in events { StopEnds(events); }
    if more == [] {
      assert events + more == events;
    } else {
      hide Step;
      var n := |more| - 1;
      var all := events + more;
      assert all[..|all| - 1] == events + more[..n] && all[|all| - 1] == more[n];
      SilentOnceStopped(events, more[..n]);
      StoppedIsIdle(events);
      IdleStep(After(events), more[n]);
    }
  }

  /** A peer that answers every ping before the next tick, or that never answered at all,
      is never declared dead: only `Stop` ends its heartbeat. */
  lemma {:induction false} NeverDead(events: seq<Event>)
    requires forall i | 0 <= i < |events| :: events[i] != Stop
    requires (forall j :: !Unanswered(events, j)) || (forall k :: !Matched(events, k))
    ensures After(events).running && Deaths(Signals(events)) == 0
  {
    if events != [] {
      hide Awaiting, Step, Deaths;
      var n := |events| - 1;
      var before, e := events[..n], events[n];
      assert events == before + [e];
      NothingEarlier(before, e);
      NeverDead(before);
      DeathsAppend(Signals(before), Step(After(before), e).1);
      DeadExactlyWhen(before, e);
      StepDeaths(After(before), e);
      if exists corr :: Awaiting(before, n, corr) {
        var corr :| Awaiting(before, n, corr);
        AwaitingLonger(before, e, n, corr);
        assert e.Tick? ==> Unanswered(events, n);
      }
    } else {
      assert Deaths([]) == 0;
    }
  }

  /** Silence: pings go out, and no pong carries a token of one of them. */
  ghost predicate Silent(events: seq<Event>) {
    forall i | 0 <= i < |events| ::
      match events[i]
      case Tick(_, sent) => sent
      case Pong(corr) => forall t | 0 <= t < |events| :: events[t] != Tick(corr, true)
      case Stop => false
  }

  function Ticks(events: seq<Event>): nat {
    if events == [] then 0 else Ticks(events[..|events| - 1]) + if events[|events| - 1].Tick? then 1 else 0
  }

  /** The heartbeat of a peer that has been silent since its last matched pong. */
  ghost predicate Silenced(s: State, silence: seq<Event>) {
    && (s.running <==> Ticks(silence) < 4)
    && (s.running ==>
          && s.hasPonged && s.missed == (if Ticks(silence) == 0 then 0 else Ticks(silence) - 1)
          && (s.pending != {} <==> Ticks(silence) > 0)
          && forall corr | corr in s.pending :: exists t | 0 <= t < |silence| :: silence[t] == Tick(corr, true))
  }

  lemma SilencedNext(s: State, rest: seq<Event>, e: Event)
    requires Silenced(s, rest) && Silent(rest + [e])
    ensures Silenced(Step(s, e).0, rest + [e])
    ensures Ticks(rest + [e]) == Ticks(rest) + if e.Tick? then 1 else 0
  {
    var silence, n := rest + [e], |rest|;
    assert silence[..n] == rest && silence[n] == e;
    assert forall t | 0 <= t < n :: silence[t] == rest[t];
    if s.running {
      forall corr | corr in s.pending ensures exists t | 0 <= t < |silence| :: silence[t] == Tick(corr, true) {
        var t :| 0 <= t < n && rest[t] == Tick(corr, true);
        assert silence[t] == Tick(corr, true);
      }
    }
  }

  lemma SilencedRuns(s: State, silence: seq<Event>)
    requires Silenced(s, silence)
    ensures s.running <==> Ticks(silence) < 4
  {
  }

  lemma SilentPrefix(rest: seq<Event>, e: Event)
    requires Silent(rest + [e])
    ensures Silent(rest) && e != Stop
  {
    var all := rest + [e];
    assert forall i | 0 <= i < |rest| :: all[i] == rest[i];
    assert all[|rest|] == e;
  }

  /** A matched pong starts the count afresh. */
  lemma {:induction false} SilenceStarts(before: seq<Event>, pong: Event)
    requires After(before).running && pong.Pong? && pong.corr in After(before).pending
    ensures Silenced(After(before + [pong]), []) && Deaths(Signals(before + [pong])) == 0
  {
    hide Deaths;
    var start := before + [pong];
    assert start[..|before|] == before;
    CounterIsExact(before);
    OneElement(After(before).pending, pong.corr);
    DeadAtMostOnce(start);
  }

  /** One more event of the silence. */
  lemma {:induction false} SilenceGoesOn(start: seq<Event>, rest: seq<Event>, e: Event)
    requires Silenced(After(start + rest), rest) && Silent(rest + [e])
    ensures Silenced(After(start + rest + [e]), rest + [e])
    ensures Deaths(Signals(start + rest + [e])) ==
            Deaths(Signals(start + rest)) + if Ticks(rest) < 4 <= Ticks(rest + [e]) then 1 else 0
  {
    hide Step, Silenced, Silent, Deaths, Ticks;
    var so, all := start + rest, start + rest + [e];
    assert all[..|so|] == so && all[|so|] == e;
    SilentPrefix(rest, e);
    SilencedNext(After(so), rest, e);
    SilencedRuns(After(so), rest);
    SilencedRuns(After(all), rest + [e]);
    DeathsAppend(Signals(so), Step(After(so), e).1);
    StepDeaths(After(so), e);
  }

  /** From a matched pong on, silence is noticed at the fourth tick, not earlier, and reported once. */
  lemma {:induction false} SilenceIsDeathAtFourthTick(before: seq<Event>, pong: Event, silence: seq<Event>)
    requires After(before).running && pong.Pong? && pong.corr in After(before).pending && Silent(silence)
    ensures Silenced(After(before + [pong] + silence), silence)
    ensures Deaths(Signals(before + [pong] + silence)) == if Ticks(silence) < 4 then 0 else 1
  {
    hide Deaths, Silent, Silenced, After, Signals;
    var start := before + [pong];
    if silence == [] {
      assert start + silence == start;
      SilenceStarts(before, pong);
    } else {
      var n := |silence| - 1;
      var rest, e := silence[..n], silence[n];
      assert start + silence == start + rest + [e] && silence == rest + [e];
      SilentPrefix(rest, e);
      SilenceIsDeathAtFourthTick(before, pong, rest);
      SilenceGoesOn(start, rest, e);
    }
  }
}
