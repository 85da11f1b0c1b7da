/** What the caller of a fan-out redeem gets, read off the order of arrival alone. */
module FanOutSafety {
  import opened Results
  import opened FanOut

  function ResponseOf(e: Event): Response
    requires !e.Timer?
  {
    if e.Answer? then e.response else LOST
  }

  /** The code a peer sent; a disconnect says that it is gone. */
  ghost function CodeHeard(e: Event): Option<Code>
    requires !e.Timer?
  {
    if e.Answer? then e.response.code else Some(AgentDisconnected)
  }

  /** The first that is heard of an asked peer; anything later of the same peer is ignored. */
  ghost predicate Counts(asked: set<nat>, events: seq<Event>, i: int) {
    && 0 <= i < |events| && !events[i].Timer? && events[i].link in asked
    && forall k | 0 <= k < i && !events[k].Timer? :: events[k].link != events[i].link
  }

  ghost predicate Succeeds(asked: set<nat>, events: seq<Event>, i: int) {
    Counts(asked, events, i) && ResponseOf(events[i]).ok
  }

  ghost predicate Fails(asked: set<nat>, events: seq<Event>, i: int) {
    Counts(asked, events, i) && !ResponseOf(events[i]).ok
  }

  ghost function Failures(asked: set<nat>, events: seq<Event>): set<int> {
    set i | 0 <= i < |events| && Fails(asked, events, i)
  }

  ghost predicate Spoke(events: seq<Event>, link: nat) {
    exists i :: 0 <= i < |events| && !events[i].Timer? && events[i].link == link
  }

  ghost predicate AllFailed(asked: set<nat>, events: seq<Event>) {
    (forall l | l in asked :: Spoke(events, l)) && forall i :: !Succeeds(asked, events, i)
  }

  ghost predicate Rang(events: seq<Event>) { Timer in events }

  ghost predicate AnySuccess(asked: set<nat>, events: seq<Event>) { exists i :: Succeeds(asked, events, i) }

  /** The code the caller gets for a failure a peer sent. */
  function CodeOf(r: Response): Code { CodeOr(r.code, Internal) }

  /** The terminal failure that arrived first. */
  ghost predicate Decisive(asked: set<nat>, events: seq<Event>, i: int) {
    && Counts(asked, events, i) && Terminal(ResponseOf(events[i]))
    && forall k | 0 <= k < i && Counts(asked, events, k) :: !Terminal(ResponseOf(events[k]))
  }

  lemma CountsLonger(asked: set<nat>, events: seq<Event>, e: Event, i: int)
    requires i < |events|
    ensures Counts(asked, events + [e], i) <==> Counts(asked, events, i)
    ensures 0 <= i ==> (events + [e])[i] == events[i]
  {
    assert forall k | 0 <= k < |events| :: (events + [e])[k] == events[k];
  }

  lemma CountsLast(asked: set<nat>, events: seq<Event>, e: Event)
    ensures Counts(asked, events + [e], |events|) <==> !e.Timer? && e.link in asked && !Spoke(events, e.link)
  {
    var all, n := events + [e], |events|;
    assert all[n] == e;
    assert forall k | 0 <= k < n :: all[k] == events[k];
    if !e.Timer? && Spoke(events, e.link) {
      var k :| 0 <= k < n && !events[k].Timer? && events[k].link == e.link;
      assert all[k] == events[k];
    }
  }

  lemma SpokeNext(events: seq<Event>, e: Event, link: nat)
    ensures Spoke(events + [e], link) <==> Spoke(events, link) || (!e.Timer? && e.link == link)
  {
    var all, n := events + [e], |events|;
    if Spoke(events, link) {
      var i :| 0 <= i < n && !events[i].Timer? && events[i].link == link;
      assert all[i] == events[i];
    }
    assert all[n] == e;
  }

  lemma OnlyInside(asked: set<nat>, events: seq<Event>)
    ensures forall i | Counts(asked, events, i) :: 0 <= i < |events| && !events[i].Timer?
  {
  }

  lemma FailuresNext(asked: set<nat>, events: seq<Event>, e: Event)
    ensures var fails := !e.Timer? && e.link in asked && !Spoke(events, e.link) && !ResponseOf(e).ok;
      Failures(asked, events + [e]) == Failures(asked, events) + if fails then {|events|} else {}
    ensures |events| !in Failures(asked, events)
    ensures var wins := !e.Timer? && e.link in asked && !Spoke(events, e.link) && ResponseOf(e).ok;
      AnySuccess(asked, events + [e]) <==> AnySuccess(asked, events) || wins
    ensures Rang(events + [e]) <==> Rang(events) || e == Timer
  {
    hide Counts, Spoke;
    var all, n := events + [e], |events|;
    forall i | 0 <= i < n ensures Counts(asked, all, i) <==> Counts(asked, events, i) {
      CountsLonger(asked, events, e, i);
    }
    forall i | 0 <= i < n ensures all[i] == events[i] {}
    CountsLast(asked, events, e);
    OnlyInside(asked, events);
    OnlyInside(asked, all);
    if AnySuccess(asked, events) { var i :| Succeeds(asked, events, i); assert Succeeds(asked, all, i); }
    if AnySuccess(asked, all) { var i :| Succeeds(asked, all, i); assert i < n ==> Succeeds(asked, events, i); }
    assert all[n] == e;
    assert Succeeds(asked, all, n) <==> Counts(asked, all, n) && ResponseOf(e).ok;
  }

  // ── The counter ──────────────────────────────────────────────────────────────

  ghost predicate Consistent(asked: set<nat>, events: seq<Event>, s: State) {
    && (forall l :: l in s.waiting <==> l in asked && !Spoke(events, l))
    && s.outstanding == |asked| - |Failures(asked, events)|
    && s.outstanding >= |s.waiting|
    && (s.outstanding > |s.waiting| <==> AnySuccess(asked, events))
  }

  /** A reply that counts leaves the waiting set, and the counter drops if it is a failure. */
  lemma StepWaiting(s: State, e: Event)
    ensures var counts := !e.Timer? && e.link in s.waiting; var t := Step(s, e);
      && t.waiting == (if counts then s.waiting - {e.link} else s.waiting)
      && |t.waiting| == (if counts then |s.waiting| - 1 else |s.waiting|)
      && t.outstanding == (if counts && !ResponseOf(e).ok then s.outstanding - 1 else s.outstanding)
      && t.responses == (if counts then s.responses + [ResponseOf(e)] else s.responses)
  {
  }

  lemma ConsistentNext(asked: set<nat>, events: seq<Event>, s: State, e: Event)
    requires Consistent(asked, events, s)
    ensures Consistent(asked, events + [e], Step(s, e))
  {
    hide Spoke, Failures, AnySuccess;
    var t := Step(s, e);
    FailuresNext(asked, events, e);
    forall l ensures Spoke(events + [e], l) <==> Spoke(events, l) || (!e.Timer? && e.link == l) {
      SpokeNext(events, e, l);
    }
    StepWaiting(s, e);
  }

  lemma NobodySpoke(asked: set<nat>)
    ensures forall l :: !Spoke([], l)
    ensures !AnySuccess(asked, [])
    ensures Consistent(asked, [], Start(asked))
  {
    assert Failures(asked, []) == {};
    assert forall l :: l in Start(asked).waiting <==> l in asked;
    assert Start(asked).waiting == asked;
  }

  lemma ZeroIsAllFailed(asked: set<nat>, events: seq<Event>, s: State)
    requires Consistent(asked, events, s)
    ensures s.outstanding == 0 <==> AllFailed(asked, events)
  {
    hide Spoke, Failures, Succeeds;
    if AllFailed(asked, events) { assert s.waiting == {}; }
    if s.outstanding == 0 {
      assert s.waiting == {};
      forall l | l in asked ensures Spoke(events, l) { assert l !in s.waiting; }
    }
  }

  /** `outstanding` is always the number of requests sent minus the failures received, and
      it is zero exactly when every asked peer has failed. */
  lemma {:induction false} OutstandingIsExact(asked: set<nat>, events: seq<Event>)
    ensures Consistent(asked, events, After(asked, events))
    ensures After(asked, events).outstanding == 0 <==> AllFailed(asked, events)
  {
    hide Spoke, Succeeds;
    var s := After(asked, events);
    if events == [] {
      assert Failures(asked, events) == {};
      NobodySpoke(asked);
    } else {
      var n := |events| - 1;
      OutstandingIsExact(asked, events[..n]);
      assert events == events[..n] + [events[n]];
      hide Step, Consistent;
      ConsistentNext(asked, events[..n], After(asked, events[..n]), events[n]);
    }
    ZeroIsAllFailed(asked, events, s);
  }

  // ── Settling ─────────────────────────────────────────────────────────────────

  /** What ends the wait. */
  ghost predicate Closed(asked: set<nat>, events: seq<Event>) {
    Rang(events) || AnySuccess(asked, events) || AllFailed(asked, events)
  }

  lemma StepSettles(s: State, e: Event)
    requires s.settled.Some? <==> s.resolved == 1
    requires s.resolved <= 1
    ensures var t := Step(s, e); var counts := !e.Timer? && e.link in s.waiting;
      && (s.settled.Some? ==> t.settled == s.settled && t.resolved == 1)
      && (s.settled.None? ==>
            && t.resolved == (if t.settled.Some? then 1 else 0)
            && (t.settled.Some? <==> e == Timer || (counts && (ResponseOf(e).ok || t.outstanding == 0))))
  {
  }

  /** In every order of arrival the promise is resolved at most once, and it has been resolved
      exactly when the timer rang, a success arrived, or every asked peer had failed. */
  lemma {:induction false} SettlesExactlyOnce(asked: set<nat>, events: seq<Event>)
    ensures var s := After(asked, events);
      s.resolved == (if s.settled.Some? then 1 else 0) && (s.settled.Some? <==> Closed(asked, events))
  {
    hide Failures, AnySuccess, Spoke;
    OutstandingIsExact(asked, events);
    if events == [] {
      NobodySpoke(asked);
    } else {
      hide Step, AllFailed;
      var n := |events| - 1;
      var before, e := events[..n], events[n];
      assert events == before + [e];
      SettlesExactlyOnce(asked, before);
      OutstandingIsExact(asked, before);
      FailuresNext(asked, before, e);
      StepSettles(After(asked, before), e);
      StepWaiting(After(asked, before), e);
    }
  }

  /** Once resolved, what the caller got never changes. */
  lemma {:induction false} SettlementStays(asked: set<nat>, events: seq<Event>, more: seq<Event>)
    requires After(asked, events).settled.Some?
    ensures After(asked, events + more).settled == After(asked, events).settled
  {
    if more == [] {
      assert events + more == events;
    } else {
      hide Step;
      var all := events + more;
      assert all[..|all| - 1] == events + more[..|more| - 1];
      SettlementStays(asked, events, more[..|more| - 1]);
      SettlesExactlyOnce(asked, all[..|all| - 1]);
      StepSettles(After(asked, all[..|all| - 1]), all[|all| - 1]);
    }
  }

  // ── Admission ────────────────────────────────────────────────────────────────

  /** A success arrives first of all successes, and before the timer. */
  ghost predicate FirstSuccess(asked: set<nat>, events: seq<Event>, i: int) {
    Succeeds(asked, events, i) && Timer !in events[..i] && !AnySuccess(asked, events[..i])
  }

  /** Peers put the nonce into every success they send. */
  predicate CarriesNonce(e: Event) {
    e.Answer? && e.response.ok ==> e.response.nonce.Some? && e.response.nonce.value != ""
  }

  lemma FirstSuccessNext(asked: set<nat>, before: seq<Event>, e: Event)
    ensures var all, n := before + [e], |before|;
      && (forall i | FirstSuccess(asked, all, i) || FirstSuccess(asked, before, i) :: 0 <= i < |all| && all[i].Answer?)
      && (forall i :: i < n ==> (FirstSuccess(asked, all, i) <==> FirstSuccess(asked, before, i)))
      && (forall i | FirstSuccess(asked, before, i) :: i < n)
      && (FirstSuccess(asked, all, n) <==>
            !Rang(before) && !AnySuccess(asked, before) && e.Answer? && e.link in asked && !Spoke(before, e.link) &&
                e.response.ok)
  {
    hide Counts, Spoke, AnySuccess;
    var all, n := before + [e], |before|;
    OnlyInside(asked, before);
    OnlyInside(asked, all);
    forall i | 0 <= i < n ensures FirstSuccess(asked, all, i) <==> FirstSuccess(asked, before, i) {
      CountsLonger(asked, before, e, i);
      assert all[..i] == before[..i];
    }
    CountsLast(asked, before, e);
    assert all[..n] == before;
  }

  lemma WaitingIsNotAllFailed(asked: set<nat>, events: seq<Event>, link: nat)
    requires link in asked && !Spoke(events, link)
    ensures !AllFailed(asked, events)
  {
  }

  lemma AdmittedByStep(s: State, e: Event, nonce: string)
    requires CarriesNonce(e)
    ensures Step(s, e).settled == Some(Admitted(nonce)) <==>
      || s.settled == Some(Admitted(nonce))
      || (s.settled.None? && e.Answer? && e.link in s.waiting && e.response.ok && e.response.nonce == Some(nonce))
  {
    if !e.Timer? && e.link in s.waiting && !ResponseOf(e).ok {
      var found := FirstTerminal(s.responses + [ResponseOf(e)]);
    }
  }

  lemma {:induction false} AdmittedStep(asked: set<nat>, before: seq<Event>, e: Event, nonce: string)
    requires CarriesNonce(e)
    ensures After(asked, before + [e]).settled == Some(Admitted(nonce)) <==>
      || After(asked, before).settled == Some(Admitted(nonce))
      || (!Rang(before) && !AnySuccess(asked, before) && e.Answer? && e.link in asked && !Spoke(before, e.link) &&
          e.response.ok && e.response.nonce == Some(nonce))
  {
    hide AnySuccess, Spoke, Failures, AllFailed, Rang;
    var s, all := After(asked, before), before + [e];
    assert all[..|before|] == before && all[|before|] == e;
    OutstandingIsExact(asked, before);
    SettlesExactlyOnce(asked, before);
    if e.Answer? && e.response.ok && e.link in asked && !Spoke(before, e.link) {
      WaitingIsNotAllFailed(asked, before, e.link);
    }
    AdmittedByStep(s, e, nonce);
  }

  /** The caller is admitted exactly if a success precedes the timer, and with the nonce of
      the first one. */
  lemma {:induction false} AdmittedExactlyWhen(asked: set<nat>, events: seq<Event>, nonce: string)
    requires forall e | e in events :: CarriesNonce(e)
    ensures After(asked, events).settled == Some(Admitted(nonce)) <==>
            exists i :: FirstSuccess(asked, events, i) && events[i].response.nonce == Some(nonce)
  {
    if events == [] {
    } else {
      hide Step, FirstSuccess, CarriesNonce;
      var n := |events| - 1;
      var before, e := events[..n], events[n];
      assert events == before + [e];
      AdmittedExactlyWhen(asked, before, nonce);
      FirstSuccessNext(asked, before, e);
      AdmittedStep(asked, before, e, nonce);
      if i :| FirstSuccess(asked, before, i) && before[i].response.nonce == Some(nonce) {
        assert FirstSuccess(asked, events, i) && events[i].response.nonce == Some(nonce);
      }
      if i :| FirstSuccess(asked, events, i) && events[i].response.nonce == Some(nonce) && i < n {
        assert FirstSuccess(asked, before, i) && before[i].response.nonce == Some(nonce);
      }
    }
  }

  /** Whatever a success carries, the first one before the timer ends the wait: with its
      nonce, or, if it has none, as a failure of its own code. */
  lemma {:induction false} SuccessDecides(asked: set<nat>, before: seq<Event>, e: Event, more: seq<Event>)
    requires !Closed(asked, before)
    requires e.Answer? && e.link in asked && !Spoke(before, e.link) && e.response.ok
    ensures var nonce := e.response.nonce;
      After(asked, before + [e] + more).settled ==
        Some(if nonce.Some? && nonce.value != "" then Admitted(nonce.value)
             else Refused(if e.response.code.Some? then e.response.code.value else Internal))
  {
    hide Closed, Spoke, Failures, AnySuccess, AllFailed;
    var all := before + [e];
    SettlesExactlyOnce(asked, before);
    OutstandingIsExact(asked, before);
    assert all[..|before|] == before && all[|before|] == e;
    SettlementStays(asked, all, more);
  }

  // ── Failure ──────────────────────────────────────────────────────────────────

  lemma {:induction false} FirstTerminalAppend(rs: seq<Response>, r: Response)
    ensures FirstTerminal(rs + [r]) ==
            if FirstTerminal(rs).Some? then FirstTerminal(rs) else if Terminal(r) then Some(r) else None
  {
    if rs == [] {
      assert rs + [r] == [r] && [r][1..] == [];
    } else {
      assert (rs + [r])[1..] == rs[1..] + [r];
      FirstTerminalAppend(rs[1..], r);
    }
  }

  /** If nothing is decisive, nothing is terminal. */
  lemma {:induction false} NoDecisive(asked: set<nat>, events: seq<Event>, n: nat)
    requires n <= |events|
    ensures (forall i :: i < n ==> !Decisive(asked, events, i)) ==>
            forall k | 0 <= k < n && Counts(asked, events, k) :: !Terminal(ResponseOf(events[k]))
  {
    hide Counts, Terminal;
    if n > 0 {
      NoDecisive(asked, events, n - 1);
      if forall i :: i < n ==> !Decisive(asked, events, i) { assert !Decisive(asked, events, n - 1); }
    }
  }

  lemma DecisiveNext(asked: set<nat>, before: seq<Event>, e: Event)
    ensures var all, n := before + [e], |before|;
      && (forall i :: i < n ==> (Decisive(asked, all, i) <==> Decisive(asked, before, i)))
      && (forall i | Decisive(asked, all, i) :: 0 <= i <= n)
      && (forall i | Decisive(asked, before, i) :: 0 <= i < n)
      && (Decisive(asked, all, n) <==>
            !e.Timer? && e.link in asked && !Spoke(before, e.link) && Terminal(ResponseOf(e)) && forall i ::
                !Decisive(asked, before, i))
  {
    hide Counts, Spoke, Terminal;
    var all, n := before + [e], |before|;
    OnlyInside(asked, before);
    OnlyInside(asked, all);
    forall i | 0 <= i < n ensures Counts(asked, all, i) <==> Counts(asked, before, i) {
      CountsLonger(asked, before, e, i);
    }
    CountsLast(asked, before, e);
    assert all[n] == e && forall i | 0 <= i < n :: all[i] == before[i];
    forall i | 0 <= i < n ensures Decisive(asked, all, i) <==> Decisive(asked, before, i) {}
    NoDecisive(asked, before, n);
  }

  /** The responses collected so far hold the terminal failure that arrived first. */
  ghost predicate Collected(asked: set<nat>, events: seq<Event>, responses: seq<Response>) {
    && (FirstTerminal(responses).None? <==> forall i :: !Decisive(asked, events, i))
    && forall i | Decisive(asked, events, i) && 0 <= i < |events| && !events[i].Timer? ::
        FirstTerminal(responses) == Some(ResponseOf(events[i]))
  }

  lemma CollectedNext(asked: set<nat>, before: seq<Event>, s: State, e: Event)
    requires Collected(asked, before, s.responses) && forall l :: l in s.waiting <==> l in asked && !Spoke(before, l)
    ensures Collected(asked, before + [e], Step(s, e).responses)
  {
    hide Decisive, Spoke, Terminal, Step, FirstTerminal;
    var all, n := before + [e], |before|;
    StepWaiting(s, e);
    DecisiveNext(asked, before, e);
    if !e.Timer? { FirstTerminalAppend(s.responses, ResponseOf(e)); }
    assert all[n] == e && forall i | 0 <= i < n :: all[i] == before[i];
    if i :| Decisive(asked, before, i) { assert Decisive(asked, all, i); }
  }

  lemma {:induction false} ResponsesAreCollected(asked: set<nat>, events: seq<Event>)
    ensures Collected(asked, events, After(asked, events).responses)
  {
    if events == [] {
      assert forall i :: !Decisive(asked, events, i);
    } else {
      hide Step, Collected, Spoke, Failures, AnySuccess, AllFailed;
      var n := |events| - 1;
      assert events == events[..n] + [events[n]];
      ResponsesAreCollected(asked, events[..n]);
      OutstandingIsExact(asked, events[..n]);
      CollectedNext(asked, events[..n], After(asked, events[..n]), events[n]);
    }
  }

  /** What the caller is told once every asked peer has failed: the code of the terminal
      failure that arrived first, or the retryable code if none is terminal. */
  ghost predicate Told(asked: set<nat>, events: seq<Event>, settled: Option<Settlement>) {
    && ((forall i :: !Decisive(asked, events, i)) ==> settled == Some(Refused(NoIndexerReachable)))
    && forall i | Decisive(asked, events, i) && 0 <= i < |events| && !events[i].Timer? ::
         settled == Some(Refused(CodeOr(ResponseOf(events[i]).code, Internal)))
  }

  lemma ToldNext(asked: set<nat>, before: seq<Event>, e: Event, settled: Option<Settlement>)
    requires Told(asked, before, settled)
    requires !e.Timer? && e.link in asked ==> Spoke(before, e.link)
    ensures Told(asked, before + [e], settled)
  {
    hide Decisive, Spoke, Terminal;
    var all := before + [e];
    DecisiveNext(asked, before, e);
    assert forall i | 0 <= i < |before| :: all[i] == before[i];
    if i :| Decisive(asked, before, i) { assert Decisive(asked, all, i); }
  }

  lemma ToldByFirstTerminal(asked: set<nat>, events: seq<Event>, responses: seq<Response>, settled: Option<Settlement>)
    requires Collected(asked, events, responses)
    requires var found := FirstTerminal(responses);
      settled == Some(Refused(if found.Some? then CodeOr(found.value.code, Internal) else NoIndexerReachable))
    ensures Told(asked, events, settled)
  {
    hide Decisive, FirstTerminal;
  }

  lemma SilenceIsNoFailure(asked: set<nat>)
    requires asked != {}
    ensures !AllFailed(asked, [])
  {
    var l :| l in asked;
    NobodySpoke(asked);
  }

  lemma NoSuccess(asked: set<nat>, events: seq<Event>)
    requires AllFailed(asked, events)
    ensures !AnySuccess(asked, events)
  {
  }

  lemma NothingLeft(asked: set<nat>, events: seq<Event>, e: Event)
    requires AllFailed(asked, events)
    ensures !e.Timer? && e.link in asked ==> Spoke(events, e.link)
  {
  }

  lemma LastFailure(s: State, e: Event)
    requires s.settled.None? && s.outstanding != 0 && Step(s, e).outstanding == 0 && !e.Timer?
    ensures var t := Step(s, e); var found := FirstTerminal(t.responses);
      t.settled == Some(Refused(if found.Some? then CodeOr(found.value.code, Internal) else NoIndexerReachable))
  {
  }

  lemma {:induction false} AllFailedIsTold(asked: set<nat>, events: seq<Event>)
    requires asked != {} && AllFailed(asked, events) && !Rang(events)
    ensures Told(asked, events, After(asked, events).settled)
  {
    hide AllFailed, Failures, AnySuccess, Spoke, Told, Collected, Step;
    if events == [] {
      SilenceIsNoFailure(asked);
    } else {
      var n := |events| - 1;
      var before, e := events[..n], events[n];
      assert events == before + [e];
      FailuresNext(asked, before, e);
      NoSuccess(asked, events);
      SettlesExactlyOnce(asked, before);
      if AllFailed(asked, before) {
        AllFailedIsTold(asked, before);
        StepSettles(After(asked, before), e);
        NothingLeft(asked, before, e);
        ToldNext(asked, before, e, After(asked, before).settled);
      } else {
        OutstandingIsExact(asked, before);
        OutstandingIsExact(asked, events);
        ResponsesAreCollected(asked, events);
        LastFailure(After(asked, before), e);
        ToldByFirstTerminal(asked, events, After(asked, events).responses, After(asked, events).settled);
      }
    }
  }

  /** When every asked peer fails and the timer stays silent, the caller gets the terminal
      failure that arrived first, or the retryable code if none is terminal. */
  lemma {:induction false} FailureIsTheFirstTerminal(asked: set<nat>, events: seq<Event>)
    requires asked != {} && AllFailed(asked, events) && !Rang(events)
    ensures (forall i :: !Decisive(asked, events, i)) ==>
            After(asked, events).settled == Some(Refused(NoIndexerReachable))
    ensures forall i | Decisive(asked, events, i) && 0 <= i < |events| && !events[i].Timer? ::
              After(asked, events).settled == Some(Refused(CodeOr(ResponseOf(events[i]).code, Internal)))
  {
    hide AllFailed, Rang, After, Decisive;
    AllFailedIsTold(asked, events);
  }

  /** The peer has no say in the matter: it is no indexer, or does not know the pact. */
  ghost predicate HasNoSay(e: Event) {
    !e.Timer? && CodeHeard(e) in {Some(InviteNotIndexer), Some(UnknownPact)}
  }

  lemma FailureWithSay(asked: set<nat>, events: seq<Event>, i: int)
    requires Fails(asked, events, i)
    ensures Terminal(ResponseOf(events[i])) <==> !HasNoSay(events[i])
  {
  }

  /** When every asked peer fails and the timer stays silent: if each says that it is no indexer or
      does not know the pact, the caller is told that no indexer was reachable, which it may
      retry; otherwise it gets the code of the first to say anything else, or the code of an
      internal error if that one gave none. A disconnect says that the peer is gone. */
  lemma {:induction false} FailureExactlyWhen(asked: set<nat>, events: seq<Event>)
    requires asked != {} && AllFailed(asked, events) && !Rang(events)
    ensures (forall i | Counts(asked, events, i) && 0 <= i < |events| :: HasNoSay(events[i])) ==>
            After(asked, events).settled == Some(Refused(NoIndexerReachable))
    ensures forall i | Counts(asked, events, i) && 0 <= i < |events| && !events[i].Timer? && !HasNoSay(events[i]) ::
              (forall k | Counts(asked, events, k) && 0 <= k < i :: HasNoSay(events[k])) ==>
                After(asked, events).settled ==
                  Some(Refused(if CodeHeard(events[i]).Some? then CodeHeard(events[i]).value else Internal))
  {
    hide Rang, After, HasNoSay, Counts, Terminal, Spoke;
    FailureIsTheFirstTerminal(asked, events);
    OnlyInside(asked, events);
    forall i | Counts(asked, events, i)
      ensures 0 <= i < |events| && !events[i].Timer? && (Terminal(ResponseOf(events[i])) <==> !HasNoSay(events[i]))
    {
      assert !Succeeds(asked, events, i);
      FailureWithSay(asked, events, i);
    }
    forall i | Counts(asked, events, i) && !HasNoSay(events[i])
      ensures (forall k | Counts(asked, events, k) && 0 <= k < i :: HasNoSay(events[k])) ==> Decisive(asked, events, i)
    {
    }
  }

  /** The latest word of an asked peer that was not ignored. */
  ghost predicate LastHeard(asked: set<nat>, events: seq<Event>, i: int) {
    Counts(asked, events, i) && forall k | i < k < |events| :: !Counts(asked, events, k)
  }

  ghost predicate Silence(asked: set<nat>, events: seq<Event>) { forall i :: !Counts(asked, events, i) }

  /** The collected responses end with the latest word. */
  ghost predicate EndsWithLast(asked: set<nat>, events: seq<Event>, responses: seq<Response>) {
    && (responses == [] <==> Silence(asked, events))
    && forall i | LastHeard(asked, events, i) && 0 <= i < |events| && !events[i].Timer? ::
         responses != [] && responses[|responses| - 1] == ResponseOf(events[i])
  }

  lemma LastHeardNext(asked: set<nat>, before: seq<Event>, e: Event)
    ensures var all, n := before + [e], |before|; var counts := !e.Timer? && e.link in asked && !Spoke(before, e.link);
      && (Silence(asked, all) <==> Silence(asked, before) && !counts)
      && (forall i | LastHeard(asked, all, i) :: if counts then i == n else 0 <= i < n && LastHeard(asked, before, i))
  {
    hide Counts, Spoke;
    var all, n := before + [e], |before|;
    OnlyInside(asked, before);
    OnlyInside(asked, all);
    forall i | 0 <= i < n ensures Counts(asked, all, i) <==> Counts(asked, before, i) {
      CountsLonger(asked, before, e, i);
    }
    CountsLast(asked, before, e);
    if Silence(asked, all) {
      assert !Counts(asked, all, n);
      forall i ensures !Counts(asked, before, i) { assert !Counts(asked, all, i); }
    }
  }

  lemma {:induction false} ResponsesEndWithLast(asked: set<nat>, events: seq<Event>)
    ensures EndsWithLast(asked, events, After(asked, events).responses)
  {
    if events == [] {
      assert forall i :: !Counts(asked, events, i);
    } else {
      hide Step, Spoke, Failures, AnySuccess, AllFailed, Silence, LastHeard;
      var n := |events| - 1;
      var before, e := events[..n], events[n];
      assert events == before + [e];
      ResponsesEndWithLast(asked, before);
      OutstandingIsExact(asked, before);
      StepWaiting(After(asked, before), e);
      LastHeardNext(asked, before, e);
      assert forall i | 0 <= i < n :: events[i] == before[i];
    }
  }

  lemma {:induction false} SomeoneIsLast(asked: set<nat>, events: seq<Event>, i: nat)
    requires Counts(asked, events, i)
    ensures exists k :: LastHeard(asked, events, k)
    decreases |events| - i
  {
    hide Counts;
    OnlyInside(asked, events);
    if k :| i < k < |events| && Counts(asked, events, k) { SomeoneIsLast(asked, events, k); }
    else { assert LastHeard(asked, events, i); }
  }

  lemma {:induction false} NotSilent(asked: set<nat>, events: seq<Event>)
    requires !Silence(asked, events)
    ensures exists i :: LastHeard(asked, events, i)
  {
    hide Counts;
    OnlyInside(asked, events);
    var i :| Counts(asked, events, i);
    SomeoneIsLast(asked, events, i);
  }

  /** When the timer is what ends the wait, the caller gets for good the code of the latest
      word of any asked peer, or that no indexer was reachable if none has spoken. */
  lemma {:induction false} TimerDecides(asked: set<nat>, before: seq<Event>, more: seq<Event>)
    requires !Closed(asked, before)
    ensures var settled := After(asked, before + [Timer] + more).settled;
      && (if Silence(asked, before) then settled == Some(Refused(NoIndexerReachable))
          else exists i :: LastHeard(asked, before, i))
      && forall i | LastHeard(asked, before, i) && 0 <= i < |before| && !before[i].Timer? ::
           settled == Some(Refused(if CodeHeard(before[i]).Some? then CodeHeard(before[i]).value
                                   else NoIndexerReachable))
  {
    hide Closed, Silence, LastHeard;
    var all := before + [Timer];
    SettlesExactlyOnce(asked, before);
    ResponsesEndWithLast(asked, before);
    if !Silence(asked, before) { NotSilent(asked, before); }
    assert all[..|before|] == before && all[|before|] == Timer;
    SettlementStays(asked, all, more);
  }

  // ── Order of arrival ─────────────────────────────────────────────────────────

  /** Both runs heard the same first word of every asked peer. */
  ghost predicate SameWords(asked: set<nat>, a: seq<Event>, b: seq<Event>) {
    && (forall i | Counts(asked, a, i) :: exists j ::
        Counts(asked, b, j) && b[j].link == a[i].link && ResponseOf(b[j]) == ResponseOf(a[i]))
    && (forall j | Counts(asked, b, j) :: exists i ::
        Counts(asked, a, i) && a[i].link == b[j].link && ResponseOf(a[i]) == ResponseOf(b[j]))
  }

  ghost predicate AnyDecisive(asked: set<nat>, events: seq<Event>) { exists i :: Decisive(asked, events, i) }

  lemma DecisiveWhenTerminal(asked: set<nat>, events: seq<Event>)
    ensures AnyDecisive(asked, events) <==> exists i :: Counts(asked, events, i) && Terminal(ResponseOf(events[i]))
  {
    hide Counts, Terminal;
    OnlyInside(asked, events);
    NoDecisive(asked, events, |events|);
    if AnyDecisive(asked, events) { var i :| Decisive(asked, events, i); }
  }

  lemma Echo(asked: set<nat>, a: seq<Event>, b: seq<Event>, i: int) returns (j: int)
    requires SameWords(asked, a, b) && Counts(asked, a, i)
    ensures Counts(asked, b, j) && b[j].link == a[i].link && ResponseOf(b[j]) == ResponseOf(a[i])
  {
    j :| Counts(asked, b, j) && b[j].link == a[i].link && ResponseOf(b[j]) == ResponseOf(a[i]);
  }

  lemma SameWordsTerminal(asked: set<nat>, a: seq<Event>, b: seq<Event>)
    requires SameWords(asked, a, b) && AnyDecisive(asked, a)
    ensures AnyDecisive(asked, b)
  {
    hide Counts, Terminal, AnyDecisive;
    DecisiveWhenTerminal(asked, a);
    DecisiveWhenTerminal(asked, b);
    OnlyInside(asked, a);
    OnlyInside(asked, b);
    var i :| Counts(asked, a, i) && Terminal(ResponseOf(a[i]));
    var j := Echo(asked, a, b, i);
  }

  lemma SwapWords(asked: set<nat>, a: seq<Event>, b: seq<Event>)
    requires SameWords(asked, a, b)
    ensures SameWords(asked, b, a)
  {
  }

  /** The caller got the code of a terminal failure that some asked peer sent. */
  ghost predicate ReportsTerminal(asked: set<nat>, events: seq<Event>, settled: Option<Settlement>) {
    exists i :: Counts(asked, events, i) && Terminal(ResponseOf(events[i])) &&
        settled == Some(Refused(CodeOf(ResponseOf(events[i]))))
  }

  lemma {:induction false} FailedRunReports(asked: set<nat>, events: seq<Event>)
    requires asked != {} && AllFailed(asked, events) && !Rang(events)
    ensures AnyDecisive(asked, events) ==> ReportsTerminal(asked, events, After(asked, events).settled)
    ensures !AnyDecisive(asked, events) ==> After(asked, events).settled == Some(Refused(NoIndexerReachable))
  {
    hide AllFailed, Rang, After, Terminal;
    FailureIsTheFirstTerminal(asked, events);
    OnlyInside(asked, events);
    if i :| Decisive(asked, events, i) { assert Counts(asked, events, i); }
  }

  /** Two runs in which every asked peer says the same, in whatever order: either both report
      a terminal failure some peer sent, or both report that no indexer was reachable. */
  lemma {:induction false} FailureIgnoresOrder(asked: set<nat>, a: seq<Event>, b: seq<Event>)
    requires asked != {} && SameWords(asked, a, b)
    requires AllFailed(asked, a) && !Rang(a) && AllFailed(asked, b) && !Rang(b)
    ensures AnyDecisive(asked, a) <==> AnyDecisive(asked, b)
    ensures AnyDecisive(asked, a) ==>
            ReportsTerminal(asked, a, After(asked, a).settled) && ReportsTerminal(asked, b, After(asked, b).settled)
    ensures !AnyDecisive(asked, a) ==>
            After(asked, a).settled == After(asked, b).settled == Some(Refused(NoIndexerReachable))
  {
    hide AllFailed, Rang, After, AnyDecisive, ReportsTerminal, SameWords;
    FailedRunReports(asked, a);
    FailedRunReports(asked, b);
    SwapWords(asked, a, b);
    if AnyDecisive(asked, a) { SameWordsTerminal(asked, a, b); }
    if AnyDecisive(asked, b) { SameWordsTerminal(asked, b, a); }
  }

  /** When all terminal failures carry one code, both runs report the same. */
  lemma {:induction false} OneCodeIgnoresOrder(asked: set<nat>, a: seq<Event>, b: seq<Event>, code: Code)
    requires asked != {} && SameWords(asked, a, b)
    requires AllFailed(asked, a) && !Rang(a) && AllFailed(asked, b) && !Rang(b)
    requires forall i | Counts(asked, a, i) && Terminal(ResponseOf(a[i])) :: CodeOf(ResponseOf(a[i])) == code
    ensures After(asked, a).settled == After(asked, b).settled
  {
    hide AllFailed, Rang, After, Terminal, AnyDecisive, Counts;
    FailureIgnoresOrder(asked, a, b);
    OnlyInside(asked, a);
    OnlyInside(asked, b);
    if AnyDecisive(asked, a) {
      var j :| Counts(asked, b, j) && Terminal(ResponseOf(b[j])) &&
          After(asked, b).settled == Some(Refused(CodeOf(ResponseOf(b[j]))));
      SwapWords(asked, a, b);
      var i := Echo(asked, b, a, j);
    }
  }

  /** Peers answering in some order, each once. */
  ghost predicate Arrangement(answers: map<nat, Response>, order: seq<nat>) {
    && (forall i, j | 0 <= i < j < |order| :: order[i] != order[j])
    && (forall l :: l in order <==> l in answers)
  }

  function Play(answers: map<nat, Response>, order: seq<nat>): (events: seq<Event>)
    requires forall l | l in order :: l in answers
    ensures |events| == |order| && forall i | 0 <= i < |order| :: events[i] == Answer(order[i], answers[order[i]])
  {
    seq(|order|, i requires 0 <= i < |order| => Answer(order[i], answers[order[i]]))
  }

  lemma PlayCounts(answers: map<nat, Response>, order: seq<nat>)
    requires Arrangement(answers, order)
    ensures forall i :: Counts(answers.Keys, Play(answers, order), i) <==> 0 <= i < |order|
    ensures (forall l | l in answers :: !answers[l].ok) ==> AllFailed(answers.Keys, Play(answers, order))
    ensures !Rang(Play(answers, order))
  {
    var events := Play(answers, order);
    forall l | l in answers ensures Spoke(events, l) {
      var i :| 0 <= i < |order| && order[i] == l;
      assert events[i].link == l;
    }
  }

  lemma PlayEcho(answers: map<nat, Response>, p: seq<nat>, q: seq<nat>)
    requires Arrangement(answers, p) && Arrangement(answers, q)
    ensures var a, b := Play(answers, p), Play(answers, q);
      forall i | Counts(answers.Keys, a, i) :: exists j ::
          Counts(answers.Keys, b, j) && b[j].link == a[i].link && ResponseOf(b[j]) == ResponseOf(a[i])
  {
    hide Counts;
    PlayCounts(answers, p);
    PlayCounts(answers, q);
    var a, b := Play(answers, p), Play(answers, q);
    forall i | Counts(answers.Keys, a, i) ensures exists j ::
        Counts(answers.Keys, b, j) && b[j].link == a[i].link && ResponseOf(b[j]) == ResponseOf(a[i]) {
      assert p[i] in q;
      var j :| 0 <= j < |q| && q[j] == p[i];
      assert Counts(answers.Keys, b, j) && b[j].link == a[i].link;
    }
  }

  lemma PlaySameWords(answers: map<nat, Response>, p: seq<nat>, q: seq<nat>)
    requires Arrangement(answers, p) && Arrangement(answers, q)
    ensures SameWords(answers.Keys, Play(answers, p), Play(answers, q))
  {
    hide Counts;
    PlayCounts(answers, p);
    PlayCounts(answers, q);
    PlayEcho(answers, p, q);
    PlayEcho(answers, q, p);
  }

  ghost predicate OneCode(answers: map<nat, Response>) {
    forall l, m | l in answers && m in answers && Terminal(answers[l]) && Terminal(answers[m]) ::
        CodeOf(answers[l]) == CodeOf(answers[m])
  }

  lemma {:induction false} Listing(s: set<nat>) returns (order: seq<nat>)
    ensures forall i, j | 0 <= i < j < |order| :: order[i] != order[j]
    ensures forall l :: l in order <==> l in s
  {
    if s == {} {
      order := [];
    } else {
      var x :| x in s;
      var rest := Listing(s - {x});
      order := [x] + rest;
    }
  }

  /** The peer that answers first with a terminal failure has its code reported. */
  lemma {:induction false} FirstIsReported(answers: map<nat, Response>, first: nat) returns (order: seq<nat>)
    requires first in answers && Terminal(answers[first]) && forall l | l in answers :: !answers[l].ok
    ensures Arrangement(answers, order)
    ensures After(answers.Keys, Play(answers, order)).settled == Some(Refused(CodeOf(answers[first])))
  {
    hide After, AllFailed, Rang;
    var rest := Listing(answers.Keys - {first});
    order := [first] + rest;
    assert Arrangement(answers, order);
    PlayCounts(answers, order);
    var events := Play(answers, order);
    assert Decisive(answers.Keys, events, 0);
    FailureIsTheFirstTerminal(answers.Keys, events);
  }

  lemma {:induction false} SameInBothOrders(answers: map<nat, Response>, p: seq<nat>, q: seq<nat>)
    requires answers.Keys != {} && (forall l | l in answers :: !answers[l].ok) && OneCode(answers)
    requires Arrangement(answers, p) && Arrangement(answers, q)
    ensures After(answers.Keys, Play(answers, p)).settled == After(answers.Keys, Play(answers, q)).settled
  {
    hide After, Terminal, Counts, SameWords, AllFailed, Rang;
    PlayCounts(answers, p);
    PlayCounts(answers, q);
    PlaySameWords(answers, p, q);
    var code := if l :| l in answers && Terminal(answers[l]) then CodeOf(answers[l]) else Internal;
    OneCodeIgnoresOrder(answers.Keys, Play(answers, p), Play(answers, q), code);
  }

  /** When every peer fails, what the caller gets is the same in every order of arrival
      exactly if all terminal failures carry one code. */
  lemma {:induction false} OrderIsInvisibleExactlyWhen(answers: map<nat, Response>)
    requires answers.Keys != {} && forall l | l in answers :: !answers[l].ok
    ensures (forall p, q | Arrangement(answers, p) && Arrangement(answers, q) ::
               After(answers.Keys, Play(answers, p)).settled == After(answers.Keys, Play(answers, q)).settled)
            <==> OneCode(answers)
  {
    hide After, Terminal;
    if OneCode(answers) {
      forall p, q | Arrangement(answers, p) && Arrangement(answers, q)
        ensures After(answers.Keys, Play(answers, p)).settled == After(answers.Keys, Play(answers, q)).settled
      {
        SameInBothOrders(answers, p, q);
      }
    } else {
      var l, m :| l in answers && m in answers && Terminal(answers[l]) && Terminal(answers[m]) &&
          CodeOf(answers[l]) != CodeOf(answers[m]);
      var p := FirstIsReported(answers, l);
      var q := FirstIsReported(answers, m);
    }
  }
}
