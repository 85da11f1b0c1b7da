/** The table of outstanding member-auth requests of a link, under every interleaving of
    sends, replies, late replies, timeouts and channel closes. */
module AuthTable {
  datatype Cause = Replied | TimedOut | Disconnected | SendFailed

  datatype Settlement = Settlement(corr: string, cause: Cause)

  /** `pending` maps a request token to its pact; `settled` are the promises resolved so far. */
  datatype State =
    | State(pending: map<string, string>, authed: set<string>, issued: set<string>, settled: multiset<Settlement>)

  const FRESH := State(map[], {}, {}, multiset{})

  datatype Answer = NotMember | ChannelClosed | AlreadyAuthed | AlreadyPending | Issued | NotSent

  datatype Event =
    | Request(pact: string, corr: string, isMember: bool, hasChannel: bool, sent: bool)
    | Reply(corr: string)
    | Timeout(corr: string)
    | Close
    | Authenticated(pact: string)
    | LinkGone

  /** What a request finds before it touches the table. */
  function AnswerOf(s: State, e: Event): Answer
    requires e.Request?
  {
    if !e.isMember then NotMember
    else if !e.hasChannel then ChannelClosed
    else if e.pact in s.authed then AlreadyAuthed
    else if e.pact in s.pending.Values then AlreadyPending
    else if !e.sent then NotSent
    else Issued
  }

  /** Settles a request if it is still in the table; a late reply or timer finds nothing. */
  function Settle(s: State, corr: string, cause: Cause): State {
    if corr in s.pending then s.(pending := s.pending - {corr},
                                 settled := s.settled + multiset{Settlement(corr, cause)})
    else s
  }

  function FlushedOf(tokens: set<string>): set<Settlement> {
    set corr | corr in tokens :: Settlement(corr, Disconnected)
  }

  function Flush(pending: map<string, string>): multiset<Settlement> { multiset(FlushedOf(pending.Keys)) }

  /** Settling one more of the tokens, with `rest` still to go. */
  lemma FlushedNext(base: multiset<Settlement>, tokens: set<string>, rest: set<string>, corr: string)
    requires rest <= tokens && corr in rest
    ensures base + multiset(FlushedOf(tokens - (rest - {corr}))) ==
            base + multiset(FlushedOf(tokens - rest)) + multiset{Settlement(corr, Disconnected)}
  {
    assert FlushedOf(tokens - (rest - {corr})) == FlushedOf(tokens - rest) + {Settlement(corr, Disconnected)};
  }

  lemma NothingFlushed(base: multiset<Settlement>, tokens: set<string>)
    ensures base + multiset(FlushedOf(tokens - tokens)) == base
    ensures tokens - {} == tokens
  {
    assert FlushedOf(tokens - tokens) == {};
  }

  function Step(s: State, e: Event): State {
    match e
    case Request(pact, corr, _, _, _) =>
      (match AnswerOf(s, e)
       case Issued => s.(pending := s.pending[corr := pact], issued := s.issued + {corr})
       case NotSent => s.(pending := s.pending - {corr}, issued := s.issued + {corr},
                          settled := s.settled + multiset{Settlement(corr, SendFailed)})
       case _ => s)
    case Reply(corr) => Settle(s, corr, Replied)
    case Timeout(corr) => Settle(s, corr, TimedOut)
    case Close => s.(pending := map[], settled := s.settled + Flush(s.pending))
    case Authenticated(pact) => s.(authed := s.authed + {pact})
    case LinkGone => s.(authed := {})
  }

  function After(events: seq<Event>): State {
    if events == [] then FRESH else Step(After(events[..|events| - 1]), events[|events| - 1])
  }

  /** How often the promise of a request was resolved. */
  function Times(s: State, corr: string): nat {
    s.settled[Settlement(corr, Replied)] + s.settled[Settlement(corr, TimedOut)] +
    s.settled[Settlement(corr, Disconnected)] + s.settled[Settlement(corr, SendFailed)]
  }

  /** Every request is either in the table or settled by exactly one cause; one pact never
      has two requests in the table. */
  ghost predicate Orderly(s: State) {
    && (forall corr :: Times(s, corr) + (if corr in s.pending then 1 else 0) == if corr in s.issued then 1 else 0)
    && (forall a, b | a in s.pending && b in s.pending && s.pending[a] == s.pending[b] :: a == b)
  }

  /** Request tokens are random: none is drawn twice. */
  ghost predicate FreshTokens(events: seq<Event>) {
    forall i, j | 0 <= i < j < |events| && events[i].Request? && events[j].Request? :: events[i].corr != events[j].corr
  }

  /** One more settlement counts for its own request only. */
  lemma TimesNext(s: State, t: State, corr: string, cause: Cause)
    requires t.settled == s.settled + multiset{Settlement(corr, cause)}
    ensures forall c :: Times(t, c) == Times(s, c) + if c == corr then 1 else 0
  {
  }

  lemma TimesSame(s: State, t: State)
    requires t.settled == s.settled
    ensures forall c :: Times(t, c) == Times(s, c)
  {
  }

  lemma SettleIsOrderly(s: State, corr: string, cause: Cause)
    requires Orderly(s)
    ensures Orderly(Settle(s, corr, cause))
  {
    hide Times;
    if corr in s.pending { TimesNext(s, Settle(s, corr, cause), corr, cause); }
  }

  lemma FlushCounts(pending: map<string, string>, corr: string)
    ensures Flush(pending)[Settlement(corr, Disconnected)] == if corr in pending then 1 else 0
    ensures forall cause | cause != Disconnected :: Flush(pending)[Settlement(corr, cause)] == 0
  {
    var flushed := FlushedOf(pending.Keys);
    assert Settlement(corr, Disconnected) in flushed <==> corr in pending;
    forall cause | cause != Disconnected ensures Settlement(corr, cause) !in flushed {}
  }

  lemma CloseIsOrderly(s: State)
    requires Orderly(s)
    ensures Orderly(Step(s, Close))
  {
    var t := Step(s, Close);
    forall c ensures Times(t, c) == Times(s, c) + if c in s.pending then 1 else 0 {
      FlushCounts(s.pending, c);
    }
  }

  lemma RequestIsOrderly(s: State, e: Event)
    requires Orderly(s) && e.Request? && e.corr !in s.issued
    ensures Orderly(Step(s, e))
  {
    hide Times;
    var t := Step(s, e);
    assert Times(s, e.corr) == 0 && e.corr !in s.pending;
    if AnswerOf(s, e) == NotSent {
      TimesNext(s, t, e.corr, SendFailed);
    } else {
      TimesSame(s, t);
      assert e.pact in s.pending.Values || forall c | c in s.pending :: s.pending[c] != e.pact;
    }
  }

  lemma {:induction false} IssuedBefore(events: seq<Event>, corr: string)
    requires corr in After(events).issued
    ensures exists i :: 0 <= i < |events| && events[i].Request? && events[i].corr == corr
  {
    if events == [] {
    } else {
      var n := |events| - 1;
      if corr in After(events[..n]).issued {
        IssuedBefore(events[..n], corr);
        var i :| 0 <= i < n && events[..n][i].Request? && events[..n][i].corr == corr;
        assert events[i].Request? && events[i].corr == corr;
      } else {
        assert events[n].Request? && events[n].corr == corr;
      }
    }
  }

  lemma FreshIsOrderly()
    ensures Orderly(FRESH)
  {
  }

  lemma OtherIsOrderly(s: State, e: Event)
    requires Orderly(s) && !e.Request?
    ensures Orderly(Step(s, e))
  {
    match e {
      case Reply(corr) => SettleIsOrderly(s, corr, Replied);
      case Timeout(corr) => SettleIsOrderly(s, corr, TimedOut);
      case Close => CloseIsOrderly(s);
      case Authenticated(_) => assert forall c :: Times(Step(s, e), c) == Times(s, c);
      case LinkGone => assert forall c :: Times(Step(s, e), c) == Times(s, c);
    }
  }

  /** In every interleaving: each request is settled by exactly one cause once it leaves the
      table, and a link has at most one outstanding request per pact. */
  lemma {:induction false} EveryRequestSettledOnce(events: seq<Event>)
    requires FreshTokens(events)
    ensures Orderly(After(events))
  {
    if events != [] {
      hide Step, Orderly;
      var n := |events| - 1;
      EveryRequestSettledOnce(events[..n]);
      var s := After(events[..n]);
      match events[n] {
        case Request(_, corr, _, _, _) =>
          if corr in s.issued {
            IssuedBefore(events[..n], corr);
            assert false;
          }
          RequestIsOrderly(s, events[n]);
        case _ => OtherIsOrderly(s, events[n]);
      }
    } else {
      FreshIsOrderly();
    }
  }

  /** A request that has left the table, by a timeout above all, never blocks the next
      attempt for its pact: that is refused as pending exactly while a request is outstanding. */
  lemma {:induction false} SettledNeverBlocks(events: seq<Event>, corr: string, leave: Event, next: Event)
    requires FreshTokens(events) && corr in After(events).pending
    requires leave == Timeout(corr) || leave == Reply(corr) || leave == Close
    requires next.Request? && next.pact == After(events).pending[corr] && next.isMember && next.hasChannel
    requires next.pact !in After(events).authed
    ensures AnswerOf(After(events), next) == AlreadyPending
    ensures AnswerOf(Step(After(events), leave), next) == if next.sent then Issued else NotSent
  {
    EveryRequestSettledOnce(events);
    var s := After(events);
    assert s.pending[corr] in s.pending.Values;
    var t := Step(s, leave);
    forall c | c in t.pending ensures t.pending[c] != next.pact { assert c in s.pending && c != corr; }
  }

  // ── What a request finds, and what ends it ───────────────────────────────────

  /** The pact was authenticated on the link, which has not gone since. */
  ghost predicate AuthenticatedSince(events: seq<Event>, pact: string) {
    exists i :: 0 <= i < |events| && events[i] == Authenticated(pact) && forall k | i < k < |events| ::
        events[k] != LinkGone
  }

  lemma SinceNext(before: seq<Event>, e: Event, pact: string)
    ensures AuthenticatedSince(before + [e], pact) <==>
            e == Authenticated(pact) || (e != LinkGone && AuthenticatedSince(before, pact))
  {
    var all, n := before + [e], |before|;
    assert all[n] == e && forall k | 0 <= k < n :: all[k] == before[k];
    if AuthenticatedSince(all, pact) && e != Authenticated(pact) {
      var i :| 0 <= i < |all| && all[i] == Authenticated(pact) && forall k | i < k < |all| :: all[k] != LinkGone;
      assert before[i] == Authenticated(pact);
    }
    if AuthenticatedSince(before, pact) && e != LinkGone {
      var i :| 0 <= i < n && before[i] == Authenticated(pact) && forall k | i < k < n :: before[k] != LinkGone;
      assert all[i] == Authenticated(pact);
    }
  }

  lemma {:induction false} AuthedMeansSince(events: seq<Event>, pact: string)
    ensures pact in After(events).authed <==> AuthenticatedSince(events, pact)
  {
    if events == [] {
    } else {
      hide AuthenticatedSince;
      var n := |events| - 1;
      assert events == events[..n] + [events[n]];
      AuthedMeansSince(events[..n], pact);
      SinceNext(events[..n], events[n], pact);
    }
  }

  /** Event `i` asked for the pact, and nothing stood in the way of sending but perhaps the send. */
  ghost predicate Asks(events: seq<Event>, i: int, corr: string) {
    && 0 <= i < |events| && events[i].Request? && events[i].corr == corr && events[i].isMember && events[i].hasChannel
    && !AuthenticatedSince(events[..i], events[i].pact)
    && events[i].pact !in After(events[..i]).pending.Values
  }

  /** The request sent at event `i` has been neither answered, nor timed out, nor flushed. */
  ghost predicate Outstanding(events: seq<Event>, i: int, corr: string, pact: string) {
    && Asks(events, i, corr) && events[i].sent && events[i].pact == pact
    && forall k | i < k < |events| :: events[k] != Reply(corr) && events[k] != Timeout(corr) && events[k] != Close
  }

  ghost predicate IsOutstanding(events: seq<Event>, corr: string, pact: string) {
    exists i :: Outstanding(events, i, corr, pact)
  }

  lemma AsksLonger(before: seq<Event>, e: Event, i: int, corr: string)
    requires i < |before|
    ensures Asks(before + [e], i, corr) <==> Asks(before, i, corr)
  {
    hide After, AuthenticatedSince;
    if 0 <= i { assert (before + [e])[..i] == before[..i] && (before + [e])[i] == before[i]; }
  }

  lemma AsksLast(before: seq<Event>, e: Event, corr: string)
    ensures Asks(before + [e], |before|, corr) <==>
              e.Request? && e.corr == corr && AnswerOf(After(before), e) in {Issued, NotSent}
  {
    hide After, AuthenticatedSince;
    assert (before + [e])[..|before|] == before && (before + [e])[|before|] == e;
    if e.Request? { AuthedMeansSince(before, e.pact); }
  }

  lemma InsideOnly(events: seq<Event>, corr: string)
    ensures forall i | Asks(events, i, corr) :: 0 <= i < |events| && events[i].Request?
  {
  }

  lemma OutstandingNext(before: seq<Event>, e: Event, corr: string, pact: string)
    ensures IsOutstanding(before + [e], corr, pact) <==>
      || (e.Request? && e.corr == corr && e.pact == pact && AnswerOf(After(before), e) == Issued)
      || (e != Reply(corr) && e != Timeout(corr) && e != Close && IsOutstanding(before, corr, pact))
  {
    hide After, AuthenticatedSince, Asks;
    var all, n := before + [e], |before|;
    assert all[n] == e && forall k | 0 <= k < n :: all[k] == before[k];
    AsksLast(before, e, corr);
    forall i | i < n ensures Asks(all, i, corr) <==> Asks(before, i, corr) { AsksLonger(before, e, i, corr); }
    InsideOnly(all, corr);
    InsideOnly(before, corr);
    if IsOutstanding(all, corr, pact) {
      var i :| Outstanding(all, i, corr, pact);
      if i < n { assert Outstanding(before, i, corr, pact); }
    }
    if e.Request? && e.corr == corr && e.pact == pact && AnswerOf(After(before), e) == Issued {
      assert Outstanding(all, n, corr, pact);
    }
    if e != Reply(corr) && e != Timeout(corr) && e != Close && IsOutstanding(before, corr, pact) {
      var i :| Outstanding(before, i, corr, pact);
      assert Outstanding(all, i, corr, pact);
    }
  }

  lemma {:induction false} PendingIsAsked(events: seq<Event>, corr: string)
    requires FreshTokens(events) && corr in After(events).pending
    ensures exists i :: 0 <= i < |events| && events[i].Request? && events[i].corr == corr
  {
    hide Step;
    EveryRequestSettledOnce(events);
    assert Times(After(events), corr) + 1 == if corr in After(events).issued then 1 else 0;
    IssuedBefore(events, corr);
  }

  lemma StepPending(s: State, e: Event, corr: string, pact: string)
    requires e.Request? ==> e.corr !in s.pending
    ensures var t := Step(s, e);
      corr in t.pending && t.pending[corr] == pact <==>
        || (e.Request? && e.corr == corr && e.pact == pact && AnswerOf(s, e) == Issued)
        || (e != Reply(corr) && e != Timeout(corr) && e != Close && corr in s.pending && s.pending[corr] == pact)
  {
    hide Flush;
  }

  /** The table holds exactly the requests that are outstanding by the events. */
  lemma {:induction false} PendingExactlyWhen(events: seq<Event>, corr: string, pact: string)
    requires FreshTokens(events)
    ensures corr in After(events).pending && After(events).pending[corr] == pact <==> IsOutstanding(events, corr, pact)
  {
    if events == [] {
    } else {
      hide IsOutstanding, Step, AnswerOf;
      var n := |events| - 1;
      var before, e := events[..n], events[n];
      assert events == before + [e];
      PendingExactlyWhen(before, corr, pact);
      OutstandingNext(before, e, corr, pact);
      if e.Request? && e.corr in After(before).pending {
        PendingIsAsked(before, e.corr);
        assert false;
      }
      StepPending(After(before), e, corr, pact);
    }
  }

  /** Every answer to a request, exactly, by what has happened on the link. */
  lemma {:induction false} AnswerExactlyWhen(events: seq<Event>, e: Event)
    requires FreshTokens(events) && e.Request?
    ensures var answer := AnswerOf(After(events), e);
      && (answer == NotMember <==> !e.isMember)
      && (answer == ChannelClosed <==> e.isMember && !e.hasChannel)
      && (answer == AlreadyAuthed <==> e.isMember && e.hasChannel && AuthenticatedSince(events, e.pact))
      && (answer == AlreadyPending <==>
            && e.isMember && e.hasChannel && !AuthenticatedSince(events, e.pact)
            && exists corr :: IsOutstanding(events, corr, e.pact))
      && (answer == Issued || answer == NotSent ==> (answer == Issued <==> e.sent))
  {
    hide After, IsOutstanding, AuthenticatedSince;
    AuthedMeansSince(events, e.pact);
    var pending := After(events).pending;
    forall corr ensures corr in pending && pending[corr] == e.pact <==> IsOutstanding(events, corr, e.pact) {
      PendingExactlyWhen(events, corr, e.pact);
    }
    if e.pact in pending.Values { var corr :| corr in pending && pending[corr] == e.pact; }
    if corr :| IsOutstanding(events, corr, e.pact) { assert pending[corr] in pending.Values; }
  }

  /** Event `i` ended the request, and how. */
  ghost predicate EndedBy(events: seq<Event>, i: int, corr: string, cause: Cause) {
    && 0 <= i < |events|
    && match cause
       case Replied => events[i] == Reply(corr) && corr in After(events[..i]).pending
       case TimedOut => events[i] == Timeout(corr) && corr in After(events[..i]).pending
       case Disconnected => events[i] == Close && corr in After(events[..i]).pending
       case SendFailed => Asks(events, i, corr) && !events[i].sent
  }

  lemma EndedLonger(before: seq<Event>, e: Event, i: int, corr: string, cause: Cause)
    requires i < |before|
    ensures EndedBy(before + [e], i, corr, cause) <==> EndedBy(before, i, corr, cause)
  {
    hide After, Asks;
    if 0 <= i {
      assert (before + [e])[..i] == before[..i] && (before + [e])[i] == before[i];
      AsksLonger(before, e, i, corr);
    }
  }

  lemma StepSettles(s: State, e: Event, corr: string, cause: Cause)
    ensures Step(s, e).settled[Settlement(corr, cause)] == s.settled[Settlement(corr, cause)] +
            if match cause
               case Replied => e == Reply(corr) && corr in s.pending
               case TimedOut => e == Timeout(corr) && corr in s.pending
               case Disconnected => e == Close && corr in s.pending
               case SendFailed => e.Request? && e.corr == corr && AnswerOf(s, e) == NotSent
            then 1 else 0
  {
    hide Flush;
    FlushCounts(s.pending, corr);
  }

  lemma EndedInside(events: seq<Event>, i: int, corr: string, cause: Cause)
    ensures EndedBy(events, i, corr, cause) ==> 0 <= i < |events|
  {
  }

  lemma EndedLast(before: seq<Event>, e: Event, corr: string, cause: Cause)
    ensures EndedBy(before + [e], |before|, corr, cause) <==>
            match cause
            case Replied => e == Reply(corr) && corr in After(before).pending
            case TimedOut => e == Timeout(corr) && corr in After(before).pending
            case Disconnected => e == Close && corr in After(before).pending
            case SendFailed => e.Request? && e.corr == corr && AnswerOf(After(before), e) == NotSent
  {
    hide After, Asks;
    AsksLast(before, e, corr);
    assert (before + [e])[..|before|] == before && (before + [e])[|before|] == e;
  }

  /** A request counts as settled by a cause exactly if an event of that kind found it in the
      table, or its own send failed. */
  lemma {:induction false} CauseExactlyWhen(events: seq<Event>, corr: string, cause: Cause)
    ensures After(events).settled[Settlement(corr, cause)] > 0 <==> exists i :: EndedBy(events, i, corr, cause)
  {
    if events == [] {
    } else {
      hide Asks, Step, EndedBy;
      var n := |events| - 1;
      var before, e := events[..n], events[n];
      assert events == before + [e];
      CauseExactlyWhen(before, corr, cause);
      StepSettles(After(before), e, corr, cause);
      EndedLast(before, e, corr, cause);
      if i :| EndedBy(before, i, corr, cause) {
        EndedInside(before, i, corr, cause);
        EndedLonger(before, e, i, corr, cause);
      }
      if i :| EndedBy(events, i, corr, cause) {
        EndedInside(events, i, corr, cause);
        if i < n { EndedLonger(before, e, i, corr, cause); }
      }
    }
  }
}
