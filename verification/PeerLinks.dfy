/** The peer link as the daemon holds it: one record that the timers and the two channels
    update in place. Each handler is shown to take one step of the protocol models. */
module PeerLinks {
  import opened Results
  import AuthTable
  import EntryIds
  import Liveness

  /** A reply to an auth request; keys and signatures may be missing. */
  datatype AuthReply =
    | AuthReply(ok: bool, memberKey: Option<string>, signerKey: Option<string>, signature: Option<string>)

  datatype AuthOutcome = Authed | TimedOut | VerifyFailed | NotActive

  predicate Present(s: Option<string>) { s.Some? && s.value != "" }

  class PeerLink {
    var interval: bool
    var missed: nat
    var pendingPings: set<string>
    var hasPonged: bool
    var authChannel: bool
    var pendingAuth: map<string, string>
    var claimedMembers: map<string, string>
    var authenticatedMembers: map<string, string>
    /** The promises handed out and resolved so far. */
    ghost var issued: set<string>
    ghost var settled: multiset<AuthTable.Settlement>

    ghost function Heartbeat(): Liveness.State
      reads this
    {
      Liveness.State(interval, missed, pendingPings, hasPonged)
    }

    ghost function Table(): AuthTable.State
      reads this
    {
      AuthTable.State(pendingAuth, authenticatedMembers.Keys, issued, settled)
    }

    constructor ()
      ensures Heartbeat() == Liveness.State(false, 0, {}, false) && Table() == AuthTable.FRESH && !authChannel
    {
      interval, missed, pendingPings, hasPonged := false, 0, {}, false;
      authChannel, pendingAuth, claimedMembers, authenticatedMembers := false, map[], map[], map[];
      issued, settled := {}, multiset{};
    }

    method StartLiveness()
      modifies this`interval, this`missed, this`pendingPings, this`hasPonged
      ensures Heartbeat() == Liveness.STARTED
    {
      missed := 0;
      pendingPings := {};
      hasPonged := false;
      interval := true;
    }

    method StopLiveness()
      modifies this`interval, this`pendingPings
      ensures Heartbeat() == Liveness.Step(old(Heartbeat()), Liveness.Stop).0
    {
      interval := false;
      pendingPings := {};
    }

    /** One firing of the interval; `corr` is the random token of the next ping. */
    method Tick(corr: string, sent: bool) returns (signals: seq<Liveness.Signal>)
      requires interval
      modifies this`interval, this`missed, this`pendingPings
      ensures (Heartbeat(), signals) == Liveness.Step(old(Heartbeat()), Liveness.Tick(corr, sent))
    {
      signals := [];
      if pendingPings != {} {
        missed := missed + 1;
        pendingPings := {};
        signals := [Liveness.Miss(missed)];
        if hasPonged && missed >= Liveness.MAX_MISSES {
          StopLiveness();
          signals := [Liveness.Miss(missed), Liveness.Dead(missed)];
          return;
        }
      }
      pendingPings := pendingPings + {corr};
      if !sent { pendingPings := pendingPings - {corr}; }
      assert pendingPings == if sent then {corr} else {};
    }

    method OnPong(corr: string) returns (signals: seq<Liveness.Signal>)
      modifies this`missed, this`pendingPings, this`hasPonged
      ensures (Heartbeat(), signals) == Liveness.Step(old(Heartbeat()), Liveness.Pong(corr))
    {
      signals := [];
      if corr !in pendingPings { return; }
      pendingPings := pendingPings - {corr};
      var wasMissed := missed > 0;
      missed := 0;
      hasPonged := true;
      if wasMissed { signals := [Liveness.Recover]; }
    }

    /** The scan over the outstanding requests. */
    method AlreadyPending(pactId: string) returns (found: bool)
      ensures found <==> pactId in pendingAuth.Values
    {
      var rest := pendingAuth.Keys;
      found := false;
      while rest != {}
        invariant rest <= pendingAuth.Keys
        invariant forall k | k in pendingAuth.Keys - rest :: pendingAuth[k] != pactId
        decreases |rest|
      {
        var k :| k in rest;
        if pendingAuth[k] == pactId { return true; }
        rest := rest - {k};
      }
    }

    /** The synchronous part of an auth attempt, up to the wait for the reply. */
    method RequestMemberAuth(isMember: bool, pactKey: Option<string>, corr: string, sent: bool)
      returns (answer: AuthTable.Answer)
      requires corr !in pendingAuth
      modifies this`pendingAuth, this`issued, this`settled
      ensures answer == AuthTable.NotMember <==> !isMember || (authChannel && !Present(pactKey))
      ensures answer == AuthTable.ChannelClosed <==> isMember && !authChannel
      ensures answer == AuthTable.AlreadyAuthed <==>
              isMember && authChannel && Present(pactKey) && EntryIds.Lower(pactKey.value) in authenticatedMembers
      ensures !Present(pactKey) ==> Table() == old(Table())
      ensures Present(pactKey) ==>
        var e := AuthTable.Request(EntryIds.Lower(pactKey.value), corr, isMember, authChannel, sent);
        answer == AuthTable.AnswerOf(old(Table()), e) && Table() == AuthTable.Step(old(Table()), e)
    {
      if !isMember { return AuthTable.NotMember; }
      if !authChannel { return AuthTable.ChannelClosed; }
      if pactKey.None? || pactKey.value == "" { return AuthTable.NotMember; }
      var pactId := EntryIds.Lower(pactKey.value);
      if pactId in authenticatedMembers { return AuthTable.AlreadyAuthed; }
      var busy := AlreadyPending(pactId);
      if busy { return AuthTable.AlreadyPending; }
      issued := issued + {corr};
      pendingAuth := pendingAuth[corr := pactId];
      if !sent {
        pendingAuth := pendingAuth - {corr};
        assert pendingAuth == old(pendingAuth) - {corr};
        settled := settled + multiset{AuthTable.Settlement(corr, AuthTable.SendFailed)};
        return AuthTable.NotSent;
      }
      return AuthTable.Issued;
    }

    /** A reply and the timer race for the table entry; the loser finds nothing. */
    method Resolve(corr: string, cause: AuthTable.Cause) returns (found: bool)
      modifies this`pendingAuth, this`settled
      ensures found <==> corr in old(pendingAuth)
      ensures Table() == AuthTable.Settle(old(Table()), corr, cause)
    {
      if corr !in pendingAuth { return false; }
      pendingAuth := pendingAuth - {corr};
      settled := settled + multiset{AuthTable.Settlement(corr, cause)};
      return true;
    }

    method OnAuthResponse(corr: string) returns (found: bool)
      modifies this`pendingAuth, this`settled
      ensures found <==> corr in old(pendingAuth)
      ensures Table() == AuthTable.Step(old(Table()), AuthTable.Reply(corr))
    {
      found := Resolve(corr, AuthTable.Replied);
    }

    method OnAuthTimeout(corr: string) returns (found: bool)
      modifies this`pendingAuth, this`settled
      ensures found <==> corr in old(pendingAuth)
      ensures Table() == AuthTable.Step(old(Table()), AuthTable.Timeout(corr))
    {
      found := Resolve(corr, AuthTable.TimedOut);
    }

    /** Resolves every waiting request with a disconnect. */
    method ResolveAll()
      modifies this`settled
      ensures settled == old(settled) + AuthTable.Flush(pendingAuth)
    {
      hide AuthTable.FlushedOf;
      var rest := pendingAuth.Keys;
      AuthTable.NothingFlushed(settled, pendingAuth.Keys);
      while rest != {}
        invariant rest <= pendingAuth.Keys
        invariant settled == old(settled) + multiset(AuthTable.FlushedOf(pendingAuth.Keys - rest))
        decreases |rest|
      {
        var k :| k in rest;
        AuthTable.FlushedNext(old(settled), pendingAuth.Keys, rest, k);
        settled := settled + multiset{AuthTable.Settlement(k, AuthTable.Disconnected)};
        rest := rest - {k};
      }
    }

    /** Closing either channel resolves every waiting request, then empties the table. */
    method FlushAuth()
      modifies this`pendingAuth, this`settled
      ensures Table() == AuthTable.Step(old(Table()), AuthTable.Close)
    {
      ResolveAll();
      pendingAuth := map[];
    }

    method OnAuthClose()
      modifies this`pendingAuth, this`settled, this`interval, this`pendingPings
      ensures Table() == AuthTable.Step(old(Table()), AuthTable.Close)
      ensures Heartbeat() == Liveness.Step(old(Heartbeat()), Liveness.Stop).0
    {
      FlushAuth();
      StopLiveness();
    }

    method OnAuthenticated(pactId: string, memberKey: string) returns (first: bool)
      modifies this`authenticatedMembers
      ensures first <==> pactId !in old(authenticatedMembers)
      ensures authenticatedMembers == old(authenticatedMembers)[pactId := memberKey]
      ensures Table() == AuthTable.Step(old(Table()), AuthTable.Authenticated(pactId))
    {
      first := pactId !in authenticatedMembers;
      authenticatedMembers := authenticatedMembers[pactId := memberKey];
    }

    /** What follows the wait: no reply means the timer won the race. The key that a verified
        reply names is claimed; it is authenticated if and only if it is an active member's. */
    method FinishMemberAuth(pactId: string, reply: Option<AuthReply>, verified: bool, active: bool)
      returns (outcome: AuthOutcome, first: bool)
      modifies this`claimedMembers, this`authenticatedMembers
      ensures outcome == TimedOut <==> reply.None?
      ensures outcome == VerifyFailed <==>
        reply.Some? &&
          !(reply.value.ok && reply.value.memberKey !in {None, Some("")} && reply.value.signerKey !in {None, Some("")}
            && reply.value.signature !in {None, Some("")} && verified)
      ensures outcome == NotActive || outcome == Authed ==> (outcome == Authed <==> active)
      ensures claimedMembers == if outcome == Authed || outcome == NotActive
                                then old(claimedMembers)[pactId := EntryIds.Lower(reply.value.memberKey.value)]
                                else old(claimedMembers)
      ensures authenticatedMembers == if outcome == Authed
                                      then old(authenticatedMembers)[pactId :=
                                             EntryIds.Lower(reply.value.memberKey.value)]
                                      else old(authenticatedMembers)
      ensures first <==> outcome == Authed && pactId !in old(authenticatedMembers)
      ensures Table() == if outcome == Authed then AuthTable.Step(old(Table()), AuthTable.Authenticated(pactId))
          else old(Table())
    {
      first := false;
      if reply.None? { return TimedOut, false; }
      var res := reply.value;
      if !res.ok || !Present(res.memberKey) || !Present(res.signerKey) || !Present(res.signature) {
        return VerifyFailed, false;
      }
      if !verified { return VerifyFailed, false; }
      var memberKey := EntryIds.Lower(res.memberKey.value);
      claimedMembers := claimedMembers[pactId := memberKey];
      if !active { return NotActive, false; }
      first := OnAuthenticated(pactId, memberKey);
      return Authed, first;
    }
  }
}
