/** One fan-out redeem as the daemon runs it: the variables its callbacks and its timer
    share, each callback shown to take one step of the model. */
module RedeemCall {
  import opened Results
  import opened FanOut

  ghost predicate DistinctLinks(links: seq<Link>) {
    forall i, j | 0 <= i < j < |links| :: links[i].id != links[j].id
  }

  /** The first `i` links have been gone through. */
  ghost predicate Sent(links: seq<Link>, i: int, waiting: set<nat>, outstanding: int) {
    0 <= i <= |links| && waiting == AskedIds(links[..i]) && outstanding == |waiting|
  }

  lemma SentNext(links: seq<Link>, i: nat, waiting: set<nat>, outstanding: int)
    requires i < |links| && DistinctLinks(links) && Sent(links, i, waiting, outstanding)
    ensures if links[i].hasChannel && links[i].sendOk then Sent(links, i + 1, waiting + {links[i].id}, outstanding + 1)
            else Sent(links, i + 1, waiting, outstanding)
  {
    assert links[..i + 1] == links[..i] + [links[i]];
    assert forall l :: l in links[..i + 1] <==> l in links[..i] || l == links[i];
    assert AskedIds(links[..i + 1]) == if Asked(links[i]) then waiting + {links[i].id} else waiting;
    if Asked(links[i]) { assert links[i].id !in waiting; }
  }

  lemma SentAll(links: seq<Link>, waiting: set<nat>, outstanding: int)
    requires Sent(links, |links|, waiting, outstanding)
    ensures var s := State(waiting, outstanding, [], None, 0);
      Start(AskedIds(links)) == if outstanding == 0 then Resolve(s, Refused(NoIndexerReachable)) else s
  {
    assert links[..|links|] == links;
  }

  /** A call starts out waiting for exactly the peers that speak the protocol and took the request;
      with none of those it is settled at once. */
  lemma StartExactlyWhen(links: seq<Link>)
    ensures var s := Start(AskedIds(links)); var asked := set l | l in links && l.hasChannel && l.sendOk :: l.id;
      && s.waiting == asked && s.outstanding == |asked| && s.responses == []
      && s.settled == (if asked == {} then Some(Refused(NoIndexerReachable)) else None)
      && s.resolved == (if asked == {} then 1 else 0)
  {
  }

  class RedeemCall {
    var waiting: set<nat>
    var outstanding: int
    var responses: seq<Response>
    var settled: Option<Settlement>
    var resolved: nat
    /** The peers with which replication was started on their admission, in order. */
    var replicating: seq<nat>

    ghost function Model(): State
      reads this
    {
      State(waiting, outstanding, responses, settled, resolved)
    }

    constructor ()
      ensures Model() == State({}, 0, [], None, 0) && replicating == []
    {
      waiting, outstanding, responses, settled, resolved, replicating := {}, 0, [], None, 0, [];
    }

    method Finish(r: Settlement)
      modifies this`settled, this`resolved
      ensures Model() == Resolve(old(Model()), r)
    {
      if settled.Some? { return; }
      settled := Some(r);
      resolved := resolved + 1;
    }

    /** The sending loop: only peers that speak the invite protocol and accept the request count. */
    method Ask(links: seq<Link>)
      requires Model() == State({}, 0, [], None, 0)
      requires DistinctLinks(links)
      modifies this
      ensures replicating == old(replicating)
      ensures links == [] ==> Model() == State({}, 0, [], Some(Refused(NoAgents)), 1)
      ensures links != [] ==> Model() == Start(AskedIds(links))
    {
      if |links| == 0 {
        Finish(Refused(NoAgents));
        return;
      }
      hide AskedIds, DistinctLinks, Sent, Start;
      assert Sent(links, 0, {}, 0) by { assert AskedIds([]) == {}; }
      for i := 0 to |links|
        invariant Sent(links, i, waiting, outstanding)
        invariant responses == [] && settled == None && resolved == 0 && replicating == old(replicating)
      {
        SentNext(links, i, waiting, outstanding);
        if !links[i].hasChannel { continue; }
        if !links[i].sendOk { continue; }
        outstanding := outstanding + 1;
        waiting := waiting + {links[i].id};
      }
      SentAll(links, waiting, outstanding);
      if outstanding == 0 { Finish(Refused(NoIndexerReachable)); }
    }

    method Report(r: Response)
      modifies this`settled, this`resolved
      ensures Model() == Done(old(Model()), r)
    {
      if r.ok && r.nonce.Some? && r.nonce.value != "" { Finish(Admitted(r.nonce.value)); }
      else { Finish(Refused(CodeOr(r.code, Internal))); }
    }

    method FindTerminal() returns (r: Option<Response>)
      ensures r == FirstTerminal(responses)
    {
      for i := 0 to |responses|
        invariant FirstTerminal(responses) == FirstTerminal(responses[i..])
      {
        if Terminal(responses[i]) { return Some(responses[i]); }
      }
      return None;
    }

    /** A reply, looked up by its request among the link's pending ones and deleted there. Every
        success starts replication with its peer, even one that comes too late to settle the call. */
    method OnReply(link: nat, r: Response)
      modifies this
      ensures Model() == Step(old(Model()), Answer(link, r))
      ensures replicating == old(replicating) + if link in old(waiting) && r.ok then [link] else []
    {
      if link !in waiting { return; }
      waiting := waiting - {link};
      responses := responses + [r];
      if r.ok {
        replicating := replicating + [link];
        Report(r);
        return;
      }
      outstanding := outstanding - 1;
      if outstanding == 0 {
        var terminal := FindTerminal();
        if terminal.Some? {
          Report(terminal.value);
          return;
        }
        Report(Response(false, None, Some(NoIndexerReachable)));
      }
    }

    /** Closing the channel answers for the peer. */
    method OnClose(link: nat)
      modifies this
      ensures Model() == Step(old(Model()), Disconnect(link)) && replicating == old(replicating)
    {
      OnReply(link, LOST);
    }

    method OnTimer()
      modifies this`settled, this`resolved
      ensures Model() == Step(old(Model()), Timer)
    {
      if |responses| == 0 { Finish(Refused(NoIndexerReachable)); }
      else { Finish(Refused(CodeOr(responses[|responses| - 1].code, NoIndexerReachable))); }
    }
  }
}
