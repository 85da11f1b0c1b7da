/** Redeeming through every connected peer: replies, disconnects and the timer in any order. */
module FanOut {
  import opened Results

  datatype Code =
    | InviteNotIndexer
    | UnknownPact
    | NoIndexerReachable
    | NoAgents
    | Internal
    | AgentDisconnected
    | Other(text: string)

  datatype Response = Response(ok: bool, nonce: Option<string>, code: Option<Code>)

  datatype Settlement = Admitted(nonce: string) | Refused(code: Code)

  /** A connected peer: whether it speaks the invite protocol, and whether the request went out. */
  datatype Link = Link(id: nat, hasChannel: bool, sendOk: bool)

  /** `waiting` are the links whose reply is still awaited; `resolved` counts promise resolutions. */
  datatype State =
    | State(waiting: set<nat>, outstanding: int, responses: seq<Response>, settled: Option<Settlement>, resolved: nat)

  /** A disconnect answers for the peer, with a failure. */
  datatype Event = Answer(link: nat, response: Response) | Disconnect(link: nat) | Timer

  const LOST := Response(false, None, Some(AgentDisconnected))

  predicate Asked(l: Link) { l.hasChannel && l.sendOk }

  function AskedIds(links: seq<Link>): set<nat> {
    set l | l in links && Asked(l) :: l.id
  }

  predicate Retryable(r: Response) { r.code == Some(InviteNotIndexer) || r.code == Some(UnknownPact) }

  predicate Terminal(r: Response) { !r.ok && !Retryable(r) }

  function CodeOr(c: Option<Code>, fallback: Code): Code { if c.Some? then c.value else fallback }

  function Resolve(s: State, r: Settlement): State {
    if s.settled.Some? then s else s.(settled := Some(r), resolved := s.resolved + 1)
  }

  function Done(s: State, r: Response): State {
    Resolve(s, if r.ok && r.nonce.Some? && r.nonce.value != "" then Admitted(r.nonce.value)
            else Refused(CodeOr(r.code, Internal)))
  }

  function FirstTerminal(responses: seq<Response>): (r: Option<Response>)
    ensures r.None? <==> forall x | x in responses :: x.ok || x.code in {Some(InviteNotIndexer), Some(UnknownPact)}
    ensures r.Some? ==> exists i | 0 <= i < |responses| ::
              && responses[i] == r.value && !r.value.ok && r.value.code !in {Some(InviteNotIndexer), Some(UnknownPact)}
              && forall j | 0 <= j < i ::
                   responses[j].ok || responses[j].code in {Some(InviteNotIndexer), Some(UnknownPact)}
  {
    if responses == [] then None
    else if Terminal(responses[0]) then Some(responses[0])
    else
      var rest := FirstTerminal(responses[1..]);
      assert forall j | 0 <= j < |responses[1..]| :: responses[1..][j] == responses[j + 1];
      rest
  }

  /** The callback of one link. */
  function Receive(s: State, link: nat, r: Response): State {
    if link !in s.waiting then s
    else
      var t := s.(waiting := s.waiting - {link}, responses := s.responses + [r]);
      if r.ok then Done(t, r)
      else
        var u := t.(outstanding := t.outstanding - 1);
        if u.outstanding != 0 then u
        else if FirstTerminal(u.responses).Some? then Done(u, FirstTerminal(u.responses).value)
        else Done(u, Response(false, None, Some(NoIndexerReachable)))
  }

  function TimeOut(s: State): State {
    Resolve(s, if s.responses == [] then Refused(NoIndexerReachable)
               else Refused(CodeOr(s.responses[|s.responses| - 1].code, NoIndexerReachable)))
  }

  function Step(s: State, e: Event): State {
    match e
    case Answer(link, r) => Receive(s, link, r)
    case Disconnect(link) => Receive(s, link, LOST)
    case Timer => TimeOut(s)
  }

  function Start(asked: set<nat>): State {
    var s := State(asked, |asked|, [], None, 0);
    if asked == {} then Resolve(s, Refused(NoIndexerReachable)) else s
  }

  function After(asked: set<nat>, events: seq<Event>): State {
    if events == [] then Start(asked) else Step(After(asked, events[..|events| - 1]), events[|events| - 1])
  }
}
