/** The ledger a pact agrees on, as a record of sets and maps, and what one log
    node does to it. */
module Ledger {
  import opened Results
  import opened Entries
  import Lexicographic
  import EntryIds

  /** A register's value and the timestamp it was written with. */
  datatype Stamp = Stamp(value: Option<string>, ts: string)

  datatype InviteRow = InviteRow(redeemedBy: string, redeemedAt: string, redeemer: string)

  datatype RowKey = RowKey(entryType: EntryType, timestamp: string, id: Id)

  datatype RefKey = RefKey(target: string, source: Id)

  type Id = s: string | '/' !in s

  datatype State = State(
    members: set<string>,
    indexers: set<string>,
    invites: map<string, InviteRow>,
    agents: map<string, Stamp>,
    name: Option<Stamp>,
    purpose: Option<Stamp>,
    entries: map<RowKey, Stored>,
    refs: map<RefKey, Stored>)

  const EMPTY := State({}, {}, map[], map[], None, None, map[], map[])

  /** What the reducer reports for a node. */
  datatype Event =
    | Invalid(reason: Reason)
    | AppliedAdmin
    | AppliedInvite
    | AppliedEntry(key: RowKey, stored: Stored)

  datatype HostCall = HostAddWriter(key: string, indexer: bool) | HostRemoveWriter(key: string)

  datatype Outcome = Outcome(state: State, event: Event, calls: seq<HostCall>)

  datatype Authored = Authored(entry: Entry, writer: string)

  /** Peer handles are a function of the writer key: `derive`. */
  function Gate(derive: string -> string, n: Node): (r: Result<Authored, Reason>)
    ensures r.Ok? ==> n.writerKey == Some(r.value.writer) && r.value.entry.agentId == derive(r.value.writer)
    ensures r.Ok? ==> Hex(r.value.writer, 64) && ValidBody(r.value.entry.body) && r.value.entry.timestamp != ""
  {
    match n.value
    case Refused(reason) => Err(reason)
    case Accepted(e) =>
      if n.writerKey.None? then Err(NoWriterKey)
      else if e.agentId != derive(n.writerKey.value) then Err(AgentMismatch)
      else Ok(Authored(e, n.writerKey.value))
  }

  /** The display name an entry asks to register, if any. */
  function NameOf(e: Entry): Option<string> {
    if e.displayName.None? || Trim(e.displayName.value) == "" then None
    else Some(Trim(e.displayName.value))
  }

  /** A register keeps its value unless the new timestamp is strictly greater. */
  function Newer(prev: Option<Stamp>, s: Stamp): Stamp {
    if prev.Some? && Lexicographic.AtMost(s.ts, prev.value.ts) then prev.value else s
  }

  function Find<K, V>(m: map<K, V>, k: K): Option<V> {
    if k in m then Some(m[k]) else None
  }

  function NameAgent(s: State, e: Entry): State {
    match NameOf(e)
    case None => s
    case Some(name) => s.(agents := s.agents[e.agentId := Newer(Find(s.agents, e.agentId),
                                                                Stamp(Some(name), e.timestamp))])
  }

  /** The first writer to reach an empty member set, or an empty indexer set, joins it. */
  function Welcome(s: State, writer: string): State {
    s.(members := if s.members == {} then {writer} else s.members,
       indexers := if s.indexers == {} then {writer} else s.indexers)
  }

  function Greet(s: State, a: Authored): State {
    Welcome(NameAgent(s, a.entry), a.writer)
  }

  predicate IsAdmin(b: Body) { b.AddWriter? || b.RemoveWriter? || b.SetInfo? }

  /** Admin entries need indexer authority, except a writer removing itself. */
  predicate MayAdminister(s: State, a: Authored) {
    a.writer in s.indexers || a.entry.body == RemoveWriter(a.writer)
  }

  function ApplyAdmin(s: State, e: Entry): State
    requires IsAdmin(e.body)
  {
    match e.body
    case AddWriter(key, indexer) =>
      s.(members := s.members + {key}, indexers := if indexer then s.indexers + {key} else s.indexers)
    case RemoveWriter(key) =>
      s.(members := s.members - {key}, indexers := s.indexers - {key})
    case SetInfo(name, purpose) =>
      s.(name := if name.Some? then Some(Newer(s.name, Stamp(name.value, e.timestamp))) else s.name,
         purpose := if purpose.Some? then Some(Newer(s.purpose, Stamp(purpose.value, e.timestamp))) else s.purpose)
  }

  function AdminCalls(b: Body): seq<HostCall> {
    match b
    case AddWriter(key, indexer) => [HostAddWriter(key, indexer)]
    case RemoveWriter(key) => [HostRemoveWriter(key)]
    case _ => []
  }

  function NodeId(n: Node): Id
    requires n.writerKey.Some?
  {
    EntryIds.IdOf(n.writerKey.value, if n.length.Some? then n.length.value else 0)
  }

  function RefRows(refs: seq<string>, stored: Stored): (m: map<RefKey, Stored>)
    requires '/' !in stored.id
    ensures forall k :: k in m <==> k.target in refs && k.target != "" && k.source == stored.id
    ensures forall k | k in m :: m[k] == stored
  {
    map t | t in refs && t != "" :: RefKey(t, stored.id) := stored
  }

  function StorePost(s: State, e: Entry, id: Id): Outcome
    requires e.body.Post?
  {
    var stored := Stored(id, e);
    var key := RowKey(TypeOf(e.body.content), e.timestamp, id);
    Outcome(s.(entries := s.entries[key := stored], refs := s.refs + RefRows(e.refs, stored)),
            AppliedEntry(key, stored), [])
  }

  function SpendInvite(s: State, a: Authored): Outcome
    requires a.entry.body.InviteRedeemed?
  {
    var InviteRedeemed(nonce, joiner) := a.entry.body;
    if a.writer !in s.indexers then Outcome(s, Invalid(InviteFromNonIndexer), [])
    else if nonce in s.invites then Outcome(s, Invalid(InviteAlreadySpent), [])
    else Outcome(s.(invites := s.invites[nonce := InviteRow(joiner, a.entry.timestamp, a.entry.agentId)]),
                 AppliedInvite, [])
  }

  function Dispatch(s: State, a: Authored, id: Id): Outcome {
    match a.entry.body
    case InviteRedeemed(_, _) => SpendInvite(s, a)
    case Post(_) => StorePost(s, a.entry, id)
    case _ =>
      if !MayAdminister(s, a) then Outcome(s, Invalid(AdminFromNonIndexer), [])
      else Outcome(ApplyAdmin(s, a.entry), AppliedAdmin, AdminCalls(a.entry.body))
  }

  function Step(derive: string -> string, s: State, n: Node): Outcome {
    match Gate(derive, n)
    case Err(reason) => Outcome(s, Invalid(reason), [])
    case Ok(a) => Dispatch(Greet(s, a), a, NodeId(n))
  }

  function Run(derive: string -> string, s: State, nodes: seq<Node>): State {
    if nodes == [] then s else Step(derive, Run(derive, s, nodes[..|nodes| - 1]), nodes[|nodes| - 1]).state
  }

  function Events(derive: string -> string, s: State, nodes: seq<Node>): (events: seq<Event>)
    ensures |events| == |nodes|
  {
    if nodes == [] then [] else
      var before := nodes[..|nodes| - 1];
      Events(derive, s, before) + [Step(derive, Run(derive, s, before), nodes[|nodes| - 1]).event]
  }

  function Calls(derive: string -> string, s: State, nodes: seq<Node>): seq<HostCall> {
    if nodes == [] then [] else
      var before := nodes[..|nodes| - 1];
      Calls(derive, s, before) + Step(derive, Run(derive, s, before), nodes[|nodes| - 1]).calls
  }

  lemma {:induction false} RunStep(derive: string -> string, s: State, nodes: seq<Node>, i: nat)
    requires i < |nodes|
    ensures var o := Step(derive, Run(derive, s, nodes[..i]), nodes[i]);
      && Run(derive, s, nodes[..i + 1]) == o.state
      && Events(derive, s, nodes[..i + 1]) == Events(derive, s, nodes[..i]) + [o.event]
      && Calls(derive, s, nodes[..i + 1]) == Calls(derive, s, nodes[..i]) + o.calls
  {
    hide Step;
    assert nodes[..i + 1][..i] == nodes[..i];
  }

  /** The event of a node is the event of its step, at its point in the run. */
  lemma {:induction false} EventAt(derive: string -> string, s: State, nodes: seq<Node>, i: nat)
    requires i < |nodes|
    ensures Events(derive, s, nodes)[i] == Step(derive, Run(derive, s, nodes[..i]), nodes[i]).event
  {
    hide Step;
    var last := |nodes| - 1;
    if i < last {
      EventAt(derive, s, nodes[..last], i);
      assert nodes[..last][..i] == nodes[..i];
    }
  }

  /** Greeting a writer touches the agent names and the two writer sets only. */
  lemma GreetFrame(s: State, a: Authored)
    ensures var g := Greet(s, a);
      g == s.(agents := NameAgent(s, a.entry).agents, members := Welcome(s, a.writer).members,
              indexers := Welcome(s, a.writer).indexers)
  {
  }
}
