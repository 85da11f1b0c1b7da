/** Last-writer-wins registers over whole runs: agent display names, and the pact's
    name and purpose. */
module Registers {
  import opened Results
  import opened Entries
  import opened Ledger
  import opened Lexicographic

  /** The write that wins: greatest timestamp, earliest in log order on ties. */
  ghost predicate Wins(writes: seq<Stamp>, i: int) {
    && 0 <= i < |writes|
    && forall j | 0 <= j < |writes| ::
        AtMost(writes[j].ts, writes[i].ts) && (j < i ==> Less(writes[j].ts, writes[i].ts))
  }

  /** A register holds the winning write, or nothing if it was never written. */
  ghost predicate HoldsWinner(writes: seq<Stamp>, register: Option<Stamp>) {
    match register
    case None => writes == []
    case Some(stamp) => exists i :: Wins(writes, i) && writes[i] == stamp
  }

  lemma WriteKeepsWinner(writes: seq<Stamp>, register: Option<Stamp>, w: Stamp)
    requires HoldsWinner(writes, register)
    ensures HoldsWinner(writes + [w], Some(Newer(register, w)))
  {
    var all := writes + [w];
    if register.None? {
      assert Wins(all, 0);
    } else {
      var i :| Wins(writes, i) && writes[i] == register.value;
      Trichotomy(w.ts, writes[i].ts);
      if AtMost(w.ts, writes[i].ts) {
        assert Wins(all, i);
      } else {
        forall j | 0 <= j < |writes| ensures Less(writes[j].ts, w.ts) {
          if writes[j].ts != writes[i].ts { Transitive(writes[j].ts, writes[i].ts, w.ts); }
        }
        assert Wins(all, |writes|);
      }
    }
  }

  /** When timestamps differ, the winner does not depend on the order of the writes. */
  lemma WinnerIgnoresOrder(a: seq<Stamp>, b: seq<Stamp>, ra: Option<Stamp>, rb: Option<Stamp>)
    requires HoldsWinner(a, ra) && HoldsWinner(b, rb)
    requires forall x :: x in a <==> x in b
    requires forall x, y | x in a && y in a && x.ts == y.ts :: x == y
    ensures ra == rb
  {
    if a == [] {
      if b != [] { HasMember(b); }
    } else {
      assert a[0] in b;
      var i :| Wins(a, i) && a[i] == ra.value;
      var j :| Wins(b, j) && b[j] == rb.value;
      assert a[i] in b && b[j] in a;
      var i' :| 0 <= i' < |b| && b[i'] == a[i];
      var j' :| 0 <= j' < |a| && a[j'] == b[j];
      Trichotomy(a[i].ts, b[j].ts);
    }
  }

  // ── Agent names ──────────────────────────────────────────────────────────────

  /** The name write a node makes for handle `h`, if it makes one: any valid node of a
      writer whose key derives to `h`, whether or not the entry is then accepted. */
  function NameWrite(derive: string -> string, n: Node, h: string): Option<Stamp> {
    match Gate(derive, n)
    case Err(_) => None
    case Ok(a) =>
      if derive(a.writer) == h && NameOf(a.entry).Some? then Some(Stamp(Some(NameOf(a.entry).value), a.entry.timestamp))
      else None
  }

  /** A node names its agent exactly if its value passed validation, the handle is its writer's,
      and the display name has something other than space in it: what remains when trimmed. */
  lemma NameWrittenExactlyWhen(derive: string -> string, n: Node, h: string, w: Stamp)
    ensures NameWrite(derive, n, h) == Some(w) <==>
      && n.value.Accepted? && n.writerKey.Some?
      && n.value.entry.agentId == derive(n.writerKey.value) == h
      && n.value.entry.displayName.Some? && !AllSpace(n.value.entry.displayName.value)
      && w == Stamp(Some(Trim(n.value.entry.displayName.value)), n.value.entry.timestamp)
  {
    hide Trim, AllSpace;
    if n.value.Accepted? && n.value.entry.displayName.Some? { TrimIsEmpty(n.value.entry.displayName.value); }
  }

  function NameWrites(derive: string -> string, nodes: seq<Node>, h: string): seq<Stamp> {
    if nodes == [] then [] else
      var w := NameWrite(derive, nodes[|nodes| - 1], h);
      NameWrites(derive, nodes[..|nodes| - 1], h) + if w.Some? then [w.value] else []
  }

  lemma DispatchKeepsAgents(s: State, a: Authored, id: Id)
    ensures Dispatch(s, a, id).state.agents == s.agents
  {
  }

  /** A step changes the name of `h` only by a name write for `h`. */
  lemma StepAgents(derive: string -> string, s: State, n: Node, h: string)
    ensures Find(Step(derive, s, n).state.agents, h) ==
            match NameWrite(derive, n, h) case None => Find(s.agents,
                                                            h) case Some(w) => Some(Newer(Find(s.agents, h), w))
  {
    hide Dispatch, NodeId, NameOf;
    match Gate(derive, n) {
      case Err(_) =>
      case Ok(a) => DispatchKeepsAgents(Greet(s, a), a, NodeId(n));
    }
  }

  /** `_agents/h` holds the name write for `h` with the greatest timestamp, the earliest one on ties. */
  lemma {:induction false} AgentNameIsLastWrite(derive: string -> string, nodes: seq<Node>, h: string)
    ensures HoldsWinner(NameWrites(derive, nodes, h), Find(Run(derive, EMPTY, nodes).agents, h))
  {
    if nodes == [] {
    } else {
      hide Step, NameWrite, HoldsWinner;
      var k := |nodes| - 1;
      AgentNameIsLastWrite(derive, nodes[..k], h);
      var s := Run(derive, EMPTY, nodes[..k]);
      StepAgents(derive, s, nodes[k], h);
      var w := NameWrite(derive, nodes[k], h);
      if w.Some? {
        WriteKeepsWinner(NameWrites(derive, nodes[..k], h), Find(s.agents, h), w.value);
      } else {
        assert NameWrites(derive, nodes, h) == NameWrites(derive, nodes[..k], h);
      }
    }
  }

  lemma {:induction false} NameWritesMembers(derive: string -> string, nodes: seq<Node>, h: string, w: Stamp)
    ensures w in NameWrites(derive, nodes, h) <==> exists n :: n in nodes && NameWrite(derive, n, h) == Some(w)
  {
    if nodes == [] {
    } else {
      var k := |nodes| - 1;
      NameWritesMembers(derive, nodes[..k], h, w);
      assert nodes == nodes[..k] + [nodes[k]];
      assert forall n :: n in nodes <==> n in nodes[..k] || n == nodes[k];
      if NameWrite(derive, nodes[k], h) == Some(w) { assert nodes[k] in nodes; }
    }
  }

  /** With distinct timestamps per agent, two linearisations of the same nodes leave the same names. */
  lemma {:induction false} AgentNamesIgnoreOrder(derive: string -> string, a: seq<Node>, b: seq<Node>, h: string)
    requires multiset(a) == multiset(b)
    requires forall x, y | x in NameWrites(derive, a, h) && y in NameWrites(derive, a, h) && x.ts == y.ts :: x == y
    ensures Find(Run(derive, EMPTY, a).agents, h) == Find(Run(derive, EMPTY, b).agents, h)
  {
    hide Run, HoldsWinner;
    AgentNameIsLastWrite(derive, a, h);
    AgentNameIsLastWrite(derive, b, h);
    forall w ensures w in NameWrites(derive, a, h) <==> w in NameWrites(derive, b, h) {
      NameWritesMembers(derive, a, h, w);
      NameWritesMembers(derive, b, h, w);
      assert forall n :: (n in a <==> n in multiset(a)) && (n in b <==> n in multiset(b));
    }
    WinnerIgnoresOrder(NameWrites(derive, a, h), NameWrites(derive, b, h),
                       Find(Run(derive, EMPTY, a).agents, h), Find(Run(derive, EMPTY, b).agents, h));
  }

  // ── Pact name and purpose ────────────────────────────────────────────────────

  datatype Register = PactName | PactPurpose

  function Read(s: State, r: Register): Option<Stamp> {
    if r.PactName? then s.name else s.purpose
  }

  /** The register write of a `setInfo` entry accepted in state `s`: its author is an
      indexer once greeted, and the field is present (null clears it). */
  function InfoWrite(derive: string -> string, s: State, n: Node, r: Register): Option<Stamp> {
    match Gate(derive, n)
    case Err(_) => None
    case Ok(a) =>
      if !a.entry.body.SetInfo? || a.writer !in Welcome(s, a.writer).indexers then None
      else
        var field := if r.PactName? then a.entry.body.name else a.entry.body.purpose;
        if field.None? then None else Some(Stamp(field.value, a.entry.timestamp))
  }

  function InfoWrites(derive: string -> string, nodes: seq<Node>, r: Register): seq<Stamp> {
    if nodes == [] then [] else
      var before := nodes[..|nodes| - 1];
      var w := InfoWrite(derive, Run(derive, EMPTY, before), nodes[|nodes| - 1], r);
      InfoWrites(derive, before, r) + if w.Some? then [w.value] else []
  }

  /** Only an authorised `setInfo` entry that has the field writes the register. */
  lemma DispatchInfo(s: State, a: Authored, id: Id, r: Register)
    ensures var t := Dispatch(s, a, id).state;
      if a.entry.body.SetInfo? && a.writer in s.indexers then
        var field := if r.PactName? then a.entry.body.name else a.entry.body.purpose;
        Read(t, r) == if field.None? then Read(s, r) else Some(Newer(Read(s, r), Stamp(field.value, a.entry.timestamp)))
      else Read(t, r) == Read(s, r)
  {
    hide RefRows, Newer;
  }

  lemma StepInfo(derive: string -> string, s: State, n: Node, r: Register)
    ensures Read(Step(derive, s, n).state, r) ==
            match InfoWrite(derive, s, n, r) case None => Read(s, r) case Some(w) => Some(Newer(Read(s, r), w))
  {
    hide NodeId, RefRows, Greet, Dispatch, Newer;
    match Gate(derive, n) {
      case Err(_) =>
      case Ok(a) =>
        GreetFrame(s, a);
        DispatchInfo(Greet(s, a), a, NodeId(n), r);
    }
  }

  /** `_pact/name` and `_pact/purpose` hold the accepted write with the greatest timestamp, the earliest on ties. */
  lemma {:induction false} InfoIsLastWrite(derive: string -> string, nodes: seq<Node>, r: Register)
    ensures HoldsWinner(InfoWrites(derive, nodes, r), Read(Run(derive, EMPTY, nodes), r))
  {
    if nodes == [] {
    } else {
      hide Step, InfoWrite, HoldsWinner;
      var k := |nodes| - 1;
      InfoIsLastWrite(derive, nodes[..k], r);
      var s := Run(derive, EMPTY, nodes[..k]);
      StepInfo(derive, s, nodes[k], r);
      var w := InfoWrite(derive, s, nodes[k], r);
      if w.Some? {
        WriteKeepsWinner(InfoWrites(derive, nodes[..k], r), Read(s, r), w.value);
      } else {
        assert InfoWrites(derive, nodes, r) == InfoWrites(derive, nodes[..k], r);
      }
    }
  }

  lemma NewerNeverOlder(prev: Option<Stamp>, w: Stamp)
    ensures prev.Some? ==> AtMost(prev.value.ts, Newer(prev, w).ts)
  {
    if prev.Some? { Trichotomy(w.ts, prev.value.ts); }
  }

  /** Stored timestamps never go back, and a register once written stays written. */
  lemma StampsNeverDecrease(derive: string -> string, s: State, n: Node, h: string, r: Register)
    ensures var t := Step(derive, s, n).state;
      && (Find(s.agents, h).Some? ==>
          Find(t.agents, h).Some? && AtMost(Find(s.agents, h).value.ts, Find(t.agents, h).value.ts))
      && (Read(s, r).Some? ==> Read(t, r).Some? && AtMost(Read(s, r).value.ts, Read(t, r).value.ts))
  {
    hide Step;
    StepAgents(derive, s, n, h);
    StepInfo(derive, s, n, r);
    match NameWrite(derive, n, h) { case None => case Some(w) => NewerNeverOlder(Find(s.agents, h), w); }
    match InfoWrite(derive, s, n, r) { case None => case Some(w) => NewerNeverOlder(Read(s, r), w); }
  }
}
