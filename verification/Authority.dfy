/** Who may administer: where indexers come from, how keys leave, and when the
    implicit first indexer is chosen. */
module Authority {
  import opened Results
  import opened Entries
  import opened Ledger
  import EntryIds

  /** The indexers once a node's author has been greeted. */
  function Greeted(s: State, writer: string): set<string> { Welcome(s, writer).indexers }

  predicate Grants(s: State, a: Authored, key: string) {
    a.entry.body == AddWriter(key, true) && a.writer in Greeted(s, a.writer)
  }

  predicate Revokes(s: State, a: Authored, key: string) {
    a.entry.body == RemoveWriter(key) && (a.writer in Greeted(s, a.writer) || a.writer == key)
  }

  lemma StepSets(derive: string -> string, s: State, n: Node)
    ensures var t := Step(derive, s, n).state;
      match Gate(derive, n)
      case Err(_) => t.members == s.members && t.indexers == s.indexers
      case Ok(a) =>
        var w := Welcome(s, a.writer);
        var authorised := a.writer in w.indexers;
        match a.entry.body
        case AddWriter(key, indexer) =>
          && t.members == (if authorised then w.members + {key} else w.members)
          && t.indexers == (if authorised && indexer then w.indexers + {key} else w.indexers)
        case RemoveWriter(key) =>
          && t.members == (if authorised || a.writer == key then w.members - {key} else w.members)
          && t.indexers == (if authorised || a.writer == key then w.indexers - {key} else w.indexers)
        case _ => t.members == w.members && t.indexers == w.indexers
  {
    hide NodeId, RefRows;
    match Gate(derive, n) {
      case Err(_) =>
      case Ok(a) => GreetFrame(s, a);
    }
  }

  /** Both sets after any node, in the terms of the node: whoever comes first is let in, and then
      an indexer adds and removes, and anyone removes itself. */
  lemma WritersAfter(derive: string -> string, s: State, n: Node)
    ensures var t := Step(derive, s, n).state;
      if !(n.value.Accepted? && n.writerKey.Some? && n.value.entry.agentId == derive(n.writerKey.value))
      then t.members == s.members && t.indexers == s.indexers
      else
        var w := n.writerKey.value;
        var members := if s.members == {} then {w} else s.members;
        var indexers := if s.indexers == {} then {w} else s.indexers;
        match n.value.entry.body
        case AddWriter(key, indexer) =>
          && t.members == members + (if w in indexers then {key} else {})
          && t.indexers == indexers + (if w in indexers && indexer then {key} else {})
        case RemoveWriter(key) =>
          && t.members == members - (if w in indexers || w == key then {key} else {})
          && t.indexers == indexers - (if w in indexers || w == key then {key} else {})
        case _ => t.members == members && t.indexers == indexers
  {
    hide Step;
    StepSets(derive, s, n);
  }

  /** A key joins the indexers only by the bootstrap of its own writer or by an indexer's grant. */
  lemma JoinsByGrant(derive: string -> string, s: State, n: Node, key: string)
    requires key !in s.indexers && key in Step(derive, s, n).state.indexers
    ensures Gate(derive, n).Ok?
    ensures var a := Gate(derive, n).value; (s.indexers == {} && key == a.writer) || Grants(s, a, key)
  {
    hide Step;
    StepSets(derive, s, n);
  }

  /** A member or indexer key leaves only by its own removal or by an indexer's. */
  lemma LeavesByRemoval(derive: string -> string, s: State, n: Node, key: string)
    requires key in s.members + s.indexers
    requires var t := Step(derive, s, n).state;
      (key in s.members && key !in t.members) || (key in s.indexers && key !in t.indexers)
    ensures Gate(derive, n).Ok? && Revokes(s, Gate(derive, n).value, key)
  {
    hide Step;
    StepSets(derive, s, n);
  }

  // ── Provenance ───────────────────────────────────────────────────────────────

  /** Why a key is an indexer: node `at` bootstrapped its own writer, or node `at` is the
      grant of a writer whose own standing `grantor` explains. */
  datatype Chain = Root(at: nat) | Link(at: nat, grantor: Chain)

  ghost predicate Certifies(derive: string -> string, nodes: seq<Node>, c: Chain, key: string) {
    && c.at < |nodes|
    && Gate(derive, nodes[c.at]).Ok?
    && var s, a := Run(derive, EMPTY, nodes[..c.at]), Gate(derive, nodes[c.at]).value;
      match c
      case Root(_) => a.writer == key && s.indexers == {}
      case Link(at, grantor) =>
        && Grants(s, a, key)
        && (grantor.at < at || grantor == Root(at))
        && Certifies(derive, nodes, grantor, a.writer)
  }

  lemma {:induction false} CertifiesLonger(derive: string -> string, nodes: seq<Node>, k: nat, c: Chain, key: string)
    requires k <= |nodes| && Certifies(derive, nodes[..k], c, key)
    ensures Certifies(derive, nodes, c, key)
    decreases c
  {
    hide Gate, Run;
    assert nodes[..k][..c.at] == nodes[..c.at];
    if c.Link? { CertifiesLonger(derive, nodes, k, c.grantor, Gate(derive, nodes[c.at]).value.writer); }
  }

  /** In every run from the empty view, each indexer has a finite chain of grants, each
      made by an indexer, back to a bootstrap writer. */
  lemma {:induction false} IndexersHaveProvenance(derive: string -> string, nodes: seq<Node>, key: string)
    returns (c: Chain)
    requires key in Run(derive, EMPTY, nodes).indexers
    ensures Certifies(derive, nodes, c, key)
  {
    hide Step, Gate;
    var k := |nodes| - 1;
    var s := Run(derive, EMPTY, nodes[..k]);
    if key in s.indexers {
      c := IndexersHaveProvenance(derive, nodes[..k], key);
      CertifiesLonger(derive, nodes, k, c, key);
    } else {
      JoinsByGrant(derive, s, nodes[k], key);
      var a := Gate(derive, nodes[k]).value;
      if s.indexers == {} && key == a.writer {
        c := Root(k);
      } else if a.writer in s.indexers {
        var grantor := IndexersHaveProvenance(derive, nodes[..k], a.writer);
        CertifiesLonger(derive, nodes, k, grantor, a.writer);
        c := Link(k, grantor);
      } else {
        c := Link(k, Root(k));
      }
    }
  }

  // ── Bootstrap and the last indexer ───────────────────────────────────────────

  /** The one way to empty the indexer set: the only indexer removes itself. */
  ghost predicate RemovesLast(derive: string -> string, s: State, n: Node) {
    Gate(derive, n).Ok? && var a := Gate(derive, n).value;
      a.entry.body == RemoveWriter(a.writer) && Greeted(s, a.writer) == {a.writer}
  }

  lemma EmptiesExactlyWhen(derive: string -> string, s: State, n: Node)
    requires Gate(derive, n).Ok?
    ensures Step(derive, s, n).state.indexers == {} <==> RemovesLast(derive, s, n)
  {
    hide Step, Gate;
    StepSets(derive, s, n);
    var a := Gate(derive, n).value;
    var g := Greeted(s, a.writer);
    if a.entry.body.RemoveWriter? && g - {a.entry.body.key} == {} {
      assert g <= {a.entry.body.key};
    }
  }

  /** The step that breaks `indexers <= members`: a stranger bootstraps into an empty
      indexer set while there are members, and the entry neither adds nor removes itself. */
  ghost predicate StrangerBootstraps(derive: string -> string, s: State, n: Node) {
    && Gate(derive, n).Ok? && s.indexers == {} && s.members != {}
    && var a := Gate(derive, n).value;
      && a.writer !in s.members
      && a.entry.body !in {RemoveWriter(a.writer), AddWriter(a.writer, true), AddWriter(a.writer, false)}
  }

  lemma IndexersAreMembersExactlyWhen(derive: string -> string, s: State, n: Node)
    requires s.indexers <= s.members
    ensures var t := Step(derive, s, n).state; t.indexers <= t.members <==> !StrangerBootstraps(derive, s, n)
  {
    hide Step, Gate;
    StepSets(derive, s, n);
    if StrangerBootstraps(derive, s, n) {
      var w := Gate(derive, n).value.writer;
      assert w in Step(derive, s, n).state.indexers && w !in Step(derive, s, n).state.members;
    }
  }

  ghost predicate LastIndexerKept(derive: string -> string, nodes: seq<Node>) {
    forall i | 0 <= i < |nodes| :: !RemovesLast(derive, Run(derive, EMPTY, nodes[..i]), nodes[i])
  }

  lemma NoStranger(derive: string -> string, s: State, n: Node)
    requires s.members == {} <==> s.indexers == {}
    ensures !StrangerBootstraps(derive, s, n)
  {
  }

  /** An admissible step that does not remove the last indexer. */
  lemma KeepsAnIndexer(derive: string -> string, s: State, n: Node)
    requires s.indexers <= s.members && (s.members == {} <==> s.indexers == {})
    requires Gate(derive, n).Ok? && !RemovesLast(derive, s, n)
    ensures var t := Step(derive, s, n).state; t.indexers <= t.members && t.indexers != {} && t.members != {}
  {
    hide Step, Gate, RemovesLast;
    EmptiesExactlyWhen(derive, s, n);
    NoStranger(derive, s, n);
    IndexersAreMembersExactlyWhen(derive, s, n);
  }

  ghost predicate AllRefused(derive: string -> string, nodes: seq<Node>) {
    forall i | 0 <= i < |nodes| :: Gate(derive, nodes[i]).Err?
  }

  lemma {:induction false} KeptBefore(derive: string -> string, nodes: seq<Node>)
    requires LastIndexerKept(derive, nodes) && nodes != []
    ensures var k := |nodes| - 1;
      LastIndexerKept(derive, nodes[..k]) && !RemovesLast(derive, Run(derive, EMPTY, nodes[..k]), nodes[k])
  {
    hide Run, RemovesLast;
    var before := nodes[..|nodes| - 1];
    assert forall i | 0 <= i < |before| :: before[..i] == nodes[..i] && before[i] == nodes[i];
  }

  lemma RefusedNext(derive: string -> string, nodes: seq<Node>)
    requires nodes != []
    ensures var k := |nodes| - 1;
      AllRefused(derive, nodes) <==> AllRefused(derive, nodes[..k]) && Gate(derive, nodes[k]).Err?
  {
    hide Gate;
    var k := |nodes| - 1;
    if AllRefused(derive, nodes[..k]) { assert forall i | 0 <= i < k :: nodes[..k][i] == nodes[i]; }
    if AllRefused(derive, nodes) { assert forall i | 0 <= i < k :: nodes[..k][i] == nodes[i]; }
  }

  /** If the last indexer is never removed, indexers stay members, and the implicit
      first indexer is chosen at the first admissible node and never again. */
  lemma {:induction false} BootstrapsOnce(derive: string -> string, nodes: seq<Node>)
    requires LastIndexerKept(derive, nodes)
    ensures var s := Run(derive, EMPTY, nodes); s.indexers <= s.members && (s.members == {} <==> s.indexers == {})
    ensures Run(derive, EMPTY, nodes).indexers == {} <==> AllRefused(derive, nodes)
  {
    if nodes == [] {
    } else {
      hide Step, Gate, RemovesLast, AllRefused, LastIndexerKept;
      var k := |nodes| - 1;
      KeptBefore(derive, nodes);
      RefusedNext(derive, nodes);
      BootstrapsOnce(derive, nodes[..k]);
      var s := Run(derive, EMPTY, nodes[..k]);
      if Gate(derive, nodes[k]).Ok? { KeepsAnIndexer(derive, s, nodes[k]); }
      else { StepSets(derive, s, nodes[k]); }
    }
  }

  /** A removal of the last indexer leaves none behind an admissible node. */
  lemma {:induction false} RemovalShows(derive: string -> string, nodes: seq<Node>, i: nat)
    requires i < |nodes|
    ensures RemovesLast(derive, Run(derive, EMPTY, nodes[..i]), nodes[i]) ==>
              Run(derive, EMPTY, nodes[..i + 1]).indexers == {} && !AllRefused(derive, nodes[..i + 1])
  {
    hide Gate, Step;
    RunStep(derive, EMPTY, nodes, i);
    if RemovesLast(derive, Run(derive, EMPTY, nodes[..i]), nodes[i]) {
      EmptiesExactlyWhen(derive, Run(derive, EMPTY, nodes[..i]), nodes[i]);
      assert nodes[..i + 1][i] == nodes[i];
    }
  }

  /** Over a run, the indexers are empty only before the first admissible node if and only if
      the last indexer is never removed. */
  lemma {:induction false} StaysNonEmptyExactlyWhen(derive: string -> string, nodes: seq<Node>)
    ensures (forall k | 0 <= k <= |nodes| ::
              Run(derive, EMPTY, nodes[..k]).indexers == {} ==> AllRefused(derive, nodes[..k]))
            <==> LastIndexerKept(derive, nodes)
  {
    hide Run, Gate, Step, RemovesLast;
    if LastIndexerKept(derive, nodes) {
      forall k | 0 <= k <= |nodes| && Run(derive, EMPTY, nodes[..k]).indexers == {}
        ensures AllRefused(derive, nodes[..k])
      {
        assert forall i | 0 <= i < k :: nodes[..k][..i] == nodes[..i] && nodes[..k][i] == nodes[i];
        BootstrapsOnce(derive, nodes[..k]);
      }
    }
    if forall k | 0 <= k <= |nodes| ::
        Run(derive, EMPTY, nodes[..k]).indexers == {} ==> AllRefused(derive, nodes[..k]) {
      forall i | 0 <= i < |nodes| ensures !RemovesLast(derive, Run(derive, EMPTY, nodes[..i]), nodes[i]) {
        RemovalShows(derive, nodes, i);
      }
    }
  }

  // ── What the host is told ────────────────────────────────────────────────────

  /** The writers a host has that starts with some and makes the calls in order. */
  function HostWriters(writers: set<string>, calls: seq<HostCall>): set<string> {
    if calls == [] then writers
    else
      var before := HostWriters(writers, calls[..|calls| - 1]);
      match calls[|calls| - 1]
      case HostAddWriter(key, _) => before + {key}
      case HostRemoveWriter(key) => before - {key}
  }

  /** And the indexers among them. */
  function HostIndexers(indexers: set<string>, calls: seq<HostCall>): set<string> {
    if calls == [] then indexers
    else
      var before := HostIndexers(indexers, calls[..|calls| - 1]);
      match calls[|calls| - 1]
      case HostAddWriter(key, indexer) => before + (if indexer then {key} else {})
      case HostRemoveWriter(key) => before - {key}
  }

  lemma HostOneCall(a: set<string>, call: HostCall)
    ensures HostWriters(a, []) == a && HostIndexers(a, []) == a
    ensures HostWriters(a, [call]) == if call.HostAddWriter? then a + {call.key} else a - {call.key}
    ensures HostIndexers(a, [call]) ==
            if call.HostRemoveWriter? then a - {call.key} else if call.indexer then a + {call.key} else a
  {
    assert [call][..0] == [];
  }

  lemma {:induction false} HostAppend(a: set<string>, c: seq<HostCall>, d: seq<HostCall>)
    requires |d| <= 1
    ensures HostWriters(a, c + d) == HostWriters(HostWriters(a, c), d)
    ensures HostIndexers(a, c + d) == HostIndexers(HostIndexers(a, c), d)
  {
    if d == [] {
      assert c + d == c;
    } else {
      assert (c + d)[..|c|] == c && d == [d[0]] && (c + d)[|c|] == d[0];
      HostOneCall(HostWriters(a, c), d[0]);
      HostOneCall(HostIndexers(a, c), d[0]);
    }
  }

  /** The host is told of every change to the two sets but the implicit first writer. */
  lemma StepTellsHost(derive: string -> string, s: State, n: Node)
    ensures var o := Step(derive, s, n);
      && |o.calls| <= 1
      && (Gate(derive, n).Err? ==> o.calls == [])
      && (Gate(derive, n).Ok? ==>
            && o.state.members == HostWriters(Welcome(s, Gate(derive, n).value.writer).members, o.calls)
            && o.state.indexers == HostIndexers(Welcome(s, Gate(derive, n).value.writer).indexers, o.calls))
  {
    hide NodeId, RefRows;
    match Gate(derive, n) {
      case Err(_) =>
      case Ok(a) =>
        GreetFrame(s, a);
        var call := match a.entry.body
          case AddWriter(key, indexer) => HostAddWriter(key, indexer)
          case RemoveWriter(key) => HostRemoveWriter(key)
          case _ => HostRemoveWriter("");
        HostOneCall(Welcome(s, a.writer).members, call);
        HostOneCall(Welcome(s, a.writer).indexers, call);
    }
  }

  /** The writer of the first admissible node, if there is one. */
  function Founder(derive: string -> string, nodes: seq<Node>): set<string> {
    if nodes == [] then {}
    else if Founder(derive, nodes[..|nodes| - 1]) != {} then Founder(derive, nodes[..|nodes| - 1])
    else match Gate(derive, nodes[|nodes| - 1]) case Err(_) => {} case Ok(a) => {a.writer}
  }

  lemma {:induction false} FounderWhenAdmitted(derive: string -> string, nodes: seq<Node>)
    ensures Founder(derive, nodes) == {} <==> AllRefused(derive, nodes)
  {
    if nodes == [] {
    } else {
      hide Gate, AllRefused;
      FounderWhenAdmitted(derive, nodes[..|nodes| - 1]);
      RefusedNext(derive, nodes);
    }
  }

  /** If the last indexer is never removed, a host that starts with the founder and makes the calls
      of the run ends with the members of the ledger as its writers and with its indexers. */
  lemma {:induction false} HostAgrees(derive: string -> string, nodes: seq<Node>)
    requires LastIndexerKept(derive, nodes)
    ensures var s, calls := Run(derive, EMPTY, nodes), Calls(derive, EMPTY, nodes);
      && s.members == HostWriters(Founder(derive, nodes), calls)
      && s.indexers == HostIndexers(Founder(derive, nodes), calls)
      && (AllRefused(derive, nodes) ==> calls == [])
  {
    if nodes == [] {
    } else {
      hide Step, Gate, RemovesLast, AllRefused, LastIndexerKept, HostWriters, HostIndexers;
      var k := |nodes| - 1;
      var before, n := nodes[..k], nodes[k];
      KeptBefore(derive, nodes);
      RefusedNext(derive, nodes);
      HostAgrees(derive, before);
      BootstrapsOnce(derive, before);
      FounderWhenAdmitted(derive, before);
      var s := Run(derive, EMPTY, before);
      StepTellsHost(derive, s, n);
      StepSets(derive, s, n);
      var calls := Step(derive, s, n).calls;
      HostAppend(Founder(derive, nodes), Calls(derive, EMPTY, before), calls);
      HostOneCall(Founder(derive, nodes), HostRemoveWriter(""));
      if Gate(derive, n).Err? { assert Calls(derive, EMPTY, before) + calls == Calls(derive, EMPTY, before); }
    }
  }

  /** Node `i` is where the implicit first indexer is chosen. */
  ghost predicate Bootstraps(derive: string -> string, nodes: seq<Node>, i: nat)
    requires i < |nodes|
  {
    Gate(derive, nodes[i]).Ok? && Run(derive, EMPTY, nodes[..i]).indexers == {}
  }

  lemma BootstrapIsFirstAdmissible(derive: string -> string, nodes: seq<Node>, i: nat)
    requires LastIndexerKept(derive, nodes) && i < |nodes|
    ensures Bootstraps(derive, nodes, i) <==>
            Gate(derive, nodes[i]).Ok? && forall j | 0 <= j < i :: Gate(derive, nodes[j]).Err?
  {
    hide Run, Gate, RemovesLast;
    var before := nodes[..i];
    forall j | 0 <= j < |before| ensures !RemovesLast(derive, Run(derive, EMPTY, before[..j]), before[j]) {
      assert before[..j] == nodes[..j];
    }
    BootstrapsOnce(derive, before);
  }

  function NodeBy(derive: string -> string, writer: string, body: Body, length: nat): (n: Node)
    requires Hex(writer, 64) && ValidBody(body) && derive(writer) != "" && length <= EntryIds.MAX_SAFE_INTEGER
    ensures Gate(derive, n) == Ok(Authored(Entry(body, "2026-01-01T00:00:00Z", derive(writer), None, []), writer))
  {
    RawNode(Accepted(Entry(body, "2026-01-01T00:00:00Z", derive(writer), None, [])), Some(writer), Some(length))
  }

  /** Without that assumption both fail: `a` adds `b` and then removes itself, the last
      indexer; the next writer, a stranger, becomes the indexer and is no member. The host
      refuses such a removal, which is why the assumption is made of it. */
  lemma {:induction false} StrangerTakesOver(derive: string -> string, a: string, b: string, c: string)
    requires Hex(a, 64) && Hex(b, 64) && Hex(c, 64) && a != b && b != c && a != c
    requires derive(a) != "" && derive(c) != ""
    ensures var s := Run(derive, EMPTY, [
        NodeBy(derive, a, AddWriter(b, false), 1),
        NodeBy(derive, a, RemoveWriter(a), 2),
        NodeBy(derive, c, Post(MessageContent("hello")), 1)]);
      s.indexers == {c} && s.members == {b}
  {
    hide Step, Gate, NodeBy;
    var n1 := NodeBy(derive, a, AddWriter(b, false), 1);
    var n2 := NodeBy(derive, a, RemoveWriter(a), 2);
    var n3 := NodeBy(derive, c, Post(MessageContent("hello")), 1);
    var s1 := Step(derive, EMPTY, n1).state;
    var s2 := Step(derive, s1, n2).state;
    StepSets(derive, EMPTY, n1);
    StepSets(derive, s1, n2);
    StepSets(derive, s2, n3);
    var nodes := [n1, n2, n3];
    assert nodes[..0] == [];
    RunStep(derive, EMPTY, nodes, 0);
    RunStep(derive, EMPTY, nodes, 1);
    RunStep(derive, EMPTY, nodes, 2);
    assert nodes[..3] == nodes;
    assert s1.members == {a, b};
    assert s2.members == {b} && s2.indexers == {};
  }
}
