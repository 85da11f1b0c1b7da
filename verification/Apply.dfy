/** The reducer as it runs: one pass over the nodes, reading and writing string
    keys of the view and calling the host. Each method is proved to do to the rows
    what the ledger says it does to the sets and maps they represent. */
module Apply {
  import opened Results
  import opened Entries
  import opened Ledger
  import opened LedgerKeys
  import opened Store
  import EntryIds
  import Lexicographic

  method UpsertAgentName(e: Entry, view: View, ghost s: State)
    requires Represents(view.rows, s)
    requires e.timestamp != "" && e.agentId != ""
    modifies view
    ensures Represents(view.rows, NameAgent(s, e))
  {
    hide Represents;
    if e.agentId == "" || e.displayName.None? { return; }
    var name := Trim(e.displayName.value);
    if name == "" { return; }
    var key := "_agents/" + e.agentId;
    var existing := view.Get(key);
    Reads(view.rows, s, e.agentId);
    var existingTs := if existing.Some? && existing.value.StampValue? then existing.value.stamp.ts else "";
    if e.timestamp != "" && existingTs != "" && Lexicographic.AtMost(e.timestamp, existingTs) {
      assert NameAgent(s, e).agents == s.agents;
      return;
    }
    PutAgent(view.rows, s, e.agentId, Stamp(Some(name), e.timestamp));
    view.Put(key, StampValue(Stamp(Some(name), e.timestamp)));
  }

  method IsMemberKey(view: View, writer: string, ghost s: State) returns (yes: bool)
    requires Represents(view.rows, s)
    ensures yes <==> writer in s.members
  {
    hide Represents;
    var got := view.Get("_members/" + writer);
    Reads(view.rows, s, writer);
    yes := got.Some?;
  }

  method IsIndexerKey(view: View, writer: string, ghost s: State) returns (yes: bool)
    requires Represents(view.rows, s)
    ensures yes <==> writer in s.indexers
  {
    hide Represents;
    var got := view.Get("_indexers/" + writer);
    Reads(view.rows, s, writer);
    yes := got.Some?;
  }

  /** The implicit first member and first indexer. */
  method Bootstrap(view: View, writer: string, ghost s: State) returns (isIndexer: bool)
    requires Represents(view.rows, s)
    modifies view
    ensures Represents(view.rows, Welcome(s, writer))
    ensures isIndexer <==> writer in Welcome(s, writer).indexers
  {
    hide Represents, InRange, Stream, InReadOrder;
    ghost var t := s;
    var isMember := IsMemberKey(view, writer, s);
    if !isMember {
      var anyMember := view.Peek(MEMBER_RANGE, false);
      MembersPeek(view.rows, s);
      if anyMember.None? {
        t := s.(members := s.members + {writer});
        PutMember(view.rows, s, writer);
        view.Put("_members/" + writer, Present);
        isMember := true;
      }
    }
    assert t.members == Welcome(s, writer).members;
    isIndexer := IsIndexerKey(view, writer, t);
    if !isIndexer {
      var anyIndexer := view.Peek(INDEXER_RANGE, false);
      IndexersPeek(view.rows, t);
      if anyIndexer.None? {
        PutIndexer(view.rows, t, writer);
        t := t.(indexers := t.indexers + {writer});
        view.Put("_indexers/" + writer, Present);
        isIndexer := true;
      }
    }
    assert t == Welcome(s, writer);
  }

  /** A register row keeps its value unless the new timestamp is strictly greater. */
  method PutPactMetaIfNewer(view: View, key: string, value: Option<string>, ts: string, ghost s: State)
    requires Represents(view.rows, s) && ts != ""
    requires key == PACT_NAME_KEY || key == PACT_PURPOSE_KEY
    modifies view
    ensures key == PACT_NAME_KEY ==> Represents(view.rows, s.(name := Some(Newer(s.name, Stamp(value, ts)))))
    ensures key == PACT_PURPOSE_KEY ==> Represents(view.rows, s.(purpose := Some(Newer(s.purpose, Stamp(value, ts)))))
  {
    hide Represents;
    assert PACT_NAME_KEY[6] != PACT_PURPOSE_KEY[6];
    var existing := view.Get(key);
    Reads(view.rows, s, key);
    var prevTs := if existing.Some? && existing.value.StampValue? then existing.value.stamp.ts else "";
    if prevTs != "" && Lexicographic.AtMost(ts, prevTs) {
      assert key == PACT_NAME_KEY ==> s.(name := Some(Newer(s.name, Stamp(value, ts)))) == s;
      assert key == PACT_PURPOSE_KEY ==> s.(purpose := Some(Newer(s.purpose, Stamp(value, ts)))) == s;
      return;
    }
    PutName(view.rows, s, Stamp(value, ts));
    PutPurpose(view.rows, s, Stamp(value, ts));
    view.Put(key, StampValue(Stamp(value, ts)));
  }

  method ApplyAdminEntry(e: Entry, view: View, host: Host, ghost s: State)
    requires Represents(view.rows, s) && IsAdmin(e.body) && e.timestamp != ""
    modifies view, host
    ensures Represents(view.rows, ApplyAdmin(s, e))
    ensures host.calls == old(host.calls) + AdminCalls(e.body)
  {
    hide Represents;
    if e.body.SetInfo? {
      ghost var t := s;
      if e.body.name.Some? {
        PutPactMetaIfNewer(view, PACT_NAME_KEY, e.body.name.value, e.timestamp, s);
        t := s.(name := Some(Newer(s.name, Stamp(e.body.name.value, e.timestamp))));
      }
      if e.body.purpose.Some? {
        PutPactMetaIfNewer(view, PACT_PURPOSE_KEY, e.body.purpose.value, e.timestamp, t);
        t := t.(purpose := Some(Newer(t.purpose, Stamp(e.body.purpose.value, e.timestamp))));
      }
      assert t == ApplyAdmin(s, e);
      return;
    }
    var key := e.body.key;
    if e.body.AddWriter? {
      host.AddWriter(key, e.body.indexer);
      PutMember(view.rows, s, key);
      view.Put("_members/" + key, Present);
      if e.body.indexer {
        PutIndexer(view.rows, s.(members := s.members + {key}), key);
        view.Put("_indexers/" + key, Present);
      }
    } else {
      host.RemoveWriter(key);
      DelWriter(view.rows, s, key);
      view.Del("_members/" + key);
      view.Del("_indexers/" + key);
    }
  }

  lemma RefRowsStep(refs: seq<string>, i: nat, stored: Stored, m: map<RefKey, Stored>)
    requires '/' !in stored.id && i < |refs|
    ensures m + RefRows(refs[..i + 1], stored) ==
            if refs[i] == "" then m + RefRows(refs[..i], stored)
            else (m + RefRows(refs[..i], stored))[RefKey(refs[i], stored.id) := stored]
  {
    assert refs[..i + 1] == refs[..i] + [refs[i]];
  }

  /** One reverse-reference row for every non-empty target. */
  method PutRefs(stored: Stored, view: View, ghost s: State)
    requires Represents(view.rows, s) && '/' !in stored.id
    modifies view
    ensures Represents(view.rows, s.(refs := s.refs + RefRows(stored.entry.refs, stored)))
  {
    hide Represents, RefRows;
    var refs := stored.entry.refs;
    assert s.refs + RefRows(refs[..0], stored) == s.refs;
    for i := 0 to |refs|
      invariant Represents(view.rows, s.(refs := s.refs + RefRows(refs[..i], stored)))
    {
      RefRowsStep(refs, i, stored, s.refs);
      if refs[i] == "" { continue; }
      PutRef(view.rows, s.(refs := s.refs + RefRows(refs[..i], stored)), RefKey(refs[i], stored.id), stored);
      view.Put("ref/" + refs[i] + "/" + stored.id, EntryValue(stored));
    }
    assert refs[..|refs|] == refs;
  }

  /** The browsable row and its reverse references. */
  method PutPost(e: Entry, id: Id, view: View, ghost s: State) returns (event: Event)
    requires Represents(view.rows, s) && e.body.Post?
    modifies view
    ensures Represents(view.rows, StorePost(s, e, id).state)
    ensures event == StorePost(s, e, id).event
  {
    hide Represents;
    var stored := Stored(id, e);
    var row := RowKey(TypeOf(e.body.content), e.timestamp, id);
    PutEntry(view.rows, s, row, stored);
    view.Put(TypeName(row.entryType) + "/" + e.timestamp + "/" + id, EntryValue(stored));
    PutRefs(stored, view, s.(entries := s.entries[row := stored]));
    event := AppliedEntry(row, stored);
  }

  method ApplyNode(derive: string -> string, n: Node, view: View, host: Host, ghost s: State) returns (event: Event)
    requires Represents(view.rows, s)
    modifies view, host
    ensures Represents(view.rows, Step(derive, s, n).state)
    ensures event == Step(derive, s, n).event
    ensures host.calls == old(host.calls) + Step(derive, s, n).calls
  {
    hide Represents;
    if n.value.Refused? { return Invalid(n.value.reason); }
    var e := n.value.entry;
    if n.writerKey.None? { return Invalid(NoWriterKey); }
    var writer := n.writerKey.value;
    if e.agentId != derive(writer) { return Invalid(AgentMismatch); }

    UpsertAgentName(e, view, s);
    var isIndexer := Bootstrap(view, writer, NameAgent(s, e));
    ghost var a := Authored(e, writer);
    ghost var greeted := Greet(s, a);

    if IsAdmin(e.body) {
      var selfRevoke := e.body.RemoveWriter? && EntryIds.Lower(e.body.key) == EntryIds.Lower(writer);
      assert selfRevoke <==> e.body == RemoveWriter(writer) by {
        EntryIds.LowerOfHex(writer);
        if e.body.RemoveWriter? { EntryIds.LowerOfHex(e.body.key); }
      }
      if !isIndexer && !selfRevoke { return Invalid(AdminFromNonIndexer); }
      ApplyAdminEntry(e, view, host, greeted);
      return AppliedAdmin;
    }

    if e.body.InviteRedeemed? {
      if !isIndexer { return Invalid(InviteFromNonIndexer); }
      var key := "_invites/" + e.body.nonce;
      var existing := view.Get(key);
      Reads(view.rows, greeted, e.body.nonce);
      if existing.Some? { return Invalid(InviteAlreadySpent); }
      var row := InviteRow(e.body.redeemedBy, e.timestamp, e.agentId);
      PutInvite(view.rows, greeted, e.body.nonce, row);
      view.Put(key, InviteValue(row));
      return AppliedInvite;
    }

    var id: Id := EntryIds.IdOf(writer, if n.length.Some? then n.length.value else 0);
    event := PutPost(e, id, view, greeted);
  }

  /** The rows after a run represent the ledger after the run; every node gets one
      event; the host is called for accepted writer changes only, in order. */
  method Apply(derive: string -> string, nodes: seq<Node>, view: View, host: Host, ghost s: State)
    returns (events: seq<Event>)
    requires Represents(view.rows, s)
    modifies view, host
    ensures Represents(view.rows, Run(derive, s, nodes))
    ensures events == Events(derive, s, nodes)
    ensures host.calls == old(host.calls) + Calls(derive, s, nodes)
  {
    hide Represents, Step;
    events := [];
    for i := 0 to |nodes|
      invariant Represents(view.rows, Run(derive, s, nodes[..i]))
      invariant events == Events(derive, s, nodes[..i])
      invariant host.calls == old(host.calls) + Calls(derive, s, nodes[..i])
    {
      RunStep(derive, s, nodes, i);
      var event := ApplyNode(derive, nodes[i], view, host, Run(derive, s, nodes[..i]));
      events := events + [event];
    }
    assert nodes[..|nodes|] == nodes;
  }
}
