/** What becomes of a log node, said of the node itself: its value, its writer key, the handle
    it claims, and what the nodes before it came to. */
module Admission {
  import opened Results
  import opened Entries
  import opened Ledger
  import opened LedgerKeys
  import opened Store
  import BrowsableRows
  import EntryIds
  import Nonces
  import ReverseIndex

  /** The value passed validation, its writer is known, and it claims that writer's handle. */
  ghost predicate Genuine(derive: string -> string, n: Node) {
    n.value.Accepted? && n.writerKey.Some? && n.value.entry.agentId == derive(n.writerKey.value)
  }

  lemma GenuineIsAdmitted(derive: string -> string, n: Node)
    ensures Genuine(derive, n) <==> Gate(derive, n).Ok?
    ensures Genuine(derive, n) ==> Gate(derive, n) == Ok(Authored(n.value.entry, n.writerKey.value))
  {
  }

  // ── Events ───────────────────────────────────────────────────────────────────

  /** The writer of node `i` is an indexer there, or nobody is. */
  ghost predicate Stands(derive: string -> string, nodes: seq<Node>, i: nat)
    requires i < |nodes|
  {
    var indexers := Run(derive, EMPTY, nodes[..i]).indexers;
    nodes[i].writerKey.Some? && (indexers == {} || nodes[i].writerKey.value in indexers)
  }

  /** A node before `i` was reported as the redemption of the nonce. */
  ghost predicate RedeemedBefore(derive: string -> string, nodes: seq<Node>, i: nat, nonce: string)
    requires i <= |nodes|
  {
    exists j :: 0 <= j < i && Events(derive, EMPTY, nodes)[j] == AppliedInvite && nodes[j].value.Accepted? &&
        nodes[j].value.entry.body.InviteRedeemed? && nodes[j].value.entry.body.nonce == nonce
  }

  lemma AppliedInviteIsGenuine(derive: string -> string, s: State, n: Node)
    ensures Step(derive, s, n).event == AppliedInvite ==> Genuine(derive, n) && n.value.entry.body.InviteRedeemed?
  {
    hide NodeId, RefRows;
  }

  predicate Names(n: Node, nonce: string) {
    n.value.Accepted? && n.value.entry.body.InviteRedeemed? && n.value.entry.body.nonce == nonce
  }

  lemma RedemptionNext(derive: string -> string, s: State, n: Node, nonce: string)
    ensures var o := Step(derive, s, n);
      nonce in o.state.invites <==> nonce in s.invites || (o.event == AppliedInvite && Names(n, nonce))
  {
    hide Step, NodeId;
    GenuineIsAdmitted(derive, n);
    Nonces.StepInvites(derive, s, n, nonce);
    AppliedInviteIsGenuine(derive, s, n);
  }

  lemma RedeemedNext(derive: string -> string, nodes: seq<Node>, i: nat, nonce: string)
    requires i < |nodes|
    ensures RedeemedBefore(derive, nodes, i + 1, nonce) <==>
      || RedeemedBefore(derive, nodes, i, nonce)
      || (Events(derive, EMPTY, nodes)[i] == AppliedInvite && Names(nodes[i], nonce))
  {
    hide Events;
  }

  /** A nonce has a row at node `i` exactly if a redemption of it was reported before. */
  lemma {:induction false} SpentMeansRedeemed(derive: string -> string, nodes: seq<Node>, i: nat, nonce: string)
    requires i <= |nodes|
    ensures nonce in Run(derive, EMPTY, nodes[..i]).invites <==> RedeemedBefore(derive, nodes, i, nonce)
  {
    if i == 0 {
    } else {
      hide Step, Run, Events, RedeemedBefore, Names;
      SpentMeansRedeemed(derive, nodes, i - 1, nonce);
      RunStep(derive, EMPTY, nodes, i - 1);
      EventAt(derive, EMPTY, nodes, i - 1);
      RedemptionNext(derive, Run(derive, EMPTY, nodes[..i - 1]), nodes[i - 1], nonce);
      RedeemedNext(derive, nodes, i - 1, nonce);
    }
  }

  /** What a step reports for a genuine node. */
  lemma GenuineEvent(derive: string -> string, s: State, n: Node)
    requires Genuine(derive, n)
    ensures var event, e := Step(derive, s, n).event, n.value.entry;
      var stands := s.indexers == {} || n.writerKey.value in s.indexers;
      match e.body
      case Post(content) => event.AppliedEntry? && event.stored == Stored(NodeId(n), e)
          && event.key == RowKey(TypeOf(content), e.timestamp, NodeId(n))
      case InviteRedeemed(nonce, _) =>
        event == (if !stands then Invalid(InviteFromNonIndexer)
                  else if nonce in s.invites then Invalid(InviteAlreadySpent) else AppliedInvite)
      case _ =>
        event == if stands || e.body == RemoveWriter(n.writerKey.value) then AppliedAdmin
                 else Invalid(AdminFromNonIndexer)
  {
    hide NodeId, RefRows;
    GenuineIsAdmitted(derive, n);
    GreetFrame(s, Gate(derive, n).value);
  }

  lemma OtherEvent(derive: string -> string, s: State, n: Node)
    requires !Genuine(derive, n)
    ensures Step(derive, s, n).event ==
            Invalid(if n.value.Refused? then n.value.reason else if n.writerKey.None? then NoWriterKey
                    else AgentMismatch)
  {
  }

  /** The event of every node of every log, exactly. A value that validation refused is reported
      with its reason; past that, a node is refused for a missing writer key, for another's
      handle, for administering or redeeming without standing, or for redeeming a nonce that a
      node before it redeemed; and for nothing else. */
  lemma {:induction false} EventExactlyWhen(derive: string -> string, nodes: seq<Node>, i: nat)
    requires i < |nodes|
    ensures var n, event := nodes[i], Events(derive, EMPTY, nodes)[i];
      && (forall r | r in {NotAnObject, UnknownType, Schema, PayloadTooLarge} ::
            event == Invalid(r) <==> n.value == Refused(r))
      && (event == Invalid(NoWriterKey) <==> n.value.Accepted? && n.writerKey.None?)
      && (event == Invalid(AgentMismatch) <==>
            n.value.Accepted? && n.writerKey.Some? && n.value.entry.agentId != derive(n.writerKey.value))
      && (event == Invalid(AdminFromNonIndexer) <==>
            && Genuine(derive, n) && !Stands(derive, nodes, i) && n.value.entry.body != RemoveWriter(n.writerKey.value)
            && (n.value.entry.body.AddWriter? || n.value.entry.body.RemoveWriter? || n.value.entry.body.SetInfo?))
      && (event == Invalid(InviteFromNonIndexer) <==>
            Genuine(derive, n) && !Stands(derive, nodes, i) && n.value.entry.body.InviteRedeemed?)
      && (event == Invalid(InviteAlreadySpent) <==>
            && Genuine(derive, n) && Stands(derive, nodes, i) && n.value.entry.body.InviteRedeemed?
            && RedeemedBefore(derive, nodes, i, n.value.entry.body.nonce))
      && (event == AppliedInvite <==>
            && Genuine(derive, n) && Stands(derive, nodes, i) && n.value.entry.body.InviteRedeemed?
            && !RedeemedBefore(derive, nodes, i, n.value.entry.body.nonce))
      && (event.AppliedEntry? <==> Genuine(derive, n) && n.value.entry.body.Post?)
  {
    hide Step, Run, Gate, RedeemedBefore;
    EventAt(derive, EMPTY, nodes, i);
    var s, n := Run(derive, EMPTY, nodes[..i]), nodes[i];
    if Genuine(derive, n) {
      GenuineEvent(derive, s, n);
      if n.value.entry.body.InviteRedeemed? { SpentMeansRedeemed(derive, nodes, i, n.value.entry.body.nonce); }
    } else {
      OtherEvent(derive, s, n);
    }
  }

  // ── Rows ─────────────────────────────────────────────────────────────────────

  /** The id of a node: eight characters of the writer key, a hyphen, the writer's length. */
  ghost predicate HasId(n: Node, id: string) {
    n.writerKey.Some? &&
    id == n.writerKey.value[..8] + "-" + EntryIds.Decimal(if n.length.Some? then n.length.value else 0)
  }

  /** `<type>/<timestamp>/<id>`. */
  function BrowsingKey(content: Content, timestamp: string, id: string): string {
    (match content
     case KnowledgeContent(_) => "knowledge/"
     case TaskContent(_) => "task/"
     case SkillContent(_) => "skill/"
     case MessageContent(_) => "message/") + timestamp + "/" + id
  }

  /** The node is a genuine post, stored as `p`; `k` is its browsing key, or the reference key
      of one of its non-empty targets. */
  ghost predicate Puts(derive: string -> string, n: Node, k: string, p: Stored) {
    && Genuine(derive, n) && n.value.entry.body.Post? && p.entry == n.value.entry && HasId(n, p.id)
    && (k == BrowsingKey(p.entry.body.content, p.entry.timestamp, p.id)
        || exists t | t in p.entry.refs :: t != "" && k == "ref/" + t + "/" + p.id)
  }

  lemma NodeHasId(n: Node)
    requires n.writerKey.Some?
    ensures HasId(n, NodeId(n)) && forall id :: HasId(n, id) ==> id == NodeId(n)
  {
    EntryIds.LowerOfHex(n.writerKey.value);
  }

  lemma PostMeansGenuine(derive: string -> string, n: Node)
    ensures BrowsableRows.IsPost(derive, n) <==> Genuine(derive, n) && n.value.entry.body.Post?
    ensures BrowsableRows.IsPost(derive, n) ==> BrowsableRows.StoredOf(derive, n) == Stored(NodeId(n), n.value.entry)
  {
    hide NodeId;
  }

  lemma BrowsingKeyIsSlot(p: Stored)
    requires BrowsableRows.WellStored(p)
    ensures KeyOf(EntrySlot(BrowsableRows.RowOf(p))) == BrowsingKey(p.entry.body.content, p.entry.timestamp, p.id)
  {
    var name := TypeName(TypeOf(p.entry.body.content));
    assert name + "/" + p.entry.timestamp + "/" + p.id ==
           BrowsingKey(p.entry.body.content, p.entry.timestamp, p.id);
  }

  lemma RefKeyIs(t: string, id: Id)
    ensures KeyOf(RefSlot(RefKey(t, id))) == "ref/" + t + "/" + id
  {
  }

  lemma SlotHoldsPost(derive: string -> string, nodes: seq<Node>, s: State, slot: Slot, p: Stored)
    requires Lookup(s, slot) == Some(EntryValue(p))
    requires BrowsableRows.RowsOf(BrowsableRows.PostsOf(derive, nodes), s.entries)
    requires BrowsableRows.RefsOf(BrowsableRows.PostsOf(derive, nodes), s.refs)
    ensures p in BrowsableRows.PostsOf(derive, nodes) && p.entry.body.Post?
    ensures KeyOf(slot) == BrowsingKey(p.entry.body.content, p.entry.timestamp, p.id)
            || exists t | t in p.entry.refs :: t != "" && KeyOf(slot) == "ref/" + t + "/" + p.id
  {
    hide KeyOf, BrowsableRows.PostsOf, BrowsingKey;
    match slot {
      case EntrySlot(row) =>
        assert s.entries[row] == p;
        BrowsingKeyIsSlot(p);
      case RefSlot(ref) =>
        assert s.refs[ref] == p && BrowsableRows.Refers(p, ref.target);
        RefKeyIs(ref.target, ref.source);
      case _ =>
    }
  }

  /** Of the posts of a log, those that put `k`. */
  lemma {:induction false} RowOfPost(derive: string -> string, nodes: seq<Node>, rows: Rows, k: string, p: Stored)
    requires ReverseIndex.Reached(derive, nodes, rows)
    ensures k in rows && rows[k] == EntryValue(p) <==>
      && p in BrowsableRows.PostsOf(derive, nodes) && p.entry.body.Post?
      && (k == BrowsingKey(p.entry.body.content, p.entry.timestamp, p.id)
          || exists t | t in p.entry.refs :: t != "" && k == "ref/" + t + "/" + p.id)
  {
    hide Run, KeyOf, BrowsableRows.PostsOf, Represents, BrowsingKey;
    var s := Run(derive, EMPTY, nodes);
    BrowsableRows.RowsAreThePosts(derive, nodes);
    if k in rows && rows[k] == EntryValue(p) {
      var slot := ReverseIndex.SlotOf(rows, s, k);
      SlotHoldsPost(derive, nodes, s, slot, p);
    }
    if p in BrowsableRows.PostsOf(derive, nodes) {
      if k == BrowsingKey(p.entry.body.content, p.entry.timestamp, p.id) {
        BrowsingKeyIsSlot(p);
        ReverseIndex.AtSlot(rows, s, EntrySlot(BrowsableRows.RowOf(p)));
      }
      if t :| t in p.entry.refs && t != "" && k == "ref/" + t + "/" + p.id {
        assert BrowsableRows.Refers(p, t);
        RefKeyIs(t, p.id);
        ReverseIndex.AtSlot(rows, s, RefSlot(RefKey(t, p.id)));
      }
    }
  }

  /** The entry rows of a view are those of the genuine posts of the log, each under its browsing
      key and under its reference keys: none missing, none else, for every key and every entry. */
  lemma {:induction false} RowsExactlyWhen(derive: string -> string, nodes: seq<Node>, rows: Rows, k: string,
                                           p: Stored)
    requires ReverseIndex.Reached(derive, nodes, rows)
    ensures k in rows && rows[k] == EntryValue(p) <==> exists n :: n in nodes && Puts(derive, n, k, p)
  {
    hide BrowsingKey, NodeId, HasId, ReverseIndex.Reached;
    RowOfPost(derive, nodes, rows, k, p);
    forall n | n in nodes
      ensures BrowsableRows.IsPost(derive, n) <==> Genuine(derive, n) && n.value.entry.body.Post?
      ensures BrowsableRows.IsPost(derive, n) ==> BrowsableRows.StoredOf(derive, n) == Stored(NodeId(n), n.value.entry)
      ensures n.writerKey.Some? ==> HasId(n, NodeId(n)) && forall id :: HasId(n, id) ==> id == NodeId(n)
    {
      PostMeansGenuine(derive, n);
      if n.writerKey.Some? { NodeHasId(n); }
    }
    if p in BrowsableRows.PostsOf(derive, nodes) && k in rows && rows[k] == EntryValue(p) {
      var n :| n in nodes && BrowsableRows.IsPost(derive, n) && BrowsableRows.StoredOf(derive, n) == p;
      assert Puts(derive, n, k, p);
    }
    if n :| n in nodes && Puts(derive, n, k, p) {
      assert BrowsableRows.StoredOf(derive, n) == p;
    }
  }
}
