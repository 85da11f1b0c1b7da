/** Invite nonces are spent once, across all indexers. */
module Nonces {
  import opened Results
  import opened Entries
  import opened Ledger

  /** Node `i` redeems `nonce` with indexer authority at that point of the run. */
  ghost predicate Redeems(derive: string -> string, s: State, n: Node, nonce: string) {
    match Gate(derive, n)
    case Err(_) => false
    case Ok(a) =>
      a.entry.body.InviteRedeemed? && a.entry.body.nonce == nonce && a.writer in Welcome(s, a.writer).indexers
  }

  function RowFor(e: Entry): InviteRow
    requires e.body.InviteRedeemed?
  {
    InviteRow(e.body.redeemedBy, e.timestamp, e.agentId)
  }

  /** Only a redemption of a nonce that has no row writes its row; nothing overwrites or deletes it. */
  lemma StepInvites(derive: string -> string, s: State, n: Node, nonce: string)
    ensures var o := Step(derive, s, n);
      if Redeems(derive, s, n, nonce) && nonce !in s.invites then
        o.event == AppliedInvite && Find(o.state.invites, nonce) == Some(RowFor(Gate(derive, n).value.entry))
      else Find(o.state.invites, nonce) == Find(s.invites, nonce)
    ensures Redeems(derive, s, n, nonce) && nonce in s.invites ==>
            Step(derive, s, n).event == Invalid(InviteAlreadySpent)
    ensures Step(derive, s, n).event == AppliedInvite && Gate(derive, n).value.entry.body.nonce == nonce ==>
            Redeems(derive, s, n, nonce)
  {
    hide NodeId, RefRows;
    match Gate(derive, n) {
      case Err(_) =>
      case Ok(a) => GreetFrame(s, a);
    }
  }

  ghost predicate RedeemsAt(derive: string -> string, nodes: seq<Node>, i: int, nonce: string) {
    0 <= i < |nodes| && Redeems(derive, Run(derive, EMPTY, nodes[..i]), nodes[i], nonce)
  }

  /** The first redemption with indexer authority. */
  ghost predicate FirstRedemption(derive: string -> string, nodes: seq<Node>, i: int, nonce: string) {
    RedeemsAt(derive, nodes, i, nonce) && forall j | 0 <= j < i :: !RedeemsAt(derive, nodes, j, nonce)
  }

  /** Redemptions of a longer run: those before, and perhaps the last node. */
  lemma {:induction false} RedeemsLonger(derive: string -> string, nodes: seq<Node>, nonce: string)
    requires nodes != []
    ensures forall i :: RedeemsAt(derive, nodes, i, nonce) <==>
      || RedeemsAt(derive, nodes[..|nodes| - 1], i, nonce)
      || (i == |nodes| - 1 && Redeems(derive, Run(derive, EMPTY, nodes[..|nodes| - 1]), nodes[i], nonce))
  {
    hide Run, Redeems;
    var before := nodes[..|nodes| - 1];
    forall i | 0 <= i < |before| ensures before[..i] == nodes[..i] {}
  }

  ghost predicate RowOfFirst(derive: string -> string, nodes: seq<Node>, nonce: string, row: Option<InviteRow>) {
    match row
    case None => forall i :: !RedeemsAt(derive, nodes, i, nonce)
    case Some(r) => exists i ::
        FirstRedemption(derive, nodes, i, nonce) && r == RowFor(Gate(derive, nodes[i]).value.entry)
  }

  lemma RedeemsInside(derive: string -> string, nodes: seq<Node>, nonce: string)
    ensures forall i | RedeemsAt(derive, nodes, i, nonce) ::
              0 <= i < |nodes| && Gate(derive, nodes[i]).Ok? && Gate(derive, nodes[i]).value.entry.body.InviteRedeemed?
  {
  }

  lemma {:induction false} RowLonger(derive: string -> string, nodes: seq<Node>, nonce: string, row: Option<InviteRow>)
    requires nodes != [] && RowOfFirst(derive, nodes[..|nodes| - 1], nonce, row)
    ensures var k := |nodes| - 1;
      if Redeems(derive, Run(derive, EMPTY, nodes[..k]), nodes[k], nonce) && row.None?
      then RowOfFirst(derive, nodes, nonce, Some(RowFor(Gate(derive, nodes[k]).value.entry)))
      else RowOfFirst(derive, nodes, nonce, row)
  {
    hide Run, Gate, RedeemsAt;
    var k := |nodes| - 1;
    var before := nodes[..k];
    RedeemsLonger(derive, nodes, nonce);
    RedeemsInside(derive, before, nonce);
    if row.Some? {
      var i :| FirstRedemption(derive, before, i, nonce) && row.value == RowFor(Gate(derive, before[i]).value.entry);
      assert FirstRedemption(derive, nodes, i, nonce);
    } else if Redeems(derive, Run(derive, EMPTY, before), nodes[k], nonce) {
      assert FirstRedemption(derive, nodes, k, nonce);
    }
  }

  /** A nonce has a row exactly when it was redeemed with authority, and the row is the first such redemption's. */
  lemma {:induction false} RowIsFirstRedemption(derive: string -> string, nodes: seq<Node>, nonce: string)
    ensures RowOfFirst(derive, nodes, nonce, Find(Run(derive, EMPTY, nodes).invites, nonce))
  {
    if nodes == [] {
    } else {
      hide Step, RowOfFirst;
      var k := |nodes| - 1;
      RowIsFirstRedemption(derive, nodes[..k], nonce);
      StepInvites(derive, Run(derive, EMPTY, nodes[..k]), nodes[k], nonce);
      RowLonger(derive, nodes, nonce, Find(Run(derive, EMPTY, nodes[..k]).invites, nonce));
    }
  }

  /** The `invite-redeemed` event is reported for `nonce` at node `i` exactly when `i` is
      its first redemption with indexer authority: so at most once in any run. */
  lemma {:induction false} AcceptedExactlyOnce(derive: string -> string, nodes: seq<Node>, i: nat, nonce: string)
    requires i < |nodes| && Gate(derive, nodes[i]).Ok?
    requires Gate(derive, nodes[i]).value.entry.body.InviteRedeemed?
    requires Gate(derive, nodes[i]).value.entry.body.nonce == nonce
    ensures Events(derive, EMPTY, nodes)[i] == AppliedInvite <==> FirstRedemption(derive, nodes, i, nonce)
    ensures RedeemsAt(derive, nodes, i, nonce) && !FirstRedemption(derive, nodes, i, nonce)
            ==> Events(derive, EMPTY, nodes)[i] == Invalid(InviteAlreadySpent)
  {
    hide Step, Redeems, Gate;
    var before := nodes[..i];
    EventAt(derive, EMPTY, nodes, i);
    RowIsFirstRedemption(derive, before, nonce);
    StepInvites(derive, Run(derive, EMPTY, before), nodes[i], nonce);
    forall j | 0 <= j < i ensures RedeemsAt(derive, nodes, j, nonce) <==> RedeemsAt(derive, before, j, nonce) {
      assert before[..j] == nodes[..j];
    }
  }
}
