/** The bodies that createInvite, revokeInvite and redeemInvite run inside the lock: each
    loads the file, changes its copy, appends to the log and saves. */
module InviteCalls {
  import opened Results
  import opened Invites

  class Pact {
    /** invites.json, the entries appended to the log, and the nonces with a row in the view. */
    var file: seq<Invite>
    var log: seq<LogEntry>
    var spent: set<string>

    constructor ()
      ensures file == [] && log == [] && spent == {}
    {
      file, log, spent := [], [], {};
    }

    method FindInvite(invites: seq<Invite>, nonce: string) returns (k: Option<nat>)
      ensures k == FindNonce(invites, nonce)
    {
      for i := 0 to |invites|
        invariant forall j | 0 <= j < i :: invites[j].nonce != nonce
      {
        if invites[i].nonce == nonce { return Some(i); }
      }
      return None;
    }

    /** Saving may fail, and then the file stays as it was. */
    method SaveInvites(invites: seq<Invite>, ok: bool) returns (answer: Answer)
      modifies this`file
      ensures file == if ok then invites else old(file)
      ensures answer == if ok then Success else Failed
    {
      if !ok { return Failed; }
      file := invites;
      return Success;
    }

    method CreateInvite(parse: string -> Option<int>, invite: Invite, x: Script) returns (answer: Answer)
      modifies this`file
      ensures Effect(file, [], answer) == Atomically(parse, Create(invite), x, old(file))
    {
      if !x.loadOk { return Failed; }
      var invites := file;
      invites := invites + [invite];
      answer := SaveInvites(invites, x.saveOk);
    }

    method RevokeInvite(parse: string -> Option<int>, nonce: string, x: Script) returns (answer: Answer)
      modifies this`file
      ensures Effect(file, [], answer) == Atomically(parse, Revoke(nonce), x, old(file))
    {
      if !x.loadOk { return Failed; }
      var invites := file;
      var k := FindInvite(invites, nonce);
      if k.None? { return Unknown; }
      var entry := invites[k.value];
      if entry.revoked { return Success; }
      entry := entry.(revoked := true);
      entry := entry.(revokedAt := Some(x.at));
      answer := SaveInvites(invites[k.value := entry], x.saveOk);
    }

    method RedeemInvite(parse: string -> Option<int>, nonce: string, writer: string, x: Script) returns (answer: Answer)
      requires x.inView <==> nonce in spent
      modifies this`file, this`log
      ensures old(log) <= log
      ensures Effect(file, log[|old(log)|..], answer) == Atomically(parse, Redeem(nonce, writer), x, old(file))
    {
      if !x.loadOk { return Failed; }
      var invites := file;
      var k := FindInvite(invites, nonce);
      if k.None? { return Unknown; }
      var entry := invites[k.value];
      if entry.revoked { return WasRevoked; }
      if entry.spentAt.Some? { return WasSpent; }
      if Expired(parse, entry, x.now) { return HasExpired; }
      if !x.lookOk { return Failed; }
      if nonce in spent { return WasSpent; }
      if !x.firstOk { return Failed; }
      log := log + [RedeemedEntry(nonce, writer, x.ts)];
      if !x.secondOk { return Failed; }
      log := log + [AddWriterEntry(writer, x.ts)];
      entry := entry.(spentAt := Some(x.ts));
      entry := entry.(spentBy := Some(writer));
      answer := SaveInvites(invites[k.value := entry], x.saveOk);
    }
  }
}
