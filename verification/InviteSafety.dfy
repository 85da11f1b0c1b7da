/** What the invite lock buys: records are only added, revocation and spending are
    final, no update is lost, no grant goes without its redemption, and a nonce admits one
    writer unless a redemption of it failed half way. */
module InviteSafety {
  import opened Results
  import opened Invites

  // ── One redemption ───────────────────────────────────────────────────────────

  /** The invite can be redeemed at `now`: neither revoked nor spent, and before its expiry, if
      that is a date at all. */
  ghost predicate Live(parse: string -> Option<int>, inv: Invite, now: int) {
    !inv.revoked && inv.spentAt.None? && (parse(inv.expiresAt).None? || now < parse(inv.expiresAt).value)
  }

  /** The first record of the nonce. */
  ghost predicate IsRecord(file: seq<Invite>, k: int, nonce: string) {
    0 <= k < |file| && file[k].nonce == nonce && forall j | 0 <= j < k :: file[j].nonce != nonce
  }

  lemma RecordIsFound(file: seq<Invite>, k: nat, nonce: string)
    ensures FindNonce(file, nonce) == Some(k) <==> IsRecord(file, k, nonce)
  {
  }

  /** Every answer of a redemption that could load the file, exactly; the entries it appends; and
      the file it leaves. */
  lemma RedeemExactlyWhen(parse: string -> Option<int>, nonce: string, writer: string, x: Script, file: seq<Invite>)
    requires x.loadOk
    ensures var r := Atomically(parse, Redeem(nonce, writer), x, file);
      && (r.answer == Unknown <==> forall j | 0 <= j < |file| :: file[j].nonce != nonce)
      && (r.answer != Success ==> r.file == file)
      && forall k | IsRecord(file, k, nonce) && 0 <= k < |file| ::
          var inv, expiry := file[k], parse(file[k].expiresAt);
          && (r.answer == WasRevoked <==> inv.revoked)
          && (r.answer == HasExpired <==>
                !inv.revoked && inv.spentAt.None? && expiry.Some? && expiry.value <= x.now)
          && (r.answer == WasSpent <==>
                !inv.revoked && (inv.spentAt.Some? || (Live(parse, inv, x.now) && x.lookOk && x.inView)))
          && (r.entries != [] <==> Live(parse, inv, x.now) && x.lookOk && !x.inView && x.firstOk)
          && (r.answer == Success <==> r.entries != [] && x.secondOk && x.saveOk)
          && (r.entries != [] ==>
                r.entries == if x.secondOk then [RedeemedEntry(nonce, writer, x.ts), AddWriterEntry(writer, x.ts)]
                             else [RedeemedEntry(nonce, writer, x.ts)])
          && (r.answer == Success ==>
                r.file == file[k := inv.(spentAt := Some(x.ts), spentBy := Some(writer))])
  {
    var found := FindNonce(file, nonce);
    if found.Some? { RecordIsFound(file, found.value, nonce); }
    forall k | IsRecord(file, k, nonce) && 0 <= k < |file| ensures found == Some(k) { RecordIsFound(file, k, nonce); }
  }

  /** Every answer of a revocation that could load the file, exactly, and the file it leaves. */
  lemma RevokeExactlyWhen(parse: string -> Option<int>, nonce: string, x: Script, file: seq<Invite>)
    requires x.loadOk
    ensures var r := Atomically(parse, Revoke(nonce), x, file);
      && r.entries == [] && (r.answer == Unknown || r.answer == Success || r.answer == Failed)
      && (r.answer == Unknown <==> forall j | 0 <= j < |file| :: file[j].nonce != nonce)
      && (r.answer == Unknown ==> r.file == file)
      && forall k | IsRecord(file, k, nonce) && 0 <= k < |file| ::
          && (r.answer == Success <==> file[k].revoked || x.saveOk)
          && r.file == if file[k].revoked || !x.saveOk then file
                       else file[k := file[k].(revoked := true, revokedAt := Some(x.at))]
  {
    var found := FindNonce(file, nonce);
    if found.Some? { RecordIsFound(file, found.value, nonce); }
    forall k | IsRecord(file, k, nonce) && 0 <= k < |file| ensures found == Some(k) { RecordIsFound(file, k, nonce); }
  }

  lemma InspectExactlyWhen(parse: string -> Option<int>, nonce: string, writer: string, file: seq<Invite>, now: int,
                           at: Timestamp)
    ensures var p := Inspected(parse, Redeem(nonce, writer), file, now, at);
      && (p == Finished(Unknown) <==> forall j | 0 <= j < |file| :: file[j].nonce != nonce)
      && forall k | IsRecord(file, k, nonce) && 0 <= k < |file| ::
          var inv, expiry := file[k], parse(file[k].expiresAt);
          && (p == Looking(file, k) <==> Live(parse, inv, now))
          && (p == Finished(WasRevoked) <==> inv.revoked)
          && (p == Finished(WasSpent) <==> !inv.revoked && inv.spentAt.Some?)
          && (p == Finished(HasExpired) <==>
                !inv.revoked && inv.spentAt.None? && expiry.Some? && expiry.value <= now)
  {
    var found := FindNonce(file, nonce);
    if found.Some? { RecordIsFound(file, found.value, nonce); }
    forall k | IsRecord(file, k, nonce) && 0 <= k < |file| ensures found == Some(k) { RecordIsFound(file, k, nonce); }
  }

  /** In every interleaving the checks of a redemption come out as the file on disk has it at that
      instant: unknown, revoked, spent, expired, or live, and only then does it go on. */
  lemma {:induction false} ChecksSeeTheFile(parse: string -> Option<int>, file: seq<Invite>, events: seq<Event>,
                                            i: nat, now: int, at: Timestamp)
    requires i < |Run(parse, file, events).calls|
    requires Run(parse, file, events).calls[i].op.Redeem? && Run(parse, file, events).calls[i].phase.Loaded?
    ensures var s := Run(parse, file, events); var nonce := s.calls[i].op.nonce;
      var p := Next(parse, s, Inspect(i, now, at)).calls[i].phase;
      && (p == Finished(Unknown) <==> forall j | 0 <= j < |s.file| :: s.file[j].nonce != nonce)
      && forall k | IsRecord(s.file, k, nonce) && 0 <= k < |s.file| ::
          var inv, expiry := s.file[k], parse(s.file[k].expiresAt);
          && (p == Looking(s.file, k) <==> Live(parse, inv, now))
          && (p == Finished(WasRevoked) <==> inv.revoked)
          && (p == Finished(WasSpent) <==> !inv.revoked && inv.spentAt.Some?)
          && (p == Finished(HasExpired) <==>
                !inv.revoked && inv.spentAt.None? && expiry.Some? && expiry.value <= now)
  {
    hide Run, Sequentially, LogOf, Inspected, IsRecord, Live;
    LockLinearises(parse, file, events);
    var s := Run(parse, file, events);
    var c := s.calls[i];
    assert Explained(parse, c, Sequentially(parse, file, s.calls[..i]));
    CurrentCall(parse, file, s.calls, i);
    InspectExactlyWhen(parse, c.op.nonce, c.op.writer, s.file, now, at);
  }

  /** `y` is `x` later on: revoked and spent marks are set once and keep their values. */
  predicate Later(x: Invite, y: Invite) {
    && y == x.(revoked := y.revoked, revokedAt := y.revokedAt, spentAt := y.spentAt, spentBy := y.spentBy)
    && (x.revoked ==> y.revoked && y.revokedAt == x.revokedAt)
    && (x.spentAt.Some? ==> y.spentAt == x.spentAt && y.spentBy == x.spentBy)
  }

  /** Records are only appended, never removed or reordered. */
  predicate Keeps(a: seq<Invite>, b: seq<Invite>) {
    |a| <= |b| && forall k | 0 <= k < |a| :: Later(a[k], b[k])
  }

  lemma AtomicKeeps(parse: string -> Option<int>, op: Op, x: Script, file: seq<Invite>)
    ensures Keeps(file, Atomically(parse, op, x, file).file)
  {
  }

  lemma KeepsTransitive(a: seq<Invite>, b: seq<Invite>, c: seq<Invite>)
    requires Keeps(a, b) && Keeps(b, c)
    ensures Keeps(a, c)
  {
    forall k | 0 <= k < |a| ensures Later(a[k], c[k]) { assert Later(a[k], b[k]) && Later(b[k], c[k]); }
  }

  lemma {:induction false} SequenceKeeps(parse: string -> Option<int>, file: seq<Invite>, calls: seq<Call>, i: nat)
    requires i <= |calls|
    ensures Keeps(Sequentially(parse, file, calls[..i]), Sequentially(parse, file, calls))
    decreases |calls|
  {
    hide Atomically;
    if i == |calls| {
      assert calls[..i] == calls;
    } else {
      var n := |calls| - 1;
      assert calls[..n][..i] == calls[..i];
      SequenceKeeps(parse, file, calls[..n], i);
      var before := Sequentially(parse, file, calls[..n]);
      AtomicKeeps(parse, calls[n].op, calls[n].script, before);
      KeepsTransitive(Sequentially(parse, file, calls[..i]), before,
                      Atomically(parse, calls[n].op, calls[n].script, before).file);
    }
  }

  lemma SavingIsAtomic(parse: string -> Option<int>, c: Call, now: seq<Invite>)
    requires Explained(parse, c, now) && c.phase.Saving?
    ensures c.phase.file == Atomically(parse, c.op, c.script.(saveOk := true), now).file
  {
  }

  /** In every interleaving each step only appends records or sets marks. */
  lemma {:induction false} StepsKeep(parse: string -> Option<int>, file: seq<Invite>, events: seq<Event>, e: Event)
    ensures Keeps(Run(parse, file, events).file, Next(parse, Run(parse, file, events), e).file)
  {
    hide Sequentially, LogOf, Explained, Run, Advance;
    var s := Run(parse, file, events);
    LockLinearises(parse, file, events);
    if e.Save? && e.ok && e.i < |s.calls| && s.calls[e.i].phase.Saving? {
      var c := s.calls[e.i];
      CurrentCall(parse, file, s.calls, e.i);
      SavingIsAtomic(parse, c, s.file);
      AtomicKeeps(parse, c.op, c.script.(saveOk := true), s.file);
    }
  }

  /** What a successful call leaves in the file. */
  predicate Recorded(op: Op, file: seq<Invite>) {
    match op
    case Create(inv) => exists k :: 0 <= k < |file| && Later(inv, file[k])
    case Revoke(nonce) => FindNonce(file, nonce).Some? && file[FindNonce(file, nonce).value].revoked
    case Redeem(nonce, writer) =>
      var found := FindNonce(file, nonce);
      found.Some? && file[found.value].spentAt.Some? && file[found.value].spentBy == Some(writer)
  }

  lemma FoundAt(file: seq<Invite>, nonce: string, k: nat)
    requires k < |file| && file[k].nonce == nonce && forall j | 0 <= j < k :: file[j].nonce != nonce
    ensures FindNonce(file, nonce) == Some(k)
  {
  }

  lemma KeepsFound(a: seq<Invite>, b: seq<Invite>, nonce: string)
    requires Keeps(a, b) && FindNonce(a, nonce).Some?
    ensures FindNonce(b, nonce) == FindNonce(a, nonce)
    ensures Later(a[FindNonce(a, nonce).value], b[FindNonce(a, nonce).value])
  {
    var k := FindNonce(a, nonce).value;
    assert Later(a[k], b[k]);
    forall j | 0 <= j < k ensures b[j].nonce != nonce { assert Later(a[j], b[j]); }
    FoundAt(b, nonce, k);
  }

  lemma RecordedStays(op: Op, a: seq<Invite>, b: seq<Invite>)
    requires Recorded(op, a) && Keeps(a, b)
    ensures Recorded(op, b)
  {
    match op {
      case Create(inv) =>
        var k :| 0 <= k < |a| && Later(inv, a[k]);
        assert Later(a[k], b[k]);
        assert Later(inv, b[k]);
      case Revoke(nonce) => KeepsFound(a, b, nonce);
      case Redeem(nonce, _) => KeepsFound(a, b, nonce);
    }
  }

  lemma SuccessIsRecorded(parse: string -> Option<int>, op: Op, x: Script, file: seq<Invite>)
    requires Atomically(parse, op, x, file).answer == Success
    ensures Recorded(op, Atomically(parse, op, x, file).file)
  {
    var after := Atomically(parse, op, x, file).file;
    match op {
      case Create(inv) => assert Later(inv, after[|file|]);
      case Revoke(nonce) => FoundAt(after, nonce, FindNonce(file, nonce).value);
      case Redeem(nonce, _) => FoundAt(after, nonce, FindNonce(file, nonce).value);
    }
  }

  /** No update is lost: whatever a call reported as done is in the file from then on. */
  lemma {:induction false} NoLostUpdate(parse: string -> Option<int>, file: seq<Invite>, events: seq<Event>, i: nat)
    requires i < |Run(parse, file, events).calls| && Run(parse, file, events).calls[i].phase == Finished(Success)
    ensures Recorded(Run(parse, file, events).calls[i].op, Run(parse, file, events).file)
  {
    hide Run, Atomically, Recorded, Sequentially, LogOf;
    LockLinearises(parse, file, events);
    var s := Run(parse, file, events);
    var c, before := s.calls[i], Sequentially(parse, file, s.calls[..i]);
    assert Explained(parse, c, before);
    UnfoldLast(parse, file, s.calls, i);
    SuccessIsRecorded(parse, c.op, c.script, before);
    SequenceKeeps(parse, file, s.calls, i + 1);
    RecordedStays(c.op, Sequentially(parse, file, s.calls[..i + 1]), s.file);
  }

  // ── One pair per nonce ───────────────────────────────────────────────────────

  function Redemptions(log: seq<LogEntry>, nonce: string): nat {
    if log == [] then 0
    else Redemptions(log[..|log| - 1], nonce) +
         if log[|log| - 1].RedeemedEntry? && log[|log| - 1].nonce == nonce then 1 else 0
  }

  lemma {:induction false} RedemptionsAppend(a: seq<LogEntry>, b: seq<LogEntry>, nonce: string)
    ensures Redemptions(a + b, nonce) == Redemptions(a, nonce) + Redemptions(b, nonce)
  {
    if b == [] {
      assert a + b == a;
    } else {
      assert (a + b)[..|a + b| - 1] == a + b[..|b| - 1];
      RedemptionsAppend(a, b[..|b| - 1], nonce);
    }
  }

  predicate SpentIn(file: seq<Invite>, nonce: string) {
    FindNonce(file, nonce).Some? && file[FindNonce(file, nonce).value].spentAt.Some?
  }

  /** A redemption that got its first entry into the log and then failed. */
  predicate Torn(c: Call, nonce: string) {
    c.op.Redeem? && c.op.nonce == nonce && c.phase.Finished? && c.script.firstOk &&
        !(c.script.secondOk && c.script.saveOk)
  }

  lemma EntriesOfCall(parse: string -> Option<int>, c: Call, now: seq<Invite>)
    requires Explained(parse, c, now)
    ensures var entries := if c.phase.Finished? then Atomically(parse, c.op, c.script, now).entries else Pending(c);
      || entries == []
      || (c.op.Redeem? && !SpentIn(now, c.op.nonce) && |entries| <= 2
          && entries[0] == RedeemedEntry(c.op.nonce, c.op.writer, c.script.ts)
          && (|entries| == 2 ==> entries[1] == AddWriterEntry(c.op.writer, c.script.ts)))
    ensures (c.phase.Finished? && Atomically(parse, c.op, c.script, now).entries != [] &&
             c.script.secondOk && c.script.saveOk) ==>
              Atomically(parse, c.op, c.script, now).answer == Success &&
              |Atomically(parse, c.op, c.script, now).entries| == 2
    ensures c.phase.Finished? && Atomically(parse, c.op, c.script, now).entries != [] ==> c.script.firstOk
  {
  }

  lemma CountShort(entries: seq<LogEntry>, nonce: string)
    requires entries == [] ||
        (|entries| <= 2 && entries[0].RedeemedEntry? && (|entries| == 2 ==> entries[1].AddWriterEntry?))
    ensures Redemptions(entries, nonce) == if entries != [] && entries[0].nonce == nonce then 1 else 0
  {
    if entries == [] {
    } else if |entries| == 1 {
      assert entries[..0] == [];
    } else {
      var one := entries[..1];
      assert one == [entries[0]] && one[..0] == [];
      assert Redemptions(one, nonce) == Redemptions([], nonce) + if one[0].nonce == nonce then 1 else 0;
    }
  }

  /** A call appends a redemption of `nonce` only if the file it saw had it unspent; if it
      was not torn, the file it leaves has it spent. */
  lemma OneCall(parse: string -> Option<int>, c: Call, now: seq<Invite>, nonce: string)
    requires Explained(parse, c, now)
    ensures var entries := if c.phase.Finished? then Atomically(parse, c.op, c.script, now).entries else Pending(c);
      && Redemptions(entries, nonce) <= 1
      && (Redemptions(entries, nonce) == 1 ==> !SpentIn(now, nonce))
      && (Redemptions(entries, nonce) == 1 && c.phase.Finished? && !Torn(c, nonce) ==>
          SpentIn(Atomically(parse, c.op, c.script, now).file, nonce))
  {
    var entries := if c.phase.Finished? then Atomically(parse, c.op, c.script, now).entries else Pending(c);
    EntriesOfCall(parse, c, now);
    CountShort(entries, nonce);
    if Redemptions(entries, nonce) == 1 && c.phase.Finished? && !Torn(c, nonce) {
      SuccessIsRecorded(parse, c.op, c.script, now);
    }
  }

  lemma EmptyCount(nonce: string)
    ensures Redemptions([], nonce) == 0
  {
  }

  lemma SpentStays(parse: string -> Option<int>, c: Call, now: seq<Invite>, nonce: string)
    ensures SpentIn(now, nonce) ==> SpentIn(Atomically(parse, c.op, c.script, now).file, nonce)
  {
    hide Atomically;
    AtomicKeeps(parse, c.op, c.script, now);
    if SpentIn(now, nonce) { KeepsFound(now, Atomically(parse, c.op, c.script, now).file, nonce); }
  }

  lemma {:induction false} RedeemedOnce(parse: string -> Option<int>, file: seq<Invite>, calls: seq<Call>,
                                        nonce: string)
    requires Exclusive(calls)
    requires forall i | 0 <= i < |calls| :: Explained(parse, calls[i], Sequentially(parse, file, calls[..i]))
    requires forall i | 0 <= i < |calls| :: !Torn(calls[i], nonce)
    ensures Redemptions(LogOf(parse, file, calls), nonce) <= 1
    ensures Redemptions(LogOf(parse, file, calls), nonce) == 1 && (forall i | 0 <= i < |calls| ::
              calls[i].phase.Finished?)
            ==> SpentIn(Sequentially(parse, file, calls), nonce)
  {
    if calls != [] {
      hide Atomically, Explained, Torn, SpentIn, Pending, Redemptions;
      var n := |calls| - 1;
      var before, c := calls[..n], calls[n];
      assert forall i | 0 <= i < n :: before[i] == calls[i] && before[..i] == calls[..i];
      RedeemedOnce(parse, file, before, nonce);
      var now := Sequentially(parse, file, before);
      assert calls[..n] == before;
      OneCall(parse, c, now, nonce);
      var entries := if c.phase.Finished? then Atomically(parse, c.op, c.script, now).entries else Pending(c);
      RedemptionsAppend(LogOf(parse, file, before), entries, nonce);
      if c.phase == Waiting {
        WaitingIsExplained(parse, c, now);
        EmptyCount(nonce);
      } else {
        assert forall i | 0 <= i < n :: before[i].phase.Finished?;
        if c.phase.Finished? { SpentStays(parse, c, now, nonce); }
      }
    } else {
      EmptyCount(nonce);
    }
  }

  /** If no redemption of the nonce failed after its first append, at most one redemption of it is ever appended. */
  lemma {:induction false} OnePairPerNonce(parse: string -> Option<int>, file: seq<Invite>, events: seq<Event>,
                                           nonce: string)
    requires forall i | 0 <= i < |Run(parse, file, events).calls| :: !Torn(Run(parse, file, events).calls[i], nonce)
    ensures Redemptions(Run(parse, file, events).log, nonce) <= 1
  {
    hide Run, Torn, Redemptions, Explained, LogOf, Sequentially;
    LockLinearises(parse, file, events);
    RedeemedOnce(parse, file, Run(parse, file, events).calls, nonce);
  }

  // ── Grants ───────────────────────────────────────────────────────────────────

  /** Every grant comes directly after the redemption it belongs to. */
  ghost predicate NoOrphans(log: seq<LogEntry>) {
    forall k | 0 <= k < |log| && log[k].AddWriterEntry? ::
      k > 0 && log[k - 1].RedeemedEntry? && log[k - 1].writer == log[k].writer && log[k - 1].ts == log[k].ts
  }

  lemma OrphansAppend(a: seq<LogEntry>, b: seq<LogEntry>)
    requires NoOrphans(a) && NoOrphans(b)
    ensures NoOrphans(a + b)
  {
    var all := a + b;
    forall k | 0 <= k < |all| && all[k].AddWriterEntry?
      ensures k > 0 && all[k - 1].RedeemedEntry? && all[k - 1].writer == all[k].writer && all[k - 1].ts == all[k].ts
    {
      if k < |a| { assert a[k].AddWriterEntry?; } else { assert b[k - |a|].AddWriterEntry?; }
    }
  }

  lemma CallHasNoOrphans(parse: string -> Option<int>, c: Call, now: seq<Invite>)
    requires Explained(parse, c, now)
    ensures NoOrphans(if c.phase.Finished? then Atomically(parse, c.op, c.script, now).entries else Pending(c))
  {
    EntriesOfCall(parse, c, now);
  }

  lemma {:induction false} CallsHaveNoOrphans(parse: string -> Option<int>, file: seq<Invite>, calls: seq<Call>)
    requires forall i | 0 <= i < |calls| :: Explained(parse, calls[i], Sequentially(parse, file, calls[..i]))
    ensures NoOrphans(LogOf(parse, file, calls))
  {
    if calls == [] {
    } else {
      hide Atomically, Explained, Pending, NoOrphans;
      var n := |calls| - 1;
      var before := calls[..n];
      assert forall i | 0 <= i < n :: before[i] == calls[i] && before[..i] == calls[..i];
      CallsHaveNoOrphans(parse, file, before);
      CallHasNoOrphans(parse, calls[n], Sequentially(parse, file, before));
      var entries := if calls[n].phase.Finished? then Atomically(parse, calls[n].op, calls[n].script,
                                                                 Sequentially(parse, file, before)).entries
                                                                     else Pending(calls[n]);
      OrphansAppend(LogOf(parse, file, before), entries);
    }
  }

  /** In every interleaving no grant is appended on its own: each directly follows the
      redemption of the same writer. */
  lemma {:induction false} NoOrphanGrants(parse: string -> Option<int>, file: seq<Invite>, events: seq<Event>)
    ensures NoOrphans(Run(parse, file, events).log)
  {
    hide Run, NoOrphans, Explained, LogOf, Sequentially;
    LockLinearises(parse, file, events);
    CallsHaveNoOrphans(parse, file, Run(parse, file, events).calls);
  }

  predicate GrantFor(log: seq<LogEntry>, k: int, nonce: string) {
    0 < k < |log| && log[k].AddWriterEntry? && log[k - 1].RedeemedEntry? && log[k - 1].nonce == nonce
  }

  /** The grants that follow a redemption of `nonce`. */
  function Grants(log: seq<LogEntry>, nonce: string): nat {
    if log == [] then 0
    else Grants(log[..|log| - 1], nonce) + if GrantFor(log, |log| - 1, nonce) then 1 else 0
  }

  lemma {:induction false} GrantsBelow(log: seq<LogEntry>, nonce: string)
    ensures Grants(log, nonce) <= Redemptions(log, nonce)
    ensures log != [] ==> Grants(log, nonce) <= Redemptions(log[..|log| - 1], nonce)
  {
    if log == [] {
    } else {
      var n := |log| - 1;
      GrantsBelow(log[..n], nonce);
      if GrantFor(log, n, nonce) { assert log[..n][n - 1] == log[n - 1]; }
    }
  }

  /** So a nonce admits at most one writer, unless a redemption of it failed after its first append. */
  lemma {:induction false} OneGrantPerNonce(parse: string -> Option<int>, file: seq<Invite>, events: seq<Event>,
                                            nonce: string)
    requires forall i | 0 <= i < |Run(parse, file, events).calls| :: !Torn(Run(parse, file, events).calls[i], nonce)
    ensures Grants(Run(parse, file, events).log, nonce) <= 1
  {
    hide Run, Torn, Redemptions, Grants;
    OnePairPerNonce(parse, file, events, nonce);
    GrantsBelow(Run(parse, file, events).log, nonce);
  }

  // ── In time ──────────────────────────────────────────────────────────────────

  function EntriesOf(parse: string -> Option<int>, c: Call, now: seq<Invite>): seq<LogEntry> {
    if c.phase.Finished? then Atomically(parse, c.op, c.script, now).entries else Pending(c)
  }

  /** Every entry of the log is that of one of the calls. */
  lemma {:induction false} EntryHasCall(parse: string -> Option<int>, file: seq<Invite>, calls: seq<Call>,
                                        e: LogEntry) returns (i: nat)
    requires e in LogOf(parse, file, calls)
    ensures i < |calls| && e in EntriesOf(parse, calls[i], Sequentially(parse, file, calls[..i]))
  {
    hide Atomically, Pending, Sequentially;
    var n := |calls| - 1;
    if e in LogOf(parse, file, calls[..n]) {
      i := EntryHasCall(parse, file, calls[..n], e);
      assert calls[..n][..i] == calls[..i];
    } else {
      i := n;
    }
  }

  lemma AppendedByRedeem(parse: string -> Option<int>, c: Call, now: seq<Invite>, e: LogEntry)
    requires Explained(parse, c, now) && e in EntriesOf(parse, c, now) && e.RedeemedEntry?
    requires c.phase.Finished? || c.phase.Saving?
    ensures c.op == Redeem(e.nonce, e.writer) && c.script.loadOk && c.script.lookOk && !c.script.inView
    ensures c.script.ts == e.ts
    ensures FindNonce(now, e.nonce).Some? && Live(parse, now[FindNonce(now, e.nonce).value], c.script.now)
  {
  }

  /** A call that appends a redemption found the record live by the clock it read. */
  lemma AppendsWhenLive(parse: string -> Option<int>, c: Call, now: seq<Invite>, e: LogEntry)
    requires Explained(parse, c, now) && e in EntriesOf(parse, c, now) && e.RedeemedEntry?
    ensures c.op == Redeem(e.nonce, e.writer) && c.script.loadOk && c.phase != Waiting && c.phase != Entered
    ensures !c.phase.Loaded? && c.script.lookOk && !c.script.inView && c.script.ts == e.ts
    ensures FindNonce(now, e.nonce).Some? && Live(parse, now[FindNonce(now, e.nonce).value], c.script.now)
  {
    var k := FindNonce(now, e.nonce);
    if k.Some? { RecordIsFound(now, k.value, e.nonce); }
    if c.phase.Finished? || c.phase.Saving? { AppendedByRedeem(parse, c, now, e); }
  }

  lemma {:induction false} RunNext(parse: string -> Option<int>, file: seq<Invite>, events: seq<Event>, e: Event)
    ensures Run(parse, file, events + [e]) == Next(parse, Run(parse, file, events), e)
  {
    assert (events + [e])[..|events|] == events;
  }

  ghost predicate ReadClock(events: seq<Event>, i: nat, now: int) { exists at :: Inspect(i, now, at) in events }

  lemma ReadLonger(events: seq<Event>, i: nat, now: int, e: Event)
    ensures ReadClock(events, i, now) ==> ReadClock(events + [e], i, now)
    ensures e.Inspect? && e.i == i && e.now == now ==> ReadClock(events + [e], i, now)
  {
    if ReadClock(events, i, now) { var at :| Inspect(i, now, at) in events; assert Inspect(i, now, at) in events + [e]; }
    assert (events + [e])[|events|] == e;
    if e.Inspect? && e.i == i && e.now == now { assert e == Inspect(i, now, e.at); }
  }

  /** Call `i` looked, and at that moment the view had not shown the nonce yet. */
  ghost predicate Looked(events: seq<Event>, i: nat, nonce: string, ts: Timestamp) {
    exists k :: 0 <= k < |events| && events[k] == Look(i, true, ts) && Confirmed(nonce) !in events[..k]
  }

  lemma LookedLonger(events: seq<Event>, i: nat, nonce: string, ts: Timestamp, e: Event)
    ensures Looked(events, i, nonce, ts) ==> Looked(events + [e], i, nonce, ts)
    ensures e == Look(i, true, ts) && Confirmed(nonce) !in events ==> Looked(events + [e], i, nonce, ts)
  {
    var all, n := events + [e], |events|;
    if Looked(events, i, nonce, ts) {
      var k :| 0 <= k < n && events[k] == Look(i, true, ts) && Confirmed(nonce) !in events[..k];
      assert all[k] == events[k] && all[..k] == events[..k];
    }
    assert all[n] == e && all[..n] == events;
  }

  /** The clock a call went by is that of its own inspection, and what it stamps and what it knows
      of the view are those of its own look. */
  ghost predicate Clocked(events: seq<Event>, c: Call, i: nat) {
    && (c.phase.Waiting? || c.phase.Entered? || c.phase.Loaded? || !c.script.loadOk ||
        ReadClock(events, i, c.script.now))
    && (c.script.lookOk && !c.script.inView && c.op.Redeem? ==> Looked(events, i, c.op.nonce, c.script.ts))
  }

  ghost predicate ClockUnread(c: Call) { c.phase.Waiting? || c.phase.Entered? || c.phase.Loaded? || !c.script.loadOk }

  /** Where the clock and the stamp of a call come from. */
  lemma AdvanceScript(parse: string -> Option<int>, c: Call, e: Event, file: seq<Invite>, spent: set<string>)
    requires c.phase.Waiting? || c.phase.Entered? ==> !c.script.loadOk
    ensures var d := Advance(parse, c, e, file, spent).0;
      && d.op == c.op && (d.phase.Waiting? || d.phase.Entered? ==> !d.script.loadOk)
      && (ClockUnread(d) || (!ClockUnread(c) && d.script.now == c.script.now) || (e.Inspect? && e.now == d.script.now))
      && (d.script.lookOk && !d.script.inView && d.op.Redeem? ==>
            || (c.script.lookOk && !c.script.inView && c.script.ts == d.script.ts)
            || (e.Look? && e.ok && e.ts == d.script.ts && c.op.nonce !in spent))
  {
  }

  lemma ClockedNext(parse: string -> Option<int>, events: seq<Event>, c: Call, i: nat, e: Event, file: seq<Invite>,
                    spent: set<string>)
    requires Clocked(events, c, i) && (c.phase.Waiting? || c.phase.Entered? ==> !c.script.loadOk)
    requires OwnEvent(e) == Some(i) && forall n :: n in spent <==> Confirmed(n) in events
    ensures var d := Advance(parse, c, e, file, spent).0;
      Clocked(events + [e], d, i) && (d.phase.Waiting? || d.phase.Entered? ==> !d.script.loadOk)
  {
    hide Looked, ReadClock, Advance;
    var d := Advance(parse, c, e, file, spent).0;
    AdvanceScript(parse, c, e, file, spent);
    if c.op.Redeem? { LookedLonger(events, i, c.op.nonce, d.script.ts, e); }
    ReadLonger(events, i, d.script.now, e);
  }

  lemma ClockedLonger(events: seq<Event>, c: Call, i: nat, e: Event)
    ensures Clocked(events, c, i) ==> Clocked(events + [e], c, i)
  {
    hide Looked, ReadClock;
    if c.op.Redeem? { LookedLonger(events, i, c.op.nonce, c.script.ts, e); }
    ReadLonger(events, i, c.script.now, e);
  }

  /** The view has shown exactly the nonces whose rows were confirmed. */
  lemma {:induction false} SpentMeansConfirmed(parse: string -> Option<int>, file: seq<Invite>, events: seq<Event>,
                                               nonce: string)
    ensures nonce in Run(parse, file, events).spent <==> Confirmed(nonce) in events
  {
    if events == [] {
    } else {
      hide Advance;
      var n := |events| - 1;
      assert events == events[..n] + [events[n]];
      SpentMeansConfirmed(parse, file, events[..n], nonce);
    }
  }

  ghost predicate AllClocked(events: seq<Event>, calls: seq<Call>) {
    forall i | 0 <= i < |calls| ::
        Clocked(events, calls[i], i) && (calls[i].phase.Waiting? || calls[i].phase.Entered? ==> !calls[i].script.loadOk)
  }

  lemma NewIsClocked(events: seq<Event>, c: Call, i: nat)
    requires c.phase == Waiting && c.script == NO_SCRIPT
    ensures Clocked(events, c, i)
  {
  }

  lemma EnteredIsClocked(events: seq<Event>, c: Call, i: nat)
    requires Clocked(events, c, i)
    ensures Clocked(events, c.(phase := Entered), i)
  {
  }

  lemma NextIsClocked(parse: string -> Option<int>, events: seq<Event>, s: State, e: Event)
    requires AllClocked(events, s.calls) && forall n :: n in s.spent <==> Confirmed(n) in events
    ensures AllClocked(events + [e], Next(parse, s, e).calls)
  {
    hide Clocked, Advance;
    var t := Next(parse, s, e);
    forall i | 0 <= i < |t.calls|
      ensures Clocked(events + [e], t.calls[i], i)
      ensures t.calls[i].phase.Waiting? || t.calls[i].phase.Entered? ==> !t.calls[i].script.loadOk
    {
      if i < |s.calls| {
        ClockedLonger(events, s.calls[i], i, e);
        if OwnEvent(e) == Some(i) { ClockedNext(parse, events, s.calls[i], i, e, s.file, s.spent); }
        if e == Enter(i) { EnteredIsClocked(events + [e], s.calls[i], i); }
      } else {
        NewIsClocked(events + [e], t.calls[i], i);
      }
    }
  }

  lemma {:induction false} RunIsClocked(parse: string -> Option<int>, file: seq<Invite>, events: seq<Event>)
    ensures AllClocked(events, Run(parse, file, events).calls)
  {
    if events == [] {
    } else {
      hide Clocked, Advance, Run, Next;
      var n := |events| - 1;
      var before, e := events[..n], events[n];
      assert events == before + [e];
      RunIsClocked(parse, file, before);
      RunNext(parse, file, before, e);
      forall m ensures m in Run(parse, file, before).spent <==> Confirmed(m) in before {
        SpentMeansConfirmed(parse, file, before, m);
      }
      NextIsClocked(parse, before, Run(parse, file, before), e);
    }
  }

  /** The second look refuses exactly the nonces that the view has shown by then. */
  lemma {:induction false} LookSeesTheView(parse: string -> Option<int>, file: seq<Invite>, events: seq<Event>, i: nat,
                                           ok: bool, ts: Timestamp)
    requires i < |Run(parse, file, events).calls|
    requires Run(parse, file, events).calls[i].op.Redeem? && Run(parse, file, events).calls[i].phase.Looking?
    ensures var s := Run(parse, file, events); var nonce := s.calls[i].op.nonce;
      var p := Next(parse, s, Look(i, ok, ts)).calls[i].phase;
      && (p == Finished(Failed) <==> !ok)
      && (p == Finished(WasSpent) <==> ok && Confirmed(nonce) in events)
      && (p.Appending? <==> ok && Confirmed(nonce) !in events)
  {
    hide Run;
    SpentMeansConfirmed(parse, file, events, Run(parse, file, events).calls[i].op.nonce);
  }

  /** A redemption reaches the log only in time: in every interleaving, for every redemption in
      the log there is a call of that writer for that nonce that looked at its clock when the
      invite of the nonce had not expired, by the expiry its record still has on disk, and at the
      view when it had not shown the nonce; the entry carries the time of that second look. */
  lemma {:induction false} RedeemedInTime(parse: string -> Option<int>, file: seq<Invite>, events: seq<Event>,
                                          e: LogEntry)
    requires e in Run(parse, file, events).log && e.RedeemedEntry?
    ensures var s := Run(parse, file, events);
      exists i: nat, k, now, at ::
        && i < |s.calls| && s.calls[i].op == Redeem(e.nonce, e.writer)
        && Inspect(i, now, at) in events && Looked(events, i, e.nonce, e.ts)
        && IsRecord(s.file, k, e.nonce) && 0 <= k < |s.file|
        && (parse(s.file[k].expiresAt).Some? ==> now < parse(s.file[k].expiresAt).value)
  {
    hide Run, LogOf, Sequentially, Explained, EntriesOf, Looked;
    LockLinearises(parse, file, events);
    RunIsClocked(parse, file, events);
    var s := Run(parse, file, events);
    var i := EntryHasCall(parse, file, s.calls, e);
    var now := Sequentially(parse, file, s.calls[..i]);
    AppendsWhenLive(parse, s.calls[i], now, e);
    SequenceKeeps(parse, file, s.calls, i);
    KeepsFound(now, s.file, e.nonce);
    var k := FindNonce(s.file, e.nonce).value;
    RecordIsFound(s.file, k, e.nonce);
    var at :| Inspect(i, s.calls[i].script.now, at) in events;
  }

  // ── Redeemed again ───────────────────────────────────────────────────────────

  /** An operation on some other invite. */
  predicate Elsewhere(op: Op, nonce: string) {
    match op
    case Create(_) => true
    case Revoke(other) => other != nonce
    case Redeem(other, _) => other != nonce
  }

  /** A call rewrites at most the record it looks up. */
  lemma AtomicElsewhere(parse: string -> Option<int>, op: Op, x: Script, file: seq<Invite>, k: nat)
    requires k < |file| && Elsewhere(op, file[k].nonce)
    ensures var after := Atomically(parse, op, x, file).file; k < |after| && after[k] == file[k]
  {
  }

  lemma ElsewhereKeeps(parse: string -> Option<int>, op: Op, x: Script, file: seq<Invite>, nonce: string)
    requires Elsewhere(op, nonce) && FindNonce(file, nonce).Some?
    ensures var after := Atomically(parse, op, x, file).file; var k := FindNonce(file, nonce);
      FindNonce(after, nonce) == k && after[k.value] == file[k.value]
  {
    var after, k := Atomically(parse, op, x, file).file, FindNonce(file, nonce).value;
    AtomicKeeps(parse, op, x, file);
    KeepsFound(file, after, nonce);
    AtomicElsewhere(parse, op, x, file, k);
  }

  lemma {:induction false} CallsElsewhereKeep(parse: string -> Option<int>, file: seq<Invite>, calls: seq<Call>,
                                              nonce: string)
    requires FindNonce(file, nonce).Some? && forall i | 0 <= i < |calls| :: Elsewhere(calls[i].op, nonce)
    ensures var after := Sequentially(parse, file, calls); var k := FindNonce(file, nonce);
      FindNonce(after, nonce) == k && after[k.value] == file[k.value]
  {
    if calls == [] {
    } else {
      hide Atomically;
      var n := |calls| - 1;
      CallsElsewhereKeep(parse, file, calls[..n], nonce);
      ElsewhereKeeps(parse, calls[n].op, calls[n].script, Sequentially(parse, file, calls[..n]), nonce);
    }
  }

  /** And only then: after a redemption of a live invite reached the log, and any calls on
      other invites, one more redemption made before the expiry and before the view shows the
      first reaches the log too exactly when the first failed to append its grant or to save. */
  lemma {:induction false} SecondPairExactlyWhenTorn(parse: string -> Option<int>, file: seq<Invite>, nonce: string,
                                                     w1: string, x1: Script,
                                                     between: seq<Call>, w2: string, x2: Script)
    requires FindNonce(file, nonce).Some? && Live(parse, file[FindNonce(file, nonce).value], x1.now)
    requires x1.loadOk && x1.lookOk && !x1.inView && x1.firstOk
    requires forall i | 0 <= i < |between| :: Elsewhere(between[i].op, nonce)
    requires x2.loadOk && x2.lookOk && !x2.inView && x2.firstOk
    requires parse(file[FindNonce(file, nonce).value].expiresAt).None? ||
             x2.now < parse(file[FindNonce(file, nonce).value].expiresAt).value
    ensures var first := Atomically(parse, Redeem(nonce, w1), x1, file);
      && first.entries != []
      && (Atomically(parse, Redeem(nonce, w2), x2, Sequentially(parse, first.file, between)).entries != [] <==>
          !(x1.secondOk && x1.saveOk))
  {
    var first := Atomically(parse, Redeem(nonce, w1), x1, file);
    if x1.secondOk && x1.saveOk { FoundAt(first.file, nonce, FindNonce(file, nonce).value); }
    CallsElsewhereKeep(parse, first.file, between, nonce);
  }

  // ── A concrete run ───────────────────────────────────────────────────────────

  /** The events of a redemption that meets no obstacle before its save. */
  function RedeemEvents(i: nat, nonce: string, writer: string, now: int, saveOk: bool): seq<Event> {
    [Arrive(Redeem(nonce, writer)), Enter(i), Load(i, true), Inspect(i, now, "1"), Look(i, true, "1"),
     Append(i, true), Append(i, true), Save(i, saveOk)]
  }

  lemma {:induction false} RunEight(parse: string -> Option<int>, file: seq<Invite>, events: seq<Event>, es: seq<Event>)
    requires |es| == 8
    ensures var s := Run(parse, file, events);
      var t := Next(parse, Next(parse, Next(parse, Next(parse, s, es[0]), es[1]), es[2]), es[3]);
      Run(parse, file, events + es) == Next(parse, Next(parse, Next(parse, Next(parse, t, es[4]), es[5]), es[6]), es[7])
  {
    hide Run, Next;
    RunNext(parse, file, events, es[0]);
    RunNext(parse, file, events + [es[0]], es[1]);
    RunNext(parse, file, events + [es[0]] + [es[1]], es[2]);
    RunNext(parse, file, events + [es[0]] + [es[1]] + [es[2]], es[3]);
    var four := events + [es[0]] + [es[1]] + [es[2]] + [es[3]];
    RunNext(parse, file, four, es[4]);
    RunNext(parse, file, four + [es[4]], es[5]);
    RunNext(parse, file, four + [es[4]] + [es[5]], es[6]);
    RunNext(parse, file, four + [es[4]] + [es[5]] + [es[6]], es[7]);
    assert events + es == four + [es[4]] + [es[5]] + [es[6]] + [es[7]];
  }

  /** Up to the check of the view, on a file that holds one live invite. */
  lemma RedeemEnters(parse: string -> Option<int>, s: State, inv: Invite, writer: string, now: int)
    requires s.file == [inv] && Live(parse, inv, now) && (forall j | 0 <= j < |s.calls| ::
        s.calls[j].phase.Finished?)
    ensures var op, i, es := Redeem(inv.nonce, writer), |s.calls|, RedeemEvents(|s.calls|, inv.nonce, writer, now,
                                                                                true);
      Next(parse, Next(parse, Next(parse, Next(parse, s, es[0]), es[1]), es[2]), es[3]) ==
        s.(calls := s.calls + [Call(op, Looking([inv], 0), NO_SCRIPT.(loadOk := true, now := now, at := "1"))])
  {
    var op, i := Redeem(inv.nonce, writer), |s.calls|;
    var arrived := s.calls + [Call(op, Waiting, NO_SCRIPT)];
    FoundAt([inv], inv.nonce, 0);
    assert arrived[i := arrived[i].(phase := Entered)] == s.calls + [Call(op, Entered, NO_SCRIPT)];
    assert forall c, d :: (s.calls + [c])[i := d] == s.calls + [d];
    assert s.log + [] == s.log;
  }

  /** From there to the end. */
  lemma RedeemAppends(parse: string -> Option<int>, calls: seq<Call>, log: seq<LogEntry>, inv: Invite, writer: string,
                      x: Script, saveOk: bool)
    ensures var op, i := Redeem(inv.nonce, writer), |calls|; var es := RedeemEvents(i, inv.nonce, writer, 0, saveOk);
      var s := State(calls + [Call(op, Looking([inv], 0), x)], [inv], log, {});
      var t := Next(parse, Next(parse, Next(parse, Next(parse, s, es[4]), es[5]), es[6]), es[7]);
      && t.log == log + [RedeemedEntry(inv.nonce, writer, "1"), AddWriterEntry(writer, "1")]
      && t.file == (if saveOk then [Spent(inv, "1", writer)] else [inv])
      && |t.calls| == |calls| + 1 && t.calls[..|calls|] == calls && t.calls[|calls|].phase.Finished? && t.spent == {}
  {
    var op, i := Redeem(inv.nonce, writer), |calls|;
    assert forall c, d :: (calls + [c])[i := d] == calls + [d];
    assert log + [] + [RedeemedEntry(inv.nonce, writer, "1")] + [AddWriterEntry(writer, "1")] + [] ==
           log + [RedeemedEntry(inv.nonce, writer, "1"), AddWriterEntry(writer, "1")];
    assert [inv][0 := Spent(inv, "1", writer)] == [Spent(inv, "1", writer)];
  }

  lemma {:induction false} RedeemGoes(parse: string -> Option<int>, file: seq<Invite>, events: seq<Event>, inv: Invite,
                                      writer: string, now: int, saveOk: bool)
    requires var s := Run(parse, file, events);
      s.file == [inv] && Live(parse, inv, now) && s.spent == {} && forall j | 0 <= j < |s.calls| ::
          s.calls[j].phase.Finished?
    ensures var s, i := Run(parse, file, events), |Run(parse, file, events).calls|;
      var t := Run(parse, file, events + RedeemEvents(i, inv.nonce, writer, now, saveOk));
      && t.log == s.log + [RedeemedEntry(inv.nonce, writer, "1"), AddWriterEntry(writer, "1")]
      && t.file == (if saveOk then [Spent(inv, "1", writer)] else [inv])
      && |t.calls| == i + 1 && (forall j | 0 <= j <= i :: t.calls[j].phase.Finished?) && t.spent == {}
  {
    hide Run, Next;
    var s, i := Run(parse, file, events), |Run(parse, file, events).calls|;
    var es, plain := RedeemEvents(i, inv.nonce, writer, now, saveOk), RedeemEvents(i, inv.nonce, writer, 0, saveOk);
    var x := NO_SCRIPT.(loadOk := true, now := now, at := "1");
    RunEight(parse, file, events, es);
    RedeemEnters(parse, s, inv, writer, now);
    assert s == State(s.calls, [inv], s.log, {});
    RedeemAppends(parse, s.calls, s.log, inv, writer, x, saveOk);
    assert es[4] == plain[4] && es[5] == plain[5] && es[6] == plain[6] && es[7] == plain[7];
    var t := Run(parse, file, events + es);
    assert forall j | 0 <= j < i :: t.calls[j] == t.calls[..i][j];
  }

  lemma NothingRun(parse: string -> Option<int>, inv: Invite)
    ensures Run(parse, [inv], []) == State([], [inv], [], {})
  {
  }

  /** One live invite, two writers: the first redemption fails to save the file, and its
      successor finds the invite unspent and admits its own writer too. */
  lemma {:induction false} OneTokenTwoWriters(parse: string -> Option<int>, inv: Invite, now: int)
    requires Live(parse, inv, now)
    ensures var events := RedeemEvents(0, inv.nonce, "a", now, false) + RedeemEvents(1, inv.nonce, "b", now, true);
      var s := Run(parse, [inv], events);
      && s.log == [RedeemedEntry(inv.nonce, "a", "1"), AddWriterEntry("a", "1"), RedeemedEntry(inv.nonce, "b", "1"),
                   AddWriterEntry("b", "1")]
      && s.file == [Spent(inv, "1", "b")]
  {
    hide Run, RedeemEvents;
    NothingRun(parse, inv);
    var first := RedeemEvents(0, inv.nonce, "a", now, false);
    RedeemGoes(parse, [inv], [], inv, "a", now, false);
    assert [] + first == first;
    RedeemGoes(parse, [inv], first, inv, "b", now, true);
  }
}
