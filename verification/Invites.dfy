/** The invites file and the lock around it: createInvite, revokeInvite and redeemInvite
    as interleaved steps, one step for each stretch of code between two awaits. */
module Invites {
  import opened Results

  type Timestamp = s: string | s != "" witness "0"

  datatype Invite = Invite(
    nonce: string,
    expiresAt: string,
    createdAt: string,
    ttlMs: int,
    pactName: Option<string>,
    issuerDisplay: Option<string>,
    revoked: bool,
    revokedAt: Option<Timestamp>,
    spentAt: Option<Timestamp>,
    spentBy: Option<string>)

  /** `parse` is `Date.parse`, `None` for NaN. */
  predicate Expired(parse: string -> Option<int>, inv: Invite, now: int) {
    parse(inv.expiresAt).Some? && parse(inv.expiresAt).value <= now
  }

  function FindNonce(file: seq<Invite>, nonce: string): (k: Option<nat>)
    ensures k.None? ==> forall j | 0 <= j < |file| :: file[j].nonce != nonce
    ensures k.Some? ==>
            k.value < |file| && file[k.value].nonce == nonce && forall j | 0 <= j < k.value :: file[j].nonce != nonce
  {
    if file == [] then None
    else
      var k := FindNonce(file[..|file| - 1], nonce);
      if k.Some? then k
      else if file[|file| - 1].nonce == nonce then Some(|file| - 1)
      else None
  }

  datatype Op = Create(invite: Invite) | Revoke(target: string) | Redeem(nonce: string, writer: string)

  datatype LogEntry =
    | RedeemedEntry(nonce: string, writer: string, ts: Timestamp)
    | AddWriterEntry(writer: string, ts: Timestamp)

  datatype Answer = Success | Unknown | WasRevoked | WasSpent | HasExpired | Failed

  /** Where a call stands. Between `Entered` and `Finished` it is inside the lock. */
  datatype Phase =
    | Waiting
    | Entered
    | Loaded(file: seq<Invite>)
    | Looking(file: seq<Invite>, idx: nat)
    | Appending(file: seq<Invite>, idx: nat, ts: Timestamp, second: bool)
    | Saving(file: seq<Invite>)
    | Finished(answer: Answer)

  /** What a call observed of the world: the clock when it inspected the file, whether the
      view had the nonce, and which of its reads and writes went through. */
  datatype Script =
    | Script(loadOk: bool, now: int, at: Timestamp, lookOk: bool, inView: bool, ts: Timestamp, firstOk: bool,
             secondOk: bool, saveOk: bool)

  const NO_SCRIPT := Script(false, 0, "0", false, false, "0", false, false, false)

  datatype Call = Call(op: Op, phase: Phase, script: Script)

  /** `spent` are the nonces with a row in the view; `calls` are in the order they asked for the lock. */
  datatype State = State(calls: seq<Call>, file: seq<Invite>, log: seq<LogEntry>, spent: set<string>)

  datatype Event =
    | Arrive(op: Op)
    | Enter(i: nat)
    | Load(i: nat, ok: bool)
    | Inspect(i: nat, now: int, at: Timestamp)
    | Look(i: nat, ok: bool, ts: Timestamp)
    | Append(i: nat, ok: bool)
    | Save(i: nat, ok: bool)
    | Confirmed(nonce: string)

  function Revoked(inv: Invite, at: Timestamp): Invite { inv.(revoked := true, revokedAt := Some(at)) }

  function Spent(inv: Invite, ts: Timestamp, writer: string): Invite {
    inv.(spentAt := Some(ts), spentBy := Some(writer))
  }

  /** The code between reading the file and the next await. */
  function Inspected(parse: string -> Option<int>, op: Op, file: seq<Invite>, now: int, at: Timestamp): Phase {
    match op
    case Create(inv) => Saving(file + [inv])
    case Revoke(nonce) =>
      (match FindNonce(file, nonce)
       case None => Finished(Unknown)
       case Some(k) => if file[k].revoked then Finished(Success) else Saving(file[k := Revoked(file[k], at)]))
    case Redeem(nonce, _) =>
      (match FindNonce(file, nonce)
       case None => Finished(Unknown)
       case Some(k) =>
         if file[k].revoked then Finished(WasRevoked)
         else if file[k].spentAt.Some? then Finished(WasSpent)
         else if Expired(parse, file[k], now) then Finished(HasExpired)
         else Looking(file, k))
  }

  /** What a call does on an event of its own, and what it appends to the log. */
  function Advance(parse: string -> Option<int>, c: Call, e: Event, file: seq<Invite>, spent: set<string>): (Call,
                   seq<LogEntry>) {
    match (e, c.phase)
    case (Load(_, ok), Entered) =>
      (c.(phase := if ok then Loaded(file) else Finished(Failed), script := c.script.(loadOk := ok)), [])
    case (Inspect(_, now, at), Loaded(f)) =>
      (c.(phase := Inspected(parse, c.op, f, now, at), script := c.script.(now := now, at := at)), [])
    case (Look(_, ok, ts), Looking(f, k)) =>
      var inView := c.op.Redeem? && c.op.nonce in spent;
      (c.(phase := if !ok then Finished(Failed) else if inView then Finished(WasSpent) else Appending(f, k, ts, false),
          script := c.script.(lookOk := ok, inView := inView, ts := ts)), [])
    case (Append(_, ok), Appending(f, k, ts, second)) =>
      if !c.op.Redeem? || k >= |f| then (c, [])
      else if !second then
        if ok then (c.(phase := Appending(f, k, ts, true), script := c.script.(firstOk := true)),
                    [RedeemedEntry(c.op.nonce, c.op.writer, ts)])
        else (c.(phase := Finished(Failed), script := c.script.(firstOk := false)), [])
      else
        if ok then (c.(phase := Saving(f[k := Spent(f[k], ts, c.op.writer)]),
                       script := c.script.(secondOk := true)), [AddWriterEntry(c.op.writer, ts)])
        else (c.(phase := Finished(Failed), script := c.script.(secondOk := false)), [])
    case (Save(_, ok), Saving(_)) =>
      (c.(phase := Finished(if ok then Success else Failed), script := c.script.(saveOk := ok)), [])
    case _ => (c, [])
  }

  /** `await prev`: the promise of the call before, which resolves when that call finishes, however it finishes. */
  predicate MayEnter(s: State, i: nat) {
    i < |s.calls| && s.calls[i].phase == Waiting && (i == 0 || s.calls[i - 1].phase.Finished?)
  }

  function OwnEvent(e: Event): Option<nat> {
    match e
    case Load(i, _) => Some(i)
    case Inspect(i, _, _) => Some(i)
    case Look(i, _, _) => Some(i)
    case Append(i, _) => Some(i)
    case Save(i, _) => Some(i)
    case _ => None
  }

  function OwnStep(parse: string -> Option<int>, s: State, e: Event, i: nat): State {
    if i >= |s.calls| then s
    else
      var (c, entries) := Advance(parse, s.calls[i], e, s.file, s.spent);
      var saved := e.Save? && e.ok && s.calls[i].phase.Saving?;
      s.(calls := s.calls[i := c], log := s.log + entries, file := if saved then s.calls[i].phase.file else s.file)
  }

  /** An event that is not possible in a state leaves it as it is. */
  function Next(parse: string -> Option<int>, s: State, e: Event): State {
    match e
    case Arrive(op) => s.(calls := s.calls + [Call(op, Waiting, NO_SCRIPT)])
    case Confirmed(nonce) => s.(spent := s.spent + {nonce})
    case Enter(i) => if MayEnter(s, i) then s.(calls := s.calls[i := s.calls[i].(phase := Entered)]) else s
    case _ => OwnStep(parse, s, e, OwnEvent(e).value)
  }

  function Run(parse: string -> Option<int>, file: seq<Invite>, events: seq<Event>): State {
    if events == [] then State([], file, [], {})
    else Next(parse, Run(parse, file, events[..|events| - 1]), events[|events| - 1])
  }

  // ── The sequential meaning ───────────────────────────────────────────────────

  datatype Effect = Effect(file: seq<Invite>, entries: seq<LogEntry>, answer: Answer)

  function SaveTo(file: seq<Invite>, changed: seq<Invite>, entries: seq<LogEntry>, ok: bool): Effect {
    if ok then Effect(changed, entries, Success) else Effect(file, entries, Failed)
  }

  /** A whole call at once: what it does to the file and the log when nothing else runs. */
  function Atomically(parse: string -> Option<int>, op: Op, x: Script, file: seq<Invite>): Effect {
    if !x.loadOk then Effect(file, [], Failed)
    else match op
      case Create(inv) => SaveTo(file, file + [inv], [], x.saveOk)
      case Revoke(nonce) =>
        (match FindNonce(file, nonce)
         case None => Effect(file, [], Unknown)
         case Some(k) =>
           if file[k].revoked then Effect(file, [], Success)
           else SaveTo(file, file[k := Revoked(file[k], x.at)], [], x.saveOk))
      case Redeem(nonce, writer) =>
        (match FindNonce(file, nonce)
         case None => Effect(file, [], Unknown)
         case Some(k) =>
           if file[k].revoked then Effect(file, [], WasRevoked)
           else if file[k].spentAt.Some? then Effect(file, [], WasSpent)
           else if Expired(parse, file[k], x.now) then Effect(file, [], HasExpired)
           else if !x.lookOk then Effect(file, [], Failed)
           else if x.inView then Effect(file, [], WasSpent)
           else
             var first, second := RedeemedEntry(nonce, writer, x.ts), AddWriterEntry(writer, x.ts);
             if !x.firstOk then Effect(file, [], Failed)
             else if !x.secondOk then Effect(file, [first], Failed)
             else SaveTo(file, file[k := Spent(file[k], x.ts, writer)], [first, second], x.saveOk))
  }

  /** The file after the finished calls, run one after another in call order. */
  function Sequentially(parse: string -> Option<int>, file: seq<Invite>, calls: seq<Call>): seq<Invite> {
    if calls == [] then file
    else
      var before, c := Sequentially(parse, file, calls[..|calls| - 1]), calls[|calls| - 1];
      if c.phase.Finished? then Atomically(parse, c.op, c.script, before).file else before
  }

  /** What the call in progress has appended so far. */
  function Pending(c: Call): seq<LogEntry> {
    if !c.op.Redeem? then []
    else
      var first, second := RedeemedEntry(c.op.nonce, c.op.writer, c.script.ts), AddWriterEntry(c.op.writer,
                                                                                               c.script.ts);
      match c.phase
      case Appending(_, _, _, true) => [first]
      case Saving(_) => [first, second]
      case _ => []
  }

  /** The log the same sequence of calls appends. */
  function LogOf(parse: string -> Option<int>, file: seq<Invite>, calls: seq<Call>): seq<LogEntry> {
    if calls == [] then []
    else
      var before, c := calls[..|calls| - 1], calls[|calls| - 1];
      LogOf(parse, file, before) +
      if c.phase.Finished? then Atomically(parse, c.op, c.script, Sequentially(parse, file, before)).entries
          else Pending(c)
  }

  /** A call's local state is explained by what it observed and by the file `now` that the calls before it left. */
  ghost predicate Explained(parse: string -> Option<int>, c: Call, now: seq<Invite>) {
    match c.phase
    case Waiting => true
    case Entered => true
    case Loaded(f) => f == now && c.script.loadOk
    case Looking(f, k) => f == now && c.script.loadOk &&
        Inspected(parse, c.op, now, c.script.now, c.script.at) == Looking(now, k)
    case Appending(f, k, ts, second) =>
      && f == now && c.script.loadOk && Inspected(parse, c.op, now, c.script.now, c.script.at) == Looking(now, k)
      && c.script.lookOk && !c.script.inView && c.script.ts == ts && (second ==> c.script.firstOk)
    case Saving(f) => Atomically(parse, c.op, c.script.(saveOk := true), now) == Effect(f, Pending(c), Success)
                      && Atomically(parse, c.op, c.script.(saveOk := false), now) == Effect(now, Pending(c), Failed)
    case Finished(answer) => answer == Atomically(parse, c.op, c.script, now).answer
  }

  /** Every call before a started one has finished: critical sections never overlap and run in call order. */
  ghost predicate Exclusive(calls: seq<Call>) {
    forall i, j | 0 <= i < j < |calls| && calls[j].phase != Waiting :: calls[i].phase.Finished?
  }

  ghost predicate Serial(parse: string -> Option<int>, file: seq<Invite>, s: State) {
    && Exclusive(s.calls)
    && s.file == Sequentially(parse, file, s.calls)
    && s.log == LogOf(parse, file, s.calls)
    && forall i | 0 <= i < |s.calls| :: Explained(parse, s.calls[i], Sequentially(parse, file, s.calls[..i]))
  }

  // ── Every interleaving is the sequence ───────────────────────────────────────

  lemma InspectedMeansAtomic(parse: string -> Option<int>, op: Op, x: Script, file: seq<Invite>)
    requires x.loadOk
    ensures match Inspected(parse, op, file, x.now, x.at)
      case Saving(f) => !op.Redeem? && Atomically(parse, op, x, file) == SaveTo(file, f, [], x.saveOk)
      case Finished(answer) => Atomically(parse, op, x, file) == Effect(file, [], answer)
      case Looking(f, k) =>
        && op.Redeem? && f == file && k < |file|
        && var first, second := RedeemedEntry(op.nonce, op.writer, x.ts), AddWriterEntry(op.writer, x.ts);
           Atomically(parse, op, x, file) ==
             (if !x.lookOk then Effect(file, [], Failed)
              else if x.inView then Effect(file, [], WasSpent)
              else if !x.firstOk then Effect(file, [], Failed)
              else if !x.secondOk then Effect(file, [first], Failed)
              else SaveTo(file, file[k := Spent(file[k], x.ts, op.writer)], [first, second], x.saveOk))
      case _ => false
  {
  }

  lemma LoadFails(parse: string -> Option<int>, op: Op, x: Script, file: seq<Invite>)
    ensures Atomically(parse, op, x.(loadOk := false), file) == Effect(file, [], Failed)
  {
  }

  /** The step keeps the call explained, and moves the file and the log as the sequential
      meaning says. */
  ghost predicate Agrees(parse: string -> Option<int>, c: Call, e: Event, now: seq<Invite>, next: Call,
                         entries: seq<LogEntry>) {
    && Explained(parse, next, now)
    && next.op == c.op && (next.phase == Waiting <==> c.phase == Waiting)
    && (c.phase.Finished? ==> next == c && entries == [])
    && (if next.phase.Finished? && !c.phase.Finished? then
          && Pending(c) + entries == Atomically(parse, c.op, next.script, now).entries
          && Atomically(parse, c.op, next.script, now).file == (if e.Save? && e.ok && c.phase.Saving? then c.phase.file
                                                                else now)
        else Pending(c) + entries == Pending(next) && !(e.Save? && e.ok && c.phase.Saving?))
  }

  lemma InspectAgrees(parse: string -> Option<int>, c: Call, e: Event, now: seq<Invite>, spent: set<string>)
    requires Explained(parse, c, now) && e.Inspect? && c.phase.Loaded?
    ensures var r := Advance(parse, c, e, now, spent); Agrees(parse, c, e, now, r.0, r.1)
  {
    hide Atomically, Inspected;
    var next := Advance(parse, c, e, now, spent).0;
    InspectedMeansAtomic(parse, c.op, next.script, now);
    InspectedMeansAtomic(parse, c.op, next.script.(saveOk := true), now);
    InspectedMeansAtomic(parse, c.op, next.script.(saveOk := false), now);
  }

  lemma LookAgrees(parse: string -> Option<int>, c: Call, e: Event, now: seq<Invite>, spent: set<string>)
    requires Explained(parse, c, now) && e.Look? && c.phase.Looking?
    ensures var r := Advance(parse, c, e, now, spent); Agrees(parse, c, e, now, r.0, r.1)
  {
    hide Atomically, Inspected;
    InspectedMeansAtomic(parse, c.op, Advance(parse, c, e, now, spent).0.script, now);
  }

  lemma AppendAgrees(parse: string -> Option<int>, c: Call, e: Event, now: seq<Invite>, spent: set<string>)
    requires Explained(parse, c, now) && e.Append? && c.phase.Appending?
    ensures var r := Advance(parse, c, e, now, spent); Agrees(parse, c, e, now, r.0, r.1)
  {
    hide Atomically, Inspected;
    var next := Advance(parse, c, e, now, spent).0;
    InspectedMeansAtomic(parse, c.op, next.script, now);
    InspectedMeansAtomic(parse, c.op, next.script.(saveOk := true), now);
    InspectedMeansAtomic(parse, c.op, next.script.(saveOk := false), now);
  }

  lemma SaveAgrees(parse: string -> Option<int>, c: Call, e: Event, now: seq<Invite>, spent: set<string>)
    requires Explained(parse, c, now) && e.Save? && c.phase.Saving?
    ensures var r := Advance(parse, c, e, now, spent); Agrees(parse, c, e, now, r.0, r.1)
  {
    hide Atomically;
    assert c.script.(saveOk := e.ok) == Advance(parse, c, e, now, spent).0.script;
  }

  lemma OtherAgrees(parse: string -> Option<int>, c: Call, e: Event, now: seq<Invite>, spent: set<string>)
    requires Explained(parse, c, now)
    requires !(e.Inspect? && c.phase.Loaded?) && !(e.Look? && c.phase.Looking?) && !(e.Append? && c.phase.Appending?)
    requires !(e.Save? && c.phase.Saving?)
    ensures var r := Advance(parse, c, e, now, spent); Agrees(parse, c, e, now, r.0, r.1)
  {
    hide Atomically, Inspected;
    LoadFails(parse, c.op, c.script, now);
    assert Pending(c) + [] == Pending(c);
  }

  /** A step of a started call keeps its state explained; the file and the log move as
      the sequential meaning says. */
  lemma AdvanceIsAtomic(parse: string -> Option<int>, c: Call, e: Event, now: seq<Invite>, spent: set<string>)
    requires Explained(parse, c, now)
    ensures var (next, entries) := Advance(parse, c, e, now, spent);
      && Explained(parse, next, now)
      && next.op == c.op && (next.phase == Waiting <==> c.phase == Waiting)
      && (c.phase.Finished? ==> next == c && entries == [])
      && (if next.phase.Finished? && !c.phase.Finished? then
            && Pending(c) + entries == Atomically(parse, c.op, next.script, now).entries
            && Atomically(parse, c.op, next.script, now).file == (if e.Save? && e.ok &&
                                                                  c.phase.Saving? then c.phase.file else now)
          else Pending(c) + entries == Pending(next) && !(e.Save? && e.ok && c.phase.Saving?))
  {
    if e.Inspect? && c.phase.Loaded? {
      InspectAgrees(parse, c, e, now, spent);
    } else if e.Look? && c.phase.Looking? {
      LookAgrees(parse, c, e, now, spent);
    } else if e.Append? && c.phase.Appending? {
      AppendAgrees(parse, c, e, now, spent);
    } else if e.Save? && c.phase.Saving? {
      SaveAgrees(parse, c, e, now, spent);
    } else {
      OtherAgrees(parse, c, e, now, spent);
    }
  }

  /** Calls that have not started have no part in the file or the log. */
  lemma {:induction false} WaitingTail(parse: string -> Option<int>, file: seq<Invite>, calls: seq<Call>, i: nat)
    requires i <= |calls| && forall j | i <= j < |calls| :: calls[j].phase == Waiting
    ensures Sequentially(parse, file, calls) == Sequentially(parse, file, calls[..i])
    ensures LogOf(parse, file, calls) == LogOf(parse, file, calls[..i])
    decreases |calls|
  {
    hide Atomically;
    if i < |calls| {
      var n := |calls| - 1;
      assert calls[..n][..i] == calls[..i];
      WaitingTail(parse, file, calls[..n], i);
    } else {
      assert calls[..i] == calls;
    }
  }

  lemma UnfoldLast(parse: string -> Option<int>, file: seq<Invite>, calls: seq<Call>, i: nat)
    requires i < |calls|
    ensures var before, c := Sequentially(parse, file, calls[..i]), calls[i];
      && Sequentially(parse, file, calls[..i + 1]) ==
          (if c.phase.Finished? then Atomically(parse, c.op, c.script, before).file else before)
      && LogOf(parse, file, calls[..i + 1]) ==
         LogOf(parse, file, calls[..i]) + if c.phase.Finished? then Atomically(parse, c.op, c.script, before).entries
             else Pending(c)
  {
    hide Atomically;
    assert calls[..i + 1][..i] == calls[..i];
  }

  /** Changing the one call in progress changes the sequential file and log by that call's part. */
  lemma CurrentCall(parse: string -> Option<int>, file: seq<Invite>, calls: seq<Call>, i: nat)
    requires i < |calls| && forall j | i < j < |calls| :: calls[j].phase == Waiting
    ensures var before, c := Sequentially(parse, file, calls[..i]), calls[i];
      && Sequentially(parse, file, calls) == (if c.phase.Finished? then Atomically(parse, c.op, c.script, before).file
                                              else before)
      && LogOf(parse, file, calls) ==
         LogOf(parse, file, calls[..i]) + if c.phase.Finished? then Atomically(parse, c.op, c.script, before).entries
             else Pending(c)
  {
    hide Atomically, Sequentially, LogOf;
    WaitingTail(parse, file, calls, i + 1);
    UnfoldLast(parse, file, calls, i);
  }

  lemma WaitingIsExplained(parse: string -> Option<int>, c: Call, now: seq<Invite>)
    requires c.phase == Waiting || c.phase == Entered
    ensures Explained(parse, c, now) && Pending(c) == []
  {
  }

  lemma ReplaceCall(parse: string -> Option<int>, file: seq<Invite>, s: State, i: nat, c: Call, s': State,
                    entries: seq<LogEntry>)
    requires Serial(parse, file, s) && i < |s.calls| && s'.calls == s.calls[i := c] && s'.log == s.log + entries
    requires !s.calls[i].phase.Finished?
    requires c.phase != Waiting ==> forall k | 0 <= k < i :: s.calls[k].phase.Finished?
    requires forall j | i < j < |s.calls| :: s.calls[j].phase == Waiting
    requires var now := Sequentially(parse, file, s.calls[..i]);
      && Explained(parse, c, now)
      && (if c.phase.Finished? then
            && Pending(s.calls[i]) + entries == Atomically(parse, c.op, c.script, now).entries
            && s'.file == Atomically(parse, c.op, c.script, now).file
          else Pending(s.calls[i]) + entries == Pending(c) && s'.file == s.file)
    ensures Serial(parse, file, s')
  {
    hide Atomically, Sequentially, LogOf, Explained;
    CurrentCall(parse, file, s.calls, i);
    CurrentCall(parse, file, s'.calls, i);
    assert s'.calls[..i] == s.calls[..i];
    forall j | 0 <= j < |s'.calls| ensures Explained(parse, s'.calls[j], Sequentially(parse, file, s'.calls[..j])) {
      if j < i { assert s'.calls[..j] == s.calls[..j]; }
      if j > i { WaitingIsExplained(parse, s'.calls[j], Sequentially(parse, file, s'.calls[..j])); }
    }
  }

  lemma {:induction false} ArriveIsSerial(parse: string -> Option<int>, file: seq<Invite>, s: State, op: Op)
    requires Serial(parse, file, s)
    ensures Serial(parse, file, Next(parse, s, Arrive(op)))
  {
    hide Atomically, Sequentially, LogOf, Explained;
    var s' := Next(parse, s, Arrive(op));
    var n := |s.calls|;
    WaitingTail(parse, file, s'.calls, n);
    assert s'.calls[..n] == s.calls;
    forall j | 0 <= j < |s'.calls| ensures Explained(parse, s'.calls[j], Sequentially(parse, file, s'.calls[..j])) {
      if j < n { assert s'.calls[..j] == s.calls[..j]; }
      else { WaitingIsExplained(parse, s'.calls[j], Sequentially(parse, file, s'.calls[..j])); }
    }
  }

  lemma AdvanceReads(parse: string -> Option<int>, c: Call, e: Event, a: seq<Invite>, b: seq<Invite>,
                     spent: set<string>)
    ensures c.phase != Entered ==> Advance(parse, c, e, a, spent) == Advance(parse, c, e, b, spent)
    ensures c.phase == Waiting || c.phase.Finished? ==> Advance(parse, c, e, a, spent) == (c, [])
  {
  }

  lemma OwnStepIsSerial(parse: string -> Option<int>, file: seq<Invite>, s: State, e: Event, i: nat)
    requires Serial(parse, file, s)
    ensures Serial(parse, file, OwnStep(parse, s, e, i))
  {
    hide Atomically, Sequentially, LogOf, Explained, Pending, Advance;
    if i < |s.calls| {
      var now := Sequentially(parse, file, s.calls[..i]);
      AdvanceReads(parse, s.calls[i], e, s.file, now, s.spent);
      AdvanceIsAtomic(parse, s.calls[i], e, now, s.spent);
      var (c, entries) := Advance(parse, s.calls[i], e, s.file, s.spent);
      if s.calls[i].phase.Finished? || s.calls[i].phase == Waiting {
        assert OwnStep(parse, s, e, i) == s;
      } else {
        CurrentCall(parse, file, s.calls, i);
        assert s.file == now;
        ReplaceCall(parse, file, s, i, c, OwnStep(parse, s, e, i), entries);
      }
    }
  }

  lemma NextIsSerial(parse: string -> Option<int>, file: seq<Invite>, s: State, e: Event)
    requires Serial(parse, file, s)
    ensures Serial(parse, file, Next(parse, s, e))
  {
    hide Atomically, Sequentially, LogOf, Explained, Pending, Advance;
    match e {
      case Arrive(op) => ArriveIsSerial(parse, file, s, op);
      case Confirmed(_) =>
      case Enter(i) =>
        if MayEnter(s, i) {
          var c := s.calls[i].(phase := Entered);
          WaitingIsExplained(parse, c, Sequentially(parse, file, s.calls[..i]));
          WaitingIsExplained(parse, s.calls[i], Sequentially(parse, file, s.calls[..i]));
          ReplaceCall(parse, file, s, i, c, Next(parse, s, e), []);
        }
      case _ => OwnStepIsSerial(parse, file, s, e, OwnEvent(e).value);
    }
  }

  /** Under every interleaving, critical sections never overlap and run in call order, and
      the file and the log are those of the calls run one at a time in that order, even
      when reads, appends or saves fail. */
  lemma {:induction false} LockLinearises(parse: string -> Option<int>, file: seq<Invite>, events: seq<Event>)
    ensures Serial(parse, file, Run(parse, file, events))
  {
    if events == [] {
    } else {
      hide Serial, Next;
      var n := |events| - 1;
      LockLinearises(parse, file, events[..n]);
      NextIsSerial(parse, file, Run(parse, file, events[..n]), events[n]);
    }
  }
}
