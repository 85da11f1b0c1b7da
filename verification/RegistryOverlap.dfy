/** What the registry keeps when its operations interleave: always, when calls do not overlap,
    and exactly when for concurrent creates. */
module RegistryOverlap {
  import opened Results
  import opened Registry
  import opened RegistrySafety
  import opened RegistrySteps

  lemma {:induction false} RunNext(hostDir: string, events: seq<Event>, e: Event)
    ensures Run(hostDir, events + [e]) == Next(hostDir, Run(hostDir, events), e)
  {
    assert (events + [e])[..|events|] == events;
  }

  // ── Calls that do not overlap ────────────────────────────────────────────────

  /** Nobody loads the file while another call is under way. */
  ghost predicate OneAtATime(hostDir: string, events: seq<Event>) {
    forall k | 0 <= k < |events| && events[k].Load? :: AllEnded(Run(hostDir, events[..k]).calls)
  }

  predicate KeysAreHex(calls: seq<Call>) { forall i | 0 <= i < |calls| :: KeyIsHex(calls[i].op) }

  /** What call `i` is to report: the outcome of its operation after those before it. */
  ghost function Expected(hostDir: string, calls: seq<Call>, i: nat): (Host, Outcome)
    requires i < |calls|
  {
    Step(hostDir, After(hostDir, Ops(calls[..i])), calls[i].op)
  }

  ghost predicate EarlierEnded(hostDir: string, calls: seq<Call>) {
    forall i | 0 <= i < |calls| - 1 :: calls[i].phase == Ended(Expected(hostDir, calls, i).1)
  }

  /** Calls before the last one have ended as the sequence says, and the last one, left alone, will. */
  ghost predicate InSequence(hostDir: string, s: State) {
    var n := |s.calls|;
    && (n == 0 ==> s.host == FRESH_HOST)
    && (n > 0 ==>
          && InFile(s.calls[n - 1].phase)
          && Complete(hostDir, s.host, s.calls[n - 1].phase) == Expected(hostDir, s.calls, n - 1))
    && EarlierEnded(hostDir, s.calls)
  }

  lemma {:induction false} SameOps(a: seq<Call>, b: seq<Call>)
    requires |a| == |b| && forall i | 0 <= i < |a| :: a[i].op == b[i].op
    ensures Ops(a) == Ops(b)
  {
    if a == [] {
    } else {
      SameOps(a[..|a| - 1], b[..|b| - 1]);
    }
  }

  lemma {:induction false} ExpectedStays(hostDir: string, a: seq<Call>, b: seq<Call>, i: nat)
    requires i < |a| <= |b| && forall k | 0 <= k < |a| :: a[k].op == b[k].op
    ensures Expected(hostDir, a, i) == Expected(hostDir, b, i)
  {
    SameOps(a[..i], b[..i]);
  }

  /** A sequence in which all calls have ended is where the operations lead one by one. */
  lemma {:induction false} SequenceEnds(hostDir: string, s: State)
    requires InSequence(hostDir, s) && AllEnded(s.calls)
    ensures s.host == After(hostDir, Ops(s.calls))
    ensures forall i | 0 <= i < |s.calls| :: s.calls[i].phase == Ended(Expected(hostDir, s.calls, i).1)
  {
    hide Step;
    var n := |s.calls|;
    if n == 0 {
    } else {
      var ops := Ops(s.calls[..n - 1]);
      assert Ops(s.calls) == ops + [s.calls[n - 1].op];
      assert Ops(s.calls)[..|ops|] == ops;
    }
  }

  lemma {:induction false} LastExpected(hostDir: string, calls: seq<Call>, c: Call)
    ensures Expected(hostDir, calls + [c], |calls|) == Step(hostDir, After(hostDir, Ops(calls)), c.op)
  {
    assert (calls + [c])[..|calls|] == calls;
  }

  lemma {:induction false} LoadInSequence(hostDir: string, s: State, op: Op)
    requires InSequence(hostDir, s) && AllEnded(s.calls) && KeyIsHex(op) && Sound(hostDir, s.host)
    ensures InSequence(hostDir, Next(hostDir, s, Load(op)))
  {
    hide Step, Begin, Sound, Complete, Expected;
    var t := Next(hostDir, s, Load(op));
    var n := |s.calls|;
    SequenceEnds(hostDir, s);
    forall i | 0 <= i < n
      ensures t.calls[i] == s.calls[i] && Expected(hostDir, t.calls, i) == Expected(hostDir, s.calls, i)
    {
      ExpectedStays(hostDir, s.calls, t.calls, i);
    }
    AloneIsStep(hostDir, s.host, op);
    BeginsInFile(s.host, op);
    LastExpected(hostDir, s.calls, t.calls[n]);
  }

  lemma {:induction false} GoInSequence(hostDir: string, s: State, i: nat)
    requires InSequence(hostDir, s)
    ensures InSequence(hostDir, Next(hostDir, s, Go(i)))
  {
    hide Step, Progress, Expected;
    var t := Next(hostDir, s, Go(i));
    forall k | 0 <= k < |s.calls| ensures Expected(hostDir, t.calls, k) == Expected(hostDir, s.calls, k) {
      ExpectedStays(hostDir, s.calls, t.calls, k);
    }
    if i < |s.calls| && s.calls[i].phase.Ended? { assert t == s; }
  }

  lemma {:induction false} OpsAreHex(calls: seq<Call>)
    requires KeysAreHex(calls)
    ensures forall op | op in Ops(calls) :: KeyIsHex(op)
  {
    if calls == [] {
    } else {
      OpsAreHex(calls[..|calls| - 1]);
    }
  }

  lemma NothingYet(hostDir: string)
    ensures InSequence(hostDir, Run(hostDir, []))
  {
  }

  lemma CallsGrow(hostDir: string, s: State, e: Event)
    ensures var t := Next(hostDir, s, e);
      |s.calls| <= |t.calls| && forall i | 0 <= i < |s.calls| :: t.calls[i].op == s.calls[i].op
  {
  }

  lemma LoadedLast(hostDir: string, s: State, op: Op)
    ensures var t := Next(hostDir, s, Load(op)); |t.calls| == |s.calls| + 1 && t.calls[|s.calls|].op == op
  {
  }

  /** Over every run in which no call loads the file before the others have ended: once all
      have, the host is where the operations lead one after another, in the order in which they
      loaded the file, every call has reported what it would have reported then, and the host
      is sound. */
  lemma {:induction false} SerialRuns(hostDir: string, events: seq<Event>)
    requires OneAtATime(hostDir, events) && KeysAreHex(Run(hostDir, events).calls)
    ensures var s := Run(hostDir, events);
      && InSequence(hostDir, s)
      && (AllEnded(s.calls) ==>
            && s.host == After(hostDir, Ops(s.calls)) && Sound(hostDir, s.host)
            && forall i | 0 <= i < |s.calls| :: s.calls[i].phase == Ended(Expected(hostDir, s.calls, i).1))
  {
    hide InSequence, Next, Sound, After;
    if events == [] {
      NothingYet(hostDir);
    } else {
      var n := |events| - 1;
      var before, e := events[..n], events[n];
      assert forall k | 0 <= k < n :: before[k] == events[k] && before[..k] == events[..k];
      CallsGrow(hostDir, Run(hostDir, before), e);
      SerialRuns(hostDir, before);
      match e {
        case Load(op) =>
          assert AllEnded(Run(hostDir, before).calls);
          LoadedLast(hostDir, Run(hostDir, before), op);
          LoadInSequence(hostDir, Run(hostDir, before), op);
        case Go(i) => GoInSequence(hostDir, Run(hostDir, before), i);
      }
    }
    var s := Run(hostDir, events);
    if AllEnded(s.calls) {
      SequenceEnds(hostDir, s);
      OpsAreHex(s.calls);
      RunsAreSound(hostDir, Ops(s.calls));
    }
  }

  // ── Whatever the interleaving ────────────────────────────────────────────────

  predicate Derived(hostDir: string, rows: seq<Row>) {
    forall k | 0 <= k < |rows| :: IsAlias(rows[k].alias) && rows[k].dataDir == PactConfigDir(hostDir, rows[k].alias)
  }

  predicate OwnRest(hostDir: string, op: Op, rest: Rest) {
    rest.DeleteDir? ==> op.Remove? && rest.dir == PactConfigDir(hostDir, op.target)
  }

  /** What a call remembers belongs to the operation it carries out. */
  predicate Linked(hostDir: string, c: Call) {
    match c.phase
    case Making(file, alias, _, _) => Derived(hostDir, file.rows) && IsAlias(alias)
    case Closing(file, i) => Derived(hostDir, file.rows) && i < |file.rows| && c.op == Remove(file.rows[i].alias)
    case ClosingToMove(file, i, now) => Derived(hostDir, file.rows) && i < |file.rows| &&
        c.op == Rename(file.rows[i].alias, now) && IsAlias(now)
    case Moving(file, i, now, _) => Derived(hostDir, file.rows) && i < |file.rows| &&
        c.op == Rename(file.rows[i].alias, now) && IsAlias(now)
    case Saving(file, rest) => Derived(hostDir, file.rows) && OwnRest(hostDir, c.op, rest)
    case Saved(rest) => OwnRest(hostDir, c.op, rest)
    case _ => true
  }

  lemma DropIsDerived(hostDir: string, rows: seq<Row>, i: nat)
    requires Derived(hostDir, rows) && i < |rows|
    ensures Derived(hostDir, rows[..i] + rows[i + 1..])
  {
    var rest := rows[..i] + rows[i + 1..];
    assert forall k | 0 <= k < |rest| :: rest[k] == if k < i then rows[k] else rows[k + 1];
  }

  lemma RowIsDerived(hostDir: string, rows: seq<Row>, i: nat)
    requires Derived(hostDir, rows) && i < |rows|
    ensures rows[i].dataDir == PactConfigDir(hostDir, rows[i].alias)
  {
  }

  lemma BeginLinks(hostDir: string, h: Host, op: Op)
    requires Derived(hostDir, h.rows)
    ensures Linked(hostDir, Call(op, Begin(h, op).1)) && Begin(h, op).0.rows == h.rows
    ensures Begin(h, op).0.current == h.current
    ensures Begin(h, op).0.disk == h.disk
  {
    hide IsAlias, PactConfigDir, UniqueAlias, JoinedAlias, Derived;
    if op.Remove? {
      var i := IndexOf(h.rows, op.target);
      if i < |h.rows| {
        DropIsDerived(hostDir, h.rows, i);
        RowIsDerived(hostDir, h.rows, i);
      }
    }
  }

  lemma OpenIsPlain(hostDir: string, h: Host, op: Op, alias: string)
    ensures Linked(hostDir, Call(op, BeginOpen(h, Some(alias))))
  {
  }

  lemma AddIsDerived(hostDir: string, rows: seq<Row>, alias: string, made: Made)
    requires Derived(hostDir, rows) && IsAlias(alias)
    ensures made.Made? ==> Derived(hostDir, rows + [Row(alias, made.pactKey, PactConfigDir(hostDir, alias))])
  {
  }

  lemma RenameIsDerived(hostDir: string, rows: seq<Row>, i: nat, now: string)
    requires Derived(hostDir, rows) && IsAlias(now) && i < |rows|
    ensures Derived(hostDir, rows[i := Row(now, rows[i].pactId, PactConfigDir(hostDir, now))])
  {
  }

  lemma ProgressLinks(hostDir: string, h: Host, c: Call)
    requires Derived(hostDir, h.rows) && RegistryOk(h.rows, h.current) && Linked(hostDir, c) && InFile(c.phase)
    ensures var (g, p) := Progress(hostDir, h, c.phase);
      Derived(hostDir, g.rows) && RegistryOk(g.rows, g.current) && Linked(hostDir, c.(phase := p))
  {
    hide IsAlias, PactConfigDir, Derived, RegistryOk, BeginOpen;
    match c.phase {
      case Reloading(alias) => OpenIsPlain(hostDir, h, c.op, alias);
      case Making(file, alias, _, made) => AddIsDerived(hostDir, file.rows, alias, made);
      case Closing(file, i) =>
        DropIsDerived(hostDir, file.rows, i);
        RowIsDerived(hostDir, file.rows, i);
      case Moving(file, i, now, _) => RenameIsDerived(hostDir, file.rows, i, now);
      case Opening(_, _) =>
      case ClosingToMove(_, _, _) =>
      case Saving(_, _) =>
      case Saved(_) =>
      case Ended(_) =>
    }
  }

  ghost predicate Kept(hostDir: string, s: State) {
    && RegistryOk(s.host.rows, s.host.current) && Derived(hostDir, s.host.rows)
    && forall i | 0 <= i < |s.calls| :: Linked(hostDir, s.calls[i])
  }

  lemma NextKeeps(hostDir: string, s: State, e: Event)
    requires Kept(hostDir, s)
    ensures Kept(hostDir, Next(hostDir, s, e))
  {
    hide Linked, Derived, RegistryOk, Progress, Begin;
    match e {
      case Load(op) => BeginLinks(hostDir, s.host, op);
      case Go(i) => if i < |s.calls| && InFile(s.calls[i].phase) { ProgressLinks(hostDir, s.host, s.calls[i]); }
    }
  }

  /** However calls interleave, daemon.json passes validation at every moment and each row's
      directory is the one derived from its own alias. */
  lemma {:induction false} FileIsAlwaysValid(hostDir: string, events: seq<Event>)
    ensures Kept(hostDir, Run(hostDir, events))
  {
    if events == [] {
    } else {
      hide Kept, Next;
      FileIsAlwaysValid(hostDir, events[..|events| - 1]);
      NextKeeps(hostDir, Run(hostDir, events[..|events| - 1]), events[|events| - 1]);
    }
  }

  /** The aliases whose directories a call may change: that of the pact it removes or renames,
      and that of the pact it is bringing up. */
  predicate OwnDir(hostDir: string, c: Call, dir: string) {
    || (c.op.Remove? && dir == PactConfigDir(hostDir, c.op.target))
    || (c.op.Rename? && dir == PactConfigDir(hostDir, c.op.oldAlias))
    || (c.phase.Making? && dir == PactConfigDir(hostDir, c.phase.alias))
  }

  lemma ProgressTouches(hostDir: string, h: Host, c: Call, dir: string)
    requires Linked(hostDir, c) && InFile(c.phase) && dir in h.disk && !OwnDir(hostDir, c, dir)
    ensures var g := Progress(hostDir, h, c.phase).0; dir in g.disk && g.disk[dir] == h.disk[dir]
  {
    hide IsAlias, PactConfigDir, Derived, RegistryOk, BeginOpen;
    if c.phase.Moving? { RowIsDerived(hostDir, c.phase.file.rows, c.phase.i); }
  }

  /** However calls interleave, no step of a call changes or deletes a directory but its own. */
  lemma {:induction false} OnlyOwnDirectories(hostDir: string, events: seq<Event>, e: Event, dir: string)
    requires dir in Run(hostDir, events).host.disk
    requires e.Go? && e.i < |Run(hostDir, events).calls| ==> !OwnDir(hostDir, Run(hostDir, events).calls[e.i], dir)
    ensures var s, t := Run(hostDir, events), Next(hostDir, Run(hostDir, events), e);
      dir in t.host.disk && t.host.disk[dir] == s.host.disk[dir]
  {
    hide Run, Progress, Begin, Linked, OwnDir;
    FileIsAlwaysValid(hostDir, events);
    var s := Run(hostDir, events);
    match e {
      case Load(op) => BeginLinks(hostDir, s.host, op);
      case Go(i) => if i < |s.calls| && InFile(s.calls[i].phase) { ProgressTouches(hostDir, s.host, s.calls[i], dir); }
    }
  }
}
