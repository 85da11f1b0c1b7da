/** The registry operations as interleaved steps: each stretch of code between two awaits is
    one step, and nothing keeps a call from loading daemon.json while another, which has
    loaded it earlier, has yet to save its own copy. */
module RegistrySteps {
  import opened Results
  import opened Registry
  import opened RegistrySafety
  import EntryIds

  /** The registry as a call read it, or as it is about to write it. */
  datatype File = File(rows: seq<Row>, current: Option<string>)

  /** What is left to do once the file is written. */
  datatype Rest =
    | NoRest
    | KeepOpen(alias: string, handle: Handle, makeCurrent: bool)
    | DeleteDir(dir: string)
    | Reopen(was: string, now: string, dir: string, wasOpen: bool)

  /** Where a call stands, with what it remembers from before the last await. */
  datatype Phase =
    | Opening(alias: string, dir: string)
    | Reloading(alias: string)
    | Making(file: File, alias: string, setCurrent: Option<bool>, made: Made)
    | Closing(file: File, i: nat)
    | ClosingToMove(file: File, i: nat, now: string)
    | Moving(file: File, i: nat, now: string, wasOpen: bool)
    | Saving(file: File, rest: Rest)
    | Saved(rest: Rest)
    | Ended(outcome: Outcome)

  datatype Call = Call(op: Op, phase: Phase)

  /** `calls` are in the order in which they loaded the file. */
  datatype State = State(calls: seq<Call>, host: Host)

  datatype Event = Load(op: Op) | Go(i: nat)

  function FileOf(h: Host): File { File(h.rows, h.current) }

  function FirstAlias(rows: seq<Row>): Option<string> { if rows == [] then None else Some(rows[0].alias) }

  /** Opening, up to the await on the pact. */
  function BeginOpen(h: Host, wanted: Option<string>): Phase {
    var chosen := if wanted.Some? then wanted else h.current;
    if chosen.None? || chosen.value == "" then Ended(Failed(NoCurrent))
    else if chosen.value in h.live then Ended(Ready(chosen.value))
    else
      var i := IndexOf(h.rows, chosen.value);
      if i == |h.rows| then Ended(Failed(NoSuchPact)) else Opening(chosen.value, h.rows[i].dataDir)
  }

  /** The row is taken out of the call's copy; the daemon's own alias moves at once. */
  function DropRow(h: Host, file: File, i: nat): (Host, Phase)
    requires i < |file.rows|
  {
    var rows := file.rows[..i] + file.rows[i + 1..];
    var wasCurrent := file.current == Some(file.rows[i].alias);
    (if wasCurrent then h.(memory := FirstAlias(rows)) else h,
     Saving(File(rows, if wasCurrent then FirstAlias(rows) else file.current), DeleteDir(file.rows[i].dataDir)))
  }

  function BeginCreate(h: Host, name: string, wanted: Option<string>, setCurrent: Option<bool>, made: Made): Phase {
    var alias := if wanted.Some? then wanted else UniqueAlias(name, h.rows);
    if alias.None? then Ended(Failed(NoUniqueAlias))
    else if !IsAlias(alias.value) then Ended(Failed(BadAlias))
    else if HasAlias(h.rows, alias.value) then Ended(Failed(Taken))
    else Making(FileOf(h), alias.value, setCurrent, made)
  }

  function BeginJoin(h: Host, joinKey: string, wanted: Option<string>, setCurrent: Option<bool>, made: Made): Phase {
    var alias := if wanted.Some? then wanted.value else JoinedAlias(joinKey);
    if !IsAlias(alias) then Ended(Failed(BadAlias))
    else
      var i := IndexOf(h.rows, alias);
      if i == |h.rows| then Making(FileOf(h), alias, setCurrent, made)
      else if EntryIds.Lower(h.rows[i].pactId) != EntryIds.Lower(joinKey) then Ended(Failed(AliasOfAnother))
      else if alias in h.live then Ended(Ready(alias))
      else Reloading(alias)
  }

  function BeginRename(h: Host, was: string, now: string): Phase {
    if !IsAlias(now) then Ended(Failed(BadAlias))
    else
      var i := IndexOf(h.rows, was);
      if i == |h.rows| then Ended(Failed(NoSuchPact))
      else if HasAlias(h.rows, now) then Ended(Failed(Taken))
      else if was in h.live then ClosingToMove(FileOf(h), i, now)
      else Moving(FileOf(h), i, now, false)
  }

  /** From loading the file to the next await. */
  function Begin(h: Host, op: Op): (Host, Phase) {
    match op
    case SetCurrent(alias) =>
      if alias.Some? && !HasAlias(h.rows, alias.value) then (h, Ended(Failed(NoSuchPact)))
      else (h.(memory := alias), Saving(File(h.rows, alias), NoRest))
    case Open(alias) => (h, BeginOpen(h, alias))
    case Create(name, alias, setCurrent, made) => (h, BeginCreate(h, name, alias, setCurrent, made))
    case Join(joinKey, alias, setCurrent, made) => (h, BeginJoin(h, joinKey, alias, setCurrent, made))
    case Remove(alias) =>
      var i := IndexOf(h.rows, alias);
      if i == |h.rows| then (h, Ended(Failed(NoSuchPact)))
      else if alias in h.live then (h, Closing(FileOf(h), i))
      else DropRow(h, FileOf(h), i)
    case Rename(was, now) => (h, BeginRename(h, was, now))
    case Restart => (h.(live := map[], memory := None), Ended(Finished))
  }

  /** The pact is up, or not; the new row goes into the call's copy of the file. */
  function Make(hostDir: string, h: Host, file: File, alias: string, setCurrent: Option<bool>, made: Made): (Host,
                Phase) {
    var dir := PactConfigDir(hostDir, alias);
    match made
    case Broken(debris) => (if debris.Some? then h.(disk := h.disk[dir := debris.value])
                            else h, Ended(Failed(MakeFailed)))
    case Made(key) =>
      var makeCurrent := if setCurrent.Some? then setCurrent.value else file.current.None?;
      (h.(disk := h.disk[dir := key]),
       Saving(File(file.rows + [Row(alias, key, dir)], if makeCurrent then Some(alias) else file.current),
              KeepOpen(alias, Handle(dir, key), makeCurrent)))
  }

  function Move(hostDir: string, h: Host, file: File, i: nat, now: string, wasOpen: bool): (Host, Phase)
    requires i < |file.rows|
  {
    var was, from, to := file.rows[i].alias, file.rows[i].dataDir, PactConfigDir(hostDir, now);
    if from !in h.disk || to in h.disk then (h, Ended(Failed(RenameFailed)))
    else
      (h.(disk := (h.disk - {from})[to := h.disk[from]]),
       Saving(File(file.rows[i := Row(now, file.rows[i].pactId, to)], if file.current == Some(was) then Some(now)
                   else file.current),
              Reopen(was, now, to, wasOpen)))
  }

  /** The code after the save. */
  function Conclude(h: Host, rest: Rest): (Host, Phase) {
    match rest
    case NoRest => (h, Ended(Finished))
    case KeepOpen(alias, handle, makeCurrent) =>
      (h.(live := h.live[alias := handle], memory := if makeCurrent then Some(alias)
          else h.memory), Ended(Ready(alias)))
    case DeleteDir(dir) => (h.(disk := h.disk - {dir}), Ended(Finished))
    case Reopen(was, now, dir, wasOpen) =>
      if wasOpen && dir !in h.disk then (h, Ended(Failed(LoadFailed)))
      else
        (h.(live := if wasOpen then h.live[now := Handle(dir, h.disk[dir])] else h.live,
            memory := if h.memory == Some(was) then Some(now) else h.memory), Ended(Finished))
  }

  /** How many steps a call may still have ahead of it. */
  function Rank(p: Phase): nat {
    match p
    case Reloading(_) => 6
    case ClosingToMove(_, _, _) => 5
    case Moving(_, _, _, _) => 4
    case Making(_, _, _, _) => 4
    case Closing(_, _) => 4
    case Saving(_, _) => 3
    case Opening(_, _) => 2
    case Saved(_) => 1
    case Ended(_) => 0
  }

  /** Positions in a call's own copy of the file. */
  predicate InFile(p: Phase) {
    match p
    case Closing(file, i) => i < |file.rows|
    case ClosingToMove(file, i, _) => i < |file.rows|
    case Moving(file, i, _, _) => i < |file.rows|
    case _ => true
  }

  /** One step of a call that has begun. What is saved is validated first. */
  ghost function Progress(hostDir: string, h: Host, p: Phase): (r: (Host, Phase))
    requires InFile(p)
    ensures InFile(r.1) && (p.Ended? ==> r == (h, p)) && (!p.Ended? ==> Rank(r.1) < Rank(p))
  {
    match p
    case Opening(alias, dir) =>
      if dir !in h.disk then (h, Ended(Failed(LoadFailed)))
      else (h.(live := h.live[alias := Handle(dir, h.disk[dir])]), Ended(Ready(alias)))
    case Reloading(alias) => (h, BeginOpen(h, Some(alias)))
    case Making(file, alias, setCurrent, made) => Make(hostDir, h, file, alias, setCurrent, made)
    case Closing(file, i) => DropRow(h.(live := h.live - {file.rows[i].alias}), file, i)
    case ClosingToMove(file, i, now) => (h.(live := h.live - {file.rows[i].alias}), Moving(file, i, now, true))
    case Moving(file, i, now, wasOpen) => Move(hostDir, h, file, i, now, wasOpen)
    case Saving(file, rest) =>
      if !RegistryOk(file.rows, file.current) then (h, Ended(Failed(BadConfig)))
      else (h.(rows := file.rows, current := file.current), Saved(rest))
    case Saved(rest) => Conclude(h, rest)
    case Ended(_) => (h, p)
  }

  lemma BeginsInFile(h: Host, op: Op)
    ensures InFile(Begin(h, op).1)
  {
  }

  ghost function Next(hostDir: string, s: State, e: Event): State {
    match e
    case Load(op) =>
      var (h, p) := Begin(s.host, op);
      State(s.calls + [Call(op, p)], h)
    case Go(i) =>
      if i >= |s.calls| || !InFile(s.calls[i].phase) then s
      else
        var (h, p) := Progress(hostDir, s.host, s.calls[i].phase);
        State(s.calls[i := s.calls[i].(phase := p)], h)
  }

  ghost function Run(hostDir: string, events: seq<Event>): State {
    if events == [] then State([], FRESH_HOST)
    else Next(hostDir, Run(hostDir, events[..|events| - 1]), events[|events| - 1])
  }

  function Ops(calls: seq<Call>): seq<Op> {
    if calls == [] then [] else Ops(calls[..|calls| - 1]) + [calls[|calls| - 1].op]
  }

  ghost predicate AllEnded(calls: seq<Call>) { forall i | 0 <= i < |calls| :: calls[i].phase.Ended? }

  // ── A call on its own ────────────────────────────────────────────────────────

  /** Running a call to its end with nothing else in between. */
  ghost function Complete(hostDir: string, h: Host, p: Phase): (Host, Outcome)
    requires InFile(p)
    decreases Rank(p)
  {
    if p.Ended? then (h, p.outcome)
    else
      var (next, q) := Progress(hostDir, h, p);
      Complete(hostDir, next, q)
  }

  ghost function Alone(hostDir: string, h: Host, op: Op): (Host, Outcome) {
    BeginsInFile(h, op);
    Complete(hostDir, Begin(h, op).0, Begin(h, op).1)
  }

  lemma SavedCompletes(hostDir: string, h: Host, rest: Rest)
    ensures Complete(hostDir, h, Saved(rest)) == (Conclude(h, rest).0, Conclude(h, rest).1.outcome)
  {
  }

  lemma SavingCompletes(hostDir: string, h: Host, file: File, rest: Rest)
    requires RegistryOk(file.rows, file.current)
    ensures var after := h.(rows := file.rows, current := file.current);
      Complete(hostDir, h, Saving(file, rest)) == (Conclude(after, rest).0, Conclude(after, rest).1.outcome)
  {
    hide RegistryOk, Conclude;
    SavedCompletes(hostDir, h.(rows := file.rows, current := file.current), rest);
  }

  lemma OpenAlone(hostDir: string, h: Host, wanted: Option<string>)
    ensures InFile(BeginOpen(h, wanted)) && Complete(hostDir, h, BeginOpen(h, wanted)) == OpenStep(h, wanted)
  {
  }

  lemma MakeAlone(hostDir: string, h: Host, alias: string, setCurrent: Option<bool>, made: Made)
    requires var next := Install(hostDir, h, alias, setCurrent, made).0; RegistryOk(next.rows, next.current)
    ensures Complete(hostDir, h, Making(FileOf(h), alias, setCurrent, made)) ==
            Install(hostDir, h, alias, setCurrent, made)
  {
    hide RegistryOk;
    var (mid, p) := Make(hostDir, h, FileOf(h), alias, setCurrent, made);
    if made.Made? { SavingCompletes(hostDir, mid, p.file, p.rest); }
  }

  lemma RemoveAlone(hostDir: string, h: Host, alias: string)
    requires var next := RemoveStep(h, alias).0; RegistryOk(next.rows, next.current)
    ensures Alone(hostDir, h, Remove(alias)) == RemoveStep(h, alias)
  {
    hide RegistryOk;
    var i := IndexOf(h.rows, alias);
    if i < |h.rows| {
      var closed := h.(live := h.live - {alias});
      var (mid, p) := DropRow(closed, FileOf(h), i);
      SavingCompletes(hostDir, mid, p.file, p.rest);
      if alias !in h.live { assert closed == h; }
    }
  }

  /** What is left of a rename once the pact is closed. */
  lemma MoveAlone(hostDir: string, h: Host, file: File, i: nat, now: string, wasOpen: bool)
    requires i < |file.rows|
    requires var (mid, p) := Move(hostDir, h, file, i, now, wasOpen);
      p.Saving? ==> RegistryOk(p.file.rows, p.file.current)
    ensures var (mid, p) := Move(hostDir, h, file, i, now, wasOpen);
      Complete(hostDir, h, Moving(file, i, now, wasOpen)) ==
        if p.Ended? then (mid, p.outcome)
        else
          var after := mid.(rows := p.file.rows, current := p.file.current);
          (Conclude(after, p.rest).0, Conclude(after, p.rest).1.outcome)
  {
    hide RegistryOk, Conclude;
    var (mid, p) := Move(hostDir, h, file, i, now, wasOpen);
    if p.Saving? { SavingCompletes(hostDir, mid, p.file, p.rest); }
  }

  lemma RenameAlone(hostDir: string, h: Host, was: string, now: string)
    requires var next := RenameStep(hostDir, h, was, now).0; RegistryOk(next.rows, next.current)
    ensures Alone(hostDir, h, Rename(was, now)) == RenameStep(hostDir, h, was, now)
  {
    hide RegistryOk, IsAlias, PactConfigDir;
    var i := IndexOf(h.rows, was);
    if IsAlias(now) && i < |h.rows| && !HasAlias(h.rows, now) {
      var wasOpen := was in h.live;
      var closed := h.(live := h.live - {was});
      if !wasOpen { assert closed == h; }
      MoveAlone(hostDir, closed, FileOf(h), i, now, wasOpen);
    }
  }

  lemma OpenCached(h: Host, alias: string)
    ensures IsAlias(alias) && alias in h.live ==> OpenStep(h, Some(alias)) == (h, Ready(alias))
  {
  }

  lemma JoinAlone(hostDir: string, h: Host, joinKey: string, wanted: Option<string>, setCurrent: Option<bool>,
                  made: Made)
    requires var next := JoinStep(hostDir, h, joinKey, wanted, setCurrent, made).0; RegistryOk(next.rows, next.current)
    ensures Alone(hostDir, h, Join(joinKey, wanted, setCurrent, made)) ==
            JoinStep(hostDir, h, joinKey, wanted, setCurrent, made)
  {
    hide RegistryOk, Install, JoinedAlias, BeginOpen, OpenStep;
    var alias := if wanted.Some? then wanted.value else JoinedAlias(joinKey);
    var i := IndexOf(h.rows, alias);
    OpenAlone(hostDir, h, Some(alias));
    OpenCached(h, alias);
    if IsAlias(alias) && i == |h.rows| { MakeAlone(hostDir, h, alias, setCurrent, made); }
  }

  /** Undisturbed, every operation does at once what its steps do one by one. */
  lemma {:induction false} AloneIsStep(hostDir: string, h: Host, op: Op)
    requires Sound(hostDir, h) && KeyIsHex(op)
    ensures Alone(hostDir, h, op) == Step(hostDir, h, op)
  {
    hide Sound, RegistryOk, OpenStep, Install, RemoveStep, RenameStep, IsAlias, UniqueAlias, JoinedAlias, BeginOpen;
    StepSound(hostDir, h, op);
    SoundIsValidConfig(hostDir, Step(hostDir, h, op).0);
    match op {
      case SetCurrent(alias) =>
        if alias.Some? ==> HasAlias(h.rows, alias.value) {
          SavingCompletes(hostDir, h.(memory := alias), File(h.rows, alias), NoRest);
        }
      case Open(alias) => OpenAlone(hostDir, h, alias);
      case Create(name, wanted, setCurrent, made) =>
        var alias := if wanted.Some? then wanted else UniqueAlias(name, h.rows);
        if alias.Some? && IsAlias(alias.value) && !HasAlias(h.rows, alias.value) {
          MakeAlone(hostDir, h, alias.value, setCurrent, made);
        }
      case Join(joinKey, wanted, setCurrent, made) => JoinAlone(hostDir, h, joinKey, wanted, setCurrent, made);
      case Remove(alias) => RemoveAlone(hostDir, h, alias);
      case Rename(was, now) => RenameAlone(hostDir, h, was, now);
      case Restart =>
    }
  }
}
