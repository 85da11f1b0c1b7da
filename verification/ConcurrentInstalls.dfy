/** Creating and joining several pacts at once: each call loads daemon.json, brings its pact up,
    and saves its own copy. No row is lost exactly if no two calls are between their load and
    their save at once. */
module ConcurrentInstalls {
  import opened Results
  import opened Registry
  import opened RegistrySafety
  import opened RegistrySteps
  import opened RegistryOverlap
  import EntryIds

  // ── The calls ────────────────────────────────────────────────────────────────

  predicate Installing(op: Op) { op.Create? || op.Join? }

  /** The pact a call is about, as far as that is known: the key it came up with, or is to join. */
  function PactOf(op: Op): Option<string> {
    if op.Join? then Some(EntryIds.Lower(op.joinKey))
    else if op.Create? && op.made.Made? then Some(EntryIds.Lower(op.made.pactKey))
    else None
  }

  /** A create or a join, with any alias or none; it may fail to come up. A join that comes up
      has the key it was to join. */
  predicate Plain(op: Op) {
    && Installing(op) && KeyIsHex(op)
    && (op.Join? && op.made.Made? ==> EntryIds.Lower(op.made.pactKey) == EntryIds.Lower(op.joinKey))
  }

  /** No two calls are about the same pact: a created pact has a key of its own. */
  ghost predicate DistinctPacts(calls: seq<Call>) {
    && (forall i | 0 <= i < |calls| :: Plain(calls[i].op))
    && (forall i, j | 0 <= i < j < |calls| && PactOf(calls[i].op).Some? :: PactOf(calls[i].op) != PactOf(calls[j].op))
  }

  /** Between its load and its save; a pact that will not come up is never saved. */
  predicate InWindow(c: Call) { (c.phase.Making? && c.phase.made.Made?) || c.phase.Saving? }

  predicate IsSaved(c: Call) { c.phase.Saved? || (c.phase.Ended? && c.phase.outcome.Ready?) }

  function Window(calls: seq<Call>): set<nat> { set i: nat | i < |calls| && InWindow(calls[i]) }

  function Installers(calls: seq<Call>): set<nat> {
    set i: nat | i < |calls| && (InWindow(calls[i]) || IsSaved(calls[i]))
  }

  ghost predicate TwoAtOnce(hostDir: string, events: seq<Event>, k: int) {
    0 <= k <= |events| && |Window(Run(hostDir, events[..k]).calls)| >= 2
  }

  /** At some moment two calls are between their load and their save. */
  ghost predicate Overlaps(hostDir: string, events: seq<Event>) { exists k :: TwoAtOnce(hostDir, events, k) }

  // ── Where a call stands ──────────────────────────────────────────────────────

  function RowOf(hostDir: string, alias: string, op: Op): Row
    requires Installing(op) && op.made.Made?
  {
    Row(alias, op.made.pactKey, PactConfigDir(hostDir, alias))
  }

  function HandleOf(hostDir: string, alias: string, op: Op): Handle
    requires Installing(op) && op.made.Made?
  {
    Handle(PactConfigDir(hostDir, alias), op.made.pactKey)
  }

  /** The alias a call that brings its pact up has settled on. */
  function AliasOf(c: Call): Option<string> {
    match c.phase
    case Making(_, alias, _, _) => Some(alias)
    case Saving(_, rest) => if rest.KeepOpen? then Some(rest.alias) else None
    case Saved(rest) => if rest.KeepOpen? then Some(rest.alias) else None
    case Ended(outcome) => if outcome.Ready? then Some(outcome.alias) else None
    case _ => None
  }

  predicate KeepsOwn(hostDir: string, op: Op, rest: Rest)
    requires Installing(op)
  {
    op.made.Made? && rest.KeepOpen? && IsAlias(rest.alias) && rest.handle == HandleOf(hostDir, rest.alias, op)
  }

  ghost predicate Shaped(hostDir: string, c: Call) {
    && Plain(c.op)
    && match c.phase
      case Making(file, alias, setCurrent, made) =>
        && RegistryOk(file.rows, file.current) && IsAlias(alias) && !HasAlias(file.rows, alias)
        && made == c.op.made && setCurrent == c.op.setCurrent
      case Saving(file, rest) =>
        && RegistryOk(file.rows, file.current) && KeepsOwn(hostDir, c.op, rest)
        && |file.rows| > 0 && file.rows[|file.rows| - 1] == RowOf(hostDir, rest.alias, c.op)
      case Saved(rest) => KeepsOwn(hostDir, c.op, rest)
      case Ended(outcome) => outcome.Ready? ==> c.op.made.Made? && IsAlias(outcome.alias)
      case _ => false
  }

  /** The rows a call loaded. */
  function Loaded(c: Call): seq<Row> {
    match c.phase
    case Making(file, _, _, _) => file.rows
    case Saving(file, _) => if |file.rows| > 0 then file.rows[..|file.rows| - 1] else []
    case _ => []
  }

  ghost predicate IsRowOf(hostDir: string, calls: seq<Call>, r: Row, i: int) {
    && 0 <= i < |calls| && IsSaved(calls[i]) && Plain(calls[i].op) && calls[i].op.made.Made?
    && AliasOf(calls[i]) == Some(r.alias) && r == RowOf(hostDir, r.alias, calls[i].op)
  }

  ghost predicate HasSource(hostDir: string, calls: seq<Call>, r: Row) { exists i :: IsRowOf(hostDir, calls, r, i) }

  /** Rows of pacts whose calls have saved them. */
  ghost predicate Known(hostDir: string, calls: seq<Call>, rows: seq<Row>) {
    forall k | 0 <= k < |rows| :: HasSource(hostDir, calls, rows[k])
  }

  predicate IsOpen(h: Host, c: Call) { c.phase.Ended? && c.phase.outcome.Ready? ==> c.phase.outcome.alias in h.live }

  ghost predicate Inv(hostDir: string, s: State) {
    && (forall i | 0 <= i < |s.calls| ::
        Shaped(hostDir, s.calls[i]) && Known(hostDir, s.calls, Loaded(s.calls[i])) && IsOpen(s.host, s.calls[i]))
    && Known(hostDir, s.calls, s.host.rows) && RegistryOk(s.host.rows, s.host.current)
  }

  lemma KnownStays(hostDir: string, a: seq<Call>, b: seq<Call>, rows: seq<Row>)
    requires Known(hostDir, a, rows) && |a| <= |b|
    requires forall i | 0 <= i < |a| && IsSaved(a[i]) ::
        a[i].op == b[i].op && IsSaved(b[i]) && AliasOf(a[i]) == AliasOf(b[i])
    ensures Known(hostDir, b, rows)
  {
    hide Plain;
    forall k | 0 <= k < |rows| ensures HasSource(hostDir, b, rows[k]) {
      assert HasSource(hostDir, a, rows[k]);
      var i :| IsRowOf(hostDir, a, rows[k], i);
      assert IsRowOf(hostDir, b, rows[k], i);
    }
  }

  // ── A load ───────────────────────────────────────────────────────────────────

  /** The pact of a new call is in no row. */
  lemma NewPact(hostDir: string, calls: seq<Call>, rows: seq<Row>, c: Call, k: nat)
    requires DistinctPacts(calls + [c]) && Known(hostDir, calls, rows) && k < |rows|
    ensures Plain(c.op) && PactOf(c.op) != Some(EntryIds.Lower(rows[k].pactId))
  {
    hide KeyIsHex, IsAlias;
    var all := calls + [c];
    assert all[|calls|] == c;
    assert HasSource(hostDir, calls, rows[k]);
    var i :| IsRowOf(hostDir, calls, rows[k], i);
    assert all[i] == calls[i];
  }

  /** A pact is to be brought up under an alias that the file does not have. */
  predicate BeginsToMake(h: Host, op: Op, p: Phase)
    requires Installing(op)
  {
    && p.Making? && p.file == FileOf(h) && p.setCurrent == op.setCurrent && p.made == op.made
    && IsAlias(p.alias) && !HasAlias(h.rows, p.alias)
  }

  lemma PlainOp(calls: seq<Call>, c: Call)
    requires DistinctPacts(calls + [c])
    ensures Plain(c.op)
  {
    assert (calls + [c])[|calls|] == c;
  }

  lemma KnownRows(hostDir: string, s: State)
    requires Inv(hostDir, s)
    ensures Known(hostDir, s.calls, s.host.rows) && RegistryOk(s.host.rows, s.host.current)
  {
  }

  /** What loading the file comes to: a failure, or bringing the pact up. */
  lemma LoadEffect(hostDir: string, s: State, op: Op)
    requires Inv(hostDir, s)
    requires DistinctPacts(s.calls + [Call(op, Ended(Finished))])
    ensures Plain(op) && Begin(s.host, op).0 == s.host
    ensures var p := Begin(s.host, op).1; (p.Ended? && p.outcome.Failed?) || BeginsToMake(s.host, op, p)
  {
    hide IsAlias, UniqueAlias, JoinedAlias, KeyIsHex, Known, RegistryOk, Inv, DistinctPacts;
    PlainOp(s.calls, Call(op, Ended(Finished)));
    KnownRows(hostDir, s);
    if op.Join? {
      var alias := if op.alias.Some? then op.alias.value else JoinedAlias(op.joinKey);
      AbsentIsUnlisted(s.host.rows, alias);
      var i := IndexOf(s.host.rows, alias);
      if i < |s.host.rows| { NewPact(hostDir, s.calls, s.host.rows, Call(op, Ended(Finished)), i); }
    }
  }

  lemma NoRows(hostDir: string, calls: seq<Call>)
    ensures Known(hostDir, calls, [])
  {
  }

  lemma LoadKeeps(hostDir: string, s: State, op: Op)
    requires Inv(hostDir, s) && DistinctPacts(s.calls + [Call(op, Ended(Finished))])
    ensures Inv(hostDir, Next(hostDir, s, Load(op)))
  {
    hide IsAlias, Known, RegistryOk, Begin, Plain, DistinctPacts, HasAlias;
    LoadEffect(hostDir, s, op);
    var t := Next(hostDir, s, Load(op));
    assert forall i | 0 <= i < |s.calls| :: t.calls[i] == s.calls[i];
    KnownStays(hostDir, s.calls, t.calls, s.host.rows);
    forall i | 0 <= i < |s.calls| ensures Known(hostDir, t.calls, Loaded(s.calls[i])) {
      KnownStays(hostDir, s.calls, t.calls, Loaded(s.calls[i]));
    }
    NoRows(hostDir, t.calls);
  }

  // ── A step ───────────────────────────────────────────────────────────────────

  lemma PlainMeans(op: Op)
    ensures Plain(op) ==> Installing(op) && KeyIsHex(op)
  {
  }

  /** The copy with the new row in it passes validation. */
  lemma MadeShape(hostDir: string, h: Host, c: Call)
    requires Shaped(hostDir, c) && c.phase.Making? && c.phase.made.Made?
    ensures var p := Make(hostDir, h, c.phase.file, c.phase.alias, c.phase.setCurrent, c.phase.made).1;
      p.Saving? && RegistryOk(p.file.rows, p.file.current) && Loaded(c.(phase := p)) == Loaded(c)
  {
    hide IsAlias;
    var file, alias := c.phase.file, c.phase.alias;
    var r := RowOf(hostDir, alias, c.op);
    var rows := file.rows + [r];
    AliasesDiffer(file.rows, alias);
    AliasIsNotEmpty(alias);
    assert |r.dataDir| > 0 by { assert |PactConfigDir(hostDir, alias)| >= |"/pacts/"|; }
    assert rows[..|file.rows|] == file.rows;
    HasAliasMore(file.rows, r, alias);
    if file.current.Some? { HasAliasMore(file.rows, r, file.current.value); }
  }

  /** A step keeps its call in shape, and what it writes is what its call made of the file it loaded. */
  lemma StepShape(hostDir: string, h: Host, c: Call)
    requires Shaped(hostDir, c) && InFile(c.phase) && IsOpen(h, c)
    ensures var (g, p) := Progress(hostDir, h, c.phase); var d := c.(phase := p);
      && Shaped(hostDir, d) && IsOpen(g, d)
      && (IsSaved(c) ==> IsSaved(d)) && (InWindow(d) ==> InWindow(c) && Loaded(d) == Loaded(c))
      && (InWindow(c) ==> InWindow(d) || IsSaved(d))
      && (!InWindow(c) ==> IsSaved(d) == IsSaved(c))
      && (AliasOf(c).Some? && AliasOf(d).Some? ==> AliasOf(c) == AliasOf(d))
      && (IsSaved(c) ==> AliasOf(c).Some? && AliasOf(d).Some?)
      && (if InWindow(c) && IsSaved(d)
          then g.rows == Loaded(c) + [RowOf(hostDir, AliasOf(d).value, c.op)] && AliasOf(d).Some? && c.op.made.Made?
               && RegistryOk(g.rows, g.current)
          else g.rows == h.rows && g.current == h.current)
      && (forall a | a in h.live :: a in g.live)
  {
    hide IsAlias, RegistryOk, HasAlias, Plain, PactConfigDir;
    PlainMeans(c.op);
    match c.phase {
      case Making(file, alias, setCurrent, made) => if made.Made? { MadeShape(hostDir, h, c); }
      case Saving(file, rest) => assert file.rows == file.rows[..|file.rows| - 1] + [file.rows[|file.rows| - 1]];
      case Saved(_) =>
      case Ended(_) =>
    }
  }

  lemma InShape(hostDir: string, s: State, i: nat)
    requires Inv(hostDir, s) && i < |s.calls|
    ensures Shaped(hostDir, s.calls[i]) && InFile(s.calls[i].phase) && IsOpen(s.host, s.calls[i])
    ensures Known(hostDir, s.calls, Loaded(s.calls[i]))
  {
    hide IsAlias, Plain, RegistryOk, HasAlias, Known;
  }

  lemma KnownPlus(hostDir: string, calls: seq<Call>, rows: seq<Row>, i: nat)
    requires Known(hostDir, calls, rows) && i < |calls| && IsSaved(calls[i]) && AliasOf(calls[i]).Some?
    requires Plain(calls[i].op) && calls[i].op.made.Made?
    ensures Known(hostDir, calls, rows + [RowOf(hostDir, AliasOf(calls[i]).value, calls[i].op)])
  {
    hide Plain;
    PlainMeans(calls[i].op);
    var r := RowOf(hostDir, AliasOf(calls[i]).value, calls[i].op);
    var all := rows + [r];
    assert IsRowOf(hostDir, calls, r, i);
    forall k | 0 <= k < |all| ensures HasSource(hostDir, calls, all[k]) {
      if k < |rows| { assert all[k] == rows[k]; }
    }
  }

  lemma PlainShape(hostDir: string, c: Call)
    requires Shaped(hostDir, c)
    ensures Plain(c.op)
  {
  }

  /** Outside its window a call remembers no rows, or those it loaded. */
  lemma LoadedStep(hostDir: string, h: Host, c: Call, calls: seq<Call>)
    requires Shaped(hostDir, c) && InFile(c.phase) && IsOpen(h, c) && Known(hostDir, calls, Loaded(c))
    ensures Known(hostDir, calls, Loaded(c.(phase := Progress(hostDir, h, c.phase).1)))
  {
    hide Known, RegistryOk, Plain;
    NoRows(hostDir, calls);
    StepShape(hostDir, h, c);
  }

  lemma GoKeepsKnown(hostDir: string, s: State, i: nat)
    requires Inv(hostDir, s) && i < |s.calls|
    ensures var t := Next(hostDir, s, Go(i));
      && Known(hostDir, t.calls, t.host.rows) && RegistryOk(t.host.rows, t.host.current)
      && forall k | 0 <= k < |t.calls| :: Known(hostDir, t.calls, Loaded(t.calls[k]))
  {
    hide Known, RegistryOk, Progress, Shaped, Plain, RowOf;
    var t, c := Next(hostDir, s, Go(i)), s.calls[i];
    InShape(hostDir, s, i);
    StepShape(hostDir, s.host, c);
    PlainShape(hostDir, c);
    KnownStays(hostDir, s.calls, t.calls, s.host.rows);
    forall k | 0 <= k < |t.calls| ensures Known(hostDir, t.calls, Loaded(t.calls[k])) {
      KnownStays(hostDir, s.calls, t.calls, Loaded(s.calls[k]));
      if k == i { LoadedStep(hostDir, s.host, c, t.calls); }
    }
    KnownStays(hostDir, s.calls, t.calls, Loaded(c));
    if InWindow(c) && IsSaved(t.calls[i]) { KnownPlus(hostDir, t.calls, Loaded(c), i); }
  }

  lemma GoKeeps(hostDir: string, s: State, i: nat)
    requires Inv(hostDir, s) && i < |s.calls|
    ensures Inv(hostDir, Next(hostDir, s, Go(i)))
  {
    hide Known, RegistryOk, Progress, Shaped, Plain;
    var t := Next(hostDir, s, Go(i));
    GoKeepsKnown(hostDir, s, i);
    InShape(hostDir, s, i);
    StepShape(hostDir, s.host, s.calls[i]);
    forall k | 0 <= k < |s.calls| && k != i
      ensures t.calls[k] == s.calls[k] && Shaped(hostDir, t.calls[k]) && IsOpen(t.host, t.calls[k])
    {
      InShape(hostDir, s, k);
    }
  }

  // ── Counting rows ────────────────────────────────────────────────────────────

  /** No copy of the file can come to hold more rows than there are calls that list a pact. */
  ghost predicate Bounded(s: State) {
    var n, w := |Installers(s.calls)|, Window(s.calls);
    && |s.host.rows| + |w| <= n
    && forall i | i in w && i < |s.calls| :: |Loaded(s.calls[i])| + |w| <= n
  }

  /** Nothing is lost so far: at most one call is in its window, and it knows of all others. */
  ghost predicate Whole(s: State) {
    var n, w := |Installers(s.calls)|, Window(s.calls);
    && |w| <= 1
    && |s.host.rows| + |w| == n
    && forall i | i in w && i < |s.calls| :: |Loaded(s.calls[i])| + 1 == n
  }

  /** Whoever saves last, some row will be missing. */
  ghost predicate Lossy(s: State) {
    var n, w := |Installers(s.calls)|, Window(s.calls);
    && (w == {} ==> |s.host.rows| < n)
    && forall i | i in w && i < |s.calls| :: |Loaded(s.calls[i])| + 1 < n
  }

  lemma NoneLeft(w: set<nat>)
    ensures |w| < 1 ==> w == {}
  {
  }

  /** What a load does to the windows and the installers. */
  lemma LoadedSets(calls: seq<Call>, c: Call)
    requires !IsSaved(c)
    ensures |calls| !in Installers(calls) && forall k | k in Window(calls) :: k < |calls|
    ensures InWindow(c) ==>
            Window(calls + [c]) == Window(calls) + {|calls|} &&
            Installers(calls + [c]) == Installers(calls) + {|calls|}
    ensures !InWindow(c) ==> Window(calls + [c]) == Window(calls) && Installers(calls + [c]) == Installers(calls)
  {
    hide InWindow, IsSaved;
    var all := calls + [c];
    assert all[|calls|] == c && forall i | 0 <= i < |calls| :: all[i] == calls[i];
  }

  lemma WithOne(a: set<nat>, n: nat)
    requires n !in a
    ensures |a + {n}| == |a| + 1
  {
  }

  /** What a load does to the windows, the file and the copies of it. */
  ghost predicate CountedLoad(s: State, t: State) {
    var n, w, v := |s.calls|, Window(s.calls), Window(t.calls);
    && |t.calls| == n + 1 && t.host.rows == s.host.rows
    && |Installers(t.calls)| - |Installers(s.calls)| == |v| - |w|
    && (if n in v then |v| == |w| + 1 && Loaded(t.calls[n]) == s.host.rows else v == w)
    && (forall k | k in w :: k in v && k < n && Loaded(t.calls[k]) == Loaded(s.calls[k]))
    && (forall k | k in v :: k in w || k == n)
  }

  lemma LoadIsCounted(s: State, c: Call)
    requires !IsSaved(c) && (InWindow(c) ==> Loaded(c) == s.host.rows)
    ensures CountedLoad(s, s.(calls := s.calls + [c]))
  {
    hide Loaded, Installers, Window, InWindow, IsSaved;
    var t, n := s.(calls := s.calls + [c]), |s.calls|;
    assert t.calls[n] == c && forall i | 0 <= i < n :: t.calls[i] == s.calls[i];
    LoadedSets(s.calls, c);
    if InWindow(c) {
      WithOne(Window(s.calls), n);
      WithOne(Installers(s.calls), n);
    }
  }

  /** What a load does to the counts. */
  lemma LoadCounts(s: State, t: State)
    requires Bounded(s) && CountedLoad(s, t)
    ensures Bounded(t)
    ensures Whole(s) && |Window(t.calls)| < 2 ==> Whole(t)
    ensures Lossy(s) || |Window(t.calls)| >= 2 ==> Lossy(t)
  {
    hide Loaded, Window, Installers;
    NoneLeft(Window(s.calls));
    NoneLeft(Window(t.calls));
  }

  /** What a step of call `i` does to the windows, the file and the copies of it. */
  ghost predicate Counted(s: State, t: State, i: nat) {
    && |t.calls| == |s.calls| && i < |s.calls| && Installers(t.calls) == Installers(s.calls)
    && (forall k | k in Window(t.calls) && k < |s.calls| ::
        k in Window(s.calls) && Loaded(t.calls[k]) == Loaded(s.calls[k]))
    && (if i in Window(s.calls) && i !in Window(t.calls)
        then Window(t.calls) == Window(s.calls) - {i} && |t.host.rows| == |Loaded(s.calls[i])| + 1
        else Window(t.calls) == Window(s.calls) && t.host.rows == s.host.rows)
  }

  lemma GoIsCounted(hostDir: string, s: State, i: nat)
    requires Inv(hostDir, s) && i < |s.calls|
    ensures Counted(s, Next(hostDir, s, Go(i)), i)
  {
    hide Known, RegistryOk, Progress, Shaped, Plain, Loaded, Inv;
    var t, c := Next(hostDir, s, Go(i)), s.calls[i];
    InShape(hostDir, s, i);
    StepShape(hostDir, s.host, c);
    assert forall k | 0 <= k < |s.calls| && k != i :: t.calls[k] == s.calls[k];
    assert Installers(t.calls) == Installers(s.calls);
    if InWindow(c) && IsSaved(t.calls[i]) { assert Window(t.calls) == Window(s.calls) - {i}; }
    else { assert Window(t.calls) == Window(s.calls); }
  }

  lemma SubsetSize<T>(a: set<T>, b: set<T>)
    requires a <= b
    ensures |a| <= |b|
    ensures |a| == |b| ==> a == b
  {
    assert b == a + (b - a);
    assert |b| == |a| + |b - a|;
  }

  lemma OneLeft(w: set<nat>, i: nat)
    requires i in w
    ensures |w| <= 1 ==> w - {i} == {}
  {
    SubsetSize({i}, w);
  }

  lemma CountsNext(s: State, t: State, i: nat)
    requires Counted(s, t, i) && Bounded(s)
    ensures Bounded(t) && (Whole(s) ==> Whole(t)) && (Lossy(s) ==> Lossy(t)) && |Window(t.calls)| <= |Window(s.calls)|
  {
    hide Window, Loaded, Installers;
    if i in Window(s.calls) && i !in Window(t.calls) {
      OneLeft(Window(s.calls), i);
      assert |Window(t.calls)| == |Window(s.calls)| - 1;
    }
  }

  // ── Whole runs ───────────────────────────────────────────────────────────────

  lemma SamePacts(a: seq<Call>, b: seq<Call>)
    requires DistinctPacts(a) && |a| == |b| && forall i | 0 <= i < |a| :: a[i].op == b[i].op
    ensures DistinctPacts(b)
  {
    hide Plain, PactOf;
    forall i | 0 <= i < |b| ensures Plain(b[i].op) { assert Plain(a[i].op); }
    forall i, j | 0 <= i < j < |b| && PactOf(b[i].op).Some? ensures PactOf(b[i].op) != PactOf(b[j].op) {
      assert PactOf(a[i].op) != PactOf(a[j].op);
    }
  }

  lemma DistinctBefore(hostDir: string, s: State, e: Event)
    requires DistinctPacts(Next(hostDir, s, e).calls)
    ensures DistinctPacts(s.calls) && (e.Load? ==> DistinctPacts(s.calls + [Call(e.op, Ended(Finished))]))
  {
    hide Plain, Progress, Begin;
    var t := Next(hostDir, s, e);
    CallsGrow(hostDir, s, e);
    match e {
      case Load(op) =>
        LoadedLast(hostDir, s, op);
        SamePacts(t.calls, s.calls + [Call(op, Ended(Finished))]);
      case Go(_) =>
    }
  }

  lemma {:induction false} OverlapsNext(hostDir: string, before: seq<Event>, e: Event)
    ensures Overlaps(hostDir, before + [e]) <==>
            Overlaps(hostDir, before) || |Window(Run(hostDir, before + [e]).calls)| >= 2
  {
    hide Run, Window;
    var all, n := before + [e], |before|;
    assert all[..n + 1] == all;
    assert forall k | 0 <= k <= n :: all[..k] == before[..k];
    if Overlaps(hostDir, before) { var k :| TwoAtOnce(hostDir, before, k); assert TwoAtOnce(hostDir, all, k); }
    if Overlaps(hostDir, all) { var k :| TwoAtOnce(hostDir, all, k); assert k <= n ==> TwoAtOnce(hostDir, before, k); }
    assert |Window(Run(hostDir, all).calls)| >= 2 ==> TwoAtOnce(hostDir, all, n + 1);
  }

  lemma LoadsOneCall(hostDir: string, s: State, op: Op)
    requires Inv(hostDir, s) && DistinctPacts(s.calls + [Call(op, Ended(Finished))])
    ensures var c := Call(op, Begin(s.host, op).1);
      && Next(hostDir, s, Load(op)) == State(s.calls + [c], s.host)
      && !IsSaved(c) && (InWindow(c) ==> Loaded(c) == s.host.rows)
  {
    hide Begin, Inv, DistinctPacts, IsAlias, Plain, HasAlias;
    LoadEffect(hostDir, s, op);
  }

  lemma CrowdIsLossy(s: State)
    requires Bounded(s)
    ensures |Window(s.calls)| >= 2 ==> Lossy(s)
  {
  }

  lemma NextKeepsAll(hostDir: string, s: State, e: Event)
    requires Inv(hostDir, s) && Bounded(s) && DistinctPacts(Next(hostDir, s, e).calls)
    ensures var t := Next(hostDir, s, e);
      && Inv(hostDir, t) && Bounded(t)
      && (Whole(s) && |Window(t.calls)| < 2 ==> Whole(t))
      && (Lossy(s) || |Window(t.calls)| >= 2 ==> Lossy(t))
  {
    DistinctBefore(hostDir, s, e);
    hide Inv, Bounded, Whole, Lossy, DistinctPacts, Window, Counted, CountedLoad;
    match e {
      case Load(op) =>
        LoadKeeps(hostDir, s, op);
        LoadsOneCall(hostDir, s, op);
        LoadIsCounted(s, Call(op, Begin(s.host, op).1));
        LoadCounts(s, Next(hostDir, s, Load(op)));
      case Go(i) =>
        if i < |s.calls| {
          GoKeeps(hostDir, s, i);
          GoIsCounted(hostDir, s, i);
          CountsNext(s, Next(hostDir, s, Go(i)), i);
        }
        CrowdIsLossy(s);
    }
  }

  lemma {:induction false} NothingYetIsWhole(hostDir: string)
    ensures Inv(hostDir, Run(hostDir, [])) && Whole(Run(hostDir, [])) && Bounded(Run(hostDir, []))
    ensures !Overlaps(hostDir, [])
  {
    assert Window([]) == {} && Installers([]) == {};
    assert forall k | 0 <= k <= 0 :: Run(hostDir, [][..k]).calls == [];
  }

  lemma {:induction false} RunKeeps(hostDir: string, events: seq<Event>)
    requires DistinctPacts(Run(hostDir, events).calls)
    ensures var s := Run(hostDir, events);
      Inv(hostDir, s) && Bounded(s) && (if Overlaps(hostDir, events) then Lossy(s) else Whole(s))
  {
    if events == [] {
      NothingYetIsWhole(hostDir);
    } else {
      hide Inv, Bounded, Whole, Lossy, DistinctPacts, Overlaps, Window, Next;
      var n := |events| - 1;
      var before, e := events[..n], events[n];
      assert events == before + [e];
      DistinctBefore(hostDir, Run(hostDir, before), e);
      RunKeeps(hostDir, before);
      OverlapsNext(hostDir, before, e);
      NextKeepsAll(hostDir, Run(hostDir, before), e);
    }
  }

  // ── All are listed exactly if the counts agree ───────────────────────────────

  ghost predicate Listed(hostDir: string, s: State, i: int) {
    0 <= i < |s.calls| && Plain(s.calls[i].op) && s.calls[i].op.made.Made? && AliasOf(s.calls[i]).Some? &&
    RowOf(hostDir, AliasOf(s.calls[i]).value, s.calls[i].op) in s.host.rows
  }

  /** Every call that reported its pact ready has its row, alias with its own key, in the file. */
  ghost predicate AllListed(hostDir: string, s: State) {
    forall i | 0 <= i < |s.calls| && s.calls[i].phase.Ended? && s.calls[i].phase.outcome.Ready? :: Listed(hostDir, s, i)
  }

  lemma {:induction false} MembersOf(rows: seq<Row>) returns (members: set<Row>)
    requires Distinct(rows)
    ensures |members| == |rows| && forall r :: r in members <==> r in rows
  {
    if rows == [] {
      members := {};
    } else {
      var n := |rows| - 1;
      var before := MembersOf(rows[..n]);
      assert rows == rows[..n] + [rows[n]];
      assert rows[n] !in rows[..n];
      members := before + {rows[n]};
    }
  }

  lemma PlainCall(calls: seq<Call>, i: nat)
    requires DistinctPacts(calls) && i < |calls|
    ensures Plain(calls[i].op) && Installing(calls[i].op)
  {
  }

  lemma OwnRow(hostDir: string, calls: seq<Call>, i: nat)
    requires i < |calls| && IsSaved(calls[i]) && AliasOf(calls[i]).Some? && Plain(calls[i].op)
    requires Installing(calls[i].op) && calls[i].op.made.Made?
    ensures IsRowOf(hostDir, calls, RowOf(hostDir, AliasOf(calls[i]).value, calls[i].op), i)
  {
  }

  lemma RowsAgree(hostDir: string, calls: seq<Call>, r: Row, i: nat)
    requires IsRowOf(hostDir, calls, r, i)
    ensures Installing(calls[i].op) && AliasOf(calls[i]).Some?
    ensures r == RowOf(hostDir, AliasOf(calls[i]).value, calls[i].op)
  {
  }

  /** A row is that of one call only: the keys differ. */
  lemma OwnRowOnly(hostDir: string, calls: seq<Call>, x: nat, i: nat)
    requires DistinctPacts(calls) && x < |calls| && i < |calls| && x != i && Plain(calls[x].op)
    requires calls[x].op.made.Made? && AliasOf(calls[x]).Some?
    ensures !IsRowOf(hostDir, calls, RowOf(hostDir, AliasOf(calls[x]).value, calls[x].op), i)
  {
    hide IsAlias, KeyIsHex, PactConfigDir;
    PlainCall(calls, x);
    PlainCall(calls, i);
    if calls[i].op.made.Made? { assert PactOf(calls[x].op) != PactOf(calls[i].op); }
  }

  /** `wanted` are the rows of the calls in `some`, and as many. */
  ghost predicate AreRowsOf(hostDir: string, calls: seq<Call>, some: set<nat>, wanted: set<Row>) {
    && |wanted| == |some|
    && forall r :: r in wanted <==> exists i :: i in some && IsRowOf(hostDir, calls, r, i)
  }

  lemma OneMoreRow(hostDir: string, calls: seq<Call>, rest: set<nat>, x: nat, before: set<Row>, own: Row)
    requires AreRowsOf(hostDir, calls, rest, before) && x !in rest && IsRowOf(hostDir, calls, own, x)
    requires forall i | i in rest :: !IsRowOf(hostDir, calls, own, i)
    requires forall r | IsRowOf(hostDir, calls, r, x) :: r == own
    ensures AreRowsOf(hostDir, calls, rest + {x}, before + {own})
  {
    hide IsRowOf;
    forall r ensures r in before + {own} <==> exists i :: i in rest + {x} && IsRowOf(hostDir, calls, r, i) {
      if i :| i in rest + {x} && IsRowOf(hostDir, calls, r, i) { assert i == x || i in rest; }
    }
  }

  lemma PutBack(some: set<nat>, x: nat)
    requires x in some
    ensures x !in some - {x} && some - {x} + {x} == some && |some - {x}| < |some|
  {
  }

  lemma RowOfOneMore(hostDir: string, calls: seq<Call>, rest: set<nat>, x: nat, before: set<Row>)
      returns (wanted: set<Row>)
    requires DistinctPacts(calls) && AreRowsOf(hostDir, calls, rest, before)
    requires x !in rest && x < |calls| && IsSaved(calls[x]) && AliasOf(calls[x]).Some? && calls[x].op.made.Made?
    requires forall i | i in rest :: i < |calls|
    ensures AreRowsOf(hostDir, calls, rest + {x}, wanted)
  {
    hide DistinctPacts, Plain, AreRowsOf, RowOf, IsRowOf, IsSaved, AliasOf, Installing;
    PlainCall(calls, x);
    var own := RowOf(hostDir, AliasOf(calls[x]).value, calls[x].op);
    OwnRow(hostDir, calls, x);
    forall i | i in rest ensures !IsRowOf(hostDir, calls, own, i) { OwnRowOnly(hostDir, calls, x, i); }
    forall r | IsRowOf(hostDir, calls, r, x) ensures r == own { RowsAgree(hostDir, calls, r, x); }
    OneMoreRow(hostDir, calls, rest, x, before, own);
    wanted := before + {own};
  }

  /** The rows of some calls that list a pact; they are as many as the calls. */
  lemma {:induction false} RowsOfCalls(hostDir: string, calls: seq<Call>, some: set<nat>) returns (wanted: set<Row>)
    requires DistinctPacts(calls) && forall i | i in some ::
        i < |calls| && IsSaved(calls[i]) && AliasOf(calls[i]).Some? && calls[i].op.made.Made?
    ensures AreRowsOf(hostDir, calls, some, wanted)
  {
    if some == {} {
      wanted := {};
    } else {
      hide DistinctPacts, AreRowsOf, IsSaved, AliasOf;
      var x :| x in some;
      var before := RowsOfCalls(hostDir, calls, some - {x});
      wanted := RowOfOneMore(hostDir, calls, some - {x}, x, before);
      PutBack(some, x);
    }
  }

  lemma EndedInstallers(hostDir: string, s: State, i: nat)
    requires Inv(hostDir, s) && AllEnded(s.calls) && i < |s.calls|
    ensures i !in Window(s.calls) && (i in Installers(s.calls) <==> s.calls[i].phase.outcome.Ready?)
    ensures i in Installers(s.calls) ==>
              IsSaved(s.calls[i]) && AliasOf(s.calls[i]).Some? && Plain(s.calls[i].op) && Installing(s.calls[i].op) &&
                  s.calls[i].op.made.Made?
  {
    hide IsAlias, KeyIsHex, Known, RegistryOk;
    assert Shaped(hostDir, s.calls[i]);
  }

  lemma ValidIsDistinct(rows: seq<Row>, current: Option<string>)
    requires RegistryOk(rows, current)
    ensures Distinct(rows)
  {
  }

  lemma ListedIs(hostDir: string, s: State, i: nat)
    requires i < |s.calls| && AliasOf(s.calls[i]).Some? && Plain(s.calls[i].op) && Installing(s.calls[i].op)
    requires s.calls[i].op.made.Made?
    ensures Listed(hostDir, s, i) <==> RowOf(hostDir, AliasOf(s.calls[i]).value, s.calls[i].op) in s.host.rows
  {
  }

  lemma ListedRow(hostDir: string, s: State, i: nat, r: Row)
    requires i < |s.calls| && Listed(hostDir, s, i) && IsRowOf(hostDir, s.calls, r, i)
    ensures r in s.host.rows
  {
  }

  lemma RowIsWanted(hostDir: string, s: State, r: Row)
    requires Known(hostDir, s.calls, s.host.rows) && r in s.host.rows
    ensures exists i :: i in Installers(s.calls) && IsRowOf(hostDir, s.calls, r, i)
  {
    hide Plain, RowOf;
    var k :| 0 <= k < |s.host.rows| && s.host.rows[k] == r;
    assert HasSource(hostDir, s.calls, s.host.rows[k]);
    var i :| IsRowOf(hostDir, s.calls, r, i);
    assert i in Installers(s.calls);
  }

  /** All are listed exactly if there are as many rows as calls that list a pact. */
  lemma ListedWhenCounted(hostDir: string, s: State)
    requires Inv(hostDir, s) && DistinctPacts(s.calls) && AllEnded(s.calls)
    ensures AllListed(hostDir, s) <==> |s.host.rows| == |Installers(s.calls)|
  {
    hide Inv, DistinctPacts, Known, RegistryOk, IsRowOf, Plain, Listed, IsSaved, RowOf;
    KnownRows(hostDir, s);
    ValidIsDistinct(s.host.rows, s.host.current);
    var some := Installers(s.calls);
    forall i | i in some
      ensures i < |s.calls| && IsSaved(s.calls[i]) && AliasOf(s.calls[i]).Some? && Installing(s.calls[i].op)
      ensures s.calls[i].op.made.Made?
    {
      EndedInstallers(hostDir, s, i);
    }
    var listed := MembersOf(s.host.rows);
    var wanted := RowsOfCalls(hostDir, s.calls, some);
    forall r | r in listed ensures r in wanted { RowIsWanted(hostDir, s, r); }
    SubsetSize(listed, wanted);
    if AllListed(hostDir, s) {
      forall r | r in wanted ensures r in listed {
        var i :| i in some && IsRowOf(hostDir, s.calls, r, i);
        EndedInstallers(hostDir, s, i);
        assert Listed(hostDir, s, i);
        ListedRow(hostDir, s, i, r);
      }
      assert listed == wanted;
    }
    if |s.host.rows| == |some| {
      forall i | 0 <= i < |s.calls| && s.calls[i].phase.Ended? && s.calls[i].phase.outcome.Ready?
        ensures Listed(hostDir, s, i)
      {
        EndedInstallers(hostDir, s, i);
        OwnRow(hostDir, s.calls, i);
        ListedIs(hostDir, s, i);
      }
    }
  }

  lemma NoWindowLeft(calls: seq<Call>)
    requires AllEnded(calls)
    ensures Window(calls) == {}
  {
  }

  /** Any number of creates and joins of different pacts, under any aliases, chosen or default,
      shared or not, in any interleaving, when all have ended: every pact reported ready has its
      row in daemon.json if and only if no two calls were between their load and their save at once. */
  lemma {:induction false} InstallsListedExactlyWhen(hostDir: string, events: seq<Event>)
    requires DistinctPacts(Run(hostDir, events).calls) && AllEnded(Run(hostDir, events).calls)
    ensures AllListed(hostDir, Run(hostDir, events)) <==> !Overlaps(hostDir, events)
  {
    hide Run, DistinctPacts, AllListed, Overlaps, Window, Inv, AllEnded, Installers;
    var s := Run(hostDir, events);
    RunKeeps(hostDir, events);
    NoWindowLeft(s.calls);
    ListedWhenCounted(hostDir, s);
  }

  // ── Sound hosts ──────────────────────────────────────────────────────────────

  predicate AllMade(calls: seq<Call>) {
    forall i | 0 <= i < |calls| :: Installing(calls[i].op) && calls[i].op.made.Made?
  }

  predicate MakesCurrent(rest: Rest) { rest.KeepOpen? && rest.makeCurrent }

  function SaverNext(s: State, e: Event, saver: Option<nat>): Option<nat> {
    if e.Go? && e.i < |s.calls| && s.calls[e.i].phase.Saving? && MakesCurrent(s.calls[e.i].phase.rest) then Some(e.i)
        else saver
  }

  /** The latest call to save the file with itself as current. */
  ghost function LastSaver(hostDir: string, events: seq<Event>): Option<nat> {
    if events == [] then None
    else
      var before, e := events[..|events| - 1], events[|events| - 1];
      SaverNext(Run(hostDir, before), e, LastSaver(hostDir, before))
  }

  function EnderNext(s: State, e: Event, ender: Option<nat>): Option<nat> {
    if e.Go? && e.i < |s.calls| && s.calls[e.i].phase.Saved? && MakesCurrent(s.calls[e.i].phase.rest) then Some(e.i)
        else ender
  }

  /** The latest call that made itself current to have ended. */
  ghost function LastEnder(hostDir: string, events: seq<Event>): Option<nat> {
    if events == [] then None
    else
      var before, e := events[..|events| - 1], events[|events| - 1];
      EnderNext(Run(hostDir, before), e, LastEnder(hostDir, before))
  }

  predicate OnDisk(hostDir: string, h: Host, alias: string, op: Op)
    requires Installing(op) && op.made.Made?
  {
    var dir := PactConfigDir(hostDir, alias);
    dir in h.disk && h.disk[dir] == op.made.pactKey
  }

  /** What the host holds of a call when no two were in their windows at once. */
  ghost predicate Placed(hostDir: string, h: Host, c: Call) {
    && Installing(c.op) && c.op.made.Made?
    && match c.phase
      case Making(file, _, _, _) => file == FileOf(h)
      case Saving(file, rest) =>
        && rest.KeepOpen? && !HasAlias(h.rows, rest.alias) && file.rows == h.rows + [RowOf(hostDir, rest.alias, c.op)]
        && file.current == (if rest.makeCurrent then Some(rest.alias) else h.current)
        && OnDisk(hostDir, h, rest.alias, c.op)
      case Saved(rest) => rest.KeepOpen? && RowOf(hostDir, rest.alias, c.op) in h.rows &&
          OnDisk(hostDir, h, rest.alias, c.op)
      case Ended(outcome) =>
        outcome.Ready? ==>
          && RowOf(hostDir, outcome.alias, c.op) in h.rows && OnDisk(hostDir, h, outcome.alias, c.op)
          && outcome.alias in h.live && h.live[outcome.alias] == HandleOf(hostDir, outcome.alias, c.op)
      case _ => false
  }

  ghost predicate Opened(calls: seq<Call>, a: string) {
    exists i :: 0 <= i < |calls| && calls[i].phase == Ended(Ready(a))
  }

  ghost predicate Tidy(hostDir: string, s: State) {
    && (forall i | 0 <= i < |s.calls| :: Placed(hostDir, s.host, s.calls[i]))
    && (forall a | a in s.host.live :: Opened(s.calls, a))
  }

  /** The file's current alias is that of the latest saver, the daemon's own that of the latest to end. */
  ghost predicate Tracked(s: State, saver: Option<nat>, ender: Option<nat>) {
    && (saver.None? ==> s.host.current.None?)
    && (saver.Some? ==>
        saver.value < |s.calls| && IsSaved(s.calls[saver.value]) && s.host.current == AliasOf(s.calls[saver.value]))
    && (ender.None? ==> s.host.memory.None?)
    && (ender.Some? ==> ender.value < |s.calls| && s.calls[ender.value].phase.Ended? && IsSaved(s.calls[ender.value])
                        && s.host.memory == AliasOf(s.calls[ender.value]))
    && (saver.Some? && ender.None? ==>
        s.calls[saver.value].phase.Saved? && MakesCurrent(s.calls[saver.value].phase.rest))
  }

  /** Two calls with rows in the file have different aliases. */
  lemma AliasesApart(hostDir: string, s: State, i: nat, j: nat)
    requires Inv(hostDir, s) && DistinctPacts(s.calls) && i < |s.calls| && j < |s.calls| && i != j
    requires Listed(hostDir, s, i) && Listed(hostDir, s, j)
    ensures AliasOf(s.calls[i]) != AliasOf(s.calls[j])
  {
    hide IsAlias, KeyIsHex, PactConfigDir, Known, Shaped;
    KnownRows(hostDir, s);
    ValidIsDistinct(s.host.rows, s.host.current);
    var ri := RowOf(hostDir, AliasOf(s.calls[i]).value, s.calls[i].op);
    var rj := RowOf(hostDir, AliasOf(s.calls[j]).value, s.calls[j].op);
    var a :| 0 <= a < |s.host.rows| && s.host.rows[a] == ri;
    var b :| 0 <= b < |s.host.rows| && s.host.rows[b] == rj;
    assert PactOf(s.calls[i].op) != PactOf(s.calls[j].op);
    assert ri.pactId != rj.pactId;
  }

  lemma OnlyWindow(calls: seq<Call>, i: nat, j: nat)
    requires |Window(calls)| <= 1 && i < |calls| && j < |calls| && i != j && InWindow(calls[i])
    ensures !InWindow(calls[j])
  {
    OneLeft(Window(calls), i);
    assert i in Window(calls);
    assert j !in Window(calls) - {i};
  }

  /** A call that has loaded, and been placed, is in its window, listed, or has failed. */
  lemma PlacedKinds(hostDir: string, s: State, i: nat)
    requires Inv(hostDir, s) && Tidy(hostDir, s) && i < |s.calls|
    ensures var c := s.calls[i]; InWindow(c) || Listed(hostDir, s, i) || (c.phase.Ended? && !c.phase.outcome.Ready?)
    ensures Shaped(hostDir, s.calls[i]) && Placed(hostDir, s.host, s.calls[i]) && InFile(s.calls[i].phase)
  {
    hide IsAlias, KeyIsHex, PactConfigDir, Known, RegistryOk, HasAlias, RowOf, OnDisk;
    assert Shaped(hostDir, s.calls[i]) && Placed(hostDir, s.host, s.calls[i]);
  }

  /** The aliases of a call that takes a step and of any other that the host holds differ. */
  lemma StepApart(hostDir: string, s: State, i: nat, k: nat)
    requires Inv(hostDir, s) && Tidy(hostDir, s) && DistinctPacts(s.calls) && |Window(s.calls)| <= 1
    requires i < |s.calls| && k < |s.calls| && i != k && AliasOf(s.calls[i]).Some? && Listed(hostDir, s, k)
    requires InWindow(s.calls[i]) || Listed(hostDir, s, i)
    ensures AliasOf(s.calls[i]) != AliasOf(s.calls[k])
  {
    hide IsAlias, Known, RegistryOk, PactConfigDir, DistinctPacts;
    PlacedKinds(hostDir, s, i);
    if InWindow(s.calls[i]) {
      var r := RowOf(hostDir, AliasOf(s.calls[k]).value, s.calls[k].op);
      var n :| 0 <= n < |s.host.rows| && s.host.rows[n] == r;
      assert HasAlias(s.host.rows, r.alias);
    } else {
      AliasesApart(hostDir, s, i, k);
    }
  }

  /** Which step a placed call takes. */
  ghost function InstallStep(hostDir: string, h: Host, c: Call): (Host, Phase)
    requires Installing(c.op) && c.op.made.Made?
  {
    match c.phase
    case Making(file, alias, _, _) =>
      var makeCurrent := if c.op.setCurrent.Some? then c.op.setCurrent.value else file.current.None?;
      (h.(disk := h.disk[PactConfigDir(hostDir, alias) := c.op.made.pactKey]),
       Saving(File(file.rows + [RowOf(hostDir, alias, c.op)], if makeCurrent then Some(alias) else file.current),
              KeepOpen(alias, HandleOf(hostDir, alias, c.op), makeCurrent)))
    case Saving(file, rest) => (h.(rows := file.rows, current := file.current), Saved(rest))
    case Saved(rest) =>
      if !rest.KeepOpen? then (h, c.phase)
      else (h.(live := h.live[rest.alias := rest.handle],
               memory := if rest.makeCurrent then Some(rest.alias) else h.memory), Ended(Ready(rest.alias)))
    case _ => (h, c.phase)
  }

  lemma StepOfInstall(hostDir: string, h: Host, c: Call)
    requires Shaped(hostDir, c) && Installing(c.op) && c.op.made.Made? && InFile(c.phase)
    ensures Progress(hostDir, h, c.phase) == InstallStep(hostDir, h, c)
  {
    hide IsAlias, KeyIsHex, PactConfigDir, RegistryOk, HasAlias;
  }

  lemma GoPlacesOther(hostDir: string, s: State, i: nat, k: nat)
    requires Inv(hostDir, s) && Tidy(hostDir, s) && DistinctPacts(s.calls) && |Window(s.calls)| <= 1
    requires i < |s.calls| && k < |s.calls| && i != k
    ensures Placed(hostDir, Next(hostDir, s, Go(i)).host, s.calls[k])
  {
    hide IsAlias, KeyIsHex, PactConfigDir, RegistryOk, HasAlias, Known, DistinctPacts, Window, Inv, Tidy, Progress;
    PlacedKinds(hostDir, s, i);
    PlacedKinds(hostDir, s, k);
    var c := s.calls[i];
    StepOfInstall(hostDir, s.host, c);
    if InWindow(c) { OnlyWindow(s.calls, i, k); }
    if Listed(hostDir, s, k) && AliasOf(c).Some? && (InWindow(c) || Listed(hostDir, s, i)) {
      StepApart(hostDir, s, i, k);
      DirsDiffer(hostDir, AliasOf(c).value, AliasOf(s.calls[k]).value);
    }
  }

  lemma GoPlacesOwn(hostDir: string, s: State, i: nat)
    requires Inv(hostDir, s) && Tidy(hostDir, s) && i < |s.calls|
    ensures var t := Next(hostDir, s, Go(i)); |t.calls| == |s.calls| && Placed(hostDir, t.host, t.calls[i])
  {
    hide IsAlias, KeyIsHex, PactConfigDir, RegistryOk, HasAlias, Known, DistinctPacts, Window, Inv, Tidy, Progress;
    PlacedKinds(hostDir, s, i);
    StepOfInstall(hostDir, s.host, s.calls[i]);
  }

  lemma GoLeavesOther(hostDir: string, s: State, i: nat, k: nat)
    requires i < |s.calls| && k < |s.calls| && i != k
    ensures var t := Next(hostDir, s, Go(i)); |t.calls| == |s.calls| && t.calls[k] == s.calls[k]
  {
    hide Progress;
  }

  lemma PlacedIsMade(hostDir: string, h: Host, c: Call)
    requires Placed(hostDir, h, c)
    ensures Installing(c.op) && c.op.made.Made?
  {
  }

  lemma GoOpens(hostDir: string, s: State, i: nat, a: string)
    requires Inv(hostDir, s) && Tidy(hostDir, s) && i < |s.calls| && a in Next(hostDir, s, Go(i)).host.live
    ensures Opened(Next(hostDir, s, Go(i)).calls, a)
  {
    hide IsAlias, KeyIsHex, PactConfigDir, RegistryOk, HasAlias, Known, Inv, Progress, Placed;
    PlacedKinds(hostDir, s, i);
    PlacedIsMade(hostDir, s.host, s.calls[i]);
    StepOfInstall(hostDir, s.host, s.calls[i]);
    var t := Next(hostDir, s, Go(i));
    if a in s.host.live {
      assert Opened(s.calls, a);
      var k :| 0 <= k < |s.calls| && s.calls[k].phase == Ended(Ready(a));
      assert t.calls[k].phase == Ended(Ready(a));
    } else {
      assert t.calls[i].phase == Ended(Ready(a));
    }
  }

  lemma GoIsTidy(hostDir: string, s: State, i: nat)
    requires Inv(hostDir, s) && Tidy(hostDir, s) && DistinctPacts(s.calls) && |Window(s.calls)| <= 1 && i < |s.calls|
    ensures Tidy(hostDir, Next(hostDir, s, Go(i)))
  {
    hide Placed, DistinctPacts, Window, Inv, Progress;
    var t := Next(hostDir, s, Go(i));
    GoPlacesOwn(hostDir, s, i);
    forall k | 0 <= k < |t.calls| ensures Placed(hostDir, t.host, t.calls[k]) {
      if k != i {
        GoPlacesOther(hostDir, s, i, k);
        GoLeavesOther(hostDir, s, i, k);
      }
    }
    forall a | a in t.host.live ensures Opened(t.calls, a) { GoOpens(hostDir, s, i, a); }
  }

  lemma GoIsTracked(hostDir: string, s: State, i: nat, saver: Option<nat>, ender: Option<nat>)
    requires Inv(hostDir, s) && Tidy(hostDir, s) && i < |s.calls| && Tracked(s, saver, ender)
    ensures Tracked(Next(hostDir, s, Go(i)), SaverNext(s, Go(i), saver), EnderNext(s, Go(i), ender))
  {
    hide IsAlias, KeyIsHex, PactConfigDir, RegistryOk, HasAlias, Known, Inv, Tidy, Progress;
    PlacedKinds(hostDir, s, i);
    StepOfInstall(hostDir, s.host, s.calls[i]);
    var t := Next(hostDir, s, Go(i));
    assert forall k | 0 <= k < |s.calls| && k != i :: t.calls[k] == s.calls[k];
  }

  /** A load adds a call at the end and leaves the host as it is. */
  lemma LoadAdds(hostDir: string, s: State, op: Op)
    requires Inv(hostDir, s) && DistinctPacts(s.calls + [Call(op, Ended(Finished))])
    requires Installing(op) && op.made.Made?
    ensures var t := Next(hostDir, s, Load(op));
      && t.host == s.host && |t.calls| == |s.calls| + 1
      && (forall k | 0 <= k < |s.calls| :: t.calls[k] == s.calls[k])
      && Placed(hostDir, t.host, t.calls[|s.calls|])
  {
    hide IsAlias, Begin, Inv, DistinctPacts, Plain, HasAlias, RegistryOk, PactConfigDir;
    LoadEffect(hostDir, s, op);
  }

  lemma LoadIsTidy(hostDir: string, s: State, op: Op)
    requires Inv(hostDir, s) && Tidy(hostDir, s) && Installing(op) && op.made.Made?
    requires DistinctPacts(s.calls + [Call(op, Ended(Finished))])
    ensures Tidy(hostDir, Next(hostDir, s, Load(op)))
  {
    hide Inv, DistinctPacts, Placed, Next;
    LoadAdds(hostDir, s, op);
    var t := Next(hostDir, s, Load(op));
    forall a | a in t.host.live ensures Opened(t.calls, a) {
      assert Opened(s.calls, a);
      var k :| 0 <= k < |s.calls| && s.calls[k].phase == Ended(Ready(a));
      assert t.calls[k].phase == Ended(Ready(a));
    }
  }

  lemma LoadIsTracked(hostDir: string, s: State, op: Op, saver: Option<nat>, ender: Option<nat>)
    requires Inv(hostDir, s) && Tracked(s, saver, ender) && Installing(op) && op.made.Made?
    requires DistinctPacts(s.calls + [Call(op, Ended(Finished))])
    ensures Tracked(Next(hostDir, s, Load(op)), SaverNext(s, Load(op), saver), EnderNext(s, Load(op), ender))
  {
    hide Inv, DistinctPacts, Placed, Next;
    LoadAdds(hostDir, s, op);
  }

  lemma NobodyGoes(s: State, i: nat, saver: Option<nat>, ender: Option<nat>)
    requires i >= |s.calls|
    ensures SaverNext(s, Go(i), saver) == saver && EnderNext(s, Go(i), ender) == ender
  {
  }

  lemma NextIsTidy(hostDir: string, s: State, e: Event, saver: Option<nat>, ender: Option<nat>)
    requires Inv(hostDir, s) && Tidy(hostDir, s) && Tracked(s, saver, ender) && |Window(s.calls)| <= 1
    requires DistinctPacts(Next(hostDir, s, e).calls) && AllMade(Next(hostDir, s, e).calls)
    ensures var t := Next(hostDir, s, e); Tidy(hostDir, t) && Tracked(t, SaverNext(s, e, saver), EnderNext(s, e, ender))
  {
    DistinctBefore(hostDir, s, e);
    hide Inv, Tidy, Tracked, Window, DistinctPacts, SaverNext, EnderNext;
    match e {
      case Load(op) =>
        LoadedLast(hostDir, s, op);
        LoadIsTidy(hostDir, s, op);
        LoadIsTracked(hostDir, s, op, saver, ender);
      case Go(i) =>
        if i < |s.calls| {
          GoIsTidy(hostDir, s, i);
          GoIsTracked(hostDir, s, i, saver, ender);
        } else {
          NobodyGoes(s, i, saver, ender);
        }
    }
  }

  lemma MadeBefore(hostDir: string, s: State, e: Event)
    requires AllMade(Next(hostDir, s, e).calls)
    ensures AllMade(s.calls)
  {
    hide Next;
    CallsGrow(hostDir, s, e);
    var t := Next(hostDir, s, e);
    forall i | 0 <= i < |s.calls| ensures Installing(s.calls[i].op) && s.calls[i].op.made.Made? {
      assert t.calls[i].op == s.calls[i].op;
    }
  }

  lemma {:induction false} NotCrowded(hostDir: string, events: seq<Event>)
    requires !Overlaps(hostDir, events)
    ensures |Window(Run(hostDir, events).calls)| <= 1
  {
    hide Run, Window;
    assert events[..|events|] == events;
    assert !TwoAtOnce(hostDir, events, |events|);
  }

  lemma {:induction false} RunIsTidy(hostDir: string, events: seq<Event>)
    requires DistinctPacts(Run(hostDir, events).calls) && AllMade(Run(hostDir, events).calls)
    requires !Overlaps(hostDir, events)
    ensures Tidy(hostDir, Run(hostDir, events))
    ensures Tracked(Run(hostDir, events), LastSaver(hostDir, events), LastEnder(hostDir, events))
  {
    if events == [] {
    } else {
      hide Inv, Tidy, Tracked, DistinctPacts, AllMade, Overlaps, Window, Next, SaverNext, EnderNext;
      var n := |events| - 1;
      var before, e := events[..n], events[n];
      assert events == before + [e];
      DistinctBefore(hostDir, Run(hostDir, before), e);
      MadeBefore(hostDir, Run(hostDir, before), e);
      OverlapsNext(hostDir, before, e);
      RunIsTidy(hostDir, before);
      RunKeeps(hostDir, before);
      NotCrowded(hostDir, before);
      NextIsTidy(hostDir, Run(hostDir, before), e, LastSaver(hostDir, before), LastEnder(hostDir, before));
    }
  }

  lemma TidyRow(hostDir: string, s: State, k: nat)
    requires Inv(hostDir, s) && Tidy(hostDir, s) && AllEnded(s.calls) && k < |s.host.rows|
    ensures RowSound(hostDir, s.host.disk, s.host.rows[k])
  {
    hide IsAlias, PactConfigDir, IsHexText, RegistryOk;
    assert HasSource(hostDir, s.calls, s.host.rows[k]);
    var i :| IsRowOf(hostDir, s.calls, s.host.rows[k], i);
    assert Placed(hostDir, s.host, s.calls[i]) && Shaped(hostDir, s.calls[i]);
  }

  lemma TidyHandle(hostDir: string, s: State, a: string)
    requires Inv(hostDir, s) && Tidy(hostDir, s) && a in s.host.live
    ensures LiveSound(s.host.rows, a, s.host.live[a])
  {
    hide IsAlias, PactConfigDir, IsHexText, RegistryOk, Known, Shaped;
    assert Opened(s.calls, a);
    var i :| 0 <= i < |s.calls| && s.calls[i].phase == Ended(Ready(a));
    assert Placed(hostDir, s.host, s.calls[i]);
    var r := RowOf(hostDir, a, s.calls[i].op);
    var k :| 0 <= k < |s.host.rows| && s.host.rows[k] == r;
  }

  predicate MemoryAgrees(h: Host) { h.memory.Some? ==> h.memory == h.current }

  lemma TidyIsSound(hostDir: string, s: State)
    requires Inv(hostDir, s) && Tidy(hostDir, s) && AllEnded(s.calls)
    ensures Sound(hostDir, s.host) <==> MemoryAgrees(s.host)
  {
    hide IsAlias, PactConfigDir, IsHexText, Known, Shaped, Placed, RowSound, LiveSound;
    forall k | 0 <= k < |s.host.rows| ensures RowSound(hostDir, s.host.disk, s.host.rows[k]) { TidyRow(hostDir, s, k); }
    forall a | a in s.host.live ensures LiveSound(s.host.rows, a, s.host.live[a]) { TidyHandle(hostDir, s, a); }
  }

  /** The two aliases agree exactly if one call was both the last to save and the last to end. */
  lemma AgreesWhenSame(hostDir: string, s: State, saver: Option<nat>, ender: Option<nat>)
    requires Inv(hostDir, s) && Tidy(hostDir, s) && DistinctPacts(s.calls) && AllEnded(s.calls)
    requires Tracked(s, saver, ender)
    ensures MemoryAgrees(s.host) <==> saver == ender
  {
    hide IsAlias, PactConfigDir, RegistryOk, Known, Shaped, Placed, Inv, Tidy, DistinctPacts, Listed;
    if saver.Some? { PlacedKinds(hostDir, s, saver.value); }
    if ender.Some? { PlacedKinds(hostDir, s, ender.value); }
    if saver.Some? && ender.Some? && saver != ender { AliasesApart(hostDir, s, saver.value, ender.value); }
  }

  /** If no two calls were in their windows at once, and all come up, the host is sound in the
      end if and only if, of the calls that made themselves current, the last to save the file
      was also the last to end. */
  lemma {:induction false} SoundWithoutOverlapExactlyWhen(hostDir: string, events: seq<Event>)
    requires DistinctPacts(Run(hostDir, events).calls) && AllMade(Run(hostDir, events).calls)
    requires AllEnded(Run(hostDir, events).calls)
    requires !Overlaps(hostDir, events)
    ensures Sound(hostDir, Run(hostDir, events).host) <==> LastSaver(hostDir, events) == LastEnder(hostDir, events)
  {
    hide Run, DistinctPacts, AllMade, Overlaps, Inv, Tidy, Tracked, AllEnded, Sound, MemoryAgrees, LastSaver;
    hide LastEnder, Window;
    RunKeeps(hostDir, events);
    RunIsTidy(hostDir, events);
    TidyIsSound(hostDir, Run(hostDir, events));
    AgreesWhenSame(hostDir, Run(hostDir, events), LastSaver(hostDir, events), LastEnder(hostDir, events));
  }

  /** The pacts that were reported ready have aliases of their own. */
  ghost predicate DistinctAliases(calls: seq<Call>) {
    forall i, j | 0 <= i < j < |calls| && IsSaved(calls[i]) && IsSaved(calls[j]) ::
        AliasOf(calls[i]) != AliasOf(calls[j])
  }

  /** A pact that is open in a sound host is listed with its own row. */
  lemma SoundIsListed(hostDir: string, s: State, i: nat)
    requires Inv(hostDir, s) && DistinctAliases(s.calls) && AllEnded(s.calls) && Sound(hostDir, s.host)
    requires i < |s.calls| && s.calls[i].phase.outcome.Ready?
    ensures Listed(hostDir, s, i)
  {
    hide IsAlias, RegistryOk, Inv, Sound, Shaped, Plain, RowOf;
    InShape(hostDir, s, i);
    KnownRows(hostDir, s);
    var a := s.calls[i].phase.outcome.alias;
    LiveIsRegistered(hostDir, s.host, a);
    var k :| 0 <= k < |s.host.rows| && s.host.rows[k].alias == a;
    assert HasSource(hostDir, s.calls, s.host.rows[k]);
    var j :| IsRowOf(hostDir, s.calls, s.host.rows[k], j);
    assert i == j;
    assert s.host.rows[k] in s.host.rows;
  }

  /** With aliases of their own as well, the host is sound in the end if and only if no two
      calls were in their windows at once and that last saver was the last to end. */
  lemma {:induction false} SoundExactlyWhen(hostDir: string, events: seq<Event>)
    requires DistinctPacts(Run(hostDir, events).calls) && AllMade(Run(hostDir, events).calls)
    requires AllEnded(Run(hostDir, events).calls)
    requires DistinctAliases(Run(hostDir, events).calls)
    ensures Sound(hostDir, Run(hostDir, events).host) <==>
            !Overlaps(hostDir, events) && LastSaver(hostDir, events) == LastEnder(hostDir, events)
  {
    hide Run, DistinctPacts, AllMade, Overlaps, Inv, Sound, LastSaver, LastEnder, DistinctAliases, Listed, Window;
    var s := Run(hostDir, events);
    RunKeeps(hostDir, events);
    InstallsListedExactlyWhen(hostDir, events);
    if Sound(hostDir, s.host) {
      forall i | 0 <= i < |s.calls| && s.calls[i].phase.Ended? && s.calls[i].phase.outcome.Ready?
        ensures Listed(hostDir, s, i)
      {
        SoundIsListed(hostDir, s, i);
      }
    }
    if !Overlaps(hostDir, events) { SoundWithoutOverlapExactlyWhen(hostDir, events); }
  }
}
