/** What the registry keeps over every sequence of its operations, one after another, from an
    empty host. `RegistryOverlap` says which interleavings amount to such a sequence. */
module RegistrySafety {
  import opened Results
  import opened Registry
  import EntryIds

  ghost predicate Distinct(rows: seq<Row>) {
    forall i, j | 0 <= i < j < |rows| :: rows[i].alias != rows[j].alias
  }

  /** A row names a directory derived from its own alias, and its pact is stored there. */
  ghost predicate RowSound(hostDir: string, disk: map<string, string>, r: Row) {
    && IsAlias(r.alias) && IsHexText(r.pactId)
    && r.dataDir == PactConfigDir(hostDir, r.alias)
    && r.dataDir in disk && disk[r.dataDir] == r.pactId
  }

  ghost predicate LiveSound(rows: seq<Row>, alias: string, handle: Handle) {
    exists i | 0 <= i < |rows| :: rows[i].alias == alias && handle == Handle(rows[i].dataDir, rows[i].pactId)
  }

  ghost predicate Sound(hostDir: string, h: Host) {
    && Distinct(h.rows)
    && (forall i | 0 <= i < |h.rows| :: RowSound(hostDir, h.disk, h.rows[i]))
    && (h.current.Some? ==> HasAlias(h.rows, h.current.value))
    && (h.memory.Some? ==> h.memory == h.current)
    && (forall a | a in h.live :: LiveSound(h.rows, a, h.live[a]))
  }

  /** The key of a pact that came up is hex. */
  predicate KeyIsHex(op: Op) {
    (op.Create? || op.Join?) && op.made.Made? ==> IsHexText(op.made.pactKey)
  }

  /** What daemon.json is held to whenever it is written. */
  ghost predicate RegistryOk(rows: seq<Row>, current: Option<string>) {
    && Distinct(rows)
    && (forall i | 0 <= i < |rows| :: rows[i].alias != "" && IsHexText(rows[i].pactId) && rows[i].dataDir != "")
    && (current.Some? ==> HasAlias(rows, current.value))
  }

  lemma AliasIsNotEmpty(s: string)
    requires IsAlias(s)
    ensures s != ""
  {
  }

  lemma SoundIsValidConfig(hostDir: string, h: Host)
    requires Sound(hostDir, h)
    ensures RegistryOk(h.rows, h.current)
  {
    hide IsAlias, IsHexText, HasAlias;
    forall i | 0 <= i < |h.rows|
      ensures h.rows[i].alias != "" && IsHexText(h.rows[i].pactId) && h.rows[i].dataDir != ""
    {
      assert RowSound(hostDir, h.disk, h.rows[i]);
      AliasIsNotEmpty(h.rows[i].alias);
      assert |PactConfigDir(hostDir, h.rows[i].alias)| > 0;
    }
  }

  lemma DirsDiffer(hostDir: string, a: string, b: string)
    ensures PactConfigDir(hostDir, a) == PactConfigDir(hostDir, b) <==> a == b
  {
    assert PactConfigDir(hostDir, a)[|hostDir + "/pacts/"|..] == a;
    assert PactConfigDir(hostDir, b)[|hostDir + "/pacts/"|..] == b;
  }

  lemma AbsentIsUnlisted(rows: seq<Row>, alias: string)
    ensures IndexOf(rows, alias) == |rows| <==> !HasAlias(rows, alias)
  {
  }

  /** Aliases name rows uniquely. */
  lemma OnlyRow(rows: seq<Row>, i: nat, alias: string)
    requires Distinct(rows) && i < |rows| && rows[i].alias == alias
    ensures IndexOf(rows, alias) == i
  {
  }

  // ── One step ─────────────────────────────────────────────────────────────────

  lemma HandleOfRow(rows: seq<Row>, i: nat)
    requires i < |rows|
    ensures LiveSound(rows, rows[i].alias, Handle(rows[i].dataDir, rows[i].pactId))
  {
  }

  lemma LiveAdded(h: Host, alias: string, i: nat)
    requires i < |h.rows| && h.rows[i].alias == alias
    requires forall a | a in h.live :: LiveSound(h.rows, a, h.live[a])
    ensures var live := h.live[alias := Handle(h.rows[i].dataDir, h.rows[i].pactId)];
      forall a | a in live :: LiveSound(h.rows, a, live[a])
  {
    hide LiveSound;
    assert LiveSound(h.rows, alias, Handle(h.rows[i].dataDir, h.rows[i].pactId)) by { HandleOfRow(h.rows, i); }
  }

  lemma OpenSound(hostDir: string, h: Host, wanted: Option<string>)
    requires Sound(hostDir, h)
    ensures Sound(hostDir, OpenStep(h, wanted).0)
    ensures OpenStep(h, wanted).1 != Failed(LoadFailed)
    ensures OpenStep(h, wanted).0 == h.(live := OpenStep(h, wanted).0.live)
  {
    hide IsAlias, IsHexText, HasAlias, PactConfigDir;
    var chosen := if wanted.Some? then wanted else h.current;
    if chosen.Some? && chosen.value !in h.live {
      var i := IndexOf(h.rows, chosen.value);
      if i < |h.rows| {
        assert RowSound(hostDir, h.disk, h.rows[i]);
        LiveAdded(h, chosen.value, i);
      }
    }
  }

  lemma LiveSoundMore(rows: seq<Row>, r: Row, alias: string, handle: Handle)
    requires LiveSound(rows, alias, handle)
    ensures LiveSound(rows + [r], alias, handle)
  {
    var i :| 0 <= i < |rows| && rows[i].alias == alias && handle == Handle(rows[i].dataDir, rows[i].pactId);
    assert (rows + [r])[i] == rows[i];
  }

  lemma HasAliasMore(rows: seq<Row>, r: Row, alias: string)
    ensures HasAlias(rows + [r], alias) <==> HasAlias(rows, alias) || r.alias == alias
  {
    var all := rows + [r];
    assert all[|rows|] == r;
    if HasAlias(rows, alias) { var i :| 0 <= i < |rows| && rows[i].alias == alias; assert all[i].alias == alias; }
  }

  lemma RowSoundWhen(hostDir: string, disk: map<string, string>, r: Row)
    requires IsAlias(r.alias) && IsHexText(r.pactId) && r.dataDir == PactConfigDir(hostDir, r.alias)
    requires r.dataDir in disk && disk[r.dataDir] == r.pactId
    ensures RowSound(hostDir, disk, r)
  {
  }

  lemma AliasesDiffer(rows: seq<Row>, alias: string)
    requires !HasAlias(rows, alias)
    ensures forall i | 0 <= i < |rows| :: rows[i].alias != alias
  {
  }

  lemma InstallSound(hostDir: string, h: Host, alias: string, setCurrent: Option<bool>, made: Made)
    requires Sound(hostDir, h) && IsAlias(alias) && !HasAlias(h.rows, alias)
    requires made.Made? ==> IsHexText(made.pactKey)
    ensures Sound(hostDir, Install(hostDir, h, alias, setCurrent, made).0)
  {
    var next := Install(hostDir, h, alias, setCurrent, made).0;
    var dir := PactConfigDir(hostDir, alias);
    forall i | 0 <= i < |h.rows| ensures RowSound(hostDir, next.disk, h.rows[i]) {
      assert h.rows[i].alias != alias;
      DirsDiffer(hostDir, h.rows[i].alias, alias);
    }
    hide IsAlias, IsHexText, PactConfigDir, HasAlias, LiveSound, RowSound;
    if made.Made? {
      var r := Row(alias, made.pactKey, dir);
      assert next.rows == h.rows + [r];
      RowSoundWhen(hostDir, next.disk, r);
      if h.current.Some? { HasAliasMore(h.rows, r, h.current.value); }
      HasAliasMore(h.rows, r, alias);
      AliasesDiffer(h.rows, alias);
      forall a | a in next.live ensures LiveSound(next.rows, a, next.live[a]) {
        if a == alias { HandleOfRow(next.rows, |h.rows|); }
        else { LiveSoundMore(h.rows, r, a, h.live[a]); }
      }
    }
  }

  /** The rows that stay when one is removed. */
  lemma RemainingRows(rows: seq<Row>, i: nat)
    requires i < |rows| && Distinct(rows)
    ensures var rest := rows[..i] + rows[i + 1..];
      && Distinct(rest)
      && (forall k | 0 <= k < |rest| :: rest[k] in rows && rest[k].alias != rows[i].alias)
      && (forall k | 0 <= k < |rows| && k != i :: rows[k] in rest)
  {
    var rest := rows[..i] + rows[i + 1..];
    assert forall k | 0 <= k < |rest| :: rest[k] == if k < i then rows[k] else rows[k + 1];
    forall k | 0 <= k < |rows| && k != i ensures rows[k] in rest {
      assert rest[if k < i then k else k - 1] == rows[k];
    }
  }

  lemma RemoveRowsSound(hostDir: string, h: Host, i: nat)
    requires Sound(hostDir, h) && i < |h.rows|
    ensures var rest := h.rows[..i] + h.rows[i + 1..];
      forall k | 0 <= k < |rest| :: RowSound(hostDir, h.disk - {h.rows[i].dataDir}, rest[k])
  {
    hide IsAlias, IsHexText, PactConfigDir, HasAlias, LiveSound;
    var rest := h.rows[..i] + h.rows[i + 1..];
    RemainingRows(h.rows, i);
    assert RowSound(hostDir, h.disk, h.rows[i]);
    forall k | 0 <= k < |rest| ensures RowSound(hostDir, h.disk - {h.rows[i].dataDir}, rest[k]) {
      var m :| 0 <= m < |h.rows| && h.rows[m] == rest[k];
      assert RowSound(hostDir, h.disk, h.rows[m]);
      DirsDiffer(hostDir, h.rows[m].alias, h.rows[i].alias);
    }
  }

  lemma RemoveKeepsNames(rows: seq<Row>, i: nat, a: string, handle: Handle)
    requires i < |rows| && Distinct(rows) && a != rows[i].alias
    ensures var rest := rows[..i] + rows[i + 1..];
      (HasAlias(rows, a) ==> HasAlias(rest, a)) && (LiveSound(rows, a, handle) ==> LiveSound(rest, a, handle))
  {
    var rest := rows[..i] + rows[i + 1..];
    RemainingRows(rows, i);
    if HasAlias(rows, a) {
      var m :| 0 <= m < |rows| && rows[m].alias == a;
      var k :| 0 <= k < |rest| && rest[k] == rows[m];
    }
    if LiveSound(rows, a, handle) {
      var m :| 0 <= m < |rows| && rows[m].alias == a && handle == Handle(rows[m].dataDir, rows[m].pactId);
      var k :| 0 <= k < |rest| && rest[k] == rows[m];
    }
  }

  lemma RemoveCurrentSound(h: Host, alias: string)
    requires HasAlias(h.rows, alias)
    requires h.current.Some? ==> HasAlias(h.rows, h.current.value)
    requires h.memory.Some? ==> h.memory == h.current
    requires forall a | HasAlias(h.rows, a) && a != alias :: HasAlias(RemoveStep(h, alias).0.rows, a)
    ensures var next := RemoveStep(h, alias).0;
      && (next.current.Some? ==> HasAlias(next.rows, next.current.value))
      && (next.memory.Some? ==> next.memory == next.current)
  {
  }

  lemma RemoveSound(hostDir: string, h: Host, alias: string)
    requires Sound(hostDir, h)
    ensures Sound(hostDir, RemoveStep(h, alias).0)
  {
    hide RowSound, LiveSound, Distinct, HasAlias;
    var i := IndexOf(h.rows, alias);
    if i < |h.rows| {
      var next := RemoveStep(h, alias).0;
      RemainingRows(h.rows, i);
      RemoveRowsSound(hostDir, h, i);
      AbsentIsUnlisted(h.rows, alias);
      forall a | HasAlias(h.rows, a) && a != alias ensures HasAlias(next.rows, a) {
        RemoveKeepsNames(h.rows, i, a, Handle("", ""));
      }
      forall a | a in next.live ensures LiveSound(next.rows, a, next.live[a]) {
        RemoveKeepsNames(h.rows, i, a, h.live[a]);
      }
      RemoveCurrentSound(h, alias);
    }
  }

  lemma RenameNames(rows: seq<Row>, i: nat, renamed: seq<Row>)
    requires i < |rows| == |renamed| && renamed == rows[i := renamed[i]]
    ensures forall a | HasAlias(rows, a) :: a == rows[i].alias || HasAlias(renamed, a)
    ensures HasAlias(renamed, renamed[i].alias)
  {
    forall a | HasAlias(rows, a) && a != rows[i].alias ensures HasAlias(renamed, a) {
      var k :| 0 <= k < |rows| && rows[k].alias == a;
      assert renamed[k].alias == a;
    }
  }

  lemma RenameLive(hostDir: string, h: Host, was: string, now: string, a: string)
    requires Sound(hostDir, h) && RenameStep(hostDir, h, was, now).1 == Finished
    requires a in RenameStep(hostDir, h, was, now).0.live
    ensures LiveSound(RenameStep(hostDir, h, was, now).0.rows, a, RenameStep(hostDir, h, was, now).0.live[a])
  {
    hide IsHexText, PactConfigDir, IsAlias;
    var next := RenameStep(hostDir, h, was, now).0;
    var i := IndexOf(h.rows, was);
    assert RowSound(hostDir, h.disk, h.rows[i]);
    if a == now && was in h.live {
      HandleOfRow(next.rows, i);
    } else {
      var k :| 0 <= k < |h.rows| && h.rows[k].alias == a && h.live[a] == Handle(h.rows[k].dataDir, h.rows[k].pactId);
      assert a != was && k != i;
      assert next.rows[k] == h.rows[k];
    }
  }

  lemma RenameSound(hostDir: string, h: Host, was: string, now: string)
    requires Sound(hostDir, h)
    ensures Sound(hostDir, RenameStep(hostDir, h, was, now).0)
  {
    hide IsHexText, PactConfigDir, IsAlias;
    var next, outcome := RenameStep(hostDir, h, was, now).0, RenameStep(hostDir, h, was, now).1;
    if outcome == Finished {
      var i := IndexOf(h.rows, was);
      AliasesDiffer(h.rows, now);
      assert RowSound(hostDir, h.disk, h.rows[i]);
      forall k | 0 <= k < |next.rows| ensures RowSound(hostDir, next.disk, next.rows[k]) {
        if k != i {
          assert RowSound(hostDir, h.disk, h.rows[k]);
          DirsDiffer(hostDir, h.rows[k].alias, was);
          DirsDiffer(hostDir, h.rows[k].alias, now);
        }
      }
      RenameNames(h.rows, i, next.rows);
      forall a | a in next.live ensures LiveSound(next.rows, a, next.live[a]) { RenameLive(hostDir, h, was, now, a); }
    }
  }

  lemma StepSound(hostDir: string, h: Host, op: Op)
    requires Sound(hostDir, h) && KeyIsHex(op)
    ensures Sound(hostDir, Step(hostDir, h, op).0)
  {
    hide OpenStep, Install, RemoveStep, RenameStep, IsAlias, IsHexText, UniqueAlias, JoinedAlias, LiveSound, RowSound;
    match op {
      case SetCurrent(_) => assert Step(hostDir, h, op).0.rows == h.rows;
      case Open(alias) => OpenSound(hostDir, h, alias);
      case Create(name, wanted, setCurrent, made) =>
        var alias := if wanted.Some? then wanted else UniqueAlias(name, h.rows);
        if alias.Some? && IsAlias(alias.value) && !HasAlias(h.rows, alias.value) {
          InstallSound(hostDir, h, alias.value, setCurrent, made);
        }
      case Join(joinKey, wanted, setCurrent, made) =>
        var alias := if wanted.Some? then wanted.value else JoinedAlias(joinKey);
        AbsentIsUnlisted(h.rows, alias);
        OpenSound(hostDir, h, Some(alias));
        if IsAlias(alias) && !HasAlias(h.rows, alias) { InstallSound(hostDir, h, alias, setCurrent, made); }
      case Remove(alias) => RemoveSound(hostDir, h, alias);
      case Rename(was, now) => RenameSound(hostDir, h, was, now);
      case Restart => assert Step(hostDir, h, op).0.rows == h.rows;
    }
  }

  lemma FreshIsSound(hostDir: string)
    ensures Sound(hostDir, FRESH_HOST)
  {
  }

  /** Over every such sequence from an empty host: the file passes validation, every row keeps the
      directory of its own alias with its own pact in it, and what is open is registered. */
  lemma {:induction false} RunsAreSound(hostDir: string, ops: seq<Op>)
    requires forall op | op in ops :: KeyIsHex(op)
    ensures Sound(hostDir, After(hostDir, ops)) && RegistryOk(After(hostDir, ops).rows, After(hostDir, ops).current)
  {
    hide Step, Sound, RegistryOk;
    if ops == [] {
      FreshIsSound(hostDir);
    } else {
      RunsAreSound(hostDir, ops[..|ops| - 1]);
      StepSound(hostDir, After(hostDir, ops[..|ops| - 1]), ops[|ops| - 1]);
    }
    SoundIsValidConfig(hostDir, After(hostDir, ops));
  }

  // ── Nothing reaches another pact ─────────────────────────────────────────────

  /** The alias an operation is allowed to take a pact away from. */
  predicate Targets(op: Op, alias: string) {
    match op
    case Remove(a) => a == alias
    case Rename(was, _) => was == alias
    case _ => false
  }

  ghost predicate Untouched(h: Host, next: Host, r: Row) {
    && r in next.rows
    && r.dataDir in h.disk && r.dataDir in next.disk && next.disk[r.dataDir] == h.disk[r.dataDir]
    && (r.alias in h.live ==> r.alias in next.live && next.live[r.alias] == h.live[r.alias])
  }

  lemma InstallLeavesOthers(hostDir: string, h: Host, alias: string, setCurrent: Option<bool>, made: Made, r: Row)
    requires Sound(hostDir, h) && r in h.rows && !HasAlias(h.rows, alias)
    ensures Untouched(h, Install(hostDir, h, alias, setCurrent, made).0, r)
  {
    hide IsAlias, IsHexText, PactConfigDir, LiveSound;
    var i :| 0 <= i < |h.rows| && h.rows[i] == r;
    assert RowSound(hostDir, h.disk, h.rows[i]) && r.alias != alias;
    DirsDiffer(hostDir, r.alias, alias);
  }

  lemma RemoveLeavesOthers(hostDir: string, h: Host, alias: string, r: Row)
    requires Sound(hostDir, h) && r in h.rows && r.alias != alias
    ensures Untouched(h, RemoveStep(h, alias).0, r)
  {
    hide IsAlias, IsHexText, PactConfigDir, LiveSound, HasAlias;
    var k :| 0 <= k < |h.rows| && h.rows[k] == r;
    assert RowSound(hostDir, h.disk, h.rows[k]);
    var i := IndexOf(h.rows, alias);
    if i < |h.rows| {
      assert RowSound(hostDir, h.disk, h.rows[i]);
      RemainingRows(h.rows, i);
      DirsDiffer(hostDir, r.alias, alias);
    }
  }

  lemma RenameLeavesOthers(hostDir: string, h: Host, was: string, now: string, r: Row)
    requires Sound(hostDir, h) && r in h.rows && r.alias != was
    ensures Untouched(h, RenameStep(hostDir, h, was, now).0, r)
  {
    hide IsAlias, IsHexText, PactConfigDir, LiveSound;
    var k :| 0 <= k < |h.rows| && h.rows[k] == r;
    assert RowSound(hostDir, h.disk, h.rows[k]);
    var next := RenameStep(hostDir, h, was, now);
    if next.1 == Finished {
      var i := IndexOf(h.rows, was);
      assert RowSound(hostDir, h.disk, h.rows[i]);
      assert next.0.rows[k] == r && r.alias != now;
      DirsDiffer(hostDir, r.alias, was);
      DirsDiffer(hostDir, r.alias, now);
    }
  }

  lemma SameIsUntouched(hostDir: string, h: Host, next: Host, r: Row)
    requires Sound(hostDir, h) && r in h.rows && next.rows == h.rows && next.disk == h.disk && next.live == h.live
    ensures Untouched(h, next, r)
  {
    var k :| 0 <= k < |h.rows| && h.rows[k] == r;
    assert RowSound(hostDir, h.disk, h.rows[k]);
  }

  lemma OpenLeavesAll(hostDir: string, h: Host, wanted: Option<string>, r: Row)
    requires Sound(hostDir, h) && r in h.rows
    ensures Untouched(h, OpenStep(h, wanted).0, r)
  {
    hide IsAlias, IsHexText, PactConfigDir, LiveSound, HasAlias;
    var k :| 0 <= k < |h.rows| && h.rows[k] == r;
    assert RowSound(hostDir, h.disk, h.rows[k]);
  }

  /** In every state such a sequence reaches, no operation that runs undisturbed moves,
      overwrites, deletes, closes or unlists a pact other than the one it names. */
  lemma {:induction false} OthersUntouched(hostDir: string, ops: seq<Op>, op: Op, r: Row)
    requires (forall o | o in ops :: KeyIsHex(o)) && op != Restart
    requires r in After(hostDir, ops).rows && !Targets(op, r.alias)
    ensures Untouched(After(hostDir, ops), Step(hostDir, After(hostDir, ops), op).0, r)
  {
    hide OpenStep, Install, RemoveStep, RenameStep, IsAlias, UniqueAlias, JoinedAlias, After, RegistryOk, Untouched;
    RunsAreSound(hostDir, ops);
    var h := After(hostDir, ops);
    match op {
      case SetCurrent(alias) => SameIsUntouched(hostDir, h, Step(hostDir, h, op).0, r);
      case Open(alias) => OpenLeavesAll(hostDir, h, alias, r);
      case Create(name, wanted, setCurrent, made) =>
        var alias := if wanted.Some? then wanted else UniqueAlias(name, h.rows);
        if alias.Some? && IsAlias(alias.value) && !HasAlias(h.rows, alias.value) {
          InstallLeavesOthers(hostDir, h, alias.value, setCurrent, made, r);
        }
        else { SameIsUntouched(hostDir, h, h, r); }
      case Join(joinKey, wanted, setCurrent, made) =>
        var alias := if wanted.Some? then wanted.value else JoinedAlias(joinKey);
        AbsentIsUnlisted(h.rows, alias);
        SameIsUntouched(hostDir, h, h, r);
        OpenLeavesAll(hostDir, h, Some(alias), r);
        if IsAlias(alias) && !HasAlias(h.rows, alias) { InstallLeavesOthers(hostDir, h, alias, setCurrent, made, r); }
      case Remove(alias) => RemoveLeavesOthers(hostDir, h, alias, r);
      case Rename(was, now) => RenameLeavesOthers(hostDir, h, was, now, r);
    }
  }

  lemma RemoveStepTakes(hostDir: string, h: Host, alias: string)
    requires Sound(hostDir, h) && HasAlias(h.rows, alias)
    ensures var (next, outcome) := Step(hostDir, h, Remove(alias));
      && outcome == Finished && |next.rows| == |h.rows| - 1
      && !HasAlias(next.rows, alias) && alias !in next.live && PactConfigDir(hostDir, alias) !in next.disk
      && next.disk.Keys == h.disk.Keys - {PactConfigDir(hostDir, alias)}
      && (h.current != Some(alias) ==> next.current == h.current)
      && (h.current == Some(alias) ==>
          (next.current.None? <==> |h.rows| == 1) && (next.current.Some? ==> next.current.value == next.rows[0].alias))
  {
    hide IsAlias, IsHexText, PactConfigDir, LiveSound;
    AbsentIsUnlisted(h.rows, alias);
    var i := IndexOf(h.rows, alias);
    assert RowSound(hostDir, h.disk, h.rows[i]);
    RemainingRows(h.rows, i);
  }

  /** In every state such a sequence reaches, removal takes the pact out of the list, out of
      memory and off the disk; if it was the current one, the first pact left takes its place. */
  lemma {:induction false} RemoveTakesItsOwn(hostDir: string, ops: seq<Op>, alias: string)
    requires (forall op | op in ops :: KeyIsHex(op)) && HasAlias(After(hostDir, ops).rows, alias)
    ensures var h := After(hostDir, ops); var (next, outcome) := Step(hostDir, h, Remove(alias));
      && outcome == Finished && |next.rows| == |h.rows| - 1
      && !HasAlias(next.rows, alias) && alias !in next.live && PactConfigDir(hostDir, alias) !in next.disk
      && next.disk.Keys == h.disk.Keys - {PactConfigDir(hostDir, alias)}
      && (h.current != Some(alias) ==> next.current == h.current)
      && (h.current == Some(alias) ==>
          (next.current.None? <==> |h.rows| == 1) && (next.current.Some? ==> next.current.value == next.rows[0].alias))
  {
    hide After, Step, Sound;
    RunsAreSound(hostDir, ops);
    RemoveStepTakes(hostDir, After(hostDir, ops), alias);
  }

  lemma OpenStepFinds(hostDir: string, h: Host, i: nat)
    requires Sound(hostDir, h) && i < |h.rows|
    ensures var r := h.rows[i];
      OpenStep(h, Some(r.alias)) ==
          (h.(live := h.live[r.alias := Handle(PactConfigDir(hostDir, r.alias), r.pactId)]), Ready(r.alias))
  {
    hide IsAlias, IsHexText, PactConfigDir, HasAlias;
    var r := h.rows[i];
    assert RowSound(hostDir, h.disk, r);
    AliasIsNotEmpty(r.alias);
    OnlyRow(h.rows, i, r.alias);
    if r.alias in h.live {
      assert LiveSound(h.rows, r.alias, h.live[r.alias]);
      assert h.live[r.alias := h.live[r.alias]] == h.live;
    }
  }

  /** In every state such a sequence reaches, a registered pact opens, from the directory of
      its alias and with its own key, and nothing else changes. */
  lemma {:induction false} RegisteredOpens(hostDir: string, ops: seq<Op>, i: nat)
    requires (forall op | op in ops :: KeyIsHex(op)) && i < |After(hostDir, ops).rows|
    ensures var h := After(hostDir, ops); var r := h.rows[i];
      Step(hostDir, h, Open(Some(r.alias))) ==
        (h.(live := h.live[r.alias := Handle(PactConfigDir(hostDir, r.alias), r.pactId)]), Ready(r.alias))
  {
    hide After, OpenStep, Sound;
    RunsAreSound(hostDir, ops);
    OpenStepFinds(hostDir, After(hostDir, ops), i);
  }

  lemma LiveIsRegistered(hostDir: string, h: Host, a: string)
    requires Sound(hostDir, h)
    ensures a in h.live ==> HasAlias(h.rows, a)
  {
    hide RowSound;
    if a in h.live { assert LiveSound(h.rows, a, h.live[a]); }
  }

  // ── Doing and undoing ────────────────────────────────────────────────────────

  /** Joining under a taken alias is accepted exactly for the pact that has it, compared
      without regard to case, and then nothing changes but that the pact is open. */
  lemma RejoinChangesNothing(hostDir: string, h: Host, i: nat, joinKey: string, setCurrent: Option<bool>, made: Made)
    requires Sound(hostDir, h) && i < |h.rows|
    ensures var alias := h.rows[i].alias;
      var (next, outcome) := JoinStep(hostDir, h, joinKey, Some(alias), setCurrent, made);
      if EntryIds.Lower(joinKey) == EntryIds.Lower(h.rows[i].pactId)
      then outcome == Ready(alias) && next == h.(live := h.live[alias := Handle(h.rows[i].dataDir, h.rows[i].pactId)])
      else outcome == Failed(AliasOfAnother) && next == h
  {
    hide IsHexText, PactConfigDir, HasAlias;
    var alias := h.rows[i].alias;
    assert RowSound(hostDir, h.disk, h.rows[i]);
    OnlyRow(h.rows, i, alias);
    if alias in h.live {
      assert LiveSound(h.rows, alias, h.live[alias]);
      assert h.live[alias := h.live[alias]] == h.live;
    }
  }

  /** Leaving the alias out is the same as giving the default. */
  lemma NamedJoin(hostDir: string, h: Host, op: Op, alias: string)
    requires op.Join? && alias == if op.alias.Some? then op.alias.value else JoinedAlias(op.joinKey)
    ensures Step(hostDir, h, op) == JoinStep(hostDir, h, op.joinKey, Some(alias), op.setCurrent, op.made)
  {
  }

  /** After a join that worked, its row is there, and the pact is open from it. */
  lemma JoinedRow(hostDir: string, h: Host, op: Op, alias: string) returns (i: nat)
    requires Sound(hostDir, h) && op.Join? && Step(hostDir, h, op).1.Ready?
    requires op.made.Made? ==> EntryIds.Lower(op.made.pactKey) == EntryIds.Lower(op.joinKey)
    requires alias == if op.alias.Some? then op.alias.value else JoinedAlias(op.joinKey)
    ensures var (next, outcome) := Step(hostDir, h, op);
      && outcome == Ready(alias) && i < |next.rows| && next.rows[i].alias == alias
      && EntryIds.Lower(next.rows[i].pactId) == EntryIds.Lower(op.joinKey)
      && alias in next.live && next.live[alias] == Handle(next.rows[i].dataDir, next.rows[i].pactId)
  {
    hide IsHexText, PactConfigDir, HasAlias, IsAlias, Sound;
    i := IndexOf(h.rows, alias);
    NamedJoin(hostDir, h, op, alias);
    if i < |h.rows| { RejoinChangesNothing(hostDir, h, i, op.joinKey, op.setCurrent, op.made); }
  }

  /** Retrying a join that worked leaves the host exactly as the first one did. */
  lemma JoinTwiceIsJoinOnce(hostDir: string, h: Host, op: Op, again: Op)
    requires Sound(hostDir, h) && op.Join? && KeyIsHex(op) && Step(hostDir, h, op).1.Ready?
    requires op.made.Made? ==> EntryIds.Lower(op.made.pactKey) == EntryIds.Lower(op.joinKey)
    requires again.Join? && again.joinKey == op.joinKey && again.alias == op.alias
    ensures Step(hostDir, Step(hostDir, h, op).0, again) == Step(hostDir, h, op)
  {
    hide Sound, JoinStep, Install;
    var alias := if op.alias.Some? then op.alias.value else JoinedAlias(op.joinKey);
    StepSound(hostDir, h, op);
    var next := Step(hostDir, h, op).0;
    var i := JoinedRow(hostDir, h, op, alias);
    NamedJoin(hostDir, next, again, alias);
    RejoinChangesNothing(hostDir, next, i, op.joinKey, again.setCurrent, again.made);
    assert next.live[alias := next.live[alias]] == next.live;
  }

  /** Removing a pact just created puts rows, open pacts and directories back; the current
      alias is back exactly if creating had left it alone or it was the first row's. */
  lemma RemoveUndoesCreate(hostDir: string, h: Host, op: Op)
    requires Sound(hostDir, h) && op.Create? && op.made.Made? && op.alias.Some? && Step(hostDir, h, op).1.Ready?
    requires PactConfigDir(hostDir, op.alias.value) !in h.disk
    ensures var (back, outcome) := Step(hostDir, Step(hostDir, h, op).0, Remove(op.alias.value));
      && outcome == Finished
      && back.rows == h.rows && back.live == h.live && back.disk == h.disk
      && (back.current == h.current <==>
            !(if op.setCurrent.Some? then op.setCurrent.value else h.current.None?)
            || h.current == if h.rows == [] then None else Some(h.rows[0].alias))
  {
    hide IsHexText, PactConfigDir, IsAlias;
    var alias := op.alias.value;
    var made := Step(hostDir, h, op).0;
    AliasesDiffer(h.rows, alias);
    var i := IndexOf(made.rows, alias);
    assert made.rows[|h.rows|].alias == alias;
    assert i == |h.rows|;
    assert made.rows[..i] + made.rows[i + 1..] == h.rows;
    var back := RemoveStep(made, alias).0;
    LiveIsRegistered(hostDir, h, alias);
    assert back.disk == h.disk && back.live == h.live;
  }

  lemma RenameDiskBack(disk: map<string, string>, from: string, to: string)
    requires from in disk && to !in disk
    ensures var there := (disk - {from})[to := disk[from]];
      from !in there && to in there && (there - {to})[from := there[to]] == disk
  {
  }

  lemma RenameOpenBack(live: map<string, Handle>, was: string, now: string, moved: Handle)
    requires was in live && now !in live
    ensures var there := (live - {was})[now := moved];
      was !in there && now in there && (there - {now})[was := live[was]] == live
  {
  }

  lemma RenameRowsBack(rows: seq<Row>, i: nat, r: Row)
    requires Distinct(rows) && i < |rows| && !HasAlias(rows, r.alias)
    ensures IndexOf(rows[i := r], r.alias) == i && !HasAlias(rows[i := r], rows[i].alias)
    ensures rows[i := r][i := rows[i]] == rows
  {
    var renamed := rows[i := r];
    AliasesDiffer(rows, r.alias);
    assert forall k | 0 <= k < |rows| :: renamed[k] == if k == i then r else rows[k];
    OnlyRow(renamed, i, r.alias);
    forall k | 0 <= k < |rows| ensures renamed[k].alias != rows[i].alias {
      if k < i { assert rows[k].alias != rows[i].alias; }
    }
  }

  lemma RenameLiveBack(hostDir: string, h: Host, was: string, i: nat)
    requires Sound(hostDir, h) && i < |h.rows| && h.rows[i].alias == was
    ensures was in h.live ==> h.live[was] == Handle(h.rows[i].dataDir, h.rows[i].pactId)
  {
    hide RowSound, HasAlias;
    if was in h.live {
      assert LiveSound(h.rows, was, h.live[was]);
      var k :| 0 <= k < |h.rows| && h.rows[k].alias == was &&
          h.live[was] == Handle(h.rows[k].dataDir, h.rows[k].pactId);
      OnlyRow(h.rows, i, was);
      OnlyRow(h.rows, k, was);
    }
  }

  /** Renaming there and back again restores the whole host. */
  lemma RenameThereAndBack(hostDir: string, h: Host, was: string, now: string)
    requires Sound(hostDir, h) && Step(hostDir, h, Rename(was, now)).1 == Finished
    ensures Step(hostDir, Step(hostDir, h, Rename(was, now)).0, Rename(now, was)) == (h, Finished)
  {
    hide IsHexText, PactConfigDir, IsAlias, HasAlias, Distinct, LiveSound;
    var i := IndexOf(h.rows, was);
    var from, to := h.rows[i].dataDir, PactConfigDir(hostDir, now);
    assert RowSound(hostDir, h.disk, h.rows[i]);
    RenameRowsBack(h.rows, i, Row(now, h.rows[i].pactId, to));
    RenameDiskBack(h.disk, from, to);
    LiveIsRegistered(hostDir, h, now);
    RenameLiveBack(hostDir, h, was, i);
    if was in h.live { RenameOpenBack(h.live, was, now, Handle(to, h.disk[from])); }
    else { assert h.live - {was} == h.live && h.live - {now} == h.live; }
  }
}
