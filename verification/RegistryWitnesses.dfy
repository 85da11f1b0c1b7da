/** Concrete interleavings of registry operations that go wrong. */
module RegistryWitnesses {
  import opened Results
  import opened Registry
  import opened RegistrySafety
  import opened RegistrySteps
  import opened RegistryOverlap
  import opened ConcurrentInstalls
  import EntryIds

  function CreateOf(alias: string, key: string, makeCurrent: bool): Op {
    Create("", Some(alias), Some(makeCurrent), Made(key))
  }

  function RowAt(hostDir: string, alias: string, key: string): Row { Row(alias, key, PactConfigDir(hostDir, alias)) }

  function HandleAt(hostDir: string, alias: string, key: string): Handle { Handle(PactConfigDir(hostDir, alias), key) }

  lemma {:induction false} StepTo(hostDir: string, events: seq<Event>, e: Event, s: State, t: State)
    requires Run(hostDir, events) == s && Next(hostDir, s, e) == t
    ensures Run(hostDir, events + [e]) == t
  {
    RunNext(hostDir, events, e);
  }

  lemma {:induction false} NoEvents(hostDir: string)
    ensures Run(hostDir, []) == State([], FRESH_HOST) && !Overlaps(hostDir, [])
  {
    NothingYetIsWhole(hostDir);
  }

  /** A load under an alias that the file does not have. */
  lemma CreateLoads(hostDir: string, s: State, alias: string, key: string, makeCurrent: bool)
    requires IsAlias(alias) && !HasAlias(s.host.rows, alias)
    ensures Next(hostDir, s, Load(CreateOf(alias, key, makeCurrent))) ==
            State(s.calls + [Call(CreateOf(alias, key, makeCurrent),
                                  Making(FileOf(s.host), alias, Some(makeCurrent), Made(key)))], s.host)
  {
  }

  lemma CreateMakes(hostDir: string, s: State, i: nat, file: File, alias: string, key: string, makeCurrent: bool)
    requires i < |s.calls|
    requires s.calls[i] == Call(CreateOf(alias, key, makeCurrent), Making(file, alias, Some(makeCurrent), Made(key)))
    ensures var made := File(file.rows + [RowAt(hostDir, alias, key)], if makeCurrent then Some(alias)
                             else file.current);
      Next(hostDir, s, Go(i)) ==
        State(s.calls[i := Call(CreateOf(alias, key, makeCurrent),
                                Saving(made, KeepOpen(alias, HandleAt(hostDir, alias, key), makeCurrent)))],
              s.host.(disk := s.host.disk[PactConfigDir(hostDir, alias) := key]))
  {
    hide PactConfigDir;
  }

  lemma CallSaves(hostDir: string, s: State, i: nat, op: Op, file: File, rest: Rest)
    requires i < |s.calls| && s.calls[i] == Call(op, Saving(file, rest)) && RegistryOk(file.rows, file.current)
    ensures Next(hostDir, s, Go(i)) ==
            State(s.calls[i := Call(op, Saved(rest))], s.host.(rows := file.rows, current := file.current))
  {
    hide RegistryOk;
  }

  lemma CreateEnds(hostDir: string, s: State, i: nat, op: Op, alias: string, handle: Handle, makeCurrent: bool)
    requires i < |s.calls| && s.calls[i] == Call(op, Saved(KeepOpen(alias, handle, makeCurrent)))
    ensures Next(hostDir, s, Go(i)) ==
            State(s.calls[i := Call(op, Ended(Ready(alias)))],
                  s.host.(live := s.host.live[alias := handle], memory := if makeCurrent then Some(alias)
                          else s.host.memory))
  {
  }

  lemma NoRowIsValid(current: Option<string>)
    requires current.None?
    ensures RegistryOk([], current)
  {
  }

  lemma RowIsComplete(hostDir: string, alias: string, key: string)
    requires alias != ""
    ensures RowAt(hostDir, alias, key).dataDir != ""
  {
    assert |PactConfigDir(hostDir, alias)| > 0;
  }

  lemma OneRowIsValid(hostDir: string, alias: string, key: string, current: Option<string>)
    requires alias != "" && IsHexText(key) && (current.Some? ==> current.value == alias)
    ensures RegistryOk([RowAt(hostDir, alias, key)], current)
  {
    hide PactConfigDir, IsHexText;
    RowIsComplete(hostDir, alias, key);
    var rows := [RowAt(hostDir, alias, key)];
    assert rows[0].alias == alias;
  }

  lemma TwoRowsAreValid(hostDir: string, a: string, b: string, ka: string, kb: string)
    requires a != "" && b != "" && a != b && IsHexText(ka) && IsHexText(kb)
    ensures RegistryOk([RowAt(hostDir, a, ka), RowAt(hostDir, b, kb)], Some(b))
  {
    hide PactConfigDir, IsHexText;
    RowIsComplete(hostDir, a, ka);
    RowIsComplete(hostDir, b, kb);
    var rows := [RowAt(hostDir, a, ka), RowAt(hostDir, b, kb)];
    assert rows[1].alias == b;
  }

  lemma HexKeys()
    ensures IsHexText("00") && IsHexText("01")
  {
    assert EntryIds.Lower("00") == "00" && EntryIds.Lower("01") == "01";
  }

  lemma OpenButUnlisted(hostDir: string, h: Host, alias: string)
    requires alias in h.live && !HasAlias(h.rows, alias)
    ensures !Sound(hostDir, h)
  {
    assert !LiveSound(h.rows, alias, h.live[alias]);
  }

  // ── Two creates at once ──────────────────────────────────────────────────────

  lemma NobodyListed()
    ensures forall a :: !HasAlias([], a)
  {
  }

  lemma OnlyOneListed(hostDir: string)
    ensures !HasAlias([RowAt(hostDir, "b", "01")], "a")
  {
  }

  /** Two creates that load the same file: both report success, both pacts are open, and only
      the one that saves last is listed. */
  lemma {:induction false} LostRow(hostDir: string)
    ensures var a, b := CreateOf("a", "00", false), CreateOf("b", "01", false);
      var s := Run(hostDir, [] + [Load(a)] + [Load(b)] + [Go(0)] + [Go(0)] + [Go(0)] + [Go(1)] + [Go(1)] + [Go(1)]);
      && s.calls == [Call(a, Ended(Ready("a"))), Call(b, Ended(Ready("b")))]
      && s.host.rows == [RowAt(hostDir, "b", "01")]
      && s.host.live == map["a" := HandleAt(hostDir, "a", "00"), "b" := HandleAt(hostDir, "b", "01")]
      && !Sound(hostDir, s.host)
  {
    hide PactConfigDir, Next, Run, Sound, HasAlias, RegistryOk, IsHexText;
    var a, b := CreateOf("a", "00", false), CreateOf("b", "01", false);
    var none := File([], None);
    NoEvents(hostDir);
    HexKeys();
    NobodyListed();
    OneRowIsValid(hostDir, "a", "00", None);
    OneRowIsValid(hostDir, "b", "01", None);
    var s0 := State([], FRESH_HOST);
    CreateLoads(hostDir, s0, "a", "00", false);
    var s1 := Next(hostDir, s0, Load(a));
    CreateLoads(hostDir, s1, "b", "01", false);
    var s2 := Next(hostDir, s1, Load(b));
    CreateMakes(hostDir, s2, 0, none, "a", "00", false);
    var s3 := Next(hostDir, s2, Go(0));
    assert [] + [RowAt(hostDir, "a", "00")] == [RowAt(hostDir, "a", "00")];
    assert [] + [RowAt(hostDir, "b", "01")] == [RowAt(hostDir, "b", "01")];
    CallSaves(hostDir, s3, 0, a, s3.calls[0].phase.file, s3.calls[0].phase.rest);
    var s4 := Next(hostDir, s3, Go(0));
    CreateEnds(hostDir, s4, 0, a, "a", HandleAt(hostDir, "a", "00"), false);
    var s5 := Next(hostDir, s4, Go(0));
    CreateMakes(hostDir, s5, 1, none, "b", "01", false);
    var s6 := Next(hostDir, s5, Go(1));
    CallSaves(hostDir, s6, 1, b, s6.calls[1].phase.file, s6.calls[1].phase.rest);
    var s7 := Next(hostDir, s6, Go(1));
    CreateEnds(hostDir, s7, 1, b, "b", HandleAt(hostDir, "b", "01"), false);
    var s8 := Next(hostDir, s7, Go(1));
    StepTo(hostDir, [], Load(a), s0, s1);
    StepTo(hostDir, [] + [Load(a)], Load(b), s1, s2);
    StepTo(hostDir, [] + [Load(a)] + [Load(b)], Go(0), s2, s3);
    StepTo(hostDir, [] + [Load(a)] + [Load(b)] + [Go(0)], Go(0), s3, s4);
    StepTo(hostDir, [] + [Load(a)] + [Load(b)] + [Go(0)] + [Go(0)], Go(0), s4, s5);
    var five := [] + [Load(a)] + [Load(b)] + [Go(0)] + [Go(0)] + [Go(0)];
    StepTo(hostDir, five, Go(1), s5, s6);
    StepTo(hostDir, five + [Go(1)], Go(1), s6, s7);
    StepTo(hostDir, five + [Go(1)] + [Go(1)], Go(1), s7, s8);
    OnlyOneListed(hostDir);
    OpenButUnlisted(hostDir, s8.host, "a");
  }

  // ── Nobody in another's window ───────────────────────────────────────────────

  lemma {:induction false} StaysApart(hostDir: string, events: seq<Event>, e: Event, t: State)
    requires !Overlaps(hostDir, events) && Run(hostDir, events + [e]) == t && |Window(t.calls)| <= 1
    ensures !Overlaps(hostDir, events + [e])
  {
    hide Run, Overlaps, Window;
    OverlapsNext(hostDir, events, e);
  }

  lemma OneInWindow(calls: seq<Call>)
    requires |calls| <= 2 && !(|calls| == 2 && InWindow(calls[0]) && InWindow(calls[1]))
    ensures |Window(calls)| <= 1
  {
    var w := Window(calls);
    if |calls| == 2 && !InWindow(calls[0]) {
      assert w <= {1};
      SubsetSize(w, {1});
    } else {
      assert w <= {0};
      SubsetSize(w, {0});
    }
  }

  /** One more step of a run of two calls, of which at most one is in its window. */
  lemma {:induction false} ApartTo(hostDir: string, events: seq<Event>, e: Event, s: State, t: State)
    requires Run(hostDir, events) == s && Next(hostDir, s, e) == t && !Overlaps(hostDir, events)
    requires |t.calls| <= 2 && !(|t.calls| == 2 && InWindow(t.calls[0]) && InWindow(t.calls[1]))
    ensures Run(hostDir, events + [e]) == t && !Overlaps(hostDir, events + [e])
  {
    hide Run, Next, Overlaps, Window;
    StepTo(hostDir, events, e, s, t);
    OneInWindow(t.calls);
    StaysApart(hostDir, events, e, t);
  }

  lemma SavedIsOutside(c: Call)
    requires c.phase.Saved? || c.phase.Ended?
    ensures !InWindow(c)
  {
  }

  lemma OthersListed(hostDir: string)
    ensures !HasAlias([RowAt(hostDir, "a", "00")], "b")
  {
  }

  /** The first save is not the end of a call: two creates that make themselves current, and end
      in the other order, leave the daemon with a current alias that is not the file's, although
      no two calls were in their windows at once. */
  lemma {:induction false} CurrentAliasLags(hostDir: string)
    ensures var a, b := CreateOf("a", "00", true), CreateOf("b", "01", true);
      var events := [] + [Load(a)] + [Go(0)] + [Go(0)] + [Load(b)] + [Go(1)] + [Go(1)] + [Go(1)] + [Go(0)];
      var s := Run(hostDir, events);
      && s.calls == [Call(a, Ended(Ready("a"))), Call(b, Ended(Ready("b")))]
      && s.host.rows == [RowAt(hostDir, "a", "00"), RowAt(hostDir, "b", "01")]
      && s.host.current == Some("b") && s.host.memory == Some("a")
      && !Sound(hostDir, s.host) && !Overlaps(hostDir, events)
  {
    hide PactConfigDir, Next, Run, HasAlias, RegistryOk, IsHexText, Overlaps, InWindow;
    var a, b := CreateOf("a", "00", true), CreateOf("b", "01", true);
    var ra, rb := RowAt(hostDir, "a", "00"), RowAt(hostDir, "b", "01");
    NoEvents(hostDir);
    HexKeys();
    NobodyListed();
    OneRowIsValid(hostDir, "a", "00", Some("a"));
    TwoRowsAreValid(hostDir, "a", "b", "00", "01");
    OthersListed(hostDir);
    var s0 := State([], FRESH_HOST);
    CreateLoads(hostDir, s0, "a", "00", true);
    var s1 := Next(hostDir, s0, Load(a));
    CreateMakes(hostDir, s1, 0, File([], None), "a", "00", true);
    var s2 := Next(hostDir, s1, Go(0));
    assert [] + [ra] == [ra] && [ra] + [rb] == [ra, rb];
    CallSaves(hostDir, s2, 0, a, s2.calls[0].phase.file, s2.calls[0].phase.rest);
    var s3 := Next(hostDir, s2, Go(0));
    CreateLoads(hostDir, s3, "b", "01", true);
    var s4 := Next(hostDir, s3, Load(b));
    CreateMakes(hostDir, s4, 1, File([ra], Some("a")), "b", "01", true);
    var s5 := Next(hostDir, s4, Go(1));
    CallSaves(hostDir, s5, 1, b, s5.calls[1].phase.file, s5.calls[1].phase.rest);
    var s6 := Next(hostDir, s5, Go(1));
    CreateEnds(hostDir, s6, 1, b, "b", HandleAt(hostDir, "b", "01"), true);
    var s7 := Next(hostDir, s6, Go(1));
    CreateEnds(hostDir, s7, 0, a, "a", HandleAt(hostDir, "a", "00"), true);
    var s8 := Next(hostDir, s7, Go(0));
    SavedIsOutside(s3.calls[0]);
    SavedIsOutside(s8.calls[0]);
    SavedIsOutside(s8.calls[1]);
    ApartTo(hostDir, [], Load(a), s0, s1);
    ApartTo(hostDir, [] + [Load(a)], Go(0), s1, s2);
    ApartTo(hostDir, [] + [Load(a)] + [Go(0)], Go(0), s2, s3);
    var three := [] + [Load(a)] + [Go(0)] + [Go(0)];
    ApartTo(hostDir, three, Load(b), s3, s4);
    ApartTo(hostDir, three + [Load(b)], Go(1), s4, s5);
    ApartTo(hostDir, three + [Load(b)] + [Go(1)], Go(1), s5, s6);
    var six := three + [Load(b)] + [Go(1)] + [Go(1)];
    ApartTo(hostDir, six, Go(1), s6, s7);
    ApartTo(hostDir, six + [Go(1)], Go(0), s7, s8);
  }

  // ── A removal before the end of a create ─────────────────────────────────────

  /** A removal of the only pact listed, not open when the removal loads the file. */
  lemma RemoveLoads(hostDir: string, s: State, alias: string, key: string)
    requires s.host.rows == [RowAt(hostDir, alias, key)] && s.host.current.None? && alias !in s.host.live
    ensures Next(hostDir, s, Load(Remove(alias))) ==
            State(s.calls + [Call(Remove(alias), Saving(File([], None), DeleteDir(PactConfigDir(hostDir, alias))))],
                  s.host)
  {
    hide PactConfigDir;
    var rows := s.host.rows;
    assert IndexOf(rows, alias) == 0;
    assert rows[..0] + rows[1..] == [];
  }

  lemma RemoveEnds(hostDir: string, s: State, i: nat, op: Op, dir: string)
    requires i < |s.calls| && s.calls[i] == Call(op, Saved(DeleteDir(dir)))
    ensures Next(hostDir, s, Go(i)) ==
            State(s.calls[i := Call(op, Ended(Finished))], s.host.(disk := s.host.disk - {dir}))
  {
  }

  /** A removal that loads after a create has saved, but before it has put the pact in memory,
      leaves the pact open and unlisted, although no two calls were in their windows at once. */
  lemma {:induction false} RemovedWhileOpening(hostDir: string)
    ensures var a := CreateOf("a", "00", false);
      var events := [] + [Load(a)] + [Go(0)] + [Go(0)] + [Load(Remove("a"))] + [Go(1)] + [Go(1)] + [Go(0)];
      var s := Run(hostDir, events);
      && s.calls == [Call(a, Ended(Ready("a"))), Call(Remove("a"), Ended(Finished))]
      && s.host == Host([], None, None, map["a" := HandleAt(hostDir, "a", "00")], map[])
      && !Sound(hostDir, s.host) && !Overlaps(hostDir, events)
  {
    hide PactConfigDir, Next, Run, Sound, HasAlias, RegistryOk, IsHexText, Overlaps, InWindow;
    var a, r := CreateOf("a", "00", false), Remove("a");
    var dir := PactConfigDir(hostDir, "a");
    NoEvents(hostDir);
    HexKeys();
    NobodyListed();
    OneRowIsValid(hostDir, "a", "00", None);
    NoRowIsValid(None);
    var s0 := State([], FRESH_HOST);
    CreateLoads(hostDir, s0, "a", "00", false);
    var s1 := Next(hostDir, s0, Load(a));
    CreateMakes(hostDir, s1, 0, File([], None), "a", "00", false);
    var s2 := Next(hostDir, s1, Go(0));
    assert [] + [RowAt(hostDir, "a", "00")] == [RowAt(hostDir, "a", "00")];
    CallSaves(hostDir, s2, 0, a, s2.calls[0].phase.file, s2.calls[0].phase.rest);
    var s3 := Next(hostDir, s2, Go(0));
    RemoveLoads(hostDir, s3, "a", "00");
    var s4 := Next(hostDir, s3, Load(r));
    CallSaves(hostDir, s4, 1, r, File([], None), DeleteDir(dir));
    var s5 := Next(hostDir, s4, Go(1));
    RemoveEnds(hostDir, s5, 1, r, dir);
    var s6 := Next(hostDir, s5, Go(1));
    CreateEnds(hostDir, s6, 0, a, "a", HandleAt(hostDir, "a", "00"), false);
    var s7 := Next(hostDir, s6, Go(0));
    assert s7.host.disk == map[];
    SavedIsOutside(s3.calls[0]);
    SavedIsOutside(s7.calls[0]);
    ApartTo(hostDir, [], Load(a), s0, s1);
    ApartTo(hostDir, [] + [Load(a)], Go(0), s1, s2);
    ApartTo(hostDir, [] + [Load(a)] + [Go(0)], Go(0), s2, s3);
    var three := [] + [Load(a)] + [Go(0)] + [Go(0)];
    ApartTo(hostDir, three, Load(r), s3, s4);
    ApartTo(hostDir, three + [Load(r)], Go(1), s4, s5);
    ApartTo(hostDir, three + [Load(r)] + [Go(1)], Go(1), s5, s6);
    ApartTo(hostDir, three + [Load(r)] + [Go(1)] + [Go(1)], Go(0), s6, s7);
    OpenButUnlisted(hostDir, s7.host, "a");
  }
}
