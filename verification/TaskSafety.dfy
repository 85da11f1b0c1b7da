/** What the task reducer guarantees over whole histories. The updates of a history are
    `us`, in id order; `At(c, s, us, i)` is the state before update `i`. */
module TaskSafety {
  import opened Results
  import opened Entries
  import opened Tasks
  import opened Lexicographic
  import ReverseIndex
  import Store
  import Views

  function At(c: Clock, s: TaskState, us: seq<TaskEntry>, i: nat): TaskState
    requires i <= |us|
  {
    Fold(c, s, us[..i])
  }

  lemma AtStep(c: Clock, s: TaskState, us: seq<TaskEntry>, i: nat)
    requires i < |us|
    ensures At(c, s, us, i + 1) == ApplyTaskUpdate(c, At(c, s, us, i), us[i])
  {
    hide ApplyTaskUpdate;
    assert us[..i + 1] == us[..i] + [us[i]];
    FoldAppend(c, s, us[..i], us[i]);
  }

  // ── Acceptance, as the lifecycle describes it ────────────────────────────────

  /** Only the assignee may claim an assigned task. */
  predicate MayClaim(s: TaskState, agent: string) {
    s.assignedTo.None? || s.assignedTo.value == "" || agent == s.assignedTo.value
  }

  /** The claim has run out by the time stamped on `u`. */
  predicate RunOut(c: Clock, s: TaskState, u: TaskEntry) {
    && s.status == Claimed && s.claimedAt.Some?
    && c.parse(s.claimedAt.value).Some? && c.parse(u.timestamp).Some?
    && c.parse(u.timestamp).value - c.parse(s.claimedAt.value).value > c.ttlMs
  }

  predicate ClaimAccepted(c: Clock, s: TaskState, u: TaskEntry) {
    u.payload.status == Claimed && (s.status == Open || RunOut(c, s, u)) && MayClaim(s, u.agentId)
  }

  predicate CompletionAccepted(c: Clock, s: TaskState, u: TaskEntry) {
    u.payload.status == Complete &&
    (s.status == Open || RunOut(c, s, u) || (s.status == Claimed && s.claimedBy == Some(u.agentId)))
  }

  predicate ReleaseAccepted(c: Clock, s: TaskState, u: TaskEntry) {
    u.payload.status == Open && s.status == Claimed && !RunOut(c, s, u) && s.claimedBy == Some(u.agentId)
  }

  /** An update does what it was accepted for and nothing else; an update that was not accepted does nothing. */
  lemma Transitions(c: Clock, s: TaskState, u: TaskEntry)
    ensures var t := ApplyTaskUpdate(c, s, u);
      && (ClaimAccepted(c, s, u) ==>
          t == s.(status := Claimed, claimedBy := Some(u.agentId), claimedAt := Some(u.timestamp)))
      && (CompletionAccepted(c, s, u) ==>
            t == s.(status := Complete, result := u.payload.result, claimedBy := if RunOut(c, s, u) then None
                    else s.claimedBy))
      && (ReleaseAccepted(c, s, u) ==> t == s.(status := Open, claimedBy := None, claimedAt := None))
      && (!ClaimAccepted(c, s, u) && !CompletionAccepted(c, s, u) && !ReleaseAccepted(c, s, u) ==> t == s)
  {
  }

  // ── Claims ───────────────────────────────────────────────────────────────────

  ghost predicate ClaimAt(c: Clock, s: TaskState, us: seq<TaskEntry>, i: int) {
    0 <= i < |us| && ClaimAccepted(c, At(c, s, us, i), us[i])
  }

  ghost predicate ReleaseAt(c: Clock, s: TaskState, us: seq<TaskEntry>, i: int) {
    0 <= i < |us| && ReleaseAccepted(c, At(c, s, us, i), us[i])
  }

  ghost predicate CompletionAt(c: Clock, s: TaskState, us: seq<TaskEntry>, i: int) {
    0 <= i < |us| && CompletionAccepted(c, At(c, s, us, i), us[i])
  }

  /** After an accepted claim the task stays with its claimer until the next accepted
      claim, or a release, which only the claimer makes, or completion. */
  lemma {:induction false} ClaimHolds(c: Clock, s: TaskState, us: seq<TaskEntry>, i: nat, m: nat)
    requires ClaimAt(c, s, us, i) && i < m <= |us|
    requires forall k | i < k < m ::
        !ClaimAt(c, s, us, k) && !(ReleaseAt(c, s, us, k) && us[k].agentId == us[i].agentId)
    ensures var t := At(c, s, us, m);
      t.status == Complete ||
          (t.status == Claimed && t.claimedBy == Some(us[i].agentId) && t.claimedAt == Some(us[i].timestamp))
  {
    hide ApplyTaskUpdate, At;
    AtStep(c, s, us, m - 1);
    Transitions(c, At(c, s, us, m - 1), us[m - 1]);
    if m - 1 > i {
      ClaimHolds(c, s, us, i, m - 1);
      assert !ClaimAt(c, s, us, m - 1);
    }
  }

  /** Between two consecutive accepted claims the first claimer released the task, or
      more than the TTL passed between their timestamps. */
  lemma ClaimExclusion(c: Clock, s: TaskState, us: seq<TaskEntry>, i: nat, j: nat)
    requires ClaimAt(c, s, us, i) && ClaimAt(c, s, us, j) && i < j
    requires forall k | i < k < j :: !ClaimAt(c, s, us, k)
    ensures || (exists k | i < k < j :: ReleaseAt(c, s, us, k) && us[k].agentId == us[i].agentId)
            || Beyond(c, us[i].timestamp, us[j].timestamp)
  {
    hide ApplyTaskUpdate, At;
    if !exists k | i < k < j :: ReleaseAt(c, s, us, k) && us[k].agentId == us[i].agentId {
      ClaimHolds(c, s, us, i, j);
    }
  }

  /** A completion after an accepted claim is the claimer's own, unless the claimer
      released the task first or the claim had run out. */
  lemma CompletionBelongsToClaimer(c: Clock, s: TaskState, us: seq<TaskEntry>, i: nat, j: nat)
    requires ClaimAt(c, s, us, i) && CompletionAt(c, s, us, j) && i < j
    requires forall k | i < k < j :: !ClaimAt(c, s, us, k)
    ensures || us[j].agentId == us[i].agentId
            || (exists k | i < k < j :: ReleaseAt(c, s, us, k) && us[k].agentId == us[i].agentId)
            || Beyond(c, us[i].timestamp, us[j].timestamp)
  {
    hide ApplyTaskUpdate, At;
    if !exists k | i < k < j :: ReleaseAt(c, s, us, k) && us[k].agentId == us[i].agentId {
      ClaimHolds(c, s, us, i, j);
    }
  }

  lemma {:induction false} NobodyMayClaim(c: Clock, s: TaskState, us: seq<TaskEntry>)
    requires s.status == Open
    requires forall k | 0 <= k < |us| :: us[k].payload.status == Claimed && !MayClaim(s, us[k].agentId)
    ensures Fold(c, s, us) == s
  {
    if us == [] {
    } else {
      NobodyMayClaim(c, s, us[..|us| - 1]);
    }
  }

  /** Racing claims on an open task: the permitted one with the earliest id wins, if no
      later claim is stamped more than the TTL after it. */
  lemma {:induction false} EarliestClaimWins(c: Clock, s: TaskState, us: seq<TaskEntry>, i: nat)
    requires s.status == Open && i < |us|
    requires forall k | 0 <= k < |us| :: us[k].payload.status == Claimed
    requires MayClaim(s, us[i].agentId) && forall k | 0 <= k < i :: !MayClaim(s, us[k].agentId)
    requires forall k | i < k < |us| :: !Beyond(c, us[i].timestamp, us[k].timestamp)
    ensures Fold(c, s, us) ==
            s.(status := Claimed, claimedBy := Some(us[i].agentId), claimedAt := Some(us[i].timestamp))
  {
    hide ApplyTaskUpdate;
    var n := |us| - 1;
    if i < n {
      EarliestClaimWins(c, s, us[..n], i);
    } else {
      NobodyMayClaim(c, s, us[..n]);
    }
    Transitions(c, Fold(c, s, us[..n]), us[n]);
  }

  // ── Invariants ───────────────────────────────────────────────────────────────

  /** A create entry that is open and unclaimed, as the daemon writes it. */
  predicate Fresh(s: TaskState) { s.status == Open && s.claimedBy.None? && s.claimedAt.None? }

  predicate Assigned(s: TaskState) { s.assignedTo.Some? && s.assignedTo.value != "" }

  /** A claimed task has a claimer, an open one has none, and only the assignee ever
      claims an assigned one. */
  predicate Sound(s: TaskState) {
    && (s.status == Claimed ==> s.claimedBy.Some?)
    && (s.status == Open ==> s.claimedBy.None?)
    && (Assigned(s) ==> s.claimedBy.None? || s.claimedBy == s.assignedTo)
  }

  lemma {:induction false} UpdatesKeepSound(c: Clock, s: TaskState, us: seq<TaskEntry>)
    requires Sound(s)
    ensures Sound(Fold(c, s, us)) && Fold(c, s, us).assignedTo == s.assignedTo
    ensures Fresh(s) && Fold(c, s, us).status == Claimed ==> Fold(c, s, us).claimedAt.Some?
  {
    if us == [] {
    } else {
      hide ApplyTaskUpdate;
      var n := |us| - 1;
      UpdatesKeepSound(c, s, us[..n]);
      Transitions(c, Fold(c, s, us[..n]), us[n]);
    }
  }

  /** Every history is sound exactly when its create entry is: as it may carry any status
      and any claimer, a claimed task without a claimer can be created. */
  lemma SoundExactlyWhenCreated(c: Clock, s: TaskState)
    ensures (forall us: seq<TaskEntry> :: Sound(Fold(c, s, us))) <==> Sound(s)
    ensures Fresh(s) ==> Sound(s)
  {
    if Sound(s) {
      forall us: seq<TaskEntry> ensures Sound(Fold(c, s, us)) { UpdatesKeepSound(c, s, us); }
    } else {
      assert Fold(c, s, []) == s;
    }
  }

  lemma {:induction false} CompleteIsAbsorbing(c: Clock, s: TaskState, us: seq<TaskEntry>, i: nat)
    requires i <= |us| && At(c, s, us, i).status == Complete
    ensures Fold(c, s, us) == At(c, s, us, i)
  {
    if i == |us| {
      assert us[..i] == us;
    } else {
      hide ApplyTaskUpdate;
      var n := |us| - 1;
      assert us[..n][..i] == us[..i];
      CompleteIsAbsorbing(c, s, us[..n], i);
      Transitions(c, Fold(c, s, us[..n]), us[n]);
    }
  }

  /** The result is the first accepted completion's, whatever comes after. */
  lemma FirstCompletionFixesResult(c: Clock, s: TaskState, us: seq<TaskEntry>, i: nat)
    requires CompletionAt(c, s, us, i)
    ensures Fold(c, s, us).status == Complete && Fold(c, s, us).result == us[i].payload.result
    ensures forall k | i < k < |us| :: !CompletionAt(c, s, us, k) && !ClaimAt(c, s, us, k) && !ReleaseAt(c, s, us, k)
  {
    hide ApplyTaskUpdate, Fold;
    AtStep(c, s, us, i);
    Transitions(c, At(c, s, us, i), us[i]);
    CompleteIsAbsorbing(c, s, us, i + 1);
    forall k | i < k < |us| ensures At(c, s, us, k).status == Complete {
      assert us[..k][..i + 1] == us[..i + 1];
      CompleteIsAbsorbing(c, s, us[..k], i + 1);
    }
  }

  predicate Effective(c: Clock, s: TaskState, u: TaskEntry) {
    ClaimAccepted(c, s, u) || CompletionAccepted(c, s, u) || ReleaseAccepted(c, s, u)
  }

  /** The accepted updates of a history. */
  function Accepted(c: Clock, s: TaskState, us: seq<TaskEntry>): seq<TaskEntry> {
    if us == [] then [] else
      var n := |us| - 1;
      Accepted(c, s, us[..n]) + if Effective(c, Fold(c, s, us[..n]), us[n]) then [us[n]] else []
  }

  lemma NotEffective(c: Clock, s: TaskState, u: TaskEntry)
    requires !Effective(c, s, u)
    ensures ApplyTaskUpdate(c, s, u) == s
  {
    Transitions(c, s, u);
  }

  /** Dropping every update that was not accepted changes nothing. */
  lemma {:induction false} IneffectiveUpdatesDoNotMatter(c: Clock, s: TaskState, us: seq<TaskEntry>)
    ensures Fold(c, s, Accepted(c, s, us)) == Fold(c, s, us)
  {
    if us == [] {
    } else {
      hide ApplyTaskUpdate, Effective;
      var n := |us| - 1;
      IneffectiveUpdatesDoNotMatter(c, s, us[..n]);
      if Effective(c, Fold(c, s, us[..n]), us[n]) {
        FoldAppend(c, s, Accepted(c, s, us[..n]), us[n]);
      } else {
        NotEffective(c, Fold(c, s, us[..n]), us[n]);
        assert Accepted(c, s, us) == Accepted(c, s, us[..n]);
      }
    }
  }

  // ── What is reported and what is accepted ────────────────────────────────────

  lemma {:induction false} SortLast(entries: seq<TaskEntry>, e: TaskEntry)
    requires forall x | x in entries :: Less(x.id, e.id)
    ensures SortById(entries + [e]) == SortById(entries) + [e]
  {
    assert (entries + [e])[..|entries|] == entries;
    var s := SortById(entries);
    if s == [] {
    } else {
      SameMembers(s, entries, s[|s| - 1]);
      Trichotomy(s[|s| - 1].id, e.id);
    }
  }

  lemma {:induction false} OriginalAppend(s: seq<TaskEntry>, e: TaskEntry)
    ensures Original(s + [e]) == if Original(s).Some? then Original(s) else if e.refs == [] then Some(e) else None
  {
    if s == [] {
      assert (s + [e])[1..] == [];
    } else {
      OriginalAppend(s[1..], e);
      assert (s + [e])[1..] == s[1..] + [e];
    }
  }

  lemma StepIgnoresHistory(c: Clock, s: TaskState, u: TaskEntry, latest: string, history: seq<TaskEntry>)
    ensures ApplyTaskUpdate(c, s.(updatedAt := latest, history := history), u) ==
            ApplyTaskUpdate(c, s, u).(updatedAt := latest, history := history)
  {
  }

  /** The transitions never look at the history or at the latest timestamp. */
  lemma {:induction false} FoldIgnoresHistory(c: Clock, s: TaskState, us: seq<TaskEntry>, latest: string,
                                              history: seq<TaskEntry>)
    ensures Fold(c, s.(updatedAt := latest, history := history), us) ==
            Fold(c, s, us).(updatedAt := latest, history := history)
  {
    if us == [] {
    } else {
      hide ApplyTaskUpdate;
      var n := |us| - 1;
      FoldIgnoresHistory(c, s, us[..n], latest, history);
      StepIgnoresHistory(c, Fold(c, s, us[..n]), us[n], latest, history);
    }
  }

  predicate SameTask(a: TaskState, b: TaskState) {
    a.status == b.status && a.claimedBy == b.claimedBy && a.claimedAt == b.claimedAt && a.result == b.result
  }

  /** Sorting and splitting a history with one more update that sorts last. */
  lemma LongerHistory(entries: seq<TaskEntry>, u: TaskEntry)
    requires u.refs != [] && Original(SortById(entries)).Some?
    requires forall x | x in entries :: Less(x.id, u.id)
    ensures var ordered := SortById(entries); var original := Original(ordered);
      && SortById(entries + [u]) == ordered + [u] && Original(ordered + [u]) == original
      && Updates(original.value.id, ordered + [u]) == Updates(original.value.id, ordered) + [u]
  {
    hide SortById, Updates, Less, Original;
    var ordered := SortById(entries);
    SortLast(entries, u);
    OriginalAppend(ordered, u);
    var original := Original(ordered).value;
    SameMembers(ordered, entries, original);
    Trichotomy(original.id, u.id);
    UpdatesStep(original.id, ordered + [u], |ordered|);
    assert (ordered + [u])[..|ordered|] == ordered && (ordered + [u])[..|ordered| + 1] == ordered + [u];
  }

  lemma ApplyIgnoresHistory(c: Clock, s: TaskState, u: TaskEntry, latest: string, history: seq<TaskEntry>)
    ensures SameTask(ApplyTaskUpdate(c, s.(updatedAt := latest, history := history), u), ApplyTaskUpdate(c, s, u))
  {
  }

  /** An update whose id sorts last is applied to the folded state. */
  lemma UpdateSortsLast(c: Clock, entries: seq<TaskEntry>, u: TaskEntry)
    requires Folded(c, entries).Some? && u.refs != []
    requires forall x | x in entries :: Less(x.id, u.id)
    ensures Folded(c, entries + [u]).Some?
    ensures SameTask(Folded(c, entries + [u]).value, ApplyTaskUpdate(c, Folded(c, entries).value, u))
  {
    hide SortById, Fold, Latest, Updates, ApplyTaskUpdate, Original, Less;
    LongerHistory(entries, u);
    var ordered := SortById(entries);
    var original := Original(ordered).value;
    var us := Updates(original.id, ordered);
    var before, after := Created(original, ordered), Created(original, ordered + [u]);
    FoldIgnoresHistory(c, before, us, after.updatedAt, after.history);
    FoldAppend(c, after, us, u);
    ApplyIgnoresHistory(c, Fold(c, before, us), u, after.updatedAt, after.history);
  }

  lemma {:induction false} UpdatesNeverExpire(c: Clock, s: TaskState, us: seq<TaskEntry>)
    ensures Fold(c, s, us).expiredAt == s.expiredAt
  {
    if us == [] {
    } else {
      UpdatesNeverExpire(c, s, us[..|us| - 1]);
    }
  }

  /** An expiry is reported exactly if the folded claim is past its limit at `now`; it names the
      instant of the limit, and the task is then reported open with nobody holding it. */
  lemma ExpiryIsReportedExactlyWhen(c: Clock, entries: seq<TaskEntry>, now: int)
    requires Folded(c, entries).Some?
    ensures var s, r := Folded(c, entries).value, Reported(c, entries, now).value;
      var claimedAt := if s.claimedAt.Some? then c.parse(s.claimedAt.value) else None;
      if s.status == Claimed && claimedAt.Some? && claimedAt.value + c.ttlMs < now
      then r == s.(status := Open, claimedBy := None, expiredAt := Some(c.iso(claimedAt.value + c.ttlMs)))
      else r == s && r.expiredAt.None?
  {
    hide SortById, Original, Updates, Latest, Fold;
    var ordered := SortById(entries);
    var original := Original(ordered).value;
    UpdatesNeverExpire(c, Created(original, ordered), Updates(original.id, ordered));
  }

  /** If a task is reported open at `now`, a permitted claim stamped no earlier that sorts
      last is accepted, and is what is then reported until it runs out in turn. */
  lemma ReportedOpenIsClaimable(c: Clock, entries: seq<TaskEntry>, now: int, claim: TaskEntry, later: int)
    requires Reported(c, entries, now).Some? && Reported(c, entries, now).value.status == Open
    requires claim.payload.status == Claimed && claim.refs != []
    requires MayClaim(Reported(c, entries, now).value, claim.agentId)
    requires c.parse(claim.timestamp).Some? && c.parse(claim.timestamp).value >= now
    requires forall x | x in entries :: Less(x.id, claim.id)
    ensures var r := Reported(c, entries + [claim], later);
      && r.Some?
      && (later - c.parse(claim.timestamp).value <= c.ttlMs ==>
            r.value.status == Claimed && r.value.claimedBy == Some(claim.agentId) &&
                r.value.claimedAt == Some(claim.timestamp))
  {
    hide Folded, ApplyTaskUpdate;
    var s := Folded(c, entries).value;
    UpdateSortsLast(c, entries, claim);
    Transitions(c, s, claim);
    assert ClaimAccepted(c, s, claim);
  }

  /** If a task is reported claimed at `now`, a claim stamped no later that sorts last changes nothing. */
  lemma ReportedClaimedIsNotClaimable(c: Clock, entries: seq<TaskEntry>, now: int, claim: TaskEntry)
    requires Reported(c, entries, now).Some? && Reported(c, entries, now).value.status == Claimed
    requires claim.payload.status == Claimed && claim.refs != []
    requires c.parse(claim.timestamp).Some? ==> c.parse(claim.timestamp).value <= now
    requires forall x | x in entries :: Less(x.id, claim.id)
    ensures Reported(c, entries + [claim], now).Some?
    ensures SameTask(Reported(c, entries + [claim], now).value, Reported(c, entries, now).value)
  {
    hide Folded, ApplyTaskUpdate;
    var s := Folded(c, entries).value;
    UpdateSortsLast(c, entries, claim);
    Transitions(c, s, claim);
    assert !ClaimAccepted(c, s, claim);
  }

  // ── What the create entry fixes ──────────────────────────────────────────────

  /** Of the entries that refer to nothing, the one with the smallest id, the earliest on ties. */
  ghost predicate IsCreate(entries: seq<TaskEntry>, k: int) {
    && 0 <= k < |entries| && entries[k].refs == []
    && forall j | 0 <= j < |entries| && entries[j].refs == [] ::
        AtMost(entries[k].id, entries[j].id) && (j < k ==> Less(entries[k].id, entries[j].id))
  }

  lemma NotBelow(s: seq<TaskEntry>, id: string, above: string)
    requires s != [] && NoneAbove(s[..|s| - 1], s[|s| - 1].id) && !Less(above, s[|s| - 1].id)
    requires exists x | x in s :: x.id == id
    ensures !Less(above, id)
  {
    var n := |s| - 1;
    var x :| x in s && x.id == id;
    assert x in s[..n] || x == s[n];
    if Less(above, id) && x in s[..n] && id != s[n].id { Transitive(above, id, s[n].id); }
  }

  /** Inserting into a sorted history replaces the create entry only by one with a smaller id. */
  lemma {:induction false} OriginalOfInsert(s: seq<TaskEntry>, e: TaskEntry)
    requires SortedById(s)
    ensures Original(Insert(s, e)) ==
            if e.refs == [] && (Original(s).None? || Less(e.id, Original(s).value.id)) then Some(e) else Original(s)
  {
    hide SortedById, Less, Original;
    if s == [] {
      OriginalAppend([], e);
      assert [] + [e] == [e];
    } else {
      var n := |s| - 1;
      SortedInit(s);
      assert s == s[..n] + [s[n]];
      OriginalAppend(s[..n], s[n]);
      if Less(e.id, s[n].id) {
        OriginalOfInsert(s[..n], e);
        OriginalAppend(Insert(s[..n], e), s[n]);
      } else {
        OriginalAppend(s, e);
        if Original(s).Some? { NotBelow(s, Original(s).value.id, e.id); }
      }
    }
  }

  /** What a reduction starts from is the create entry, or there is none. */
  ghost predicate Starts(entries: seq<TaskEntry>, original: Option<TaskEntry>) {
    match original
    case None => forall x | x in entries :: x.refs != []
    case Some(o) => exists k :: IsCreate(entries, k) && entries[k] == o
  }

  lemma StartsNext(before: seq<TaskEntry>, e: TaskEntry, original: Option<TaskEntry>)
    requires Starts(before, original)
    ensures Starts(before + [e], if e.refs == [] && (original.None? || Less(e.id, original.value.id)) then Some(e)
                                 else original)
  {
    hide Less;
    var all, n := before + [e], |before|;
    assert all[n] == e && forall j | 0 <= j < n :: all[j] == before[j] && before[j] in before;
    if original.Some? {
      var k :| IsCreate(before, k) && before[k] == original.value;
      Trichotomy(e.id, before[k].id);
      if e.refs == [] && Less(e.id, before[k].id) {
        forall j | 0 <= j < n && all[j].refs == [] ensures Less(e.id, all[j].id) {
          if before[j].id != before[k].id { Transitive(e.id, before[k].id, before[j].id); }
        }
        assert IsCreate(all, n);
      } else {
        assert IsCreate(all, k);
      }
    } else if e.refs == [] {
      Trichotomy(e.id, e.id);
      assert IsCreate(all, n);
    }
  }

  lemma SortNext(before: seq<TaskEntry>, e: TaskEntry)
    ensures SortById(before + [e]) == Insert(SortById(before), e)
  {
    hide Insert;
    assert (before + [e])[..|before|] == before;
  }

  /** The entry a reduction starts from is the create entry of the history as it arrived. */
  lemma {:induction false} OriginalIsCreate(entries: seq<TaskEntry>)
    ensures Starts(entries, Original(SortById(entries)))
  {
    if entries == [] {
    } else {
      hide Original, Less, IsCreate, SortById, Insert, Starts, SortedById;
      var n := |entries| - 1;
      var before, e := entries[..n], entries[n];
      assert entries == before + [e];
      OriginalIsCreate(before);
      SortSorts(before);
      SortNext(before, e);
      OriginalOfInsert(SortById(before), e);
      StartsNext(before, e, Original(SortById(before)));
    }
  }

  lemma OneCreate(entries: seq<TaskEntry>, j: int, k: int)
    requires IsCreate(entries, j) && IsCreate(entries, k)
    ensures j == k
  {
    Trichotomy(entries[j].id, entries[k].id);
  }

  lemma StartsFromCreate(c: Clock, entries: seq<TaskEntry>, k: nat)
    requires IsCreate(entries, k)
    ensures Original(SortById(entries)) == Some(entries[k])
  {
    hide Original, SortById;
    OriginalIsCreate(entries);
    assert entries[k] in entries;
    var o := Original(SortById(entries)).value;
    var j :| IsCreate(entries, j) && entries[j] == o;
    OneCreate(entries, j, k);
  }

  lemma {:induction false} FoldKeepsIdentity(c: Clock, s: TaskState, us: seq<TaskEntry>)
    ensures var t := Fold(c, s, us);
      t == s.(status := t.status, claimedBy := t.claimedBy, claimedAt := t.claimedAt, result := t.result)
  {
    if us == [] {
    } else {
      FoldKeepsIdentity(c, s, us[..|us| - 1]);
    }
  }

  /** A state is reported exactly for histories with an entry that refers to nothing. Whatever was
      added to it, it has the id, the title, the description, the assignee and the time of the
      first such entry in id order; its history is all of the entries, in id order; and its update
      time is the greatest of theirs. */
  lemma CreateEntryIsReported(c: Clock, entries: seq<TaskEntry>, now: int)
    ensures Reported(c, entries, now).Some? <==> exists x | x in entries :: x.refs == []
    ensures forall k | IsCreate(entries, k) && 0 <= k < |entries| && Reported(c, entries, now).Some? ::
      var e, r := entries[k], Reported(c, entries, now).value;
      && r.id == e.id && r.timestamp == e.timestamp
      && r.title == e.payload.title && r.description == e.payload.description
      && r.assignedTo == e.payload.assignedTo
    ensures Reported(c, entries, now).Some? ==>
      var r := Reported(c, entries, now).value;
      && (exists k :: IsCreate(entries, k))
      && multiset(r.history) == multiset(entries) && SortedById(r.history)
      && (forall x | x in entries :: AtMost(x.timestamp, r.updatedAt))
      && (exists x | x in entries :: x.timestamp == r.updatedAt)
  {
    hide Original, SortById, Fold, Latest, Updates, Less, IsCreate, SortedById;
    OriginalIsCreate(entries);
    var ordered := SortById(entries);
    SortSorts(entries);
    if Original(ordered).Some? {
      var o := Original(ordered).value;
      FoldKeepsIdentity(c, Created(o, ordered), Updates(o.id, ordered));
      LatestIsGreatest(o.timestamp, ordered);
      forall x ensures x in entries <==> x in ordered { SameMembers(entries, ordered, x); }
      forall k | IsCreate(entries, k) && 0 <= k < |entries| ensures entries[k] == o { StartsFromCreate(c, entries, k); }
    }
  }

  lemma NoUpdates(id: string, ordered: seq<TaskEntry>)
    requires forall x | x in ordered :: x.id == id
    ensures Updates(id, ordered) == []
  {
    var us := Updates(id, ordered);
    if us != [] { HasMember(us); }
  }

  /** A task nobody has updated is reported as its create entry says. */
  lemma UntouchedIsAsCreated(c: Clock, entries: seq<TaskEntry>, k: nat, now: int)
    requires IsCreate(entries, k) && forall x | x in entries :: x.id == entries[k].id
    ensures Reported(c, entries, now).Some?
    ensures var r, p := Reported(c, entries, now).value, entries[k].payload;
      && r.status == p.status && r.claimedBy == p.claimedBy && r.result == p.result
      && r.claimedAt.None? && r.expiredAt.None?
  {
    hide Original, SortById, Latest, Updates, Less;
    StartsFromCreate(c, entries, k);
    var ordered := SortById(entries);
    forall x | x in ordered ensures x.id == entries[k].id { SameMembers(entries, ordered, x); }
    NoUpdates(entries[k].id, ordered);
  }

  /** A task created open, unclaimed and for someone is only ever held by that one, whoever else
      claims it and whatever else is in the history. */
  lemma OnlyAssigneeHolds(c: Clock, entries: seq<TaskEntry>, k: nat, assignee: string, now: int)
    requires IsCreate(entries, k) && assignee != ""
    requires entries[k].payload.status == Open && entries[k].payload.claimedBy.None?
    requires entries[k].payload.assignedTo == Some(assignee)
    ensures Reported(c, entries, now).Some?
    ensures Reported(c, entries, now).value.claimedBy in {None, Some(assignee)}
    ensures Reported(c, entries, now).value.status == Claimed ==>
              Reported(c, entries, now).value.claimedBy == Some(assignee)
  {
    hide Original, SortById, Latest, Updates, Fold, Less;
    StartsFromCreate(c, entries, k);
    var ordered := SortById(entries);
    UpdatesKeepSound(c, Created(entries[k], ordered), Updates(entries[k].id, ordered));
  }

  // ── Replicas ─────────────────────────────────────────────────────────────────

  lemma {:induction false} HistoriesAreTasks(derive: string -> string, nodes: seq<Node>, rows: Store.Rows,
                                             taskId: string)
    requires ReverseIndex.Reached(derive, nodes, rows)
    ensures forall p | p in Views.RefsIn(rows, Task, taskId) :: IsTask(p)
  {
    hide ReverseIndex.Reached, Views.RefsIn, Views.InHistory;
    forall p | p in Views.RefsIn(rows, Task, taskId) ensures IsTask(p) {
      ReverseIndex.FoundRefs(derive, nodes, rows, Task, taskId, p);
    }
  }

  /** Two replicas that have linearised the same nodes report the same task at the same clock. */
  lemma {:induction false} ReplicasReportTheSame(derive: string -> string, a: seq<Node>, b: seq<Node>, ra: Store.Rows,
                                                 rb: Store.Rows,
                              c: Clock, taskId: string, now: int)
    requires multiset(a) == multiset(b) && ReverseIndex.Reached(derive, a, ra) && ReverseIndex.Reached(derive, b, rb)
    ensures forall p | p in Views.RefsIn(ra, Task, taskId) :: IsTask(p)
    ensures forall p | p in Views.RefsIn(rb, Task, taskId) :: IsTask(p)
    ensures Reported(c, AsTasks(Views.RefsIn(ra, Task, taskId)), now) ==
            Reported(c, AsTasks(Views.RefsIn(rb, Task, taskId)), now)
  {
    HistoriesAreTasks(derive, a, ra, taskId);
    HistoriesAreTasks(derive, b, rb, taskId);
    ReverseIndex.ReplicasFindTheSame(derive, a, b, ra, rb, Task, taskId);
  }

  lemma {:induction false} NoOriginal(ordered: seq<TaskEntry>)
    ensures Original(ordered).None? ==> forall e | e in ordered :: e.refs != []
  {
    if ordered == [] {
    } else {
      NoOriginal(ordered[1..]);
      assert ordered == [ordered[0]] + ordered[1..];
    }
  }

  /** The create entry of a looked-up history is the entry with the task's own id. */
  lemma OriginalIsTheTask(entries: seq<TaskEntry>, taskId: string)
    requires forall e | e in entries :: e.id == taskId || taskId in e.refs
    ensures match Original(SortById(entries))
            case Some(e) => e.id == taskId && e.refs == []
            case None => forall e | e in entries :: e.refs != []
  {
    var ordered := SortById(entries);
    NoOriginal(ordered);
    forall e ensures e in ordered <==> e in entries { SameMembers(ordered, entries, e); }
  }
}
