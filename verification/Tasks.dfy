/** A task's state, reduced from its history: sort by entry id, fold the claim, release
    and complete transitions, then check the claim against the observer's clock. */
module Tasks {
  import opened Results
  import opened Entries
  import opened Lexicographic
  import Store
  import Views

  datatype TaskEntry =
    | TaskEntry(id: string, timestamp: string, agentId: string, refs: seq<string>, payload: TaskPayload)

  datatype TaskState = TaskState(
    id: string,
    title: string,
    description: Option<string>,
    status: Status,
    claimedBy: Option<string>,
    assignedTo: Option<string>,
    result: Option<string>,
    timestamp: string,
    updatedAt: string,
    claimedAt: Option<string>,
    expiredAt: Option<string>,
    history: seq<TaskEntry>)

  /** `parse` is `Date.parse`, `None` for NaN; `iso` prints milliseconds as a timestamp. */
  datatype Clock = Clock(parse: string -> Option<int>, iso: int -> string, ttlMs: int)

  // ── Order ────────────────────────────────────────────────────────────────────

  predicate SortedById(s: seq<TaskEntry>) {
    forall i, j | 0 <= i < j < |s| :: AtMost(s[i].id, s[j].id)
  }

  /** No id occurs twice among the entries. */
  ghost predicate DistinctIds(m: multiset<TaskEntry>) {
    && (forall x | x in m :: m[x] == 1)
    && (forall x, y | x in m && y in m && x.id == y.id :: x == y)
  }

  /** Inserts after every entry whose id is not greater, as a stable sort does. */
  function Insert(s: seq<TaskEntry>, e: TaskEntry): (r: seq<TaskEntry>)
    ensures multiset(r) == multiset(s) + multiset{e}
  {
    if s == [] then [e]
    else
      var n := |s| - 1;
      assert s == s[..n] + [s[n]];
      if Less(e.id, s[n].id) then Insert(s[..n], e) + [s[n]] else s + [e]
  }

  function SortById(s: seq<TaskEntry>): (r: seq<TaskEntry>)
    ensures multiset(r) == multiset(s)
  {
    if s == [] then [] else
      var n := |s| - 1;
      assert s == s[..n] + [s[n]];
      Insert(SortById(s[..n]), s[n])
  }

  lemma InMultiset<T>(s: seq<T>, x: T)
    ensures x in s <==> x in multiset(s)
  {
  }

  ghost predicate NoneAbove(s: seq<TaskEntry>, id: string) { forall x | x in s :: AtMost(x.id, id) }

  lemma SortedAppend(s: seq<TaskEntry>, e: TaskEntry)
    requires SortedById(s) && NoneAbove(s, e.id)
    ensures SortedById(s + [e])
  {
    forall i | 0 <= i < |s| ensures AtMost(s[i].id, e.id) { assert s[i] in s; }
  }

  lemma SortedInit(s: seq<TaskEntry>)
    requires SortedById(s) && s != []
    ensures SortedById(s[..|s| - 1]) && NoneAbove(s, s[|s| - 1].id)
  {
  }

  lemma NoneAboveLonger(s: seq<TaskEntry>, a: string, b: string)
    requires NoneAbove(s, a) && AtMost(a, b)
    ensures NoneAbove(s, b)
  {
    forall x | x in s ensures AtMost(x.id, b) {
      if x.id != a && a != b { Transitive(x.id, a, b); }
    }
  }

  lemma InsertNoneAbove(s: seq<TaskEntry>, e: TaskEntry, id: string)
    requires NoneAbove(s, id) && AtMost(e.id, id)
    ensures NoneAbove(Insert(s, e), id)
  {
    hide AtMost;
    forall x | x in Insert(s, e) ensures AtMost(x.id, id) {
      InMultiset(Insert(s, e), x);
      InMultiset(s, x);
    }
  }

  lemma NoneAboveInit(s: seq<TaskEntry>, id: string)
    requires NoneAbove(s, id) && s != []
    ensures NoneAbove(s[..|s| - 1], id)
  {
  }

  lemma SingleIsSorted(e: TaskEntry)
    ensures SortedById([e])
  {
  }

  lemma {:induction false} InsertSorts(s: seq<TaskEntry>, e: TaskEntry)
    requires SortedById(s)
    ensures SortedById(Insert(s, e))
  {
    hide SortedById, NoneAbove, Less;
    if s != [] {
      var n := |s| - 1;
      SortedInit(s);
      Trichotomy(e.id, s[n].id);
      if Less(e.id, s[n].id) {
        InsertSorts(s[..n], e);
        NoneAboveInit(s, s[n].id);
        InsertNoneAbove(s[..n], e, s[n].id);
        SortedAppend(Insert(s[..n], e), s[n]);
      } else {
        NoneAboveLonger(s, s[n].id, e.id);
        SortedAppend(s, e);
      }
    } else {
      SingleIsSorted(e);
    }
  }

  lemma {:induction false} SortSorts(s: seq<TaskEntry>)
    ensures SortedById(SortById(s))
  {
    if s == [] {
    } else {
      SortSorts(s[..|s| - 1]);
      InsertSorts(SortById(s[..|s| - 1]), s[|s| - 1]);
    }
  }

  lemma SameLength<T>(a: seq<T>, b: seq<T>)
    requires multiset(a) == multiset(b)
    ensures |a| == |b|
  {
    assert |multiset(a)| == |a| && |multiset(b)| == |b|;
  }

  lemma SameMembers<T>(a: seq<T>, b: seq<T>, x: T)
    requires multiset(a) == multiset(b)
    ensures x in a <==> x in b
  {
    InMultiset(a, x);
    InMultiset(b, x);
  }

  lemma TailOf(a: seq<TaskEntry>)
    requires a != []
    ensures multiset(a[1..]) == multiset(a) - multiset{a[0]}
    ensures SortedById(a) ==> SortedById(a[1..])
    ensures DistinctIds(multiset(a)) ==> DistinctIds(multiset(a[1..]))
  {
    assert a == [a[0]] + a[1..];
    assert multiset(a) == multiset{a[0]} + multiset(a[1..]);
  }

  lemma SameFirst(a: seq<TaskEntry>, b: seq<TaskEntry>)
    requires SortedById(a) && SortedById(b) && a != [] && b != [] && a[0] in b && b[0] in a
    requires DistinctIds(multiset(a))
    ensures a[0] == b[0]
  {
    var i :| 0 <= i < |b| && b[i] == a[0];
    var j :| 0 <= j < |a| && a[j] == b[0];
    Trichotomy(a[0].id, b[0].id);
    InMultiset(a, a[0]);
    InMultiset(a, b[0]);
  }

  /** Sequences in id order with the same entries, no id twice, are the same sequence. */
  lemma {:induction false} SortedUnique(a: seq<TaskEntry>, b: seq<TaskEntry>)
    requires SortedById(a) && SortedById(b) && multiset(a) == multiset(b) && DistinctIds(multiset(a))
    ensures a == b
  {
    hide SortedById, DistinctIds;
    SameLength(a, b);
    if a == [] {
    } else {
      SameMembers(a, b, a[0]);
      SameMembers(a, b, b[0]);
      SameFirst(a, b);
      TailOf(a);
      TailOf(b);
      SortedUnique(a[1..], b[1..]);
      assert a == [a[0]] + a[1..] && b == [b[0]] + b[1..];
    }
  }

  // ── Transitions ──────────────────────────────────────────────────────────────

  /** Milliseconds from one timestamp to a later one exceed the TTL; never for an unparsable one. */
  predicate Beyond(c: Clock, from: string, to: string) {
    c.parse(from).Some? && c.parse(to).Some? && c.parse(to).value - c.parse(from).value > c.ttlMs
  }

  function ApplyTaskUpdate(c: Clock, s: TaskState, u: TaskEntry): TaskState {
    var claimExpiredByEntry := s.status == Claimed && s.claimedAt.Some? && Beyond(c, s.claimedAt.value, u.timestamp);
    match u.payload.status
    case Claimed =>
      if s.status == Open || claimExpiredByEntry then
        if s.assignedTo.Some? && s.assignedTo.value != "" && u.agentId != s.assignedTo.value then s
        else s.(status := Claimed, claimedBy := Some(u.agentId), claimedAt := Some(u.timestamp))
      else s
    case Complete =>
      if s.status == Open then s.(status := Complete, result := u.payload.result)
      else if claimExpiredByEntry then s.(status := Complete, claimedBy := None, result := u.payload.result)
      else if s.status == Claimed &&
          Some(u.agentId) == s.claimedBy then s.(status := Complete, result := u.payload.result)
      else s
    case Open =>
      if s.status == Claimed && !claimExpiredByEntry && Some(u.agentId) == s.claimedBy
      then s.(status := Open, claimedBy := None, claimedAt := None)
      else s
  }

  function Fold(c: Clock, s: TaskState, updates: seq<TaskEntry>): TaskState {
    if updates == [] then s
    else ApplyTaskUpdate(c, Fold(c, s, updates[..|updates| - 1]), updates[|updates| - 1])
  }

  // ── Reduction ────────────────────────────────────────────────────────────────

  /** The create entry: the first, in id order, that refers to nothing. */
  function Original(ordered: seq<TaskEntry>): (r: Option<TaskEntry>)
    ensures r.Some? ==> r.value in ordered && r.value.refs == []
  {
    if ordered == [] then None
    else if ordered[0].refs == [] then Some(ordered[0])
    else Original(ordered[1..])
  }

  function Latest(ts: string, entries: seq<TaskEntry>): string {
    if entries == [] then ts
    else
      var max := Latest(ts, entries[..|entries| - 1]);
      var e := entries[|entries| - 1];
      if Less(max, e.timestamp) then e.timestamp else max
  }

  lemma {:induction false} LatestIsGreatest(ts: string, entries: seq<TaskEntry>)
    ensures AtMost(ts, Latest(ts, entries)) && forall e | e in entries :: AtMost(e.timestamp, Latest(ts, entries))
    ensures Latest(ts, entries) == ts || exists e | e in entries :: e.timestamp == Latest(ts, entries)
  {
    if entries == [] {
    } else {
      var n := |entries| - 1;
      var max, e := Latest(ts, entries[..n]), entries[n];
      LatestIsGreatest(ts, entries[..n]);
      assert entries == entries[..n] + [e];
      Trichotomy(max, e.timestamp);
      if Less(max, e.timestamp) {
        if ts != max { Transitive(ts, max, e.timestamp); }
        forall x | x in entries[..n] ensures AtMost(x.timestamp, e.timestamp) {
          if x.timestamp != max { Transitive(x.timestamp, max, e.timestamp); }
        }
      }
    }
  }

  function Created(original: TaskEntry, ordered: seq<TaskEntry>): TaskState {
    var p := original.payload;
    TaskState(original.id, p.title, p.description, p.status, p.claimedBy, p.assignedTo, p.result,
              original.timestamp, Latest(original.timestamp, ordered), None, None, ordered)
  }

  /** The updates: everything but the create entry, in order. */
  function Updates(id: string, ordered: seq<TaskEntry>): (r: seq<TaskEntry>)
    ensures forall u :: u in r <==> u in ordered && u.id != id
  {
    if ordered == [] then [] else
      var n := |ordered| - 1;
      assert ordered == ordered[..n] + [ordered[n]];
      Updates(id, ordered[..n]) + if ordered[n].id == id then [] else [ordered[n]]
  }

  /** The state every replica folds, whatever its clock. */
  function Folded(c: Clock, entries: seq<TaskEntry>): Option<TaskState> {
    var ordered := SortById(entries);
    match Original(ordered)
    case None => None
    case Some(original) => Some(Fold(c, Created(original, ordered), Updates(original.id, ordered)))
  }

  /** The claim is past its TTL at the observer's clock. */
  predicate ExpiredAt(c: Clock, s: TaskState, now: int) {
    s.status == Claimed && s.claimedAt.Some? && c.parse(s.claimedAt.value).Some? &&
        now - c.parse(s.claimedAt.value).value > c.ttlMs
  }

  function Observe(c: Clock, s: TaskState, now: int): TaskState {
    if ExpiredAt(c, s, now)
    then s.(status := Open, claimedBy := None, expiredAt := Some(c.iso(c.parse(s.claimedAt.value).value + c.ttlMs)))
    else s
  }

  /** What an observer reports at `now`. */
  function Reported(c: Clock, entries: seq<TaskEntry>, now: int): Option<TaskState> {
    match Folded(c, entries) case None => None case Some(s) => Some(Observe(c, s, now))
  }

  method FindOriginal(ordered: seq<TaskEntry>) returns (original: Option<TaskEntry>)
    ensures original == Original(ordered)
  {
    var i := 0;
    while i < |ordered|
      invariant 0 <= i <= |ordered|
      invariant Original(ordered) == Original(ordered[i..])
    {
      if ordered[i].refs == [] { return Some(ordered[i]); }
      i := i + 1;
    }
    assert ordered[i..] == [];
    original := None;
  }

  method LatestTimestamp(original: TaskEntry, ordered: seq<TaskEntry>) returns (max: string)
    ensures max == Latest(original.timestamp, ordered)
  {
    max := original.timestamp;
    for i := 0 to |ordered|
      invariant max == Latest(original.timestamp, ordered[..i])
    {
      assert ordered[..i + 1][..i] == ordered[..i];
      if Less(max, ordered[i].timestamp) { max := ordered[i].timestamp; }
    }
    assert ordered[..|ordered|] == ordered;
  }

  lemma UpdatesStep(id: string, ordered: seq<TaskEntry>, i: nat)
    requires i < |ordered|
    ensures Updates(id, ordered[..i + 1]) == Updates(id, ordered[..i]) + if ordered[i].id == id then []
        else [ordered[i]]
  {
    assert ordered[..i + 1][..i] == ordered[..i];
  }

  lemma FoldAppend(c: Clock, s: TaskState, updates: seq<TaskEntry>, u: TaskEntry)
    ensures Fold(c, s, updates + [u]) == ApplyTaskUpdate(c, Fold(c, s, updates), u)
  {
    hide ApplyTaskUpdate;
    assert (updates + [u])[..|updates|] == updates;
  }

  lemma FoldStep(c: Clock, s: TaskState, id: string, ordered: seq<TaskEntry>, i: nat)
    requires i < |ordered|
    ensures Fold(c, s, Updates(id, ordered[..i + 1])) ==
            if ordered[i].id == id then Fold(c, s, Updates(id, ordered[..i]))
            else ApplyTaskUpdate(c, Fold(c, s, Updates(id, ordered[..i])), ordered[i])
  {
    hide ApplyTaskUpdate, Fold, Updates;
    UpdatesStep(id, ordered, i);
    if ordered[i].id == id {
      assert Updates(id, ordered[..i]) + [] == Updates(id, ordered[..i]);
    } else {
      FoldAppend(c, s, Updates(id, ordered[..i]), ordered[i]);
    }
  }

  method FoldUpdates(c: Clock, created: TaskState, id: string, ordered: seq<TaskEntry>) returns (state: TaskState)
    ensures state == Fold(c, created, Updates(id, ordered))
  {
    hide ApplyTaskUpdate;
    state := created;
    for i := 0 to |ordered|
      invariant state == Fold(c, created, Updates(id, ordered[..i]))
    {
      FoldStep(c, created, id, ordered, i);
      var update := ordered[i];
      if update.id == id { continue; }
      state := ApplyTaskUpdate(c, state, update);
    }
    assert ordered[..|ordered|] == ordered;
  }

  lemma EmptyHistory(entries: seq<TaskEntry>)
    requires entries == []
    ensures Original(SortById(entries)) == None
  {
  }

  method ReduceTaskHistory(c: Clock, entries: seq<TaskEntry>, now: int) returns (r: Option<TaskState>)
    ensures r == Reported(c, entries, now)
  {
    hide SortById, Original, Latest, Fold, Updates;
    if |entries| == 0 {
      EmptyHistory(entries);
      return None;
    }
    var ordered := SortById(entries);
    var found := FindOriginal(ordered);
    if found.None? { return None; }
    var original := found.value;
    var p := original.payload;
    var updatedAt := LatestTimestamp(original, ordered);
    var state := TaskState(original.id, p.title, p.description, p.status, p.claimedBy, p.assignedTo, p.result,
                           original.timestamp, updatedAt, None, None, ordered);
    state := FoldUpdates(c, state, original.id, ordered);
    if state.status == Claimed && state.claimedAt.Some? {
      var claimedAtMs := c.parse(state.claimedAt.value);
      if claimedAtMs.Some? && now - claimedAtMs.value > c.ttlMs {
        return Some(state.(status := Open, claimedBy := None, expiredAt := Some(c.iso(claimedAtMs.value + c.ttlMs))));
      }
    }
    return Some(state);
  }

  /** However the entries arrive, the reported state is the same. */
  lemma ArrivalOrderIsIrrelevant(c: Clock, a: seq<TaskEntry>, b: seq<TaskEntry>, now: int)
    requires multiset(a) == multiset(b) && DistinctIds(multiset(a))
    ensures Reported(c, a, now) == Reported(c, b, now)
  {
    SortSorts(a);
    SortSorts(b);
    SortedUnique(SortById(a), SortById(b));
  }

  // ── Lookup in the view ───────────────────────────────────────────────────────

  predicate IsTask(p: Stored) { p.entry.body.Post? && p.entry.body.content.TaskContent? }

  function AsTask(p: Stored): TaskEntry
    requires IsTask(p)
  {
    TaskEntry(p.id, p.entry.timestamp, p.entry.agentId, p.entry.refs, p.entry.body.content.task)
  }

  function AsTasks(ps: seq<Stored>): (r: seq<TaskEntry>)
    requires forall p | p in ps :: IsTask(p)
    ensures |r| == |ps| && forall i | 0 <= i < |ps| :: r[i] == AsTask(ps[i])
  {
    seq(|ps|, i requires 0 <= i < |ps| => AsTask(ps[i]))
  }

  method GetTaskState(c: Clock, rows: Store.Rows, taskId: string, now: int) returns (r: Option<TaskState>)
    requires forall p | p in Views.RefsIn(rows, Task, taskId) :: IsTask(p)
    ensures r == Reported(c, AsTasks(Views.RefsIn(rows, Task, taskId)), now)
  {
    var entries := Views.FindRefs(rows, Task, taskId);
    r := ReduceTaskHistory(c, AsTasks(entries), now);
  }
}
