/** The registry of pacts on a host: daemon.json, the pacts open in memory, and their
    directories on disk. `Step` is a whole operation, from its load of the file to its end,
    with no other operation in between; `RegistrySteps` takes it apart. */
module Registry {
  import opened Results
  import EntryIds

  const ALIAS_MAX := 48

  datatype Row = Row(alias: string, pactId: string, dataDir: string)

  /** An open pact remembers the directory it was loaded from and the key it found there. */
  datatype Handle = Handle(dataDir: string, pactId: string)

  /** `current` is the alias kept in the file, `memory` the daemon's own copy; `disk` maps each
      directory that is not empty to the key of the pact stored in it. */
  datatype Host =
    | Host(rows: seq<Row>, current: Option<string>, memory: Option<string>, live: map<string, Handle>,
           disk: map<string, string>)

  const FRESH_HOST := Host([], None, None, map[], map[])

  /** Whether a new pact came up in its directory, and otherwise what was left behind there. */
  datatype Made = Made(pactKey: string) | Broken(debris: Option<string>)

  datatype Op =
    | SetCurrent(alias: Option<string>)
    | Open(alias: Option<string>)
    | Create(name: string, alias: Option<string>, setCurrent: Option<bool>, made: Made)
    | Join(joinKey: string, alias: Option<string>, setCurrent: Option<bool>, made: Made)
    | Remove(target: string)
    | Rename(oldAlias: string, newAlias: string)
    | Restart

  datatype Error =
    | NoSuchPact
    | NoCurrent
    | BadAlias
    | Taken
    | AliasOfAnother
    | NoUniqueAlias
    | MakeFailed
    | LoadFailed
    | RenameFailed
    | BadConfig

  datatype Outcome = Finished | Ready(alias: string) | Failed(error: Error)

  predicate IsAliasChar(c: char) { 'a' <= c <= 'z' || EntryIds.IsDigit(c) || c == '-' }

  predicate IsAlias(s: string) {
    s != "" && s[0] != '-' && (forall i | 0 <= i < |s| :: IsAliasChar(s[i])) && |s| <= ALIAS_MAX
  }

  predicate IsHexText(s: string) { s != "" && EntryIds.AllHex(EntryIds.Lower(s)) }

  function PactConfigDir(hostDir: string, alias: string): string { hostDir + "/pacts/" + alias }

  predicate HasAlias(rows: seq<Row>, alias: string) { exists i | 0 <= i < |rows| :: rows[i].alias == alias }

  /** The first row of an alias, or the number of rows. */
  function IndexOf(rows: seq<Row>, alias: string, start: nat := 0): (i: nat)
    requires start <= |rows|
    ensures start <= i <= |rows| && (i < |rows| ==> rows[i].alias == alias)
    ensures forall k | start <= k < i :: rows[k].alias != alias
    decreases |rows| - start
  {
    if start == |rows| || rows[start].alias == alias then start else IndexOf(rows, alias, start + 1)
  }

  // ── Default aliases ──────────────────────────────────────────────────────────

  predicate IsSlugChar(c: char) { 'a' <= c <= 'z' || EntryIds.IsDigit(c) }

  /** Every run of other characters becomes one hyphen. */
  function Hyphenate(s: string): string {
    if s == "" then ""
    else if IsSlugChar(s[0]) then [s[0]] + Hyphenate(s[1..])
    else if |s| > 1 && !IsSlugChar(s[1]) then Hyphenate(s[1..])
    else "-" + Hyphenate(s[1..])
  }

  function TrimStart(s: string): string {
    if s != "" && s[0] == '-' then TrimStart(s[1..]) else s
  }

  function TrimEnd(s: string): string {
    if s != "" && s[|s| - 1] == '-' then TrimEnd(s[..|s| - 1]) else s
  }

  function Cut(s: string, n: nat): string { if |s| <= n then s else s[..n] }

  /** The slug of a name already in lower case. */
  function Slugify(lowered: string): string { Cut(TrimEnd(TrimStart(Hyphenate(lowered))), ALIAS_MAX) }

  function BaseAlias(lowered: string): string { if Slugify(lowered) == "" then "pact" else Slugify(lowered) }

  function Numbered(base: string, i: nat): string { base + "-" + EntryIds.Decimal(i) }

  function FirstFree(base: string, rows: seq<Row>, i: nat): (r: Option<string>)
    decreases 9999 - i
  {
    if i >= 9999 then None
    else if !HasAlias(rows, Numbered(base, i)) then Some(Numbered(base, i))
    else FirstFree(base, rows, i + 1)
  }

  function UniqueAlias(lowered: string, rows: seq<Row>): Option<string> {
    if !HasAlias(rows, BaseAlias(lowered)) then Some(BaseAlias(lowered)) else FirstFree(BaseAlias(lowered), rows, 2)
  }

  function JoinedAlias(joinKey: string): string { "joined-" + Cut(joinKey, 8) }

  // ── The operations ───────────────────────────────────────────────────────────

  function OpenStep(h: Host, wanted: Option<string>): (Host, Outcome) {
    var chosen := if wanted.Some? then wanted else h.current;
    if chosen.None? || chosen.value == "" then (h, Failed(NoCurrent))
    else
      var alias := chosen.value;
      if alias in h.live then (h, Ready(alias))
      else
        var i := IndexOf(h.rows, alias);
        if i == |h.rows| then (h, Failed(NoSuchPact))
        else if h.rows[i].dataDir !in h.disk then (h, Failed(LoadFailed))
        else (h.(live := h.live[alias := Handle(h.rows[i].dataDir, h.disk[h.rows[i].dataDir])]), Ready(alias))
  }

  /** Brings up a pact under a free alias and registers it. */
  function Install(hostDir: string, h: Host, alias: string, setCurrent: Option<bool>, made: Made): (Host, Outcome) {
    var dir := PactConfigDir(hostDir, alias);
    match made
    case Broken(debris) => (if debris.Some? then h.(disk := h.disk[dir := debris.value]) else h, Failed(MakeFailed))
    case Made(key) =>
      var makeCurrent := if setCurrent.Some? then setCurrent.value else h.current.None?;
      (Host(h.rows + [Row(alias, key, dir)],
            if makeCurrent then Some(alias) else h.current,
            if makeCurrent then Some(alias) else h.memory,
            h.live[alias := Handle(dir, key)],
            h.disk[dir := key]), Ready(alias))
  }

  function CreateStep(hostDir: string, h: Host, name: string, wanted: Option<string>, setCurrent: Option<bool>,
                      made: Made): (Host, Outcome) {
    var alias := if wanted.Some? then wanted else UniqueAlias(name, h.rows);
    if alias.None? then (h, Failed(NoUniqueAlias))
    else if !IsAlias(alias.value) then (h, Failed(BadAlias))
    else if HasAlias(h.rows, alias.value) then (h, Failed(Taken))
    else Install(hostDir, h, alias.value, setCurrent, made)
  }

  function JoinStep(hostDir: string, h: Host, joinKey: string, wanted: Option<string>, setCurrent: Option<bool>,
                    made: Made): (Host, Outcome) {
    var alias := if wanted.Some? then wanted.value else JoinedAlias(joinKey);
    if !IsAlias(alias) then (h, Failed(BadAlias))
    else
      var i := IndexOf(h.rows, alias);
      if i == |h.rows| then Install(hostDir, h, alias, setCurrent, made)
      else if EntryIds.Lower(h.rows[i].pactId) == EntryIds.Lower(joinKey) then OpenStep(h, Some(alias))
      else (h, Failed(AliasOfAnother))
  }

  function RemoveStep(h: Host, alias: string): (Host, Outcome) {
    var i := IndexOf(h.rows, alias);
    if i == |h.rows| then (h, Failed(NoSuchPact))
    else
      var rows := h.rows[..i] + h.rows[i + 1..];
      var first := if rows == [] then None else Some(rows[0].alias);
      (Host(rows,
            if h.current == Some(alias) then first else h.current,
            if h.current == Some(alias) then first else h.memory,
            h.live - {alias},
            h.disk - {h.rows[i].dataDir}), Finished)
  }

  function RenameStep(hostDir: string, h: Host, was: string, now: string): (Host, Outcome) {
    if !IsAlias(now) then (h, Failed(BadAlias))
    else
      var i := IndexOf(h.rows, was);
      if i == |h.rows| then (h, Failed(NoSuchPact))
      else if HasAlias(h.rows, now) then (h, Failed(Taken))
      else
        var from, to := h.rows[i].dataDir, PactConfigDir(hostDir, now);
        var closed := h.(live := h.live - {was});
        if from !in h.disk || to in h.disk then (closed, Failed(RenameFailed))
        else
          (Host(h.rows[i := Row(now, h.rows[i].pactId, to)],
                if h.current == Some(was) then Some(now) else h.current,
                if h.memory == Some(was) then Some(now) else h.memory,
                if was in h.live then (h.live - {was})[now := Handle(to, h.disk[from])] else h.live,
                (h.disk - {from})[to := h.disk[from]]), Finished)
  }

  function Step(hostDir: string, h: Host, op: Op): (Host, Outcome) {
    match op
    case SetCurrent(alias) =>
      if alias.Some? && !HasAlias(h.rows, alias.value) then (h, Failed(NoSuchPact))
      else (h.(current := alias, memory := alias), Finished)
    case Open(alias) => OpenStep(h, alias)
    case Create(name, alias, setCurrent, made) => CreateStep(hostDir, h, name, alias, setCurrent, made)
    case Join(joinKey, alias, setCurrent, made) => JoinStep(hostDir, h, joinKey, alias, setCurrent, made)
    case Remove(alias) => RemoveStep(h, alias)
    case Rename(was, now) => RenameStep(hostDir, h, was, now)
    case Restart => (h.(live := map[], memory := None), Finished)
  }

  function After(hostDir: string, ops: seq<Op>): Host {
    if ops == [] then FRESH_HOST else Step(hostDir, After(hostDir, ops[..|ops| - 1]), ops[|ops| - 1]).0
  }
}
