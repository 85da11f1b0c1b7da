/** The daemon's registry operations as it performs them: it loads daemon.json, changes its
    copy, validates and saves it, and updates its memory and the disk along the way. The
    bodies run here without another operation in between. */
module Daemon {
  import opened Results
  import opened Registry
  import opened RegistrySafety
  import EntryIds

  const API_TOKEN_HEX_LEN := 64

  datatype Config = Config(port: int, pacts: seq<Row>, currentAlias: Option<string>, apiToken: Option<string>)

  predicate TokenOk(token: Option<string>) {
    token.Some? ==> |token.value| == API_TOKEN_HEX_LEN && EntryIds.AllHex(token.value)
  }

  ghost predicate ConfigOk(c: Config) {
    1 <= c.port <= 65535 && RegistryOk(c.pacts, c.currentAlias) && TokenOk(c.apiToken)
  }

  ghost predicate HexOfEitherCase(s: string) {
    s != "" && forall i | 0 <= i < |s| :: '0' <= s[i] <= '9' || 'a' <= s[i] <= 'f' || 'A' <= s[i] <= 'F'
  }

  ghost predicate LowerHex64(s: string) {
    |s| == 64 && forall i | 0 <= i < |s| :: '0' <= s[i] <= '9' || 'a' <= s[i] <= 'f'
  }

  lemma HexMeans(s: string)
    ensures IsHexText(s) <==> HexOfEitherCase(s)
    ensures TokenOk(Some(s)) <==> LowerHex64(s)
  {
    forall i | 0 <= i < |s|
      ensures EntryIds.IsHexChar(EntryIds.Lower(s)[i]) <==>
              '0' <= s[i] <= '9' || 'a' <= s[i] <= 'f' || 'A' <= s[i] <= 'F'
    {
    }
  }

  /** What a valid configuration is, character by character. */
  lemma ConfigExactlyWhen(c: Config)
    ensures ConfigOk(c) <==>
      && 1 <= c.port <= 65535
      && (forall i, j | 0 <= i < j < |c.pacts| :: c.pacts[i].alias != c.pacts[j].alias)
      && (forall p | p in c.pacts :: p.alias != "" && HexOfEitherCase(p.pactId) && p.dataDir != "")
      && (c.currentAlias.Some? ==> exists p | p in c.pacts :: p.alias == c.currentAlias.value)
      && (c.apiToken.Some? ==> LowerHex64(c.apiToken.value))
  {
    hide IsHexText, HexOfEitherCase, LowerHex64;
    forall p | p in c.pacts ensures IsHexText(p.pactId) <==> HexOfEitherCase(p.pactId) { HexMeans(p.pactId); }
    if c.apiToken.Some? { HexMeans(c.apiToken.value); }
    if c.currentAlias.Some? {
      var a := c.currentAlias.value;
      if HasAlias(c.pacts, a) { var i :| 0 <= i < |c.pacts| && c.pacts[i].alias == a; assert c.pacts[i] in c.pacts; }
      if p :| p in c.pacts && p.alias == a { var i :| 0 <= i < |c.pacts| && c.pacts[i] == p; }
    }
  }

  /** The first `i` rows are complete and have aliases of their own, those in `aliases`. */
  ghost predicate Checked(rows: seq<Row>, i: int, aliases: set<string>) {
    && 0 <= i <= |rows|
    && (forall a :: a in aliases <==> exists k | 0 <= k < i :: rows[k].alias == a)
    && (forall j, k | 0 <= j < k < i :: rows[j].alias != rows[k].alias)
    && (forall k | 0 <= k < i :: rows[k].alias != "" && IsHexText(rows[k].pactId) && rows[k].dataDir != "")
  }

  lemma NoneChecked(rows: seq<Row>)
    ensures Checked(rows, 0, {})
  {
  }

  lemma CheckedNext(rows: seq<Row>, i: nat, aliases: set<string>)
    requires Checked(rows, i, aliases) && i < |rows|
    requires rows[i].alias != "" && rows[i].alias !in aliases && IsHexText(rows[i].pactId) && rows[i].dataDir != ""
    ensures Checked(rows, i + 1, aliases + {rows[i].alias})
  {
    hide IsHexText;
  }

  lemma RowOfValid(rows: seq<Row>, i: nat, aliases: set<string>, current: Option<string>)
    requires Checked(rows, i, aliases) && i < |rows|
    ensures RegistryOk(rows, current) ==>
              rows[i].alias != "" && rows[i].alias !in aliases && IsHexText(rows[i].pactId) && rows[i].dataDir != ""
  {
    hide IsHexText, HasAlias;
  }

  lemma AllChecked(rows: seq<Row>, aliases: set<string>, current: Option<string>)
    requires Checked(rows, |rows|, aliases)
    ensures RegistryOk(rows, current) <==> (current.Some? ==> current.value in aliases)
  {
    hide IsHexText;
  }

  /** Validation accepts exactly the configurations whose aliases are distinct, whose rows are
      complete, and whose current alias is listed. */
  method ValidateDaemonConfig(config: Config) returns (ok: bool)
    ensures ok <==> ConfigOk(config)
  {
    hide IsHexText, Checked, RegistryOk, TokenOk;
    if config.port < 1 || config.port > 65535 { return false; }
    var aliases: set<string> := {};
    assert Checked(config.pacts, 0, aliases) by { NoneChecked(config.pacts); }
    for i := 0 to |config.pacts|
      invariant Checked(config.pacts, i, aliases)
    {
      var p := config.pacts[i];
      RowOfValid(config.pacts, i, aliases, config.currentAlias);
      if p.alias == "" { return false; }
      if p.alias in aliases { return false; }
      if !IsHexText(p.pactId) { return false; }
      if p.dataDir == "" { return false; }
      CheckedNext(config.pacts, i, aliases);
      aliases := aliases + {p.alias};
    }
    AllChecked(config.pacts, aliases, config.currentAlias);
    if config.currentAlias.Some? && config.currentAlias.value !in aliases { return false; }
    return TokenOk(config.apiToken);
  }

  method FindIndex(rows: seq<Row>, alias: string) returns (i: nat)
    ensures i == IndexOf(rows, alias)
  {
    i := 0;
    while i < |rows| && rows[i].alias != alias
      invariant i <= |rows| && IndexOf(rows, alias) == IndexOf(rows, alias, i)
    {
      i := i + 1;
    }
  }

  method IsTaken(rows: seq<Row>, alias: string) returns (taken: bool)
    ensures taken <==> HasAlias(rows, alias)
  {
    for i := 0 to |rows|
      invariant forall k | 0 <= k < i :: rows[k].alias != alias
    {
      if rows[i].alias == alias { return true; }
    }
    return false;
  }

  /** The default alias of a pact: its slug, or the slug with the smallest free number. */
  method UniqueAliasFromName(lowered: string, rows: seq<Row>) returns (r: Option<string>)
    ensures r == UniqueAlias(lowered, rows)
  {
    var base := BaseAlias(lowered);
    var taken := IsTaken(rows, base);
    if !taken { return Some(base); }
    for i := 2 to 9999
      invariant UniqueAlias(lowered, rows) == FirstFree(base, rows, i)
    {
      taken := IsTaken(rows, Numbered(base, i));
      if !taken { return Some(Numbered(base, i)); }
    }
    return None;
  }

  class Daemon {
    const hostDir: string
    const port: int
    var file: Config
    var currentAlias: Option<string>
    var pacts: map<string, Handle>
    var disk: map<string, string>

    ghost function Host(): Host
      reads this
    {
      Registry.Host(file.pacts, file.currentAlias, currentAlias, pacts, disk)
    }

    ghost predicate Valid()
      reads this
    {
      1 <= port <= 65535 && TokenOk(file.apiToken) && Sound(hostDir, Host())
    }

    constructor (hostDir: string, port: int)
      requires 1 <= port <= 65535
      ensures Valid() && Host() == FRESH_HOST && this.hostDir == hostDir && this.port == port
    {
      this.hostDir := hostDir;
      this.port := port;
      file := Config(port, [], None, None);
      currentAlias := None;
      pacts := map[];
      disk := map[];
      new;
      FreshIsSound(hostDir);
    }

    method LoadRegistry() returns (cfg: Config)
      ensures cfg == file.(port := port)
    {
      cfg := file.(port := port);
    }

    /** The file changes only if what is to be written passes validation. */
    method SaveRegistry(cfg: Config) returns (ok: bool)
      modifies this`file
      ensures ok <==> ConfigOk(cfg)
      ensures file == if ok then cfg else old(file)
    {
      ok := ValidateDaemonConfig(cfg);
      if ok { file := cfg; }
    }

    method SetCurrentAlias(alias: Option<string>) returns (outcome: Outcome)
      requires Valid()
      modifies this`file, this`currentAlias
      ensures Valid() && file.apiToken == old(file.apiToken)
      ensures (Host(), outcome) == Step(hostDir, old(Host()), SetCurrent(alias))
    {
      hide RegistryOk, Sound;
      StepIsSaved(SetCurrent(alias));
      var cfg := LoadRegistry();
      if alias.Some? {
        var listed := IsTaken(cfg.pacts, alias.value);
        if !listed { return Failed(NoSuchPact); }
      }
      cfg := cfg.(currentAlias := alias);
      currentAlias := alias;
      var ok := SaveRegistry(cfg);
      assert ok;
      return Finished;
    }

    /** A step of a sound host is sound again, and its registry passes validation. */
    lemma StepIsSaved(op: Op)
      requires Valid() && KeyIsHex(op)
      ensures var next := Step(hostDir, Host(), op).0; Sound(hostDir, next) && RegistryOk(next.rows, next.current)
    {
      StepSound(hostDir, Host(), op);
      SoundIsValidConfig(hostDir, Step(hostDir, Host(), op).0);
    }

    method OpenPact(aliasOrNull: Option<string>) returns (outcome: Outcome)
      requires Valid()
      modifies this`pacts
      ensures Valid()
      ensures (Host(), outcome) == Step(hostDir, old(Host()), Open(aliasOrNull))
    {
      hide Sound;
      StepIsSaved(Open(aliasOrNull));
      var cfg := LoadRegistry();
      var chosen := if aliasOrNull.Some? then aliasOrNull else cfg.currentAlias;
      if chosen.None? || chosen.value == "" { return Failed(NoCurrent); }
      var alias := chosen.value;
      if alias in pacts { return Ready(alias); }
      var i := FindIndex(cfg.pacts, alias);
      if i == |cfg.pacts| { return Failed(NoSuchPact); }
      var dir := cfg.pacts[i].dataDir;
      if dir !in disk { return Failed(LoadFailed); }
      pacts := pacts[alias := Handle(dir, disk[dir])];
      return Ready(alias);
    }

    /** The common end of creating and joining: make the directory, bring the pact up there,
        list it, save, and keep it open. */
    method InstallPact(op: Op, alias: string, setCurrent: Option<bool>, made: Made) returns (outcome: Outcome)
      requires Valid() && KeyIsHex(op)
      requires Step(hostDir, Host(), op) == Install(hostDir, Host(), alias, setCurrent, made)
      modifies this
      ensures Valid() && file.apiToken == old(file.apiToken)
      ensures (Host(), outcome) == Step(hostDir, old(Host()), op)
    {
      hide Sound, RegistryOk, Step;
      StepIsSaved(op);
      var cfg := LoadRegistry();
      var pactDir := PactConfigDir(hostDir, alias);
      if made.Broken? {
        if made.debris.Some? { disk := disk[pactDir := made.debris.value]; }
        return Failed(MakeFailed);
      }
      disk := disk[pactDir := made.pactKey];
      cfg := cfg.(pacts := cfg.pacts + [Row(alias, made.pactKey, pactDir)]);
      var shouldSetCurrent := if setCurrent.Some? then setCurrent.value else cfg.currentAlias.None?;
      if shouldSetCurrent { cfg := cfg.(currentAlias := Some(alias)); }
      var ok := SaveRegistry(cfg);
      assert ok;
      pacts := pacts[alias := Handle(pactDir, made.pactKey)];
      if shouldSetCurrent { currentAlias := Some(alias); }
      return Ready(alias);
    }

    method CreatePact(name: string, wanted: Option<string>, setCurrent: Option<bool>, made: Made)
      returns (outcome: Outcome)
      requires Valid() && (made.Made? ==> IsHexText(made.pactKey))
      modifies this
      ensures Valid() && file.apiToken == old(file.apiToken)
      ensures (Host(), outcome) == Step(hostDir, old(Host()), Create(name, wanted, setCurrent, made))
    {
      hide Sound, Install, IsAlias;
      var cfg := LoadRegistry();
      var chosen := wanted;
      if wanted.None? { chosen := UniqueAliasFromName(name, cfg.pacts); }
      if chosen.None? { return Failed(NoUniqueAlias); }
      var alias := chosen.value;
      if !IsAlias(alias) { return Failed(BadAlias); }
      var taken := IsTaken(cfg.pacts, alias);
      if taken { return Failed(Taken); }
      outcome := InstallPact(Create(name, wanted, setCurrent, made), alias, setCurrent, made);
    }

    method JoinPact(joinKey: string, wanted: Option<string>, setCurrent: Option<bool>, made: Made)
      returns (outcome: Outcome)
      requires Valid() && (made.Made? ==> IsHexText(made.pactKey))
      modifies this
      ensures Valid() && file.apiToken == old(file.apiToken)
      ensures (Host(), outcome) == Step(hostDir, old(Host()), Join(joinKey, wanted, setCurrent, made))
    {
      hide Sound, Install, IsAlias;
      var cfg := LoadRegistry();
      var alias := if wanted.Some? then wanted.value else JoinedAlias(joinKey);
      if !IsAlias(alias) { return Failed(BadAlias); }
      var i := FindIndex(cfg.pacts, alias);
      if i < |cfg.pacts| {
        if EntryIds.Lower(cfg.pacts[i].pactId) == EntryIds.Lower(joinKey) {
          if alias in pacts { AliasNotEmpty(alias); return Ready(alias); }
          outcome := OpenPact(Some(alias));
          return;
        }
        return Failed(AliasOfAnother);
      }
      outcome := InstallPact(Join(joinKey, wanted, setCurrent, made), alias, setCurrent, made);
    }

    lemma AliasNotEmpty(alias: string)
      requires IsAlias(alias)
      ensures alias != ""
    {
    }

    method RemovePact(alias: string) returns (outcome: Outcome)
      requires Valid()
      modifies this
      ensures Valid() && file.apiToken == old(file.apiToken)
      ensures (Host(), outcome) == Step(hostDir, old(Host()), Remove(alias))
    {
      hide Sound, RegistryOk;
      StepIsSaved(Remove(alias));
      var cfg := LoadRegistry();
      var idx := FindIndex(cfg.pacts, alias);
      if idx == |cfg.pacts| { return Failed(NoSuchPact); }
      var entry := cfg.pacts[idx];
      if alias in pacts { pacts := pacts - {alias}; }
      cfg := cfg.(pacts := cfg.pacts[..idx] + cfg.pacts[idx + 1..]);
      if cfg.currentAlias == Some(alias) {
        cfg := cfg.(currentAlias := if cfg.pacts == [] then None else Some(cfg.pacts[0].alias));
        currentAlias := cfg.currentAlias;
      }
      var ok := SaveRegistry(cfg);
      assert ok;
      disk := disk - {entry.dataDir};
      assert pacts == old(pacts) - {alias};
      return Finished;
    }

    method RenamePact(was: string, now: string) returns (outcome: Outcome)
      requires Valid()
      modifies this
      ensures Valid() && file.apiToken == old(file.apiToken)
      ensures (Host(), outcome) == Step(hostDir, old(Host()), Rename(was, now))
    {
      hide Sound, RegistryOk, IsAlias;
      StepIsSaved(Rename(was, now));
      if !IsAlias(now) { return Failed(BadAlias); }
      var cfg := LoadRegistry();
      var i := FindIndex(cfg.pacts, was);
      if i == |cfg.pacts| { return Failed(NoSuchPact); }
      var taken := IsTaken(cfg.pacts, now);
      if taken { return Failed(Taken); }
      var newDir := PactConfigDir(hostDir, now);
      var entry := cfg.pacts[i];
      var wasOpen := was in pacts;
      if wasOpen { pacts := pacts - {was}; }
      assert pacts == old(pacts) - {was};
      if entry.dataDir !in disk || newDir in disk { return Failed(RenameFailed); }
      disk := (disk - {entry.dataDir})[newDir := disk[entry.dataDir]];
      cfg := cfg.(pacts := cfg.pacts[i := Row(now, entry.pactId, newDir)]);
      if cfg.currentAlias == Some(was) { cfg := cfg.(currentAlias := Some(now)); }
      var ok := SaveRegistry(cfg);
      assert ok;
      if wasOpen { pacts := pacts[now := Handle(newDir, disk[newDir])]; }
      if currentAlias == Some(was) { currentAlias := Some(now); }
      return Finished;
    }
  }
}
