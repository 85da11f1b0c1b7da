/** What each operation on the registry comes to, exactly, and what it leaves, when it runs with
    no other in between. */
module RegistryOutcomes {
  import opened Results
  import opened Registry
  import opened RegistrySafety
  import EntryIds

  /** Lower-case letters, digits and hyphens, no hyphen first, at most 48. */
  ghost predicate Proper(alias: string) {
    && 1 <= |alias| <= 48 && alias[0] != '-'
    && forall i | 0 <= i < |alias| :: 'a' <= alias[i] <= 'z' || '0' <= alias[i] <= '9' || alias[i] == '-'
  }

  /** Row `i` is the first of the alias. */
  ghost predicate Listed(h: Host, alias: string, i: int) {
    0 <= i < |h.rows| && h.rows[i].alias == alias && forall k | 0 <= k < i :: h.rows[k].alias != alias
  }

  ghost predicate Unlisted(h: Host, alias: string) { forall r | r in h.rows :: r.alias != alias }

  lemma ProperIsAlias(alias: string)
    ensures IsAlias(alias) <==> Proper(alias)
  {
  }

  lemma ListedIsFound(h: Host, alias: string)
    ensures HasAlias(h.rows, alias) <==> !Unlisted(h, alias)
    ensures IndexOf(h.rows, alias) == |h.rows| <==> Unlisted(h, alias)
    ensures forall i :: Listed(h, alias, i) <==> i == IndexOf(h.rows, alias) && i < |h.rows|
  {
    var i := IndexOf(h.rows, alias);
    if i < |h.rows| { assert h.rows[i] in h.rows; }
  }

  /** The pact came up under the alias, in the directory of the alias, and was listed last; it
      became the current one if that was asked for, or not said and there was none. */
  ghost predicate BroughtUp(hostDir: string, h: Host, alias: string, setCurrent: Option<bool>, key: string,
                            next: Host) {
    var dir := hostDir + "/pacts/" + alias;
    var makeCurrent := setCurrent == Some(true) || (setCurrent == None && h.current == None);
    && next.rows == h.rows + [Row(alias, key, dir)]
    && next.current == (if makeCurrent then Some(alias) else h.current)
    && next.memory == (if makeCurrent then Some(alias) else h.memory)
    && next.live == h.live[alias := Handle(dir, key)] && next.disk == h.disk[dir := key]
  }

  /** Nothing changed but perhaps what is in the directory of the alias. */
  ghost predicate LeftDebris(hostDir: string, h: Host, alias: string, next: Host) {
    var dir := hostDir + "/pacts/" + alias;
    next == h.(disk := next.disk) && next.disk - {dir} == h.disk - {dir}
  }

  lemma InstallExactlyWhen(hostDir: string, h: Host, alias: string, setCurrent: Option<bool>, made: Made)
    ensures var (next, outcome) := Install(hostDir, h, alias, setCurrent, made);
      if made.Made? then outcome == Ready(alias) && BroughtUp(hostDir, h, alias, setCurrent, made.pactKey, next)
      else outcome == Failed(MakeFailed) && LeftDebris(hostDir, h, alias, next)
  {
  }

  /** Creating under an alias of one's own. */
  lemma CreateExactlyWhen(hostDir: string, h: Host, name: string, alias: string, setCurrent: Option<bool>, made: Made)
    ensures var (next, outcome) := Step(hostDir, h, Create(name, Some(alias), setCurrent, made));
      && (outcome == Failed(BadAlias) <==> !Proper(alias))
      && (outcome == Failed(Taken) <==> Proper(alias) && !Unlisted(h, alias))
      && (outcome == Failed(MakeFailed) <==> Proper(alias) && Unlisted(h, alias) && made.Broken?)
      && (outcome == Ready(alias) <==> Proper(alias) && Unlisted(h, alias) && made.Made?)
      && (if outcome == Ready(alias) then BroughtUp(hostDir, h, alias, setCurrent, made.pactKey, next)
          else if outcome == Failed(MakeFailed) then LeftDebris(hostDir, h, alias, next)
          else next == h)
  {
    hide IsAlias, HasAlias, Proper, Unlisted, Install;
    ProperIsAlias(alias);
    ListedIsFound(h, alias);
    InstallExactlyWhen(hostDir, h, alias, setCurrent, made);
  }

  lemma NewJoin(hostDir: string, h: Host, joinKey: string, alias: string, setCurrent: Option<bool>, made: Made)
    requires !Proper(alias) || Unlisted(h, alias)
    ensures var r := JoinStep(hostDir, h, joinKey, Some(alias), setCurrent, made);
      if !Proper(alias) then r == (h, Failed(BadAlias))
      else if made.Made? then r.1 == Ready(alias) && BroughtUp(hostDir, h, alias, setCurrent, made.pactKey, r.0)
      else r.1 == Failed(MakeFailed) && LeftDebris(hostDir, h, alias, r.0)
  {
    hide IsAlias, HasAlias, Proper, Unlisted, Install, OpenStep, BroughtUp, LeftDebris, Listed, EntryIds.Lower;
    ProperIsAlias(alias);
    ListedIsFound(h, alias);
    InstallExactlyWhen(hostDir, h, alias, setCurrent, made);
  }

  lemma JoinAgain(hostDir: string, h: Host, joinKey: string, alias: string, setCurrent: Option<bool>, made: Made)
    returns (i: nat)
    requires Sound(hostDir, h) && Proper(alias) && !Unlisted(h, alias)
    ensures Listed(h, alias, i) && i < |h.rows| && forall j | Listed(h, alias, j) :: j == i
    ensures JoinStep(hostDir, h, joinKey, Some(alias), setCurrent, made) ==
            if EntryIds.Lower(h.rows[i].pactId) == EntryIds.Lower(joinKey)
            then (h.(live := h.live[alias := Handle(h.rows[i].dataDir, h.rows[i].pactId)]), Ready(alias))
            else (h, Failed(AliasOfAnother))
  {
    hide IsAlias, HasAlias, Proper, Unlisted, Sound, JoinStep, Listed, EntryIds.Lower;
    ListedIsFound(h, alias);
    i := IndexOf(h.rows, alias);
    RejoinChangesNothing(hostDir, h, i, joinKey, setCurrent, made);
  }

  lemma ListedIsUnlisted(h: Host, alias: string)
    ensures Unlisted(h, alias) ==> forall i :: !Listed(h, alias, i)
  {
  }

  /** Joining, under an alias of one's own or under the first eight characters of the key. */
  lemma JoinExactlyWhen(hostDir: string, h: Host, joinKey: string, wanted: Option<string>, setCurrent: Option<bool>,
                        made: Made)
    requires Sound(hostDir, h)
    ensures var (next, outcome) := Step(hostDir, h, Join(joinKey, wanted, setCurrent, made));
      var alias := if wanted.Some? then wanted.value
                   else if |joinKey| <= 8 then "joined-" + joinKey else "joined-" + joinKey[..8];
      && (outcome == Failed(BadAlias) <==> !Proper(alias))
      && (outcome == Failed(AliasOfAnother) <==>
            Proper(alias) && exists i ::
                Listed(h, alias, i) && EntryIds.Lower(h.rows[i].pactId) != EntryIds.Lower(joinKey))
      && (outcome == Failed(MakeFailed) <==> Proper(alias) && Unlisted(h, alias) && made.Broken?)
      && (outcome.Failed? || outcome == Ready(alias))
      && (outcome.Failed? ==> outcome.error in {BadAlias, AliasOfAnother, MakeFailed})
      && (if outcome == Failed(MakeFailed) then LeftDebris(hostDir, h, alias, next)
          else if outcome.Failed? then next == h
          else if Unlisted(h, alias) then made.Made? && BroughtUp(hostDir, h, alias, setCurrent, made.pactKey, next)
          else forall i | Listed(h, alias, i) && 0 <= i < |h.rows| ::
              next == h.(live := h.live[alias := Handle(h.rows[i].dataDir, h.rows[i].pactId)]))
  {
    hide Proper, Unlisted, Sound, JoinStep, BroughtUp, LeftDebris, Listed, EntryIds.Lower;
    var alias := if wanted.Some? then wanted.value else JoinedAlias(joinKey);
    NamedJoin(hostDir, h, Join(joinKey, wanted, setCurrent, made), alias);
    ListedIsUnlisted(h, alias);
    if Proper(alias) && !Unlisted(h, alias) {
      var i := JoinAgain(hostDir, h, joinKey, alias, setCurrent, made);
    } else {
      NewJoin(hostDir, h, joinKey, alias, setCurrent, made);
    }
  }

  lemma RowHoldsItsPact(hostDir: string, h: Host, i: nat)
    requires Sound(hostDir, h) && i < |h.rows|
    ensures h.rows[i].dataDir in h.disk && h.disk[h.rows[i].dataDir] == h.rows[i].pactId
    ensures h.rows[i].dataDir == hostDir + "/pacts/" + h.rows[i].alias
  {
    hide IsAlias, IsHexText;
    assert RowSound(hostDir, h.disk, h.rows[i]);
  }

  lemma LiveIsItsRow(hostDir: string, h: Host, a: string)
    requires Sound(hostDir, h) && a in h.live
    ensures forall i | Listed(h, a, i) && 0 <= i < |h.rows| ::
              h.live[a] == Handle(h.rows[i].dataDir, h.rows[i].pactId)
  {
    hide RowSound;
    assert LiveSound(h.rows, a, h.live[a]);
  }

  /** Opening, by alias or the current pact. */
  lemma OpenExactlyWhen(hostDir: string, h: Host, wanted: Option<string>)
    requires Sound(hostDir, h)
    ensures var (next, outcome) := Step(hostDir, h, Open(wanted));
      var alias := if wanted.Some? then wanted else h.current;
      && (outcome == Failed(NoCurrent) <==> alias == None || alias == Some(""))
      && (outcome == Failed(NoSuchPact) <==> alias != None && alias != Some("") && Unlisted(h, alias.value))
      && (if outcome.Failed? then next == h
          else
            && outcome == Ready(alias.value) && next == h.(live := next.live)
            && next.live.Keys == h.live.Keys + {alias.value}
            && (forall a | a in h.live :: next.live[a] == h.live[a])
            && forall i | Listed(h, alias.value, i) && 0 <= i < |h.rows| ::
                next.live[alias.value] == Handle(h.rows[i].dataDir, h.rows[i].pactId))
  {
    hide HasAlias, RowSound, PactConfigDir;
    var alias := if wanted.Some? then wanted else h.current;
    OpenSound(hostDir, h, wanted);
    if alias.Some? {
      ListedIsFound(h, alias.value);
      LiveIsRegistered(hostDir, h, alias.value);
      if alias.value in h.live { LiveIsItsRow(hostDir, h, alias.value); }
      var i := IndexOf(h.rows, alias.value);
      if i < |h.rows| { RowHoldsItsPact(hostDir, h, i); }
    }
  }

  /** Removing takes the row out, and the first row left becomes the current one if it was. */
  lemma RemoveExactlyWhen(hostDir: string, h: Host, alias: string)
    ensures var (next, outcome) := Step(hostDir, h, Remove(alias));
      && (outcome == Failed(NoSuchPact) <==> Unlisted(h, alias))
      && (outcome.Failed? ==> next == h)
      && forall i | Listed(h, alias, i) && 0 <= i < |h.rows| ::
          && outcome == Finished && next.rows == h.rows[..i] + h.rows[i + 1..]
          && next.live == h.live - {alias} && next.disk == h.disk - {h.rows[i].dataDir}
          && next.current == (if h.current != Some(alias) then h.current
                              else if next.rows == [] then None else Some(next.rows[0].alias))
          && next.memory == (if h.current != Some(alias) then h.memory else next.current)
  {
    ListedIsFound(h, alias);
  }

  /** Renaming moves the directory and the row together, and the pact stays open and current. */
  lemma RenameExactlyWhen(hostDir: string, h: Host, was: string, now: string)
    requires Sound(hostDir, h)
    ensures var (next, outcome) := Step(hostDir, h, Rename(was, now)); var dir := hostDir + "/pacts/" + now;
      && (outcome == Failed(BadAlias) <==> !Proper(now))
      && (outcome == Failed(NoSuchPact) <==> Proper(now) && Unlisted(h, was))
      && (outcome == Failed(Taken) <==> Proper(now) && !Unlisted(h, was) && !Unlisted(h, now))
      && (outcome == Failed(RenameFailed) <==>
            Proper(now) && !Unlisted(h, was) && Unlisted(h, now) && dir in h.disk)
      && (outcome.Failed? ==> next == h.(live := if outcome == Failed(RenameFailed) then h.live - {was} else h.live))
      && (!outcome.Failed? ==> outcome == Finished && forall i | Listed(h, was, i) && 0 <= i < |h.rows| ::
            && next.rows == h.rows[i := Row(now, h.rows[i].pactId, dir)]
            && next.disk == (h.disk - {hostDir + "/pacts/" + was})[dir := h.rows[i].pactId]
            && next.live == (if was in h.live then (h.live - {was})[now := Handle(dir, h.rows[i].pactId)] else h.live)
            && next.current == (if h.current == Some(was) then Some(now) else h.current)
            && next.memory == (if h.memory == Some(was) then Some(now) else h.memory))
  {
    hide IsAlias, HasAlias, Proper, Unlisted, Sound, RowSound;
    ProperIsAlias(now);
    ListedIsFound(h, was);
    ListedIsFound(h, now);
    var i := IndexOf(h.rows, was);
    if i < |h.rows| { RowHoldsItsPact(hostDir, h, i); }
    if was !in h.live { assert h.live - {was} == h.live; }
  }

  /** Only a listed alias can be made current; it can also be cleared. */
  lemma SetCurrentExactlyWhen(hostDir: string, h: Host, alias: Option<string>)
    ensures var (next, outcome) := Step(hostDir, h, SetCurrent(alias));
      if alias == None || !Unlisted(h, alias.value) then
        outcome == Finished && next == h.(current := alias, memory := alias)
      else outcome == Failed(NoSuchPact) && next == h
  {
    if alias.Some? { ListedIsFound(h, alias.value); }
  }
}
