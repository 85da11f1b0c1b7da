/** How the ledger lies in the view: every set element, map entry and register is
    one row, and prefixes keep the namespaces apart. */
module LedgerKeys {
  import opened Results
  import opened Entries
  import opened Ledger
  import opened Store
  import opened Lexicographic

  const MEMBERS := "_members"
  const INDEXERS := "_indexers"
  const INVITES := "_invites"
  const AGENTS := "_agents"
  const PACT_NAME_KEY := "_pact/name"
  const PACT_PURPOSE_KEY := "_pact/purpose"

  datatype Slot =
    | MemberSlot(key: string)
    | IndexerSlot(key: string)
    | InviteSlot(nonce: string)
    | AgentSlot(handle: string)
    | NameSlot
    | PurposeSlot
    | EntrySlot(row: RowKey)
    | RefSlot(ref: RefKey)

  function KeyOf(s: Slot): string {
    match s
    case MemberSlot(key) => MEMBERS + "/" + key
    case IndexerSlot(key) => INDEXERS + "/" + key
    case InviteSlot(nonce) => INVITES + "/" + nonce
    case AgentSlot(handle) => AGENTS + "/" + handle
    case NameSlot => PACT_NAME_KEY
    case PurposeSlot => PACT_PURPOSE_KEY
    case EntrySlot(RowKey(t, timestamp, id)) => TypeName(t) + "/" + timestamp + "/" + id
    case RefSlot(RefKey(target, source)) => "ref/" + target + "/" + source
  }

  function Lookup(s: State, slot: Slot): Option<Value> {
    match slot
    case MemberSlot(key) => if key in s.members then Some(Present) else None
    case IndexerSlot(key) => if key in s.indexers then Some(Present) else None
    case InviteSlot(nonce) => if nonce in s.invites then Some(InviteValue(s.invites[nonce])) else None
    case AgentSlot(handle) => if handle in s.agents then Some(StampValue(s.agents[handle])) else None
    case NameSlot => if s.name.Some? then Some(StampValue(s.name.value)) else None
    case PurposeSlot => if s.purpose.Some? then Some(StampValue(s.purpose.value)) else None
    case EntrySlot(row) => if row in s.entries then Some(EntryValue(s.entries[row])) else None
    case RefSlot(ref) => if ref in s.refs then Some(EntryValue(s.refs[ref])) else None
  }

  /** The rows are exactly the ledger's slots: nothing missing, nothing else, every value right. */
  ghost predicate Represents(rows: Rows, s: State) {
    && (forall slot: Slot :: Find(rows, KeyOf(slot)) == Lookup(s, slot))
    && (forall k | k in rows :: exists slot: Slot :: KeyOf(slot) == k)
  }

  lemma LastSlash(x: string, u: string)
    requires '/' !in u
    ensures var s := x + "/" + u; s[|x|] == '/' && forall i | |x| < i < |s| :: s[i] != '/'
  {
    var s := x + "/" + u;
    forall i | |x| < i < |s| ensures s[i] != '/' { assert s[i] == u[i - |x| - 1]; }
  }

  lemma SplitLast(x: string, u: string, y: string, v: string)
    requires '/' !in u && '/' !in v
    requires x + "/" + u == y + "/" + v
    ensures x == y && u == v
  {
    LastSlash(x, u);
    LastSlash(y, v);
    var s := x + "/" + u;
    assert |x| == |y|;
    assert x == s[..|x|] == y;
    assert u == s[|x| + 1..] == v;
  }

  lemma SplitFirst(p: string, u: string, v: string)
    requires p + u == p + v
    ensures u == v
  {
    assert u == (p + u)[|p|..] && v == (p + v)[|p|..];
  }

  /** A number for each namespace, read off the first characters of a key. */
  function Namespace(k: string): int {
    if |k| < 2 then 0
    else if k[0] != '_' then
      if k[0] == 'k' then 1 else if k[0] == 't' then 2 else if k[0] == 's' then 3 else if k[0] == 'm' then 4 else 5
    else if k[1] == 'm' then 6
    else if k[1] == 'a' then 7
    else if |k| < 7 then 0
    else if k[1] == 'i' then (if k[3] == 'd' then 8 else 9)
    else if k[6] == 'n' then 10 else 11
  }

  function NamespaceOf(s: Slot): int {
    match s
    case MemberSlot(_) => 6
    case IndexerSlot(_) => 8
    case InviteSlot(_) => 9
    case AgentSlot(_) => 7
    case NameSlot => 10
    case PurposeSlot => 11
    case EntrySlot(row) => (match row.entryType case Knowledge => 1 case Task => 2 case Skill => 3 case Message => 4)
    case RefSlot(_) => 5
  }

  lemma NamespaceOfKey(s: Slot)
    ensures Namespace(KeyOf(s)) == NamespaceOf(s)
  {
  }

  /** No two slots share a key. */
  lemma KeysApart(a: Slot, b: Slot)
    requires KeyOf(a) == KeyOf(b)
    ensures a == b
  {
    NamespaceOfKey(a);
    NamespaceOfKey(b);
    match a {
      case MemberSlot(key) => SplitFirst(MEMBERS + "/", key, b.key);
      case IndexerSlot(key) => SplitFirst(INDEXERS + "/", key, b.key);
      case InviteSlot(nonce) => SplitFirst(INVITES + "/", nonce, b.nonce);
      case AgentSlot(handle) => SplitFirst(AGENTS + "/", handle, b.handle);
      case NameSlot =>
      case PurposeSlot =>
      case EntrySlot(RowKey(t, ts, id)) =>
        SplitLast(TypeName(t) + "/" + ts, id, TypeName(t) + "/" + b.row.timestamp, b.row.id);
        SplitFirst(TypeName(t) + "/", ts, b.row.timestamp);
      case RefSlot(RefKey(target, source)) =>
        SplitLast("ref/" + target, source, "ref/" + b.ref.target, b.ref.source);
        SplitFirst("ref/", target, b.ref.target);
    }
  }

  lemma PutRepresents(rows: Rows, s: State, slot: Slot, value: Value, s': State)
    requires Represents(rows, s)
    requires Lookup(s', slot) == Some(value)
    requires forall other: Slot | other != slot :: Lookup(s', other) == Lookup(s, other)
    ensures Represents(rows[KeyOf(slot) := value], s')
  {
    hide KeyOf, Lookup;
    var rows' := rows[KeyOf(slot) := value];
    forall other: Slot ensures Find(rows', KeyOf(other)) == Lookup(s', other) {
      if KeyOf(other) == KeyOf(slot) { KeysApart(other, slot); }
      assert Find(rows, KeyOf(other)) == Lookup(s, other);
    }
  }

  lemma DelRepresents(rows: Rows, s: State, slot: Slot, s': State)
    requires Represents(rows, s)
    requires Lookup(s', slot) == None
    requires forall other: Slot | other != slot :: Lookup(s', other) == Lookup(s, other)
    ensures Represents(rows - {KeyOf(slot)}, s')
  {
    hide KeyOf, Lookup;
    var rows' := rows - {KeyOf(slot)};
    forall other: Slot ensures Find(rows', KeyOf(other)) == Lookup(s', other) {
      if KeyOf(other) == KeyOf(slot) { KeysApart(other, slot); }
      assert Find(rows, KeyOf(other)) == Lookup(s, other);
    }
  }

  lemma PutMember(rows: Rows, s: State, key: string)
    requires Represents(rows, s)
    ensures Represents(rows["_members/" + key := Present], s.(members := s.members + {key}))
  {
    assert "_members/" == MEMBERS + "/";
    PutRepresents(rows, s, MemberSlot(key), Present, s.(members := s.members + {key}));
  }

  lemma PutIndexer(rows: Rows, s: State, key: string)
    requires Represents(rows, s)
    ensures Represents(rows["_indexers/" + key := Present], s.(indexers := s.indexers + {key}))
  {
    assert "_indexers/" == INDEXERS + "/";
    PutRepresents(rows, s, IndexerSlot(key), Present, s.(indexers := s.indexers + {key}));
  }

  lemma DelMember(rows: Rows, s: State, key: string)
    requires Represents(rows, s)
    ensures Represents(rows - {"_members/" + key}, s.(members := s.members - {key}))
  {
    assert "_members/" == MEMBERS + "/";
    DelRepresents(rows, s, MemberSlot(key), s.(members := s.members - {key}));
  }

  lemma DelIndexer(rows: Rows, s: State, key: string)
    requires Represents(rows, s)
    ensures Represents(rows - {"_indexers/" + key}, s.(indexers := s.indexers - {key}))
  {
    assert "_indexers/" == INDEXERS + "/";
    DelRepresents(rows, s, IndexerSlot(key), s.(indexers := s.indexers - {key}));
  }

  lemma DelWriter(rows: Rows, s: State, key: string)
    requires Represents(rows, s)
    ensures Represents(rows - {"_members/" + key} - {"_indexers/" + key},
                       s.(members := s.members - {key}, indexers := s.indexers - {key}))
  {
    hide Represents;
    DelMember(rows, s, key);
    DelIndexer(rows - {"_members/" + key}, s.(members := s.members - {key}), key);
  }

  lemma PutAgent(rows: Rows, s: State, handle: string, stamp: Stamp)
    requires Represents(rows, s)
    ensures Represents(rows["_agents/" + handle := StampValue(stamp)], s.(agents := s.agents[handle := stamp]))
  {
    assert "_agents/" == AGENTS + "/";
    PutRepresents(rows, s, AgentSlot(handle), StampValue(stamp), s.(agents := s.agents[handle := stamp]));
  }

  lemma PutName(rows: Rows, s: State, stamp: Stamp)
    requires Represents(rows, s)
    ensures Represents(rows[PACT_NAME_KEY := StampValue(stamp)], s.(name := Some(stamp)))
  {
    PutRepresents(rows, s, NameSlot, StampValue(stamp), s.(name := Some(stamp)));
  }

  lemma PutPurpose(rows: Rows, s: State, stamp: Stamp)
    requires Represents(rows, s)
    ensures Represents(rows[PACT_PURPOSE_KEY := StampValue(stamp)], s.(purpose := Some(stamp)))
  {
    PutRepresents(rows, s, PurposeSlot, StampValue(stamp), s.(purpose := Some(stamp)));
  }

  lemma PutInvite(rows: Rows, s: State, nonce: string, row: InviteRow)
    requires Represents(rows, s)
    ensures Represents(rows["_invites/" + nonce := InviteValue(row)], s.(invites := s.invites[nonce := row]))
  {
    assert "_invites/" == INVITES + "/";
    PutRepresents(rows, s, InviteSlot(nonce), InviteValue(row), s.(invites := s.invites[nonce := row]));
  }

  lemma PutEntry(rows: Rows, s: State, row: RowKey, stored: Stored)
    requires Represents(rows, s)
    ensures Represents(rows[TypeName(row.entryType) + "/" + row.timestamp + "/" + row.id := EntryValue(stored)],
                       s.(entries := s.entries[row := stored]))
  {
    PutRepresents(rows, s, EntrySlot(row), EntryValue(stored), s.(entries := s.entries[row := stored]));
  }

  lemma PutRef(rows: Rows, s: State, ref: RefKey, stored: Stored)
    requires Represents(rows, s)
    ensures Represents(rows["ref/" + ref.target + "/" + ref.source := EntryValue(stored)],
                       s.(refs := s.refs[ref := stored]))
  {
    PutRepresents(rows, s, RefSlot(ref), EntryValue(stored), s.(refs := s.refs[ref := stored]));
  }

  /** What a read finds under each prefix. */
  lemma Reads(rows: Rows, s: State, k: string)
    requires Represents(rows, s)
    ensures Find(rows, "_members/" + k) == Lookup(s, MemberSlot(k))
    ensures Find(rows, "_indexers/" + k) == Lookup(s, IndexerSlot(k))
    ensures Find(rows, "_invites/" + k) == Lookup(s, InviteSlot(k))
    ensures Find(rows, "_agents/" + k) == Lookup(s, AgentSlot(k))
    ensures Find(rows, PACT_NAME_KEY) == Lookup(s, NameSlot)
    ensures Find(rows, PACT_PURPOSE_KEY) == Lookup(s, PurposeSlot)
  {
    assert "_members/" == MEMBERS + "/" && "_indexers/" == INDEXERS + "/" && "_invites/" == INVITES + "/";
    assert "_agents/" == AGENTS + "/";
    assert Find(rows, KeyOf(MemberSlot(k))) == Lookup(s, MemberSlot(k));
    assert Find(rows, KeyOf(IndexerSlot(k))) == Lookup(s, IndexerSlot(k));
    assert Find(rows, KeyOf(InviteSlot(k))) == Lookup(s, InviteSlot(k));
    assert Find(rows, KeyOf(AgentSlot(k))) == Lookup(s, AgentSlot(k));
    assert Find(rows, KeyOf(NameSlot)) == Lookup(s, NameSlot);
    assert Find(rows, KeyOf(PurposeSlot)) == Lookup(s, PurposeSlot);
  }

  lemma UnderIsPrefix(p: string, k: string)
    ensures InRange(Under(p), k) <==> p + "/" <= k
  {
    PrefixRange(p, k);
  }

  lemma SetPrefixes(slot: Slot)
    ensures MEMBERS + "/" <= KeyOf(slot) <==> slot.MemberSlot?
    ensures INDEXERS + "/" <= KeyOf(slot) <==> slot.IndexerSlot?
  {
    var k := KeyOf(slot);
    NamespaceOfKey(slot);
    if MEMBERS + "/" <= k { assert k[0] == (MEMBERS + "/")[0] && k[1] == (MEMBERS + "/")[1]; }
    if INDEXERS + "/" <= k {
      assert k[0] == (INDEXERS + "/")[0] && k[1] == (INDEXERS + "/")[1] && k[3] == (INDEXERS + "/")[3];
    }
  }

  const MEMBER_RANGE := Range(Some("_members/"), None, "_members0")
  const INDEXER_RANGE := Range(Some("_indexers/"), None, "_indexers0")

  lemma Ranges()
    ensures MEMBER_RANGE == Under(MEMBERS) && INDEXER_RANGE == Under(INDEXERS)
  {
    assert MEMBERS + "/" == "_members/" && MEMBERS + "0" == "_members0";
    assert INDEXERS + "/" == "_indexers/" && INDEXERS + "0" == "_indexers0";
  }

  /** The range of `_members/` is empty exactly when nobody is a member. */
  lemma MembersPeek(rows: Rows, s: State)
    requires Represents(rows, s)
    ensures (forall k | k in rows :: !InRange(MEMBER_RANGE, k)) <==> s.members == {}
  {
    Ranges();
    forall k | k in rows && InRange(Under(MEMBERS), k) ensures s.members != {} {
      UnderIsPrefix(MEMBERS, k);
      var slot :| KeyOf(slot) == k;
      SetPrefixes(slot);
      assert Find(rows, KeyOf(slot)) == Lookup(s, slot);
    }
    if m :| m in s.members {
      var slot := MemberSlot(m);
      assert Find(rows, KeyOf(slot)) == Lookup(s, slot);
      SetPrefixes(slot);
      UnderIsPrefix(MEMBERS, KeyOf(slot));
    }
  }

  /** The range of `_indexers/` is empty exactly when nobody is an indexer. */
  lemma IndexersPeek(rows: Rows, s: State)
    requires Represents(rows, s)
    ensures (forall k | k in rows :: !InRange(INDEXER_RANGE, k)) <==> s.indexers == {}
  {
    Ranges();
    forall k | k in rows && InRange(Under(INDEXERS), k) ensures s.indexers != {} {
      UnderIsPrefix(INDEXERS, k);
      var slot :| KeyOf(slot) == k;
      SetPrefixes(slot);
      assert Find(rows, KeyOf(slot)) == Lookup(s, slot);
    }
    if m :| m in s.indexers {
      var slot := IndexerSlot(m);
      assert Find(rows, KeyOf(slot)) == Lookup(s, slot);
      SetPrefixes(slot);
      UnderIsPrefix(INDEXERS, KeyOf(slot));
    }
  }

  lemma EmptyRepresents()
    ensures Represents(map[], EMPTY)
  {
  }
}
