/** What the queries find in a view the reducer built: the two ways of finding
    references agree, and replicas answer alike. */
module ReverseIndex {
  import opened Results
  import opened Entries
  import opened Ledger
  import opened LedgerKeys
  import opened Lexicographic
  import opened Store
  import opened Views
  import opened BrowsableRows
  import Apply

  /** A view as some run of the reducer leaves it, with one writer position per node. */
  ghost predicate Reached(derive: string -> string, nodes: seq<Node>, rows: Rows) {
    DistinctPositions(nodes) && Represents(rows, Run(derive, EMPTY, nodes))
  }

  lemma EntryPrefixes(slot: Slot, t: EntryType)
    ensures TypeName(t) + "/" <= KeyOf(slot) <==> slot.EntrySlot? && slot.row.entryType == t
  {
    var k := KeyOf(slot);
    NamespaceOfKey(slot);
    if TypeName(t) + "/" <= k { assert k[0] == TypeName(t)[0]; }
  }

  lemma RefPrefix(slot: Slot)
    ensures "ref/" <= KeyOf(slot) <==> slot.RefSlot?
  {
    NamespaceOfKey(slot);
    if "ref/" <= KeyOf(slot) { assert KeyOf(slot)[0] == 'r'; }
  }

  lemma AtSlot(rows: Rows, s: State, slot: Slot)
    requires Represents(rows, s)
    ensures Find(rows, KeyOf(slot)) == Lookup(s, slot)
  {
  }

  lemma SlotOf(rows: Rows, s: State, k: string) returns (slot: Slot)
    requires Represents(rows, s) && k in rows
    ensures KeyOf(slot) == k && Lookup(s, slot) == Some(rows[k])
  {
    slot :| KeyOf(slot) == k;
    AtSlot(rows, s, slot);
  }

  lemma {:induction false} RowUnderType(derive: string -> string, nodes: seq<Node>, rows: Rows, t: EntryType, k: string)
    returns (p: Stored)
    requires Reached(derive, nodes, rows) && k in rows && TypeName(t) + "/" <= k
    ensures rows[k] == EntryValue(p)
    ensures p in PostsOf(derive, nodes) && p.entry.body.Post? && TypeOf(p.entry.body.content) == t
  {
    hide PostsOf, Run, Represents, KeyOf;
    var s := Run(derive, EMPTY, nodes);
    RowsAreThePosts(derive, nodes);
    var slot := SlotOf(rows, s, k);
    EntryPrefixes(slot, t);
    p := s.entries[slot.row];
  }

  lemma {:induction false} TypeRowOf(derive: string -> string, nodes: seq<Node>, rows: Rows, p: Stored)
    returns (k: string)
    requires Reached(derive, nodes, rows) && p in PostsOf(derive, nodes) && p.entry.body.Post?
    ensures k in rows && TypeName(TypeOf(p.entry.body.content)) + "/" <= k && rows[k] == EntryValue(p)
  {
    hide PostsOf, Run, Represents, KeyOf;
    var s := Run(derive, EMPTY, nodes);
    RowsAreThePosts(derive, nodes);
    var slot := EntrySlot(RowOf(p));
    AtSlot(rows, s, slot);
    EntryPrefixes(slot, TypeOf(p.entry.body.content));
    k := KeyOf(slot);
  }

  /** The rows under a type are the posts of that type. */
  lemma {:induction false} RowsUnderType(derive: string -> string, nodes: seq<Node>, rows: Rows, t: EntryType,
                                         p: Stored)
    requires Reached(derive, nodes, rows)
    ensures (exists k | k in rows && TypeName(t) + "/" <= k :: rows[k] == EntryValue(p)) <==>
            p in PostsOf(derive, nodes) && p.entry.body.Post? && TypeOf(p.entry.body.content) == t
    ensures forall k | k in rows && TypeName(t) + "/" <= k :: rows[k].EntryValue?
  {
    hide PostsOf, Reached;
    forall k | k in rows && TypeName(t) + "/" <= k ensures rows[k].EntryValue? {
      var q := RowUnderType(derive, nodes, rows, t, k);
    }
    if k :| k in rows && TypeName(t) + "/" <= k && rows[k] == EntryValue(p) {
      var q := RowUnderType(derive, nodes, rows, t, k);
    }
    if p in PostsOf(derive, nodes) && p.entry.body.Post? && TypeOf(p.entry.body.content) == t {
      var k := TypeRowOf(derive, nodes, rows, p);
    }
  }

  /** A reference key starts with `ref/<target>/` when its own target is `target` or extends `target/`. */
  lemma RefKeyUnder(target: string, r: RefKey)
    ensures "ref/" + target + "/" <= KeyOf(RefSlot(r)) <==> r.target == target || target + "/" <= r.target
  {
    var p, k := "ref/" + target + "/", KeyOf(RefSlot(r));
    assert k == "ref/" + (r.target + "/" + r.source);
    assert p == "ref/" + (target + "/");
    var tail := r.target + "/" + r.source;
    assert tail == k[4..] && target + "/" == p[4..];
    assert p <= k <==> target + "/" <= tail;
    LastSlash(r.target, r.source);
    if target + "/" <= tail {
      assert tail[|target|] == '/';
      assert |target| <= |r.target|;
      assert tail[..|target| + 1] == target + "/";
      if |target| == |r.target| { assert r.target == tail[..|r.target|] == target; }
      else { assert r.target[..|target| + 1] == tail[..|target| + 1]; }
    }
    if target + "/" <= r.target { assert tail[..|target| + 1] == r.target[..|target| + 1]; }
  }

  /** What the reverse index yields for a target, whatever the targets look like. */
  ghost predicate RefersUnder(p: Stored, target: string) {
    exists t | t in p.entry.refs :: Refers(p, t) && (t == target || target + "/" <= t)
  }

  lemma {:induction false} RefRowUnder(derive: string -> string, nodes: seq<Node>, rows: Rows, target: string,
                                       p: Stored, k: string)
    requires Reached(derive, nodes, rows)
    requires k in rows && "ref/" + target + "/" <= k && rows[k] == EntryValue(p)
    ensures p in PostsOf(derive, nodes) && RefersUnder(p, target)
  {
    hide PostsOf, Run, Represents, KeyOf;
    var s := Run(derive, EMPTY, nodes);
    RowsAreThePosts(derive, nodes);
    var slot := SlotOf(rows, s, k);
    assert "ref/" <= "ref/" + target + "/";
    RefPrefix(slot);
    RefKeyUnder(target, slot.ref);
    assert Refers(p, slot.ref.target);
  }

  lemma {:induction false} RefRowOf(derive: string -> string, nodes: seq<Node>, rows: Rows, target: string, p: Stored)
    returns (k: string)
    requires Reached(derive, nodes, rows)
    requires p in PostsOf(derive, nodes) && RefersUnder(p, target)
    ensures k in rows && "ref/" + target + "/" <= k && rows[k] == EntryValue(p)
  {
    hide PostsOf, Run, Represents, KeyOf;
    var s := Run(derive, EMPTY, nodes);
    RowsAreThePosts(derive, nodes);
    var t :| t in p.entry.refs && Refers(p, t) && (t == target || target + "/" <= t);
    var slot := RefSlot(RefKey(t, p.id));
    AtSlot(rows, s, slot);
    RefKeyUnder(target, RefKey(t, p.id));
    k := KeyOf(slot);
  }

  /** `findReferencedBy` yields exactly the posts that refer to the target or to a string that extends `target/`. */
  lemma {:induction false} ReferencedBy(derive: string -> string, nodes: seq<Node>, rows: Rows, target: string,
                                        p: Stored)
    requires Reached(derive, nodes, rows)
    ensures p in EntriesAt(rows, Stream(rows, ReferenceRange(target), false)) <==>
            p in PostsOf(derive, nodes) && RefersUnder(p, target)
  {
    hide PostsOf, Reached, RefersUnder, InRange, EntriesAt, Stream;
    var stream := Stream(rows, ReferenceRange(target), false);
    forall k ensures k in stream <==> k in rows && "ref/" + target + "/" <= k { UnderIsPrefix("ref/" + target, k); }
    if p in EntriesAt(rows, stream) {
      var k :| k in stream && rows[k] == EntryValue(p);
      RefRowUnder(derive, nodes, rows, target, p, k);
    }
    if p in PostsOf(derive, nodes) && RefersUnder(p, target) { var k := RefRowOf(derive, nodes, rows, target, p); }
  }

  /** No post refers to a string that extends `target/` without also referring to `target`:
      so always when targets have no slash. */
  ghost predicate Separated(posts: set<Stored>, target: string) {
    forall p | p in posts && RefersUnder(p, target) :: Refers(p, target)
  }

  /** For a non-empty target the index returns exactly the entries whose `refs` contain it,
      if and only if references are separated there. */
  lemma {:induction false} IndexIsExactWhenSeparated(derive: string -> string, nodes: seq<Node>, rows: Rows,
                                                     target: string)
    requires Reached(derive, nodes, rows) && target != ""
    ensures (forall p ::
              p in EntriesAt(rows, Stream(rows, ReferenceRange(target), false)) <==>
                  p in PostsOf(derive, nodes) && target in p.entry.refs)
            <==> Separated(PostsOf(derive, nodes), target)
  {
    hide PostsOf, Run, Represents, InRange, KeyOf;
    var found := EntriesAt(rows, Stream(rows, ReferenceRange(target), false));
    forall p ensures p in found <==> p in PostsOf(derive, nodes) && RefersUnder(p, target) {
      ReferencedBy(derive, nodes, rows, target, p);
    }
    if forall p :: p in found <==> p in PostsOf(derive, nodes) && target in p.entry.refs {
      forall p | p in PostsOf(derive, nodes) && RefersUnder(p, target) ensures Refers(p, target) { assert p in found; }
    }
    forall p | p in PostsOf(derive, nodes) && target in p.entry.refs ensures RefersUnder(p, target) {
      assert Refers(p, target);
    }
  }

  lemma HasSlash(target: string, t: string)
    requires target + "/" <= t
    ensures '/' in t
  {
    assert t[|target|] == (target + "/")[|target|];
  }

  lemma SlashFreeIsSeparated(posts: set<Stored>, target: string)
    requires forall p, t | p in posts && t in p.entry.refs :: '/' !in t
    ensures Separated(posts, target)
  {
    forall p | p in posts && RefersUnder(p, target) ensures Refers(p, target) {
      var t :| t in p.entry.refs && Refers(p, t) && (t == target || target + "/" <= t);
      if target + "/" <= t { HasSlash(target, t); }
    }
  }

  /** A post whose only reference has a slash in it. */
  function SlashPost(derive: string -> string, writer: string): (n: Node)
    requires Hex(writer, 64) && derive(writer) != ""
  {
    RawNode(Accepted(Entry(Post(MessageContent("hello")), "2026-01-01T00:00:00Z", derive(writer), None, ["a/b"])),
            Some(writer), Some(1))
  }

  /** The index gives that post for the target "a", which it does not refer to. */
  lemma {:induction false} SlashTargetIsInexact(derive: string -> string, writer: string, rows: Rows)
    requires Hex(writer, 64) && derive(writer) != "" && Reached(derive, [SlashPost(derive, writer)], rows)
    ensures var nodes := [SlashPost(derive, writer)];
      && !Separated(PostsOf(derive, nodes), "a")
      && exists p :: p in EntriesAt(rows, Stream(rows, ReferenceRange("a"), false)) && "a" !in p.entry.refs
  {
    hide Run, Represents, InRange, NodeId, Reached, EntriesAt, Stream;
    var n := SlashPost(derive, writer);
    var nodes := [n];
    assert n in nodes;
    var p := StoredOf(derive, n);
    assert p in PostsOf(derive, nodes);
    assert "a" + "/" <= "a/b" && "a/b" in p.entry.refs;
    ReferencedBy(derive, nodes, rows, "a", p);
  }

  /** `findRefs` yields exactly the posts of the type that have the id or refer to it. */
  lemma {:induction false} FoundRefs(derive: string -> string, nodes: seq<Node>, rows: Rows, t: EntryType,
                                     refId: string, p: Stored)
    requires Reached(derive, nodes, rows)
    ensures p in RefsIn(rows, t, refId) <==>
            p in PostsOf(derive, nodes) && p.entry.body.Post? && TypeOf(p.entry.body.content) == t &&
                (p.id == refId || refId in p.entry.refs)
  {
    hide PostsOf, Run, Represents, InRange;
    RowsUnderType(derive, nodes, rows, t, p);
    var stream := Stream(rows, Under(TypeName(t)), false);
    forall k ensures k in stream <==> k in rows && TypeName(t) + "/" <= k { UnderIsPrefix(TypeName(t), k); }
  }

  /** Both lookups give an entry for each row they find, in key order: none twice. */
  lemma LookupsInOrder(rows: Rows, t: EntryType, refId: string)
    returns (refKeys: seq<string>, byKeys: seq<string>)
    requires forall k | k in rows && "ref/" + refId + "/" <= k :: rows[k].EntryValue?
    ensures FoundAt(rows, refKeys, RefsIn(rows, t, refId))
    ensures FoundAt(rows, byKeys, EntriesAt(rows, Stream(rows, ReferenceRange(refId), false)))
  {
    hide InRange, EntriesAt, FoundAt;
    var stream := Stream(rows, Under(TypeName(t)), false);
    StreamInOrder(rows, Under(TypeName(t)), Asc);
    KeptInOrder(rows, stream, HistoryFilter(refId), Asc);
    refKeys := Kept(rows, stream, HistoryFilter(refId));
    FoundInOrder(rows, refKeys);
    byKeys := Stream(rows, ReferenceRange(refId), false);
    StreamInOrder(rows, ReferenceRange(refId), Asc);
    forall k | k in byKeys ensures k in rows && rows[k].EntryValue? { UnderIsPrefix("ref/" + refId, k); }
    FoundInOrder(rows, byKeys);
  }

  lemma RefRowIsEntry(rows: Rows, s: State, k: string)
    requires Represents(rows, s) && k in rows && "ref/" <= k
    ensures rows[k].EntryValue?
  {
    var slot := SlotOf(rows, s, k);
    RefPrefix(slot);
  }

  /** So it is in every view that the reducer built. */
  lemma {:induction false} LookupsAreOrdered(derive: string -> string, nodes: seq<Node>, rows: Rows, t: EntryType,
                                             refId: string)
    requires Reached(derive, nodes, rows)
    ensures exists keys :: FoundAt(rows, keys, RefsIn(rows, t, refId))
    ensures exists keys :: FoundAt(rows, keys, EntriesAt(rows, Stream(rows, ReferenceRange(refId), false)))
  {
    hide Run, Represents, FoundAt, RefsIn, EntriesAt, Stream;
    forall k | k in rows && "ref/" + refId + "/" <= k ensures rows[k].EntryValue? {
      RefRowIsEntry(rows, Run(derive, EMPTY, nodes), k);
    }
    var refKeys, byKeys := LookupsInOrder(rows, t, refId);
  }

  /** With references separated at a non-empty target, the indexed lookup and the linear
      scan agree on each type, the target entry itself set aside. */
  lemma {:induction false} IndexAgreesWithScan(derive: string -> string, nodes: seq<Node>, rows: Rows, t: EntryType,
                                               target: string, p: Stored)
    requires Reached(derive, nodes, rows) && target != "" && Separated(PostsOf(derive, nodes), target)
    requires p.entry.body.Post? && TypeOf(p.entry.body.content) == t && p.id != target
    ensures p in EntriesAt(rows, Stream(rows, ReferenceRange(target), false)) <==> p in RefsIn(rows, t, target)
  {
    hide PostsOf, Run, Represents, InRange, EntriesAt, RefsIn;
    ReferencedBy(derive, nodes, rows, target, p);
    FoundRefs(derive, nodes, rows, t, target, p);
    if target in p.entry.refs { assert Refers(p, target); }
  }

  // ── Replicas ─────────────────────────────────────────────────────────────────

  lemma RowCarriesOver(ra: Rows, rb: Rows, sa: State, sb: State, t: EntryType, k: string)
    requires Represents(ra, sa) && Represents(rb, sb) && sa.entries == sb.entries && sa.refs == sb.refs
    requires k in ra && (TypeName(t) + "/" <= k || "ref/" <= k)
    ensures Find(rb, k) == Some(ra[k])
  {
    var slot := SlotOf(ra, sa, k);
    EntryPrefixes(slot, t);
    RefPrefix(slot);
    AtSlot(rb, sb, slot);
  }

  /** Two linearisations of the same nodes leave the same row at every key under an
      entry type and at every key under `ref/`. */
  lemma {:induction false} ReplicasAgree(derive: string -> string, a: seq<Node>, b: seq<Node>, ra: Rows, rb: Rows,
                                         t: EntryType, k: string)
    requires multiset(a) == multiset(b) && Reached(derive, a, ra) && Reached(derive, b, rb)
    requires TypeName(t) + "/" <= k || "ref/" <= k
    ensures Find(ra, k) == Find(rb, k)
  {
    hide Represents, KeyOf, Run;
    LinearisationIndependent(derive, a, b);
    if k in ra { RowCarriesOver(ra, rb, Run(derive, EMPTY, a), Run(derive, EMPTY, b), t, k); }
    if k in rb { RowCarriesOver(rb, ra, Run(derive, EMPTY, b), Run(derive, EMPTY, a), t, k); }
  }

  lemma {:induction false} KeptDependsOnRows(ra: Rows, rb: Rows, keys: seq<string>, filter: Value -> bool)
    requires forall k | k in keys :: k in ra && k in rb && ra[k] == rb[k]
    ensures Kept(ra, keys, filter) == Kept(rb, keys, filter)
    ensures EntriesAt(ra, Kept(ra, keys, filter)) == EntriesAt(rb, Kept(rb, keys, filter))
  {
    if keys == [] {
    } else {
      var n := |keys| - 1;
      KeptDependsOnRows(ra, rb, keys[..n], filter);
      if filter(ra[keys[n]]) {
        EntriesAtAppend(ra, Kept(ra, keys[..n], filter), keys[n]);
        EntriesAtAppend(rb, Kept(rb, keys[..n], filter), keys[n]);
      }
    }
  }

  /** So they answer a history lookup alike, in the same order. */
  lemma {:induction false} ReplicasFindTheSame(derive: string -> string, a: seq<Node>, b: seq<Node>, ra: Rows,
                                               rb: Rows, t: EntryType, refId: string)
    requires multiset(a) == multiset(b) && Reached(derive, a, ra) && Reached(derive, b, rb)
    ensures RefsIn(ra, t, refId) == RefsIn(rb, t, refId)
  {
    hide Represents, InRange, Reached;
    var sa, sb := Stream(ra, Under(TypeName(t)), false), Stream(rb, Under(TypeName(t)), false);
    forall k ensures k in sa <==> k in sb {
      UnderIsPrefix(TypeName(t), k);
      if TypeName(t) + "/" <= k { ReplicasAgree(derive, a, b, ra, rb, t, k); }
    }
    AscendingUnique(sa, sb);
    forall k | k in sa ensures ra[k] == rb[k] {
      UnderIsPrefix(TypeName(t), k);
      ReplicasAgree(derive, a, b, ra, rb, t, k);
    }
    KeptDependsOnRows(ra, rb, sa, HistoryFilter(refId));
  }

  // ── From a fresh view ────────────────────────────────────────────────────────

  /** A replica that applies a log to an empty view reaches a view of that log, which is what
      the results about reached views speak of. */
  method Replay(derive: string -> string, nodes: seq<Node>) returns (rows: Rows, events: seq<Event>)
    requires DistinctPositions(nodes)
    ensures Reached(derive, nodes, rows) && events == Events(derive, EMPTY, nodes)
  {
    hide Represents;
    var view := new View();
    var host := new Host();
    EmptyRepresents();
    events := Apply.Apply(derive, nodes, view, host, EMPTY);
    rows := view.rows;
  }
}
