/** Browsable rows and reverse references over whole runs: they are exactly those of
    the posts in the log, in whatever order the log was linearised. */
module BrowsableRows {
  import opened Entries
  import opened Ledger
  import EntryIds

  predicate IsPost(derive: string -> string, n: Node) {
    Gate(derive, n).Ok? && Gate(derive, n).value.entry.body.Post?
  }

  function StoredOf(derive: string -> string, n: Node): Stored
    requires IsPost(derive, n)
  {
    Stored(NodeId(n), Gate(derive, n).value.entry)
  }

  /** The posts of a log, whatever their order. */
  function PostsOf(derive: string -> string, nodes: seq<Node>): set<Stored> {
    set n | n in nodes && IsPost(derive, n) :: StoredOf(derive, n)
  }

  predicate WellStored(p: Stored) { '/' !in p.id && p.entry.body.Post? }

  function RowOf(p: Stored): RowKey
    requires WellStored(p)
  {
    RowKey(TypeOf(p.entry.body.content), p.entry.timestamp, p.id)
  }

  /** Eight characters of the writer key and the sequence number: what an id is made of. */
  function Position(n: Node): (string, nat)
    requires n.writerKey.Some?
  {
    (n.writerKey.value[..EntryIds.SHORT_LEN], if n.length.Some? then n.length.value else 0)
  }

  ghost predicate DistinctPositions(nodes: seq<Node>) {
    forall i, j | 0 <= i < j < |nodes| && nodes[i].writerKey.Some? && nodes[j].writerKey.Some? ::
      Position(nodes[i]) != Position(nodes[j])
  }

  /** The rows are those of the posts: none missing, none else. */
  ghost predicate RowsOf(posts: set<Stored>, entries: map<RowKey, Stored>) {
    && (forall k | k in entries :: entries[k] in posts && WellStored(entries[k]) && RowOf(entries[k]) == k)
    && (forall p | p in posts :: WellStored(p) && RowOf(p) in entries && entries[RowOf(p)] == p)
  }

  predicate Refers(p: Stored, target: string) { target in p.entry.refs && target != "" }

  /** The reverse references are those of the posts: none missing, none else. */
  ghost predicate RefsOf(posts: set<Stored>, refs: map<RefKey, Stored>) {
    && (forall r | r in refs :: refs[r] in posts && Refers(refs[r], r.target) && r.source == refs[r].id)
    && (forall p, t | p in posts && Refers(p, t) ::
        '/' !in p.id && RefKey(t, p.id) in refs && refs[RefKey(t, p.id)] == p)
  }

  lemma PositionOfId(a: Node, b: Node)
    requires a.writerKey.Some? && b.writerKey.Some? && NodeId(a) == NodeId(b)
    ensures Position(a) == Position(b)
  {
    EntryIds.LowerOfHex(a.writerKey.value);
    EntryIds.LowerOfHex(b.writerKey.value);
    EntryIds.EncodeInjective(a.writerKey.value, Position(a).1, b.writerKey.value, Position(b).1);
  }

  lemma DispatchRows(s: State, a: Authored, id: Id)
    ensures var o := Dispatch(s, a, id); var p := Stored(id, a.entry);
      if a.entry.body.Post? then
        && WellStored(p)
        && o.state.entries == s.entries[RowOf(p) := p] && o.state.refs == s.refs + RefRows(p.entry.refs, p)
        && o.event == AppliedEntry(RowOf(p), p)
      else
        o.state.entries == s.entries && o.state.refs == s.refs && !o.event.AppliedEntry?
  {
    hide RefRows;
  }

  /** Anything but a post leaves rows and references alone; a post adds its own. */
  lemma StepRows(derive: string -> string, s: State, n: Node)
    ensures var o := Step(derive, s, n);
      if IsPost(derive, n) then
        && WellStored(StoredOf(derive, n))
        && o.state.entries == s.entries[RowOf(StoredOf(derive, n)) := StoredOf(derive, n)]
        && o.state.refs == s.refs + RefRows(StoredOf(derive, n).entry.refs, StoredOf(derive, n))
        && o.event == AppliedEntry(RowOf(StoredOf(derive, n)), StoredOf(derive, n))
      else
        o.state.entries == s.entries && o.state.refs == s.refs && !o.event.AppliedEntry?
  {
    hide Greet, NodeId, Dispatch, RefRows;
    match Gate(derive, n) {
      case Err(_) =>
      case Ok(a) =>
        GreetFrame(s, a);
        DispatchRows(Greet(s, a), a, NodeId(n));
    }
  }

  lemma RowsAfterPost(posts: set<Stored>, entries: map<RowKey, Stored>, p: Stored)
    requires RowsOf(posts, entries) && WellStored(p)
    requires forall q | q in posts :: q.id != p.id
    ensures RowsOf(posts + {p}, entries[RowOf(p) := p])
    ensures RowOf(p) !in entries
  {
  }

  lemma RefsAfterPost(posts: set<Stored>, refs: map<RefKey, Stored>, p: Stored)
    requires RefsOf(posts, refs) && WellStored(p)
    requires forall q | q in posts :: q.id != p.id
    ensures RefsOf(posts + {p}, refs + RefRows(p.entry.refs, p))
  {
    var refs' := refs + RefRows(p.entry.refs, p);
    forall r | r in refs' ensures refs'[r] in posts + {p} && Refers(refs'[r], r.target) && r.source == refs'[r].id {
      if r in RefRows(p.entry.refs, p) {} else { assert refs[r] in posts; }
    }
    forall q, t | q in posts + {p} && Refers(q, t)
      ensures '/' !in q.id && RefKey(t, q.id) in refs' && refs'[RefKey(t, q.id)] == q
    {
      if q in posts { assert q.id != p.id; assert RefKey(t, q.id) !in RefRows(p.entry.refs, p); }
      else { assert RefKey(t, p.id) in RefRows(p.entry.refs, p); }
    }
  }

  lemma PostsOfStep(derive: string -> string, nodes: seq<Node>)
    requires nodes != []
    ensures var last := nodes[|nodes| - 1]; var before := PostsOf(derive, nodes[..|nodes| - 1]);
      PostsOf(derive, nodes) == if IsPost(derive, last) then before + {StoredOf(derive, last)} else before
  {
    var last := nodes[|nodes| - 1];
    assert nodes == nodes[..|nodes| - 1] + [last];
    assert forall n :: n in nodes <==> n in nodes[..|nodes| - 1] || n == last;
  }

  function CountEntries(events: seq<Event>): nat {
    if events == [] then 0
    else CountEntries(events[..|events| - 1]) + if events[|events| - 1].AppliedEntry? then 1 else 0
  }

  /** A post that comes after others at distinct positions has a new id. */
  lemma NewId(derive: string -> string, nodes: seq<Node>, q: Stored)
    requires nodes != [] && DistinctPositions(nodes)
    requires IsPost(derive, nodes[|nodes| - 1]) && q in PostsOf(derive, nodes[..|nodes| - 1])
    ensures q.id != NodeId(nodes[|nodes| - 1])
  {
    var k := |nodes| - 1;
    var n :| n in nodes[..k] && IsPost(derive, n) && StoredOf(derive, n) == q;
    var i :| 0 <= i < k && nodes[i] == n;
    if q.id == NodeId(nodes[k]) { PositionOfId(n, nodes[k]); }
  }

  lemma StoredId(derive: string -> string, n: Node)
    requires IsPost(derive, n)
    ensures n.writerKey.Some? && StoredOf(derive, n).id == NodeId(n)
  {
  }

  /** From the empty view, nodes at distinct positions leave one row per post, nothing
      else, and as many rows as `entry` events were reported. */
  lemma {:induction false} RowsAreThePosts(derive: string -> string, nodes: seq<Node>)
    requires DistinctPositions(nodes)
    ensures RowsOf(PostsOf(derive, nodes), Run(derive, EMPTY, nodes).entries)
    ensures RefsOf(PostsOf(derive, nodes), Run(derive, EMPTY, nodes).refs)
    ensures |Run(derive, EMPTY, nodes).entries| == CountEntries(Events(derive, EMPTY, nodes))
  {
    if nodes == [] {
    } else {
      hide Step, RowsOf, RefsOf, IsPost, StoredOf, PostsOf, RefRows;
      var k := |nodes| - 1;
      RowsAreThePosts(derive, nodes[..k]);
      var s := Run(derive, EMPTY, nodes[..k]);
      RunStep(derive, EMPTY, nodes, k);
      assert nodes[..k + 1] == nodes;
      StepRows(derive, s, nodes[k]);
      PostsOfStep(derive, nodes);
      if IsPost(derive, nodes[k]) {
        var posts, p := PostsOf(derive, nodes[..k]), StoredOf(derive, nodes[k]);
        forall q | q in posts ensures q.id != p.id { NewId(derive, nodes, q); StoredId(derive, nodes[k]); }
        RowsAfterPost(posts, s.entries, p);
        RefsAfterPost(posts, s.refs, p);
      }
    }
  }

  /** Posts at distinct positions have ids of their own. */
  lemma IdNamesPost(derive: string -> string, nodes: seq<Node>, p: Stored, q: Stored)
    requires DistinctPositions(nodes) && p in PostsOf(derive, nodes) && q in PostsOf(derive, nodes) && p.id == q.id
    ensures p == q
  {
    hide NodeId, Gate;
    var m :| m in nodes && IsPost(derive, m) && StoredOf(derive, m) == p;
    var n :| n in nodes && IsPost(derive, n) && StoredOf(derive, n) == q;
    StoredId(derive, m);
    StoredId(derive, n);
    PositionOfId(m, n);
    var i :| 0 <= i < |nodes| && nodes[i] == m;
    var j :| 0 <= j < |nodes| && nodes[j] == n;
  }

  lemma RowsUnique(posts: set<Stored>, a: map<RowKey, Stored>, b: map<RowKey, Stored>)
    requires RowsOf(posts, a) && RowsOf(posts, b)
    ensures a == b
  {
    forall k | k in a ensures k in b && a[k] == b[k] { assert a[k] in posts; }
    forall k | k in b ensures k in a { assert b[k] in posts; }
  }

  lemma RefsUnique(posts: set<Stored>, a: map<RefKey, Stored>, b: map<RefKey, Stored>)
    requires RefsOf(posts, a) && RefsOf(posts, b)
    ensures a == b
  {
    forall r | r in a ensures r in b && a[r] == b[r] { assert r == RefKey(r.target, a[r].id); }
    forall r | r in b ensures r in a { assert r == RefKey(r.target, b[r].id); }
  }

  lemma SamePosts(derive: string -> string, a: seq<Node>, b: seq<Node>)
    requires multiset(a) == multiset(b)
    ensures PostsOf(derive, a) == PostsOf(derive, b)
  {
    forall n ensures n in a <==> n in b {
      assert n in a <==> n in multiset(a);
      assert n in b <==> n in multiset(b);
    }
  }

  /** Two linearisations of the same nodes leave the same rows and the same reverse references. */
  lemma {:induction false} LinearisationIndependent(derive: string -> string, a: seq<Node>, b: seq<Node>)
    requires multiset(a) == multiset(b)
    requires DistinctPositions(a) && DistinctPositions(b)
    ensures Run(derive, EMPTY, a).entries == Run(derive, EMPTY, b).entries
    ensures Run(derive, EMPTY, a).refs == Run(derive, EMPTY, b).refs
  {
    hide PostsOf, RowsOf, RefsOf, Run, DistinctPositions;
    RowsAreThePosts(derive, a);
    RowsAreThePosts(derive, b);
    SamePosts(derive, a, b);
    RowsUnique(PostsOf(derive, a), Run(derive, EMPTY, a).entries, Run(derive, EMPTY, b).entries);
    RefsUnique(PostsOf(derive, a), Run(derive, EMPTY, a).refs, Run(derive, EMPTY, b).refs);
  }

  lemma PrefixPosts(derive: string -> string, nodes: seq<Node>, i: nat, p: Stored)
    requires i <= |nodes| && p in PostsOf(derive, nodes[..i])
    ensures p in PostsOf(derive, nodes)
  {
    var n :| n in nodes[..i] && IsPost(derive, n) && StoredOf(derive, n) == p;
    assert n in nodes;
  }

  /** A stored row is never removed and never overwritten by the rest of the run. */
  lemma {:induction false} AppendOnly(derive: string -> string, nodes: seq<Node>, i: nat, k: RowKey)
    requires i <= |nodes| && DistinctPositions(nodes)
    requires k in Run(derive, EMPTY, nodes[..i]).entries
    ensures k in Run(derive, EMPTY, nodes).entries
    ensures Run(derive, EMPTY, nodes).entries[k] == Run(derive, EMPTY, nodes[..i]).entries[k]
  {
    hide PostsOf, Run;
    RowsAreThePosts(derive, nodes[..i]);
    RowsAreThePosts(derive, nodes);
    PrefixPosts(derive, nodes, i, Run(derive, EMPTY, nodes[..i]).entries[k]);
  }
}
