/** Leaving a pact: a self-removal is appended unless this peer is its only indexer. */
module Leaving {
  import opened Results
  import opened Entries
  import opened Ledger
  import opened LedgerKeys
  import opened Lexicographic
  import opened Store
  import Authority

  const PREFIX := "_indexers/"
  const INDEXER_SCAN := Range(Some(PREFIX), None, PREFIX + "\U{FFFF}")

  ghost predicate HexIndexers(s: State) {
    forall k | k in s.indexers :: Hex(k, 64)
  }

  /** The writer keys in a ledger a run can reach are 64 hex characters. */
  lemma {:induction false} RunHasHexIndexers(derive: string -> string, nodes: seq<Node>)
    ensures HexIndexers(Run(derive, EMPTY, nodes))
  {
    if nodes == [] {
    } else {
      hide Step;
      var k := |nodes| - 1;
      RunHasHexIndexers(derive, nodes[..k]);
      Authority.StepSets(derive, Run(derive, EMPTY, nodes[..k]), nodes[k]);
    }
  }

  lemma PrefixIsIndexers()
    ensures PREFIX == INDEXERS + "/" && |PREFIX| == 10
  {
  }

  /** The scan up to U+FFFF streams exactly the rows of the indexers. */
  lemma ScanIsIndexers(rows: Rows, s: State, k: string)
    requires Represents(rows, s) && HexIndexers(s)
    ensures k in rows && InRange(INDEXER_SCAN, k) <==> PREFIX <= k && k[|PREFIX|..] in s.indexers
  {
    PrefixIsIndexers();
    PrefixRangeToFFFF(PREFIX, k);
    if PREFIX <= k {
      var w := k[|PREFIX|..];
      assert k == KeyOf(IndexerSlot(w));
      assert Find(rows, KeyOf(IndexerSlot(w))) == Lookup(s, IndexerSlot(w));
      if |PREFIX| < |k| { assert k[|PREFIX|] == w[0]; }
    }
  }

  lemma SoleStream(stream: seq<string>, s: State, ourKey: string)
    requires Ascending(stream)
    requires forall k :: k in stream <==> PREFIX <= k && k[10..] in s.indexers
    ensures s.indexers == {ourKey} <==> stream == [PREFIX + ourKey]
  {
    forall w ensures (PREFIX + w)[10..] == w {}
    if stream == [PREFIX + ourKey] {
      forall w | w in s.indexers ensures w == ourKey {
        assert PREFIX + w in stream;
        assert (PREFIX + w)[10..] == (PREFIX + ourKey)[10..];
      }
      assert PREFIX + ourKey in stream;
    }
    if s.indexers == {ourKey} {
      assert PREFIX + ourKey in stream;
      forall k | k in stream ensures k == PREFIX + ourKey { assert k == k[..10] + k[10..]; }
      if |stream| > 1 {
        assert stream[0] in stream && stream[1] in stream;
        Trichotomy(stream[0], stream[1]);
      }
    }
  }

  /** Reads indexer rows until a second one shows up. A read that fails counts as "not
      sole": `failsAt` is the number of rows delivered before the failure, if any. */
  method IsSoleIndexer(view: View, ourKey: string, failsAt: Option<nat>, ghost s: State) returns (sole: bool)
    requires Represents(view.rows, s) && HexIndexers(s)
    ensures sole <==> s.indexers == {ourKey} && (failsAt.None? || failsAt.value > 1)
  {
    hide Represents, InRange;
    PrefixIsIndexers();
    var stream := Stream(view.rows, INDEXER_SCAN, false);
    assert Ascending(stream);
    forall k ensures k in stream <==> PREFIX <= k && k[10..] in s.indexers { ScanIsIndexers(view.rows, s, k); }
    var found: seq<string> := [];
    for i := 0 to |stream|
      invariant |found| == i <= 1
      invariant i == 1 ==> PREFIX <= stream[0] && found == [stream[0][10..]]
      invariant failsAt.Some? ==> i <= failsAt.value
    {
      if failsAt == Some(i) { return false; }
      assert stream[i] in stream;
      found := found + [stream[i][10..]];
      if |found| > 1 {
        assert stream[0] in stream && stream[1] in stream;
        SoleStream(stream, s, ourKey);
        return false;
      }
    }
    SoleStream(stream, s, ourKey);
    if failsAt == Some(|stream|) { return false; }
    if |stream| == 1 {
      assert stream[0] in stream && stream[0] == PREFIX + stream[0][10..];
      assert (PREFIX + ourKey)[10..] == ourKey;
    }
    sole := |found| == 1 && found[0] == ourKey;
  }

  /** Whether the self-removal goes out: the peer can write, and it was not found, by a read
      that got past the first row, to be the only indexer. */
  ghost predicate Appends(s: State, writable: bool, key: string, failsAt: Option<nat>) {
    writable && key != "" && !(s.indexers == {key} && (failsAt.None? || failsAt.value > 1))
  }

  /** Appends the self-removal, or not. */
  method LeaveAsWriter(view: View, writable: bool, publicKey: Option<string>, failsAt: Option<nat>, ghost s: State)
    returns (append: Option<Body>)
    requires Represents(view.rows, s) && HexIndexers(s)
    ensures append.Some? <==>
      && writable && publicKey.Some? && publicKey.value != ""
      && !(s.indexers == {publicKey.value} && (failsAt.None? || failsAt.value > 1))
    ensures append.Some? <==> publicKey.Some? && Appends(s, writable, publicKey.value, failsAt)
    ensures append.Some? ==> append.value == RemoveWriter(publicKey.value)
  {
    if !writable { return None; }
    if publicKey.None? || publicKey.value == "" { return None; }
    var sole := IsSoleIndexer(view, publicKey.value, failsAt, s);
    if sole { return None; }
    append := Some(RemoveWriter(publicKey.value));
  }

  /** A self-removal by the holder of `key`. */
  predicate RemovesSelf(derive: string -> string, n: Node, key: string) {
    Gate(derive, n).Ok? && Gate(derive, n).value.writer == key && Gate(derive, n).value.entry.body == RemoveWriter(key)
  }

  lemma RemoverHasKey(derive: string -> string, n: Node, key: string)
    requires RemovesSelf(derive, n, key)
    ensures key != ""
  {
  }

  /** Leaving appends an entry that empties the indexer set of the view it checked if and only
      if this peer is the only indexer and the read failed before it reached a second row. */
  lemma {:induction false} LeavingEmptiesExactlyWhen(derive: string -> string, s: State, n: Node, writable: bool,
                                                     key: string, failsAt: Option<nat>)
    requires RemovesSelf(derive, n, key)
    ensures Appends(s, writable, key, failsAt) && s.indexers != {} && Step(derive, s, n).state.indexers == {} <==>
            writable && s.indexers == {key} && failsAt.Some? && failsAt.value <= 1
  {
    hide Step, Gate;
    RemoverHasKey(derive, n, key);
    Authority.EmptiesExactlyWhen(derive, s, n);
  }

  /** The only indexer of a pact, whose read fails at once, appends its removal and leaves the
      pact without indexers, if the host lets it. */
  lemma {:induction false} FailedReadEmpties(derive: string -> string, key: string)
    requires Hex(key, 64) && derive(key) != ""
    ensures var s := Run(derive, EMPTY, [Authority.NodeBy(derive, key, Post(MessageContent("hello")), 1)]);
      && s.indexers == {key}
      && Appends(s, true, key, Some(0))
      && Step(derive, s, Authority.NodeBy(derive, key, RemoveWriter(key), 2)).state.indexers == {}
  {
    hide Step, Gate, Authority.NodeBy;
    var hello := Authority.NodeBy(derive, key, Post(MessageContent("hello")), 1);
    var leave := Authority.NodeBy(derive, key, RemoveWriter(key), 2);
    Authority.StepSets(derive, EMPTY, hello);
    RunStep(derive, EMPTY, [hello], 0);
    assert [hello][..0] == [] && [hello][..1] == [hello];
    LeavingEmptiesExactlyWhen(derive, Run(derive, EMPTY, [hello]), leave, true, key, Some(0));
  }
}
