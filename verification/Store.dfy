/** The key-value view the reducer writes: string keys in one space, read back
    by key or by lexicographic range. */
module Store {
  import opened Results
  import opened Entries
  import opened Ledger
  import opened Lexicographic

  datatype Value = Present | StampValue(stamp: Stamp) | InviteValue(row: InviteRow) | EntryValue(stored: Stored)

  type Rows = map<string, Value>

  datatype Row = Row(key: string, value: Value)

  /** A half-open or open-ended key range; `gt` and `lt` exclude their bound. */
  datatype Range = Range(gte: Option<string>, gt: Option<string>, lt: string)

  predicate InRange(r: Range, k: string) {
    && (r.gte.Some? ==> AtMost(r.gte.value, k))
    && (r.gt.Some? ==> Less(r.gt.value, k))
    && Less(k, r.lt)
  }

  function KeysIn(rows: Rows, r: Range): set<string> {
    set k | k in rows && InRange(r, k)
  }

  lemma ReverseMembers<T>(s: seq<T>)
    ensures forall x :: x in Reverse(s) <==> x in s
  {
    var r := Reverse(s);
    forall x ensures x in r <==> x in s {
      if x in s { var i :| 0 <= i < |s| && s[i] == x; assert r[|s| - 1 - i] == x; }
      if x in r { var i :| 0 <= i < |r| && r[i] == x; assert s[|s| - 1 - i] == x; }
    }
  }

  /** Ascending, or descending in a reverse read. */
  predicate InReadOrder(ks: seq<string>, reverse: bool) {
    forall i, j | 0 <= i < j < |ks| :: if reverse then Less(ks[j], ks[i]) else Less(ks[i], ks[j])
  }

  /** The keys a range read streams, in order. */
  function Stream(rows: Rows, r: Range, reverse: bool): (ks: seq<string>)
    ensures forall k :: k in ks <==> k in rows && InRange(r, k)
    ensures InReadOrder(ks, reverse)
  {
    var ascending := Sorted(KeysIn(rows, r));
    if reverse then
      assert forall k :: k in Reverse(ascending) <==> k in ascending by { ReverseMembers(ascending); }
      Reverse(ascending)
    else ascending
  }

  /** The range of everything under `prefix/`. */
  function Under(prefix: string): Range {
    Range(Some(prefix + "/"), None, prefix + "0")
  }

  class View {
    var rows: Rows

    constructor ()
      ensures rows == map[]
    {
      rows := map[];
    }

    method Get(key: string) returns (value: Option<Value>)
      ensures value == Find(rows, key)
    {
      value := if key in rows then Some(rows[key]) else None;
    }

    method Put(key: string, value: Value)
      modifies this
      ensures rows == old(rows)[key := value]
    {
      rows := rows[key := value];
    }

    method Del(key: string)
      modifies this
      ensures rows == old(rows) - {key}
    {
      rows := rows - {key};
    }

    method Peek(range: Range, reverse: bool) returns (row: Option<Row>)
      ensures row.None? <==> forall k | k in rows :: !InRange(range, k)
      ensures row.Some? ==>
              row.value.key in rows && InRange(range, row.value.key) && row.value.value == rows[row.value.key]
      ensures row.Some? ==> row.value.key == Stream(rows, range, reverse)[0]
    {
      var keys := Stream(rows, range, reverse);
      if keys == [] {
        assert forall k | k in rows && InRange(range, k) :: k in keys;
        row := None;
      } else {
        assert keys[0] in keys;
        row := Some(Row(keys[0], rows[keys[0]]));
      }
    }
  }

  /** The autobase host: the reducer only calls it, so the calls are all that is kept. */
  class Host {
    var calls: seq<HostCall>

    constructor ()
      ensures calls == []
    {
      calls := [];
    }

    method AddWriter(key: string, indexer: bool)
      modifies this
      ensures calls == old(calls) + [HostAddWriter(key, indexer)]
    {
      calls := calls + [HostAddWriter(key, indexer)];
    }

    method RemoveWriter(key: string)
      modifies this
      ensures calls == old(calls) + [HostRemoveWriter(key)]
    {
      calls := calls + [HostRemoveWriter(key)];
    }
  }
}
