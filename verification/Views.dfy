/** Read queries over the view: paged listing by type, lookups by id, and the two ways
    of finding what refers to an entry. */
module Views {
  import opened Results
  import opened Entries
  import opened Lexicographic
  import opened Store

  datatype Order = Asc | Desc

  /** A JavaScript number as a caller may pass it. */
  datatype Number = Undefined | NotFinite | Finite(value: real)

  datatype CursorError = EmptyCursor | ForeignCursor

  datatype Page = Page(entries: seq<Value>, cursor: Option<string>, hasMore: bool)

  /** What one request sees: the view while the page streams, and the view when it peeks past it. */
  datatype Seen = Seen(page: Rows, peek: Rows)

  const DEFAULT_LIMIT := 50
  const MAX_LIMIT := 1000

  function ClampLimit(n: Number): (limit: nat)
    ensures 1 <= limit <= MAX_LIMIT
    ensures !n.Finite? || n.value < 1.0 ==> limit == DEFAULT_LIMIT
    ensures n.Finite? && n.value >= 1.0 ==>
            limit as real <= n.value && (n.value < limit as real + 1.0 || limit == MAX_LIMIT)
  {
    if !n.Finite? || n.value < 1.0 then DEFAULT_LIMIT
    else if n.value.Floor < MAX_LIMIT then n.value.Floor else MAX_LIMIT
  }

  predicate StartsWith(s: string, prefix: string) { prefix <= s }

  function ParseCursor(cursor: Option<string>, t: EntryType): Result<Option<string>, CursorError> {
    if cursor.None? then Ok(None)
    else if cursor.value == "" then Err(EmptyCursor)
    else if !StartsWith(cursor.value, TypeName(t) + "/") then Err(ForeignCursor)
    else Ok(cursor)
  }

  function PageRange(t: EntryType, order: Order, cursor: Option<string>): Range {
    var all := Under(TypeName(t));
    match (order, cursor)
    case (_, None) => all
    case (Desc, Some(c)) => all.(lt := c)
    case (Asc, Some(c)) => Range(None, Some(c), all.lt)
  }

  /** `a` comes strictly before `b` in the listing order. */
  predicate Before(order: Order, a: string, b: string) {
    if order == Asc then Less(a, b) else Less(b, a)
  }

  predicate InOrder(order: Order, keys: seq<string>) {
    forall i, j | 0 <= i < j < |keys| :: Before(order, keys[i], keys[j])
  }

  lemma StreamInOrder(rows: Rows, r: Range, order: Order)
    ensures InOrder(order, Stream(rows, r, order == Desc))
  {
  }

  /** A key lies in the range of a page exactly when it is of the type and after the cursor. */
  lemma InPageRange(t: EntryType, order: Order, cursor: Option<string>, k: string)
    requires cursor.Some? ==> StartsWith(cursor.value, TypeName(t) + "/")
    ensures InRange(PageRange(t, order, cursor), k) <==>
            StartsWith(k, TypeName(t) + "/") && (cursor.Some? ==> Before(order, cursor.value, k))
  {
    PrefixRange(TypeName(t), k);
    if cursor.Some? {
      var c := cursor.value;
      var lo, hi := TypeName(t) + "/", TypeName(t) + "0";
      PrefixRange(TypeName(t), c);
      if order == Desc {
        if Less(k, c) { Transitive(k, c, hi); }
      } else {
        if Less(c, k) && lo != c { Transitive(lo, c, k); }
      }
    }
  }

  /** The keys whose rows pass the filter, in stream order. */
  function Kept(rows: Rows, keys: seq<string>, filter: Value -> bool): (out: seq<string>)
    requires forall k | k in keys :: k in rows
    ensures forall k :: k in out <==> k in keys && filter(rows[k])
  {
    if keys == [] then [] else
      var last := keys[|keys| - 1];
      var before := Kept(rows, keys[..|keys| - 1], filter);
      assert keys == keys[..|keys| - 1] + [last];
      if filter(rows[last]) then before + [last] else before
  }

  function ValuesAt(rows: Rows, keys: seq<string>): (out: seq<Value>)
    requires forall k | k in keys :: k in rows
    ensures |out| == |keys| && forall i | 0 <= i < |keys| :: out[i] == rows[keys[i]]
  {
    seq(|keys|, i requires 0 <= i < |keys| => rows[keys[i]])
  }

  lemma {:induction false} KeptInOrder(rows: Rows, keys: seq<string>, filter: Value -> bool, order: Order)
    requires forall k | k in keys :: k in rows
    requires InOrder(order, keys)
    ensures InOrder(order, Kept(rows, keys, filter))
  {
    if keys == [] {
    } else {
      var n := |keys| - 1;
      KeptInOrder(rows, keys[..n], filter, order);
      forall k | k in keys[..n] ensures Before(order, k, keys[n]) {
        var i :| 0 <= i < n && keys[i] == k;
      }
    }
  }

  /** Every row the filter passes on a page request, before the limit is applied. */
  function Passing(rows: Rows, t: EntryType, order: Order, cursor: Option<string>, filter: Value -> bool): seq<string> {
    Kept(rows, Stream(rows, PageRange(t, order, cursor), order == Desc), filter)
  }

  function First<T>(s: seq<T>, n: nat): seq<T> {
    if |s| <= n then s else s[..n]
  }

  function LastOf(keys: seq<string>): Option<string> {
    if keys == [] then None else Some(keys[|keys| - 1])
  }

  /** The keys a request yields. */
  function PageKeys(seen: Seen, t: EntryType, order: Order, limit: Number, cursor: Option<string>,
                    filter: Value -> bool): seq<string> {
    First(Passing(seen.page, t, order, cursor, filter), ClampLimit(limit))
  }

  lemma {:induction false} KeptPrefix(rows: Rows, keys: seq<string>, filter: Value -> bool, i: nat)
    requires i <= |keys| && forall k | k in keys :: k in rows
    ensures forall k | k in keys[..i] :: k in rows
    ensures Kept(rows, keys[..i], filter) <= Kept(rows, keys, filter)
    decreases |keys|
  {
    assert forall k | k in keys[..i] :: k in keys;
    if i < |keys| {
      var n := |keys| - 1;
      assert keys[..n][..i] == keys[..i];
      KeptPrefix(rows, keys[..n], filter, i);
    } else {
      assert keys[..i] == keys;
    }
  }

  lemma KeptStep(rows: Rows, keys: seq<string>, filter: Value -> bool, i: nat)
    requires i < |keys| && forall k | k in keys :: k in rows
    ensures forall k | k in keys[..i + 1] :: k in rows
    ensures forall k | k in keys[..i] :: k in rows
    ensures Kept(rows, keys[..i + 1], filter) ==
            Kept(rows, keys[..i], filter) + if filter(rows[keys[i]]) then [keys[i]] else []
  {
    assert keys[..i + 1][..i] == keys[..i];
    assert forall k | k in keys[..i + 1] :: k in keys;
  }

  lemma ValuesStep(rows: Rows, keys: seq<string>, k: string)
    requires k in rows && forall q | q in keys :: q in rows
    ensures forall q | q in keys + [k] :: q in rows
    ensures ValuesAt(rows, keys + [k]) == ValuesAt(rows, keys) + [rows[k]]
  {
  }

  lemma TakenIsFirst(rows: Rows, stream: seq<string>, filter: Value -> bool, i: nat, max: nat)
    requires i <= |stream| && forall k | k in stream :: k in rows
    requires forall k | k in stream[..i] :: k in rows
    requires var taken := Kept(rows, stream[..i], filter); |taken| == max || (i == |stream| && |taken| < max)
    ensures Kept(rows, stream[..i], filter) == First(Kept(rows, stream, filter), max)
  {
    KeptPrefix(rows, stream, filter, i);
    if i == |stream| { assert stream[..i] == stream; }
  }

  /** The loop of a page: rows from the stream until `max` of them have passed the filter. */
  method TakePassing(rows: Rows, stream: seq<string>, filter: Value -> bool, max: nat)
    returns (entries: seq<Value>, lastKey: Option<string>)
    requires 1 <= max && forall k | k in stream :: k in rows
    ensures var keys := First(Kept(rows, stream, filter), max);
      (forall k | k in keys :: k in rows) && entries == ValuesAt(rows, keys) && lastKey == LastOf(keys)
  {
    hide Kept, First;
    entries, lastKey := [], None;
    ghost var keys: seq<string> := Kept(rows, [], filter);
    assert keys == [] by { if keys != [] { HasMember(keys); } }
    var i := 0;
    while i < |stream|
      invariant 0 <= i <= |stream| && |keys| < max
      invariant forall k | k in stream[..i] :: k in rows
      invariant forall k | k in keys :: k in rows
      invariant keys == Kept(rows, stream[..i], filter)
      invariant entries == ValuesAt(rows, keys)
      invariant lastKey == LastOf(keys)
    {
      KeptStep(rows, stream, filter, i);
      var key := stream[i];
      i := i + 1;
      if !filter(rows[key]) { continue; }
      ValuesStep(rows, keys, key);
      keys := keys + [key];
      entries := entries + [rows[key]];
      lastKey := Some(key);
      if |entries| >= max { break; }
    }
    TakenIsFirst(rows, stream, filter, i, max);
  }

  method PeekHasMore(rows: Rows, t: EntryType, order: Order, lastKey: Option<string>) returns (more: bool)
    ensures more <==> lastKey.Some? && exists k | k in rows :: InRange(PageRange(t, order, lastKey), k)
  {
    if lastKey.None? { return false; }
    var hits := Stream(rows, PageRange(t, order, lastKey), order == Desc);
    if hits != [] { assert hits[0] in hits; }
    more := hits != [];
  }

  /** One page: the first `limit` passing rows after the cursor; the key of the last one
      as the next cursor; and whether any row at all, passing or not, lies past it. */
  method ListByType(seen: Seen, t: EntryType, order: Order, limit: Number, cursor: Option<string>,
                    filter: Value -> bool)
    returns (r: Result<Page, CursorError>)
    ensures r.Err? <==> cursor.Some? && !StartsWith(cursor.value, TypeName(t) + "/")
    ensures r == Err(EmptyCursor) <==> cursor == Some("")
    ensures r.Ok? ==>
      var keys := PageKeys(seen, t, order, limit, cursor, filter);
      && (forall k | k in keys :: k in seen.page)
      && r.value.entries == ValuesAt(seen.page, keys)
      && r.value.cursor == LastOf(keys)
      && (r.value.hasMore <==> keys != [] && exists k | k in seen.peek :: InRange(PageRange(t, order, LastOf(keys)), k))
  {
    hide InRange, PageRange;
    var max := ClampLimit(limit);
    var parsed := ParseCursor(cursor, t);
    if parsed.Err? { return Err(parsed.error); }
    var stream := Stream(seen.page, PageRange(t, order, parsed.value), order == Desc);
    var entries, lastKey := TakePassing(seen.page, stream, filter, max);
    var hasMore := PeekHasMore(seen.peek, t, order, lastKey);
    return Ok(Page(entries, lastKey, hasMore));
  }

  predicate HoldsId(rows: Rows, t: EntryType, id: string, k: string) {
    k in rows && InRange(Under(TypeName(t)), k) && rows[k].EntryValue? && rows[k].stored.id == id
  }

  /** The first entry of the type with the given id, in key order. */
  method GetById(rows: Rows, t: EntryType, id: string) returns (found: Option<Stored>)
    ensures found.None? <==> forall k :: !HoldsId(rows, t, id, k)
    ensures found.Some? ==>
            found.value.id == id && exists k ::
                HoldsId(rows, t, id, k) && rows[k] == EntryValue(found.value) && forall j | HoldsId(rows, t, id, j) ::
                    AtMost(k, j)
  {
    hide InRange, Less;
    var stream := Stream(rows, Under(TypeName(t)), false);
    StreamInOrder(rows, Under(TypeName(t)), Asc);
    for i := 0 to |stream|
      invariant forall j | 0 <= j < i ::
          stream[j] in rows && (rows[stream[j]].EntryValue? ==> rows[stream[j]].stored.id != id)
    {
      assert stream[i] in stream;
      var value := rows[stream[i]];
      if value.EntryValue? && value.stored.id == id {
        assert HoldsId(rows, t, id, stream[i]);
        forall j | HoldsId(rows, t, id, j) ensures AtMost(stream[i], j) { assert j in stream; }
        return Some(value.stored);
      }
    }
    found := None;
  }

  /** The entry values at some keys, in order. */
  function EntriesAt(rows: Rows, keys: seq<string>): (out: seq<Stored>)
    requires forall k | k in keys :: k in rows
    ensures forall p :: p in out <==> exists k | k in keys :: rows[k] == EntryValue(p)
  {
    if keys == [] then [] else
      var n := |keys| - 1;
      assert keys == keys[..n] + [keys[n]];
      EntriesAt(rows, keys[..n]) + if rows[keys[n]].EntryValue? then [rows[keys[n]].stored] else []
  }

  /** A task's history: the entry with the id, and the entries of the type that refer to it. */
  predicate InHistory(refId: string, v: Value) {
    v.EntryValue? && (v.stored.id == refId || refId in v.stored.entry.refs)
  }

  function HistoryFilter(refId: string): Value -> bool { v => InHistory(refId, v) }

  /** The entries of a history among some rows, in order. */
  function FoundIn(rows: Rows, keys: seq<string>, refId: string): seq<Stored>
    requires forall k | k in keys :: k in rows
  {
    EntriesAt(rows, Kept(rows, keys, HistoryFilter(refId)))
  }

  lemma NothingFound(rows: Rows, refId: string)
    ensures FoundIn(rows, [], refId) == []
  {
  }

  function RefsIn(rows: Rows, t: EntryType, refId: string): seq<Stored> {
    FoundIn(rows, Stream(rows, Under(TypeName(t)), false), refId)
  }

  lemma {:induction false} EntriesAtAppend(rows: Rows, keys: seq<string>, k: string)
    requires k in rows && forall q | q in keys :: q in rows
    ensures EntriesAt(rows, keys + [k]) == EntriesAt(rows, keys) + if rows[k].EntryValue? then [rows[k].stored] else []
  {
    assert (keys + [k])[..|keys|] == keys;
  }

  /** Entries found by walking some rows: one for each, in the order of their keys. */
  ghost predicate FoundAt(rows: Rows, keys: seq<string>, out: seq<Stored>) {
    && |out| == |keys|
    && (forall i | 0 <= i < |keys| :: keys[i] in rows && rows[keys[i]] == EntryValue(out[i]))
    && (forall i, j | 0 <= i < j < |keys| :: Less(keys[i], keys[j]))
  }

  lemma {:induction false} EntriesAtEach(rows: Rows, keys: seq<string>)
    requires forall k | k in keys :: k in rows && rows[k].EntryValue?
    ensures var out := EntriesAt(rows, keys);
      |out| == |keys| && forall i | 0 <= i < |keys| :: rows[keys[i]] == EntryValue(out[i])
  {
    if keys == [] {
    } else {
      var n := |keys| - 1;
      assert keys == keys[..n] + [keys[n]];
      EntriesAtEach(rows, keys[..n]);
    }
  }

  lemma FoundInOrder(rows: Rows, keys: seq<string>)
    requires forall k | k in keys :: k in rows && rows[k].EntryValue?
    requires InOrder(Asc, keys)
    ensures FoundAt(rows, keys, EntriesAt(rows, keys))
  {
    EntriesAtEach(rows, keys);
    assert forall i | 0 <= i < |keys| :: keys[i] in keys;
  }

  /** What one more row adds to a history. */
  lemma FoundNext(rows: Rows, stream: seq<string>, refId: string, i: nat)
    requires i < |stream| && forall k | k in stream :: k in rows
    ensures (forall k | k in stream[..i + 1] :: k in rows) && (forall k | k in stream[..i] :: k in rows)
    ensures FoundIn(rows, stream[..i + 1], refId) ==
            FoundIn(rows, stream[..i], refId) + if InHistory(refId, rows[stream[i]]) then [rows[stream[i]].stored]
                else []
  {
    hide Kept, EntriesAt;
    KeptStep(rows, stream, HistoryFilter(refId), i);
    var before := Kept(rows, stream[..i], HistoryFilter(refId));
    if InHistory(refId, rows[stream[i]]) { EntriesAtAppend(rows, before, stream[i]); }
    else { assert before + [] == before; }
  }

  method FindRefs(rows: Rows, t: EntryType, refId: string) returns (out: seq<Stored>)
    ensures out == RefsIn(rows, t, refId)
  {
    hide InRange, Under, FoundIn;
    out := [];
    var stream := Stream(rows, Under(TypeName(t)), false);
    NothingFound(rows, refId);
    for i := 0 to |stream|
      invariant forall k | k in stream[..i] :: k in rows
      invariant out == FoundIn(rows, stream[..i], refId)
    {
      FoundNext(rows, stream, refId, i);
      assert stream[i] in stream;
      var value := rows[stream[i]];
      if value.EntryValue? {
        if value.stored.id == refId {
          out := out + [value.stored];
        } else if refId in value.stored.entry.refs {
          out := out + [value.stored];
        }
      }
    }
    assert stream[..|stream|] == stream;
  }

  function ReferenceRange(targetId: string): Range { Under("ref/" + targetId) }

  /** Everything under `ref/<target>/` in the reverse-reference index. */
  method FindReferencedBy(rows: Rows, targetId: string) returns (out: seq<Stored>)
    ensures out == EntriesAt(rows, Stream(rows, ReferenceRange(targetId), false))
  {
    hide InRange;
    out := [];
    var stream := Stream(rows, Range(Some("ref/" + targetId + "/"), None, "ref/" + targetId + "0"), false);
    for i := 0 to |stream|
      invariant forall k | k in stream[..i] :: k in rows
      invariant out == EntriesAt(rows, stream[..i])
    {
      assert stream[i] in stream;
      assert stream[..i + 1] == stream[..i] + [stream[i]];
      EntriesAtAppend(rows, stream[..i], stream[i]);
      var value := rows[stream[i]];
      if value.EntryValue? { out := out + [value.stored]; }
    }
    assert stream[..|stream|] == stream;
  }
}
