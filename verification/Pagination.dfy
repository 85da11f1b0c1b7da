/** Walking every page of a listing: the client's loop over the daemon's pages. */
module Pagination {
  import opened Results
  import opened Entries
  import opened Lexicographic
  import opened Store
  import opened Views

  ghost predicate Extends(a: Rows, b: Rows) {
    forall k | k in a :: k in b && b[k] == a[k]
  }

  /** Rows are only ever added, within a request and from one request to the next. */
  ghost predicate Grows(seen: seq<Seen>) {
    && (forall i | 0 <= i < |seen| :: Extends(seen[i].page, seen[i].peek))
    && (forall i, j | 0 <= i < j < |seen| :: Extends(seen[i].peek, seen[j].page))
  }

  /** A row the walk is to yield. */
  ghost predicate Selected(rows: Rows, t: EntryType, filter: Value -> bool, k: string) {
    k in rows && StartsWith(k, TypeName(t) + "/") && filter(rows[k])
  }

  ghost predicate IsAfter(order: Order, keys: seq<string>, k: string) {
    keys == [] || Before(order, keys[|keys| - 1], k)
  }

  /** The state of a walk: the keys yielded so far are in order, hence distinct; each was
      to be yielded; and none of the first view's was passed over. */
  ghost predicate Walked(first: Rows, now: Rows, t: EntryType, order: Order, filter: Value -> bool, keys: seq<string>) {
    && InOrder(order, keys)
    && (forall k | k in keys :: Selected(now, t, filter, k))
    && (forall k | Selected(first, t, filter, k) && !IsAfter(order, keys, k) :: k in keys)
  }

  lemma BeforeTransitive(order: Order, a: string, b: string, c: string)
    requires Before(order, a, b) && Before(order, b, c)
    ensures Before(order, a, c)
  {
    if order == Asc { Transitive(a, b, c); } else { Transitive(c, b, a); }
  }

  lemma BeforeTotal(order: Order, a: string, b: string)
    ensures Before(order, a, b) || a == b || Before(order, b, a)
    ensures !(Before(order, a, b) && Before(order, b, a)) && !Before(order, a, a)
  {
    Trichotomy(a, b);
    Trichotomy(a, a);
  }

  lemma PassingIsSelected(rows: Rows, t: EntryType, order: Order, keys: seq<string>, filter: Value -> bool)
    requires keys != [] ==> StartsWith(keys[|keys| - 1], TypeName(t) + "/")
    ensures var passing := Passing(rows, t, order, LastOf(keys), filter);
      && InOrder(order, passing)
      && forall k :: k in passing <==> Selected(rows, t, filter, k) && IsAfter(order, keys, k)
  {
    hide InRange, PageRange;
    var stream := Stream(rows, PageRange(t, order, LastOf(keys)), order == Desc);
    StreamInOrder(rows, PageRange(t, order, LastOf(keys)), order);
    KeptInOrder(rows, stream, filter, order);
    forall k ensures InRange(PageRange(t, order, LastOf(keys)), k) <==>
        StartsWith(k, TypeName(t) + "/") && IsAfter(order, keys, k) {
      InPageRange(t, order, LastOf(keys), k);
    }
  }

  lemma AppendInOrder(order: Order, a: seq<string>, b: seq<string>)
    requires InOrder(order, a) && InOrder(order, b)
    requires forall k | k in b :: IsAfter(order, a, k)
    ensures InOrder(order, a + b)
  {
    var s := a + b;
    forall i, j | 0 <= i < j < |s| ensures Before(order, s[i], s[j]) {
      if i < |a| <= j {
        assert b[j - |a|] in b;
        if i < |a| - 1 { BeforeTransitive(order, a[i], a[|a| - 1], s[j]); }
      }
    }
  }

  /** What is left of an ordered sequence after its first `n` comes after those. */
  lemma RestIsAfter(order: Order, all: seq<string>, n: nat, k: string)
    requires InOrder(order, all) && k in all && n >= 1
    ensures k in First(all, n) || (First(all, n) != [] && Before(order, First(all, n)[|First(all, n)| - 1], k))
  {
    var i :| 0 <= i < |all| && all[i] == k;
    if i < |First(all, n)| { assert First(all, n)[i] == k; }
  }

  lemma FirstIsPrefix<T>(s: seq<T>, n: nat)
    ensures First(s, n) <= s && |First(s, n)| <= n && (|First(s, n)| < n ==> First(s, n) == s)
    ensures forall x | x in First(s, n) :: x in s
  {
  }

  lemma WalkPage(first: Rows, before: Rows, seen: Seen, t: EntryType, order: Order, limit: Number,
                 filter: Value -> bool, keys: seq<string>)
    requires Extends(first, seen.page) && Extends(before, seen.page)
    requires Walked(first, before, t, order, filter, keys)
    ensures Walked(first, seen.page, t, order, filter, keys + PageKeys(seen, t, order, limit, LastOf(keys), filter))
  {
    hide Passing, First, Less;
    if keys != [] { assert keys[|keys| - 1] in keys; }
    PassingIsSelected(seen.page, t, order, keys, filter);
    var passing := Passing(seen.page, t, order, LastOf(keys), filter);
    var page := PageKeys(seen, t, order, limit, LastOf(keys), filter);
    FirstIsPrefix(passing, ClampLimit(limit));
    assert forall k | k in page :: k in passing;
    AppendInOrder(order, keys, page);
    var all := keys + page;
    forall k | Selected(first, t, filter, k) && !IsAfter(order, all, k) ensures k in all {
      if k !in keys {
        assert IsAfter(order, keys, k);
        assert k in passing;
        RestIsAfter(order, passing, ClampLimit(limit), k);
        if page != [] { assert all[|all| - 1] == page[|page| - 1]; }
      }
    }
  }

  /** The rows of a page, exactly: they are in order, pass the filter and come after the cursor;
      and any other such row comes after all of them, on a page that is full. */
  lemma PageExactlyWhen(seen: Seen, t: EntryType, order: Order, limit: Number, filter: Value -> bool,
                        cursor: Option<string>)
    requires cursor.Some? ==> StartsWith(cursor.value, TypeName(t) + "/")
    ensures var page := PageKeys(seen, t, order, limit, cursor, filter);
      && InOrder(order, page) && |page| <= ClampLimit(limit)
      && (forall k | k in page ::
            Selected(seen.page, t, filter, k) && (cursor.Some? ==> Before(order, cursor.value, k)))
      && (forall k | Selected(seen.page, t, filter, k) && (cursor.Some? ==> Before(order, cursor.value, k)) ::
            k in page || (|page| == ClampLimit(limit) && forall j | j in page :: Before(order, j, k)))
  {
    hide Passing, First, Less;
    var keys := if cursor.Some? then [cursor.value] else [];
    assert LastOf(keys) == cursor;
    PassingIsSelected(seen.page, t, order, keys, filter);
    var passing, max := Passing(seen.page, t, order, cursor, filter), ClampLimit(limit);
    var page := First(passing, max);
    FirstIsPrefix(passing, max);
    forall k | k in passing && k !in page ensures |page| == max && forall j | j in page :: Before(order, j, k) {
      RestIsAfter(order, passing, max, k);
      forall j | j in page ensures Before(order, j, k) {
        var i :| 0 <= i < |page| && page[i] == j;
        if i < |page| - 1 { BeforeTransitive(order, j, page[|page| - 1], k); }
      }
    }
  }

  /** When a request says there is no more, nothing of the first view is left. */
  lemma NothingLeft(first: Rows, seen: Seen, t: EntryType, order: Order, limit: Number, filter: Value -> bool,
                    keys: seq<string>, k: string)
    requires Extends(first, seen.page) && Extends(first, seen.peek)
    requires keys != [] ==> StartsWith(keys[|keys| - 1], TypeName(t) + "/")
    requires var page := PageKeys(seen, t, order, limit, LastOf(keys), filter);
      && Walked(first, seen.page, t, order, filter, keys + page)
      && (page == [] || forall q | q in seen.peek :: !InRange(PageRange(t, order, LastOf(page)), q))
    requires Selected(first, t, filter, k)
    ensures k in keys + PageKeys(seen, t, order, limit, LastOf(keys), filter)
  {
    hide Passing, First, Less, InRange, PageRange;
    var page := PageKeys(seen, t, order, limit, LastOf(keys), filter);
    var all := keys + page;
    if IsAfter(order, all, k) {
      if page == [] {
        assert all == keys;
        PassingIsSelected(seen.page, t, order, keys, filter);
        FirstIsPrefix(Passing(seen.page, t, order, LastOf(keys), filter), ClampLimit(limit));
        assert false;
      } else {
        var last := page[|page| - 1];
        assert all[|all| - 1] == last;
        assert last in all;
        assert LastOf(page) == Some(last);
        InPageRange(t, order, Some(last), k);
        assert false;
      }
    }
  }

  lemma {:induction false} OrderedUnique(order: Order, a: seq<string>, b: seq<string>)
    requires InOrder(order, a) && InOrder(order, b)
    requires forall k :: k in a <==> k in b
    ensures a == b
  {
    if order == Asc {
      AscendingUnique(a, b);
    } else {
      ReverseMembers(a);
      ReverseMembers(b);
      AscendingUnique(Reverse(a), Reverse(b));
      assert forall i | 0 <= i < |a| :: a[i] == Reverse(a)[|a| - 1 - i];
      assert forall i | 0 <= i < |b| :: b[i] == Reverse(b)[|b| - 1 - i];
    }
  }

  /** On a view that does not change, an exhausted walk has yielded what one scan would. */
  lemma WalkedEverything(rows: Rows, t: EntryType, order: Order, filter: Value -> bool, keys: seq<string>)
    requires Walked(rows, rows, t, order, filter, keys)
    requires forall k | Selected(rows, t, filter, k) :: k in keys
    ensures keys == Passing(rows, t, order, None, filter)
  {
    hide Passing, Less;
    PassingIsSelected(rows, t, order, [], filter);
    assert LastOf([]) == None;
    OrderedUnique(order, keys, Passing(rows, t, order, None, filter));
  }

  ghost predicate Fixed(seen: seq<Seen>, rows: Rows) {
    forall i | 0 <= i < |seen| :: seen[i] == Seen(rows, rows)
  }

  function CeilDiv(n: nat, d: nat): nat
    requires d >= 1
  {
    (n + d - 1) / d
  }

  /** Request `r` of a walk over an unchanging view came back with rows and more to come:
      all pages before it were full, and either it was too or it was the last with rows. */
  ghost predicate Busy(rows: Rows, t: EntryType, order: Order, filter: Value -> bool, limit: nat, keys: seq<string>,
                       r: nat) {
    || (r == 0 && keys == [])
    || (r >= 1 && keys != [] && |keys| == r * limit)
    || (r >= 1 && (r - 1) * limit < |keys| && forall k | Selected(rows, t, filter, k) :: k in keys)
  }

  lemma NoneIsAfter(order: Order, keys: seq<string>, k: string)
    requires InOrder(order, keys) && k in keys
    ensures !IsAfter(order, keys, k)
  {
    var i :| 0 <= i < |keys| && keys[i] == k;
    BeforeTotal(order, keys[|keys| - 1], k);
  }

  lemma BusyPage(rows: Rows, t: EntryType, order: Order, limit: Number, filter: Value -> bool, keys: seq<string>,
                 r: nat)
    requires Busy(rows, t, order, filter, ClampLimit(limit), keys, r)
    requires Walked(rows, rows, t, order, filter, keys)
    requires PageKeys(Seen(rows, rows), t, order, limit, LastOf(keys), filter) != []
    ensures Busy(rows, t, order, filter, ClampLimit(limit),
                 keys + PageKeys(Seen(rows, rows), t, order, limit, LastOf(keys), filter), r + 1)
  {
    hide Passing, First, Less;
    var max := ClampLimit(limit);
    var page := PageKeys(Seen(rows, rows), t, order, limit, LastOf(keys), filter);
    var passing := Passing(rows, t, order, LastOf(keys), filter);
    if keys != [] { assert keys[|keys| - 1] in keys; }
    PassingIsSelected(rows, t, order, keys, filter);
    FirstIsPrefix(passing, max);
    assert page[0] in passing;
    assert (r + 1) * max == r * max + max;
    if forall k | Selected(rows, t, filter, k) :: k in keys {
      NoneIsAfter(order, keys, page[0]);
      assert false;
    }
    if |page| < max {
      assert page == passing;
      forall k | Selected(rows, t, filter, k) ensures k in keys + page {
        if k !in keys { assert IsAfter(order, keys, k); }
      }
    }
  }

  lemma MulMonotone(a: nat, b: nat, c: nat)
    requires a <= b
    ensures a * c <= b * c
  {
  }

  lemma DivBound(n: nat, d: nat)
    requires d >= 1
    ensures n / d * d > n - d
  {
  }

  lemma RequestBound(n: nat, limit: nat, r: nat)
    requires limit >= 1 && r >= 1 && (r - 1) * limit < n
    ensures r <= CeilDiv(n, limit)
  {
    if r > CeilDiv(n, limit) {
      assert (r - 1) * limit >= CeilDiv(n, limit) * limit by { MulMonotone(CeilDiv(n, limit), r - 1, limit); }
      DivBound(n + limit - 1, limit);
    }
  }

  lemma CeilDivNat(n: nat, d: nat)
    requires d >= 1
    ensures CeilDiv(n, d) >= 0
  {
  }

  lemma {:induction false} OrderedLength(order: Order, a: seq<string>, b: seq<string>)
    requires InOrder(order, a) && InOrder(order, b)
    requires forall k | k in a :: k in b
    ensures |a| <= |b|
  {
    if a == [] {
    } else {
      var n := |a| - 1;
      assert a[n] in b;
      var m :| 0 <= m < |b| && b[m] == a[n];
      forall k | k in a[..n] ensures k in b[..m] {
        var i :| 0 <= i < n && a[i] == k;
        assert a[i] in a;
        var j :| 0 <= j < |b| && b[j] == k;
        BeforeTotal(order, a[i], a[n]);
        assert b[..m][j] == k;
      }
      OrderedLength(order, a[..n], b[..m]);
    }
  }

  lemma KeysFitIn(rows: Rows, t: EntryType, order: Order, filter: Value -> bool, keys: seq<string>)
    requires Walked(rows, rows, t, order, filter, keys)
    ensures |keys| <= |Passing(rows, t, order, None, filter)|
  {
    hide Passing, Less;
    PassingIsSelected(rows, t, order, [], filter);
    var all := Passing(rows, t, order, None, filter);
    assert LastOf([]) == None;
    OrderedLength(order, keys, all);
  }

  lemma BusyBound(rows: Rows, t: EntryType, order: Order, filter: Value -> bool, limit: nat, keys: seq<string>, r: nat)
    requires limit >= 1 && Busy(rows, t, order, filter, limit, keys, r) && Walked(rows, rows, t, order, filter, keys)
    ensures r <= CeilDiv(|Passing(rows, t, order, None, filter)|, limit)
  {
    hide Passing, CeilDiv;
    KeysFitIn(rows, t, order, filter, keys);
    if r >= 1 {
      assert (r - 1) * limit == r * limit - limit;
      RequestBound(|Passing(rows, t, order, None, filter)|, limit, r);
    } else {
      CeilDivNat(|Passing(rows, t, order, None, filter)|, limit);
    }
  }

  /** What the client's loop keeps: `r` requests made, `now` the view of the last one. */
  ghost predicate Walking(seen: seq<Seen>, t: EntryType, order: Order, limit: nat, filter: Value -> bool,
                          keys: seq<string>, now: Rows, r: nat, more: bool)
    requires seen != [] && limit >= 1
  {
    var first := seen[0].page;
    && r <= |seen|
    && Walked(first, now, t, order, filter, keys)
    && Extends(now, seen[|seen| - 1].peek)
    && (forall i | r <= i < |seen| :: Extends(now, seen[i].page) && Extends(first, seen[i].page))
    && (!more ==> forall k | Selected(first, t, filter, k) :: k in keys)
    && (Fixed(seen, first) ==>
          && now == first
          && (more ==> Busy(first, t, order, filter, limit, keys, r))
          && (!more ==> r <= CeilDiv(|Passing(first, t, order, None, filter)|, limit) + 1))
  }

  lemma WalkingStarts(seen: seq<Seen>, t: EntryType, order: Order, limit: nat, filter: Value -> bool)
    requires seen != [] && Grows(seen) && limit >= 1
    ensures Walking(seen, t, order, limit, filter, [], seen[0].page, 0, true)
  {
    forall i | 0 <= i < |seen| ensures Extends(seen[0].page, seen[i].page) {
      if i > 0 { assert Extends(seen[0].peek, seen[i].page); }
    }
  }

  lemma GrowsAt(seen: seq<Seen>, r: nat)
    requires Grows(seen) && r < |seen|
    ensures Extends(seen[r].page, seen[|seen| - 1].peek) && Extends(seen[r].page, seen[r].peek)
    ensures forall i | r < i < |seen| :: Extends(seen[r].page, seen[i].page)
  {
  }

  /** Every cursor a page emits is accepted by the next request. */
  lemma CursorBelongs(first: Rows, now: Rows, t: EntryType, order: Order, filter: Value -> bool, keys: seq<string>)
    requires Walked(first, now, t, order, filter, keys)
    ensures ParseCursor(LastOf(keys), t) == Ok(LastOf(keys))
    ensures LastOf(keys).Some? ==> StartsWith(LastOf(keys).value, TypeName(t) + "/")
  {
    if keys != [] { assert keys[|keys| - 1] in keys; }
  }

  lemma WalkingStep(seen: seq<Seen>, t: EntryType, order: Order, limit: Number, filter: Value -> bool,
                    keys: seq<string>, now: Rows, r: nat, page: seq<string>, more: bool)
    requires seen != [] && Grows(seen) && r < |seen|
    requires Walking(seen, t, order, ClampLimit(limit), filter, keys, now, r, true)
    requires page == PageKeys(seen[r], t, order, limit, LastOf(keys), filter)
    requires more <==> page != [] && exists k | k in seen[r].peek :: InRange(PageRange(t, order, LastOf(page)), k)
    ensures Walking(seen, t, order, ClampLimit(limit), filter, keys + page, seen[r].page, r + 1, more)
  {
    hide PageKeys, Passing, Less, InRange, PageRange, Busy, Walked, CeilDiv, Grows;
    var first, s, max := seen[0].page, seen[r], ClampLimit(limit);
    GrowsAt(seen, r);
    CursorBelongs(first, now, t, order, filter, keys);
    WalkPage(first, now, s, t, order, limit, filter, keys);
    if !more {
      forall k | Selected(first, t, filter, k) ensures k in keys + page {
        NothingLeft(first, s, t, order, limit, filter, keys, k);
      }
    }
    if Fixed(seen, first) {
      BusyBound(first, t, order, filter, max, keys, r);
      if more { BusyPage(first, t, order, limit, filter, keys, r); }
    }
  }

  lemma WalkedFacts(first: Rows, now: Rows, t: EntryType, order: Order, filter: Value -> bool, keys: seq<string>)
    requires Walked(first, now, t, order, filter, keys)
    ensures InOrder(order, keys)
    ensures forall i | 0 <= i < |keys| :: Selected(now, t, filter, keys[i])
  {
    assert forall i | 0 <= i < |keys| :: keys[i] in keys;
  }

  lemma WalkingEnds(seen: seq<Seen>, t: EntryType, order: Order, limit: nat, filter: Value -> bool,
                    keys: seq<string>, now: Rows, r: nat, more: bool)
    requires seen != [] && limit >= 1 && Walking(seen, t, order, limit, filter, keys, now, r, more)
    ensures InOrder(order, keys)
    ensures var last := seen[|seen| - 1].peek;
      forall i | 0 <= i < |keys| ::
          Selected(last, t, filter, keys[i]) && keys[i] in now && now[keys[i]] == last[keys[i]]
    ensures !more ==> forall k | Selected(seen[0].page, t, filter, k) :: k in keys
    ensures Fixed(seen, seen[0].page) ==>
      var scan := Passing(seen[0].page, t, order, None, filter);
      && r <= CeilDiv(|scan|, limit) + 1
      && (more ==> r <= CeilDiv(|scan|, limit))
      && (!more ==> keys == scan)
  {
    hide Passing, Less, Busy, Walked, CeilDiv;
    var first := seen[0].page;
    WalkedFacts(first, now, t, order, filter, keys);
    if Fixed(seen, first) {
      if more { BusyBound(first, t, order, filter, limit, keys, r); }
      else { WalkedEverything(first, t, order, filter, keys); }
    }
  }

  ghost predicate ValuesMatch(rows: Rows, keys: seq<string>, values: seq<Value>) {
    |values| == |keys| && forall i | 0 <= i < |keys| :: keys[i] in rows && rows[keys[i]] == values[i]
  }

  lemma WalkingCursor(seen: seq<Seen>, t: EntryType, order: Order, limit: nat, filter: Value -> bool,
                      keys: seq<string>, now: Rows, r: nat, more: bool)
    requires seen != [] && limit >= 1 && Walking(seen, t, order, limit, filter, keys, now, r, more)
    ensures LastOf(keys).Some? ==> StartsWith(LastOf(keys).value, TypeName(t) + "/")
  {
    CursorBelongs(seen[0].page, now, t, order, filter, keys);
  }

  lemma WalkingValues(seen: seq<Seen>, t: EntryType, order: Order, limit: nat, filter: Value -> bool,
                      keys: seq<string>, now: Rows, r: nat, more: bool, out: seq<Value>)
    requires seen != [] && limit >= 1 && r < |seen| && Walking(seen, t, order, limit, filter, keys, now, r, more)
    requires ValuesMatch(now, keys, out)
    ensures ValuesMatch(seen[r].page, keys, out)
  {
  }

  lemma ValuesAppend(rows: Rows, keys: seq<string>, out: seq<Value>, page: seq<string>, entries: seq<Value>)
    requires ValuesMatch(rows, keys, out)
    requires (forall k | k in page :: k in rows) && entries == ValuesAt(rows, page)
    ensures ValuesMatch(rows, keys + page, out + entries)
  {
  }

  lemma LastOfAppend(a: seq<string>, b: seq<string>)
    ensures b != [] ==> LastOf(a + b) == LastOf(b)
    ensures LastOf(b) == None <==> b == []
  {
  }

  /** The page that a request came back with. */
  ghost predicate IsPage(seen: Seen, t: EntryType, order: Order, limit: Number, filter: Value -> bool,
                         cursor: Option<string>, keys: seq<string>, page: Page)
  {
    && keys == PageKeys(seen, t, order, limit, cursor, filter)
    && (forall k | k in keys :: k in seen.page)
    && page.entries == ValuesAt(seen.page, keys)
    && page.cursor == LastOf(keys)
    && (page.hasMore <==> keys != [] && exists k | k in seen.peek :: InRange(PageRange(t, order, LastOf(keys)), k))
  }

  /** One turn of the client's loop. */
  lemma PageWalked(seen: seq<Seen>, t: EntryType, order: Order, limit: Number, filter: Value -> bool,
                   keys: seq<string>, now: Rows, r: nat, out: seq<Value>, pageKeys: seq<string>, page: Page)
    requires seen != [] && Grows(seen) && r < |seen|
    requires Walking(seen, t, order, ClampLimit(limit), filter, keys, now, r, true) && ValuesMatch(now, keys, out)
    requires IsPage(seen[r], t, order, limit, filter, LastOf(keys), pageKeys, page)
    ensures Walking(seen, t, order, ClampLimit(limit), filter, keys + pageKeys, seen[r].page, r + 1, page.hasMore)
    ensures ValuesMatch(seen[r].page, keys + pageKeys, out + page.entries)
    ensures page.hasMore ==> page.cursor == LastOf(keys + pageKeys)
    ensures page.cursor.None? ==> !page.hasMore
  {
    hide PageKeys, InRange, PageRange, Walking, Grows, ValuesMatch;
    WalkingStep(seen, t, order, limit, filter, keys, now, r, pageKeys, page.hasMore);
    WalkingValues(seen, t, order, ClampLimit(limit), filter, keys, now, r, true, out);
    ValuesAppend(seen[r].page, keys, out, pageKeys, page.entries);
    LastOfAppend(keys, pageKeys);
  }

  /** The client walk, one request for each view in `seen` until a page says there is no
      more. `done` tells whether it ended by itself; `keys` are the keys of what it yielded. */
  method Paginate(seen: seq<Seen>, t: EntryType, order: Order, limit: Number, filter: Value -> bool)
    returns (out: seq<Value>, done: bool, requests: nat, ghost keys: seq<string>)
    requires seen != [] && Grows(seen)
    ensures requests <= |seen| && (!done ==> requests == |seen|)
    ensures InOrder(order, keys) && |out| == |keys|
    ensures var last := seen[|seen| - 1].peek;
      forall i | 0 <= i < |keys| :: Selected(last, t, filter, keys[i]) && last[keys[i]] == out[i]
    ensures done ==> forall k | Selected(seen[0].page, t, filter, k) :: k in keys
    ensures Fixed(seen, seen[0].page) ==>
      var scan := Passing(seen[0].page, t, order, None, filter);
      && requests <= CeilDiv(|scan|, ClampLimit(limit)) + 1
      && (|seen| > CeilDiv(|scan|, ClampLimit(limit)) ==> done)
      && (done ==> keys == scan)
  {
    hide PageKeys, Passing, Less, InRange, PageRange, Fixed, Walking, CeilDiv, InOrder, Selected, Grows;
    out, done, requests, keys := [], false, 0, [];
    var cursor: Option<string> := None;
    var hasMore := true;
    ghost var now := seen[0].page;
    WalkingStarts(seen, t, order, ClampLimit(limit), filter);
    while hasMore && requests < |seen|
      invariant 0 <= requests <= |seen|
      invariant hasMore ==> cursor == LastOf(keys)
      invariant Walking(seen, t, order, ClampLimit(limit), filter, keys, now, requests, hasMore)
      invariant ValuesMatch(now, keys, out)
    {
      ghost var pageKeys := PageKeys(seen[requests], t, order, limit, cursor, filter);
      WalkingCursor(seen, t, order, ClampLimit(limit), filter, keys, now, requests, hasMore);
      var r := ListByType(seen[requests], t, order, limit, cursor, filter);
      var page := r.value;
      PageWalked(seen, t, order, limit, filter, keys, now, requests, out, pageKeys, page);
      keys, now := keys + pageKeys, seen[requests].page;
      requests := requests + 1;
      out := out + page.entries;
      cursor := page.cursor;
      hasMore := page.hasMore;
      if cursor.None? && page.entries == [] { break; }
    }
    done := !hasMore;
    WalkingEnds(seen, t, order, ClampLimit(limit), filter, keys, now, requests, hasMore);
  }
}
