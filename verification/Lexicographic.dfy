/** The order of the keys of the view: strings compared character by character.
    A Dafny character is a Unicode code point, and code point order is the byte
    order of UTF-8, which is how the view's key encoding compares keys. */
module Lexicographic {
  predicate Less(a: string, b: string) {
    && b != ""
    && (a == "" || a[0] < b[0] || (a[0] == b[0] && Less(a[1..], b[1..])))
  }

  predicate AtMost(a: string, b: string) {
    a == b || Less(a, b)
  }

  lemma {:induction false} Trichotomy(a: string, b: string)
    ensures !(Less(a, b) && Less(b, a))
    ensures a == b ==> !Less(a, b)
    ensures Less(a, b) || a == b || Less(b, a)
  {
    if a != "" && b != "" && a[0] == b[0] {
      Trichotomy(a[1..], b[1..]);
      assert a == [a[0]] + a[1..] && b == [b[0]] + b[1..];
    }
  }

  lemma {:induction false} Transitive(a: string, b: string, c: string)
    requires Less(a, b) && Less(b, c)
    ensures Less(a, c)
  {
    if a != "" && a[0] == b[0] && b[0] == c[0] {
      Transitive(a[1..], b[1..], c[1..]);
    }
  }

  /** `[p/, p0)` holds exactly the strings that start with `p/`: '/' is 0x2F and '0' is 0x30. */
  lemma {:induction false} PrefixRange(p: string, s: string)
    ensures AtMost(p + "/", s) && Less(s, p + "0") <==> p + "/" <= s
  {
    Trichotomy(p + "/", s);
    if p == "" {
      assert p + "/" == "/" && p + "0" == "0";
      if s != "" {
        assert s[0] == '/' ==> s == "/" + s[1..];
        assert Less(s, "0") <==> s[0] < '0' || (s[0] == '0' && Less(s[1..], ""));
      }
    } else if s != "" {
      PrefixRange(p[1..], s[1..]);
      assert (p + "/")[1..] == p[1..] + "/" && (p + "0")[1..] == p[1..] + "0";
      if s[0] == p[0] {
        assert s == [s[0]] + s[1..] && p == [p[0]] + p[1..];
        assert p + "/" == [p[0]] + (p[1..] + "/");
      }
    }
  }

  /** `[p, p\uffff)` holds `p` and the continuations of `p` whose next character is below U+FFFF. */
  lemma {:induction false} PrefixRangeToFFFF(p: string, s: string)
    ensures AtMost(p, s) && Less(s, p + "\U{FFFF}") <==> p <= s && (|p| < |s| ==> s[|p|] < '\U{FFFF}')
  {
    if p == "" {
      assert p + "\U{FFFF}" == "\U{FFFF}";
    } else if s != "" {
      PrefixRangeToFFFF(p[1..], s[1..]);
      assert p == [p[0]] + p[1..] && s == [s[0]] + s[1..];
      assert (p + "\U{FFFF}")[1..] == p[1..] + "\U{FFFF}";
    }
  }

  predicate Ascending(s: seq<string>) {
    forall i, j | 0 <= i < j < |s| :: Less(s[i], s[j])
  }

  ghost predicate IsLeast(m: string, s: set<string>) {
    m in s && forall k | k in s :: AtMost(m, k)
  }

  lemma LeastWith(rest: set<string>, x: string, m: string)
    requires IsLeast(m, rest)
    ensures IsLeast(if Less(x, m) then x else m, rest + {x})
  {
    hide Less;
    Trichotomy(x, m);
    if Less(x, m) {
      forall k | k in rest ensures AtMost(x, k) {
        if k != m { Transitive(x, m, k); }
      }
    }
  }

  lemma {:induction false} LeastExists(s: set<string>)
    requires s != {}
    ensures exists m :: IsLeast(m, s)
  {
    hide Less;
    var x :| x in s;
    var rest := s - {x};
    assert rest + {x} == s;
    if rest == {} {
      assert s == {x} && IsLeast(x, s);
    } else {
      hide IsLeast;
      LeastExists(rest);
      var m :| IsLeast(m, rest);
      LeastWith(rest, x, m);
    }
  }

  lemma LeastUnique(s: set<string>, m: string, n: string)
    requires IsLeast(m, s) && IsLeast(n, s)
    ensures m == n
  {
    Trichotomy(m, n);
  }

  function Least(s: set<string>): (m: string)
    requires s != {}
    ensures IsLeast(m, s)
  {
    LeastExists(s);
    assert forall m, n | IsLeast(m, s) && IsLeast(n, s) :: m == n by {
      forall m, n | IsLeast(m, s) && IsLeast(n, s) ensures m == n { LeastUnique(s, m, n); }
    }
    var m :| m in s && forall k | k in s :: AtMost(m, k);
    assert forall n | n in s && (forall k | k in s :: AtMost(n, k)) :: IsLeast(n, s);
    assert IsLeast(m, s);
    m
  }

  /** The keys of a set in ascending order: what a range read of the view streams. */
  function Sorted(s: set<string>): (out: seq<string>)
    ensures Ascending(out)
    ensures forall k :: k in out <==> k in s
  {
    if s == {} then [] else
      var m := Least(s);
      var rest := Sorted(s - {m});
      assert forall i | 0 <= i < |rest| :: rest[i] in s - {m} && Less(m, rest[i]);
      [m] + rest
  }

  lemma HasMember<T>(a: seq<T>)
    requires a != []
    ensures exists k :: k in a
  {
    assert a[0] in a;
  }

  lemma TailMember(a: seq<string>, k: string)
    requires Ascending(a) && a != []
    ensures k in a[1..] <==> k in a && k != a[0]
  {
    Trichotomy(k, k);
    assert a == [a[0]] + a[1..];
  }

  /** An ascending sequence is determined by the set of its members. */
  lemma {:induction false} AscendingUnique(a: seq<string>, b: seq<string>)
    requires Ascending(a) && Ascending(b)
    requires forall k :: k in a <==> k in b
    ensures a == b
  {
    if a == [] {
      if b != [] { HasMember(b); }
    } else {
      assert a[0] in b;
      assert b != [] && b[0] in a;
      var i :| 0 <= i < |b| && b[i] == a[0];
      var j :| 0 <= j < |a| && a[j] == b[0];
      Trichotomy(a[0], b[0]);
      assert a[0] == b[0];
      forall k ensures k in a[1..] <==> k in b[1..] {
        TailMember(a, k);
        TailMember(b, k);
      }
      AscendingUnique(a[1..], b[1..]);
      assert a == [a[0]] + a[1..] && b == [b[0]] + b[1..];
    }
  }

  function Reverse<T>(s: seq<T>): (r: seq<T>)
    ensures |r| == |s| && forall i | 0 <= i < |s| :: r[i] == s[|s| - 1 - i]
  {
    if s == [] then [] else Reverse(s[1..]) + [s[0]]
  }
}
