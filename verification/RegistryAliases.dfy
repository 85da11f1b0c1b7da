/** The aliases the daemon chooses when the caller gives none. */
module RegistryAliases {
  import opened Results
  import opened Registry
  import EntryIds

  predicate AllAliasChars(s: string) { forall i | 0 <= i < |s| :: IsAliasChar(s[i]) }

  lemma {:induction false} HyphenatedIsPlain(s: string)
    ensures AllAliasChars(Hyphenate(s))
  {
    if s == "" {
    } else {
      HyphenatedIsPlain(s[1..]);
    }
  }

  lemma {:induction false} TrimStartIsSuffix(s: string)
    ensures AllAliasChars(s) ==> AllAliasChars(TrimStart(s))
    ensures TrimStart(s) != "" ==> TrimStart(s)[0] != '-'
  {
    if s != "" && s[0] == '-' { TrimStartIsSuffix(s[1..]); }
  }

  lemma {:induction false} TrimEndIsPrefix(s: string)
    ensures TrimEnd(s) <= s
    ensures TrimEnd(s) != "" ==> TrimEnd(s)[|TrimEnd(s)| - 1] != '-'
  {
    if s != "" && s[|s| - 1] == '-' { TrimEndIsPrefix(s[..|s| - 1]); }
  }

  /** Whatever a pact is called, its slug, or the stand-in for an empty one, is a valid alias. */
  lemma BaseIsAlias(lowered: string)
    ensures IsAlias(BaseAlias(lowered))
  {
    var hyphenated := Hyphenate(lowered);
    HyphenatedIsPlain(lowered);
    TrimStartIsSuffix(hyphenated);
    TrimEndIsPrefix(TrimStart(hyphenated));
    assert AllAliasChars("pact");
  }

  // ── The slug is the words of the name ────────────────────────────────────────

  /** Lower-case letters and digits; everything else separates words. */
  predicate IsWordChar(c: char) { 'a' <= c <= 'z' || '0' <= c <= '9' }

  /** The words of a string, in order. */
  function Words(s: string): (ws: seq<string>)
    ensures forall w | w in ws :: w != "" && forall i | 0 <= i < |w| :: IsWordChar(w[i])
    ensures s != "" && IsWordChar(s[0]) ==> ws != []
  {
    if s == "" then []
    else
      var rest := Words(s[1..]);
      if !IsWordChar(s[0]) then rest
      else if |s| > 1 && IsWordChar(s[1]) then [[s[0]] + rest[0]] + rest[1..]
      else [[s[0]]] + rest
  }

  function Hyphenated(words: seq<string>): string {
    if words == [] then "" else if |words| == 1 then words[0] else words[0] + "-" + Hyphenated(words[1..])
  }

  lemma {:induction false} NoWords(s: string)
    ensures Words(s) == [] && s != "" ==> !IsWordChar(s[|s| - 1])
  {
    if |s| > 1 { NoWords(s[1..]); }
  }

  lemma LongerFirstWord(c: char, words: seq<string>)
    requires words != []
    ensures Hyphenated([[c] + words[0]] + words[1..]) == [c] + Hyphenated(words)
  {
    var longer := [[c] + words[0]] + words[1..];
    assert longer[1..] == words[1..];
    if |words| > 1 {
      assert [c] + words[0] + "-" + Hyphenated(words[1..]) == [c] + (words[0] + "-" + Hyphenated(words[1..]));
    }
  }

  lemma OneMoreWord(c: char, words: seq<string>)
    ensures Hyphenated([[c]] + words) == if words == [] then [c] else [c] + "-" + Hyphenated(words)
  {
    assert ([[c]] + words)[1..] == words;
  }

  /** A word character is the first of a longer first word, or a word of its own. */
  lemma WordsNext(s: string)
    requires s != "" && IsWordChar(s[0])
    ensures Words(s) != []
    ensures Hyphenated(Words(s)) ==
            if |s| > 1 && IsWordChar(s[1]) then [s[0]] + Hyphenated(Words(s[1..]))
            else if Words(s[1..]) == [] then [s[0]]
            else [s[0]] + "-" + Hyphenated(Words(s[1..]))
  {
    hide Hyphenated;
    var rest := Words(s[1..]);
    if |s| > 1 && IsWordChar(s[1]) {
      assert s[1..][0] == s[1];
      LongerFirstWord(s[0], rest);
    } else {
      OneMoreWord(s[0], rest);
    }
  }

  lemma WordsSkip(s: string)
    requires s != "" && !IsWordChar(s[0])
    ensures Words(s) == Words(s[1..])
  {
  }

  function LeadHyphen(s: string): string { if s != "" && !IsWordChar(s[0]) then "-" else "" }

  function TailHyphen(s: string): string {
    if s != "" && Words(s) != [] && !IsWordChar(s[|s| - 1]) then "-" else ""
  }

  lemma NothingJoined()
    ensures Hyphenated([]) == "" && Words("") == []
  {
  }

  lemma HyphenateNext(s: string)
    requires s != ""
    ensures Hyphenate(s) == if IsWordChar(s[0]) then [s[0]] + Hyphenate(s[1..])
                            else if |s| > 1 && !IsWordChar(s[1]) then Hyphenate(s[1..])
                            else "-" + Hyphenate(s[1..])
  {
  }

  lemma Ends(s: string)
    requires |s| > 1
    ensures s[1..][0] == s[1] && s[1..][|s[1..]| - 1] == s[|s| - 1]
  {
  }

  lemma Regroup(x: string, a: string, b: string, c: string)
    ensures x + (a + b + c) == x + a + b + c && "" + a == a
  {
  }

  lemma EndsOfSkip(s: string)
    requires s != "" && !IsWordChar(s[0])
    ensures LeadHyphen(s) == "-" && TailHyphen(s) == TailHyphen(s[1..])
    ensures LeadHyphen(s[1..]) == if |s| > 1 && !IsWordChar(s[1]) then "-" else ""
  {
    hide Words;
    WordsSkip(s);
    NothingJoined();
    if |s| > 1 { Ends(s); } else { assert s[1..] == ""; }
  }

  lemma SkipSeparator(s: string)
    requires s != "" && !IsWordChar(s[0])
    requires Hyphenate(s[1..]) == LeadHyphen(s[1..]) + Hyphenated(Words(s[1..])) + TailHyphen(s[1..])
    ensures Hyphenate(s) == LeadHyphen(s) + Hyphenated(Words(s)) + TailHyphen(s)
  {
    hide Hyphenate, Hyphenated, Words, LeadHyphen, TailHyphen;
    HyphenateNext(s);
    WordsSkip(s);
    EndsOfSkip(s);
    var joined := Hyphenated(Words(s));
    Regroup("-", "", joined, TailHyphen(s));
    assert "-" + "" == "-";
  }

  lemma EndsOfWord(s: string)
    requires s != "" && IsWordChar(s[0])
    ensures LeadHyphen(s) == ""
    ensures LeadHyphen(s[1..]) == if |s| > 1 && !IsWordChar(s[1]) then "-" else ""
    ensures TailHyphen(s) == if |s| > 1 && Words(s[1..]) == [] then "-" else TailHyphen(s[1..])
    ensures |s| > 1 && IsWordChar(s[1]) ==> Words(s[1..]) != []
    ensures |s| == 1 || Words(s[1..]) == [] ==> TailHyphen(s[1..]) == ""
  {
    hide Words;
    WordsNext(s);
    NothingJoined();
    NoWords(s[1..]);
    if |s| > 1 { Ends(s); } else { assert s[1..] == ""; }
  }

  lemma AddWordChar(s: string)
    requires s != "" && IsWordChar(s[0])
    requires Hyphenate(s[1..]) == LeadHyphen(s[1..]) + Hyphenated(Words(s[1..])) + TailHyphen(s[1..])
    ensures Hyphenate(s) == LeadHyphen(s) + Hyphenated(Words(s)) + TailHyphen(s)
  {
    hide Hyphenate, Hyphenated, Words, LeadHyphen, TailHyphen;
    HyphenateNext(s);
    WordsNext(s);
    NothingJoined();
    EndsOfWord(s);
    var t := s[1..];
    var joined := Hyphenated(Words(t));
    var c := [s[0]];
    Regroup(c, LeadHyphen(t), joined, TailHyphen(t));
    Regroup("", "", c, joined);
    assert c + "" == c;
    if |s| == 1 {
      assert t == "" && c + "" + "" + "" == c;
      assert "" + c + "" == c;
    } else if Words(t) == [] {
      assert c + "-" + "" + "" == c + "-";
      assert "" + c + "-" == c + "-";
    } else if IsWordChar(s[1]) {
      assert "" + (c + joined) == c + joined;
    } else {
      assert "" + (c + "-" + joined) == c + "-" + joined;
    }
  }

  /** A separator at either end leaves a hyphen there. */
  lemma {:induction false} HyphenatedWords(s: string)
    ensures Hyphenate(s) == LeadHyphen(s) + Hyphenated(Words(s)) + TailHyphen(s)
  {
    if s == "" {
    } else {
      hide Hyphenate, Hyphenated, Words, LeadHyphen, TailHyphen;
      HyphenatedWords(s[1..]);
      if IsWordChar(s[0]) { AddWordChar(s); } else { SkipSeparator(s); }
    }
  }

  lemma {:induction false} WordsEnds(words: seq<string>)
    requires forall w | w in words :: w != "" && forall i | 0 <= i < |w| :: IsWordChar(w[i])
    ensures var h := Hyphenated(words); words != [] ==> h != "" && h[0] != '-' && h[|h| - 1] != '-'
  {
    if |words| > 1 {
      WordsEnds(words[1..]);
      assert words[0] in words;
    } else if words != [] {
      assert words[0] in words;
    }
  }

  lemma TrimHyphens(middle: string, before: string, after: string)
    requires before in {"", "-"} && after in {"", "-"}
    requires middle != "" ==> middle[0] != '-' && middle[|middle| - 1] != '-'
    requires middle == "" ==> after == ""
    ensures TrimEnd(TrimStart(before + middle + after)) == middle
  {
    var s := before + middle + after;
    if before == "-" { assert s[1..] == middle + after; } else { assert s == middle + after; }
    if middle != "" {
      assert (middle + after)[0] != '-';
      assert TrimStart(s) == middle + after;
      if after == "-" { assert (middle + after)[..|middle + after| - 1] == middle; }
      else { assert middle + after == middle; }
    } else {
      assert TrimStart(s) == "";
    }
  }

  /** The slug of a name is its words with hyphens between them, cut to 48 characters. */
  lemma SlugJoinsWords(lowered: string)
    ensures var joined := Hyphenated(Words(lowered));
      Slugify(lowered) == if |joined| <= 48 then joined else joined[..48]
  {
    hide Hyphenate, TrimStart, TrimEnd, Hyphenated, Words;
    HyphenatedWords(lowered);
    WordsEnds(Words(lowered));
    NothingJoined();
    TrimHyphens(Hyphenated(Words(lowered)), LeadHyphen(lowered), TailHyphen(lowered));
  }

  /** A valid alias without a double or trailing hyphen is its own slug. */
  lemma {:induction false} TidyIsFixed(s: string)
    requires AllAliasChars(s) && forall i | 0 <= i < |s| && s[i] == '-' :: i + 1 < |s| && s[i + 1] != '-'
    ensures Hyphenate(s) == s
  {
    if s == "" {
    } else {
      forall i | 0 <= i < |s[1..]| && s[1..][i] == '-' ensures i + 1 < |s[1..]| && s[1..][i + 1] != '-' {
        assert s[i + 1] == '-';
      }
      TidyIsFixed(s[1..]);
      assert s == [s[0]] + s[1..];
    }
  }

  lemma SlugOfAlias(s: string)
    requires IsAlias(s) && forall i | 0 <= i < |s| && s[i] == '-' :: i + 1 < |s| && s[i + 1] != '-'
    ensures Slugify(s) == s
  {
    TidyIsFixed(s);
  }

  /** The chosen alias is free; it is the base if that is free, else the base with the smallest
      free number. None is found exactly when the base and the numbers 2 to 9998 are all taken. */
  lemma {:induction false} FirstFreeIsSmallest(base: string, rows: seq<Row>, i: nat)
    requires i <= 9999
    ensures var r := FirstFree(base, rows, i);
      && (r.None? <==> forall k: nat | i <= k < 9999 :: HasAlias(rows, Numbered(base, k)))
      && (r.Some? ==> exists k: nat | i <= k < 9999 ::
            r.value == Numbered(base, k) && !HasAlias(rows, r.value) && forall m: nat | i <= m < k ::
                HasAlias(rows, Numbered(base, m)))
    decreases 9999 - i
  {
    hide HasAlias, Numbered;
    if i < 9999 && HasAlias(rows, Numbered(base, i)) { FirstFreeIsSmallest(base, rows, i + 1); }
  }

  lemma NumberedIsAlias(base: string, i: nat)
    requires IsAlias(base)
    ensures IsAlias(Numbered(base, i)) <==> |base| + 1 + |EntryIds.Decimal(i)| <= ALIAS_MAX
  {
    var s, digits := Numbered(base, i), EntryIds.Decimal(i);
    assert s[0] == base[0];
    forall k | 0 <= k < |s| ensures IsAliasChar(s[k]) {
      assert s[k] == if k < |base| then base[k] else if k == |base| then '-' else digits[k - |base| - 1];
    }
  }

  lemma AliasFits(s: string)
    requires IsAlias(s)
    ensures |s| <= ALIAS_MAX
  {
  }

  lemma NumberedLength(base: string, i: nat)
    ensures |Numbered(base, i)| == |base| + 1 + |EntryIds.Decimal(i)|
  {
  }

  /** Creating without an alias is refused for the alias exactly when the numbered name the
      daemon picks itself is longer than an alias may be. */
  lemma DefaultAliasRefusedExactlyWhen(hostDir: string, h: Host, name: string, setCurrent: Option<bool>, made: Made)
    ensures var outcome := Step(hostDir, h, Create(name, None, setCurrent, made)).1; var base := BaseAlias(name);
      && outcome != Failed(Taken)
      && (outcome == Failed(BadAlias) <==>
          UniqueAlias(name, h.rows).Some? && |UniqueAlias(name, h.rows).value| > ALIAS_MAX)
      && (outcome == Failed(NoUniqueAlias) <==> HasAlias(h.rows, base) && forall k: nat | 2 <= k < 9999 ::
          HasAlias(h.rows, Numbered(base, k)))
  {
    hide HasAlias, Numbered, IsAlias, BaseAlias;
    var base := BaseAlias(name);
    BaseIsAlias(name);
    AliasFits(base);
    FirstFreeIsSmallest(base, h.rows, 2);
    var r := UniqueAlias(name, h.rows);
    if HasAlias(h.rows, base) && r.Some? {
      var k: nat :| 2 <= k < 9999 && r.value == Numbered(base, k) && !HasAlias(h.rows, r.value);
      NumberedIsAlias(base, k);
      NumberedLength(base, k);
    }
  }

  ghost predicate InUse(rows: seq<Row>, alias: string) { exists r | r in rows :: r.alias == alias }

  lemma InUseIsListed(rows: seq<Row>, a: string)
    ensures HasAlias(rows, a) <==> InUse(rows, a)
  {
    if r :| r in rows && r.alias == a { var i :| 0 <= i < |rows| && rows[i] == r; }
    if HasAlias(rows, a) { var i :| 0 <= i < |rows| && rows[i].alias == a; assert rows[i] in rows; }
  }

  /** The alias is the `k`-th numbered one, and the first that is free. */
  ghost predicate FirstFreeAt(rows: seq<Row>, base: string, alias: string, k: nat) {
    && 2 <= k < 9999 && alias == base + "-" + EntryIds.Decimal(k) && !InUse(rows, alias)
    && forall m: nat | 2 <= m < k :: InUse(rows, base + "-" + EntryIds.Decimal(m))
  }

  lemma UniqueAliasIs(rows: seq<Row>, name: string)
    requires UniqueAlias(name, rows).Some?
    ensures var alias := UniqueAlias(name, rows).value; var base := BaseAlias(name);
      if !InUse(rows, base) then alias == base else exists k: nat :: FirstFreeAt(rows, base, alias, k)
  {
    hide HasAlias, BaseAlias, InUse;
    var base, alias := BaseAlias(name), UniqueAlias(name, rows).value;
    InUseIsListed(rows, base);
    InUseIsListed(rows, alias);
    FirstFreeIsSmallest(base, rows, 2);
    if HasAlias(rows, base) {
      var k: nat :| 2 <= k < 9999 && alias == Numbered(base, k) && !HasAlias(rows, alias) &&
          forall m: nat | 2 <= m < k :: HasAlias(rows, Numbered(base, m));
      forall m: nat | 2 <= m < k ensures InUse(rows, base + "-" + EntryIds.Decimal(m)) {
        assert HasAlias(rows, Numbered(base, m));
        InUseIsListed(rows, Numbered(base, m));
      }
      assert FirstFreeAt(rows, base, alias, k);
    }
  }

  lemma CreatesUnderUnique(hostDir: string, h: Host, name: string, setCurrent: Option<bool>, made: Made)
    ensures var outcome := Step(hostDir, h, Create(name, None, setCurrent, made)).1;
      outcome.Ready? ==> UniqueAlias(name, h.rows) == Some(outcome.alias)
  {
    hide HasAlias, UniqueAlias, IsAlias;
  }

  /** Creating without an alias lists the pact under its slug, or under `pact` if the name has no
      words; and if that is taken, under the first free of `-2` to `-9998` after it. */
  lemma DefaultAliasExactlyWhen(hostDir: string, h: Host, name: string, setCurrent: Option<bool>, made: Made)
    ensures var outcome := Step(hostDir, h, Create(name, None, setCurrent, made)).1;
      var base := if Slugify(name) == "" then "pact" else Slugify(name);
      outcome.Ready? ==> if !InUse(h.rows, base) then outcome.alias == base
                         else exists k: nat :: FirstFreeAt(h.rows, base, outcome.alias, k)
  {
    hide UniqueAlias, Step, Slugify, InUse, FirstFreeAt;
    CreatesUnderUnique(hostDir, h, name, setCurrent, made);
    if UniqueAlias(name, h.rows).Some? { UniqueAliasIs(h.rows, name); }
  }

  function LongName(): string { seq(47, _ => 'a') }

  lemma LongNameIsItsBase()
    ensures IsAlias(LongName()) && BaseAlias(LongName()) == LongName()
  {
    var name := LongName();
    assert forall i | 0 <= i < |name| :: name[i] == 'a';
    SlugOfAlias(name);
  }

  /** Two more characters make such a name too long. */
  lemma LongNameNumbered()
    ensures |Numbered(LongName(), 2)| == 49
  {
    assert |EntryIds.Decimal(2)| == 1;
    NumberedLength(LongName(), 2);
  }

  lemma OnlyNameTaken(rows: seq<Row>, name: string)
    requires |rows| == 1 && rows[0].alias == name
    ensures forall a :: HasAlias(rows, a) <==> a == name
  {
  }

  lemma NextAfterTaken(name: string, rows: seq<Row>)
    requires HasAlias(rows, BaseAlias(name)) && !HasAlias(rows, Numbered(BaseAlias(name), 2))
    ensures UniqueAlias(name, rows) == Some(Numbered(BaseAlias(name), 2))
  {
    hide BaseAlias, Numbered, HasAlias;
  }

  /** A concrete case: such a name of 47 letters, already taken. */
  lemma {:induction false} LongNameIsRefused(hostDir: string, setCurrent: Option<bool>, made: Made)
    ensures var h := FRESH_HOST.(rows := [Row(LongName(), "00", PactConfigDir(hostDir, LongName()))]);
      Step(hostDir, h, Create(LongName(), None, setCurrent, made)) == (h, Failed(BadAlias))
  {
    hide Install, PactConfigDir, BaseAlias, Numbered, HasAlias, UniqueAlias, LongName;
    var rows := [Row(LongName(), "00", PactConfigDir(hostDir, LongName()))];
    LongNameIsItsBase();
    LongNameNumbered();
    AliasFits(LongName());
    OnlyNameTaken(rows, LongName());
    NextAfterTaken(LongName(), rows);
  }

  /** The alias made of the first characters of a join key is valid exactly if those are in
      lower case: an upper-case key is refused unless the caller names an alias. */
  lemma DefaultJoinAliasExactlyWhen(joinKey: string)
    requires IsHexText(joinKey)
    ensures IsAlias(JoinedAlias(joinKey)) <==> EntryIds.Lower(Cut(joinKey, 8)) == Cut(joinKey, 8)
  {
    var short := Cut(joinKey, 8);
    var s := JoinedAlias(joinKey);
    assert forall i | 0 <= i < |s| :: s[i] == if i < 7 then "joined-"[i] else short[i - 7];
    forall i | 0 <= i < |short| ensures IsAliasChar(short[i]) <==> EntryIds.LowerChar(short[i]) == short[i] {
      assert short[i] == joinKey[i];
      assert EntryIds.IsHexChar(EntryIds.Lower(joinKey)[i]);
    }
    if EntryIds.Lower(short) == short {
      forall i | 0 <= i < |s| ensures IsAliasChar(s[i]) { if i >= 7 { assert EntryIds.Lower(short)[i - 7] ==
                                                                     short[i - 7]; } }
    }
    if IsAlias(s) {
      forall i | 0 <= i < |short| ensures EntryIds.Lower(short)[i] == short[i] { assert IsAliasChar(s[i + 7]); }
    }
  }

  /** An upper-case key is refused when the caller names no alias. */
  lemma {:induction false} UpperCaseKeyIsRefused(hostDir: string, h: Host, setCurrent: Option<bool>, made: Made)
    ensures Step(hostDir, h, Join("ABCDEF00", None, setCurrent, made)) == (h, Failed(BadAlias))
  {
    hide Install, OpenStep, IndexOf, HasAlias;
    assert JoinedAlias("ABCDEF00")[7] == 'A';
    assert !IsAliasChar('A');
  }
}
