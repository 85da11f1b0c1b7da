/** Entry ids: eight hex characters of the writer key, a hyphen, and the writer's
    sequence number in decimal. */
module EntryIds {
  import opened Results

  const SHORT_LEN := 8
  const MAX_SAFE_INTEGER := 0x1F_FFFF_FFFF_FFFF

  /** The integers a JavaScript number holds exactly and prints without an exponent. */
  type SafeInteger = n: int | -MAX_SAFE_INTEGER <= n <= MAX_SAFE_INTEGER

  datatype IdError = BadSeq | ShortKey | InvalidId

  datatype DecodedId = DecodedId(writerShort: string, seqNo: nat)

  predicate IsDigit(c: char) { '0' <= c <= '9' }

  predicate IsHexChar(c: char) { IsDigit(c) || 'a' <= c <= 'f' }

  predicate AllDigits(s: string) { forall i | 0 <= i < |s| :: IsDigit(s[i]) }

  predicate AllHex(s: string) { forall i | 0 <= i < |s| :: IsHexChar(s[i]) }

  function LowerChar(c: char): char {
    if 'A' <= c <= 'Z' then (c as int + 32) as char else c
  }

  function Lower(s: string): (r: string)
    ensures |r| == |s| && forall i | 0 <= i < |s| :: r[i] == LowerChar(s[i])
  {
    if s == "" then "" else [LowerChar(s[0])] + Lower(s[1..])
  }

  function DigitChar(d: nat): char
    requires d < 10
  {
    ('0' as int + d) as char
  }

  function Decimal(n: nat): (s: string)
    ensures s != "" && AllDigits(s)
  {
    if n < 10 then [DigitChar(n)] else Decimal(n / 10) + [DigitChar(n % 10)]
  }

  function DecimalValue(s: string): nat
    requires AllDigits(s)
  {
    if s == "" then 0
    else 10 * DecimalValue(s[..|s| - 1]) + (s[|s| - 1] as int - '0' as int)
  }

  function Encode(writerKey: string, seqNo: SafeInteger): Result<string, IdError> {
    if seqNo < 0 then Err(BadSeq)
    else
      var hex := Lower(writerKey);
      if |hex| < SHORT_LEN then Err(ShortKey)
      else Ok(hex[..SHORT_LEN] + "-" + Decimal(seqNo))
  }

  /** The pattern that `decode` and `isValid` share. */
  predicate Matches(id: string) {
    && |id| >= SHORT_LEN + 2
    && AllHex(id[..SHORT_LEN])
    && id[SHORT_LEN] == '-'
    && AllDigits(id[SHORT_LEN + 1..])
  }

  function Decode(id: string): Result<DecodedId, IdError> {
    if Matches(id) then Ok(DecodedId(id[..SHORT_LEN], DecimalValue(id[SHORT_LEN + 1..])))
    else Err(InvalidId)
  }

  lemma {:induction false} ValueOfDecimal(n: nat)
    ensures DecimalValue(Decimal(n)) == n
  {
    if n >= 10 {
      ValueOfDecimal(n / 10);
      assert Decimal(n)[..|Decimal(n)| - 1] == Decimal(n / 10);
    } else {
      assert DecimalValue([DigitChar(n)]) == 10 * DecimalValue([]) + n by {
        assert [DigitChar(n)][..0] == [];
      }
    }
  }

  /** Digits that `Decimal` prints: no leading zero, except the number zero itself. */
  predicate Canonical(s: string) {
    s != "" && AllDigits(s) && (s[0] == '0' ==> |s| == 1)
  }

  lemma {:induction false} DecimalIsCanonical(n: nat)
    ensures Canonical(Decimal(n))
    ensures n > 0 ==> Decimal(n)[0] != '0'
  {
    if n >= 10 { DecimalIsCanonical(n / 10); }
  }

  lemma DecimalOfDigit(v: nat, d: nat)
    requires d < 10
    ensures Decimal(10 * v + d) == if v == 0 then [DigitChar(d)] else Decimal(v) + [DigitChar(d)]
  {
    assert (10 * v + d) / 10 == v && (10 * v + d) % 10 == d;
  }

  lemma {:induction false} DecimalOfValue(s: string)
    requires Canonical(s)
    ensures Decimal(DecimalValue(s)) == s
    ensures s[0] != '0' ==> DecimalValue(s) > 0
  {
    var init, d := s[..|s| - 1], s[|s| - 1] as int - '0' as int;
    assert s == init + [DigitChar(d)];
    DecimalOfDigit(DecimalValue(init), d);
    if init == "" {
      assert DecimalValue(s) == d;
    } else {
      DecimalOfValue(init);
      assert init[0] == s[0];
    }
  }

  lemma DecodeParts(short: string, digits: string)
    requires |short| == SHORT_LEN && AllHex(short) && digits != "" && AllDigits(digits)
    ensures var id := short + "-" + digits;
      && id[..SHORT_LEN] == short && id[SHORT_LEN + 1..] == digits
      && Matches(id) && Decode(id) == Ok(DecodedId(short, DecimalValue(digits)))
  {
    var id := short + "-" + digits;
    assert id[..SHORT_LEN] == short && id[SHORT_LEN] == '-' && id[SHORT_LEN + 1..] == digits;
  }

  lemma DecodeShort(hex: string, n: nat)
    requires SHORT_LEN <= |hex| && AllHex(hex)
    ensures Decode(hex[..SHORT_LEN] + "-" + Decimal(n)) == Ok(DecodedId(hex[..SHORT_LEN], n))
  {
    DecodeParts(hex[..SHORT_LEN], Decimal(n));
    ValueOfDecimal(n);
  }

  /** An id decodes to the key's first eight characters and the sequence number it was made from. */
  lemma RoundTrip(writerKey: string, seqNo: SafeInteger, id: string)
    requires AllHex(Lower(writerKey))
    requires Encode(writerKey, seqNo) == Ok(id)
    ensures Decode(id) == Ok(DecodedId(Lower(writerKey)[..SHORT_LEN], seqNo))
  {
    var hex := Lower(writerKey);
    DecodeShort(hex, seqNo);
  }

  /** Encoding what was decoded gives the id back exactly when its digits have no leading zero. */
  lemma RoundTripBack(id: string)
    requires Decode(id).Ok? && Decode(id).value.seqNo <= MAX_SAFE_INTEGER
    ensures Encode(Decode(id).value.writerShort, Decode(id).value.seqNo) == Ok(id) <==> Canonical(id[SHORT_LEN + 1..])
  {
    var short, digits := id[..SHORT_LEN], id[SHORT_LEN + 1..];
    var printed := Decimal(DecimalValue(digits));
    assert Lower(short) == short && short[..SHORT_LEN] == short;
    assert id == short + "-" + digits;
    assert Encode(short, DecimalValue(digits)) == Ok(short + "-" + printed);
    DecodeParts(short, digits);
    DecodeParts(short, printed);
    DecimalIsCanonical(DecimalValue(digits));
    if Canonical(digits) { DecimalOfValue(digits); }
  }

  /** Ids collide only for writers with the same short key at the same sequence number. */
  lemma EncodeInjective(k1: string, n1: SafeInteger, k2: string, n2: SafeInteger)
    requires Encode(k1, n1).Ok? && Encode(k2, n2).Ok?
    ensures Encode(k1, n1) == Encode(k2, n2) <==> Lower(k1)[..SHORT_LEN] == Lower(k2)[..SHORT_LEN] && n1 == n2
  {
    var a, b := Encode(k1, n1).value, Encode(k2, n2).value;
    assert a[..SHORT_LEN] == Lower(k1)[..SHORT_LEN] && b[..SHORT_LEN] == Lower(k2)[..SHORT_LEN];
    assert a[SHORT_LEN + 1..] == Decimal(n1) && b[SHORT_LEN + 1..] == Decimal(n2);
    ValueOfDecimal(n1);
    ValueOfDecimal(n2);
  }

  lemma ValidHasNoSlash(id: string)
    requires Matches(id)
    ensures '/' !in id
  {
    forall i | 0 <= i < |id| ensures id[i] != '/' {
      if i < SHORT_LEN { assert id[i] == id[..SHORT_LEN][i]; }
      else if i > SHORT_LEN { assert id[i] == id[SHORT_LEN + 1..][i - SHORT_LEN - 1]; }
    }
  }

  lemma LowerOfHex(s: string)
    requires AllHex(s)
    ensures Lower(s) == s
  {
  }

  /** The id the reducer gives a node: its writer key is 64 lower-case hex characters. */
  function IdOf(writerKey: string, seqNo: nat): (id: string)
    requires SHORT_LEN <= |writerKey| && AllHex(writerKey) && seqNo <= MAX_SAFE_INTEGER
    ensures Encode(writerKey, seqNo) == Ok(id)
    ensures Decode(id) == Ok(DecodedId(writerKey[..SHORT_LEN], seqNo))
    ensures '/' !in id
  {
    LowerOfHex(writerKey);
    RoundTrip(writerKey, seqNo, Encode(writerKey, seqNo).value);
    ValidHasNoSlash(Encode(writerKey, seqNo).value);
    Encode(writerKey, seqNo).value
  }

  lemma TenInDecimal()
    ensures Decimal(10) == "10"
  {
    assert Decimal(10) == Decimal(1) + [DigitChar(0)];
  }

  /** A concrete id. */
  lemma TenthEntry()
    ensures Encode("abcdef01", 10) == Ok("abcdef01-10")
  {
    hide Lower;
    LowerOfHex("abcdef01");
    TenInDecimal();
    assert "abcdef01"[..SHORT_LEN] + "-" + "10" == "abcdef01-10";
  }
}
