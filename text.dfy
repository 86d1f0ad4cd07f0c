/** Text primitives the core relies on but does not define itself: the case-insensitive
    substring test behind PostgreSQL's `ILIKE '%search%'`, and JavaScript's
    `parseInt(s, 10)` with its decimal rendering. */
module Text {
  import opened Wrappers

  // ---------------------------------------------------------------------------
  // Case folding and substring search (ILIKE '%needle%')
  // ---------------------------------------------------------------------------

  /** ASCII lower-casing of one character; other characters are left alone. */
  function LowerChar(c: char): char
  {
    if 'A' <= c <= 'Z' then (c as int + 32) as char else c
  }

  function Lower(s: string): (r: string)
    ensures |r| == |s|
    ensures forall i :: 0 <= i < |s| ==> r[i] == LowerChar(s[i])
  {
    seq(|s|, i requires 0 <= i < |s| => LowerChar(s[i]))
  }

  /** `needle` occurs somewhere in `hay`: the declarative definition. */
  ghost predicate OccursAt(hay: string, needle: string, i: int)
  {
    0 <= i && i + |needle| <= |hay| && hay[i..i + |needle|] == needle
  }

  /** The executable substring test: `needle` is a prefix of some suffix of `hay`. */
  predicate Contains(hay: string, needle: string)
    decreases |hay|
  {
    needle <= hay || (hay != [] && Contains(hay[1..], needle))
  }

  /** A slice of a text's tail is the slice of the text one position further on. */
  lemma TailSlice(hay: string, j: int, k: int)
    requires 1 <= j <= k <= |hay|
    ensures hay[1..][j - 1..k - 1] == hay[j..k]
  {
    assert forall m :: 0 <= m < k - j ==> hay[1..][j - 1..k - 1][m] == hay[j..k][m];
  }

  /** An occurrence in the tail is an occurrence one position further on in the text. */
  lemma OccursShift(hay: string, needle: string, i: int)
    requires hay != [] && 0 <= i
    ensures OccursAt(hay[1..], needle, i) <==> OccursAt(hay, needle, i + 1)
  {
    if i + 1 + |needle| <= |hay| {
      TailSlice(hay, i + 1, i + 1 + |needle|);
      assert hay[1..][i..i + |needle|] == hay[i + 1..i + 1 + |needle|];
    }
  }

  /** An occurrence at offset 0 is a prefix. */
  lemma OccursAtStart(hay: string, needle: string)
    ensures OccursAt(hay, needle, 0) <==> needle <= hay
  {
  }

  lemma {:induction false} ContainsIff(hay: string, needle: string)
    ensures Contains(hay, needle) <==> exists i :: OccursAt(hay, needle, i)
    decreases |hay|
  {
    OccursAtStart(hay, needle);
    if needle <= hay {
    } else if hay == [] {
      forall i | OccursAt(hay, needle, i) ensures false {
      }
    } else {
      ContainsIff(hay[1..], needle);
      forall i | OccursAt(hay[1..], needle, i) ensures OccursAt(hay, needle, i + 1) {
        OccursShift(hay, needle, i);
      }
      forall i | OccursAt(hay, needle, i) ensures OccursAt(hay[1..], needle, i - 1) {
        assert i != 0;
        OccursShift(hay, needle, i - 1);
      }
    }
  }

  /** The empty pattern occurs in every text, so `ILIKE '%%'` matches every row. */
  lemma EmptyOccurs(hay: string)
    ensures Contains(hay, "")
  {
  }

  /** `value ILIKE '%pattern%'` with `%`, `_` and `\` taken literally and ASCII case folding. */
  predicate ILike(value: string, pattern: string)
  {
    Contains(Lower(value), Lower(pattern))
  }

  /** ILIKE '%pattern%' holds exactly when the lower-cased pattern occurs in the lower-cased value. */
  lemma ILikeIff(value: string, pattern: string)
    ensures ILike(value, pattern) <==> exists i :: OccursAt(Lower(value), Lower(pattern), i)
  {
    ContainsIff(Lower(value), Lower(pattern));
  }

  // ---------------------------------------------------------------------------
  // JavaScript parseInt(s, 10)
  // ---------------------------------------------------------------------------

  predicate IsDigit(c: char)
  {
    '0' <= c <= '9'
  }

  /** JavaScript's WhiteSpace and LineTerminator characters, which parseInt skips. */
  predicate IsJsSpace(c: char)
  {
    var n := c as int;
    (9 <= n <= 13) || n == 32 || n == 0xA0 || n == 0x1680 || (0x2000 <= n <= 0x200A)
    || n == 0x2028 || n == 0x2029 || n == 0x202F || n == 0x205F || n == 0x3000 || n == 0xFEFF
  }

  function TrimStart(s: string): string
  {
    if s != [] && IsJsSpace(s[0]) then TrimStart(s[1..]) else s
  }

  /** The longest prefix of `s` made of decimal digits. */
  function LeadingDigits(s: string): (r: string)
    ensures r <= s
    ensures forall i :: 0 <= i < |r| ==> IsDigit(r[i])
    ensures |r| < |s| ==> !IsDigit(s[|r|])
  {
    if s != [] && IsDigit(s[0]) then [s[0]] + LeadingDigits(s[1..]) else []
  }

  /** The number a string of decimal digits denotes. */
  function DigitsValue(ds: string): nat
  {
    if ds == [] then 0 else DigitsValue(ds[..|ds| - 1]) * 10 + (ds[|ds| - 1] as int - '0' as int) % 10
  }

  /** parseInt(s, 10): skip leading white space, read an optional sign and then as many
      decimal digits as there are; no digit at all gives NaN (None). */
  function ParseDecimal(s: string): Option<int>
  {
    ParseSigned(TrimStart(s))
  }

  function ParseSigned(t: string): Option<int>
  {
    if t != [] && t[0] == '-' then
      match ParseUnsigned(t[1..])
      case None => None
      case Some(v) => Some(0 - v)
    else if t != [] && t[0] == '+' then ParseUnsigned(t[1..])
    else ParseUnsigned(t)
  }

  function ParseUnsigned(t: string): Option<int>
  {
    var ds := LeadingDigits(t);
    if ds == [] then None else Some(DigitsValue(ds))
  }

  function DigitChar(d: nat): char
    requires d < 10
  {
    ('0' as int + d) as char
  }

  /** Decimal rendering of a natural number, most significant digit first. */
  function Digits(n: nat): (r: string)
    ensures r != [] && forall i :: 0 <= i < |r| ==> IsDigit(r[i])
  {
    if n < 10 then [DigitChar(n)] else Digits(n / 10) + [DigitChar(n % 10)]
  }

  /** Decimal rendering of an integer in plain decimal digits, with a leading `-` when negative.
      JavaScript's String(n) writes the same for |n| < 10^21; from 10^21 up it switches to
      exponent notation, which this function does not produce. */
  function Decimal(n: int): string
  {
    if n < 0 then "-" + Digits(-n) else Digits(n)
  }

  lemma {:induction false} DigitsValueOfDigits(n: nat)
    ensures DigitsValue(Digits(n)) == n
  {
    if n >= 10 {
      var ds := Digits(n);
      assert ds[..|ds| - 1] == Digits(n / 10);
      DigitsValueOfDigits(n / 10);
    }
  }

  lemma {:induction false} LeadingDigitsAppend(ds: string, rest: string)
    requires forall i :: 0 <= i < |ds| ==> IsDigit(ds[i])
    requires rest == [] || !IsDigit(rest[0])
    ensures LeadingDigits(ds + rest) == ds
  {
    if ds != [] {
      assert (ds + rest)[1..] == ds[1..] + rest;
      LeadingDigitsAppend(ds[1..], rest);
    }
  }

  lemma {:induction false} ParseDigitsThen(m: nat, rest: string)
    requires rest == [] || !IsDigit(rest[0])
    ensures ParseUnsigned(Digits(m) + rest) == Some(m)
  {
    LeadingDigitsAppend(Digits(m), rest);
    DigitsValueOfDigits(m);
  }

  /** A leading '-' is kept by TrimStart, since it is not JavaScript whitespace, and then
      negates what the unsigned reader finds after it. */
  lemma MinusThen(body: string, v: nat)
    requires ParseUnsigned(body) == Some(v)
    ensures ParseDecimal(['-'] + body) == Some(0 - v)
  {
    var s := ['-'] + body;
    assert s[0] == '-' && !IsJsSpace(s[0]);
    assert TrimStart(s) == s;
    assert s[1..] == body;
  }

  lemma {:induction false} ParseNegativeThen(n: int, rest: string)
    requires n < 0
    requires rest == [] || !IsDigit(rest[0])
    ensures ParseDecimal(Decimal(n) + rest) == Some(n)
  {
    var body := Digits(-n) + rest;
    // The rendering is the sign followed by the digits of -n.
    assert Decimal(n) + rest == ['-'] + body;
    ParseDigitsThen(-n, rest);
    MinusThen(body, -n);
  }

  lemma {:induction false} ParseNonNegativeThen(n: int, rest: string)
    requires n >= 0
    requires rest == [] || !IsDigit(rest[0])
    ensures ParseDecimal(Decimal(n) + rest) == Some(n)
  {
    var s := Digits(n) + rest;
    ParseDigitsThen(n, rest);
    assert Decimal(n) + rest == s;
    assert IsDigit(s[0]);
    assert ParseSigned(s) == Some(n);
    assert TrimStart(s) == s;
  }

  /** parseInt reads back an integer written in plain decimal digits, whatever non-digit text
      follows it. */
  lemma {:induction false} ParseDecimalRoundTrip(n: int, rest: string)
    requires rest == [] || !IsDigit(rest[0])
    ensures ParseDecimal(Decimal(n) + rest) == Some(n)
  {
    if n < 0 {
      ParseNegativeThen(n, rest);
    } else {
      ParseNonNegativeThen(n, rest);
    }
  }
}
