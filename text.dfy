/**
 * The string operations the Rust code relies on, over ASCII text: `to_lowercase`,
 * `starts_with`, `split`, the decimal `to_string` of integers and `str::parse::<u32>`.
 */
module Text {
  import opened Wrappers
  import opened Ints

  // ---------------------------------------------------------------------------
  // Decimal digits

  predicate IsDigit(c: char) {
    '0' <= c <= '9'
  }

  predicate AllDigits(s: string) {
    forall i | 0 <= i < |s| :: IsDigit(s[i])
  }

  function DigitChar(d: nat): (c: char)
    requires d < 10
    ensures IsDigit(c) && c as int - '0' as int == d
  {
    ('0' as int + d) as char
  }

  function DigitValue(c: char): nat
    requires IsDigit(c)
  {
    c as int - '0' as int
  }

  /** The number a string of decimal digits denotes, most significant digit first. */
  function DigitsValue(s: string): nat
    requires AllDigits(s)
  {
    if |s| == 0 then 0 else DigitsValue(s[..|s| - 1]) * 10 + DigitValue(s[|s| - 1])
  }

  function Pow10(k: nat): (p: nat)
    ensures p >= 1
  {
    if k == 0 then 1 else 10 * Pow10(k - 1)
  }

  /** Decimal text of `n` without leading zeros: Rust's `to_string` on an unsigned integer. */
  function NatToString(n: nat): (s: string)
    ensures 1 <= |s| && AllDigits(s)
    ensures |s| == 1 <==> n < 10
    ensures |s| > 1 ==> s[0] != '0'
  {
    if n < 10 then [DigitChar(n)] else NatToString(n / 10) + [DigitChar(n % 10)]
  }

  /** Rust's `to_string` on a signed integer. */
  function IntToString(i: int): (s: string)
    ensures 1 <= |s|
    ensures i < 0 <==> s[0] == '-'
  {
    if i < 0 then "-" + NatToString(-i) else NatToString(i)
  }

  /** `n` written with exactly `width` digits, zero-padded on the left (higher digits are dropped). */
  function Padded(n: nat, width: nat): (s: string)
    ensures |s| == width && AllDigits(s)
  {
    if width == 0 then "" else Padded(n / 10, width - 1) + [DigitChar(n % 10)]
  }

  /** Cutting a concatenation at its seam gives back its parts. */
  lemma CutAt(a: string, b: string)
    ensures (a + b)[..|a|] == a && (a + b)[|a|..] == b
  {
  }

  /** A piece that starts at `i` in a prefix of `s` starts at `i` in `s` too. */
  lemma SliceOfPrefix(s: string, i: nat, j: nat, n: nat)
    requires i <= j <= n <= |s|
    ensures s[i..j] == s[..n][i..j]
  {
  }

  /** A non-empty run of digits, read as a number (leading zeros allowed). */
  function ParseDecimal(s: string): (r: Option<nat>)
    ensures r.Some? <==> |s| > 0 && AllDigits(s)
  {
    if |s| > 0 && AllDigits(s) then Some(DigitsValue(s)) else None
  }

  /**
   * Rust's `str::parse::<u32>`: an optional leading `+`, then at least one digit,
   * and a value that fits in 32 bits; anything else is an error.
   */
  function ParseU32(s: string): (r: Option<U32>)
    ensures |s| == 0 ==> r.None?
    ensures r.Some? ==> s[0] == '+' || IsDigit(s[0])
    ensures r.Some? ==> ParseDecimal(if s[0] == '+' then s[1..] else s) == Some(r.value)
    ensures |s| > 0 && AllDigits(s) && DigitsValue(s) < U32_LIMIT ==> r == Some(DigitsValue(s) as U32)
    ensures |s| > 1 && s[0] == '+' && AllDigits(s[1..]) && DigitsValue(s[1..]) < U32_LIMIT ==>
              r == Some(DigitsValue(s[1..]) as U32)
  {
    var digits := if |s| > 1 && s[0] == '+' then s[1..] else s;
    if |digits| > 0 && AllDigits(digits) && DigitsValue(digits) < U32_LIMIT
    then Some(DigitsValue(digits) as U32)
    else None
  }

  lemma {:induction false} NatToStringValue(n: nat)
    ensures DigitsValue(NatToString(n)) == n
  {
    if n >= 10 {
      NatToStringValue(n / 10);
      var s := NatToString(n);
      assert s[..|s| - 1] == NatToString(n / 10);
    }
  }

  /** Printing a number and reading it back gives the number. */
  lemma ParseDecimalNatToString(n: nat)
    ensures ParseDecimal(NatToString(n)) == Some(n)
  {
    NatToStringValue(n);
  }

  /** The signed decimal text of `i` is a `-` for a negative `i` followed by the digits of its magnitude. */
  lemma ParseIntToString(i: int)
    ensures var s := IntToString(i);
            ParseDecimal(if i < 0 then s[1..] else s) == Some(if i < 0 then -i else i)
  {
    if i < 0 {
      assert IntToString(i)[1..] == NatToString(-i);
      ParseDecimalNatToString(-i);
    } else {
      ParseDecimalNatToString(i);
    }
  }

  /** `u32::to_string` followed by `str::parse::<u32>` is the identity. */
  lemma ParseU32NatToString(n: U32)
    ensures ParseU32(NatToString(n)) == Some(n)
  {
    NatToStringValue(n);
  }

  /** A leading `+` is allowed; a bare sign, the empty string, a minus sign and 2^32 are not. */
  lemma ParseU32Examples()
    ensures ParseU32("+2700") == Some(2700)
    ensures ParseU32("+").None? && ParseU32("").None? && ParseU32("-0").None?
    ensures ParseU32("4294967296").None?
    ensures ParseU32("0002700") == Some(2700) && ParseU32("+7") == Some(7)
  {
    PaddedRatingExample();
    assert "+2700"[1..] == "2700";
    DigitsValue4("2700");
    assert !IsDigit('-');
    BigExample();
  }

  /** Leading zeros add nothing: "0002700" is read digit by digit to 2700. */
  lemma PaddedRatingExample()
    ensures AllDigits("0002700") && DigitsValue("0002700") == 2700
  {
    var s := "0002700";
    assert DigitsValue(s[..1]) == 0;
    assert DigitsValue(s[..2]) == 0 by { assert s[..2][..1] == s[..1]; }
    assert DigitsValue(s[..3]) == 0 by { assert s[..3][..2] == s[..2]; }
    assert DigitsValue(s[..4]) == 2 by { assert s[..4][..3] == s[..3]; }
    assert DigitsValue(s[..5]) == 27 by { assert s[..5][..4] == s[..4]; }
    assert DigitsValue(s[..6]) == 270 by { assert s[..6][..5] == s[..5]; }
    assert s[..7] == s;
  }

  /** 2^32 itself is read digit by digit to 4294967296, one past the largest U32. */
  lemma BigExample()
    ensures AllDigits("4294967296") && DigitsValue("4294967296") == U32_LIMIT
  {
    var s := "4294967296";
    assert DigitsValue(s[..1]) == 4;
    assert DigitsValue(s[..2]) == 42 by { assert s[..2][..1] == s[..1]; }
    assert DigitsValue(s[..3]) == 429 by { assert s[..3][..2] == s[..2]; }
    assert DigitsValue(s[..4]) == 4294 by { assert s[..4][..3] == s[..3]; }
    assert DigitsValue(s[..5]) == 42949 by { assert s[..5][..4] == s[..4]; }
    assert DigitsValue(s[..6]) == 429496 by { assert s[..6][..5] == s[..5]; }
    assert DigitsValue(s[..7]) == 4294967 by { assert s[..7][..6] == s[..6]; }
    assert DigitsValue(s[..8]) == 42949672 by { assert s[..8][..7] == s[..7]; }
    assert DigitsValue(s[..9]) == 429496729 by { assert s[..9][..8] == s[..8]; }
    assert s[..10] == s;
  }

  lemma {:induction false} PaddedValue(n: nat, width: nat)
    requires n < Pow10(width)
    ensures DigitsValue(Padded(n, width)) == n
  {
    if width > 0 {
      assert n / 10 < Pow10(width - 1);
      PaddedValue(n / 10, width - 1);
      var s := Padded(n, width);
      assert s[..width - 1] == Padded(n / 10, width - 1);
    }
  }

  /** A fixed-width digit string is the padded rendering of its own value. */
  lemma {:induction false} ValuePadded(s: string)
    requires AllDigits(s)
    ensures DigitsValue(s) < Pow10(|s|)
    ensures Padded(DigitsValue(s), |s|) == s
  {
    if |s| > 0 {
      var k := |s| - 1;
      ValuePadded(s[..k]);
      var v := DigitsValue(s);
      assert v / 10 == DigitsValue(s[..k]) && v % 10 == DigitValue(s[k]);
      assert DigitChar(v % 10) == s[k];
      assert s == s[..k] + [s[k]];
    }
  }

  lemma DigitsValue2(s: string)
    requires |s| == 2 && AllDigits(s)
    ensures DigitsValue(s) == 10 * DigitValue(s[0]) + DigitValue(s[1])
  {
    var t := s[..1];
    assert t[..0] == [] && t[0] == s[0];
    assert DigitsValue(t) == DigitValue(s[0]);
  }

  lemma DigitsValue4(s: string)
    requires |s| == 4 && AllDigits(s)
    ensures DigitsValue(s) == 1000 * DigitValue(s[0]) + 100 * DigitValue(s[1]) + 10 * DigitValue(s[2]) + DigitValue(s[3])
  {
    var t := s[..3];
    assert t[..2] == s[..2] && t[2] == s[2];
    DigitsValue2(s[..2]);
    assert DigitsValue(t) == DigitsValue(s[..2]) * 10 + DigitValue(s[2]);
  }

  // ---------------------------------------------------------------------------
  // ASCII case

  /** Rust's `to_lowercase`, restricted to ASCII: `A`..`Z` become `a`..`z`. */
  function LowerChar(c: char): char {
    if 'A' <= c <= 'Z' then (c as int + 32) as char else c
  }

  function Lower(s: string): (r: string)
    ensures |r| == |s|
    ensures forall i | 0 <= i < |s| :: r[i] == LowerChar(s[i])
  {
    seq(|s|, i requires 0 <= i < |s| => LowerChar(s[i]))
  }

  /** Two characters are the same letter up to ASCII case. */
  predicate SameIgnoringCase(x: char, y: char) {
    || x == y
    || ('A' <= x <= 'Z' && y as int == x as int + 32)
    || ('A' <= y <= 'Z' && x as int == y as int + 32)
  }

  predicate EqualIgnoringCase(a: string, b: string) {
    |a| == |b| && forall i | 0 <= i < |a| :: SameIgnoringCase(a[i], b[i])
  }

  /** Comparing lower-cased strings is exactly case-insensitive equality. */
  lemma LowerEqualIff(a: string, b: string)
    ensures Lower(a) == Lower(b) <==> EqualIgnoringCase(a, b)
  {
    if Lower(a) == Lower(b) {
      forall i | 0 <= i < |a| ensures SameIgnoringCase(a[i], b[i]) {
        assert Lower(a)[i] == Lower(b)[i];
      }
    }
    if EqualIgnoringCase(a, b) {
      assert forall i | 0 <= i < |a| :: Lower(a)[i] == Lower(b)[i];
    }
  }

  lemma LowerIdempotent(s: string)
    ensures Lower(Lower(s)) == Lower(s)
  {
  }

  // ---------------------------------------------------------------------------
  // Prefixes and splitting

  /** Rust's `starts_with`. */
  predicate StartsWith(s: string, prefix: string) {
    |prefix| <= |s| && s[..|prefix|] == prefix
  }

  /** `s` starts with `prefix` exactly when it is at least as long and agrees with it character by character. */
  lemma StartsWithIff(s: string, prefix: string)
    ensures StartsWith(s, prefix) <==> |prefix| <= |s| && forall i | 0 <= i < |prefix| :: s[i] == prefix[i]
  {
    if |prefix| <= |s| && forall i | 0 <= i < |prefix| :: s[i] == prefix[i] {
      assert s[..|prefix|] == prefix;
    }
  }

  /**
   * Rust's `split` on a one-character separator: the pieces between separators,
   * including empty ones, and always at least one piece.
   */
  function Split(s: string, sep: char): (parts: seq<string>)
    ensures |parts| >= 1
    ensures forall k | 0 <= k < |parts| :: sep !in parts[k]
  {
    if |s| == 0 then [""]
    else
      var rest := Split(s[1..], sep);
      if s[0] == sep then [""] + rest else [[s[0]] + rest[0]] + rest[1..]
  }

  /** The pieces glued back together with the separator between them. */
  function Join(parts: seq<string>, sep: char): string
    requires |parts| >= 1
  {
    if |parts| == 1 then parts[0] else parts[0] + [sep] + Join(parts[1..], sep)
  }

  /** Splitting loses nothing: the pieces joined with the separator give back the string. */
  lemma {:induction false} JoinSplit(s: string, sep: char)
    ensures Join(Split(s, sep), sep) == s
  {
    if |s| > 0 {
      JoinSplit(s[1..], sep);
      var rest := Split(s[1..], sep);
      if |rest| > 1 {
        assert Join(rest, sep) == rest[0] + [sep] + Join(rest[1..], sep);
      }
      assert s == [s[0]] + s[1..];
    }
  }

  lemma {:induction false} SplitAppend(a: string, t: string, sep: char)
    requires sep !in a
    ensures Split(a + t, sep) == [a + Split(t, sep)[0]] + Split(t, sep)[1..]
  {
    if |a| > 0 {
      SplitAppend(a[1..], t, sep);
      assert (a + t)[1..] == a[1..] + t;
      assert (a + t)[0] == a[0];
      assert [a[0]] + (a[1..] + Split(t, sep)[0]) == a + Split(t, sep)[0];
    } else {
      assert a == [];
      var parts := Split(t, sep);
      assert a + t == t && a + parts[0] == parts[0];
      assert parts == [parts[0]] + parts[1..];
    }
  }

  /** Joining separator-free pieces and splitting again gives back the pieces. */
  lemma {:induction false} SplitJoin(parts: seq<string>, sep: char)
    requires |parts| >= 1
    requires forall k | 0 <= k < |parts| :: sep !in parts[k]
    ensures Split(Join(parts, sep), sep) == parts
  {
    if |parts| == 1 {
      SplitAppend(parts[0], "", sep);
      assert parts[0] + "" == parts[0];
    } else {
      var tail := Join(parts[1..], sep);
      SplitJoin(parts[1..], sep);
      SplitAppend(parts[0], [sep] + tail, sep);
      assert parts[0] + [sep] + tail == parts[0] + ([sep] + tail);
      var u := [sep] + tail;
      assert u[0] == sep && u[1..] == tail;
      assert Split(u, sep) == [""] + Split(tail, sep);
      assert Split(u, sep)[0] == "" && Split(u, sep)[1..] == parts[1..];
      assert parts[0] + "" == parts[0];
      assert Join(parts, sep) == parts[0] + u;
      assert parts == [parts[0]] + parts[1..];
    }
  }
}
