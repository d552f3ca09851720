/** What the accepted spellings of a number are worth, digit by digit. */
module HexDigits {
  import opened Bits
  import opened Bytes
  import opened Listing
  import opened Hex

  const LOWER := "0123456789abcdef"
  const UPPER := "0123456789ABCDEF"

  /** `c` is the digit for `k`, in either case. */
  predicate IsDigitFor(c: char, k: nat) {
    k < 16 && (c == LOWER[k] || c == UPPER[k])
  }

  /** The sixteen digits in both cases, and nothing else, with their values. */
  lemma DigitTable(c: char, k: nat)
    ensures IsHexDigit(c) <==> exists j: nat :: j < 16 && IsDigitFor(c, j)
    ensures IsDigitFor(c, k) ==> IsHexDigit(c) && HexDigit(c) == k
  {
    if IsHexDigit(c) {
      assert IsDigitFor(c, HexDigit(c));
    }
  }

  /** `d` spells `v`: each digit in either case, leading zeros as they come. */
  predicate Spells(d: string, v: nat) {
    && v < Pow16(|d|)
    && forall i :: 0 <= i < |d| ==> IsDigitFor(d[i], v / Pow16(|d| - 1 - i) % 16)
  }

  lemma DivTwice(v: nat, p: nat)
    requires p > 0
    ensures v / 16 / p == v / (16 * p)
  {
    var q, r := v / 16 / p, v / 16 % p;
    assert v / 16 == p * q + r;
    assert v == 16 * p * q + (16 * r + v % 16);
    DivModUnique(v, 16 * p, q, 16 * r + v % 16);
  }

  lemma SpellsPrefix(d: string, v: nat)
    requires d != "" && Spells(d, v)
    ensures Spells(d[..|d| - 1], v / 16) && IsDigitFor(d[|d| - 1], v % 16)
  {
    hide IsDigitFor;
    var n := |d| - 1;
    assert Pow16(|d|) == 16 * Pow16(n);
    assert IsDigitFor(d[n], v / Pow16(0) % 16);
    forall i | 0 <= i < n ensures IsDigitFor(d[..n][i], v / 16 / Pow16(n - 1 - i) % 16) {
      DivTwice(v, Pow16(n - 1 - i));
      assert IsDigitFor(d[i], v / Pow16(n - i) % 16);
    }
  }

  lemma {:induction false} SpellingValue(d: string, v: nat)
    requires Spells(d, v)
    ensures (forall i :: 0 <= i < |d| ==> IsHexDigit(d[i])) && HexValue(d) == v
  {
    if d == "" {
      assert v < 1;
    } else {
      var n := |d| - 1;
      SpellsPrefix(d, v);
      hide IsDigitFor, Spells, IsHexDigit, HexDigit;
      SpellingValue(d[..n], v / 16);
      DigitTable(d[n], v % 16);
      forall i | 0 <= i < |d| ensures IsHexDigit(d[i]) { if i < n { assert d[..n][i] == d[i]; } }
    }
  }

  /** Every spelling of a 64-bit value, in any mixture of cases and with any zero
      padding up to 16 digits, parses to that value after either prefix. */
  lemma EverySpellingParses(d: string, v: nat, x: char)
    requires 1 <= |d| <= 16 && Spells(d, v) && (x == 'x' || x == 'X')
    ensures v < MAX64 && ParseOneParameter(['0', x] + d) == Some(v)
  {
    SpellingValue(d, v);
    Pow16Monotone(|d|, 16);
    Sixteen();
    hide *;
    PlainPrefixed(d, x);
  }

  lemma PlainPrefixed(d: string, x: char)
    requires 1 <= |d| <= 16 && (forall i :: 0 <= i < |d| ==> IsHexDigit(d[i])) && (x == 'x' || x == 'X')
    ensures ParseOneParameter(['0', x] + d) == Some(HexValue(d))
  {
    hide HexValue, Strtoull, IsHexDigit;
    PlainDigits(d, "");
    assert (['0', x] + d)[2..] == d && d + "" == d;
  }

  /** So does every pair of spellings joined by a slash. */
  lemma EveryPairParses(d: string, v: nat, e: string, u: nat)
    requires 1 <= |d| <= 16 && Spells(d, v) && 1 <= |e| <= 16 && Spells(e, u)
    ensures v < MAX64 && u < MAX64 && ParseTwoParameters("0x" + d + "/0x" + e) == Some((v, u))
  {
    EverySpellingParses(d, v, 'x');
    EverySpellingParses(e, u, 'x');
    SpellingValue(d, v);
    SpellingValue(e, u);
    hide HexValue, ParseTwoParameters, Spells, IsHexDigit, ParseOneParameter;
    TwoRoundTrip(d, e);
  }

  /** Every 64-bit value has such a spelling, with any number of zeros in front. */
  lemma {:induction false} SomeSpelling(v: nat, n: nat) returns (d: string)
    requires v < Pow16(n)
    ensures |d| == n && Spells(d, v)
  {
    if n == 0 {
      d := "";
    } else {
      var p := SomeSpelling(v / 16, n - 1);
      d := p + [LOWER[v % 16]];
      assert Pow16(0) == 1;
      forall i | 0 <= i < n ensures IsDigitFor(d[i], v / Pow16(n - 1 - i) % 16) {
        if i < n - 1 {
          assert IsDigitFor(p[i], v / 16 / Pow16(n - 2 - i) % 16);
          DivTwice(v, Pow16(n - 2 - i));
        }
      }
    }
  }

  // ------------------------------------------------- blanks, signs, prefixes

  /** The blanks isspace() knows in the C locale. */
  lemma BlankTable(c: char)
    ensures IsSpace(c) <==> c in {' ', '\t', '\n', 11 as char, 12 as char, '\r'}
  {
  }

  predicate Blanks(w: string) {
    forall i :: 0 <= i < |w| ==> IsSpace(w[i])
  }

  lemma {:induction false} SkipBlanks(w: string, rest: string, k: nat)
    requires Blanks(w) && k <= |w| && (rest == "" || !IsSpace(rest[0]))
    ensures SkipSpaces(w + rest, k) == |w|
    decreases |w| - k
  {
    if k < |w| { SkipBlanks(w, rest, k + 1); }
  }

  lemma AfterSign(w: string, sg: string, rest: string)
    requires Blanks(w) && sg in {"", "+", "-"} && rest != ""
    requires !IsSpace(rest[0]) && rest[0] != '+' && rest[0] != '-'
    ensures SkipSpaces(w + (sg + rest), 0) == |w|
    ensures Skipped(w + (sg + rest)) == |w| + |sg| + NumberStart(rest)
  {
    hide Blanks, NumberStart;
    var t := w + (sg + rest);
    assert (sg + rest)[0] == if sg != "" then sg[0] else rest[0];
    SkipBlanks(w, sg + rest, 0);
    assert t[|w|] == (sg + rest)[0];
    assert t[|w| + |sg|..] == rest;
  }

  lemma SkippedParts(w: string, sg: string, px: string, d: string)
    requires Blanks(w) && sg in {"", "+", "-"} && px in {"", "0x", "0X"} && Digits(d)
    ensures var t := w + (sg + (px + d));
      && SkipSpaces(t, 0) == |w| && Skipped(t) == |w| + |sg| + |px|
      && t[|w|] == (if sg != "" then sg[0] else (px + d)[0]) && (px + d)[0] != '-'
  {
    StartOfNumber(px, d);
    hide Skipped, SkipSpaces, NumberStart, Blanks, Digits;
    AfterSign(w, sg, px + d);
  }

  lemma StartOfNumber(px: string, d: string)
    requires px in {"", "0x", "0X"} && Digits(d)
    ensures NumberStart(px + d) == |px| && (px + d)[0] != '+' && (px + d)[0] != '-' && !IsSpace((px + d)[0])
  {
    var s := px + d;
    if px == "" {
      assert s == d;
      if |d| > 1 { assert IsHexDigit(d[1]); }
    } else {
      assert s[0] == px[0] && s[1] == px[1] && s[2] == d[0];
    }
  }

  /** What a decorated number is worth: the digits' value, negated modulo 2^64
      behind a minus sign. */
  lemma DecoratedValue(w: string, sg: string, px: string, d: string)
    requires Blanks(w) && sg in {"", "+", "-"} && px in {"", "0x", "0X"} && Digits(d)
    requires |w + sg + px + d| <= 16
    ensures ParseOneParameter("0x" + (w + sg + px + d)) ==
      Some(if sg == "-" then (MAX64 - HexValue(d)) % MAX64 else HexValue(d))
  {
    hide HexValue, Skipped, SkipSpaces, HexRun, NumberStart, Blanks, Strtoull;
    var t := w + sg + px + d;
    PartsConvert(w, sg, px, d);
    assert t == w + (sg + (px + d)) && ("0x" + t)[2..] == t;
  }

  lemma PartsConvert(w: string, sg: string, px: string, d: string)
    requires Blanks(w) && sg in {"", "+", "-"} && px in {"", "0x", "0X"} && Digits(d)
    ensures HexValue(d) < MAX64
    ensures var t := w + (sg + (px + d));
      Strtoull(t) == Number(if sg == "-" then (MAX64 - HexValue(d)) % MAX64 else HexValue(d), |t|)
  {
    hide *;
    SmallValue(d);
    var t := w + (sg + (px + d));
    SkippedParts(w, sg, px, d);
    assert t[|w| + |sg| + |px|..] == d;
    ConvertWhole(t, d);
  }

  lemma ConvertWhole(s: string, d: string)
    requires Digits(d) && HexValue(d) < MAX64 && Skipped(s) < |s| && s[Skipped(s)..] == d
    ensures var v := if s[SkipSpaces(s, 0)] == '-' then (MAX64 - HexValue(d)) % MAX64 else HexValue(d);
      Strtoull(s) == Number(v, |s|)
  {
    hide HexValue, Skipped, SkipSpaces, HexRun, IsHexDigit;
    WholeRun(d);
    assert d[..|d|] == d;
  }

  lemma SmallValue(d: string)
    requires Digits(d)
    ensures d != "" && (forall i :: 0 <= i < |d| ==> IsHexDigit(d[i])) && HexValue(d) < MAX64
  {
    HexBounded(d);
    Pow16Monotone(|d|, 16);
    Sixteen();
  }

  /** And every decorated parameter is of that form. */
  lemma DecoratedParts(s: string) returns (w: string, sg: string, px: string, d: string)
    requires Decorated(s)
    ensures s[2..] == w + sg + px + d && w + sg + px != ""
    ensures Blanks(w) && sg in {"", "+", "-"} && px in {"", "0x", "0X"} && Digits(d)
  {
    var t := s[2..];
    var j, b := SkipSpaces(t, 0), Skipped(t);
    var k := if j < |t| && (t[j] == '+' || t[j] == '-') then j + 1 else j;
    w, sg, px, d := t[..j], t[j..k], t[k..b], t[b..];
    BlanksSkipped(t, 0);
    if k > j { assert sg == [t[j]]; }
    if b > k { assert px == [t[k], t[k + 1]]; }
    assert t == t[..j] + t[j..k] + t[k..b] + t[b..];
  }

  lemma {:induction false} BlanksSkipped(s: string, k: nat)
    requires k <= |s|
    ensures forall i :: k <= i < SkipSpaces(s, k) ==> IsSpace(s[i])
    decreases |s| - k
  {
    if k < |s| && IsSpace(s[k]) { BlanksSkipped(s, k + 1); }
  }
}
