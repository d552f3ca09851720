/** libcomm.c: parsing "0x<hex>" command-line values, and the C library's
    conversion underneath it. */
module Hex {
  import opened Listing
  import opened Bytes
  import opened Machines

  predicate IsHexDigit(c: char) { '0' <= c <= '9' || 'a' <= c <= 'f' || 'A' <= c <= 'F' }

  predicate IsSpace(c: char) { c == ' ' || '\t' <= c <= '\r' }

  function HexDigit(c: char): (d: nat)
    requires IsHexDigit(c)
    ensures d < 16
  {
    if c <= '9' then (c - '0') as nat else if c <= 'F' then (c - 'A') as nat + 10 else (c - 'a') as nat + 10
  }

  /** The number of hex digits `s` starts with. */
  function HexRun(s: string): (n: nat)
    ensures n <= |s| && forall i :: 0 <= i < n ==> IsHexDigit(s[i])
    ensures n == |s| || !IsHexDigit(s[n])
  {
    if s == [] || !IsHexDigit(s[0]) then 0 else 1 + HexRun(s[1..])
  }

  function HexValue(s: string): nat
    requires forall i :: 0 <= i < |s| ==> IsHexDigit(s[i])
  {
    if s == [] then 0 else 16 * HexValue(s[..|s| - 1]) + HexDigit(s[|s| - 1])
  }

  /** strtoul(s, &end, 16) on a string that starts with a hex digit: a 0x prefix
      is skipped when a digit follows it. Returns the digits' extent. */
  function NumberStart(s: string): (b: nat)
    ensures b <= |s|
  {
    if |s| > 2 && s[0] == '0' && (s[1] == 'x' || s[1] == 'X') && IsHexDigit(s[2]) then 2 else 0
  }

  function NumberEnd(s: string): (e: nat)
    ensures NumberStart(s) <= e <= |s|
  {
    NumberStart(s) + HexRun(s[NumberStart(s)..])
  }

  function SkipSpaces(s: string, k: nat): (j: nat)
    requires k <= |s|
    ensures k <= j <= |s|
    decreases |s| - k
  {
    if k < |s| && IsSpace(s[k]) then SkipSpaces(s, k + 1) else k
  }

  // ------------------------------------------------------------ strtoull

  datatype Number = Number(value: u64, end: nat)

  /** How much of `s` is skipped before the digits: blanks, a sign, a prefix. */
  function Skipped(s: string): (b: nat)
    ensures SkipSpaces(s, 0) <= b <= |s|
  {
    var j := SkipSpaces(s, 0);
    var k := if j < |s| && (s[j] == '+' || s[j] == '-') then j + 1 else j;
    k + NumberStart(s[k..])
  }

  /** strtoull(s, &stop, 16): blanks, a sign and a 0x prefix are accepted, an
      overflow saturates, and without digits nothing is consumed. */
  function Strtoull(s: string): (n: Number)
    ensures n.end <= |s|
  {
    var j, b := SkipSpaces(s, 0), Skipped(s);
    var d := s[b..][..HexRun(s[b..])];
    if d == "" then Number(0, 0)
    else if HexValue(d) >= MAX64 then Number(MAX64 - 1, b + |d|)
    else if s[j] == '-' then Number((MAX64 - HexValue(d)) % MAX64, b + |d|)
    else Number(HexValue(d), b + |d|)
  }

  // ------------------------------------------------------------- libcomm.c

  /** parseHex on the first `len` characters of `buf`. */
  function ParseHex(buf: string, len: nat): Option<u64>
    requires len <= |buf|
  {
    if len < 3 || len > 18 || buf[0] != '0' || !(buf[1] == 'x' || buf[1] == 'X') then None
    else
      var n := Strtoull(buf[2..]);
      if 2 + n.end == len then Some(n.value) else None
  }

  function ParseOneParameter(buf: string): Option<u64> {
    ParseHex(buf, |buf|)
  }

  /** The index of the first '/', or |s|. */
  function Slash(s: string): (k: nat)
    ensures k <= |s| && (k < |s| ==> s[k] == '/') && forall i :: 0 <= i < k ==> s[i] != '/'
  {
    if s == [] || s[0] == '/' then 0 else 1 + Slash(s[1..])
  }

  function ParseTwoParameters(buf: string): Option<(u64, u64)> {
    var sep := Slash(buf);
    if sep == |buf| then None
    else
      match ParseHex(buf, sep)
      case Some(a) =>
        (match ParseHex(buf[sep + 1..], |buf| - sep - 1)
         case Some(b) => Some((a, b))
         case None => None)
      case None => None
  }

  // ------------------------------------------------------------- round trips

  /** 1 to 16 hex digits, in either case, with any leading zeros. */
  predicate Digits(d: string) {
    1 <= |d| <= 16 && forall i :: 0 <= i < |d| ==> IsHexDigit(d[i])
  }

  function DigitChar(d: nat): (c: char)
    requires d < 16
    ensures IsHexDigit(c) && HexDigit(c) == d
  {
    if d < 10 then '0' + d as char else 'A' + (d - 10) as char
  }

  /** printf("%llX"). */
  function ToHex(v: nat): (d: string)
    ensures d != [] && forall i :: 0 <= i < |d| ==> IsHexDigit(d[i])
    ensures HexValue(d) == v
  {
    if v < 16 then
      assert HexValue([DigitChar(v)]) == 16 * HexValue([]) + v;
      [DigitChar(v)]
    else
      var d := ToHex(v / 16) + [DigitChar(v % 16)];
      assert d[..|d| - 1] == ToHex(v / 16);
      d
  }

  function Pow16(n: nat): (p: nat)
    ensures p >= 1
  {
    if n == 0 then 1 else 16 * Pow16(n - 1)
  }

  lemma {:induction false} HexBounded(d: string)
    requires forall i :: 0 <= i < |d| ==> IsHexDigit(d[i])
    ensures HexValue(d) < Pow16(|d|)
  {
    if d != [] { HexBounded(d[..|d| - 1]); }
  }

  lemma {:induction false} ToHexShort(v: nat, n: nat)
    requires n > 0 && v < Pow16(n)
    ensures |ToHex(v)| <= n
  {
    if v >= 16 { ToHexShort(v / 16, n - 1); }
  }

  lemma Sixteen()
    ensures Pow16(16) == MAX64
  {
    assert Pow16(4) == 0x1_0000;
    assert Pow16(8) == 0x1_0000_0000;
    assert Pow16(12) == 0x1_0000_0000_0000;
  }

  lemma {:induction false} Pow16Monotone(a: nat, b: nat)
    requires a <= b
    ensures Pow16(a) <= Pow16(b)
  {
    if a < b { Pow16Monotone(a, b - 1); }
  }

  lemma {:induction false} RunOfDigits(d: string, rest: string)
    requires forall i :: 0 <= i < |d| ==> IsHexDigit(d[i])
    requires rest == [] || !IsHexDigit(rest[0])
    ensures HexRun(d + rest) == |d|
  {
    if d == [] {
      assert d + rest == rest;
    } else {
      RunOfDigits(d[1..], rest);
      assert (d + rest)[1..] == d[1..] + rest;
    }
  }

  /** Plain digits are converted to their value, without overflow, up to the
      first character that is not one. */
  lemma PlainDigits(d: string, rest: string)
    requires Digits(d) && (rest == [] || (!IsHexDigit(rest[0]) && rest[0] != 'x' && rest[0] != 'X'))
    ensures HexValue(d) < MAX64
    ensures Strtoull(d + rest) == Number(HexValue(d), |d|) && Skipped(d + rest) == 0
  {
    hide HexValue, HexRun, Pow16, IsHexDigit;
    var s := d + rest;
    HexBounded(d);
    Pow16Monotone(|d|, 16);
    Sixteen();
    StartsPlain(d, rest);
    RunOfDigits(d, rest);
    assert s[0..] == s && s[..|d|] == d;
  }

  lemma StartsPlain(d: string, rest: string)
    requires Digits(d) && (rest == [] || (!IsHexDigit(rest[0]) && rest[0] != 'x' && rest[0] != 'X'))
    ensures var s := d + rest;
      SkipSpaces(s, 0) == 0 && s[0] != '+' && s[0] != '-' && Skipped(s) == 0
  {
    var s := d + rest;
    assert s[0] == d[0];
    if |s| > 2 { assert s[1] == if |d| > 1 then d[1] else rest[0]; }
    assert s[0..] == s;
  }

  /** Every value written with 1 to 16 digits parses back to itself. */
  lemma OneRoundTrip(d: string)
    requires Digits(d)
    ensures ParseOneParameter("0x" + d) == Some(HexValue(d))
  {
    PlainDigits(d, []);
    assert ("0x" + d)[2..] == d && d + [] == d;
  }

  lemma SlashAfter(a: string, rest: string)
    requires forall i :: 0 <= i < |a| ==> a[i] != '/'
    ensures Slash(a + "/" + rest) == |a|
  {
    var s := a + "/" + rest;
    assert s[|a|] == '/';
    forall i | 0 <= i < |a| ensures s[i] != '/' { assert s[i] == a[i]; }
  }

  /** Two values joined by '/' parse back to both. */
  lemma TwoRoundTrip(d: string, e: string)
    requires Digits(d) && Digits(e)
    ensures ParseTwoParameters("0x" + d + "/0x" + e) == Some((HexValue(d), HexValue(e)))
  {
    hide *;
    var first, second := "0x" + d, "0x" + e;
    var buf := first + "/" + second;
    assert "0x" + d + "/0x" + e == buf;
    assert forall i :: 0 <= i < |first| ==> first[i] != '/' by { NoSlash(d); }
    SlashAfter(first, second);
    assert buf[..|first|] == first && buf[|first| + 1..] == second;
    OneRoundTrip(d);
    OneRoundTrip(e);
    TwoIsOneAndOne(buf);
  }

  lemma NoSlash(d: string)
    requires Digits(d)
    ensures forall i :: 0 <= i < |"0x" + d| ==> ("0x" + d)[i] != '/'
  {
  }

  /** What memvr prints it also reads: any 64-bit value, in one or two fields. */
  lemma PrintThenParse(a: u64, b: u64)
    ensures ParseOneParameter("0x" + ToHex(a)) == Some(a)
    ensures ParseTwoParameters("0x" + ToHex(a) + "/0x" + ToHex(b)) == Some((a, b))
  {
    Sixteen();
    ToHexShort(a, 16);
    ToHexShort(b, 16);
    OneRoundTrip(ToHex(a));
    TwoRoundTrip(ToHex(a), ToHex(b));
  }

  // -------------------------------------------- how exact the parser is

  /** "0x" and at most 16 more characters, but some. */
  predicate Prefixed(s: string) {
    3 <= |s| <= 18 && s[0] == '0' && (s[1] == 'x' || s[1] == 'X')
  }

  /** The documented form of a parameter. */
  predicate Documented(s: string) {
    Prefixed(s) && Digits(s[2..])
  }

  /** Something is skipped after the prefix, and digits to the end follow it. */
  predicate Decorated(s: string) {
    Prefixed(s) && var t := s[2..];
      0 < Skipped(t) < |t| && forall i :: Skipped(t) <= i < |t| ==> IsHexDigit(t[i])
  }

  /** The parser takes more than the "0x<hex>" it documents: the conversion below
      it accepts a sign (and blanks, and a second 0x). */
  lemma SignIsAccepted()
    ensures ParseOneParameter("0x-1") == Some(MAX64 - 1) && !Documented("0x-1")
  {
    var s := "-1";
    assert "0x-1"[2..] == s;
    assert SkipSpaces(s, 0) == 0;
    assert s[1..] == "1" && NumberStart("1") == 0 && Skipped(s) == 1;
    assert HexRun("1") == 1 by { assert "1"[1..] == ""; }
    assert HexValue("1") == 16 * HexValue("") + 1;
  }

  lemma {:induction false} WholeRun(s: string)
    ensures HexRun(s) == |s| <==> forall i :: 0 <= i < |s| ==> IsHexDigit(s[i])
  {
    if s != [] {
      WholeRun(s[1..]);
      if forall i :: 0 <= i < |s| ==> IsHexDigit(s[i]) {
        forall i | 0 <= i < |s[1..]| ensures IsHexDigit(s[1..][i]) { assert s[1..][i] == s[i + 1]; }
      }
    }
  }

  /** What is accepted is the documented form and the decorated ones. */
  lemma Accepts(s: string)
    ensures ParseOneParameter(s).Some? <==> Documented(s) || Decorated(s)
    ensures Documented(s) ==> ParseOneParameter(s) == Some(HexValue(s[2..])) && !Decorated(s)
  {
    hide HexValue, HexRun, Skipped;
    if Prefixed(s) {
      var t := s[2..];
      var b := Skipped(t);
      WholeRun(t[b..]);
      forall i | b <= i < |t| ensures t[b..][i - b] == t[i] { }
      if Digits(t) {
        PlainDigits(t, []);
        assert t + [] == t;
      } else if b == 0 {
        assert t[0..] == t;
      }
    }
  }

  /** Exactly when the parser does what it documents: it accepts the documented
      form and nothing else unless blanks, a sign or a second prefix follow the
      first one and the rest is non-empty and all hex digits. */
  lemma OneExact(s: string)
    ensures (ParseOneParameter(s).Some? <==> Documented(s)) <==> !Decorated(s)
    ensures Documented(s) ==> ParseOneParameter(s) == Some(HexValue(s[2..]))
  {
    hide HexValue, Strtoull;
    Accepts(s);
  }

  // The conversion stops at the separator, so a token is parsed as if alone.

  lemma {:induction false} SpacesBefore(a: string, rest: string, k: nat)
    requires k <= |a| && rest != [] && rest[0] == '/'
    ensures SkipSpaces(a + rest, k) == SkipSpaces(a, k)
    decreases |a| - k
  {
    if k < |a| { SpacesBefore(a, rest, k + 1); }
  }

  lemma {:induction false} RunBefore(a: string, rest: string)
    requires rest != [] && rest[0] == '/'
    ensures HexRun(a + rest) == HexRun(a)
  {
    if a == [] {
      assert a + rest == rest;
    } else {
      assert (a + rest)[1..] == a[1..] + rest;
      RunBefore(a[1..], rest);
    }
  }

  lemma SkippedBefore(a: string, rest: string)
    requires rest != [] && rest[0] == '/'
    ensures Skipped(a + rest) == Skipped(a)
  {
    SpacesBefore(a, rest, 0);
    var j := SkipSpaces(a, 0);
    var k := if j < |a| && (a[j] == '+' || a[j] == '-') then j + 1 else j;
    assert (a + rest)[k..] == a[k..] + rest;
  }

  lemma StopsAtSlash(a: string, rest: string)
    requires rest != [] && rest[0] == '/'
    ensures Strtoull(a + rest) == Strtoull(a)
  {
    hide HexValue, Skipped, HexRun;
    var b := Skipped(a);
    SkippedBefore(a, rest);
    SpacesBefore(a, rest, 0);
    assert (a + rest)[b..] == a[b..] + rest;
    RunBefore(a[b..], rest);
    assert (a[b..] + rest)[..HexRun(a[b..])] == a[b..][..HexRun(a[b..])];
    if b < |a| { assert (a + rest)[SkipSpaces(a, 0)] == a[SkipSpaces(a, 0)]; }
  }

  /** A pair is parsed as its two halves would be, each alone. */
  lemma TwoIsOneAndOne(buf: string)
    ensures var sep := Slash(buf);
      ParseTwoParameters(buf) ==
        if sep == |buf| then None
        else
          var first, second := ParseOneParameter(buf[..sep]), ParseOneParameter(buf[sep + 1..]);
          if first.Some? && second.Some? then Some((first.value, second.value)) else None
  {
    hide ParseHex, Slash;
    if Slash(buf) < |buf| { TokenAlone(buf, Slash(buf)); }
  }

  lemma TokenAlone(buf: string, sep: nat)
    requires sep < |buf| && buf[sep] == '/'
    ensures ParseHex(buf, sep) == ParseOneParameter(buf[..sep])
  {
    hide Strtoull;
    if 3 <= sep {
      StopsAtSlash(buf[..sep][2..], buf[sep..]);
      assert buf[2..] == buf[..sep][2..] + buf[sep..];
    }
  }

  /** The documented form of a pair. */
  predicate DocumentedPair(buf: string) {
    var sep := Slash(buf);
    sep < |buf| && Documented(buf[..sep]) && Documented(buf[sep + 1..])
  }

  /** The same for pairs: a pair is taken exactly when it is documented, unless
      each half is documented or decorated and at least one is decorated. */
  lemma TwoExact(buf: string)
    ensures var sep := Slash(buf);
      (ParseTwoParameters(buf).Some? <==> DocumentedPair(buf)) <==>
      !(sep < |buf| && var a, b := buf[..sep], buf[sep + 1..];
        && (Documented(a) || Decorated(a)) && (Documented(b) || Decorated(b)) && (Decorated(a) || Decorated(b)))
    ensures DocumentedPair(buf) ==>
      ParseTwoParameters(buf) == Some((HexValue(buf[..Slash(buf)][2..]), HexValue(buf[Slash(buf) + 1..][2..])))
  {
    hide ParseOneParameter, ParseTwoParameters, Documented, Decorated, HexValue;
    TwoIsOneAndOne(buf);
    var sep := Slash(buf);
    if sep < |buf| {
      Accepts(buf[..sep]);
      Accepts(buf[sep + 1..]);
    }
  }
}
