/** Bytes, byte buffers and little-endian fields. */
module Bytes {
  import opened Bits

  type byte = b: int | 0 <= b < 256
  type Bytes = seq<byte>

  const MAX16 := 0x1_0000
  const MAX32 := 0x1_0000_0000
  const MAX64 := 0x1_0000_0000_0000_0000

  lemma PowersOf256()
    ensures Pow2(8) == 256 && Pow2(16) == MAX16 && Pow2(32) == MAX32 && Pow2(64) == MAX64
  {
    assert Pow2(4) == 16 && Pow2(8) == 256;
    PowDouble(8, 8);
    PowDouble(16, 16);
    PowDouble(32, 32);
  }

  lemma {:induction false} PowDouble(a: nat, b: nat)
    ensures Pow2(a + b) == Pow2(a) * Pow2(b)
  {
    if a > 0 { PowDouble(a - 1, b); }
  }

  /** The `n` low bytes of `x`, least significant first. */
  function Le(n: nat, x: nat): (s: Bytes)
    ensures |s| == n
  {
    if n == 0 then [] else [x % 256] + Le(n - 1, x / 256)
  }

  /** The number whose little-endian bytes are `s`. */
  function FromLe(s: Bytes): nat {
    if s == [] then 0 else s[0] + 256 * FromLe(s[1..])
  }

  /** 256^n, the number of values an n-byte field holds. */
  function Span(n: nat): (p: nat)
    ensures p >= 1
  {
    if n == 0 then 1 else 256 * Span(n - 1)
  }

  lemma Spans()
    ensures Span(1) == 256 && Span(2) == MAX16 && Span(4) == MAX32 && Span(8) == MAX64
  {
    assert Span(2) == MAX16;
    assert Span(4) == MAX32;
    assert Span(6) == 0x1_0000_0000_0000;
  }

  lemma {:induction false} FromLeBounded(s: Bytes)
    ensures FromLe(s) < Span(|s|)
  {
    if s != [] { FromLeBounded(s[1..]); }
  }

  /** A field wide enough for a value gives it back. */
  lemma {:induction false} FieldExact(n: nat, x: nat)
    requires x < Span(n)
    ensures FromLe(Le(n, x)) == x
  {
    if n > 0 {
      FieldExact(n - 1, x / 256);
      assert Le(n, x)[1..] == Le(n - 1, x / 256);
    }
  }

  /** Encoding what was decoded gives back the bytes. */
  lemma {:induction false} LeOfFromLe(s: Bytes)
    ensures Le(|s|, FromLe(s)) == s
  {
    if s != [] {
      LeOfFromLe(s[1..]);
      assert (s[0] + 256 * FromLe(s[1..])) / 256 == FromLe(s[1..]);
    }
  }

  lemma LowByte(x: nat)
    ensures Low(x, 8) == x % 256 && Shr(x, 8) == x / 256
  {
    PowersOf256();
    AsDivMod(x, 8);
  }

  /** Byte `j` of an encoded number carries its bits 8j..8j+7. */
  lemma {:induction false} BitOfLe(n: nat, x: nat, j: nat, i: nat)
    requires j < n && i < 8
    ensures Bit(Le(n, x)[j], i) == Bit(x, 8 * j + i)
  {
    LowByte(x);
    if j == 0 {
      BitOfLow(x, 8, i);
    } else {
      BitOfLe(n - 1, x / 256, j - 1, i);
      assert Le(n, x)[j] == Le(n - 1, x / 256)[j - 1];
      BitOfShr(x, 8, 8 * (j - 1) + i);
      assert 8 + (8 * (j - 1) + i) == 8 * j + i;
    }
  }

  /** `len` bytes, all FFh: what the back ends leave where nothing was read. */
  function Ones(len: nat): (s: Bytes)
    ensures |s| == len && forall i :: 0 <= i < len ==> s[i] == 255
  {
    seq(len, _ => 255)
  }

  function Zeros(len: nat): (s: Bytes)
    ensures |s| == len && forall i :: 0 <= i < len ==> s[i] == 0
  {
    seq(len, _ => 0)
  }

  /** `buf` with `data` written over it from `off`. */
  function Splice(buf: Bytes, off: nat, data: Bytes): (s: Bytes)
    requires off + |data| <= |buf|
    ensures |s| == |buf|
    ensures s[..off] == buf[..off] && s[off..off + |data|] == data
    ensures s[off + |data|..] == buf[off + |data|..]
  {
    buf[..off] + data + buf[off + |data|..]
  }

  lemma SubSlice(s: Bytes, n: nat, a: nat, b: nat)
    requires a <= b <= n <= |s|
    ensures s[..n][a..b] == s[a..b]
  {
  }

  /** The `n`-byte little-endian field at `off`. */
  function Field(buf: Bytes, off: nat, n: nat): nat
    requires off + n <= |buf|
  {
    FromLe(buf[off..off + n])
  }
}
