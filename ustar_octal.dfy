/** Decoding of the ASCII-octal numeric fields of a ustar header (parseoct). */
module UstarOctal {

  /** One unsigned byte of the archive stream. */
  type Byte = b: int | 0 <= b < 256

  /** ASCII '0'. */
  const DigitZero: Byte := 0x30

  predicate IsOctalDigit(b: Byte) {
    DigitZero <= b <= DigitZero + 7
  }

  predicate AllOctalDigits(s: seq<Byte>) {
    forall k :: 0 <= k < |s| ==> IsOctalDigit(s[k])
  }

  /** The number a run of octal digits denotes, most significant digit first. */
  function OctalValue(s: seq<Byte>): nat
    requires AllOctalDigits(s)
  {
    if s == [] then 0 else OctalValue(s[..|s| - 1]) * 8 + (s[|s| - 1] - DigitZero)
  }

  function Pow8(n: nat): (r: nat)
    ensures r >= 1
  {
    if n == 0 then 1 else 8 * Pow8(n - 1)
  }

  /** What is left of a window once the bytes before its first octal digit are skipped. */
  function DropNonDigits(w: seq<Byte>): seq<Byte>
  {
    if w == [] || IsOctalDigit(w[0]) then w else DropNonDigits(w[1..])
  }

  /** The longest prefix of a window made of octal digits only. */
  function DigitPrefix(w: seq<Byte>): (r: seq<Byte>)
    ensures AllOctalDigits(r)
  {
    if w == [] || !IsOctalDigit(w[0]) then [] else [w[0]] + DigitPrefix(w[1..])
  }

  /** DropNonDigits leaves a suffix of the window that is empty or starts with a digit. */
  lemma {:induction false} DropNonDigitsIsSuffix(w: seq<Byte>)
    ensures |DropNonDigits(w)| <= |w|
    ensures DropNonDigits(w) == w[|w| - |DropNonDigits(w)|..]
    ensures DropNonDigits(w) == [] || IsOctalDigit(DropNonDigits(w)[0])
  {
    if w != [] && !IsOctalDigit(w[0]) {
      var t := w[1..];
      DropNonDigitsIsSuffix(t);
      assert t[|t| - |DropNonDigits(t)|..] == w[|w| - |DropNonDigits(t)|..];
    }
  }

  /** Every byte DropNonDigits removes is a non-digit. */
  lemma {:induction false} DropNonDigitsSkipsNonDigits(w: seq<Byte>)
    ensures |DropNonDigits(w)| <= |w|
    ensures forall k :: 0 <= k < |w| - |DropNonDigits(w)| ==> !IsOctalDigit(w[k])
  {
    if w != [] && !IsOctalDigit(w[0]) {
      var t := w[1..];
      DropNonDigitsSkipsNonDigits(t);
      forall k | 0 < k < |w| - |DropNonDigits(t)| ensures !IsOctalDigit(w[k]) {
        assert w[k] == t[k - 1];
      }
    }
  }

  /** DigitPrefix is the longest prefix of digits: it is followed by a non-digit or the end. */
  lemma {:induction false} DigitPrefixIsMaximal(w: seq<Byte>)
    ensures |DigitPrefix(w)| <= |w| && DigitPrefix(w) == w[..|DigitPrefix(w)|]
    ensures |DigitPrefix(w)| == |w| || !IsOctalDigit(w[|DigitPrefix(w)|])
  {
    if w != [] && IsOctalDigit(w[0]) {
      DigitPrefixIsMaximal(w[1..]);
    }
  }

  /** The value parseoct gives for the window `w`: that of the first run of
      octal digits, or 0 when the window holds none. */
  function ParseOctal(w: seq<Byte>): nat
  {
    Accumulate(0, DropNonDigits(w))
  }

  /** parseoct(p, n): skip the non-digits, then accumulate the digits, never
      going past `n` bytes. As in the source, the byte under the pointer is
      examined before `n` is tested, so the byte just after the window must be
      readable; it never affects the result. */
  method ParseOct(buf: seq<Byte>, p0: nat, n0: nat) returns (i: nat)
    requires p0 + n0 < |buf|
    ensures i == ParseOctal(buf[p0..p0 + n0])
  {
    ghost var e := p0 + n0;
    ghost var target := ParseOctal(buf[p0..e]);
    var p: nat, n: nat := p0, n0;
    while !IsOctalDigit(buf[p]) && n > 0
      invariant p0 <= p <= e && p + n == e
      invariant target == Accumulate(0, DropNonDigits(buf[p..e]))
    {
      SkipStep(buf, p, e);
      p := p + 1;
      n := n - 1;
    }
    SkipDone(buf, p, e);
    i := 0;
    while IsOctalDigit(buf[p]) && n > 0
      invariant p0 <= p <= e && p + n == e
      invariant target == Accumulate(i, buf[p..e])
    {
      AccumulateStep(buf, i, p, e);
      i := i * 8 + (buf[p] - DigitZero);
      p := p + 1;
      n := n - 1;
    }
    AccumulateDone(buf, i, p, e);
  }

  /** Horner's rule from accumulator `acc` over the digits at the front of `s`. */
  function Accumulate(acc: nat, s: seq<Byte>): nat
    decreases |s|
  {
    if s == [] || !IsOctalDigit(s[0]) then acc
    else Accumulate(acc * 8 + (s[0] - DigitZero), s[1..])
  }

  /** Accumulating over `s` after the digits `r` gives the value of `r`
      followed by the digit prefix of `s`. */
  lemma {:induction false} AccumulateValue(r: seq<Byte>, s: seq<Byte>)
    requires AllOctalDigits(r)
    ensures AllOctalDigits(r + DigitPrefix(s))
    ensures Accumulate(OctalValue(r), s) == OctalValue(r + DigitPrefix(s))
    decreases |s|
  {
    if s == [] || !IsOctalDigit(s[0]) {
      assert r + DigitPrefix(s) == r;
    } else {
      var r' := r + [s[0]];
      assert r'[..|r'| - 1] == r;
      assert r' + DigitPrefix(s[1..]) == r + DigitPrefix(s);
      AccumulateValue(r', s[1..]);
    }
  }

  lemma SkipStep(buf: seq<Byte>, p: nat, e: nat)
    requires p < e <= |buf| && !IsOctalDigit(buf[p])
    ensures DropNonDigits(buf[p..e]) == DropNonDigits(buf[p + 1..e])
  {
    assert buf[p..e][1..] == buf[p + 1..e];
  }

  lemma SkipDone(buf: seq<Byte>, p: nat, e: nat)
    requires p <= e < |buf| && (p == e || IsOctalDigit(buf[p]))
    ensures DropNonDigits(buf[p..e]) == buf[p..e]
  {
  }

  lemma AccumulateStep(buf: seq<Byte>, acc: nat, p: nat, e: nat)
    requires p < e <= |buf| && IsOctalDigit(buf[p])
    ensures Accumulate(acc, buf[p..e]) == Accumulate(acc * 8 + (buf[p] - DigitZero), buf[p + 1..e])
  {
    assert buf[p..e][1..] == buf[p + 1..e];
  }

  lemma AccumulateDone(buf: seq<Byte>, acc: nat, p: nat, e: nat)
    requires p <= e < |buf| && (p == e || !IsOctalDigit(buf[p]))
    ensures Accumulate(acc, buf[p..e]) == acc
  {
  }

  /** A run of `m` digits followed by a non-digit or the end is the digit prefix. */
  lemma {:induction false} DigitPrefixOfRun(d: seq<Byte>, m: nat)
    requires m <= |d| && AllOctalDigits(d[..m])
    requires m == |d| || !IsOctalDigit(d[m])
    ensures DigitPrefix(d) == d[..m]
    decreases m
  {
    if m > 0 {
      assert IsOctalDigit(d[0]) by { assert d[..m][0] == d[0]; }
      var run := d[1..][..m - 1];
      assert run == d[..m][1..];
      assert AllOctalDigits(run) by {
        forall k | 0 <= k < m - 1 ensures IsOctalDigit(run[k]) {
          assert run[k] == d[..m][k + 1];
        }
      }
      DigitPrefixOfRun(d[1..], m - 1);
      assert d[..m] == [d[0]] + run;
    }
  }

  /** ParseOctal picks out exactly the first maximal run of octal digits:
      `w[i..j]` with only non-digits before `i` and a non-digit (or the end of
      the window) at `j`. With `i == j == |w|` (no digit at all) it is 0. */
  lemma ParseOctalFirstRun(w: seq<Byte>, i: nat, j: nat)
    requires i <= j <= |w|
    requires forall k :: 0 <= k < i ==> !IsOctalDigit(w[k])
    requires AllOctalDigits(w[i..j])
    requires j == |w| || !IsOctalDigit(w[j])
    requires i == j ==> j == |w|
    ensures ParseOctal(w) == OctalValue(w[i..j])
  {
    var d := DropNonDigits(w);
    DropNonDigitsIsSuffix(w);
    DropNonDigitsSkipsNonDigits(w);
    if i < j {
      assert IsOctalDigit(w[i]) by { assert w[i..j][0] == w[i]; }
    }
    assert |w| - |d| == i;
    assert d == w[i..];
    var r := DigitPrefix(d);
    assert d[..j - i] == w[i..j];
    DigitPrefixOfRun(d, j - i);
    AccumulateValue([], d);
    assert [] + r == r;
  }

  /** A window of only non-digits decodes to 0. */
  lemma ParseOctalNoDigits(w: seq<Byte>)
    requires forall k :: 0 <= k < |w| ==> !IsOctalDigit(w[k])
    ensures ParseOctal(w) == 0
  {
    ParseOctalFirstRun(w, |w|, |w|);
  }

  /** A run of `n` octal digits denotes a number below 8^n. */
  lemma {:induction false} OctalValueBound(s: seq<Byte>)
    requires AllOctalDigits(s)
    ensures OctalValue(s) < Pow8(|s|)
  {
    if s != [] {
      var init := s[..|s| - 1];
      assert AllOctalDigits(init) by {
        forall k | 0 <= k < |init| ensures IsOctalDigit(init[k]) {
          assert init[k] == s[k];
        }
      }
      OctalValueBound(init);
    }
  }

  /** `v` written as exactly `n` zero-padded octal digits (the way tar writers
      fill numeric fields); digits above the n-th are dropped. */
  function FormatOctal(v: nat, n: nat): (s: seq<Byte>)
    ensures |s| == n && AllOctalDigits(s)
  {
    if n == 0 then [] else FormatOctal(v / 8, n - 1) + [DigitZero + v % 8]
  }

  lemma {:induction false} OctalValueFormat(v: nat, n: nat)
    requires v < Pow8(n)
    ensures OctalValue(FormatOctal(v, n)) == v
  {
    if n > 0 {
      var s := FormatOctal(v, n);
      assert s[..n - 1] == FormatOctal(v / 8, n - 1);
      OctalValueFormat(v / 8, n - 1);
    }
  }

  /** Round trip: padding, then `n >= 1` zero-padded digits of `v < 8^n`,
      then a terminator that is not a digit (NUL or space) or the end of the
      field, parses back to `v`. */
  lemma ParseOctalRoundTrip(pad: seq<Byte>, v: nat, n: nat, tail: seq<Byte>)
    requires forall k :: 0 <= k < |pad| ==> !IsOctalDigit(pad[k])
    requires 0 < n && v < Pow8(n)
    requires tail == [] || !IsOctalDigit(tail[0])
    ensures ParseOctal(pad + FormatOctal(v, n) + tail) == v
  {
    var digits := FormatOctal(v, n);
    var w := pad + digits + tail;
    assert w[|pad|..|pad| + n] == digits;
    forall k | 0 <= k < |pad| ensures !IsOctalDigit(w[k]) {
      assert w[k] == pad[k];
    }
    ParseOctalFirstRun(w, |pad|, |pad| + n);
    OctalValueFormat(v, n);
  }

  /** The leading-space tolerance: "  755" followed by NUL decodes to 493. */
  lemma ParseOctalSpacePadded()
    ensures ParseOctal([0x20, 0x20, 0x37, 0x35, 0x35, 0x00]) == 493
  {
    assert FormatOctal(7, 1) == [0x37];
    assert FormatOctal(61, 2) == [0x37, 0x35];
    assert FormatOctal(493, 3) == [0x37, 0x35, 0x35];
    assert Pow8(3) == 512;
    ParseOctalRoundTrip([0x20, 0x20], 493, 3, [0x00]);
    assert [0x20, 0x20] + FormatOctal(493, 3) + [0x00] == [0x20, 0x20, 0x37, 0x35, 0x35, 0x00];
  }

  // ---------------------------------------------------------------------
  // The accumulator as a 32-bit C int

  const Int32Modulus: int := 0x1_0000_0000
  const Int32Max: int := 0x7FFF_FFFF

  /** `x` reduced to a 32-bit two's-complement int (what an overflowing
      `int` holds on the usual compilers; the C standard leaves it undefined). */
  function WrapInt32(x: int): (r: int)
    ensures -Int32Max - 1 <= r <= Int32Max
    ensures -Int32Max - 1 <= x <= Int32Max ==> r == x
    ensures (x - r) % Int32Modulus == 0
  {
    var m := x % Int32Modulus;
    if m > Int32Max then m - Int32Modulus else m
  }

  /** Accumulate with the accumulator held in a 32-bit int, as parseoct's `i` is. */
  function AccumulateInt32(acc: int, s: seq<Byte>): int
    decreases |s|
  {
    if s == [] || !IsOctalDigit(s[0]) then acc
    else AccumulateInt32(WrapInt32(acc * 8 + (s[0] - DigitZero)), s[1..])
  }

  /** parseoct as written, with its `int` accumulator. */
  function ParseOctalInt32(w: seq<Byte>): int
  {
    AccumulateInt32(0, DropNonDigits(w))
  }

  /** Euclidean remainder by 2^32 is determined by any decomposition. */
  lemma ModInt32Unique(y: int, q: int, m: int)
    requires y == q * Int32Modulus + m && 0 <= m < Int32Modulus
    ensures y % Int32Modulus == m
  {
  }

  lemma WrapInt32Shift(x: int, k: int)
    ensures WrapInt32(x + k * Int32Modulus) == WrapInt32(x)
  {
    var q := x / Int32Modulus;
    var m := x % Int32Modulus;
    assert x == q * Int32Modulus + m;
    ModInt32Unique(x + k * Int32Modulus, q + k, m);
  }

  /** Wrapping the accumulator before a step is the same as wrapping after it. */
  lemma WrapInt32Step(a: int, d: int)
    ensures WrapInt32(WrapInt32(a) * 8 + d) == WrapInt32(a * 8 + d)
  {
    var q := a / Int32Modulus;
    var w := WrapInt32(a);
    var k := if a % Int32Modulus > Int32Max then q + 1 else q;
    assert w == a - k * Int32Modulus;
    assert w * 8 + d == a * 8 + d + (-8 * k) * Int32Modulus;
    WrapInt32Shift(a * 8 + d, -8 * k);
  }

  lemma {:induction false} AccumulateInt32Wraps(acc: int, s: seq<Byte>)
    requires acc >= 0
    ensures AccumulateInt32(WrapInt32(acc), s) == WrapInt32(Accumulate(acc, s))
    decreases |s|
  {
    if s != [] && IsOctalDigit(s[0]) {
      var d := s[0] - DigitZero;
      WrapInt32Step(acc, d);
      assert WrapInt32(WrapInt32(acc * 8 + d)) == WrapInt32(acc * 8 + d);
      AccumulateInt32Wraps(acc * 8 + d, s[1..]);
    }
  }

  /** The 32-bit accumulator yields the true value reduced to 32 bits: it is
      right exactly while the value fits in an int. */
  lemma ParseOctalInt32Wraps(w: seq<Byte>)
    ensures ParseOctalInt32(w) == WrapInt32(ParseOctal(w))
    ensures ParseOctal(w) <= Int32Max ==> ParseOctalInt32(w) == ParseOctal(w)
  {
    AccumulateInt32Wraps(0, DropNonDigits(w));
  }

  /** 2 * 8^k written in k + 1 digits is a '2' followed by k zeros. */
  lemma {:induction false} FormatTwoPow8(k: nat)
    ensures FormatOctal(2 * Pow8(k), k + 1) == [DigitZero + 2] + seq(k, _ => DigitZero)
  {
    if k > 0 {
      assert 2 * Pow8(k) == 8 * (2 * Pow8(k - 1));
      FormatTwoPow8(k - 1);
      assert [DigitZero + 2] + seq(k, _ => DigitZero)
             == [DigitZero + 2] + seq(k - 1, _ => DigitZero) + [DigitZero];
    }
  }

  /** A size field holding octal 20000000000 (2^31 bytes, a 2 GiB file, well
      inside the 11 digits ustar allows) denotes 2147483648, but the int
      accumulator comes out as -2147483648. */
  lemma SizeFieldOverflow()
    ensures var w := [0x32, 0x30, 0x30, 0x30, 0x30, 0x30, 0x30, 0x30, 0x30, 0x30, 0x30, 0x00];
      ParseOctal(w) == 0x8000_0000 && ParseOctalInt32(w) == -0x8000_0000
  {
    var w: seq<Byte> := [0x32, 0x30, 0x30, 0x30, 0x30, 0x30, 0x30, 0x30, 0x30, 0x30, 0x30, 0x00];
    var digits := FormatOctal(0x8000_0000, 11);
    assert Pow8(10) == 0x4000_0000;
    FormatTwoPow8(10);
    assert digits == w[..11];
    assert Pow8(11) == 0x2_0000_0000;
    ParseOctalRoundTrip([], 0x8000_0000, 11, [0x00]);
    assert [] + digits + [0x00] == w;
    ParseOctalInt32Wraps(w);
  }

  /** Octal 37777777000 (2^32 - 512) followed by NUL, as a size field. */
  const NegativeSizeField: seq<Byte> :=
    [DigitZero + 3] + (seq(7, _ => DigitZero + 7) + (seq(3, _ => DigitZero) + [0]))

  /** That field denotes 4294966784, but the int accumulator comes out as -512. */
  lemma SizeFieldWrapsNegative()
    ensures ParseOctal(NegativeSizeField) == 0xFFFF_FE00
    ensures ParseOctalInt32(NegativeSizeField) == -512
  {
    NegativeSizeFieldValue();
    ParseOctalInt32Wraps(NegativeSizeField);
    ModInt32Unique(0xFFFF_FE00, 0, 0xFFFF_FE00);
  }

  lemma NegativeSizeFieldValue()
    ensures ParseOctal(NegativeSizeField) == 0xFFFF_FE00
  {
    var zeros := seq(3, _ => DigitZero);
    var w := NegativeSizeField;
    assert DropNonDigits(w) == w;
    assert Accumulate(0, w) == Accumulate(3, seq(7, _ => DigitZero + 7) + (zeros + [0]));
    AccumulateSevens(3, 7, zeros + [0]);
    assert Pow8(7) == 0x20_0000;
    AccumulateZeros(0x7F_FFFF, 3, [0]);
    assert Pow8(3) == 512;
  }

  /** A run of `k` sevens after `acc` gives (acc + 1) * 8^k - 1. */
  lemma {:induction false} AccumulateSevens(acc: nat, k: nat, s: seq<Byte>)
    ensures Accumulate(acc, seq(k, _ => DigitZero + 7) + s) == Accumulate((acc + 1) * Pow8(k) - 1, s)
    decreases k
  {
    var r := seq(k, _ => DigitZero + 7);
    if k == 0 {
      assert r + s == s;
    } else {
      assert (r + s)[1..] == seq(k - 1, _ => DigitZero + 7) + s;
      AccumulateSevens(acc * 8 + 7, k - 1, s);
      ShiftByDigit(acc, Pow8(k - 1));
    }
  }

  /** The arithmetic of one more digit in a run, kept apart from the runs so
      that the products are proved on their own. */
  lemma ShiftByDigit(a: nat, p: nat)
    ensures (a * 8 + 7 + 1) * p == (a + 1) * (8 * p)
  {
  }

  lemma ShiftByZero(a: nat, p: nat)
    ensures a * 8 * p == a * (8 * p)
  {
  }

  /** A run of `k` zeros after `acc` gives acc * 8^k. */
  lemma {:induction false} AccumulateZeros(acc: nat, k: nat, s: seq<Byte>)
    ensures Accumulate(acc, seq(k, _ => DigitZero) + s) == Accumulate(acc * Pow8(k), s)
    decreases k
  {
    var r := seq(k, _ => DigitZero);
    if k == 0 {
      assert r + s == s;
    } else {
      assert (r + s)[1..] == seq(k - 1, _ => DigitZero) + s;
      AccumulateZeros(acc * 8, k - 1, s);
      ShiftByZero(acc, Pow8(k - 1));
    }
  }
}
