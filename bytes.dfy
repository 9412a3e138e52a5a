/**
 * Fixed-width integers as byte strings, as Python's `struct` module and the
 * C++/Java byte buffers lay them out.  Dafny integers are unbounded, so every
 * width and every two's-complement wrap is written out here once.
 */
module Bytes {

  /** One octet. */
  type byte = b: int | 0 <= b < 256

  const INT32_MIN: int := -0x8000_0000
  const INT32_MAX: int := 0x7FFF_FFFF
  const INT64_MIN: int := -0x8000_0000_0000_0000
  const INT64_MAX: int := 0x7FFF_FFFF_FFFF_FFFF
  const TWO_32: int := 0x1_0000_0000
  const TWO_64: int := 0x1_0000_0000_0000_0000

  predicate InInt32(n: int) { INT32_MIN <= n <= INT32_MAX }
  predicate InInt64(n: int) { INT64_MIN <= n <= INT64_MAX }

  /** 256 to the power k. */
  function Pow256(k: nat): (p: nat)
    ensures p >= 1
  {
    if k == 0 then 1 else 256 * Pow256(k - 1)
  }

  /**
   * The k low-order bytes of n, least significant first.  For a negative n
   * this is its two's-complement form, as `struct.pack('<i', n)` writes it.
   */
  function LE(n: int, k: nat): (r: seq<byte>)
    ensures |r| == k
    decreases k
  {
    if k == 0 then [] else [n % 256] + LE(n / 256, k - 1)
  }

  /** The unsigned value of a little-endian byte string. */
  function FromLE(s: seq<byte>): (n: nat)
    ensures n < Pow256(|s|)
  {
    if |s| == 0 then 0 else s[0] + 256 * FromLE(s[1..])
  }

  /** The k high-order-first bytes of n, as `struct.pack('>I', n)` writes them. */
  function BE(n: int, k: nat): (r: seq<byte>)
    ensures |r| == k
    decreases k
  {
    if k == 0 then [] else BE(n / 256, k - 1) + [n % 256]
  }

  /** The unsigned value of a big-endian byte string. */
  function FromBE(s: seq<byte>): (n: nat)
    ensures n < Pow256(|s|)
  {
    if |s| == 0 then 0 else 256 * FromBE(s[..|s| - 1]) + s[|s| - 1]
  }

  /** Reads an unsigned value of `bits` width as two's complement. */
  function Signed(u: int, width: nat): int
    requires width >= 1
  {
    if u >= Pow256(width) / 2 then u - Pow256(width) else u
  }

  /** `struct.unpack('<i', s)`. */
  function Int32LE(s: seq<byte>): int
    requires |s| == 4
  {
    Signed(FromLE(s), 4)
  }

  /** `struct.unpack('<q', s)`. */
  function Int64LE(s: seq<byte>): int
    requires |s| == 8
  {
    Signed(FromLE(s), 8)
  }

  /** n reduced to a signed 32-bit integer, as a C++ narrowing cast does. */
  function WrapInt32(n: int): (r: int)
    ensures InInt32(r)
    ensures (r - n) % TWO_32 == 0
    ensures InInt32(n) ==> r == n
  {
    var u := n % TWO_32;
    if u > INT32_MAX then u - TWO_32 else u
  }

  /** n reduced to an unsigned 64-bit integer, as a Java/C++ cast to uint64 does. */
  function WrapUint64(n: int): (r: int)
    ensures 0 <= r < TWO_64
    ensures (r - n) % TWO_64 == 0
  {
    n % TWO_64
  }

  /** If n = d*q + r with 0 <= r < d, then q and r are n's quotient and remainder. */
  lemma DivModUnique(n: int, d: int, q: int, r: int)
    requires d > 0 && 0 <= r < d && n == d * q + r
    ensures n / d == q && n % d == r
  {
    var q0, r0 := n / d, n % d;
    assert n == d * q0 + r0;
    assert d * (q - q0) == r0 - r;
    if q0 < q {
      MulAtLeast(d, q - q0);
    } else if q0 > q {
      MulAtLeast(d, q0 - q);
    }
  }

  lemma MulAtLeast(d: int, x: int)
    requires d > 0 && x >= 1
    ensures d * x >= d
  {
    assert d * x == d + d * (x - 1);
  }

  /** Peeling one low byte off a remainder by 256^(k+1). */
  lemma ModPow256Step(n: int, k: nat)
    ensures n % Pow256(k + 1) == n % 256 + 256 * ((n / 256) % Pow256(k))
  {
    var m := Pow256(k);
    var q := n / 256;
    var b := q % m;
    var a := q / m;
    assert q == m * a + b;
    assert n == 256 * q + n % 256;
    assert n == (256 * m) * a + (n % 256 + 256 * b) by {
      calc {
        n;
        256 * q + n % 256;
        256 * (m * a + b) + n % 256;
        (256 * m) * a + (n % 256 + 256 * b);
      }
    }
    assert 0 <= n % 256 + 256 * b < 256 * m by {
      assert b <= m - 1;
      assert 256 * b <= 256 * (m - 1);
    }
    DivModUnique(n, 256 * m, a, n % 256 + 256 * b);
  }

  /** Writing k little-endian bytes and reading them back yields n modulo 256^k. */
  lemma {:induction false} FromLEOfLE(n: int, k: nat)
    ensures FromLE(LE(n, k)) == n % Pow256(k)
    decreases k
  {
    if k > 0 {
      var r := LE(n, k);
      assert r[1..] == LE(n / 256, k - 1);
      FromLEOfLE(n / 256, k - 1);
      ModPow256Step(n, k - 1);
    }
  }

  /** Same law for the big-endian layout. */
  lemma {:induction false} FromBEOfBE(n: int, k: nat)
    ensures FromBE(BE(n, k)) == n % Pow256(k)
    decreases k
  {
    if k > 0 {
      var r := BE(n, k);
      assert r[..k - 1] == BE(n / 256, k - 1);
      FromBEOfBE(n / 256, k - 1);
      ModPow256Step(n, k - 1);
    }
  }

  /** A value that fits in k bytes survives the big-endian layout unchanged. */
  lemma UnsignedBERoundTrip(n: int, k: nat)
    requires 0 <= n < Pow256(k)
    ensures FromBE(BE(n, k)) == n
  {
    FromBEOfBE(n, k);
    DivModUnique(n, Pow256(k), 0, n);
  }

  /** Both byte orders hold the same digits, in opposite order. */
  lemma {:induction false} BEIsReversedLE(n: int, k: nat)
    ensures forall i :: 0 <= i < k ==> BE(n, k)[i] == LE(n, k)[k - 1 - i]
    decreases k
  {
    if k > 0 {
      BEIsReversedLE(n / 256, k - 1);
    }
  }

  lemma Pow256Values()
    ensures Pow256(1) == 256 && Pow256(2) == 0x1_0000 && Pow256(3) == 0x100_0000
    ensures Pow256(4) == TWO_32 && Pow256(8) == TWO_64
  {
  }

  /** A signed 32-bit value survives `pack('<i')` followed by `unpack('<i')`. */
  lemma Int32RoundTrip(n: int)
    requires InInt32(n)
    ensures Int32LE(LE(n, 4)) == n
  {
    FromLEOfLE(n, 4);
    Pow256Values();
    if n < 0 {
      DivModUnique(n, TWO_32, -1, n + TWO_32);
    } else {
      DivModUnique(n, TWO_32, 0, n);
    }
  }

  /** A signed 64-bit value survives `pack('<q')` followed by `unpack('<q')`. */
  lemma Int64RoundTrip(n: int)
    requires InInt64(n)
    ensures Int64LE(LE(n, 8)) == n
  {
    FromLEOfLE(n, 8);
    Pow256Values();
    if n < 0 {
      DivModUnique(n, TWO_64, -1, n + TWO_64);
    } else {
      DivModUnique(n, TWO_64, 0, n);
    }
  }

  /** A non-negative value below 2^32 survives `pack('<I')`/`unpack('<I')`. */
  lemma Uint32RoundTrip(n: int)
    requires 0 <= n < TWO_32
    ensures FromLE(LE(n, 4)) == n
  {
    FromLEOfLE(n, 4);
    Pow256Values();
    DivModUnique(n, TWO_32, 0, n);
  }

  /** Where each of four concatenated parts sits. */
  lemma Split4(a: seq<byte>, b: seq<byte>, c: seq<byte>, d: seq<byte>)
    ensures var s := a + b + c + d;
      |s| == |a| + |b| + |c| + |d| &&
      s[..|a|] == a && s[|a|..|a| + |b|] == b && s[|a| + |b|..|a| + |b| + |c|] == c &&
      s[|a| + |b| + |c|..] == d
  {
    var s := a + b + c + d;
    assert s[..|a| + |b| + |c|] == a + b + c;
    assert (a + b + c)[..|a| + |b|] == a + b;
  }

  /** Where each of five concatenated parts sits. */
  lemma Split5(a: seq<byte>, b: seq<byte>, c: seq<byte>, d: seq<byte>, e: seq<byte>)
    ensures var s := a + b + c + d + e;
      |s| == |a| + |b| + |c| + |d| + |e| &&
      s[..|a|] == a && s[|a|..|a| + |b|] == b && s[|a| + |b|..|a| + |b| + |c|] == c &&
      s[|a| + |b| + |c|..|a| + |b| + |c| + |d|] == d && s[|a| + |b| + |c| + |d|..] == e
  {
    var s := a + b + c + d + e;
    Split4(a, b, c, d);
    assert s[..|a| + |b| + |c| + |d|] == a + b + c + d;
  }
}
