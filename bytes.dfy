/**
 * Machine integers and little-endian words.
 *
 * Values of C type `unsigned long` are natural numbers below 2^64; where the
 * C code wraps around, the model writes the `% 2^64` out. Memory is a
 * sequence of bytes, and a 1-, 2- or 4-byte word is read and written in
 * little-endian order (the host byte order the model assumes).
 */
module Bytes {

  const TWO_64: nat := 0x1_0000_0000_0000_0000

  /** An `unsigned long` on a 64-bit host. */
  type U64 = x: nat | x < 0x1_0000_0000_0000_0000

  /** A byte of memory. */
  type Byte = x: nat | x < 256

  /** A non-negative C `int`, as lengths are in the source. */
  type Length = x: nat | x < 0x8000_0000

  function Pow2(k: nat): (r: nat)
    ensures r >= 1
  {
    if k == 0 then 1 else 2 * Pow2(k - 1)
  }

  lemma {:induction false} Pow2Add(a: nat, b: nat)
    ensures Pow2(a + b) == Pow2(a) * Pow2(b)
  {
    if a > 0 {
      Pow2Add(a - 1, b);
    }
  }

  lemma {:induction false} Pow2Monotonic(a: nat, b: nat)
    requires a <= b
    ensures Pow2(a) <= Pow2(b)
  {
    if a < b {
      Pow2Monotonic(a, b - 1);
    }
  }

  lemma Pow2Of32()
    ensures Pow2(32) == 0x1_0000_0000
  {
    Pow2Add(16, 16);
    Pow2Add(8, 8);
    Pow2Add(4, 4);
  }

  lemma Pow2Of64()
    ensures Pow2(64) == TWO_64
  {
    Pow2Add(32, 32);
    Pow2Of32();
  }

  /** Word width in bytes of the accesses the tool makes. */
  predicate IsWidth(w: int) {
    w == 1 || w == 2 || w == 4
  }

  // ---------------------------------------------------------------------
  // Division facts used throughout

  lemma MulMonotonic(d: nat, x: nat, y: nat)
    requires x <= y
    ensures d * x <= d * y
  {}

  /** Division with remainder has a unique result. */
  lemma DivModUnique(a: nat, d: nat, q: nat, r: nat)
    requires d > 0 && r < d && a == d * q + r
    ensures a % d == r && a / d == q
  {
    var q0, r0 := a / d, a % d;
    assert a == d * q0 + r0;
    if q0 < q {
      MulMonotonic(d, q0 + 1, q);
      assert false;
    } else if q0 > q {
      MulMonotonic(d, q + 1, q0);
      assert false;
    }
  }

  lemma MulDistributes(d: nat, x: nat, y: nat)
    ensures d * (x + y) == d * x + d * y
  {}

  lemma MulAssociates(d: nat, m: nat, q: nat)
    ensures d * (m * q) == (d * m) * q
  {}

  /** A digit below d and d times a digit below m stay below d * m. */
  lemma DigitsBelow(d: nat, m: nat, r: nat, r2: nat)
    requires r < d && r2 < m
    ensures d * r2 + r < d * m
  {
    MulMonotonic(d, r2, m - 1);
    MulDistributes(d, m - 1, 1);
  }

  /** Two digits, one below d and one below m, combine into one below d * m. */
  lemma TwoDigits(d: nat, m: nat, q: nat, r: nat, q2: nat, r2: nat)
    requires r < d && r2 < m && q == m * q2 + r2
    ensures d * q + r == (d * m) * q2 + (d * r2 + r)
    ensures d * r2 + r < d * m
  {
    MulDistributes(d, m * q2, r2);
    MulAssociates(d, m, q2);
    DigitsBelow(d, m, r, r2);
  }

  /** Splitting a remainder by d * m into a digit below d and the rest. */
  lemma DivModStep(a: nat, d: nat, m: nat)
    requires d > 0 && m > 0
    ensures a % (d * m) == a % d + d * ((a / d) % m)
    ensures a / (d * m) == (a / d) / m
  {
    var q, r := a / d, a % d;
    var q2, r2 := q / m, q % m;
    TwoDigits(d, m, q, r, q2, r2);
    DivModUnique(a, d * m, q2, d * r2 + r);
  }

  /** Adding a multiple of the modulus does not change a remainder. */
  lemma ModAddMultiple(x: nat, k: nat, m: nat)
    requires m > 0
    ensures (x + m * k) % m == x % m
  {
    DivModUnique(x + m * k, m, x / m + k, x % m);
  }

  /** Taking the remainder first changes nothing in a later remainder. */
  lemma ModAddLeft(x: nat, y: nat, m: nat)
    requires m > 0
    ensures (x % m + y) % m == (x + y) % m
  {
    var q := x / m;
    assert x + y == (x % m + y) + m * q;
    ModAddMultiple(x % m + y, q, m);
  }

  lemma DivSubtract(n: nat, w: nat)
    requires 0 < w <= n
    ensures n / w == (n - w) / w + 1 && n % w == (n - w) % w
  {
    DivModUnique(n, w, (n - w) / w + 1, (n - w) % w);
  }

  /** A non-zero multiple of w is at least w, and w less is still one. */
  lemma StepDown(n: nat, w: nat)
    requires w > 0 && n % w == 0 && n != 0
    ensures w <= n && (n - w) % w == 0
  {
    if n < w {
      DivModUnique(n, w, 0, n);
    }
    DivSubtract(n, w);
  }

  lemma MulDiv(k: nat, w: nat)
    requires w > 0
    ensures (k * w) / w == k && (k * w) % w == 0
  {
    DivModUnique(k * w, w, k, 0);
  }

  // ---------------------------------------------------------------------
  // Little-endian words

  /** The value of a little-endian byte string. */
  function LeValue(b: seq<Byte>): (r: nat)
    ensures r < Pow2(8 * |b|)
  {
    if |b| == 0 then 0
    else
      var rest := LeValue(b[1..]);
      Pow2Add(8, 8 * (|b| - 1));
      DigitBound(b[0], rest, Pow2(8 * (|b| - 1)));
      b[0] + 256 * rest
  }

  /** One more base-256 digit in front of a value below p stays below 256 * p. */
  lemma DigitBound(d: nat, x: nat, p: nat)
    requires d < 256 && x < p
    ensures d + 256 * x < 256 * p
  {}

  /** The w low-order bytes of v, least significant first: what a store
      through a `uintN_t *` writes when handed an `unsigned long`. */
  function LeBytes(v: nat, w: nat): (r: seq<Byte>)
    ensures |r| == w
  {
    if w == 0 then [] else [v % 256] + LeBytes(v / 256, w - 1)
  }

  /** A stored word reads back as the value truncated to the word width. */
  lemma {:induction false} LeRoundTrip(v: nat, w: nat)
    ensures LeValue(LeBytes(v, w)) == v % Pow2(8 * w)
  {
    if w > 0 {
      var b := LeBytes(v, w);
      LeRoundTrip(v / 256, w - 1);
      assert b[1..] == LeBytes(v / 256, w - 1);
      Pow2Add(8, 8 * (w - 1));
      DivModStep(v, 256, Pow2(8 * (w - 1)));
    }
  }

  /** Writing back the bytes a word was read from reproduces them. */
  lemma {:induction false} LeBytesOfValue(b: seq<Byte>)
    ensures LeBytes(LeValue(b), |b|) == b
  {
    if |b| > 0 {
      var v := LeValue(b);
      DivModUnique(v, 256, LeValue(b[1..]), b[0]);
      LeBytesOfValue(b[1..]);
    }
  }

  /** Zero bytes above a word do not change its value. */
  lemma {:induction false} LeValueZeroTail(b: seq<Byte>, n: nat)
    ensures LeValue(b + seq(n, _ => 0 as Byte)) == LeValue(b)
  {
    var z := seq(n, _ => 0 as Byte);
    if |b| == 0 {
      assert b + z == z;
      if n > 0 {
        var z' := seq(n - 1, _ => 0 as Byte);
        assert z[1..] == z';
        LeValueZeroTail([], n - 1);
        assert [] + z' == z';
        assert LeValue(z) == z[0] + 256 * LeValue(z');
      }
    } else {
      assert (b + z)[1..] == b[1..] + z;
      LeValueZeroTail(b[1..], n);
    }
  }

  /** n copies of the word p laid end to end. */
  function Repeat(p: seq<Byte>, n: nat): (r: seq<Byte>)
    ensures |r| == n * |p|
  {
    if n == 0 then [] else Repeat(p, n - 1) + p
  }

  /** The w-byte words of s, in order; a trailing part shorter than w is not
      a word. */
  function Words(s: seq<Byte>, w: nat): seq<nat>
    requires w > 0
    decreases |s|
  {
    if |s| < w then [] else [LeValue(s[..w])] + Words(s[w..], w)
  }

  /** There are |s| / w words. */
  lemma {:induction false} WordsLength(s: seq<Byte>, w: nat)
    requires w > 0
    ensures |Words(s, w)| == |s| / w
    decreases |s|
  {
    if |s| < w {
      DivModUnique(|s|, w, 0, |s|);
    } else {
      DivSubtract(|s|, w);
      WordsLength(s[w..], w);
    }
  }

  lemma {:induction false} WordsAppend(x: seq<Byte>, y: seq<Byte>, w: nat)
    requires w > 0 && |x| % w == 0
    ensures Words(x + y, w) == Words(x, w) + Words(y, w)
    decreases |x|
  {
    if |x| > 0 {
      DivSubtract(|x|, w);
      assert (x + y)[..w] == x[..w];
      assert (x + y)[w..] == x[w..] + y;
      WordsAppend(x[w..], y, w);
    } else {
      assert x + y == y;
    }
  }

  /** Words of a repeated word are that word's value, again and again. */
  lemma {:induction false} WordsOfRepeat(p: seq<Byte>, n: nat)
    requires |p| > 0
    ensures Words(Repeat(p, n), |p|) == seq(n, _ => LeValue(p))
  {
    if n > 0 {
      var q := Repeat(p, n - 1);
      MulDiv(n - 1, |p|);
      WordsOfRepeat(p, n - 1);
      WordsAppend(q, p, |p|);
      assert p[|p|..] == [];
      assert p[..|p|] == p;
      assert Words(p, |p|) == [LeValue(p)];
      var v := LeValue(p);
      assert Words(Repeat(p, n), |p|) == seq(n - 1, _ => v) + [v];
      assert seq(n - 1, _ => v) + [v] == seq(n, _ => v);
    }
  }

  lemma {:induction false} RepeatAt(p: seq<Byte>, n: nat, i: nat)
    requires |p| > 0 && i < n * |p|
    ensures Repeat(p, n)[i] == p[i % |p|]
  {
    if i < (n - 1) * |p| {
      RepeatAt(p, n - 1, i);
    } else {
      DivModUnique(i, |p|, n - 1, i - (n - 1) * |p|);
    }
  }
}
