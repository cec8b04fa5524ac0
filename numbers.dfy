/** Addresses as big-endian byte strings, and the unsigned numbers they stand for.
    A Go `net.IP` is a byte slice whose first byte is the most significant; this
    module gives the arithmetic view of such a slice that the rest of the model
    states its properties in. */
module Numbers {

  /** One octet of an address, Go's `byte`. Arithmetic that wraps in Go is
      written out modulo 256 where it happens. */
  newtype byte = x: int | 0 <= x < 256

  /** 2 to the power k. */
  function Pow2(k: nat): (r: nat)
    ensures r >= 1
  {
    if k == 0 then 1 else 2 * Pow2(k - 1)
  }

  lemma {:induction false} Pow2Add(a: nat, b: nat)
    ensures Pow2(a + b) == Pow2(a) * Pow2(b)
  {
    if a > 0 {
      Pow2Add(a - 1, b);
      assert Pow2(a + b) == 2 * Pow2(a - 1 + b);
    }
  }

  /** A larger exponent gives a multiple of the smaller power. */
  lemma Pow2Divides(a: nat, b: nat)
    requires a <= b
    ensures Pow2(b) == Pow2(a) * Pow2(b - a)
    ensures Pow2(a) <= Pow2(b)
    ensures Pow2(b) % Pow2(a) == 0
  {
    Pow2Add(a, b - a);
    var pa: int, pb: int, pd: int := Pow2(a), Pow2(b), Pow2(b - a);
    ModUnique(pb, pa, pd, 0);
    MulAtLeast(pd, pa);
  }

  lemma Pow2Byte()
    ensures Pow2(8) == 256
  {
  }

  /** x is q*d + r with 0 <= r < d: then q and r are Euclidean quotient and remainder. */
  lemma ModUnique(x: int, d: int, q: int, r: int)
    requires d > 0 && 0 <= r < d && x == q * d + r
    ensures x / d == q && x % d == r
  {
    var q', r' := x / d, x % d;
    assert (q - q') * d == r' - r by {
      assert q * d - q' * d == (q - q') * d;
    }
    if q != q' {
      var k := if q > q' then q - q' else q' - q;
      MulAtLeast(k, d);
    }
  }

  lemma MulAtLeast(k: int, d: int)
    requires k >= 1 && d > 0
    ensures k * d >= d
  {
  }

  /** From q*h <= v < h*c: q < c. */
  lemma LessMul(q: int, c: int, h: int, v: int)
    requires h > 0 && 0 <= v < h * c && q * h <= v
    ensures q < c
  {
    if q >= c {
      MulLe(c, q, h);
    }
  }

  lemma MulLe(c: int, q: int, h: int)
    requires h > 0 && c <= q
    ensures c * h <= q * h
  {
  }

  /** Adding a multiple of a multiple of h does not change the remainder modulo h. */
  lemma ModAddMultiple(a: nat, p: nat, b: nat, h: nat)
    requires h > 0 && p % h == 0
    ensures (a * p + b) % h == b % h
  {
    var c := p / h;
    assert p == c * h;
    assert a * p + b == (a * c + b / h) * h + b % h by {
      assert a * p == (a * c) * h;
    }
    ModUnique(a * p + b, h, a * c + b / h, b % h);
  }

  /** Remainder modulo q*p of a*p + b, for a low part b below p. */
  lemma ModSplit(a: nat, b: nat, q: nat, p: nat)
    requires q > 0 && b < p
    ensures (a * p + b) % (q * p) == (a % q) * p + b
  {
    var d: int, r: int := a / q, a % q;
    SplitKernel(a, d, r, q, p, b);
    ModUnique(a * p + b, q * p, d, r * p + b);
  }

  /** The arithmetic of ModSplit over plain integers: a = d*q + r with r < q
      gives a*p + b = d*(q*p) + (r*p + b) with r*p + b < q*p. */
  lemma SplitKernel(a: int, d: int, r: int, q: int, p: int, b: int)
    requires a == d * q + r && 0 <= r < q && 0 <= b < p
    ensures a * p + b == d * (q * p) + (r * p + b)
    ensures r * p + b < q * p
  {
    assert a * p == d * (q * p) + r * p;
    MulLe(r, q - 1, p);
  }

  /** Remainder modulo 2p through the remainder of the halved value. */
  lemma ModDouble(b: nat, p: nat)
    requires p > 0
    ensures b % (2 * p) == 2 * ((b / 2) % p) + b % 2
  {
    var h := b / 2;
    assert h == (h / p) * p + h % p;
    assert b == (h / p) * (2 * p) + (2 * (h % p) + b % 2);
    ModUnique(b, 2 * p, h / p, 2 * (h % p) + b % 2);
  }

  /** The value of a big-endian byte string: the first byte is the most significant. */
  function ToNat(s: seq<byte>): nat
  {
    if |s| == 0 then 0 else ToNat(s[..|s| - 1]) * 256 + s[|s| - 1] as nat
  }

  /** One more byte multiplies the size of the number range by 256. */
  lemma Pow2NextByte(n: nat)
    ensures Pow2(8 * n + 8) == Pow2(8 * n) * 256
  {
    Pow2Add(8 * n, 8);
    Pow2Byte();
  }

  /** The number range of a byte string is 256 times that of the string
      without its last byte. Pow2NextByte, Pow2LastByte and Pow2ByteStep state
      one fact over three spellings of the exponent (8n + 8, 8|s|, 8(n - 1)):
      the solver matches a lemma only on the exact terms of the goal, and
      rewriting between the spellings at each use costs more than the lemma. */
  lemma Pow2LastByte(s: seq<byte>)
    requires |s| > 0
    ensures Pow2(8 * |s|) == Pow2(8 * |s[..|s| - 1]|) * 256
  {
    var n := |s|;
    assert |s[..n - 1]| == n - 1;
    Pow2ByteStep(n);
  }

  /** An n-byte string stands for a number below 256^n. */
  lemma {:induction false} ToNatBound(s: seq<byte>)
    ensures ToNat(s) < Pow2(8 * |s|)
  {
    if |s| > 0 {
      var init := s[..|s| - 1];
      ToNatBound(init);
      Pow2NextByte(|init|);
      var i: int, p: int := ToNat(init), Pow2(8 * |init|);
      assert i * 256 <= (p - 1) * 256;
    }
  }

  /** The n low-order bytes of v, most significant first (v is read modulo 256^n). */
  function FromNat(v: nat, n: nat): (s: seq<byte>)
    ensures |s| == n
  {
    if n == 0 then [] else FromNat(v / 256, n - 1) + [(v % 256) as byte]
  }

  /** The number range of n bytes is 256 times that of n - 1 bytes. */
  lemma Pow2ByteStep(n: nat)
    requires n > 0
    ensures Pow2(8 * n) == Pow2(8 * (n - 1)) * 256
  {
    Pow2NextByte(n - 1);
    assert 8 * n == 8 * (n - 1) + 8;
  }

  /** Dropping the last byte of a number that fits in n bytes leaves one that
      fits in n - 1. */
  lemma DivByteBound(v: nat, n: nat)
    requires n > 0 && v < Pow2(8 * n)
    ensures v / 256 < Pow2(8 * (n - 1))
  {
    Pow2ByteStep(n);
    LessMul(v / 256, Pow2(8 * (n - 1)), 256, v);
  }

  /** Writing a number that fits and reading it back gives the number. */
  lemma {:induction false} ToNatFromNat(v: nat, n: nat)
    requires v < Pow2(8 * n)
    ensures ToNat(FromNat(v, n)) == v
  {
    if n > 0 {
      var s := FromNat(v, n);
      assert s[..n - 1] == FromNat(v / 256, n - 1);
      DivByteBound(v, n);
      ToNatFromNat(v / 256, n - 1);
    }
  }

  /** Reading a byte string and writing its value back at the same width gives the string. */
  lemma {:induction false} FromNatToNat(s: seq<byte>)
    ensures FromNat(ToNat(s), |s|) == s
  {
    if |s| > 0 {
      var init := s[..|s| - 1];
      FromNatToNat(init);
      ModUnique(ToNat(s), 256, ToNat(init), s[|s| - 1] as int);
      assert s == init + [s[|s| - 1]];
    }
  }

  /** Two byte strings of one width with the same value are the same string. */
  lemma ToNatInjective(a: seq<byte>, b: seq<byte>)
    requires |a| == |b| && ToNat(a) == ToNat(b)
    ensures a == b
  {
    FromNatToNat(a);
    FromNatToNat(b);
  }

  /** The value of a concatenation: the left part shifted past the right part. */
  lemma {:induction false} ToNatAppend(a: seq<byte>, b: seq<byte>)
    ensures ToNat(a + b) == ToNat(a) * Pow2(8 * |b|) + ToNat(b)
  {
    if |b| == 0 {
      assert a + b == a;
    } else {
      var init := b[..|b| - 1];
      assert (a + b)[..|a + b| - 1] == a + init;
      ToNatAppend(a, init);
      Pow2NextByte(|init|);
      ShiftAppend(ToNat(a), ToNat(init), Pow2(8 * |init|), b[|b| - 1] as int);
    }
  }

  lemma ShiftAppend(x: int, i: int, p: int, last: int)
    ensures (x * p + i) * 256 + last == x * (p * 256) + (i * 256 + last)
  {
  }
}
