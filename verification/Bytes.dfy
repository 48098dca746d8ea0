// Bytes, 64-bit arithmetic and the little-endian integers of the chunk container.
module Bytes {
  type byte = x: int | 0 <= x < 256
  type bytes = seq<byte>

  const TWO_TO_64: int := 0x1_0000_0000_0000_0000

  type u64 = x: int | 0 <= x < TWO_TO_64

  // C++ unsigned arithmetic wraps.

  function Add64(a: u64, b: u64): (r: u64)
    ensures a + b < TWO_TO_64 ==> r == a + b
  {
    (a + b) % TWO_TO_64
  }

  function Sub64(a: u64, b: u64): (r: u64)
    ensures b <= a ==> r == a - b
  {
    (a - b) % TWO_TO_64
  }

  function Mul64(a: u64, b: u64): u64 {
    (a * b) % TWO_TO_64
  }

  function Pow2(n: nat): (p: nat)
    ensures p >= 1
  {
    if n == 0 then 1 else 2 * Pow2(n - 1)
  }

  /** Bitwise or on unbounded naturals. */
  function BitOr(a: nat, b: nat): nat
    decreases a + b
  {
    if a == 0 && b == 0 then 0
    else 2 * BitOr(a / 2, b / 2) + (if a % 2 == 1 || b % 2 == 1 then 1 else 0)
  }

  // ---- the meaning of a little-endian integer ----

  /** The number whose base-256 digits, least significant first, are `p`. */
  function FromLE(p: bytes): nat {
    if |p| == 0 then 0 else p[0] + 256 * FromLE(p[1..])
  }

  /** The `n` least significant base-256 digits of `v`. */
  function ToLE(v: nat, n: nat): (p: bytes)
    ensures |p| == n
  {
    if n == 0 then [] else [v % 256] + ToLE(v / 256, n - 1)
  }

  /** Any n bytes are the digits of the number they denote. */
  lemma {:induction false} ToFromLE(p: bytes)
    ensures ToLE(FromLE(p), |p|) == p
    ensures FromLE(p) < Pow2(8 * |p|)
  {
    if |p| > 0 {
      ToFromLE(p[1..]);
      assert FromLE(p) / 256 == FromLE(p[1..]);
      Pow2Byte(|p| - 1);
    }
  }

  /** Any number below 2^(8n) is recovered from its n digits. */
  lemma {:induction false} FromToLE(v: nat, n: nat)
    requires v < Pow2(8 * n)
    ensures FromLE(ToLE(v, n)) == v
  {
    if n > 0 {
      Pow2Byte(n - 1);
      FromToLE(v / 256, n - 1);
      assert ToLE(v, n)[1..] == ToLE(v / 256, n - 1);
    }
  }

  lemma Pow2Byte(n: nat)
    ensures Pow2(8 * (n + 1)) == 256 * Pow2(8 * n)
  {
    var k := 8 * n;
    assert Pow2(k + 8) == 2 * Pow2(k + 7) == 4 * Pow2(k + 6);
    assert Pow2(k + 6) == 2 * Pow2(k + 5) == 4 * Pow2(k + 4);
    assert Pow2(k + 4) == 2 * Pow2(k + 3) == 4 * Pow2(k + 2);
    assert Pow2(k + 2) == 2 * Pow2(k + 1) == 4 * Pow2(k);
  }

  lemma Pow2OfZero()
    ensures Pow2(0) == 1
  {
  }

  lemma Pow64(n: nat)
    requires n == 8
    ensures Pow2(8 * n) == TWO_TO_64
  {
    hide Pow2;
    Pow2OfZero();
    Pow2Byte(n - 8); Pow2Byte(n - 7); Pow2Byte(n - 6); Pow2Byte(n - 5);
    assert Pow2(8 * (n - 4)) == 0x1_0000_0000;
    Pow2Byte(n - 4); Pow2Byte(n - 3); Pow2Byte(n - 2); Pow2Byte(n - 1);
  }

  // ---- digit by digit, most significant last, as the loops work ----

  lemma {:induction false} FromLEAppend(p: bytes, b: byte)
    ensures FromLE(p + [b]) == FromLE(p) + b * Pow2(8 * |p|)
  {
    hide BitOr, ToLE;
    if |p| == 0 {
      assert p + [b] == [b];
      assert FromLE([b]) == b + 256 * FromLE([b][1..]);
    } else {
      assert (p + [b])[1..] == p[1..] + [b];
      FromLEAppend(p[1..], b);
      Pow2Byte(|p| - 1);
      assert 256 * (b * Pow2(8 * (|p| - 1))) == b * Pow2(8 * |p|);
    }
  }

  lemma DivByByteThen(a: nat, c: nat)
    requires c > 0
    ensures a / 256 / c == a / (256 * c)
  {
    var q, r := a / 256 / c, a / 256 % c;
    assert a / 256 == c * q + r;
    assert 256 * (c * q) == (256 * c) * q;
    QuotientIsUnique(a, 256 * c, q, 256 * r + a % 256);
  }

  lemma QuotientIsUnique(a: nat, d: nat, q: nat, r: nat)
    requires d > 0 && a == d * q + r && r < d
    ensures a / d == q
  {
    var q', r' := a / d, a % d;
    assert d * (q - q') == r' - r;
    if q != q' {
      SmallMultiple(d, q - q');
    }
  }

  lemma SmallMultiple(d: nat, k: int)
    requires k != 0
    ensures d * k >= d || d + d * k <= 0
  {
  }

  lemma {:induction false} ToLEAppend(v: nat, n: nat)
    ensures ToLE(v, n + 1) == ToLE(v, n) + [(v / Pow2(8 * n)) % 256]
  {
    hide Pow2;
    if n > 0 {
      var low: byte, q := v % 256, v / 256;
      ToLEAppend(q, n - 1);
      Pow2Byte(n - 1);
      DivByByteThen(v, Pow2(8 * (n - 1)));
      assert ToLE(v, n + 1) == [low] + ToLE(q, n) && ToLE(v, n) == [low] + ToLE(q, n - 1);
      hide ToLE;
      var top: byte := (v / Pow2(8 * n)) % 256;
      assert [low] + (ToLE(q, n - 1) + [top]) == [low] + ToLE(q, n - 1) + [top];
    } else {
      assert Pow2(8 * n) == 1 by { Pow2OfZero(); }
      assert ToLE(v, 1) == [v % 256] + ToLE(v / 256, 0);
    }
  }

  /** Digit i of a little-endian integer has weight 256^i. */
  lemma {:induction false} LittleEndian(v: nat, n: nat, i: nat)
    requires i < n
    ensures ToLE(v, n)[i] == (v / Pow2(8 * i)) % 256
  {
    hide Pow2;
    ToLEAppend(v, n - 1);
    if i < n - 1 {
      LittleEndian(v, n - 1, i);
    }
  }

  lemma {:induction false} OrWithZero(b: nat)
    ensures BitOr(0, b) == b
  {
    if b > 0 {
      OrWithZero(b / 2);
    }
  }

  /** Or-ing in bits above all the bits already present is addition. */
  lemma {:induction false} OrDisjoint(a: nat, b: nat, k: nat)
    requires a < Pow2(k)
    ensures BitOr(a, b * Pow2(k)) == a + b * Pow2(k)
  {
    if k == 0 {
      OrWithZero(b);
    } else {
      var high := b * Pow2(k);
      assert high == 2 * (b * Pow2(k - 1));
      OrDisjoint(a / 2, b, k - 1);
    }
  }

  // ---- PutLE64 and GetLE64 ----

  method PutLE64(s: bytes, v: u64) returns (r: bytes)
    ensures r == s + ToLE(v, 8)
  {
    r := s;
    for i := 0 to 8
      invariant r == s + ToLE(v, i)
    {
      ToLEAppend(v, i);
      r := r + [(v / Pow2(8 * i)) % 256];
    }
  }

  /** Or-ing in the next byte at its place. */
  lemma NextByte(p: bytes, i: nat, acc: nat)
    requires i < |p| && acc == FromLE(p[..i]) < Pow2(8 * i)
    ensures BitOr(acc, p[i] * Pow2(8 * i)) == FromLE(p[..i + 1]) < Pow2(8 * (i + 1))
  {
    hide BitOr, ToLE, FromLE, Pow2;
    OrDisjoint(acc, p[i], 8 * i);
    FromLEAppend(p[..i], p[i]);
    assert p[..i + 1] == p[..i] + [p[i]];
    ToFromLE(p[..i + 1]);
  }

  method GetLE64(p: bytes) returns (v: u64)
    requires |p| == 8
    ensures v == FromLE(p)
  {
    var acc: nat := 0;
    assert acc == FromLE(p[..0]) < Pow2(8 * 0);
    hide *;
    for i := 0 to 8
      invariant acc == FromLE(p[..i]) < Pow2(8 * i)
    {
      NextByte(p, i, acc);
      acc := BitOr(acc, p[i] * Pow2(8 * i));
    }
    Pow64(|p|);
    assert p[..8] == p;
    v := acc;
  }
}
