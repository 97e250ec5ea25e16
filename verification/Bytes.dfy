/** Octets: C's uint8_t, and how its wrap-around arithmetic reads as integers. */
module Octet {

  /** One octet of memory, as C's uint8_t. */
  type byte = bv8

  lemma ByteOfNat(v: nat)
    requires v < 256
    ensures (v as byte) as nat == v
  {
  }

  /** The wrap-around of uint8_t arithmetic, and masking with 0x7f, read as integers. */
  lemma ByteTimes35(x: byte)
    ensures (35 * x) as int == (35 * x as int) % 256
  {
  }

  lemma BytePlus42(x: byte)
    ensures (x + 42) as int == (x as int + 42) % 256
  {
  }

  lemma ByteLow7(x: byte)
    ensures (x & 0x7f) as int == x as int % 128
  {
  }

  /** Reducing modulo 256 first changes nothing modulo 128. */
  lemma WrapThenLow7(a: int)
    ensures ((a % 256 + 42) % 256) % 128 == (a + 42) % 128
  {
    var b := a % 256 + 42;
    var x := b % 256;
    assert a == 256 * (a / 256) + a % 256;
    assert b == 256 * (b / 256) + x;
    var k := 2 * (a / 256 + b / 256);
    assert x == (a + 42) - 128 * k;
    var y := a + 42;
    assert y == 128 * (y / 128) + y % 128;
    assert x == 128 * (y / 128 - k) + y % 128;
    ModOfMultiple(x, y / 128 - k, y % 128);
  }

  /** x = 128 q + r with 0 <= r < 128 leaves r modulo 128. */
  lemma ModOfMultiple(x: int, q: int, r: int)
    requires 0 <= r < 128 && x == 128 * q + r
    ensures x % 128 == r
  {
  }
}

/** Byte strings and the integer facts the rest of the model needs. */
module Bytes {
  import opened Octet

  datatype Option<+T> = None | Some(value: T)

  /** `n` zero bytes, as left behind by `= {0}` or `memset(.., 0, n)`. */
  function Zeros(n: nat): (z: seq<byte>)
    ensures |z| == n
    ensures forall k :: 0 <= k < n ==> z[k] == 0
  {
    seq(n, k => 0)
  }

  predicate AllZero(s: seq<byte>)
  {
    forall k :: 0 <= k < |s| ==> s[k] == 0
  }

  /** Byte-order reversal, what sys_mem_swap does to a buffer. */
  function Reverse(s: seq<byte>): seq<byte>
  {
    if s == [] then [] else Reverse(s[1..]) + [s[0]]
  }

  lemma {:induction false} ReverseAt(s: seq<byte>)
    ensures |Reverse(s)| == |s|
    ensures forall k :: 0 <= k < |s| ==> Reverse(s)[k] == s[|s| - 1 - k]
  {
    if s != [] {
      ReverseAt(s[1..]);
    }
  }

  /** Swapping twice gives the buffer back. */
  lemma ReverseReverse(s: seq<byte>)
    ensures Reverse(Reverse(s)) == s
  {
    ReverseAt(s);
    ReverseAt(Reverse(s));
  }

  /** b to the power n. */
  function Pow(b: nat, n: nat): (p: nat)
    ensures b > 0 ==> p > 0
  {
    if n == 0 then 1 else b * Pow(b, n - 1)
  }

  lemma {:induction false} PowAdd(b: nat, m: nat, n: nat)
    ensures Pow(b, m + n) == Pow(b, m) * Pow(b, n)
  {
    if n > 0 {
      PowAdd(b, m, n - 1);
      assert Pow(b, m + n) == b * Pow(b, m + n - 1);
      assert b * (Pow(b, m) * Pow(b, n - 1)) == Pow(b, m) * (b * Pow(b, n - 1));
    }
  }

  lemma {:induction false} PowMonotone(b: nat, m: nat, n: nat)
    requires b > 0 && m <= n
    ensures Pow(b, m) <= Pow(b, n)
  {
    PowAdd(b, m, n - m);
    assert Pow(b, n - m) >= 1;
  }

  /** Quotient and remainder are unique. */
  lemma DivModUnique(x: int, d: int, q: int, r: int)
    requires d > 0 && 0 <= r < d && x == q * d + r
    ensures x / d == q && x % d == r
  {
    var q', r' := x / d, x % d;
    assert (q - q') * d == r' - r;
    MulStrict(q - q', d);
  }

  lemma MulStrict(k: int, d: int)
    requires d > 0
    ensures k >= 1 ==> k * d >= d
    ensures k <= -1 ==> k * d <= -d
  {
  }

  /** A remainder modulo b * m splits into the remainder modulo b and the next digit. */
  lemma ModSplit(x: nat, b: nat, m: nat)
    requires b > 0 && m > 0
    ensures x % (b * m) == x % b + b * ((x / b) % m)
    ensures x / (b * m) == (x / b) / m
  {
    var q, r := x / b, x % b;
    var q1, q0 := q / m, q % m;
    assert x == q * b + r;
    assert q == q1 * m + q0;
    assert x == q1 * (b * m) + (b * q0 + r) by {
      assert q * b == (q1 * m + q0) * b == q1 * (b * m) + b * q0;
    }
    assert b * q0 <= b * (m - 1) by { assert q0 <= m - 1; }
    DivModUnique(x, b * m, q1, b * q0 + r);
  }

  /** Little-endian value of a byte string, as the bytes of an integer in x86 memory. */
  function LeValue(s: seq<byte>): nat
  {
    if s == [] then 0 else s[0] as nat + 256 * LeValue(s[1..])
  }

  /** The first n little-endian bytes of x, as `(uint8_t *) &x` exposes them. */
  function LeBytes(x: nat, n: nat): (s: seq<byte>)
    ensures |s| == n
  {
    if n == 0 then [] else [(x % 256) as byte] + LeBytes(x / 256, n - 1)
  }

  lemma {:induction false} LeValueBound(s: seq<byte>)
    ensures LeValue(s) < Pow(256, |s|)
  {
    if s != [] {
      LeValueBound(s[1..]);
      assert LeValue(s) <= 255 + 256 * (Pow(256, |s| - 1) - 1);
    }
  }

  /** Reading back the first n bytes of x gives x modulo 256^n. */
  lemma {:induction false} LeValueOfLeBytes(x: nat, n: nat)
    ensures LeValue(LeBytes(x, n)) == x % Pow(256, n)
  {
    if n > 0 {
      var p := Pow(256, n - 1);
      LeValueOfLeBytes(x / 256, n - 1);
      ModSplit(x, 256, p);
      ByteOfNat(x % 256);
      assert LeValue(LeBytes(x, n)) == x % 256 + 256 * LeValue(LeBytes(x / 256, n - 1));
    }
  }

  /** Writing back the value of a byte string gives the same bytes. */
  lemma {:induction false} LeBytesOfLeValue(s: seq<byte>)
    ensures LeBytes(LeValue(s), |s|) == s
  {
    if s != [] {
      LeBytesOfLeValue(s[1..]);
      var v := LeValue(s);
      assert v % 256 == s[0] as nat && v / 256 == LeValue(s[1..]) by {
        DivModUnique(v, 256, LeValue(s[1..]), s[0] as nat);
      }
    }
  }
}
