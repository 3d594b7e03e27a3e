/** Bytes in memory: copies, and integers in little-endian two's complement. */
module Memory {
  import opened Values

  function Zeros(n: nat): (z: seq<Byte>)
    ensures |z| == n && forall i :: 0 <= i < n ==> z[i] == 0
  {
    seq(n, _ => 0)
  }

  function Bytes(n: nat, k: nat): (b: seq<Byte>)
    ensures |b| == k
  {
    if k == 0 then [] else [n % 256] + Bytes(n / 256, k - 1)
  }

  function Number(b: seq<Byte>): nat {
    if b == [] then 0 else b[0] + 256 * Number(b[1..])
  }

  function Power256(k: nat): (p: nat)
    ensures 1 <= p
  {
    if k == 0 then 1 else 256 * Power256(k - 1)
  }

  lemma {:induction false} NumberBytes(n: nat, k: nat)
    requires n < Power256(k)
    ensures Number(Bytes(n, k)) == n
  {
    if k > 0 {
      NumberBytes(n / 256, k - 1);
      assert Bytes(n, k)[1..] == Bytes(n / 256, k - 1);
    }
  }

  /** The bytes are the digits to base 256, the lowest first. */
  lemma {:induction false} ByteIs(n: nat, k: nat, i: nat)
    requires i < k
    ensures Bytes(n, k)[i] == n / Power256(i) % 256
    decreases i
  {
    if i > 0 {
      ByteIs(n / 256, k - 1, i - 1);
      DivTwice(n, Power256(i - 1));
    }
  }

  lemma DivTwice(n: nat, p: nat)
    requires 0 < p
    ensures n / 256 / p == n / (256 * p)
  {
    var q, r := n / (256 * p), n % (256 * p);
    assert n == q * (256 * p) + r;
    var s, u := r / 256, r % 256;
    assert n == 256 * (q * p + s) + u;
    assert n / 256 == q * p + s;
    assert s < p;
    Quotient(q, s, p);
  }

  lemma {:induction false} Multiples(x: nat, y: nat, n: nat)
    requires x < y
    ensures x * n + n <= y * n
    decreases y
  {
    assert (y - 1) * n + n == y * n;
    if x < y - 1 { Multiples(x, y - 1, n); }
  }

  lemma Quotient(q: nat, s: nat, p: nat)
    requires s < p
    ensures (q * p + s) / p == q
  {
    var n := q * p + s;
    var d, m := n / p, n % p;
    assert n == d * p + m && 0 <= m < p;
    if d < q {
      Multiples(d, q, p);
    } else if q < d {
      Multiples(q, d, p);
    }
  }

  lemma {:induction false} NumberBound(b: seq<Byte>)
    ensures Number(b) < Power256(|b|)
  {
    if b != [] { NumberBound(b[1..]); }
  }

  lemma FourBytes()
    ensures Power256(4) == 0x1_0000_0000 && Power256(8) == 0x1_0000_0000_0000_0000
  {
    assert Power256(2) == 0x1_0000;
    assert Power256(4) == 0x1_0000_0000;
    assert Power256(6) == 0x1_0000_0000_0000;
  }

  predicate Int32(x: int) { -0x8000_0000 <= x < 0x8000_0000 }

  /** A 32-bit integer in two's complement. */
  function IntBytes(x: int): (b: seq<Byte>)
    requires Int32(x)
    ensures |b| == 4
  {
    Bytes(if x < 0 then x + 0x1_0000_0000 else x, 4)
  }

  /** Two's complement read back, for any width. */
  function Signed(b: seq<Byte>): int {
    var u: int := Number(b);
    var p: int := Power256(|b|);
    if 2 * u >= p then u - p else u
  }

  /** An integer of `k` bytes in two's complement is read back. */
  lemma SignedRoundTrip(x: int, k: nat)
    requires 0 <= 2 * x + Power256(k) && 2 * x < Power256(k)
    ensures Signed(Bytes(if x < 0 then x + Power256(k) else x, k)) == x
  {
    NumberBytes(if x < 0 then x + Power256(k) else x, k);
  }

  lemma IntRoundTrip(x: int)
    requires Int32(x)
    ensures Signed(IntBytes(x)) == x
  {
    FourBytes();
    SignedRoundTrip(x, 4);
  }

  predicate Int64(x: int) { -0x8000_0000_0000_0000 <= x < 0x8000_0000_0000_0000 }

  /** A 64-bit integer in two's complement. */
  function BigintBytes(x: int): (b: seq<Byte>)
    requires Int64(x)
    ensures |b| == 8
  {
    Bytes(if x < 0 then x + 0x1_0000_0000_0000_0000 else x, 8)
  }

  lemma BigintRoundTrip(x: int)
    requires Int64(x)
    ensures Signed(BigintBytes(x)) == x
  {
    FourBytes();
    SignedRoundTrip(x, 8);
  }

  lemma {:induction false} NumberInjective(a: seq<Byte>, b: seq<Byte>)
    requires |a| == |b| && Number(a) == Number(b)
    ensures a == b
  {
    if a != [] {
      NumberInjective(a[1..], b[1..]);
      assert a == [a[0]] + a[1..] && b == [b[0]] + b[1..];
    }
  }

  lemma SignedInjective(a: seq<Byte>, b: seq<Byte>)
    requires |a| == |b| && Signed(a) == Signed(b)
    ensures a == b
  {
    NumberBound(a);
    NumberBound(b);
    NumberInjective(a, b);
  }

  /** Copies bytes to an offset. */
  method CopyTo(dest: array<Byte>, offset: nat, src: seq<Byte>)
    requires offset + |src| <= dest.Length
    modifies dest
    ensures dest[..offset + |src|] == old(dest[..offset]) + src
    ensures forall i :: offset + |src| <= i < dest.Length ==> dest[i] == old(dest[i])
  {
    var i := 0;
    while i < |src|
      invariant 0 <= i <= |src|
      invariant forall j :: 0 <= j < offset ==> dest[j] == old(dest[j])
      invariant forall j :: 0 <= j < i ==> dest[offset + j] == src[j]
      invariant forall j :: offset + i <= j < dest.Length ==> dest[j] == old(dest[j])
    {
      dest[offset + i] := src[i];
      i := i + 1;
    }
  }
}
