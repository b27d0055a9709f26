/** Byte-level vocabulary of the codec: unsigned integer ranges, little-endian
    packing and the prefix/suffix cursors that a read buffer walks through. */
module Wire {

  type Byte = x: int | 0 <= x < 0x100
  type U16 = x: int | 0 <= x < 0x1_0000
  type U64 = x: int | 0 <= x < 0x1_0000_0000_0000_0000

  const TWO64: int := 0x1_0000_0000_0000_0000

  function Min(a: int, b: int): int { if a <= b then a else b }

  function Max(a: int, b: int): int { if a <= b then b else a }

  /** 256 to the power n, the weight of byte n in a little-endian number. */
  function Pow256(n: nat): (r: nat)
    ensures r > 0
  {
    if n == 0 then 1 else 256 * Pow256(n - 1)
  }

  /** The first n elements of s, or all of s when it is shorter. */
  function Take<T>(s: seq<T>, n: nat): (r: seq<T>)
    ensures |r| == Min(n, |s|)
  {
    if n <= |s| then s[..n] else s
  }

  /** What is left of s after n elements are consumed (nothing when s is shorter). */
  function Drop<T>(s: seq<T>, n: nat): (r: seq<T>)
    ensures |r| == Max(|s| - n, 0)
  {
    if n <= |s| then s[n..] else []
  }

  function Zeros(n: nat): (r: seq<Byte>)
    ensures |r| == n && forall i :: 0 <= i < n ==> r[i] == 0
  {
    seq(n, _ => 0)
  }

  /** The number whose little-endian byte sequence is bs. */
  function LeValue(bs: seq<Byte>): nat
  {
    if bs == [] then 0 else bs[0] + 256 * LeValue(bs[1..])
  }

  /** The s low-order bytes of v, least significant first. */
  function LeBytes(v: nat, s: nat): (r: seq<Byte>)
    ensures |r| == s
  {
    if s == 0 then [] else [v % 256] + LeBytes(v / 256, s - 1)
  }

  /** The value a 64-bit little-endian reader produces after s byte reads on bs:
      a read past the end yields a zero byte, and a byte shifted by 64 bits or
      more drops out of the 64-bit result. */
  function ReadUint(bs: seq<Byte>, s: nat): (r: U64)
  {
    var t := Take(bs, Min(s, 8));
    LeValueBound(t);
    PowMonotone(|t|, 8);
    LeValue(t)
  }

  lemma {:induction false} PowMonotone(a: nat, b: nat)
    requires a <= b
    ensures Pow256(a) <= Pow256(b)
  {
    if a < b {
      PowMonotone(a, b - 1);
    }
  }

  lemma Pow256Eight()
    ensures Pow256(8) == TWO64
  {
  }

  lemma {:induction false} LeValueBound(bs: seq<Byte>)
    ensures LeValue(bs) < Pow256(|bs|)
  {
    if bs != [] {
      LeValueBound(bs[1..]);
    }
  }

  lemma {:induction false} LeValueSnoc(bs: seq<Byte>, x: Byte)
    ensures LeValue(bs + [x]) == LeValue(bs) + x * Pow256(|bs|)
  {
    if bs != [] {
      assert (bs + [x])[1..] == bs[1..] + [x];
      LeValueSnoc(bs[1..], x);
      calc {
        LeValue(bs + [x]);
        bs[0] + 256 * (LeValue(bs[1..]) + x * Pow256(|bs| - 1));
        { assert 256 * (x * Pow256(|bs| - 1)) == x * (256 * Pow256(|bs| - 1)); }
        LeValue(bs) + x * Pow256(|bs|);
      }
    } else {
      assert [x][1..] == [];
    }
  }

  /** Division by d has exactly one quotient and remainder. */
  lemma DivModUnique(a: int, d: int, q: int, r: int)
    requires d > 0 && 0 <= r < d && a == d * q + r
    ensures a / d == q && a % d == r
  {
    var q0, r0 := a / d, a % d;
    assert a == d * q0 + r0;
    var k := q - q0;
    assert d * k == r0 - r;
    assert k >= 1 ==> d * k >= d;
    assert k <= -1 ==> d * k <= -d;
  }

  /** Dividing by b and then by c is dividing by b * c; the remainders combine
      the same way. */
  lemma DivDiv(a: nat, b: nat, c: nat)
    requires b > 0 && c > 0
    ensures a / b / c == a / (b * c)
    ensures a % (b * c) == a % b + b * (a / b % c)
  {
    var q, r := a / b, a % b;
    var q2, r2 := q / c, q % c;
    assert a == b * q + r;
    assert q == c * q2 + r2;
    MulAddLeft(b, c * q2, r2);
    MulAssoc(b, c, q2);
    assert a == (b * c) * q2 + (b * r2 + r);
    MulBelow(b, r2, c);
    DivModUnique(a, b * c, q2, b * r2 + r);
  }

  /** Multiplication distributes over addition. */
  lemma MulAddLeft(b: int, x: int, y: int)
    ensures b * (x + y) == b * x + b * y
  {
  }

  lemma MulAssoc(b: int, c: int, q: int)
    ensures b * (c * q) == (b * c) * q
  {
  }

  /** b copies of a digit below c leave room for one more b below b * c. */
  lemma MulBelow(b: nat, r: nat, c: nat)
    requires r < c
    ensures b * r + b <= b * c
  {
    MulAddLeft(b, r, 1);
    assert b * (r + 1) <= b * c by {
      MulAddLeft(b, r + 1, c - (r + 1));
    }
  }

  /** Byte k of LeBytes(v, s) is (v >> 8k) & 0xff. */
  lemma {:induction false} LeBytesAt(v: nat, s: nat, k: nat)
    requires k < s
    ensures LeBytes(v, s)[k] == v / Pow256(k) % 256
  {
    if k > 0 {
      LeBytesAt(v / 256, s - 1, k - 1);
      DivDiv(v, 256, Pow256(k - 1));
    }
  }

  /** Reading back the s bytes of v gives v modulo 2^(8s). */
  lemma {:induction false} LeRoundTrip(v: nat, s: nat)
    ensures LeValue(LeBytes(v, s)) == v % Pow256(s)
  {
    if s > 0 {
      var r := LeBytes(v, s);
      assert r[1..] == LeBytes(v / 256, s - 1);
      LeRoundTrip(v / 256, s - 1);
      DivDiv(v, 256, Pow256(s - 1));
    }
  }

  /** Writing back the value of bs over |bs| bytes gives bs again. */
  lemma {:induction false} LeBytesOfValue(bs: seq<Byte>)
    ensures LeBytes(LeValue(bs), |bs|) == bs
  {
    if bs != [] {
      var v := LeValue(bs);
      DivModUnique(v, 256, LeValue(bs[1..]), bs[0]);
      LeBytesOfValue(bs[1..]);
    }
  }

  /** Two byte sequences of the same length with the same value are equal. */
  lemma LeValueInjective(a: seq<Byte>, b: seq<Byte>)
    requires |a| == |b| && LeValue(a) == LeValue(b)
    ensures a == b
  {
    LeBytesOfValue(a);
    LeBytesOfValue(b);
  }

  /** A read of s <= 8 bytes from LeBytes(v, s) followed by anything yields
      v modulo 2^(8s). */
  lemma ReadUintOfLeBytes(v: nat, s: nat, tail: seq<Byte>)
    requires s <= 8
    ensures ReadUint(LeBytes(v, s) + tail, s) == v % Pow256(s)
    ensures Drop(LeBytes(v, s) + tail, s) == tail
  {
    assert Take(LeBytes(v, s) + tail, s) == LeBytes(v, s);
    LeRoundTrip(v, s);
  }

  /** A read stops at s bytes: what follows them does not matter. */
  lemma ReadUintPrefix(bs: seq<Byte>, tail: seq<Byte>, s: nat)
    requires s <= |bs|
    ensures ReadUint(bs + tail, s) == ReadUint(bs, s)
    ensures Drop(bs + tail, s) == Drop(bs, s) + tail
  {
    assert Take(bs + tail, Min(s, 8)) == Take(bs, Min(s, 8));
  }

  /** A slice of b taken after a. */
  lemma SliceAfter<T>(a: seq<T>, b: seq<T>, lo: nat, hi: nat)
    requires lo <= hi <= |b|
    ensures (a + b)[|a| + lo..|a| + hi] == b[lo..hi]
  {
  }

  lemma DropDrop<T>(s: seq<T>, a: nat, b: nat)
    ensures Drop(Drop(s, a), b) == Drop(s, a + b)
  {
  }
}
