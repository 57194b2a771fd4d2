/** What single bytes say about a number: the formats of libs/endian in terms of powers of 256. */
module ByteNumbers {
  import opened KeyOrder
  import opened Endian

  lemma PowersOf256()
    ensures Pow256(0) == 1 && Pow256(1) == 256 && Pow256(2) == 65536 && Pow256(8) == 0x1_0000_0000_0000_0000
  {
    assert Pow256(3) == 0x100_0000 && Pow256(4) == 0x1_0000_0000 && Pow256(5) == 0x100_0000_0000;
    assert Pow256(6) == 0x1_0000_0000_0000 && Pow256(7) == 0x100_0000_0000_0000;
  }

  /** Byte i of a number counts the multiples of 256 to the i: the i-th one from the left, or from the right. */
  lemma {:induction false} ByteAt(v: nat, n: nat, i: nat)
    requires i < n
    ensures LittleBytes(v, n)[i] == v / Pow256(i) % 256 && BigBytes(v, n)[n - 1 - i] == v / Pow256(i) % 256
  {
    if i > 0 {
      ByteAt(v / 256, n - 1, i - 1);
      DivideTwice(v, Pow256(i - 1));
    }
  }

  /** The number stands in the bytes from a place on, lowest byte first. */
  predicate NumberIs(bs: seq<byte>, at: int, width: nat, v: nat) {
    && 0 <= at && at + width <= |bs|
    && forall i :: 0 <= i < width ==> bs[at + i] == v / Pow256(i) % 256
  }

  lemma NumberIsBytes(bs: seq<byte>, at: nat, width: nat, v: nat)
    requires at + width <= |bs|
    ensures bs[at..at + width] == LittleBytes(v, width) <==> NumberIs(bs, at, width, v)
  {
    forall i | 0 <= i < width
      ensures LittleBytes(v, width)[i] == v / Pow256(i) % 256 && bs[at..at + width][i] == bs[at + i]
    {
      ByteAt(v, width, i);
    }
  }

  lemma DivideTwice(v: nat, b: nat)
    requires b > 0
    ensures v / 256 / b == v / (256 * b)
  {
    var x := v / 256;
    var q, r := x / b, x % b;
    assert x == b * q + r;
    assert 256 * b * q == 256 * (b * q);
    QuotientIs(v, 256 * b, q, 256 * r + v % 256);
  }

  /** A quotient is the only one that leaves so small a rest. */
  lemma QuotientIs(v: nat, p: nat, q: nat, r: nat)
    requires v == p * q + r && r < p
    ensures v / p == q
  {
    var d := v / p - q;
    assert p * d == p * (v / p) - p * q;
    if d != 0 {
      LargeProduct(p, d);
    }
  }

  lemma LargeProduct(p: nat, d: int)
    requires d != 0
    ensures p * d >= p || p * d + p <= 0
  {
    if d > 0 {
      GrowsWith(p, 1, d);
    } else {
      GrowsWith(p, d, -1);
    }
  }

  lemma GrowsWith(p: nat, d: int, e: int)
    requires d <= e
    ensures p * d <= p * e
  {
  }

  /** The one number of n bytes that differs by a multiple of their range. */
  lemma TruncatedIs(v: int, n: nat)
    ensures Truncated(v, n) < Pow256(n) && v == Pow256(n) * (v / Pow256(n)) + Truncated(v, n)
  {
  }
}
