/** Fixed-width unsigned integers as bytes, and streams of them (libs/endian). */
module Endian {
  import opened KeyOrder

  /** 256 to the n: how many values n bytes can hold. */
  function Pow256(n: nat): (p: nat)
    ensures p >= 1
  {
    if n == 0 then 1 else 256 * Pow256(n - 1)
  }

  // ---------------------------------------------------------------- little endian

  /** The n low bytes of v, lowest first. */
  function LittleBytes(v: nat, n: nat): (bs: seq<byte>)
    ensures |bs| == n
  {
    if n == 0 then [] else [v % 256] + LittleBytes(v / 256, n - 1)
  }

  function LittleValue(bs: seq<byte>): nat {
    if bs == [] then 0 else LittleValue(bs[1..]) * 256 + bs[0]
  }

  /** Reading back what was written gives the value, if it fits. */
  lemma {:induction false} LittleRoundTrip(v: nat, n: nat)
    requires v < Pow256(n)
    ensures LittleValue(LittleBytes(v, n)) == v
  {
    if n > 0 {
      LittleRoundTrip(v / 256, n - 1);
      assert LittleBytes(v, n)[1..] == LittleBytes(v / 256, n - 1);
    }
  }

  lemma {:induction false} LittleValueFits(bs: seq<byte>)
    ensures LittleValue(bs) < Pow256(|bs|)
  {
    if bs != [] {
      LittleValueFits(bs[1..]);
    }
  }

  // ---------------------------------------------------------------- big endian

  /** The n low bytes of v, highest first. */
  function BigBytes(v: nat, n: nat): (bs: seq<byte>)
    ensures |bs| == n
  {
    if n == 0 then [] else BigBytes(v / 256, n - 1) + [v % 256]
  }

  function Reversed(bs: seq<byte>): seq<byte> {
    if bs == [] then [] else Reversed(bs[1..]) + [bs[0]]
  }

  /** The two formats are mirror images. */
  lemma {:induction false} BigIsLittleReversed(v: nat, n: nat)
    ensures BigBytes(v, n) == Reversed(LittleBytes(v, n))
  {
    if n > 0 {
      BigIsLittleReversed(v / 256, n - 1);
      assert LittleBytes(v, n)[1..] == LittleBytes(v / 256, n - 1);
    }
  }

  /** Highest byte first, onto the value a of the bytes before. */
  function BigValueFrom(a: nat, bs: seq<byte>): nat
    decreases |bs|
  {
    if bs == [] then a else BigValueFrom(a * 256 + bs[0], bs[1..])
  }

  lemma {:induction false} BigValueSnoc(a: nat, bs: seq<byte>, b: byte)
    ensures BigValueFrom(a, bs + [b]) == BigValueFrom(a, bs) * 256 + b
    decreases |bs|
  {
    if bs == [] {
      assert [] + [b] == [b];
    } else {
      assert (bs + [b])[1..] == bs[1..] + [b];
      BigValueSnoc(a * 256 + bs[0], bs[1..], b);
    }
  }

  lemma {:induction false} BigRoundTrip(v: nat, n: nat)
    requires v < Pow256(n)
    ensures BigValueFrom(0, BigBytes(v, n)) == v
  {
    if n > 0 {
      BigRoundTrip(v / 256, n - 1);
      BigValueSnoc(0, BigBytes(v / 256, n - 1), v % 256);
    }
  }

  /** v shifted right by n bytes. */
  function Shifted(v: nat, n: nat): nat {
    if n == 0 then v else Shifted(v, n - 1) / 256
  }

  lemma {:induction false} ShiftedFirst(v: nat, n: nat)
    ensures Shifted(v / 256, n) == Shifted(v, n) / 256
  {
    if n > 0 {
      ShiftedFirst(v, n - 1);
    }
  }

  /** The highest byte is what is left after shifting all others out. */
  lemma {:induction false} BigBytesFirst(v: nat, n: nat)
    requires n > 0
    ensures BigBytes(v, n) == [Shifted(v, n - 1) % 256] + BigBytes(v, n - 1)
  {
    if n > 1 {
      BigBytesFirst(v / 256, n - 1);
      ShiftedFirst(v, n - 2);
    }
  }

  // ---------------------------------------------------------------- the recursions over a buffer

  /** bs put into s at the given position. */
  function Splice(s: seq<byte>, at: nat, bs: seq<byte>): (r: seq<byte>)
    requires at + |bs| <= |s|
    ensures |r| == |s|
  {
    s[..at] + bs + s[at + |bs|..]
  }

  /** Sets the empty low byte. */
  function OrLowByte(value: nat, b: byte): nat
    requires value % 256 == 0
  {
    value + b
  }

  lemma SmallMod(x: nat, m: nat)
    requires x < m
    ensures x % m == x
  {
  }

  /** A cast to an unsigned type of n bytes. */
  function Truncated(v: int, n: nat): (r: nat)
    ensures r < Pow256(n)
    ensures 0 <= v < Pow256(n) ==> r == v
  {
    assert 0 <= v < Pow256(n) ==> v % Pow256(n) == v by {
      if 0 <= v < Pow256(n) {
        SmallMod(v, Pow256(n));
      }
    }
    v % Pow256(n)
  }

  /** A left shift by one byte in a type of `width` bytes. */
  function ShiftLeft(value: nat, width: nat): nat {
    Truncated(value * 256, width)
  }

  lemma {:induction false} Pow256Monotone(m: nat, n: nat)
    requires m <= n
    ensures Pow256(m) <= Pow256(n)
  {
    if m < n {
      Pow256Monotone(m, n - 1);
    }
  }

  /** A value of n - 1 bytes can be shifted in a type of n bytes or more. */
  lemma RoomToShift(value: nat, n: nat, width: nat)
    requires 1 <= n <= width && value < Pow256(n - 1)
    ensures ShiftLeft(value, width) == 256 * value && 256 * value % 256 == 0
  {
    Pow256Monotone(n, width);
    SmallMod(value * 256, Pow256(width));
  }

  /** Lowest byte first; the value is shifted on the way, and handed back as the last level left it. */
  method LittlePut(value: nat, n: nat, buffer: array<byte>, at: nat) returns (rest: nat)
    requires 1 <= n && at + n <= buffer.Length
    modifies buffer
    ensures buffer[..] == Splice(old(buffer[..]), at, LittleBytes(value, n))
    ensures rest == Shifted(value, n - 1)
    decreases n
  {
    buffer[at] := value % 256;
    if n == 1 {
      rest := value;
    } else {
      rest := LittlePut(value / 256, n - 1, buffer, at + 1);
      ShiftedFirst(value, n - 2);
    }
  }

  method LittleGet(value: nat, n: nat, width: nat, buffer: array<byte>, at: nat) returns (r: nat)
    requires 1 <= n <= width && at + n <= buffer.Length && value == 0
    ensures r == LittleValue(buffer[at..at + n])
    decreases n
  {
    if n == 1 {
      r := OrLowByte(value, buffer[at]);
      assert buffer[at..at + 1][1..] == [];
    } else {
      r := LittleGet(value, n - 1, width, buffer, at + 1);
      LittleValueFits(buffer[at + 1..at + n]);
      RoomToShift(r, n, width);
      r := ShiftLeft(r, width);
      r := OrLowByte(r, buffer[at]);
      LowByteFirst(buffer[..], at, n);
      assert buffer[..][at..at + n] == buffer[at..at + n];
      assert buffer[..][at + 1..at + n] == buffer[at + 1..at + n];
    }
  }

  lemma LowByteFirst(s: seq<byte>, at: nat, n: nat)
    requires n > 0 && at + n <= |s|
    ensures LittleValue(s[at..at + n]) == 256 * LittleValue(s[at + 1..at + n]) + s[at]
  {
    assert s[at..at + n][1..] == s[at + 1..at + n];
  }

  /** Highest byte first: the levels below shift the value before the outer byte is stored. */
  method BigPut(value: nat, n: nat, buffer: array<byte>, at: nat) returns (rest: nat)
    requires 1 <= n && at + n <= buffer.Length
    modifies buffer
    ensures buffer[..] == Splice(old(buffer[..]), at, BigBytes(value, n))
    ensures rest == Shifted(value, n - 1)
    decreases n
  {
    if n == 1 {
      buffer[at] := value % 256;
      rest := value;
      assert BigBytes(value, 1) == [value % 256];
    } else {
      rest := BigPut(value, n - 1, buffer, at + 1);
      rest := rest / 256;
      buffer[at] := rest % 256;
      BigBytesFirst(value, n);
    }
  }

  method BigGet(value: nat, n: nat, width: nat, buffer: array<byte>, at: nat, ghost a: nat) returns (r: nat)
    requires 1 <= n <= width && at + n <= buffer.Length && value == a * 256
    requires BigValueFrom(a, buffer[at..at + n]) < Pow256(width)
    ensures r == BigValueFrom(a, buffer[at..at + n])
    decreases n
  {
    assert buffer[at..at + n][1..] == buffer[at + 1..at + n];
    r := OrLowByte(value, buffer[at]);
    if n > 1 {
      BigValueGrows(a * 256 + buffer[at], buffer[at + 1..at + n]);
      r := ShiftLeft(r, width);
      r := BigGet(r, n - 1, width, buffer, at + 1, a * 256 + buffer[at]);
    }
  }

  /** Reading one more byte at least multiplies by 256. */
  lemma {:induction false} BigValueGrows(a: nat, bs: seq<byte>)
    ensures bs != [] ==> BigValueFrom(a, bs) >= a * 256
    ensures BigValueFrom(a, bs) >= a
    decreases |bs|
  {
    if bs != [] {
      BigValueGrows(a * 256 + bs[0], bs[1..]);
    }
  }
}
