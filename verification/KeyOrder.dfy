/** Byte strings and the order on keys (core/utils.cpp, core/node.h). */
module KeyOrder {

  /** An unsigned 8-bit value. */
  type byte = b: nat | b < 256

  type Bytes = seq<byte>

  datatype Option<T> = None | Some(value: T)

  /** A key with its value, as a node stores it. */
  datatype Item = Item(key: Bytes, value: Bytes)

  /** The lexicographic order: the first difference decides, and a proper prefix is smaller. */
  predicate Less(a: Bytes, b: Bytes) {
    && b != []
    && (a == [] || a[0] < b[0] || (a[0] == b[0] && Less(a[1..], b[1..])))
  }

  lemma {:induction false} LessCommonPrefix(p: Bytes, a: Bytes, b: Bytes)
    ensures Less(p + a, p + b) == Less(a, b)
  {
    if p == [] {
      assert p + a == a && p + b == b;
    } else {
      assert (p + a)[1..] == p[1..] + a && (p + b)[1..] == p[1..] + b;
      LessCommonPrefix(p[1..], a, b);
    }
  }

  lemma {:induction false} LessTransitive(a: Bytes, b: Bytes, c: Bytes)
    requires Less(a, b) && Less(b, c)
    ensures Less(a, c)
  {
    if a != [] && a[0] == b[0] == c[0] {
      LessTransitive(a[1..], b[1..], c[1..]);
    }
  }

  /** Exactly one of "smaller", "equal" and "greater" holds. */
  lemma {:induction false} LessTrichotomy(a: Bytes, b: Bytes)
    ensures Less(a, b) || a == b || Less(b, a)
    ensures !(Less(a, b) && a == b) && !(Less(b, a) && a == b) && !(Less(a, b) && Less(b, a))
  {
    if a != [] && b != [] && a[0] == b[0] {
      LessTrichotomy(a[1..], b[1..]);
      assert a == [a[0]] + a[1..] && b == [b[0]] + b[1..];
    }
  }

  /** Without recursion: after a common prefix the smaller key ends, or it goes on with the smaller byte. */
  lemma LessIs(a: Bytes, b: Bytes)
    ensures Less(a, b) <==>
            exists i: nat :: i <= |a| && i < |b| && a[..i] == b[..i] && (i == |a| || a[i] < b[i])
  {
    if Less(a, b) {
      var i := FirstDifference(a, b);
      assert a[..i] == b[..i];
    }
    forall i: nat | i <= |a| && i < |b| && a[..i] == b[..i] && (i == |a| || a[i] < b[i])
      ensures Less(a, b)
    {
      Decide(a, b, i);
    }
  }

  lemma {:induction false} FirstDifference(a: Bytes, b: Bytes) returns (i: nat)
    requires Less(a, b)
    ensures i <= |a| && i < |b| && a[..i] == b[..i] && (i == |a| || a[i] < b[i])
  {
    if a == [] || a[0] < b[0] {
      i := 0;
    } else {
      i := FirstDifference(a[1..], b[1..]);
      assert a[..i + 1] == [a[0]] + a[1..][..i] && b[..i + 1] == [b[0]] + b[1..][..i];
      i := i + 1;
    }
  }

  /**
   * The three-way comparison every search rests on: it decides the lexicographic order. The first difference decides,
   * and a proper prefix is smaller.
   */
  method BytesCmp(k1: Bytes, k2: Bytes) returns (r: int)
    ensures r == -1 <==>
            exists i: nat :: i <= |k1| && i < |k2| && k1[..i] == k2[..i] && (i == |k1| || k1[i] < k2[i])
    ensures r == 1 <==>
            exists i: nat :: i <= |k2| && i < |k1| && k1[..i] == k2[..i] && (i == |k2| || k2[i] < k1[i])
    ensures r == 0 <==> k1 == k2
    ensures r in {-1, 0, 1} && (r == -1 <==> Less(k1, k2)) && (r == 1 <==> Less(k2, k1))
  {
    LessTrichotomy(k1, k2);
    LessIs(k1, k2);
    LessIs(k2, k1);
    var minSize := if |k1| < |k2| then |k1| else |k2|;
    for i := 0 to minSize
      invariant k1[..i] == k2[..i]
    {
      if k1[i] != k2[i] {
        Decide(k1, k2, i);
        return if k1[i] < k2[i] then -1 else 1;
      }
    }
    Decide(k1, k2, minSize);
    return if |k1| < |k2| then -1 else if |k1| > |k2| then 1 else 0;
  }

  /** After a common prefix of length i, the rest decides, in both directions. */
  lemma Decide(k1: Bytes, k2: Bytes, i: nat)
    requires i <= |k1| && i <= |k2| && k1[..i] == k2[..i]
    ensures Less(k1, k2) == Less(k1[i..], k2[i..])
    ensures Less(k2, k1) == Less(k2[i..], k1[i..])
    ensures k1 == k2 <==> k1[i..] == k2[i..]
  {
    var p := k1[..i];
    assert k1 == p + k1[i..] && k2 == p + k2[i..];
    LessCommonPrefix(p, k1[i..], k2[i..]);
    LessCommonPrefix(p, k2[i..], k1[i..]);
  }

  /** Strictly increasing keys. */
  predicate Sorted(s: seq<Item>) {
    forall i, j :: 0 <= i < j < |s| ==> Less(s[i].key, s[j].key)
  }

  function InsertAt<T>(s: seq<T>, i: nat, x: T): (r: seq<T>)
    requires i <= |s|
  {
    s[..i] + [x] + s[i..]
  }

  function RemoveAt<T>(s: seq<T>, i: nat): (r: seq<T>)
    requires i < |s|
  {
    s[..i] + s[i + 1..]
  }
}
