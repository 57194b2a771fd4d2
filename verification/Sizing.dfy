/** How full a node is, and where it is split (core/node.cpp, core/data_access_layer.cpp). */
module Sizing {
  import opened KeyOrder

  /** Fill fractions are exact reals; the program holds them as floats. */
  datatype Options = Options(pageSize: nat, minFill: real, maxFill: real)

  const HEADER_SIZE := 3
  const PAGE_NUM_SIZE := 8

  /** The two thresholds a node's size is compared with. */
  datatype Limits = Limits(min: real, max: real)

  function Thresholds(o: Options): Limits {
    Limits(o.minFill * o.pageSize as real, o.maxFill * o.pageSize as real)
  }

  /** Key and value bytes of all items. */
  function Payload(items: seq<Item>): nat {
    if items == [] then 0 else Payload(items[..|items| - 1]) + |items[|items| - 1].key| + |items[|items| - 1].value|
  }

  function NodeSize(items: seq<Item>): nat {
    HEADER_SIZE + PAGE_NUM_SIZE + Payload(items)
  }

  predicate Under(o: Limits, items: seq<Item>) { NodeSize(items) as real < o.min }

  predicate Over(o: Limits, items: seq<Item>) { NodeSize(items) as real > o.max }

  /** The measure of a prefix that the split search uses: every item counts a page number too. */
  function PrefixSize(items: seq<Item>): nat {
    HEADER_SIZE + Payload(items) + PAGE_NUM_SIZE * |items|
  }

  /** The least proper non-empty prefix above the minimum, or -1. */
  function SplitIndex(o: Limits, items: seq<Item>): (s: int)
    ensures s == -1 || 0 < s < |items|
  {
    SplitFrom(o, items, 0)
  }

  function SplitFrom(o: Limits, items: seq<Item>, i: nat): (s: int)
    ensures s == -1 || i < s < |items|
    decreases |items| - i
  {
    if i >= |items| then -1
    else if PrefixSize(items[..i + 1]) as real > o.min && i < |items| - 1 then i + 1
    else SplitFrom(o, items, i + 1)
  }

  predicate CanSpare(o: Limits, items: seq<Item>) { SplitIndex(o, items) != -1 }

  // ---------------------------------------------------------------- sizes of parts

  lemma {:induction false} PayloadJoin(a: seq<Item>, b: seq<Item>)
    ensures Payload(a + b) == Payload(a) + Payload(b)
    decreases |b|
  {
    if b == [] {
      assert a + b == a;
    } else {
      assert (a + b)[..|a + b| - 1] == a + b[..|b| - 1];
      PayloadJoin(a, b[..|b| - 1]);
    }
  }

  lemma PayloadOfPart(items: seq<Item>, i: nat, j: nat)
    requires i <= j <= |items|
    ensures Payload(items[i..j]) <= Payload(items)
  {
    ThreeParts(items, i, j);
    PayloadJoin(items[..i], items[i..j] + items[j..]);
    PayloadJoin(items[i..j], items[j..]);
  }

  lemma ThreeParts(items: seq<Item>, i: nat, j: nat)
    requires i <= j <= |items|
    ensures items == items[..i] + (items[i..j] + items[j..])
  {
  }

  lemma PayloadOfOne(x: Item)
    ensures Payload([x]) == |x.key| + |x.value|
  {
    assert [x][..0] == [];
  }

  lemma InsertedSize(items: seq<Item>, k: nat, x: Item)
    requires k <= |items|
    ensures NodeSize(InsertAt(items, k, x)) == NodeSize(items) + |x.key| + |x.value|
  {
    PayloadJoin(items[..k] + [x], items[k..]);
    PayloadJoin(items[..k], [x]);
    PayloadJoin(items[..k], items[k..]);
    assert items[..k] + items[k..] == items;
    PayloadOfOne(x);
  }

  // ---------------------------------------------------------------- sizes as numbers of bytes

  /** The bytes of all keys and values, one after the other. */
  function AllBytes(items: seq<Item>): Bytes {
    if items == [] then [] else items[0].key + items[0].value + AllBytes(items[1..])
  }

  lemma {:induction false} AllBytesJoin(a: seq<Item>, b: seq<Item>)
    ensures AllBytes(a + b) == AllBytes(a) + AllBytes(b)
    decreases |a|
  {
    if a == [] {
      assert a + b == b;
    } else {
      assert (a + b)[1..] == a[1..] + b;
      AllBytesJoin(a[1..], b);
    }
  }

  /** What an item adds to the bytes, wherever it stands. */
  lemma AllBytesAround(a: seq<Item>, x: Item, b: seq<Item>)
    ensures AllBytes([]) == [] && AllBytes(a + [x] + b) == AllBytes(a) + x.key + x.value + AllBytes(b)
  {
    AllBytesJoin(a + [x], b);
    AllBytesJoin(a, [x]);
    assert AllBytes([x]) == x.key + x.value + AllBytes([]);
    assert AllBytes(a) + (x.key + x.value) == AllBytes(a) + x.key + x.value;
  }

  lemma {:induction false} PayloadIsBytes(items: seq<Item>)
    ensures Payload(items) == |AllBytes(items)|
  {
    if items != [] {
      var n := |items| - 1;
      PayloadIsBytes(items[..n]);
      AllBytesAround(items[..n], items[n], []);
      assert items[..n] + [items[n]] + [] == items;
    }
  }

  /**
   * Whether a node has too much or too little: one number, in which every key and value byte counts once, and eleven
   * bytes more. It does not depend on the thresholds.
   */
  lemma PopulationIs(items: seq<Item>)
    ensures forall o: Limits :: Under(o, items) <==> (11 + |AllBytes(items)|) as real < o.min
    ensures forall o: Limits :: Over(o, items) <==> (11 + |AllBytes(items)|) as real > o.max
  {
    PayloadIsBytes(items);
  }

  // ---------------------------------------------------------------- what the split index is

  lemma {:induction false} PrefixGrows(items: seq<Item>, i: nat, j: nat)
    requires i <= j <= |items|
    ensures PrefixSize(items[..i]) + PAGE_NUM_SIZE * (j - i) <= PrefixSize(items[..j])
    decreases j - i
  {
    if i < j {
      assert items[..j][..j - 1] == items[..j - 1];
      PrefixGrows(items, i, j - 1);
    }
  }

  lemma {:induction false} SplitFromIsLeast(o: Limits, items: seq<Item>, i: nat)
    ensures var s := SplitFrom(o, items, i);
            && (s != -1 ==> PrefixSize(items[..s]) as real > o.min)
            && (forall j :: i < j < |items| && (s == -1 || j < s) ==> PrefixSize(items[..j]) as real <= o.min)
    decreases |items| - i
  {
    if i < |items| && !(PrefixSize(items[..i + 1]) as real > o.min && i < |items| - 1) {
      SplitFromIsLeast(o, items, i + 1);
    }
  }

  /**
   * The split index is the least proper prefix above the minimum, and there is one exactly if all items but one are.
   */
  lemma SplitIndexIsLeast(o: Limits, items: seq<Item>)
    ensures var s := SplitIndex(o, items);
            && (s != -1 ==> PrefixSize(items[..s]) as real > o.min)
            && (forall j :: 0 < j < |items| && (s == -1 || j < s) ==> PrefixSize(items[..j]) as real <= o.min)
    ensures SplitIndex(o, items) != -1 <==> |items| >= 2 && PrefixSize(items[..|items| - 1]) as real > o.min
  {
    var s, n := SplitIndex(o, items), |items|;
    SplitFromIsLeast(o, items, 0);
    if s != -1 {
      PrefixGrows(items, s, n - 1);
    }
  }

  /**
   * The same in bytes: the split index is s exactly if the first s items, with eight bytes more for each and three for
   * all, are above the minimum, fewer items are not, and at least one item is left.
   */
  lemma SplitIndexIs(o: Limits, items: seq<Item>, s: nat)
    ensures SplitIndex(o, items) == s <==>
              && 0 < s < |items| && (3 + |AllBytes(items[..s])| + 8 * s) as real > o.min
              && forall j :: 0 < j < s ==> (3 + |AllBytes(items[..j])| + 8 * j) as real <= o.min
  {
    SplitIndexIsLeast(o, items);
    forall j | 0 <= j <= |items|
      ensures PrefixSize(items[..j]) == 3 + |AllBytes(items[..j])| + 8 * j
    {
      PayloadIsBytes(items[..j]);
    }
    var t := SplitIndex(o, items);
    if 0 < s < |items| && PrefixSize(items[..s]) as real > o.min
       && (forall j :: 0 < j < s ==> PrefixSize(items[..j]) as real <= o.min) {
      assert t != -1 && t <= s && s <= t;
    }
  }

  /** What the split index is in bytes, whatever it is. */
  lemma SplitIndexInBytes(o: Limits, items: seq<Item>)
    ensures var s := SplitIndex(o, items);
            && (s != -1 ==>
                  && 0 < s < |items| && (3 + |AllBytes(items[..s])| + 8 * s) as real > o.min
                  && forall j :: 0 < j < s ==> (3 + |AllBytes(items[..j])| + 8 * j) as real <= o.min)
            && (s == -1 <==>
                  |items| < 2 || (3 + |AllBytes(items[..|items| - 1])| + 8 * (|items| - 1)) as real <= o.min)
  {
    var s := SplitIndex(o, items);
    CanSpareIs(o, items);
    if s != -1 {
      SplitIndexIs(o, items, s);
    }
  }

  /**
   * A node can spare an item exactly if all items but the last, with eight bytes more for each and three for all, are
   * above the minimum.
   */
  lemma CanSpareIs(o: Limits, items: seq<Item>)
    ensures CanSpare(o, items) <==>
              |items| >= 2 && (3 + |AllBytes(items[..|items| - 1])| + 8 * (|items| - 1)) as real > o.min
  {
    SplitIndexIsLeast(o, items);
    if |items| >= 2 {
      PayloadIsBytes(items[..|items| - 1]);
    }
  }

  /** The right half of a split is empty exactly if it takes all items but one to get above the minimum. */
  lemma RightHalfEmptyIff(o: Limits, items: seq<Item>)
    requires SplitIndex(o, items) != -1
    ensures SplitIndex(o, items) + 1 == |items| <==>
            |items| == 2 || PrefixSize(items[..|items| - 2]) as real <= o.min
  {
    var s, n := SplitIndex(o, items), |items|;
    SplitFromIsLeast(o, items, 0);
    if n > 2 && s < n - 1 {
      PrefixGrows(items, s, n - 2);
    }
  }

  predicate ItemsUpTo(items: seq<Item>, most: nat) {
    forall i :: 0 <= i < |items| ==> |items[i].key| + |items[i].value| <= most
  }

  /** Leaving out the last items makes a prefix smaller by what they can hold at most. */
  lemma {:induction false} PrefixOf(items: seq<Item>, most: nat, i: nat)
    requires i <= |items| && ItemsUpTo(items, most)
    ensures NodeSize(items) - PAGE_NUM_SIZE + PAGE_NUM_SIZE * i - most * (|items| - i) <= PrefixSize(items[..i])
    decreases |items| - i
  {
    if i == |items| {
      assert items[..i] == items;
    } else {
      PrefixOf(items, most, i + 1);
      assert items[..i + 1][..i] == items[..i];
      assert most * (|items| - i) == most * (|items| - i - 1) + most;
    }
  }

  /** Small enough items make every over-populated node of two items or more splittable. */
  lemma OverCanBeSplit(o: Limits, items: seq<Item>, most: nat)
    requires Over(o, items) && |items| >= 2 && ItemsUpTo(items, most)
    requires most as real <= o.max - o.min + (PAGE_NUM_SIZE * (|items| - 2)) as real
    ensures SplitIndex(o, items) != -1
  {
    var n := |items|;
    PrefixOf(items, most, n - 1);
    assert most * (n - (n - 1)) == most;
    SplitIndexIsLeast(o, items);
  }

  lemma OneItemIsNotOver(o: Limits, items: seq<Item>, most: nat)
    requires ItemsUpTo(items, most) && (HEADER_SIZE + PAGE_NUM_SIZE + most) as real <= o.max
    ensures Over(o, items) ==> |items| >= 2
  {
    if |items| == 1 {
      assert items[..0] == [] && Payload(items[..0]) == 0;
    }
  }

  /** Still smaller ones leave both halves with items. */
  lemma HalvesNotEmpty(o: Limits, items: seq<Item>, most: nat)
    requires Over(o, items) && |items| >= 3 && ItemsUpTo(items, most)
    requires (2 * most) as real <= o.max - o.min + (PAGE_NUM_SIZE * (|items| - 3)) as real
    ensures 0 < SplitIndex(o, items) < |items| - 1
  {
    var n := |items|;
    PrefixOf(items, most, n - 2);
    assert most * (n - (n - 2)) == 2 * most;
    PrefixGrows(items, n - 2, n - 1);
    SplitIndexIsLeast(o, items);
    RightHalfEmptyIff(o, items);
  }

  /**
   * The split counts a page number for every item and a node's size counts only one, so the left half can end up
   * below the minimum, but by less than the page numbers that were counted too often.
   */
  lemma LeftHalfSize(o: Limits, items: seq<Item>)
    requires SplitIndex(o, items) != -1
    ensures var s := SplitIndex(o, items);
            && (NodeSize(items[..s]) + PAGE_NUM_SIZE * (s - 1)) as real > o.min
            && (s == 1 ==> !Under(o, items[..s]))
  {
    SplitIndexIsLeast(o, items);
  }

  lemma {:induction false} PayloadUpTo(items: seq<Item>, most: nat)
    requires ItemsUpTo(items, most)
    ensures Payload(items) <= most * |items|
  {
    if items != [] {
      PayloadUpTo(items[..|items| - 1], most);
      assert most * |items| == most * (|items| - 1) + most;
    }
  }

  /**
   * Items of at most so many bytes are small for the thresholds: they make up for the distance of the thresholds, or
   * an over-populated node has so many of them that the page numbers counted for each do.
   */
  predicate SmallFor(o: Limits, most: nat) {
    && (HEADER_SIZE + PAGE_NUM_SIZE + most) as real <= o.max
    && SmallBeside(most as real, o.max - o.min, o.max - 11.0)
  }

  /** Items of m bytes make up for `gap`, or `room` takes so many of them that eight bytes for each do. */
  predicate SmallBeside(m: real, gap: real, room: real) {
    m <= gap || m * (m - gap + 16.0) <= 8.0 * room
  }

  /** With small items every over-populated node can be split. */
  lemma SmallItemsCanBeSplit(o: Limits, items: seq<Item>, most: nat)
    requires Over(o, items) && ItemsUpTo(items, most) && SmallFor(o, most)
    ensures |items| >= 2 && SplitIndex(o, items) != -1
  {
    OneItemIsNotOver(o, items, most);
    ManyItems(o, items, most);
    OverCanBeSplit(o, items, most);
  }

  lemma ManyItems(o: Limits, items: seq<Item>, most: nat)
    requires Over(o, items) && ItemsUpTo(items, most) && |items| >= 2
    requires SmallBeside(most as real, o.max - o.min, o.max - 11.0)
    requires (HEADER_SIZE + PAGE_NUM_SIZE + most) as real <= o.max
    ensures most as real <= o.max - o.min + 8.0 * (|items| as real - 2.0)
  {
    var n := |items|;
    PayloadUpTo(items, most);
    RealProduct(most, n, Payload(items));
    ManyEnough(most as real, n as real, o.max - o.min, o.max - 11.0);
  }

  lemma RealProduct(m: nat, n: nat, payload: nat)
    requires payload <= m * n
    ensures payload as real <= m as real * n as real && (payload > 0 ==> m > 0)
  {
    assert (m * n) as real == m as real * n as real;
  }

  /** n items of at most m bytes make up `room`, so there are so many that eight bytes each make up the rest. */
  lemma ManyEnough(m: real, n: real, gap: real, room: real)
    requires m > 0.0 && n >= 2.0 && m * n > room && SmallBeside(m, gap, room)
    ensures m <= gap + 8.0 * (n - 2.0)
  {
    if m > gap + 8.0 * (n - 2.0) {
      assert 8.0 * n * m == 8.0 * (m * n);
      MoreTimes(m - gap + 16.0, 8.0 * n, m);
    }
  }

  predicate ItemsFrom(items: seq<Item>, least: nat) {
    forall i :: 0 <= i < |items| ==> |items[i].key| + |items[i].value| >= least
  }

  lemma {:induction false} PayloadFrom(items: seq<Item>, least: nat)
    requires ItemsFrom(items, least)
    ensures least * |items| <= Payload(items)
  {
    if items != [] {
      PayloadFrom(items[..|items| - 1], least);
      assert least * |items| == least * (|items| - 1) + least;
    }
  }

  /**
   * The room that the slots of a node need, when its items have at least so many bytes and it is not over-populated.
   */
  lemma SlotsHaveRoom(o: Limits, items: seq<Item>, least: nat, size: nat)
    requires least > 0 && ItemsFrom(items, least) && !Over(o, items)
    requires o.max * least as real + 12.0 * (o.max - 11.0) <= (size - 1) as real * least as real
    ensures NodeSize(items) + 12 * |items| <= size - 1
  {
    var n, z := |items|, NodeSize(items);
    PayloadFrom(items, least);
    assert (least * n) as real == least as real * n as real;
    Scaled(z as real, n as real, least as real, o.max, (size - 1) as real);
  }

  lemma Scaled(z: real, n: real, m: real, max: real, room: real)
    requires m > 0.0 && m * n <= z - 11.0 && z <= max
    requires max * m + 12.0 * (max - 11.0) <= room * m
    ensures z + 12.0 * n <= room
  {
    TimesMonotone(z, max, m);
    TimesSum(z, n, m);
    if z + 12.0 * n > room {
      MoreTimes(z + 12.0 * n, room, m);
    }
  }

  lemma TimesMonotone(a: real, b: real, m: real)
    requires a <= b && m > 0.0
    ensures a * m <= b * m
  {
  }

  lemma TimesSum(z: real, n: real, m: real)
    ensures (z + 12.0 * n) * m == z * m + 12.0 * (m * n)
  {
  }

  lemma MoreTimes(a: real, b: real, m: real)
    requires a > b && m > 0.0
    ensures a * m > b * m
  {
  }
}
