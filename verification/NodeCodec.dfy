/**
 * Nodes as slotted pages (core/node.h): offsets and child pointers grow from the left of a page, cells of a
 * length-prefixed key and a length-prefixed value from the right.
 */
module NodeCodec {
  import opened KeyOrder
  import opened Trees
  import opened Sizing
  import opened Endian
  import opened ByteNumbers
  import opened Streams

  const OFFSET_SIZE := 2

  function SlotSize(leaf: bool): nat {
    if leaf then OFFSET_SIZE else PAGE_NUM_SIZE + OFFSET_SIZE
  }

  /** The left cursor after i items. */
  function Left(leaf: bool, i: nat): nat {
    HEADER_SIZE + SlotSize(leaf) * i
  }

  function CellSize(x: Item): nat {
    |x.key| + |x.value| + 2
  }

  /** The right cursor after i items; the last byte of a page is never used. */
  function Right(size: nat, items: seq<Item>, i: nat): int
    requires i <= |items|
  {
    if i == 0 then size - 1 else Right(size, items, i - 1) - CellSize(items[i - 1])
  }

  /** What the fixed widths of the format can represent. */
  predicate Representable(b: Body) {
    && |b.items| < Pow256(2)
    && (forall i {:trigger ShortItem(b.items[i])} :: 0 <= i < |b.items| ==> ShortItem(b.items[i]))
    && (b.children == [] || |b.children| == |b.items| + 1)
    && (forall i {:trigger IsPageNum(b.children[i])} :: 0 <= i < |b.children| ==> IsPageNum(b.children[i]))
  }

  /** Lengths have one byte. */
  predicate ShortItem(x: Item) {
    |x.key| < 256 && |x.value| < 256
  }

  /** Page numbers have eight bytes. */
  predicate IsPageNum(p: nat) {
    p < Pow256(8)
  }

  /** The left cursor with the last child pointer. */
  function LeftEnd(b: Body): nat {
    Left(b.children == [], |b.items|) + if b.children == [] then 0 else PAGE_NUM_SIZE
  }

  /** The cursors do not cross. */
  predicate CursorsApart(size: nat, b: Body) {
    LeftEnd(b) <= Right(size, b.items, |b.items|)
  }

  /** The node can be written to a page of this size and read back; offsets have two bytes. */
  predicate Fits(size: nat, b: Body) {
    Representable(b) && size <= Pow256(2) && CursorsApart(size, b)
  }

  /** All bytes of the node lie inside a buffer of this size, even if cells overwrite offsets. */
  predicate InBuffer(size: nat, b: Body) {
    Representable(b) && size <= Pow256(2) && LeftEnd(b) <= size && Right(size, b.items, |b.items|) >= 0
  }

  lemma FitsInBuffer(size: nat, b: Body)
    requires Fits(size, b)
    ensures InBuffer(size, b)
  {
    RightIsPayload(size, b.items, |b.items|);
  }

  lemma {:induction false} RightIsPayload(size: nat, items: seq<Item>, i: nat)
    requires i <= |items|
    ensures Right(size, items, i) == size - 1 - Payload(items[..i]) - 2 * i
  {
    if i > 0 {
      RightIsPayload(size, items, i - 1);
      assert items[..i][..i - 1] == items[..i - 1];
    }
  }

  /** The cursors stay apart exactly when the node's size leaves room for the slots. */
  lemma CursorsApartIff(size: nat, b: Body)
    ensures b.children != [] ==> (CursorsApart(size, b) <==> NodeSize(b.items) + 12 * |b.items| <= size - 1)
    ensures b.children == [] ==> (CursorsApart(size, b) <==> NodeSize(b.items) + 4 * |b.items| <= size + 7)
  {
    RightIsPayload(size, b.items, |b.items|);
    assert b.items[..|b.items|] == b.items;
  }

  /**
   * Page fit: with items of at least `least` bytes each, every node within the maximum fits its page, if the maximum
   * and the slots of as many items as it allows fit together.
   */
  lemma WithinMaximumFits(o: Limits, size: nat, b: Body, least: nat)
    requires Representable(b) && size <= Pow256(2) && !Over(o, b.items)
    requires least > 0 && ItemsFrom(b.items, least)
    requires o.max * least as real + 12.0 * (o.max - 11.0) <= (size - 1) as real * least as real
    ensures Fits(size, b)
  {
    SlotsHaveRoom(o, b.items, least, size);
    CursorsApartIff(size, b);
  }

  // ---------------------------------------------------------------- the layout of a page

  predicate HoldsAt(page: seq<byte>, at: int, bs: seq<byte>) {
    0 <= at && at + |bs| <= |page| && page[at..at + |bs|] == bs
  }

  function Cell(x: Item): (bs: seq<byte>)
    requires ShortItem(x)
    ensures |bs| == CellSize(x)
  {
    [|x.key|] + x.key + [|x.value|] + x.value
  }

  function Header(b: Body): (bs: seq<byte>)
    ensures |bs| == HEADER_SIZE
  {
    LittleBytes(if b.children == [] then 1 else 0, 1) + LittleBytes(|b.items|, 2)
  }

  function OffsetAt(b: Body, i: nat): nat {
    Left(b.children == [], i) + if b.children == [] then 0 else PAGE_NUM_SIZE
  }

  /** Item i: its child pointer, the offset of its cell, and the cell. */
  predicate EntryAt(page: seq<byte>, b: Body, i: nat)
    requires Representable(b) && i < |b.items|
  {
    && (b.children != [] ==> HoldsAt(page, Left(false, i), LittleBytes(b.children[i], PAGE_NUM_SIZE)))
    && Right(|page|, b.items, i + 1) >= 0
    && HoldsAt(page, OffsetAt(b, i), LittleBytes(Right(|page|, b.items, i + 1), OFFSET_SIZE))
    && HoldsAt(page, Right(|page|, b.items, i + 1), Cell(b.items[i]))
  }

  predicate LayoutUpTo(page: seq<byte>, b: Body, n: nat)
    requires Representable(b) && n <= |b.items|
  {
    && HoldsAt(page, 0, Header(b))
    && forall i :: 0 <= i < n ==> EntryAt(page, b, i)
  }

  /** The page holds the node. */
  predicate Layout(page: seq<byte>, b: Body) {
    && Fits(|page|, b)
    && LayoutUpTo(page, b, |b.items|)
    && (b.children != [] ==>
          HoldsAt(page, Left(false, |b.items|), LittleBytes(b.children[|b.items|], PAGE_NUM_SIZE)))
  }

  // ---------------------------------------------------------------- the layout in plain numbers

  /** Exactly when a node fits: every number within its width, and the two cursors apart. */
  lemma FitsIff(size: nat, b: Body)
    ensures Fits(size, b) <==>
              && size <= 65536 && |b.items| < 65536 && (b.children == [] || |b.children| == |b.items| + 1)
              && (forall i :: 0 <= i < |b.items| ==> |b.items[i].key| < 256 && |b.items[i].value| < 256)
              && (forall i :: 0 <= i < |b.children| ==> b.children[i] < 0x1_0000_0000_0000_0000)
              && if b.children == [] then |AllBytes(b.items)| + 4 * |b.items| + 4 <= size
                 else |AllBytes(b.items)| + 12 * |b.items| + 12 <= size
  {
    PowersOf256();
    CursorsApartIff(size, b);
    PayloadIsBytes(b.items);
    forall i | 0 <= i < |b.items|
      ensures ShortItem(b.items[i]) <==> |b.items[i].key| < 256 && |b.items[i].value| < 256
    {
    }
    forall i | 0 <= i < |b.children|
      ensures IsPageNum(b.children[i]) <==> b.children[i] < 0x1_0000_0000_0000_0000
    {
    }
  }

  /** Exactly when all bytes of a node lie inside a buffer: slots from the left and cells from the right, each alone. */
  lemma InBufferIff(size: nat, b: Body)
    requires Representable(b) && size <= 65536
    ensures InBuffer(size, b) <==>
              && (if b.children == [] then 3 + 2 * |b.items| else 11 + 10 * |b.items|) <= size
              && |AllBytes(b.items)| + 2 * |b.items| < size
  {
    PowersOf256();
    RightIsPayload(size, b.items, |b.items|);
    assert b.items[..|b.items|] == b.items;
    PayloadIsBytes(b.items);
  }

  /** The key's length, the key, the value's length, the value. */
  predicate CellIs(page: seq<byte>, at: int, x: Item) {
    var k, v := |x.key|, |x.value|;
    && 0 <= at && at + k + v + 2 <= |page|
    && page[at] == k && page[at + 1..at + 1 + k] == x.key
    && page[at + 1 + k] == v && page[at + 2 + k..at + 2 + k + v] == x.value
  }

  /** Where the cell of item i starts: cells grow from the last byte but one to the left. */
  function CellStart(size: nat, items: seq<Item>, i: nat): int
    requires i < |items|
  {
    size - 1 - |AllBytes(items[..i + 1])| - 2 * (i + 1)
  }

  /** Slots of two bytes in a leaf, of ten in an inner node, whose first eight bytes are the child pointer. */
  predicate EntryIs(page: seq<byte>, b: Body, i: nat)
    requires i < |b.items| && (b.children == [] || i < |b.children|)
  {
    var cell := CellStart(|page|, b.items, i);
    && 0 <= cell && CellIs(page, cell, b.items[i])
    && if b.children == [] then NumberIs(page, 3 + 2 * i, 2, cell)
       else NumberIs(page, 3 + 10 * i, 8, b.children[i]) && NumberIs(page, 11 + 10 * i, 2, cell)
  }

  /** Every byte that the format fixes, by its place in the page. */
  lemma LayoutIs(page: seq<byte>, b: Body)
    requires Fits(|page|, b)
    ensures Layout(page, b) <==>
              && NumberIs(page, 0, 1, if b.children == [] then 1 else 0) && NumberIs(page, 1, 2, |b.items|)
              && (forall i :: 0 <= i < |b.items| ==> EntryIs(page, b, i))
              && (b.children != [] ==> NumberIs(page, 3 + 10 * |b.items|, 8, b.children[|b.items|]))
  {
    FitsIff(|page|, b);
    HeaderIs(page, b);
    forall i | 0 <= i < |b.items|
      ensures EntryAt(page, b, i) <==> EntryIs(page, b, i)
    {
      EntryIsLaidOut(page, b, i);
    }
    if b.children != [] {
      NumberIsBytes(page, 3 + 10 * |b.items|, 8, b.children[|b.items|]);
    }
  }

  lemma HeaderIs(page: seq<byte>, b: Body)
    requires |page| >= 3
    ensures HoldsAt(page, 0, Header(b)) <==>
              NumberIs(page, 0, 1, if b.children == [] then 1 else 0) && NumberIs(page, 1, 2, |b.items|)
  {
    var leaf, count := LittleBytes(if b.children == [] then 1 else 0, 1), LittleBytes(|b.items|, 2);
    NumberIsBytes(page, 0, 1, if b.children == [] then 1 else 0);
    NumberIsBytes(page, 1, 2, |b.items|);
    assert Header(b) == leaf + count;
    assert page[0..3] == page[0..1] + page[1..3];
  }

  lemma EntryIsLaidOut(page: seq<byte>, b: Body, i: nat)
    requires Fits(|page|, b) && i < |b.items|
    ensures EntryAt(page, b, i) <==> EntryIs(page, b, i)
  {
    CellStartIs(|page|, b, i);
    CellIsBytes(page, CellStart(|page|, b.items, i), b.items[i]);
    SlotIs(page, b, i, CellStart(|page|, b.items, i));
  }

  lemma CellStartIs(size: nat, b: Body, i: nat)
    requires Fits(size, b) && i < |b.items|
    ensures CellStart(size, b.items, i) == Right(size, b.items, i + 1) >= OffsetAt(b, i) + OFFSET_SIZE
    ensures CellStart(size, b.items, i) + CellSize(b.items[i]) <= size
  {
    EntryHasRoom(size, b, i);
    RightIsPayload(size, b.items, i + 1);
    PayloadIsBytes(b.items[..i + 1]);
  }

  lemma SlotIs(page: seq<byte>, b: Body, i: nat, cell: nat)
    requires Representable(b) && i < |b.items| && OffsetAt(b, i) + OFFSET_SIZE <= |page|
    ensures HoldsAt(page, OffsetAt(b, i), LittleBytes(cell, OFFSET_SIZE))
       <==> NumberIs(page, if b.children == [] then 3 + 2 * i else 11 + 10 * i, 2, cell)
    ensures b.children != [] ==>
              (HoldsAt(page, Left(false, i), LittleBytes(b.children[i], PAGE_NUM_SIZE))
               <==> NumberIs(page, 3 + 10 * i, 8, b.children[i]))
  {
    NumberIsBytes(page, OffsetAt(b, i), 2, cell);
    if b.children != [] {
      NumberIsBytes(page, Left(false, i), 8, b.children[i]);
    }
  }

  lemma CellIsBytes(page: seq<byte>, at: nat, x: Item)
    requires ShortItem(x) && at + CellSize(x) <= |page|
    ensures HoldsAt(page, at, Cell(x)) <==> CellIs(page, at, x)
  {
    var k, v := |x.key|, |x.value|;
    var bs := page[at..at + k + v + 2];
    FourParts(bs, k, x.key, v, x.value);
    PartOfPart(page, at, k + v + 2, 1, 1 + k);
    PartOfPart(page, at, k + v + 2, 2 + k, 2 + k + v);
    assert bs[2 + k..] == bs[2 + k..2 + k + v];
  }

  lemma PartOfPart(s: seq<byte>, at: nat, n: nat, i: nat, j: nat)
    requires at + n <= |s| && i <= j <= n
    ensures s[at..at + n][i..j] == s[at + i..at + j]
  {
    var a, b := s[at..at + n][i..j], s[at + i..at + j];
    assert |a| == |b|;
    forall k | 0 <= k < |a|
      ensures a[k] == b[k]
    {
      assert a[k] == s[at..at + n][i + k];
    }
  }

  lemma FourParts(s: seq<byte>, a: byte, x: seq<byte>, b: byte, y: seq<byte>)
    requires |s| == |x| + |y| + 2
    ensures s == [a] + x + [b] + y
       <==> s[0] == a && s[1..1 + |x|] == x && s[1 + |x|] == b && s[2 + |x|..] == y
  {
    var k, c := |x|, [a] + x + [b] + y;
    assert c[1..1 + k] == x && c[1 + k] == b && c[2 + k..] == y;
    if s[0] == a && s[1..1 + k] == x && s[1 + k] == b && s[2 + k..] == y {
      assert s == [s[0]] + s[1..1 + k] + [s[1 + k]] + s[2 + k..];
    }
  }

  // ---------------------------------------------------------------- splices

  lemma SpliceHolds(s: seq<byte>, at: nat, bs: seq<byte>)
    requires at + |bs| <= |s|
    ensures HoldsAt(Splice(s, at, bs), at, bs)
  {
  }

  /** What lies outside the spliced range stays. */
  lemma SpliceKeeps(s: seq<byte>, at: nat, bs: seq<byte>, where: int, kept: seq<byte>)
    requires at + |bs| <= |s| && HoldsAt(s, where, kept)
    requires where + |kept| <= at || at + |bs| <= where
    ensures HoldsAt(Splice(s, at, bs), where, kept)
  {
    var r := Splice(s, at, bs);
    forall i | 0 <= i < |kept|
      ensures r[where + i] == kept[i]
    {
      assert s[where + i] == s[where..where + |kept|][i];
    }
  }

  /** The right cursor only moves left, the left cursor only right. */
  lemma {:induction false} CursorsMove(size: nat, items: seq<Item>, i: nat, j: nat)
    requires i <= j <= |items|
    ensures Right(size, items, j) <= Right(size, items, i) - 2 * (j - i)
    ensures Right(size, items, i) <= size - 1
    decreases j
  {
    if i < j {
      CursorsMove(size, items, i, j - 1);
    } else if i > 0 {
      CursorsMove(size, items, i - 1, i - 1);
    }
  }

  /** A splice between the cursors leaves the header and all entries so far as they are. */
  lemma LayoutKept(page: seq<byte>, b: Body, n: nat, at: nat, bs: seq<byte>)
    requires Representable(b) && n <= |b.items| && LayoutUpTo(page, b, n)
    requires Left(b.children == [], n) <= at && at + |bs| <= Right(|page|, b.items, n)
    ensures at + |bs| <= |page| && LayoutUpTo(Splice(page, at, bs), b, n)
  {
    CursorsMove(|page|, b.items, 0, n);
    SpliceKeeps(page, at, bs, 0, Header(b));
    forall i | 0 <= i < n
      ensures EntryAt(Splice(page, at, bs), b, i)
    {
      EntryKept(page, b, n, i, at, bs);
    }
  }

  lemma SlotBefore(b: Body, i: nat, n: nat)
    requires i < n
    ensures OffsetAt(b, i) + OFFSET_SIZE <= Left(b.children == [], n)
  {
    SlotsGrow(b.children == [], i, i);
    SlotsGrow(b.children == [], i + 1, n);
  }

  lemma EntryKept(page: seq<byte>, b: Body, n: nat, i: nat, at: nat, bs: seq<byte>)
    requires Representable(b) && i < n <= |b.items| && EntryAt(page, b, i)
    requires Left(b.children == [], n) <= at && at + |bs| <= Right(|page|, b.items, n) <= |page|
    ensures EntryAt(Splice(page, at, bs), b, i)
  {
    BetweenCursors(|page|, b, n, i, at, |bs|);
    EntryApart(page, b, i, at, bs);
  }

  /** What lies between the cursors after n items lies between the slot and the cell of each of them. */
  lemma BetweenCursors(size: nat, b: Body, n: nat, i: nat, at: nat, length: nat)
    requires i < n <= |b.items| && Left(b.children == [], n) <= at && at + length <= Right(size, b.items, n) <= size
    ensures OffsetAt(b, i) + OFFSET_SIZE <= at && at + length <= Right(size, b.items, i + 1) && at + length <= size
  {
    SlotBefore(b, i, n);
    CursorsMove(size, b.items, i + 1, n);
  }

  /** An entry stays when bytes are written between its slot and its cell. */
  lemma EntryApart(page: seq<byte>, b: Body, i: nat, at: nat, bs: seq<byte>)
    requires Representable(b) && i < |b.items| && EntryAt(page, b, i)
    requires OffsetAt(b, i) + OFFSET_SIZE <= at && at + |bs| <= Right(|page|, b.items, i + 1) && at + |bs| <= |page|
    ensures EntryAt(Splice(page, at, bs), b, i)
  {
    var cell := Right(|page|, b.items, i + 1);
    SpliceKeeps(page, at, bs, OffsetAt(b, i), LittleBytes(cell, OFFSET_SIZE));
    SpliceKeeps(page, at, bs, cell, Cell(b.items[i]));
    if b.children != [] {
      ChildKept(page, b, i, at, bs);
    }
  }

  lemma ChildKept(page: seq<byte>, b: Body, i: nat, at: nat, bs: seq<byte>)
    requires i < |b.children| && HoldsAt(page, Left(false, i), LittleBytes(b.children[i], PAGE_NUM_SIZE))
    requires OffsetAt(b, i) <= at && at + |bs| <= |page| && b.children != []
    ensures HoldsAt(Splice(page, at, bs), Left(false, i), LittleBytes(b.children[i], PAGE_NUM_SIZE))
  {
    SpliceKeeps(page, at, bs, Left(false, i), LittleBytes(b.children[i], PAGE_NUM_SIZE));
  }

  // ---------------------------------------------------------------- writing

  /** The page with the child pointer and the offset of entry i. */
  function WithSlot(page: seq<byte>, b: Body, i: nat): (r: seq<byte>)
    requires Representable(b) && i < |b.items| && 0 <= Right(|page|, b.items, i + 1)
    requires OffsetAt(b, i) + OFFSET_SIZE <= |page|
    ensures |r| == |page|
  {
    var p := if b.children == [] then page else Splice(page, Left(false, i), LittleBytes(b.children[i], PAGE_NUM_SIZE));
    Splice(p, OffsetAt(b, i), LittleBytes(Right(|page|, b.items, i + 1), OFFSET_SIZE))
  }

  /** One more entry is laid out, and the earlier ones are kept. */
  lemma EntryWritten(page: seq<byte>, b: Body, i: nat)
    requires Representable(b) && i < |b.items| && LayoutUpTo(page, b, i)
    requires OffsetAt(b, i) + OFFSET_SIZE <= Right(|page|, b.items, i + 1)
    ensures Right(|page|, b.items, i) == Right(|page|, b.items, i + 1) + CellSize(b.items[i]) <= |page|
    ensures LayoutUpTo(Splice(WithSlot(page, b, i), Right(|page|, b.items, i + 1), Cell(b.items[i])), b, i + 1)
  {
    var right, cell := Right(|page|, b.items, i + 1), Cell(b.items[i]);
    assert right + |cell| == Right(|page|, b.items, i) <= |page| by {
      CursorsMove(|page|, b.items, 0, i);
    }
    var p := WithSlot(page, b, i);
    SlotWritten(page, b, i);
    assert |p| == |page|;
    LayoutKept(p, b, i, right, cell);
    CellWritten(p, b, i, right);
    LayoutGrows(Splice(p, right, cell), b, i);
  }

  lemma LayoutGrows(page: seq<byte>, b: Body, i: nat)
    requires Representable(b) && i < |b.items| && LayoutUpTo(page, b, i) && EntryAt(page, b, i)
    ensures LayoutUpTo(page, b, i + 1)
  {
  }

  lemma CellWritten(p: seq<byte>, b: Body, i: nat, right: nat)
    requires Representable(b) && i < |b.items| && right == Right(|p|, b.items, i + 1)
    requires OffsetAt(b, i) + OFFSET_SIZE <= right && right + |Cell(b.items[i])| <= |p|
    requires HoldsAt(p, OffsetAt(b, i), LittleBytes(right, OFFSET_SIZE))
    requires b.children != [] ==> HoldsAt(p, Left(false, i), LittleBytes(b.children[i], PAGE_NUM_SIZE))
    ensures EntryAt(Splice(p, right, Cell(b.items[i])), b, i)
  {
    var cell := Cell(b.items[i]);
    SpliceKeeps(p, right, cell, OffsetAt(b, i), LittleBytes(right, OFFSET_SIZE));
    SpliceHolds(p, right, cell);
    if b.children != [] {
      SpliceKeeps(p, right, cell, Left(false, i), LittleBytes(b.children[i], PAGE_NUM_SIZE));
    }
  }

  lemma SlotWritten(page: seq<byte>, b: Body, i: nat)
    requires Representable(b) && i < |b.items| && LayoutUpTo(page, b, i)
    requires OffsetAt(b, i) + OFFSET_SIZE <= Right(|page|, b.items, i + 1) <= Right(|page|, b.items, i) <= |page|
    ensures LayoutUpTo(WithSlot(page, b, i), b, i)
    ensures b.children != [] ==>
              HoldsAt(WithSlot(page, b, i), Left(false, i), LittleBytes(b.children[i], PAGE_NUM_SIZE))
    ensures HoldsAt(WithSlot(page, b, i), OffsetAt(b, i), LittleBytes(Right(|page|, b.items, i + 1), OFFSET_SIZE))
  {
    var offset := LittleBytes(Right(|page|, b.items, i + 1), OFFSET_SIZE);
    var p := page;
    if b.children != [] {
      var child := LittleBytes(b.children[i], PAGE_NUM_SIZE);
      p := Splice(page, Left(false, i), child);
      LayoutKept(page, b, i, Left(false, i), child);
      SpliceHolds(page, Left(false, i), child);
      SpliceKeeps(p, OffsetAt(b, i), offset, Left(false, i), child);
    }
    LayoutKept(p, b, i, OffsetAt(b, i), offset);
    SpliceHolds(p, OffsetAt(b, i), offset);
  }

  /** Two neighbouring ranges written from the end make one. */
  lemma SpliceTwo(s: seq<byte>, at: nat, a: seq<byte>, b: seq<byte>)
    requires at + |a| + |b| <= |s|
    ensures Splice(Splice(s, at + |a|, b), at, a) == Splice(s, at, a + b)
  {
  }

  lemma SpliceOne(s: seq<byte>, at: nat, b: byte)
    requires at < |s|
    ensures s[at := b] == Splice(s, at, [b])
  {
  }

  lemma EntryHasRoom(size: nat, b: Body, i: nat)
    requires Fits(size, b) && i < |b.items|
    ensures OffsetAt(b, i) + OFFSET_SIZE == Left(b.children == [], i + 1)
    ensures OffsetAt(b, i) + OFFSET_SIZE <= Right(size, b.items, i + 1)
    ensures Left(b.children == [], i) <= OffsetAt(b, i)
    ensures Right(size, b.items, i) <= size - 1 && Right(size, b.items, i + 1) < Pow256(2)
    ensures Right(size, b.items, i + 1) + CellSize(b.items[i]) == Right(size, b.items, i)
  {
    CursorsMove(size, b.items, i + 1, |b.items|);
    CursorsMove(size, b.items, 0, i);
    SlotsGrow(b.children == [], i + 1, |b.items|);
  }

  lemma SlotsGrow(leaf: bool, i: nat, j: nat)
    requires i <= j
    ensures Left(leaf, i) <= Left(leaf, j) && Left(leaf, i + 1) == Left(leaf, i) + SlotSize(leaf)
  {
  }

  /** A length or a count as its bytes hold it. */
  function CutLength(n: nat, bytes: nat): (r: nat)
    ensures r <= n
  {
    TruncatedIsLess(n, bytes);
    Truncated(n, bytes)
  }

  lemma TruncatedIsLess(n: nat, bytes: nat)
    ensures Truncated(n, bytes) <= n
  {
    if n >= Pow256(bytes) {
      assert Truncated(n, bytes) < Pow256(bytes);
    }
  }

  /** Keys and values lose what their one-byte lengths do not count. */
  function Cut(x: Item): (r: Item)
    ensures ShortItem(x) ==> r == x
  {
    Item(x.key[..CutLength(|x.key|, 1)], x.value[..CutLength(|x.value|, 1)])
  }

  lemma CutIsShort(x: Item)
    ensures ShortItem(Cut(x)) && (Cut(x) == x <==> ShortItem(x))
  {
    assert Pow256(1) == 256;
  }

  /** Of keys and values as many of their first bytes are left as their lengths modulo 256. */
  lemma CutIs(x: Item)
    ensures Cut(x).key == x.key[..|x.key| % 256] && Cut(x).value == x.value[..|x.value| % 256]
  {
    CutLengthIs(|x.key|);
    CutLengthIs(|x.value|);
  }

  lemma CutLengthIs(n: nat)
    ensures CutLength(n, 1) == n % 256 && CutLength(n, 2) == n % 65536
  {
    PowersOf256();
  }

  function CutItems(items: seq<Item>): seq<Item> {
    seq(|items|, i requires 0 <= i < |items| => Cut(items[i]))
  }

  /** Every item of an inner node that is written has a child to be written with it. */
  predicate HasChildren(b: Body) {
    b.children == [] || CutLength(|b.items|, 2) <= |b.children|
  }

  /** A node that a page can hold as it is, if it has the room. */
  predicate Plain(b: Body) {
    && |b.items| < Pow256(2)
    && (forall i {:trigger ShortItem(b.items[i])} :: 0 <= i < |b.items| ==> ShortItem(b.items[i]))
    && (b.children == [] || |b.children| == |b.items| + 1)
  }

  /**
   * What a written node is read back as: as many items as the count still says, with what is left of their keys and
   * values; in an inner node a child for each of them, and then the last child. With as many children as items, the
   * last one is there twice.
   */
  function AsRead(b: Body): Body
    requires HasChildren(b)
  {
    var n := CutLength(|b.items|, 2);
    if Plain(b) then b
    else Body(CutItems(b.items[..n]), if b.children == [] then [] else b.children[..n] + [b.children[|b.children| - 1]])
  }

  /**
   * What the page gets, item by item: of keys and values as many of their first bytes as their lengths modulo 256. The
   * node comes back as it was exactly if it is plain.
   */
  lemma AsReadIsWritten(b: Body)
    requires HasChildren(b)
    ensures |AsRead(b).items| == |b.items| % 65536
    ensures forall i :: 0 <= i < |b.items| % 65536 ==>
              && AsRead(b).items[i].key == b.items[i].key[..|b.items[i].key| % 256]
              && AsRead(b).items[i].value == b.items[i].value[..|b.items[i].value| % 256]
    ensures var r, n := AsRead(b), CutLength(|b.items|, 2);
            && |r.items| == n && (forall i :: 0 <= i < n ==> r.items[i] == Cut(b.items[i]))
            && (r.children == [] <==> b.children == [])
            && (b.children != [] ==>
                  && |r.children| == n + 1 && r.children[n] == b.children[|b.children| - 1]
                  && forall i :: 0 <= i < n ==> r.children[i] == b.children[i])
    ensures AsRead(b) == b <==> Plain(b)
  {
    var r := AsRead(b);
    CutLengthIs(|b.items|);
    forall i | 0 <= i < |b.items|
      ensures Cut(b.items[i]).key == b.items[i].key[..|b.items[i].key| % 256]
      ensures Cut(b.items[i]).value == b.items[i].value[..|b.items[i].value| % 256]
    {
      CutIs(b.items[i]);
    }
    if Plain(b) {
      forall i | 0 <= i < |b.items|
        ensures r.items[i] == Cut(b.items[i])
      {
        CutIsShort(b.items[i]);
      }
    } else if r == b {
      assert |b.items| < Pow256(2);
      forall i | 0 <= i < |b.items|
        ensures ShortItem(b.items[i])
      {
        CutIsShort(b.items[i]);
      }
    }
  }

  /** The same for one item and its child. */
  lemma EntryAsRead(b: Body, i: nat)
    requires HasChildren(b) && i < CutLength(|b.items|, 2)
    ensures var r := AsRead(b);
            && i < |r.items| && r.items[i] == Cut(b.items[i])
            && (b.children != [] ==> i < |b.children| && i < |r.children| && r.children[i] == b.children[i])
  {
    AsReadIsWritten(b);
  }

  lemma AsReadSizes(b: Body)
    requires HasChildren(b)
    ensures var r := AsRead(b);
            && |r.items| == CutLength(|b.items|, 2) && (r.children == [] <==> b.children == [])
            && (b.children != [] ==> |r.items| < |r.children| && r.children[|r.items|] == b.children[|b.children| - 1])
  {
    AsReadIsWritten(b);
  }

  /** Lays a node out in a page. Lengths, counts and offsets are cut to their widths, as the casts do. */
  method Serialize(b: Body, size: nat) returns (buffer: array<byte>)
    requires HasChildren(b) && Fits(size, AsRead(b))
    ensures fresh(buffer) && buffer.Length == size && Layout(buffer[..], AsRead(b))
  {
    ghost var r := AsRead(b);
    AsReadSizes(b);
    var leaf, count := b.children == [], Truncated(|b.items|, 2);
    CursorsMove(size, r.items, 0, |r.items|);
    buffer := new byte[size](_ => 0);
    WriteHeader(buffer, leaf, count, r);
    var left := WriteEntries(buffer, b, leaf, count);
    if !leaf {
      WriteLastChild(buffer, b.children[|b.children| - 1], left, r);
    }
  }

  /** The loop over the items, with its two cursors. */
  method WriteEntries(buffer: array<byte>, b: Body, leaf: bool, count: nat) returns (left: nat)
    requires HasChildren(b) && Fits(buffer.Length, AsRead(b)) && LayoutUpTo(buffer[..], AsRead(b), 0)
    requires (leaf <==> b.children == []) && count == |AsRead(b).items| == CutLength(|b.items|, 2)
    requires leaf <==> AsRead(b).children == []
    modifies buffer
    ensures left == Left(leaf, count) && LayoutUpTo(buffer[..], AsRead(b), count)
  {
    ghost var r := AsRead(b);
    left := HEADER_SIZE;
    var right: int := buffer.Length - 1;
    for i := 0 to count
      invariant left == Left(leaf, i) && right == Right(buffer.Length, r.items, i) && LayoutUpTo(buffer[..], r, i)
    {
      EntryAsRead(b, i);
      left, right := WriteEntry(buffer, b.items[i], if leaf then None else Some(b.children[i]), left, right, r, i);
    }
  }

  /** One iteration: the slot from the left, the cell from the right. */
  method WriteEntry(buffer: array<byte>, item: Item, child: Option<nat>, left: nat, right: int, ghost b: Body,
                    ghost i: nat)
    returns (newLeft: nat, newRight: int)
    requires Fits(buffer.Length, b) && i < |b.items| && Cut(item) == b.items[i] && LayoutUpTo(buffer[..], b, i)
    requires child == if b.children == [] then None else Some(b.children[i])
    requires left == Left(b.children == [], i) && right == Right(buffer.Length, b.items, i)
    modifies buffer
    ensures newLeft == Left(b.children == [], i + 1) && newRight == Right(buffer.Length, b.items, i + 1)
    ensures LayoutUpTo(buffer[..], b, i + 1)
  {
    EntryHasRoom(buffer.Length, b, i);
    EntryWritten(buffer[..], b, i);
    newLeft := WriteSlot(buffer, item, child, left, right, b, i);
    newRight := WriteCell(buffer, item, right);
  }

  method WriteLastChild(buffer: array<byte>, child: nat, left: nat, ghost b: Body)
    requires Fits(buffer.Length, b) && b.children != [] && LayoutUpTo(buffer[..], b, |b.items|)
    requires left == Left(false, |b.items|) && child == b.children[|b.items|]
    modifies buffer
    ensures Layout(buffer[..], b)
  {
    ghost var last := LittleBytes(b.children[|b.items|], PAGE_NUM_SIZE);
    CursorsMove(buffer.Length, b.items, 0, |b.items|);
    LayoutKept(buffer[..], b, |b.items|, left, last);
    SpliceHolds(buffer[..], left, last);
    assert IsPageNum(b.children[|b.items|]);
    WriteNumber(buffer, left, child, PAGE_NUM_SIZE);
  }

  method WriteHeader(buffer: array<byte>, leaf: bool, count: nat, ghost b: Body)
    requires HEADER_SIZE <= buffer.Length && count == |b.items| < Pow256(2) && (leaf <==> b.children == [])
    modifies buffer
    ensures HoldsAt(buffer[..], 0, Header(b))
  {
    var stream := new StreamWriter(Little, buffer, 0, buffer.Length);
    stream.WriteBytes(if leaf then 1 else 0, 1);
    stream.WriteBytes(count, 2);
  }

  /** The child pointer of an inner node and the offset of the cell, at the left cursor. */
  method WriteSlot(buffer: array<byte>, item: Item, child: Option<nat>, left: nat, right: int, ghost b: Body,
                   ghost i: nat)
    returns (newLeft: nat)
    requires Fits(buffer.Length, b) && i < |b.items| && Cut(item) == b.items[i]
    requires child == if b.children == [] then None else Some(b.children[i])
    requires left == Left(b.children == [], i) && right == Right(buffer.Length, b.items, i)
    requires OffsetAt(b, i) + OFFSET_SIZE <= Right(buffer.Length, b.items, i + 1)
    modifies buffer
    ensures newLeft == Left(b.children == [], i + 1)
    ensures OffsetAt(b, i) + OFFSET_SIZE <= buffer.Length && buffer[..] == WithSlot(old(buffer[..]), b, i)
  {
    EntryHasRoom(buffer.Length, b, i);
    assert ShortItem(b.items[i]);
    newLeft := left;
    if child.Some? {
      assert IsPageNum(b.children[i]);
      WriteNumber(buffer, newLeft, child.value, PAGE_NUM_SIZE);
      newLeft := newLeft + PAGE_NUM_SIZE;
    }
    assert newLeft == OffsetAt(b, i) && newLeft + OFFSET_SIZE == Left(b.children == [], i + 1);
    assert buffer[..] == if b.children == [] then old(buffer[..])
                         else Splice(old(buffer[..]), Left(false, i), LittleBytes(b.children[i], PAGE_NUM_SIZE));
    var keySize, valueSize := Truncated(|item.key|, 1), Truncated(|item.value|, 1);
    var offset := Truncated(right - keySize - valueSize - OFFSET_SIZE, OFFSET_SIZE);
    assert offset == Right(buffer.Length, b.items, i + 1);
    WriteNumber(buffer, newLeft, offset, OFFSET_SIZE);
    newLeft := newLeft + OFFSET_SIZE;
  }

  /** An unsigned integer through a stream on the rest of the buffer. */
  method WriteNumber(buffer: array<byte>, at: nat, v: nat, width: nat)
    requires 1 <= width && at + width <= buffer.Length && v < Pow256(width)
    modifies buffer
    ensures buffer[..] == Splice(old(buffer[..]), at, LittleBytes(v, width))
  {
    var stream := new StreamWriter(Little, buffer, at, buffer.Length - at);
    stream.WriteBytes(v, width);
  }

  /** A cell is written from its end: first the value, then the key, each as far as its length counts. */
  method WriteCell(buffer: array<byte>, item: Item, right: int) returns (newRight: int)
    requires CellSize(Cut(item)) <= right <= buffer.Length && ShortItem(Cut(item))
    modifies buffer
    ensures newRight == right - CellSize(Cut(item))
    ensures buffer[..] == Splice(old(buffer[..]), newRight, Cell(Cut(item)))
  {
    ghost var x, before := Cut(item), buffer[..];
    newRight := WriteField(buffer, item.value[..Truncated(|item.value|, 1)], right);
    ghost var between := buffer[..];
    newRight := WriteField(buffer, item.key[..Truncated(|item.key|, 1)], newRight);
    CellOfFields(before, between, buffer[..], newRight, x);
  }

  /** Two fields side by side are a cell. */
  lemma CellOfFields(s: seq<byte>, t: seq<byte>, u: seq<byte>, at: nat, x: Item)
    requires ShortItem(x) && at + CellSize(x) <= |s|
    requires t == Splice(s, at + |x.key| + 1, [|x.value|] + x.value) && u == Splice(t, at, [|x.key|] + x.key)
    ensures u == Splice(s, at, Cell(x))
  {
    var k, v: seq<byte> := [|x.key|] + x.key, [|x.value|] + x.value;
    SpliceTwo(s, at, k, v);
    assert k + v == Cell(x);
  }

  /** Bytes to the left of the cursor, and their length to the left of them. */
  method WriteField(buffer: array<byte>, bytes: seq<byte>, right: int) returns (newRight: int)
    requires |bytes| < 256 && |bytes| + 1 <= right <= buffer.Length
    modifies buffer
    ensures newRight == right - |bytes| - 1
    ensures buffer[..] == Splice(old(buffer[..]), newRight, [|bytes|] + bytes)
  {
    ghost var before, length: seq<byte> := buffer[..], [|bytes|];
    SpliceTwo(before, right - |bytes| - 1, length, bytes);
    newRight := right - |bytes|;
    var stream := new StreamWriter(Little, buffer, newRight, buffer.Length - newRight);
    stream.WriteRaw(bytes);
    newRight := newRight - 1;
    SpliceOne(buffer[..], newRight, length[0]);
    buffer[newRight] := |bytes|;
  }

  // ---------------------------------------------------------------- reading

  lemma HeldBytes(page: seq<byte>, at: nat, bs: seq<byte>)
    requires HoldsAt(page, at, bs)
    ensures page[at..at + |bs|] == bs && forall i :: 0 <= i < |bs| ==> page[at + i] == bs[i]
  {
    forall i | 0 <= i < |bs|
      ensures page[at + i] == bs[i]
    {
      assert page[at..at + |bs|][i] == page[at + i];
    }
  }

  /** The parts of a cell where the reader looks for them. */
  lemma CellParts(page: seq<byte>, at: nat, x: Item)
    requires ShortItem(x) && HoldsAt(page, at, Cell(x))
    ensures page[at] == |x.key| && page[at + 1..at + 1 + |x.key|] == x.key
    ensures page[at + 1 + |x.key|] == |x.value|
    ensures page[at + 2 + |x.key|..at + 2 + |x.key| + |x.value|] == x.value
  {
    HeldBytes(page, at, Cell(x));
    var c := Cell(x);
    assert c[0] == |x.key| && c[1 + |x.key|] == |x.value|;
    assert c[1..1 + |x.key|] == x.key && c[2 + |x.key|..] == x.value;
    assert page[at + 1..at + 1 + |x.key|] == c[1..1 + |x.key|];
    assert page[at + 2 + |x.key|..at + 2 + |x.key| + |x.value|] == c[2 + |x.key|..];
  }

  /** Reads the item whose cell starts at the offset. */
  method ReadCell(buffer: array<byte>, offset: nat, ghost x: Item) returns (item: Item)
    requires ShortItem(x) && HoldsAt(buffer[..], offset, Cell(x)) && buffer.Length <= Pow256(2)
    ensures item == x
  {
    CellParts(buffer[..], offset, x);
    var at: nat := offset;
    var keySize: nat := buffer[at];
    at := at + 1;
    var keys := new StreamReader(Little, buffer, at, keySize);
    var key := keys.ReadRaw(keySize);
    at := at + keySize;
    var valueSize: nat := buffer[at];
    at := at + 1;
    var values := new StreamReader(Little, buffer, at, valueSize);
    var value := values.ReadRaw(valueSize);
    item := Item(key, value);
  }

  /** An unsigned integer that a page holds is read back. */
  method ReadNumber(buffer: array<byte>, at: nat, width: nat, ghost v: nat) returns (r: nat)
    requires 1 <= width && v < Pow256(width) && HoldsAt(buffer[..], at, LittleBytes(v, width))
    ensures r == v
  {
    LittleRoundTrip(v, width);
    var stream := new StreamReader(Little, buffer, at, buffer.Length - at);
    r := stream.ReadBytes(width);
    assert buffer[at..at + width] == buffer[..][at..at + width];
  }

  lemma HeaderParts(page: seq<byte>, b: Body)
    requires HoldsAt(page, 0, Header(b))
    ensures HoldsAt(page, 0, LittleBytes(if b.children == [] then 1 else 0, 1))
    ensures HoldsAt(page, 1, LittleBytes(|b.items|, 2))
  {
    HeldBytes(page, 0, Header(b));
    assert page[0..1] == Header(b)[0..1] && page[1..3] == Header(b)[1..3];
  }

  /** Reads a page back. Whatever node the page holds is the result. */
  method Deserialize(buffer: array<byte>, ghost b: Body) returns (r: Body)
    requires Layout(buffer[..], b)
    ensures r == b
  {
    assert |buffer[..]| == buffer.Length;
    HeaderParts(buffer[..], b);
    var isLeaf := ReadNumber(buffer, 0, 1, if b.children == [] then 1 else 0);
    var count := ReadNumber(buffer, 1, 2, |b.items|);
    var items, children := [], [];
    var left := HEADER_SIZE;
    for i := 0 to count
      invariant left == Left(b.children == [], i) && items == b.items[..i]
      invariant children == if b.children == [] then [] else b.children[..i]
    {
      var child, item;
      child, item, left := ReadEntry(buffer, left, isLeaf, b, i);
      if isLeaf == 0 {
        children := children + [child];
      }
      items := items + [item];
    }
    if isLeaf == 0 {
      assert IsPageNum(b.children[|b.items|]);
      var child := ReadNumber(buffer, left, PAGE_NUM_SIZE, b.children[|b.items|]);
      children := children + [child];
    }
    r := Body(items, children);
  }

  /** One iteration: the child pointer of an inner node, the offset, and the item at the offset. */
  method ReadEntry(buffer: array<byte>, left: nat, isLeaf: nat, ghost b: Body, ghost i: nat)
    returns (child: nat, item: Item, newLeft: nat)
    requires Layout(buffer[..], b) && i < |b.items| && left == Left(b.children == [], i)
    requires isLeaf == if b.children == [] then 1 else 0
    ensures item == b.items[i] && newLeft == Left(b.children == [], i + 1)
    ensures b.children != [] ==> child == b.children[i]
  {
    assert |buffer[..]| == buffer.Length;
    assert EntryAt(buffer[..], b, i) && ShortItem(b.items[i]);
    EntryHasRoom(buffer.Length, b, i);
    child, newLeft := 0, left;
    if isLeaf == 0 {
      assert IsPageNum(b.children[i]);
      child := ReadNumber(buffer, newLeft, PAGE_NUM_SIZE, b.children[i]);
      newLeft := newLeft + PAGE_NUM_SIZE;
    }
    var offset := ReadNumber(buffer, newLeft, OFFSET_SIZE, Right(buffer.Length, b.items, i + 1));
    newLeft := newLeft + OFFSET_SIZE;
    item := ReadCell(buffer, offset, b.items[i]);
  }

  /** The round trip: a node comes back from its page as it was exactly if it is plain. */
  method RoundTrip(b: Body, size: nat) returns (r: Body)
    requires HasChildren(b) && Fits(size, AsRead(b))
    ensures r == AsRead(b) && |r.items| == |b.items| % 65536
    ensures forall i :: 0 <= i < |r.items| ==>
              && r.items[i].key == b.items[i].key[..|b.items[i].key| % 256]
              && r.items[i].value == b.items[i].value[..|b.items[i].value| % 256]
    ensures r == b <==> Plain(b)
  {
    AsReadIsWritten(b);
    var buffer := Serialize(b, size);
    r := Deserialize(buffer, AsRead(b));
  }
}
