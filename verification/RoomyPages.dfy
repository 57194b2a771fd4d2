/**
 * When the pages are roomy for the thresholds and the items, insertion always finds room (core/data_access_layer.h).
 */
module RoomyPages {
  import opened KeyOrder
  import opened Trees
  import opened Sizing
  import opened Freelists
  import opened Endian
  import opened Lookup
  import opened Splitting
  import opened Collections
  import opened Putting
  import opened StaleCopies
  import opened NodeCodec
  import opened PageFit
  import opened Populations
  import opened InsertionEnds

  /** Between so many bytes, with lengths that one byte can hold. */
  predicate UsualItem(x: Item, least: nat, most: nat) {
    least <= |x.key| + |x.value| <= most && ShortItem(x)
  }

  predicate Usual(items: seq<Item>, least: nat, most: nat) {
    forall i {:trigger items[i]} :: 0 <= i < |items| ==> UsualItem(items[i], least, most)
  }

  /**
   * A page has room for a node that has grown by one item beyond the maximum, with the slots of as many of the
   * least items as such a node can have; and the thresholds leave every split its index.
   */
  predicate Roomy(size: nat, o: Limits, least: nat, most: nat) {
    && 0 < least && size <= Pow256(2) && SmallFor(o, most)
    && (o.max + most as real) * least as real + 12.0 * (o.max + most as real - 11.0)
       <= (size - 1) as real * least as real
  }

  /** Pages numbers below 2^64, also after n more allocations. */
  predicate PagesLeft(free: Free, n: nat) {
    && free.maxPage + n < Pow256(PAGE_NUM_SIZE)
    && forall i :: 0 <= i < |free.released| ==> free.released[i] < Pow256(PAGE_NUM_SIZE)
  }

  lemma NextPageIsLeft(free: Free, n: nat)
    requires PagesLeft(free, n) && n > 0
    ensures IsPageNum(NextPage(free).1) && PagesLeft(NextPage(free).0, n - 1)
  {
  }

  lemma {:induction false} FreeAfterLeft(o: Limits, free: Free, t: Tree, path: seq<nat>, n: nat)
    requires IsPath(t, path) && PagesLeft(free, n + |path|)
    ensures PagesLeft(FreeAfter(o, free, t, path), n)
    decreases |path|
  {
    if path != [] {
      FreeAfterLeft(o, free, t.kids[path[0]], path[1..], n + 1);
      NextPageIsLeft(FreeAfter(o, free, t.kids[path[0]], path[1..]), n + 1);
    }
  }

  /** A node of usual items that is one item beyond the maximum at most fits. */
  lemma GrownNodeFits(size: nat, o: Limits, b: Body, least: nat, most: nat)
    requires Roomy(size, o, least, most) && Usual(b.items, least, most)
    requires NodeSize(b.items) as real <= o.max + most as real
    requires b.children == [] || |b.children| == |b.items| + 1
    requires forall i {:trigger IsPageNum(b.children[i])} :: 0 <= i < |b.children| ==> IsPageNum(b.children[i])
    ensures Fits(size, b)
  {
    SlotsHaveRoom(Limits(o.min, o.max + most as real), b.items, least, size);
    forall i | 0 <= i < |b.items|
      ensures ShortItem(b.items[i])
    {
      assert UsualItem(b.items[i], least, most);
    }
    CursorsApartIff(size, b);
  }

  lemma UsualPart(p: seq<Item>, x: seq<Item>, s: seq<Item>, least: nat, most: nat)
    requires Usual(p + x + s, least, most)
    ensures Usual(x, least, most)
  {
    forall i | 0 <= i < |x|
      ensures UsualItem(x[i], least, most)
    {
      assert (p + x + s)[|p| + i] == x[i];
    }
  }

  lemma UsualNode(t: Tree, h: nat, least: nat, most: nat)
    requires Balanced(t, h) && Usual(InOrder(t), least, most)
    ensures Usual(t.items, least, most)
  {
    forall i | 0 <= i < |t.items|
      ensures UsualItem(t.items[i], least, most)
    {
      NodeItemPosition(t, h, i);
    }
  }

  lemma UsualKid(t: Tree, h: nat, k: nat, least: nat, most: nat)
    requires Balanced(t, h) && h > 0 && k < |t.kids| && Usual(InOrder(t), least, most)
    ensures Usual(InOrder(t.kids[k]), least, most)
  {
    AtChild(t, k);
    UsualPart(Before(t, k), InOrder(t.kids[k]), After(t, k), least, most);
  }

  /** The pages of the tree have numbers that a page can hold. */
  ghost predicate PageNums(t: Tree) {
    forall p {:trigger IsPageNum(p)} :: p in Bag(t) ==> IsPageNum(p)
  }

  lemma KidPageNums(t: Tree)
    requires PageNums(t)
    ensures forall i {:trigger IsPageNum(Pages(t.kids)[i])} :: 0 <= i < |t.kids| ==> IsPageNum(Pages(t.kids)[i])
    ensures forall i {:trigger PageNums(t.kids[i])} :: 0 <= i < |t.kids| ==> PageNums(t.kids[i])
  {
    forall i | 0 <= i < |t.kids|
      ensures IsPageNum(Pages(t.kids)[i]) && PageNums(t.kids[i])
    {
      PageInBagAll(t.kids, i);
      BagAt(t.kids, i);
    }
  }

  /** No node above the last one on the path is over-populated. */
  predicate InnerWithin(o: Limits, t: Tree, path: seq<nat>)
    requires IsPath(t, path)
    decreases |path|
  {
    path == [] || (!Over(o, t.items) && InnerWithin(o, t.kids[path[0]], path[1..]))
  }

  lemma {:induction false} RoomyParents(size: nat, o: Limits, free: Free, t: Tree, h: nat, path: seq<nat>, least: nat,
                                        most: nat)
    requires Roomy(size, o, least, most) && Balanced(t, h) && IsPath(t, path) && InnerWithin(o, t, path)
    requires Usual(InOrder(t), least, most) && PageNums(t) && PagesLeft(free, |path|)
    ensures ParentsFit(size, o, free, t, path)
    decreases |path|
  {
    if path != [] {
      var k, q := path[0], path[1..];
      var kid := t.kids[k];
      assert Balanced(kid, h - 1);
      UsualKid(t, h, k, least, most);
      KidPageNums(t);
      RoomyParents(size, o, free, kid, h - 1, q, least, most);
      FreeAfterLeft(o, free, kid, q, 1);
      if SplitIndex(o, kid.items) != -1 {
        UsualNode(t, h, least, most);
        UsualNode(kid, h - 1, least, most);
        AdoptedFits(size, o, FreeAfter(o, free, kid, q), t, h, k, least, most);
      }
    }
  }

  lemma AdoptedFits(size: nat, o: Limits, free: Free, t: Tree, h: nat, k: nat, least: nat, most: nat)
    requires Roomy(size, o, least, most) && Balanced(t, h) && h > 0 && k <= |t.items| && k < |t.kids|
             && !Over(o, t.items)
    requires Usual(t.items, least, most) && Usual(t.kids[k].items, least, most) && SplitIndex(o, t.kids[k].items) != -1
    requires PageNums(t) && PagesLeft(free, 1)
    ensures Fits(size, Adopted(o, free, t, k))
  {
    var x, b := t.kids[k].items[SplitIndex(o, t.kids[k].items)], Adopted(o, free, t, k);
    assert UsualItem(x, least, most);
    InsertedSize(t.items, k, x);
    InsertedUsual(t.items, k, x, least, most);
    KidPageNums(t);
    NextPageIsLeft(free, 1);
    InsertedPageNums(Pages(t.kids), k + 1, NextPage(free).1);
    GrownNodeFits(size, o, b, least, most);
  }

  lemma InsertedUsual(items: seq<Item>, k: nat, x: Item, least: nat, most: nat)
    requires k <= |items| && Usual(items, least, most) && UsualItem(x, least, most)
    ensures Usual(InsertAt(items, k, x), least, most)
  {
  }

  lemma InsertedPageNums(pages: seq<nat>, k: nat, q: nat)
    requires k <= |pages| && IsPageNum(q)
    requires forall i {:trigger IsPageNum(pages[i])} :: 0 <= i < |pages| ==> IsPageNum(pages[i])
    ensures var r := InsertAt(pages, k, q); forall i {:trigger IsPageNum(r[i])} :: 0 <= i < |r| ==> IsPageNum(r[i])
  {
    var r := InsertAt(pages, k, q);
    forall i | 0 <= i < |r|
      ensures IsPageNum(r[i])
    {
      if i < k {
        assert IsPageNum(pages[i]);
      } else if i > k {
        assert IsPageNum(pages[i - 1]);
      }
    }
  }

  lemma NewRootFits(size: nat, o: Limits, free: Free, t: Tree, least: nat, most: nat)
    requires Roomy(size, o, least, most) && Usual(t.items, least, most) && SplitIndex(o, t.items) != -1
    requires IsPageNum(t.page) && PagesLeft(free, 2)
    ensures Fits(size, NewRoot(o, free, t))
  {
    var x, b := t.items[SplitIndex(o, t.items)], NewRoot(o, free, t);
    assert UsualItem(x, least, most);
    NextPageIsLeft(free, 2);
    NextPageIsLeft(NextPage(free).0, 1);
    assert Payload(b.items) == |x.key| + |x.value| by {
      assert [x][..0] == [];
    }
    GrownNodeFits(size, o, b, least, most);
  }

  // ---------------------------------------------------------------- the operation

  /** The nodes on the search path are within the maximum, and the tree's items and page numbers are usual. */
  ghost predicate Settled(c: Coll, t: Tree, key: Bytes, least: nat, most: nat) {
    && Usual(InOrder(t), least, most) && PagesLeft(c.db.free, Height(t) + 2)
    && (c.root != 0 ==>
          var s := Search(t, key);
          InnerWithin(c.db.lim, t, s.path) && !Over(c.db.lim, Sub(t, s.path).items))
  }

  /** On roomy pages `put` can run and finds room for every fresh key, if no node on its path is over-populated. */
  lemma RoomyPutFits(size: nat, c: Coll, t: Tree, item: Item, least: nat, most: nat)
    requires Valid(c, t) && !HasKey(InOrder(t), item.key) && Roomy(size, c.db.lim, least, most)
    requires Settled(c, t, item.key, least, most) && UsualItem(item, least, most)
    ensures CanPut(c, t, item) && PutFits(size, c, t, item)
  {
    var o := c.db.lim;
    if c.root == 0 {
      assert Payload([item]) == |item.key| + |item.value| by {
        assert [item][..0] == [];
      }
      GrownNodeFits(size, o, Body([item], []), least, most);
    } else {
      var s, h := Search(t, item.key), Height(t);
      SearchIsExact(t, h, item.key);
      SearchFindsKeys(t, h, item.key);
      InsertedInLeaf(t, h, s, item);
      InsertedUsual(InOrder(t), Position(t, s.path, s.index), item, least, most);
      UsualIsSmall(InOrder(t), least, most);
      SmallItemsCanPut(c, t, item, most);
      RoomyLeaf(size, c, t, h, s, item, least, most);
      RoomyAbove(size, c, t, h, s, item, least, most);
    }
  }

  lemma UsualIsSmall(items: seq<Item>, least: nat, most: nat)
    requires Usual(items, least, most)
    ensures ItemsUpTo(items, most) && ItemsFrom(items, least)
  {
  }

  lemma RoomyLeaf(size: nat, c: Coll, t: Tree, h: nat, s: Spot, item: Item, least: nat, most: nat)
    requires Balanced(t, h) && IsPath(t, s.path) && |s.path| == h && s.index <= |Sub(t, s.path).items|
    requires Roomy(size, c.db.lim, least, most) && UsualItem(item, least, most) && !Over(c.db.lim, Sub(t, s.path).items)
    requires Usual(InOrder(Inserted(t, s, item)), least, most) && Balanced(Inserted(t, s, item), h)
    ensures Fits(size, BodyOf(Grown(t, s, item)))
  {
    var x, v := Sub(t, s.path), Grown(t, s, item);
    SubShape(t, h, s.path);
    SubShape(Inserted(t, s, item), h, s.path);
    GraftInOrder(Inserted(t, s, item), h, s.path, v);
    UsualPart(LeftOf(Inserted(t, s, item), s.path), InOrder(v), RightOf(Inserted(t, s, item), s.path), least, most);
    UsualNode(v, 0, least, most);
    InsertedSize(x.items, s.index, item);
    GrownNodeFits(size, c.db.lim, BodyOf(v), least, most);
  }

  lemma RoomyAbove(size: nat, c: Coll, t: Tree, h: nat, s: Spot, item: Item, least: nat, most: nat)
    requires Valid(c, t) && c.root != 0 && h == Height(t) && s == Search(t, item.key) && |s.path| == h
    requires Roomy(size, c.db.lim, least, most) && Settled(c, t, item.key, least, most)
    requires Usual(InOrder(Inserted(t, s, item)), least, most) && Balanced(Inserted(t, s, item), h)
    ensures var o, t1 := c.db.lim, Inserted(t, s, item);
            && ParentsFit(size, o, c.db.free, t1, s.path)
            && (SplitIndex(o, t1.items) != -1 ==> Fits(size, NewRoot(o, FreeAfter(o, c.db.free, t1, s.path), t1)))
  {
    var o, t1 := c.db.lim, Inserted(t, s, item);
    SafePageNums(c, t);
    InsertedStaysUsual(c, t, s, item);
    RoomyParents(size, o, c.db.free, t1, h, s.path, least, most);
    if SplitIndex(o, t1.items) != -1 {
      UsualNode(t1, h, least, most);
      FreeAfterLeft(o, c.db.free, t1, s.path, 2);
      assert t1.page in Bag(t1) && IsPageNum(t1.page);
      NewRootFits(size, o, FreeAfter(o, c.db.free, t1, s.path), t1, least, most);
    }
  }

  lemma SafePageNums(c: Coll, t: Tree)
    requires Valid(c, t) && c.root != 0 && PagesLeft(c.db.free, 0)
    ensures PageNums(t)
  {
    forall p | p in Bag(t)
      ensures IsPageNum(p)
    {
      assert p in Bag(t) + multiset(c.db.free.released);
    }
  }

  lemma InsertedStaysUsual(c: Coll, t: Tree, s: Spot, item: Item)
    requires Valid(c, t) && c.root != 0 && IsPath(t, s.path) && s.index <= |Sub(t, s.path).items| && PageNums(t)
    requires InnerWithin(c.db.lim, t, s.path)
    ensures PageNums(Inserted(t, s, item)) && InnerWithin(c.db.lim, Inserted(t, s, item), s.path)
  {
    SafeIsDistinct(c.db.free, Bag(t));
    InsertedStored(c.db, t, s, item);
    InnerAfterGraft(c.db.lim, t, s.path, Grown(t, s, item));
  }

  lemma {:induction false} InnerAfterGraft(o: Limits, t: Tree, path: seq<nat>, v: Tree)
    requires IsPath(t, path) && InnerWithin(o, t, path)
    ensures InnerWithin(o, Graft(t, path, v), path)
    decreases |path|
  {
    if path != [] {
      InnerAfterGraft(o, t.kids[path[0]], path[1..], v);
    }
  }

  // ---------------------------------------------------------------- the option sets

  const BALANCE := Thresholds(Options(4096, 0.0125, 0.025))
  const BEST_FILE_SIZE := Thresholds(Options(4096, 0.75, 0.75))
  const BEST_PERFORMANCE := Thresholds(Options(4096, 0.125, 0.125))

  /** The thresholds of the three option sets, in bytes. */
  lemma OptionSetThresholds()
    ensures BALANCE.min == 51.2 && BALANCE.max == 102.4
    ensures BEST_FILE_SIZE.min == 3072.0 && BEST_FILE_SIZE.max == 3072.0
    ensures BEST_PERFORMANCE.min == 512.0 && BEST_PERFORMANCE.max == 512.0
  {
  }

  /** For items of these sizes the three option sets have roomy pages, and splits that leave nothing over-populated. */
  lemma OptionSetsAreRoomy()
    ensures Roomy(4096, BALANCE, 14, 30) && Splittable(BALANCE, 14, 30)
    ensures Roomy(4096, BEST_FILE_SIZE, 50, 100) && Splittable(BEST_FILE_SIZE, 50, 100)
    ensures Roomy(4096, BEST_PERFORMANCE, 2, 45) && Splittable(BEST_PERFORMANCE, 2, 45)
  {
  }
}
