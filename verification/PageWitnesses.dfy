/**
 * Sessions from a new database in which everything written fits its page, up to an operation that writes a node which
 * does not. The thresholds are those of the option set for small files (core/data_access_layer.h): minimum and
 * maximum are three quarters of a page of 4096 bytes.
 */
module PageWitnesses {
  import opened KeyOrder
  import opened Trees
  import opened Sizing
  import opened Freelists
  import opened Store
  import opened Lookup
  import opened Splitting
  import opened Collections
  import opened Putting
  import opened Rebalancing
  import opened Removing
  import opened Runs
  import opened InsertionEnds
  import opened NodeCodec
  import opened PageFit
  import opened RemovalFit
  import opened RemovalEnds
  import opened PagedOperations
  import opened Witnesses

  const PAGE_SIZE := 4096
  const SMALL_FILE := Limits(3072.0, 3072.0)

  // ---------------------------------------------------------------- items with ascending keys

  /** The item with key n, of two bytes, and a value of w bytes. */
  function Num(n: nat, w: nat): Item
    requires n < 65536
  {
    Item([n / 256, n % 256], seq(w, _ => 0))
  }

  function Nums(from: nat, n: nat, w: nat): (r: seq<Item>)
    requires from + n <= 65536
    ensures |r| == n && forall i :: 0 <= i < n ==> r[i] == Num(from + i, w)
  {
    seq(n, i requires 0 <= i < n => Num(from + i, w))
  }

  function LeafOf(page: nat, from: nat, n: nat, w: nat): Tree
    requires from + n <= 65536
  {
    Leaf(page, Nums(from, n, w))
  }

  predicate AllOf(items: seq<Item>, weight: nat) {
    forall i :: 0 <= i < |items| ==> Weight(items[i]) == weight
  }

  lemma {:induction false} SameWeight(items: seq<Item>, weight: nat)
    requires AllOf(items, weight)
    ensures Payload(items) == weight * |items|
  {
    if items != [] {
      SameWeight(items[..|items| - 1], weight);
      assert weight * |items| == weight * (|items| - 1) + weight;
    }
  }

  lemma NumLess(i: nat, j: nat, w: nat)
    requires i < j < 65536
    ensures Less(Num(i, w).key, Num(j, w).key)
  {
    var a, b := Num(i, w).key, Num(j, w).key;
    assert a[1..] == [i % 256] && b[1..] == [j % 256];
    assert i / 256 <= j / 256;
    assert i / 256 == j / 256 ==> i % 256 < j % 256;
  }

  lemma {:induction false} RankOfLast(items: seq<Item>, key: Bytes)
    requires forall i :: 0 <= i < |items| ==> Less(items[i].key, key)
    ensures Rank(items, key) == |items|
  {
    if items != [] {
      RankOfLast(items[1..], key);
    }
  }

  lemma RankOfNext(from: nat, n: nat, w: nat)
    requires from + n < 65536
    ensures Rank(Nums(from, n, w), Num(from + n, w).key) == n
  {
    var items, key := Nums(from, n, w), Num(from + n, w).key;
    forall i | 0 <= i < n
      ensures Less(items[i].key, key)
    {
      NumLess(from + i, from + n, w);
    }
    RankOfLast(items, key);
  }

  lemma OneMore(from: nat, n: nat, w: nat)
    requires from + n < 65536
    ensures InsertAt(Nums(from, n, w), n, Num(from + n, w)) == Nums(from, n + 1, w)
  {
  }

  lemma PartOfNums(from: nat, n: nat, w: nat, i: nat, j: nat)
    requires from + n <= 65536 && i <= j <= n
    ensures Nums(from, n, w)[i..j] == Nums(from + i, j - i, w)
  {
  }

  // ---------------------------------------------------------------- what fits

  lemma Widths()
    ensures Endian.Pow256(2) == 65536 && Endian.Pow256(8) > 65536
  {
    assert Endian.Pow256(1) == 256 && Endian.Pow256(2) == 65536 && Endian.Pow256(3) > 65536;
    assert Endian.Pow256(4) > 65536 && Endian.Pow256(5) > 65536 && Endian.Pow256(6) > 65536 && Endian.Pow256(7) > 65536;
  }

  /** A leaf of n items of m bytes fits exactly if n slots and n cells do. */
  lemma LeafFitsIff(items: seq<Item>, m: nat)
    requires AllOf(items, m) && |items| < 65536
    requires forall i :: 0 <= i < |items| ==> |items[i].key| < 256 && |items[i].value| < 256
    ensures NodeSize(items) == 11 + m * |items|
    ensures Fits(PAGE_SIZE, Body(items, [])) <==> 11 + m * |items| + 4 * |items| <= PAGE_SIZE + 7
  {
    SameWeight(items, m);
    Widths();
    assert forall i :: 0 <= i < |items| ==> ShortItem(items[i]);
    CursorsApartIff(PAGE_SIZE, Body(items, []));
  }

  /** An inner node of few items of 100 bytes fits. */
  lemma InnerFits(items: seq<Item>, children: seq<nat>)
    requires AllOf(items, 100) && 0 < |items| <= 2 && |children| == |items| + 1
    requires forall i :: 0 <= i < |items| ==> |items[i].key| < 256 && |items[i].value| < 256
    requires forall i :: 0 <= i < |children| ==> children[i] < 65536
    ensures Fits(PAGE_SIZE, Body(items, children)) && NodeSize(items) == 11 + 100 * |items|
  {
    SameWeight(items, 100);
    Widths();
    assert forall i :: 0 <= i < |items| ==> ShortItem(items[i]);
    assert forall i :: 0 <= i < |children| ==> IsPageNum(children[i]);
    CursorsApartIff(PAGE_SIZE, Body(items, children));
  }

  const SEPARATORS := [Num(29, 98), Num(59, 98)]

  lemma SmallRootsFit()
    ensures Fits(PAGE_SIZE, Body([Num(29, 98)], [3, 5])) && Fits(PAGE_SIZE, Body(SEPARATORS, [3, 5, 6]))
  {
    var one, two, three := [Num(29, 98)], [3, 5], [3, 5, 6];
    assert |Num(29, 98).key| == 2 && |Num(29, 98).value| == 98 && |Num(59, 98).key| == 2 && |Num(59, 98).value| == 98;
    InnerFits(one, two);
    InnerFits(SEPARATORS, three);
  }

  // ---------------------------------------------------------------- sessions on pages

  ghost predicate PagedSession(size: nat, o: Limits, states: seq<Coll>, ops: seq<Op>, t: Tree, free: Free) {
    Session(o, states, ops, t, free) && Fitting(size, states[|ops|].db)
  }

  /** n insertions into a new database, all on their pages, can bring the collection to the tree t. */
  ghost predicate Reached(size: nat, o: Limits, n: nat, t: Tree, free: Free) {
    exists states, ops :: PagedSession(size, o, states, ops, t, free) && |ops| == n
  }

  lemma IsReached(size: nat, o: Limits, states: seq<Coll>, ops: seq<Op>, t: Tree, free: Free)
    requires PagedSession(size, o, states, ops, t, free)
    ensures Reached(size, o, |ops|, t, free)
  {
  }

  lemma SessionTo(size: nat, o: Limits, n: nat, t: Tree, free: Free) returns (states: seq<Coll>, ops: seq<Op>)
    requires Reached(size, o, n, t, free)
    ensures PagedSession(size, o, states, ops, t, free) && |ops| == n
  {
    states, ops :| PagedSession(size, o, states, ops, t, free) && |ops| == n;
  }

  lemma FirstFits(size: nat, o: Limits, item: Item)
    requires Fits(size, Body([item], [])) && Fits(size, Body([], []))
    ensures Reached(size, o, 1, Leaf(3, [item]), Free(3, []))
  {
    var states, ops := FirstPut(o, item);
    NewDatabaseFits(size, o);
    assert states[1] == Next(states[0], ops[0]);
    OperationFitsIff(size, states[0], ops[0]);
    IsReached(size, o, states, ops, Leaf(3, [item]), Free(3, []));
  }

  ghost predicate PutsFitting(size: nat, o: Limits, t: Tree, free: Free, item: Item, s: Spot, t1: Tree, u: Tree,
                              after: Free) {
    && Puts(o, t, free, item, s, t1, u, after)
    && Fits(size, BodyOf(Grown(t, s, item)))
    && ParentsFit(size, o, free, t1, s.path)
    && (Over(o, t1.items) ==> Fits(size, NewRoot(o, FreeAfter(o, free, t1, s.path), t1)))
  }

  /** Putting the item makes u of t, on its pages. */
  ghost predicate StepsTo(size: nat, o: Limits, t: Tree, free: Free, item: Item, u: Tree, after: Free) {
    exists s, t1 :: PutsFitting(size, o, t, free, item, s, t1, u, after)
  }

  lemma IsStep(size: nat, o: Limits, t: Tree, free: Free, item: Item, s: Spot, t1: Tree, u: Tree, after: Free)
    requires PutsFitting(size, o, t, free, item, s, t1, u, after)
    ensures StepsTo(size, o, t, free, item, u, after)
  {
  }

  lemma NextFits(size: nat, o: Limits, n: nat, t: Tree, free: Free, item: Item, u: Tree, after: Free)
    requires Reached(size, o, n, t, free) && StepsTo(size, o, t, free, item, u, after)
    ensures Reached(size, o, n + 1, u, after)
  {
    var s, t1 :| PutsFitting(size, o, t, free, item, s, t1, u, after);
    var states, ops := SessionTo(size, o, n, t, free);
    var more, done := OneFits(size, o, states, ops, t, free, item, s, t1, u, after);
    IsReached(size, o, more, done, u, after);
  }

  lemma OneFits(size: nat, o: Limits, states: seq<Coll>, ops: seq<Op>, t: Tree, free: Free, item: Item, s: Spot,
                t1: Tree, u: Tree, after: Free)
    returns (more: seq<Coll>, done: seq<Op>)
    requires PagedSession(size, o, states, ops, t, free) && PutsFitting(size, o, t, free, item, s, t1, u, after)
    ensures done == ops + [Put(item)] && PagedSession(size, o, more, done, u, after)
  {
    more, done := OnePut(o, states, ops, t, free, item, s, t1, u, after);
    var c := states[|ops|];
    assert more[|ops|] == c && done[|ops|] == Put(item) && more[|done|] == Next(c, Put(item));
    TreeOfIs(c, t);
    OperationFitsIff(size, c, Put(item));
  }

  /** Where the next item of a root leaf goes, and the leaf with it. */
  lemma RootLeafGrows(n: nat, w: nat)
    requires 0 < n < 65535
    ensures var t, item, s, t1 := LeafOf(3, 0, n, w), Num(n, w), Spot([], n, false), LeafOf(3, 0, n + 1, w);
            && Search(t, item.key) == s && Grown(t, s, item) == t1 && Inserted(t, s, item) == t1
            && BodyOf(t1) == Body(Nums(0, n + 1, w), [])
  {
    RankOfNext(0, n, w);
    OneMore(0, n, w);
    assert Pages([]) == [];
  }

  /** The next item goes to the end of a root leaf that has room for it. */
  lemma AppendToRoot(n: nat, w: nat)
    requires 0 < n < 65535 && w < 256
    requires !Over(SMALL_FILE, Nums(0, n + 1, w)) && Fits(PAGE_SIZE, Body(Nums(0, n + 1, w), []))
    ensures StepsTo(PAGE_SIZE, SMALL_FILE, LeafOf(3, 0, n, w), Free(3, []), Num(n, w), LeafOf(3, 0, n + 1, w),
                    Free(3, []))
  {
    RootLeafGrows(n, w);
    var t1 := LeafOf(3, 0, n + 1, w);
    IsStep(PAGE_SIZE, SMALL_FILE, LeafOf(3, 0, n, w), Free(3, []), Num(n, w), Spot([], n, false), t1, t1, Free(3, []));
  }

  // ---------------------------------------------------------------- insertion

  lemma SmallLeaf(n: nat)
    requires n <= 512
    ensures !Over(SMALL_FILE, Nums(0, n, 2)) && (Fits(PAGE_SIZE, Body(Nums(0, n, 2), [])) <==> n <= 511)
  {
    LeafFitsIff(Nums(0, n, 2), 4);
  }

  /** n insertions of items of four bytes. */
  lemma {:induction false} SmallSession(n: nat)
    requires 0 < n <= 511
    ensures Reached(PAGE_SIZE, SMALL_FILE, n, LeafOf(3, 0, n, 2), Free(3, []))
    decreases n
  {
    SmallLeaf(n);
    if n == 1 {
      SmallLeaf(0);
      assert Nums(0, 0, 2) == [] && Nums(0, 1, 2) == [Num(0, 2)];
      FirstFits(PAGE_SIZE, SMALL_FILE, Num(0, 2));
    } else {
      SmallSession(n - 1);
      AppendToRoot(n - 1, 2);
      NextFits(PAGE_SIZE, SMALL_FILE, n - 1, LeafOf(3, 0, n - 1, 2), Free(3, []), Num(n - 1, 2), LeafOf(3, 0, n, 2),
               Free(3, []));
    }
  }

  /** The next insertion into a full leaf: nothing is split, and the leaf does not fit. */
  lemma SmallOverruns(c: Coll, n: nat)
    requires n == 511 && Valid(c, LeafOf(3, 0, n, 2)) && c.root == 3 && c.db.lim == SMALL_FILE
    ensures var t, item := LeafOf(3, 0, n, 2), Num(n, 2);
            && CanPut(c, t, item) && !HasKey(InOrder(t), item.key) && !Crowded(c, t, item)
            && !PutFits(PAGE_SIZE, c, t, item)
  {
    var t, item, t1 := LeafOf(3, 0, n, 2), Num(n, 2), LeafOf(3, 0, n + 1, 2);
    RootLeafGrows(n, 2);
    SmallLeaf(n + 1);
    assert Along(t1, []) == [CopyOf(t1)];
    SearchFindsKeys(t, Height(t), item.key);
  }

  /**
   * After 511 insertions of items of four bytes the 512th one overruns the page of the root leaf: nothing is
   * over-populated, so nothing is split, and the slots leave no room for the last cell.
   */
  lemma PutCanOverrunAPage() returns (states: seq<Coll>, ops: seq<Op>, c: Coll, item: Item)
    ensures IsRunOn(PAGE_SIZE, states, ops) && states[0] == NewDatabase(SMALL_FILE) && |ops| == 511 && c == states[511]
    ensures SMALL_FILE == Thresholds(Options(PAGE_SIZE, 0.75, 0.75))
    ensures Fitting(PAGE_SIZE, c.db) && Allowed(c, Put(item)) && Weight(item) == 4
    ensures !HasRoom(PAGE_SIZE, c, Put(item)) && !Fitting(PAGE_SIZE, Next(c, Put(item)).db)
  {
    SmallSession(511);
    states, ops := SessionTo(PAGE_SIZE, SMALL_FILE, 511, LeafOf(3, 0, 511, 2), Free(3, []));
    c, item := states[511], Num(511, 2);
    TreeOfIs(c, LeafOf(3, 0, 511, 2));
    SmallOverruns(c, 511);
    EmptyFits();
    SessionHasRoom(PAGE_SIZE, SMALL_FILE, states, ops);
    OperationFitsIff(PAGE_SIZE, c, Put(item));
  }

  lemma EmptyFits()
    ensures Fits(PAGE_SIZE, Body([], []))
  {
    SmallLeaf(0);
    assert Nums(0, 0, 2) == [];
  }

  lemma SessionHasRoom(size: nat, o: Limits, states: seq<Coll>, ops: seq<Op>)
    requires IsRun(states, ops) && states[0] == NewDatabase(o) && Fitting(size, states[|ops|].db)
    requires Fits(size, Body([], []))
    ensures IsRunOn(size, states, ops)
  {
    NewDatabaseFits(size, o);
    RunFitsIff(size, states, ops, |ops|);
    RunFitsHasRoom(size, states, ops, |ops|);
  }

  // ---------------------------------------------------------------- removal

  lemma BigLeaf(from: nat, n: nat)
    requires from + n <= 1000 && n <= 31
    ensures NodeSize(Nums(from, n, 98)) == 11 + 100 * n && (Over(SMALL_FILE, Nums(from, n, 98)) <==> n == 31)
    ensures Fits(PAGE_SIZE, Body(Nums(from, n, 98), []))
  {
    LeafFitsIff(Nums(from, n, 98), 100);
  }

  lemma BigPrefix(items: seq<Item>, j: nat)
    requires AllOf(items, 100) && j <= |items|
    ensures PrefixSize(items[..j]) == 3 + 108 * j
  {
    SameWeight(items[..j], 100);
  }

  /** A leaf of 31 items of 100 bytes is split into 29 items and one. */
  lemma BigSplit(items: seq<Item>)
    requires AllOf(items, 100) && |items| == 31
    ensures SplitIndex(SMALL_FILE, items) == 29
  {
    var s := SplitIndex(SMALL_FILE, items);
    SplitIndexIsLeast(SMALL_FILE, items);
    BigPrefix(items, 30);
    BigPrefix(items, 29);
    BigPrefix(items, s);
  }

  /** A full leaf, and n items to the right of it. */
  function TwoLeaves(n: nat): Tree
    requires n <= 31
  {
    Tree(4, [Num(29, 98)], [LeafOf(3, 0, 29, 98), LeafOf(5, 30, n, 98)])
  }

  /** The leaf of 31 items as a child is split; so it goes for both leaves. */
  lemma SplitBigLeaf(free: Free, t: Tree, k: nat, page: nat, from: nat)
    requires k <= |t.items| && k < |t.kids| && from <= 100
    ensures var items := Nums(from, 31, 98);
            && SplitIndex(SMALL_FILE, items) == 29 && CanSplit(SMALL_FILE, BodyOf(Leaf(page, items)))
            && SplitInto(SMALL_FILE, free, t, k, Leaf(page, items))
               == Tree(t.page, InsertAt(t.items, k, Num(from + 29, 98)),
                       InsertAt(t.kids[k := LeafOf(page, from, 29, 98)], k + 1,
                                LeafOf(NextPage(free).1, from + 30, 1, 98)))
  {
    var items := Nums(from, 31, 98);
    BigSplit(items);
    PartOfNums(from, 31, 98, 0, 29);
    PartOfNums(from, 31, 98, 30, 31);
    assert items[0..29] == items[..29] && items[30..31] == items[30..];
    assert Pages([]) == [];
  }

  lemma RootGrows(n: nat)
    requires n == 31
    ensures var t1 := LeafOf(3, 0, n, 98);
            && CanSplit(SMALL_FILE, BodyOf(t1)) && GrowInto(SMALL_FILE, Free(3, []), t1) == TwoLeaves(1)
            && NewRoot(SMALL_FILE, Free(3, []), t1) == Body([Num(29, 98)], [3, 5])
  {
    var t1 := LeafOf(3, 0, 31, 98);
    SplitBigLeaf(Free(4, []), Tree(4, [], [t1]), 0, 3, 0);
    assert InsertAt([], 0, Num(29, 98)) == [Num(29, 98)];
    assert InsertAt([t1][0 := LeafOf(3, 0, 29, 98)], 1, LeafOf(5, 30, 1, 98)) == TwoLeaves(1).kids;
  }

  /** The 31st insertion splits the root leaf. */
  lemma RootSplits(n: nat)
    requires n == 30
    ensures StepsTo(PAGE_SIZE, SMALL_FILE, LeafOf(3, 0, n, 98), Free(3, []), Num(n, 98), TwoLeaves(1), Free(5, []))
  {
    var t, item, s, t1 := LeafOf(3, 0, n, 98), Num(n, 98), Spot([], n, false), LeafOf(3, 0, n + 1, 98);
    RootLeafGrows(n, 98);
    BigLeaf(0, n + 1);
    RootGrows(n + 1);
    SmallRootsFit();
    SplitsAtRoot(PAGE_SIZE, SMALL_FILE, t, Free(3, []), item, s, t1);
  }

  /** An insertion after which a root leaf is split. */
  lemma SplitsAtRoot(size: nat, o: Limits, t: Tree, free: Free, item: Item, s: Spot, t1: Tree)
    requires t.page != 0 && s.path == [] && s.index <= |t.items| && !s.found && Search(t, item.key) == s
    requires Grown(t, s, item) == t1 && Over(o, t1.items) && CanSplit(o, BodyOf(t1))
    requires Fits(size, BodyOf(t1)) && Fits(size, NewRoot(o, free, t1))
    ensures StepsTo(size, o, t, free, item, GrowInto(o, free, t1), NextPage(NextPage(free).0).0)
  {
    IsStep(size, o, t, free, item, s, t1, GrowInto(o, free, t1), NextPage(NextPage(free).0).0);
  }

  /** Where the next item goes, and the tree with it. */
  lemma RightGrows(n: nat)
    requires 0 < n <= 30
    ensures Search(TwoLeaves(n), Num(30 + n, 98).key) == Spot([1], n, false)
    ensures Inserted(TwoLeaves(n), Spot([1], n, false), Num(30 + n, 98)) == TwoLeaves(n + 1)
    ensures Grown(TwoLeaves(n), Spot([1], n, false), Num(30 + n, 98)) == LeafOf(5, 30, n + 1, 98)
  {
    var t, leaf, item := TwoLeaves(n), LeafOf(5, 30, n, 98), Num(30 + n, 98);
    NumLess(29, 30 + n, 98);
    RankOfLast(t.items, item.key);
    RankOfNext(30, n, 98);
    OneMore(30, n, 98);
    assert Search(leaf, item.key) == Spot([], n, false);
    assert [1][1..] == [];
    assert t.kids[1 := LeafOf(5, 30, n + 1, 98)] == TwoLeaves(n + 1).kids;
  }

  lemma RightHasRoom(n: nat)
    requires 0 < n < 30
    ensures StepsTo(PAGE_SIZE, SMALL_FILE, TwoLeaves(n), Free(5, []), Num(30 + n, 98), TwoLeaves(n + 1), Free(5, []))
  {
    var t1 := TwoLeaves(n + 1);
    RightGrows(n);
    BigLeaf(30, n + 1);
    BigLeaf(29, 1);
    assert Nums(29, 1, 98) == [Num(29, 98)];
    assert [1][1..] == [] && t1.kids[1 := t1.kids[1]] == t1.kids;
    assert Pages([]) == [];
    IsStep(PAGE_SIZE, SMALL_FILE, TwoLeaves(n), Free(5, []), Num(30 + n, 98), Spot([1], n, false), t1, t1, Free(5, []));
  }

  /** Two full leaves, and one with a single item. */
  const FILLED := Tree(4, SEPARATORS, [LeafOf(3, 0, 29, 98), LeafOf(5, 30, 29, 98), LeafOf(6, 60, 1, 98)])

  lemma RightDivides()
    ensures var t1 := TwoLeaves(31);
            && SplitIndex(SMALL_FILE, t1.kids[1].items) == 29 && CanSplit(SMALL_FILE, BodyOf(t1.kids[1]))
            && SplitInto(SMALL_FILE, Free(5, []), t1, 1, t1.kids[1]) == FILLED
            && Adopted(SMALL_FILE, Free(5, []), t1, 1) == Body(SEPARATORS, [3, 5, 6])
  {
    var t1 := TwoLeaves(31);
    SplitBigLeaf(Free(5, []), t1, 1, 5, 30);
    assert InsertAt([Num(29, 98)], 1, Num(59, 98)) == SEPARATORS;
    assert InsertAt(t1.kids[1 := LeafOf(5, 30, 29, 98)], 2, LeafOf(6, 60, 1, 98)) == FILLED.kids;
    assert Pages(t1.kids) == [3, 5] && InsertAt([3, 5], 2, 6) == [3, 5, 6];
  }

  /** What the loop makes of the tree with 31 items in its right leaf. */
  lemma RightLoop()
    ensures var o, f, t1 := SMALL_FILE, Free(5, []), TwoLeaves(31);
            && IsPath(t1, [1]) && PathSplits(o, t1, [1]) && !AdjacentOver(o, t1, [1]) && !Over(o, t1.items)
            && AfterSplits(o, f, t1, [1]) == FILLED && FreeAfter(o, f, t1, [1]) == Free(6, [])
            && ParentsFit(PAGE_SIZE, o, f, t1, [1])
  {
    assert [1][1..] == [];
    BigLeaf(30, 31);
    BigLeaf(29, 1);
    assert Nums(29, 1, 98) == [Num(29, 98)];
    RightDivides();
    SmallRootsFit();
  }

  /** An insertion below the root after which the loop splits what it has to, and the root is left as it is. */
  lemma SplitsBelow(size: nat, o: Limits, t: Tree, free: Free, item: Item, s: Spot, t1: Tree)
    requires t.page != 0 && IsPath(t, s.path) && s.index <= |Sub(t, s.path).items|
    requires !s.found && Search(t, item.key) == s && Inserted(t, s, item) == t1
             && Fits(size, BodyOf(Grown(t, s, item)))
    requires PathSplits(o, t1, s.path) && !AdjacentOver(o, t1, s.path) && !Over(o, t1.items)
    requires ParentsFit(size, o, free, t1, s.path)
    ensures StepsTo(size, o, t, free, item, AfterSplits(o, free, t1, s.path),
                    FreeAfter(o, free, t1, s.path))
  {
    var u, after := AfterSplits(o, free, t1, s.path), FreeAfter(o, free, t1, s.path);
    IsStep(size, o, t, free, item, s, t1, u, after);
  }

  lemma RightSplits(n: nat)
    requires n == 60
    ensures StepsTo(PAGE_SIZE, SMALL_FILE, TwoLeaves(n - 30), Free(5, []), Num(n, 98), FILLED, Free(6, []))
  {
    RightGrows(n - 30);
    BigLeaf(30, n - 29);
    RightLoop();
    assert Pages([]) == [];
    SplitsBelow(PAGE_SIZE, SMALL_FILE, TwoLeaves(n - 30), Free(5, []), Num(n, 98), Spot([1], n - 30, false),
                TwoLeaves(n - 29));
  }

  /** The tree after n insertions of items of 100 bytes, and the allocator. */
  function BigTree(n: nat): Tree
    requires n <= 61
  {
    if n <= 30 then LeafOf(3, 0, n, 98) else if n <= 60 then TwoLeaves(n - 30) else FILLED
  }

  function BigFree(n: nat): Free {
    Free(if n <= 30 then 3 else if n <= 60 then 5 else 6, [])
  }

  lemma BigStep(n: nat)
    requires 0 < n <= 60
    ensures StepsTo(PAGE_SIZE, SMALL_FILE, BigTree(n), BigFree(n), Num(n, 98), BigTree(n + 1), BigFree(n + 1))
  {
    if n < 30 {
      assert BigTree(n) == LeafOf(3, 0, n, 98) && BigTree(n + 1) == LeafOf(3, 0, n + 1, 98);
      BigLeaf(0, n + 1);
      AppendToRoot(n, 98);
    } else if n == 30 {
      assert BigTree(n) == LeafOf(3, 0, n, 98) && BigTree(n + 1) == TwoLeaves(1);
      RootSplits(n);
    } else {
      RightStep(n);
    }
  }

  lemma RightStep(n: nat)
    requires 30 < n <= 60
    ensures StepsTo(PAGE_SIZE, SMALL_FILE, BigTree(n), BigFree(n), Num(n, 98), BigTree(n + 1), BigFree(n + 1))
  {
    assert BigTree(n) == TwoLeaves(n - 30);
    if n < 60 {
      assert BigTree(n + 1) == TwoLeaves(n - 29);
      RightHasRoom(n - 30);
    } else {
      RightSplits(n);
    }
  }

  lemma {:induction false} BigSession(n: nat)
    requires 0 < n <= 61
    ensures Reached(PAGE_SIZE, SMALL_FILE, n, BigTree(n), BigFree(n))
    decreases n
  {
    if n == 1 {
      BigLeaf(0, 0);
      BigLeaf(0, 1);
      assert Nums(0, 0, 98) == [] && Nums(0, 1, 98) == [Num(0, 98)];
      FirstFits(PAGE_SIZE, SMALL_FILE, Num(0, 98));
    } else {
      BigSession(n - 1);
      BigStep(n - 1);
      NextFits(PAGE_SIZE, SMALL_FILE, n - 1, BigTree(n - 1), BigFree(n - 1), Num(n - 1, 98), BigTree(n), BigFree(n));
    }
  }

  const SHRUNK := Tree(4, SEPARATORS, [LeafOf(3, 1, 28, 98), LeafOf(5, 30, 29, 98), LeafOf(6, 60, 1, 98)])

  lemma FilledSearch()
    ensures var s := Spot([0], 0, true);
            && Search(FILLED, Num(0, 98).key) == s && Sub(FILLED, [0]) == LeafOf(3, 0, 29, 98)
            && CanDelete(FILLED, s) && Deleted(FILLED, s) == SHRUNK && FullPath(FILLED, s) == [0]
  {
    var key, leaf := Num(0, 98).key, LeafOf(3, 0, 29, 98);
    LessTrichotomy(key, Num(29, 98).key);
    LessTrichotomy(key, key);
    NumLess(0, 29, 98);
    assert Rank(SEPARATORS, key) == 0 && Rank(leaf.items, key) == 0;
    assert Search(leaf, key) == Spot([], 0, true);
    PartOfNums(0, 29, 98, 1, 29);
    assert [0][1..] == [] && RemoveAt(leaf.items, 0) == leaf.items[1..29];
    assert Shrunk(leaf, 0) == LeafOf(3, 1, 28, 98);
    assert FILLED.kids[0 := LeafOf(3, 1, 28, 98)] == SHRUNK.kids;
    assert [0] + [] == [0];
  }

  lemma NothingToSpare()
    ensures !CanSpare(SMALL_FILE, Nums(30, 29, 98)) && Under(SMALL_FILE, Nums(1, 28, 98))
  {
    var items := Nums(30, 29, 98);
    BigLeaf(1, 28);
    BigPrefix(items, 28);
    SplitIndexIsLeast(SMALL_FILE, items);
  }

  /** The merged node would have 58 items of 100 bytes. */
  lemma MergeIsTooBig()
    ensures IsPath(SHRUNK, [0]) && SiblingsExist(SMALL_FILE, SHRUNK, [0]) && !Clash(SMALL_FILE, SHRUNK, [0])
    ensures !LoopLeaves(FitsOn(PAGE_SIZE), SMALL_FILE, SHRUNK, [0])
  {
    assert [0][1..] == [];
    NothingToSpare();
    var f := FamilyOf(SHRUNK, 0, BodyOf(SHRUNK.kids[0]));
    assert |Pages(SHRUNK.kids)| == 3 && Pages([]) == [];
    assert Proper(f);
    var m := Merged(SMALL_FILE, f);
    assert m.items == Nums(1, 28, 98) + [Num(29, 98)] + Nums(30, 29, 98);
    LeafFitsIff(m.items, 100);
  }

  /**
   * After 61 insertions of items of 100 bytes, the removal of the smallest key overruns a page: no stale copy is
   * used, and the merge that always follows puts 58 items into one node.
   */
  lemma RemoveCanOverrunAPage() returns (states: seq<Coll>, ops: seq<Op>, c: Coll, key: Bytes)
    ensures IsRunOn(PAGE_SIZE, states, ops) && states[0] == NewDatabase(SMALL_FILE) && |ops| == 61 && c == states[61]
    ensures SMALL_FILE == Thresholds(Options(PAGE_SIZE, 0.75, 0.75))
    ensures Fitting(PAGE_SIZE, c.db) && Allowed(c, Remove(key)) && HasKey(InOrder(TreeOf(c)), key)
    ensures !HasRoom(PAGE_SIZE, c, Remove(key)) && !OnPages(PAGE_SIZE, Next(c, Remove(key)))
  {
    BigSession(61);
    states, ops := SessionTo(PAGE_SIZE, SMALL_FILE, 61, FILLED, Free(6, []));
    c, key := states[61], Num(0, 98).key;
    TreeOfIs(c, FILLED);
    FilledSearch();
    MergeIsTooBig();
    SearchFindsKeys(FILLED, Height(FILLED), key);
    EmptyFits();
    SessionHasRoom(PAGE_SIZE, SMALL_FILE, states, ops);
    FittingIsOnPages(PAGE_SIZE, c, FILLED);
    RemoveEveryIff(FitsOn(PAGE_SIZE), c, FILLED, key);
    TreeOfIs(Next(c, Remove(key)), RemoveTree(c, FILLED, key));
    RemoveLeavesRoot(c, FILLED, key);
  }
}
