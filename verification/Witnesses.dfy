/**
 * Sessions from a new database that end in an operation which fails, and other concrete inputs: the conditions of
 * the theorems are needed.
 */
module Witnesses {
  import opened KeyOrder
  import opened Trees
  import opened Sizing
  import opened Freelists
  import opened Store
  import opened Lookup
  import opened Splitting
  import opened Collections
  import opened Putting
  import opened Rebalancing
  import opened Removing
  import opened Runs
  import opened Populations
  import opened InsertionEnds
  import opened FreelistCodec

  /** Items of one byte and of five bytes. */
  function K(n: byte): Item { Item([n], []) }

  function L(n: byte): Item { Item([n], [0, 0, 0, 0]) }

  function Leaf(page: nat, items: seq<Item>): Tree { Tree(page, items, []) }

  lemma DigitLess(a: byte, b: byte)
    ensures Less([a], [b]) <==> a < b
  {
  }

  lemma RankOfNone(key: Bytes)
    ensures Rank([], key) == 0
  {
  }

  lemma RankInOne(x: Item, key: byte)
    requires |x.key| == 1
    ensures Rank([x], [key]) == if x.key[0] < key then 1 else 0
  {
    DigitLess(x.key[0], key);
    assert [x][1..] == [] && x.key == [x.key[0]];
  }

  lemma RankInTwo(x: Item, y: Item, key: byte)
    requires |x.key| == |y.key| == 1 && x.key[0] < y.key[0]
    ensures Rank([x, y], [key]) == if y.key[0] < key then 2 else if x.key[0] < key then 1 else 0
  {
    DigitLess(x.key[0], key);
    RankInOne(y, key);
    assert [x, y][1..] == [y] && x.key == [x.key[0]];
  }

  // ---------------------------------------------------------------- sizes of small nodes

  function Weight(x: Item): nat { |x.key| + |x.value| }

  lemma SmallSizes(x: Item, y: Item)
    ensures NodeSize([]) == 11 && NodeSize([x]) == 11 + Weight(x) && NodeSize([x, y]) == 11 + Weight(x) + Weight(y)
    ensures PrefixSize([x]) == 11 + Weight(x)
  {
    PayloadOfOne(x);
    assert [x, y][..1] == [x];
  }

  /** Two items are split after the first one, if it is above the minimum. */
  lemma SplitOfTwo(o: Limits, x: Item, y: Item)
    requires (11 + Weight(x)) as real > o.min
    ensures SplitIndex(o, [x, y]) == 1
  {
    SmallSizes(x, y);
    assert [x, y][..0 + 1] == [x];
  }

  /** The parent after the split of a leaf of two items: the right half is empty. */
  lemma SplitLeafOfTwo(o: Limits, free: Free, t: Tree, k: nat, page: nat, x: Item, y: Item)
    requires (11 + Weight(x)) as real > o.min && k <= |t.items| && k < |t.kids|
    ensures SplitIndex(o, [x, y]) == 1 && CanSplit(o, BodyOf(Leaf(page, [x, y])))
    ensures SplitInto(o, free, t, k, Leaf(page, [x, y]))
         == Tree(t.page, InsertAt(t.items, k, y),
                 InsertAt(t.kids[k := Leaf(page, [x])], k + 1, Leaf(NextPage(free).1, [])))
  {
    SplitOfTwo(o, x, y);
    assert [x, y][..1] == [x] && [x, y][2..] == [];
    assert Pages([]) == [];
  }

  // ---------------------------------------------------------------- sessions

  /** A session of `ops` on a new database has brought the collection to the tree t. */
  ghost predicate Session(o: Limits, states: seq<Coll>, ops: seq<Op>, t: Tree, free: Free) {
    && IsRun(states, ops) && states[0] == NewDatabase(o)
    && var c := states[|ops|];
       Valid(c, t) && c.root == t.page && c.db.lim == o && c.db.free == free
  }

  lemma NewSession(o: Limits) returns (states: seq<Coll>, ops: seq<Op>)
    ensures ops == [] && Session(o, states, ops, NO_TREE, Free(2, []))
  {
    states, ops := [NewDatabase(o)], [];
    NewDatabaseIsEmpty(o);
    assert Valid(NewDatabase(o), NO_TREE);
  }

  lemma OneMoreOp(states: seq<Coll>, ops: seq<Op>, op: Op) returns (more: seq<Coll>, done: seq<Op>)
    requires IsRun(states, ops) && Allowed(states[|ops|], op)
    ensures done == ops + [op] && more == states + [Next(states[|ops|], op)] && IsRun(more, done)
  {
    more, done := states + [Next(states[|ops|], op)], ops + [op];
    forall i | 0 <= i < |done|
      ensures Allowed(more[i], done[i]) && more[i + 1] == Next(more[i], done[i])
    {
      if i < |ops| {
        assert more[i] == states[i] && more[i + 1] == states[i + 1] && done[i] == ops[i];
      }
    }
  }

  /** The allocator after the splits and the growth of the root. */
  function SplitFree(o: Limits, free: Free, t: Tree, path: seq<nat>): Free
    requires IsPath(t, path)
  {
    var f := FreeAfter(o, free, t, path);
    if Over(o, t.items) then NextPage(NextPage(f).0).0 else f
  }

  /** Putting the item makes u of t, without a crowd on the path. */
  ghost predicate Puts(o: Limits, t: Tree, free: Free, item: Item, s: Spot, t1: Tree, u: Tree, after: Free) {
    && t.page != 0 && Search(t, item.key) == s && !s.found && Inserted(t, s, item) == t1
    && PathSplits(o, t1, s.path) && !AdjacentOver(o, t1, s.path)
    && u == SplitTree(o, free, t1, s.path) && after == SplitFree(o, free, t1, s.path)
  }

  lemma FirstPut(o: Limits, item: Item) returns (states: seq<Coll>, ops: seq<Op>)
    ensures ops == [Put(item)] && Session(o, states, ops, Leaf(3, [item]), Free(3, []))
  {
    var start, none := NewSession(o);
    var c := start[0];
    TreeOfIs(c, NO_TREE);
    assert InOrder(NO_TREE) == [];
    var u := PutInserts(c, NO_TREE, item);
    states, ops := OneMoreOp(start, none, Put(item));
  }

  lemma OnePut(o: Limits, states: seq<Coll>, ops: seq<Op>, t: Tree, free: Free, item: Item, s: Spot, t1: Tree, u: Tree,
               after: Free)
    returns (more: seq<Coll>, done: seq<Op>)
    requires Session(o, states, ops, t, free) && Puts(o, t, free, item, s, t1, u, after)
    ensures done == ops + [Put(item)] && Session(o, more, done, u, after) && states <= more
  {
    var c := states[|ops|];
    TreeOfIs(c, t);
    SearchFindsKeys(t, Height(t), item.key);
    PathSplitsExist(o, t1, s.path);
    var v := PutInserts(c, t, item);
    PutFree(c, t, item);
    more, done := OneMoreOp(states, ops, Put(item));
  }

  lemma PutFree(c: Coll, t: Tree, item: Item)
    requires CanPut(c, t, item) && c.root != 0
    ensures PutState(c, t, item).db.free
         == SplitFree(c.db.lim, c.db.free, Inserted(t, Search(t, item.key), item), Search(t, item.key).path)
  {
    var s := Search(t, item.key);
    var t1 := Inserted(t, s, item);
    SplitsCanGoUp(c.db.lim, t1, s.path);
    SplitUpFree(Write(c.db, CopyOf(Grown(t, s, item))), t1, s.path);
  }

  // ---------------------------------------------------------------- a session in which `put` loses an item

  /** Two items of one byte are too many for a node, and one is enough. */
  const TIGHT := Limits(11.5, 12.5)

  const A1 := Leaf(3, [K(1)])
  const A2 := Tree(4, [K(2)], [Leaf(3, [K(1)]), Leaf(5, [])])
  const A3 := Tree(4, [K(2)], [Leaf(3, [K(1)]), Leaf(5, [K(3)])])
  const A4 := Tree(4, [K(2), K(4)], [Leaf(3, [K(1)]), Leaf(5, [K(3)]), Leaf(6, [])])

  lemma PutSecond()
    ensures Puts(TIGHT, A1, Free(3, []), K(2), Spot([], 1, false), Leaf(3, [K(1), K(2)]), A2, Free(5, []))
  {
    var t1 := Leaf(3, [K(1), K(2)]);
    RankInOne(K(1), 2);
    assert InsertAt([K(1)], 1, K(2)) == [K(1), K(2)];
    SmallSizes(K(1), K(2));
    SplitLeafOfTwo(TIGHT, Free(4, []), Tree(4, [], [t1]), 0, 3, K(1), K(2));
    assert InsertAt([], 0, K(2)) == [K(2)];
    assert InsertAt([t1][0 := Leaf(3, [K(1)])], 1, Leaf(5, [])) == A2.kids;
  }

  lemma PutThird()
    ensures Puts(TIGHT, A2, Free(5, []), K(3), Spot([1], 0, false), A3, A3, Free(5, []))
  {
    RankInOne(K(2), 3);
    RankOfNone([3]);
    assert Search(Leaf(5, []), [3]) == Spot([], 0, false);
    assert [1][1..] == [] && InsertAt([], 0, K(3)) == [K(3)];
    assert A2.kids[1 := Leaf(5, [K(3)])] == A3.kids && A3.kids[1 := Leaf(5, [K(3)])] == A3.kids;
    SmallSizes(K(3), K(3));
    SmallSizes(K(2), K(2));
  }

  /** The leaf is split, and its parent then has two items and is left as it is. */
  lemma PutFourth()
    ensures var t1 := Tree(4, [K(2)], [Leaf(3, [K(1)]), Leaf(5, [K(3), K(4)])]);
            Puts(TIGHT, A3, Free(5, []), K(4), Spot([1], 1, false), t1, A4, Free(6, []))
  {
    var leaf := Leaf(5, [K(3), K(4)]);
    var t1 := Tree(4, [K(2)], [Leaf(3, [K(1)]), leaf]);
    RankInOne(K(2), 4);
    RankInOne(K(3), 4);
    assert Search(Leaf(5, [K(3)]), [4]) == Spot([], 1, false);
    assert [1][1..] == [] && InsertAt([K(3)], 1, K(4)) == [K(3), K(4)];
    assert A3.kids[1 := leaf] == t1.kids;
    SmallSizes(K(3), K(4));
    SmallSizes(K(2), K(2));
    SplitLeafOfTwo(TIGHT, Free(5, []), t1, 1, 5, K(3), K(4));
    assert InsertAt([K(2)], 1, K(4)) == [K(2), K(4)];
    assert InsertAt(t1.kids[1 := Leaf(5, [K(3)])], 2, Leaf(6, [])) == A4.kids;
  }

  lemma TwoPuts() returns (states: seq<Coll>, ops: seq<Op>)
    ensures |ops| == 2 && Session(TIGHT, states, ops, A2, Free(5, []))
  {
    var s1, o1 := FirstPut(TIGHT, K(1));
    PutSecond();
    states, ops := OnePut(TIGHT, s1, o1, A1, Free(3, []), K(2), Spot([], 1, false), Leaf(3, [K(1), K(2)]), A2,
                          Free(5, []));
  }

  lemma ThreePuts() returns (states: seq<Coll>, ops: seq<Op>)
    ensures |ops| == 3 && Session(TIGHT, states, ops, A3, Free(5, []))
  {
    var s2, o2 := TwoPuts();
    PutThird();
    states, ops := OnePut(TIGHT, s2, o2, A2, Free(5, []), K(3), Spot([1], 0, false), A3, A3, Free(5, []));
  }

  lemma FourPuts() returns (states: seq<Coll>, ops: seq<Op>)
    ensures |ops| == 4 && Session(TIGHT, states, ops, A4, Free(6, []))
  {
    var s3, o3 := ThreePuts();
    PutFourth();
    var t1 := Tree(4, [K(2)], [Leaf(3, [K(1)]), Leaf(5, [K(3), K(4)])]);
    states, ops := OnePut(TIGHT, s3, o3, A3, Free(5, []), K(4), Spot([1], 1, false), t1, A4, Free(6, []));
  }

  lemma OverpopulatedRoot()
    ensures Within(TIGHT, A3) && !Within(TIGHT, A4)
  {
    SmallSizes(K(1), K(1));
    SmallSizes(K(2), K(4));
    SmallSizes(K(3), K(3));
    assert Within(TIGHT, Leaf(3, [K(1)])) && Within(TIGHT, Leaf(5, [K(3)]));
  }

  /** After three insertions into a new database no node is over-populated, and after the fourth one the root is. */
  lemma PutCanLeaveTooMuch() returns (states: seq<Coll>, ops: seq<Op>)
    ensures IsRun(states, ops) && states[0] == NewDatabase(TIGHT) && |ops| == 4 && IsValid(states[3])
            && IsValid(states[4])
    ensures Within(TIGHT, TreeOf(states[3])) && !Within(TIGHT, TreeOf(states[4]))
  {
    var s3, o3 := ThreePuts();
    PutFourth();
    var t1 := Tree(4, [K(2)], [Leaf(3, [K(1)]), Leaf(5, [K(3), K(4)])]);
    states, ops := OnePut(TIGHT, s3, o3, A3, Free(5, []), K(4), Spot([1], 1, false), t1, A4, Free(6, []));
    TreeOfIs(s3[3], A3);
    TreeOfIs(states[4], A4);
    OverpopulatedRoot();
  }

  const CROWD := Tree(4, [K(2), K(4)], [Leaf(3, [K(0), K(1)]), Leaf(5, [K(3)]), Leaf(6, [])])

  lemma PutFifth()
    ensures Search(A4, [0]) == Spot([0], 0, false) && Inserted(A4, Spot([0], 0, false), K(0)) == CROWD
    ensures IsPath(CROWD, [0]) && PathSplits(TIGHT, CROWD, [0]) && AdjacentOver(TIGHT, CROWD, [0])
  {
    RankInTwo(K(2), K(4), 0);
    RankInOne(K(1), 0);
    assert Search(Leaf(3, [K(1)]), [0]) == Spot([], 0, false);
    assert [0][1..] == [] && InsertAt([K(1)], 0, K(0)) == [K(0), K(1)];
    assert A4.kids[0 := Leaf(3, [K(0), K(1)])] == CROWD.kids;
    SmallSizes(K(2), K(4));
    SmallSizes(K(0), K(1));
    SplitOfTwo(TIGHT, K(2), K(4));
    SplitOfTwo(TIGHT, K(0), K(1));
  }

  /**
   * After four insertions into a new database the fifth one drops an item: its leaf and the root, which the fourth
   * one has left over-populated, are over-populated together.
   */
  lemma PutCanLoseAnItem() returns (states: seq<Coll>, ops: seq<Op>, c: Coll)
    ensures IsRun(states, ops) && states[0] == NewDatabase(TIGHT) && |ops| == 4 && c == states[4] && IsValid(c)
    ensures var t := TreeOf(c);
            && CanPut(c, t, K(0)) && !HasKey(InOrder(t), [0]) && Crowded(c, t, K(0))
            && IsValid(PutState(c, t, K(0))) && |InOrder(TreeOf(PutState(c, t, K(0))))| <= |InOrder(t)|
  {
    states, ops := FourPuts();
    c := states[4];
    TreeOfIs(c, A4);
    PutFifth();
    SearchFindsKeys(A4, Height(A4), [0]);
    PathSplitsExist(TIGHT, CROWD, [0]);
    PutMeaning(c, A4, K(0));
  }

  // ---------------------------------------------------------------- a session in which `remove` breaks the tree

  /** A node with one item of one byte is under-populated, and one with more than that over-populated. */
  const EVEN := Limits(12.5, 12.5)

  const B1 := Leaf(3, [L(1)])
  const B2 := Tree(4, [K(3)], [Leaf(3, [L(1)]), Leaf(5, [])])
  const B3 := Tree(4, [L(2), K(3)], [Leaf(3, [L(1)]), Leaf(6, []), Leaf(5, [])])
  const LEFT := Tree(4, [L(2)], [Leaf(3, [L(1)]), Leaf(6, [])])
  const B4 := Tree(7, [K(3)], [LEFT, Tree(8, [], [Leaf(5, [K(5)])])])
  const B5 := Tree(7, [K(3)], [LEFT, Tree(8, [K(5)], [Leaf(5, [L(4)]), Leaf(9, [])])])

  lemma EvenSecond()
    ensures Puts(EVEN, B1, Free(3, []), K(3), Spot([], 1, false), Leaf(3, [L(1), K(3)]), B2, Free(5, []))
  {
    var t1 := Leaf(3, [L(1), K(3)]);
    RankInOne(L(1), 3);
    assert InsertAt([L(1)], 1, K(3)) == [L(1), K(3)];
    SmallSizes(L(1), K(3));
    SplitLeafOfTwo(EVEN, Free(4, []), Tree(4, [], [t1]), 0, 3, L(1), K(3));
    assert InsertAt([], 0, K(3)) == [K(3)];
    assert InsertAt([t1][0 := Leaf(3, [L(1)])], 1, Leaf(5, [])) == B2.kids;
  }

  lemma EvenThird()
    ensures var t1 := Tree(4, [K(3)], [Leaf(3, [L(1), L(2)]), Leaf(5, [])]);
            Puts(EVEN, B2, Free(5, []), L(2), Spot([0], 1, false), t1, B3, Free(6, []))
  {
    var leaf := Leaf(3, [L(1), L(2)]);
    var t1 := Tree(4, [K(3)], [leaf, Leaf(5, [])]);
    RankInOne(K(3), 2);
    RankInOne(L(1), 2);
    assert Search(Leaf(3, [L(1)]), [2]) == Spot([], 1, false);
    assert [0][1..] == [] && InsertAt([L(1)], 1, L(2)) == [L(1), L(2)];
    assert B2.kids[0 := leaf] == t1.kids;
    SmallSizes(L(1), L(2));
    SmallSizes(K(3), K(3));
    SplitLeafOfTwo(EVEN, Free(5, []), t1, 0, 3, L(1), L(2));
    assert InsertAt([K(3)], 0, L(2)) == [L(2), K(3)];
    assert InsertAt(t1.kids[0 := Leaf(3, [L(1)])], 1, Leaf(6, [])) == B3.kids;
  }

  const WIDE := Tree(4, [L(2), K(3)], [Leaf(3, [L(1)]), Leaf(6, []), Leaf(5, [K(5)])])

  /** The root, over-populated since the third insertion, is split: its right half has no items and one child. */
  lemma WideGrows()
    ensures CanSplit(EVEN, BodyOf(WIDE)) && GrowInto(EVEN, Free(6, []), WIDE) == B4
  {
    var l, r := LeftTree(WIDE, 1), RightTree(WIDE, 1, 8);
    SplitOfTwo(EVEN, L(2), K(3));
    assert |Pages(WIDE.kids)| == 3;
    assert [L(2), K(3)][..1] == [L(2)] && [L(2), K(3)][2..] == [];
    assert WIDE.kids[..2] == LEFT.kids && WIDE.kids[2..] == [Leaf(5, [K(5)])];
    assert InsertAt([], 0, K(3)) == [K(3)] && InsertAt([WIDE][0 := l], 1, r) == B4.kids;
  }

  lemma EvenFourth()
    ensures Puts(EVEN, B3, Free(6, []), K(5), Spot([2], 0, false), WIDE, B4, Free(8, []))
  {
    RankInTwo(L(2), K(3), 5);
    RankOfNone([5]);
    assert Search(Leaf(5, []), [5]) == Spot([], 0, false);
    assert [2][1..] == [] && InsertAt([], 0, K(5)) == [K(5)];
    assert B3.kids[2 := Leaf(5, [K(5)])] == WIDE.kids && WIDE.kids[2 := Leaf(5, [K(5)])] == WIDE.kids;
    SmallSizes(L(2), K(3));
    SmallSizes(K(5), K(5));
    WideGrows();
  }

  const FULL_RIGHT := Tree(8, [], [Leaf(5, [L(4), K(5)])])
  const SPLIT_RIGHT := Tree(8, [K(5)], [Leaf(5, [L(4)]), Leaf(9, [])])

  lemma RightSplits()
    ensures IsPath(FULL_RIGHT, [0]) && AfterSplits(EVEN, Free(8, []), FULL_RIGHT, [0]) == SPLIT_RIGHT
    ensures PathSplits(EVEN, FULL_RIGHT, [0]) && !AdjacentOver(EVEN, FULL_RIGHT, [0])
    ensures FreeAfter(EVEN, Free(8, []), FULL_RIGHT, [0]) == Free(9, [])
  {
    assert [0][1..] == [];
    SmallSizes(L(4), K(5));
    SplitLeafOfTwo(EVEN, Free(8, []), FULL_RIGHT, 0, 5, L(4), K(5));
    assert InsertAt([], 0, K(5)) == [K(5)];
    assert InsertAt(FULL_RIGHT.kids[0 := Leaf(5, [L(4)])], 1, Leaf(9, [])) == SPLIT_RIGHT.kids;
  }

  lemma SearchB4()
    ensures Search(B4, [4]) == Spot([1, 0], 0, false)
  {
    RankInOne(K(3), 4);
    RankOfNone([4]);
    RankInOne(K(5), 4);
    assert Search(Leaf(5, [K(5)]), [4]) == Spot([], 0, false);
    assert Search(B4.kids[1], [4]) == Spot([0], 0, false);
  }

  lemma InsertedB4()
    ensures IsPath(B4, [1, 0])
    ensures Inserted(B4, Spot([1, 0], 0, false), L(4)) == Tree(7, [K(3)], [LEFT, FULL_RIGHT])
  {
    var right := B4.kids[1];
    assert [1, 0][1..] == [0] && [0][1..] == [];
    assert InsertAt([K(5)], 0, L(4)) == [L(4), K(5)];
    assert right.kids[0 := Leaf(5, [L(4), K(5)])] == FULL_RIGHT.kids;
    assert Graft(right, [0], Leaf(5, [L(4), K(5)])) == FULL_RIGHT;
    assert B4.kids[1 := FULL_RIGHT] == [LEFT, FULL_RIGHT];
  }

  lemma EvenFifth()
    ensures Puts(EVEN, B4, Free(8, []), L(4), Spot([1, 0], 0, false), Tree(7, [K(3)], [LEFT, FULL_RIGHT]), B5,
                 Free(9, []))
  {
    var t1 := Tree(7, [K(3)], [LEFT, FULL_RIGHT]);
    SearchB4();
    InsertedB4();
    RightSplits();
    assert [1, 0][1..] == [0];
    SmallSizes(K(3), K(3));
    assert t1.kids[1 := SPLIT_RIGHT] == B5.kids;
  }

  lemma TwoEvenPuts() returns (states: seq<Coll>, ops: seq<Op>)
    ensures |ops| == 2 && Session(EVEN, states, ops, B2, Free(5, []))
  {
    var s1, o1 := FirstPut(EVEN, L(1));
    EvenSecond();
    states, ops := OnePut(EVEN, s1, o1, B1, Free(3, []), K(3), Spot([], 1, false), Leaf(3, [L(1), K(3)]), B2,
                          Free(5, []));
  }

  lemma ThreeEvenPuts() returns (states: seq<Coll>, ops: seq<Op>)
    ensures |ops| == 3 && Session(EVEN, states, ops, B3, Free(6, []))
  {
    var s2, o2 := TwoEvenPuts();
    EvenThird();
    var t1 := Tree(4, [K(3)], [Leaf(3, [L(1), L(2)]), Leaf(5, [])]);
    states, ops := OnePut(EVEN, s2, o2, B2, Free(5, []), L(2), Spot([0], 1, false), t1, B3, Free(6, []));
  }

  lemma FourEvenPuts() returns (states: seq<Coll>, ops: seq<Op>)
    ensures |ops| == 4 && Session(EVEN, states, ops, B4, Free(8, []))
  {
    var s3, o3 := ThreeEvenPuts();
    EvenFourth();
    states, ops := OnePut(EVEN, s3, o3, B3, Free(6, []), K(5), Spot([2], 0, false), WIDE, B4, Free(8, []));
  }

  lemma FiveEvenPuts() returns (states: seq<Coll>, ops: seq<Op>)
    ensures |ops| == 5 && Session(EVEN, states, ops, B5, Free(9, []))
  {
    var s4, o4 := FourEvenPuts();
    EvenFifth();
    var t1 := Tree(7, [K(3)], [LEFT, FULL_RIGHT]);
    states, ops := OnePut(EVEN, s4, o4, B4, Free(8, []), L(4), Spot([1, 0], 0, false), t1, B5, Free(9, []));
  }

  /** The tree without the item with key 4, before any rebalancing: an empty leaf below a thin node. */
  const EMPTIED := Tree(8, [K(5)], [Leaf(5, []), Leaf(9, [])])
  const THINNER := Tree(7, [K(3)], [LEFT, EMPTIED])

  lemma SearchB5()
    ensures Search(B5, [4]) == Spot([1, 0], 0, true) && Sub(B5, [1, 0]) == Leaf(5, [L(4)])
  {
    RankInOne(K(3), 4);
    RankInOne(K(5), 4);
    RankInOne(L(4), 4);
    assert Search(Leaf(5, [L(4)]), [4]) == Spot([], 0, true);
    assert Search(SPLIT_RIGHT, [4]) == Spot([0], 0, true);
    assert [1, 0][1..] == [0] && [0][1..] == [];
    assert Sub(SPLIT_RIGHT, [0]) == Leaf(5, [L(4)]);
  }

  lemma DeletedB5()
    ensures CanDelete(B5, Spot([1, 0], 0, true))
    ensures Deleted(B5, Spot([1, 0], 0, true)) == THINNER && FullPath(B5, Spot([1, 0], 0, true)) == [1, 0]
  {
    SearchB5();
    assert RemoveAt([L(4)], 0) == [];
    assert Shrunk(Leaf(5, [L(4)]), 0) == Leaf(5, []);
    assert [1, 0][1..] == [0] && [0][1..] == [];
    assert SPLIT_RIGHT.kids[0 := Leaf(5, [])] == EMPTIED.kids;
    assert Graft(SPLIT_RIGHT, [0], Leaf(5, [])) == EMPTIED;
    assert B5.kids[1 := EMPTIED] == THINNER.kids;
    assert [1, 0] + [] == [1, 0];
  }

  lemma ThinnerClashes()
    ensures IsPath(THINNER, [1, 0]) && Clash(EVEN, THINNER, [1, 0]) && SiblingsExist(EVEN, THINNER, [1, 0])
  {
    assert [1, 0][1..] == [0] && [0][1..] == [];
    assert IsPath(EMPTIED, [0]);
    SmallSizes(K(5), K(5));
  }

  /**
   * After five insertions into a new database, a leaf and its parent are under-populated together when the leaf's
   * item is removed, and a pointer to a free page stays behind.
   */
  lemma RemoveCanBreakTheTree() returns (states: seq<Coll>, ops: seq<Op>, c: Coll)
    ensures IsRun(states, ops) && states[0] == NewDatabase(EVEN) && |ops| == 5 && c == states[5] && IsValid(c)
    ensures var t := TreeOf(c);
            && CanRemove(c, t, [4]) && HasKey(InOrder(t), [4])
            && Clashes(c, t, [4]) && !IsValid(RemoveState(c, t, [4]))
  {
    states, ops := FiveEvenPuts();
    c := states[5];
    TreeOfIs(c, B5);
    SearchB5();
    DeletedB5();
    ThinnerClashes();
    SearchFindsKeys(B5, Height(B5), [4]);
    RemoveIsDeletionIff(c, B5, [4]);
  }

  // ---------------------------------------------------------------- sizes

  /** A split whose left half is under-populated, because page numbers were counted twice. */
  lemma LeftHalfCanBeUnder()
    ensures var o, items := Limits(20.0, 100.0), [K(1), K(2), K(3), K(4)];
            SplitIndex(o, items) == 2 && Under(o, items[..2])
  {
    var items := [K(1), K(2), K(3), K(4)];
    SmallSizes(K(1), K(2));
    assert items[..0 + 1] == [K(1)] && items[..1 + 1] == [K(1), K(2)] && items[..1] == [K(1)]
           && items[..2] == [K(1), K(2)];
  }

  // ---------------------------------------------------------------- the free list in the file

  /**
   * The free list in the file is the one from before the first node got its page, and it stays so. An allocator
   * read back from it gives out, as its second page, the page of the root that the first `put` made.
   */
  lemma StoredFreelistIsStale(limits: Limits, item: Item)
    ensures IsValid(NewDatabase(limits)) && TreeOf(NewDatabase(limits)) == NO_TREE
            && CanPut(NewDatabase(limits), NO_TREE, item)
    ensures Survivor(Free(1, [])) == Free(1, [])
    ensures Nth(Free(1, []), 1) == PutState(NewDatabase(limits), NO_TREE, item).root
  {
    NewDatabaseIsEmpty(limits);
    assert Valid(NewDatabase(limits), NO_TREE);
    TreeOfIs(NewDatabase(limits), NO_TREE);
    CutIsLess(1);
    CutIsLess(0);
    assert NextPage(Free(1, [])).0 == Free(2, []);
  }
}
