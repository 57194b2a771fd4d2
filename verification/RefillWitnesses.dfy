/** A session from a new database after which a removal leaves a node with too little and one with too much. */
module RefillWitnesses {
  import opened KeyOrder
  import opened Trees
  import opened Sizing
  import opened Freelists
  import opened Store
  import opened Lookup
  import opened Splitting
  import opened Collections
  import opened Putting
  import opened Rebalancing
  import opened Removing
  import opened Runs
  import opened Populations
  import opened UnderPopulations
  import opened RemovalFit
  import opened RemovalEnds
  import opened Witnesses

  /** One item of five bytes is enough for a node, one of one byte is not, and three of five bytes are too many. */
  const LOOSE := Limits(13.0, 24.0)

  const C1 := Leaf(3, [L(1)])
  const C2 := Leaf(3, [L(1), L(2)])
  const C3 := Tree(4, [L(2)], [Leaf(3, [L(1)]), Leaf(5, [L(3)])])
  const C4 := Tree(4, [L(2)], [Leaf(3, [L(1)]), Leaf(5, [L(3), L(4)])])
  const C5 := Tree(4, [L(2), L(4)], [Leaf(3, [L(1)]), Leaf(5, [L(3)]), Leaf(6, [L(5)])])
  const C6 := Tree(4, [L(2), L(4)], [Leaf(3, [L(1)]), Leaf(5, [L(3)]), Leaf(6, [L(5), K(6)])])

  lemma ThreeSizes(x: Item, y: Item, z: Item)
    ensures NodeSize([x, y, z]) == 11 + Weight(x) + Weight(y) + Weight(z)
  {
    SmallSizes(x, y);
    assert [x, y, z][..2] == [x, y];
  }

  /** Three items are split after the first one, if it is above the minimum. */
  lemma SplitLeafOfThree(o: Limits, free: Free, t: Tree, k: nat, page: nat, x: Item, y: Item, z: Item)
    requires (11 + Weight(x)) as real > o.min && k <= |t.items| && k < |t.kids|
    ensures SplitIndex(o, [x, y, z]) == 1 && CanSplit(o, BodyOf(Leaf(page, [x, y, z])))
    ensures SplitInto(o, free, t, k, Leaf(page, [x, y, z]))
         == Tree(t.page, InsertAt(t.items, k, y),
                 InsertAt(t.kids[k := Leaf(page, [x])], k + 1, Leaf(NextPage(free).1, [z])))
  {
    var items := [x, y, z];
    SmallSizes(x, y);
    assert items[..0 + 1] == [x] && items[..1] == [x] && items[2..] == [z];
    assert Pages([]) == [];
  }

  lemma LooseSecond()
    ensures Puts(LOOSE, C1, Free(3, []), L(2), Spot([], 1, false), C2, C2, Free(3, []))
  {
    RankInOne(L(1), 2);
    assert InsertAt([L(1)], 1, L(2)) == [L(1), L(2)];
    SmallSizes(L(1), L(2));
  }

  lemma LooseThird()
    ensures Puts(LOOSE, C2, Free(3, []), L(3), Spot([], 2, false), Leaf(3, [L(1), L(2), L(3)]), C3, Free(5, []))
  {
    var t1 := Leaf(3, [L(1), L(2), L(3)]);
    RankInTwo(L(1), L(2), 3);
    assert InsertAt([L(1), L(2)], 2, L(3)) == t1.items;
    ThreeSizes(L(1), L(2), L(3));
    SplitLeafOfThree(LOOSE, Free(4, []), Tree(4, [], [t1]), 0, 3, L(1), L(2), L(3));
    assert InsertAt([], 0, L(2)) == [L(2)];
    assert InsertAt([t1][0 := Leaf(3, [L(1)])], 1, Leaf(5, [L(3)])) == C3.kids;
  }

  lemma LooseFourth()
    ensures Puts(LOOSE, C3, Free(5, []), L(4), Spot([1], 1, false), C4, C4, Free(5, []))
  {
    RankInOne(L(2), 4);
    RankInOne(L(3), 4);
    assert Search(Leaf(5, [L(3)]), [4]) == Spot([], 1, false);
    assert [1][1..] == [] && InsertAt([L(3)], 1, L(4)) == [L(3), L(4)];
    assert C3.kids[1 := Leaf(5, [L(3), L(4)])] == C4.kids && C4.kids[1 := Leaf(5, [L(3), L(4)])] == C4.kids;
    SmallSizes(L(3), L(4));
    SmallSizes(L(2), L(2));
  }

  const FILLED := Tree(4, [L(2)], [Leaf(3, [L(1)]), Leaf(5, [L(3), L(4), L(5)])])

  lemma SearchC4()
    ensures Search(C4, [5]) == Spot([1], 2, false) && Inserted(C4, Spot([1], 2, false), L(5)) == FILLED
  {
    RankInOne(L(2), 5);
    RankInTwo(L(3), L(4), 5);
    assert Search(Leaf(5, [L(3), L(4)]), [5]) == Spot([], 2, false);
    assert [1][1..] == [] && InsertAt([L(3), L(4)], 2, L(5)) == [L(3), L(4), L(5)];
    assert C4.kids[1 := Leaf(5, [L(3), L(4), L(5)])] == FILLED.kids;
  }

  lemma LooseFifth()
    ensures Puts(LOOSE, C4, Free(5, []), L(5), Spot([1], 2, false), FILLED, C5, Free(6, []))
  {
    SearchC4();
    assert [1][1..] == [];
    ThreeSizes(L(3), L(4), L(5));
    SmallSizes(L(2), L(2));
    SplitLeafOfThree(LOOSE, Free(5, []), FILLED, 1, 5, L(3), L(4), L(5));
    assert InsertAt([L(2)], 1, L(4)) == [L(2), L(4)];
    assert InsertAt(FILLED.kids[1 := Leaf(5, [L(3)])], 2, Leaf(6, [L(5)])) == C5.kids;
  }

  lemma LooseSixth()
    ensures Puts(LOOSE, C5, Free(6, []), K(6), Spot([2], 1, false), C6, C6, Free(6, []))
  {
    var leaf := Leaf(6, [L(5), K(6)]);
    RankInTwo(L(2), L(4), 6);
    RankInOne(L(5), 6);
    assert Search(Leaf(6, [L(5)]), [6]) == Spot([], 1, false);
    assert [2][1..] == [] && InsertAt([L(5)], 1, K(6)) == [L(5), K(6)];
    assert C5.kids[2 := leaf] == C6.kids && C6.kids[2 := leaf] == C6.kids;
    SmallSizes(L(5), K(6));
    SmallSizes(L(2), L(4));
  }

  lemma ThreeLoosePuts() returns (states: seq<Coll>, ops: seq<Op>)
    ensures |ops| == 3 && Session(LOOSE, states, ops, C3, Free(5, []))
  {
    var s1, o1 := FirstPut(LOOSE, L(1));
    LooseSecond();
    var s2, o2 := OnePut(LOOSE, s1, o1, C1, Free(3, []), L(2), Spot([], 1, false), C2, C2, Free(3, []));
    LooseThird();
    var t1 := Leaf(3, [L(1), L(2), L(3)]);
    states, ops := OnePut(LOOSE, s2, o2, C2, Free(3, []), L(3), Spot([], 2, false), t1, C3, Free(5, []));
  }

  lemma SixLoosePuts() returns (states: seq<Coll>, ops: seq<Op>)
    ensures |ops| == 6 && Session(LOOSE, states, ops, C6, Free(6, []))
  {
    var s3, o3 := ThreeLoosePuts();
    LooseFourth();
    var s4, o4 := OnePut(LOOSE, s3, o3, C3, Free(5, []), L(4), Spot([1], 1, false), C4, C4, Free(5, []));
    LooseFifth();
    var s5, o5 := OnePut(LOOSE, s4, o4, C4, Free(5, []), L(5), Spot([1], 2, false), FILLED, C5, Free(6, []));
    LooseSixth();
    states, ops := OnePut(LOOSE, s5, o5, C5, Free(6, []), K(6), Spot([2], 1, false), C6, C6, Free(6, []));
  }

  lemma LooseIsEnough()
    ensures Enough(LOOSE, C6) && Within(LOOSE, C6)
  {
    SmallSizes(L(1), L(1));
    SmallSizes(L(2), L(4));
    SmallSizes(L(3), L(3));
    SmallSizes(L(5), K(6));
    assert Enough(LOOSE, Leaf(3, [L(1)])) && Enough(LOOSE, Leaf(5, [L(3)])) && Enough(LOOSE, Leaf(6, [L(5), K(6)]));
    assert Within(LOOSE, Leaf(3, [L(1)])) && Within(LOOSE, Leaf(5, [L(3)])) && Within(LOOSE, Leaf(6, [L(5), K(6)]));
  }

  /** The tree without the item with key 3: an empty leaf, to the left of one that can spare its item of five bytes. */
  const GAP := Tree(4, [L(2), L(4)], [Leaf(3, [L(1)]), Leaf(5, []), Leaf(6, [L(5), K(6)])])

  lemma DeletedC6()
    ensures Search(C6, [3]) == Spot([1], 0, true) && CanDelete(C6, Spot([1], 0, true))
    ensures Deleted(C6, Spot([1], 0, true)) == GAP && FullPath(C6, Spot([1], 0, true)) == [1]
  {
    RankInTwo(L(2), L(4), 3);
    RankInOne(L(3), 3);
    assert Search(Leaf(5, [L(3)]), [3]) == Spot([], 0, true);
    assert [1][1..] == [] && RemoveAt([L(3)], 0) == [];
    assert Shrunk(Leaf(5, [L(3)]), 0) == Leaf(5, []);
    assert C6.kids[1 := Leaf(5, [])] == GAP.kids;
    assert [1] + [] == [1];
  }

  lemma GapLeavesShort()
    ensures IsPath(GAP, [1]) && SiblingsExist(LOOSE, GAP, [1]) && !Clash(LOOSE, GAP, [1]) && !Refilled(LOOSE, GAP, [1])
  {
    assert [1][1..] == [] && [L(5), K(6)][1..] == [K(6)];
    SmallSizes(K(6), K(6));
    SplitOfTwo(LOOSE, L(5), K(6));
  }

  /** The merged node takes two separators and has three items of five bytes. */
  lemma GapMakesTooMuch()
    ensures IsPath(GAP, [1]) && !LoopLeaves(NotOver(LOOSE), LOOSE, GAP, [1])
  {
    assert [1][1..] == [];
    GapMerged();
    ThreeSizes(L(1), L(2), L(4));
  }

  lemma GapMerged()
    ensures var f := FamilyOf(GAP, 1, BodyOf(GAP.kids[1]));
            Proper(f) && Merged(LOOSE, f).items == [L(1), L(2), L(4)]
  {
    assert |Pages(GAP.kids)| == 3 && Pages([]) == [];
    SmallSizes(K(6), K(6));
    SplitOfTwo(LOOSE, L(5), K(6));
  }

  /**
   * After six insertions into a new database every node is within both thresholds. Removing one key then leaves
   * leaves outside both, although no stale copy is used: the right sibling gave away the larger of its items, and the
   * merged leaf has more than the maximum.
   */
  lemma RemoveCanLeaveTooLittle() returns (states: seq<Coll>, ops: seq<Op>, c: Coll)
    ensures IsRun(states, ops) && states[0] == NewDatabase(LOOSE) && |ops| == 6 && c == states[6] && IsValid(c)
    ensures var t := TreeOf(c);
            && Enough(LOOSE, t) && Within(LOOSE, t) && CanRemove(c, t, [3]) && HasKey(InOrder(t), [3])
            && IsValid(RemoveState(c, t, [3])) && !AllEnough(LOOSE, TreeOf(RemoveState(c, t, [3])).kids)
            && !Within(LOOSE, TreeOf(RemoveState(c, t, [3])))
  {
    states, ops := SixLoosePuts();
    c := states[6];
    TreeOfIs(c, C6);
    LooseIsEnough();
    DeletedC6();
    GapLeavesShort();
    SearchFindsKeys(C6, Height(C6), [3]);
    GapMakesTooMuch();
    RemoveRefillsIff(c, C6, [3]);
    RemoveStaysWithinIff(c, C6, [3]);
    TreeOfIs(RemoveState(c, C6, [3]), RemoveTree(c, C6, [3]));
  }
}
