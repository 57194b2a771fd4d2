/**
 * A session from a new database with small pages that ends in a removal which writes a parent too big for its page,
 * and writes over it again before anybody reads it.
 */
module RotationWitnesses {
  import opened KeyOrder
  import opened Trees
  import opened Sizing
  import opened Freelists
  import opened Store
  import opened Lookup
  import opened Splitting
  import opened Collections
  import opened Putting
  import opened Rebalancing
  import opened Removing
  import opened Runs
  import opened InsertionEnds
  import opened NodeCodec
  import opened PageFit
  import opened RemovalFit
  import opened RemovalEnds
  import opened RemovalRoom
  import opened RemovalImages
  import opened PagedOperations
  import opened Witnesses
  import opened RefillWitnesses
  import opened PageWitnesses

  const SIZE := 38

  /** An empty leaf is under-populated, and one of more than four bytes over-populated. */
  const NARROW := Limits(11.5, 15.0)

  /** Items of two and of three bytes. */
  function D(n: byte): Item { Item([n], [0]) }

  function T(n: byte): Item { Item([n], [0, 0]) }

  const R1 := Leaf(3, [K(0)])
  const R2 := Leaf(3, [K(0), K(2)])
  const R3 := Tree(4, [K(2)], [Leaf(3, [K(0)]), Leaf(5, [T(3)])])
  const R4 := Tree(4, [K(2)], [Leaf(3, [K(0)]), Leaf(5, [T(3), K(4)])])
  const R5 := Tree(4, [K(2), K(4)], [Leaf(3, [K(0)]), Leaf(5, [T(3)]), Leaf(6, [K(5)])])
  const R6 := Tree(4, [K(2), K(4)], [Leaf(3, [K(0), D(1)]), Leaf(5, [T(3)]), Leaf(6, [K(5)])])

  // ---------------------------------------------------------------- sizes

  predicate Tiny(items: seq<Item>) {
    forall i :: 0 <= i < |items| ==> |items[i].key| <= 1 && |items[i].value| <= 2
  }

  /** On these pages a leaf has room for 34 bytes with four for each item, an inner node for 26 with twelve. */
  lemma TinyFits(items: seq<Item>, children: seq<nat>)
    requires Tiny(items) && |items| <= 3 && (children == [] || |children| == |items| + 1)
    requires forall i :: 0 <= i < |children| ==> children[i] < 65536
    ensures Fits(SIZE, Body(items, children)) <==>
              if children == [] then NodeSize(items) + 4 * |items| <= 45 else NodeSize(items) + 12 * |items| <= 37
    ensures children != [] ==>
              (InBuffer(SIZE, Body(items, children)) <==>
                 11 + 10 * |items| <= 38 && NodeSize(items) + 2 * |items| <= 48)
  {
    var b := Body(items, children);
    PageWitnesses.Widths();
    assert forall i :: 0 <= i < |items| ==> ShortItem(items[i]);
    assert forall i :: 0 <= i < |children| ==> IsPageNum(children[i]);
    CursorsApartIff(SIZE, b);
    RightIsPayload(SIZE, items, |items|);
    assert items[..|items|] == items;
  }

  // ---------------------------------------------------------------- the session

  lemma StepOne()
    ensures Reached(SIZE, NARROW, 1, R1, Free(3, []))
  {
    SmallSizes(K(0), K(0));
    TinyFits([K(0)], []);
    TinyFits([], []);
    FirstFits(SIZE, NARROW, K(0));
  }

  lemma StepTwo()
    ensures StepsTo(SIZE, NARROW, R1, Free(3, []), K(2), R2, Free(3, []))
  {
    RankInOne(K(0), 2);
    assert InsertAt([K(0)], 1, K(2)) == [K(0), K(2)];
    SmallSizes(K(0), K(2));
    TinyFits([K(0), K(2)], []);
    assert Pages([]) == [];
    IsStep(SIZE, NARROW, R1, Free(3, []), K(2), Spot([], 1, false), R2, R2, Free(3, []));
  }

  const FULL := Leaf(3, [K(0), K(2), T(3)])

  lemma FullGrows()
    ensures CanSplit(NARROW, BodyOf(FULL)) && GrowInto(NARROW, Free(3, []), FULL) == R3
    ensures NewRoot(NARROW, Free(3, []), FULL) == Body([K(2)], [3, 5])
  {
    SplitLeafOfThree(NARROW, Free(4, []), Tree(4, [], [FULL]), 0, 3, K(0), K(2), T(3));
    assert InsertAt([], 0, K(2)) == [K(2)];
    assert InsertAt([FULL][0 := Leaf(3, [K(0)])], 1, Leaf(5, [T(3)])) == R3.kids;
  }

  lemma StepThree()
    ensures StepsTo(SIZE, NARROW, R2, Free(3, []), T(3), R3, Free(5, []))
  {
    RankInTwo(K(0), K(2), 3);
    assert InsertAt([K(0), K(2)], 2, T(3)) == FULL.items;
    ThreeSizes(K(0), K(2), T(3));
    assert Fits(SIZE, Body(FULL.items, [])) && Fits(SIZE, Body([K(2)], [3, 5])) by {
      SmallSizes(K(2), K(2));
      TinyFits(FULL.items, []);
      TinyFits([K(2)], [3, 5]);
    }
    FullGrows();
    assert Pages([]) == [];
    SplitsAtRoot(SIZE, NARROW, R2, Free(3, []), T(3), Spot([], 2, false), FULL);
  }

  lemma StepFour()
    ensures StepsTo(SIZE, NARROW, R3, Free(5, []), K(4), R4, Free(5, []))
  {
    var leaf := Leaf(5, [T(3), K(4)]);
    RankInOne(K(2), 4);
    RankInOne(T(3), 4);
    assert Search(Leaf(5, [T(3)]), [4]) == Spot([], 1, false);
    assert [1][1..] == [] && InsertAt([T(3)], 1, K(4)) == [T(3), K(4)];
    assert R3.kids[1 := leaf] == R4.kids && R4.kids[1 := leaf] == R4.kids;
    SmallSizes(T(3), K(4));
    SmallSizes(K(2), K(2));
    TinyFits([T(3), K(4)], []);
    assert Pages([]) == [];
    IsStep(SIZE, NARROW, R3, Free(5, []), K(4), Spot([1], 1, false), R4, R4, Free(5, []));
  }

  const LONG := Tree(4, [K(2)], [Leaf(3, [K(0)]), Leaf(5, [T(3), K(4), K(5)])])

  lemma LongDivides()
    ensures SplitIndex(NARROW, LONG.kids[1].items) == 1 && CanSplit(NARROW, BodyOf(LONG.kids[1]))
    ensures SplitInto(NARROW, Free(5, []), LONG, 1, LONG.kids[1]) == R5
    ensures Adopted(NARROW, Free(5, []), LONG, 1) == Body([K(2), K(4)], [3, 5, 6])
  {
    SplitLeafOfThree(NARROW, Free(5, []), LONG, 1, 5, T(3), K(4), K(5));
    assert InsertAt([K(2)], 1, K(4)) == [K(2), K(4)];
    assert InsertAt(LONG.kids[1 := Leaf(5, [T(3)])], 2, Leaf(6, [K(5)])) == R5.kids;
    assert Pages(LONG.kids) == [3, 5] && InsertAt([3, 5], 2, 6) == [3, 5, 6];
  }

  lemma SearchR4()
    ensures Search(R4, [5]) == Spot([1], 2, false) && Inserted(R4, Spot([1], 2, false), K(5)) == LONG
    ensures BodyOf(Grown(R4, Spot([1], 2, false), K(5))) == Body([T(3), K(4), K(5)], [])
  {
    RankInOne(K(2), 5);
    RankInTwo(T(3), K(4), 5);
    assert Search(Leaf(5, [T(3), K(4)]), [5]) == Spot([], 2, false);
    assert [1][1..] == [] && InsertAt([T(3), K(4)], 2, K(5)) == [T(3), K(4), K(5)];
    assert R4.kids[1 := Leaf(5, [T(3), K(4), K(5)])] == LONG.kids;
    assert Pages([]) == [];
  }

  /** What the loop makes of the tree with three items in its right leaf. */
  lemma LongLoop()
    ensures IsPath(LONG, [1]) && PathSplits(NARROW, LONG, [1]) && !AdjacentOver(NARROW, LONG, [1])
    ensures !Over(NARROW, LONG.items) && ParentsFit(SIZE, NARROW, Free(5, []), LONG, [1])
    ensures AfterSplits(NARROW, Free(5, []), LONG, [1]) == R5
    ensures FreeAfter(NARROW, Free(5, []), LONG, [1]) == Free(6, [])
  {
    assert [1][1..] == [];
    ThreeSizes(T(3), K(4), K(5));
    SmallSizes(K(2), K(4));
    TinyFits([K(2), K(4)], [3, 5, 6]);
    LongDivides();
  }

  lemma StepFive()
    ensures StepsTo(SIZE, NARROW, R4, Free(5, []), K(5), R5, Free(6, []))
  {
    SearchR4();
    LongLoop();
    ThreeSizes(T(3), K(4), K(5));
    TinyFits([T(3), K(4), K(5)], []);
    SplitsBelow(SIZE, NARROW, R4, Free(5, []), K(5), Spot([1], 2, false), LONG);
  }

  lemma StepSix()
    ensures StepsTo(SIZE, NARROW, R5, Free(6, []), D(1), R6, Free(6, []))
  {
    var leaf := Leaf(3, [K(0), D(1)]);
    RankInTwo(K(2), K(4), 1);
    RankInOne(K(0), 1);
    assert Search(Leaf(3, [K(0)]), [1]) == Spot([], 1, false);
    assert [0][1..] == [] && InsertAt([K(0)], 1, D(1)) == [K(0), D(1)];
    assert R5.kids[0 := leaf] == R6.kids && R6.kids[0 := leaf] == R6.kids;
    SmallSizes(K(0), D(1));
    SmallSizes(K(2), K(4));
    TinyFits([K(0), D(1)], []);
    assert Pages([]) == [];
    IsStep(SIZE, NARROW, R5, Free(6, []), D(1), Spot([0], 1, false), R6, R6, Free(6, []));
  }

  lemma ThreeSteps()
    ensures Reached(SIZE, NARROW, 3, R3, Free(5, []))
  {
    StepOne();
    StepTwo();
    NextFits(SIZE, NARROW, 1, R1, Free(3, []), K(2), R2, Free(3, []));
    StepThree();
    NextFits(SIZE, NARROW, 2, R2, Free(3, []), T(3), R3, Free(5, []));
  }

  lemma FourSteps()
    ensures Reached(SIZE, NARROW, 4, R4, Free(5, []))
  {
    ThreeSteps();
    StepFour();
    NextFits(SIZE, NARROW, 3, R3, Free(5, []), K(4), R4, Free(5, []));
  }

  lemma FiveSteps()
    ensures Reached(SIZE, NARROW, 5, R5, Free(6, []))
  {
    FourSteps();
    StepFive();
    NextFits(SIZE, NARROW, 4, R4, Free(5, []), K(5), R5, Free(6, []));
  }

  lemma SixSteps()
    ensures Reached(SIZE, NARROW, 6, R6, Free(6, []))
  {
    FiveSteps();
    StepSix();
    NextFits(SIZE, NARROW, 5, R5, Free(6, []), D(1), R6, Free(6, []));
  }

  // ---------------------------------------------------------------- the removal

  /** The tree without the item with key 3, before any rebalancing. */
  const HOLLOW := Tree(4, [K(2), K(4)], [Leaf(3, [K(0), D(1)]), Leaf(5, []), Leaf(6, [K(5)])])

  lemma DeletedR6()
    ensures Search(R6, [3]) == Spot([1], 0, true) && Sub(R6, [1]) == Leaf(5, [T(3)])
    ensures CanDelete(R6, Spot([1], 0, true)) && Deleted(R6, Spot([1], 0, true)) == HOLLOW
    ensures FullPath(R6, Spot([1], 0, true)) == [1]
  {
    RankInTwo(K(2), K(4), 3);
    RankInOne(T(3), 3);
    assert Search(Leaf(5, [T(3)]), [3]) == Spot([], 0, true);
    assert [1][1..] == [] && RemoveAt([T(3)], 0) == [];
    assert Shrunk(Leaf(5, [T(3)]), 0) == Leaf(5, []);
    assert R6.kids[1 := Leaf(5, [])] == HOLLOW.kids;
    assert [1] + [] == [1];
  }

  /** The family around the empty leaf: the left sibling gives the larger of its items. */
  lemma HollowFamily()
    ensures var f := FamilyOf(HOLLOW, 1, BodyOf(HOLLOW.kids[1]));
            && f == Family(Body([K(2), K(4)], [3, 5, 6]), 1, Body([K(0), D(1)], []), Body([], []), Body([K(5)], []),
                           Body([], []))
            && Proper(f) && LeftSpares(NARROW, f) && !RightSpares(NARROW, f)
            && Merged(NARROW, f) == Body([K(0), D(1), K(2)], []) && ParentAfter(NARROW, f) == Body([K(4)], [3, 6])
            && LeftParent(NARROW, f) == Body([D(1), K(4)], [3, 5, 6])
  {
    var f := FamilyOf(HOLLOW, 1, BodyOf(HOLLOW.kids[1]));
    assert Pages(HOLLOW.kids) == [3, 5, 6] && Pages([]) == [];
    SplitOfTwo(NARROW, K(0), D(1));
    assert [K(2), K(4)][0 := D(1)] == [D(1), K(4)];
    assert RemoveAt([D(1), K(4)], 0) == [K(4)] && RemoveAt([3, 5, 6], 1) == [3, 6];
  }

  lemma HollowHasRoom()
    ensures IsPath(HOLLOW, [1]) && SiblingsExist(NARROW, HOLLOW, [1]) && !Clash(NARROW, HOLLOW, [1])
    ensures LoopLeaves(FitsOn(SIZE), NARROW, HOLLOW, [1]) && LoopInside(SIZE, NARROW, HOLLOW, [1])
    ensures Fits(SIZE, BodyNow(NARROW, HOLLOW, [1])) && !StepsFit(SIZE, NARROW, HOLLOW, [1])
  {
    assert [1][1..] == [];
    HollowFamily();
    HollowBodies();
    SmallSizes(K(0), D(1));
  }

  lemma HollowBodies()
    ensures Fits(SIZE, Body([K(0), D(1), K(2)], [])) && Fits(SIZE, Body([K(4)], [3, 6]))
    ensures !Fits(SIZE, Body([D(1), K(4)], [3, 5, 6])) && InBuffer(SIZE, Body([D(1), K(4)], [3, 5, 6]))
  {
    ThreeSizes(K(0), D(1), K(2));
    TinyFits([K(0), D(1), K(2)], []);
    SmallSizes(K(4), K(4));
    TinyFits([K(4)], [3, 6]);
    SmallSizes(D(1), K(4));
    TinyFits([D(1), K(4)], [3, 5, 6]);
  }

  /**
   * After six insertions into a new database on pages of 38 bytes, a removal takes out exactly its item and leaves
   * nodes that fit, although one of the parents that it writes does not fit its page.
   */
  lemma OverwrittenParentMayOverrun() returns (states: seq<Coll>, ops: seq<Op>, c: Coll)
    ensures IsRunOn(SIZE, states, ops) && states[0] == NewDatabase(NARROW) && |ops| == 6 && c == states[6]
    ensures Fitting(SIZE, c.db) && Allowed(c, Remove([3])) && HasKey(InOrder(TreeOf(c)), [3])
    ensures HasRoom(SIZE, c, Remove([3])) && OnPages(SIZE, Next(c, Remove([3])))
    ensures !WritesFit(SIZE, c, Remove([3])) && !Fitting(SIZE, Next(c, Remove([3])).db)
  {
    SixSteps();
    states, ops := SessionTo(SIZE, NARROW, 6, R6, Free(6, []));
    c := states[6];
    TreeOfIs(c, R6);
    HollowRemoval(c);
    assert Fits(SIZE, Body([], [])) by {
      TinyFits([], []);
      SmallSizes(K(0), K(0));
    }
    SessionHasRoom(SIZE, NARROW, states, ops);
    FittingIsOnPages(SIZE, c, R6);
    StepStaysOnPages(SIZE, c, Remove([3]));
    OperationFitsIff(SIZE, c, Remove([3]));
  }

  lemma HollowRemoval(c: Coll)
    requires Valid(c, R6) && c.root == 4 && c.db.lim == NARROW
    ensures CanRemove(c, R6, [3]) && Search(R6, [3]).found && HasKey(InOrder(R6), [3]) && !Clashes(c, R6, [3])
    ensures RemoveHasRoom(SIZE, c, R6, [3]) && StaysInside(SIZE, c, R6, [3]) && !RemoveFits(SIZE, c, R6, [3])
  {
    DeletedR6();
    HollowHasRoom();
    SearchFindsKeys(R6, Height(R6), [3]);
  }
}
