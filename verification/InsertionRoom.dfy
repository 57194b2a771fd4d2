/** What an insertion needs of its pages, exactly (core/collection.cpp, core/node.h). */
module InsertionRoom {
  import opened KeyOrder
  import opened Trees
  import opened Sizing
  import opened Freelists
  import opened Store
  import opened Lookup
  import opened Splitting
  import opened Collections
  import opened Putting
  import opened ExistingKeys
  import opened NodeCodec
  import opened NodeProperties
  import opened InsertionEnds
  import opened PageFit

  /** The nodes of the path are read again after the node with the new item is written, and then fit. */
  predicate PutReads(size: nat, c: Coll, t: Tree, item: Item)
    requires CanPut(c, t, item)
  {
    c.root != 0 ==>
      var s := Search(t, item.key);
      PathReads(size, Write(c.db, CopyOf(Grown(t, s, item))), Along(Inserted(t, s, item), s.path))
  }

  /** The node with the new item is among those that are read again. */
  lemma PutReadsIff(size: nat, c: Coll, t: Tree, item: Item)
    requires Valid(c, t) && CanPut(c, t, item) && c.root != 0 && !HasKey(InOrder(t), item.key) && TreeFits(size, t)
    ensures PutReads(size, c, t, item) <==> Fits(size, BodyOf(Grown(t, Search(t, item.key), item)))
    ensures PutReads(size, c, t, item) ==> TreeFits(size, Inserted(t, Search(t, item.key), item))
  {
    var s, h := Search(t, item.key), Height(t);
    var v, t1 := Grown(t, s, item), Inserted(t, s, item);
    var d := Write(c.db, CopyOf(v));
    SearchIsExact(t, h, item.key);
    SearchFindsKeys(t, h, item.key);
    SubShape(t, h, s.path);
    SafeIsDistinct(c.db.free, Bag(t));
    InsertedStored(c.db, t, s, item);
    AlongStored(t1, s.path, d.pages);
    assert s.path + [] == s.path;
    AlongGraft(t, s.path, v, []);
    if PutReads(size, c, t, item) {
      assert Readable(size, d, Along(t1, s.path)[|s.path|].page);
    }
    if Fits(size, BodyOf(v)) {
      TreeFitsIs(size, v);
      GraftEvery(FitsOn(size), t, s.path, v);
      AlongFits(size, t1, s.path);
    }
  }

  /** The parents of the loop fit exactly if every node that it leaves changed does. */
  lemma {:induction false} ParentsFitIff(size: nat, o: Limits, free: Free, t: Tree, path: seq<nat>)
    requires IsPath(t, path) && PathSplits(o, t, path) && !AdjacentOver(o, t, path) && TreeFits(size, t)
    ensures ParentsFit(size, o, free, t, path) <==>
              SplitsLeave(FitsOn(size), o, free, t, path) && Fits(size, BodyAfter(o, free, t, path))
    decreases |path|
  {
    TreeFitsIs(size, t);
    if path != [] {
      var kid := t.kids[path[0]];
      assert EveryNode(FitsOn(size), kid);
      ParentsFitIff(size, o, free, kid, path[1..]);
      TreeFitsIs(size, kid);
      if Over(o, kid.items) {
        PageFit.HalvesFit(size, BodyOf(kid), SplitIndex(o, kid.items));
      }
    }
  }

  /** There is room for an insertion exactly if every node that it leaves changed fits, and the leaf in between. */
  lemma PutFitsLeaves(size: nat, c: Coll, t: Tree, item: Item)
    requires Valid(c, t) && CanPut(c, t, item) && !Crowded(c, t, item) && c.root != 0
    requires TreeFits(size, Inserted(t, Search(t, item.key), item))
    requires Fits(size, BodyOf(Grown(t, Search(t, item.key), item)))
    ensures PutFits(size, c, t, item) <==> PutLeaves(FitsOn(size), c, t, item)
  {
    var s := Search(t, item.key);
    var t1 := Inserted(t, s, item);
    PathSplitsIs(c.db.lim, t1, s.path);
    TreeLeavesFit(size, c.db.lim, c.db.free, t1, s.path);
  }

  lemma TreeLeavesFit(size: nat, o: Limits, free: Free, t: Tree, path: seq<nat>)
    requires IsPath(t, path) && PathSplits(o, t, path) && !AdjacentOver(o, t, path) && TreeFits(size, t)
    ensures TreeLeaves(FitsOn(size), o, free, t, path) <==>
              && ParentsFit(size, o, free, t, path)
              && (Over(o, t.items) && SplitIndex(o, t.items) != -1 ==>
                    Fits(size, NewRoot(o, FreeAfter(o, free, t, path), t)))
  {
    ParentsFitIff(size, o, free, t, path);
    TreeFitsIs(size, t);
    if Over(o, t.items) && CanSplit(o, BodyOf(t)) {
      HalvesAreGood(size, o, BodyOf(t));
    }
  }

  lemma HalvesAreGood(size: nat, o: Limits, b: Body)
    requires CanSplit(o, b) && Fits(size, b)
    ensures GoodHalves(FitsOn(size), o, b)
  {
    PageFit.HalvesFit(size, b, SplitIndex(o, b.items));
  }

  /**
   * Exactly when `put` inserts its item at the key's place and leaves nodes that fit, reading nothing that does not
   * fit.
   */
  lemma PutRoomIff(size: nat, c: Coll, t: Tree, item: Item)
    requires Valid(c, t) && CanPut(c, t, item) && (c.root != 0 ==> TreeFits(size, t))
    ensures PlaceOf(t, item.key) <= |InOrder(t)|
    ensures (exists u :: Valid(PutState(c, t, item), u) && TreeFits(size, u)
                         && InOrder(u) == InsertAt(InOrder(t), PlaceOf(t, item.key), item))
            && PutReads(size, c, t, item)
            <==> !HasKey(InOrder(t), item.key) && !Crowded(c, t, item) && PutFits(size, c, t, item)
  {
    PutIsInsertionExactly(c, t, item);
    if !HasKey(InOrder(t), item.key) && !Crowded(c, t, item) {
      PutEveryIff(FitsOn(size), c, t, item);
      var u := PutInserts(c, t, item);
      forall v | Valid(PutState(c, t, item), v)
        ensures v == u
      {
        ValidUnique(PutState(c, t, item), u, v);
      }
      if c.root != 0 {
        PutReadsIff(size, c, t, item);
        if PutReads(size, c, t, item) {
          PutFitsLeaves(size, c, t, item);
        }
      }
    }
  }
}
