/**
 * What a removal needs of its pages. The loop reads pages that it has written before, so what it reads must fit; what
 * is written over before anybody reads it need not fit, as long as it stays inside its buffer (core/node.cpp,
 * core/collection.cpp, core/node.h).
 */
module RemovalRoom {
  import opened KeyOrder
  import opened Trees
  import opened Sizing
  import opened Store
  import opened Lookup
  import opened Collections
  import opened Rebalancing
  import opened Removing
  import opened NodeCodec
  import opened PageFit
  import opened RemovalFit
  import opened NodeProperties
  import opened RemovalEnds

  // ---------------------------------------------------------------- what a step reads

  /**
   * The nodes that a rebalancing step reads: the siblings that are asked for an item, and those that the merge takes
   * from the store.
   */
  function NodesRead(d: Db, p: Copy, u: Copy, k: nat): seq<Body>
    requires CanRebalance(d, p.body, u.page, k)
  {
    var ps := p.body.children;
    var (e, p1, u1) := BorrowLeft(d, p, u, k);
    var g := BorrowRight(e, p1, u1, k).0;
    (if k > 0 then [d.pages[ps[k - 1]]] else [])
    + (if k + 1 < |ps| then [e.pages[ps[k + 1]]] else [])
    + (if k > 0 then [g.pages[ps[k - 1]]] else [g.pages[ps[0]], g.pages[ps[1]]])
  }

  predicate BodiesFit(size: nat, bodies: seq<Body>) {
    forall i {:trigger bodies[i]} :: 0 <= i < |bodies| ==> Fits(size, bodies[i])
  }

  /** Whatever a rebalancing step reads fits when it is read. */
  predicate StepReads(size: nat, d: Db, p: Copy, u: Copy, k: nat)
    requires CanRebalance(d, p.body, u.page, k)
  {
    BodiesFit(size, NodesRead(d, p, u, k))
  }

  /** The loop on the subtree t leads to the store d. */
  predicate LoopEnds(db: Db, t: Tree, path: seq<nat>, d: Db)
    requires IsPath(t, path)
  {
    CanRebalanceUp(db, Along(t, path), path) && d == RebalanceUp(db, Along(t, path), path)
  }

  /** The step at t, which comes after the loop inside child k, is defined and reads nothing that does not fit. */
  ghost predicate LevelReads(size: nat, db: Db, t: Tree, k: nat, q: seq<nat>)
    requires k < |t.kids| && IsPath(t.kids[k], q)
  {
    forall d {:trigger LoopEnds(db, t.kids[k], q, d)} :: LoopEnds(db, t.kids[k], q, d) ==>
      && CanRebalance(d, BodyOf(t), t.kids[k].page, k)
      && StepReads(size, d, CopyOf(t), CopyOf(t.kids[k]), k)
  }

  /** The same for every step that the loop takes. */
  ghost predicate LoopReads(size: nat, db: Db, t: Tree, path: seq<nat>)
    requires IsPath(t, path)
    decreases |path|
  {
    path == []
    || (&& LoopReads(size, db, t.kids[path[0]], path[1..])
        && (ChildUnder(db.lim, t, path) ==> LevelReads(size, db, t, path[0], path[1..])))
  }

  /** A step whose merged node fits reads nothing that does not. */
  lemma StepReadsFit(size: nat, d: Db, page: nat, f: Family)
    requires Holds(d, page, f) && Fits(size, Merged(d.lim, f))
    requires (f.k > 0 ==> Fits(size, f.left)) && (f.k < |f.parent.items| ==> Fits(size, f.right))
    ensures StepReads(size, d, Copy(page, f.parent), Copy(f.parent.children[f.k], f.child), f.k)
  {
    var ps := f.parent.children;
    var (e, p1, u1) := BorrowLeft(d, Copy(page, f.parent), Copy(ps[f.k], f.child), f.k);
    var g := BorrowRight(e, p1, u1, f.k).0;
    StepHolds(size, d, page, f);
    ReadNodesFit(size, d.lim, f);
    var a := if f.k > 0 then [d.pages[ps[f.k - 1]]] else [];
    var b := if f.k + 1 < |ps| then [e.pages[ps[f.k + 1]]] else [];
    var c := if f.k > 0 then [g.pages[ps[f.k - 1]]] else [g.pages[ps[0]], g.pages[ps[1]]];
    assert BodiesFit(size, a) && BodiesFit(size, b) && BodiesFit(size, c);
    BodiesFitJoin(size, a, b);
    BodiesFitJoin(size, a + b, c);
  }

  lemma BodiesFitJoin(size: nat, a: seq<Body>, b: seq<Body>)
    requires BodiesFit(size, a) && BodiesFit(size, b)
    ensures BodiesFit(size, a + b)
  {
  }

  /** What a step reads on the way. */
  lemma StepHolds(size: nat, d: Db, page: nat, f: Family)
    requires Holds(d, page, f)
    requires (f.k > 0 ==> Fits(size, f.left)) && (f.k < |f.parent.items| ==> Fits(size, f.right))
    ensures var (e, p1, u1) := BorrowLeft(d, Copy(page, f.parent), Copy(f.parent.children[f.k], f.child), f.k);
            var g := BorrowRight(e, p1, u1, f.k).0;
            HoldsRight(e, f) && Rotations(g, f) && g.lim == d.lim
  {
    BorrowLeftIs(d, page, f);
    LeftWrites(size, d, page, f);
    RotationWrites(size, d, page, f);
  }

  lemma ReadNodesFit(size: nat, o: Limits, f: Family)
    requires Proper(f) && Fits(size, Merged(o, f))
    requires (f.k > 0 ==> Fits(size, f.left)) && (f.k < |f.parent.items| ==> Fits(size, f.right))
    ensures f.k > 0 ==> Fits(size, GivenLeft(o, f))
    ensures f.k == 0 ==> Fits(size, if RightSpares(o, f) then TakenRight(o, f) else f.now)
    ensures f.k < |f.parent.items| ==> Fits(size, GivenRight(o, f))
  {
    if LeftSpares(o, f) {
      GivenLeftFits(size, o, f);
    }
    if RightSpares(o, f) {
      GivenRightFits(size, o, f);
      TakenRightFits(size, o, f);
    } else if f.k == 0 {
      NowFits(size, o, f);
    }
  }

  /** What the store has of a first child by then is a part of the merged node. */
  lemma NowFits(size: nat, o: Limits, f: Family)
    requires Proper(f) && f.k == 0 && !RightSpares(o, f) && Fits(size, Merged(o, f))
    ensures Fits(size, f.now)
  {
    var m, n := Merged(o, f), |f.now.items|;
    assert m.items == f.now.items + ([f.parent.items[0]] + f.right.items);
    FrontPart(f.now.items, [f.parent.items[0]] + f.right.items);
    if f.now.children != [] {
      assert m.children == f.now.children + f.right.children;
      FrontPart(f.now.children, f.right.children);
    }
    ThisPartFits(size, m, 0, n, f.now);
  }

  // ---------------------------------------------------------------- the loop

  /** If what the loop leaves fits, then so does everything that it reads on the way. */
  lemma {:induction false} LoopReadsFit(size: nat, db: Db, t: Tree, h: nat, path: seq<nat>, rest: multiset<nat>)
    requires InPlace(db, t, h, rest) && IsPath(t, path) && SiblingsExist(db.lim, t, path) && TreeFits(size, t)
    requires LoopLeaves(FitsOn(size), db.lim, t, path)
    ensures LoopReads(size, db, t, path)
    decreases |path|, 1
  {
    if path != [] {
      LoopReadsBelow(size, db, t, h, path, rest);
      LevelReadsFit(size, db, t, h, path, rest);
    }
  }

  lemma {:induction false} LoopReadsBelow(size: nat, db: Db, t: Tree, h: nat, path: seq<nat>, rest: multiset<nat>)
    requires InPlace(db, t, h, rest) && IsPath(t, path) && SiblingsExist(db.lim, t, path) && TreeFits(size, t)
    requires path != [] && LoopLeaves(FitsOn(size), db.lim, t, path)
    ensures LoopReads(size, db, t.kids[path[0]], path[1..])
    decreases |path|, 0
  {
    KidInPlace(db, t, h, path[0], rest);
    KidConditions(size, db.lim, t, path);
    LoopReadsFit(size, db, t.kids[path[0]], h - 1, path[1..], rest + Others(t, path[0]));
  }

  lemma KidConditions(size: nat, o: Limits, t: Tree, path: seq<nat>)
    requires IsPath(t, path) && path != [] && SiblingsExist(o, t, path) && TreeFits(size, t)
    requires LoopLeaves(FitsOn(size), o, t, path)
    ensures var kid, q := t.kids[path[0]], path[1..];
            SiblingsExist(o, kid, q) && TreeFits(size, kid) && LoopLeaves(FitsOn(size), o, kid, q)
  {
    KidSettled(size, o, t, path);
  }

  lemma LevelReadsFit(size: nat, db: Db, t: Tree, h: nat, path: seq<nat>, rest: multiset<nat>)
    requires InPlace(db, t, h, rest) && IsPath(t, path) && SiblingsExist(db.lim, t, path) && TreeFits(size, t)
    requires path != [] && LoopLeaves(FitsOn(size), db.lim, t, path)
    requires LoopReads(size, db, t.kids[path[0]], path[1..])
    ensures LoopReads(size, db, t, path)
  {
    if ChildUnder(db.lim, t, path) {
      assert MergedFits(size, db.lim, t, path);
      StepReadsAfter(size, db, t, h, path, rest);
    }
  }

  /** The node that the step at t merges fits. */
  predicate MergedFits(size: nat, o: Limits, t: Tree, path: seq<nat>)
    requires IsPath(t, path) && path != []
  {
    var f := FamilyOf(t, path[0], BodyNow(o, t.kids[path[0]], path[1..]));
    Proper(f) ==> Fits(size, Merged(o, f))
  }

  lemma StepReadsAfter(size: nat, db: Db, t: Tree, h: nat, path: seq<nat>, rest: multiset<nat>)
    requires InPlace(db, t, h, rest) && IsPath(t, path) && path != [] && SiblingsExist(db.lim, t, path)
    requires TreeFits(size, t) && ChildUnder(db.lim, t, path) && MergedFits(size, db.lim, t, path)
    ensures LevelReads(size, db, t, path[0], path[1..])
  {
    forall d | LoopEnds(db, t.kids[path[0]], path[1..], d)
      ensures CanRebalance(d, BodyOf(t), t.kids[path[0]].page, path[0])
      ensures StepReads(size, d, CopyOf(t), CopyOf(t.kids[path[0]]), path[0])
    {
      var k := path[0];
      var f := FamilyOf(t, k, BodyNow(db.lim, t.kids[k], path[1..]));
      HeldAfterLoop(size, db, d, t, h, path, rest, f);
      FamilyFits(size, t, k, f);
      StepReadsFit(size, d, t.page, f);
    }
  }

  /** After the loop inside the child, the store has the family around it. */
  lemma HeldAfterLoop(size: nat, db: Db, d: Db, t: Tree, h: nat, path: seq<nat>, rest: multiset<nat>, f: Family)
    requires InPlace(db, t, h, rest) && IsPath(t, path) && path != [] && SiblingsExist(db.lim, t, path)
    requires TreeFits(size, t) && ChildUnder(db.lim, t, path) && LoopEnds(db, t.kids[path[0]], path[1..], d)
    requires f == FamilyOf(t, path[0], BodyNow(db.lim, t.kids[path[0]], path[1..]))
    ensures Holds(d, t.page, f) && d.lim == db.lim
  {
    assert |t.kids| >= 2;
    KidSettled(size, db.lim, t, path);
    KidAfterLoop(size, db, d, t, h, path[0], path[1..], rest);
    FamilyHeld(db, d, t, h, path, rest, f);
  }

  lemma KidSettled(size: nat, o: Limits, t: Tree, path: seq<nat>)
    requires IsPath(t, path) && path != [] && SiblingsExist(o, t, path) && TreeFits(size, t)
    ensures SiblingsExist(o, t.kids[path[0]], path[1..]) && TreeFits(size, t.kids[path[0]])
  {
    assert EveryNode(FitsOn(size), t.kids[path[0]]);
  }

  lemma KidAfterLoop(size: nat, db: Db, d: Db, t: Tree, h: nat, k: nat, q: seq<nat>, rest: multiset<nat>)
    requires InPlace(db, t, h, rest) && h > 0 && k < |t.kids| && IsPath(t.kids[k], q)
    requires SiblingsExist(db.lim, t.kids[k], q) && TreeFits(size, t.kids[k]) && LoopEnds(db, t.kids[k], q, d)
    ensures Looped(size, db, d, t.kids[k], q, rest + Others(t, k))
  {
    KidInPlace(db, t, h, k, rest);
    LoopEndsSo(size, db, d, t.kids[k], h - 1, q, rest + Others(t, k));
  }

  lemma LoopEndsSo(size: nat, db: Db, d: Db, t: Tree, h: nat, path: seq<nat>, rest: multiset<nat>)
    requires InPlace(db, t, h, rest) && IsPath(t, path) && SiblingsExist(db.lim, t, path) && TreeFits(size, t)
    requires LoopEnds(db, t, path, d)
    ensures Looped(size, db, d, t, path, rest)
  {
    LoopFitsIff(size, db, t, h, path, rest);
  }

  // ---------------------------------------------------------------- the operation

  /** Whatever a removal reads after its first write fits when it is read. */
  ghost predicate RemoveReads(size: nat, c: Coll, t: Tree, key: Bytes)
    requires Valid(c, t) && CanRemove(c, t, key) && Search(t, key).found
  {
    RemoveIsDefined(c, t, key);
    var s := Search(t, key);
    var t1, path, d := Deleted(t, s), FullPath(t, s), DeleteWrites(c.db, Sub(t, s.path), s.index);
    PathReads(size, d, Along(t1, path)) && LoopReads(size, d, t1, path)
  }

  /**
   * An inner node that takes over a predecessor fits, and so does every node that the loop leaves changed: merged
   * nodes, and the parents that stay.
   */
  predicate RemoveHasRoom(size: nat, c: Coll, t: Tree, key: Bytes)
    requires CanRemove(c, t, key) && Search(t, key).found
  {
    var s := Search(t, key);
    && (Sub(t, s.path).kids != [] ==> Fits(size, BodyOf(Shrunk(Sub(t, s.path), s.index))))
    && RemoveLeaves(FitsOn(size), c, t, key)
  }

  /** Right after the deletion every node fits, if the one that takes over a predecessor does. */
  lemma DeletedFits(size: nat, t: Tree, h: nat, s: Spot)
    requires Balanced(t, h) && CanDelete(t, s) && TreeFits(size, t)
    requires Sub(t, s.path).kids != [] ==> Fits(size, BodyOf(Shrunk(Sub(t, s.path), s.index)))
    ensures TreeFits(size, Deleted(t, s))
  {
    var good, x := FitsOn(size), Sub(t, s.path);
    SubShape(t, h, s.path);
    SubFits(size, t, s.path);
    ShrunkFits(size, x, h - |s.path|, s.index);
    GraftEvery(good, t, s.path, Shrunk(x, s.index));
  }

  lemma ShrunkFits(size: nat, x: Tree, h: nat, index: nat)
    requires Balanced(x, h) && index < |x.items| && HasPredecessor(x, index) && TreeFits(size, x)
    requires x.kids != [] ==> Fits(size, BodyOf(Shrunk(x, index)))
    ensures TreeFits(size, Shrunk(x, index))
  {
    var good, v := FitsOn(size), Shrunk(x, index);
    TreeFitsIs(size, x);
    if x.kids == [] {
      ShrunkLeafFits(size, x, index);
    } else {
      var kid := x.kids[index];
      assert Balanced(kid, h - 1);
      EveryParts(good, x.kids, index);
      LastPathIsRightmost(kid, h - 1);
      SubFits(size, kid, LastPath(kid));
      PoppedFits(size, kid);
      GraftEvery(good, kid, LastPath(kid), PoppedLeaf(kid));
      EveryReplaced(good, x.kids, index, Popped(kid));
    }
    TreeFitsIs(size, v);
  }

  lemma PoppedFits(size: nat, t: Tree)
    requires IsPath(t, LastPath(t)) && Sub(t, LastPath(t)).items != [] && Sub(t, LastPath(t)).kids == []
    requires TreeFits(size, Sub(t, LastPath(t)))
    ensures TreeFits(size, PoppedLeaf(t))
  {
    var leaf := Sub(t, LastPath(t));
    TreeFitsIs(size, leaf);
    PartFits(size, BodyOf(leaf), 0, |leaf.items| - 1);
    assert leaf.items[0..|leaf.items| - 1] == leaf.items[..|leaf.items| - 1];
    assert Pages(leaf.kids) == [];
    TreeFitsIs(size, PoppedLeaf(t));
  }

  /** Everything that a removal with room reads fits. */
  lemma RoomyRemoveReads(size: nat, c: Coll, t: Tree, key: Bytes)
    requires Valid(c, t) && CanRemove(c, t, key) && Search(t, key).found && TreeFits(size, t)
    requires RemoveHasRoom(size, c, t, key)
    ensures RemoveReads(size, c, t, key)
  {
    var s, h := Search(t, key), Height(t);
    var t1, path, d := Deleted(t, s), FullPath(t, s), DeleteWrites(c.db, Sub(t, s.path), s.index);
    RemoveIsDefined(c, t, key);
    DeletedFits(size, t, h, s);
    AlongStored(t1, path, d.pages);
    AlongFits(size, t1, path);
    LoopReadsFit(size, d, t1, h, path, multiset{});
  }

  /** The node that takes over a predecessor is read again. */
  lemma ShrunkIsRead(size: nat, c: Coll, t: Tree, key: Bytes)
    requires Valid(c, t) && CanRemove(c, t, key) && Search(t, key).found && RemoveReads(size, c, t, key)
    ensures var s := Search(t, key); Fits(size, BodyOf(Shrunk(Sub(t, s.path), s.index)))
  {
    var s := Search(t, key);
    var t1, path, d := Deleted(t, s), FullPath(t, s), DeleteWrites(c.db, Sub(t, s.path), s.index);
    var x, q := Sub(t, s.path), LocalPath(Sub(t, s.path), s.index);
    RemoveIsDefined(c, t, key);
    AlongStored(t1, path, d.pages);
    if x.kids != [] {
      assert q[1..] == LastPath(x.kids[s.index]);
    }
    AlongGraft(t, s.path, Shrunk(x, s.index), q);
    assert Readable(size, d, Along(t1, path)[|s.path|].page);
  }

  /**
   * Exactly when `remove` of a key that is there takes out its item and leaves nodes that fit, reading nothing that
   * does not fit.
   */
  lemma RemoveReadsIff(size: nat, c: Coll, t: Tree, key: Bytes)
    requires Valid(c, t) && CanRemove(c, t, key) && HasKey(InOrder(t), key) && TreeFits(size, t)
    ensures PlaceOf(t, key) < |InOrder(t)| && Search(t, key).found
    ensures (exists u :: Valid(RemoveState(c, t, key), u) && TreeFits(size, u)
                         && InOrder(u) == RemoveAt(InOrder(t), PlaceOf(t, key)))
            && RemoveReads(size, c, t, key)
            <==> !Clashes(c, t, key) && RemoveHasRoom(size, c, t, key)
  {
    SearchIsExact(t, Height(t), key);
    SearchFindsKeys(t, Height(t), key);
    RemoveIsDeletionIff(c, t, key);
    if !Clashes(c, t, key) {
      var u := RemoveDeletes(c, t, key);
      RemoveEveryIff(FitsOn(size), c, t, key);
      forall v | Valid(RemoveState(c, t, key), v)
        ensures v == u
      {
        ValidUnique(RemoveState(c, t, key), u, v);
      }
      if RemoveHasRoom(size, c, t, key) {
        RoomyRemoveReads(size, c, t, key);
      }
      if RemoveReads(size, c, t, key) {
        ShrunkIsRead(size, c, t, key);
      }
    }
  }
}
