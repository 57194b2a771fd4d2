/**
 * Exactly what a removal writes, page by page and in order, and when all of it stays inside its buffers (core/node.cpp,
 * core/collection.cpp).
 */
module RemovalImages {
  import opened KeyOrder
  import opened Trees
  import opened Sizing
  import opened Store
  import opened Lookup
  import opened Collections
  import opened Rebalancing
  import opened Removing
  import opened NodeCodec
  import opened PageFit
  import opened RemovalFit
  import opened NodeProperties
  import opened RemovalEnds
  import opened RemovalRoom

  // ---------------------------------------------------------------- one step

  function LeftImages(o: Limits, page: nat, f: Family): seq<Copy>
    requires Proper(f)
  {
    if !LeftSpares(o, f) then []
    else [Copy(f.parent.children[f.k - 1], GivenLeft(o, f)), Copy(page, LeftParent(o, f)),
          Copy(f.parent.children[f.k], TakenLeft(o, f))]
  }

  function RightImages(o: Limits, page: nat, f: Family): seq<Copy>
    requires Proper(f)
  {
    if !RightSpares(o, f) then []
    else [Copy(f.parent.children[f.k], TakenRight(o, f)), Copy(page, RotatedParent(o, f)),
          Copy(f.parent.children[f.k + 1], GivenRight(o, f))]
  }

  function MergeImages(o: Limits, page: nat, f: Family): seq<Copy>
    requires Proper(f)
  {
    [Copy(f.parent.children[if f.k == 0 then 0 else f.k - 1], Merged(o, f)), Copy(page, ParentAfter(o, f))]
  }

  /** The three nodes of each rotation that is made, then the merged node and the parent. */
  function StepImages(o: Limits, page: nat, f: Family): seq<Copy>
    requires Proper(f)
  {
    LeftImages(o, page, f) + RightImages(o, page, f) + MergeImages(o, page, f)
  }

  lemma WritesOfThree(db: Db, x: Copy, y: Copy, z: Copy)
    ensures Write(Write(Write(db, x), y), z).writes == db.writes + [x, y, z]
  {
  }

  lemma StepImagesAre(size: nat, d: Db, page: nat, f: Family)
    requires Holds(d, page, f)
    requires (LeftSpares(d.lim, f) ==> Fits(size, f.left)) && (RightSpares(d.lim, f) ==> Fits(size, f.right))
    ensures RebalanceStep(d, Copy(page, f.parent), Copy(f.parent.children[f.k], f.child), f.k).writes
         == d.writes + StepImages(d.lim, page, f)
  {
    var o, kid := d.lim, f.parent.children[f.k];
    var (e, p1, u1) := BorrowLeft(d, Copy(page, f.parent), Copy(kid, f.child), f.k);
    var g := BorrowRight(e, p1, u1, f.k).0;
    assert e.writes == d.writes + LeftImages(o, page, f) && e.lim == o by {
      LeftImagesAre(d, page, f);
    }
    RotationWrites(size, d, page, f);
    assert g.writes == e.writes + RightImages(o, page, f) && g.lim == o by {
      BorrowLeftIs(d, page, f);
      LeftWrites(size, d, page, f);
      RightImagesAre(e, page, f);
    }
    MergeImagesAre(g, page, f);
    ThreeParts(d.writes, LeftImages(o, page, f), RightImages(o, page, f), MergeImages(o, page, f));
  }

  lemma ThreeParts(d: seq<Copy>, a: seq<Copy>, b: seq<Copy>, c: seq<Copy>)
    ensures d + a + b + c == d + (a + b + c)
  {
  }

  lemma LeftImagesAre(d: Db, page: nat, f: Family)
    requires Proper(f) && CanRebalance(d, f.parent, f.parent.children[f.k], f.k) && HoldsSiblings(d, f)
    ensures var e := BorrowLeft(d, Copy(page, f.parent), Copy(f.parent.children[f.k], f.child), f.k).0;
            e.writes == d.writes + LeftImages(d.lim, page, f) && e.lim == d.lim
  {
    BorrowLeftIs(d, page, f);
  }

  lemma RightImagesAre(e: Db, page: nat, f: Family)
    requires Proper(f) && HoldsRight(e, f) && CanRebalance(e, LeftParent(e.lim, f), f.parent.children[f.k], f.k)
    ensures var o := e.lim;
            var g := BorrowRight(e, Copy(page, LeftParent(o, f)), Copy(f.parent.children[f.k], TakenLeft(o, f)), f.k).0;
            g.writes == e.writes + RightImages(o, page, f) && g.lim == o
  {
    BorrowRightIs(e, page, f);
  }

  lemma MergeImagesAre(g: Db, page: nat, f: Family)
    requires Proper(f) && Rotations(g, f)
    ensures LastMerge(g, page, f).writes == g.writes + MergeImages(g.lim, page, f)
  {
    if f.k == 0 {
      MergedFirst(g.lim, f);
    } else {
      MergedLater(g.lim, f);
    }
  }

  // ---------------------------------------------------------------- the loop

  /** What the loop writes: the images of the steps that are taken, from the bottom up. */
  function LoopImages(o: Limits, t: Tree, path: seq<nat>): seq<Copy>
    requires IsPath(t, path)
    decreases |path|
  {
    if path == [] then []
    else
      var f := FamilyOf(t, path[0], BodyNow(o, t.kids[path[0]], path[1..]));
      LoopImages(o, t.kids[path[0]], path[1..])
      + if Under(o, f.child.items) && Proper(f) then StepImages(o, t.page, f) else []
  }

  lemma {:induction false} LoopImagesAre(size: nat, db: Db, t: Tree, h: nat, path: seq<nat>, rest: multiset<nat>)
    requires InPlace(db, t, h, rest) && IsPath(t, path) && SiblingsExist(db.lim, t, path) && TreeFits(size, t)
    ensures CanRebalanceUp(db, Along(t, path), path)
    ensures RebalanceUp(db, Along(t, path), path).writes == db.writes + LoopImages(db.lim, t, path)
    decreases |path|
  {
    if path != [] {
      var kid, q := t.kids[path[0]], path[1..];
      KidInPlace(db, t, h, path[0], rest);
      assert EveryNode(FitsOn(size), kid);
      LoopImagesAre(size, db, kid, h - 1, q, rest + Others(t, path[0]));
      LoopFitsIff(size, db, kid, h - 1, q, rest + Others(t, path[0]));
      LevelImages(size, db, RebalanceUp(db, Along(kid, q), q), t, h, path, rest);
      LoopAt(db, t, path);
    }
  }

  lemma LevelImages(size: nat, db: Db, d: Db, t: Tree, h: nat, path: seq<nat>, rest: multiset<nat>)
    requires InPlace(db, t, h, rest) && h > 0 && IsPath(t, path) && path != [] && SiblingsExist(db.lim, t, path)
    requires TreeFits(size, t) && Looped(size, db, d, t.kids[path[0]], path[1..], rest + Others(t, path[0]))
    requires d.writes == db.writes + LoopImages(db.lim, t.kids[path[0]], path[1..])
    ensures var kid := t.kids[path[0]];
            if Under(db.lim, kid.items) then
              && CanRebalance(d, BodyOf(t), kid.page, path[0])
              && RebalanceStep(d, CopyOf(t), CopyOf(kid), path[0]).writes == db.writes + LoopImages(db.lim, t, path)
            else d.writes == db.writes + LoopImages(db.lim, t, path)
  {
    var k := path[0];
    var f := FamilyOf(t, k, BodyNow(db.lim, t.kids[k], path[1..]));
    if Under(db.lim, t.kids[k].items) {
      FamilyHeld(db, d, t, h, path, rest, f);
      FamilyFits(size, t, k, f);
      StepImagesAre(size, d, t.page, f);
      MoreWrites(db.writes, LoopImages(db.lim, t.kids[k], path[1..]), StepImages(db.lim, t.page, f));
      assert LoopImages(db.lim, t, path)
          == LoopImages(db.lim, t.kids[k], path[1..]) + StepImages(db.lim, t.page, f) by {
        LoopImagesAt(db.lim, t, path);
      }
    } else {
      LoopImagesAt(db.lim, t, path);
    }
  }

  lemma LoopImagesAt(o: Limits, t: Tree, path: seq<nat>)
    requires IsPath(t, path) && path != []
    ensures var kid, q := t.kids[path[0]], path[1..];
            var f := FamilyOf(t, path[0], BodyNow(o, kid, q));
            && (Under(o, kid.items) && Proper(f) ==>
                  LoopImages(o, t, path) == LoopImages(o, kid, q) + StepImages(o, t.page, f))
            && (!Under(o, kid.items) ==> LoopImages(o, t, path) == LoopImages(o, kid, q))
  {
  }

  lemma MoreWrites(d: seq<Copy>, a: seq<Copy>, b: seq<Copy>)
    ensures d + a + b == d + (a + b)
  {
  }

  // ---------------------------------------------------------------- the buffers

  predicate AllInBuffer(size: nat, images: seq<Copy>) {
    forall i {:trigger images[i]} :: 0 <= i < |images| ==> InBuffer(size, images[i].body)
  }

  lemma AllInBufferJoin(size: nat, a: seq<Copy>, b: seq<Copy>)
    ensures AllInBuffer(size, a + b) <==> AllInBuffer(size, a) && AllInBuffer(size, b)
  {
    var c := a + b;
    assert forall i :: 0 <= i < |a| ==> c[i] == a[i];
    assert forall i :: 0 <= i < |b| ==> c[|a| + i] == b[i];
    if AllInBuffer(size, a) && AllInBuffer(size, b) {
      forall i | 0 <= i < |c|
        ensures InBuffer(size, c[i].body)
      {
        assert InBuffer(size, (if i < |a| then a[i] else b[i - |a|]).body);
      }
    }
  }

  /** The parents that a step writes over again: of all that it writes only they may be too big for a page. */
  predicate StepInside(size: nat, o: Limits, f: Family)
    requires Proper(f)
  {
    (LeftSpares(o, f) ==> InBuffer(size, LeftParent(o, f)))
      && (RightSpares(o, f) ==> InBuffer(size, RotatedParent(o, f)))
  }

  lemma ThreeInBuffer(size: nat, x: Copy, y: Copy, z: Copy)
    requires Fits(size, x.body) && Fits(size, z.body)
    ensures AllInBuffer(size, [x, y, z]) <==> InBuffer(size, y.body)
  {
    FitsInBuffer(size, x.body);
    FitsInBuffer(size, z.body);
    assert [x, y, z][1] == y;
  }

  lemma StepImagesInside(size: nat, o: Limits, page: nat, f: Family)
    requires Proper(f) && Fits(size, Merged(o, f)) && Fits(size, ParentAfter(o, f))
    requires (f.k > 0 ==> Fits(size, f.left)) && (f.k < |f.parent.items| ==> Fits(size, f.right))
    ensures AllInBuffer(size, StepImages(o, page, f)) <==> StepInside(size, o, f)
  {
    AllInBufferJoin(size, LeftImages(o, page, f) + RightImages(o, page, f), MergeImages(o, page, f));
    AllInBufferJoin(size, LeftImages(o, page, f), RightImages(o, page, f));
    FitsInBuffer(size, Merged(o, f));
    FitsInBuffer(size, ParentAfter(o, f));
    LeftImagesInside(size, o, page, f);
    RightImagesInside(size, o, page, f);
  }

  lemma LeftImagesInside(size: nat, o: Limits, page: nat, f: Family)
    requires Proper(f) && Fits(size, Merged(o, f)) && (f.k > 0 ==> Fits(size, f.left))
    ensures AllInBuffer(size, LeftImages(o, page, f)) <==> (LeftSpares(o, f) ==> InBuffer(size, LeftParent(o, f)))
  {
    if LeftSpares(o, f) {
      GivenLeftFits(size, o, f);
      TakenLeftFits(size, o, f);
      ThreeInBuffer(size, Copy(f.parent.children[f.k - 1], GivenLeft(o, f)), Copy(page, LeftParent(o, f)),
                    Copy(f.parent.children[f.k], TakenLeft(o, f)));
    }
  }

  lemma RightImagesInside(size: nat, o: Limits, page: nat, f: Family)
    requires Proper(f) && Fits(size, Merged(o, f)) && (f.k < |f.parent.items| ==> Fits(size, f.right))
    ensures AllInBuffer(size, RightImages(o, page, f)) <==> (RightSpares(o, f) ==> InBuffer(size, RotatedParent(o, f)))
  {
    if RightSpares(o, f) {
      GivenRightFits(size, o, f);
      TakenRightFits(size, o, f);
      ThreeInBuffer(size, Copy(f.parent.children[f.k], TakenRight(o, f)), Copy(page, RotatedParent(o, f)),
                    Copy(f.parent.children[f.k + 1], GivenRight(o, f)));
    }
  }

  /** Every rotated parent that a step of the loop writes stays inside its buffer. */
  predicate LoopInside(size: nat, o: Limits, t: Tree, path: seq<nat>)
    requires IsPath(t, path)
    decreases |path|
  {
    path == []
    || (var f := FamilyOf(t, path[0], BodyNow(o, t.kids[path[0]], path[1..]));
        && LoopInside(size, o, t.kids[path[0]], path[1..])
        && (Under(o, f.child.items) && Proper(f) ==> StepInside(size, o, f)))
  }

  lemma {:induction false} LoopImagesInside(size: nat, o: Limits, t: Tree, h: nat, path: seq<nat>)
    requires Balanced(t, h) && IsPath(t, path) && SiblingsExist(o, t, path) && !Clash(o, t, path) && TreeFits(size, t)
    requires LoopLeaves(FitsOn(size), o, t, path) && Fits(size, BodyNow(o, t, path))
    ensures AllInBuffer(size, LoopImages(o, t, path)) <==> LoopInside(size, o, t, path)
    decreases |path|, 1
  {
    if path != [] {
      ImagesBelow(size, o, t, h, path);
      LevelImagesInside(size, o, t, h, path);
    }
  }

  lemma {:induction false} ImagesBelow(size: nat, o: Limits, t: Tree, h: nat, path: seq<nat>)
    requires Balanced(t, h) && IsPath(t, path) && path != [] && SiblingsExist(o, t, path) && !Clash(o, t, path)
    requires TreeFits(size, t) && LoopLeaves(FitsOn(size), o, t, path)
    ensures var kid, q := t.kids[path[0]], path[1..];
            AllInBuffer(size, LoopImages(o, kid, q)) <==> LoopInside(size, o, kid, q)
    decreases |path|, 0
  {
    KidHasRoom(size, o, t, h, path);
    LoopImagesInside(size, o, t.kids[path[0]], h - 1, path[1..]);
  }

  lemma KidHasRoom(size: nat, o: Limits, t: Tree, h: nat, path: seq<nat>)
    requires Balanced(t, h) && IsPath(t, path) && path != [] && SiblingsExist(o, t, path) && !Clash(o, t, path)
    requires TreeFits(size, t) && LoopLeaves(FitsOn(size), o, t, path)
    ensures var kid, q := t.kids[path[0]], path[1..];
            && h > 0 && Balanced(kid, h - 1) && SiblingsExist(o, kid, q) && !Clash(o, kid, q) && TreeFits(size, kid)
            && LoopLeaves(FitsOn(size), o, kid, q) && Fits(size, BodyNow(o, kid, q))
  {
    KidConditions(size, o, t, path);
    KidNowFits(size, o, t, h, path);
  }

  lemma LevelImagesInside(size: nat, o: Limits, t: Tree, h: nat, path: seq<nat>)
    requires Balanced(t, h) && h > 0 && IsPath(t, path) && path != [] && SiblingsExist(o, t, path)
    requires TreeFits(size, t) && LoopLeaves(FitsOn(size), o, t, path) && Fits(size, BodyNow(o, t, path))
    requires var kid, q := t.kids[path[0]], path[1..];
             AllInBuffer(size, LoopImages(o, kid, q)) <==> LoopInside(size, o, kid, q)
    ensures AllInBuffer(size, LoopImages(o, t, path)) <==> LoopInside(size, o, t, path)
  {
    var k, kid, q := path[0], t.kids[path[0]], path[1..];
    LoopImagesAt(o, t, path);
    if Under(o, kid.items) {
      var f := FamilyOf(t, k, BodyNow(o, kid, q));
      ProperNow(o, t, h, path);
      FamilyFits(size, t, k, f);
      StepImagesInside(size, o, t.page, f);
      AllInBufferJoin(size, LoopImages(o, kid, q), StepImages(o, t.page, f));
    }
  }

  /** What the loop inside the child leaves of the child fits: it stays, or it becomes a part of a node that does. */
  lemma KidNowFits(size: nat, o: Limits, t: Tree, h: nat, path: seq<nat>)
    requires Balanced(t, h) && h > 0 && IsPath(t, path) && path != [] && SiblingsExist(o, t, path) && !Clash(o, t, path)
    requires TreeFits(size, t) && LoopLeaves(FitsOn(size), o, t, path)
    ensures Fits(size, BodyNow(o, t.kids[path[0]], path[1..]))
  {
    var kid, q := t.kids[path[0]], path[1..];
    if Under(o, kid.items) {
      ProperNow(o, t, h, path);
      if ChildUnder(o, kid, q) {
        CopyIsRight(o, t, path);
        NowFits(size, o, FamilyOf(t, 0, BodyNow(o, kid, q)));
      } else {
        assert EveryNode(FitsOn(size), kid);
      }
    }
  }

  // ---------------------------------------------------------------- the operation

  function DeleteImages(x: Tree, index: nat): seq<Copy>
    requires index < |x.items| && HasPredecessor(x, index)
  {
    if x.kids == [] then [CopyOf(Shrunk(x, index))] else [CopyOf(PoppedLeaf(x.kids[index])), CopyOf(Shrunk(x, index))]
  }

  /** What a removal writes. */
  function RemoveImages(c: Coll, t: Tree, key: Bytes): seq<Copy>
    requires CanRemove(c, t, key) && Search(t, key).found
  {
    var s := Search(t, key);
    FullPathIsPath(t, s);
    DeleteImages(Sub(t, s.path), s.index) + LoopImages(c.db.lim, Deleted(t, s), FullPath(t, s))
  }

  lemma DeleteImagesAre(db: Db, x: Tree, index: nat)
    requires index < |x.items| && HasPredecessor(x, index)
    ensures DeleteWrites(db, x, index).writes == db.writes + DeleteImages(x, index)
  {
  }

  lemma RemoveImagesAre(size: nat, c: Coll, t: Tree, key: Bytes)
    requires Valid(c, t) && CanRemove(c, t, key) && Search(t, key).found && TreeFits(size, Deleted(t, Search(t, key)))
    ensures RemoveState(c, t, key).db.writes == c.db.writes + RemoveImages(c, t, key)
  {
    var s, h := Search(t, key), Height(t);
    var t1, path, d := Deleted(t, s), FullPath(t, s), DeleteWrites(c.db, Sub(t, s.path), s.index);
    RemoveIsDefined(c, t, key);
    var x := Sub(t, s.path);
    assert RemoveState(c, t, key).db.writes == d.writes + LoopImages(c.db.lim, t1, path) by {
      LoopImagesAre(size, d, t1, h, path, multiset{});
    }
    DeleteImagesAre(c.db, x, s.index);
    MoreWrites(c.db.writes, DeleteImages(x, s.index), LoopImages(c.db.lim, t1, path));
  }

  /** The rotated parents of a removal stay inside their buffers. */
  predicate StaysInside(size: nat, c: Coll, t: Tree, key: Bytes)
    requires CanRemove(c, t, key) && Search(t, key).found
  {
    var s := Search(t, key);
    FullPathIsPath(t, s);
    LoopInside(size, c.db.lim, Deleted(t, s), FullPath(t, s))
  }

  /** A removal with room writes nothing outside its buffers exactly if its rotated parents stay inside. */
  lemma StaysInsideIff(size: nat, c: Coll, t: Tree, key: Bytes)
    requires Valid(c, t) && CanRemove(c, t, key) && Search(t, key).found && TreeFits(size, t)
    requires !Clashes(c, t, key) && RemoveHasRoom(size, c, t, key)
    ensures RemoveState(c, t, key).db.writes == c.db.writes + RemoveImages(c, t, key)
    ensures AllInBuffer(size, RemoveImages(c, t, key)) <==> StaysInside(size, c, t, key)
  {
    var s, h, o := Search(t, key), Height(t), c.db.lim;
    var x, t1, path := Sub(t, s.path), Deleted(t, s), FullPath(t, s);
    FullPathIsPath(t, s);
    DeletedFits(size, t, h, s);
    DeletedFacts(t, h, s);
    RemoveImagesAre(size, c, t, key);
    TreeFitsIs(size, t1);
    LoopImagesInside(size, o, t1, h, path);
    DeleteImagesInside(size, t, h, s);
    AllInBufferJoin(size, DeleteImages(x, s.index), LoopImages(o, t1, path));
  }

  lemma DeleteImagesInside(size: nat, t: Tree, h: nat, s: Spot)
    requires Balanced(t, h) && CanDelete(t, s) && TreeFits(size, t)
    requires Sub(t, s.path).kids != [] ==> Fits(size, BodyOf(Shrunk(Sub(t, s.path), s.index)))
    ensures AllInBuffer(size, DeleteImages(Sub(t, s.path), s.index))
  {
    SubShape(t, h, s.path);
    SubFits(size, t, s.path);
    NodeImagesInside(size, Sub(t, s.path), h - |s.path|, s.index);
  }

  lemma NodeImagesInside(size: nat, x: Tree, h: nat, index: nat)
    requires Balanced(x, h) && index < |x.items| && HasPredecessor(x, index) && TreeFits(size, x)
    requires x.kids != [] ==> Fits(size, BodyOf(Shrunk(x, index)))
    ensures AllInBuffer(size, DeleteImages(x, index))
  {
    ShrunkFits(size, x, h, index);
    TreeFitsIs(size, Shrunk(x, index));
    FitsInBuffer(size, BodyOf(Shrunk(x, index)));
    if x.kids != [] {
      var kid := x.kids[index];
      assert Balanced(kid, h - 1) && EveryNode(FitsOn(size), kid);
      LastPathIsRightmost(kid, h - 1);
      SubFits(size, kid, LastPath(kid));
      PoppedFits(size, kid);
      TreeFitsIs(size, PoppedLeaf(kid));
      FitsInBuffer(size, BodyOf(PoppedLeaf(kid)));
    }
  }

  // ---------------------------------------------------------------- room for everything

  /** If everything that the loop writes fits, then what it leaves does, and the rest stays inside its buffers. */
  lemma {:induction false} StepsFitLeaves(size: nat, o: Limits, t: Tree, h: nat, path: seq<nat>)
    requires Balanced(t, h) && IsPath(t, path) && SiblingsExist(o, t, path) && TreeFits(size, t)
    requires StepsFit(size, o, t, path)
    ensures LoopLeaves(FitsOn(size), o, t, path) && Fits(size, BodyNow(o, t, path)) && LoopInside(size, o, t, path)
    decreases |path|
  {
    TreeFitsIs(size, t);
    if path != [] {
      var kid := t.kids[path[0]];
      assert Balanced(kid, h - 1) && EveryNode(FitsOn(size), kid);
      StepsFitLeaves(size, o, kid, h - 1, path[1..]);
      if Under(o, kid.items) {
        var f := FamilyOf(t, path[0], BodyNow(o, kid, path[1..]));
        ProperNow(o, t, h, path);
        FamilyFits(size, t, path[0], f);
        StepFitsLeaves(size, o, f);
      }
    }
  }

  lemma StepFitsLeaves(size: nat, o: Limits, f: Family)
    requires Proper(f) && StepFits(size, o, f) && Fits(size, f.parent) && (RightSpares(o, f) ==> Fits(size, f.right))
    ensures StepLeaves(FitsOn(size), o, f) && Fits(size, ParentAfter(o, f)) && StepInside(size, o, f)
  {
    BetweenFits(size, o, f);
    if LeftSpares(o, f) {
      FitsInBuffer(size, LeftParent(o, f));
    }
    if RightSpares(o, f) {
      GivenRightFits(size, o, f);
      FitsInBuffer(size, RotatedParent(o, f));
    }
  }

  /** Room for everything that a removal writes is more than it needs. */
  lemma RemoveFitsIsRoom(size: nat, c: Coll, t: Tree, key: Bytes)
    requires Valid(c, t) && CanRemove(c, t, key) && Search(t, key).found && TreeFits(size, t)
    requires RemoveFits(size, c, t, key)
    ensures RemoveHasRoom(size, c, t, key) && StaysInside(size, c, t, key)
  {
    var s, h := Search(t, key), Height(t);
    FullPathIsPath(t, s);
    DeletedFits(size, t, h, s);
    DeletedFacts(t, h, s);
    StepsFitLeaves(size, c.db.lim, Deleted(t, s), h, FullPath(t, s));
  }
}
