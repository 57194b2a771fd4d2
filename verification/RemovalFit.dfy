/** Exactly when everything that a removal writes fits its page (core/node.cpp, core/collection.cpp). */
module RemovalFit {
  import opened KeyOrder
  import opened Trees
  import opened Sizing
  import opened Store
  import opened Lookup
  import opened Collections
  import opened Rebalancing
  import opened StaleCopies
  import opened Removing
  import opened NodeCodec
  import opened PageFit
  import opened NodeProperties

  // ---------------------------------------------------------------- what one step writes

  /** Stands for a sibling that is not there; it can spare nothing. */
  const NOBODY := Body([], [])

  /**
   * A node with its child k and the child's siblings, as a rebalancing step finds them. `child` is the copy of the
   * child; `now` is what the store has at the child's page by then.
   */
  datatype Family = Family(parent: Body, k: nat, left: Body, child: Body, right: Body, now: Body)

  predicate LeftSpares(o: Limits, f: Family) {
    CanSpare(o, f.left.items) && 0 < f.k <= |f.parent.items|
  }

  predicate RightSpares(o: Limits, f: Family) {
    CanSpare(o, f.right.items) && f.k < |f.parent.items|
  }

  /** The parent after the rotation from the left, if there is one. */
  function LeftParent(o: Limits, f: Family): Body {
    if LeftSpares(o, f) then
      Body(f.parent.items[f.k - 1 := f.left.items[|f.left.items| - 1]], f.parent.children)
    else f.parent
  }

  /** The parent after both. */
  function RotatedParent(o: Limits, f: Family): Body {
    var p := LeftParent(o, f);
    if RightSpares(o, f) then Body(p.items[f.k := f.right.items[0]], p.children) else p
  }

  function FirstChild(b: Body): seq<nat> {
    if b.children == [] then [] else [b.children[0]]
  }

  function LastChild(b: Body): seq<nat> {
    if b.children == [] then [] else [b.children[|b.children| - 1]]
  }

  function Joined(a: Body, x: Item, b: Body): Body {
    Body(a.items + [x] + b.items, if a.children == [] then [] else a.children + b.children)
  }

  /** A step is about a parent with its child and one sibling at least; siblings are nodes of the child's kind. */
  predicate Proper(f: Family) {
    && |f.parent.children| == |f.parent.items| + 1 && 2 <= |f.parent.children| && f.k < |f.parent.children|
    && (if f.k == 0 then f.left == NOBODY else Alike(f.left, f.child))
    && (if f.k == |f.parent.items| then f.right == NOBODY else Alike(f.right, f.child))
    && Alike(f.now, f.child)
  }

  /** Nodes of one level: all leaves, or all with one child more than items. */
  predicate Alike(a: Body, b: Body) {
    if b.children == [] then a.children == []
    else |a.children| == |a.items| + 1 && |b.children| == |b.items| + 1
  }

  /**
   * The merged node. For the first child: the child, the separator and its right sibling, where the child is the
   * copy if the sibling can spare an item, and what the store has by now if not. For a later child: the left
   * sibling, the separator and the child, and one item more if the right sibling can spare it.
   */
  function Merged(o: Limits, f: Family): Body
    requires Proper(f)
  {
    if f.k == 0 then Joined(if RightSpares(o, f) then f.child else f.now, f.parent.items[0], f.right)
    else
      var r := Joined(f.left, f.parent.items[f.k - 1], f.child);
      if RightSpares(o, f) then Body(r.items + [f.parent.items[f.k]], r.children + FirstChild(f.right)) else r
  }

  /** The parent after the merge that always follows the rotations. */
  function ParentAfter(o: Limits, f: Family): Body
    requires Proper(f)
  {
    Without(RotatedParent(o, f), if f.k == 0 then 1 else f.k)
  }

  /** A node without child j and the item before it. */
  function Without(p: Body, j: nat): Body
    requires 0 < j < |p.children| && j <= |p.items|
  {
    Body(RemoveAt(p.items, j - 1), RemoveAt(p.children, j))
  }

  /** The merged node fits, and so does the parent with the items that the rotations hand up. */
  predicate StepFits(size: nat, o: Limits, f: Family)
    requires Proper(f)
  {
    && Fits(size, Merged(o, f))
    && (LeftSpares(o, f) ==> Fits(size, LeftParent(o, f)))
    && (RightSpares(o, f) ==> Fits(size, RotatedParent(o, f)))
  }

  // ---------------------------------------------------------------- the rotations

  /** The left sibling after the rotation from the left, if there is one, and the child. */
  function GivenLeft(o: Limits, f: Family): Body {
    if !LeftSpares(o, f) then f.left
    else Body(f.left.items[..|f.left.items| - 1],
              if f.left.children == [] then [] else f.left.children[..|f.left.children| - 1])
  }

  function TakenLeft(o: Limits, f: Family): Body {
    if !LeftSpares(o, f) then f.child
    else Body([f.parent.items[f.k - 1]] + f.child.items, LastChild(f.left) + f.child.children)
  }

  /** The child after both rotations, and the right sibling. */
  function TakenRight(o: Limits, f: Family): Body {
    var u := TakenLeft(o, f);
    if !RightSpares(o, f) then u else Body(u.items + [f.parent.items[f.k]], u.children + FirstChild(f.right))
  }

  function GivenRight(o: Limits, f: Family): Body {
    if !RightSpares(o, f) then f.right
    else Body(f.right.items[1..], if f.right.children == [] then [] else f.right.children[1..])
  }

  /** The store has the family around child k of the parent page, on pages that are all different. */
  ghost predicate Holds(d: Db, page: nat, f: Family) {
    && Proper(f) && CanRebalance(d, f.parent, f.parent.children[f.k], f.k)
    && ApartAround(Copy(page, f.parent), f.k)
    && d.pages[f.parent.children[f.k]] == f.now
    && HoldsSiblings(d, f)
  }

  ghost predicate HoldsSiblings(d: Db, f: Family)
    requires Proper(f)
  {
    && (f.k > 0 ==> var a := f.parent.children[f.k - 1]; a in d.pages && d.pages[a] == f.left)
    && (f.k < |f.parent.items| ==> var c := f.parent.children[f.k + 1]; c in d.pages && d.pages[c] == f.right)
  }

  lemma RotateRightIs(o: Limits, f: Family)
    requires Proper(f) && LeftSpares(o, f)
    ensures RotateRight(f.left, f.parent, f.child, f.k) == (GivenLeft(o, f), LeftParent(o, f), TakenLeft(o, f))
  {
    if f.left.children == [] {
      assert LastChild(f.left) + f.child.children == f.child.children;
    }
  }

  lemma BorrowLeftIs(d: Db, page: nat, f: Family)
    requires Proper(f) && CanRebalance(d, f.parent, f.parent.children[f.k], f.k) && HoldsSiblings(d, f)
    ensures var o, r := d.lim, BorrowLeft(d, Copy(page, f.parent), Copy(f.parent.children[f.k], f.child), f.k);
            var p, u := Copy(page, LeftParent(o, f)), Copy(f.parent.children[f.k], TakenLeft(o, f));
            if LeftSpares(o, f) then
              r == (Write(Write(Write(d, Copy(f.parent.children[f.k - 1], GivenLeft(o, f))), p), u), p, u)
            else r == (d, p, u)
  {
    if LeftSpares(d.lim, f) {
      RotateRightIs(d.lim, f);
    }
  }

  lemma BorrowRightIs(e: Db, page: nat, f: Family)
    requires Proper(f) && HoldsRight(e, f) && CanRebalance(e, LeftParent(e.lim, f), f.parent.children[f.k], f.k)
    ensures var o := e.lim;
            var p, u := Copy(page, RotatedParent(o, f)), Copy(f.parent.children[f.k], TakenRight(o, f));
            var r := BorrowRight(e, Copy(page, LeftParent(o, f)), Copy(f.parent.children[f.k], TakenLeft(o, f)), f.k);
            if RightSpares(o, f) then
              r == (Write(Write(Write(e, u), p), Copy(f.parent.children[f.k + 1], GivenRight(o, f))), p, u)
            else r == (e, p, u)
  {
    var u := TakenLeft(e.lim, f);
    if RightSpares(e.lim, f) && f.right.children == [] {
      assert u.children + FirstChild(f.right) == u.children;
    }
  }

  ghost predicate HoldsRight(d: Db, f: Family)
    requires Proper(f)
  {
    f.k < |f.parent.items| ==> var c := f.parent.children[f.k + 1]; c in d.pages && d.pages[c] == f.right
  }

  /** Three writes in a row fit exactly if each does. */
  lemma ThreeNew(size: nat, db: Db, x: Copy, y: Copy, z: Copy)
    ensures NewFit(size, db, Write(Write(Write(db, x), y), z))
            <==> Fits(size, x.body) && Fits(size, y.body) && Fits(size, z.body)
  {
    var a, b := Write(db, x), Write(Write(db, x), y);
    NewFitWrite(size, db, x);
    NewFitWrite(size, a, y);
    NewFitWrite(size, b, z);
    NewFitChain(size, db, a, b);
    NewFitChain(size, db, b, Write(b, z));
  }

  /** The store after three writes, read at the first and the last page and at one that was not written. */
  lemma ThreeRead(db: Db, x: Copy, y: Copy, z: Copy, other: nat)
    requires x.page != y.page && x.page != z.page && y.page != z.page
    ensures var e := Write(Write(Write(db, x), y), z);
            && e.pages[x.page] == x.body && e.pages[z.page] == z.body
            && (other in db.pages && other != x.page && other != y.page && other != z.page ==>
                  other in e.pages && e.pages[other] == db.pages[other])
  {
  }

  lemma GivenLeftFits(size: nat, o: Limits, f: Family)
    requires Proper(f) && LeftSpares(o, f) && Fits(size, f.left)
    ensures Fits(size, GivenLeft(o, f))
  {
    var a := f.left;
    PartFits(size, a, 0, |a.items| - 1);
    assert a.items[0..|a.items| - 1] == a.items[..|a.items| - 1];
    assert a.children != [] ==> a.children[0..|a.items|] == a.children[..|a.children| - 1];
  }

  lemma GivenRightFits(size: nat, o: Limits, f: Family)
    requires Proper(f) && RightSpares(o, f) && Fits(size, f.right)
    ensures Fits(size, GivenRight(o, f))
  {
    var c := f.right;
    var n := |c.items|;
    PartFits(size, c, 1, n);
    assert c.items[1..n] == c.items[1..];
    assert c.children != [] ==> c.children[1..n + 1] == c.children[1..];
  }

  /** The store after the rotation from the left, and whether its writes fit. */
  lemma LeftWrites(size: nat, d: Db, page: nat, f: Family)
    requires Holds(d, page, f) && (LeftSpares(d.lim, f) ==> Fits(size, f.left))
    ensures var o, e := d.lim, BorrowLeft(d, Copy(page, f.parent), Copy(f.parent.children[f.k], f.child), f.k).0;
            && (NewFit(size, d, e)
                <==> (LeftSpares(o, f) ==> Fits(size, LeftParent(o, f)) && Fits(size, TakenLeft(o, f))))
            && HoldsRight(e, f)
            && (f.k > 0 ==> var a := f.parent.children[f.k - 1]; a in e.pages && e.pages[a] == GivenLeft(o, f))
            && (f.k == 0 ==> e == d)
  {
    var o := d.lim;
    BorrowLeftIs(d, page, f);
    if LeftSpares(o, f) {
      var x, p, u := Copy(f.parent.children[f.k - 1], GivenLeft(o, f)), Copy(page, LeftParent(o, f)),
                     Copy(f.parent.children[f.k], TakenLeft(o, f));
      GivenLeftFits(size, o, f);
      ThreeNew(size, d, x, p, u);
      ThreeRead(d, x, p, u, if f.k < |f.parent.items| then f.parent.children[f.k + 1] else page);
    } else {
      NewFitSame(size, d, d);
    }
  }

  /** The store after the rotation from the right, and whether its writes fit. */
  lemma RightWrites(size: nat, e: Db, page: nat, f: Family)
    requires Proper(f) && HoldsRight(e, f) && CanRebalance(e, LeftParent(e.lim, f), f.parent.children[f.k], f.k)
    requires ApartAround(Copy(page, f.parent), f.k) && (RightSpares(e.lim, f) ==> Fits(size, f.right))
    requires f.k > 0 ==> e.pages[f.parent.children[f.k - 1]] == GivenLeft(e.lim, f)
    ensures var o := e.lim;
            var g := BorrowRight(e, Copy(page, LeftParent(o, f)), Copy(f.parent.children[f.k], TakenLeft(o, f)), f.k).0;
            && (NewFit(size, e, g) <==>
                  (RightSpares(o, f) ==> Fits(size, RotatedParent(o, f)) && Fits(size, TakenRight(o, f))))
            && (f.k > 0 ==> g.pages[f.parent.children[f.k - 1]] == GivenLeft(o, f))
            && (f.k < |f.parent.items| ==> g.pages[f.parent.children[f.k + 1]] == GivenRight(o, f))
            && g.pages[f.parent.children[f.k]]
               == if RightSpares(o, f) then TakenRight(o, f) else e.pages[f.parent.children[f.k]]
  {
    var o := e.lim;
    BorrowRightIs(e, page, f);
    if RightSpares(o, f) {
      var u, p, z := Copy(f.parent.children[f.k], TakenRight(o, f)), Copy(page, RotatedParent(o, f)),
                     Copy(f.parent.children[f.k + 1], GivenRight(o, f));
      GivenRightFits(size, o, f);
      ThreeNew(size, e, u, p, z);
      ThreeRead(e, u, p, z, if f.k > 0 then f.parent.children[f.k - 1] else page);
    } else {
      NewFitSame(size, e, e);
    }
  }

  // ---------------------------------------------------------------- the merge

  /** A merge writes the merged node and the parent. */
  lemma MergeWrites(size: nat, g: Db, p: Copy, b: Copy, j: nat)
    requires 0 < j < |p.body.children| && j <= |p.body.items| && p.body.children[j - 1] in g.pages
    ensures var r := MergeStep(g, p, b, j);
            var n := g.pages[p.body.children[j - 1]];
            var after := Body(RemoveAt(p.body.items, j - 1), RemoveAt(p.body.children, j));
            && (NewFit(size, g, r) <==> Fits(size, Joined(n, p.body.items[j - 1], b.body)) && Fits(size, after))
            && p.page in r.pages && r.pages[p.page] == after
  {
    var a := p.body.children[j - 1];
    var x, y := Copy(a, Joined(g.pages[a], p.body.items[j - 1], b.body)),
                Copy(p.page, Body(RemoveAt(p.body.items, j - 1), RemoveAt(p.body.children, j)));
    var e := Write(g, x);
    NewFitWrite(size, g, x);
    NewFitWrite(size, e, y);
    NewFitChain(size, g, e, Write(e, y));
  }

  /** Rotating an item away and merging it back. */
  lemma MergedLater(o: Limits, f: Family)
    requires Proper(f) && f.k > 0
    ensures Joined(GivenLeft(o, f), RotatedParent(o, f).items[f.k - 1], TakenRight(o, f)) == Merged(o, f)
  {
    var m, u := Merged(o, f), TakenLeft(o, f);
    if LeftSpares(o, f) {
      RotatedBack(f.left.items, f.parent.items[f.k - 1], f.child.items);
      if f.left.children != [] {
        LastBack(f.left.children, f.child.children);
      }
    }
    if RightSpares(o, f) {
      JoinedMore(GivenLeft(o, f), RotatedParent(o, f).items[f.k - 1], u, f.parent.items[f.k], FirstChild(f.right));
    }
  }

  lemma RotatedBack(a: seq<Item>, x: Item, u: seq<Item>)
    requires a != []
    ensures a[..|a| - 1] + [a[|a| - 1]] + ([x] + u) == a + [x] + u
  {
  }

  lemma LastBack(a: seq<nat>, u: seq<nat>)
    requires a != []
    ensures a[..|a| - 1] + ([a[|a| - 1]] + u) == a + u
  {
  }

  lemma JoinedMore(a: Body, x: Item, u: Body, y: Item, c: seq<nat>)
    requires a.children == [] ==> u.children == [] && c == []
    ensures var m := Joined(a, x, u);
            Joined(a, x, Body(u.items + [y], u.children + c)) == Body(m.items + [y], m.children + c)
  {
    assert a.items + [x] + (u.items + [y]) == a.items + [x] + u.items + [y];
    assert a.children + (u.children + c) == a.children + u.children + c;
  }

  lemma MergedFirst(o: Limits, f: Family)
    requires Proper(f) && f.k == 0
    ensures Joined(if RightSpares(o, f) then TakenRight(o, f) else f.now, RotatedParent(o, f).items[0],
                   GivenRight(o, f))
         == Merged(o, f)
  {
    if RightSpares(o, f) {
      var u, x, c := f.child, f.parent.items[0], f.right;
      assert u.items + [x] + [c.items[0]] + c.items[1..] == u.items + [x] + c.items;
      if c.children != [] {
        assert u.children + [c.children[0]] + c.children[1..] == u.children + c.children;
      }
    }
  }

  // ---------------------------------------------------------------- one step

  predicate RotationsFit(size: nat, o: Limits, f: Family) {
    && (LeftSpares(o, f) ==> Fits(size, LeftParent(o, f)) && Fits(size, TakenLeft(o, f)))
    && (RightSpares(o, f) ==> Fits(size, RotatedParent(o, f)) && Fits(size, TakenRight(o, f)))
  }

  /** The store after both rotations. */
  ghost predicate Rotations(g: Db, f: Family)
    requires Proper(f)
  {
    var o, ps := g.lim, f.parent.children;
    && (f.k > 0 ==> ps[f.k - 1] in g.pages && g.pages[ps[f.k - 1]] == GivenLeft(o, f))
    && (f.k == 0 ==>
          && ps[0] in g.pages && g.pages[ps[0]] == (if RightSpares(o, f) then TakenRight(o, f) else f.now)
          && ps[1] in g.pages && g.pages[ps[1]] == GivenRight(o, f))
  }

  lemma RotationWrites(size: nat, d: Db, page: nat, f: Family)
    requires Holds(d, page, f)
    requires (LeftSpares(d.lim, f) ==> Fits(size, f.left)) && (RightSpares(d.lim, f) ==> Fits(size, f.right))
    ensures var o, kid := d.lim, f.parent.children[f.k];
            var (e, p1, u1) := BorrowLeft(d, Copy(page, f.parent), Copy(kid, f.child), f.k);
            var (g, p2, u2) := BorrowRight(e, p1, u1, f.k);
            && p2 == Copy(page, RotatedParent(o, f)) && u2 == Copy(kid, TakenRight(o, f))
            && (NewFit(size, d, g) <==> RotationsFit(size, o, f)) && Extends(d, g) && Rotations(g, f)
  {
    var o, kid := d.lim, f.parent.children[f.k];
    BorrowLeftIs(d, page, f);
    LeftWrites(size, d, page, f);
    var (e, p1, u1) := BorrowLeft(d, Copy(page, f.parent), Copy(kid, f.child), f.k);
    BorrowRightIs(e, page, f);
    RightWrites(size, e, page, f);
    NewFitChain(size, d, e, BorrowRight(e, p1, u1, f.k).0);
  }

  /** The merge after the rotations. */
  function LastMerge(g: Db, page: nat, f: Family): Db
    requires Proper(f) && Rotations(g, f)
  {
    var p, ps := Copy(page, RotatedParent(g.lim, f)), f.parent.children;
    if f.k == 0 then MergeStep(g, p, Copy(ps[1], g.pages[ps[1]]), 1)
    else MergeStep(g, p, Copy(ps[f.k], TakenRight(g.lim, f)), f.k)
  }

  lemma LastMergeWrites(size: nat, g: Db, page: nat, f: Family)
    requires Proper(f) && Rotations(g, f)
    ensures var o, r := g.lim, LastMerge(g, page, f);
            && (NewFit(size, g, r) <==> Fits(size, Merged(o, f)) && Fits(size, ParentAfter(o, f)))
            && Extends(g, r) && page in r.pages && r.pages[page] == ParentAfter(o, f)
  {
    var p, ps := Copy(page, RotatedParent(g.lim, f)), f.parent.children;
    if f.k == 0 {
      MergedFirst(g.lim, f);
      MergeWrites(size, g, p, Copy(ps[1], g.pages[ps[1]]), 1);
    } else {
      MergedLater(g.lim, f);
      MergeWrites(size, g, p, Copy(ps[f.k], TakenRight(g.lim, f)), f.k);
    }
  }

  /** All nodes that a step writes on the way, and what the parent's page holds after it. */
  lemma StepWrites(size: nat, d: Db, page: nat, f: Family)
    requires Holds(d, page, f)
    requires (LeftSpares(d.lim, f) ==> Fits(size, f.left)) && (RightSpares(d.lim, f) ==> Fits(size, f.right))
    ensures var o, r := d.lim, RebalanceStep(d, Copy(page, f.parent), Copy(f.parent.children[f.k], f.child), f.k);
            && (NewFit(size, d, r) <==>
                  RotationsFit(size, o, f) && Fits(size, Merged(o, f)) && Fits(size, ParentAfter(o, f)))
            && page in r.pages && r.pages[page] == ParentAfter(o, f)
  {
    RotationWrites(size, d, page, f);
    var (e, p1, u1) := BorrowLeft(d, Copy(page, f.parent), Copy(f.parent.children[f.k], f.child), f.k);
    var g := BorrowRight(e, p1, u1, f.k).0;
    LastMergeWrites(size, g, page, f);
    NewFitChain(size, d, g, LastMerge(g, page, f));
  }

  /** The nodes in between are parts of the merged node, and the parent afterwards is a part of the rotated one. */
  lemma BetweenFits(size: nat, o: Limits, f: Family)
    requires Proper(f) && Fits(size, f.parent) && StepFits(size, o, f)
    ensures RotationsFit(size, o, f) && Fits(size, ParentAfter(o, f))
  {
    if LeftSpares(o, f) {
      TakenLeftFits(size, o, f);
    }
    if RightSpares(o, f) {
      TakenRightFits(size, o, f);
    }
    ParentAfterFits(size, o, f);
  }

  lemma ThisPartFits(size: nat, b: Body, i: nat, j: nat, part: Body)
    requires Fits(size, b) && i <= j <= |b.items| && PartOf(b, i, j) == part
    ensures Fits(size, part)
  {
    PartFits(size, b, i, j);
  }

  lemma TakenLeftFits(size: nat, o: Limits, f: Family)
    requires Proper(f) && LeftSpares(o, f) && Fits(size, Merged(o, f))
    ensures Fits(size, TakenLeft(o, f))
  {
    TakenLeftIsPart(o, f);
    ThisPartFits(size, Merged(o, f), |f.left.items|, |f.left.items| + 1 + |f.child.items|, TakenLeft(o, f));
  }

  lemma TakenRightFits(size: nat, o: Limits, f: Family)
    requires Proper(f) && RightSpares(o, f) && Fits(size, Merged(o, f))
    ensures Fits(size, TakenRight(o, f))
  {
    TakenRightIsPart(o, f);
    var i := TakenFrom(o, f);
    ThisPartFits(size, Merged(o, f), i, i + |TakenRight(o, f).items|, TakenRight(o, f));
  }

  lemma ParentAfterFits(size: nat, o: Limits, f: Family)
    requires Proper(f) && Fits(size, RotatedParent(o, f))
    ensures Fits(size, ParentAfter(o, f))
  {
    SmallerParentFits(size, RotatedParent(o, f), if f.k == 0 then 1 else f.k);
  }

  lemma SmallerParentFits(size: nat, p: Body, j: nat)
    requires 0 < j < |p.children| && j <= |p.items| && Fits(size, p)
    ensures Fits(size, Without(p, j))
  {
    WithoutFits(size, p, j - 1, j);
  }

  lemma Middle<T>(a: seq<T>, b: seq<T>, c: seq<T>)
    ensures (a + b + c)[|a|..|a| + |b|] == b
  {
  }

  lemma TakenLeftIsPart(o: Limits, f: Family)
    requires Proper(f) && LeftSpares(o, f)
    ensures var m, i := Merged(o, f), |f.left.items|;
            && i + 1 + |f.child.items| <= |m.items| && (m.children == [] || |m.children| == |m.items| + 1)
            && PartOf(m, i, i + 1 + |f.child.items|) == TakenLeft(o, f)
  {
    var a, x, u := f.left, f.parent.items[f.k - 1], f.child;
    var y := if RightSpares(o, f) then [f.parent.items[f.k]] else [];
    var c := if RightSpares(o, f) then FirstChild(f.right) else [];
    var m := Merged(o, f);
    assert m.items == a.items + [x] + u.items + y;
    assert m.children == if a.children == [] then [] else a.children + u.children + c;
    TakenPart(m, a, x, u, y, c);
  }

  /** Within a node made of a, x, u and more: the part from the last child of a to the end of u. */
  lemma TakenPart(m: Body, a: Body, x: Item, u: Body, y: seq<Item>, c: seq<nat>)
    requires m.items == a.items + [x] + u.items + y && |a.children| == (if u.children == [] then 0 else |a.items| + 1)
    requires m.children == if a.children == [] then [] else a.children + u.children + c
    requires m.children == [] || |m.children| == |m.items| + 1
    requires u.children == [] || |u.children| == |u.items| + 1
    ensures |a.items| + 1 + |u.items| <= |m.items|
    ensures PartOf(m, |a.items|, |a.items| + 1 + |u.items|) == Body([x] + u.items, LastChild(a) + u.children)
  {
    TakenItems(m.items, a.items, x, u.items, y);
    if a.children != [] {
      TakenChildren(m.children, a.children, u.children, c);
    }
  }

  lemma TakenItems(m: seq<Item>, a: seq<Item>, x: Item, u: seq<Item>, y: seq<Item>)
    requires m == a + [x] + u + y
    ensures |a| + 1 + |u| <= |m| && m[|a|..|a| + 1 + |u|] == [x] + u
  {
    assert m == a + ([x] + u) + y;
    Middle(a, [x] + u, y);
  }

  lemma TakenChildren(m: seq<nat>, a: seq<nat>, u: seq<nat>, c: seq<nat>)
    requires m == a + u + c && a != []
    ensures |a| + |u| <= |m| && m[|a| - 1..|a| + |u|] == [a[|a| - 1]] + u
  {
    var front, last := a[..|a| - 1], [a[|a| - 1]];
    assert m == front + (last + u) + c;
    Middle(front, last + u, c);
  }

  /** Where the child's items, as they are after the rotations, start in the merged node. */
  function TakenFrom(o: Limits, f: Family): nat {
    if f.k == 0 then 0 else if LeftSpares(o, f) then |f.left.items| else |f.left.items| + 1
  }

  lemma TakenRightIsPart(o: Limits, f: Family)
    requires Proper(f) && RightSpares(o, f)
    ensures var m, u, i := Merged(o, f), TakenRight(o, f), TakenFrom(o, f);
            && i + |u.items| <= |m.items| && (m.children == [] || |m.children| == |m.items| + 1)
            && PartOf(m, i, i + |u.items|) == u
  {
    if f.k == 0 {
      FirstTakesRight(o, f);
    } else {
      LaterTakesRight(o, f);
    }
  }

  lemma FirstTakesRight(o: Limits, f: Family)
    requires Proper(f) && RightSpares(o, f) && f.k == 0
    ensures var m, u := Merged(o, f), TakenRight(o, f);
            && |u.items| <= |m.items| && (m.children == [] || |m.children| == |m.items| + 1)
            && PartOf(m, 0, |u.items|) == u
  {
    var m, u := Merged(o, f), TakenRight(o, f);
    FrontPart(u.items, f.right.items);
    if f.child.children != [] {
      assert m.children == u.children + f.right.children[1..];
      FrontPart(u.children, f.right.children[1..]);
    }
  }

  lemma LaterTakesRight(o: Limits, f: Family)
    requires Proper(f) && RightSpares(o, f) && f.k > 0
    ensures var m, u, i := Merged(o, f), TakenRight(o, f), TakenFrom(o, f);
            && i + |u.items| <= |m.items| && (m.children == [] || |m.children| == |m.items| + 1)
            && PartOf(m, i, i + |u.items|) == u
  {
    LaterItems(o, f);
    if f.child.children != [] {
      LaterChildren(o, f);
    } else {
      LaterLeaves(o, f);
    }
  }

  lemma LaterLeaves(o: Limits, f: Family)
    requires Proper(f) && f.k > 0 && f.child.children == []
    ensures Merged(o, f).children == [] && TakenRight(o, f).children == []
  {
  }

  lemma LaterItems(o: Limits, f: Family)
    requires Proper(f) && RightSpares(o, f) && f.k > 0
    ensures var m, u, i := Merged(o, f), TakenRight(o, f), TakenFrom(o, f);
            i + |u.items| == |m.items| && m.items[i..|m.items|] == u.items
  {
    var a, x, b, y := f.left.items, [f.parent.items[f.k - 1]], f.child.items, [f.parent.items[f.k]];
    assert Merged(o, f).items == a + x + b + y;
    BackParts(a, x, b, y);
  }

  lemma LaterChildren(o: Limits, f: Family)
    requires Proper(f) && RightSpares(o, f) && f.k > 0 && f.child.children != []
    ensures var m, u, i := Merged(o, f), TakenRight(o, f), TakenFrom(o, f);
            && |m.children| == |m.items| + 1 && i + |u.items| == |m.items|
            && i <= |m.children| && m.children[i..|m.children|] == u.children
  {
    var n := |f.left.children| - 1;
    var a, x, b, y := f.left.children[..n], [f.left.children[n]], f.child.children, FirstChild(f.right);
    assert f.left.children == a + x;
    assert Merged(o, f).children == a + x + b + y;
    BackParts(a, x, b, y);
  }

  lemma FrontPart<T>(u: seq<T>, rest: seq<T>)
    ensures (u + rest)[0..|u|] == u
  {
  }

  lemma BackParts<T>(a: seq<T>, x: seq<T>, b: seq<T>, y: seq<T>)
    ensures var m := a + x + b + y;
            m[|a|..|m|] == x + b + y && m[|a| + |x|..|m|] == b + y
  {
  }

  /** Everything a step writes fits exactly if the merged node does, and the parent with what is handed up. */
  lemma StepFitsIff(size: nat, d: Db, page: nat, f: Family)
    requires Holds(d, page, f) && Fits(size, f.parent)
    requires (LeftSpares(d.lim, f) ==> Fits(size, f.left)) && (RightSpares(d.lim, f) ==> Fits(size, f.right))
    ensures var r := RebalanceStep(d, Copy(page, f.parent), Copy(f.parent.children[f.k], f.child), f.k);
            && (NewFit(size, d, r) <==> StepFits(size, d.lim, f))
            && page in r.pages && r.pages[page] == ParentAfter(d.lim, f)
            && (StepFits(size, d.lim, f) ==> Fits(size, ParentAfter(d.lim, f)))
  {
    StepWrites(size, d, page, f);
    if StepFits(size, d.lim, f) {
      BetweenFits(size, d.lim, f);
    }
  }

  // ---------------------------------------------------------------- the loop

  /** Child k of t with its siblings. */
  function FamilyOf(t: Tree, k: nat, now: Body): Family
    requires k < |t.kids|
  {
    Family(BodyOf(t), k, if k == 0 then NOBODY else BodyOf(t.kids[k - 1]), BodyOf(t.kids[k]),
           if k == |t.kids| - 1 then NOBODY else BodyOf(t.kids[k + 1]), now)
  }

  /** The node t as the store has it when the loop below it and its own step are done. */
  function BodyNow(o: Limits, t: Tree, path: seq<nat>): Body
    requires IsPath(t, path)
    decreases |path|
  {
    if path == [] then BodyOf(t)
    else
      var f := FamilyOf(t, path[0], BodyNow(o, t.kids[path[0]], path[1..]));
      if Under(o, f.child.items) && Proper(f) then ParentAfter(o, f) else BodyOf(t)
  }

  /** Every step of the loop that is taken has room for what it writes. */
  predicate StepsFit(size: nat, o: Limits, t: Tree, path: seq<nat>)
    requires IsPath(t, path)
    decreases |path|
  {
    path == []
    || (var f := FamilyOf(t, path[0], BodyNow(o, t.kids[path[0]], path[1..]));
        && StepsFit(size, o, t.kids[path[0]], path[1..])
        && (Under(o, f.child.items) && Proper(f) ==> StepFits(size, o, f)))
  }

  lemma NodeIsAlike(t: Tree, h: nat, u: Tree)
    requires Balanced(t, h) && Balanced(u, h)
    ensures Alike(BodyOf(t), BodyOf(u))
  {
  }

  /** The kind of a node does not change in the loop. */
  lemma {:induction false} BodyNowIsAlike(o: Limits, t: Tree, h: nat, path: seq<nat>)
    requires Balanced(t, h) && IsPath(t, path)
    ensures Alike(BodyNow(o, t, path), BodyOf(t))
    decreases |path|
  {
  }

  lemma FamilyIsProper(o: Limits, t: Tree, h: nat, k: nat, now: Body)
    requires Balanced(t, h) && h > 0 && k < |t.kids| && 2 <= |t.kids| && Alike(now, BodyOf(t.kids[k]))
    ensures Proper(FamilyOf(t, k, now))
  {
    assert Balanced(t.kids[k], h - 1);
    if k > 0 {
      NodeIsAlike(t.kids[k - 1], h - 1, t.kids[k]);
    }
    if k + 1 < |t.kids| {
      NodeIsAlike(t.kids[k + 1], h - 1, t.kids[k]);
    }
  }

  /**
   * After the loop at and below t: what is known in every case, what the page of t holds, and whether the writes fit.
   */
  ghost predicate Looped(size: nat, db: Db, d: Db, t: Tree, path: seq<nat>, rest: multiset<nat>)
    requires IsPath(t, path)
  {
    && Extends(db, d) && Reworked(db, d, t, path, rest)
    && d.pages[t.page] == BodyNow(db.lim, t, path)
    && (NewFit(size, db, d) <==> StepsFit(size, db.lim, t, path))
  }

  /** The loop's writes fit exactly if this can be seen in the tree that it starts from. */
  lemma {:induction false} LoopFitsIff(size: nat, db: Db, t: Tree, h: nat, path: seq<nat>, rest: multiset<nat>)
    requires InPlace(db, t, h, rest) && IsPath(t, path) && SiblingsExist(db.lim, t, path) && TreeFits(size, t)
    ensures CanRebalanceUp(db, Along(t, path), path)
    ensures Looped(size, db, RebalanceUp(db, Along(t, path), path), t, path, rest)
    decreases |path|
  {
    if path == [] {
      StoredClosed(t, db.pages);
      NewFitSame(size, db, db);
    } else {
      var k, q := path[0], path[1..];
      KidInPlace(db, t, h, k, rest);
      assert EveryNode(FitsOn(size), t.kids[k]);
      LoopFitsIff(size, db, t.kids[k], h - 1, q, rest + Others(t, k));
      LevelFits(size, db, RebalanceUp(db, Along(t.kids[k], q), q), t, h, path, rest);
      LoopAt(db, t, path);
    }
  }

  lemma LevelFits(size: nat, db: Db, d: Db, t: Tree, h: nat, path: seq<nat>, rest: multiset<nat>)
    requires InPlace(db, t, h, rest) && h > 0 && IsPath(t, path) && path != [] && SiblingsExist(db.lim, t, path)
    requires TreeFits(size, t) && Looped(size, db, d, t.kids[path[0]], path[1..], rest + Others(t, path[0]))
    ensures var kid := t.kids[path[0]];
            if Under(db.lim, kid.items) then
              && CanRebalance(d, BodyOf(t), kid.page, path[0])
              && Looped(size, db, RebalanceStep(d, CopyOf(t), CopyOf(kid), path[0]), t, path, rest)
            else Looped(size, db, d, t, path, rest)
  {
    LevelReworked(db, d, t, h, path, rest);
    if Under(db.lim, t.kids[path[0]].items) {
      StepLooped(size, db, d, t, h, path, rest);
    } else {
      KidReworked(db, d, t, h, path[0], path[1..], rest);
    }
  }

  lemma StepLooped(size: nat, db: Db, d: Db, t: Tree, h: nat, path: seq<nat>, rest: multiset<nat>)
    requires InPlace(db, t, h, rest) && h > 0 && IsPath(t, path) && path != [] && 2 <= |t.kids|
    requires TreeFits(size, t) && Looped(size, db, d, t.kids[path[0]], path[1..], rest + Others(t, path[0]))
    requires Under(db.lim, t.kids[path[0]].items) && CanRebalance(d, BodyOf(t), t.kids[path[0]].page, path[0])
    ensures var r := RebalanceStep(d, CopyOf(t), CopyOf(t.kids[path[0]]), path[0]);
            && (NewFit(size, db, r) <==> StepsFit(size, db.lim, t, path))
            && t.page in r.pages && r.pages[t.page] == BodyNow(db.lim, t, path)
  {
    var k := path[0];
    var kid := t.kids[k];
    var f := FamilyOf(t, k, BodyNow(db.lim, kid, path[1..]));
    FamilyHeld(db, d, t, h, path, rest, f);
    FamilyFits(size, t, k, f);
    StepFitsIff(size, d, t.page, f);
    NewFitChain(size, db, d, RebalanceStep(d, CopyOf(t), CopyOf(kid), k));
  }

  lemma FamilyFits(size: nat, t: Tree, k: nat, f: Family)
    requires TreeFits(size, t) && k < |t.kids| && f == FamilyOf(t, k, f.now)
    ensures Fits(size, f.parent) && (k > 0 ==> Fits(size, f.left)) && (k + 1 < |t.kids| ==> Fits(size, f.right))
  {
    if k > 0 {
      assert EveryNode(FitsOn(size), t.kids[k - 1]);
    }
    if k + 1 < |t.kids| {
      assert EveryNode(FitsOn(size), t.kids[k + 1]);
    }
  }

  lemma FamilyHeld(db: Db, d: Db, t: Tree, h: nat, path: seq<nat>, rest: multiset<nat>, f: Family)
    requires InPlace(db, t, h, rest) && h > 0 && IsPath(t, path) && path != [] && 2 <= |t.kids|
    requires Reworked(db, d, t.kids[path[0]], path[1..], rest + Others(t, path[0]))
    requires d.pages[t.kids[path[0]].page] == BodyNow(db.lim, t.kids[path[0]], path[1..])
    requires f == FamilyOf(t, path[0], BodyNow(db.lim, t.kids[path[0]], path[1..]))
    ensures Holds(d, t.page, f)
  {
    var k := path[0];
    KidReworked(db, d, t, h, k, path[1..], rest);
    DistinctPart(db.free, Bag(t), rest);
    KidsApart(t, k);
    ProperNow(db.lim, t, h, path);
    SiblingsHeld(d, t, k, f);
  }

  lemma ProperNow(o: Limits, t: Tree, h: nat, path: seq<nat>)
    requires Balanced(t, h) && h > 0 && IsPath(t, path) && path != [] && 2 <= |t.kids|
    ensures Proper(FamilyOf(t, path[0], BodyNow(o, t.kids[path[0]], path[1..])))
  {
    var kid := t.kids[path[0]];
    assert Balanced(kid, h - 1);
    BodyNowIsAlike(o, kid, h - 1, path[1..]);
    FamilyIsProper(o, t, h, path[0], BodyNow(o, kid, path[1..]));
  }

  lemma SiblingsHeld(d: Db, t: Tree, k: nat, f: Family)
    requires k < |t.kids| && f == FamilyOf(t, k, f.now) && Proper(f)
    requires StoredAll(t.kids[..k], d.pages) && StoredAll(t.kids[k + 1..], d.pages)
    ensures HoldsSiblings(d, f)
  {
    if k > 0 {
      assert t.kids[..k][k - 1] == t.kids[k - 1] && Stored(t.kids[..k][k - 1], d.pages);
    }
    if k + 1 < |t.kids| {
      assert t.kids[k + 1..][0] == t.kids[k + 1] && Stored(t.kids[k + 1..][0], d.pages);
    }
  }

  // ---------------------------------------------------------------- the operation

  /**
   * An inner node that takes over a predecessor has room for it, and every step of the loop has room. Leaves only
   * lose an item.
   */
  predicate RemoveFits(size: nat, c: Coll, t: Tree, key: Bytes)
    requires CanRemove(c, t, key)
  {
    var s := Search(t, key);
    s.found ==>
      && (Sub(t, s.path).kids != [] ==> Fits(size, BodyOf(Shrunk(Sub(t, s.path), s.index))))
      && (FullPathIsPath(t, s); StepsFit(size, c.db.lim, Deleted(t, s), FullPath(t, s)))
  }

  lemma ShrunkLeafFits(size: nat, x: Tree, index: nat)
    requires x.kids == [] && index < |x.items| && Fits(size, BodyOf(x))
    ensures Fits(size, BodyOf(Shrunk(x, index)))
  {
    WithoutFits(size, BodyOf(x), index, 0);
    assert Pages(x.kids) == [];
  }

  lemma PoppedLeafFits(size: nat, t: Tree, h: nat, pages: map<nat, Body>)
    requires Balanced(t, h) && Stored(t, pages) && PagesFit(size, pages) && IsPath(t, LastPath(t))
    requires Sub(t, LastPath(t)).items != [] && Distinct(Bag(t))
    ensures Fits(size, BodyOf(PoppedLeaf(t)))
  {
    var leaf := Sub(t, LastPath(t));
    LastPathIsRightmost(t, h);
    SubStored(t, LastPath(t), pages);
    StoredFits(size, leaf, pages);
    PartFits(size, BodyOf(leaf), 0, |leaf.items| - 1);
    assert leaf.items[0..|leaf.items| - 1] == leaf.items[..|leaf.items| - 1];
    assert Pages(leaf.kids) == [];
  }

  /** The writes of the deletion itself. */
  lemma DeleteFits(size: nat, db: Db, x: Tree, h: nat, index: nat)
    requires Balanced(x, h) && Stored(x, db.pages) && Distinct(Bag(x)) && PagesFit(size, db.pages)
    requires index < |x.items| && HasPredecessor(x, index)
    ensures var d := DeleteWrites(db, x, index);
            && (NewFit(size, db, d) <==> (x.kids != [] ==> Fits(size, BodyOf(Shrunk(x, index)))))
            && (NewFit(size, db, d) ==> PagesFit(size, d.pages))
  {
    StoredFits(size, x, db.pages);
    if x.kids == [] {
      ShrunkLeafFits(size, x, index);
      NewFitWrite(size, db, CopyOf(Shrunk(x, index)));
      OneMoreFits(size, db.pages, CopyOf(Shrunk(x, index)));
    } else {
      var kid := x.kids[index];
      assert Balanced(kid, h - 1) && Stored(kid, db.pages);
      DistinctParts(x, index);
      PoppedLeafFits(size, kid, h - 1, db.pages);
      var e := Write(db, CopyOf(PoppedLeaf(kid)));
      OneMoreFits(size, db.pages, CopyOf(PoppedLeaf(kid)));
      NewFitWrite(size, db, CopyOf(PoppedLeaf(kid)));
      NewFitWrite(size, e, CopyOf(Shrunk(x, index)));
      NewFitChain(size, db, e, DeleteWrites(db, x, index));
      if Fits(size, BodyOf(Shrunk(x, index))) {
        OneMoreFits(size, e.pages, CopyOf(Shrunk(x, index)));
      }
    }
  }

  /** Everything that `remove` writes fits its page exactly if this can be seen before. */
  lemma RemoveFitsIff(size: nat, c: Coll, t: Tree, key: Bytes)
    requires Valid(c, t) && CanRemove(c, t, key) && Fitting(size, c.db)
    ensures NewFit(size, c.db, RemoveState(c, t, key).db) <==> RemoveFits(size, c, t, key)
  {
    var s := Search(t, key);
    if !s.found {
      NewFitSame(size, c.db, c.db);
    } else {
      var x := Sub(t, s.path);
      FittingPages(size, c.db);
      SafeIsDistinct(c.db.free, Bag(t));
      SubStored(t, s.path, c.db.pages);
      SubDistinct(t, s.path);
      SubShape(t, Height(t), s.path);
      DeleteFits(size, c.db, x, Height(t) - |s.path|, s.index);
      RemoveIsDefined(c, t, key);
      var d := DeleteWrites(c.db, x, s.index);
      if NewFit(size, c.db, d) {
        StoredTreeFits(size, Deleted(t, s), d.pages);
        LoopFitsIff(size, d, Deleted(t, s), Height(t), FullPath(t, s), multiset{});
      }
      NewFitChain(size, c.db, d, RemoveState(c, t, key).db);
    }
  }
}
