/**
 * What one split, the growth of the root and one rebalancing step leave on each page, in terms of the nodes before them
 * and of numbers of bytes (core/node.cpp, core/collection.cpp).
 */
module StepResults {
  import opened KeyOrder
  import opened Trees
  import opened Sizing
  import opened Freelists
  import opened Store
  import opened Collections
  import opened Putting
  import opened StaleCopies
  import opened RemovalFit

  // ---------------------------------------------------------------- a split

  /** The least proper prefix that is above the minimum, each item with eight bytes more, and all with three. */
  ghost predicate SplitsAt(o: Limits, items: seq<Item>, s: nat) {
    && 0 < s < |items| && (3 + |AllBytes(items[..s])| + 8 * s) as real > o.min
    && forall j :: 0 < j < s ==> (3 + |AllBytes(items[..j])| + 8 * j) as real <= o.min
  }

  /** The page that the allocator gives next. */
  function NextOf(f: Free): nat {
    if f.released == [] then f.maxPage + 1 else f.released[|f.released| - 1]
  }

  function PartFrom(children: seq<nat>, i: nat): seq<nat> {
    if i <= |children| then children[i..] else []
  }

  function PartTo(children: seq<nat>, i: nat): seq<nat> {
    if i <= |children| then children[..i] else []
  }

  /**
   * A split: the items after the middle one go to the next page, the middle one into the parent, and the first ones
   * stay; children go with the items around them. The three pages are written in this order, and no other one.
   */
  lemma SplitStepIs(db: Db, p: Copy, c: Copy, k: nat, s: nat)
    requires CanSplit(db.lim, c.body) && k <= |p.body.items| && k < |p.body.children|
    requires SplitsAt(db.lim, c.body.items, s)
    ensures var r, q, n := SplitStep(db, p, c, k), NextOf(db.free), |db.free.released|;
            && r.writes == db.writes
                           + [Copy(q, Body(c.body.items[s + 1..], PartFrom(c.body.children, s + 1))),
                              Copy(p.page, Body(p.body.items[..k] + [c.body.items[s]] + p.body.items[k..],
                                                p.body.children[..k + 1] + [q] + p.body.children[k + 1..])),
                              Copy(c.page, Body(c.body.items[..s], PartTo(c.body.children, s + 1)))]
            && r.pages == db.pages[q := r.writes[|db.writes|].body][p.page := r.writes[|db.writes| + 1].body]
                                  [c.page := r.writes[|db.writes| + 2].body]
            && r.free == if n == 0 then Free(db.free.maxPage + 1, [])
                         else Free(db.free.maxPage, db.free.released[..n - 1])
  {
    SplitIndexIs(db.lim, c.body.items, s);
    var (free, q) := NextPage(db.free);
    var x, y, z := Copy(q, RightHalf(c.body, s)), Copy(p.page, Adopt(p.body, k, c.body.items[s], q)),
                   Copy(c.page, LeftHalf(c.body, s));
    ThreeLogged(db.(free := free), x, y, z);
    HalvesAre(c.body, s);
  }

  lemma ThreeLogged(db: Db, x: Copy, y: Copy, z: Copy)
    ensures var r := Write(Write(Write(db, x), y), z);
            && r.writes == db.writes + [x, y, z] && r.free == db.free
            && r.pages == db.pages[x.page := x.body][y.page := y.body][z.page := z.body]
  {
  }

  lemma HalvesAre(b: Body, s: nat)
    requires s < |b.items| && (b.children == [] || s < |b.children|)
    ensures RightHalf(b, s) == Body(b.items[s + 1..], PartFrom(b.children, s + 1))
    ensures LeftHalf(b, s) == Body(b.items[..s], PartTo(b.children, s + 1))
  {
  }

  /**
   * The growth of the root: the next page is the new root's and the one after it the right half's. The new root is
   * written twice, the second time as the last page.
   */
  lemma GrowRootIs(db: Db, r: Copy, s: nat)
    requires CanSplit(db.lim, r.body) && SplitsAt(db.lim, r.body.items, s)
    ensures var c, n := GrowRoot(db, r), NextOf(db.free);
            var q := NextOf(NextPage(db.free).0);
            && c.root == n && c.db.free == NextPage(NextPage(db.free).0).0
            && c.db.writes == db.writes + [Copy(q, Body(r.body.items[s + 1..], PartFrom(r.body.children, s + 1))),
                                           Copy(n, Body([r.body.items[s]], [r.page, q])),
                                           Copy(r.page, Body(r.body.items[..s], PartTo(r.body.children, s + 1))),
                                           Copy(n, Body([r.body.items[s]], [r.page, q]))]
  {
    SplitIndexIs(db.lim, r.body.items, s);
    var (free, n) := NextPage(db.free);
    var q, x, top := NextOf(free), r.body.items[s], Body([], [r.page]);
    SplitStepIs(db.(free := free), Copy(n, top), r, 0, s);
    NewTopIs(r.page, x, q);
    var d := SplitStep(db.(free := free), Copy(n, top), r, 0);
    assert GrowRoot(db, r) == Coll(Write(d, Copy(n, Body([x], [r.page, q]))), n);
    assert d.writes == db.writes + [d.writes[|db.writes|], Copy(n, Body([x], [r.page, q])), d.writes[|db.writes| + 2]];
  }

  lemma NewTopIs(page: nat, x: Item, q: nat)
    ensures Adopt(Body([], [page]), 0, x, q) == Body([x], [page, q])
    ensures [][..0] + [x] + [][0..] == [x] && [page][..1] + [q] + [page][1..] == [page, q]
  {
  }

  // ---------------------------------------------------------------- a rebalancing step

  /** The right sibling is there, and all its items but the last, each with eight bytes more, are above the minimum. */
  ghost predicate RightGives(o: Limits, f: Family) {
    var n := |f.right.items|;
    f.k < |f.parent.items| && n >= 2 && (3 + |AllBytes(f.right.items[..n - 1])| + 8 * (n - 1)) as real > o.min
  }

  lemma GivesIs(o: Limits, f: Family)
    ensures RightGives(o, f) <==> RightSpares(o, f)
  {
    CanSpareIs(o, f.right.items);
  }

  lemma AfterLeft(d: Db, page: nat, f: Family)
    requires Holds(d, page, f)
    ensures var o, e := d.lim, BorrowLeft(d, Copy(page, f.parent), Copy(f.parent.children[f.k], f.child), f.k).0;
            && e.lim == o && HoldsRight(e, f) && (f.k == 0 ==> e == d)
            && (f.k > 0 ==> var a := f.parent.children[f.k - 1]; a in e.pages && e.pages[a] == GivenLeft(o, f))
  {
    BorrowLeftIs(d, page, f);
    if LeftSpares(d.lim, f) {
      ThreeRead(d, Copy(f.parent.children[f.k - 1], GivenLeft(d.lim, f)), Copy(page, LeftParent(d.lim, f)),
                Copy(f.parent.children[f.k], TakenLeft(d.lim, f)),
                if f.k < |f.parent.items| then f.parent.children[f.k + 1] else page);
    }
  }

  lemma AfterRight(e: Db, page: nat, f: Family)
    requires Proper(f) && HoldsRight(e, f) && CanRebalance(e, LeftParent(e.lim, f), f.parent.children[f.k], f.k)
    requires ApartAround(Copy(page, f.parent), f.k)
    requires f.k > 0 ==> e.pages[f.parent.children[f.k - 1]] == GivenLeft(e.lim, f)
    ensures var o, ps := e.lim, f.parent.children;
            var g := BorrowRight(e, Copy(page, LeftParent(o, f)), Copy(ps[f.k], TakenLeft(o, f)), f.k).0;
            && g.lim == o
            && (f.k > 0 ==> ps[f.k - 1] in g.pages && g.pages[ps[f.k - 1]] == GivenLeft(o, f))
            && (f.k < |f.parent.items| ==> ps[f.k + 1] in g.pages && g.pages[ps[f.k + 1]] == GivenRight(o, f))
            && ps[f.k] in g.pages
            && g.pages[ps[f.k]] == if RightSpares(o, f) then TakenRight(o, f) else e.pages[ps[f.k]]
  {
    BorrowRightIs(e, page, f);
    if RightSpares(e.lim, f) {
      ThreeRead(e, Copy(f.parent.children[f.k], TakenRight(e.lim, f)), Copy(page, RotatedParent(e.lim, f)),
                Copy(f.parent.children[f.k + 1], GivenRight(e.lim, f)),
                if f.k > 0 then f.parent.children[f.k - 1] else page);
    }
  }

  /** The store before the merge, and the copies that are merged. */
  lemma BeforeMerge(d: Db, page: nat, f: Family) returns (g: Db)
    requires Holds(d, page, f)
    ensures g.lim == d.lim && Rotations(g, f)
    ensures f.k > 0 && f.k < |f.parent.items| ==>
              f.parent.children[f.k + 1] in g.pages && g.pages[f.parent.children[f.k + 1]] == GivenRight(d.lim, f)
    ensures RebalanceStep(d, Copy(page, f.parent), Copy(f.parent.children[f.k], f.child), f.k) == LastMerge(g, page, f)
  {
    var o, kid := d.lim, f.parent.children[f.k];
    BorrowLeftIs(d, page, f);
    AfterLeft(d, page, f);
    var (e, p1, u1) := BorrowLeft(d, Copy(page, f.parent), Copy(kid, f.child), f.k);
    BorrowRightIs(e, page, f);
    AfterRight(e, page, f);
    g := BorrowRight(e, p1, u1, f.k).0;
  }

  /**
   * A step with a later child: the left sibling, the separator and the child become one node. A right sibling that can
   * spare an item gives its first one to the parent, whose separator goes to the end of that node; nothing else changes
   * there. Whether the left sibling could spare one makes no difference.
   */
  lemma LaterStepIs(d: Db, page: nat, f: Family)
    requires Holds(d, page, f) && f.k > 0
    ensures var p, ps, k, give := f.parent.items, f.parent.children, f.k, RightGives(d.lim, f);
            var r := RebalanceStep(d, Copy(page, f.parent), Copy(ps[k], f.child), k);
            && ps[k - 1] in r.pages && page in r.pages
            && r.pages[ps[k - 1]].items == f.left.items + [p[k - 1]] + f.child.items + (if give then [p[k]] else [])
            && r.pages[ps[k - 1]].children
               == f.left.children + f.child.children + (if give then PartTo(f.right.children, 1) else [])
            && r.pages[page].items == p[..k - 1] + (if give then [f.right.items[0]] + p[k + 1..] else p[k..])
            && r.pages[page].children == ps[..k] + ps[k + 1..]
            && (k < |p| ==>
                  && ps[k + 1] in r.pages
                  && r.pages[ps[k + 1]]
                     == if give then Body(f.right.items[1..], PartFrom(f.right.children, 1)) else f.right)
  {
    GivesIs(d.lim, f);
    var g := BeforeMerge(d, page, f);
    LastMergeReads(g, page, f);
    LaterParts(d.lim, f);
  }

  /** The store after the merge. */
  lemma LastMergeReads(g: Db, page: nat, f: Family)
    requires Proper(f) && Rotations(g, f) && ApartAround(Copy(page, f.parent), f.k)
    ensures var ps, r := f.parent.children, LastMerge(g, page, f);
            var a := ps[if f.k == 0 then 0 else f.k - 1];
            && a in r.pages && r.pages[a] == Merged(g.lim, f)
            && page in r.pages && r.pages[page] == ParentAfter(g.lim, f)
            && (0 < f.k < |f.parent.items| && ps[f.k + 1] in g.pages ==>
                  ps[f.k + 1] in r.pages && r.pages[ps[f.k + 1]] == g.pages[ps[f.k + 1]])
  {
    if f.k == 0 {
      MergedFirst(g.lim, f);
    } else {
      MergedLater(g.lim, f);
    }
  }

  lemma LaterParts(o: Limits, f: Family)
    requires Proper(f) && f.k > 0
    ensures var p, ps, k, give := f.parent.items, f.parent.children, f.k, RightSpares(o, f);
            && Merged(o, f).items == f.left.items + [p[k - 1]] + f.child.items + (if give then [p[k]] else [])
            && Merged(o, f).children
               == f.left.children + f.child.children + (if give then PartTo(f.right.children, 1) else [])
            && ParentAfter(o, f).items == p[..k - 1] + (if give then [f.right.items[0]] + p[k + 1..] else p[k..])
            && ParentAfter(o, f).children == ps[..k] + ps[k + 1..]
            && GivenRight(o, f)
               == if give then Body(f.right.items[1..], PartFrom(f.right.children, 1)) else f.right
  {
    LaterParentItems(o, f);
  }

  lemma LaterParentItems(o: Limits, f: Family)
    requires Proper(f) && f.k > 0
    ensures var p, k, give := f.parent.items, f.k, RightSpares(o, f);
            ParentAfter(o, f).items == p[..k - 1] + (if give then [f.right.items[0]] + p[k + 1..] else p[k..])
  {
  }

  /**
   * A step with the first child: the child, the separator and the right sibling become one node. The child is the copy
   * that was taken before the loop if the sibling can spare an item, and what its page holds by now if not.
   */
  lemma FirstStepIs(d: Db, page: nat, f: Family)
    requires Holds(d, page, f) && f.k == 0
    ensures var p, ps, x := f.parent.items, f.parent.children, if RightGives(d.lim, f) then f.child else f.now;
            var r := RebalanceStep(d, Copy(page, f.parent), Copy(ps[0], f.child), 0);
            && ps[0] in r.pages && r.pages[ps[0]] == Body(x.items + [p[0]] + f.right.items,
                                                          x.children + f.right.children)
            && page in r.pages && r.pages[page] == Body(p[1..], [ps[0]] + ps[2..])
  {
    GivesIs(d.lim, f);
    var g := BeforeMerge(d, page, f);
    LastMergeReads(g, page, f);
    FirstParts(d.lim, f);
  }

  lemma FirstParts(o: Limits, f: Family)
    requires Proper(f) && f.k == 0
    ensures var p, ps, x := f.parent.items, f.parent.children, if RightSpares(o, f) then f.child else f.now;
            && Merged(o, f) == Body(x.items + [p[0]] + f.right.items, x.children + f.right.children)
            && ParentAfter(o, f) == Body(p[1..], [ps[0]] + ps[2..])
  {
  }
}
