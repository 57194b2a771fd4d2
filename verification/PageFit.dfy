/**
 * Pages have a size: exactly when everything an operation writes fits its page (core/node.h, core/collection.cpp).
 * If the two cursors of a page cross, cells overwrite offsets or each other, or leave the buffer, and the node
 * cannot be relied on any more.
 */
module PageFit {
  import opened KeyOrder
  import opened Trees
  import opened Sizing
  import opened Freelists
  import opened Store
  import opened Lookup
  import opened Splitting
  import opened Collections
  import opened Putting
  import opened NodeCodec
  import opened PageFiles
  import opened NodeProperties
  import opened InsertionEnds

  /** Every write after `before` fits a page. */
  predicate NewFit(size: nat, before: Db, after: Db) {
    before.writes <= after.writes && AllFit(size, after.writes[|before.writes|..])
  }

  lemma NewFitSame(size: nat, a: Db, b: Db)
    requires a.writes == b.writes
    ensures NewFit(size, a, b)
  {
  }

  lemma NewFitWrite(size: nat, db: Db, c: Copy)
    ensures NewFit(size, db, Write(db, c)) <==> Fits(size, c.body)
  {
    assert Write(db, c).writes[|db.writes|..] == [c];
    assert [c][0] == c;
  }

  lemma NewFitChain(size: nat, a: Db, b: Db, c: Db)
    requires a.writes <= b.writes <= c.writes
    ensures NewFit(size, a, c) <==> NewFit(size, a, b) && NewFit(size, b, c)
  {
    var x, y, z := b.writes[|a.writes|..], c.writes[|b.writes|..], c.writes[|a.writes|..];
    assert z == x + y;
    AllFitJoin(size, x, y);
  }

  lemma AllFitJoin(size: nat, x: seq<Copy>, y: seq<Copy>)
    ensures AllFit(size, x + y) <==> AllFit(size, x) && AllFit(size, y)
  {
    var z := x + y;
    if AllFit(size, z) {
      AllFitBefore(size, x, z);
      forall i | 0 <= i < |y|
        ensures Fits(size, y[i].body)
      {
        assert z[|x| + i] == y[i] && Fits(size, z[|x| + i].body);
      }
    }
    if AllFit(size, x) && AllFit(size, y) {
      forall i | 0 <= i < |z|
        ensures Fits(size, z[i].body)
      {
        if i < |x| {
          assert z[i] == x[i] && Fits(size, x[i].body);
        } else {
          assert z[i] == y[i - |x|] && Fits(size, y[i - |x|].body);
        }
      }
    }
  }

  /** The store is what its writes have made of it, and all of them fit. */
  predicate Fitting(size: nat, db: Db) {
    Logged(db) && AllFit(size, db.writes)
  }

  ghost predicate PagesFit(size: nat, pages: map<nat, Body>) {
    forall p {:trigger Fits(size, pages[p])} :: p in pages ==> Fits(size, pages[p])
  }

  lemma {:induction false} ReplayFits(size: nat, writes: seq<Copy>)
    requires AllFit(size, writes)
    ensures PagesFit(size, Replay(writes))
  {
    if writes != [] {
      var front, c := writes[..|writes| - 1], writes[|writes| - 1];
      AllFitBefore(size, front, writes);
      ReplayFits(size, front);
      assert Fits(size, writes[|writes| - 1].body);
      OneMoreFits(size, Replay(front), c);
    }
  }

  lemma OneMoreFits(size: nat, pages: map<nat, Body>, c: Copy)
    requires PagesFit(size, pages) && Fits(size, c.body)
    ensures PagesFit(size, pages[c.page := c.body])
  {
    var now := pages[c.page := c.body];
    forall p | p in now
      ensures Fits(size, now[p])
    {
      if p != c.page {
        assert Fits(size, pages[p]);
      }
    }
  }

  lemma FittingPages(size: nat, db: Db)
    requires Fitting(size, db)
    ensures PagesFit(size, db.pages)
  {
    ReplayFits(size, db.writes);
  }

  /** Fitting stores stay so exactly if the new writes fit. */
  lemma FittingAfter(size: nat, before: Db, after: Db)
    requires Fitting(size, before) && Extends(before, after)
    ensures Fitting(size, after) <==> NewFit(size, before, after)
  {
    assert after.writes == before.writes + after.writes[|before.writes|..];
    AllFitJoin(size, before.writes, after.writes[|before.writes|..]);
  }

  // ---------------------------------------------------------------- parts of nodes

  /** A node of the same kind with no more items and no more bytes fits where the other does. */
  lemma FewerFits(size: nat, b: Body, part: Body)
    requires Fits(size, b) && Representable(part) && (part.children == [] <==> b.children == [])
    requires |part.items| <= |b.items| && Payload(part.items) <= Payload(b.items)
    ensures Fits(size, part)
  {
    CursorsApartIff(size, b);
    CursorsApartIff(size, part);
  }

  /** A run of a node's items, with the children between and around them. */
  function PartOf(b: Body, i: nat, j: nat): Body
    requires i <= j <= |b.items| && (b.children == [] || |b.children| == |b.items| + 1)
  {
    Body(b.items[i..j], if b.children == [] then [] else b.children[i..j + 1])
  }

  lemma PartFits(size: nat, b: Body, i: nat, j: nat)
    requires Fits(size, b) && i <= j <= |b.items|
    ensures Fits(size, PartOf(b, i, j))
  {
    var part := PartOf(b, i, j);
    PayloadOfPart(b.items, i, j);
    forall m | 0 <= m < |part.items|
      ensures ShortItem(part.items[m])
    {
      assert ShortItem(b.items[i + m]);
    }
    forall m | 0 <= m < |part.children|
      ensures IsPageNum(part.children[m])
    {
      assert IsPageNum(b.children[i + m]);
    }
    FewerFits(size, b, part);
  }

  lemma {:induction false} PayloadWithout(items: seq<Item>, i: nat)
    requires i < |items|
    ensures Payload(RemoveAt(items, i)) <= Payload(items)
  {
    assert items == items[..i] + ([items[i]] + items[i + 1..]);
    PayloadJoin(items[..i], [items[i]] + items[i + 1..]);
    PayloadJoin([items[i]], items[i + 1..]);
    PayloadJoin(items[..i], items[i + 1..]);
  }

  /** A node without one item, and without the child on either side of it. */
  lemma WithoutFits(size: nat, b: Body, i: nat, j: nat)
    requires Fits(size, b) && i < |b.items| && (b.children != [] ==> i <= j <= i + 1)
    ensures b.children != [] ==> j < |b.children|
    ensures Fits(size, Body(RemoveAt(b.items, i), if b.children == [] then [] else RemoveAt(b.children, j)))
  {
    var part := Body(RemoveAt(b.items, i), if b.children == [] then [] else RemoveAt(b.children, j));
    PayloadWithout(b.items, i);
    ShortWithout(b.items, i);
    if b.children != [] {
      PageNumsWithout(b.children, j);
    }
    FewerFits(size, b, part);
  }

  lemma ShortWithout(items: seq<Item>, i: nat)
    requires i < |items| && forall m :: 0 <= m < |items| ==> ShortItem(items[m])
    ensures forall m :: 0 <= m < |RemoveAt(items, i)| ==> ShortItem(RemoveAt(items, i)[m])
  {
    var part := RemoveAt(items, i);
    forall m | 0 <= m < |part|
      ensures ShortItem(part[m])
    {
      assert part[m] == items[if m < i then m else m + 1];
    }
  }

  lemma PageNumsWithout(pages: seq<nat>, j: nat)
    requires j < |pages| && forall m :: 0 <= m < |pages| ==> IsPageNum(pages[m])
    ensures forall m :: 0 <= m < |RemoveAt(pages, j)| ==> IsPageNum(RemoveAt(pages, j)[m])
  {
    var part := RemoveAt(pages, j);
    forall m | 0 <= m < |part|
      ensures IsPageNum(part[m])
    {
      assert part[m] == pages[if m < j then m else m + 1];
    }
  }

  // ---------------------------------------------------------------- insertion

  /** Every node on the path that adopts an item has room for it. */
  predicate ParentsFit(size: nat, o: Limits, free: Free, t: Tree, path: seq<nat>)
    requires IsPath(t, path)
    decreases |path|
  {
    path == []
    || (var k, q := path[0], path[1..];
        && ParentsFit(size, o, free, t.kids[k], q)
        && (Over(o, t.kids[k].items) && SplitIndex(o, t.kids[k].items) != -1 ==>
              Fits(size, Adopted(o, FreeAfter(o, free, t.kids[k], q), t, k))))
  }

  /** The grown node fits, and so does every parent that adopts an item, and the new root if there is one. */
  predicate PutFits(size: nat, c: Coll, t: Tree, item: Item) {
    if c.root == 0 then Fits(size, Body([item], []))
    else
      var s, o := Search(t, item.key), c.db.lim;
      var t1 := Inserted(t, s, item);
      && Fits(size, BodyOf(Grown(t, s, item)))
      && ParentsFit(size, o, c.db.free, t1, s.path)
      && (Over(o, t1.items) && SplitIndex(o, t1.items) != -1 ==>
            Fits(size, NewRoot(o, FreeAfter(o, c.db.free, t1, s.path), t1)))
  }

  /** The halves of a node that fits fit, so a split fits exactly if the parent does afterwards. */
  lemma SplitStepFits(size: nat, db: Db, p: Copy, c: Copy, k: nat)
    requires CanSplit(db.lim, c.body) && k <= |p.body.items| && k < |p.body.children| && Fits(size, c.body)
    ensures NewFit(size, db, SplitStep(db, p, c, k))
       <==> Fits(size, Adopt(p.body, k, c.body.items[SplitIndex(db.lim, c.body.items)], NextPage(db.free).1))
  {
    var s := SplitIndex(db.lim, c.body.items);
    var (free, q) := NextPage(db.free);
    var d0, b := db.(free := free), c.body;
    var d := Write(d0, Copy(q, RightHalf(b, s)));
    var e := Write(d, Copy(p.page, Adopt(p.body, k, b.items[s], q)));
    HalvesFit(size, b, s);
    NewFitWrite(size, d0, Copy(q, RightHalf(b, s)));
    NewFitWrite(size, d, Copy(p.page, Adopt(p.body, k, b.items[s], q)));
    NewFitWrite(size, e, Copy(c.page, LeftHalf(b, s)));
    NewFitChain(size, d0, d, e);
    NewFitChain(size, d0, e, SplitStep(db, p, c, k));
  }

  lemma HalvesFit(size: nat, b: Body, s: nat)
    requires Fits(size, b) && s < |b.items|
    ensures (b.children == [] || s < |b.children|) && Fits(size, LeftHalf(b, s)) && Fits(size, RightHalf(b, s))
  {
    var n := |b.items|;
    PartFits(size, b, 0, s);
    PartFits(size, b, s + 1, n);
    assert b.items[0..s] == b.items[..s] && b.items[s + 1..n] == b.items[s + 1..];
    if b.children != [] {
      assert b.children[0..s + 1] == b.children[..s + 1] && b.children[s + 1..n + 1] == b.children[s + 1..];
    }
  }

  function FitsOn(size: nat): Body -> bool {
    (b: Body) => Fits(size, b)
  }

  /** Every node of the tree fits its page. */
  predicate TreeFits(size: nat, t: Tree) {
    EveryNode(FitsOn(size), t)
  }

  lemma TreeFitsIs(size: nat, t: Tree)
    ensures TreeFits(size, t) <==> Fits(size, BodyOf(t)) && EveryTree(FitsOn(size), t.kids)
  {
    EveryIs(FitsOn(size), t);
  }

  /** If whatever is in the store fits, so does every node of a tree in it. */
  lemma {:induction false} StoredTreeFits(size: nat, t: Tree, pages: map<nat, Body>)
    requires Stored(t, pages) && PagesFit(size, pages)
    ensures TreeFits(size, t)
    decreases t
  {
    StoredFits(size, t, pages);
    forall i | 0 <= i < |t.kids|
      ensures EveryNode(FitsOn(size), t.kids[i])
    {
      assert Stored(t.kids[i], pages);
      StoredTreeFits(size, t.kids[i], pages);
    }
    TreeFitsIs(size, t);
  }

  /** The nodes of a stored tree fit when all pages do. */
  lemma StoredFits(size: nat, t: Tree, pages: map<nat, Body>)
    requires Stored(t, pages) && PagesFit(size, pages)
    ensures Fits(size, BodyOf(t))
  {
    assert Fits(size, pages[t.page]);
  }

  lemma SubFits(size: nat, t: Tree, path: seq<nat>)
    requires IsPath(t, path) && TreeFits(size, t)
    ensures TreeFits(size, Sub(t, path))
  {
    TreeFitsIs(size, t);
    SubEvery(FitsOn(size), t, path);
  }

  // ---------------------------------------------------------------- what is read

  predicate Readable(size: nat, d: Db, page: nat) {
    page in d.pages && Fits(size, d.pages[page])
  }

  /** The nodes of the path, which are read again after the first write. */
  predicate PathReads(size: nat, d: Db, anc: seq<Copy>) {
    forall i :: 0 <= i < |anc| ==> Readable(size, d, anc[i].page)
  }

  lemma {:induction false} AlongStored(t: Tree, path: seq<nat>, pages: map<nat, Body>)
    requires IsPath(t, path) && Stored(t, pages)
    ensures forall i :: 0 <= i <= |path| ==>
              Along(t, path)[i].page in pages && pages[Along(t, path)[i].page] == Along(t, path)[i].body
    decreases |path|
  {
    if path != [] {
      assert Stored(t.kids[path[0]], pages);
      AlongStored(t.kids[path[0]], path[1..], pages);
    }
  }

  lemma {:induction false} AlongFits(size: nat, t: Tree, path: seq<nat>)
    requires IsPath(t, path) && TreeFits(size, t)
    ensures forall i :: 0 <= i <= |path| ==> Fits(size, Along(t, path)[i].body)
    decreases |path|
  {
    TreeFitsIs(size, t);
    if path != [] {
      assert EveryNode(FitsOn(size), t.kids[path[0]]);
      AlongFits(size, t.kids[path[0]], path[1..]);
    }
  }

  lemma {:induction false} AlongGraft(t: Tree, p: seq<nat>, v: Tree, q: seq<nat>)
    requires IsPath(t, p) && IsPath(v, q)
    ensures IsPath(Graft(t, p, v), p + q) && Along(Graft(t, p, v), p + q)[|p|] == CopyOf(v)
    decreases |p|
  {
    if p == [] {
      assert p + q == q;
    } else {
      assert (p + q)[1..] == p[1..] + q;
      AlongGraft(t.kids[p[0]], p[1..], v, q);
    }
  }

  // ---------------------------------------------------------------- what an insertion writes

  lemma {:induction false} SplitLoopFits(size: nat, db: Db, t: Tree, path: seq<nat>, pages: map<nat, Body>)
    requires IsPath(t, path) && CanSplitUp(db.lim, Along(t, path), path)
    requires Stored(t, pages) && PagesFit(size, pages)
    ensures NewFit(size, db, SplitUp(db, Along(t, path), path)) <==> ParentsFit(size, db.lim, db.free, t, path)
    decreases |path|
  {
    if path == [] {
      NewFitSame(size, db, db);
    } else {
      var k, q := path[0], path[1..];
      var kid := t.kids[k];
      assert Along(t, path)[1..] == Along(kid, q) && Stored(kid, pages);
      SplitLoopFits(size, db, kid, q, pages);
      SplitUpFree(db, kid, q);
      var d := SplitUp(db, Along(kid, q), q);
      if Over(db.lim, kid.items) {
        StoredFits(size, kid, pages);
        SplitStepFits(size, d, CopyOf(t), CopyOf(kid), k);
        NewFitChain(size, db, d, SplitStep(d, CopyOf(t), CopyOf(kid), k));
      }
    }
  }

  lemma GrowRootFits(size: nat, db: Db, t: Tree)
    requires CanSplit(db.lim, BodyOf(t)) && Fits(size, BodyOf(t))
    ensures NewFit(size, db, GrowRoot(db, CopyOf(t)).db) <==> Fits(size, NewRoot(db.lim, db.free, t))
  {
    var (free, n) := NextPage(db.free);
    var s, q := SplitIndex(db.lim, t.items), NextPage(free).1;
    var top := Body([], [t.page]);
    var d := SplitStep(db.(free := free), Copy(n, top), CopyOf(t), 0);
    assert Adopt(top, 0, t.items[s], q) == NewRoot(db.lim, db.free, t);
    SplitStepFits(size, db.(free := free), Copy(n, top), CopyOf(t), 0);
    NewFitWrite(size, d, Copy(n, Adopt(top, 0, t.items[s], q)));
    NewFitChain(size, db, d, GrowRoot(db, CopyOf(t)).db);
  }

  /** Everything that `put` writes fits its page exactly if this can be seen before: in its leaf and its parents. */
  lemma PutFitsIff(size: nat, c: Coll, t: Tree, item: Item)
    requires Valid(c, t) && CanPut(c, t, item) && Fitting(size, c.db)
    ensures NewFit(size, c.db, PutState(c, t, item).db) <==> PutFits(size, c, t, item)
  {
    if c.root == 0 {
      var (free, page) := NextPage(c.db.free);
      NewFitWrite(size, c.db.(free := free), Copy(page, Body([item], [])));
    } else {
      var s, v := Search(t, item.key), Grown(t, Search(t, item.key), item);
      NewFitWrite(size, c.db, CopyOf(v));
      var d := Write(c.db, CopyOf(v));
      NewFitChain(size, c.db, d, PutState(c, t, item).db);
      if Fits(size, BodyOf(v)) {
        FittingPages(size, c.db);
        OneMoreFits(size, c.db.pages, CopyOf(v));
        SafeIsDistinct(c.db.free, Bag(t));
        InsertedStored(c.db, t, s, item);
        SplitAllFits(size, d, Inserted(t, s, item), s.path);
      }
    }
  }

  lemma SplitAllFits(size: nat, db: Db, t: Tree, path: seq<nat>)
    requires IsPath(t, path) && SplitsExist(db.lim, Along(t, path)) && Stored(t, db.pages) && PagesFit(size, db.pages)
    ensures CanSplitUp(db.lim, Along(t, path), path) && (Over(db.lim, t.items) ==> CanSplit(db.lim, BodyOf(t)))
    ensures var e := SplitUp(db, Along(t, path), path);
            var c := if Over(db.lim, t.items) then GrowRoot(e, CopyOf(t)) else Coll(e, t.page);
            NewFit(size, db, c.db) <==>
              && ParentsFit(size, db.lim, db.free, t, path)
              && (Over(db.lim, t.items) ==> Fits(size, NewRoot(db.lim, FreeAfter(db.lim, db.free, t, path), t)))
  {
    SplitsCanGoUp(db.lim, t, path);
    SplitLoopFits(size, db, t, path, db.pages);
    SplitUpFree(db, t, path);
    var e := SplitUp(db, Along(t, path), path);
    if Over(db.lim, t.items) {
      StoredFits(size, t, db.pages);
      GrowRootFits(size, e, t);
      NewFitChain(size, db, e, GrowRoot(e, CopyOf(t)).db);
    }
  }
}
