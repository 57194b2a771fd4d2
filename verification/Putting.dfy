/** Insertion (core/collection.cpp). */
module Putting {
  import opened KeyOrder
  import opened Trees
  import opened Sizing
  import opened Freelists
  import opened Store
  import opened Lookup
  import opened Splitting
  import opened Collections

  /**
   * An inner node that gets an item gets no child with it. It is written with as many children as items, and the
   * page then has the last child twice. (A search for a fresh key ends in a leaf.)
   */
  function KidsAfterPut(kids: seq<Tree>): seq<Tree> {
    if kids == [] then [] else kids + [kids[|kids| - 1]]
  }

  /** The node x with the item put in, as its page is read back. */
  function GrownNode(x: Tree, index: nat, item: Item): Tree
    requires index <= |x.items|
  {
    Tree(x.page, InsertAt(x.items, index, item), KidsAfterPut(x.kids))
  }

  /** The node at the spot with the item put in. */
  function Grown(t: Tree, s: Spot, item: Item): Tree
    requires IsPath(t, s.path) && s.index <= |Sub(t, s.path).items|
  {
    GrownNode(Sub(t, s.path), s.index, item)
  }

  /** The tree right after the item is put into the node where the search ended, before any split. */
  function Inserted(t: Tree, s: Spot, item: Item): Tree
    requires IsPath(t, s.path) && s.index <= |Sub(t, s.path).items|
  {
    Graft(t, s.path, Grown(t, s, item))
  }

  /** Every over-populated node on the path has a split index. */
  predicate SplitsExist(o: Limits, anc: seq<Copy>) {
    forall i :: 0 <= i < |anc| && Over(o, anc[i].body.items) ==> CanSplit(o, anc[i].body)
  }

  /** The source splits without looking whether a split index exists; this is what it relies on. */
  predicate CanPut(c: Coll, t: Tree, item: Item) {
    c.root == 0 || (var s := Search(t, item.key); SplitsExist(c.db.lim, Along(Inserted(t, s, item), s.path)))
  }

  lemma {:induction false} SplitsCanGoUp(o: Limits, t: Tree, path: seq<nat>)
    requires IsPath(t, path) && SplitsExist(o, Along(t, path))
    ensures CanSplitUp(o, Along(t, path), path)
    ensures Along(t, path)[0] == CopyOf(t)
    decreases |path|
  {
    if path != [] {
      var anc := Along(t, path);
      var kid := t.kids[path[0]];
      assert anc[1..] == Along(kid, path[1..]);
      forall i | 0 <= i < |anc| - 1 && Over(o, anc[1..][i].body.items)
        ensures CanSplit(o, anc[1..][i].body)
      {
        assert anc[1..][i] == anc[i + 1];
      }
      SplitsCanGoUp(o, kid, path[1..]);
      assert anc[1] == CopyOf(kid);
    }
  }

  /** A new root above an over-populated one, which it splits; it is written by the split and then once more. */
  function GrowRoot(db: Db, r: Copy): (c: Coll)
    requires CanSplit(db.lim, r.body)
    ensures Extends(db, c.db)
  {
    var (free, n) := NextPage(db.free);
    var (more, q) := NextPage(free);
    var top := Body([], [r.page]);
    var d := SplitStep(db.(free := free), Copy(n, top), r, 0);
    Coll(Write(d, Copy(n, Adopt(top, 0, r.body.items[SplitIndex(db.lim, r.body.items)], q))), n)
  }

  /** The collection after `put`. */
  function PutState(c: Coll, t: Tree, item: Item): (r: Coll)
    requires CanPut(c, t, item)
    ensures Extends(c.db, r.db)
  {
    if c.root == 0 then
      var (free, page) := NextPage(c.db.free);
      Coll(Write(c.db.(free := free), Copy(page, Body([item], []))), page)
    else
      var s := Search(t, item.key);
      var d := Write(c.db, CopyOf(Grown(t, s, item)));
      var t1 := Inserted(t, s, item);
      SplitsCanGoUp(c.db.lim, t1, s.path);
      var e := SplitUp(d, Along(t1, s.path), s.path);
      if Over(c.db.lim, t1.items) then GrowRoot(e, CopyOf(t1)) else Coll(e, c.root)
  }

  lemma GrownStored(x: Tree, v: Tree, before: map<nat, Body>, after: map<nat, Body>)
    requires Stored(x, before) && x.page !in BagAll(x.kids) && v.page == x.page && v.kids == KidsAfterPut(x.kids)
    requires after == before[v.page := BodyOf(v)]
    ensures Stored(v, after)
  {
    LastTwice(x.kids, before);
    KidsAfterPutPages(x.kids);
    assert SameOutside(before, after, {v.page});
    KeptStored(v.kids, before, after, {v.page});
  }

  /** Putting the item into its node: the store still unfolds to one tree, and no page is new. */
  lemma InsertedStored(db: Db, t: Tree, s: Spot, item: Item)
    requires Stored(t, db.pages) && Distinct(Bag(t))
    requires IsPath(t, s.path) && s.index <= |Sub(t, s.path).items|
    ensures var t1 := Inserted(t, s, item);
            && Stored(t1, Write(db, CopyOf(Grown(t, s, item))).pages) && t1.page == t.page
            && (forall p :: p in Bag(t1) ==> p in Bag(t))
            && (Sub(t, s.path).kids == [] ==> Bag(t1) == Bag(t))
  {
    var x, v := Sub(t, s.path), Grown(t, s, item);
    var after := db.pages[v.page := BodyOf(v)];
    SubStored(t, s.path, db.pages);
    KidsAfterPutPages(x.kids);
    GrownStored(x, v, db.pages, after);
    GraftStored(t, s.path, v, db.pages, after);
    GraftBag(t, s.path, v);
    GrownBag(Bag(Inserted(t, s, item)), Bag(t), Bag(x), Bag(v));
  }

  lemma LastTwice(kids: seq<Tree>, pages: map<nat, Body>)
    requires StoredAll(kids, pages)
    ensures StoredAll(KidsAfterPut(kids), pages)
  {
    var r := KidsAfterPut(kids);
    forall i | 0 <= i < |r|
      ensures Stored(r[i], pages)
    {
      assert r[i] == kids[if i < |kids| then i else |kids| - 1];
    }
  }

  lemma KidsAfterPutPages(kids: seq<Tree>)
    ensures forall p :: p in BagAll(KidsAfterPut(kids)) ==> p in BagAll(kids)
  {
    if kids != [] {
      var last := kids[|kids| - 1];
      BagAppend(kids, [last]);
      assert BagAll([last]) == Bag(last);
      BagAt(kids, |kids| - 1);
    }
  }

  lemma GrownBag(t1: multiset<nat>, t: multiset<nat>, x: multiset<nat>, v: multiset<nat>)
    requires t1 + x == t + v && x <= t && forall p :: p in v ==> p in x
    ensures forall p :: p in t1 ==> p in t
    ensures v == x ==> t1 == t
  {
    forall p | p in t1
      ensures p in t
    {
      assert (t1 + x)[p] == (t + v)[p] && x[p] <= t[p];
    }
    if v == x {
      SameBag(t1, t, x);
    }
  }

  /** In a leaf, the item lands at its place in the in-order sequence, and the shape stays. */
  lemma InsertedInLeaf(t: Tree, h: nat, s: Spot, item: Item)
    requires Balanced(t, h) && IsPath(t, s.path) && |s.path| == h && s.index <= |Sub(t, s.path).items|
    ensures var t1 := Inserted(t, s, item);
            && Balanced(t1, h) && Position(t, s.path, s.index) <= |InOrder(t)|
            && InOrder(t1) == InsertAt(InOrder(t), Position(t, s.path, s.index), item)
  {
    var x, v := Sub(t, s.path), Grown(t, s, item);
    SubShape(t, h, s.path);
    assert x.kids == [] && v.kids == [];
    GraftShape(t, h, s.path, v);
    LeafInOrder(x);
    LeafInOrder(v);
    assert Position(t, s.path, s.index) == |LeftOf(t, s.path)| + s.index;
    GraftInserts(t, h, s.path, v, s.index, item);
  }

  lemma LeafInOrder(x: Tree)
    requires x.kids == []
    ensures InOrder(x) == x.items
  {
  }

  lemma GraftInserts(t: Tree, h: nat, path: seq<nat>, v: Tree, i: nat, item: Item)
    requires Balanced(t, h) && IsPath(t, path) && i <= |InOrder(Sub(t, path))|
    requires InOrder(v) == InsertAt(InOrder(Sub(t, path)), i, item)
    ensures |LeftOf(t, path)| + i <= |InOrder(t)|
    ensures InOrder(Graft(t, path, v)) == InsertAt(InOrder(t), |LeftOf(t, path)| + i, item)
  {
    var l, x, r := LeftOf(t, path), InOrder(Sub(t, path)), RightOf(t, path);
    assert InOrder(t) == l + x + r && InOrder(Graft(t, path, v)) == l + InsertAt(x, i, item) + r by {
      GraftInOrder(t, h, path, v);
    }
    InsertInside(l, x, r, i, item);
  }

  lemma InsertInside(l: seq<Item>, x: seq<Item>, r: seq<Item>, i: nat, item: Item)
    requires i <= |x|
    ensures InsertAt(l + x + r, |l| + i, item) == l + InsertAt(x, i, item) + r
  {
    assert (l + x + r)[..|l| + i] == l + x[..i];
    assert (l + x + r)[|l| + i..] == x[i..] + r;
  }

  lemma InsertedSorted(s: seq<Item>, g: nat, item: Item)
    requires Sorted(s) && g <= |s|
    requires IsPlace(s, g, item.key)
    ensures Sorted(InsertAt(s, g, item))
  {
  }

  /** Two neighbours on the insertion path are both over-populated when the split loop looks at them. */
  predicate Crowded(c: Coll, t: Tree, item: Item) {
    c.root != 0 && (var s := Search(t, item.key); AdjacentOver(c.db.lim, Inserted(t, s, item), s.path))
  }

  /** The tree with a new root over t, which it splits. */
  function GrowInto(o: Limits, free: Free, t: Tree): Tree
    requires CanSplit(o, BodyOf(t))
  {
    SplitInto(o, NextPage(free).0, Tree(NextPage(free).1, [], [t]), 0, t)
  }

  /** The tree after the split loop and the growth of the root, when there is no crowd on the path. */
  function SplitTree(o: Limits, free: Free, t: Tree, path: seq<nat>): Tree
    requires IsPath(t, path)
  {
    var v := AfterSplits(o, free, t, path);
    if Over(o, t.items) && CanSplit(o, BodyOf(v)) then GrowInto(o, FreeAfter(o, free, t, path), v) else v
  }

  /** The tree after `put`, when there is no crowd on the path. */
  function PutTree(c: Coll, t: Tree, item: Item): Tree {
    if c.root == 0 then Tree(NextPage(c.db.free).1, [item], [])
    else var s := Search(t, item.key); SplitTree(c.db.lim, c.db.free, Inserted(t, s, item), s.path)
  }

  /** The split loop and the growth of the root, on a tree that is all right apart from its size. */
  lemma SplitAll(db: Db, t: Tree, h: nat, path: seq<nat>) returns (u: Tree)
    requires Stored(t, db.pages) && Balanced(t, h) && IsPath(t, path)
    requires SplitsExist(db.lim, Along(t, path)) && Safe(db.free, Bag(t))
    ensures CanSplitUp(db.lim, Along(t, path), path) && (Over(db.lim, t.items) ==> CanSplit(db.lim, BodyOf(t)))
    ensures var e := SplitUp(db, Along(t, path), path);
            var c := if Over(db.lim, t.items) then GrowRoot(e, CopyOf(t)) else Coll(e, t.page);
            && u.page == c.root && c.root != 0 && Stored(u, c.db.pages) && Safe(c.db.free, Bag(u))
            && Balanced(u, if Over(db.lim, t.items) then h + 1 else h)
            && Remains(InOrder(u), InOrder(t), AdjacentOver(db.lim, t, path))
            && (!AdjacentOver(db.lim, t, path) ==> u == SplitTree(db.lim, db.free, t, path))
  {
    SplitsCanGoUp(db.lim, t, path);
    assert Bag(t) + multiset{} == Bag(t);
    var base;
    u, base := SplitUpTree(db, t, h, path, multiset{});
    SplitUpFree(db, t, path);
    var e := SplitUp(db, Along(t, path), path);
    assert Bag(u) + multiset{} == Bag(u);
    if Over(db.lim, t.items) {
      u := GrowTree(e, t, h, u, base);
    } else {
      assert t.page in Bag(u) + multiset(e.free.released);
    }
  }

  /** Growing the root: the new root reads what the old one, as the loop had copied it, reads. */
  lemma GrowTree(e: Db, t: Tree, h: nat, u: Tree, base: Tree) returns (r: Tree)
    requires CanSplit(e.lim, BodyOf(t)) && Bag(base) <= Bag(u) && Safe(e.free, Bag(u))
    requires CopyOf(base) == CopyOf(t) && StoredAll(base.kids, e.pages) && Balanced(base, h)
    ensures var c := GrowRoot(e, CopyOf(t));
            && r.page == c.root && c.root != 0 && Stored(r, c.db.pages) && Safe(c.db.free, Bag(r))
            && Balanced(r, h + 1) && InOrder(r) == InOrder(base) && r == GrowInto(e.lim, e.free, base)
  {
    var (free, n) := NextPage(e.free);
    NextPageIsFresh(e.free, Bag(u));
    var top := NewTop(t, n, Bag(u));
    r := SplitUnderTop(e.(free := free), top, t, h, u, base);
    OneKidUnder(e.lim, free, top, n, t, base);
    assert t.page in Bag(base);
    GrowWrites(e, t, n);
  }

  /** The split under a new root does not depend on how the old one looked before. */
  lemma OneKidUnder(o: Limits, free: Free, top: Tree, n: nat, t: Tree, base: Tree)
    requires top == Tree(n, [], [t]) && CanSplit(o, BodyOf(base))
    ensures SplitInto(o, free, top, 0, base) == SplitInto(o, free, Tree(n, [], [base]), 0, base)
  {
    var s := SplitIndex(o, base.items);
    var left, right := LeftTree(base, s), RightTree(base, s, NextPage(free).1);
    assert [t][0 := left] == [base][0 := left];
  }

  lemma SplitUnderTop(d: Db, top: Tree, t: Tree, h: nat, u: Tree, base: Tree) returns (r: Tree)
    requires top.items == [] && top.kids == [t] && CanSplit(d.lim, BodyOf(t))
    requires top.kids[..0] == [] && top.kids[1..] == []
    requires Bag(base) <= Bag(u) && Safe(d.free, Bag(u) + Others(top, 0) + multiset{})
    requires CopyOf(base) == CopyOf(t) && StoredAll(base.kids, d.pages) && Balanced(base, h)
    ensures var f := SplitStep(d, CopyOf(top), CopyOf(t), 0);
            && r.page == top.page && Stored(r, f.pages) && Safe(f.free, Bag(r))
            && Balanced(r, h + 1) && InOrder(r) == InOrder(base)
    ensures r == SplitInto(d.lim, d.free, top, 0, base)
  {
    assert Balanced(base, h + 1 - 1) && ShapedAround(top, h + 1, 0);
    var lost;
    r, lost := SplitOne(d, top, h + 1, 0, u, base, multiset{});
    assert Bag(r) + multiset{} == Bag(r);
    assert InOrder(r) == InOrder(base) by {
      assert Before(top, 0) == [] && After(top, 0) == [];
      Unframed(InOrder(base));
    }
  }

  lemma Unframed(s: seq<Item>)
    ensures [] + s + [] == s
  {
  }

  /** The second write of the new root changes nothing. */
  lemma GrowWrites(e: Db, t: Tree, n: nat)
    requires CanSplit(e.lim, BodyOf(t)) && n == NextPage(e.free).1 && n != t.page
    ensures var f := SplitStep(e.(free := NextPage(e.free).0), Copy(n, Body([], [t.page])), CopyOf(t), 0);
            var c := GrowRoot(e, CopyOf(t));
            c.root == n && c.db.pages == f.pages && c.db.free == f.free
  {
    var f := SplitStep(e.(free := NextPage(e.free).0), Copy(n, Body([], [t.page])), CopyOf(t), 0);
    assert f.pages[n := f.pages[n]] == f.pages;
  }

  /** A root with the old root as its only child, and nothing around it. */
  lemma NewTop(t: Tree, n: nat, bag: multiset<nat>) returns (top: Tree)
    ensures top == Tree(n, [], [t]) && CopyOf(top) == Copy(n, Body([], [t.page]))
    ensures top.kids[..0] == [] && top.kids[1..] == []
    ensures Before(top, 0) == [] && After(top, 0) == []
    ensures bag + Others(top, 0) + multiset{} == bag + multiset{n}
  {
    top := Tree(n, [], [t]);
    assert Pages(top.kids) == [t.page];
  }

  lemma SmallItemsSplit(o: Limits, t: Tree, h: nat, most: nat)
    requires Balanced(t, h) && ItemsUpTo(InOrder(t), most) && SmallFor(o, most)
    ensures Over(o, t.items) ==> CanSplit(o, BodyOf(t))
  {
    forall i | 0 <= i < |t.items|
      ensures |t.items[i].key| + |t.items[i].value| <= most
    {
      NodeItemPosition(t, h, i);
    }
    if Over(o, t.items) {
      SmallItemsCanBeSplit(o, t.items, most);
    }
  }

  lemma {:induction false} SmallItemsSplitAlong(o: Limits, t: Tree, h: nat, path: seq<nat>, most: nat)
    requires Balanced(t, h) && IsPath(t, path) && ItemsUpTo(InOrder(t), most) && SmallFor(o, most)
    ensures SplitsExist(o, Along(t, path))
    decreases |path|
  {
    SmallItemsSplit(o, t, h, most);
    if path != [] {
      var kid := t.kids[path[0]];
      AtChild(t, path[0]);
      assert ItemsUpTo(InOrder(kid), most) by {
        forall i | 0 <= i < |InOrder(kid)|
          ensures |InOrder(kid)[i].key| + |InOrder(kid)[i].value| <= most
        {
          assert InOrder(t)[|Before(t, path[0])| + i] == InOrder(kid)[i];
        }
      }
      SmallItemsSplitAlong(o, kid, h - 1, path[1..], most);
      assert Along(t, path)[1..] == Along(kid, path[1..]);
      assert forall i :: 1 <= i < |Along(t, path)| ==> Along(t, path)[i] == Along(kid, path[1..])[i - 1];
    }
  }

  /** What `put` relies on holds for every fresh key, when all items are small enough for the thresholds. */
  lemma SmallItemsCanPut(c: Coll, t: Tree, item: Item, most: nat)
    requires Valid(c, t) && !HasKey(InOrder(t), item.key) && SmallFor(c.db.lim, most)
    requires ItemsUpTo(InOrder(t), most) && ItemsUpTo([item], most)
    ensures CanPut(c, t, item)
  {
    if c.root != 0 {
      var s, h := Search(t, item.key), Height(t);
      SearchIsExact(t, h, item.key);
      SearchFindsKeys(t, h, item.key);
      InsertedInLeaf(t, h, s, item);
      assert [item][0] == item;
      SmallItemsSplitAlong(c.db.lim, Inserted(t, s, item), h, s.path, most);
    }
  }

  /** The first item makes a tree of one leaf. */
  lemma FirstInserts(c: Coll, t: Tree, item: Item) returns (u: Tree)
    requires Valid(c, t) && CanPut(c, t, item) && c.root == 0
    ensures InOrder(t) == [] && PlaceOf(t, item.key) == 0 && InsertAt([], 0, item) == [item]
    ensures Valid(PutState(c, t, item), u) && InOrder(u) == [item] && u == PutTree(c, t, item)
  {
    var page := NextPage(c.db.free).1;
    NextPageIsFresh(c.db.free, multiset{});
    u := Tree(page, [item], []);
    assert Bag(u) == multiset{} + multiset{page};
    assert Pages([]) == [];
  }

  /**
   * Putting a fresh key always leaves a sorted tree of one depth with safe pages. It holds the old items and the
   * new one at its place, unless two neighbours on the path were over-populated together: then items are lost.
   * The tree is one level higher exactly when the root was over-populated.
   */
  lemma PutInserts(c: Coll, t: Tree, item: Item) returns (u: Tree)
    requires Valid(c, t) && CanPut(c, t, item) && !HasKey(InOrder(t), item.key)
    ensures Valid(PutState(c, t, item), u)
    ensures PlaceOf(t, item.key) <= |InOrder(t)|
    ensures Remains(InOrder(u), InsertAt(InOrder(t), PlaceOf(t, item.key), item), Crowded(c, t, item))
    ensures Sorted(InsertAt(InOrder(t), PlaceOf(t, item.key), item))
    ensures !Crowded(c, t, item) ==> u == PutTree(c, t, item)
    ensures c.root != 0 ==>
              Height(u) == Height(t) + if Over(c.db.lim, Inserted(t, Search(t, item.key), item).items) then 1 else 0
  {
    if c.root == 0 {
      u := FirstInserts(c, t, item);
    } else {
      var s, h := Search(t, item.key), Height(t);
      SearchIsExact(t, h, item.key);
      SearchFindsKeys(t, h, item.key);
      SafeIsDistinct(c.db.free, Bag(t));
      SubShape(t, h, s.path);
      InsertedStored(c.db, t, s, item);
      InsertedInLeaf(t, h, s, item);
      InsertedSorted(InOrder(t), PlaceOf(t, item.key), item);
      var t1 := Inserted(t, s, item);
      u := SplitAll(Write(c.db, CopyOf(Grown(t, s, item))), t1, h, s.path);
      HeightOfBalanced(u, if Over(c.db.lim, t1.items) then h + 1 else h);
    }
  }

  /** The same about the one tree that the collection then has. */
  lemma PutMeaning(c: Coll, t: Tree, item: Item)
    requires Valid(c, t) && CanPut(c, t, item) && !HasKey(InOrder(t), item.key)
    ensures IsValid(PutState(c, t, item)) && PlaceOf(t, item.key) <= |InOrder(t)|
    ensures Remains(InOrder(TreeOf(PutState(c, t, item))), InsertAt(InOrder(t), PlaceOf(t, item.key), item),
                    Crowded(c, t, item))
  {
    var u := PutInserts(c, t, item);
    TreeOfIs(PutState(c, t, item), u);
  }

  /** Exactly when `put` of a fresh key does what it is for. */
  lemma PutIsInsertionIff(c: Coll, t: Tree, item: Item)
    requires Valid(c, t) && CanPut(c, t, item) && !HasKey(InOrder(t), item.key)
    ensures PlaceOf(t, item.key) <= |InOrder(t)|
    ensures (exists u :: Valid(PutState(c, t, item), u)
                         && InOrder(u) == InsertAt(InOrder(t), PlaceOf(t, item.key), item))
            <==> !Crowded(c, t, item)
  {
    var u := PutInserts(c, t, item);
    var r := PutState(c, t, item);
    forall v | Valid(r, v)
      ensures v == u
    {
      ValidUnique(r, u, v);
    }
  }
}
