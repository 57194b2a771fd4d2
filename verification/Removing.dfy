/** Removal (core/collection.cpp, core/node.cpp). */
module Removing {
  import opened KeyOrder
  import opened Trees
  import opened Freelists
  import opened Store
  import opened Lookup
  import opened Collections
  import opened Rebalancing
  import opened StaleCopies

  /** The child indexes down to the rightmost leaf. */
  function LastPath(t: Tree): seq<nat> {
    if t.kids == [] then [] else [|t.kids| - 1] + LastPath(t.kids[|t.kids| - 1])
  }

  lemma {:induction false} LastPathIsRightmost(t: Tree, h: nat)
    requires Balanced(t, h)
    ensures IsPath(t, LastPath(t)) && |LastPath(t)| == h
    ensures RightOf(t, LastPath(t)) == [] && Sub(t, LastPath(t)).kids == []
    decreases h
  {
    if h > 0 {
      var k := |t.kids| - 1;
      assert Balanced(t.kids[k], h - 1);
      LastPathIsRightmost(t.kids[k], h - 1);
      assert LastPath(t)[1..] == LastPath(t.kids[k]);
    }
  }

  /** A leaf, or the leaf of the item before `index` can be found and holds an item. */
  predicate HasPredecessor(x: Tree, index: nat) {
    x.kids == []
    || (&& index < |x.kids| && IsPath(x.kids[index], LastPath(x.kids[index]))
        && Sub(x.kids[index], LastPath(x.kids[index])).items != [])
  }

  /** The rightmost leaf without its last item. */
  function PoppedLeaf(t: Tree): Tree
    requires IsPath(t, LastPath(t)) && Sub(t, LastPath(t)).items != []
  {
    var leaf := Sub(t, LastPath(t));
    leaf.(items := leaf.items[..|leaf.items| - 1])
  }

  function LastItem(t: Tree): Item
    requires IsPath(t, LastPath(t)) && Sub(t, LastPath(t)).items != []
  {
    var items := Sub(t, LastPath(t)).items;
    items[|items| - 1]
  }

  /** The tree without the last item of its rightmost leaf. */
  function Popped(t: Tree): Tree
    requires IsPath(t, LastPath(t)) && Sub(t, LastPath(t)).items != []
  {
    Graft(t, LastPath(t), PoppedLeaf(t))
  }

  /** The node x without item `index`: erased in a leaf, replaced by its predecessor in an inner node. */
  function Shrunk(x: Tree, index: nat): Tree
    requires index < |x.items| && HasPredecessor(x, index)
  {
    if x.kids == [] then x.(items := RemoveAt(x.items, index))
    else Tree(x.page, x.items[index := LastItem(x.kids[index])], x.kids[index := Popped(x.kids[index])])
  }

  /** From x to the node that actually lost an item. */
  function LocalPath(x: Tree, index: nat): seq<nat>
    requires index < |x.items| && HasPredecessor(x, index)
  {
    if x.kids == [] then [] else [index] + LastPath(x.kids[index])
  }

  /** The writes of the deletion: the popped leaf first, if there is one, then the node of the item. */
  function DeleteWrites(db: Db, x: Tree, index: nat): (r: Db)
    requires index < |x.items| && HasPredecessor(x, index)
    ensures r.free == db.free && Extends(db, r)
  {
    if x.kids == [] then Write(db, CopyOf(Shrunk(x, index)))
    else Write(Write(db, CopyOf(PoppedLeaf(x.kids[index]))), CopyOf(Shrunk(x, index)))
  }

  predicate CanDelete(t: Tree, s: Spot) {
    IsPath(t, s.path) && s.index < |Sub(t, s.path).items| && HasPredecessor(Sub(t, s.path), s.index)
  }

  /** The tree right after the item is taken out, before any rebalancing. */
  function Deleted(t: Tree, s: Spot): Tree
    requires CanDelete(t, s)
  {
    Graft(t, s.path, Shrunk(Sub(t, s.path), s.index))
  }

  /** The path along which the tree is rebalanced: down to the node that lost an item. */
  function FullPath(t: Tree, s: Spot): seq<nat>
    requires CanDelete(t, s)
  {
    s.path + LocalPath(Sub(t, s.path), s.index)
  }

  lemma {:induction false} SubJoin(t: Tree, p: seq<nat>, q: seq<nat>)
    requires IsPath(t, p) && IsPath(Sub(t, p), q)
    ensures IsPath(t, p + q) && Sub(t, p + q) == Sub(Sub(t, p), q)
    decreases |p|
  {
    if p == [] {
      assert p + q == q;
    } else {
      assert (p + q)[1..] == p[1..] + q;
      SubJoin(t.kids[p[0]], p[1..], q);
    }
  }

  /** Path coherence: the index path of the search, extended into the predecessor's subtree, can be followed. */
  lemma FullPathIsPath(t: Tree, s: Spot)
    requires CanDelete(t, s)
    ensures IsPath(Deleted(t, s), FullPath(t, s))
    ensures Deleted(t, s).kids != [] ==> FullPath(t, s) != []
  {
    var x, q := Sub(t, s.path), LocalPath(Sub(t, s.path), s.index);
    var v := Shrunk(x, s.index);
    if x.kids != [] {
      assert q[1..] == LastPath(x.kids[s.index]);
    }
    SubJoin(Deleted(t, s), s.path, q);
  }

  /** The path ends at the node that actually lost an item: the node of the key, or the predecessor's leaf. */
  lemma FullPathEnds(t: Tree, s: Spot)
    requires CanDelete(t, s)
    ensures var x := Sub(t, s.path);
            && IsPath(Deleted(t, s), FullPath(t, s))
            && Sub(Deleted(t, s), FullPath(t, s))
               == if x.kids == [] then Shrunk(x, s.index) else PoppedLeaf(x.kids[s.index])
  {
    var x, q := Sub(t, s.path), LocalPath(Sub(t, s.path), s.index);
    var v := Shrunk(x, s.index);
    if x.kids != [] {
      assert q[1..] == LastPath(x.kids[s.index]);
      assert v.kids[s.index] == Popped(x.kids[s.index]);
    }
    SubJoin(Deleted(t, s), s.path, q);
  }

  lemma PoppedFacts(t: Tree, h: nat)
    requires Balanced(t, h) && IsPath(t, LastPath(t)) && Sub(t, LastPath(t)).items != []
    ensures InOrder(t) == InOrder(Popped(t)) + [LastItem(t)]
    ensures Balanced(Popped(t), h)
  {
    var q, leaf := LastPath(t), Sub(t, LastPath(t));
    LastPathIsRightmost(t, h);
    SubShape(t, h, q);
    GraftShape(t, h, q, PoppedLeaf(t));
    assert InOrder(leaf) == leaf.items && InOrder(PoppedLeaf(t)) == PoppedLeaf(t).items;
    GraftInOrder(t, h, q, PoppedLeaf(t));
    LastOff(LeftOf(t, q), leaf.items);
  }

  lemma LastOff(l: seq<Item>, x: seq<Item>)
    requires x != []
    ensures l + x + [] == (l + x[..|x| - 1] + []) + [x[|x| - 1]]
  {
  }

  /** Taking item `index` out of x takes exactly its item out of the in-order sequence below x. */
  lemma ShrunkFacts(x: Tree, h: nat, index: nat)
    requires Balanced(x, h) && index < |x.items| && HasPredecessor(x, index)
    ensures Balanced(Shrunk(x, index), h)
    ensures LocalPosition(x, index) < |InOrder(x)|
    ensures InOrder(Shrunk(x, index)) == RemoveAt(InOrder(x), LocalPosition(x, index))
  {
    if x.kids != [] {
      var kid, v := x.kids[index], Shrunk(x, index);
      assert Balanced(kid, h - 1);
      PoppedFacts(kid, h - 1);
      AtChild(x, index);
      AtChild(v, index);
      assert v.kids[..index] == x.kids[..index] && v.items[..index] == x.items[..index];
      assert v.kids[index + 1..] == x.kids[index + 1..] && v.items[index + 1..] == x.items[index + 1..];
      ReplacedByPredecessor(Before(x, index), InOrder(Popped(kid)), LastItem(kid), x.items[index],
                            Weave(x.kids[index + 1..], x.items[index + 1..]));
    }
  }

  /**
   * In a leaf the item is erased; in an inner node the last item below the child before it takes its place, and is gone
   * there. Nothing else changes.
   */
  lemma ShrunkIs(x: Tree, h: nat, index: nat)
    requires Balanced(x, h) && index < |x.items| && HasPredecessor(x, index)
    ensures var v := Shrunk(x, index);
            && v.page == x.page
            && (x.kids == [] ==> v.kids == [] && v.items == x.items[..index] + x.items[index + 1..])
            && (x.kids != [] ==>
                  var before := InOrder(x.kids[index]);
                  && before != [] && v.items == x.items[index := before[|before| - 1]]
                  && |v.kids| == |x.kids| && InOrder(v.kids[index]) == before[..|before| - 1]
                  && forall i :: 0 <= i < |x.kids| && i != index ==> v.kids[i] == x.kids[i])
  {
    if x.kids != [] {
      assert Balanced(x.kids[index], h - 1);
      PoppedFacts(x.kids[index], h - 1);
    }
  }

  lemma ReplacedByPredecessor(b: seq<Item>, z: seq<Item>, last: Item, x: Item, w: seq<Item>)
    ensures b + z + ([last] + w) == RemoveAt(b + (z + [last]) + ([x] + w), |b| + |z + [last]|)
  {
  }

  lemma RemoveInside(l: seq<Item>, x: seq<Item>, r: seq<Item>, i: nat)
    requires i < |x|
    ensures RemoveAt(l + x + r, |l| + i) == l + RemoveAt(x, i) + r
  {
    assert (l + x + r)[..|l| + i] == l + x[..i];
    assert (l + x + r)[|l| + i + 1..] == x[i + 1..] + r;
  }

  /** The deletion takes exactly the item at the spot out of the in-order sequence, and keeps the shape. */
  lemma DeletedFacts(t: Tree, h: nat, s: Spot)
    requires Balanced(t, h) && CanDelete(t, s)
    ensures Balanced(Deleted(t, s), h) && Position(t, s.path, s.index) < |InOrder(t)|
    ensures InOrder(Deleted(t, s)) == RemoveAt(InOrder(t), Position(t, s.path, s.index))
  {
    var x, v := Sub(t, s.path), Shrunk(Sub(t, s.path), s.index);
    SubShape(t, h, s.path);
    ShrunkFacts(x, h - |s.path|, s.index);
    GraftShape(t, h, s.path, v);
    var i := LocalPosition(x, s.index);
    assert InOrder(Deleted(t, s)) == LeftOf(t, s.path) + RemoveAt(InOrder(x), i) + RightOf(t, s.path) by {
      GraftInOrder(t, h, s.path, v);
    }
    GraftInOrder(t, h, s.path, x);
    RemoveInside(LeftOf(t, s.path), InOrder(x), RightOf(t, s.path), i);
  }

  // ---------------------------------------------------------------- the store

  /** The node x after the deletion, with everything below it, is stored. */
  lemma ShrunkStored(db: Db, x: Tree, index: nat)
    requires Stored(x, db.pages) && Distinct(Bag(x)) && index < |x.items| && HasPredecessor(x, index)
    ensures Stored(Shrunk(x, index), DeleteWrites(db, x, index).pages)
    ensures Bag(Shrunk(x, index)) == Bag(x)
    ensures SameBut(db.pages, DeleteWrites(db, x, index).pages, Bag(x))
  {
    var v := Shrunk(x, index);
    if x.kids == [] {
      RewrittenNode(x, [], v, db.pages);
    } else {
      var kid := x.kids[index];
      DistinctParts(x, index);
      assert Stored(kid, db.pages);
      RewrittenNode(kid, LastPath(kid), PoppedLeaf(kid), db.pages);
      GraftBag(kid, LastPath(kid), PoppedLeaf(kid));
      LeafPageBelow(kid);
      ShrunkAround(x, index, PoppedLeaf(kid).page, db.pages, DeleteWrites(db, x, index).pages,
                   db.pages[PoppedLeaf(kid).page := BodyOf(PoppedLeaf(kid))]);
      ReplaceChild(x, index, Popped(kid));
      assert Bag(v) == Bag(x.(kids := x.kids[index := Popped(kid)]));
      SameBag(Bag(v), Bag(x), Bag(kid));
    }
  }

  lemma LeafPageBelow(t: Tree)
    requires IsPath(t, LastPath(t))
    ensures Sub(t, LastPath(t)).page in Bag(t)
  {
    GraftBag(t, LastPath(t), t);
    assert Sub(t, LastPath(t)).page in Bag(Sub(t, LastPath(t)));
  }

  lemma ShrunkAround(x: Tree, index: nat, leaf: nat, before: map<nat, Body>, after: map<nat, Body>,
                     between: map<nat, Body>)
    requires index < |x.items| && HasPredecessor(x, index) && x.kids != []
    requires Stored(x, before) && Distinct(Bag(x)) && leaf in Bag(x.kids[index])
    requires Stored(Popped(x.kids[index]), between)
    requires Bag(Popped(x.kids[index])) == Bag(x.kids[index]) && Popped(x.kids[index]).page == x.kids[index].page
    requires SameOutside(before, after, {leaf, x.page}) && SameOutside(between, after, {x.page})
    requires x.page in after && after[x.page] == BodyOf(Shrunk(x, index))
    ensures Stored(Shrunk(x, index), after) && SameBut(before, after, Bag(x))
  {
    var v := Popped(x.kids[index]);
    assert StoredAll(x.kids[..index], after) && StoredAll(x.kids[index + 1..], after) by {
      var touched := {leaf, x.page};
      LeafAndRootApart(x, index, leaf, touched);
      SiblingsOutside(x, index, touched, before, after);
    }
    assert Stored(v, after) by {
      DistinctRoot(x, index);
      OtherPageKept(v, x.page, between, after);
    }
    RejoinShrunk(x, index, after);
    LeafAndRoot(x, index, leaf);
  }

  lemma LeafAndRootApart(x: Tree, index: nat, leaf: nat, touched: set<nat>)
    requires index < |x.kids| && Distinct(Bag(x)) && leaf in Bag(x.kids[index]) && touched == {leaf, x.page}
    ensures forall p :: p in touched ==> p !in BagAll(x.kids[..index]) && p !in BagAll(x.kids[index + 1..])
  {
    DistinctParts(x, index);
    DistinctRoot(x, index);
  }

  lemma OtherPageKept(v: Tree, page: nat, before: map<nat, Body>, after: map<nat, Body>)
    requires Stored(v, before) && SameOutside(before, after, {page}) && page !in Bag(v)
    ensures Stored(v, after)
  {
    assert SameOn(before, after, Bag(v));
    StoredFrame(v, before, after);
  }

  lemma LeafAndRoot(x: Tree, index: nat, leaf: nat)
    requires index < |x.kids| && leaf in Bag(x.kids[index])
    ensures leaf in Bag(x) && x.page in Bag(x)
  {
    BagAt(x.kids, index);
  }

  lemma RejoinShrunk(x: Tree, index: nat, pages: map<nat, Body>)
    requires index < |x.items| && HasPredecessor(x, index) && x.kids != []
    requires StoredAll(x.kids[..index], pages) && StoredAll(x.kids[index + 1..], pages)
    requires Stored(Popped(x.kids[index]), pages) && Popped(x.kids[index]).page == x.kids[index].page
    requires x.page in pages && pages[x.page] == BodyOf(Shrunk(x, index))
    ensures Stored(Shrunk(x, index), pages)
  {
    var v := Shrunk(x, index);
    assert Pages(v.kids) == Pages(x.kids);
    RejoinStored(x.(items := v.items), index, Popped(x.kids[index]), pages);
  }

  lemma SiblingsOutside(x: Tree, k: nat, touched: set<nat>, before: map<nat, Body>, after: map<nat, Body>)
    requires k < |x.kids| && Stored(x, before) && SameOutside(before, after, touched)
    requires forall p :: p in touched ==> p !in BagAll(x.kids[..k]) && p !in BagAll(x.kids[k + 1..])
    ensures StoredAll(x.kids[..k], after) && StoredAll(x.kids[k + 1..], after)
  {
    SlicesStored(x.kids, k, before);
    KeptStored(x.kids[..k], before, after, touched);
    KeptStored(x.kids[k + 1..], before, after, touched);
  }

  lemma DistinctRoot(x: Tree, k: nat)
    requires Distinct(Bag(x)) && k < |x.kids|
    ensures x.page !in Bag(x.kids[k]) && x.page !in BagAll(x.kids[..k]) && x.page !in BagAll(x.kids[k + 1..])
  {
    BagAt(x.kids, k);
    assert Bag(x)[x.page] <= 1;
  }

  lemma DeletedStored(db: Db, t: Tree, s: Spot)
    requires Stored(t, db.pages) && Distinct(Bag(t)) && CanDelete(t, s)
    ensures Stored(Deleted(t, s), DeleteWrites(db, Sub(t, s.path), s.index).pages)
    ensures Bag(Deleted(t, s)) == Bag(t) && Deleted(t, s).page == t.page
  {
    var x, v := Sub(t, s.path), Shrunk(Sub(t, s.path), s.index);
    SubStored(t, s.path, db.pages);
    SubDistinct(t, s.path);
    ShrunkStored(db, x, s.index);
    GraftBag(t, s.path, v);
    SameBag(Bag(Deleted(t, s)), Bag(t), Bag(v));
    GraftStored(t, s.path, v, db.pages, DeleteWrites(db, x, s.index).pages);
  }

  lemma {:induction false} SubDistinct(t: Tree, path: seq<nat>)
    requires IsPath(t, path) && Distinct(Bag(t))
    ensures Distinct(Bag(Sub(t, path)))
    decreases |path|
  {
    if path != [] {
      DistinctParts(t, path[0]);
      SubDistinct(t.kids[path[0]], path[1..]);
    }
  }

  // ---------------------------------------------------------------- the operation

  /**
   * What the source relies on: the leaf of the predecessor is not empty, and an under-populated node on the
   * path is not an only child.
   */
  predicate CanRemove(c: Coll, t: Tree, key: Bytes) {
    && c.root != 0
    && var s := Search(t, key);
       s.found ==>
         && HasPredecessor(Sub(t, s.path), s.index)
         && (FullPathIsPath(t, s); SiblingsExist(c.db.lim, Deleted(t, s), FullPath(t, s)))
  }

  /** The new root page: the only child of a root whose copy, taken before the rebalancing, has no items. */
  function RootAfter(t1: Tree, path: seq<nat>): nat
    requires IsPath(t1, path) && (t1.kids != [] ==> path != [])
  {
    if t1.items == [] && t1.kids != [] then Along(t1, path)[1].page else t1.page
  }

  /** The rebalancing loop after the deletion can run. */
  lemma RemoveIsDefined(c: Coll, t: Tree, key: Bytes)
    requires Valid(c, t) && CanRemove(c, t, key) && Search(t, key).found
    ensures var s := Search(t, key);
            var t1, path, d := Deleted(t, s), FullPath(t, s), DeleteWrites(c.db, Sub(t, s.path), s.index);
            && IsPath(t1, path) && (t1.kids != [] ==> path != [])
            && InPlace(d, t1, Height(t), multiset{}) && t1.page == t.page && Bag(t1) == Bag(t)
            && CanRebalanceUp(d, Along(t1, path), path)
  {
    var s := Search(t, key);
    var t1, path, d := Deleted(t, s), FullPath(t, s), DeleteWrites(c.db, Sub(t, s.path), s.index);
    FullPathIsPath(t, s);
    SafeIsDistinct(c.db.free, Bag(t));
    DeletedStored(c.db, t, s);
    DeletedFacts(t, Height(t), s);
    assert Bag(t1) + multiset{} == Bag(t);
    LoopIsDefined(d, t1, Height(t), path, multiset{});
  }

  /** The collection after `remove`; an absent key is reported and changes nothing. */
  ghost function RemoveState(c: Coll, t: Tree, key: Bytes): (r: Coll)
    requires Valid(c, t) && CanRemove(c, t, key)
    ensures Extends(c.db, r.db)
  {
    var s := Search(t, key);
    if !s.found then c
    else
      RemoveIsDefined(c, t, key);
      var t1, path := Deleted(t, s), FullPath(t, s);
      var d := DeleteWrites(c.db, Sub(t, s.path), s.index);
      Coll(RebalanceUp(d, Along(t1, path), path), RootAfter(t1, path))
  }

  /** Some iteration of the rebalancing loop uses a copy that the iteration before has made stale. */
  predicate Clashes(c: Coll, t: Tree, key: Bytes)
    requires CanRemove(c, t, key)
  {
    var s := Search(t, key);
    s.found && (FullPathIsPath(t, s); Clash(c.db.lim, Deleted(t, s), FullPath(t, s)))
  }

  /** The root is dropped, and its page is neither used nor free from then on. */
  predicate Collapses(c: Coll, t: Tree, key: Bytes)
    requires CanRemove(c, t, key)
  {
    var s := Search(t, key);
    s.found && Deleted(t, s).items == [] && Deleted(t, s).kids != []
  }

  /** The tree after a removal without a clash. */
  function RemoveTree(c: Coll, t: Tree, key: Bytes): Tree
    requires CanRemove(c, t, key) && Search(t, key).found
  {
    var s := Search(t, key);
    FullPathIsPath(t, s);
    var w := LoopTree(c.db.lim, Deleted(t, s), FullPath(t, s));
    if Collapses(c, t, key) && w.kids != [] then w.kids[0] else w
  }

  /** A root without items has one child; when the loop is over, that child is the whole tree. */
  lemma CollapsedRoot(d: Db, e: Db, t1: Tree, w: Tree, h: nat, path: seq<nat>) returns (u: Tree)
    requires IsPath(t1, path) && path != [] && t1.items == [] && t1.kids != [] && Balanced(t1, h)
    requires RebalancedTo(d, e, t1, w, h, multiset{}) && BodyOf(w) == BodyOf(t1)
    ensures u.page == t1.kids[path[0]].page && Stored(u, e.pages) && h > 0 && Balanced(u, h - 1)
    ensures InOrder(u) == InOrder(t1) && Bag(u) + multiset{t1.page} == Bag(w) && Safe(e.free, Bag(u))
    ensures u.page != 0 && w.kids != [] && u == w.kids[0]
  {
    assert |Pages(w.kids)| == |Pages(t1.kids)| == 1;
    u := w.kids[0];
    assert Pages(w.kids)[0] == u.page && Pages(t1.kids)[0] == t1.kids[0].page;
    assert Stored(w.kids[0], e.pages) && Balanced(w.kids[0], h - 1);
    OnlyChild(w, u);
    assert Bag(w) + multiset{} == Bag(w);
    SafeSubset(e.free, Bag(w), Bag(u));
    assert u.page in Bag(u) + multiset(e.free.released);
  }

  lemma OnlyChild(w: Tree, u: Tree)
    requires w.items == [] && w.kids == [u]
    ensures InOrder(w) == InOrder(u) && Bag(w) == Bag(u) + multiset{w.page}
  {
    assert BagAll([u]) == Bag(u);
  }

  /**
   * Removing a key that is there, without a clash: a valid tree with exactly that item gone. Used and free pages
   * together stay the same, except that a dropped root page is lost. The tree is one level lower exactly then.
   */
  lemma RemoveDeletes(c: Coll, t: Tree, key: Bytes) returns (u: Tree)
    requires Valid(c, t) && CanRemove(c, t, key) && HasKey(InOrder(t), key) && !Clashes(c, t, key)
    ensures PlaceOf(t, key) < |InOrder(t)| && InOrder(t)[PlaceOf(t, key)].key == key
    ensures Search(t, key).found
    ensures var r := RemoveState(c, t, key);
            && Valid(r, u) && InOrder(u) == RemoveAt(InOrder(t), PlaceOf(t, key))
            && Height(u) == Height(t) - (if Collapses(c, t, key) then 1 else 0)
            && r.db.free.maxPage == c.db.free.maxPage
            && Bag(u) + multiset(r.db.free.released) + (if Collapses(c, t, key) then multiset{t.page} else multiset{})
               == Bag(t) + multiset(c.db.free.released)
            && u == RemoveTree(c, t, key)
  {
    var s, h := Search(t, key), Height(t);
    var w := RebalancedAfterDeletion(c, t, key);
    var t1, path := Deleted(t, s), FullPath(t, s);
    var d := DeleteWrites(c.db, Sub(t, s.path), s.index);
    var e := RebalanceUp(d, Along(t1, path), path);
    KidPageIsUsed(c, t, t1, path);
    u := RootSettled(d, e, t1, w, h, path);
  }

  /** The tree when the loop is over, with its root given up if it is to be. */
  lemma RootSettled(d: Db, e: Db, t1: Tree, w: Tree, h: nat, path: seq<nat>) returns (u: Tree)
    requires IsPath(t1, path) && (t1.kids != [] ==> path != []) && t1.page != 0
    requires Balanced(t1, h) && Sorted(InOrder(t1))
    requires RebalancedTo(d, e, t1, w, h, multiset{})
    requires t1.items == [] && t1.kids != [] ==> BodyOf(w) == BodyOf(t1)
    ensures var lost := t1.items == [] && t1.kids != [];
            && Valid(Coll(e, RootAfter(t1, path)), u) && InOrder(u) == InOrder(t1)
            && Height(u) == h - (if lost then 1 else 0) && e.free.maxPage == d.free.maxPage
            && Bag(u) + multiset(e.free.released) + (if lost then multiset{t1.page} else multiset{})
               == Bag(t1) + multiset(d.free.released)
            && u == if lost && w.kids != [] then w.kids[0] else w
  {
    if t1.items == [] && t1.kids != [] {
      u := CollapsedRoot(d, e, t1, w, h, path);
      assert Along(t1.kids[path[0]], path[1..])[0] == CopyOf(t1.kids[path[0]]);
      assert RootAfter(t1, path) == u.page;
      MakesValid(Coll(e, u.page), u, h - 1);
      LostRoot(Bag(u), Bag(w), multiset(e.free.released), multiset{t1.page});
    } else {
      u := w;
      assert Bag(w) + multiset{} == Bag(w);
      MakesValid(Coll(e, u.page), u, h);
    }
  }

  lemma MakesValid(r: Coll, u: Tree, h: nat)
    requires r.root != 0 && u.page == r.root && Stored(u, r.db.pages) && Balanced(u, h)
    requires Sorted(InOrder(u)) && Safe(r.db.free, Bag(u))
    ensures Valid(r, u) && Height(u) == h
  {
    HeightOfBalanced(u, h);
  }

  lemma LostRoot(u: multiset<nat>, w: multiset<nat>, free: multiset<nat>, root: multiset<nat>)
    requires u + root == w
    ensures u + free + root == w + free
  {
  }

  /** The tree after the loop, before the root is looked at. */
  lemma RebalancedAfterDeletion(c: Coll, t: Tree, key: Bytes) returns (w: Tree)
    requires Valid(c, t) && CanRemove(c, t, key) && HasKey(InOrder(t), key) && !Clashes(c, t, key)
    ensures Search(t, key).found
    ensures PlaceOf(t, key) < |InOrder(t)| && InOrder(t)[PlaceOf(t, key)].key == key
    ensures var s := Search(t, key);
            var t1, path, d := Deleted(t, s), FullPath(t, s), DeleteWrites(c.db, Sub(t, s.path), s.index);
            && IsPath(t1, path) && (t1.kids != [] ==> path != []) && t1.page == t.page && Bag(t1) == Bag(t)
            && Balanced(t1, Height(t)) && InOrder(t1) == RemoveAt(InOrder(t), PlaceOf(t, key)) && Sorted(InOrder(t1))
            && CanRebalanceUp(d, Along(t1, path), path)
            && RebalancedTo(d, RebalanceUp(d, Along(t1, path), path), t1, w, Height(t), multiset{})
            && (!ChildUnder(c.db.lim, t1, path) ==> BodyOf(w) == BodyOf(t1))
            && SiblingsExist(c.db.lim, t1, path)
            && w == LoopTree(c.db.lim, t1, path)
  {
    var s, h := Search(t, key), Height(t);
    SearchIsExact(t, h, key);
    SearchFindsKeys(t, h, key);
    RemoveIsDefined(c, t, key);
    DeletedFacts(t, h, s);
    RemovedSorted(InOrder(t), PlaceOf(t, key));
    w := RebalanceUpTree(DeleteWrites(c.db, Sub(t, s.path), s.index), Deleted(t, s), h, FullPath(t, s), multiset{});
  }

  /** The same about the one tree that the collection then has. */
  lemma RemoveMeaning(c: Coll, t: Tree, key: Bytes)
    requires Valid(c, t) && CanRemove(c, t, key) && HasKey(InOrder(t), key) && !Clashes(c, t, key)
    ensures IsValid(RemoveState(c, t, key)) && PlaceOf(t, key) < |InOrder(t)|
    ensures InOrder(TreeOf(RemoveState(c, t, key))) == RemoveAt(InOrder(t), PlaceOf(t, key))
  {
    var u := RemoveDeletes(c, t, key);
    TreeOfIs(RemoveState(c, t, key), u);
  }

  lemma RemovedSorted(s: seq<Item>, g: nat)
    requires Sorted(s) && g < |s|
    ensures Sorted(RemoveAt(s, g))
  {
    var r := RemoveAt(s, g);
    forall i, j | 0 <= i < j < |r|
      ensures Less(r[i].key, r[j].key)
    {
      assert r[i] == s[if i < g then i else i + 1] && r[j] == s[if j < g then j else j + 1];
    }
  }

  /** With a clash the collection is broken: child pointers lead from the root to a page that is free. */
  lemma RemoveWithClash(c: Coll, t: Tree, key: Bytes) returns (trail: seq<nat>, b: nat)
    requires Valid(c, t) && CanRemove(c, t, key) && Clashes(c, t, key)
    ensures var r := RemoveState(c, t, key);
            Leads(r.db.pages, r.root, trail, b) && b in r.db.free.released && r.root != 0
  {
    var s, h := Search(t, key), Height(t);
    RemoveIsDefined(c, t, key);
    var t1, path := Deleted(t, s), FullPath(t, s);
    var d := DeleteWrites(c.db, Sub(t, s.path), s.index);
    trail, b := ClashReachesReleased(d, t1, h, path, multiset{});
    if Collapses(c, t, key) {
      trail := trail[1..];
    }
    KidPageIsUsed(c, t, t1, path);
  }

  lemma KidPageIsUsed(c: Coll, t: Tree, t1: Tree, path: seq<nat>)
    requires Valid(c, t) && c.root != 0 && Bag(t1) == Bag(t) && IsPath(t1, path)
    ensures path != [] ==> Along(t1, path)[1] == CopyOf(t1.kids[path[0]]) && t1.kids[path[0]].page != 0
  {
    if path != [] {
      BagAt(t1.kids, path[0]);
      assert t1.kids[path[0]].page in Bag(t) + multiset(c.db.free.released);
    }
  }

  /** In a valid collection no page below the root is free. */
  lemma NoFreePageBelow(c: Coll, t: Tree, trail: seq<nat>, b: nat)
    requires Valid(c, t) && c.root != 0 && Leads(c.db.pages, c.root, trail, b)
    ensures b !in c.db.free.released
  {
    LeadsStaysInTree(t, c.db.pages, trail, b);
    assert (Bag(t) + multiset(c.db.free.released))[b] <= 1;
  }

  /** Exactly when `remove` of a key that is there does what it is for. */
  lemma RemoveIsDeletionIff(c: Coll, t: Tree, key: Bytes)
    requires Valid(c, t) && CanRemove(c, t, key) && HasKey(InOrder(t), key)
    ensures PlaceOf(t, key) < |InOrder(t)|
    ensures (exists u :: Valid(RemoveState(c, t, key), u) && InOrder(u) == RemoveAt(InOrder(t), PlaceOf(t, key)))
            <==> !Clashes(c, t, key)
    ensures Clashes(c, t, key) ==> !exists u :: Valid(RemoveState(c, t, key), u)
  {
    SearchIsExact(t, Height(t), key);
    SearchFindsKeys(t, Height(t), key);
    if Clashes(c, t, key) {
      var trail, b := RemoveWithClash(c, t, key);
      forall u
        ensures !Valid(RemoveState(c, t, key), u)
      {
        if Valid(RemoveState(c, t, key), u) {
          NoFreePageBelow(RemoveState(c, t, key), u, trail, b);
        }
      }
    } else {
      var u := RemoveDeletes(c, t, key);
    }
  }

  /** An absent key is reported and nothing changes. */
  lemma RemoveAbsent(c: Coll, t: Tree, key: Bytes)
    requires Valid(c, t) && CanRemove(c, t, key) && !HasKey(InOrder(t), key)
    ensures RemoveState(c, t, key) == c
  {
    SearchFindsKeys(t, Height(t), key);
  }
}
