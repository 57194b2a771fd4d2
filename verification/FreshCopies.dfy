/**
 * The two loops as they are documented (core/collection.h): every node is read again when it is looked at, so that
 * what the level below has changed is seen. A step is left out where the program could not go on. No condition on
 * the nodes of the path is left then: this is the measure of what the copies from before the loop cost.
 */
module FreshCopies {
  import opened KeyOrder
  import opened Trees
  import opened Sizing
  import opened Freelists
  import opened Store
  import opened Lookup
  import opened Splitting
  import opened Rebalancing
  import opened Collections
  import opened Putting
  import opened Removing

  function Reread(d: Db, page: nat): Copy
    requires page in d.pages
  {
    Copy(page, d.pages[page])
  }

  // ---------------------------------------------------------------- insertion

  /** Child k of the page is over-populated now and can be split now. */
  predicate ShouldSplit(d: Db, page: nat, child: nat, k: nat) {
    && page in d.pages && child in d.pages && Over(d.lim, d.pages[child].items) && CanSplit(d.lim, d.pages[child])
    && k <= |d.pages[page].items| && k < |d.pages[page].children|
  }

  function SplitUpFresh(db: Db, t: Tree, path: seq<nat>): (r: Db)
    requires IsPath(t, path)
    ensures r.lim == db.lim
    decreases |path|
  {
    if path == [] then db
    else
      var kid := t.kids[path[0]];
      var d := SplitUpFresh(db, kid, path[1..]);
      if ShouldSplit(d, t.page, kid.page, path[0]) then
        SplitStep(d, Reread(d, t.page), Reread(d, kid.page), path[0])
      else d
  }

  /** The allocator and the tree after this loop. */
  function FreeFresh(o: Limits, free: Free, t: Tree, path: seq<nat>): Free
    requires IsPath(t, path)
    decreases |path|
  {
    if path == [] then free
    else
      var f := FreeFresh(o, free, t.kids[path[0]], path[1..]);
      var v := AfterFresh(o, free, t.kids[path[0]], path[1..]);
      if Over(o, v.items) && CanSplit(o, BodyOf(v)) then NextPage(f).0 else f
  }

  function AfterFresh(o: Limits, free: Free, t: Tree, path: seq<nat>): (r: Tree)
    requires IsPath(t, path)
    ensures r.page == t.page
    decreases |path|
  {
    if path == [] then t
    else
      var k, kid := path[0], t.kids[path[0]];
      var v := AfterFresh(o, free, kid, path[1..]);
      var w := t.(kids := t.kids[k := v]);
      if Over(o, v.items) && CanSplit(o, BodyOf(v)) then
        SplitInto(o, FreeFresh(o, free, kid, path[1..]), w, k, v)
      else w
  }

  /** The page of t leads to u: same items, right shape, safe pages. */
  ghost predicate SplitsTo(db: Db, d: Db, t: Tree, h: nat, rest: multiset<nat>, u: Tree) {
    && u.page == t.page && Stored(u, d.pages) && Balanced(u, h) && InOrder(u) == InOrder(t)
    && Safe(d.free, Bag(u) + rest) && SameOn(db.pages, d.pages, rest)
  }

  /** Whatever nodes of the path are over-populated, the loop over fresh copies keeps order and shape. */
  lemma {:induction false} SplitUpFreshTree(db: Db, t: Tree, h: nat, path: seq<nat>, rest: multiset<nat>)
    returns (u: Tree)
    requires Stored(t, db.pages) && Balanced(t, h) && IsPath(t, path) && Safe(db.free, Bag(t) + rest)
    ensures SplitsTo(db, SplitUpFresh(db, t, path), t, h, rest, u)
    ensures u == AfterFresh(db.lim, db.free, t, path)
    ensures SplitUpFresh(db, t, path).free == FreeFresh(db.lim, db.free, t, path)
    decreases |path|
  {
    if path == [] {
      u := t;
    } else {
      var k, q := path[0], path[1..];
      KidSafe(db, t, k, rest);
      assert Balanced(t.kids[k], h - 1);
      var v := SplitUpFreshTree(db, t.kids[k], h - 1, q, rest + Others(t, k));
      u := SplitFreshLevel(db, SplitUpFresh(db, t.kids[k], q), t, h, k, v, rest);
    }
  }

  lemma SplitFreshLevel(db: Db, d: Db, t: Tree, h: nat, k: nat, v: Tree, rest: multiset<nat>) returns (u: Tree)
    requires Stored(t, db.pages) && Balanced(t, h) && h > 0 && k < |t.kids|
    requires SplitsTo(db, d, t.kids[k], h - 1, rest + Others(t, k), v)
    ensures var child := t.kids[k].page;
            SplitsTo(db,
                     if ShouldSplit(d, t.page, child, k) then
                       SplitStep(d, Reread(d, t.page), Reread(d, child), k)
                     else d,
                     t, h, rest, u)
    ensures ShouldSplit(d, t.page, t.kids[k].page, k) <==> Over(d.lim, v.items) && CanSplit(d.lim, BodyOf(v))
    ensures var w := t.(kids := t.kids[k := v]);
            u == if Over(d.lim, v.items) && CanSplit(d.lim, BodyOf(v)) then SplitInto(d.lim, d.free, w, k, v) else w
  {
    var w := t.(kids := t.kids[k := v]);
    KidSplit(db, d, t, h, k, v, rest, w);
    if ShouldSplit(d, t.page, v.page, k) {
      SlicesStored(w.kids, k, d.pages);
      BagAround(w, k);
      assert Bag(v) + Others(w, k) + rest == Bag(w) + rest;
      var base;
      u, base := SplitOne(d, w, h, k, v, v, rest);
      AtChild(w, k);
      SameOnBoth(db, d, SplitStep(d, CopyOf(w), CopyOf(v), k), rest);
    } else {
      u := w;
    }
  }

  lemma SameOnBoth(a: Db, b: Db, c: Db, bag: multiset<nat>)
    requires SameOn(a.pages, b.pages, bag) && SameOn(b.pages, c.pages, bag)
    ensures SameOn(a.pages, c.pages, bag)
  {
  }

  /** The node t with the new subtree, as the store holds it after the loop below. */
  lemma KidSplit(db: Db, d: Db, t: Tree, h: nat, k: nat, v: Tree, rest: multiset<nat>, w: Tree)
    requires Stored(t, db.pages) && Balanced(t, h) && h > 0 && k < |t.kids|
    requires SplitsTo(db, d, t.kids[k], h - 1, rest + Others(t, k), v) && w == t.(kids := t.kids[k := v])
    ensures SplitsTo(db, d, t, h, rest, w) && w.kids[k] == v && Stored(v, d.pages)
    ensures Reread(d, t.page) == CopyOf(w) && Reread(d, v.page) == CopyOf(v)
  {
    SiblingsKept(db, d, t, k, rest);
    RejoinStored(t, k, v, d.pages);
    AtChild(t, k);
    ReplaceChild(t, k, v);
    BagAt(w.kids, k);
    assert w.kids[..k] == t.kids[..k] && w.kids[k + 1..] == t.kids[k + 1..];
    assert Bag(w) + rest == Bag(v) + (rest + Others(t, k));
  }

  /** `put` of a fresh key with the loop over fresh copies; the root is read again too. */
  function PutFresh(c: Coll, t: Tree, item: Item): Coll
    requires c.root != 0
  {
    var s := Search(t, item.key);
    var d := SplitUpFresh(Write(c.db, CopyOf(Grown(t, s, item))), Inserted(t, s, item), s.path);
    if c.root in d.pages && Over(d.lim, d.pages[c.root].items) && CanSplit(d.lim, d.pages[c.root]) then
      GrowRoot(d, Reread(d, c.root))
    else Coll(d, c.root)
  }

  /** Sorted insertion for every valid tree and every fresh key, with no condition on the nodes of the path. */
  lemma PutFreshInserts(c: Coll, t: Tree, item: Item) returns (u: Tree)
    requires Valid(c, t) && c.root != 0 && !HasKey(InOrder(t), item.key)
    ensures PlaceOf(t, item.key) <= |InOrder(t)|
    ensures Valid(PutFresh(c, t, item), u) && InOrder(u) == InsertAt(InOrder(t), PlaceOf(t, item.key), item)
    ensures var s := Search(t, item.key); u == FreshTree(c.db.lim, c.db.free, Inserted(t, s, item), s.path)
  {
    var s, h := Search(t, item.key), Height(t);
    SearchIsExact(t, h, item.key);
    SearchFindsKeys(t, h, item.key);
    SafeIsDistinct(c.db.free, Bag(t));
    SubShape(t, h, s.path);
    InsertedStored(c.db, t, s, item);
    InsertedInLeaf(t, h, s, item);
    InsertedSorted(InOrder(t), PlaceOf(t, item.key), item);
    u := SplitFreshAll(Write(c.db, CopyOf(Grown(t, s, item))), Inserted(t, s, item), h, s.path);
    HeightOfBalanced(u, Height(u));
  }

  /** The tree after the loop and the growth of the root. */
  function FreshTree(o: Limits, free: Free, t: Tree, path: seq<nat>): Tree
    requires IsPath(t, path)
  {
    var v := AfterFresh(o, free, t, path);
    if Over(o, v.items) && CanSplit(o, BodyOf(v)) then GrowInto(o, FreeFresh(o, free, t, path), v) else v
  }

  lemma SplitFreshAll(db: Db, t: Tree, h: nat, path: seq<nat>) returns (u: Tree)
    requires Stored(t, db.pages) && Balanced(t, h) && IsPath(t, path) && Safe(db.free, Bag(t))
    ensures var d := SplitUpFresh(db, t, path);
            var c := if t.page in d.pages && Over(d.lim, d.pages[t.page].items) && CanSplit(d.lim, d.pages[t.page]) then
                       GrowRoot(d, Reread(d, t.page))
                     else Coll(d, t.page);
            && u.page == c.root && c.root != 0 && Stored(u, c.db.pages) && Safe(c.db.free, Bag(u))
            && Balanced(u, Height(u)) && InOrder(u) == InOrder(t)
            && u == FreshTree(db.lim, db.free, t, path)
  {
    assert Bag(t) + multiset{} == Bag(t);
    var v := SplitUpFreshTree(db, t, h, path, multiset{});
    var d := SplitUpFresh(db, t, path);
    assert Bag(v) + multiset{} == Bag(v);
    assert Reread(d, t.page) == CopyOf(v);
    if Over(d.lim, v.items) && CanSplit(d.lim, BodyOf(v)) {
      u := GrowFresh(d, v, h);
    } else {
      u := v;
      HeightOfBalanced(u, h);
      assert t.page in Bag(u) + multiset(d.free.released);
    }
  }

  lemma GrowFresh(d: Db, v: Tree, h: nat) returns (u: Tree)
    requires Stored(v, d.pages) && Balanced(v, h) && Safe(d.free, Bag(v)) && CanSplit(d.lim, BodyOf(v))
    ensures GrownTo(GrowRoot(d, CopyOf(v)), u, v) && u == GrowInto(d.lim, d.free, v)
  {
    u := GrowTree(d, v, h, v, v);
    GrownIsBalanced(GrowRoot(d, CopyOf(v)), u, v, h);
  }

  ghost predicate GrownTo(c: Coll, u: Tree, v: Tree) {
    && u.page == c.root && c.root != 0 && Stored(u, c.db.pages) && Safe(c.db.free, Bag(u))
    && Balanced(u, Height(u)) && InOrder(u) == InOrder(v)
  }

  lemma GrownIsBalanced(c: Coll, u: Tree, v: Tree, h: nat)
    requires u.page == c.root && c.root != 0 && Stored(u, c.db.pages) && Safe(c.db.free, Bag(u))
    requires Balanced(u, h + 1) && InOrder(u) == InOrder(v)
    ensures GrownTo(c, u, v)
  {
    HeightOfBalanced(u, h + 1);
  }

  // ---------------------------------------------------------------- removal

  /** Child k of the page is under-populated now and has a sibling. */
  predicate ShouldRebalance(d: Db, page: nat, child: nat, k: nat) {
    && page in d.pages && child in d.pages && Under(d.lim, d.pages[child].items)
    && CanRebalance(d, d.pages[page], child, k)
  }

  function RebalanceUpFresh(db: Db, t: Tree, path: seq<nat>): (r: Db)
    requires IsPath(t, path)
    ensures r.lim == db.lim
    decreases |path|
  {
    if path == [] then db
    else
      var kid := t.kids[path[0]];
      var d := RebalanceUpFresh(db, kid, path[1..]);
      if ShouldRebalance(d, t.page, kid.page, path[0]) then
        RebalanceStep(d, Reread(d, t.page), Reread(d, kid.page), path[0])
      else d
  }

  /** The tree after this loop. */
  function AfterRebalances(o: Limits, t: Tree, path: seq<nat>): Tree
    requires IsPath(t, path)
    decreases |path|
  {
    if path == [] then t
    else FreshStep(o, t, path[0], AfterRebalances(o, t.kids[path[0]], path[1..]))
  }

  /** The tree t whose child k has become v, after the step that depends on what the child is now. */
  function FreshStep(o: Limits, t: Tree, k: nat, v: Tree): Tree
    requires k < |t.kids|
  {
    var w := t.(kids := t.kids[k := v]);
    if Under(o, v.items) && 2 <= |t.kids| == |t.items| + 1 then StepTree(o, w, k) else w
  }

  /** Whatever nodes of the path are under-populated, the loop over fresh copies keeps order, shape and pages. */
  lemma {:induction false} RebalanceUpFreshTree(db: Db, t: Tree, h: nat, path: seq<nat>, rest: multiset<nat>)
    returns (u: Tree)
    requires InPlace(db, t, h, rest) && IsPath(t, path)
    ensures RebalancedTo(db, RebalanceUpFresh(db, t, path), t, u, h, rest) && u == AfterRebalances(db.lim, t, path)
    decreases |path|
  {
    if path == [] {
      u := t;
    } else {
      var k, q := path[0], path[1..];
      KidInPlace(db, t, h, k, rest);
      var v := RebalanceUpFreshTree(db, t.kids[k], h - 1, q, rest + Others(t, k));
      var d := RebalanceUpFresh(db, t.kids[k], q);
      var w := KidRebalanced(db, d, t, h, k, v, rest);
      u := RebalanceFreshLevel(db, d, t, w, h, k, rest);
    }
  }

  lemma ReadableAround(d: Db, w: Tree, k: nat)
    requires Stored(w, d.pages) && k < |w.kids| == |w.items| + 1
    ensures CanRebalance(d, BodyOf(w), w.kids[k].page, k) <==> 2 <= |w.kids|
  {
    var ps := Pages(w.kids);
    forall i | 0 <= i < |ps|
      ensures ps[i] in d.pages
    {
      assert Stored(w.kids[i], d.pages);
    }
  }

  lemma RebalanceFreshLevel(db: Db, d: Db, t: Tree, w: Tree, h: nat, k: nat, rest: multiset<nat>) returns (u: Tree)
    requires RebalancedTo(db, d, t, w, h, rest) && h > 0 && k < |w.kids| == |t.kids| && w.kids[k].page == t.kids[k].page
    ensures var child := t.kids[k].page;
            RebalancedTo(db,
                         if ShouldRebalance(d, t.page, child, k) then
                           RebalanceStep(d, Reread(d, t.page), Reread(d, child), k)
                         else d,
                         t, u, h, rest)
    ensures u == if Under(d.lim, w.kids[k].items) && 2 <= |w.kids| then StepTree(d.lim, w, k) else w
  {
    var child := t.kids[k].page;
    assert Stored(w.kids[k], d.pages) && |w.kids| == |w.items| + 1;
    ReadableAround(d, w, k);
    if ShouldRebalance(d, t.page, child, k) {
      assert Reread(d, t.page) == CopyOf(w) && Reread(d, child) == CopyOf(w.kids[k]);
      assert |Pages(w.kids)| == |w.kids|;
      u := RebalanceTree(d, w, h, k, BodyOf(w.kids[k]), rest);
      SameOnBoth(db, d, RebalanceStep(d, CopyOf(w), CopyOf(w.kids[k]), k), rest);
    } else {
      u := w;
    }
  }

  /** `remove` with the loop over fresh copies; a root that has no items then gives way to its only child. */
  function RemoveFresh(c: Coll, t: Tree, key: Bytes): Coll
    requires CanDelete(t, Search(t, key))
  {
    var s := Search(t, key);
    FullPathIsPath(t, s);
    var d := RebalanceUpFresh(DeleteWrites(c.db, Sub(t, s.path), s.index), Deleted(t, s), FullPath(t, s));
    if t.page in d.pages && d.pages[t.page].items == [] && d.pages[t.page].children != [] then
      Coll(d, d.pages[t.page].children[0])
    else Coll(d, t.page)
  }

  /** The tree after this removal. */
  function FreshRemoved(o: Limits, t: Tree, key: Bytes): Tree
    requires CanDelete(t, Search(t, key))
  {
    var s := Search(t, key);
    FullPathIsPath(t, s);
    var w := AfterRebalances(o, Deleted(t, s), FullPath(t, s));
    if w.items == [] && w.kids != [] then w.kids[0] else w
  }

  /** Exact deletion for every valid tree and every key in it whose predecessor's leaf has an item. */
  lemma RemoveFreshDeletes(c: Coll, t: Tree, key: Bytes) returns (u: Tree)
    requires Valid(c, t) && HasKey(InOrder(t), key)
    requires HasPredecessor(Sub(t, Search(t, key).path), Search(t, key).index)
    ensures CanDelete(t, Search(t, key)) && PlaceOf(t, key) < |InOrder(t)|
    ensures Valid(RemoveFresh(c, t, key), u) && InOrder(u) == RemoveAt(InOrder(t), PlaceOf(t, key))
    ensures u == FreshRemoved(c.db.lim, t, key)
  {
    var s, h := Search(t, key), Height(t);
    assert c.root != 0;
    SearchIsExact(t, h, key);
    SearchFindsKeys(t, h, key);
    FullPathIsPath(t, s);
    SafeIsDistinct(c.db.free, Bag(t));
    DeletedStored(c.db, t, s);
    DeletedFacts(t, h, s);
    RemovedSorted(InOrder(t), PlaceOf(t, key));
    u := RebalanceFreshAll(DeleteWrites(c.db, Sub(t, s.path), s.index), Deleted(t, s), h, FullPath(t, s));
  }

  lemma RebalanceFreshAll(db: Db, t: Tree, h: nat, path: seq<nat>) returns (u: Tree)
    requires Stored(t, db.pages) && Balanced(t, h) && IsPath(t, path) && Safe(db.free, Bag(t)) && Sorted(InOrder(t))
    ensures var d := RebalanceUpFresh(db, t, path);
            var c := if t.page in d.pages && d.pages[t.page].items == [] && d.pages[t.page].children != [] then
                       Coll(d, d.pages[t.page].children[0])
                     else Coll(d, t.page);
            Valid(c, u) && InOrder(u) == InOrder(t)
    ensures var w := AfterRebalances(db.lim, t, path); u == if w.items == [] && w.kids != [] then w.kids[0] else w
  {
    assert Bag(t) + multiset{} == Bag(t);
    var w := RebalanceUpFreshTree(db, t, h, path, multiset{});
    var d := RebalanceUpFresh(db, t, path);
    assert Bag(w) + multiset{} == Bag(w);
    assert |Pages(w.kids)| == |w.kids|;
    assert t.page in d.pages && d.pages[t.page] == BodyOf(w);
    if w.items == [] && w.kids != [] {
      u := RootGivenUp(d, w, h);
    } else {
      u := w;
      assert u.page in Bag(u) + multiset(d.free.released);
      MakesValid(Coll(d, u.page), u, h);
    }
  }

  lemma RootGivenUp(d: Db, w: Tree, h: nat) returns (u: Tree)
    requires Stored(w, d.pages) && Balanced(w, h) && Safe(d.free, Bag(w)) && Sorted(InOrder(w))
    requires w.items == [] && w.kids != []
    ensures u == w.kids[0] && Pages(w.kids)[0] == u.page && Valid(Coll(d, u.page), u) && InOrder(u) == InOrder(w)
  {
    u := w.kids[0];
    assert Stored(w.kids[0], d.pages) && Balanced(w.kids[0], h - 1);
    OnlyChild(w, u);
    SafeSubset(d.free, Bag(w), Bag(u));
    assert u.page in Bag(u) + multiset(d.free.released);
    MakesValid(Coll(d, u.page), u, h - 1);
  }
}
