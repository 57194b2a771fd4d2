/**
 * What `put` does when the key is already there (core/collection.cpp): both branches insert, and none overwrites.
 * The key then stands in one node twice; and if this is an inner node, its last child hangs there twice.
 */
module ExistingKeys {
  import opened KeyOrder
  import opened Trees
  import opened Sizing
  import opened Freelists
  import opened Store
  import opened Lookup
  import opened Splitting
  import opened Collections
  import opened Putting

  // ---------------------------------------------------------------- splits where subtrees may be shared

  /** The pages of the nodes along the path. */
  function PathPages(t: Tree, path: seq<nat>): set<nat>
    requires IsPath(t, path)
    decreases |path|
  {
    {t.page} + if path == [] then {} else PathPages(t.kids[path[0]], path[1..])
  }

  /** The pages along the path occur nowhere else; other subtrees may be shared. */
  ghost predicate Apart(t: Tree, path: seq<nat>)
    requires IsPath(t, path)
    decreases |path|
  {
    && t.page !in BagAll(t.kids)
    && (path != [] ==>
          var k, q := path[0], path[1..];
          && (forall p :: p in PathPages(t.kids[k], q) ==> p !in BagAll(t.kids[..k]) && p !in BagAll(t.kids[k + 1..]))
          && Apart(t.kids[k], q))
  }

  lemma {:induction false} PathPagesInBag(t: Tree, path: seq<nat>)
    requires IsPath(t, path)
    ensures forall p :: p in PathPages(t, path) ==> p in Bag(t)
    decreases |path|
  {
    if path != [] {
      PathPagesInBag(t.kids[path[0]], path[1..]);
      BagAt(t.kids, path[0]);
    }
  }

  /** A node rewritten without new pages below it brings no new pages below the root. */
  lemma {:induction false} PagesAfterGraft(t: Tree, path: seq<nat>, v: Tree)
    requires IsPath(t, path) && v.page == Sub(t, path).page
    requires forall p :: p in BagAll(v.kids) ==> p in BagAll(Sub(t, path).kids)
    ensures Graft(t, path, v).page == t.page
    ensures forall p :: p in BagAll(Graft(t, path, v).kids) ==> p in BagAll(t.kids)
    decreases |path|
  {
    if path != [] {
      var k, r := path[0], Graft(t, path, v);
      PagesAfterGraft(t.kids[k], path[1..], v);
      BagAt(t.kids, k);
      BagAt(r.kids, k);
      assert r.kids[..k] == t.kids[..k] && r.kids[k + 1..] == t.kids[k + 1..];
    }
  }

  /** And the pages on the path to it stay apart. */
  lemma {:induction false} ApartAfterGraft(t: Tree, path: seq<nat>, v: Tree)
    requires IsPath(t, path) && Distinct(Bag(t)) && v.page == Sub(t, path).page
    requires forall p :: p in BagAll(v.kids) ==> p in BagAll(Sub(t, path).kids)
    ensures Apart(Graft(t, path, v), path)
    decreases |path|
  {
    var r := Graft(t, path, v);
    PagesAfterGraft(t, path, v);
    assert t.page !in BagAll(t.kids) by {
      assert Bag(t)[t.page] <= 1;
    }
    if path != [] {
      var k, q := path[0], path[1..];
      DistinctParts(t, k);
      ApartAfterGraft(t.kids[k], q, v);
      PagesAfterGraft(t.kids[k], q, v);
      PathPagesInBag(r.kids[k], q);
      assert r.kids[..k] == t.kids[..k] && r.kids[k + 1..] == t.kids[k + 1..];
    }
  }

  /** Page p is not in the surroundings of child k, nor below the node v there. */
  predicate Off(t: Tree, k: nat, v: Tree, p: nat)
    requires k < |t.kids|
  {
    p !in BagAll(t.kids[..k]) && p !in BagAll(t.kids[k + 1..]) && p !in BagAll(v.kids)
  }

  /** One split of child k, whose page leads to v; only the pages of the two nodes have to be apart from the rest. */
  lemma SplitOneShared(d: Db, t: Tree, h: nat, k: nat, v: Tree, used: multiset<nat>) returns (u: Tree, q: nat)
    requires ShapedAround(t, h, k) && Balanced(v, h - 1)
    requires CopyOf(v) == CopyOf(t.kids[k]) && CanSplit(d.lim, BodyOf(v))
    requires StoredAll(t.kids[..k], d.pages) && StoredAll(t.kids[k + 1..], d.pages) && StoredAll(v.kids, d.pages)
    requires Safe(d.free, used) && t.page in used && v.page in used && t.page != v.page
    requires Off(t, k, v, t.page) && Off(t, k, v, v.page) && forall p :: p !in used ==> Off(t, k, v, p)
    ensures var e := SplitStep(d, CopyOf(t), CopyOf(t.kids[k]), k);
            && u.page == t.page && Stored(u, e.pages) && Balanced(u, h)
            && InOrder(u) == Before(t, k) + InOrder(v) + After(t, k)
            && q !in used && Safe(e.free, used + multiset{q})
            && SameOutside(d.pages, e.pages, {q, t.page, v.page})
            && u == SplitInto(d.lim, d.free, t, k, v)
    ensures forall p :: p in BagAll(u.kids) ==>
              p == q || p in Bag(v) || p in BagAll(t.kids[..k]) || p in BagAll(t.kids[k + 1..])
  {
    var s := SplitIndex(d.lim, v.items);
    q := NextPage(d.free).1;
    var e := SplitStep(d, CopyOf(t), CopyOf(t.kids[k]), k);
    assert s < |v.items| && (v.kids == [] || s < |v.kids|);
    u := AdoptTree(t, k, LeftTree(v, s), v.items[s], RightTree(v, s, q));
    SplitReads(t, h, k, v, s, q, u);
    NextPageIsFresh(d.free, used);
    StoreShared(d, t, k, v, s, q);
    AdoptedPages(t, k, v, s, q, u);
  }

  lemma SplitReads(t: Tree, h: nat, k: nat, v: Tree, s: nat, q: nat, u: Tree)
    requires ShapedAround(t, h, k) && Balanced(v, h - 1) && s < |v.items| && (v.kids == [] || s < |v.kids|)
    requires u == AdoptTree(t, k, LeftTree(v, s), v.items[s], RightTree(v, s, q))
    ensures Balanced(u, h) && InOrder(u) == Before(t, k) + InOrder(v) + After(t, k)
  {
    HalvesMakeUpNode(v, h - 1, s, q);
    SplitOneContents(t, k, v, s, q, u, t.(kids := t.kids[k := LeftTree(v, s)]));
    SplitOneShape(t, h, k, LeftTree(v, s), v.items[s], RightTree(v, s, q));
  }

  lemma StoreShared(d: Db, t: Tree, k: nat, v: Tree, s: nat, q: nat)
    requires k < |t.kids| && |t.kids| == |t.items| + 1 && CopyOf(v) == CopyOf(t.kids[k]) && CanSplit(d.lim, BodyOf(v))
    requires s == SplitIndex(d.lim, v.items) && s < |v.items| && (v.kids == [] || s < |v.kids|)
             && q == NextPage(d.free).1
    requires StoredAll(t.kids[..k], d.pages) && StoredAll(t.kids[k + 1..], d.pages) && StoredAll(v.kids, d.pages)
    requires t.page != v.page && q != t.page && q != v.page
    requires Off(t, k, v, t.page) && Off(t, k, v, v.page) && Off(t, k, v, q)
    ensures var e := SplitStep(d, CopyOf(t), CopyOf(t.kids[k]), k);
            && Stored(AdoptTree(t, k, LeftTree(v, s), v.items[s], RightTree(v, s, q)), e.pages)
            && SameOutside(d.pages, e.pages, {q, t.page, v.page})
  {
    SplitWrites(d, t, k, v, s, q);
    var touched := {q, t.page, v.page};
    ThreeOff(BagAll(t.kids[..k]), BagAll(t.kids[k + 1..]), BagAll(v.kids), q, t.page, v.page, touched);
    SplitOneStore(d, t, k, v, s, q, SplitStep(d, CopyOf(t), CopyOf(t.kids[k]), k).pages, touched);
  }

  lemma ThreeOff(l: multiset<nat>, r: multiset<nat>, c: multiset<nat>, x: nat, y: nat, z: nat, touched: set<nat>)
    requires touched == {x, y, z}
    requires x !in l && x !in r && x !in c && y !in l && y !in r && y !in c && z !in l && z !in r && z !in c
    ensures forall p :: p in touched ==> p !in l && p !in r && p !in c
  {
  }

  lemma AdoptedPages(t: Tree, k: nat, v: Tree, s: nat, q: nat, u: Tree)
    requires k <= |t.items| && k < |t.kids| && s < |v.items| && (v.kids == [] || s < |v.kids|)
    requires u == AdoptTree(t, k, LeftTree(v, s), v.items[s], RightTree(v, s, q))
    ensures forall p :: p in BagAll(u.kids) ==>
              p == q || p in Bag(v) || p in BagAll(t.kids[..k]) || p in BagAll(t.kids[k + 1..])
  {
    var l, r := LeftTree(v, s), RightTree(v, s, q);
    HalvesBag(v, s, q);
    AdoptBag(t, k, l, v.items[s], r);
    OneOfParts(t.page, BagAll(u.kids), BagAll(t.kids[..k]), BagAll(t.kids[k + 1..]), Bag(l), Bag(r), Bag(v), q);
  }

  lemma OneOfParts(page: nat, all: multiset<nat>, left: multiset<nat>, right: multiset<nat>, l: multiset<nat>,
                   r: multiset<nat>, v: multiset<nat>, q: nat)
    requires multiset{page} + all == multiset{page} + left + right + l + r && l + r == v + multiset{q}
    ensures forall p :: p in all ==> p == q || p in v || p in left || p in right
  {
    forall p | p in all
      ensures p == q || p in v || p in left || p in right
    {
      assert (multiset{page} + all)[p] == (multiset{page} + left + right + l + r)[p];
      assert (l + r)[p] == (v + multiset{q})[p];
    }
  }

  /** The page of t leads to u, which has the same items. */
  ghost predicate SharedTo(o: Limits, d: Db, t: Tree, h: nat, u: Tree) {
    && u.page == t.page && Stored(u, d.pages) && Balanced(u, h) && InOrder(u) == InOrder(t)
    && (Over(o, t.items) ==> CopyOf(u) == CopyOf(t))
  }

  /**
   * The pages below a node, `below` at first and `now` in the end: new ones come from the allocator, and of the used
   * ones only those on the path are written.
   */
  ghost predicate PagesGrow(db: Db, d: Db, onPath: set<nat>, used: multiset<nat>, below: multiset<nat>,
                            now: multiset<nat>, more: multiset<nat>)
  {
    && Safe(d.free, more) && used <= more
    && (forall p :: p in now ==> p in more && (p in used ==> p in below))
    && (forall p :: p in used && p !in onPath && p in db.pages ==> p in d.pages && d.pages[p] == db.pages[p])
  }

  lemma {:induction false} SplitUpShared(db: Db, t: Tree, h: nat, path: seq<nat>, used: multiset<nat>)
    returns (u: Tree, more: multiset<nat>)
    requires Stored(t, db.pages) && Balanced(t, h) && IsPath(t, path) && Apart(t, path)
    requires CanSplitUp(db.lim, Along(t, path), path) && !AdjacentOver(db.lim, t, path)
    requires Safe(db.free, used) && forall p :: p in Bag(t) ==> p in used
    ensures SharedTo(db.lim, SplitUp(db, Along(t, path), path), t, h, u)
    ensures u == AfterSplits(db.lim, db.free, t, path)
    ensures PagesGrow(db, SplitUp(db, Along(t, path), path), PathPages(t, path), used, BagAll(t.kids), BagAll(u.kids),
                      more)
    decreases |path|
  {
    if path == [] {
      u, more := t, used;
    } else {
      var k, q := path[0], path[1..];
      KidShared(db, t, h, path, used);
      assert Along(t, path)[1..] == Along(t.kids[k], q);
      var v, some := SplitUpShared(db, t.kids[k], h - 1, q, used);
      var d := SplitUp(db, Along(t.kids[k], q), q);
      SiblingsStay(db, d, t, path, used, v, some);
      SplitUpFree(db, t.kids[k], q);
      if Over(db.lim, t.kids[k].items) {
        u, more := SplitLevelShared(db, d, t, h, path, used, v, some);
      } else {
        u := KeepLevelShared(db, d, t, h, path, used, v, some);
        more := some;
      }
    }
  }

  lemma KidShared(db: Db, t: Tree, h: nat, path: seq<nat>, used: multiset<nat>)
    requires Stored(t, db.pages) && Balanced(t, h) && IsPath(t, path) && path != []
    requires forall p :: p in Bag(t) ==> p in used
    ensures Stored(t.kids[path[0]], db.pages) && h > 0 && Balanced(t.kids[path[0]], h - 1)
    ensures forall p :: p in Bag(t.kids[path[0]]) ==> p in used
  {
    assert Balanced(t.kids[path[0]], h - 1) && Stored(t.kids[path[0]], db.pages);
    BagAt(t.kids, path[0]);
  }

  /** What the loop did below child k of t leaves its siblings and the page of t alone. */
  lemma SiblingsStay(db: Db, d: Db, t: Tree, path: seq<nat>, used: multiset<nat>, v: Tree, some: multiset<nat>)
    requires Stored(t, db.pages) && IsPath(t, path) && path != [] && Apart(t, path)
    requires forall p :: p in Bag(t) ==> p in used
    requires PagesGrow(db, d, PathPages(t.kids[path[0]], path[1..]), used, BagAll(t.kids[path[0]].kids),
                       BagAll(v.kids), some)
    ensures StoredAll(t.kids[..path[0]], d.pages) && StoredAll(t.kids[path[0] + 1..], d.pages)
    ensures t.page in d.pages && d.pages[t.page] == BodyOf(t)
  {
    var k := path[0];
    var under := PathPages(t.kids[k], path[1..]);
    SiblingsApart(t, path, used);
    assert StoredAll(t.kids[..k], db.pages) && StoredAll(t.kids[k + 1..], db.pages) by {
      SlicesStored(t.kids, k, db.pages);
    }
    var left, right := t.kids[..k], t.kids[k + 1..];
    SubtreesStay(db, d, left, under, used);
    SubtreesStay(db, d, right, under, used);
  }

  lemma SiblingsApart(t: Tree, path: seq<nat>, used: multiset<nat>)
    requires IsPath(t, path) && path != [] && Apart(t, path)
    requires forall p :: p in Bag(t) ==> p in used
    ensures var k, under := path[0], PathPages(t.kids[path[0]], path[1..]);
            && t.page in used && t.page !in under
            && (forall p :: p in BagAll(t.kids[..k]) ==> p in used && p !in under)
            && (forall p :: p in BagAll(t.kids[k + 1..]) ==> p in used && p !in under)
  {
    BagAt(t.kids, path[0]);
    PathPagesInBag(t.kids[path[0]], path[1..]);
  }

  lemma SubtreesStay(db: Db, d: Db, kids: seq<Tree>, under: set<nat>, used: multiset<nat>)
    requires StoredAll(kids, db.pages) && forall p :: p in BagAll(kids) ==> p in used && p !in under
    requires forall p :: p in used && p !in under && p in db.pages ==> p in d.pages && d.pages[p] == db.pages[p]
    ensures StoredAll(kids, d.pages)
  {
    StoredAllFrame(kids, db.pages, d.pages);
  }

  lemma KeepLevelShared(db: Db, d: Db, t: Tree, h: nat, path: seq<nat>, used: multiset<nat>, v: Tree,
                        some: multiset<nat>)
    returns (u: Tree)
    requires Balanced(t, h) && h > 0 && IsPath(t, path) && path != []
    requires StoredAll(t.kids[..path[0]], d.pages) && StoredAll(t.kids[path[0] + 1..], d.pages)
    requires t.page in d.pages && d.pages[t.page] == BodyOf(t)
    requires forall p :: p in Bag(t) ==> p in used
    requires SharedTo(db.lim, d, t.kids[path[0]], h - 1, v)
    requires PagesGrow(db, d, PathPages(t.kids[path[0]], path[1..]), used, BagAll(t.kids[path[0]].kids),
                       BagAll(v.kids), some)
    ensures SharedTo(db.lim, d, t, h, u) && u == t.(kids := t.kids[path[0] := v])
    ensures PagesGrow(db, d, PathPages(t, path), used, BagAll(t.kids), BagAll(u.kids), some)
  {
    var k := path[0];
    u := t.(kids := t.kids[k := v]);
    KeepShared(db.lim, d, t, h, k, v);
    KeptPages(t, k, v);
    BagAt(t.kids, k);
    PagesGrowAround(db, d, d, PathPages(t.kids[k], path[1..]), PathPages(t, path), used, BagAll(t.kids[k].kids),
                    BagAll(v.kids), BagAll(t.kids), BagAll(u.kids), some, some, t.page);
  }

  lemma KeepShared(o: Limits, d: Db, t: Tree, h: nat, k: nat, v: Tree)
    requires Balanced(t, h) && h > 0 && k < |t.kids| && SharedTo(o, d, t.kids[k], h - 1, v)
    requires StoredAll(t.kids[..k], d.pages) && StoredAll(t.kids[k + 1..], d.pages)
    requires t.page in d.pages && d.pages[t.page] == BodyOf(t)
    ensures SharedTo(o, d, t, h, t.(kids := t.kids[k := v]))
  {
    RejoinStored(t, k, v, d.pages);
    AtChild(t, k);
    ReplaceChild(t, k, v);
    assert Pages(t.kids[k := v]) == Pages(t.kids);
  }

  lemma KeptPages(t: Tree, k: nat, v: Tree)
    requires k < |t.kids| && v.page == t.kids[k].page
    ensures forall p :: p in BagAll(t.kids[k := v]) ==> p in BagAll(v.kids) || p in BagAll(t.kids)
  {
    var kids := t.kids[k := v];
    BagAt(t.kids, k);
    BagAt(kids, k);
    assert kids[..k] == t.kids[..k] && kids[k + 1..] == t.kids[k + 1..];
  }

  /** The pages one level up: what is new there is what was new below, or one page more. */
  lemma PagesGrowAround(db: Db, d: Db, e: Db, under: set<nat>, onPath: set<nat>, used: multiset<nat>,
                        kidBelow: multiset<nat>, kidNow: multiset<nat>, below: multiset<nat>, now: multiset<nat>,
                        some: multiset<nat>, more: multiset<nat>, page: nat)
    requires PagesGrow(db, d, under, used, kidBelow, kidNow, some) && onPath == {page} + under
    requires Safe(e.free, more) && some <= more
    requires forall p :: p in kidBelow ==> p in below
    requires forall p :: p in now ==> (p in more && p !in used) || p in kidNow || (p in used && p in below)
    requires forall p :: p in used && p !in onPath && p in d.pages ==> p in e.pages && e.pages[p] == d.pages[p]
    ensures PagesGrow(db, e, onPath, used, below, now, more)
  {
    forall p | p in now
      ensures p in more && (p in used ==> p in below)
    {
      assert some[p] <= more[p] && used[p] <= some[p];
    }
  }

  lemma SplitLevelShared(db: Db, d: Db, t: Tree, h: nat, path: seq<nat>, used: multiset<nat>, v: Tree,
                         some: multiset<nat>)
    returns (u: Tree, more: multiset<nat>)
    requires Balanced(t, h) && h > 0 && IsPath(t, path) && path != [] && Apart(t, path)
    requires StoredAll(t.kids[..path[0]], d.pages) && StoredAll(t.kids[path[0] + 1..], d.pages)
    requires forall p :: p in Bag(t) ==> p in used
    requires SharedTo(db.lim, d, t.kids[path[0]], h - 1, v)
    requires PagesGrow(db, d, PathPages(t.kids[path[0]], path[1..]), used, BagAll(t.kids[path[0]].kids),
                       BagAll(v.kids), some)
    requires Over(db.lim, t.kids[path[0]].items) && !Over(db.lim, t.items) && CanSplit(d.lim, BodyOf(t.kids[path[0]]))
    ensures SharedTo(db.lim, SplitStep(d, CopyOf(t), CopyOf(t.kids[path[0]]), path[0]), t, h, u)
    ensures CanSplit(d.lim, BodyOf(v)) && u == SplitInto(d.lim, d.free, t, path[0], v)
    ensures PagesGrow(db, SplitStep(d, CopyOf(t), CopyOf(t.kids[path[0]]), path[0]), PathPages(t, path), used,
                      BagAll(t.kids), BagAll(u.kids), more)
  {
    var k := path[0];
    SplitApart(db, d, t, path, used, v, some);
    var q;
    u, q := SplitOneShared(d, t, h, k, v, some);
    more := some + multiset{q};
    assert InOrder(u) == InOrder(t) by {
      AtChild(t, k);
    }
    SplitLevelPages(db, d, SplitStep(d, CopyOf(t), CopyOf(t.kids[k]), k), t, path, used, v, some, u, q);
  }

  lemma SplitLevelPages(db: Db, d: Db, e: Db, t: Tree, path: seq<nat>, used: multiset<nat>, v: Tree,
                        some: multiset<nat>, u: Tree, q: nat)
    requires IsPath(t, path) && path != [] && v.page == t.kids[path[0]].page
    requires forall p :: p in Bag(t) ==> p in used
    requires PagesGrow(db, d, PathPages(t.kids[path[0]], path[1..]), used, BagAll(t.kids[path[0]].kids),
                       BagAll(v.kids), some)
    requires q !in some && Safe(e.free, some + multiset{q}) && SameOutside(d.pages, e.pages, {q, t.page, v.page})
    requires forall p :: p in BagAll(u.kids) ==>
               p == q || p in Bag(v) || p in BagAll(t.kids[..path[0]]) || p in BagAll(t.kids[path[0] + 1..])
    ensures PagesGrow(db, e, PathPages(t, path), used, BagAll(t.kids), BagAll(u.kids), some + multiset{q})
  {
    var k := path[0];
    var kid := t.kids[k];
    SplitPagesBelow(t, k, v, u, q);
    KidPagesBelow(t, k);
    SplitPagesGrow(db, d, e, PathPages(kid, path[1..]), PathPages(t, path), used, BagAll(kid.kids), BagAll(v.kids),
                   BagAll(t.kids), BagAll(u.kids), some, q, t.page, v.page);
  }

  lemma KidPagesBelow(t: Tree, k: nat)
    requires k < |t.kids|
    ensures forall p :: p in BagAll(t.kids[k].kids) ==> p in BagAll(t.kids)
    ensures forall p :: p in BagAll(t.kids) ==> p in Bag(t)
  {
    BagAt(t.kids, k);
  }

  lemma SplitPagesGrow(db: Db, d: Db, e: Db, under: set<nat>, onPath: set<nat>, used: multiset<nat>,
                       kidBelow: multiset<nat>, kidNow: multiset<nat>, below: multiset<nat>, now: multiset<nat>,
                       some: multiset<nat>, q: nat, page: nat, kidPage: nat)
    requires PagesGrow(db, d, under, used, kidBelow, kidNow, some) && onPath == {page} + under && kidPage in under
    requires q !in some && Safe(e.free, some + multiset{q}) && SameOutside(d.pages, e.pages, {q, page, kidPage})
    requires forall p :: p in kidBelow ==> p in below
    requires forall p :: p in below ==> p in used
    requires forall p :: p in now ==> p == q || p in kidNow || p in below
    ensures PagesGrow(db, e, onPath, used, below, now, some + multiset{q})
  {
    assert q !in used by {
      assert used[q] <= some[q];
    }
    PagesGrowAround(db, d, e, under, onPath, used, kidBelow, kidNow, below, now, some, some + multiset{q}, page);
  }

  lemma SplitPagesBelow(t: Tree, k: nat, v: Tree, u: Tree, q: nat)
    requires k < |t.kids| && v.page == t.kids[k].page
    requires forall p :: p in BagAll(u.kids) ==>
               p == q || p in Bag(v) || p in BagAll(t.kids[..k]) || p in BagAll(t.kids[k + 1..])
    ensures forall p :: p in BagAll(u.kids) ==> p == q || p in BagAll(v.kids) || p in BagAll(t.kids)
  {
    BagAt(t.kids, k);
  }

  lemma MoreHasAll(a: multiset<nat>, b: multiset<nat>)
    requires a <= b
    ensures forall p :: p in a ==> p in b
  {
    assert forall p :: a[p] <= b[p];
  }

  /** The two nodes of a split are apart from everything else. */
  lemma SplitApart(db: Db, d: Db, t: Tree, path: seq<nat>, used: multiset<nat>, v: Tree, some: multiset<nat>)
    requires IsPath(t, path) && path != [] && Apart(t, path) && v.page == t.kids[path[0]].page
    requires forall p :: p in Bag(t) ==> p in used
    requires PagesGrow(db, d, PathPages(t.kids[path[0]], path[1..]), used, BagAll(t.kids[path[0]].kids),
                       BagAll(v.kids), some)
    ensures t.page in some && v.page in some && t.page != v.page && v.page in PathPages(t, path)
    ensures Off(t, path[0], v, t.page) && Off(t, path[0], v, v.page) && forall p :: p !in some ==> Off(t, path[0], v, p)
  {
    var k := path[0];
    assert v.page in PathPages(t.kids[k], path[1..]);
    SiblingsApart(t, path, used);
    BagAt(t.kids, k);
    MoreHasAll(used, some);
    forall p | p !in some
      ensures Off(t, k, v, p)
    {
      NewIsOff(db, d, t, path, used, v, some, p);
    }
  }

  /** A page that is in no use is on none of the subtrees. */
  lemma NewIsOff(db: Db, d: Db, t: Tree, path: seq<nat>, used: multiset<nat>, v: Tree, some: multiset<nat>, p: nat)
    requires IsPath(t, path) && path != [] && Apart(t, path) && p !in some
    requires forall p :: p in Bag(t) ==> p in used
    requires PagesGrow(db, d, PathPages(t.kids[path[0]], path[1..]), used, BagAll(t.kids[path[0]].kids),
                       BagAll(v.kids), some)
    ensures Off(t, path[0], v, p)
  {
    SiblingsApart(t, path, used);
    MoreHasAll(used, some);
  }

  /** The growth of the root. */
  lemma GrowShared(e: Db, t: Tree, h: nat, v: Tree, used: multiset<nat>) returns (r: Tree)
    requires CanSplit(e.lim, BodyOf(t)) && Stored(v, e.pages) && Balanced(v, h) && CopyOf(v) == CopyOf(t)
    requires Safe(e.free, used) && v.page !in BagAll(v.kids) && forall p :: p in Bag(v) ==> p in used
    ensures var c := GrowRoot(e, CopyOf(t));
            && r.page == c.root && c.root != 0 && Stored(r, c.db.pages) && InOrder(r) == InOrder(v)
            && r == GrowInto(e.lim, e.free, v)
  {
    var (free, n) := NextPage(e.free);
    NextPageIsFresh(e.free, used);
    var top := NewTop(t, n, used);
    var q;
    r, q := SplitOneShared(e.(free := free), top, h + 1, 0, v, used + multiset{n});
    assert Before(top, 0) == [] && After(top, 0) == [];
    Unframed(InOrder(v));
    GrowWrites(e, t, n);
    OneKidUnder(e.lim, free, top, n, t, v);
  }

  // ---------------------------------------------------------------- the operation

  /** Two neighbours with one key in a node make the tree unsorted. */
  lemma TwiceInNode(v: Tree, h: nat, i: nat)
    requires Balanced(v, h) && i + 1 < |v.items| && v.items[i].key == v.items[i + 1].key
    ensures !Sorted(InOrder(v))
  {
    LessTrichotomy(v.items[i].key, v.items[i].key);
    if h > 0 {
      AtPair(v, i);
      var b, x, y := Before(v, i), InOrder(v.kids[i]), InOrder(v.kids[i + 1]);
      var m := |b| + |x|;
      assert InOrder(v)[m] == v.items[i] && InOrder(v)[m + 1 + |y|] == v.items[i + 1];
    }
  }

  /** The tree right after the second item with the key is put in: of the right shape, but not sorted. */
  lemma DuplicateInserted(t: Tree, h: nat, s: Spot, item: Item)
    requires Balanced(t, h) && IsPath(t, s.path) && HasAt(Sub(t, s.path).items, item.key, s.index) && Distinct(Bag(t))
    ensures var t1 := Inserted(t, s, item);
            Balanced(t1, h) && !Sorted(InOrder(t1)) && Apart(t1, s.path)
  {
    var x, v := Sub(t, s.path), Grown(t, s, item);
    SubShape(t, h, s.path);
    GrownShape(x, h - |s.path|, v);
    GraftShape(t, h, s.path, v);
    assert v.items[s.index] == item && v.items[s.index + 1] == x.items[s.index];
    TwiceInNode(v, h - |s.path|, s.index);
    GraftInOrder(t, h, s.path, v);
    if Sorted(InOrder(Inserted(t, s, item))) {
      SortedParts(LeftOf(t, s.path), InOrder(v), RightOf(t, s.path));
    }
    KidsAfterPutPages(x.kids);
    ApartAfterGraft(t, s.path, v);
  }

  /** The sequences are the same up to a place, where the second one has the item. */
  predicate SameUpTo(before: seq<Item>, after: seq<Item>, at: nat, item: Item) {
    at <= |before| && at < |after| && after[..at] == before[..at] && after[at] == item
  }

  /** Up to the new item the node reads as before, and then comes the new item. */
  lemma GrownReads(x: Tree, h: nat, i: nat, item: Item)
    requires Balanced(x, h) && i < |x.items|
    ensures SameUpTo(InOrder(x), InOrder(GrownNode(x, i, item)), LocalPosition(x, i), item)
  {
    var v := GrownNode(x, i, item);
    if h > 0 {
      GrownShape(x, h, v);
      AtChild(x, i);
      AtChild(v, i);
      assert v.kids[..i] == x.kids[..i] && v.items[..i] == x.items[..i] && v.kids[i] == x.kids[i];
      assert After(v, i)[0] == item;
    }
  }

  /** Then so does the whole tree. */
  lemma InsertedReads(t: Tree, h: nat, s: Spot, item: Item)
    requires Balanced(t, h) && IsPath(t, s.path) && s.index < |Sub(t, s.path).items|
    ensures SameUpTo(InOrder(t), InOrder(Inserted(t, s, item)), Position(t, s.path, s.index), item)
  {
    var x, v := Sub(t, s.path), Grown(t, s, item);
    SubShape(t, h, s.path);
    GrownReads(x, h - |s.path|, s.index, item);
    GraftStart(t, h, s.path, v, LocalPosition(x, s.index), item);
  }

  /** With another node at the end of the path, the tree reads as before as far as this node does. */
  lemma GraftStart(t: Tree, h: nat, path: seq<nat>, v: Tree, g: nat, item: Item)
    requires Balanced(t, h) && IsPath(t, path) && SameUpTo(InOrder(Sub(t, path)), InOrder(v), g, item)
    ensures SameUpTo(InOrder(t), InOrder(Graft(t, path, v)), |LeftOf(t, path)| + g, item)
  {
    GraftInOrder(t, h, path, v);
    SameStart(LeftOf(t, path), InOrder(Sub(t, path)), InOrder(v), RightOf(t, path), g, item);
  }

  lemma SameStart(l: seq<Item>, x: seq<Item>, v: seq<Item>, r: seq<Item>, g: nat, item: Item)
    requires SameUpTo(x, v, g, item)
    ensures SameUpTo(l + x + r, l + v + r, |l| + g, item)
  {
    assert (l + v + r)[..|l| + g] == l + v[..g] && (l + x + r)[..|l| + g] == l + x[..g];
  }

  /** Before the place of a key in a sorted sequence there is no other item with it. */
  lemma FirstWithKey(s: seq<Item>, u: seq<Item>, g: nat, key: Bytes, j: nat)
    requires Sorted(s) && g < |s| && g < |u| && u[..g] == s[..g] && s[g].key == key && j < |u| && u[j].key == key
    ensures g <= j
  {
    if j < g {
      assert u[j] == u[..g][j] == s[..g][j] == s[j];
      LessTrichotomy(key, key);
    }
  }

  lemma GrownShape(x: Tree, h: nat, v: Tree)
    requires Balanced(x, h) && |v.items| == |x.items| + 1 && v.kids == KidsAfterPut(x.kids)
    ensures Balanced(v, h)
  {
    forall i | 0 <= i < |v.kids|
      ensures h > 0 && Balanced(v.kids[i], h - 1)
    {
      assert v.kids[i] == x.kids[if i < |x.kids| then i else |x.kids| - 1];
    }
  }

  /**
   * With an existing key and no crowd, the root page leads to a tree that is not sorted. In order, it reads as before
   * up to the place of the key, then comes the new item, and only later the old one. The node that had the key reads
   * with the item in front of the old one; if it is an inner node, with its last child twice.
   */
  lemma PutDuplicates(c: Coll, t: Tree, item: Item) returns (u: Tree)
    requires Valid(c, t) && CanPut(c, t, item) && HasKey(InOrder(t), item.key) && !Crowded(c, t, item)
    ensures var r := PutState(c, t, item);
            && r.root != 0 && u.page == r.root && Stored(u, r.db.pages) && !Sorted(InOrder(u))
            && u == PutTree(c, t, item)
    ensures var g := PlaceOf(t, item.key);
            && g < |InOrder(t)| && g < |InOrder(u)|
            && InOrder(u)[..g] == InOrder(t)[..g] && InOrder(u)[g] == item && InOrder(t)[g].key == item.key
            && forall j :: 0 <= j < |InOrder(u)| && InOrder(u)[j].key == item.key ==> g <= j
    ensures var s := Search(t, item.key);
            var x := Sub(t, s.path);
            && s.found && InOrder(u) == LeftOf(t, s.path)
                          + InOrder(Tree(x.page, x.items[..s.index] + [item] + x.items[s.index..],
                                         if x.kids == [] then [] else x.kids + [x.kids[|x.kids| - 1]]))
                          + RightOf(t, s.path)
  {
    assert c.root != 0;
    var s, h := Search(t, item.key), Height(t);
    var t1, d := Inserted(t, s, item), Write(c.db, CopyOf(Grown(t, s, item)));
    SearchFindsKeys(t, h, item.key);
    SafeIsDistinct(c.db.free, Bag(t));
    InsertedStored(c.db, t, s, item);
    DuplicateInserted(t, h, s, item);
    SplitsCanGoUp(c.db.lim, t1, s.path);
    var more;
    u, more := SplitUpShared(d, t1, h, s.path, Bag(t));
    var e := SplitUp(d, Along(t1, s.path), s.path);
    assert t1.page !in BagAll(t1.kids) && t1.page in Bag(t);
    assert t1.page in Bag(t) + multiset(c.db.free.released);
    SplitUpFree(d, t1, s.path);
    if Over(c.db.lim, t1.items) {
      u := GrowShared(e, t1, h, u, more);
    }
    DuplicateReads(c, t, item, u);
  }

  lemma DuplicateReads(c: Coll, t: Tree, item: Item, u: Tree)
    requires Valid(c, t) && HasKey(InOrder(t), item.key) && c.root != 0
    requires InOrder(u) == InOrder(Inserted(t, Search(t, item.key), item))
    ensures var g := PlaceOf(t, item.key);
            && g < |InOrder(t)| && g < |InOrder(u)|
            && InOrder(u)[..g] == InOrder(t)[..g] && InOrder(u)[g] == item && InOrder(t)[g].key == item.key
            && forall j :: 0 <= j < |InOrder(u)| && InOrder(u)[j].key == item.key ==> g <= j
    ensures var s := Search(t, item.key);
            s.found && InOrder(u) == LeftOf(t, s.path) + InOrder(Grown(t, s, item)) + RightOf(t, s.path)
  {
    var s, h, g := Search(t, item.key), Height(t), PlaceOf(t, item.key);
    SearchIsExact(t, h, item.key);
    SearchFindsKeys(t, h, item.key);
    InsertedReads(t, h, s, item);
    GraftInOrder(t, h, s.path, Grown(t, s, item));
    forall j | 0 <= j < |InOrder(u)| && InOrder(u)[j].key == item.key
      ensures g <= j
    {
      FirstWithKey(InOrder(t), InOrder(u), g, item.key, j);
    }
  }

  /** Without a crowd on the path, `put` leaves a valid collection exactly when the key was not there before. */
  lemma PutIsValidIffFresh(c: Coll, t: Tree, item: Item)
    requires Valid(c, t) && CanPut(c, t, item) && !Crowded(c, t, item)
    ensures IsValid(PutState(c, t, item)) <==> !HasKey(InOrder(t), item.key)
  {
    if !HasKey(InOrder(t), item.key) {
      PutMeaning(c, t, item);
    } else {
      var r := PutState(c, t, item);
      var u := PutDuplicates(c, t, item);
      forall v
        ensures !Valid(r, v)
      {
        if Valid(r, v) {
          StoredUnique(u, v, r.db.pages);
        }
      }
    }
  }

  lemma TwiceIsUnsorted(s: seq<Item>, g: nat, item: Item)
    requires g < |s| && s[g].key == item.key
    ensures !Sorted(InsertAt(s, g, item))
  {
    var r := InsertAt(s, g, item);
    assert r[g] == item && r[g + 1] == s[g];
    LessTrichotomy(item.key, item.key);
  }

  /** Exactly when `put` inserts its item at the key's place and keeps the collection valid. */
  lemma PutIsInsertionExactly(c: Coll, t: Tree, item: Item)
    requires Valid(c, t) && CanPut(c, t, item)
    ensures PlaceOf(t, item.key) <= |InOrder(t)|
    ensures (exists u :: Valid(PutState(c, t, item), u)
                         && InOrder(u) == InsertAt(InOrder(t), PlaceOf(t, item.key), item))
            <==> !HasKey(InOrder(t), item.key) && !Crowded(c, t, item)
  {
    if !HasKey(InOrder(t), item.key) {
      PutIsInsertionIff(c, t, item);
    } else {
      SearchIsExact(t, Height(t), item.key);
      SearchFindsKeys(t, Height(t), item.key);
      TwiceIsUnsorted(InOrder(t), PlaceOf(t, item.key), item);
    }
  }
}
