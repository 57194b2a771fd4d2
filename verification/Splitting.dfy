/**
 * Splitting a node, and the split loop of an insertion, as changes of the tree (core/node.cpp, core/collection.cpp).
 */
module Splitting {
  import opened KeyOrder
  import opened Trees
  import opened Sizing
  import opened Freelists
  import opened Store

  /** a is b, or b with items lost; nothing is added and the order stays. */
  ghost predicate Remains(a: seq<Item>, b: seq<Item>, lost: bool) {
    && (if lost then |a| < |b| else a == b)
    && (forall x :: x in a ==> x in b)
    && (Sorted(b) ==> Sorted(a))
  }

  lemma RemainsInContext(p: seq<Item>, a: seq<Item>, b: seq<Item>, s: seq<Item>, lost: bool)
    requires Remains(a, b, lost)
    ensures Remains(p + a + s, p + b + s, lost)
  {
    var l, r := p + a + s, p + b + s;
    forall x | x in l
      ensures x in r
    {
      if x in a {
        var i :| 0 <= i < |b| && b[i] == x;
        assert r[|p| + i] == x;
      } else if x in s {
        var i :| 0 <= i < |s| && s[i] == x;
        assert r[|p| + |b| + i] == x;
      } else {
        var i :| 0 <= i < |p| && p[i] == x;
        assert r[i] == x;
      }
    }
    if Sorted(r) {
      assert Sorted(a) by {
        forall i, j | 0 <= i < j < |b|
          ensures Less(b[i].key, b[j].key)
        {
          assert b[i] == r[|p| + i] && b[j] == r[|p| + j];
        }
      }
      forall i, j | 0 <= i < j < |l|
        ensures Less(l[i].key, l[j].key)
      {
        var i' := Moved(p, a, b, s, i);
        var j' := Moved(p, a, b, s, j);
        if |p| <= i && j < |p| + |a| {
          assert l[i] == a[i - |p|] && l[j] == a[j - |p|];
        }
      }
    }
  }

  /** Where element i of p + a + s stands in p + b + s. */
  lemma Moved(p: seq<Item>, a: seq<Item>, b: seq<Item>, s: seq<Item>, i: nat) returns (j: nat)
    requires i < |p| + |a| + |s| && forall x :: x in a ==> x in b
    ensures j < |p| + |b| + |s| && (p + b + s)[j] == (p + a + s)[i]
    ensures i < |p| ==> j == i
    ensures |p| <= i < |p| + |a| ==> |p| <= j < |p| + |b|
    ensures |p| + |a| <= i ==> j == i - |a| + |b|
  {
    if i < |p| {
      j := i;
    } else if i < |p| + |a| {
      assert (p + a + s)[i] == a[i - |p|] && a[i - |p|] in b;
      var m :| 0 <= m < |b| && b[m] == a[i - |p|];
      j := |p| + m;
    } else {
      j := i - |a| + |b|;
    }
  }

  lemma RemainsTransitive(a: seq<Item>, b: seq<Item>, c: seq<Item>, l: bool, m: bool)
    requires Remains(a, b, l) && Remains(b, c, m)
    ensures Remains(a, c, l || m)
  {
  }

  /** A strict prefix remains, with loss. */
  lemma PrefixRemains(a: seq<Item>, x: Item, s: seq<Item>)
    ensures Remains(a, a + [x] + s, true)
  {
    var b := a + [x] + s;
    assert forall i :: 0 <= i < |a| ==> a[i] == b[i];
  }

  // ---------------------------------------------------------------- one split

  function LeftTree(v: Tree, s: nat): Tree
    requires s < |v.items| && (v.kids == [] || s < |v.kids|)
  {
    Tree(v.page, v.items[..s], if v.kids == [] then [] else v.kids[..s + 1])
  }

  function RightTree(v: Tree, s: nat, page: nat): Tree
    requires s < |v.items| && (v.kids == [] || s < |v.kids|)
  {
    Tree(page, v.items[s + 1..], if v.kids == [] then [] else v.kids[s + 1..])
  }

  /** Left half, middle item and right half make up the node, in order and in shape. */
  lemma HalvesMakeUpNode(v: Tree, h: nat, s: nat, page: nat)
    requires Balanced(v, h) && s < |v.items|
    ensures v.kids == [] || s < |v.kids|
    ensures InOrder(LeftTree(v, s)) + [v.items[s]] + InOrder(RightTree(v, s, page)) == InOrder(v)
    ensures Balanced(LeftTree(v, s), h) && Balanced(RightTree(v, s, page), h)
  {
    var l, r := LeftTree(v, s), RightTree(v, s, page);
    assert v.items == l.items + [v.items[s]] + r.items && v.kids == l.kids + r.kids;
    JoinInOrder(l.kids, l.items, v.items[s], r.kids, r.items);
  }

  lemma HalvesBag(v: Tree, s: nat, page: nat)
    requires s < |v.items| && (v.kids == [] || s < |v.kids|)
    ensures Bag(LeftTree(v, s)) + Bag(RightTree(v, s, page)) == Bag(v) + multiset{page}
  {
    var l, r := LeftTree(v, s), RightTree(v, s, page);
    assert v.kids == l.kids + r.kids;
    BagAppend(l.kids, r.kids);
  }

  lemma HalvesBodies(v: Tree, s: nat, page: nat)
    requires s < |v.items| && (v.kids == [] || s < |v.kids|)
    ensures BodyOf(LeftTree(v, s)) == LeftHalf(BodyOf(v), s)
    ensures BodyOf(RightTree(v, s, page)) == RightHalf(BodyOf(v), s)
  {
    var l, r := LeftTree(v, s), RightTree(v, s, page);
    assert v.kids == l.kids + r.kids;
    PagesAppend(l.kids, r.kids);
    assert v.kids == [] <==> Pages(v.kids) == [];
  }

  /** The parent with child k replaced by two halves around a middle item. */
  function AdoptTree(t: Tree, k: nat, left: Tree, middle: Item, right: Tree): Tree
    requires k <= |t.items| && k < |t.kids|
  {
    Tree(t.page, InsertAt(t.items, k, middle), InsertAt(t.kids[k := left], k + 1, right))
  }

  /** The parent t after a split of its child k, given as c; the right half goes to the allocator's next page. */
  function SplitInto(o: Limits, free: Free, t: Tree, k: nat, c: Tree): Tree
    requires k <= |t.items| && k < |t.kids| && CanSplit(o, BodyOf(c))
  {
    var s := SplitIndex(o, c.items);
    AdoptTree(t, k, LeftTree(c, s), c.items[s], RightTree(c, s, NextPage(free).1))
  }

  /** The new parent reads the halves where it read the child. */
  lemma AdoptInOrder(t: Tree, k: nat, left: Tree, middle: Item, right: Tree)
    requires k <= |t.items| && |t.kids| == |t.items| + 1
    ensures InOrder(AdoptTree(t, k, left, middle, right))
         == Before(t, k) + (InOrder(left) + [middle] + InOrder(right)) + After(t, k)
  {
    var u := AdoptTree(t, k, left, middle, right);
    AtChild(u, k);
    assert u.kids[..k] == t.kids[..k] && u.items[..k] == t.items[..k];
    assert u.kids[k + 1..] == [right] + t.kids[k + 1..] && u.items[k + 1..] == t.items[k..];
    if k < |t.items| {
      assert u.items[k + 1..][1..] == t.items[k + 1..] && u.kids[k + 1..][1..] == t.kids[k + 1..];
    }
    assert After(u, k) == [middle] + InOrder(right) + After(t, k);
  }

  lemma AdoptBody(t: Tree, k: nat, left: Tree, middle: Item, right: Tree)
    requires k <= |t.items| && k < |t.kids| && left.page == t.kids[k].page
    ensures BodyOf(AdoptTree(t, k, left, middle, right)) == Adopt(BodyOf(t), k, middle, right.page)
  {
    var u := AdoptTree(t, k, left, middle, right);
    assert Pages(u.kids) == InsertAt(Pages(t.kids), k + 1, right.page);
  }

  lemma AdoptBag(t: Tree, k: nat, left: Tree, middle: Item, right: Tree)
    requires k <= |t.items| && k < |t.kids|
    ensures Bag(AdoptTree(t, k, left, middle, right)) == Others(t, k) + Bag(left) + Bag(right)
  {
    var u := AdoptTree(t, k, left, middle, right);
    var a, b := t.kids[..k], t.kids[k + 1..];
    assert u.kids == a + ([left] + ([right] + b));
    BagAppend(a, [left] + ([right] + b));
    BagAppend([left], [right] + b);
    BagAppend([right], b);
    assert BagAll([left]) == Bag(left) && BagAll([right]) == Bag(right);
  }

  predicate ShapedAround(t: Tree, h: nat, k: nat) {
    && h > 0 && |t.kids| == |t.items| + 1 && k < |t.kids|
    && forall i :: 0 <= i < |t.kids| && i != k ==> Balanced(t.kids[i], h - 1)
  }

  /**
   * One split of child k of t. The store holds, below the child's page, the tree v; the split works on a
   * copy of the child from before, whose subtrees make up the tree c. After it the parent's page leads to u,
   * which reads c in place of child k; the parent as the loop still has it would lead to base.
   */
  lemma SplitOne(d: Db, t: Tree, h: nat, k: nat, v: Tree, c: Tree, rest: multiset<nat>) returns (u: Tree, base: Tree)
    requires ShapedAround(t, h, k) && Balanced(c, h - 1)
    requires CopyOf(c) == CopyOf(t.kids[k]) && CanSplit(d.lim, BodyOf(c))
    requires StoredAll(t.kids[..k], d.pages) && StoredAll(t.kids[k + 1..], d.pages) && StoredAll(c.kids, d.pages)
    requires Bag(c) <= Bag(v) && Safe(d.free, Bag(v) + Others(t, k) + rest)
    ensures SplitPlaced(d, SplitStep(d, CopyOf(t), CopyOf(t.kids[k]), k), t, rest, u, base)
    ensures Balanced(u, h) && Balanced(base, h)
    ensures InOrder(u) == Before(t, k) + InOrder(c) + After(t, k)
    ensures Remains(InOrder(base), InOrder(u), true)
    ensures u == SplitInto(d.lim, d.free, t, k, c)
  {
    var s := SplitIndex(d.lim, c.items);
    var q := NextPage(d.free).1;
    HalvesMakeUpNode(c, h - 1, s, q);
    u, base := SplitOnePlaced(d, t, k, v, c, rest);
    SplitOneContents(t, k, c, s, q, u, base);
    SplitOneShape(t, h, k, LeftTree(c, s), c.items[s], RightTree(c, s, q));
  }

  /** The page of t leads to u, its copy from before to base, and both are in order as far as pages go. */
  ghost predicate SplitPlaced(d: Db, e: Db, t: Tree, rest: multiset<nat>, u: Tree, base: Tree) {
    && u.page == t.page && Stored(u, e.pages)
    && CopyOf(base) == CopyOf(t) && StoredAll(base.kids, e.pages)
    && Bag(base) <= Bag(u) && Safe(e.free, Bag(u) + rest)
    && SameOn(d.pages, e.pages, rest)
  }

  /** The same as far as pages go, whatever the shape and the order below. */
  lemma SplitOnePlaced(d: Db, t: Tree, k: nat, v: Tree, c: Tree, rest: multiset<nat>) returns (u: Tree, base: Tree)
    requires |t.kids| == |t.items| + 1 && k < |t.kids|
    requires CopyOf(c) == CopyOf(t.kids[k]) && CanSplit(d.lim, BodyOf(c))
    requires StoredAll(t.kids[..k], d.pages) && StoredAll(t.kids[k + 1..], d.pages) && StoredAll(c.kids, d.pages)
    requires Bag(c) <= Bag(v) && Safe(d.free, Bag(v) + Others(t, k) + rest)
    ensures var s, q := SplitIndex(d.lim, c.items), NextPage(d.free).1;
            && 0 < s < |c.items| && (c.kids == [] || s < |c.kids|)
            && u == AdoptTree(t, k, LeftTree(c, s), c.items[s], RightTree(c, s, q))
            && base == t.(kids := t.kids[k := LeftTree(c, s)])
    ensures SplitPlaced(d, SplitStep(d, CopyOf(t), CopyOf(t.kids[k]), k), t, rest, u, base)
  {
    var s := SplitIndex(d.lim, c.items);
    var q := NextPage(d.free).1;
    var e := SplitStep(d, CopyOf(t), CopyOf(t.kids[k]), k);
    assert s < |c.items| && (c.kids == [] || s < |c.kids|);
    u, base := AdoptTree(t, k, LeftTree(c, s), c.items[s], RightTree(c, s, q)), t.(kids := t.kids[k := LeftTree(c, s)]);
    assert Bag(base) <= Bag(u) && Safe(e.free, Bag(u) + rest) && q !in Bag(v) + Others(t, k) + rest by {
      HalvesBag(c, s, q);
      SplitOnePages(d, t, k, v, c, s, q, rest, u, base);
    }
    SplitWrites(d, t, k, c, s, q);
    SplitPagesApart(d.free, t, k, v, c, q, rest, {q, t.page, c.page});
    assert SameOn(d.pages, e.pages, rest);
    assert Stored(u, e.pages) && StoredAll(base.kids, e.pages) && CopyOf(base) == CopyOf(t) by {
      SplitOneStore(d, t, k, c, s, q, e.pages, {q, t.page, c.page});
    }
  }

  lemma SplitOneContents(t: Tree, k: nat, c: Tree, s: nat, q: nat, u: Tree, base: Tree)
    requires |t.kids| == |t.items| + 1 && k < |t.kids|
    requires s < |c.items| && (c.kids == [] || s < |c.kids|)
    requires InOrder(LeftTree(c, s)) + [c.items[s]] + InOrder(RightTree(c, s, q)) == InOrder(c)
    requires u == AdoptTree(t, k, LeftTree(c, s), c.items[s], RightTree(c, s, q))
    requires base == t.(kids := t.kids[k := LeftTree(c, s)])
    ensures InOrder(u) == Before(t, k) + InOrder(c) + After(t, k)
    ensures Remains(InOrder(base), InOrder(u), true)
  {
    var left, middle, right := LeftTree(c, s), c.items[s], RightTree(c, s, q);
    AdoptInOrder(t, k, left, middle, right);
    ReplaceChild(t, k, left);
    PrefixRemains(InOrder(left), middle, InOrder(right));
    RemainsInContext(Before(t, k), InOrder(left), InOrder(c), After(t, k), true);
  }

  lemma SplitOneShape(t: Tree, h: nat, k: nat, left: Tree, middle: Item, right: Tree)
    requires ShapedAround(t, h, k) && Balanced(left, h - 1) && Balanced(right, h - 1)
    ensures Balanced(AdoptTree(t, k, left, middle, right), h)
    ensures Balanced(t.(kids := t.kids[k := left]), h)
  {
    var u := AdoptTree(t, k, left, middle, right);
    forall i | 0 <= i < |u.kids|
      ensures Balanced(u.kids[i], h - 1)
    {
      if i > k + 1 {
        assert u.kids[i] == t.kids[i - 1];
      }
    }
  }

  lemma HalvesFit(o: multiset<nat>, l: multiset<nat>, r: multiset<nat>, c: multiset<nat>, q: multiset<nat>,
                  v: multiset<nat>, rest: multiset<nat>)
    requires l + r == c + q && c <= v
    ensures o + l + r + rest <= v + o + rest + q && o + l <= o + l + r
  {
    forall p
      ensures (o + l + r + rest)[p] <= (v + o + rest + q)[p]
    {
      assert (l + r)[p] == (c + q)[p] && c[p] <= v[p];
    }
  }

  lemma SplitOnePages(d: Db, t: Tree, k: nat, v: Tree, c: Tree, s: nat, q: nat, rest: multiset<nat>, u: Tree,
                      base: Tree)
    requires |t.kids| == |t.items| + 1 && k < |t.kids|
    requires s < |c.items| && (c.kids == [] || s < |c.kids|)
    requires Bag(LeftTree(c, s)) + Bag(RightTree(c, s, q)) == Bag(c) + multiset{q}
    requires u == AdoptTree(t, k, LeftTree(c, s), c.items[s], RightTree(c, s, q))
    requires base == t.(kids := t.kids[k := LeftTree(c, s)])
    requires Bag(c) <= Bag(v) && Safe(d.free, Bag(v) + Others(t, k) + rest) && q == NextPage(d.free).1
    ensures Bag(base) <= Bag(u) && Safe(NextPage(d.free).0, Bag(u) + rest)
    ensures q !in Bag(v) + Others(t, k) + rest
  {
    var left := LeftTree(c, s);
    var used := Bag(v) + Others(t, k) + rest;
    AdoptBag(t, k, left, c.items[s], RightTree(c, s, q));
    BagAt(base.kids, k);
    assert base.kids[..k] == t.kids[..k] && base.kids[k + 1..] == t.kids[k + 1..];
    NextPageIsFresh(d.free, used);
    HalvesFit(Others(t, k), Bag(left), Bag(RightTree(c, s, q)), Bag(c), multiset{q}, Bag(v), rest);
    SafeSubset(NextPage(d.free).0, used + multiset{q}, Bag(u) + rest);
  }

  /** The three pages a split writes. */
  lemma SplitWrites(d: Db, t: Tree, k: nat, c: Tree, s: nat, q: nat)
    requires k <= |t.items| && k < |t.kids| && CopyOf(c) == CopyOf(t.kids[k]) && CanSplit(d.lim, BodyOf(c))
    requires s == SplitIndex(d.lim, c.items) && (c.kids == [] || s < |c.kids|) && q == NextPage(d.free).1
    ensures SplitStep(d, CopyOf(t), CopyOf(t.kids[k]), k).pages
         == d.pages[q := BodyOf(RightTree(c, s, q))]
                   [t.page := BodyOf(AdoptTree(t, k, LeftTree(c, s), c.items[s], RightTree(c, s, q)))]
                   [c.page := BodyOf(LeftTree(c, s))]
  {
    HalvesBodies(c, s, q);
    AdoptBody(t, k, LeftTree(c, s), c.items[s], RightTree(c, s, q));
  }

  lemma SplitOneStore(d: Db, t: Tree, k: nat, c: Tree, s: nat, q: nat, after: map<nat, Body>, touched: set<nat>)
    requires |t.kids| == |t.items| + 1 && k < |t.kids| && c.page == t.kids[k].page
    requires s < |c.items| && (c.kids == [] || s < |c.kids|)
    requires StoredAll(t.kids[..k], d.pages) && StoredAll(t.kids[k + 1..], d.pages) && StoredAll(c.kids, d.pages)
    requires q != t.page && q != c.page && t.page != c.page
    requires touched == {q, t.page, c.page}
    requires forall p :: p in touched ==>
               p !in BagAll(t.kids[..k]) && p !in BagAll(t.kids[k + 1..]) && p !in BagAll(c.kids)
    requires after == d.pages[q := BodyOf(RightTree(c, s, q))]
                   [t.page := BodyOf(AdoptTree(t, k, LeftTree(c, s), c.items[s], RightTree(c, s, q)))]
                   [c.page := BodyOf(LeftTree(c, s))]
    ensures Stored(AdoptTree(t, k, LeftTree(c, s), c.items[s], RightTree(c, s, q)), after)
    ensures var base := t.(kids := t.kids[k := LeftTree(c, s)]);
            StoredAll(base.kids, after) && CopyOf(base) == CopyOf(t)
  {
    assert SameOutside(d.pages, after, touched);
    KeptStored(t.kids[..k], d.pages, after, touched);
    KeptStored(t.kids[k + 1..], d.pages, after, touched);
    KeptStored(c.kids, d.pages, after, touched);
    SplitPieces(t, k, c, s, q, after);
  }

  /** With the subtrees and the three rewritten pages in place, both readings of the parent are stored. */
  lemma SplitPieces(t: Tree, k: nat, c: Tree, s: nat, q: nat, pages: map<nat, Body>)
    requires k < |t.kids| && k <= |t.items| && c.page == t.kids[k].page
    requires s < |c.items| && (c.kids == [] || s < |c.kids|)
    requires StoredAll(t.kids[..k], pages) && StoredAll(t.kids[k + 1..], pages) && StoredAll(c.kids, pages)
    requires q in pages && pages[q] == BodyOf(RightTree(c, s, q))
    requires c.page in pages && pages[c.page] == BodyOf(LeftTree(c, s))
    requires var u := AdoptTree(t, k, LeftTree(c, s), c.items[s], RightTree(c, s, q));
             u.page in pages && pages[u.page] == BodyOf(u)
    ensures Stored(AdoptTree(t, k, LeftTree(c, s), c.items[s], RightTree(c, s, q)), pages)
    ensures var base := t.(kids := t.kids[k := LeftTree(c, s)]);
            StoredAll(base.kids, pages) && CopyOf(base) == CopyOf(t)
  {
    var left, right := LeftTree(c, s), RightTree(c, s, q);
    StoredPieces(c, s, q, pages);
    assert InsertAt(t.kids[k := left], k + 1, right) == t.kids[..k] + [left, right] + t.kids[k + 1..];
    assert t.kids[k := left] == t.kids[..k] + [left] + t.kids[k + 1..];
    assert Pages(t.kids[k := left]) == Pages(t.kids);
  }

  lemma StoredPieces(c: Tree, s: nat, q: nat, pages: map<nat, Body>)
    requires s < |c.items| && (c.kids == [] || s < |c.kids|) && StoredAll(c.kids, pages)
    requires q in pages && pages[q] == BodyOf(RightTree(c, s, q))
    requires c.page in pages && pages[c.page] == BodyOf(LeftTree(c, s))
    ensures Stored(LeftTree(c, s), pages) && Stored(RightTree(c, s, q), pages)
  {
  }

  /** The three pages a split writes belong to none of the subtrees around it. */
  lemma SplitPagesApart(free: Free, t: Tree, k: nat, v: Tree, c: Tree, q: nat, rest: multiset<nat>,
                         touched: set<nat>)
    requires k < |t.kids| && Bag(c) <= Bag(v) && touched == {q, t.page, c.page}
    requires Safe(free, Bag(v) + Others(t, k) + rest) && q !in Bag(v) + Others(t, k) + rest
    ensures q != t.page && q != c.page && t.page != c.page
    ensures forall p :: p in touched ==>
              p !in BagAll(t.kids[..k]) && p !in BagAll(t.kids[k + 1..]) && p !in BagAll(c.kids) && p !in rest
  {
    var l, r := BagAll(t.kids[..k]), BagAll(t.kids[k + 1..]);
    FreshApart(free, q, t.page, c.page, Bag(v), BagAll(c.kids), rest, l, r);
    ThreeApart(q, t.page, c.page, BagAll(c.kids), rest, l, r);
  }

  lemma FreshApart(free: Free, q: nat, x: nat, y: nat, v: multiset<nat>, c: multiset<nat>, rest: multiset<nat>,
                   l: multiset<nat>, r: multiset<nat>)
    requires multiset{y} + c <= v && Safe(free, v + (multiset{x} + l + r) + rest)
             && q !in v + (multiset{x} + l + r) + rest
    ensures Distinct(multiset{q} + multiset{x} + multiset{y} + (c + rest + l + r))
  {
    var all := v + (multiset{x} + l + r) + rest;
    forall p
      ensures (multiset{q} + multiset{x} + multiset{y} + (c + rest + l + r))[p] <= 1
    {
      assert (all + multiset(free.released))[p] <= 1;
      assert (multiset{y} + c)[p] <= v[p];
    }
  }

  // ---------------------------------------------------------------- the loop

  /** Some node on the path and its child on the path are both over-populated. */
  predicate AdjacentOver(o: Limits, t: Tree, path: seq<nat>)
    requires IsPath(t, path)
    decreases |path|
  {
    && path != []
    && var kid := t.kids[path[0]];
       (Over(o, t.items) && Over(o, kid.items)) || AdjacentOver(o, kid, path[1..])
  }

  predicate ChildOver(o: Limits, t: Tree, path: seq<nat>)
    requires IsPath(t, path)
  {
    path != [] && Over(o, t.kids[path[0]].items)
  }

  /** Below t some node and its child on the path are both over-populated. */
  predicate AdjacentOverBelow(o: Limits, t: Tree, path: seq<nat>)
    requires IsPath(t, path)
  {
    path != [] && AdjacentOver(o, t.kids[path[0]], path[1..])
  }

  /**
   * What the split loop has made of the subtree t of a larger tree whose other pages are `rest`. The page
   * of t leads to u. The node t as it was copied before the loop, with the subtrees the loop leaves behind,
   * is base: this is what a later iteration splits. u has all items unless two neighbours on the path below
   * were over-populated; base in addition lacks what its own child handed up.
   */
  ghost predicate SplitTo(db: Db, d: Db, t: Tree, h: nat, path: seq<nat>, rest: multiset<nat>, u: Tree, base: Tree)
    requires IsPath(t, path)
  {
    && Placed(db, d, t, h, rest, u, base)
    && ReadsAs(db.lim, t, path, u, base)
  }

  ghost predicate Placed(db: Db, d: Db, t: Tree, h: nat, rest: multiset<nat>, u: Tree, base: Tree) {
    SplitPlaced(db, d, t, rest, u, base) && Balanced(u, h) && Balanced(base, h)
  }

  ghost predicate ReadsAs(o: Limits, t: Tree, path: seq<nat>, u: Tree, base: Tree)
    requires IsPath(t, path)
  {
    && (!ChildOver(o, t, path) ==> u == base)
    && Remains(InOrder(u), InOrder(t), AdjacentOverBelow(o, t, path))
    && Remains(InOrder(base), InOrder(t), AdjacentOverBelow(o, t, path) || ChildOver(o, t, path))
  }

  /** The allocator after the loop: one page less for every over-populated node below the first. */
  function FreeAfter(o: Limits, free: Free, t: Tree, path: seq<nat>): Free
    requires IsPath(t, path)
    decreases |path|
  {
    if path == [] then free
    else
      var f := FreeAfter(o, free, t.kids[path[0]], path[1..]);
      if Over(o, t.kids[path[0]].items) then NextPage(f).0 else f
  }

  /** The tree after the loop, when no two neighbours on the path are over-populated. */
  function AfterSplits(o: Limits, free: Free, t: Tree, path: seq<nat>): (r: Tree)
    requires IsPath(t, path)
    ensures r.page == t.page
    decreases |path|
  {
    if path == [] then t
    else
      var k, kid := path[0], t.kids[path[0]];
      var v := AfterSplits(o, free, kid, path[1..]);
      if Over(o, kid.items) && CanSplit(o, BodyOf(v)) then
        SplitInto(o, FreeAfter(o, free, kid, path[1..]), t, k, v)
      else t.(kids := t.kids[k := v])
  }

  lemma {:induction false} SplitUpFree(db: Db, t: Tree, path: seq<nat>)
    requires IsPath(t, path) && CanSplitUp(db.lim, Along(t, path), path)
    ensures SplitUp(db, Along(t, path), path).free == FreeAfter(db.lim, db.free, t, path)
    decreases |path|
  {
    if path != [] {
      assert Along(t, path)[1..] == Along(t.kids[path[0]], path[1..]);
      SplitUpFree(db, t.kids[path[0]], path[1..]);
    }
  }

  lemma {:induction false} SplitUpTree(db: Db, t: Tree, h: nat, path: seq<nat>, rest: multiset<nat>)
    returns (u: Tree, base: Tree)
    requires Stored(t, db.pages) && Balanced(t, h) && IsPath(t, path)
    requires CanSplitUp(db.lim, Along(t, path), path) && Safe(db.free, Bag(t) + rest)
    ensures SplitTo(db, SplitUp(db, Along(t, path), path), t, h, path, rest, u, base)
    ensures !AdjacentOver(db.lim, t, path) ==> u == AfterSplits(db.lim, db.free, t, path)
    decreases |path|
  {
    if path == [] {
      u, base := t, t;
    } else {
      var k, q := path[0], path[1..];
      KidSafe(db, t, k, rest);
      assert Balanced(t.kids[k], h - 1);
      assert Along(t, path)[1..] == Along(t.kids[k], q);
      var v, c := SplitUpTree(db, t.kids[k], h - 1, q, rest + Others(t, k));
      var d := SplitUp(db, Along(t.kids[k], q), q);
      SplitUpFree(db, t.kids[k], q);
      u, base := OneLevel(db, d, t, h, path, rest, v, c);
    }
  }

  /** The level of t, after the loop inside the child on the path. */
  lemma OneLevel(db: Db, d: Db, t: Tree, h: nat, path: seq<nat>, rest: multiset<nat>, v: Tree, c: Tree)
    returns (u: Tree, base: Tree)
    requires IsPath(t, path) && path != [] && Stored(t, db.pages) && Balanced(t, h) && d.lim == db.lim
    requires SplitTo(db, d, t.kids[path[0]], h - 1, path[1..], rest + Others(t, path[0]), v, c)
    requires Over(db.lim, t.kids[path[0]].items) ==> CanSplit(db.lim, BodyOf(t.kids[path[0]]))
    requires var kid := t.kids[path[0]];
             && d.free == FreeAfter(db.lim, db.free, kid, path[1..])
             && (!AdjacentOver(db.lim, kid, path[1..]) ==> v == AfterSplits(db.lim, db.free, kid, path[1..]))
    ensures var kid := t.kids[path[0]];
            SplitTo(db, if Over(db.lim, kid.items) then SplitStep(d, CopyOf(t), CopyOf(kid), path[0]) else d,
                    t, h, path, rest, u, base)
    ensures !AdjacentOver(db.lim, t, path) ==> u == AfterSplits(db.lim, db.free, t, path)
  {
    if Over(db.lim, t.kids[path[0]].items) {
      u, base := SplitLevel(db, d, t, h, path, rest, v, c);
    } else {
      u, base := KeepLevel(db, d, t, h, path, rest, v, c);
    }
  }

  lemma KidSafe(db: Db, t: Tree, k: nat, rest: multiset<nat>)
    requires Stored(t, db.pages) && Safe(db.free, Bag(t) + rest) && k < |t.kids|
    ensures Stored(t.kids[k], db.pages) && Safe(db.free, Bag(t.kids[k]) + (rest + Others(t, k)))
  {
    BagAt(t.kids, k);
    assert Bag(t.kids[k]) + (rest + Others(t, k)) == Bag(t) + rest;
  }

  /** The surroundings of child k survive what the loop did inside it. */
  lemma SiblingsKept(db: Db, d: Db, t: Tree, k: nat, rest: multiset<nat>)
    requires k < |t.kids| && Stored(t, db.pages) && SameOn(db.pages, d.pages, rest + Others(t, k))
    ensures StoredAll(t.kids[..k], d.pages) && StoredAll(t.kids[k + 1..], d.pages)
    ensures t.page in d.pages && d.pages[t.page] == BodyOf(t) && SameOn(db.pages, d.pages, rest)
  {
    SameOnParts(db.pages, d.pages, rest, Others(t, k));
    OthersStored(t, k, db.pages, d.pages);
  }

  lemma KeepLevel(db: Db, d: Db, t: Tree, h: nat, path: seq<nat>, rest: multiset<nat>, v: Tree, c: Tree)
    returns (u: Tree, base: Tree)
    requires IsPath(t, path) && path != [] && Stored(t, db.pages) && Balanced(t, h)
    requires SplitTo(db, d, t.kids[path[0]], h - 1, path[1..], rest + Others(t, path[0]), v, c)
    requires !Over(db.lim, t.kids[path[0]].items)
    ensures SplitTo(db, d, t, h, path, rest, u, base) && u == t.(kids := t.kids[path[0] := v])
  {
    u := t.(kids := t.kids[path[0] := v]);
    base := u;
    KeepLevelPlaced(db, d, t, h, path[0], rest, v, c, u);
    AtChild(t, path[0]);
    ReplaceChild(t, path[0], v);
    RemainsInContext(Before(t, path[0]), InOrder(v), InOrder(t.kids[path[0]]), After(t, path[0]),
                     AdjacentOver(db.lim, t.kids[path[0]], path[1..]));
  }

  lemma KeepLevelPlaced(db: Db, d: Db, t: Tree, h: nat, k: nat, rest: multiset<nat>, v: Tree, c: Tree, u: Tree)
    requires k < |t.kids| && Stored(t, db.pages) && Balanced(t, h)
    requires Placed(db, d, t.kids[k], h - 1, rest + Others(t, k), v, c)
    requires u == t.(kids := t.kids[k := v])
    ensures Placed(db, d, t, h, rest, u, u)
  {
    KeepPlaced(db, d, t, k, rest, v, c, u);
  }

  lemma KeepPlaced(db: Db, d: Db, t: Tree, k: nat, rest: multiset<nat>, v: Tree, c: Tree, u: Tree)
    requires k < |t.kids| && Stored(t, db.pages)
    requires SplitPlaced(db, d, t.kids[k], rest + Others(t, k), v, c)
    requires u == t.(kids := t.kids[k := v])
    ensures SplitPlaced(db, d, t, rest, u, u)
  {
    SiblingsKept(db, d, t, k, rest);
    RejoinStored(t, k, v, d.pages);
    BagAt(u.kids, k);
    assert u.kids[..k] == t.kids[..k] && u.kids[k + 1..] == t.kids[k + 1..];
    assert Bag(u) + rest == Bag(v) + (rest + Others(t, k));
    assert Pages(u.kids) == Pages(t.kids);
  }

  lemma SplitLevel(db: Db, d: Db, t: Tree, h: nat, path: seq<nat>, rest: multiset<nat>, v: Tree, c: Tree)
    returns (u: Tree, base: Tree)
    requires IsPath(t, path) && path != [] && Stored(t, db.pages) && Balanced(t, h)
    requires SplitTo(db, d, t.kids[path[0]], h - 1, path[1..], rest + Others(t, path[0]), v, c)
    requires Over(db.lim, t.kids[path[0]].items) && CanSplit(d.lim, BodyOf(t.kids[path[0]]))
    ensures SplitTo(db, SplitStep(d, CopyOf(t), CopyOf(t.kids[path[0]]), path[0]), t, h, path, rest, u, base)
    ensures u == SplitInto(d.lim, d.free, t, path[0], c)
  {
    u, base := SplitLevelPlaced(db, d, t, h, path[0], rest, v, c);
    var lost := AdjacentOver(db.lim, t.kids[path[0]], path[1..]);
    AtChild(t, path[0]);
    RemainsInContext(Before(t, path[0]), InOrder(c), InOrder(t.kids[path[0]]), After(t, path[0]), lost);
    RemainsTransitive(InOrder(base), InOrder(u), InOrder(t), true, lost);
  }

  lemma SplitLevelPlaced(db: Db, d: Db, t: Tree, h: nat, k: nat, rest: multiset<nat>, v: Tree, c: Tree)
    returns (u: Tree, base: Tree)
    requires k < |t.kids| && Stored(t, db.pages) && Balanced(t, h) && h > 0
    requires Placed(db, d, t.kids[k], h - 1, rest + Others(t, k), v, c)
    requires CanSplit(d.lim, BodyOf(t.kids[k]))
    ensures Placed(db, SplitStep(d, CopyOf(t), CopyOf(t.kids[k]), k), t, h, rest, u, base)
    ensures InOrder(u) == Before(t, k) + InOrder(c) + After(t, k)
    ensures Remains(InOrder(base), InOrder(u), true)
    ensures u == SplitInto(d.lim, d.free, t, k, c)
  {
    SiblingsKept(db, d, t, k, rest);
    assert Safe(d.free, Bag(v) + Others(t, k) + rest) by {
      assert Bag(v) + (rest + Others(t, k)) == Bag(v) + Others(t, k) + rest;
    }
    u, base := SplitOne(d, t, h, k, v, c, rest);
  }
}
