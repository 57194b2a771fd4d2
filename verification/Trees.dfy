/** The tree a page store represents: the abstraction every operation is judged by. */
module Trees {
  import opened KeyOrder

  /** What one page holds: the node's items and the page numbers of its children. */
  datatype Body = Body(items: seq<Item>, children: seq<nat>)

  /** A node held in memory: its page number with a copy of the page's body. */
  datatype Copy = Copy(page: nat, body: Body)

  /** A node with its subtrees unfolded; a leaf has no kids. */
  datatype Tree = Tree(page: nat, items: seq<Item>, kids: seq<Tree>)

  function Pages(kids: seq<Tree>): (r: seq<nat>) {
    seq(|kids|, i requires 0 <= i < |kids| => kids[i].page)
  }

  lemma PagesAppend(a: seq<Tree>, b: seq<Tree>)
    ensures Pages(a + b) == Pages(a) + Pages(b)
  {
  }

  function BodyOf(t: Tree): Body {
    Body(t.items, Pages(t.kids))
  }

  function CopyOf(t: Tree): Copy {
    Copy(t.page, BodyOf(t))
  }

  // ---------------------------------------------------------------- in-order sequence

  /** The items of the tree from left to right. */
  function InOrder(t: Tree): seq<Item>
    decreases t, 1
  {
    Weave(t.kids, t.items)
  }

  /** Alternates subtrees and items; without subtrees only the items are left. */
  function Weave(kids: seq<Tree>, items: seq<Item>): seq<Item>
    decreases kids, 0
  {
    if kids == [] then items
    else if items == [] then InOrder(kids[0])
    else InOrder(kids[0]) + [items[0]] + Weave(kids[1..], items[1..])
  }

  lemma {:induction false} WeaveAppend(k1: seq<Tree>, i1: seq<Item>, k2: seq<Tree>, i2: seq<Item>)
    requires |k1| == |i1|
    ensures Weave(k1 + k2, i1 + i2) == Weave(k1, i1) + Weave(k2, i2)
  {
    if k1 == [] {
      assert k1 + k2 == k2 && i1 + i2 == i2;
    } else {
      assert (k1 + k2)[1..] == k1[1..] + k2 && (i1 + i2)[1..] == i1[1..] + i2;
      WeaveAppend(k1[1..], i1[1..], k2, i2);
    }
  }

  lemma {:induction false} WeaveSnoc(kids: seq<Tree>, items: seq<Item>, x: Item)
    requires kids == [] || |kids| == |items| + 1
    ensures Weave(kids, items + [x]) == Weave(kids, items) + [x]
  {
    if kids != [] && items != [] {
      assert (items + [x])[1..] == items[1..] + [x];
      WeaveSnoc(kids[1..], items[1..], x);
    }
  }

  /** What comes after child i and before it. */
  function Before(t: Tree, i: nat): seq<Item>
    requires i <= |t.items| && i <= |t.kids|
  {
    Weave(t.kids[..i], t.items[..i])
  }

  function After(t: Tree, i: nat): seq<Item>
    requires i <= |t.items| && i < |t.kids|
  {
    if i == |t.items| then [] else [t.items[i]] + Weave(t.kids[i + 1..], t.items[i + 1..])
  }

  /** Child i in its context. */
  lemma AtChild(t: Tree, i: nat)
    requires i <= |t.items| && |t.kids| == |t.items| + 1
    ensures InOrder(t) == Before(t, i) + InOrder(t.kids[i]) + After(t, i)
  {
    assert t.kids == t.kids[..i] + t.kids[i..] && t.items == t.items[..i] + t.items[i..];
    WeaveAppend(t.kids[..i], t.items[..i], t.kids[i..], t.items[i..]);
    if i < |t.items| {
      assert t.kids[i..][1..] == t.kids[i + 1..] && t.items[i..][1..] == t.items[i + 1..];
    }
  }

  /** Two neighbouring subtrees of one height, joined around a separator. */
  lemma JoinInOrder(ka: seq<Tree>, ia: seq<Item>, x: Item, kb: seq<Tree>, ib: seq<Item>)
    requires (ka == [] && kb == []) || |ka| == |ia| + 1
    ensures Weave(ka + kb, ia + [x] + ib) == Weave(ka, ia) + [x] + Weave(kb, ib)
  {
    WeaveSnoc(ka, ia, x);
    if ka == [] {
      assert ka + kb == [];
    } else {
      WeaveAppend(ka, ia + [x], kb, ib);
    }
  }

  // ---------------------------------------------------------------- shape

  /** Every leaf is h levels down, and an inner node has one child more than items. */
  predicate Balanced(t: Tree, h: nat)
    decreases h
  {
    if h == 0 then
      t.kids == []
    else
      && |t.kids| == |t.items| + 1
      && forall i {:trigger Balanced(t.kids[i], h - 1)} :: 0 <= i < |t.kids| ==> Balanced(t.kids[i], h - 1)
  }

  predicate AllBalanced(kids: seq<Tree>, h: nat) {
    forall i {:trigger Balanced(kids[i], h)} :: 0 <= i < |kids| ==> Balanced(kids[i], h)
  }

  // ---------------------------------------------------------------- pages

  /** The pages of the tree, with multiplicity. */
  function Bag(t: Tree): multiset<nat>
    decreases t, 1
  {
    multiset{t.page} + BagAll(t.kids)
  }

  function BagAll(kids: seq<Tree>): multiset<nat>
    decreases kids, 0
  {
    if kids == [] then multiset{} else Bag(kids[0]) + BagAll(kids[1..])
  }

  lemma {:induction false} BagAppend(a: seq<Tree>, b: seq<Tree>)
    ensures BagAll(a + b) == BagAll(a) + BagAll(b)
  {
    if a == [] {
      assert a + b == b;
    } else {
      assert (a + b)[1..] == a[1..] + b;
      BagAppend(a[1..], b);
    }
  }

  lemma BagAt(kids: seq<Tree>, i: nat)
    requires i < |kids|
    ensures BagAll(kids) == BagAll(kids[..i]) + Bag(kids[i]) + BagAll(kids[i + 1..])
  {
    assert kids == kids[..i] + kids[i..] && kids[i..][1..] == kids[i + 1..];
    BagAppend(kids[..i], kids[i..]);
  }

  /** The pages of t outside child k. */
  function Others(t: Tree, k: nat): multiset<nat>
    requires k < |t.kids|
  {
    multiset{t.page} + BagAll(t.kids[..k]) + BagAll(t.kids[k + 1..])
  }

  /** The store holds every node of the tree at its page. */
  predicate Stored(t: Tree, pages: map<nat, Body>) {
    && t.page in pages
    && pages[t.page] == BodyOf(t)
    && forall i {:trigger Stored(t.kids[i], pages)} :: 0 <= i < |t.kids| ==> Stored(t.kids[i], pages)
  }

  predicate StoredAll(kids: seq<Tree>, pages: map<nat, Body>) {
    forall i {:trigger Stored(kids[i], pages)} :: 0 <= i < |kids| ==> Stored(kids[i], pages)
  }

  /** The stored pages of the bag are as they were. */
  ghost predicate SameOn(before: map<nat, Body>, after: map<nat, Body>, bag: multiset<nat>) {
    forall p :: p in bag && p in before ==> p in after && after[p] == before[p]
  }

  lemma SameOnParts(before: map<nat, Body>, after: map<nat, Body>, a: multiset<nat>, b: multiset<nat>)
    requires SameOn(before, after, a + b)
    ensures SameOn(before, after, a) && SameOn(before, after, b)
  {
    assert forall p :: p in a || p in b ==> p in a + b;
  }

  /** A tree survives every change outside its own pages. */
  lemma {:induction false} StoredFrame(t: Tree, before: map<nat, Body>, after: map<nat, Body>)
    requires Stored(t, before) && SameOn(before, after, Bag(t))
    ensures Stored(t, after)
    decreases t, 1
  {
    StoredAllFrame(t.kids, before, after);
  }

  lemma {:induction false} StoredAllFrame(kids: seq<Tree>, before: map<nat, Body>, after: map<nat, Body>)
    requires StoredAll(kids, before) && SameOn(before, after, BagAll(kids))
    ensures StoredAll(kids, after)
    decreases kids, 0
  {
    if kids != [] {
      assert Stored(kids[0], before);
      StoredFrame(kids[0], before, after);
      StoredRest(kids, before);
      StoredAllFrame(kids[1..], before, after);
      forall i | 0 <= i < |kids|
        ensures Stored(kids[i], after)
      {
        assert i > 0 ==> kids[i] == kids[1..][i - 1];
      }
    }
  }

  lemma StoredRest(kids: seq<Tree>, pages: map<nat, Body>)
    requires StoredAll(kids, pages) && kids != []
    ensures StoredAll(kids[1..], pages)
  {
    forall i | 0 <= i < |kids| - 1
      ensures Stored(kids[1..][i], pages)
    {
      assert kids[1..][i] == kids[i + 1];
    }
  }

  /** Only pages in `touched` differ. */
  ghost predicate SameOutside(before: map<nat, Body>, after: map<nat, Body>, touched: set<nat>) {
    forall p :: p in before && p !in touched ==> p in after && after[p] == before[p]
  }

  /** Subtrees without a touched page stay stored. */
  lemma KeptStored(kids: seq<Tree>, before: map<nat, Body>, after: map<nat, Body>, touched: set<nat>)
    requires StoredAll(kids, before) && SameOutside(before, after, touched)
    requires forall p :: p in touched ==> p !in BagAll(kids)
    ensures StoredAll(kids, after)
  {
    StoredAllFrame(kids, before, after);
  }

  /** A store and a root page determine the tree. */
  lemma {:induction false} StoredUnique(t: Tree, u: Tree, pages: map<nat, Body>)
    requires Stored(t, pages) && Stored(u, pages) && t.page == u.page
    ensures t == u
  {
    assert |Pages(t.kids)| == |t.kids| && |Pages(u.kids)| == |u.kids|;
    forall i | 0 <= i < |t.kids|
      ensures t.kids[i] == u.kids[i]
    {
      assert Pages(t.kids)[i] == t.kids[i].page && Pages(u.kids)[i] == u.kids[i].page;
      StoredUnique(t.kids[i], u.kids[i], pages);
    }
    assert t.kids == u.kids;
  }

  // ---------------------------------------------------------------- paths

  /** A list of child indexes that can be followed from t. */
  predicate IsPath(t: Tree, path: seq<nat>)
    decreases |path|
  {
    path == [] || (path[0] < |t.kids| && path[0] <= |t.items| && IsPath(t.kids[path[0]], path[1..]))
  }

  /** The node at the end of the path. */
  function Sub(t: Tree, path: seq<nat>): Tree
    requires IsPath(t, path)
    decreases |path|
  {
    if path == [] then t else Sub(t.kids[path[0]], path[1..])
  }

  /** Copies of the nodes along the path, root first. */
  function Along(t: Tree, path: seq<nat>): (r: seq<Copy>)
    requires IsPath(t, path)
    ensures |r| == |path| + 1
    decreases |path|
  {
    [CopyOf(t)] + if path == [] then [] else Along(t.kids[path[0]], path[1..])
  }

  /** What is left and right of the subtree at the end of the path. */
  function LeftOf(t: Tree, path: seq<nat>): seq<Item>
    requires IsPath(t, path)
    decreases |path|
  {
    if path == [] then [] else Before(t, path[0]) + LeftOf(t.kids[path[0]], path[1..])
  }

  function RightOf(t: Tree, path: seq<nat>): seq<Item>
    requires IsPath(t, path)
    decreases |path|
  {
    if path == [] then [] else RightOf(t.kids[path[0]], path[1..]) + After(t, path[0])
  }

  /** The tree with another subtree at the end of the path. */
  function Graft(t: Tree, path: seq<nat>, v: Tree): (r: Tree)
    requires IsPath(t, path)
    ensures IsPath(r, path) && Sub(r, path) == v
    ensures path != [] ==> r.page == t.page && r.items == t.items && |r.kids| == |t.kids|
    decreases |path|
  {
    if path == [] then v
    else t.(kids := t.kids[path[0] := Graft(t.kids[path[0]], path[1..], v)])
  }

  /** One child replaced: the in-order sequence around it, and the bag, stay. */
  lemma ReplaceChild(t: Tree, k: nat, v: Tree)
    requires k < |t.kids|
    ensures var r := t.(kids := t.kids[k := v]);
            && (|t.kids| == |t.items| + 1 ==> InOrder(r) == Before(t, k) + InOrder(v) + After(t, k))
            && Bag(r) + Bag(t.kids[k]) == Bag(t) + Bag(v)
  {
    var r := t.(kids := t.kids[k := v]);
    assert r.kids[..k] == t.kids[..k] && r.kids[k + 1..] == t.kids[k + 1..];
    BagAt(t.kids, k);
    BagAt(r.kids, k);
    if |t.kids| == |t.items| + 1 {
      AtChild(r, k);
    }
  }

  lemma Nested(a: seq<Item>, b: seq<Item>, c: seq<Item>, d: seq<Item>, e: seq<Item>)
    ensures a + (b + c + d) + e == (a + b) + c + (d + e)
    ensures a + (b + c + d) + e == a + b + (c + (d + e))
  {
  }

  lemma {:induction false} GraftInOrder(t: Tree, h: nat, path: seq<nat>, v: Tree)
    requires Balanced(t, h) && IsPath(t, path)
    ensures InOrder(t) == LeftOf(t, path) + InOrder(Sub(t, path)) + RightOf(t, path)
    ensures InOrder(Graft(t, path, v)) == LeftOf(t, path) + InOrder(v) + RightOf(t, path)
    decreases |path|
  {
    if path != [] {
      var k := path[0];
      var kid, q := t.kids[k], path[1..];
      GraftInOrder(kid, h - 1, q, v);
      AtChild(t, k);
      ReplaceChild(t, k, Graft(kid, q, v));
      Nested(Before(t, k), LeftOf(kid, q), InOrder(Sub(kid, q)), RightOf(kid, q), After(t, k));
      Nested(Before(t, k), LeftOf(kid, q), InOrder(v), RightOf(kid, q), After(t, k));
    }
  }

  lemma {:induction false} GraftShape(t: Tree, h: nat, path: seq<nat>, v: Tree)
    requires Balanced(t, h) && IsPath(t, path) && |path| <= h
    requires Balanced(v, h - |path|)
    ensures Balanced(Graft(t, path, v), h)
    decreases |path|
  {
    if path != [] {
      GraftShape(t.kids[path[0]], h - 1, path[1..], v);
    }
  }

  /** The subtree's height, and the rest of the tree's pages around it. */
  lemma {:induction false} SubShape(t: Tree, h: nat, path: seq<nat>)
    requires Balanced(t, h) && IsPath(t, path)
    ensures |path| <= h && Balanced(Sub(t, path), h - |path|)
    decreases |path|
  {
    if path != [] {
      SubShape(t.kids[path[0]], h - 1, path[1..]);
    }
  }

  lemma Cancel(a: multiset<nat>, k: multiset<nat>, t: multiset<nat>, l: multiset<nat>, s: multiset<nat>,
               v: multiset<nat>)
    requires a + k == t + l && l + s == k + v
    ensures a + s == t + v
  {
    forall p
      ensures (a + s)[p] == (t + v)[p]
    {
      assert (a + k)[p] == (t + l)[p] && (l + s)[p] == (k + v)[p];
    }
  }

  lemma {:induction false} GraftBag(t: Tree, path: seq<nat>, v: Tree)
    requires IsPath(t, path)
    ensures Bag(Graft(t, path, v)) + Bag(Sub(t, path)) == Bag(t) + Bag(v)
    ensures Bag(Sub(t, path)) <= Bag(t)
    decreases |path|
  {
    if path != [] {
      var k := path[0];
      GraftBag(t.kids[k], path[1..], v);
      ReplaceChild(t, k, Graft(t.kids[k], path[1..], v));
      BagAt(t.kids, k);
      var g := Graft(t.kids[k], path[1..], v);
      Cancel(Bag(Graft(t, path, v)), Bag(t.kids[k]), Bag(t), Bag(g), Bag(Sub(t, path)), Bag(v));
    }
  }

  /** No page occurs twice. */
  ghost predicate Distinct(b: multiset<nat>) {
    forall p :: b[p] <= 1
  }

  /** In a tree without repeated pages, the parts of a node share none. */
  lemma DistinctParts(t: Tree, k: nat)
    requires k < |t.kids| && Distinct(Bag(t))
    ensures Distinct(Bag(t.kids[k]))
    ensures forall p :: p in Bag(t.kids[k]) ==>
              p != t.page && p !in BagAll(t.kids[..k]) && p !in BagAll(t.kids[k + 1..])
  {
    BagAt(t.kids, k);
    forall p
      ensures Bag(t.kids[k])[p] <= 1
      ensures p in Bag(t.kids[k]) ==> p != t.page && p !in BagAll(t.kids[..k]) && p !in BagAll(t.kids[k + 1..])
    {
      assert Bag(t)[p] <= 1;
    }
  }

  /** A change inside one subtree leaves its neighbours stored. */
  lemma OthersStored(t: Tree, k: nat, before: map<nat, Body>, after: map<nat, Body>)
    requires k < |t.kids| && Stored(t, before) && SameOn(before, after, Others(t, k))
    ensures StoredAll(t.kids[..k], after) && StoredAll(t.kids[k + 1..], after)
    ensures t.page in after && after[t.page] == BodyOf(t)
  {
    assert t.page in Others(t, k);
    SlicesStored(t.kids, k, before);
    StoredAllFrame(t.kids[..k], before, after);
    StoredAllFrame(t.kids[k + 1..], before, after);
  }

  lemma SlicesStored(kids: seq<Tree>, k: nat, pages: map<nat, Body>)
    requires k < |kids| && StoredAll(kids, pages)
    ensures StoredAll(kids[..k], pages) && StoredAll(kids[k + 1..], pages)
  {
    forall i | 0 <= i < |kids[..k]|
      ensures Stored(kids[..k][i], pages)
    {
      assert kids[..k][i] == kids[i];
    }
    var right := kids[k + 1..];
    forall i | 0 <= i < |right|
      ensures Stored(right[i], pages)
    {
      assert right[i] == kids[k + 1 + i];
    }
  }

  /** Only pages of the bag differ. */
  ghost predicate SameBut(before: map<nat, Body>, after: map<nat, Body>, bag: multiset<nat>) {
    forall p :: p in before && p !in bag ==> p in after && after[p] == before[p]
  }

  lemma {:induction false} GraftStored(t: Tree, path: seq<nat>, v: Tree, before: map<nat, Body>, after: map<nat, Body>)
    requires IsPath(t, path) && Stored(t, before) && Distinct(Bag(t))
    requires v.page == Sub(t, path).page && Stored(v, after)
    requires SameBut(before, after, Bag(Sub(t, path)))
    ensures Stored(Graft(t, path, v), after)
    decreases |path|
  {
    if path != [] {
      var k := path[0];
      GraftBag(t.kids[k], path[1..], v);
      DistinctParts(t, k);
      GraftStored(t.kids[k], path[1..], v, before, after);
      assert SameOn(before, after, Others(t, k));
      OthersStored(t, k, before, after);
      RejoinStored(t, k, Graft(t.kids[k], path[1..], v), after);
    }
  }

  /** A node with one child replaced is stored when its parts are. */
  lemma RejoinStored(t: Tree, k: nat, v: Tree, pages: map<nat, Body>)
    requires k < |t.kids| && v.page == t.kids[k].page && Stored(v, pages)
    requires t.page in pages && pages[t.page] == BodyOf(t)
    requires StoredAll(t.kids[..k], pages) && StoredAll(t.kids[k + 1..], pages)
    ensures Stored(t.(kids := t.kids[k := v]), pages)
  {
    var r := t.(kids := t.kids[k := v]);
    assert Pages(r.kids) == Pages(t.kids);
    forall i | 0 <= i < |r.kids|
      ensures Stored(r.kids[i], pages)
    {
      if i < k {
        assert r.kids[i] == t.kids[..k][i];
      } else if i > k {
        assert r.kids[i] == t.kids[k + 1..][i - k - 1];
      }
    }
  }

  lemma {:induction false} SubStored(t: Tree, path: seq<nat>, pages: map<nat, Body>)
    requires Stored(t, pages) && IsPath(t, path) && Distinct(Bag(t))
    ensures Stored(Sub(t, path), pages)
    ensures Sub(t, path).page !in BagAll(Sub(t, path).kids)
    decreases |path|
  {
    if path == [] {
      assert Bag(t)[t.page] <= 1;
    } else {
      DistinctParts(t, path[0]);
      SubStored(t.kids[path[0]], path[1..], pages);
    }
  }

  lemma SameBag(a: multiset<nat>, b: multiset<nat>, c: multiset<nat>)
    requires a + c == b + c
    ensures a == b
  {
    forall p
      ensures a[p] == b[p]
    {
      assert (a + c)[p] == (b + c)[p];
    }
  }

  /** One node's items rewritten in the store: the store unfolds to the tree with that node replaced. */
  lemma RewrittenNode(t: Tree, path: seq<nat>, v: Tree, pages: map<nat, Body>)
    requires Stored(t, pages) && Distinct(Bag(t)) && IsPath(t, path)
    requires v.page == Sub(t, path).page && v.kids == Sub(t, path).kids
    ensures Stored(Graft(t, path, v), pages[v.page := BodyOf(v)])
    ensures Bag(Graft(t, path, v)) == Bag(t) && Graft(t, path, v).page == t.page
  {
    var after := pages[v.page := BodyOf(v)];
    GraftBag(t, path, v);
    assert Bag(v) == Bag(Sub(t, path));
    SameBag(Bag(Graft(t, path, v)), Bag(t), Bag(v));
    SubStored(t, path, pages);
    assert SameOutside(pages, after, {v.page});
    KeptStored(v.kids, pages, after, {v.page});
    assert Stored(v, after);
    GraftStored(t, path, v, pages, after);
  }

  // ---------------------------------------------------------------- two neighbours

  /** Children i and i + 1 in their context. */
  lemma AtPair(t: Tree, i: nat)
    requires i < |t.items| && |t.kids| == |t.items| + 1
    ensures InOrder(t) == Before(t, i) + (InOrder(t.kids[i]) + [t.items[i]] + InOrder(t.kids[i + 1])) + After(t, i + 1)
  {
    AtChild(t, i);
    AfterAt(t, i);
    Nested(Before(t, i), InOrder(t.kids[i]), [t.items[i]], InOrder(t.kids[i + 1]), After(t, i + 1));
  }

  /** After child i come its separator and child i + 1. */
  lemma AfterAt(t: Tree, i: nat)
    requires i < |t.items| && |t.kids| == |t.items| + 1
    ensures After(t, i) == [t.items[i]] + (InOrder(t.kids[i + 1]) + After(t, i + 1))
  {
    var ks, xs := t.kids[i + 1..], t.items[i + 1..];
    assert ks[0] == t.kids[i + 1];
    if i + 1 < |t.items| {
      assert ks[1..] == t.kids[i + 2..] && xs[1..] == t.items[i + 2..] && xs[0] == t.items[i + 1];
    }
  }

  lemma BagPair(kids: seq<Tree>, i: nat)
    requires i + 1 < |kids|
    ensures BagAll(kids) == BagAll(kids[..i]) + Bag(kids[i]) + Bag(kids[i + 1]) + BagAll(kids[i + 2..])
  {
    BagAt(kids, i);
    assert kids[i + 1..][1..] == kids[i + 2..];
  }

  /** Rewriting a node and two neighbouring children leaves everything around and below them stored. */
  lemma PairKept(t: Tree, i: nat, before: map<nat, Body>, after: map<nat, Body>, touched: set<nat>)
    requires i + 1 < |t.kids| && Stored(t, before) && Distinct(Bag(t))
    requires touched == {t.page, t.kids[i].page, t.kids[i + 1].page} && SameOutside(before, after, touched)
    ensures StoredAll(t.kids[..i], after) && StoredAll(t.kids[i + 2..], after)
    ensures StoredAll(t.kids[i].kids, after) && StoredAll(t.kids[i + 1].kids, after)
    ensures t.page != t.kids[i].page && t.page != t.kids[i + 1].page && t.kids[i].page != t.kids[i + 1].page
  {
    PairApart(t, i, touched);
    SlicesStored(t.kids, i, before);
    SlicesStored(t.kids, i + 1, before);
    assert Stored(t.kids[i], before) && Stored(t.kids[i + 1], before);
    KeptStored(t.kids[..i], before, after, touched);
    KeptStored(t.kids[i + 2..], before, after, touched);
    KeptStored(t.kids[i].kids, before, after, touched);
    KeptStored(t.kids[i + 1].kids, before, after, touched);
  }

  lemma PairApart(t: Tree, i: nat, touched: set<nat>)
    requires i + 1 < |t.kids| && Distinct(Bag(t))
    requires touched == {t.page, t.kids[i].page, t.kids[i + 1].page}
    ensures forall p :: p in touched ==> p !in BagAll(t.kids[..i]) && p !in BagAll(t.kids[i + 2..])
    ensures forall p :: p in touched ==> p !in BagAll(t.kids[i].kids) && p !in BagAll(t.kids[i + 1].kids)
    ensures t.page != t.kids[i].page && t.page != t.kids[i + 1].page && t.kids[i].page != t.kids[i + 1].page
  {
    var a, b := t.kids[i], t.kids[i + 1];
    var l, r := BagAll(t.kids[..i]), BagAll(t.kids[i + 2..]);
    var x, y := BagAll(a.kids), BagAll(b.kids);
    assert Distinct(multiset{t.page} + multiset{a.page} + multiset{b.page} + (x + y + l + r)) by {
      BagPair(t.kids, i);
      Shuffle(multiset{t.page}, multiset{a.page}, multiset{b.page}, x, y, l, r);
    }
    ThreeApart(t.page, a.page, b.page, x, y, l, r);
  }

  lemma Shuffle(x: multiset<nat>, y: multiset<nat>, z: multiset<nat>,
                a: multiset<nat>, b: multiset<nat>, l: multiset<nat>, r: multiset<nat>)
    ensures x + (l + (y + a) + (z + b) + r) == x + y + z + (a + b + l + r)
  {
  }

  /** In a bag without repetition, three single pages differ and are in none of the other parts. */
  lemma ThreeApart(x: nat, y: nat, z: nat, a: multiset<nat>, b: multiset<nat>, l: multiset<nat>, r: multiset<nat>)
    requires Distinct(multiset{x} + multiset{y} + multiset{z} + (a + b + l + r))
    ensures x != y && x != z && y != z
    ensures forall p :: p in {x, y, z} ==> p !in a && p !in b
    ensures forall p :: p in {x, y, z} ==> p !in l && p !in r
  {
    var all := multiset{x} + multiset{y} + multiset{z} + (a + b + l + r);
    assert all[x] <= 1 && all[y] <= 1 && all[z] <= 1;
  }
}
