/**
 * Rotations, merges and the rebalancing loop of a removal, as changes of the tree (core/node.cpp,
 * core/collection.cpp).
 */
module Rebalancing {
  import opened KeyOrder
  import opened Trees
  import opened Sizing
  import opened Freelists
  import opened Store

  /** The subtree t of a larger tree whose other pages are `rest`. */
  ghost predicate InPlace(d: Db, t: Tree, h: nat, rest: multiset<nat>) {
    Stored(t, d.pages) && Balanced(t, h) && Safe(d.free, Bag(t) + rest)
  }

  // ---------------------------------------------------------------- rotation

  /** Children i and i + 1 and the item between them replaced. */
  function PairReplaced(t: Tree, i: nat, a: Tree, x: Item, b: Tree): Tree
    requires i < |t.items| && i + 1 < |t.kids|
  {
    Tree(t.page, t.items[i := x], t.kids[i := a][i + 1 := b])
  }

  /** Items and children only moved across the separator. */
  predicate Shifted(t: Tree, i: nat, a: Tree, x: Item, b: Tree)
    requires i < |t.items| && i + 1 < |t.kids|
  {
    && a.page == t.kids[i].page && b.page == t.kids[i + 1].page
    && a.items + [x] + b.items == t.kids[i].items + [t.items[i]] + t.kids[i + 1].items
    && a.kids + b.kids == t.kids[i].kids + t.kids[i + 1].kids
  }

  /** Moving items and children across a separator changes neither order nor shape nor pages. */
  lemma ShiftKeeps(t: Tree, h: nat, i: nat, a: Tree, x: Item, b: Tree)
    requires Balanced(t, h) && h > 0 && i < |t.items| && Shifted(t, i, a, x, b)
    requires Balanced(a, h - 1) && Balanced(b, h - 1)
    ensures var u := PairReplaced(t, i, a, x, b);
            InOrder(u) == InOrder(t) && Balanced(u, h) && Bag(u) == Bag(t)
  {
    ShiftInOrder(t, h, i, a, x, b);
    ShiftBag(t, i, a, x, b);
  }

  lemma ShiftInOrder(t: Tree, h: nat, i: nat, a: Tree, x: Item, b: Tree)
    requires Balanced(t, h) && h > 0 && i < |t.items| && Shifted(t, i, a, x, b)
    requires Balanced(a, h - 1) && Balanced(b, h - 1)
    ensures InOrder(PairReplaced(t, i, a, x, b)) == InOrder(t)
  {
    var u := PairReplaced(t, i, a, x, b);
    assert Balanced(t.kids[i], h - 1) && Balanced(t.kids[i + 1], h - 1);
    JoinInOrder(a.kids, a.items, x, b.kids, b.items);
    JoinInOrder(t.kids[i].kids, t.kids[i].items, t.items[i], t.kids[i + 1].kids, t.kids[i + 1].items);
    AtPair(t, i);
    AtPair(u, i);
    SamePairContext(t, u, i, i + 1, i + 1);
  }

  /** Trees that agree left of i and right of j (counted in each) have the same context there. */
  lemma SamePairContext(t: Tree, u: Tree, i: nat, j: nat, l: nat)
    requires i <= |t.items| && i <= |u.items| && i < |t.kids| && i < |u.kids| && j < |t.kids| && l < |u.kids|
    requires j <= |t.items| && l <= |u.items| && |t.items| - j == |u.items| - l
    requires u.kids[..i] == t.kids[..i] && u.items[..i] == t.items[..i]
    requires u.kids[l + 1..] == t.kids[j + 1..] && u.items[l..] == t.items[j..]
    ensures Before(u, i) == Before(t, i) && After(u, l) == After(t, j)
  {
    if j < |t.items| {
      assert u.items[l] == u.items[l..][0] && t.items[j] == t.items[j..][0];
      assert u.items[l + 1..] == u.items[l..][1..] && t.items[j + 1..] == t.items[j..][1..];
    }
  }

  lemma ShiftBag(t: Tree, i: nat, a: Tree, x: Item, b: Tree)
    requires i < |t.items| && i + 1 < |t.kids| && Shifted(t, i, a, x, b)
    ensures Bag(PairReplaced(t, i, a, x, b)) == Bag(t)
  {
    var u := PairReplaced(t, i, a, x, b);
    assert u.kids[..i] == t.kids[..i] && u.kids[i + 2..] == t.kids[i + 2..];
    SameTwoBags(a, b, t.kids[i], t.kids[i + 1]);
    BagPair(t.kids, i);
    BagPair(u.kids, i);
    Between(BagAll(t.kids[..i]), Bag(a), Bag(b), BagAll(t.kids[i + 2..]));
    Between(BagAll(t.kids[..i]), Bag(t.kids[i]), Bag(t.kids[i + 1]), BagAll(t.kids[i + 2..]));
  }

  lemma Between(l: multiset<nat>, a: multiset<nat>, b: multiset<nat>, r: multiset<nat>)
    ensures l + a + b + r == l + (a + b) + r
  {
  }

  lemma SameTwoBags(a: Tree, b: Tree, c: Tree, d: Tree)
    requires a.page == c.page && b.page == d.page && a.kids + b.kids == c.kids + d.kids
    ensures Bag(a) + Bag(b) == Bag(c) + Bag(d)
  {
    BagAppend(a.kids, b.kids);
    BagAppend(c.kids, d.kids);
    Interleave(multiset{a.page}, BagAll(a.kids), multiset{b.page}, BagAll(b.kids));
    Interleave(multiset{a.page}, BagAll(c.kids), multiset{b.page}, BagAll(d.kids));
  }

  lemma Interleave(x: multiset<nat>, a: multiset<nat>, y: multiset<nat>, b: multiset<nat>)
    ensures (x + a) + (y + b) == x + y + (a + b)
  {
  }

  lemma ShiftStored(t: Tree, i: nat, a: Tree, x: Item, b: Tree, before: map<nat, Body>, after: map<nat, Body>)
    requires i < |t.items| && i + 1 < |t.kids| && Shifted(t, i, a, x, b)
    requires Stored(t, before) && Distinct(Bag(t))
    requires SameOutside(before, after, {t.page, a.page, b.page})
    requires t.page in after && after[t.page] == BodyOf(PairReplaced(t, i, a, x, b))
    requires a.page in after && after[a.page] == BodyOf(a) && b.page in after && after[b.page] == BodyOf(b)
    ensures Stored(PairReplaced(t, i, a, x, b), after)
  {
    PairKept(t, i, before, after, {t.page, a.page, b.page});
    assert StoredAll(a.kids + b.kids, after);
    assert forall j :: 0 <= j < |a.kids| ==> a.kids[j] == (a.kids + b.kids)[j];
    assert forall j :: 0 <= j < |b.kids| ==> b.kids[j] == (a.kids + b.kids)[|a.kids| + j];
    assert Stored(a, after) && Stored(b, after);
    assert PairReplaced(t, i, a, x, b).kids == t.kids[..i] + [a, b] + t.kids[i + 2..];
  }

  function RightRotated(t: Tree, k: nat): Tree
    requires 0 < k <= |t.items| && k < |t.kids| && t.kids[k - 1].items != []
  {
    var a, b := t.kids[k - 1], t.kids[k];
    var n, m := |a.items| - 1, |a.kids| - 1;
    PairReplaced(t, k - 1,
                 Tree(a.page, a.items[..n], if a.kids == [] then [] else a.kids[..m]),
                 a.items[n],
                 Tree(b.page, [t.items[k - 1]] + b.items, if a.kids == [] then b.kids else [a.kids[m]] + b.kids))
  }

  function LeftRotated(t: Tree, k: nat): Tree
    requires k < |t.items| && k + 1 < |t.kids| && t.kids[k + 1].items != []
  {
    var a, b := t.kids[k], t.kids[k + 1];
    PairReplaced(t, k,
                 Tree(a.page, a.items + [t.items[k]], if b.kids == [] then a.kids else a.kids + [b.kids[0]]),
                 b.items[0],
                 Tree(b.page, b.items[1..], if b.kids == [] then [] else b.kids[1..]))
  }

  /** The tree after the rotation from the left sibling of child k, if there is one that can spare an item. */
  function LeftBorrowed(o: Limits, t: Tree, k: nat): Tree
    requires k < |t.kids| && k <= |t.items|
  {
    if k != 0 && CanSpare(o, t.kids[k - 1].items) then RightRotated(t, k) else t
  }

  function RightBorrowed(o: Limits, t: Tree, k: nat): Tree
    requires |t.kids| == |t.items| + 1
  {
    if k + 1 < |t.kids| && CanSpare(o, t.kids[k + 1].items) then LeftRotated(t, k) else t
  }

  lemma RightRotatedShift(t: Tree, h: nat, k: nat)
    requires Balanced(t, h) && h > 0 && 0 < k < |t.kids| && t.kids[k - 1].items != []
    ensures var u := RightRotated(t, k);
            && Shifted(t, k - 1, u.kids[k - 1], u.items[k - 1], u.kids[k])
            && u == PairReplaced(t, k - 1, u.kids[k - 1], u.items[k - 1], u.kids[k])
            && Balanced(u.kids[k - 1], h - 1) && Balanced(u.kids[k], h - 1)
  {
    var u, a, b := RightRotated(t, k), t.kids[k - 1], t.kids[k];
    assert Balanced(a, h - 1) && Balanced(b, h - 1);
    var l, r := u.kids[k - 1], u.kids[k];
    assert l.items + [u.items[k - 1]] + r.items == a.items + [t.items[k - 1]] + b.items by {
      HandOver(a.items, [t.items[k - 1]], b.items);
    }
    assert l.kids + r.kids == a.kids + b.kids by {
      if a.kids != [] {
        HandOver(a.kids, [], b.kids);
      }
    }
    if a.kids != [] {
      HandedBalanced(a.kids, b.kids, h - 2, l.kids, r.kids);
    }
  }

  /** Moving the last element of x, and what follows it, to the front of y. */
  lemma HandOver<T>(x: seq<T>, s: seq<T>, y: seq<T>)
    requires x != []
    ensures x[..|x| - 1] + [x[|x| - 1]] + (s + y) == x + s + y
    ensures x[..|x| - 1] + ([x[|x| - 1]] + y) == x + y
  {
  }

  /** Moving the first element of y to the end of x. */
  lemma HandBack<T>(x: seq<T>, s: seq<T>, y: seq<T>)
    requires y != []
    ensures (x + s) + [y[0]] + y[1..] == x + s + y
    ensures (x + [y[0]]) + y[1..] == x + y
  {
  }

  /** However two lists of subtrees are cut anew, all subtrees keep their height. */
  lemma HandedBalanced(a: seq<Tree>, b: seq<Tree>, h: nat, l: seq<Tree>, r: seq<Tree>)
    requires AllBalanced(a, h) && AllBalanced(b, h) && l + r == a + b
    ensures AllBalanced(l, h) && AllBalanced(r, h)
  {
    forall i | 0 <= i < |a + b|
      ensures Balanced((a + b)[i], h)
    {
      assert (a + b)[i] == if i < |a| then a[i] else b[i - |a|];
    }
    forall i | 0 <= i < |l|
      ensures Balanced(l[i], h)
    {
      assert l[i] == (a + b)[i];
    }
    forall i | 0 <= i < |r|
      ensures Balanced(r[i], h)
    {
      assert r[i] == (a + b)[|l| + i];
    }
  }

  lemma LeftRotatedShift(t: Tree, h: nat, k: nat)
    requires Balanced(t, h) && h > 0 && k + 1 < |t.kids| && t.kids[k + 1].items != []
    ensures var u := LeftRotated(t, k);
            && Shifted(t, k, u.kids[k], u.items[k], u.kids[k + 1])
            && u == PairReplaced(t, k, u.kids[k], u.items[k], u.kids[k + 1])
            && Balanced(u.kids[k], h - 1) && Balanced(u.kids[k + 1], h - 1)
  {
    var u, a, b := LeftRotated(t, k), t.kids[k], t.kids[k + 1];
    assert Balanced(a, h - 1) && Balanced(b, h - 1);
    HandBack(a.items, [t.items[k]], b.items);
    if b.kids != [] {
      HandBack(a.kids, [], b.kids);
      HandedBalanced(a.kids, b.kids, h - 2, u.kids[k].kids, u.kids[k + 1].kids);
    }
  }

  lemma RightRotatedBodies(t: Tree, k: nat)
    requires 0 < k <= |t.items| && k < |t.kids| && t.kids[k - 1].items != []
    ensures var u := RightRotated(t, k);
            RotateRight(BodyOf(t.kids[k - 1]), BodyOf(t), BodyOf(t.kids[k]), k)
            == (BodyOf(u.kids[k - 1]), BodyOf(u), BodyOf(u.kids[k]))
  {
    var u, a, b := RightRotated(t, k), t.kids[k - 1], t.kids[k];
    assert Pages(u.kids) == Pages(t.kids);
    assert a.kids == [] <==> Pages(a.kids) == [];
    if a.kids != [] {
      assert Pages(a.kids[..|a.kids| - 1]) == Pages(a.kids)[..|a.kids| - 1];
      PagesAppend([a.kids[|a.kids| - 1]], b.kids);
      assert Pages([a.kids[|a.kids| - 1]]) == [a.kids[|a.kids| - 1].page];
    }
  }

  lemma LeftRotatedBodies(t: Tree, k: nat)
    requires k < |t.items| && k + 1 < |t.kids| && t.kids[k + 1].items != []
    ensures var u := LeftRotated(t, k);
            RotateLeft(BodyOf(t.kids[k]), BodyOf(t), BodyOf(t.kids[k + 1]), k)
            == (BodyOf(u.kids[k]), BodyOf(u), BodyOf(u.kids[k + 1]))
  {
    var u, a, b := LeftRotated(t, k), t.kids[k], t.kids[k + 1];
    assert Pages(u.kids) == Pages(t.kids);
    assert b.kids == [] <==> Pages(b.kids) == [];
    if b.kids != [] {
      assert Pages(b.kids[1..]) == Pages(b.kids)[1..];
      PagesAppend(a.kids, [b.kids[0]]);
      assert Pages([b.kids[0]]) == [b.kids[0].page];
    }
  }

  /** u is t rearranged: same page, same children's pages, same order, shape and pages. */
  ghost predicate Rotated(d: Db, e: Db, t: Tree, u: Tree, h: nat, rest: multiset<nat>) {
    && InPlace(e, u, h, rest) && SameOn(d.pages, e.pages, rest) && e.free == d.free && e.lim == d.lim
    && u.page == t.page && Pages(u.kids) == Pages(t.kids) && InOrder(u) == InOrder(t) && Bag(u) == Bag(t)
  }

  /** The three pages a rotation writes do not belong to the rest of the tree. */
  lemma RestUntouched(f: Free, t: Tree, i: nat, rest: multiset<nat>)
    requires i < |t.kids| && Safe(f, Bag(t) + rest)
    ensures t.page !in rest && t.kids[i].page !in rest
  {
    BagAt(t.kids, i);
    forall p
      ensures Bag(t)[p] + rest[p] <= 1
    {
      assert (Bag(t) + rest + multiset(f.released))[p] <= 1;
    }
    assert Bag(t)[t.page] >= 1 && Bag(t)[t.kids[i].page] >= 1;
  }

  lemma RotationStep(d: Db, e: Db, t: Tree, h: nat, i: nat, u: Tree, rest: multiset<nat>)
    requires InPlace(d, t, h, rest) && h > 0 && i + 1 < |t.kids| == |u.kids| && |u.items| == |t.items|
    requires Shifted(t, i, u.kids[i], u.items[i], u.kids[i + 1])
             && u == PairReplaced(t, i, u.kids[i], u.items[i], u.kids[i + 1])
    requires Balanced(u.kids[i], h - 1) && Balanced(u.kids[i + 1], h - 1)
    requires SameOutside(d.pages, e.pages, {t.page, u.kids[i].page, u.kids[i + 1].page})
    requires t.page in e.pages && e.pages[t.page] == BodyOf(u)
    requires forall j :: i <= j <= i + 1 ==> u.kids[j].page in e.pages && e.pages[u.kids[j].page] == BodyOf(u.kids[j])
    requires e.free == d.free && e.lim == d.lim
    ensures Rotated(d, e, t, u, h, rest)
  {
    DistinctPart(d.free, Bag(t), rest);
    ShiftKeeps(t, h, i, u.kids[i], u.items[i], u.kids[i + 1]);
    ShiftStored(t, i, u.kids[i], u.items[i], u.kids[i + 1], d.pages, e.pages);
    RestUntouched(d.free, t, i, rest);
    RestUntouched(d.free, t, i + 1, rest);
    assert Pages(u.kids) == Pages(t.kids);
  }

  lemma DistinctPart(f: Free, bag: multiset<nat>, rest: multiset<nat>)
    requires Safe(f, bag + rest)
    ensures Distinct(bag)
  {
    forall p
      ensures bag[p] <= 1
    {
      assert (bag + rest + multiset(f.released))[p] <= 1;
    }
  }

  /** The store after three writes to different pages. */
  function ThreePut(m: map<nat, Body>, x: Copy, y: Copy, z: Copy): map<nat, Body> {
    m[x.page := x.body][y.page := y.body][z.page := z.body]
  }

  lemma ThreePutReads(m: map<nat, Body>, x: Copy, y: Copy, z: Copy)
    requires x.page != y.page && y.page != z.page && x.page != z.page
    ensures var r := ThreePut(m, x, y, z);
            && SameOutside(m, r, {x.page, y.page, z.page})
            && x.page in r && r[x.page] == x.body && y.page in r && r[y.page] == y.body
            && z.page in r && r[z.page] == z.body
  {
  }

  /** A rotation whose three nodes are the only writes. */
  lemma RotationWritten(d: Db, e: Db, t: Tree, h: nat, i: nat, u: Tree, rest: multiset<nat>)
    requires InPlace(d, t, h, rest) && h > 0 && i + 1 < |t.kids| == |u.kids| && |u.items| == |t.items|
    requires Shifted(t, i, u.kids[i], u.items[i], u.kids[i + 1])
    requires u == PairReplaced(t, i, u.kids[i], u.items[i], u.kids[i + 1])
    requires Balanced(u.kids[i], h - 1) && Balanced(u.kids[i + 1], h - 1)
    requires var a, b, p := CopyOf(u.kids[i]), CopyOf(u.kids[i + 1]), CopyOf(u);
             e.pages == ThreePut(d.pages, a, p, b)
    requires e.free == d.free && e.lim == d.lim
    ensures Rotated(d, e, t, u, h, rest)
  {
    var a, b := u.kids[i], u.kids[i + 1];
    DistinctPart(d.free, Bag(t), rest);
    PairApart(t, i, {t.page, a.page, b.page});
    ThreePutReads(d.pages, CopyOf(a), CopyOf(u), CopyOf(b));
    assert {a.page, u.page, b.page} == {t.page, a.page, b.page};
    RotationStep(d, e, t, h, i, u, rest);
  }

  lemma BorrowLeftWrites(d: Db, t: Tree, k: nat)
    requires 0 < k < |t.kids| && CanRebalance(d, BodyOf(t), t.kids[k].page, k)
    requires Stored(t.kids[k - 1], d.pages) && CanSpare(d.lim, t.kids[k - 1].items)
    ensures var (e, p, b) := BorrowLeft(d, CopyOf(t), CopyOf(t.kids[k]), k);
            var u := RightRotated(t, k);
            && p == CopyOf(u) && b == CopyOf(u.kids[k]) && e.free == d.free && e.lim == d.lim
            && e.pages == ThreePut(d.pages, CopyOf(u.kids[k - 1]), CopyOf(u), CopyOf(u.kids[k]))
  {
    RightRotatedBodies(t, k);
  }

  lemma BorrowLeftTree(d: Db, t: Tree, h: nat, k: nat, rest: multiset<nat>) returns (u: Tree)
    requires InPlace(d, t, h, rest) && h > 0 && k < |t.kids| && CanRebalance(d, BodyOf(t), t.kids[k].page, k)
    ensures |u.kids| == |t.kids| && u == LeftBorrowed(d.lim, t, k)
    ensures var (e, p, b) := BorrowLeft(d, CopyOf(t), CopyOf(t.kids[k]), k);
            Rotated(d, e, t, u, h, rest) && p == CopyOf(u) && b == CopyOf(u.kids[k])
  {
    u := LeftBorrowed(d.lim, t, k);
    assert k != 0 ==> Stored(t.kids[k - 1], d.pages);
    if k != 0 && CanSpare(d.lim, t.kids[k - 1].items) {
      RightRotatedShift(t, h, k);
      BorrowLeftWrites(d, t, k);
      RotationWritten(d, BorrowLeft(d, CopyOf(t), CopyOf(t.kids[k]), k).0, t, h, k - 1, u, rest);
    }
  }

  lemma BorrowRightWrites(d: Db, t: Tree, k: nat)
    requires k + 1 < |t.kids| && CanRebalance(d, BodyOf(t), t.kids[k].page, k)
    requires Stored(t.kids[k + 1], d.pages) && CanSpare(d.lim, t.kids[k + 1].items)
    ensures var (e, p, b) := BorrowRight(d, CopyOf(t), CopyOf(t.kids[k]), k);
            var u := LeftRotated(t, k);
            && p == CopyOf(u) && b == CopyOf(u.kids[k]) && e.free == d.free && e.lim == d.lim
            && e.pages == ThreePut(d.pages, CopyOf(u.kids[k]), CopyOf(u), CopyOf(u.kids[k + 1]))
  {
    LeftRotatedBodies(t, k);
  }

  lemma BorrowRightTree(d: Db, t: Tree, h: nat, k: nat, rest: multiset<nat>) returns (u: Tree)
    requires InPlace(d, t, h, rest) && h > 0 && k < |t.kids| && CanRebalance(d, BodyOf(t), t.kids[k].page, k)
    ensures |u.kids| == |t.kids| && u == RightBorrowed(d.lim, t, k)
    ensures var (e, p, b) := BorrowRight(d, CopyOf(t), CopyOf(t.kids[k]), k);
            Rotated(d, e, t, u, h, rest) && p == CopyOf(u) && b == CopyOf(u.kids[k])
  {
    u := RightBorrowed(d.lim, t, k);
    assert k + 1 < |t.kids| ==> Stored(t.kids[k + 1], d.pages);
    if k + 1 < |t.kids| && CanSpare(d.lim, t.kids[k + 1].items) {
      LeftRotatedShift(t, h, k);
      BorrowRightWrites(d, t, k);
      RotationWritten(d, BorrowRight(d, CopyOf(t), CopyOf(t.kids[k]), k).0, t, h, k, u, rest);
    }
  }

  // ---------------------------------------------------------------- merge

  function MergedTree(t: Tree, j: nat): Tree
    requires 0 < j <= |t.items| && j < |t.kids|
  {
    var a, b := t.kids[j - 1], t.kids[j];
    Tree(t.page, RemoveAt(t.items, j - 1),
         t.kids[..j - 1] + [Tree(a.page, a.items + [t.items[j - 1]] + b.items, a.kids + b.kids)] + t.kids[j + 1..])
  }

  /** A merge keeps the order and the shape, and gives up exactly one page. */
  lemma MergeKeeps(t: Tree, h: nat, j: nat)
    requires Balanced(t, h) && h > 0 && 0 < j < |t.kids|
    ensures var u := MergedTree(t, j);
            InOrder(u) == InOrder(t) && Balanced(u, h) && Bag(u) + multiset{t.kids[j].page} == Bag(t)
  {
    MergeInOrder(t, h, j);
    MergeBag(t, j);
    var u := MergedTree(t, j);
    assert Balanced(t.kids[j - 1], h - 1) && Balanced(t.kids[j], h - 1);
    assert Balanced(u.kids[j - 1], h - 1);
    forall i | 0 <= i < |u.kids|
      ensures Balanced(u.kids[i], h - 1)
    {
      if i > j - 1 {
        assert u.kids[i] == t.kids[i + 1];
      }
    }
  }

  lemma MergeInOrder(t: Tree, h: nat, j: nat)
    requires Balanced(t, h) && h > 0 && 0 < j < |t.kids|
    ensures InOrder(MergedTree(t, j)) == InOrder(t)
  {
    var u, i := MergedTree(t, j), j - 1;
    var a, b := t.kids[i], t.kids[j];
    assert Balanced(a, h - 1) && Balanced(b, h - 1);
    JoinInOrder(a.kids, a.items, t.items[i], b.kids, b.items);
    AtPair(t, i);
    AtChild(u, i);
    SamePairContext(t, u, i, j, i);
  }

  lemma MergeBag(t: Tree, j: nat)
    requires 0 < j <= |t.items| && j < |t.kids|
    ensures Bag(MergedTree(t, j)) + multiset{t.kids[j].page} == Bag(t)
  {
    var u, i := MergedTree(t, j), j - 1;
    assert u.kids[..i] == t.kids[..i] && u.kids[i + 1..] == t.kids[i + 2..];
    BagAppend(t.kids[i].kids, t.kids[j].kids);
    BagPair(t.kids, i);
    BagAt(u.kids, i);
  }

  lemma MergedBodies(t: Tree, j: nat)
    requires 0 < j <= |t.items| && j < |t.kids|
    requires t.kids[j - 1].kids == [] ==> t.kids[j].kids == []
    ensures var a, b, u := BodyOf(t.kids[j - 1]), BodyOf(t.kids[j]), MergedTree(t, j);
            && BodyOf(u) == Body(RemoveAt(t.items, j - 1), RemoveAt(Pages(t.kids), j))
            && BodyOf(u.kids[j - 1]) == Body(a.items + [t.items[j - 1]] + b.items,
                                             if a.children == [] then [] else a.children + b.children)
  {
    var a, b, u := t.kids[j - 1], t.kids[j], MergedTree(t, j);
    PagesAppend(a.kids, b.kids);
    assert a.kids == [] <==> Pages(a.kids) == [];
    assert Pages(u.kids) == RemoveAt(Pages(t.kids), j);
  }

  /**
   * A merge as the tree sees it: same order, one depth, and the page given up is exactly the one that is
   * released, so used and free pages together stay the same.
   */
  lemma MergeTree(d: Db, t: Tree, h: nat, j: nat, rest: multiset<nat>) returns (u: Tree)
    requires InPlace(d, t, h, rest) && h > 0 && 0 < j < |t.kids|
    ensures Pages(t.kids)[j - 1] in d.pages
    ensures var e := MergeStep(d, CopyOf(t), CopyOf(t.kids[j]), j);
            && InPlace(e, u, h, rest) && SameOn(d.pages, e.pages, rest) && u.page == t.page && InOrder(u) == InOrder(t)
            && |u.items| == |t.items| - 1 && |u.kids| == |t.kids| - 1
            && Bag(u) + multiset{t.kids[j].page} == Bag(t) && e.free == ReleasePage(d.free, t.kids[j].page)
            && u == MergedTree(t, j)
  {
    u := MergedTree(t, j);
    var page := t.kids[j].page;
    assert Stored(t.kids[j - 1], d.pages);
    assert Balanced(t.kids[j - 1], h - 1) && Balanced(t.kids[j], h - 1);
    MergeWritten(d, t, j);
    MergeKeeps(t, h, j);
    assert Distinct(Bag(t)) by {
      DistinctPart(d.free, Bag(t), rest);
    }
    MergeFrame(d, t, j, rest, MergeStep(d, CopyOf(t), CopyOf(t.kids[j]), j).pages);
    PageGivenUp(d.free, Bag(t), Bag(u), rest, page);
  }

  lemma PageGivenUp(f: Free, whole: multiset<nat>, bag: multiset<nat>, rest: multiset<nat>, page: nat)
    requires bag + multiset{page} == whole && Safe(f, whole + rest)
    ensures Safe(ReleasePage(f, page), bag + rest)
  {
    assert bag + rest + multiset{page} == whole + rest;
    ReleaseIsSafe(f, bag + rest, page);
  }

  lemma MergeWritten(d: Db, t: Tree, j: nat)
    requires 0 < j < |t.kids| && j <= |t.items| && Stored(t.kids[j - 1], d.pages)
    requires t.kids[j - 1].kids == [] ==> t.kids[j].kids == []
    ensures Pages(t.kids)[j - 1] in d.pages
    ensures var e, u := MergeStep(d, CopyOf(t), CopyOf(t.kids[j]), j), MergedTree(t, j);
            && e.pages == d.pages[t.kids[j - 1].page := BodyOf(u.kids[j - 1])][t.page := BodyOf(u)]
            && e.free == ReleasePage(d.free, t.kids[j].page) && e.lim == d.lim
  {
    MergedBodies(t, j);
  }

  lemma MergeFrame(d: Db, t: Tree, j: nat, rest: multiset<nat>, after: map<nat, Body>)
    requires 0 < j <= |t.items| && j < |t.kids| && Stored(t, d.pages) && Safe(d.free, Bag(t) + rest) && Distinct(Bag(t))
    requires var u := MergedTree(t, j);
             after == d.pages[t.kids[j - 1].page := BodyOf(u.kids[j - 1])][t.page := BodyOf(u)]
    ensures Stored(MergedTree(t, j), after) && SameOn(d.pages, after, rest)
  {
    RestUntouched(d.free, t, j - 1, rest);
    PairApart(t, j - 1, {t.page, t.kids[j - 1].page, t.kids[j].page});
    MergedStored(t, j, d.pages, after);
  }

  lemma MergedStored(t: Tree, j: nat, before: map<nat, Body>, after: map<nat, Body>)
    requires 0 < j <= |t.items| && j < |t.kids| && Stored(t, before) && Distinct(Bag(t))
    requires var u := MergedTree(t, j);
             && SameOutside(before, after, {t.page, t.kids[j - 1].page, t.kids[j].page})
             && t.page in after && u.kids[j - 1].page in after
             && after[u.kids[j - 1].page] == BodyOf(u.kids[j - 1])
             && after[t.page] == BodyOf(u)
    ensures Stored(MergedTree(t, j), after)
  {
    var u, a, b := MergedTree(t, j), t.kids[j - 1], t.kids[j];
    PairKept(t, j - 1, before, after, {t.page, a.page, b.page});
    var m := u.kids[j - 1];
    assert StoredAll(m.kids, after) by {
      forall i | 0 <= i < |m.kids|
        ensures Stored(m.kids[i], after)
      {
        assert m.kids[i] == if i < |a.kids| then a.kids[i] else b.kids[i - |a.kids|];
      }
    }
    assert Stored(m, after);
    assert u.kids == t.kids[..j - 1] + [u.kids[j - 1]] + t.kids[j + 1..];
  }

  // ---------------------------------------------------------------- one step

  /** u is what a step or the loop makes of t: same order and shape, and no page gained or lost. */
  ghost predicate RebalancedTo(d: Db, e: Db, t: Tree, u: Tree, h: nat, rest: multiset<nat>) {
    && InPlace(e, u, h, rest) && SameOn(d.pages, e.pages, rest) && u.page == t.page && InOrder(u) == InOrder(t)
    && e.free.maxPage == d.free.maxPage
    && Bag(u) + multiset(e.free.released) == Bag(t) + multiset(d.free.released)
  }

  /** The tree after one rebalancing step. */
  function StepTree(o: Limits, t: Tree, k: nat): Tree
    requires |t.kids| == |t.items| + 1 && 2 <= |t.kids| && k < |t.kids|
  {
    MergedTree(RightBorrowed(o, LeftBorrowed(o, t, k), k), if k == 0 then 1 else k)
  }

  /** The step from what the store holds. */
  lemma FreshStepTree(d: Db, t: Tree, h: nat, k: nat, rest: multiset<nat>) returns (u: Tree)
    requires InPlace(d, t, h, rest) && h > 0 && k < |t.kids| && 2 <= |t.kids|
    requires CanRebalance(d, BodyOf(t), t.kids[k].page, k)
    ensures RebalancedTo(d, RebalanceStep(d, CopyOf(t), CopyOf(t.kids[k]), k), t, u, h, rest)
    ensures |u.items| == |t.items| - 1 && |u.kids| == |t.kids| - 1 && u == StepTree(d.lim, t, k)
  {
    var v := BorrowLeftTree(d, t, h, k, rest);
    var (d1, p1, u1) := BorrowLeft(d, CopyOf(t), CopyOf(t.kids[k]), k);
    var w := BorrowRightTree(d1, v, h, k, rest);
    var (e, p2, u2) := BorrowRight(d1, p1, u1, k);
    u := MergeAfterRotations(d, e, t, w, h, k, rest);
  }

  /**
   * One rebalancing step, from a copy ub of child k: whatever combination of rotations precedes the merge, the
   * step keeps order, shape and pages. The copy must be what the store holds, except that for the first child
   * it is not used at all when the second child can spare nothing.
   */
  lemma RebalanceTree(d: Db, t: Tree, h: nat, k: nat, ub: Body, rest: multiset<nat>) returns (u: Tree)
    requires InPlace(d, t, h, rest) && h > 0 && k < |t.kids| && 2 <= |t.kids|
    requires ub == BodyOf(t.kids[k]) || (k == 0 && !CanSpare(d.lim, t.kids[1].items))
    ensures CanRebalance(d, BodyOf(t), t.kids[k].page, k)
    ensures var e := RebalanceStep(d, CopyOf(t), Copy(t.kids[k].page, ub), k);
            && RebalancedTo(d, e, t, u, h, rest)
            && |u.items| == |t.items| - 1 && |u.kids| == |t.kids| - 1
            && u == StepTree(d.lim, t, k)
  {
    KidsReadable(d, t, k);
    if ub == BodyOf(t.kids[k]) {
      u := FreshStepTree(d, t, h, k, rest);
    } else {
      assert Stored(t.kids[1], d.pages);
      u := MergeTree(d, t, h, 1, rest);
      BagsMeet(d, t, u, t.kids[1].page);
    }
  }

  /** The merge that follows the rotations, whatever they were. */
  lemma MergeAfterRotations(d: Db, e: Db, t: Tree, w: Tree, h: nat, k: nat, rest: multiset<nat>) returns (u: Tree)
    requires Rotated(d, e, t, w, h, rest) && h > 0 && k < |w.kids| && 2 <= |w.kids| && |w.kids| == |t.kids|
    ensures Pages(w.kids)[if k == 0 then 1 else k] in e.pages && Pages(w.kids)[if k == 0 then 0 else k - 1] in e.pages
    ensures var f := if k == 0 then MergeStep(e, CopyOf(w), Copy(Pages(w.kids)[1], e.pages[Pages(w.kids)[1]]), 1)
                     else MergeStep(e, CopyOf(w), CopyOf(w.kids[k]), k);
            RebalancedTo(d, f, t, u, h, rest) && |u.items| == |w.items| - 1 && |u.kids| == |w.kids| - 1
    ensures u == MergedTree(w, if k == 0 then 1 else k)
  {
    var j := if k == 0 then 1 else k;
    assert Stored(w.kids[j], e.pages);
    u := MergeTree(e, w, h, j, rest);
    BagsMeet(d, t, u, w.kids[j].page);
  }

  lemma BagsMeet(d: Db, t: Tree, u: Tree, page: nat)
    requires Bag(u) + multiset{page} == Bag(t)
    ensures Bag(u) + multiset(ReleasePage(d.free, page).released) == Bag(t) + multiset(d.free.released)
  {
    assert Bag(u) + multiset{page} + multiset(d.free.released) == Bag(u) + multiset(d.free.released + [page]);
  }

  lemma KidsReadable(d: Db, t: Tree, k: nat)
    requires Stored(t, d.pages) && |t.kids| == |t.items| + 1 && k < |t.kids| && 2 <= |t.kids|
    ensures CanRebalance(d, BodyOf(t), t.kids[k].page, k)
  {
    forall i | 0 <= i < |t.kids|
      ensures Pages(t.kids)[i] in d.pages
    {
      assert Stored(t.kids[i], d.pages);
    }
  }

  // ---------------------------------------------------------------- the loop

  predicate ChildUnder(o: Limits, t: Tree, path: seq<nat>)
    requires IsPath(t, path)
  {
    path != [] && Under(o, t.kids[path[0]].items)
  }

  /** Rebalancing the first child reads the second one: an under-populated child must have a sibling. */
  predicate SiblingsExist(o: Limits, t: Tree, path: seq<nat>)
    requires IsPath(t, path)
    decreases |path|
  {
    path == [] || ((ChildUnder(o, t, path) ==> 2 <= |t.kids|) && SiblingsExist(o, t.kids[path[0]], path[1..]))
  }

  /** The child is rebalanced from a copy that the iteration before has made stale, and the copy is used. */
  predicate StaleStep(o: Limits, t: Tree, path: seq<nat>)
    requires IsPath(t, path)
  {
    && ChildUnder(o, t, path) && ChildUnder(o, t.kids[path[0]], path[1..])
    && !(path[0] == 0 && 2 <= |t.kids| && !CanSpare(o, t.kids[1].items))
  }

  /** Somewhere on the path a stale copy is used. */
  predicate Clash(o: Limits, t: Tree, path: seq<nat>)
    requires IsPath(t, path)
    decreases |path|
  {
    path != [] && (StaleStep(o, t, path) || Clash(o, t.kids[path[0]], path[1..]))
  }

  /** The tree t whose child k has become v, after the step that depends on what the child was before. */
  function LoopLevel(o: Limits, t: Tree, k: nat, v: Tree): Tree
    requires k < |t.kids|
  {
    var w := t.(kids := t.kids[k := v]);
    if Under(o, t.kids[k].items) && 2 <= |t.kids| == |t.items| + 1 then StepTree(o, w, k) else w
  }

  /** The tree after the loop, when no stale copy is used. */
  function LoopTree(o: Limits, t: Tree, path: seq<nat>): Tree
    requires IsPath(t, path)
    decreases |path|
  {
    if path == [] then t else LoopLevel(o, t, path[0], LoopTree(o, t.kids[path[0]], path[1..]))
  }

  /** Without a stale copy in use, the whole loop keeps the order and shape, and no page is gained or lost. */
  lemma {:induction false} RebalanceUpTree(db: Db, t: Tree, h: nat, path: seq<nat>, rest: multiset<nat>)
    returns (u: Tree)
    requires InPlace(db, t, h, rest) && IsPath(t, path)
    requires SiblingsExist(db.lim, t, path) && !Clash(db.lim, t, path)
    ensures CanRebalanceUp(db, Along(t, path), path)
    ensures var d := RebalanceUp(db, Along(t, path), path);
            RebalancedTo(db, d, t, u, h, rest) && (!ChildUnder(db.lim, t, path) ==> BodyOf(u) == BodyOf(t))
    ensures u == LoopTree(db.lim, t, path)
    decreases |path|
  {
    if path == [] {
      u := t;
    } else {
      var k, q := path[0], path[1..];
      var kid := t.kids[k];
      KidInPlace(db, t, h, k, rest);
      var v := RebalanceUpTree(db, kid, h - 1, q, rest + Others(t, k));
      u := LevelRebalanced(db, RebalanceUp(db, Along(kid, q), q), t, h, path, v, rest);
      LoopAt(db, t, path);
    }
  }

  /** The loop on a subtree: the loop inside the child on the path, and then possibly one step. */
  lemma LoopAt(db: Db, t: Tree, path: seq<nat>)
    requires IsPath(t, path) && path != []
    requires CanRebalanceUp(db, Along(t.kids[path[0]], path[1..]), path[1..])
    requires Under(db.lim, t.kids[path[0]].items) ==>
               CanRebalance(RebalanceUp(db, Along(t.kids[path[0]], path[1..]), path[1..]), BodyOf(t),
                            t.kids[path[0]].page, path[0])
    ensures CanRebalanceUp(db, Along(t, path), path)
    ensures var kid := t.kids[path[0]];
            var d := RebalanceUp(db, Along(kid, path[1..]), path[1..]);
            RebalanceUp(db, Along(t, path), path)
            == if Under(db.lim, kid.items) then RebalanceStep(d, CopyOf(t), CopyOf(kid), path[0]) else d
  {
    var kid := t.kids[path[0]];
    assert Along(t, path)[1..] == Along(kid, path[1..]) && Along(kid, path[1..])[0] == CopyOf(kid);
  }

  /** The step at t, after the loop inside the child on the path. */
  lemma LevelRebalanced(db: Db, d: Db, t: Tree, h: nat, path: seq<nat>, v: Tree, rest: multiset<nat>) returns (u: Tree)
    requires InPlace(db, t, h, rest) && h > 0 && IsPath(t, path) && path != []
    requires SiblingsExist(db.lim, t, path) && !Clash(db.lim, t, path) && d.lim == db.lim
    requires RebalancedTo(db, d, t.kids[path[0]], v, h - 1, rest + Others(t, path[0]))
    requires !ChildUnder(db.lim, t.kids[path[0]], path[1..]) ==> BodyOf(v) == BodyOf(t.kids[path[0]])
    ensures var kid := t.kids[path[0]];
            if Under(db.lim, kid.items) then
              && CanRebalance(d, BodyOf(t), kid.page, path[0])
              && RebalancedTo(db, RebalanceStep(d, CopyOf(t), CopyOf(kid), path[0]), t, u, h, rest)
            else RebalancedTo(db, d, t, u, h, rest) && BodyOf(u) == BodyOf(t)
    ensures u == LoopLevel(db.lim, t, path[0], v)
  {
    var k := path[0];
    var w := KidRebalanced(db, d, t, h, k, v, rest);
    if Under(db.lim, t.kids[k].items) {
      CopyIsRight(db.lim, t, path);
      assert t.kids[path[0]].page == w.kids[k].page;
      u := RebalanceTree(d, w, h, k, BodyOf(t.kids[k]), rest);
      RebalancedTwice(db, d, RebalanceStep(d, CopyOf(t), CopyOf(t.kids[k]), k), t, w, u, h, rest);
    } else {
      u := w;
    }
  }

  /** Without a clash the copy from before the loop is as it should be, or is not used. */
  lemma CopyIsRight(o: Limits, t: Tree, path: seq<nat>)
    requires IsPath(t, path) && SiblingsExist(o, t, path) && !Clash(o, t, path) && ChildUnder(o, t, path)
    ensures 2 <= |t.kids|
    ensures ChildUnder(o, t.kids[path[0]], path[1..]) ==> path[0] == 0 && !CanSpare(o, t.kids[1].items)
  {
  }

  lemma RebalancedTwice(d: Db, e: Db, f: Db, t: Tree, w: Tree, u: Tree, h: nat, rest: multiset<nat>)
    requires RebalancedTo(d, e, t, w, h, rest) && RebalancedTo(e, f, w, u, h, rest)
    ensures RebalancedTo(d, f, t, u, h, rest)
  {
  }

  lemma KidInPlace(db: Db, t: Tree, h: nat, k: nat, rest: multiset<nat>)
    requires InPlace(db, t, h, rest) && h > 0 && k < |t.kids|
    ensures InPlace(db, t.kids[k], h - 1, rest + Others(t, k))
  {
    assert Stored(t.kids[k], db.pages) && Balanced(t.kids[k], h - 1);
    BagAround(t, k);
    assert Bag(t.kids[k]) + (rest + Others(t, k)) == Others(t, k) + Bag(t.kids[k]) + rest;
  }

  lemma KidRebalanced(db: Db, d: Db, t: Tree, h: nat, k: nat, v: Tree, rest: multiset<nat>) returns (w: Tree)
    requires InPlace(db, t, h, rest) && h > 0 && k < |t.kids|
    requires RebalancedTo(db, d, t.kids[k], v, h - 1, rest + Others(t, k))
    ensures w == t.(kids := t.kids[k := v]) && CopyOf(w) == CopyOf(t)
    ensures RebalancedTo(db, d, t, w, h, rest)
  {
    w := t.(kids := t.kids[k := v]);
    assert Pages(w.kids) == Pages(t.kids);
    SameOnParts(db.pages, d.pages, rest, Others(t, k));
    OthersStored(t, k, db.pages, d.pages);
    RejoinStored(t, k, v, d.pages);
    AtChild(t, k);
    ReplaceChild(t, k, v);
    KidBags(t, k, v, w, multiset(db.free.released), multiset(d.free.released), rest);
  }

  lemma KidBags(t: Tree, k: nat, v: Tree, w: Tree, r: multiset<nat>, s: multiset<nat>, rest: multiset<nat>)
    requires k < |t.kids| && w == t.(kids := t.kids[k := v])
    requires Bag(v) + s == Bag(t.kids[k]) + r
    ensures Bag(w) + s == Bag(t) + r && Bag(w) + rest == Bag(v) + (rest + Others(t, k))
  {
    BagAround(t, k);
    BagAround(w, k);
    assert w.kids[..k] == t.kids[..k] && w.kids[k + 1..] == t.kids[k + 1..];
    Regroup(Others(t, k), Bag(v), s, rest);
    Regroup(Others(t, k), Bag(t.kids[k]), r, rest);
  }

  lemma BagAround(t: Tree, k: nat)
    requires k < |t.kids|
    ensures Bag(t) == Others(t, k) + Bag(t.kids[k])
  {
    BagAt(t.kids, k);
  }

  lemma Regroup(o: multiset<nat>, v: multiset<nat>, s: multiset<nat>, rest: multiset<nat>)
    ensures o + v + s == o + (v + s) && o + v + rest == v + (rest + o)
  {
  }
}
