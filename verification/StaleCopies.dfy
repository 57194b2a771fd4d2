/**
 * The rebalancing loop in every case, stale copies included: what it needs to run at all, which pages it can
 * reach, and what a stale copy does to the store.
 */
module StaleCopies {
  import opened KeyOrder
  import opened Trees
  import opened Sizing
  import opened Freelists
  import opened Store
  import opened Rebalancing

  predicate Within(children: seq<nat>, bag: multiset<nat>) {
    forall i :: 0 <= i < |children| ==> children[i] in bag
  }

  /** The pages of the bag are stored, and their children are pages of the bag. */
  ghost predicate Closed(pages: map<nat, Body>, bag: multiset<nat>) {
    forall p :: p in bag ==> p in pages && Within(pages[p].children, bag)
  }

  function Touched(p: Copy): set<nat> {
    {p.page} + set x | x in p.body.children
  }

  lemma ClosedWrite(pages: map<nat, Body>, c: Copy, bag: multiset<nat>)
    requires Closed(pages, bag) && (c.page in bag ==> Within(c.body.children, bag))
    ensures Closed(pages[c.page := c.body], bag)
  {
  }

  /** Rotations only hand children over. */
  lemma RotationWithin(d: map<nat, Body>, a: Copy, p: Copy, b: Copy, bag: multiset<nat>)
    requires Closed(d, bag) && p.page !in bag && Within(a.body.children, bag) && Within(b.body.children, bag)
    ensures Closed(d[a.page := a.body][p.page := p.body][b.page := b.body], bag)
  {
    ClosedWrite(d, a, bag);
    ClosedWrite(d[a.page := a.body], p, bag);
    ClosedWrite(d[a.page := a.body][p.page := p.body], b, bag);
  }

  lemma BorrowLeftClosed(d: Db, p: Copy, u: Copy, k: nat, bag: multiset<nat>)
    requires CanRebalance(d, p.body, u.page, k) && Closed(d.pages, bag) && p.page !in bag
    requires Within(p.body.children, bag) && Within(u.body.children, bag)
    ensures var (e, q, v) := BorrowLeft(d, p, u, k);
            Closed(e.pages, bag) && Within(v.body.children, bag) && SameOutside(d.pages, e.pages, Touched(p))
  {
    if k != 0 && CanSpare(d.lim, d.pages[p.body.children[k - 1]].items) {
      var a := p.body.children[k - 1];
      var (a', p', u') := RotateRight(d.pages[a], p.body, u.body, k);
      assert a in bag && Within(d.pages[a].children, bag);
      RotationWithin(d.pages, Copy(a, a'), Copy(p.page, p'), Copy(u.page, u'), bag);
    }
  }

  lemma BorrowRightClosed(d: Db, p: Copy, u: Copy, k: nat, bag: multiset<nat>)
    requires CanRebalance(d, p.body, u.page, k) && Closed(d.pages, bag) && p.page !in bag
    requires Within(p.body.children, bag) && Within(u.body.children, bag)
    ensures var (e, q, v) := BorrowRight(d, p, u, k);
            Closed(e.pages, bag) && Within(v.body.children, bag) && SameOutside(d.pages, e.pages, Touched(p))
  {
    if k != |p.body.children| - 1 && CanSpare(d.lim, d.pages[p.body.children[k + 1]].items) {
      var c := p.body.children[k + 1];
      var (u', p', c') := RotateLeft(u.body, p.body, d.pages[c], k);
      assert c in bag && Within(d.pages[c].children, bag);
      RotationWithin(d.pages, Copy(u.page, u'), Copy(p.page, p'), Copy(c, c'), bag);
    }
  }

  lemma MergeClosed(d: Db, p: Copy, b: Copy, j: nat, bag: multiset<nat>)
    requires 0 < j < |p.body.children| && j <= |p.body.items| && p.body.children[j - 1] in d.pages
    requires Closed(d.pages, bag) && p.page !in bag
    requires Within(p.body.children, bag) && Within(b.body.children, bag)
    ensures var e := MergeStep(d, p, b, j);
            && Closed(e.pages, bag) && SameOutside(d.pages, e.pages, Touched(p))
            && p.page in e.pages && e.pages[p.page].children == RemoveAt(p.body.children, j)
  {
  }

  /** One step only rewrites the parent and its children, and their new children are pages below the parent. */
  lemma StepClosed(d: Db, p: Copy, u: Copy, k: nat, bag: multiset<nat>)
    requires CanRebalance(d, p.body, u.page, k) && Closed(d.pages, bag) && p.page !in bag
    requires Within(p.body.children, bag) && Within(u.body.children, bag)
    ensures var e := RebalanceStep(d, p, u, k);
            && Closed(e.pages, bag) && SameOutside(d.pages, e.pages, Touched(p))
            && p.page in e.pages && forall x :: x in e.pages[p.page].children ==> x in p.body.children
  {
    BorrowLeftClosed(d, p, u, k, bag);
    var (d1, p1, u1) := BorrowLeft(d, p, u, k);
    BorrowRightClosed(d1, p1, u1, k, bag);
    var (e, p2, u2) := BorrowRight(d1, p1, u1, k);
    if k == 0 {
      MergeClosed(e, p2, Copy(p.body.children[1], e.pages[p.body.children[1]]), 1, bag);
    } else {
      MergeClosed(e, p2, u2, k, bag);
    }
  }

  lemma {:induction false} StoredClosed(t: Tree, pages: map<nat, Body>)
    requires Stored(t, pages)
    ensures Closed(pages, Bag(t))
    ensures Closed(pages, BagAll(t.kids)) && Within(Pages(t.kids), BagAll(t.kids))
    decreases t, 1
  {
    StoredAllClosed(t.kids, pages);
  }

  lemma {:induction false} StoredAllClosed(kids: seq<Tree>, pages: map<nat, Body>)
    requires StoredAll(kids, pages)
    ensures Closed(pages, BagAll(kids)) && Within(Pages(kids), BagAll(kids))
    decreases kids, 0
  {
    if kids != [] {
      assert Stored(kids[0], pages);
      StoredClosed(kids[0], pages);
      StoredRest(kids, pages);
      StoredAllClosed(kids[1..], pages);
      PagesWithin(kids);
    }
  }

  lemma PagesWithin(kids: seq<Tree>)
    requires kids != [] && Within(Pages(kids[1..]), BagAll(kids[1..]))
    ensures Within(Pages(kids), BagAll(kids))
  {
    assert kids[0].page in Bag(kids[0]);
    assert Pages(kids) == [kids[0].page] + Pages(kids[1..]);
  }

  /** What is known after the loop in every case. */
  ghost predicate Reworked(db: Db, d: Db, t: Tree, path: seq<nat>, rest: multiset<nat>)
    requires IsPath(t, path)
  {
    && SameOn(db.pages, d.pages, rest) && t.page in d.pages
    && (!ChildUnder(db.lim, t, path) ==> d.pages[t.page] == BodyOf(t))
    && (forall x :: x in d.pages[t.page].children ==> x in Pages(t.kids))
    && Closed(d.pages, BagAll(t.kids))
    && (forall q :: q in db.free.released ==> q in d.free.released)
  }

  /** The loop finds everything it reads, and stays within the pages of the tree. */
  lemma {:induction false} LoopIsDefined(db: Db, t: Tree, h: nat, path: seq<nat>, rest: multiset<nat>)
    requires InPlace(db, t, h, rest) && IsPath(t, path) && SiblingsExist(db.lim, t, path)
    ensures CanRebalanceUp(db, Along(t, path), path)
    ensures Reworked(db, RebalanceUp(db, Along(t, path), path), t, path, rest)
    decreases |path|
  {
    if path == [] {
      StoredClosed(t, db.pages);
    } else {
      var k, q := path[0], path[1..];
      var kid := t.kids[k];
      KidInPlace(db, t, h, k, rest);
      LoopIsDefined(db, kid, h - 1, q, rest + Others(t, k));
      LevelReworked(db, RebalanceUp(db, Along(kid, q), q), t, h, path, rest);
      LoopAt(db, t, path);
    }
  }

  /** The step at t, after the loop inside the child on the path. */
  lemma LevelReworked(db: Db, d: Db, t: Tree, h: nat, path: seq<nat>, rest: multiset<nat>)
    requires InPlace(db, t, h, rest) && h > 0 && IsPath(t, path) && path != [] && SiblingsExist(db.lim, t, path)
    requires Reworked(db, d, t.kids[path[0]], path[1..], rest + Others(t, path[0])) && d.lim == db.lim
    ensures var kid := t.kids[path[0]];
            if Under(db.lim, kid.items) then
              && CanRebalance(d, BodyOf(t), kid.page, path[0])
              && Reworked(db, RebalanceStep(d, CopyOf(t), CopyOf(kid), path[0]), t, path, rest)
            else Reworked(db, d, t, path, rest)
  {
    var k := path[0];
    var kid := t.kids[k];
    KidReworked(db, d, t, h, k, path[1..], rest);
    if Under(db.lim, kid.items) {
      NotBelow(db.free, t, rest);
      StepClosed(d, CopyOf(t), CopyOf(kid), k, BagAll(t.kids));
      TouchedOutside(db.free, t, rest);
    }
  }

  lemma ClosedUnion(pages: map<nat, Body>, a: multiset<nat>, b: multiset<nat>)
    requires Closed(pages, a) && Closed(pages, b)
    ensures Closed(pages, a + b)
  {
  }

  lemma ClosedAdd(pages: map<nat, Body>, p: nat, bag: multiset<nat>)
    requires Closed(pages, bag) && p in pages && Within(pages[p].children, bag)
    ensures Closed(pages, multiset{p} + bag)
  {
  }

  /** After the loop inside child k, everything below t is still in place for the step at t. */
  lemma KidReworked(db: Db, d: Db, t: Tree, h: nat, k: nat, q: seq<nat>, rest: multiset<nat>)
    requires InPlace(db, t, h, rest) && h > 0 && k < |t.kids| && IsPath(t.kids[k], q)
    requires Reworked(db, d, t.kids[k], q, rest + Others(t, k))
    ensures Closed(d.pages, BagAll(t.kids)) && Within(Pages(t.kids), BagAll(t.kids))
    ensures Within(Pages(t.kids[k].kids), BagAll(t.kids))
    ensures t.page in d.pages && d.pages[t.page] == BodyOf(t) && SameOn(db.pages, d.pages, rest)
    ensures StoredAll(t.kids[..k], d.pages) && StoredAll(t.kids[k + 1..], d.pages)
    ensures 2 <= |t.kids| ==> CanRebalance(d, BodyOf(t), t.kids[k].page, k)
  {
    var kid := t.kids[k];
    assert Stored(kid, db.pages);
    StoredClosed(kid, db.pages);
    SiblingsReworked(db, d, t, k, rest);
    KidsClosed(d.pages, t, k);
    StoredAllClosed(t.kids, db.pages);
    WithinMore(Pages(kid.kids), BagAll(kid.kids), BagAll(t.kids), t, k);
  }

  lemma SiblingsReworked(db: Db, d: Db, t: Tree, k: nat, rest: multiset<nat>)
    requires k < |t.kids| && Stored(t, db.pages) && SameOn(db.pages, d.pages, rest + Others(t, k))
    ensures t.page in d.pages && d.pages[t.page] == BodyOf(t) && SameOn(db.pages, d.pages, rest)
    ensures StoredAll(t.kids[..k], d.pages) && StoredAll(t.kids[k + 1..], d.pages)
  {
    SameOnParts(db.pages, d.pages, rest, Others(t, k));
    OthersStored(t, k, db.pages, d.pages);
  }

  lemma WithinMore(children: seq<nat>, bag: multiset<nat>, more: multiset<nat>, t: Tree, k: nat)
    requires k < |t.kids| && bag == BagAll(t.kids[k].kids) && more == BagAll(t.kids) && Within(children, bag)
    ensures Within(children, more)
  {
    BagAt(t.kids, k);
  }

  lemma KidsClosed(pages: map<nat, Body>, t: Tree, k: nat)
    requires k < |t.kids| && StoredAll(t.kids[..k], pages) && StoredAll(t.kids[k + 1..], pages)
    requires Closed(pages, BagAll(t.kids[k].kids)) && Within(Pages(t.kids[k].kids), BagAll(t.kids[k].kids))
    requires t.kids[k].page in pages
    requires forall x :: x in pages[t.kids[k].page].children ==> x in Pages(t.kids[k].kids)
    ensures Closed(pages, BagAll(t.kids))
  {
    var kid := t.kids[k];
    forall i | 0 <= i < |pages[kid.page].children|
      ensures pages[kid.page].children[i] in BagAll(kid.kids)
    {
      assert pages[kid.page].children[i] in Pages(kid.kids);
      var j :| 0 <= j < |Pages(kid.kids)| && Pages(kid.kids)[j] == pages[kid.page].children[i];
    }
    StoredAllClosed(t.kids[..k], pages);
    StoredAllClosed(t.kids[k + 1..], pages);
    ClosedAdd(pages, kid.page, BagAll(kid.kids));
    ClosedUnion(pages, BagAll(t.kids[..k]), Bag(kid));
    ClosedUnion(pages, BagAll(t.kids[..k]) + Bag(kid), BagAll(t.kids[k + 1..]));
    BagAt(t.kids, k);
  }

  lemma NotBelow(f: Free, t: Tree, rest: multiset<nat>)
    requires Safe(f, Bag(t) + rest)
    ensures t.page !in BagAll(t.kids)
  {
    assert (Bag(t) + rest + multiset(f.released))[t.page] <= 1;
  }

  lemma TouchedOutside(f: Free, t: Tree, rest: multiset<nat>)
    requires Safe(f, Bag(t) + rest) && Within(Pages(t.kids), BagAll(t.kids))
    ensures forall p :: p in rest ==> p !in Touched(CopyOf(t))
  {
    forall p | p in rest
      ensures p !in Touched(CopyOf(t))
    {
      assert (Bag(t) + rest + multiset(f.released))[p] <= 1;
      assert forall x :: x in Pages(t.kids) ==> x in BagAll(t.kids);
    }
  }

  // ---------------------------------------------------------------- following child pointers

  /** Child pointers lead from page p along the trail to page q. */
  predicate Leads(pages: map<nat, Body>, p: nat, trail: seq<nat>, q: nat)
    decreases |trail|
  {
    if trail == [] then p == q
    else p in pages && trail[0] in pages[p].children && Leads(pages, trail[0], trail[1..], q)
  }

  /** A trail through pages that keep their bodies stays a trail. */
  lemma {:induction false} LeadsKept(before: map<nat, Body>, after: map<nat, Body>, bag: multiset<nat>, p: nat,
                                     trail: seq<nat>, q: nat)
    requires Closed(before, bag) && p in bag && Leads(before, p, trail, q)
    requires forall x :: x in bag ==> x in after && after[x] == before[x]
    ensures Leads(after, p, trail, q)
    decreases |trail|
  {
    if trail != [] {
      LeadsKept(before, after, bag, trail[0], trail[1..], q);
    }
  }

  /** Pages reached from a stored tree are its own. */
  lemma {:induction false} LeadsStaysInTree(t: Tree, pages: map<nat, Body>, trail: seq<nat>, q: nat)
    requires Stored(t, pages) && Leads(pages, t.page, trail, q)
    ensures q in Bag(t)
    decreases |trail|
  {
    if trail != [] {
      var i :| 0 <= i < |Pages(t.kids)| && Pages(t.kids)[i] == trail[0];
      assert Stored(t.kids[i], pages);
      LeadsStaysInTree(t.kids[i], pages, trail[1..], q);
      BagAt(t.kids, i);
    }
  }

  // ---------------------------------------------------------------- what a stale copy does

  /** x is a child of a child of p. */
  predicate TwoHops(pages: map<nat, Body>, p: nat, m: nat, x: nat) {
    p in pages && m in pages[p].children && m in pages && x in pages[m].children
  }

  /** A merge hands the children of both nodes to the left one. */
  lemma MergeHops(d: Db, p: Copy, b: Copy, j: nat, x: nat)
    requires 0 < j < |p.body.children| && j <= |p.body.items| && p.body.children[j - 1] in d.pages
    requires p.body.children[j - 1] != p.page && d.pages[p.body.children[j - 1]].children != []
    requires x in b.body.children || x in d.pages[p.body.children[j - 1]].children
    ensures TwoHops(MergeStep(d, p, b, j).pages, p.page, p.body.children[j - 1], x)
  {
    var a, e := p.body.children[j - 1], MergeStep(d, p, b, j).pages;
    assert RemoveAt(p.body.children, j)[j - 1] == a;
    var merged := d.pages[a].children + b.body.children;
    assert e[a].children == merged;
    if x in b.body.children {
      var i :| 0 <= i < |b.body.children| && b.body.children[i] == x;
      assert merged[|d.pages[a].children| + i] == x;
    }
  }

  /** The pages around child k are all different. */
  predicate ApartAround(p: Copy, k: nat) {
    && k < |p.body.children| && p.body.children[k] != p.page
    && (k > 0 ==> p.body.children[k - 1] != p.page && p.body.children[k - 1] != p.body.children[k])
    && (k + 1 < |p.body.children| ==> p.body.children[k + 1] != p.page && p.body.children[k + 1] != p.body.children[k])
    && (0 < k && k + 1 < |p.body.children| ==> p.body.children[k - 1] != p.body.children[k + 1])
  }

  /** After a step with a later child, the children of the copy it worked on hang below the left sibling. */
  lemma LaterChildHops(d: Db, p: Copy, u: Copy, k: nat, x: nat)
    requires CanRebalance(d, p.body, u.page, k) && ApartAround(p, k) && k > 0
    requires x in u.body.children
    requires |d.pages[p.body.children[k - 1]].children| >= 1
    requires CanSpare(d.lim, d.pages[p.body.children[k - 1]].items) ==> |d.pages[p.body.children[k - 1]].children| >= 2
    ensures TwoHops(RebalanceStep(d, p, u, k).pages, p.page, p.body.children[k - 1], x)
  {
    var a := p.body.children[k - 1];
    var (d1, p1, u1) := BorrowLeft(d, p, u, k);
    LeftKeepsChild(d, p, u, k, x);
    var (e, p2, u2) := BorrowRight(d1, p1, u1, k);
    assert e.pages[a].children == d1.pages[a].children;
    assert x in u2.body.children;
    MergeHops(e, p2, u2, k, x);
  }

  /** After a rotation from the left both siblings have children, and the child has all those it had. */
  lemma LeftKeepsChild(d: Db, p: Copy, u: Copy, k: nat, x: nat)
    requires CanRebalance(d, p.body, u.page, k) && ApartAround(p, k) && k > 0 && x in u.body.children
    requires |d.pages[p.body.children[k - 1]].children| >= 1
    requires CanSpare(d.lim, d.pages[p.body.children[k - 1]].items) ==> |d.pages[p.body.children[k - 1]].children| >= 2
    ensures var (d1, p1, u1) := BorrowLeft(d, p, u, k);
            && p.body.children[k - 1] in d1.pages && d1.pages[p.body.children[k - 1]].children != []
            && x in u1.body.children
  {
    var u1 := BorrowLeft(d, p, u, k).2;
    var i :| 0 <= i < |u.body.children| && u.body.children[i] == x;
    if u1 != u {
      var cs := d.pages[p.body.children[k - 1]].children;
      assert ([cs[|cs| - 1]] + u.body.children)[i + 1] == x;
    }
  }

  /** After a step with the first child, what the store or a used copy has as its children stays below its page. */
  lemma FirstChildHops(d: Db, p: Copy, u: Copy, x: nat)
    requires CanRebalance(d, p.body, u.page, 0) && ApartAround(p, 0)
    requires if CanSpare(d.lim, d.pages[p.body.children[1]].items) then x in u.body.children
             else x in d.pages[u.page].children
    ensures TwoHops(RebalanceStep(d, p, u, 0).pages, p.page, u.page, x)
  {
    var (e, p2, u2) := BorrowRight(d, p, u, 0);
    assert x in e.pages[u.page].children;
    MergeHops(e, p2, Copy(p.body.children[1], e.pages[p.body.children[1]]), 1, x);
  }

  lemma {:induction false} PageInBagAll(kids: seq<Tree>, j: nat)
    requires j < |kids|
    ensures kids[j].page in BagAll(kids)
  {
    BagAt(kids, j);
    assert kids[j].page in Bag(kids[j]);
  }

  lemma KidPagesDiffer(t: Tree, i: nat, j: nat)
    requires Distinct(Bag(t)) && i < j < |t.kids|
    ensures t.kids[i].page != t.kids[j].page && t.kids[i].page != t.page && t.kids[j].page != t.page
  {
    DistinctParts(t, i);
    DistinctParts(t, j);
    assert t.kids[i].page in Bag(t.kids[i]) && t.kids[j].page in Bag(t.kids[j]);
    assert t.kids[i + 1..][j - i - 1] == t.kids[j];
    PageInBagAll(t.kids[i + 1..], j - i - 1);
  }

  lemma ChildrenDiffer(t: Tree, i: nat, j: nat)
    requires Distinct(Bag(t)) && i < j < |t.kids|
    ensures var ps := Pages(t.kids); ps[i] != ps[j] && ps[i] != t.page && ps[j] != t.page
  {
    KidPagesDiffer(t, i, j);
  }

  lemma KidsApart(t: Tree, k: nat)
    requires Distinct(Bag(t)) && k < |t.kids| && 2 <= |t.kids|
    ensures ApartAround(CopyOf(t), k)
  {
    if k > 0 {
      ChildrenDiffer(t, k - 1, k);
    }
    if k + 1 < |t.kids| {
      ChildrenDiffer(t, k, k + 1);
    }
    if 0 < k && k + 1 < |t.kids| {
      ChildrenDiffer(t, k - 1, k + 1);
    }
  }

  /** Whatever a stale copy of child k points to, and the store agrees where it is read, ends up below t again. */
  lemma StaleHops(db: Db, d: Db, t: Tree, h: nat, k: nat, q: seq<nat>, rest: multiset<nat>, x: nat) returns (m: nat)
    requires InPlace(db, t, h, rest) && h > 0 && k < |t.kids| && IsPath(t.kids[k], q) && 2 <= |t.kids|
    requires Reworked(db, d, t.kids[k], q, rest + Others(t, k)) && d.lim == db.lim
    requires x in Pages(t.kids[k].kids)
    requires k == 0 && !CanSpare(db.lim, t.kids[1].items) ==> x in d.pages[t.kids[k].page].children
    ensures CanRebalance(d, BodyOf(t), t.kids[k].page, k)
    ensures TwoHops(RebalanceStep(d, CopyOf(t), CopyOf(t.kids[k]), k).pages, t.page, m, x)
  {
    KidReworked(db, d, t, h, k, q, rest);
    assert ApartAround(CopyOf(t), k) by {
      DistinctPart(db.free, Bag(t), rest);
      KidsApart(t, k);
    }
    if k > 0 {
      LaterHops(d, t, h, k, x);
      m := t.kids[k - 1].page;
    } else {
      FirstHops(d, t, x);
      m := t.kids[0].page;
    }
  }

  lemma LaterHops(d: Db, t: Tree, h: nat, k: nat, x: nat)
    requires Balanced(t, h) && h > 0 && 0 < k < |t.kids| && ApartAround(CopyOf(t), k)
    requires CanRebalance(d, BodyOf(t), t.kids[k].page, k) && StoredAll(t.kids[..k], d.pages)
    requires x in Pages(t.kids[k].kids)
    ensures TwoHops(RebalanceStep(d, CopyOf(t), CopyOf(t.kids[k]), k).pages, t.page, t.kids[k - 1].page, x)
  {
    var a := t.kids[k - 1];
    assert t.kids[..k][k - 1] == a && Stored(t.kids[..k][k - 1], d.pages);
    assert Balanced(a, h - 1) && Balanced(t.kids[k], h - 1);
    LaterChildHops(d, CopyOf(t), CopyOf(t.kids[k]), k, x);
  }

  lemma FirstHops(d: Db, t: Tree, x: nat)
    requires 2 <= |t.kids| && ApartAround(CopyOf(t), 0)
    requires CanRebalance(d, BodyOf(t), t.kids[0].page, 0) && StoredAll(t.kids[1..], d.pages)
    requires if CanSpare(d.lim, t.kids[1].items) then x in Pages(t.kids[0].kids)
             else x in d.pages[t.kids[0].page].children
    ensures TwoHops(RebalanceStep(d, CopyOf(t), CopyOf(t.kids[0]), 0).pages, t.page, t.kids[0].page, x)
  {
    assert t.kids[1..][0] == t.kids[1] && Stored(t.kids[1..][0], d.pages);
    FirstChildHops(d, CopyOf(t), CopyOf(t.kids[0]), x);
  }

  /** Below child k nothing is rewritten by the step at t, so trails there stay. */
  lemma TrailBelowKept(db: Db, d: Db, t: Tree, h: nat, k: nat, q: seq<nat>, rest: multiset<nat>, trail: seq<nat>,
                       b: nat)
    requires InPlace(db, t, h, rest) && h > 0 && k < |t.kids| && IsPath(t.kids[k], q) && 2 <= |t.kids|
    requires Reworked(db, d, t.kids[k], q, rest + Others(t, k))
    requires trail != [] && Leads(d.pages, t.kids[k].page, trail, b)
    ensures CanRebalance(d, BodyOf(t), t.kids[k].page, k)
    ensures trail[0] in Pages(t.kids[k].kids) && trail[0] in d.pages[t.kids[k].page].children
    ensures Leads(RebalanceStep(d, CopyOf(t), CopyOf(t.kids[k]), k).pages, trail[0], trail[1..], b)
  {
    var kid := t.kids[k];
    KidReworked(db, d, t, h, k, q, rest);
    NotBelow(db.free, t, rest);
    StepClosed(d, CopyOf(t), CopyOf(kid), k, BagAll(t.kids));
    BelowUntouched(db.free, t, k, rest);
    assert Stored(kid, db.pages);
    StoredClosed(kid, db.pages);
    LeadsKept(d.pages, RebalanceStep(d, CopyOf(t), CopyOf(kid), k).pages, BagAll(kid.kids), trail[0], trail[1..], b);
  }

  lemma BelowUntouched(f: Free, t: Tree, k: nat, rest: multiset<nat>)
    requires Safe(f, Bag(t) + rest) && k < |t.kids|
    ensures forall p :: p in BagAll(t.kids[k].kids) ==> p !in Touched(CopyOf(t))
  {
    DistinctPart(f, Bag(t), rest);
    DistinctParts(t, k);
    forall p | p in BagAll(t.kids[k].kids)
      ensures p !in Touched(CopyOf(t))
    {
      assert p in Bag(t.kids[k]);
      forall i | 0 <= i < |t.kids|
        ensures p != t.kids[i].page
      {
        if i < k {
          assert t.kids[..k][i] == t.kids[i];
          PageInBagAll(t.kids[..k], i);
        } else if i > k {
          assert t.kids[k + 1..][i - k - 1] == t.kids[i];
          PageInBagAll(t.kids[k + 1..], i - k - 1);
        } else {
          assert Bag(t.kids[k])[p] <= 1;
        }
      }
    }
  }

  /** A stale copy that is used brings a released page back: child pointers lead to it from the page of t. */
  lemma {:induction false} ClashReachesReleased(db: Db, t: Tree, h: nat, path: seq<nat>, rest: multiset<nat>)
    returns (trail: seq<nat>, b: nat)
    requires InPlace(db, t, h, rest) && IsPath(t, path)
    requires SiblingsExist(db.lim, t, path) && Clash(db.lim, t, path)
    ensures CanRebalanceUp(db, Along(t, path), path)
    ensures var d := RebalanceUp(db, Along(t, path), path);
            trail != [] && Leads(d.pages, t.page, trail, b) && b in d.free.released
    ensures !ChildUnder(db.lim, t, path) ==> trail[0] == t.kids[path[0]].page
    decreases |path|
  {
    var k, q := path[0], path[1..];
    var kid := t.kids[k];
    LoopIsDefined(db, t, h, path, rest);
    KidInPlace(db, t, h, k, rest);
    if Clash(db.lim, kid, q) {
      var below;
      below, b := ClashReachesReleased(db, kid, h - 1, q, rest + Others(t, k));
      trail := ClashInside(db, t, h, path, rest, below, b);
    } else {
      trail, b := ClashHere(db, t, h, path, rest);
    }
  }

  lemma ClashInside(db: Db, t: Tree, h: nat, path: seq<nat>, rest: multiset<nat>, below: seq<nat>, b: nat)
    returns (trail: seq<nat>)
    requires InPlace(db, t, h, rest) && h > 0 && IsPath(t, path) && path != [] && SiblingsExist(db.lim, t, path)
    requires CanRebalanceUp(db, Along(t.kids[path[0]], path[1..]), path[1..])
    requires var d := RebalanceUp(db, Along(t.kids[path[0]], path[1..]), path[1..]);
             below != [] && Leads(d.pages, t.kids[path[0]].page, below, b) && b in d.free.released
    ensures CanRebalanceUp(db, Along(t, path), path)
    ensures var d := RebalanceUp(db, Along(t, path), path);
            trail != [] && Leads(d.pages, t.page, trail, b) && b in d.free.released
    ensures !ChildUnder(db.lim, t, path) ==> trail == [t.kids[path[0]].page] + below
  {
    var k, kid, q := path[0], t.kids[path[0]], path[1..];
    var d := RebalanceUp(db, Along(kid, q), q);
    assert Reworked(db, d, kid, q, rest + Others(t, k)) by {
      KidInPlace(db, t, h, k, rest);
      LoopIsDefined(db, kid, h - 1, q, rest + Others(t, k));
    }
    trail := ClashAbove(db, d, t, h, path, rest, below, b);
    var e := if Under(db.lim, kid.items) then RebalanceStep(d, CopyOf(t), CopyOf(kid), k) else d;
    assert trail != [] && Leads(e.pages, t.page, trail, b);
    assert b in e.free.released by {
      if Under(db.lim, kid.items) {
        StaysFree(d, CopyOf(t), CopyOf(kid), k, b);
      }
    }
    LoopAt(db, t, path);
    assert e == RebalanceUp(db, Along(t, path), path);
  }

  lemma StaysFree(d: Db, p: Copy, u: Copy, k: nat, b: nat)
    requires CanRebalance(d, p.body, u.page, k) && b in d.free.released
    ensures b in RebalanceStep(d, p, u, k).free.released
  {
  }

  /** The stale step itself: the page its child has just released comes back. */
  lemma ClashHere(db: Db, t: Tree, h: nat, path: seq<nat>, rest: multiset<nat>) returns (trail: seq<nat>, b: nat)
    requires InPlace(db, t, h, rest) && h > 0 && IsPath(t, path)
    requires SiblingsExist(db.lim, t, path) && StaleStep(db.lim, t, path)
    ensures CanRebalanceUp(db, Along(t, path), path)
    ensures var d := RebalanceUp(db, Along(t, path), path);
            trail != [] && Leads(d.pages, t.page, trail, b) && b in d.free.released
  {
    var k, q := path[0], path[1..];
    KidInPlace(db, t, h, k, rest);
    b := ReleasedByChild(db, t.kids[k], h - 1, q, rest + Others(t, k));
    trail := StaleTrail(db, RebalanceUp(db, Along(t.kids[k], q), q), t, h, path, rest, b);
    LoopAt(db, t, path);
  }

  lemma StaleTrail(db: Db, d: Db, t: Tree, h: nat, path: seq<nat>, rest: multiset<nat>, b: nat)
    returns (trail: seq<nat>)
    requires InPlace(db, t, h, rest) && h > 0 && IsPath(t, path)
    requires SiblingsExist(db.lim, t, path) && StaleStep(db.lim, t, path)
    requires Reworked(db, d, t.kids[path[0]], path[1..], rest + Others(t, path[0])) && d.lim == db.lim
    requires b in Pages(t.kids[path[0]].kids)
    ensures CanRebalance(d, BodyOf(t), t.kids[path[0]].page, path[0])
    ensures var e := RebalanceStep(d, CopyOf(t), CopyOf(t.kids[path[0]]), path[0]);
            trail != [] && Leads(e.pages, t.page, trail, b)
  {
    var m := StaleHops(db, d, t, h, path[0], path[1..], rest, b);
    trail := [m, b];
    assert trail[1..] == [b] && trail[1..][1..] == [];
  }

  /** The page that the loop inside t has released last was a child of t before. */
  lemma ReleasedByChild(db: Db, t: Tree, h: nat, path: seq<nat>, rest: multiset<nat>) returns (b: nat)
    requires InPlace(db, t, h, rest) && IsPath(t, path)
    requires SiblingsExist(db.lim, t, path) && ChildUnder(db.lim, t, path)
    ensures CanRebalanceUp(db, Along(t, path), path)
    ensures Reworked(db, RebalanceUp(db, Along(t, path), path), t, path, rest)
    ensures b in Pages(t.kids) && b in RebalanceUp(db, Along(t, path), path).free.released
  {
    var k, q := path[0], path[1..];
    LoopIsDefined(db, t, h, path, rest);
    KidInPlace(db, t, h, k, rest);
    LoopIsDefined(db, t.kids[k], h - 1, q, rest + Others(t, k));
    KidReworked(db, RebalanceUp(db, Along(t.kids[k], q), q), t, h, k, q, rest);
    LoopAt(db, t, path);
    b := Pages(t.kids)[if k == 0 then 1 else k];
  }

  /** A trail found inside the child is continued from t, whether or not the step at t is taken. */
  lemma ClashAbove(db: Db, d: Db, t: Tree, h: nat, path: seq<nat>, rest: multiset<nat>, below: seq<nat>, b: nat)
    returns (trail: seq<nat>)
    requires InPlace(db, t, h, rest) && h > 0 && IsPath(t, path) && path != []
    requires SiblingsExist(db.lim, t, path) && d.lim == db.lim
    requires Reworked(db, d, t.kids[path[0]], path[1..], rest + Others(t, path[0]))
    requires below != [] && Leads(d.pages, t.kids[path[0]].page, below, b)
    ensures var kid := t.kids[path[0]];
            if Under(db.lim, kid.items) then
              && CanRebalance(d, BodyOf(t), kid.page, path[0])
              && trail != [] && Leads(RebalanceStep(d, CopyOf(t), CopyOf(kid), path[0]).pages, t.page, trail, b)
            else trail == [kid.page] + below && Leads(d.pages, t.page, trail, b)
  {
    var k, q := path[0], path[1..];
    var kid := t.kids[k];
    KidReworked(db, d, t, h, k, q, rest);
    if Under(db.lim, kid.items) {
      TrailBelowKept(db, d, t, h, k, q, rest, below, b);
      var m := StaleHops(db, d, t, h, k, q, rest, below[0]);
      trail := [m] + below;
      assert trail[1..] == below;
    } else {
      trail := [kid.page] + below;
      assert trail[1..] == below && Pages(t.kids)[k] == kid.page;
    }
  }
}
