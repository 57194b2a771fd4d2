/** What an insertion leaves: exactly when all nodes have a property afterwards, in terms of the nodes before it. */
module InsertionEnds {
  import opened KeyOrder
  import opened Trees
  import opened Sizing
  import opened Freelists
  import opened Store
  import opened Lookup
  import opened Splitting
  import opened Collections
  import opened Putting
  import opened NodeProperties

  /** The nodes on the path that are over-populated have split indexes. */
  predicate PathSplits(o: Limits, t: Tree, path: seq<nat>)
    requires IsPath(t, path)
    decreases |path|
  {
    (Over(o, t.items) ==> CanSplit(o, BodyOf(t))) && (path != [] ==> PathSplits(o, t.kids[path[0]], path[1..]))
  }

  lemma {:induction false} PathSplitsIs(o: Limits, t: Tree, path: seq<nat>)
    requires IsPath(t, path) && SplitsExist(o, Along(t, path))
    ensures PathSplits(o, t, path)
    decreases |path|
  {
    var anc := Along(t, path);
    assert anc[0] == CopyOf(t);
    if path != [] {
      var below := Along(t.kids[path[0]], path[1..]);
      assert forall i :: 0 <= i < |below| ==> anc[i + 1] == below[i];
      PathSplitsIs(o, t.kids[path[0]], path[1..]);
    }
  }

  lemma {:induction false} PathSplitsExist(o: Limits, t: Tree, path: seq<nat>)
    requires IsPath(t, path) && PathSplits(o, t, path)
    ensures SplitsExist(o, Along(t, path))
    decreases |path|
  {
    if path != [] {
      PathSplitsExist(o, t.kids[path[0]], path[1..]);
      var anc, below := Along(t, path), Along(t.kids[path[0]], path[1..]);
      assert forall i :: 1 <= i < |anc| ==> anc[i] == below[i - 1];
    }
  }

  // ---------------------------------------------------------------- one split

  predicate GoodHalves(good: Body -> bool, o: Limits, b: Body)
    requires CanSplit(o, b)
  {
    var s := SplitIndex(o, b.items);
    good(LeftHalf(b, s)) && good(RightHalf(b, s))
  }

  lemma HalfTreesEvery(good: Body -> bool, o: Limits, v: Tree, q: nat)
    requires CanSplit(o, BodyOf(v))
    ensures var s := SplitIndex(o, v.items);
            EveryNode(good, LeftTree(v, s)) && EveryNode(good, RightTree(v, s, q))
            <==> GoodHalves(good, o, BodyOf(v)) && EveryTree(good, v.kids)
  {
    var s := SplitIndex(o, v.items);
    var l, r := LeftTree(v, s), RightTree(v, s, q);
    assert v.kids == [] <==> Pages(v.kids) == [];
    HalvesBodies(v, s, q);
    assert v.kids == l.kids + r.kids;
    EveryJoin(good, l.kids, r.kids);
    EveryIs(good, l);
    EveryIs(good, r);
  }

  /** The children of a parent after a split of child k, as v. */
  lemma SplitIntoEvery(good: Body -> bool, o: Limits, free: Free, t: Tree, k: nat, v: Tree)
    requires k <= |t.items| && k < |t.kids| && CanSplit(o, BodyOf(v))
    ensures EveryTree(good, SplitInto(o, free, t, k, v).kids)
       <==> && EveryTree(good, t.kids[..k]) && EveryTree(good, t.kids[k + 1..])
            && GoodHalves(good, o, BodyOf(v)) && EveryTree(good, v.kids)
  {
    var s, q := SplitIndex(o, v.items), NextPage(free).1;
    var l, r := LeftTree(v, s), RightTree(v, s, q);
    var a, b := t.kids[..k], t.kids[k + 1..];
    assert SplitInto(o, free, t, k, v).kids == a + ([l] + ([r] + b));
    EveryJoin(good, a, [l] + ([r] + b));
    EveryJoin(good, [l], [r] + b);
    EveryJoin(good, [r], b);
    EveryOne(good, l);
    EveryOne(good, r);
    HalfTreesEvery(good, o, v, q);
  }

  /** The root that takes over the middle item of the old one. */
  function NewRoot(o: Limits, free: Free, t: Tree): Body
    requires SplitIndex(o, t.items) != -1
  {
    Body([t.items[SplitIndex(o, t.items)]], [t.page, NextPage(NextPage(free).0).1])
  }

  lemma GrowIntoEvery(good: Body -> bool, o: Limits, free: Free, v: Tree)
    requires CanSplit(o, BodyOf(v))
    ensures EveryNode(good, GrowInto(o, free, v))
       <==> good(NewRoot(o, free, v)) && GoodHalves(good, o, BodyOf(v)) && EveryTree(good, v.kids)
  {
    var top, s := Tree(NextPage(free).1, [], [v]), SplitIndex(o, v.items);
    var l, r := LeftTree(v, s), RightTree(v, s, NextPage(NextPage(free).0).1);
    SplitIntoEvery(good, o, NextPage(free).0, top, 0, v);
    assert top.kids[..0] == [] && top.kids[1..] == [];
    AdoptBody(top, 0, l, v.items[s], r);
    assert Pages(top.kids) == [v.page];
    assert BodyOf(GrowInto(o, free, v)) == NewRoot(o, free, v);
    EveryIs(good, GrowInto(o, free, v));
  }

  // ---------------------------------------------------------------- the loop

  /** The parent that has adopted the middle item of child k and its new right half. */
  function Adopted(o: Limits, free: Free, t: Tree, k: nat): Body
    requires k <= |t.items| && k < |t.kids| && SplitIndex(o, t.kids[k].items) != -1
  {
    Adopt(BodyOf(t), k, t.kids[k].items[SplitIndex(o, t.kids[k].items)], NextPage(free).1)
  }

  /** The node t after it has adopted what its child on the path hands up, if it does. */
  function BodyAfter(o: Limits, free: Free, t: Tree, path: seq<nat>): Body
    requires IsPath(t, path)
  {
    if ChildOver(o, t, path) && SplitIndex(o, t.kids[path[0]].items) != -1 then
      Adopted(o, FreeAfter(o, free, t.kids[path[0]], path[1..]), t, path[0])
    else BodyOf(t)
  }

  /** Of the nodes below t, those that the split loop leaves changed have the property. */
  predicate SplitsLeave(good: Body -> bool, o: Limits, free: Free, t: Tree, path: seq<nat>)
    requires IsPath(t, path)
    decreases |path|
  {
    path == []
    || (var kid, q := t.kids[path[0]], path[1..];
        && SplitsLeave(good, o, free, kid, q)
        && if Over(o, kid.items) && CanSplit(o, BodyOf(kid)) then GoodHalves(good, o, BodyOf(kid))
           else good(BodyAfter(o, free, kid, q)))
  }

  /** Exactly when all nodes below t have the property after a split loop without a crowd on the path. */
  lemma {:induction false} AfterSplitsEvery(good: Body -> bool, o: Limits, free: Free, t: Tree, path: seq<nat>)
    requires IsPath(t, path) && PathSplits(o, t, path) && !AdjacentOver(o, t, path) && EverySide(good, t, path)
    ensures var u := AfterSplits(o, free, t, path);
            && BodyOf(u) == BodyAfter(o, free, t, path)
            && (EveryTree(good, u.kids) <==> SplitsLeave(good, o, free, t, path))
    decreases |path|
  {
    if path != [] {
      AfterSplitsEvery(good, o, free, t.kids[path[0]], path[1..]);
      LevelSplits(good, o, free, t, path, AfterSplits(o, free, t.kids[path[0]], path[1..]));
    }
  }

  lemma LevelSplits(good: Body -> bool, o: Limits, free: Free, t: Tree, path: seq<nat>, v: Tree)
    requires IsPath(t, path) && path != [] && PathSplits(o, t, path) && !AdjacentOver(o, t, path)
    requires EveryTree(good, t.kids[..path[0]]) && EveryTree(good, t.kids[path[0] + 1..])
    requires var kid, q := t.kids[path[0]], path[1..];
             && v == AfterSplits(o, free, kid, q) && BodyOf(v) == BodyAfter(o, free, kid, q)
             && (EveryTree(good, v.kids) <==> SplitsLeave(good, o, free, kid, q))
    ensures var u := AfterSplits(o, free, t, path);
            && BodyOf(u) == BodyAfter(o, free, t, path)
            && (EveryTree(good, u.kids) <==> SplitsLeave(good, o, free, t, path))
  {
    var k, kid, q := path[0], t.kids[path[0]], path[1..];
    if Over(o, kid.items) {
      var f, s := FreeAfter(o, free, kid, q), SplitIndex(o, kid.items);
      assert BodyOf(v) == BodyOf(kid);
      SplitIntoEvery(good, o, f, t, k, v);
      AdoptBody(t, k, LeftTree(v, s), v.items[s], RightTree(v, s, NextPage(f).1));
    } else {
      EveryReplaced(good, t.kids, k, v);
      EveryIs(good, v);
      assert Pages(t.kids[k := v]) == Pages(t.kids);
    }
  }

  // ---------------------------------------------------------------- the operation

  /** The nodes that the loop and the growth of the root leave changed have the property. */
  predicate TreeLeaves(good: Body -> bool, o: Limits, free: Free, t: Tree, path: seq<nat>)
    requires IsPath(t, path)
  {
    && SplitsLeave(good, o, free, t, path)
    && if Over(o, t.items) && CanSplit(o, BodyOf(t)) then
         GoodHalves(good, o, BodyOf(t)) && good(NewRoot(o, FreeAfter(o, free, t, path), t))
       else good(BodyAfter(o, free, t, path))
  }

  /** The nodes that an insertion leaves changed have the property. */
  predicate PutLeaves(good: Body -> bool, c: Coll, t: Tree, item: Item) {
    if c.root == 0 then good(Body([item], []))
    else
      var s := Search(t, item.key);
      TreeLeaves(good, c.db.lim, c.db.free, Inserted(t, s, item), s.path)
  }

  /** Exactly when all nodes have the property after an insertion that loses nothing, if all had it before. */
  lemma PutEveryIff(good: Body -> bool, c: Coll, t: Tree, item: Item)
    requires Valid(c, t) && CanPut(c, t, item) && !HasKey(InOrder(t), item.key) && !Crowded(c, t, item)
    requires c.root != 0 ==> EveryNode(good, t)
    ensures Valid(PutState(c, t, item), PutTree(c, t, item))
    ensures EveryNode(good, PutTree(c, t, item)) <==> PutLeaves(good, c, t, item)
  {
    var u := PutInserts(c, t, item);
    if c.root == 0 {
      FirstLeafEvery(good, u.page, item);
    } else {
      PutTreeEvery(good, c, t, item);
    }
  }

  lemma FirstLeafEvery(good: Body -> bool, page: nat, item: Item)
    ensures EveryNode(good, Tree(page, [item], [])) <==> good(Body([item], []))
  {
    EveryIs(good, Tree(page, [item], []));
    assert Pages([]) == [];
  }

  lemma PutTreeEvery(good: Body -> bool, c: Coll, t: Tree, item: Item)
    requires Valid(c, t) && CanPut(c, t, item) && !HasKey(InOrder(t), item.key) && !Crowded(c, t, item)
    requires c.root != 0 && EveryNode(good, t)
    ensures EveryNode(good, PutTree(c, t, item)) <==> PutLeaves(good, c, t, item)
  {
    var s, o, h := Search(t, item.key), c.db.lim, Height(t);
    var t1 := Inserted(t, s, item);
    SearchIsExact(t, h, item.key);
    SearchFindsKeys(t, h, item.key);
    SubShape(t, h, s.path);
    PathSplitsIs(o, t1, s.path);
    InsertedSides(good, t, s, item);
    SplitTreeEvery(good, o, c.db.free, t1, s.path);
  }

  lemma SplitTreeEvery(good: Body -> bool, o: Limits, free: Free, t: Tree, path: seq<nat>)
    requires IsPath(t, path) && PathSplits(o, t, path) && !AdjacentOver(o, t, path) && EverySide(good, t, path)
    ensures EveryNode(good, SplitTree(o, free, t, path)) <==> TreeLeaves(good, o, free, t, path)
  {
    AfterSplitsEvery(good, o, free, t, path);
    var v := AfterSplits(o, free, t, path);
    if Over(o, t.items) {
      assert BodyOf(v) == BodyOf(t);
      GrowIntoEvery(good, o, FreeAfter(o, free, t, path), v);
    } else {
      EveryIs(good, v);
    }
  }

  lemma InsertedSides(good: Body -> bool, t: Tree, s: Spot, item: Item)
    requires IsPath(t, s.path) && s.index <= |Sub(t, s.path).items| && EveryNode(good, t)
    requires Sub(t, s.path).kids == []
    ensures EverySide(good, Inserted(t, s, item), s.path)
  {
    EveryIs(good, t);
    SubEvery(good, t, s.path);
    GraftSides(good, t, s.path, Grown(t, s, item), []);
    assert s.path + [] == s.path;
  }
}
