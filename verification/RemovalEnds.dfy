/** What a removal leaves: exactly when all nodes have a property afterwards, in terms of the nodes before it. */
module RemovalEnds {
  import opened KeyOrder
  import opened Trees
  import opened Sizing
  import opened Lookup
  import opened Collections
  import opened Rebalancing
  import opened Removing
  import opened RemovalFit
  import opened StepShapes
  import opened NodeProperties

  // ---------------------------------------------------------------- one step

  /**
   * The parent that stays after a step: without the separator of the merged nodes. What a rotation from the left has
   * handed up is this separator, so it never stays; what one from the right has handed up stays for later children.
   */
  lemma ParentAfterIs(o: Limits, f: Family)
    requires Proper(f)
    ensures f.k == 0 ==> ParentAfter(o, f) == Without(f.parent, 1)
    ensures f.k > 0 && !RightSpares(o, f) ==> ParentAfter(o, f) == Without(f.parent, f.k)
    ensures f.k > 0 && RightSpares(o, f) ==>
              ParentAfter(o, f) == Without(Body(f.parent.items[f.k := f.right.items[0]], f.parent.children), f.k)
  {
    var p := RotatedParent(o, f);
    var j := if f.k == 0 then 1 else f.k;
    var q := if f.k > 0 && RightSpares(o, f) then f.parent.items[f.k := f.right.items[0]] else f.parent.items;
    SameWithout(p.items, q, j - 1);
  }

  lemma SameWithout(a: seq<Item>, b: seq<Item>, i: nat)
    requires i < |a| == |b| && forall j :: 0 <= j < |a| && j != i ==> a[j] == b[j]
    ensures RemoveAt(a, i) == RemoveAt(b, i)
  {
    assert a[..i] == b[..i] && a[i + 1..] == b[i + 1..];
  }

  /** The nodes below the parent that a step leaves changed: the merged one, and a right sibling that has given. */
  predicate StepLeaves(good: Body -> bool, o: Limits, f: Family)
    requires Proper(f)
  {
    good(Merged(o, f)) && (f.k > 0 && RightSpares(o, f) ==> good(GivenRight(o, f)))
  }

  /** The step on the tree and the step on the bodies around child k, where the copy is right or not used. */
  lemma StepBodies(good: Body -> bool, o: Limits, t: Tree, h: nat, k: nat, v: Tree, w: Tree, f: Family)
    requires Balanced(t, h) && h > 0 && 2 <= |t.kids| && k < |t.kids| && Balanced(v, h - 1) && v.page == t.kids[k].page
    requires w == t.(kids := t.kids[k := v]) && f == FamilyOf(t, k, BodyOf(v))
    requires BodyOf(v) == BodyOf(t.kids[k]) || (k == 0 && !CanSpare(o, t.kids[1].items))
    ensures Balanced(w, h) && Proper(f)
    ensures BodyOf(StepTree(o, w, k)) == ParentAfter(o, f)
    ensures StepEnds(good, o, w, k) <==> StepLeaves(good, o, f)
  {
    assert AllBalanced(w.kids, h - 1) && Balanced(t.kids[k], h - 1);
    NodeIsAlike(v, h - 1, t.kids[k]);
    FamilyIsProper(o, t, h, k, BodyOf(v));
    StepParent(o, t, h, k, v, w, f);
    StepMerged(o, t, h, k, v, w, f);
    if k > 0 && RightSpares(o, f) {
      StepGiver(o, t, h, k, w, f);
    }
  }

  lemma StepParent(o: Limits, t: Tree, h: nat, k: nat, v: Tree, w: Tree, f: Family)
    requires Balanced(t, h) && h > 0 && 2 <= |t.kids| && k < |t.kids| && Balanced(w, h) && v.page == t.kids[k].page
    requires w == t.(kids := t.kids[k := v]) && f == FamilyOf(t, k, BodyOf(v)) && Proper(f)
    ensures BodyOf(StepTree(o, w, k)) == ParentAfter(o, f)
  {
    assert Pages(w.kids) == Pages(t.kids);
    var s, j := StepSource(o, w, k), Merges(k);
    SourceBody(o, w, k);
    assert BodyOf(StepTree(o, w, k)) == Without(BodyOf(s), j) by {
      StepIsMerge(o, w, h, k);
      MergedParent(s, j);
    }
    ParentAfterIs(o, f);
  }

  lemma SourceBody(o: Limits, w: Tree, k: nat)
    requires |w.kids| == |w.items| + 1 && k < |w.kids|
    ensures BodyOf(StepSource(o, w, k))
         == if k > 0 && k + 1 < |w.kids| && CanSpare(o, w.kids[k + 1].items) then
              Body(w.items[k := w.kids[k + 1].items[0]], Pages(w.kids))
            else BodyOf(w)
  {
    assert Pages(StepSource(o, w, k).kids) == Pages(w.kids);
  }

  lemma MergedParent(s: Tree, j: nat)
    requires 0 < j <= |s.items| && j < |s.kids|
    ensures BodyOf(MergedTree(s, j)) == Without(BodyOf(s), j)
  {
    assert Pages(MergedTree(s, j).kids) == RemoveAt(Pages(s.kids), j);
  }

  lemma StepMerged(o: Limits, t: Tree, h: nat, k: nat, v: Tree, w: Tree, f: Family)
    requires Balanced(t, h) && h > 0 && 2 <= |t.kids| && k < |t.kids| && Balanced(w, h)
    requires w == t.(kids := t.kids[k := v]) && f == FamilyOf(t, k, BodyOf(v)) && Proper(f)
    requires BodyOf(v) == BodyOf(t.kids[k]) || (k == 0 && !CanSpare(o, t.kids[1].items))
    ensures BodyOf(MergedNode(StepSource(o, w, k), Merges(k))) == Merged(o, f)
  {
    if k == 0 {
      FirstStepMerged(o, t, h, v, w, f);
    } else {
      LaterStepMerged(o, t, h, k, v, w, f);
    }
  }

  lemma FirstStepMerged(o: Limits, t: Tree, h: nat, v: Tree, w: Tree, f: Family)
    requires Balanced(t, h) && h > 0 && 2 <= |t.kids| && Balanced(w, h)
    requires w == t.(kids := t.kids[0 := v]) && f == FamilyOf(t, 0, BodyOf(v)) && Proper(f)
    requires BodyOf(v) == BodyOf(t.kids[0]) || !CanSpare(o, t.kids[1].items)
    ensures BodyOf(MergedNode(w, 1)) == Merged(o, f)
  {
    assert Balanced(w.kids[0], h - 1) && Balanced(w.kids[1], h - 1);
    JoinedNode(v, t.items[0], t.kids[1]);
  }

  lemma LaterStepMerged(o: Limits, t: Tree, h: nat, k: nat, v: Tree, w: Tree, f: Family)
    requires Balanced(t, h) && h > 0 && 0 < k < |t.kids| && Balanced(w, h)
    requires w == t.(kids := t.kids[k := v]) && f == FamilyOf(t, k, BodyOf(v)) && Proper(f)
    requires BodyOf(v) == BodyOf(t.kids[k])
    ensures BodyOf(MergedNode(StepSource(o, w, k), k)) == Merged(o, f)
  {
    assert Balanced(w.kids[k - 1], h - 1) && Balanced(w.kids[k], h - 1);
    if k + 1 < |t.kids| && CanSpare(o, t.kids[k + 1].items) {
      assert Balanced(w.kids[k + 1], h - 1);
      TakenNode(t.kids[k - 1], t.items[k - 1], v, t.items[k], t.kids[k + 1]);
    } else {
      JoinedNode(t.kids[k - 1], t.items[k - 1], v);
    }
  }

  lemma JoinedNode(a: Tree, x: Item, b: Tree)
    requires a.kids == [] ==> b.kids == []
    ensures BodyOf(Tree(a.page, a.items + [x] + b.items, a.kids + b.kids)) == Joined(BodyOf(a), x, BodyOf(b))
  {
    PagesAppend(a.kids, b.kids);
    assert |Pages(a.kids)| == |a.kids|;
  }

  /** The left sibling and the child, which has taken an item and a child from the right sibling c. */
  lemma TakenNode(a: Tree, x: Item, b: Tree, y: Item, c: Tree)
    requires (a.kids == [] <==> b.kids == []) && (b.kids == [] <==> c.kids == [])
    ensures var r := Joined(BodyOf(a), x, BodyOf(b));
            var kids := if c.kids == [] then b.kids else b.kids + [c.kids[0]];
            BodyOf(Tree(a.page, a.items + [x] + (b.items + [y]), a.kids + kids))
            == Body(r.items + [y], r.children + FirstChild(BodyOf(c)))
  {
    assert |Pages(a.kids)| == |a.kids| && |Pages(c.kids)| == |c.kids|;
    assert a.items + [x] + (b.items + [y]) == a.items + [x] + b.items + [y];
    PagesAppend(a.kids, b.kids);
    if c.kids != [] {
      PagesAppend(a.kids + b.kids, [c.kids[0]]);
      assert Pages([c.kids[0]]) == [c.kids[0].page];
      assert a.kids + (b.kids + [c.kids[0]]) == a.kids + b.kids + [c.kids[0]];
    }
  }

  lemma StepGiver(o: Limits, t: Tree, h: nat, k: nat, w: Tree, f: Family)
    requires Balanced(t, h) && h > 0 && 0 < k && k + 1 < |t.kids| && Balanced(w, h)
    requires f == FamilyOf(t, k, f.now) && Proper(f) && RightSpares(o, f)
    requires |w.kids| == |t.kids| && w.kids[k + 1] == t.kids[k + 1]
    ensures BodyOf(StepSource(o, w, k).kids[k + 1]) == GivenRight(o, f)
  {
    var c := t.kids[k + 1];
    assert |Pages(c.kids)| == |c.kids|;
    if c.kids != [] {
      assert Pages(c.kids[1..]) == Pages(c.kids)[1..];
    }
  }

  // ---------------------------------------------------------------- the loop

  /** Of the nodes below t, those that the loop leaves changed have the property. */
  predicate LoopLeaves(good: Body -> bool, o: Limits, t: Tree, path: seq<nat>)
    requires IsPath(t, path)
    decreases |path|
  {
    path == []
    || (var f := FamilyOf(t, path[0], BodyNow(o, t.kids[path[0]], path[1..]));
        && LoopLeaves(good, o, t.kids[path[0]], path[1..])
        && if Under(o, f.child.items) && Proper(f) then StepLeaves(good, o, f) else good(f.now))
  }

  /** Exactly when all nodes below t have the property after a loop in which no stale copy is used. */
  lemma {:induction false} LoopEvery(good: Body -> bool, o: Limits, t: Tree, h: nat, path: seq<nat>)
    requires Balanced(t, h) && IsPath(t, path) && SiblingsExist(o, t, path) && !Clash(o, t, path)
    requires EverySide(good, t, path)
    ensures var u := LoopTree(o, t, path);
            && Balanced(u, h) && u.page == t.page && BodyOf(u) == BodyNow(o, t, path)
            && (EveryTree(good, u.kids) <==> LoopLeaves(good, o, t, path))
    decreases |path|
  {
    if path != [] {
      var k, kid, q := path[0], t.kids[path[0]], path[1..];
      assert Balanced(kid, h - 1);
      LoopEvery(good, o, kid, h - 1, q);
      LevelEvery(good, o, t, h, path, LoopTree(o, kid, q));
    }
  }

  lemma LevelEvery(good: Body -> bool, o: Limits, t: Tree, h: nat, path: seq<nat>, v: Tree)
    requires Balanced(t, h) && h > 0 && IsPath(t, path) && path != [] && SiblingsExist(o, t, path) && !Clash(o, t, path)
    requires EveryTree(good, t.kids[..path[0]]) && EveryTree(good, t.kids[path[0] + 1..])
    requires var kid, q := t.kids[path[0]], path[1..];
             && Balanced(v, h - 1) && v.page == kid.page && BodyOf(v) == BodyNow(o, kid, q)
             && (EveryTree(good, v.kids) <==> LoopLeaves(good, o, kid, q))
    ensures var u := LoopLevel(o, t, path[0], v);
            && Balanced(u, h) && u.page == t.page && BodyOf(u) == BodyNow(o, t, path)
            && (EveryTree(good, u.kids) <==> LoopLeaves(good, o, t, path))
  {
    var k, kid := path[0], t.kids[path[0]];
    if Under(o, kid.items) {
      CopyIsRight(o, t, path);
      StepEveryAt(good, o, t, h, k, v);
    } else {
      assert AllBalanced(t.kids[k := v], h - 1) && Pages(t.kids[k := v]) == Pages(t.kids);
      EveryReplaced(good, t.kids, k, v);
      EveryIs(good, v);
    }
  }

  lemma StepEveryAt(good: Body -> bool, o: Limits, t: Tree, h: nat, k: nat, v: Tree)
    requires Balanced(t, h) && h > 0 && 2 <= |t.kids| && k < |t.kids| && Balanced(v, h - 1) && v.page == t.kids[k].page
    requires BodyOf(v) == BodyOf(t.kids[k]) || (k == 0 && !CanSpare(o, t.kids[1].items))
    requires EveryTree(good, t.kids[..k]) && EveryTree(good, t.kids[k + 1..])
    ensures var w, f := t.(kids := t.kids[k := v]), FamilyOf(t, k, BodyOf(v));
            var u := StepTree(o, w, k);
            && Proper(f) && Balanced(u, h) && u.page == t.page && BodyOf(u) == ParentAfter(o, f)
            && (EveryTree(good, u.kids) <==> EveryTree(good, v.kids) && StepLeaves(good, o, f))
  {
    var w, f := t.(kids := t.kids[k := v]), FamilyOf(t, k, BodyOf(v));
    assert w.kids[..k] == t.kids[..k] && w.kids[k + 1..] == t.kids[k + 1..];
    StepBodies(good, o, t, h, k, v, w, f);
    StepKeepsShape(o, w, h, k);
    StepEvery(good, o, w, h, k);
  }

  // ---------------------------------------------------------------- the operation

  /** The nodes that a removal leaves changed have the property. */
  predicate RemoveLeaves(good: Body -> bool, c: Coll, t: Tree, key: Bytes)
    requires CanRemove(c, t, key) && Search(t, key).found
  {
    var s, o := Search(t, key), c.db.lim;
    FullPathIsPath(t, s);
    && LoopLeaves(good, o, Deleted(t, s), FullPath(t, s))
    && (Collapses(c, t, key) || good(BodyNow(o, Deleted(t, s), FullPath(t, s))))
  }

  /** Exactly when all nodes have the property after a removal that is exact deletion, if all had it before. */
  lemma RemoveEveryIff(good: Body -> bool, c: Coll, t: Tree, key: Bytes)
    requires Valid(c, t) && CanRemove(c, t, key) && HasKey(InOrder(t), key) && !Clashes(c, t, key)
    requires EveryNode(good, t)
    ensures Search(t, key).found && Valid(RemoveState(c, t, key), RemoveTree(c, t, key))
    ensures EveryNode(good, RemoveTree(c, t, key)) <==> RemoveLeaves(good, c, t, key)
  {
    var u := RemoveDeletes(c, t, key);
    var s, h, o := Search(t, key), Height(t), c.db.lim;
    var t1, path := Deleted(t, s), FullPath(t, s);
    DeletedFacts(t, h, s);
    EveryIs(good, t);
    DeletedSides(good, t, h, s);
    LoopEvery(good, o, t1, h, path);
    if Collapses(c, t, key) {
      EmptyRootStays(good, o, t1, path);
    } else {
      EveryIs(good, LoopTree(o, t1, path));
    }
  }

  /** A root without items has one child, which has no sibling to be rebalanced with. */
  lemma EmptyRootStays(good: Body -> bool, o: Limits, t: Tree, path: seq<nat>)
    requires IsPath(t, path) && path != [] && |t.kids| == 1
    ensures var w := LoopTree(o, t, path);
            w.kids != [] && (EveryNode(good, w.kids[0]) <==> EveryTree(good, w.kids))
  {
    var w := LoopTree(o, t, path);
    assert w.kids == [w.kids[0]];
    EveryOne(good, w.kids[0]);
  }
}
