/**
 * Which nodes are under-populated after a removal: what the rebalancing loop is documented for (core/node.h,
 * core/collection.h), exactly when the program misses it, and exactly when the loop over fresh copies does.
 */
module UnderPopulations {
  import opened KeyOrder
  import opened Trees
  import opened Sizing
  import opened Lookup
  import opened Collections
  import opened Rebalancing
  import opened Removing
  import opened FreshCopies
  import opened StepShapes
  import opened NodeProperties

  // ---------------------------------------------------------------- nodes that are not under-populated

  function NotUnder(o: Limits): Body -> bool {
    (b: Body) => !Under(o, b.items)
  }

  /** No node of the tree is under-populated. */
  predicate Enough(o: Limits, t: Tree) {
    EveryNode(NotUnder(o), t)
  }

  predicate AllEnough(o: Limits, kids: seq<Tree>) {
    EveryTree(NotUnder(o), kids)
  }

  // ---------------------------------------------------------------- one step

  /** A merged node has more than each of the two. */
  lemma MergedIsBigger(a: seq<Item>, x: Item, b: seq<Item>)
    ensures NodeSize(a + [x] + b) >= NodeSize(a) && NodeSize(a + [x] + b) >= NodeSize(b)
  {
    PayloadJoin(a + [x], b);
    PayloadJoin(a, [x]);
  }

  /** The right sibling gives an item away, and is left with too little. */
  predicate LeavesShort(o: Limits, t: Tree, k: nat) {
    && 0 < k && k + 1 < |t.kids| && CanSpare(o, t.kids[k + 1].items)
    && Under(o, t.kids[k + 1].items[1..])
  }

  /** The merged node is never left with too little: one of the two it is made of had enough. */
  lemma MergedHasEnough(o: Limits, t: Tree, j: nat)
    requires 0 < j <= |t.items| && j < |t.kids| && (!Under(o, t.kids[j - 1].items) || !Under(o, t.kids[j].items))
    ensures !Under(o, MergedNode(t, j).items)
  {
    MergedIsBigger(t.kids[j - 1].items, t.items[j - 1], t.kids[j].items);
  }

  /** Exactly when a step leaves a node with too little below t: it is never the merged one. */
  lemma StepEnough(o: Limits, t: Tree, h: nat, k: nat)
    requires Balanced(t, h) && h > 0 && 2 <= |t.kids| && k < |t.kids|
    requires AllEnough(o, t.kids[..k]) && AllEnough(o, t.kids[k + 1..])
    ensures AllEnough(o, StepTree(o, t, k).kids) <==> AllEnough(o, t.kids[k].kids) && !LeavesShort(o, t, k)
  {
    StepEvery(NotUnder(o), o, t, h, k);
    if k == 0 {
      assert t.kids[1..][0] == t.kids[1] && EveryNode(NotUnder(o), t.kids[1..][0]);
      MergedHasEnough(o, t, 1);
    } else {
      assert t.kids[..k][k - 1] == t.kids[k - 1] && EveryNode(NotUnder(o), t.kids[..k][k - 1]);
      MergedHasEnough(o, StepSource(o, t, k), k);
    }
  }

  // ---------------------------------------------------------------- the program's loop

  /** Off the path no node is under-populated. */
  predicate SidesEnough(o: Limits, t: Tree, path: seq<nat>)
    requires IsPath(t, path)
  {
    EverySide(NotUnder(o), t, path)
  }

  /**
   * Below t no node is under-populated after the loop: no right sibling gives away what it needs, and a node that is
   * not rebalanced has enough after what it has given up.
   */
  predicate Refilled(o: Limits, t: Tree, path: seq<nat>)
    requires IsPath(t, path)
    decreases |path|
  {
    path == []
    || (var kid, q := t.kids[path[0]], path[1..];
        && Refilled(o, kid, q)
        && if Under(o, kid.items) then !LeavesShort(o, t, path[0]) else !Under(o, ItemsLeft(o, kid, q)))
  }

  lemma {:induction false} LoopEnough(o: Limits, t: Tree, h: nat, path: seq<nat>)
    requires Balanced(t, h) && IsPath(t, path) && SiblingsExist(o, t, path) && SidesEnough(o, t, path)
    ensures AllEnough(o, LoopTree(o, t, path).kids) <==> Refilled(o, t, path)
    decreases |path|
  {
    if path != [] {
      var k, kid, q := path[0], t.kids[path[0]], path[1..];
      assert Balanced(kid, h - 1);
      LoopEnough(o, kid, h - 1, q);
      LoopKeepsShape(o, kid, h - 1, q);
      var v := LoopTree(o, kid, q);
      var w := t.(kids := t.kids[k := v]);
      assert AllBalanced(w.kids, h - 1);
      assert w.kids[..k] == t.kids[..k] && w.kids[k + 1..] == t.kids[k + 1..];
      if Under(o, kid.items) {
        StepEnough(o, w, h, k);
      } else {
        EveryReplaced(NotUnder(o), t.kids, k, v);
      }
    }
  }

  // ---------------------------------------------------------------- the program's removal

  /** Below the root no node is under-populated after `remove`. */
  predicate RemoveRefills(c: Coll, t: Tree, key: Bytes)
    requires CanRemove(c, t, key) && Search(t, key).found
  {
    var s := Search(t, key);
    FullPathIsPath(t, s);
    var t1, path := Deleted(t, s), FullPath(t, s);
    if Collapses(c, t, key) then Refilled(c.db.lim, t1.kids[path[0]], path[1..]) else Refilled(c.db.lim, t1, path)
  }

  lemma EmptyRootLoop(o: Limits, t: Tree, h: nat, path: seq<nat>)
    requires Balanced(t, h) && IsPath(t, path) && SiblingsExist(o, t, path) && SidesEnough(o, t, path)
    requires t.items == [] && t.kids != [] && path != []
    ensures LoopTree(o, t, path).kids != []
    ensures AllEnough(o, LoopTree(o, t, path).kids[0].kids) <==> Refilled(o, t.kids[path[0]], path[1..])
  {
    assert |t.kids| == 1 && path[0] == 0 && Balanced(t.kids[0], h - 1);
    LoopEnough(o, t.kids[0], h - 1, path[1..]);
  }

  /**
   * Exactly when `remove`, where it is exact deletion, leaves nodes below the root with too little: a right sibling
   * has given away an item that it needs, or a node that was not under-populated by its copy has given one up.
   */
  lemma RemoveRefillsIff(c: Coll, t: Tree, key: Bytes)
    requires Valid(c, t) && CanRemove(c, t, key) && HasKey(InOrder(t), key) && !Clashes(c, t, key)
    requires AllEnough(c.db.lim, t.kids)
    ensures Search(t, key).found && Valid(RemoveState(c, t, key), RemoveTree(c, t, key))
    ensures AllEnough(c.db.lim, RemoveTree(c, t, key).kids) <==> RemoveRefills(c, t, key)
  {
    var u := RemoveDeletes(c, t, key);
    var s, h, o := Search(t, key), Height(t), c.db.lim;
    var t1, path := Deleted(t, s), FullPath(t, s);
    FullPathIsPath(t, s);
    DeletedFacts(t, h, s);
    DeletedSides(NotUnder(o), t, h, s);
    if Collapses(c, t, key) {
      EmptyRootLoop(o, t1, h, path);
    } else {
      LoopEnough(o, t1, h, path);
    }
  }

  // ---------------------------------------------------------------- the loop over fresh copies

  /** The items of the node t after this loop. */
  function FreshItems(o: Limits, t: Tree, path: seq<nat>): seq<Item>
    requires IsPath(t, path)
    decreases |path|
  {
    if path != [] && Under(o, FreshItems(o, t.kids[path[0]], path[1..])) && 2 <= |t.kids| == |t.items| + 1 then
      RemoveAt(StepSource(o, t, path[0]).items, Merges(path[0]) - 1)
    else t.items
  }

  /** A node that ends up with too little has a sibling, and no right sibling gives away what it needs. */
  predicate FreshRefilled(o: Limits, t: Tree, path: seq<nat>)
    requires IsPath(t, path)
    decreases |path|
  {
    path == []
    || (&& FreshRefilled(o, t.kids[path[0]], path[1..])
        && (Under(o, FreshItems(o, t.kids[path[0]], path[1..])) ==> 2 <= |t.kids| && !LeavesShort(o, t, path[0])))
  }

  lemma {:induction false} FreshEnough(o: Limits, t: Tree, h: nat, path: seq<nat>)
    requires Balanced(t, h) && IsPath(t, path) && SidesEnough(o, t, path)
    ensures var u := AfterRebalances(o, t, path);
            && Balanced(u, h) && u.items == FreshItems(o, t, path)
            && (AllEnough(o, u.kids) <==> FreshRefilled(o, t, path))
    decreases |path|
  {
    if path != [] {
      var k, kid, q := path[0], t.kids[path[0]], path[1..];
      assert Balanced(kid, h - 1) && SidesEnough(o, kid, q);
      FreshEnough(o, kid, h - 1, q);
      var v := AfterRebalances(o, kid, q);
      FreshLevel(o, t, h, k, v);
      assert v.items == FreshItems(o, kid, q);
    }
  }

  lemma FreshLevel(o: Limits, t: Tree, h: nat, k: nat, v: Tree)
    requires Balanced(t, h) && h > 0 && k < |t.kids| && Balanced(v, h - 1)
    requires AllEnough(o, t.kids[..k]) && AllEnough(o, t.kids[k + 1..])
    ensures var u := FreshStep(o, t, k, v);
            && Balanced(u, h)
            && u.items == (if Under(o, v.items) && 2 <= |t.kids| == |t.items| + 1 then
                             RemoveAt(StepSource(o, t, k).items, Merges(k) - 1)
                           else t.items)
            && (AllEnough(o, u.kids)
                <==> AllEnough(o, v.kids) && (Under(o, v.items) ==> 2 <= |t.kids| && !LeavesShort(o, t, k)))
  {
    var w := t.(kids := t.kids[k := v]);
    assert AllBalanced(w.kids, h - 1);
    assert w.kids[..k] == t.kids[..k] && w.kids[k + 1..] == t.kids[k + 1..];
    if Under(o, v.items) && 2 <= |t.kids| {
      StepItems(o, t, h, k, v);
      StepKeepsShape(o, w, h, k);
      StepEnough(o, w, h, k);
    } else {
      EveryReplaced(NotUnder(o), t.kids, k, v);
    }
  }

  /** Below the root no node is under-populated after a removal with the loop over fresh copies. */
  predicate FreshRefills(o: Limits, t: Tree, key: Bytes)
    requires CanDelete(t, Search(t, key))
  {
    var s := Search(t, key);
    FullPathIsPath(t, s);
    FreshRefilled(o, Deleted(t, s), FullPath(t, s))
  }

  /** An inner root has items: with this loop a root without them is given up at once. */
  predicate RootHasItems(t: Tree) { t.kids == [] || t.items != [] }

  /** A root that has given up its only item has one child, which was merged and has enough. */
  lemma FreshRootGivenUp(o: Limits, t: Tree, h: nat, path: seq<nat>)
    requires Balanced(t, h) && IsPath(t, path) && SidesEnough(o, t, path) && RootHasItems(t)
    requires AfterRebalances(o, t, path).items == [] && AfterRebalances(o, t, path).kids != []
    ensures var w := AfterRebalances(o, t, path); AllEnough(o, w.kids[0].kids) <==> AllEnough(o, w.kids)
  {
    assert path != [];
    BalancedBelow(o, t, h, path);
    RootGivesUp(o, t, h, path[0], AfterRebalances(o, t.kids[path[0]], path[1..]));
  }

  lemma BalancedBelow(o: Limits, t: Tree, h: nat, path: seq<nat>)
    requires Balanced(t, h) && IsPath(t, path) && path != [] && SidesEnough(o, t, path)
    ensures h > 0 && Balanced(AfterRebalances(o, t.kids[path[0]], path[1..]), h - 1)
  {
    assert Balanced(t.kids[path[0]], h - 1);
    FreshEnough(o, t.kids[path[0]], h - 1, path[1..]);
  }

  lemma RootGivesUp(o: Limits, t: Tree, h: nat, k: nat, v: Tree)
    requires Balanced(t, h) && h > 0 && k < |t.kids| && t.items != [] && Balanced(v, h - 1)
    requires AllEnough(o, t.kids[..k]) && AllEnough(o, t.kids[k + 1..])
    requires FreshStep(o, t, k, v).items == [] && FreshStep(o, t, k, v).kids != []
    ensures var u := FreshStep(o, t, k, v); AllEnough(o, u.kids[0].kids) <==> AllEnough(o, u.kids)
  {
    var x, u := t.(kids := t.kids[k := v]), FreshStep(o, t, k, v);
    assert |t.kids| == 2 && u == StepTree(o, x, k) by {
      FreshLevel(o, t, h, k, v);
    }
    assert |u.kids| == 1 && !Under(o, u.kids[0].items) by {
      OnlySibling(o, t.kids, k);
      assert AllBalanced(x.kids, h - 1);
      LastMerge(o, x, h, k);
    }
    assert u.kids == [u.kids[0]];
    EveryOne(NotUnder(o), u.kids[0]);
  }

  /** The step at a node with two children merges the two. */
  lemma LastMerge(o: Limits, x: Tree, h: nat, k: nat)
    requires Balanced(x, h) && h > 0 && |x.kids| == 2 && k < 2 && !Under(o, x.kids[1 - k].items)
    ensures |StepTree(o, x, k).kids| == 1 && !Under(o, StepTree(o, x, k).kids[0].items)
  {
    StepIsMerge(o, x, h, k);
    MergedIsBigger(x.kids[0].items, x.items[0], x.kids[1].items);
    assert StepTree(o, x, k).kids == [MergedNode(x, 1)];
  }

  lemma OnlySibling(o: Limits, kids: seq<Tree>, k: nat)
    requires |kids| == 2 && k < 2 && AllEnough(o, kids[..k]) && AllEnough(o, kids[k + 1..])
    ensures !Under(o, kids[1 - k].items)
  {
    assert kids[1 - k] == if k == 0 then kids[1..][0] else kids[..1][0];
    assert Enough(o, if k == 0 then kids[1..][0] else kids[..1][0]);
  }

  /** Exactly when the loop over fresh copies leaves nodes below the root with too little. */
  lemma RemoveFreshRefillsIff(c: Coll, t: Tree, key: Bytes)
    requires Valid(c, t) && HasKey(InOrder(t), key) && RootHasItems(t) && AllEnough(c.db.lim, t.kids)
    requires HasPredecessor(Sub(t, Search(t, key).path), Search(t, key).index)
    ensures CanDelete(t, Search(t, key)) && Valid(RemoveFresh(c, t, key), FreshRemoved(c.db.lim, t, key))
    ensures AllEnough(c.db.lim, FreshRemoved(c.db.lim, t, key).kids) <==> FreshRefills(c.db.lim, t, key)
  {
    var u := RemoveFreshDeletes(c, t, key);
    var s, h, o := Search(t, key), Height(t), c.db.lim;
    FullPathIsPath(t, s);
    DeletedFacts(t, h, s);
    DeletedSides(NotUnder(o), t, h, s);
    FreshEnough(o, Deleted(t, s), h, FullPath(t, s));
    var w := AfterRebalances(o, Deleted(t, s), FullPath(t, s));
    if w.items == [] && w.kids != [] {
      FreshRootGivenUp(o, Deleted(t, s), h, FullPath(t, s));
    }
  }

  // ---------------------------------------------------------------- when a sibling can spare what it is asked for

  /** What the source documents for a node that can spare an item: it has enough without its first one. */
  predicate SparesWell(o: Limits, t: Tree)
    decreases t
  {
    && (CanSpare(o, t.items) ==> !Under(o, t.items[1..]))
    && forall i {:trigger SparesWell(o, t.kids[i])} :: 0 <= i < |t.kids| ==> SparesWell(o, t.kids[i])
  }

  /** The nodes above the last one of the path have items, and right siblings spare well. */
  predicate WellAround(o: Limits, t: Tree, path: seq<nat>)
    requires IsPath(t, path)
    decreases |path|
  {
    path == []
    || (&& t.items != [] && (path[0] + 1 < |t.kids| ==> SparesWell(o, t.kids[path[0] + 1]))
        && WellAround(o, t.kids[path[0]], path[1..]))
  }

  lemma {:induction false} WellRefills(o: Limits, t: Tree, h: nat, path: seq<nat>)
    requires Balanced(t, h) && IsPath(t, path) && WellAround(o, t, path)
    ensures FreshRefilled(o, t, path)
    decreases |path|
  {
    if path != [] {
      assert Balanced(t.kids[path[0]], h - 1);
      WellRefills(o, t.kids[path[0]], h - 1, path[1..]);
    }
  }

  lemma {:induction false} GraftWell(o: Limits, t: Tree, p: seq<nat>, v: Tree, q: seq<nat>)
    requires IsPath(t, p) && IsPath(v, q) && WellAround(o, v, q)
    requires o.min > 11.0 && RootHasItems(t) && AllEnough(o, t.kids) && SparesWell(o, t)
    ensures IsPath(Graft(t, p, v), p + q) && WellAround(o, Graft(t, p, v), p + q)
    decreases |p|
  {
    if p == [] {
      assert p + q == q;
    } else {
      var k := p[0];
      assert Enough(o, t.kids[k]);
      EveryParts(NotUnder(o), t.kids, k);
      assert SparesWell(o, t.kids[k]);
      GraftWell(o, t.kids[k], p[1..], v, q);
      assert (p + q)[1..] == p[1..] + q;
    }
  }

  lemma {:induction false} SubWell(o: Limits, t: Tree, p: seq<nat>)
    requires IsPath(t, p) && o.min > 11.0 && RootHasItems(t) && AllEnough(o, t.kids) && SparesWell(o, t)
    ensures var x := Sub(t, p); RootHasItems(x) && AllEnough(o, x.kids) && SparesWell(o, x)
    decreases |p|
  {
    if p != [] {
      assert Enough(o, t.kids[p[0]]) && SparesWell(o, t.kids[p[0]]);
      EveryParts(NotUnder(o), t.kids, p[0]);
      SubWell(o, t.kids[p[0]], p[1..]);
    }
  }

  lemma DeletedWell(o: Limits, t: Tree, h: nat, s: Spot)
    requires Balanced(t, h) && CanDelete(t, s)
    requires o.min > 11.0 && RootHasItems(t) && AllEnough(o, t.kids) && SparesWell(o, t)
    ensures IsPath(Deleted(t, s), FullPath(t, s)) && WellAround(o, Deleted(t, s), FullPath(t, s))
  {
    var x, q := Sub(t, s.path), LocalPath(Sub(t, s.path), s.index);
    var v := Shrunk(x, s.index);
    SubWell(o, t, s.path);
    if x.kids != [] {
      var kid := x.kids[s.index];
      var leaf := LastPath(kid);
      assert Enough(o, kid) && SparesWell(o, kid);
      EveryParts(NotUnder(o), x.kids, s.index);
      GraftWell(o, kid, leaf, PoppedLeaf(kid), []);
      assert leaf + [] == leaf && q[1..] == leaf;
      assert v.kids[s.index] == Popped(kid);
    }
    GraftWell(o, t, s.path, v, q);
  }

  /**
   * The loop over fresh copies does what it is for: if every node that can spare an item has enough without it, no
   * node below the root is under-populated after a removal, if none was before.
   */
  lemma RemoveFreshStaysEnough(c: Coll, t: Tree, key: Bytes)
    requires Valid(c, t) && HasKey(InOrder(t), key) && RootHasItems(t) && AllEnough(c.db.lim, t.kids)
    requires HasPredecessor(Sub(t, Search(t, key).path), Search(t, key).index)
    requires c.db.lim.min > 11.0 && SparesWell(c.db.lim, t)
    ensures CanDelete(t, Search(t, key)) && Valid(RemoveFresh(c, t, key), FreshRemoved(c.db.lim, t, key))
    ensures AllEnough(c.db.lim, FreshRemoved(c.db.lim, t, key).kids)
  {
    var s, h, o := Search(t, key), Height(t), c.db.lim;
    RemoveFreshRefillsIff(c, t, key);
    DeletedFacts(t, h, s);
    DeletedWell(o, t, h, s);
    WellRefills(o, Deleted(t, s), h, FullPath(t, s));
  }
}
