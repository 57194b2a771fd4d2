/**
 * The conditions of the operations in plain numbers: for the nodes on the path, with the bytes of their items
 * (core/collection.cpp, core/data_access_layer.cpp).
 */
module Conditions {
  import opened KeyOrder
  import opened Trees
  import opened Sizing
  import opened Store
  import opened Lookup
  import opened Splitting
  import opened Collections
  import opened Putting
  import opened ExistingKeys
  import opened Rebalancing
  import opened Removing
  import opened PageCounts

  /** All items but the last, each with eight bytes more, and three bytes for all, are above the minimum. */
  ghost predicate Spares(min: real, items: seq<Item>) {
    |items| >= 2 && (3 + |AllBytes(items[..|items| - 1])| + 8 * (|items| - 1)) as real > min
  }

  lemma {:induction false} AlongAt(t: Tree, path: seq<nat>, i: nat)
    requires IsPath(t, path) && i <= |path|
    ensures IsPath(t, path[..i]) && Along(t, path)[i] == CopyOf(Sub(t, path[..i]))
    decreases i
  {
    if i > 0 {
      AlongAt(t.kids[path[0]], path[1..], i - 1);
      assert path[..i][1..] == path[1..][..i - 1];
    }
  }

  lemma AlongShape(t: Tree, h: nat, path: seq<nat>, i: nat)
    requires Balanced(t, h) && IsPath(t, path) && i <= |path|
    ensures var b := Along(t, path)[i].body; b.children == [] || |b.children| == |b.items| + 1
  {
    AlongAt(t, path, i);
    SubShape(t, h, path[..i]);
  }

  // ---------------------------------------------------------------- insertion

  lemma InsertedShape(t: Tree, h: nat, s: Spot, item: Item)
    requires Balanced(t, h) && Distinct(Bag(t)) && s == Search(t, item.key) && Sorted(InOrder(t))
    ensures Balanced(Inserted(t, s, item), h)
  {
    if s.found {
      DuplicateInserted(t, h, s, item);
    } else {
      SearchIsExact(t, h, item.key);
      InsertedInLeaf(t, h, s, item);
    }
  }

  ghost predicate Stuck(o: Limits, anc: seq<Copy>, i: nat) {
    i < |anc| && BytesOf(anc[i]) as real > o.max && !Spares(o.min, anc[i].body.items)
  }

  /** A node has more than the maximum, and cannot spare an item. */
  ghost predicate SomeStuck(o: Limits, anc: seq<Copy>) {
    exists i: nat :: Stuck(o, anc, i)
  }

  /** `put` can run if and only if every node on the path that has more than the maximum can spare an item. */
  lemma CanPutIff(c: Coll, t: Tree, item: Item)
    requires Valid(c, t) && c.root != 0
    ensures var s := Search(t, item.key);
            CanPut(c, t, item) <==> !SomeStuck(c.db.lim, Along(Inserted(t, s, item), s.path))
  {
    var s, h := Search(t, item.key), Height(t);
    var t1 := Inserted(t, s, item);
    var anc := Along(t1, s.path);
    SafeIsDistinct(c.db.free, Bag(t));
    InsertedShape(t, h, s, item);
    forall i | 0 <= i < |anc|
      ensures anc[i].body.children == [] || |anc[i].body.children| == |anc[i].body.items| + 1
    {
      AlongShape(t1, h, s.path, i);
    }
    SplitsExistIff(c.db.lim, anc);
    assert CanPut(c, t, item) <==> SplitsExist(c.db.lim, anc);
  }

  lemma SplitsExistIff(o: Limits, anc: seq<Copy>)
    requires forall i :: 0 <= i < |anc| ==>
               anc[i].body.children == [] || |anc[i].body.children| == |anc[i].body.items| + 1
    ensures SplitsExist(o, anc) <==> !SomeStuck(o, anc)
  {
    forall i: nat | i < |anc|
      ensures Stuck(o, anc, i) <==> Over(o, anc[i].body.items) && !CanSplit(o, anc[i].body)
    {
      CanSpareIs(o, anc[i].body.items);
      PopulationIs(anc[i].body.items);
    }
  }

  predicate BothAbove(max: real, anc: seq<Copy>, i: nat) {
    i + 1 < |anc| && BytesOf(anc[i]) as real > max && BytesOf(anc[i + 1]) as real > max
  }

  /** Two nodes in a row have more than the maximum. */
  ghost predicate TwoAbove(max: real, anc: seq<Copy>) {
    exists i: nat :: BothAbove(max, anc, i)
  }

  lemma AlongFirst(t: Tree, path: seq<nat>)
    requires IsPath(t, path) && path != []
    ensures Along(t, path) == [CopyOf(t)] + Along(t.kids[path[0]], path[1..])
    ensures Along(t.kids[path[0]], path[1..])[0] == CopyOf(t.kids[path[0]])
  {
  }

  lemma {:induction false} AdjacentOverIff(o: Limits, t: Tree, path: seq<nat>)
    requires IsPath(t, path)
    ensures AdjacentOver(o, t, path) <==> TwoAbove(o.max, Along(t, path))
    decreases |path|
  {
    if path != [] {
      var anc, below := Along(t, path), Along(t.kids[path[0]], path[1..]);
      AdjacentOverIff(o, t.kids[path[0]], path[1..]);
      AlongFirst(t, path);
      PopulationIs(t.items);
      PopulationIs(t.kids[path[0]].items);
      assert BothAbove(o.max, anc, 0) <==> Over(o, t.items) && Over(o, t.kids[path[0]].items);
      forall i: nat
        ensures BothAbove(o.max, anc, i + 1) <==> BothAbove(o.max, below, i)
      {
      }
      assert forall i: nat :: BothAbove(o.max, anc, i) && i > 0 ==> BothAbove(o.max, below, i - 1);
    }
  }

  /** `put` loses items if and only if two nodes in a row on the path have more than the maximum. */
  lemma CrowdedIff(c: Coll, t: Tree, item: Item)
    requires c.root != 0
    ensures var s := Search(t, item.key);
            Crowded(c, t, item) <==> TwoAbove(c.db.lim.max, Along(Inserted(t, s, item), s.path))
  {
    var s := Search(t, item.key);
    var t1 := Inserted(t, s, item);
    AdjacentOverIff(c.db.lim, t1, s.path);
    assert Crowded(c, t, item) <==> AdjacentOver(c.db.lim, t1, s.path);
  }

  // ---------------------------------------------------------------- removal

  /** A node that has less than the minimum is the only child. */
  predicate Alone(min: real, anc: seq<Copy>, i: nat) {
    i + 1 < |anc| && (BytesOf(anc[i + 1]) as real) < min && |anc[i].body.children| < 2
  }

  lemma {:induction false} SiblingsExistIff(o: Limits, t: Tree, path: seq<nat>)
    requires IsPath(t, path)
    ensures SiblingsExist(o, t, path) <==> forall i: nat :: !Alone(o.min, Along(t, path), i)
    decreases |path|
  {
    if path != [] {
      var anc, below := Along(t, path), Along(t.kids[path[0]], path[1..]);
      SiblingsExistIff(o, t.kids[path[0]], path[1..]);
      AlongFirst(t, path);
      PopulationIs(t.kids[path[0]].items);
      assert Alone(o.min, anc, 0) <==> ChildUnder(o, t, path) && |t.kids| < 2;
      forall i: nat
        ensures Alone(o.min, anc, i + 1) <==> Alone(o.min, below, i)
      {
      }
      assert forall i: nat :: Alone(o.min, anc, i) && i > 0 ==> Alone(o.min, below, i - 1);
    }
  }

  lemma PredecessorIff(x: Tree, h: nat, i: nat)
    requires Balanced(x, h) && i < |x.items|
    ensures x.kids != [] ==> i < |x.kids| && IsPath(x.kids[i], LastPath(x.kids[i]))
    ensures HasPredecessor(x, i) <==> x.kids == [] || Sub(x.kids[i], LastPath(x.kids[i])).items != []
  {
    if x.kids != [] {
      assert Balanced(x.kids[i], h - 1);
      LastPathIsRightmost(x.kids[i], h - 1);
    }
  }

  /**
   * `remove` of a key that is there can run if and only if the rightmost leaf below the child before it has an item,
   * and no node on the path that has less than the minimum is an only child.
   */
  lemma CanRemoveIff(c: Coll, t: Tree, key: Bytes)
    requires Valid(c, t) && c.root != 0 && Search(t, key).found
    ensures var s := Search(t, key);
            var x := Sub(t, s.path);
            && (x.kids != [] ==> s.index < |x.kids| && IsPath(x.kids[s.index], LastPath(x.kids[s.index])))
            && var some := x.kids == [] || Sub(x.kids[s.index], LastPath(x.kids[s.index])).items != [];
               && (some ==> CanDelete(t, s) && IsPath(Deleted(t, s), FullPath(t, s)))
               && (CanRemove(c, t, key) <==>
                     some && forall i: nat :: !Alone(c.db.lim.min, Along(Deleted(t, s), FullPath(t, s)), i))
  {
    var s, h := Search(t, key), Height(t);
    var x := Sub(t, s.path);
    SubShape(t, h, s.path);
    PredecessorIff(x, h - |s.path|, s.index);
    if HasPredecessor(x, s.index) {
      FullPathIsPath(t, s);
      SiblingsExistIff(c.db.lim, Deleted(t, s), FullPath(t, s));
    }
  }

  /**
   * Two nodes in a row have less than the minimum, the upper one is not a first child whose right sibling cannot spare
   * an item, and it has a parent: then the upper one is rebalanced from a copy that is out of date.
   */
  ghost predicate StaleAt(o: Limits, t: Tree, path: seq<nat>, i: nat)
    requires IsPath(t, path)
  {
    && i + 1 < |path| && IsPath(t, path[..i])
    && var anc, x := Along(t, path), Sub(t, path[..i]);
       && (BytesOf(anc[i + 1]) as real) < o.min && (BytesOf(anc[i + 2]) as real) < o.min
       && !(path[i] == 0 && 2 <= |x.kids| && !Spares(o.min, x.kids[1].items))
  }

  lemma {:induction false} ClashIff(o: Limits, t: Tree, path: seq<nat>)
    requires IsPath(t, path)
    ensures Clash(o, t, path) <==> exists i: nat :: StaleAt(o, t, path, i)
    decreases |path|
  {
    if path != [] {
      var kid, q := t.kids[path[0]], path[1..];
      ClashIff(o, kid, q);
      StaleAtFirst(o, t, path);
      forall i: nat
        ensures StaleAt(o, t, path, i + 1) <==> StaleAt(o, kid, q, i)
      {
        StaleAtNext(o, t, path, i);
      }
      assert forall i: nat :: StaleAt(o, t, path, i) && i > 0 ==> StaleAt(o, kid, q, i - 1);
    }
  }

  lemma StaleAtFirst(o: Limits, t: Tree, path: seq<nat>)
    requires IsPath(t, path) && path != []
    ensures StaleAt(o, t, path, 0) <==> StaleStep(o, t, path)
  {
    var kid, q := t.kids[path[0]], path[1..];
    AlongFirst(t, path);
    PopulationIs(kid.items);
    if q != [] {
      AlongFirst(kid, q);
      PopulationIs(kid.kids[q[0]].items);
    }
    if 2 <= |t.kids| {
      CanSpareIs(o, t.kids[1].items);
    }
  }

  lemma StaleAtNext(o: Limits, t: Tree, path: seq<nat>, i: nat)
    requires IsPath(t, path) && path != []
    ensures StaleAt(o, t, path, i + 1) <==> StaleAt(o, t.kids[path[0]], path[1..], i)
  {
    AlongFirst(t, path);
    if i + 2 < |path| {
      assert path[..i + 1][1..] == path[1..][..i];
    }
  }

  /** A stale copy is used if and only if this happens somewhere on the path to the node that has lost an item. */
  lemma ClashesIff(c: Coll, t: Tree, key: Bytes)
    requires CanRemove(c, t, key) && Search(t, key).found
    ensures CanDelete(t, Search(t, key)) && IsPath(Deleted(t, Search(t, key)), FullPath(t, Search(t, key)))
    ensures var s := Search(t, key);
            Clashes(c, t, key) <==> exists i: nat :: StaleAt(c.db.lim, Deleted(t, s), FullPath(t, s), i)
  {
    var s := Search(t, key);
    FullPathIsPath(t, s);
    ClashIff(c.db.lim, Deleted(t, s), FullPath(t, s));
  }
}
