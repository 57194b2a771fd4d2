/** What `find` answers after `put` has inserted a second item with a key (core/collection.cpp, core/node.cpp). */
module ShadowedKeys {
  import opened KeyOrder
  import opened Trees
  import opened Sizing
  import opened Freelists
  import opened Store
  import opened Lookup
  import opened Splitting
  import opened Collections
  import opened Putting
  import opened ExistingKeys
  import opened InsertionEnds

  // ---------------------------------------------------------------- one node

  /** The first r keys are smaller, and the others are not; they need not be sorted. */
  predicate Parted(items: seq<Item>, key: Bytes, r: nat) {
    && r <= |items| && (forall i :: 0 <= i < r ==> Less(items[i].key, key))
    && forall i :: r <= i < |items| ==> !Less(items[i].key, key)
  }

  lemma FoundAt(t: Tree, key: Bytes, r: nat)
    requires Parted(t.items, key, r)
    ensures Rank(t.items, key) == r
    ensures Found(t, key) == if HasAt(t.items, key, r) then Some(t.items[r])
                             else if r < |t.kids| then Found(t.kids[r], key) else None
  {
    if !HasAt(t.items, key, r) && r < |t.kids| {
      var s := Search(t.kids[r], key);
      assert ([r] + s.path)[1..] == s.path;
    }
  }

  lemma SortedIsParted(items: seq<Item>, key: Bytes)
    requires Sorted(items)
    ensures Parted(items, key, Rank(items, key))
  {
    var r := Rank(items, key);
    forall i | r < i < |items|
      ensures !Less(items[i].key, key)
    {
      if Less(items[i].key, key) {
        LessTransitive(items[r].key, items[i].key, key);
      }
    }
  }

  // ---------------------------------------------------------------- one split

  /** A split changes the answer only if the key's item moves up past an earlier one with the same key. */
  lemma SplitAnswer(o: Limits, free: Free, t: Tree, k: nat, v: Tree, key: Bytes, r: nat)
    requires k <= |t.items| && |t.kids| == |t.items| + 1 && CanSplit(o, BodyOf(v))
    requires v.kids == [] || |v.kids| == |v.items| + 1
    requires Parted(t.items, key, k) && !HasAt(t.items, key, k) && Parted(v.items, key, r)
    ensures var s := SplitIndex(o, v.items);
            Found(SplitInto(o, free, t, k, v), key)
            == if r <= s && v.items[s].key == key then Some(v.items[s]) else Found(v, key)
  {
    var s, q := SplitIndex(o, v.items), NextPage(free).1;
    var left, right, u := LeftTree(v, s), RightTree(v, s, q), SplitInto(o, free, t, k, v);
    FoundAt(v, key, r);
    if s < r {
      assert Parted(u.items, key, k + 1) && !HasAt(u.items, key, k + 1) && u.kids[k + 1] == right;
      FoundAt(u, key, k + 1);
      FoundRight(v, s, q, key, r);
    } else {
      LessTrichotomy(key, key);
      assert Parted(u.items, key, k) && u.items[k] == v.items[s] && u.kids[k] == left;
      FoundAt(u, key, k);
      if v.items[s].key != key {
        FoundLeft(v, s, key, r);
      }
    }
  }

  lemma FoundRight(v: Tree, s: nat, q: nat, key: Bytes, r: nat)
    requires s < r && Parted(v.items, key, r) && (v.kids == [] || |v.kids| == |v.items| + 1)
    ensures Found(RightTree(v, s, q), key) == Found(v, key)
  {
    var right := RightTree(v, s, q);
    FoundAt(v, key, r);
    FoundAt(right, key, r - s - 1);
  }

  lemma FoundLeft(v: Tree, s: nat, key: Bytes, r: nat)
    requires r <= s < |v.items| && Parted(v.items, key, r) && v.items[s].key != key
    requires v.kids == [] || |v.kids| == |v.items| + 1
    ensures Found(LeftTree(v, s), key) == Found(v, key)
  {
    var left := LeftTree(v, s);
    FoundAt(v, key, r);
    FoundAt(left, key, r);
  }

  // ---------------------------------------------------------------- the loop and the growth of the root

  /** The nodes on the path lead the search along it, and the last one has the smaller keys first. */
  predicate Leads(t: Tree, path: seq<nat>, key: Bytes)
    requires IsPath(t, path)
    decreases |path|
  {
    && (t.kids == [] || |t.kids| == |t.items| + 1)
    && if path == [] then Parted(t.items, key, Rank(t.items, key))
       else Parted(t.items, key, path[0]) && !HasKey(t.items, key) && Leads(t.kids[path[0]], path[1..], key)
  }

  /** What the search answers for the node x, if it may be split: an item that is handed up comes first. */
  function Answer(o: Limits, x: Tree, key: Bytes): Option<Item> {
    var s := SplitIndex(o, x.items);
    if Over(o, x.items) && s != -1 && Rank(x.items, key) <= s && x.items[s].key == key then Some(x.items[s])
    else Found(x, key)
  }

  /** The node t leads to what was found in v, if nothing with the key is handed up. */
  lemma SplitAnswers(o: Limits, free: Free, t: Tree, k: nat, x: Tree, v: Tree, q: seq<nat>, key: Bytes)
    requires k <= |t.items| && |t.kids| == |t.items| + 1 && Parted(t.items, key, k) && !HasKey(t.items, key)
    requires IsPath(x, q) && Leads(x, q, key) && Over(o, x.items) && CanSplit(o, BodyOf(x))
    requires v.items == x.items && |v.kids| == |x.kids|
    requires Found(v, key) == if q == [] then Found(x, key) else Answer(o, Sub(x, q), key)
    ensures CanSplit(o, BodyOf(v)) && Found(SplitInto(o, free, t, k, v), key) == Answer(o, Sub(x, q), key)
  {
    var r := Rank(x.items, key);
    if q != [] {
      FoundAt(x, key, q[0]);
    }
    assert !HasAt(t.items, key, k);
    SplitAnswer(o, free, t, k, v, key, r);
  }

  /** The search through a node that is not split. */
  lemma KeepAnswers(t: Tree, k: nat, v: Tree, key: Bytes)
    requires k < |t.kids| && Parted(t.items, key, k) && !HasKey(t.items, key)
    ensures Found(t.(kids := t.kids[k := v]), key) == Found(v, key)
  {
    assert !HasAt(t.items, key, k);
    FoundAt(t.(kids := t.kids[k := v]), key, k);
  }

  lemma {:induction false} AfterSplitsAnswer(o: Limits, free: Free, t: Tree, path: seq<nat>, key: Bytes)
    requires IsPath(t, path) && PathSplits(o, t, path) && !AdjacentOver(o, t, path) && Leads(t, path, key)
    ensures var u := AfterSplits(o, free, t, path);
            && (!ChildOver(o, t, path) ==> u.items == t.items && |u.kids| == |t.kids|)
            && Found(u, key) == if path == [] then Found(t, key) else Answer(o, Sub(t, path), key)
    decreases |path|
  {
    if path != [] {
      var k, kid, q := path[0], t.kids[path[0]], path[1..];
      AfterSplitsAnswer(o, free, kid, q, key);
      LevelAnswer(o, free, t, path, AfterSplits(o, free, kid, q), key);
    }
  }

  lemma LevelAnswer(o: Limits, free: Free, t: Tree, path: seq<nat>, v: Tree, key: Bytes)
    requires IsPath(t, path) && path != [] && PathSplits(o, t, path) && !AdjacentOver(o, t, path) && Leads(t, path, key)
    requires var kid, q := t.kids[path[0]], path[1..];
             && v == AfterSplits(o, free, kid, q)
             && (!ChildOver(o, kid, q) ==> v.items == kid.items && |v.kids| == |kid.kids|)
             && Found(v, key) == if q == [] then Found(kid, key) else Answer(o, Sub(kid, q), key)
    ensures var u := AfterSplits(o, free, t, path);
            && (!ChildOver(o, t, path) ==> u.items == t.items && |u.kids| == |t.kids|)
            && Found(u, key) == Answer(o, Sub(t, path), key)
  {
    var k, kid, q := path[0], t.kids[path[0]], path[1..];
    if Over(o, kid.items) {
      SplitAnswers(o, FreeAfter(o, free, kid, q), t, k, kid, v, q, key);
    } else {
      KeepAnswers(t, k, v, key);
    }
  }

  lemma SplitTreeAnswer(o: Limits, free: Free, t: Tree, path: seq<nat>, key: Bytes)
    requires IsPath(t, path) && PathSplits(o, t, path) && !AdjacentOver(o, t, path) && Leads(t, path, key)
    ensures Found(SplitTree(o, free, t, path), key) == Answer(o, Sub(t, path), key)
  {
    AfterSplitsAnswer(o, free, t, path, key);
    if Over(o, t.items) {
      var v, f := AfterSplits(o, free, t, path), FreeAfter(o, free, t, path);
      SplitAnswers(o, NextPage(f).0, Tree(NextPage(f).1, [], [v]), 0, t, v, path, key);
    }
  }

  // ---------------------------------------------------------------- in a valid collection

  /** The items of a node stand in the in-order sequence after each child before them. */
  lemma {:induction false} InAfter(t: Tree, k: nat, i: nat)
    requires |t.kids| == |t.items| + 1 && k <= i < |t.items|
    ensures t.items[i] in After(t, k)
    decreases i - k
  {
    AfterAt(t, k);
    if k < i {
      InAfter(t, k + 1, i);
    }
  }

  lemma NodeIsSorted(t: Tree, h: nat)
    requires Balanced(t, h) && Sorted(InOrder(t))
    ensures Sorted(t.items)
  {
    if h == 0 {
      LeafInOrder(t);
    } else {
      forall i, j | 0 <= i < j < |t.items|
        ensures Less(t.items[i].key, t.items[j].key)
      {
        AtChild(t, i);
        SortedParts(Before(t, i), InOrder(t.kids[i]), After(t, i));
        AfterAt(t, i);
        InAfter(t, i + 1, j);
        FirstIsLess(After(t, i), t.items[i], InOrder(t.kids[i + 1]), After(t, i + 1), t.items[j]);
      }
    }
  }

  lemma FirstIsLess(s: seq<Item>, x: Item, a: seq<Item>, b: seq<Item>, y: Item)
    requires Sorted(s) && s == [x] + (a + b) && y in b
    ensures Less(x.key, y.key)
  {
    var i :| 0 <= i < |b| && b[i] == y;
    assert s[0] == x && s[1 + |a| + i] == y;
  }

  lemma SortedBelow(t: Tree, h: nat, k: nat)
    requires Balanced(t, h) && h > 0 && Sorted(InOrder(t)) && k < |t.kids|
    ensures Balanced(t.kids[k], h - 1) && Sorted(InOrder(t.kids[k]))
  {
    AtChild(t, k);
    SortedParts(Before(t, k), InOrder(t.kids[k]), After(t, k));
  }

  /** With another node for the one at the search's end, the path still leads to it. */
  lemma {:induction false} LeadsToGraft(t: Tree, h: nat, key: Bytes, path: seq<nat>, v: Tree)
    requires Balanced(t, h) && Sorted(InOrder(t)) && path == Search(t, key).path && IsPath(t, path)
    requires Parted(v.items, key, Rank(v.items, key)) && (v.kids == [] || |v.kids| == |v.items| + 1)
    ensures Leads(Graft(t, path, v), path, key)
    decreases |path|
  {
    if path != [] {
      NodeIsSorted(t, h);
      SortedIsParted(t.items, key);
      RankIsCount(t.items, key);
      SortedBelow(t, h, path[0]);
      LeadsToGraft(t.kids[path[0]], h - 1, key, path[1..], v);
    }
  }

  /** The node that gets the second item, and the answer for it. */
  lemma GrownAnswer(o: Limits, x: Tree, h: nat, i: nat, item: Item)
    requires Balanced(x, h) && Sorted(x.items) && i < |x.items| && x.items[i].key == item.key
    ensures var v := GrownNode(x, i, item);
            && Rank(v.items, item.key) == i && Parted(v.items, item.key, i)
            && Answer(o, v, item.key)
               == if Over(o, v.items) && SplitIndex(o, v.items) == i + 1 then Some(x.items[i]) else Some(item)
  {
    var v := GrownNode(x, i, item);
    LessTrichotomy(item.key, item.key);
    forall j | i < j < |x.items|
      ensures !Less(x.items[j].key, item.key) && x.items[j].key != item.key
    {
      LessTrichotomy(x.items[j].key, item.key);
    }
    assert v.items[i] == item && v.items[i + 1] == x.items[i];
    assert forall j :: i + 1 < j < |v.items| ==> v.items[j] == x.items[j - 1];
    FoundAt(v, item.key, i);
  }

  /**
   * After `put` of an existing key without a crowd, `find` answers the new item, except where the node that has both
   * is split exactly between them: then the old item is handed up, and hides the new one.
   */
  lemma FoundAfterDuplicate(c: Coll, t: Tree, item: Item)
    requires Valid(c, t) && CanPut(c, t, item) && HasKey(InOrder(t), item.key) && !Crowded(c, t, item)
    ensures var s := Search(t, item.key);
            var x := Sub(t, s.path);
            var items := x.items[..s.index] + [item] + x.items[s.index..];
            && s.found
            && Found(PutTree(c, t, item), item.key)
               == if Over(c.db.lim, items) && SplitIndex(c.db.lim, items) == s.index + 1 then Some(x.items[s.index])
                  else Some(item)
  {
    var s, h, o := Search(t, item.key), Height(t), c.db.lim;
    SearchFindsKeys(t, h, item.key);
    InsertedLeads(o, t, h, item);
    var t1 := Inserted(t, s, item);
    PathSplitsIs(o, t1, s.path);
    SplitTreeAnswer(o, c.db.free, t1, s.path, item.key);
  }

  lemma InsertedLeads(o: Limits, t: Tree, h: nat, item: Item)
    requires Balanced(t, h) && Sorted(InOrder(t)) && Search(t, item.key).found
    ensures var s := Search(t, item.key);
            var x, v := Sub(t, s.path), Grown(t, s, item);
            && Leads(Inserted(t, s, item), s.path, item.key)
            && Answer(o, v, item.key)
               == if Over(o, v.items) && SplitIndex(o, v.items) == s.index + 1 then Some(x.items[s.index])
                  else Some(item)
  {
    var s := Search(t, item.key);
    var x, v := Sub(t, s.path), Grown(t, s, item);
    SubSorted(t, h, s.path);
    NodeIsSorted(x, h - |s.path|);
    GrownShape(x, h - |s.path|, v);
    GrownAnswer(o, x, h - |s.path|, s.index, item);
    LeadsToGraft(t, h, item.key, s.path, v);
  }

  lemma {:induction false} SubSorted(t: Tree, h: nat, path: seq<nat>)
    requires Balanced(t, h) && Sorted(InOrder(t)) && IsPath(t, path)
    ensures |path| <= h && Balanced(Sub(t, path), h - |path|) && Sorted(InOrder(Sub(t, path)))
    decreases |path|
  {
    if path != [] {
      SortedBelow(t, h, path[0]);
      SubSorted(t.kids[path[0]], h - 1, path[1..]);
    }
  }
}
