/**
 * How many pages an operation takes from the allocator or returns to it, counted in the nodes that it finds too big or
 * too small (core/collection.cpp).
 */
module PageCounts {
  import opened KeyOrder
  import opened Trees
  import opened Sizing
  import opened Freelists
  import opened Store
  import opened Lookup
  import opened Collections
  import opened Putting
  import opened Removing

  /** A node's size: eleven bytes and those of its keys and values. */
  function BytesOf(c: Copy): nat { 11 + |AllBytes(c.body.items)| }

  function CountAbove(max: real, nodes: seq<Copy>): nat {
    if nodes == [] then 0 else (if BytesOf(nodes[0]) as real > max then 1 else 0) + CountAbove(max, nodes[1..])
  }

  function CountBelow(min: real, nodes: seq<Copy>): nat {
    if nodes == [] then 0 else (if (BytesOf(nodes[0]) as real) < min then 1 else 0) + CountBelow(min, nodes[1..])
  }

  // ---------------------------------------------------------------- insertion

  /** The allocator after n allocations: returned pages go first, from the end, and then new numbers. */
  function Taken(f: Free, n: nat): Free {
    if n <= |f.released| then Free(f.maxPage, f.released[..|f.released| - n])
    else Free(f.maxPage + (n - |f.released|), [])
  }

  lemma OneMoreTaken(f: Free, n: nat)
    ensures NextPage(Taken(f, n)).0 == Taken(f, n + 1) && Taken(f, 0) == f
  {
  }

  lemma {:induction false} SplitUpTakes(db: Db, anc: seq<Copy>, path: seq<nat>)
    requires |anc| == |path| + 1 && CanSplitUp(db.lim, anc, path)
    ensures SplitUp(db, anc, path).free == Taken(db.free, CountAbove(db.lim.max, anc[1..]))
    decreases |path|
  {
    if path != [] {
      SplitUpTakes(db, anc[1..], path[1..]);
      PopulationIs(anc[1].body.items);
      OneMoreTaken(db.free, CountAbove(db.lim.max, anc[2..]));
      assert anc[1..][1..] == anc[2..];
    }
  }

  /**
   * `put` takes a page for every node on the path that has more than the maximum once the item is in it, and one more
   * for a new root if the root has; the first `put` takes one. The new root is the last of these pages but one.
   */
  lemma PutTakes(c: Coll, t: Tree, item: Item)
    requires CanPut(c, t, item)
    ensures c.root == 0 ==> PutState(c, t, item).db.free == Taken(c.db.free, 1)
    ensures c.root != 0 ==>
              var s := Search(t, item.key);
              var anc := Along(Inserted(t, s, item), s.path);
              var n, grows := CountAbove(c.db.lim.max, anc), BytesOf(anc[0]) as real > c.db.lim.max;
              && PutState(c, t, item).db.free == Taken(c.db.free, n + if grows then 1 else 0)
              && PutState(c, t, item).root == if grows then NextPage(Taken(c.db.free, n - 1)).1 else c.root
  {
    OneMoreTaken(c.db.free, 0);
    if c.root != 0 {
      var s := Search(t, item.key);
      var t1, d := Inserted(t, s, item), Write(c.db, CopyOf(Grown(t, s, item)));
      SplitsCanGoUp(c.db.lim, t1, s.path);
      assert SplitsExist(d.lim, Along(t1, s.path));
      PathTakes(d, t1, s.path);
      GrowthTakes(d, t1, s.path);
    }
  }

  /** What the split loop takes, with the over-populated node at its top counted already if there is one. */
  lemma PathTakes(d: Db, t: Tree, path: seq<nat>)
    requires IsPath(t, path) && CanSplitUp(d.lim, Along(t, path), path)
    ensures var n, grows := CountAbove(d.lim.max, Along(t, path)), BytesOf(Along(t, path)[0]) as real > d.lim.max;
            && (grows <==> Over(d.lim, t.items)) && (grows ==> n > 0)
            && SplitUp(d, Along(t, path), path).free == Taken(d.free, if grows then n - 1 else n)
  {
    SplitUpTakes(d, Along(t, path), path);
    PopulationIs(t.items);
  }

  /** The growth of the root takes two pages, and the first of them is its own. */
  lemma GrowthTakes(d: Db, t: Tree, path: seq<nat>)
    requires IsPath(t, path) && CanSplitUp(d.lim, Along(t, path), path)
    requires Over(d.lim, t.items) ==> CanSplit(d.lim, BodyOf(t))
    ensures var e, n := SplitUp(d, Along(t, path), path), CountAbove(d.lim.max, Along(t, path));
            Over(d.lim, t.items) ==>
              && n > 0 && GrowRoot(e, CopyOf(t)).db.free == Taken(d.free, n + 1)
              && GrowRoot(e, CopyOf(t)).root == NextPage(Taken(d.free, n - 1)).1
  {
    PathTakes(d, t, path);
    var n := CountAbove(d.lim.max, Along(t, path));
    if Over(d.lim, t.items) {
      OneMoreTaken(d.free, n - 1);
      OneMoreTaken(d.free, n);
    }
  }

  // ---------------------------------------------------------------- removal

  lemma {:induction false} RebalanceUpReleases(db: Db, anc: seq<Copy>, path: seq<nat>)
    requires |anc| == |path| + 1 && CanRebalanceUp(db, anc, path)
    ensures var f := RebalanceUp(db, anc, path).free;
            && f.maxPage == db.free.maxPage && db.free.released <= f.released
            && |f.released| == |db.free.released| + CountBelow(db.lim.min, anc[1..])
    decreases |path|
  {
    if path != [] {
      RebalanceUpReleases(db, anc[1..], path[1..]);
      PopulationIs(anc[1].body.items);
      assert anc[1..][1..] == anc[2..];
    }
  }

  /**
   * `remove` returns a page for every node below the root, on the path to the node that lost an item, that has less
   * than the minimum right after that. The root's page is never returned, even if the root is given up; that happens
   * exactly if it is an inner node and had no items already before.
   */
  lemma RemoveReleases(c: Coll, t: Tree, key: Bytes)
    requires Valid(c, t) && CanRemove(c, t, key) && Search(t, key).found
    ensures CanDelete(t, Search(t, key))
    ensures IsPath(Deleted(t, Search(t, key)), FullPath(t, Search(t, key)))
    ensures var s, r := Search(t, key), RemoveState(c, t, key);
            var anc := Along(Deleted(t, s), FullPath(t, s));
            && r.db.free.maxPage == c.db.free.maxPage && c.db.free.released <= r.db.free.released
            && |r.db.free.released| == |c.db.free.released| + CountBelow(c.db.lim.min, anc[1..])
            && r.root == if t.items == [] && t.kids != [] then t.kids[0].page else c.root
  {
    var s := Search(t, key);
    RemoveIsDefined(c, t, key);
    var t1, path, d := Deleted(t, s), FullPath(t, s), DeleteWrites(c.db, Sub(t, s.path), s.index);
    RebalanceUpReleases(d, Along(t1, path), path);
    RootItems(t, s);
    if t1.items == [] && t1.kids != [] {
      assert path[0] == 0 && Along(t1, path)[1] == CopyOf(t1.kids[0]);
    }
  }

  /** A deletion below an inner root, or in one, leaves it as many items and children, and their pages. */
  lemma RootItems(t: Tree, s: Spot)
    requires CanDelete(t, s)
    ensures t.kids != [] ==> |Deleted(t, s).items| == |t.items| && |Deleted(t, s).kids| == |t.kids|
    ensures t.kids == [] ==> Deleted(t, s).kids == []
    ensures forall i :: 0 <= i < |t.kids| ==> Deleted(t, s).kids[i].page == t.kids[i].page
    ensures Deleted(t, s).page == t.page
  {
    var v := Shrunk(Sub(t, s.path), s.index);
    if s.path == [] {
      if t.kids != [] {
        SamePage(t.kids[s.index], LastPath(t.kids[s.index]), PoppedLeaf(t.kids[s.index]));
      }
    } else {
      SamePage(t.kids[s.path[0]], s.path[1..], v);
    }
  }

  lemma SamePage(t: Tree, path: seq<nat>, v: Tree)
    requires IsPath(t, path) && v.page == Sub(t, path).page
    ensures Graft(t, path, v).page == t.page
  {
  }
}
