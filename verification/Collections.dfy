/** A collection as a value: what the store and a root page mean (core/collection.h). */
module Collections {
  import opened KeyOrder
  import opened Trees
  import opened Freelists
  import opened Store
  import opened Lookup

  /** The store with the collection's root page; root 0 means that nothing was ever put. */
  datatype Coll = Coll(db: Db, root: nat)

  /** Stands for the tree of a collection without root. */
  const NO_TREE := Tree(0, [], [])

  function Height(t: Tree): nat {
    if t.kids == [] then 0 else 1 + Height(t.kids[0])
  }

  lemma {:induction false} HeightOfBalanced(t: Tree, h: nat)
    requires Balanced(t, h)
    ensures Height(t) == h
    decreases h
  {
    if h > 0 {
      HeightOfBalanced(t.kids[0], h - 1);
    }
  }

  /**
   * The collection is in order and t is its tree: stored below the root page, of one depth, strictly sorted,
   * and with pages that are all different, all allocated, and none of them free.
   */
  ghost predicate Valid(c: Coll, t: Tree) {
    if c.root == 0 then
      t == NO_TREE && Safe(c.db.free, multiset{})
    else
      && t.page == c.root && Stored(t, c.db.pages) && Balanced(t, Height(t))
      && Sorted(InOrder(t)) && Safe(c.db.free, Bag(t))
  }

  lemma ValidUnique(c: Coll, t: Tree, u: Tree)
    requires Valid(c, t) && Valid(c, u)
    ensures t == u
  {
    if c.root != 0 {
      StoredUnique(t, u, c.db.pages);
    }
  }

  ghost predicate IsValid(c: Coll) {
    exists t :: Valid(c, t)
  }

  /** The one tree of a valid collection. */
  ghost function TreeOf(c: Coll): (t: Tree)
    requires IsValid(c)
    ensures Valid(c, t)
  {
    var t :| Valid(c, t);
    t
  }

  lemma TreeOfIs(c: Coll, t: Tree)
    requires Valid(c, t)
    ensures IsValid(c) && TreeOf(c) == t
  {
    ValidUnique(c, t, TreeOf(c));
  }

  lemma SafeIsDistinct(f: Free, bag: multiset<nat>)
    requires Safe(f, bag)
    ensures Distinct(bag)
  {
    forall p
      ensures bag[p] <= 1
    {
      assert (bag + multiset(f.released))[p] <= 1;
    }
  }

  /** The place of a key in the in-order sequence, whether it is there or not. */
  function PlaceOf(t: Tree, key: Bytes): nat {
    var s := Search(t, key);
    Position(t, s.path, s.index)
  }

  // ---------------------------------------------------------------- find

  /** What `find` answers. */
  function Found(t: Tree, key: Bytes): Option<Item> {
    var s := Search(t, key);
    if s.found then Some(Sub(t, s.path).items[s.index]) else None
  }

  /** Find is look-up in the sorted sequence: an item is the answer exactly when it is there with this key. */
  lemma FindIsLookup(c: Coll, t: Tree, key: Bytes, x: Item)
    requires Valid(c, t)
    ensures Found(t, key) == Some(x) <==> x in InOrder(t) && x.key == key
    ensures Found(t, key) == None <==> !HasKey(InOrder(t), key)
  {
    if c.root != 0 {
      SearchIsExact(t, Height(t), key);
      SearchFindsKeys(t, Height(t), key);
      if x in InOrder(t) && x.key == key {
        var i :| 0 <= i < |InOrder(t)| && InOrder(t)[i] == x;
        assert HasKey(InOrder(t), key);
        LessTrichotomy(key, key);
      }
    } else {
      assert InOrder(t) == [];
    }
  }
}
