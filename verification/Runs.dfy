/** Whole runs of insertions and removals: the collection refines a map, and pages stay safe. */
module Runs {
  import opened KeyOrder
  import opened Trees
  import opened Sizing
  import opened Freelists
  import opened Store
  import opened Lookup
  import opened Collections
  import opened StaleCopies
  import opened Putting
  import opened Removing

  // ---------------------------------------------------------------- sorted sequences as maps

  function ToMap(s: seq<Item>): map<Bytes, Bytes> {
    if s == [] then map[] else ToMap(s[..|s| - 1])[s[|s| - 1].key := s[|s| - 1].value]
  }

  lemma {:induction false} ToMapLooksUp(s: seq<Item>, key: Bytes)
    requires Sorted(s)
    ensures key in ToMap(s) <==> HasKey(s, key)
    ensures forall i :: 0 <= i < |s| && s[i].key == key ==> key in ToMap(s) && ToMap(s)[key] == s[i].value
  {
    if s != [] {
      var front, last := s[..|s| - 1], s[|s| - 1];
      ToMapLooksUp(front, key);
      LessTrichotomy(key, key);
      forall i | 0 <= i < |s| && s[i].key == key
        ensures key in ToMap(s) && ToMap(s)[key] == s[i].value
      {
        if i < |s| - 1 {
          assert front[i] == s[i] && Less(s[i].key, last.key);
        }
      }
      if HasKey(front, key) {
        var i :| 0 <= i < |front| && front[i].key == key;
        assert s[i].key == key;
      }
      if HasKey(s, key) && key != last.key {
        var i :| 0 <= i < |s| && s[i].key == key;
        assert front[i].key == key;
      }
    }
  }

  /** Inserting a fresh key at its place is a map update. */
  lemma {:induction false} InsertIsUpdate(s: seq<Item>, g: nat, item: Item)
    requires g <= |s| && forall i :: g <= i < |s| ==> s[i].key != item.key
    ensures ToMap(InsertAt(s, g, item)) == ToMap(s)[item.key := item.value]
  {
    var r := InsertAt(s, g, item);
    if g == |s| {
      assert r[..|r| - 1] == s;
    } else {
      var front, last := s[..|s| - 1], s[|s| - 1];
      assert r[..|r| - 1] == InsertAt(front, g, item) && r[|r| - 1] == last;
      InsertIsUpdate(front, g, item);
    }
  }

  lemma {:induction false} KeysOfMap(s: seq<Item>, key: Bytes)
    requires forall i :: 0 <= i < |s| ==> s[i].key != key
    ensures key !in ToMap(s)
  {
    if s != [] {
      KeysOfMap(s[..|s| - 1], key);
    }
  }

  /** Erasing an item whose key no other item has is removing its key. */
  lemma {:induction false} EraseIsRemoval(s: seq<Item>, g: nat)
    requires g < |s| && forall i :: 0 <= i < |s| && i != g ==> s[i].key != s[g].key
    ensures ToMap(RemoveAt(s, g)) == ToMap(s) - {s[g].key}
  {
    var front, last := s[..|s| - 1], s[|s| - 1];
    if g == |s| - 1 {
      assert RemoveAt(s, g) == front;
      KeysOfMap(front, last.key);
    } else {
      var r := RemoveAt(s, g);
      assert r[..|r| - 1] == RemoveAt(front, g) && r[|r| - 1] == last;
      EraseIsRemoval(front, g);
    }
  }

  lemma SortedKeysDiffer(s: seq<Item>, g: nat)
    requires Sorted(s) && g < |s|
    ensures forall i :: 0 <= i < |s| && i != g ==> s[i].key != s[g].key
  {
    forall i | 0 <= i < |s| && i != g
      ensures s[i].key != s[g].key
    {
      LessTrichotomy(s[i].key, s[g].key);
      assert if i < g then Less(s[i].key, s[g].key) else Less(s[g].key, s[i].key);
    }
  }

  // ---------------------------------------------------------------- runs

  datatype Op = Put(item: Item) | Remove(key: Bytes)

  /** The operation runs on what it relies on, and none of its steps works on a stale copy that matters. */
  ghost predicate Allowed(c: Coll, op: Op) {
    && IsValid(c)
    && var t := TreeOf(c);
       match op
       case Put(item) => !HasKey(InOrder(t), item.key) && CanPut(c, t, item) && !Crowded(c, t, item)
       case Remove(key) => CanRemove(c, t, key) && !Clashes(c, t, key)
  }

  ghost function Next(c: Coll, op: Op): Coll
    requires Allowed(c, op)
  {
    match op
    case Put(item) => PutState(c, TreeOf(c), item)
    case Remove(key) => RemoveState(c, TreeOf(c), key)
  }

  ghost predicate IsRun(states: seq<Coll>, ops: seq<Op>) {
    && |states| == |ops| + 1
    && forall i :: 0 <= i < |ops| ==> Allowed(states[i], ops[i]) && states[i + 1] == Next(states[i], ops[i])
  }

  /** What the collection stands for. */
  ghost function Meaning(c: Coll): map<Bytes, Bytes>
    requires IsValid(c)
  {
    ToMap(InOrder(TreeOf(c)))
  }

  function ApplyTo(m: map<Bytes, Bytes>, op: Op): map<Bytes, Bytes> {
    match op
    case Put(item) => m[item.key := item.value]
    case Remove(key) => m - {key}
  }

  function ApplyAll(m: map<Bytes, Bytes>, ops: seq<Op>): map<Bytes, Bytes> {
    if ops == [] then m else ApplyTo(ApplyAll(m, ops[..|ops| - 1]), ops[|ops| - 1])
  }

  /** One allowed operation does to the collection what it does to a map. */
  lemma StepRefinesMap(c: Coll, op: Op)
    requires Allowed(c, op)
    ensures IsValid(Next(c, op)) && Meaning(Next(c, op)) == ApplyTo(Meaning(c), op)
  {
    var t := TreeOf(c);
    SortedNow(c, t);
    match op
    case Put(item) =>
      var u := PutInserts(c, t, item);
      TreeOfIs(Next(c, op), u);
      FreshKeyDiffers(InOrder(t), item.key);
      InsertIsUpdate(InOrder(t), PlaceOf(t, item.key), item);
    case Remove(key) =>
      if HasKey(InOrder(t), key) {
        var u := RemoveDeletes(c, t, key);
        TreeOfIs(Next(c, op), u);
        SortedKeysDiffer(InOrder(t), PlaceOf(t, key));
        EraseIsRemoval(InOrder(t), PlaceOf(t, key));
      } else {
        RemoveAbsent(c, t, key);
        ToMapLooksUp(InOrder(t), key);
        assert ToMap(InOrder(t)) - {key} == ToMap(InOrder(t));
      }
  }

  lemma FreshKeyDiffers(s: seq<Item>, key: Bytes)
    requires !HasKey(s, key)
    ensures forall i :: 0 <= i < |s| ==> s[i].key != key
  {
  }

  lemma SortedNow(c: Coll, t: Tree)
    requires Valid(c, t)
    ensures Sorted(InOrder(t))
  {
    if c.root == 0 {
      assert InOrder(t) == [];
    }
  }

  lemma RunPrefix(states: seq<Coll>, ops: seq<Op>, n: nat)
    requires IsRun(states, ops) && n <= |ops|
    ensures IsRun(states[..n + 1], ops[..n]) && states[..n + 1][0] == states[0] && states[..n + 1][n] == states[n]
  {
    var front, done := states[..n + 1], ops[..n];
    forall i | 0 <= i < |done|
      ensures Allowed(front[i], done[i]) && front[i + 1] == Next(front[i], done[i])
    {
      assert front[i] == states[i] && front[i + 1] == states[i + 1] && done[i] == ops[i];
    }
  }

  /** A run from a valid collection ends in a valid one whose meaning is the fold of the operations over a map. */
  lemma {:induction false} RunRefinesMap(states: seq<Coll>, ops: seq<Op>)
    requires IsRun(states, ops) && IsValid(states[0])
    ensures IsValid(states[|ops|]) && Meaning(states[|ops|]) == ApplyAll(Meaning(states[0]), ops)
  {
    if ops != [] {
      var n := |ops| - 1;
      RunPrefix(states, ops, n);
      RunRefinesMap(states[..n + 1], ops[..n]);
      StepRefinesMap(states[n], ops[n]);
    }
  }

  /** After a run, `find` answers what the map answers. */
  lemma FindAfterRun(states: seq<Coll>, ops: seq<Op>, key: Bytes)
    requires IsRun(states, ops) && IsValid(states[0])
    ensures IsValid(states[|ops|])
    ensures var m := ApplyAll(Meaning(states[0]), ops);
            Found(TreeOf(states[|ops|]), key) == if key in m then Some(Item(key, m[key])) else None
  {
    RunRefinesMap(states, ops);
    var c := states[|ops|];
    var t := TreeOf(c);
    SortedNow(c, t);
    ToMapLooksUp(InOrder(t), key);
    if HasKey(InOrder(t), key) {
      var i :| 0 <= i < |InOrder(t)| && InOrder(t)[i].key == key;
      FindIsLookup(c, t, key, InOrder(t)[i]);
    } else {
      FindIsLookup(c, t, key, Item(key, []));
    }
  }

  // ---------------------------------------------------------------- page safety

  /**
   * Page safety: free pages are all different; whatever page child pointers lead to from the root is a data page
   * that was given out and is not free; no page is reached in two ways; and the next page the allocator gives out is
   * neither such a page nor one of the reserved ones.
   */
  ghost predicate PagesSafe(c: Coll) {
    && (forall p :: multiset(c.db.free.released)[p] <= 1)
    && (forall p :: p in c.db.free.released ==> FIRST_DATA_PAGE <= p <= c.db.free.maxPage)
    && FIRST_DATA_PAGE <= NextPage(c.db.free).1
    && (c.root != 0 ==>
          forall trail: seq<nat>, p: nat :: Leads(c.db.pages, c.root, trail, p) ==>
            && FIRST_DATA_PAGE <= p <= c.db.free.maxPage && p !in c.db.free.released && p != NextPage(c.db.free).1)
    && (c.root != 0 ==>
          forall path: seq<nat>, other: seq<nat>, p: nat ::
            Arrives(c.db.pages, c.root, path, p) && Arrives(c.db.pages, c.root, other, p) ==> path == other)
  }

  /** Following these child indexes from page p ends at page q. */
  predicate Arrives(pages: map<nat, Body>, p: nat, path: seq<nat>, q: nat)
    decreases |path|
  {
    if path == [] then p == q
    else p in pages && path[0] < |pages[p].children| && Arrives(pages, pages[p].children[path[0]], path[1..], q)
  }

  lemma {:induction false} ArrivesInTree(t: Tree, pages: map<nat, Body>, path: seq<nat>, q: nat)
    requires Stored(t, pages) && Arrives(pages, t.page, path, q)
    ensures q in Bag(t)
    ensures path != [] ==>
              && path[0] < |t.kids| && Arrives(pages, t.kids[path[0]].page, path[1..], q)
              && q in Bag(t.kids[path[0]])
    decreases |path|
  {
    if path != [] {
      var k := path[0];
      assert |Pages(t.kids)| == |t.kids| && Stored(t.kids[k], pages);
      ArrivesInTree(t.kids[k], pages, path[1..], q);
      BagAt(t.kids, k);
    }
  }

  /** In a tree without repeated pages, one list of child indexes at most ends at a page. */
  lemma {:induction false} OneWay(t: Tree, pages: map<nat, Body>, path: seq<nat>, other: seq<nat>, q: nat)
    requires Stored(t, pages) && Distinct(Bag(t)) && Arrives(pages, t.page, path, q) && Arrives(pages, t.page, other, q)
    ensures path == other
    decreases |path|
  {
    ArrivesInTree(t, pages, path, q);
    ArrivesInTree(t, pages, other, q);
    if path != [] && other != [] {
      KidsShareNothing(t, path[0], other[0], q);
      DistinctParts(t, path[0]);
      assert Stored(t.kids[path[0]], pages);
      OneWay(t.kids[path[0]], pages, path[1..], other[1..], q);
      assert path == [path[0]] + path[1..] && other == [other[0]] + other[1..];
    } else if path != [] {
      DistinctParts(t, path[0]);
    } else if other != [] {
      DistinctParts(t, other[0]);
    }
  }

  lemma LaterKidPages(t: Tree, i: nat, j: nat, q: nat)
    requires i < j < |t.kids| && q in Bag(t.kids[j])
    ensures q in BagAll(t.kids[i + 1..])
  {
    var later := t.kids[i + 1..];
    assert later[j - i - 1] == t.kids[j];
    BagAt(later, j - i - 1);
  }

  lemma KidsShareNothing(t: Tree, i: nat, j: nat, q: nat)
    requires Distinct(Bag(t)) && i < |t.kids| && j < |t.kids| && q in Bag(t.kids[i]) && q in Bag(t.kids[j])
    ensures i == j
  {
    if i < j {
      DistinctParts(t, i);
      LaterKidPages(t, i, j, q);
    } else if j < i {
      DistinctParts(t, j);
      LaterKidPages(t, j, i, q);
    }
  }

  lemma ValidIsSafe(c: Coll, t: Tree)
    requires Valid(c, t)
    ensures PagesSafe(c)
  {
    var used := if c.root == 0 then multiset{} else Bag(t);
    var free := multiset(c.db.free.released);
    NextPageIsFresh(c.db.free, used);
    assert forall p :: free[p] <= (used + free)[p];
    assert forall p :: p in c.db.free.released ==> p in used + free;
    if c.root != 0 {
      forall trail: seq<nat>, p: nat | Leads(c.db.pages, c.root, trail, p)
        ensures FIRST_DATA_PAGE <= p <= c.db.free.maxPage && p !in c.db.free.released && p != NextPage(c.db.free).1
      {
        LeadsStaysInTree(t, c.db.pages, trail, p);
        assert (used + free)[p] <= 1 && p in used + free;
      }
      SafeIsDistinct(c.db.free, Bag(t));
      forall path: seq<nat>, other: seq<nat>, p: nat |
        Arrives(c.db.pages, c.root, path, p) && Arrives(c.db.pages, c.root, other, p)
        ensures path == other
      {
        OneWay(t, c.db.pages, path, other, p);
      }
    }
  }

  /** Every collection of a run is page safe. */
  lemma RunIsPageSafe(states: seq<Coll>, ops: seq<Op>, i: nat)
    requires IsRun(states, ops) && IsValid(states[0]) && i <= |ops|
    ensures PagesSafe(states[i])
  {
    RunPrefix(states, ops, i);
    RunRefinesMap(states[..i + 1], ops[..i]);
    ValidIsSafe(states[i], TreeOf(states[i]));
  }

  // ---------------------------------------------------------------- the start

  /**
   * A new database: page 1 is taken for the free list, and page 2 by an empty node that nothing points to.
   * The collection has no root.
   */
  function NewDatabase(limits: Limits): (c: Coll)
    ensures Logged(c.db)
  {
    var (f1, freelistPage) := NextPage(Free(0, []));
    var (f2, page) := NextPage(f1);
    var none := Db(limits, map[], f2, []);
    assert Logged(none);
    Coll(Write(none, Copy(page, Body([], []))), 0)
  }

  lemma NewDatabaseIsEmpty(limits: Limits)
    ensures IsValid(NewDatabase(limits)) && Meaning(NewDatabase(limits)) == map[]
    ensures NewDatabase(limits)
         == Coll(Db(limits, map[2 := Body([], [])], Free(2, []), [Copy(2, Body([], []))]), 0)
  {
    var c := NewDatabase(limits);
    assert c.db.free == Free(2, []);
    assert Valid(c, NO_TREE);
    TreeOfIs(c, NO_TREE);
    assert InOrder(NO_TREE) == [];
  }
}
