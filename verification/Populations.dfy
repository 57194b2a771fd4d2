/**
 * Which nodes are over-populated after an operation: what the split loop is documented for (core/node.h,
 * core/collection.h), exactly when the program misses it, that the loop over fresh copies does not, and exactly when a
 * removal makes such a node.
 */
module Populations {
  import opened KeyOrder
  import opened Trees
  import opened Sizing
  import opened Freelists
  import opened Store
  import opened Lookup
  import opened Splitting
  import opened Collections
  import opened Putting
  import opened ExistingKeys
  import opened FreshCopies
  import opened NodeProperties
  import opened InsertionEnds
  import opened Removing
  import opened RemovalEnds

  function NotOver(o: Limits): Body -> bool {
    (b: Body) => !Over(o, b.items)
  }

  /** No node of the tree is over-populated. */
  predicate Within(o: Limits, t: Tree) {
    EveryNode(NotOver(o), t)
  }

  predicate AllWithin(o: Limits, kids: seq<Tree>) {
    EveryTree(NotOver(o), kids)
  }

  lemma WithinIs(o: Limits, t: Tree)
    ensures Within(o, t) <==> !Over(o, t.items) && AllWithin(o, t.kids)
  {
    EveryIs(NotOver(o), t);
    assert BodyOf(t).items == t.items;
  }

  /** Both halves of a split node, and what hangs below them. */
  predicate HalvesWithin(o: Limits, items: seq<Item>)
    requires SplitIndex(o, items) != -1
  {
    var s := SplitIndex(o, items);
    !Over(o, items[..s]) && !Over(o, items[s + 1..])
  }

  lemma HalvesAreBodies(o: Limits, v: Tree)
    requires CanSplit(o, BodyOf(v))
    ensures GoodHalves(NotOver(o), o, BodyOf(v)) <==> HalvesWithin(o, v.items)
  {
  }

  /** The children of a parent after a split of child k, as v. */
  lemma SplitIntoWithin(o: Limits, free: Free, t: Tree, k: nat, v: Tree)
    requires k <= |t.items| && k < |t.kids| && CanSplit(o, BodyOf(v))
    ensures AllWithin(o, SplitInto(o, free, t, k, v).kids)
       <==> && AllWithin(o, t.kids[..k]) && AllWithin(o, t.kids[k + 1..])
            && HalvesWithin(o, v.items) && AllWithin(o, v.kids)
  {
    SplitIntoEvery(NotOver(o), o, free, t, k, v);
    HalvesAreBodies(o, v);
  }

  // ---------------------------------------------------------------- the program's loop

  /** The items of the node t after it has adopted what its child on the path hands up, if it does. */
  function ItemsAfter(o: Limits, t: Tree, path: seq<nat>): seq<Item>
    requires IsPath(t, path)
  {
    if path == [] then t.items
    else
      var items := t.kids[path[0]].items;
      if Over(o, items) && SplitIndex(o, items) != -1 then
        InsertAt(t.items, path[0], items[SplitIndex(o, items)])
      else t.items
  }

  /**
   * Below t nothing is over-populated after the loop: off the path nothing was; a node on it that is split has
   * halves that are not; and one that is not split is not over-populated after what it has adopted.
   */
  predicate SettlesBelow(o: Limits, t: Tree, path: seq<nat>)
    requires IsPath(t, path)
    decreases |path|
  {
    if path == [] then AllWithin(o, t.kids)
    else
      var k, kid, q := path[0], t.kids[path[0]], path[1..];
      && AllWithin(o, t.kids[..k]) && AllWithin(o, t.kids[k + 1..]) && SettlesBelow(o, kid, q)
      && (if Over(o, kid.items) then SplitIndex(o, kid.items) != -1 && HalvesWithin(o, kid.items)
          else !Over(o, ItemsAfter(o, kid, q)))
  }

  lemma {:induction false} AfterSplitsSettles(o: Limits, free: Free, t: Tree, path: seq<nat>)
    requires IsPath(t, path) && PathSplits(o, t, path) && !AdjacentOver(o, t, path)
    ensures var u := AfterSplits(o, free, t, path);
            && u.items == ItemsAfter(o, t, path) && (!ChildOver(o, t, path) ==> BodyOf(u) == BodyOf(t))
            && (AllWithin(o, u.kids) <==> SettlesBelow(o, t, path))
    decreases |path|
  {
    if path != [] {
      AfterSplitsSettles(o, free, t.kids[path[0]], path[1..]);
      LevelSettlesIff(o, free, t, path, AfterSplits(o, free, t.kids[path[0]], path[1..]));
    }
  }

  lemma LevelSettlesIff(o: Limits, free: Free, t: Tree, path: seq<nat>, v: Tree)
    requires IsPath(t, path) && path != [] && PathSplits(o, t, path) && !AdjacentOver(o, t, path)
    requires var kid, q := t.kids[path[0]], path[1..];
             && v == AfterSplits(o, free, kid, q) && v.items == ItemsAfter(o, kid, q)
             && (!ChildOver(o, kid, q) ==> BodyOf(v) == BodyOf(kid))
             && (AllWithin(o, v.kids) <==> SettlesBelow(o, kid, q))
    ensures var u := AfterSplits(o, free, t, path);
            && u.items == ItemsAfter(o, t, path) && (!ChildOver(o, t, path) ==> BodyOf(u) == BodyOf(t))
            && (AllWithin(o, u.kids) <==> SettlesBelow(o, t, path))
  {
    var k, kid, q := path[0], t.kids[path[0]], path[1..];
    if Over(o, kid.items) {
      assert BodyOf(v) == BodyOf(kid) && v.items == kid.items;
      assert CanSplit(o, BodyOf(v));
      assert AfterSplits(o, free, t, path) == SplitInto(o, FreeAfter(o, free, kid, q), t, k, v);
      SplitIntoWithin(o, FreeAfter(o, free, kid, q), t, k, v);
    } else {
      assert AfterSplits(o, free, t, path) == t.(kids := t.kids[k := v]);
      KeptIntoWithin(o, t, k, v);
    }
  }

  lemma KeptIntoWithin(o: Limits, t: Tree, k: nat, v: Tree)
    requires k < |t.kids|
    ensures AllWithin(o, t.kids[k := v])
       <==> AllWithin(o, t.kids[..k]) && AllWithin(o, t.kids[k + 1..]) && !Over(o, v.items) && AllWithin(o, v.kids)
    ensures v.page == t.kids[k].page ==> BodyOf(t.(kids := t.kids[k := v])) == BodyOf(t)
  {
    EveryReplaced(NotOver(o), t.kids, k, v);
    WithinIs(o, v);
    if v.page == t.kids[k].page {
      assert Pages(t.kids[k := v]) == Pages(t.kids);
    }
  }

  /** After `put` no node is over-populated. */
  predicate PutSettles(c: Coll, t: Tree, item: Item) {
    if c.root == 0 then !Over(c.db.lim, [item])
    else
      var s, o := Search(t, item.key), c.db.lim;
      var t1 := Inserted(t, s, item);
      && SettlesBelow(o, t1, s.path)
      && (if Over(o, t1.items) then
            SplitIndex(o, t1.items) != -1 && HalvesWithin(o, t1.items) && !Over(o, [t1.items[SplitIndex(o, t1.items)]])
          else !Over(o, ItemsAfter(o, t1, s.path)))
  }

  lemma GrowIntoWithin(o: Limits, free: Free, v: Tree)
    requires CanSplit(o, BodyOf(v))
    ensures Within(o, GrowInto(o, free, v))
       <==> HalvesWithin(o, v.items) && AllWithin(o, v.kids) && !Over(o, [v.items[SplitIndex(o, v.items)]])
  {
    var top := Tree(NextPage(free).1, [], [v]);
    SplitIntoWithin(o, NextPage(free).0, top, 0, v);
    assert top.kids[..0] == [] && top.kids[1..] == [];
    assert GrowInto(o, free, v).items == [v.items[SplitIndex(o, v.items)]];
    WithinIs(o, GrowInto(o, free, v));
  }

  /**
   * Exactly when an over-populated node is left, by an insertion that loses nothing: a parent that adopts an item is
   * judged by its copy from before, so it may stay over-populated.
   */
  lemma PutSettlesIff(c: Coll, t: Tree, item: Item)
    requires Valid(c, t) && CanPut(c, t, item) && !HasKey(InOrder(t), item.key) && !Crowded(c, t, item)
    ensures Valid(PutState(c, t, item), PutTree(c, t, item))
    ensures Within(c.db.lim, PutTree(c, t, item)) <==> PutSettles(c, t, item)
  {
    var u := PutInserts(c, t, item);
    WithinIs(c.db.lim, u);
    if c.root != 0 {
      var s, o := Search(t, item.key), c.db.lim;
      var t1 := Inserted(t, s, item);
      PathSplitsIs(o, t1, s.path);
      AfterSplitsSettles(o, c.db.free, t1, s.path);
      var v := AfterSplits(o, c.db.free, t1, s.path);
      if Over(o, t1.items) {
        assert BodyOf(v) == BodyOf(t1);
        GrowIntoWithin(o, FreeAfter(o, c.db.free, t1, s.path), v);
      }
    }
  }

  // ---------------------------------------------------------------- items of usual sizes

  /** The items are small for the thresholds, and the minimum leaves enough of them in a left half. */
  predicate Splittable(o: Limits, least: nat, most: nat) {
    && 0 < least && SmallFor(o, most)
    && (most * (least + PAGE_NUM_SIZE)) as real <= (o.min - HEADER_SIZE as real) * least as real
    && SmallOnTheLeft(most as real, o.max - o.min, o.min - 3.0)
  }

  /** Items of m bytes make up for the distance of the thresholds, or enough of them come before the split index. */
  predicate SmallOnTheLeft(m: real, gap: real, room: real) {
    m <= gap || (m + 8.0) * (m - gap + 16.0) <= 8.0 * room
  }

  predicate Sized(items: seq<Item>, least: nat, most: nat) {
    ItemsUpTo(items, most) && ItemsFrom(items, least)
  }

  lemma SizedPart(items: seq<Item>, i: nat, j: nat, least: nat, most: nat)
    requires i <= j <= |items| && Sized(items, least, most)
    ensures Sized(items[i..j], least, most)
  {
    var part := items[i..j];
    assert forall m :: 0 <= m < |part| ==> part[m] == items[i + m];
  }

  /** A node that has grown by one item beyond the maximum splits into nodes within it. */
  lemma HalvesAreWithin(o: Limits, items: seq<Item>, least: nat, most: nat)
    requires Splittable(o, least, most) && Sized(items, least, most)
    requires NodeSize(items) as real <= o.max + most as real && SplitIndex(o, items) != -1
    ensures HalvesWithin(o, items) && !Over(o, [items[SplitIndex(o, items)]])
  {
    var s := SplitIndex(o, items);
    SplitIndexIsLeast(o, items);
    LeftIsWithin(o, items, s, least, most);
    RightIsWithin(o, items, s, least, most);
    PayloadOfOne(items[s]);
  }

  lemma PayloadSnoc(items: seq<Item>, i: nat)
    requires i < |items|
    ensures Payload(items[..i + 1]) == Payload(items[..i]) + |items[i].key| + |items[i].value|
  {
    assert items[..i + 1][..i] == items[..i];
  }

  lemma LeftIsWithin(o: Limits, items: seq<Item>, s: nat, least: nat, most: nat)
    requires Splittable(o, least, most) && Sized(items, least, most) && 0 < s < |items|
    requires PrefixSize(items[..s]) as real > o.min
    requires forall j :: 0 < j < s ==> PrefixSize(items[..j]) as real <= o.min
    ensures !Over(o, items[..s])
  {
    PayloadSnoc(items, s - 1);
    if s == 1 {
      assert items[..0] == [];
    } else {
      assert PrefixSize(items[..s - 1]) as real <= o.min;
      SizedPart(items, 0, s, least, most);
      assert items[0..s] == items[..s];
      LeftHasMany(o, items[..s], least, most);
    }
  }

  lemma LeftHasMany(o: Limits, left: seq<Item>, least: nat, most: nat)
    requires SmallOnTheLeft(most as real, o.max - o.min, o.min - 3.0) && 0 < least && Sized(left, least, most)
    requires |left| >= 2 && PrefixSize(left) as real > o.min
    ensures most as real <= o.max - o.min + 8.0 * (|left| as real - 2.0)
  {
    var n := |left|;
    assert least <= |left[0].key| + |left[0].value| <= most;
    PayloadUpTo(left, most);
    Reals(most, n, Payload(left));
    ManyInLeft(most as real, n as real, o.max - o.min, o.min - 3.0);
  }

  lemma Reals(m: nat, n: nat, payload: nat)
    requires payload <= m * n
    ensures (HEADER_SIZE + payload + PAGE_NUM_SIZE * n) as real <= 3.0 + m as real * n as real + 8.0 * n as real
  {
    assert (m * n) as real == m as real * n as real;
  }

  /** The least prefix above the minimum has so many items that the page numbers counted for each make up the rest. */
  lemma ManyInLeft(m: real, s: real, gap: real, room: real)
    requires m > 0.0 && s >= 2.0 && m * s + 8.0 * s > room && SmallOnTheLeft(m, gap, room)
    ensures m <= gap + 8.0 * (s - 2.0)
  {
    if m > gap + 8.0 * (s - 2.0) {
      assert 8.0 * s * (m + 8.0) == 8.0 * (m * s + 8.0 * s);
      TimesMore(m - gap + 16.0, 8.0 * s, m + 8.0);
    }
  }

  lemma RightIsWithin(o: Limits, items: seq<Item>, s: nat, least: nat, most: nat)
    requires Splittable(o, least, most) && Sized(items, least, most) && 0 < s < |items|
    requires NodeSize(items) as real <= o.max + most as real && PrefixSize(items[..s]) as real > o.min
    ensures !Over(o, items[s + 1..])
  {
    var left := items[..s];
    SizedPart(items, 0, s, least, most);
    assert items[0..s] == left;
    PayloadFrom(left, least);
    EnoughLeft(Payload(left), s, least, most, o.min);
    assert items == left + ([items[s]] + items[s + 1..]);
    PayloadJoin(left, [items[s]] + items[s + 1..]);
    PayloadJoin([items[s]], items[s + 1..]);
  }

  /** What the left half keeps is at least what one item can be too much. */
  lemma EnoughLeft(payload: nat, s: nat, least: nat, most: nat, min: real)
    requires 0 < least && least * s <= payload && (HEADER_SIZE + payload + PAGE_NUM_SIZE * s) as real > min
    requires (most * (least + PAGE_NUM_SIZE)) as real <= (min - HEADER_SIZE as real) * least as real
    ensures most <= payload
  {
    var l := least as real;
    TimesMore((payload + 8 * s) as real, min - 3.0, l);
    assert (payload + 8 * s) as real * l == ((payload + 8 * s) * least) as real;
    EightTimes(payload, s, least);
    assert (payload + 8 * s) * least <= payload * (least + 8);
    if most > payload {
      TimesLess(payload, most, least + 8);
    }
  }

  lemma TimesMore(a: real, b: real, m: real)
    requires a > b && m > 0.0
    ensures a * m > b * m
  {
  }

  lemma EightTimes(payload: nat, s: nat, least: nat)
    requires least * s <= payload
    ensures (payload + 8 * s) * least <= payload * (least + 8)
  {
    assert (payload + 8 * s) * least == payload * least + 8 * (least * s);
    assert payload * (least + 8) == payload * least + 8 * payload;
  }

  lemma TimesLess(a: nat, b: nat, m: nat)
    requires a < b && m > 0
    ensures a * m < b * m
  {
  }

  // ---------------------------------------------------------------- the loop over fresh copies

  /** This loop keeps order and shape. */
  lemma {:induction false} AfterFreshReads(o: Limits, free: Free, t: Tree, h: nat, path: seq<nat>)
    requires Balanced(t, h) && IsPath(t, path)
    ensures var u := AfterFresh(o, free, t, path); Balanced(u, h) && InOrder(u) == InOrder(t)
    decreases |path|
  {
    if path != [] {
      var k, kid, q := path[0], t.kids[path[0]], path[1..];
      assert Balanced(kid, h - 1);
      AfterFreshReads(o, free, kid, h - 1, q);
      var v := AfterFresh(o, free, kid, q);
      var w := t.(kids := t.kids[k := v]);
      AtChild(t, k);
      ReplaceChild(t, k, v);
      if Over(o, v.items) && CanSplit(o, BodyOf(v)) {
        var f := FreeFresh(o, free, kid, q);
        SplitReads(w, h, k, v, SplitIndex(o, v.items), NextPage(f).1, SplitInto(o, f, w, k, v));
        AtChild(w, k);
      }
    }
  }

  /** Nothing is over-populated but, by one item at most, the last node of the path. */
  predicate OnlyLastOver(o: Limits, t: Tree, path: seq<nat>, most: nat)
    requires IsPath(t, path)
    decreases |path|
  {
    if path == [] then AllWithin(o, t.kids) && NodeSize(t.items) as real <= o.max + most as real
    else
      && !Over(o, t.items) && OnlyLastOver(o, t.kids[path[0]], path[1..], most)
      && AllWithin(o, t.kids[..path[0]]) && AllWithin(o, t.kids[path[0] + 1..])
  }

  lemma SizedNode(t: Tree, h: nat, least: nat, most: nat)
    requires Balanced(t, h) && Sized(InOrder(t), least, most)
    ensures Sized(t.items, least, most)
  {
    forall i | 0 <= i < |t.items|
      ensures least <= |t.items[i].key| + |t.items[i].value| <= most
    {
      NodeItemPosition(t, h, i);
    }
  }

  lemma SizedKid(t: Tree, h: nat, k: nat, least: nat, most: nat)
    requires Balanced(t, h) && h > 0 && k < |t.kids| && Sized(InOrder(t), least, most)
    ensures Sized(InOrder(t.kids[k]), least, most)
  {
    AtChild(t, k);
    var i := |Before(t, k)|;
    SizedPart(InOrder(t), i, i + |InOrder(t.kids[k])|, least, most);
    assert InOrder(t)[i..i + |InOrder(t.kids[k])|] == InOrder(t.kids[k]);
  }

  /** Below the top nothing is over-populated after the loop, and the top by one item at most. */
  lemma {:induction false} AfterFreshSettles(o: Limits, free: Free, t: Tree, h: nat, path: seq<nat>, least: nat,
                                             most: nat)
    requires Balanced(t, h) && IsPath(t, path) && Splittable(o, least, most) && Sized(InOrder(t), least, most)
    requires OnlyLastOver(o, t, path, most)
    ensures var u := AfterFresh(o, free, t, path);
            AllWithin(o, u.kids) && NodeSize(u.items) as real <= o.max + most as real
    decreases |path|
  {
    if path != [] {
      var k, kid, q := path[0], t.kids[path[0]], path[1..];
      assert Balanced(kid, h - 1);
      assert Sized(InOrder(kid), least, most) by {
        SizedKid(t, h, k, least, most);
      }
      AfterFreshSettles(o, free, kid, h - 1, q, least, most);
      PathLevelSettles(o, free, t, h, path, least, most);
    }
  }

  lemma PathLevelSettles(o: Limits, free: Free, t: Tree, h: nat, path: seq<nat>, least: nat, most: nat)
    requires Balanced(t, h) && IsPath(t, path) && path != [] && Splittable(o, least, most)
    requires OnlyLastOver(o, t, path, most) && Sized(InOrder(t.kids[path[0]]), least, most)
    requires var v := AfterFresh(o, free, t.kids[path[0]], path[1..]);
             AllWithin(o, v.kids) && NodeSize(v.items) as real <= o.max + most as real
    ensures var u := AfterFresh(o, free, t, path);
            AllWithin(o, u.kids) && NodeSize(u.items) as real <= o.max + most as real
  {
    var k, kid, q := path[0], t.kids[path[0]], path[1..];
    assert Balanced(kid, h - 1);
    var v := AfterFresh(o, free, kid, q);
    assert Balanced(v, h - 1) && Sized(InOrder(v), least, most) by {
      AfterFreshReads(o, free, kid, h - 1, q);
    }
    assert !Over(o, t.items) && AllWithin(o, t.kids[..k]) && AllWithin(o, t.kids[k + 1..]);
    LevelSettles(o, FreeFresh(o, free, kid, q), t, h, k, v, least, most);
  }

  lemma LevelSettles(o: Limits, free: Free, t: Tree, h: nat, k: nat, v: Tree, least: nat, most: nat)
    requires Balanced(t, h) && h > 0 && k <= |t.items| && k < |t.kids| && Splittable(o, least, most)
             && !Over(o, t.items)
    requires AllWithin(o, t.kids[..k]) && AllWithin(o, t.kids[k + 1..])
    requires Balanced(v, h - 1) && Sized(InOrder(v), least, most)
    requires AllWithin(o, v.kids) && NodeSize(v.items) as real <= o.max + most as real
    ensures var w := t.(kids := t.kids[k := v]);
            var u := if Over(o, v.items) && CanSplit(o, BodyOf(v)) then SplitInto(o, free, w, k, v) else w;
            AllWithin(o, u.kids) && NodeSize(u.items) as real <= o.max + most as real
  {
    var w := t.(kids := t.kids[k := v]);
    if Over(o, v.items) {
      SizedNode(v, h - 1, least, most);
      GrownCanSplit(o, v, h - 1, least, most);
      HalvesAreWithin(o, v.items, least, most);
      SplitIntoWithin(o, free, w, k, v);
      assert w.kids[..k] == t.kids[..k] && w.kids[k + 1..] == t.kids[k + 1..];
      InsertedSize(t.items, k, v.items[SplitIndex(o, v.items)]);
    } else {
      EveryReplaced(NotOver(o), t.kids, k, v);
    }
  }

  lemma GrownCanSplit(o: Limits, v: Tree, h: nat, least: nat, most: nat)
    requires Balanced(v, h) && Splittable(o, least, most) && Sized(v.items, least, most) && Over(o, v.items)
    ensures CanSplit(o, BodyOf(v))
  {
    SmallItemsCanBeSplit(o, v.items, most);
  }

  lemma FreshTreeSettles(o: Limits, free: Free, t: Tree, h: nat, path: seq<nat>, least: nat, most: nat)
    requires Balanced(t, h) && IsPath(t, path) && Splittable(o, least, most) && Sized(InOrder(t), least, most)
    requires OnlyLastOver(o, t, path, most)
    ensures Within(o, FreshTree(o, free, t, path))
  {
    AfterFreshSettles(o, free, t, h, path, least, most);
    AfterFreshReads(o, free, t, h, path);
    var v := AfterFresh(o, free, t, path);
    if Over(o, v.items) {
      SizedNode(v, h, least, most);
      GrownCanSplit(o, v, h, least, most);
      HalvesAreWithin(o, v.items, least, most);
      GrowIntoWithin(o, FreeFresh(o, free, t, path), v);
    }
  }

  /** In a tree without over-populated nodes, an insertion makes one of them too big by one item at most. */
  lemma {:induction false} OnlyLastIsOver(o: Limits, t: Tree, path: seq<nat>, v: Tree, most: nat)
    requires IsPath(t, path) && Within(o, t) && AllWithin(o, v.kids)
             && NodeSize(v.items) as real <= o.max + most as real
    ensures OnlyLastOver(o, Graft(t, path, v), path, most)
    decreases |path|
  {
    if path != [] {
      var k, r := path[0], Graft(t, path, v);
      assert Within(o, t.kids[k]);
      OnlyLastIsOver(o, t.kids[k], path[1..], v, most);
      assert r.kids[..k] == t.kids[..k] && r.kids[k + 1..] == t.kids[k + 1..];
      assert t.kids == t.kids[..k] + ([t.kids[k]] + t.kids[k + 1..]);
      EveryJoin(NotOver(o), t.kids[..k], [t.kids[k]] + t.kids[k + 1..]);
      EveryJoin(NotOver(o), [t.kids[k]], t.kids[k + 1..]);
    }
  }

  lemma {:induction false} SubWithin(o: Limits, t: Tree, path: seq<nat>)
    requires IsPath(t, path) && Within(o, t)
    ensures Within(o, Sub(t, path))
    decreases |path|
  {
    if path != [] {
      assert Within(o, t.kids[path[0]]);
      SubWithin(o, t.kids[path[0]], path[1..]);
    }
  }

  /** The tree right after the item is put in. */
  lemma InsertedOnlyLast(c: Coll, t: Tree, item: Item, least: nat, most: nat)
    requires Valid(c, t) && c.root != 0 && !HasKey(InOrder(t), item.key) && Within(c.db.lim, t)
    requires Sized(InOrder(t), least, most) && Sized([item], least, most)
    ensures var s := Search(t, item.key);
            var t1 := Inserted(t, s, item);
            && Balanced(t1, Height(t)) && |s.path| == Height(t) && Sized(InOrder(t1), least, most)
            && OnlyLastOver(c.db.lim, t1, s.path, most)
  {
    var s, h := Search(t, item.key), Height(t);
    SearchIsExact(t, h, item.key);
    SearchFindsKeys(t, h, item.key);
    SubShape(t, h, s.path);
    InsertedInLeaf(t, h, s, item);
    SubWithin(c.db.lim, t, s.path);
    InsertedSize(Sub(t, s.path).items, s.index, item);
    assert [item][0] == item;
    OnlyLastIsOver(c.db.lim, t, s.path, Grown(t, s, item), most);
    InsertedSized(InOrder(t), Position(t, s.path, s.index), item, least, most);
  }

  lemma InsertedSized(items: seq<Item>, k: nat, x: Item, least: nat, most: nat)
    requires k <= |items| && Sized(items, least, most) && least <= |x.key| + |x.value| <= most
    ensures Sized(InsertAt(items, k, x), least, most)
  {
  }

  /** The loop over fresh copies does what it is for: after it no node at all is over-populated, if none was before. */
  lemma PutFreshStaysWithin(c: Coll, t: Tree, item: Item, least: nat, most: nat) returns (u: Tree)
    requires Valid(c, t) && c.root != 0 && !HasKey(InOrder(t), item.key) && Within(c.db.lim, t)
    requires Splittable(c.db.lim, least, most) && Sized(InOrder(t), least, most) && Sized([item], least, most)
    ensures Valid(PutFresh(c, t, item), u) && Within(c.db.lim, u)
  {
    var s := Search(t, item.key);
    InsertedOnlyLast(c, t, item, least, most);
    u := PutFreshInserts(c, t, item);
    FreshTreeSettles(c.db.lim, c.db.free, Inserted(t, s, item), Height(t), s.path, least, most);
  }

  // ---------------------------------------------------------------- the program's loop, from a tree that is all right

  /** The parent of the last node on the path is over-populated after it has adopted an item. */
  predicate ParentOver(o: Limits, t: Tree, path: seq<nat>)
    requires IsPath(t, path)
    decreases |path|
  {
    path != []
    && (if |path| == 1 then Over(o, t.kids[path[0]].items) && Over(o, ItemsAfter(o, t, path))
        else ParentOver(o, t.kids[path[0]], path[1..]))
  }

  lemma {:induction false} SettlesUnlessParentOver(o: Limits, t: Tree, h: nat, path: seq<nat>, least: nat, most: nat)
    requires Balanced(t, h) && IsPath(t, path) && Splittable(o, least, most) && Sized(InOrder(t), least, most)
    requires OnlyLastOver(o, t, path, most)
    ensures !AdjacentOver(o, t, path)
    ensures SettlesBelow(o, t, path) && (path == [] || !Over(o, ItemsAfter(o, t, path))) <==> !ParentOver(o, t, path)
    decreases |path|
  {
    if path != [] {
      var k, kid, q := path[0], t.kids[path[0]], path[1..];
      assert Balanced(kid, h - 1);
      SizedKid(t, h, k, least, most);
      SettlesUnlessParentOver(o, kid, h - 1, q, least, most);
      if Over(o, kid.items) {
        assert q == [];
        SizedNode(kid, h - 1, least, most);
        GrownCanSplit(o, kid, h - 1, least, most);
        HalvesAreWithin(o, kid.items, least, most);
      }
    }
  }

  /**
   * Exactly when the program misses it, from a tree in which no node is over-populated: when the leaf is split and its
   * parent then has too much.
   */
  lemma PutStaysWithinIff(c: Coll, t: Tree, item: Item, least: nat, most: nat)
    requires Valid(c, t) && c.root != 0 && CanPut(c, t, item) && !HasKey(InOrder(t), item.key) && Within(c.db.lim, t)
    requires Splittable(c.db.lim, least, most) && Sized(InOrder(t), least, most) && Sized([item], least, most)
    ensures !Crowded(c, t, item) && Valid(PutState(c, t, item), PutTree(c, t, item))
    ensures var s := Search(t, item.key);
            Within(c.db.lim, PutTree(c, t, item)) <==> !ParentOver(c.db.lim, Inserted(t, s, item), s.path)
  {
    var s, o, h := Search(t, item.key), c.db.lim, Height(t);
    var t1 := Inserted(t, s, item);
    InsertedOnlyLast(c, t, item, least, most);
    SettlesUnlessParentOver(o, t1, h, s.path, least, most);
    PutSettlesIff(c, t, item);
    if s.path == [] && Over(o, t1.items) {
      SizedNode(t1, h, least, most);
      GrownCanSplit(o, t1, h, least, most);
      HalvesAreWithin(o, t1.items, least, most);
    }
  }

  // ---------------------------------------------------------------- removal

  /**
   * Exactly when `remove`, where it is exact deletion, leaves a node above the maximum, from a tree in which none is: a
   * merged node is, or a node that a step has given a larger separator. Nothing in the program splits it then.
   */
  lemma RemoveStaysWithinIff(c: Coll, t: Tree, key: Bytes)
    requires Valid(c, t) && CanRemove(c, t, key) && HasKey(InOrder(t), key) && !Clashes(c, t, key)
    requires Within(c.db.lim, t)
    ensures Search(t, key).found && Valid(RemoveState(c, t, key), RemoveTree(c, t, key))
    ensures Within(c.db.lim, RemoveTree(c, t, key)) <==> RemoveLeaves(NotOver(c.db.lim), c, t, key)
  {
    RemoveEveryIff(NotOver(c.db.lim), c, t, key);
  }
}
