/**
 * When the pages are roomy for both thresholds together, everything that a removal writes fits (core/node.cpp,
 * core/data_access_layer.h).
 */
module RoomyRemovals {
  import opened KeyOrder
  import opened Trees
  import opened Sizing
  import opened Endian
  import opened Lookup
  import opened Collections
  import opened Removing
  import opened NodeCodec
  import opened PageFit
  import opened NodeProperties
  import opened RemovalFit
  import opened RemovalEnds
  import opened Populations
  import opened RoomyPages

  /** A merged node has less than the maximum and the minimum together, and two items more. */
  function MergeBound(o: Limits, most: nat): real {
    o.max + o.min + (2 * most) as real
  }

  /** A page has room for a node of that size, with the slots of as many of the least items as it can have. */
  predicate RoomyForMerges(size: nat, o: Limits, least: nat, most: nat) {
    && 0 < least && size <= Pow256(2) && most as real <= o.min
    && MergeBound(o, most) * least as real + 12.0 * (MergeBound(o, most) - 11.0) <= (size - 1) as real * least as real
  }

  // ---------------------------------------------------------------- usual nodes

  /** Usual items, page numbers that a page can hold, and the right number of them. */
  predicate UsualBody(b: Body, least: nat, most: nat) {
    && Usual(b.items, least, most) && (b.children == [] || |b.children| == |b.items| + 1)
    && forall i {:trigger IsPageNum(b.children[i])} :: 0 <= i < |b.children| ==> IsPageNum(b.children[i])
  }

  function UsualOn(least: nat, most: nat): Body -> bool {
    (b: Body) => UsualBody(b, least, most)
  }

  lemma {:induction false} UsualTree(t: Tree, h: nat, least: nat, most: nat)
    requires Balanced(t, h) && Usual(InOrder(t), least, most) && PageNums(t)
    ensures EveryNode(UsualOn(least, most), t)
    decreases h
  {
    UsualNode(t, h, least, most);
    KidPageNums(t);
    forall i | 0 <= i < |t.kids|
      ensures EveryNode(UsualOn(least, most), t.kids[i])
    {
      assert Balanced(t.kids[i], h - 1) && PageNums(t.kids[i]);
      UsualKid(t, h, i, least, most);
      UsualTree(t.kids[i], h - 1, least, most);
    }
    EveryIs(UsualOn(least, most), t);
  }

  lemma BoundedFits(size: nat, o: Limits, b: Body, least: nat, most: nat)
    requires RoomyForMerges(size, o, least, most) && UsualBody(b, least, most)
    requires NodeSize(b.items) as real <= MergeBound(o, most)
    ensures Fits(size, b)
  {
    SlotsHaveRoom(Limits(o.min, MergeBound(o, most)), b.items, least, size);
    forall i | 0 <= i < |b.items|
      ensures ShortItem(b.items[i])
    {
      assert UsualItem(b.items[i], least, most);
    }
    CursorsApartIff(size, b);
  }

  lemma UsualJoined(a: Body, x: Item, b: Body, least: nat, most: nat)
    requires UsualBody(a, least, most) && UsualItem(x, least, most) && UsualBody(b, least, most)
    requires a.children == [] <==> b.children == []
    ensures UsualBody(Joined(a, x, b), least, most)
  {
    var m := Joined(a, x, b);
    forall i | 0 <= i < |m.children|
      ensures IsPageNum(m.children[i])
    {
      if i < |a.children| {
        assert IsPageNum(a.children[i]);
      } else {
        assert IsPageNum(b.children[i - |a.children|]);
      }
    }
  }

  lemma UsualExtended(r: Body, y: Item, c: Body, least: nat, most: nat)
    requires UsualBody(r, least, most) && UsualItem(y, least, most) && UsualBody(c, least, most)
    requires r.children == [] <==> c.children == []
    ensures UsualBody(Body(r.items + [y], r.children + FirstChild(c)), least, most)
  {
    if c.children != [] {
      assert IsPageNum(c.children[0]);
    }
  }

  lemma UsualReplaced(p: Body, i: nat, x: Item, least: nat, most: nat)
    requires UsualBody(p, least, most) && i < |p.items| && UsualItem(x, least, most)
    ensures UsualBody(Body(p.items[i := x], p.children), least, most)
    ensures NodeSize(p.items[i := x]) <= NodeSize(p.items) + most
  {
    ReplacedSize(p.items, i, x);
  }

  lemma ReplacedSize(items: seq<Item>, i: nat, x: Item)
    requires i < |items|
    ensures NodeSize(items[i := x]) <= NodeSize(items) + |x.key| + |x.value|
  {
    assert items == items[..i] + [items[i]] + items[i + 1..];
    assert items[i := x] == items[..i] + [x] + items[i + 1..];
    JoinedSize(items[..i], items[i], items[i + 1..]);
    JoinedSize(items[..i], x, items[i + 1..]);
  }

  lemma UsualWithout(p: Body, j: nat, least: nat, most: nat)
    requires UsualBody(p, least, most) && 0 < j < |p.children| && j <= |p.items|
    ensures UsualBody(Without(p, j), least, most) && NodeSize(Without(p, j).items) <= NodeSize(p.items)
  {
    PayloadWithout(p.items, j - 1);
    PageNumsWithout(p.children, j);
    var items := RemoveAt(p.items, j - 1);
    forall i | 0 <= i < |items|
      ensures UsualItem(items[i], least, most)
    {
      assert items[i] == p.items[if i < j - 1 then i else i + 1];
    }
  }

  // ---------------------------------------------------------------- one step

  /** The bodies around a step, all usual. */
  predicate UsualFamily(f: Family, least: nat, most: nat) {
    && UsualBody(f.parent, least, most) && UsualBody(f.left, least, most) && UsualBody(f.child, least, most)
    && UsualBody(f.right, least, most) && UsualBody(f.now, least, most)
  }

  /** Siblings are within the maximum, the child is under-populated, and the others are too big by one item at most. */
  predicate Bounded(o: Limits, f: Family, most: nat) {
    && !Over(o, f.left.items) && !Over(o, f.right.items) && Under(o, f.child.items)
    && NodeSize(f.now.items) <= NodeSize(f.child.items) + most
    && NodeSize(f.parent.items) as real <= o.max + most as real
  }

  lemma JoinedSize(a: seq<Item>, x: Item, b: seq<Item>)
    ensures NodeSize(a + [x] + b) == NodeSize(a) + |x.key| + |x.value| + NodeSize(b) - 11
  {
    PayloadJoin(a + [x], b);
    PayloadJoin(a, [x]);
    PayloadOfOne(x);
  }

  lemma MergedIsBounded(o: Limits, f: Family, least: nat, most: nat)
    requires Proper(f) && UsualFamily(f, least, most) && Bounded(o, f, most)
    ensures UsualBody(Merged(o, f), least, most) && NodeSize(Merged(o, f).items) as real <= MergeBound(o, most)
  {
    if f.k == 0 {
      FirstMergedIsBounded(o, f, least, most);
    } else {
      LaterMergedIsBounded(o, f, least, most);
    }
  }

  lemma FirstMergedIsBounded(o: Limits, f: Family, least: nat, most: nat)
    requires Proper(f) && f.k == 0 && UsualFamily(f, least, most) && Bounded(o, f, most)
    ensures UsualBody(Merged(o, f), least, most) && NodeSize(Merged(o, f).items) as real <= MergeBound(o, most)
  {
    var x, c := f.parent.items[0], if RightSpares(o, f) then f.child else f.now;
    assert UsualItem(x, least, most);
    UsualJoined(c, x, f.right, least, most);
    JoinedSize(c.items, x, f.right.items);
  }

  lemma LaterMergedIsBounded(o: Limits, f: Family, least: nat, most: nat)
    requires Proper(f) && f.k > 0 && UsualFamily(f, least, most) && Bounded(o, f, most)
    ensures UsualBody(Merged(o, f), least, most) && NodeSize(Merged(o, f).items) as real <= MergeBound(o, most)
  {
    var x := f.parent.items[f.k - 1];
    var r := Joined(f.left, x, f.child);
    assert UsualItem(x, least, most);
    assert NodeSize(r.items) <= NodeSize(f.left.items) + NodeSize(f.child.items) + most - 11 by {
      JoinedSize(f.left.items, x, f.child.items);
    }
    UsualJoined(f.left, x, f.child, least, most);
    if RightSpares(o, f) {
      assert UsualItem(f.parent.items[f.k], least, most);
      ExtendedIsBounded(r, f.parent.items[f.k], f.right, least, most);
    }
    assert NodeSize(Merged(o, f).items) <= NodeSize(f.left.items) + NodeSize(f.child.items) + 2 * most - 11;
  }

  lemma ExtendedIsBounded(r: Body, y: Item, c: Body, least: nat, most: nat)
    requires UsualBody(r, least, most) && UsualItem(y, least, most) && UsualBody(c, least, most)
    requires r.children == [] <==> c.children == []
    ensures UsualBody(Body(r.items + [y], r.children + FirstChild(c)), least, most)
    ensures NodeSize(r.items + [y]) <= NodeSize(r.items) + most
  {
    UsualExtended(r, y, c, least, most);
    PayloadJoin(r.items, [y]);
    PayloadOfOne(y);
  }

  lemma ParentsAreBounded(o: Limits, f: Family, least: nat, most: nat)
    requires Proper(f) && UsualFamily(f, least, most)
    ensures UsualBody(LeftParent(o, f), least, most) && UsualBody(RotatedParent(o, f), least, most)
    ensures NodeSize(LeftParent(o, f).items) <= NodeSize(f.parent.items) + most
    ensures NodeSize(RotatedParent(o, f).items) <= NodeSize(f.parent.items) + 2 * most
  {
    if LeftSpares(o, f) {
      var x := f.left.items[|f.left.items| - 1];
      assert UsualItem(x, least, most);
      UsualReplaced(f.parent, f.k - 1, x, least, most);
    }
    if RightSpares(o, f) {
      assert UsualItem(f.right.items[0], least, most);
      UsualReplaced(LeftParent(o, f), f.k, f.right.items[0], least, most);
    }
  }

  /** The parent that stays: at most one separator larger than before. */
  lemma ParentAfterIsBounded(o: Limits, f: Family, least: nat, most: nat)
    requires Proper(f) && UsualFamily(f, least, most)
    ensures UsualBody(ParentAfter(o, f), least, most)
    ensures NodeSize(ParentAfter(o, f).items) <= NodeSize(f.parent.items) + most
  {
    ParentAfterIs(o, f);
    var j := if f.k == 0 then 1 else f.k;
    if f.k > 0 && RightSpares(o, f) {
      assert UsualItem(f.right.items[0], least, most);
      UsualReplaced(f.parent, f.k, f.right.items[0], least, most);
      UsualWithout(Body(f.parent.items[f.k := f.right.items[0]], f.parent.children), j, least, most);
    } else {
      UsualWithout(f.parent, j, least, most);
    }
  }

  lemma RoomyStepFits(size: nat, o: Limits, f: Family, least: nat, most: nat)
    requires RoomyForMerges(size, o, least, most) && Proper(f) && UsualFamily(f, least, most) && Bounded(o, f, most)
    ensures StepFits(size, o, f)
  {
    MergedIsBounded(o, f, least, most);
    BoundedFits(size, o, Merged(o, f), least, most);
    ParentsAreBounded(o, f, least, most);
    BoundedFits(size, o, LeftParent(o, f), least, most);
    BoundedFits(size, o, RotatedParent(o, f), least, most);
  }

  // ---------------------------------------------------------------- the loop

  /** The nodes on the path are too big by one item at most. */
  predicate PathBounded(o: Limits, t: Tree, path: seq<nat>, most: nat)
    requires IsPath(t, path)
    decreases |path|
  {
    && NodeSize(t.items) as real <= o.max + most as real
    && (path != [] ==> PathBounded(o, t.kids[path[0]], path[1..], most))
  }

  lemma {:induction false} RoomySteps(size: nat, o: Limits, t: Tree, h: nat, path: seq<nat>, least: nat, most: nat)
    requires RoomyForMerges(size, o, least, most) && Balanced(t, h) && IsPath(t, path) && o.max >= 11.0
    requires EveryNode(UsualOn(least, most), t) && EverySide(NotOver(o), t, path) && PathBounded(o, t, path, most)
    ensures StepsFit(size, o, t, path)
    ensures UsualBody(BodyNow(o, t, path), least, most)
    ensures NodeSize(BodyNow(o, t, path).items) <= NodeSize(t.items) + most
    decreases |path|
  {
    if path != [] {
      var kid := t.kids[path[0]];
      assert Balanced(kid, h - 1) && EveryNode(UsualOn(least, most), kid);
      RoomySteps(size, o, kid, h - 1, path[1..], least, most);
      var f := FamilyOf(t, path[0], BodyNow(o, kid, path[1..]));
      if Under(o, f.child.items) && Proper(f) {
        FamilyIsUsual(o, t, path[0], f, least, most);
        RoomyStepFits(size, o, f, least, most);
        ParentAfterIsBounded(o, f, least, most);
      }
    }
  }

  lemma FamilyIsUsual(o: Limits, t: Tree, k: nat, f: Family, least: nat, most: nat)
    requires k < |t.kids| && f == FamilyOf(t, k, f.now) && UsualBody(f.now, least, most) && o.max >= 11.0
    requires EveryNode(UsualOn(least, most), t) && EveryTree(NotOver(o), t.kids[..k])
    requires EveryTree(NotOver(o), t.kids[k + 1..])
    ensures UsualFamily(f, least, most) && !Over(o, f.left.items) && !Over(o, f.right.items)
  {
    assert EveryNode(UsualOn(least, most), t.kids[k]);
    if k > 0 {
      assert t.kids[..k][k - 1] == t.kids[k - 1] && EveryNode(NotOver(o), t.kids[..k][k - 1]);
      assert EveryNode(UsualOn(least, most), t.kids[k - 1]);
    }
    if k + 1 < |t.kids| {
      assert t.kids[k + 1..][0] == t.kids[k + 1] && EveryNode(NotOver(o), t.kids[k + 1..][0]);
      assert EveryNode(UsualOn(least, most), t.kids[k + 1]);
    }
  }

  // ---------------------------------------------------------------- the operation

  lemma {:induction false} WithinIsBounded(o: Limits, t: Tree, path: seq<nat>, most: nat)
    requires IsPath(t, path) && Within(o, t)
    ensures PathBounded(o, t, path, most)
    decreases |path|
  {
    WithinIs(o, t);
    if path != [] {
      assert EveryNode(NotOver(o), t.kids[path[0]]);
      WithinIsBounded(o, t.kids[path[0]], path[1..], most);
    }
  }

  lemma {:induction false} GraftBounded(o: Limits, t: Tree, p: seq<nat>, v: Tree, q: seq<nat>, most: nat)
    requires IsPath(t, p) && IsPath(v, q) && Within(o, t) && PathBounded(o, v, q, most)
    ensures IsPath(Graft(t, p, v), p + q) && PathBounded(o, Graft(t, p, v), p + q, most)
    decreases |p|
  {
    if p == [] {
      assert p + q == q;
    } else {
      assert (p + q)[1..] == p[1..] + q;
      WithinIs(o, t);
      assert EveryNode(NotOver(o), t.kids[p[0]]);
      GraftBounded(o, t.kids[p[0]], p[1..], v, q, most);
    }
  }

  lemma SmallerPart(items: seq<Item>, n: nat)
    requires n <= |items|
    ensures NodeSize(items[..n]) <= NodeSize(items)
  {
    PayloadJoin(items[..n], items[n..]);
    assert items[..n] + items[n..] == items;
  }

  /** The last item of the rightmost leaf is usual. */
  lemma LastIsUsual(t: Tree, least: nat, most: nat)
    requires EveryNode(UsualOn(least, most), t) && IsPath(t, LastPath(t)) && Sub(t, LastPath(t)).items != []
    ensures UsualItem(LastItem(t), least, most)
  {
    EveryIs(UsualOn(least, most), t);
    SubEvery(UsualOn(least, most), t, LastPath(t));
    var items := Sub(t, LastPath(t)).items;
    assert UsualItem(items[|items| - 1], least, most);
  }

  /** The node of the key after the deletion: too big by one item at most, and so is what is below it on the path. */
  lemma ShrunkBounded(size: nat, o: Limits, x: Tree, h: nat, index: nat, least: nat, most: nat)
    requires Balanced(x, h) && index < |x.items| && HasPredecessor(x, index) && Within(o, x)
    requires RoomyForMerges(size, o, least, most) && EveryNode(UsualOn(least, most), x)
    ensures IsPath(Shrunk(x, index), LocalPath(x, index)) && PathBounded(o, Shrunk(x, index), LocalPath(x, index), most)
    ensures x.kids != [] ==> Fits(size, BodyOf(Shrunk(x, index)))
  {
    WithinIs(o, x);
    EveryIs(UsualOn(least, most), x);
    if x.kids == [] {
      PayloadWithout(x.items, index);
    } else {
      var kid, v := x.kids[index], Shrunk(x, index);
      assert Balanced(kid, h - 1) && EveryNode(NotOver(o), kid) && EveryNode(UsualOn(least, most), kid);
      LastIsUsual(kid, least, most);
      UsualReplaced(BodyOf(x), index, LastItem(kid), least, most);
      PoppedBounded(o, kid, most);
      assert BodyOf(v) == Body(x.items[index := LastItem(kid)], Pages(x.kids)) by {
        PoppedPage(kid);
        assert Pages(v.kids) == Pages(x.kids);
      }
      BoundedFits(size, o, BodyOf(v), least, most);
      assert LocalPath(x, index)[1..] == LastPath(kid);
    }
  }

  lemma PoppedPage(t: Tree)
    requires IsPath(t, LastPath(t)) && Sub(t, LastPath(t)).items != []
    ensures Popped(t).page == t.page
  {
    GraftPage(t, LastPath(t), PoppedLeaf(t));
  }

  lemma {:induction false} GraftPage(t: Tree, path: seq<nat>, v: Tree)
    requires IsPath(t, path) && v.page == Sub(t, path).page
    ensures Graft(t, path, v).page == t.page
    decreases |path|
  {
    if path != [] {
      GraftPage(t.kids[path[0]], path[1..], v);
    }
  }

  lemma PoppedBounded(o: Limits, t: Tree, most: nat)
    requires IsPath(t, LastPath(t)) && Sub(t, LastPath(t)).items != [] && Within(o, t)
    ensures IsPath(Popped(t), LastPath(t)) && PathBounded(o, Popped(t), LastPath(t), most)
  {
    var leaf, path := Sub(t, LastPath(t)), LastPath(t);
    WithinIs(o, t);
    SubEvery(NotOver(o), t, path);
    SmallerPart(leaf.items, |leaf.items| - 1);
    GraftBounded(o, t, path, PoppedLeaf(t), [], most);
    assert path + [] == path;
  }

  lemma RemovedUsual(items: seq<Item>, i: nat, least: nat, most: nat)
    requires i < |items| && Usual(items, least, most)
    ensures Usual(RemoveAt(items, i), least, most)
  {
  }

  /** On pages roomy for merges, everything that a removal writes fits, if no node is over-populated. */
  lemma RoomyRemoveFits(size: nat, c: Coll, t: Tree, key: Bytes, least: nat, most: nat)
    requires Valid(c, t) && CanRemove(c, t, key) && RoomyForMerges(size, c.db.lim, least, most) && Within(c.db.lim, t)
    requires Usual(InOrder(t), least, most) && PagesLeft(c.db.free, 0)
    ensures RemoveFits(size, c, t, key)
  {
    var s, h, o := Search(t, key), Height(t), c.db.lim;
    if s.found {
      var x, t1 := Sub(t, s.path), Deleted(t, s);
      FullPathIsPath(t, s);
      WithinIs(o, t);
      SafePageNums(c, t);
      UsualTree(t, h, least, most);
      DeletedBounded(size, o, t, h, s, least, most);
      RemoveIsDefined(c, t, key);
      DeletedFacts(t, h, s);
      RemovedUsual(InOrder(t), Position(t, s.path, s.index), least, most);
      UsualTree(t1, h, least, most);
      DeletedSides(NotOver(o), t, h, s);
      RoomySteps(size, o, t1, h, FullPath(t, s), least, most);
    }
  }

  lemma DeletedBounded(size: nat, o: Limits, t: Tree, h: nat, s: Spot, least: nat, most: nat)
    requires Balanced(t, h) && CanDelete(t, s) && Within(o, t) && EveryNode(UsualOn(least, most), t)
    requires RoomyForMerges(size, o, least, most)
    ensures IsPath(Deleted(t, s), FullPath(t, s)) && PathBounded(o, Deleted(t, s), FullPath(t, s), most)
    ensures Sub(t, s.path).kids != [] ==> Fits(size, BodyOf(Shrunk(Sub(t, s.path), s.index)))
  {
    var x := Sub(t, s.path);
    SubShape(t, h, s.path);
    WithinIs(o, t);
    EveryIs(UsualOn(least, most), t);
    SubEvery(NotOver(o), t, s.path);
    SubEvery(UsualOn(least, most), t, s.path);
    ShrunkBounded(size, o, x, h - |s.path|, s.index, least, most);
    GraftBounded(o, t, s.path, Shrunk(x, s.index), LocalPath(x, s.index), most);
  }

  /** Two of the option sets have such pages for items of these sizes; the one for small files has them for none. */
  lemma OptionSetsForMerges()
    ensures RoomyForMerges(4096, BALANCE, 14, 30) && RoomyForMerges(4096, BEST_PERFORMANCE, 5, 45)
    ensures forall least, most :: !RoomyForMerges(4096, BEST_FILE_SIZE, least, most)
  {
    forall least: nat, most: nat
      ensures !RoomyForMerges(4096, BEST_FILE_SIZE, least, most)
    {
      var z := MergeBound(BEST_FILE_SIZE, most);
      if 0 < least {
        TimesMonotone(4095.0, z, least as real);
      }
    }
  }
}
