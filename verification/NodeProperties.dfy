/** Properties of single nodes, and which nodes of a tree have them before and after a rebalancing step. */
module NodeProperties {
  import opened Trees
  import opened Sizing
  import opened Lookup
  import opened Rebalancing
  import opened Removing
  import opened StepShapes

  /** Every node of the tree has the property. */
  predicate EveryNode(good: Body -> bool, t: Tree)
    decreases t
  {
    && good(BodyOf(t))
    && forall i {:trigger EveryNode(good, t.kids[i])} :: 0 <= i < |t.kids| ==> EveryNode(good, t.kids[i])
  }

  predicate EveryTree(good: Body -> bool, kids: seq<Tree>) {
    forall i {:trigger EveryNode(good, kids[i])} :: 0 <= i < |kids| ==> EveryNode(good, kids[i])
  }

  lemma EveryIs(good: Body -> bool, t: Tree)
    ensures EveryNode(good, t) <==> good(BodyOf(t)) && EveryTree(good, t.kids)
  {
  }

  lemma EveryJoin(good: Body -> bool, a: seq<Tree>, b: seq<Tree>)
    ensures EveryTree(good, a + b) <==> EveryTree(good, a) && EveryTree(good, b)
  {
    var c := a + b;
    assert forall i :: 0 <= i < |a| ==> c[i] == a[i];
    assert forall i :: 0 <= i < |b| ==> c[|a| + i] == b[i];
    if EveryTree(good, c) {
      forall i | 0 <= i < |a|
        ensures EveryNode(good, a[i])
      {
        assert EveryNode(good, c[i]);
      }
      forall i | 0 <= i < |b|
        ensures EveryNode(good, b[i])
      {
        assert EveryNode(good, c[|a| + i]);
      }
    }
    if EveryTree(good, a) && EveryTree(good, b) {
      forall i | 0 <= i < |c|
        ensures EveryNode(good, c[i])
      {
        assert if i < |a| then EveryNode(good, a[i]) else EveryNode(good, b[i - |a|]);
      }
    }
  }

  lemma EveryOne(good: Body -> bool, t: Tree)
    ensures EveryTree(good, [t]) <==> EveryNode(good, t)
  {
    assert [t][0] == t;
  }

  lemma EveryAround(good: Body -> bool, a: seq<Tree>, t: Tree, b: seq<Tree>)
    ensures EveryTree(good, a + [t] + b) <==> EveryTree(good, a) && EveryNode(good, t) && EveryTree(good, b)
  {
    EveryJoin(good, a + [t], b);
    EveryJoin(good, a, [t]);
    EveryOne(good, t);
  }

  lemma EveryReplaced(good: Body -> bool, kids: seq<Tree>, k: nat, v: Tree)
    requires k < |kids|
    ensures EveryTree(good, kids[k := v])
       <==> EveryTree(good, kids[..k]) && EveryNode(good, v) && EveryTree(good, kids[k + 1..])
  {
    assert kids[k := v] == kids[..k] + [v] + kids[k + 1..];
    EveryAround(good, kids[..k], v, kids[k + 1..]);
  }

  lemma EveryParts(good: Body -> bool, kids: seq<Tree>, k: nat)
    requires k < |kids| && EveryTree(good, kids)
    ensures EveryTree(good, kids[..k]) && EveryTree(good, kids[k + 1..])
    ensures EveryNode(good, kids[k]) && EveryTree(good, kids[k].kids)
  {
    EveryReplaced(good, kids, k, kids[k]);
    assert kids[k := kids[k]] == kids;
  }

  lemma LastOfPart(kids: seq<Tree>, k: nat)
    requires 0 < k <= |kids|
    ensures kids[..k] == kids[..k - 1] + [kids[k - 1]] + []
  {
  }

  lemma FirstOfPart(kids: seq<Tree>, k: nat)
    requires k < |kids|
    ensures kids[k..] == [] + [kids[k]] + kids[k + 1..]
  {
  }

  // ---------------------------------------------------------------- one step

  lemma MergedEvery(good: Body -> bool, t: Tree, j: nat)
    requires 0 < j <= |t.items| && j < |t.kids|
    ensures EveryTree(good, MergedTree(t, j).kids)
       <==> && EveryTree(good, t.kids[..j - 1]) && good(BodyOf(MergedNode(t, j))) && EveryTree(good, t.kids[j - 1].kids)
            && EveryTree(good, t.kids[j].kids) && EveryTree(good, t.kids[j + 1..])
  {
    var m := MergedNode(t, j);
    EveryJoin(good, t.kids[j - 1].kids, t.kids[j].kids);
    assert EveryNode(good, m) <==> good(BodyOf(m)) && EveryTree(good, m.kids);
    EveryAround(good, t.kids[..j - 1], m, t.kids[j + 1..]);
  }

  /**
   * The two nodes below t that a step leaves changed: the merged one, and a right sibling that has given an item
   * away.
   */
  predicate StepEnds(good: Body -> bool, o: Limits, t: Tree, k: nat)
    requires 2 <= |t.kids| == |t.items| + 1 && k < |t.kids|
  {
    var w := StepSource(o, t, k);
    && good(BodyOf(MergedNode(w, Merges(k))))
    && (0 < k && k + 1 < |t.kids| && CanSpare(o, t.kids[k + 1].items) ==> good(BodyOf(w.kids[k + 1])))
  }

  /** Exactly when all nodes below t have the property after a step. */
  lemma StepEvery(good: Body -> bool, o: Limits, t: Tree, h: nat, k: nat)
    requires Balanced(t, h) && h > 0 && 2 <= |t.kids| && k < |t.kids|
    requires EveryTree(good, t.kids[..k]) && EveryTree(good, t.kids[k + 1..])
    ensures EveryTree(good, StepTree(o, t, k).kids) <==> EveryTree(good, t.kids[k].kids) && StepEnds(good, o, t, k)
  {
    StepIsMerge(o, t, h, k);
    if k == 0 {
      FirstOfPart(t.kids, 1);
      EveryAround(good, [], t.kids[1], t.kids[2..]);
      MergedEvery(good, t, 1);
    } else {
      LastOfPart(t.kids, k);
      EveryAround(good, t.kids[..k - 1], t.kids[k - 1], []);
      if k + 1 < |t.kids| && CanSpare(o, t.kids[k + 1].items) {
        RightGives(good, t, h, k);
      } else {
        MergedEvery(good, t, k);
      }
    }
  }

  lemma RightGives(good: Body -> bool, t: Tree, h: nat, k: nat)
    requires Balanced(t, h) && h > 0 && 0 < k && k + 1 < |t.kids| && t.kids[k + 1].items != []
    requires EveryTree(good, t.kids[..k - 1]) && EveryNode(good, t.kids[k - 1]) && EveryTree(good, t.kids[k + 1..])
    ensures var u := LeftRotated(t, k);
            EveryTree(good, MergedTree(u, k).kids) <==>
              EveryTree(good, t.kids[k].kids) && good(BodyOf(MergedNode(u, k))) && good(BodyOf(u.kids[k + 1]))
  {
    var u, b, c := LeftRotated(t, k), t.kids[k], t.kids[k + 1];
    assert Balanced(b, h - 1) && Balanced(c, h - 1);
    MergedEvery(good, u, k);
    assert u.kids[..k - 1] == t.kids[..k - 1] && u.kids[k + 2..] == t.kids[k + 2..];
    FirstOfPart(t.kids, k + 1);
    FirstOfPart(u.kids, k + 1);
    EveryAround(good, [], c, t.kids[k + 2..]);
    EveryAround(good, [], u.kids[k + 1], u.kids[k + 2..]);
    assert EveryNode(good, u.kids[k + 1]) <==> good(BodyOf(u.kids[k + 1])) && EveryTree(good, u.kids[k + 1].kids);
    if b.kids != [] {
      EveryJoin(good, b.kids, [c.kids[0]]);
      EveryOne(good, c.kids[0]);
      FirstOfPart(c.kids, 0);
      EveryAround(good, [], c.kids[0], c.kids[1..]);
      assert c.kids[0..] == c.kids;
    }
  }

  // ---------------------------------------------------------------- a path

  /** Off the path every node has the property. */
  predicate EverySide(good: Body -> bool, t: Tree, path: seq<nat>)
    requires IsPath(t, path)
    decreases |path|
  {
    if path == [] then EveryTree(good, t.kids)
    else
      && EveryTree(good, t.kids[..path[0]]) && EveryTree(good, t.kids[path[0] + 1..])
      && EverySide(good, t.kids[path[0]], path[1..])
  }

  lemma {:induction false} GraftSides(good: Body -> bool, t: Tree, p: seq<nat>, v: Tree, q: seq<nat>)
    requires IsPath(t, p) && EveryTree(good, t.kids) && IsPath(v, q) && EverySide(good, v, q)
    ensures IsPath(Graft(t, p, v), p + q) && EverySide(good, Graft(t, p, v), p + q)
    decreases |p|
  {
    if p == [] {
      assert p + q == q;
    } else {
      var k, r := p[0], Graft(t, p, v);
      EveryParts(good, t.kids, k);
      GraftSides(good, t.kids[k], p[1..], v, q);
      assert (p + q)[1..] == p[1..] + q;
      assert r.kids[..k] == t.kids[..k] && r.kids[k + 1..] == t.kids[k + 1..];
    }
  }

  lemma {:induction false} SubEvery(good: Body -> bool, t: Tree, p: seq<nat>)
    requires IsPath(t, p) && EveryTree(good, t.kids)
    ensures EveryTree(good, Sub(t, p).kids) && (p != [] ==> EveryNode(good, Sub(t, p)))
    decreases |p|
  {
    if p != [] {
      EveryParts(good, t.kids, p[0]);
      SubEvery(good, t.kids[p[0]], p[1..]);
    }
  }

  /** A tree with one subtree replaced by one on the same page. */
  lemma {:induction false} GraftEvery(good: Body -> bool, t: Tree, path: seq<nat>, v: Tree)
    requires IsPath(t, path) && EveryNode(good, t) && EveryNode(good, v) && v.page == Sub(t, path).page
    ensures EveryNode(good, Graft(t, path, v)) && Graft(t, path, v).page == t.page
    decreases |path|
  {
    if path != [] {
      var k := path[0];
      var w := Graft(t.kids[k], path[1..], v);
      EveryIs(good, t);
      EveryParts(good, t.kids, k);
      GraftEvery(good, t.kids[k], path[1..], v);
      EveryReplaced(good, t.kids, k, w);
      assert Pages(t.kids[k := w]) == Pages(t.kids);
      EveryIs(good, Graft(t, path, v));
    }
  }

  /** Right after a removal has taken its item out, nodes without the property are on the path at most. */
  lemma DeletedSides(good: Body -> bool, t: Tree, h: nat, s: Spot)
    requires Balanced(t, h) && CanDelete(t, s) && EveryTree(good, t.kids)
    ensures IsPath(Deleted(t, s), FullPath(t, s)) && EverySide(good, Deleted(t, s), FullPath(t, s))
  {
    var x, q := Sub(t, s.path), LocalPath(Sub(t, s.path), s.index);
    var v := Shrunk(x, s.index);
    SubEvery(good, t, s.path);
    if x.kids != [] {
      var kid := x.kids[s.index];
      var leaf := LastPath(kid);
      EveryParts(good, x.kids, s.index);
      SubEvery(good, kid, leaf);
      GraftSides(good, kid, leaf, PoppedLeaf(kid), []);
      assert leaf + [] == leaf && q[1..] == leaf;
      assert v.kids[..s.index] == x.kids[..s.index] && v.kids[s.index + 1..] == x.kids[s.index + 1..];
    }
    GraftSides(good, t, s.path, v, q);
  }
}
